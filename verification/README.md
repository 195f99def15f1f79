# YangIPC media path: a verified model

A Dafny model of the parts of the YangIPC camera firmware that move media and signalling messages between threads and
to the peer, with proofs of what those parts promise over all inputs, all interleavings and all runs.

## What is modelled

* **The multi-consumer frame queue** (`frame_que_v2.c`). `FrameList` and `FrameQueue` are the doubly linked lists, the
  nodes and the critical sections on the heap; every method is proved equal to a function of `QueueModel` on the lists
  as sequences. `QueueProtocol` runs those same functions as the atomic steps of a concurrent system: one producer
  thread, eight consumer threads, the semaphore, the buffer allocator, and the unlocked work of malloc, complete,
  cancel and release between their sections. `QueueInvariant`, `QueueSteps`, `QueueDelivery`, `QueueDrain`,
  `QueueFair`, `QueueWakeup`, `QueueClaim`, `QueueHand` and `VideoLoop` prove properties of all its runs; `QueueMalloc`
  and `QueueServe` say exactly what each call does in any of them, with other threads between its sections.
* **Packet framing** (`yangipc_transmission.c`, `yangipc_network.c`). `Transmission` is the unpack loop over the cache
  buffer and the packer; `Framing` states what unpacking any cutting of a byte stream delivers; `SocketSend` is the
  retry loops over a socket that accepts any part of a write or fails, and says when a send may fail; `EndToEnd`,
  `LaterSends` and `LostPackets` join both ends.
* **H264 congestion control and the back-pressured writer** (`yangipc_cs2_service.c`). `DropControl` updates the
  controller in place and equals `DropModel`, whose arithmetic has the source's 8-bit, 32-bit and signed widths;
  `DropLevels` says for all runs which level is in force and which frames are dropped; `DropRuns`, `DropFalls` and
  `DropAverages` prove further properties of them. `BackPressure` is the nested write loops.
* **The signalling server and its queue** (`YangIpcMessageServer.c`, `YangIpcMessage.c`, `YangVector.h`).
  `SignalServer` and `MessageVector` are the session and the growing array; `SignalRuns` is the whole system over
  runs, `SignalCallbacks` says which effects each of its steps has, and `SignalQueue`, `SignalIsolation` and
  `SignalUids` prove what it keeps.
* **The encoder glue** (`YangIpcEncoder.c`). `StartCode`, `AudioFifo`, the frames of a connection in `VideoFrames`, and
  one pass of the consumer loop in `VideoLoop`.

Environments have minimal contracts and otherwise answer arbitrarily: sockets (`SocketSend.Socket`), the PPCS library
(`BackPressure.Line`), the buffer allocator (the argument of `MallocFill`), the clock, the broker and the peer
connection (`SignalModel.World`), the encoder configuration (`DropModel.Input`), and the checksum (a parameter of
`Pack`).

## What the code does that its comments do not say

* `frame_que_v2.c:1379-1380` says that one post per active consumer lets all consumers wake up. A consumer may take
  the posts meant for another: `QueueWakeup.WakeupsKeptExactly` shows that no wakeup can be lost if and only if at most
  one consumer calls get_frame, and `QueueWakeup.WakeupLost` gives the losing run. The loser still wakes at its timeout.
* The unpacker compares neither with the size of its cache nor with the 16 bits of its count
  (`yangipc_transmission.c:204-205` and 313-324), and a message without payload is lost when the cut of the stream falls
  inside its header (line 351). `Framing.EveryCutDeliversExactly` gives the exact condition: every cut delivers all
  messages and stays within the cache if and only if each message has a payload and none is longer than the cache or
  than 65536 bytes. `Framing.LargePayloadOverruns` is a payload of 2000 bytes on a channel for 1460, the size of the
  TCP audio channel, cut anywhere.
* A failed send can leave a part of its message on the wire, and nothing resynchronises the peer.
  `LaterSends.LaterSendsExactly`: the packets sent successfully all arrive, and only they, with nothing left over, for
  every cutting of the stream, if and only if every failed send put nothing on the wire. What the first such part costs,
  however the later sends end, is in `LostPackets`: after one byte none of the later packets need ever arrive
  (`OneByteLosesSession`); after two or more the packet that is sent successfully next is not what the peer gets next
  (`NextPacketLost`), except by a chance that needs four to nine bytes (`MixedIsRare`) and can happen
  (`MixedCanHappen`).
* The expiry check takes no lock: a login that comes between its call of close and its clearing of the session is ended
  without having been closed, until the next login closes it. `SignalUids.CloseMissed` is such a run;
  `SignalUids.UidsClosed` and `AlwaysClosedExactly` show that nothing else keeps a uid from being closed. Nor does the
  check wait for a message being handled: in `SignalIsolation.HandledAfterExpiry` one is delivered to a session that has
  ended since it was verified.
* putMessage tests isLoop before it takes the lock: `SignalQueue.MessageStranded` is a run in which a message is
  inserted after the final drain, and `SignalQueue.AllHandledExactly` shows that this is the only way for one not to be
  handled.
* The send functions and the image sender cut their size to 16 bits and report success for what remains: everything
  said here about whole messages is about messages of fewer than 2^16 bytes with their header.
* A login without a client id is accepted, and what is then meant for that client goes to the topic that all clients
  share, with the camera's own client id in it: `SignalIsolation.CandidateShared` is such a run for a local candidate,
  and `SignalIsolation.NeverSharedExactly` shows that candidates stay on the topic of the client logged in if and only
  if no client with an empty id may log in.
* The numerator of the average backlog, `status_total_size*1024`, can exceed 32 bits. For every PPCS_TX_BUFFER_THD,
  `DropAverages.AveragesExact` gives the exact limit on the backlog; the runs that need it use frames whose size wraps
  around when the backlog is added. `AveragesFitBehindWriter` shows that the writer keeps the backlog below that limit
  for every buffer of up to 30 MB, and so for the 128 KB to 1 MB that `yangipc_cs2_service.c:1063-1065` names;
  `AveragesNeedABound` shows that with 61 MB it does not, even for empty frames.
* The unit type of a P frame is read behind a start code assumed to be at offset 0: `StartCode.PayloadCanBeWrong` is a
  frame whose payload is wrong for that reason, `StartCode.CodeAtOneIsWrong` a family of them, and
  `StartCode.PayloadRightExactly` says for which frames the payload is the intended one.
* The room test of the audio buffer adds in 32 bits: `AudioFifo.NeverOverrunsExactly` says for which puts it is right.

## Model

| member | source | states |
|---|---|---|
| QueueSteps.InvariantAlways | bk7258/bk_solution_yangipc/components/smart_lock/src/frame/frame_que_v2.c:480-1537 | In every run from init, whatever the interleaving of register, unregister, malloc, complete, cancel, get, release and clear_all: every node and every live buffer is in exactly one place, ref_count is the number of holders, holders are in accessed_mask, accessed_mask is in consumer_mask, the awaited consumers are active, and a ready node is held, awaited or addressed to nobody |
| QueueSteps.NextKeeps | bk7258/bk_solution_yangipc/components/smart_lock/src/frame/frame_que_v2.c:663-1537 | Each single critical section, and each unlocked piece of work between two, keeps that invariant |
| QueueDelivery.H264Lossless | bk7258/bk_solution_yangipc/components/smart_lock/src/frame/frame_que_v2.c:925-953 | Without clear_all, what a registered consumer of H264 has got is exactly the first completions since it registered, in order and without gap, and the rest is on the ready list waiting for it, in order |
| QueueDelivery.DeliveredInOrder | bk7258/bk_solution_yangipc/components/smart_lock/src/frame/frame_que_v2.c:1012-1038 | In every format, with oldest-frame reuse and clear_all, a consumer gets each completion at most once, in completion order, and only completions since it registered |
| QueueDelivery.GotTheCompletedBuffer | bk7258/bk_solution_yangipc/components/smart_lock/src/frame/frame_que_v2.c:1330-1359 | The buffer that get_frame returns is the one whose completion it logs, and the allocator still considers it live |
| QueueDelivery.HeldFrameIsStable | bk7258/bk_solution_yangipc/components/smart_lock/src/frame/frame_que_v2.c:1442-1488 | Until the holder releases it, a held frame stays ready in the same node with the same buffer and completion, and the buffer is not freed, under every run of the other threads |
| QueueDrain.WeightNext | bk7258/bk_solution_yangipc/components/smart_lock/src/frame/frame_que_v2.c:1339-1353 | A successful get or a release takes exactly one from the sum of 2 * awaited + ref_count over the ready list; no other step except complete adds to it |
| QueueDrain.ServiceIsBounded | bk7258/bk_solution_yangipc/components/smart_lock/src/frame/frame_que_v2.c:1470-1480 | Between completions the number of successful gets and releases, in any interleaving, is bounded by that sum |
| QueueDrain.EverythingDrains | bk7258/bk_solution_yangipc/components/smart_lock/src/frame/frame_que_v2.c:916-956 | From every reachable state with an active consumer there is a run of the consumers' own steps, without any other thread, that brings every node that init made back to the free list |
| QueueDrain.QuiescentIsDrained | bk7258/bk_solution_yangipc/components/smart_lock/src/frame/frame_que_v2.c:1470-1480 | No frame leaks: in every reachable state in which the active consumers hold nothing and would find nothing, the ready list is empty and every node that init made is on the free list |
| QueueFair.FairRoundsDrain | bk7258/bk_solution_yangipc/components/smart_lock/src/frame/frame_que_v2.c:1330-1359 | While nothing is completed, consumers that take their turns empty the ready list in whatever order they run and however often they poll in vain: as many fair rounds suffice as there are gets and releases to make |
| QueueFair.FairServes | bk7258/bk_solution_yangipc/components/smart_lock/src/frame/frame_que_v2.c:1339-1353 | As long as anything is ready, a round in which every active consumer searches and every holder releases serves somebody |
| QueueWakeup.WakeupsKeptExactly | bk7258/bk_solution_yangipc/components/smart_lock/src/frame/frame_que_v2.c:1361-1391 | A consumer that has found nothing and is about to wait while a frame is ready for it always has a post in the semaphore or pending in complete, if and only if at most one consumer calls get_frame |
| QueueWakeup.WakeupLost | bk7258/bk_solution_yangipc/components/smart_lock/src/frame/frame_que_v2.c:1182-1192 | With two consumers calling get_frame, a run after which one sleeps on a ready frame with the semaphore empty and no post pending |
| QueueSteps.HeldIsFirst | bk7258/bk_solution_yangipc/components/smart_lock/src/frame/frame_que_v2.c:1442-1456 | The first ready node with a held buffer, which is the one release_frame finds, is the node the consumer holds |
| QueueClaim.MallocHandsOut | bk7258/bk_solution_yangipc/components/smart_lock/src/frame/frame_que_v2.c:1050-1104 | In every run, when malloc returns a buffer, its node is on the free list, claimed, with this buffer |
| QueueClaim.ClaimIsStable | bk7258/bk_solution_yangipc/components/smart_lock/src/frame/frame_que_v2.c:995-1104 | Until it is completed or cancelled or the queue is cleared, a buffer that malloc has returned stays allocated and claimed in its node, under every run of the other threads and of further mallocs |
| QueueClaim.ClaimIsFound | bk7258/bk_solution_yangipc/components/smart_lock/src/frame/frame_que_v2.c:1140-1160 | So complete and cancel find that node by its buffer, which is live |
| QueueHand.OccupiedExactly | bk7258/bk_solution_yangipc/components/smart_lock/src/frame/frame_que_v2.c:995-1040 | In every run the nodes marked in_use on the free list are exactly those that malloc has claimed and that no complete, cancel, failed malloc or clear_all has given back |
| QueueHand.OccupiedHasBuffer | bk7258/bk_solution_yangipc/components/smart_lock/src/frame/frame_que_v2.c:1050-1104 | In every run a node marked in_use on the free list has a live buffer, unless malloc is at work on it |
| QueueHand.OthersAppend | bk7258/bk_solution_yangipc/components/smart_lock/src/frame/frame_que_v2.c:705-718 | No step of the consumers or of the first section of clear_all changes a node of the free list; the nodes they recycle come behind its tail, for nobody, accessed by nobody and not in use |
| QueueMalloc.MallocClaimsExactly | bk7258/bk_solution_yangipc/components/smart_lock/src/frame/frame_que_v2.c:995-1040 | In every run malloc claims the first free node that is not in use; without one, for MJPEG and YUV only, the oldest ready node that nobody holds, which moves to the head of the free list; without that either, nothing |
| QueueMalloc.MallocFillsExactly | bk7258/bk_solution_yangipc/components/smart_lock/src/frame/frame_que_v2.c:1050-1099 | Whatever other threads do in between, malloc then hands out the buffer its node had when it was claimed, otherwise the one the allocator supplies; with neither it fails, and the node is on the free list and not in use |
| QueueMalloc.MallocNotesActive | bk7258/bk_solution_yangipc/components/smart_lock/src/frame/frame_que_v2.c:1101-1104 | At its end the node's mask is that of the consumers active at that moment |
| QueueMalloc.CancelRefuses | bk7258/bk_solution_yangipc/components/smart_lock/src/frame/frame_que_v2.c:1231-1252 | Cancel changes something if and only if the producer has a node in use with this buffer |
| QueueMalloc.CancelUndoes | bk7258/bk_solution_yangipc/components/smart_lock/src/frame/frame_que_v2.c:1231-1279 | After cancel of a buffer in use, with any steps of other threads inside it, its node is on the free list, not in use and without buffer, the buffer is freed, nothing else has changed, and malloc can claim again |
| QueueMalloc.CompleteExactly | bk7258/bk_solution_yangipc/components/smart_lock/src/frame/frame_que_v2.c:1140-1192 | Complete changes something only for a buffer in use: it becomes the newest ready frame, addressed to exactly the consumers active then, with one post for each of them and at least one |
| QueueMalloc.ClearKeepsHeld | bk7258/bk_solution_yangipc/components/smart_lock/src/frame/frame_que_v2.c:676-718 | After the first section of clear_all exactly the held frames are ready, as they were and in order; the others are on the free list with their buffers and not in use |
| QueueMalloc.ClearFreesAll | bk7258/bk_solution_yangipc/components/smart_lock/src/frame/frame_que_v2.c:725-762 | After the second no node of the free list is in use or has a buffer, and the only buffers still allocated are those of ready frames and those that a release is about to free |
| QueueServe.GetsExactly | bk7258/bk_solution_yangipc/components/smart_lock/src/frame/frame_que_v2.c:1330-1359 | In every run get_frame finds the oldest ready frame that waits for the consumer, references and marks it, and goes to wait exactly when there is none; for a consumer that is not registered there is none |
| QueueServe.ReleasesExactly | bk7258/bk_solution_yangipc/components/smart_lock/src/frame/frame_que_v2.c:1442-1488 | A release takes exactly the consumer's own reference off the frame it holds, and unlinks the node if and only if then nobody holds it and nobody it was addressed to has still to get it |
| QueueServe.ReleaseEnds | bk7258/bk_solution_yangipc/components/smart_lock/src/frame/frame_que_v2.c:1491-1527 | The rest of such a release, with any steps of other threads between its sections, frees the buffer and appends the node, reset and without buffer, to the free list |
| VideoLoop.LoopMeetsDiscipline | bk7258/bk_solution_yangipc/projects/yangipc/ap/components/yangencoder/src/YangIpcEncoder.c:233-253 | In every interleaving, a consumer thread that follows the program of the loop holds exactly the frame the loop is at work on, so each of its releases is of a frame it holds, and inside get_frame and between passes it holds none |
| VideoLoop.Pass | bk7258/bk_solution_yangipc/projects/yangipc/ap/components/yangencoder/src/YangIpcEncoder.c:233-253 | One pass over the frames in memory: the frame got is released once on every branch, what the peer gets of it is what `VideoFrames` says for the time base found, and the base changes only when it was 0 |
| VideoFrames.TimesAreRelative | bk7258/bk_solution_yangipc/projects/yangipc/ap/components/yangencoder/src/YangIpcEncoder.c:239-241 | In a connection, each frame handed on carries its time since the first frame of at least four bytes whose timestamp is not 0, in 32 bits |
| VideoFrames.TimesDiffer | bk7258/bk_solution_yangipc/projects/yangipc/ap/components/yangencoder/src/YangIpcEncoder.c:241 | So the times of any two frames from then on differ as their timestamps do |
| VideoFrames.HandedOnExactly | bk7258/bk_solution_yangipc/projects/yangipc/ap/components/yangencoder/src/YangIpcEncoder.c:235-252 | Exactly the frames of at least four bytes are handed on that are I frames or have a payload behind a start code; an I frame whole and as key frame, a P frame from its payload on and not as one |
| VideoLoop.PassIsRun | bk7258/bk_solution_yangipc/projects/yangipc/ap/components/yangencoder/src/YangIpcEncoder.c:233-253 | What the pass does to the queue is what a run of the loop's program does to it, from the top of the loop back to its top |
| FrameList.FrameList.AddTail | bk7258/bk_solution_yangipc/components/smart_lock/src/frame/frame_que_v2.c:216-239 | The list stays doubly linked, acyclic and counted, and becomes the old one with the node last |
| FrameList.FrameList.AddHead | bk7258/bk_solution_yangipc/components/smart_lock/src/frame/frame_que_v2.c:259-282 | The same with the node first |
| FrameList.FrameList.Remove | bk7258/bk_solution_yangipc/components/smart_lock/src/frame/frame_que_v2.c:302-331 | Constant-time unlinking of any node: exactly its position disappears, links and count stay right, and its own links are cleared |
| FrameList.FrameList.PopHead | bk7258/bk_solution_yangipc/components/smart_lock/src/frame/frame_que_v2.c:370-401 | The head is unlinked and returned; null exactly for an empty list |
| FrameList.FrameList.Search | bk7258/bk_solution_yangipc/components/smart_lock/src/frame/frame_que_v2.c:1330-1345 | A search loop over the links returns the first node that matches, or null when none does |
| FrameQueue.FrameQueue.constructor | bk7258/bk_solution_yangipc/components/smart_lock/src/frame/frame_que_v2.c:551-559 | Init: all nodes are on the free list, without buffers, and no consumer is active |
| FrameQueue.FrameQueue.Register | bk7258/bk_solution_yangipc/components/smart_lock/src/frame/frame_que_v2.c:778-861 | An id without a valid bit changes nothing; otherwise the consumer becomes active and exactly the ready nodes addressed to nobody and held by nobody move, reset and in order, to the free tail |
| FrameQueue.FrameQueue.Unregister | bk7258/bk_solution_yangipc/components/smart_lock/src/frame/frame_que_v2.c:870-965 | The consumer becomes inactive and leaves the masks of the frames it had still to access; exactly the nodes that this leaves unheld and unawaited move, in order, to the free tail |
| FrameQueue.FrameQueue.SweepWithdrawn | bk7258/bk_solution_yangipc/components/smart_lock/src/frame/frame_que_v2.c:916-956 | The loop that unlinks nodes while it walks the list keeps the order of both lists and visits every node once |
| FrameQueue.FrameQueue.ClaimNode | bk7258/bk_solution_yangipc/components/smart_lock/src/frame/frame_que_v2.c:995-1040 | The first unoccupied free node is claimed; failing that, for MJPEG and YUV only, the oldest unheld ready node moves to the free head, claimed |
| FrameQueue.FrameQueue.FillNode | bk7258/bk_solution_yangipc/components/smart_lock/src/frame/frame_que_v2.c:1050-1099 | The buffer returned is the one the claimed node has, otherwise the allocator's; with neither the node is given up, otherwise its counts are cleared and it stays in use |
| FrameQueue.FrameQueue.NoteActive | bk7258/bk_solution_yangipc/components/smart_lock/src/frame/frame_que_v2.c:1102-1104 | The claimed node notes the consumers active now |
| FrameQueue.FrameQueue.Complete | bk7258/bk_solution_yangipc/components/smart_lock/src/frame/frame_que_v2.c:1121-1197 | The claimed node with the buffer moves to the ready tail, addressed to the consumers active now, with one post per active consumer and at least one; an unknown buffer changes nothing |
| FrameQueue.FrameQueue.DisclaimNode | bk7258/bk_solution_yangipc/components/smart_lock/src/frame/frame_que_v2.c:1231-1246 | Cancel's section finds the node in use with the buffer and ends that use |
| FrameQueue.FrameQueue.ForgetBuffer | bk7258/bk_solution_yangipc/components/smart_lock/src/frame/frame_que_v2.c:1256-1276 | Cancel frees the buffer of that node outside the section |
| FrameQueue.FrameQueue.EnabledIndex | bk7258/bk_solution_yangipc/components/smart_lock/src/frame/frame_que_v2.c:1302-1321 | The index of the consumer if it is enabled, otherwise an error |
| FrameQueue.FrameQueue.GetFrame | bk7258/bk_solution_yangipc/components/smart_lock/src/frame/frame_que_v2.c:1330-1359 | The first ready frame addressed to the consumer that it has not accessed is referenced and marked, and returned; None exactly when there is none |
| FrameQueue.FrameQueue.ReleaseFrame | bk7258/bk_solution_yangipc/components/smart_lock/src/frame/frame_que_v2.c:1404-1488 | An id without a valid bit changes nothing; otherwise one reference of the node with the buffer is dropped; it is unlinked exactly when nobody holds it and everyone addressed has accessed it |
| FrameQueue.FrameQueue.FreeUnlinked | bk7258/bk_solution_yangipc/components/smart_lock/src/frame/frame_que_v2.c:1491-1510 | The unlinked node's buffer is freed outside the section, and the lists do not change |
| FrameQueue.FrameQueue.ReturnNode | bk7258/bk_solution_yangipc/components/smart_lock/src/frame/frame_que_v2.c:1517-1527 | The node is reset and appended to the free list |
| FrameQueue.FrameQueue.ClearReady | bk7258/bk_solution_yangipc/components/smart_lock/src/frame/frame_que_v2.c:676-718 | Exactly the unheld ready nodes move, reset and in order, to the free tail |
| FrameQueue.FrameQueue.ClearFree | bk7258/bk_solution_yangipc/components/smart_lock/src/frame/frame_que_v2.c:725-762 | Every free node loses its claim and its buffer, and exactly those buffers are freed, once each and in order |
| FrameQueue.FrameQueue.Deinit | bk7258/bk_solution_yangipc/components/smart_lock/src/frame/frame_que_v2.c:597-642 | Both lists end empty and every buffer of both is freed once |
| Masks.CountActiveConsumers | bk7258/bk_solution_yangipc/components/smart_lock/src/frame/frame_que_v2.c:170-179 | The shifting loop counts the bits of any mask, which are the consumers of a mask of consumers |
| Masks.ConsumerIndex | bk7258/bk_solution_yangipc/components/smart_lock/src/frame/frame_que_v2.c:794-802 | The loop finds the lowest valid bit of the id, or -1 exactly when it has none |
| Masks.Covers | bk7258/bk_solution_yangipc/components/smart_lock/src/frame/frame_que_v2.c:1470-1480 | (accessed & mask) == mask is inclusion of the sets of consumers |
| Framing.EveryCutDeliversExactly | bk7258/bk_solution_yangipc/components/smart_lock/src/yangipc_transmission.c:132-363 | With a cache of a given size, every way of cutting the stream of messages into unpack calls delivers all of them and stays within the cache and its 16-bit count, if and only if every message has a payload and none is longer than the cache or than 65536 bytes |
| Framing.ChunkingIsIrrelevant | bk7258/bk_solution_yangipc/components/smart_lock/src/yangipc_transmission.c:132-363 | With payloads and messages that fit the cache, any cutting delivers exactly the payloads, flags, timestamps and sequence numbers in order, leaves the cache empty and never overruns it |
| Framing.LongMessageOverruns | bk7258/bk_solution_yangipc/components/smart_lock/src/yangipc_transmission.c:204-205 | A message longer than the cache is written past its end by a cut anywhere inside it, and one of more than 65536 bytes wraps the count around by a cut behind byte 65535 |
| Framing.LargePayloadOverruns | bk7258/bk_solution_yangipc/components/smart_lock/src/yangipc_transmission.c:313-324 | A payload of 2000 bytes on a channel for 1460, cut anywhere, overruns the cache |
| Framing.FeedStream | bk7258/bk_solution_yangipc/components/smart_lock/src/yangipc_transmission.c:268-350 | At every moment of a session the messages whose bytes are complete have been delivered, and the cache holds the unconsumed proper prefix of the next message, within its size |
| Framing.EmptyPayloadStalls | bk7258/bk_solution_yangipc/components/smart_lock/src/yangipc_transmission.c:351-356 | A message without payload is not delivered when the stream is cut in two anywhere inside its header, nor is anything after it |
| Framing.PackedDelivers | bk7258/bk_solution_yangipc/components/smart_lock/src/yangipc_transmission.c:400-426 | A packed message is one message of the stream, and delivers the payload, flags, timestamp and sequence number it was packed from |
| Transmission.Channel.Unpack | bk7258/bk_solution_yangipc/components/smart_lock/src/yangipc_transmission.c:132-363 | The loop over the cache buffer in place makes the callbacks and leaves the cache that the stream semantics says, with a 16-bit count |
| Transmission.Channel.Pack | bk7258/bk_solution_yangipc/components/smart_lock/src/yangipc_transmission.c:400-426 | The send buffer holds header and payload, with the next 16-bit sequence number |
| Transmission.Channel.constructor | bk7258/bk_solution_yangipc/components/smart_lock/src/yangipc_transmission.c:78-130 | An empty cache of one header and the largest payload, whose recorded size is cut to 16 bits |
| Transmission.TransmissionMalloc | bk7258/bk_solution_yangipc/components/smart_lock/src/yangipc_transmission.c:78-130 | A new empty channel, or none when one of its buffers cannot be allocated |
| SocketSend.SocketWrite | bk7258/bk_solution_yangipc/components/smart_lock/src/yangipc_network.c:231-281 | At most 2001 writes; either the length cut to 16 bits went to the socket, once and in order, and its end is returned, or a negative value is returned and a proper prefix went out; the latter only when the descriptor was found closed or all 2001 writes were made |
| SocketSend.SocketSendTo | bk7258/bk_solution_yangipc/components/smart_lock/src/yangipc_network.c:169-229 | The same, except that a write that fails otherwise than with a full buffer also ends the send; a negative offset reaches back over the header |
| SocketSend.PackSend | bk7258/bk_solution_yangipc/components/smart_lock/src/yangipc_transmission.c:428-445 | Pack and send with the channel's callback or else the one given: a non-negative result means that exactly the packed message was written, when it fits 16 bits; without a callback nothing is written and the result is negative; with one it is negative only after trouble with the socket |
| SocketSend.PrepareAndSend | bk7258/bk_solution_yangipc/components/smart_lock/src/yangipc_udp_service.c:66-81 | The image path: pack, then send from the header on; a non-negative result is the payload's length and means that exactly the packed message was written, when it fits 16 bits; a negative one comes only from trouble with the socket |
| EndToEnd.SendAll | bk7258/bk_solution_yangipc/components/smart_lock/src/yangipc_transmission.c:428-445 | Packets sent one after another over one channel and one socket are a session: each message goes out wholly, or in part or not at all with a negative result, with consecutive sequence numbers, and the wire is their concatenation; every result is non-negative when the descriptor stays open, no write fails otherwise than with a full buffer, and each send is through before its 2001st write |
| EndToEnd.SentIsReceived | bk7258/bk_solution_yangipc/components/smart_lock/src/yangipc_transmission.c:428-445 | When every send reports success, under any partial writes and any received chunks the callbacks get exactly the packets sent |
| EndToEnd.FailedSendIsNotReceived | bk7258/bk_solution_yangipc/components/smart_lock/src/yangipc_network.c:231-281 | When the last send fails, exactly the packets before it are received and the cache holds the part of it that went out |
| LaterSends.LaterSendsExactly | bk7258/bk_solution_yangipc/components/smart_lock/src/yangipc_network.c:231-281 | When any sends of a session fail, every cutting of the stream delivers exactly the packets sent successfully, leaves nothing over and stays within the cache, if and only if every failed send put nothing on the wire |
| LostPackets.OneByteLosesAll | bk7258/bk_solution_yangipc/components/smart_lock/src/yangipc_transmission.c:245-300 | One byte of a failed send and then a stream that begins with a message: when the header completes in the cache, nothing is delivered any more, whatever follows and however it is cut |
| LostPackets.OneByteLosesSession | bk7258/bk_solution_yangipc/components/smart_lock/src/yangipc_network.c:231-281 | In any session, after the first failed send that left something on the wire, if that was one byte, the stream can be cut so that exactly the packets sent successfully before it are delivered and none of the later ones, however their sends end |
| LostPackets.NextPacketLost | bk7258/bk_solution_yangipc/components/smart_lock/src/yangipc_network.c:231-281 | If it was two bytes or more, then for any cutting of the rest the packet that is sent successfully next is not what the peer gets next, and the peer does not get the successful packets, however the later sends end, unless the mixed header spells that packet's own |
| LostPackets.MixedIsRare | bk7258/bk_solution_yangipc/components/smart_lock/src/yangipc_transmission.c:400-426 | That can happen only when the failed send put four to nine bytes on the wire |
| LostPackets.MixedCanHappen | bk7258/bk_solution_yangipc/components/smart_lock/src/yangipc_transmission.c:400-426 | And it can: four bytes of a failed send and then a packet that is delivered as if nothing had happened, with four bytes left behind |
| LostPackets.WrongMagicDropsInput | bk7258/bk_solution_yangipc/components/smart_lock/src/yangipc_transmission.c:176-200 | Where a message should begin in the input and its magic number is wrong, the complete messages before it have been delivered, the rest of that input is dropped, and the next input is read from its start |
| LostPackets.WrongMagicInCacheSticks | bk7258/bk_solution_yangipc/components/smart_lock/src/yangipc_transmission.c:245-300 | Once a header with a wrong magic number is complete in the cache, nothing is delivered any more |
| DropRuns.KeyFramesAlwaysPass | bk7258/bk_solution_yangipc/components/smart_lock/src/yangipc_cs2_service.c:384-434 | In every run, with any sizes, failed checks and lost sessions, the drop check never refuses an I frame, the level stays below 6 and I_frame_droped stays false |
| DropRuns.FallsAreApart | bk7258/bk_solution_yangipc/components/smart_lock/src/yangipc_cs2_service.c:241-276 | In every run the level falls only on I frames, and two falls are at least ten I frames apart |
| DropFalls.FallsTenApart | bk7258/bk_solution_yangipc/components/smart_lock/src/yangipc_cs2_service.c:241-276 | A run with two falls exactly ten I frames apart: the distance cannot be improved |
| DropRuns.LevelIffPeriod | bk7258/bk_solution_yangipc/components/smart_lock/src/yangipc_cs2_service.c:293-332 | After every level check of every run, failed checks and lost sessions included, the level is zero exactly when the period is, and the period is at most 30 |
| DropRuns.SteadyLevelIffPeriod | bk7258/bk_solution_yangipc/components/smart_lock/src/yangipc_cs2_service.c:293-332 | While no check fails and no session is lost, the same holds after every frame |
| DropAverages.AveragesExact | bk7258/bk_solution_yangipc/components/smart_lock/src/yangipc_cs2_service.c:241-256 | For each PPCS_TX_BUFFER_THD, while the buffer can be checked and GOPs have at most five P frames, over frames of any 32-bit size, status_total_size*1024 fits 32 bits in all runs with backlogs up to a limit, if and only if 179 times the limit does |
| DropAverages.AveragesExactFor | bk7258/bk_solution_yangipc/components/smart_lock/src/yangipc_cs2_service.c:241-256 | The same equivalence for frames up to any given size, whenever some frame of that size puts the least failing backlog into the first level interval |
| DropAverages.AveragesFitBehindWriter | bk7258/bk_solution_yangipc/components/smart_lock/src/yangipc_cs2_service.c:1052-1065 | Behind the writer's threshold and one packet, the numerator fits for every PPCS buffer of up to 30 MB and frames of any size |
| DropAverages.AveragesNeedABound | bk7258/bk_solution_yangipc/components/smart_lock/src/yangipc_cs2_service.c:241-256 | Behind the writer with a buffer of 61 MB, a run of empty frames exceeds 32 bits |
| DropRuns.FewPFramesSent | bk7258/bk_solution_yangipc/components/smart_lock/src/yangipc_cs2_service.c:344-351 | If the level is at least d at every check of a GOP, at most 5 - d of its P frames are sent |
| DropRuns.SentArePrefix | bk7258/bk_solution_yangipc/components/smart_lock/src/yangipc_cs2_service.c:418-434 | If the backlog stays at or above half the start threshold, the P frames sent are the first ones of the GOP |
| DropLevels.CheckedExactly | bk7258/bk_solution_yangipc/components/smart_lock/src/yangipc_cs2_service.c:278-354 | In every run, at a frame that comes to the level check, the level is the one whose threshold the size reaches, or when that is lower, after a finished period, that of the average backlog; a P frame is dropped if and only if its number in the GOP and the level reach six together, and nothing is while no level is in force or asked for |
| DropLevels.UncheckedExactly | bk7258/bk_solution_yangipc/components/smart_lock/src/yangipc_cs2_service.c:374-425 | Any other frame leaves the level as it is, and is dropped if and only if it is a P frame of a GOP being dropped whose backlog could be checked and has not come down to half the start threshold |
| DropLevels.DroppingExactly | bk7258/bk_solution_yangipc/components/smart_lock/src/yangipc_cs2_service.c:381-434 | After every frame the rest of the GOP is being dropped if and only if the last frame that came to the controller was dropped; I frames, lost sessions and failed checks end it |
| DropLevels.SupportedExactly | bk7258/bk_solution_yangipc/components/smart_lock/src/yangipc_cs2_service.c:362-379 | The controller works if and only if the first configuration it was told has five P frames in a GOP |
| DropLevels.SentExactly | bk7258/bk_solution_yangipc/components/smart_lock/src/yangipc_cs2_service.c:344-351 | While the level stays at d, exactly those P frames of a GOP are sent whose number is less than 6 - d, and at level 0 all |
| DropLevels.ThresholdsAre | bk7258/bk_solution_yangipc/components/smart_lock/include/yangipc_cs2_service.h:22-27 | Images may fill three quarters of the library's buffer, dropping starts at half of that, and a level covers a seventh of that half, all rounded down |
| DropControl.DropControl.RecordMap | bk7258/bk_solution_yangipc/components/smart_lock/src/yangipc_cs2_service.c:212-239 | Counting a frame in its GOP and in the drop period, in 8-bit fields |
| DropControl.DropControl.DownDropLevel | bk7258/bk_solution_yangipc/components/smart_lock/src/yangipc_cs2_service.c:241-276 | The level after an average over a finished period, never above the current one unless the average asks for it |
| DropControl.DropControl.DropLevelCheck | bk7258/bk_solution_yangipc/components/smart_lock/src/yangipc_cs2_service.c:278-354 | The new level, period and statistics, and whether the frame is dropped |
| DropControl.DropControl.DropCheck | bk7258/bk_solution_yangipc/components/smart_lock/src/yangipc_cs2_service.c:356-436 | The whole controller step, including unknown encoder configurations, lost sessions and failed buffer checks |
| BackPressure.P2pWrite | bk7258/bk_solution_yangipc/components/smart_lock/src/yangipc_cs2_service.c:1024-1112 | The bytes written are a prefix of the data, all of what a non-negative result counts, and at no moment does the backlog exceed the threshold by more than one write; it fails exactly when a check or a write does, and writes less than all only when it sees the backlog above the threshold |
| BackPressure.SendImage | bk7258/bk_solution_yangipc/components/smart_lock/src/yangipc_cs2_service.c:107-182 | The packet, cut to 16 bits, is given to the library once and in order, header and payload whole when they fit 16 bits, unless the channel is not ready, the session is found closed, or a check or a write fails, and exactly then the result is -1; at no moment does the backlog exceed the image threshold plus one packet |
| BackPressure.SendEvent | bk7258/bk_solution_yangipc/components/smart_lock/src/yangipc_cs2_service.c:1122-1151 | The same for commands, which do not look at the session |
| BackPressure.ThresholdsShare | bk7258/bk_solution_yangipc/components/smart_lock/include/yangipc_cs2_service.h:22-23 | Commands may fill the library's buffer, images three quarters of it and audio the rest |
| SignalIsolation.Isolation | bk7258/bk_solution_yangipc/projects/yangipc/ap/components/yangsignal/src/yangsignal/YangIpcMessageServer.c:168-331 | Over whole runs a message causes a peer, candidate, data or close callback, or a publication, only if its client is the one of the last login handled and that session has not expired; what is published goes to that client's own topic if and only if its id is not empty, otherwise to the shared topic |
| SignalIsolation.CandidatesStayPrivate | bk7258/bk_solution_yangipc/projects/yangipc/ap/components/yangsignal/src/yangsignal/YangIpcMessageServer.c:284-290 | A queued local candidate is published only to the client logged in when it is published, on its own topic if and only if the id of the last login is not empty; after another login only a refusal goes out |
| SignalIsolation.NeverSharedExactly | bk7258/bk_solution_yangipc/projects/yangipc/ap/components/yangsignal/src/yangsignal/YangIpcMessageServer.c:361-381 | No run of logins from given client ids publishes a local candidate elsewhere than on the topic of the client logged in, if and only if none of the ids is empty |
| SignalIsolation.CandidateShared | bk7258/bk_solution_yangipc/projects/yangipc/ap/components/yangsignal/src/yangsignal/YangIpcMessageServer.c:284-290 | A run after which a candidate goes to the topic of all clients, under the camera's own client id |
| SignalUids.UidsDiffer | bk7258/bk_solution_yangipc/projects/yangipc/ap/components/yangsignal/src/yangsignal/YangIpcMessageServer.c:237-269 | Uids of logins less than 2^32 apart differ |
| SignalUids.UidsClosed | bk7258/bk_solution_yangipc/projects/yangipc/ap/components/yangsignal/src/yangsignal/YangIpcMessageServer.c:237-269 | Every uid that a later login has superseded has had close called after it was issued, in every run; the latest one has when its session has ended, unless its login was handled between the close and the clearing of an expiry check |
| SignalUids.AlwaysClosedExactly | bk7258/bk_solution_yangipc/projects/yangipc/ap/components/yangsignal/src/yangsignal/YangIpcMessageServer.c:383-403 | At every moment of all runs every uid but the current one is closed, if and only if the latest login never came between the close and the clearing of an expiry check |
| SignalUids.CloseMissed | bk7258/bk_solution_yangipc/projects/yangipc/ap/components/yangsignal/src/yangsignal/YangIpcMessageServer.c:395-400 | A run in which a login comes just then: at its end the session is over and its uid not closed |
| SignalIsolation.IsolationBetween | bk7258/bk_solution_yangipc/projects/yangipc/ap/components/yangsignal/src/yangsignal/YangIpcMessageServer.c:293-331 | When another thread runs between the verification of a message and its handling, its client is still that of the last login handled, and its publications go to that client's own topic if and only if its id is not empty |
| SignalIsolation.HandledAfterExpiry | bk7258/bk_solution_yangipc/projects/yangipc/ap/components/yangsignal/src/yangsignal/YangIpcMessageServer.c:293-331 | A run in which data reaches its callback although the session has ended since the message was verified |
| SignalQueue.HandledInOrder | bk7258/bk_solution_yangipc/projects/yangipc/ap/components/yangsignal/src/yangsignal/YangIpcMessage.c:147-171 | The messages handled by the run loop and the final drain are a prefix of those putMessage inserted, and all of them when the queue is empty: each exactly once and in order |
| SignalQueue.AllHandledExactly | bk7258/bk_solution_yangipc/projects/yangipc/ap/components/yangsignal/src/yangsignal/YangIpcMessage.c:284-291 | After the final drain every message inserted has been handled, in all runs if and only if no put is then between its test of isLoop and its insertion |
| SignalQueue.MessageStranded | bk7258/bk_solution_yangipc/projects/yangipc/ap/components/yangsignal/src/yangsignal/YangIpcMessage.c:10-20 | A run in which a put has tested isLoop before the stop and inserts after the final drain |
| SignalRuns.InvariantAlways | bk7258/bk_solution_yangipc/projects/yangipc/ap/components/yangsignal/src/yangsignal/YangIpcMessageServer.c:237-403 | The server's fields are at every moment those of the reference session, and the queue is what was inserted and not handled |
| SignalServer.Session.HandleMessage | bk7258/bk_solution_yangipc/projects/yangipc/ap/components/yangsignal/src/yangsignal/YangIpcMessageServer.c:293-331 | The session and the callbacks after one message, for every type and connection |
| SignalServer.Session.Verify | bk7258/bk_solution_yangipc/projects/yangipc/ap/components/yangsignal/src/yangsignal/YangIpcMessageServer.c:168-191 | True exactly for the client logged in; another client gets a refusal, and nobody does while no one is logged in |
| SignalServer.Session.HandleLogin | bk7258/bk_solution_yangipc/projects/yangipc/ap/components/yangsignal/src/yangsignal/YangIpcMessageServer.c:237-269 | The old session is closed and a new uid is issued to the client |
| SignalServer.Session.HandleP2p | bk7258/bk_solution_yangipc/projects/yangipc/ap/components/yangsignal/src/yangsignal/YangIpcMessageServer.c:193-222 | Connect, offer, answer, candidate and ping, with the callbacks that are installed |
| SignalServer.Session.TestExpired | bk7258/bk_solution_yangipc/projects/yangipc/ap/components/yangsignal/src/yangsignal/YangIpcMessageServer.c:390-394 | The first step of the expiry check: true exactly for a session without a sign of life for more than 30 seconds |
| SignalServer.Session.CloseExpired | bk7258/bk_solution_yangipc/projects/yangipc/ap/components/yangsignal/src/yangsignal/YangIpcMessageServer.c:395-397 | The second: whatever uid is current by then is closed |
| SignalServer.Session.ClearExpired | bk7258/bk_solution_yangipc/projects/yangipc/ap/components/yangsignal/src/yangsignal/YangIpcMessageServer.c:398 | The third: whatever session is current by then ends |
| SignalCallbacks.HandledExactly | bk7258/bk_solution_yangipc/projects/yangipc/ap/components/yangsignal/src/yangsignal/YangIpcMessageServer.c:193-331 | In every run, handling a message adds exactly the effects due, each once and in order: every callback if and only if the message is of its type and connection, from the client logged in, and the callback is installed, with the message's uid and data; each answer, refusal and passed-on request likewise; a login closes the uid before it and its response carries the uid issued |
| SignalCallbacks.VerifiedExactly | bk7258/bk_solution_yangipc/projects/yangipc/ap/components/yangsignal/src/yangsignal/YangIpcMessageServer.c:168-191 | A message that is only verified adds nothing when it is of the client logged in, and otherwise what is due, a refusal if somebody is logged in |
| SignalCallbacks.ActedExactly | bk7258/bk_solution_yangipc/projects/yangipc/ap/components/yangsignal/src/yangsignal/YangIpcMessageServer.c:307-331 | And handling it afterwards adds exactly what is due to the client it was verified for |
| SignalCallbacks.OthersAdd | bk7258/bk_solution_yangipc/projects/yangipc/ap/components/yangsignal/src/yangsignal/YangIpcMessageServer.c:383-403 | No other step adds an effect, except that the expiry check closes the uid that is current when it comes to that |
| SignalCallbacks.CandidateQueued | bk7258/bk_solution_yangipc/projects/yangipc/ap/components/yangsignal/src/yangsignal/YangIpcMessageServer.c:361-381 | A local candidate becomes a queued request to the client logged in, if and only if somebody is and the loop runs |
| SignalCallbacks.ExpiresExactly | bk7258/bk_solution_yangipc/projects/yangipc/ap/components/yangsignal/src/yangsignal/YangIpcMessageServer.c:390-394 | The expiry check finds exactly the sessions without a login or ping for 31 seconds, for clocks within 2^31 seconds of it |
| SignalCallbacks.SendersAre | bk7258/bk_solution_yangipc/projects/yangipc/ap/components/yangsignal/src/yangsignal/YangIpcMessageServer.c:168-177 | A message is of the client logged in if and only if the first twelve bytes of their ids agree |
| MessageVector.Vector.Insert | bk7258/bk_solution_yangipc/projects/yangipc/ap/components/yangsignal/include/yangutil/YangVector.h:108-119 | Growth by five when full refines append |
| MessageVector.Vector.Remove | bk7258/bk_solution_yangipc/projects/yangipc/ap/components/yangsignal/include/yangutil/YangVector.h:129-134 | Shifting down refines deletion at an index, and an index past the end changes nothing |
| MessageVector.Vector.Clear | bk7258/bk_solution_yangipc/projects/yangipc/ap/components/yangsignal/include/yangutil/YangVector.h:125-128 | The empty sequence |
| MessageVector.Vector.constructor | bk7258/bk_solution_yangipc/projects/yangipc/ap/components/yangsignal/include/yangutil/YangVector.h:135-142 | An empty vector with room for five |
| StartCode.FindNextStartCode | bk7258/bk_solution_yangipc/projects/yangipc/ap/components/yangencoder/src/YangIpcEncoder.c:122-144 | The scan with its skip over 00 00 03 returns the position and length of the naive search for the first start code |
| StartCode.CodesAre | bk7258/bk_solution_yangipc/projects/yangipc/ap/components/yangencoder/src/YangIpcEncoder.c:132-141 | The start codes that both scans look for are 00 00 01 and 00 00 00 01 and nothing else |
| StartCode.SendP | bk7258/bk_solution_yangipc/projects/yangipc/ap/components/yangencoder/src/YangIpcEncoder.c:146-169 | Where the payload handed on begins, or that none is |
| StartCode.PayloadFollowsCode | bk7258/bk_solution_yangipc/projects/yangipc/ap/components/yangencoder/src/YangIpcEncoder.c:146-169 | When the frame starts with a start code, the payload is exactly what follows that code or, when it begins another unit, the next one; none when that is missing |
| StartCode.PayloadCanBeWrong | bk7258/bk_solution_yangipc/projects/yangipc/ap/components/yangencoder/src/YangIpcEncoder.c:150-160 | A frame with a stray first byte, whose payload begins inside its first start code instead of behind the second |
| StartCode.CodeAtOneIsWrong | bk7258/bk_solution_yangipc/projects/yangipc/ap/components/yangencoder/src/YangIpcEncoder.c:150-160 | With a three-byte start code at offset 1 the payload is always wrong: it begins with the start code's own last byte |
| StartCode.PayloadRightExactly | bk7258/bk_solution_yangipc/projects/yangipc/ap/components/yangencoder/src/YangIpcEncoder.c:150-168 | The payload is the one chosen by the unit type behind the first start code, wherever that lies, if and only if there is none, it is at offset 0, or neither the byte the code reads nor the right one says slice |
| AudioFifo.NothingLostOrTorn | bk7258/bk_solution_yangipc/projects/yangipc/ap/components/yangencoder/src/YangIpcEncoder.c:89-102 | With one producer and one consumer that test the size before they lock, in every interleaving of puts whose length leaves 32 bits room, the buffer stays within capacity, a pending put fits, a pending take has its frame, and the 160-byte frames emitted since the last reset followed by the buffer are the data accepted since then |
| AudioFifo.NeverOverrunsExactly | bk7258/bk_solution_yangipc/projects/yangipc/ap/components/yangencoder/src/YangIpcEncoder.c:89-96 | No put of at most a given length passes its test and then overruns the buffer, if and only if that length and the capacity together fit 32 bits |
| AudioFifo.TestsAreExact | bk7258/bk_solution_yangipc/projects/yangipc/ap/components/yangencoder/src/YangIpcEncoder.c:90-218 | In the same interleavings a put passes its test exactly when its data fit, and the thread takes a frame exactly when the buffer has one |
| AudioFifo.EmitsNext | bk7258/bk_solution_yangipc/projects/yangipc/ap/components/yangencoder/src/YangIpcEncoder.c:218-226 | The frame it then emits is the next 160 bytes of the data accepted since the last reset |
| AudioFifo.AudioData.HasRoom | bk7258/bk_solution_yangipc/projects/yangipc/ap/components/yangencoder/src/YangIpcEncoder.c:90 | The unsigned test means that the data fit or that the sum wraps around to a size that would |
| AudioFifo.AudioData.Append | bk7258/bk_solution_yangipc/projects/yangipc/ap/components/yangencoder/src/YangIpcEncoder.c:91-96 | The data go behind the buffer's contents |
| AudioFifo.AudioData.Emit | bk7258/bk_solution_yangipc/projects/yangipc/ap/components/yangencoder/src/YangIpcEncoder.c:215-226 | The oldest frame is emitted and the rest moves down; from a shorter buffer, stale bytes would be emitted too and the buffer be empty |

## Left out

- Timestamps in the queue's nodes, create_time, and the counters get_count, release_count, total_malloc, total_complete and total_free: they only feed logs.
- The sizes of frame buffers: malloc hands out a buffer its node has kept whatever size is asked for.
- Timeouts of get_frame: giving up is possible at any time, which covers every timeout.
- The thread structure the code relies on is a condition of the runs: one producer thread per format, one thread per consumer id, consumer ids of one bit, a consumer releases only frames it holds, and clear_all and cancel run while the producer does nothing else. `VideoLoop.LoopMeetsDiscipline` shows that the video thread keeps its part.
- The test of the session and the copy of its client id for a local candidate are one step in `SignalRuns`, and so are the callbacks of one message; the source takes no lock around them.
- FrameQueue.FrameQueue.Register: an id with several of the low eight bits, or with higher ones, which the source would enter into its masks as it is.
- FrameQueue.FrameQueue.Unregister: the same ids.
- FrameQueue.FrameQueue.SweepWithdrawn: the same ids.
- FrameQueue.FrameQueue.EnabledIndex: the same ids.
- FrameQueue.FrameQueue.GetFrame: the same ids.
- Deinit is modelled on the heap only, not as a step of the runs.
- FrameList.FrameList.Search: the source writes its search loops out one by one with different tests; here they are one loop over a test.
- VideoLoop.Pass: runs without other threads in between; interleavings of the same program are the subject of `VideoLoop.LoopMeetsDiscipline`.
- VideoFrames.TimesAreRelative: the frames are those that the passes of one connection get, in order; that a new connection starts again from base 0 is left to the caller.
- DropAverages.AveragesExactFor: for frames too small to wrap around, and thresholds whose first level interval lies below 24 MB, the limit is shown to suffice and not to be necessary.
- Transmission.Channel.Unpack: requires that the input stays within the cache and its count, which the source does not check; `Framing.EveryCutDeliversExactly` says when it does. The checksum comparison is compiled out.
- Transmission.Channel.Pack: a payload longer than the send buffer, which the source copies past its end.
- Transmission.Channel.constructor: the allocation of the channel itself, which is taken to succeed.
- Resynchronisation after a wrong magic number: the source does not attempt it.
- BackPressure.SendImage: the library closes a session after finitely many checks of a full buffer, so that the source's otherwise endless wait ends; every finite run is covered.
- The audio sender of the peer-to-peer service, whose loop ends early for session 0.
- PPCS_TX_BUFFER_THD is a parameter restricted by `DropModel.ConfigOk`: the macro arithmetic stays in 31 bits and a level interval is at least 3. CONFIG_MEDIA_DROP_STRATEGY_ENABLE, which compiles the controller, is not set in the shipped configuration.
- DropRuns.FewPFramesSent: a GOP of fewer than 256 P frames, the width of the counter.
- DropLevels.SentExactly: the same.
- JSON parsing, MQTT connections, publishing retries and SDP contents: a message enters as a request and leaves as a publication.
- SignalQueue.HandledInOrder: reading the head is one step, although the source reads it without the lock while insert may reallocate the array.
- MessageVector.Vector.Remove: a negative index, which no caller passes.
- AudioFifo.NothingLostOrTorn: the two threads interleave between their test and their locked section; the test itself reads the size at one moment.
- StartCode.SendP: the byte read for the unit type lies in the buffer, which the source does not check.
- StartCode.PayloadRightExactly: the buffer is longer than the frame, so that there is a byte behind every start code.
- Threads' creation and deletion, camera, voice, display, boarding, BLE, Wi-Fi, TCP and UDP services, command parsing and event dispatch.
