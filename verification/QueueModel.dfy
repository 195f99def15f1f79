/**
 The frame queue as a value: one function for each critical section of the multi-consumer frame queue.
 The heap classes in FrameQueue.dfy compute these functions, and QueueProtocol.dfy interleaves them.
 */
module QueueModel {
  import opened Common

  datatype Format = Mjpeg | H264 | Yuv

  /**
   A node of the pool. `id` and `frame` stand for the addresses of the node and of its buffer, and masks are sets
   of consumers. `stamp` (the number of the completion that made the node ready) and `holders` (the consumers that
   have got the frame and not released it) are history: no operation branches on them.
   */
  datatype Entry = Entry(
    id: nat,
    frame: Option<nat>,
    refs: nat,
    mask: set<nat>,
    accessed: set<nat>,
    inUse: bool,
    stamp: nat,
    holders: set<nat>)
  {
    /** The state every recycled node gets; the buffer is kept for reuse. */
    function Reset(): Entry {
      this.(refs := 0, mask := {}, accessed := {}, inUse := false, holders := {})
    }

    /** The consumers this frame still waits for. */
    function Awaited(): set<nat> {
      mask - accessed
    }
  }

  datatype Queue = Queue(free: seq<Entry>, ready: seq<Entry>, active: set<nat>)

  /** The queue after init. */
  function Initial(ids: seq<nat>): Queue {
    Queue(NewNodes(ids), [], {})
  }

  function NewNodes(ids: seq<nat>): (es: seq<Entry>)
    ensures |es| == |ids| && forall i :: 0 <= i < |ids| ==> es[i] == Entry(ids[i], None, 0, {}, {}, false, 0, {})
  {
    seq(|ids|, i requires 0 <= i < |ids| => Entry(ids[i], None, 0, {}, {}, false, 0, {}))
  }

  lemma InitialStep(ids: seq<nat>, k: nat)
    requires k < |ids| && forall i, j :: 0 <= i < j < |ids| ==> ids[i] != ids[j]
    ensures NewNodes(ids[..k + 1]) == NewNodes(ids[..k]) + [Entry(ids[k], None, 0, {}, {}, false, 0, {})]
    ensures ids[k] !in ids[..k] && forall x :: x in ids[..k] || x == ids[k] ==> x in ids[..k + 1]
  {
    assert ids[..k + 1] == ids[..k] + [ids[k]];
  }

  /** The buffers of a list, in order. */
  function Buffers(es: seq<Entry>): seq<nat> {
    if es == [] then []
    else (if es[0].frame.Some? then [es[0].frame.value] else []) + Buffers(es[1..])
  }

  // ---------- Linear searches over a list ----------

  /** What a search loop looks for. */
  datatype Want =
    | AnySlot                    // malloc: a node the producer does not occupy
    | AnyUnheld                  // malloc: the oldest ready node nobody holds
    | Occupied(buffer: nat)      // complete, cancel: the occupied node with this buffer
    | AwaitedBy(consumer: nat)   // get_frame: the first frame this consumer has not accessed
    | WithFrame(frame: nat)      // release_frame: the node with this buffer
    | WithId(id: nat)            // the node a thread already points to

  predicate Matches(w: Want, e: Entry) {
    match w
    case AnySlot => !e.inUse
    case AnyUnheld => e.refs == 0
    case Occupied(b) => e.inUse && e.frame == Some(b)
    case AwaitedBy(c) => c in e.mask && c !in e.accessed
    case WithFrame(b) => e.frame == Some(b)
    case WithId(id) => e.id == id
  }

  /** Position of the first match, or the length of the list. */
  function Find(w: Want, es: seq<Entry>): (k: nat)
    ensures k <= |es|
    ensures k < |es| ==> Matches(w, es[k])
    ensures forall j :: 0 <= j < k ==> !Matches(w, es[j])
  {
    if es == [] then 0
    else if Matches(w, es[0]) then 0
    else 1 + Find(w, es[1..])
  }

  function Without(es: seq<Entry>, k: nat): seq<Entry>
    requires k < |es|
  {
    es[..k] + es[k + 1..]
  }

  // ---------- Sweeps of the ready list ----------

  /** The three loops that walk the ready list and move some of its nodes to the free list. */
  datatype Sweep = OnRegister | OnUnregister(consumer: nat) | OnClear

  /** The node after the sweep has looked at it, before any recycling. */
  function Touched(s: Sweep, e: Entry): Entry {
    if s.OnUnregister? && s.consumer in e.mask && s.consumer !in e.accessed
    then e.(mask := e.mask - {s.consumer})
    else e
  }

  predicate Recycled(s: Sweep, e: Entry) {
    match s
    case OnRegister => e.mask == {} && e.refs == 0
    case OnClear => e.refs == 0
    case OnUnregister(c) =>
      var t := Touched(s, e);
      && c in e.mask && c !in e.accessed
      && t.refs == 0 && (t.mask == {} || t.mask <= t.accessed)
  }

  /** The nodes that stay ready, in order. */
  function Kept(s: Sweep, es: seq<Entry>): seq<Entry> {
    if es == [] then []
    else
      var init, last := es[..|es| - 1], es[|es| - 1];
      Kept(s, init) + if Recycled(s, last) then [] else [Touched(s, last)]
  }

  /** The nodes that are recycled, in order. */
  function Moved(s: Sweep, es: seq<Entry>): seq<Entry> {
    if es == [] then []
    else
      var init, last := es[..|es| - 1], es[|es| - 1];
      Moved(s, init) + if Recycled(s, last) then [Touched(s, last).Reset()] else []
  }

  /** One step of a sweep that recycles position `i`. */
  lemma SweepMoves(s: Sweep, es: seq<Entry>, i: nat)
    requires i < |es| && Recycled(s, es[i])
    ensures var kept := Kept(s, es[..i]);
      && Kept(s, es[..i + 1]) == kept
      && Moved(s, es[..i + 1]) == Moved(s, es[..i]) + [Touched(s, es[i]).Reset()]
      && (kept + [Touched(s, es[i])] + es[i + 1..])[|kept|] == Touched(s, es[i])
      && Without(kept + [Touched(s, es[i])] + es[i + 1..], |kept|) == kept + es[i + 1..]
  {
    assert es[..i + 1][..i] == es[..i];
  }

  /** One step of a sweep that keeps position `i`. */
  lemma SweepKeeps(s: Sweep, es: seq<Entry>, i: nat)
    requires i < |es| && !Recycled(s, es[i])
    ensures var kept := Kept(s, es[..i]);
      && Kept(s, es[..i + 1]) == kept + [Touched(s, es[i])]
      && Moved(s, es[..i + 1]) == Moved(s, es[..i])
  {
    assert es[..i + 1][..i] == es[..i];
  }

  function Swept(s: Sweep, q: Queue): Queue {
    q.(free := q.free + Moved(s, q.ready), ready := Kept(s, q.ready))
  }

  // ---------- The critical sections ----------

  function Register(q: Queue, c: nat): Queue {
    Swept(OnRegister, q.(active := q.active + {c}))
  }

  function Unregister(q: Queue, c: nat): Queue {
    Swept(OnUnregister(c), q.(active := q.active - {c}))
  }

  /** First section of clear_all: recycle every ready node nobody holds. */
  function ClearReady(q: Queue): Queue {
    Swept(OnClear, q)
  }

  /** Second section of clear_all: free the buffers of all free nodes and end the producer's claims. */
  function ClearFree(q: Queue): Queue {
    q.(free := Stripped(q.free))
  }

  function Stripped(es: seq<Entry>): (rs: seq<Entry>)
    ensures |rs| == |es| && forall i :: 0 <= i < |es| ==> rs[i] == es[i].(frame := None, inUse := false)
  {
    seq(|es|, i requires 0 <= i < |es| => es[i].(frame := None, inUse := false))
  }

  /** One step of the loop that strips the free list. */
  lemma StripStep(es: seq<Entry>, k: nat)
    requires k < |es|
    ensures var now := Stripped(es[..k]) + es[k..];
      && now[k] == es[k]
      && now[k := es[k].(frame := None, inUse := false)] == Stripped(es[..k + 1]) + es[k + 1..]
  {
    assert es[k..][1..] == es[k + 1..];
  }

  /**
   First section of malloc: claim the first unoccupied free node; otherwise, for MJPEG and YUV only, take the oldest
   unheld ready node to the head of the free list. Returns the claimed node's id.
   */
  function Claim(q: Queue, format: Format): (Queue, Option<nat>) {
    var i := Find(AnySlot, q.free);
    if i < |q.free| then
      (q.(free := q.free[i := q.free[i].(inUse := true)]), Some(q.free[i].id))
    else
      var j := Find(AnyUnheld, q.ready);
      if format != H264 && j < |q.ready| then
        (q.(free := [q.ready[j].(inUse := true)] + q.free, ready := Without(q.ready, j)), Some(q.ready[j].id))
      else
        (q, None)
  }

  /**
   Malloc between its two sections: the claimed node keeps its buffer or takes the freshly allocated one, and is
   released again when there is neither. Returns the buffer handed to the producer.
   */
  function Fill(q: Queue, id: nat, supplied: Option<nat>): (Queue, Option<nat>) {
    var i := Find(WithId(id), q.free);
    if i == |q.free| then (q, None)
    else
      var e := q.free[i];
      var frame := if e.frame == None then supplied else e.frame;
      var e' := if frame == None then e.(inUse := false) else e.(frame := frame, refs := 0, accessed := {});
      (q.(free := q.free[i := e']), frame)
  }

  /** Second section of malloc: note the consumers active at this moment. */
  function NoteConsumers(q: Queue, id: nat): Queue {
    var i := Find(WithId(id), q.free);
    if i == |q.free| then q else q.(free := q.free[i := q.free[i].(mask := q.active)])
  }

  /** Complete: move the occupied node with this buffer to the tail of the ready list; false when there is none. */
  function Complete(q: Queue, buffer: nat, stamp: nat): (Queue, bool) {
    var i := Find(Occupied(buffer), q.free);
    if i == |q.free| then (q, false)
    else
      var e := q.free[i].(inUse := false, accessed := {}, mask := q.active, stamp := stamp);
      (q.(free := Without(q.free, i), ready := q.ready + [e]), true)
  }

  /** How often complete posts the semaphore: once per active consumer, and at least once. */
  function Wakeups(q: Queue): nat {
    if |q.active| > 0 then |q.active| else 1
  }

  /** First section of cancel: end the producer's claim on the node with this buffer. */
  function Disclaim(q: Queue, buffer: nat): (Queue, Option<nat>) {
    var i := Find(Occupied(buffer), q.free);
    if i == |q.free| then (q, None)
    else (q.(free := q.free[i := q.free[i].(inUse := false)]), Some(q.free[i].id))
  }

  /** End of cancel, outside the section: the buffer is freed and forgotten. */
  function DropBuffer(q: Queue, id: nat): Queue {
    var i := Find(WithId(id), q.free);
    if i == |q.free| then q else q.(free := q.free[i := q.free[i].(frame := None)])
  }

  /** The search section of get_frame: hand the first frame `c` has not accessed to it. */
  function Get(q: Queue, c: nat): (Queue, Option<Entry>) {
    var i := Find(AwaitedBy(c), q.ready);
    if i == |q.ready| then (q, None)
    else
      var e := q.ready[i];
      var e' := e.(refs := e.refs + 1, accessed := e.accessed + {c}, holders := e.holders + {c});
      (q.(ready := q.ready[i := e']), Some(e'))
  }

  /**
   The section of release_frame: drop one reference of the node with this buffer, and unlink the node when nobody
   holds or awaits it any more. Returns the unlinked node.
   */
  function Release(q: Queue, c: nat, buffer: nat): (Queue, Option<Entry>) {
    var i := Find(WithFrame(buffer), q.ready);
    if i == |q.ready| then (q, None)
    else
      var e := q.ready[i];
      var e' := e.(refs := if e.refs > 0 then e.refs - 1 else 0, holders := e.holders - {c});
      if e'.refs == 0 && e'.mask <= e'.accessed
      then (q.(ready := Without(q.ready, i)), Some(e'))
      else (q.(ready := q.ready[i := e']), None)
  }

  /** The last section of release_frame: the unlinked node, reset and without its buffer, goes to the free tail. */
  function GiveBack(q: Queue, e: Entry): Queue {
    q.(free := q.free + [e.Reset().(frame := None)])
  }
}
