/** From pack_send on one side to the receive callback on the other. */
module EndToEnd {
  import opened Common
  import opened Framing
  import opened Transmission
  import opened SocketSend

  /** What the sender packs: the i-th payload of a session gets the i-th sequence number after `last`. */
  datatype Packet = Packet(payload: seq<byte>, timestamp: int, crc: byte)

  predicate Sendable(p: Packet) {
    0 < |p.payload| && HEAD_SIZE + |p.payload| < UINT16 && 0 <= p.timestamp < UINT32
  }

  predicate AllSendable(ps: seq<Packet>) {
    forall i :: 0 <= i < |ps| ==> Sendable(ps[i])
  }

  /** The receive cache has room for every message. */
  predicate FitCache(ps: seq<Packet>, size: nat) {
    forall i :: 0 <= i < |ps| ==> HEAD_SIZE + |ps[i].payload| <= size
  }

  function SequenceOf(last: nat, i: nat): (n: int)
    ensures 0 <= n < UINT16
  {
    (last + 1 + i) % UINT16
  }

  function Messages(ps: seq<Packet>, last: nat): (ms: seq<seq<byte>>)
    requires AllSendable(ps)
    ensures |ms| == |ps|
    ensures forall i :: 0 <= i < |ps| ==>
      ms[i] == Packed(ps[i].payload, SequenceOf(last, i), ps[i].timestamp, ps[i].crc)
  {
    seq(|ps|, i requires 0 <= i < |ps| => Packed(ps[i].payload, SequenceOf(last, i), ps[i].timestamp, ps[i].crc))
  }

  /** The receive callback's arguments for the i-th packet. */
  function Received(ps: seq<Packet>, last: nat): (ds: seq<Delivery>)
    ensures |ds| == |ps|
    ensures forall i :: 0 <= i < |ps| ==>
      var n := SequenceOf(last, i);
      ds[i] == Delivery(n, FLAGS_CRC, ps[i].timestamp, n % 256, ps[i].payload)
  {
    seq(|ps|, i requires 0 <= i < |ps| =>
      Delivery(SequenceOf(last, i), FLAGS_CRC, ps[i].timestamp, SequenceOf(last, i) % 256, ps[i].payload))
  }

  lemma MessagesDeliver(ps: seq<Packet>, last: nat)
    requires AllSendable(ps)
    ensures var ms := Messages(ps, last); AreMessages(ms) && HavePayload(ms) && Deliveries(ms) == Received(ps, last)
    ensures forall size: nat :: FitCache(ps, size) ==> AllFit(Messages(ps, last), size)
  {
    forall i | 0 <= i < |ps|
      ensures var m := Messages(ps, last)[i];
        IsMessage(m) && |m| == HEAD_SIZE + |ps[i].payload| > HEAD_SIZE && DeliveryOf(m) == Received(ps, last)[i]
    {
      PackedDelivers(ps[i].payload, SequenceOf(last, i), ps[i].timestamp, ps[i].crc);
    }
  }

  /** What a send of a message that fits 16 bits can do, over `PackSend` or over `PrepareAndSend`. */
  predicate SendResult(m: seq<byte>, sent: seq<byte>, ret: int) {
    SendOutcome(m, 0, sent, ret) || SendOutcome(m, TO_HEADER, sent, ret)
  }

  /** The results of the first sends of a session: `sents[i]` reached the wire and `rets[i]` was returned. */
  predicate Session(ms: seq<seq<byte>>, sents: seq<seq<byte>>, rets: seq<int>) {
    && |sents| == |rets| <= |ms|
    && forall i :: 0 <= i < |sents| ==> |ms[i]| > HEAD_SIZE && SendResult(ms[i], sents[i], rets[i])
  }

  /** How a packet is sent: with `PackSend` and these callbacks, or with `PrepareAndSend`. */
  datatype Path = Packing(installed: Sender, given: Sender) | Preparing
  {
    /** The function that sends in the end. */
    function Through(): Sender {
      if Preparing? then Datagram else if installed.NoSender? then given else installed
    }
  }

  /** One packet: its message goes out, wholly or in part, or not at all. */
  method SendOne(channel: Channel, sock: Socket, p: Packet, path: Path) returns (ret: int, ghost sent: seq<byte>)
    requires channel.Valid() && Sendable(p) && |p.payload| <= channel.tsize
    modifies channel`sequence, channel.tbuf, sock
    ensures channel.Valid() && channel.sequence == (old(channel.sequence) + 1) % UINT16
    ensures sock.wire == old(sock.wire) + sent
    ensures SendResult(Packed(p.payload, channel.sequence, p.timestamp, p.crc), sent, ret)
    ensures NoTrouble(path.Through(), sock) ==> ret >= 0
    ensures old(sock.calls) <= sock.calls && old(sock.closed) <= sock.closed && old(sock.broken) <= sock.broken
  {
    match path {
      case Packing(installed, given) =>
        ret := PackSend(channel, installed, given, sock, p.payload, p.timestamp, p.crc);
      case Preparing =>
        ret := PrepareAndSend(channel, sock, p.payload, p.timestamp, p.crc);
    }
    ghost var m := Packed(p.payload, channel.sequence, p.timestamp, p.crc);
    PackedWhole(p, channel.sequence);
    sent :| sock.wire == old(sock.wire) + sent && SendResult(m, sent, ret);
  }

  lemma PackedWhole(p: Packet, sequence: nat)
    requires Sendable(p) && sequence < UINT16
    ensures var m := Packed(p.payload, sequence, p.timestamp, p.crc); var n := HEAD_SIZE + |p.payload|;
      |m| == n && m[..n % UINT16] == m
  {
    PackedDelivers(p.payload, sequence, p.timestamp, p.crc);
  }

  function Total(ns: seq<nat>): nat {
    if ns == [] then 0 else Total(ns[..|ns| - 1]) + ns[|ns| - 1]
  }

  /**
   Packets sent one after another over one channel and one socket are a session, whatever each send reports. All of
   them report success when the descriptor stays open, no write fails otherwise than with a full buffer, each packet
   has a sender, and each is through before its 2001st write; `tries` are the writes that each took.
   */
  method SendAll(channel: Channel, sock: Socket, ps: seq<Packet>, paths: seq<Path>)
      returns (rets: seq<int>, ghost sents: seq<seq<byte>>, ghost tries: seq<nat>)
    requires channel.Valid() && AllSendable(ps) && |paths| == |ps|
    requires forall i :: 0 <= i < |ps| ==> |ps[i].payload| <= channel.tsize
    modifies channel`sequence, channel.tbuf, sock
    ensures channel.Valid() && |sents| == |ps|
    ensures Session(Messages(ps, old(channel.sequence)), sents, rets)
    ensures sock.wire == old(sock.wire) + Concat(sents)
    ensures |tries| == |ps| && sock.calls == old(sock.calls) + Total(tries)
    ensures sock.closed == old(sock.closed) && sock.broken == old(sock.broken)
      && (forall i :: 0 <= i < |ps| ==> !paths[i].Through().NoSender? && tries[i] < MAX_WRITES)
      ==> forall i :: 0 <= i < |ps| ==> rets[i] >= 0
  {
    hide Packed, SendResult;
    ghost var last := channel.sequence;
    rets, sents, tries := [], [], [];
    for i := 0 to |ps|
      invariant channel.Valid() && channel.sequence == (last + i) % UINT16
      invariant |rets| == |sents| == i && Session(Messages(ps, last), sents, rets)
      invariant sock.wire == old(sock.wire) + Concat(sents)
      invariant |tries| == i && sock.calls == old(sock.calls) + Total(tries)
      invariant old(sock.closed) <= sock.closed && old(sock.broken) <= sock.broken
      invariant forall k :: 0 <= k < i && sock.closed == old(sock.closed) && sock.broken == old(sock.broken) ==>
        (!paths[k].Through().NoSender? && tries[k] < MAX_WRITES ==> rets[k] >= 0)
    {
      var ret;
      ghost var sent, before := [], sock.calls;
      ret, sent := SendOne(channel, sock, ps[i], paths[i]);
      NextSequence(last, i);
      SessionNext(ps, last, sents, rets, sent, ret);
      assert (tries + [sock.calls - before])[..i] == tries;
      rets, sents, tries := rets + [ret], sents + [sent], tries + [sock.calls - before];
    }
  }

  lemma SessionNext(ps: seq<Packet>, last: nat, sents: seq<seq<byte>>, rets: seq<int>, sent: seq<byte>, ret: int)
    requires AllSendable(ps) && Session(Messages(ps, last), sents, rets) && |sents| < |ps|
    requires SendResult(Messages(ps, last)[|sents|], sent, ret)
    ensures Session(Messages(ps, last), sents + [sent], rets + [ret])
    ensures Concat(sents + [sent]) == Concat(sents) + sent
  {
    PackedWhole(ps[|sents|], SequenceOf(last, |sents|));
    SessionGrows(Messages(ps, last), sents, rets, sent, ret);
    ConcatAppend(sents, [sent]);
    ConcatOne(sent);
  }

  lemma SessionGrows(ms: seq<seq<byte>>, sents: seq<seq<byte>>, rets: seq<int>, sent: seq<byte>, ret: int)
    requires Session(ms, sents, rets) && |sents| < |ms| && |ms[|sents|]| > HEAD_SIZE
    requires SendResult(ms[|sents|], sent, ret)
    ensures Session(ms, sents + [sent], rets + [ret])
  {
    hide SendResult;
  }

  lemma NextSequence(last: nat, i: nat)
    ensures ((last + i) % UINT16 + 1) % UINT16 == SequenceOf(last, i)
  {
  }

  /**
   Main result: when every send reports success, whatever partial writes the socket made and whatever pieces the peer
   receives, the peer's callbacks get exactly the payloads, flags, timestamps and sequence numbers, in order, and its
   cache, with room for every message, is never overrun.
   */
  lemma {:induction false} SentIsReceived(ps: seq<Packet>, last: nat, sents: seq<seq<byte>>, rets: seq<int>,
                                          chunks: seq<seq<byte>>, size: nat)
    requires AllSendable(ps) && FitCache(ps, size)
    requires Session(Messages(ps, last), sents, rets) && |sents| == |ps|
    requires forall i :: 0 <= i < |rets| ==> rets[i] >= 0
    requires Concat(chunks) == Concat(sents)
    ensures Feed([], chunks) == Outcome(Received(ps, last), []) && FeedFits([], chunks, size)
  {
    var ms := Messages(ps, last);
    MessagesDeliver(ps, last);
    assert sents == ms;
    ChunkingIsIrrelevant(ms, chunks, size);
  }

  /**
   Main result: when the last send of a session fails, the peer gets exactly the messages sent before, and its cache
   holds the bytes of the failed one that went out, a proper prefix.
   */
  lemma {:induction false} FailedSendIsNotReceived(ps: seq<Packet>, last: nat, sents: seq<seq<byte>>, rets: seq<int>,
                                                   chunks: seq<seq<byte>>, size: nat)
    requires AllSendable(ps) && FitCache(ps, size)
    requires Session(Messages(ps, last), sents, rets) && 0 < |sents| <= |ps|
    requires forall i :: 0 <= i < |rets| - 1 ==> rets[i] >= 0
    requires rets[|rets| - 1] < 0
    requires Concat(chunks) == Concat(sents)
    ensures var n := |sents| - 1;
      Feed([], chunks) == Outcome(Received(ps[..n], last), sents[n]) && Prefix(sents[n], Messages(ps, last)[n])
    ensures FeedFits([], chunks, size)
  {
    var n := |sents| - 1;
    var all := Messages(ps, last);
    MessagesDeliver(ps, last);
    FirstOnly(ps, last, n);
    assert |all[n]| > HEAD_SIZE;
    FailedStream(all, sents, n, chunks, size);
  }

  lemma FailedStream(all: seq<seq<byte>>, sents: seq<seq<byte>>, n: nat, chunks: seq<seq<byte>>, size: nat)
    requires AreMessages(all) && HavePayload(all) && AllFit(all, size)
    requires |sents| == n + 1 <= |all| && forall i :: 0 <= i < n ==> sents[i] == all[i]
    requires Prefix(sents[n], all[n]) && Concat(chunks) == Concat(sents)
    ensures Feed([], chunks) == Outcome(Deliveries(all[..n]), sents[n]) && FeedFits([], chunks, size)
  {
    var ms, rest := all[..n + 1], all[n][|sents[n]|..];
    WireOf(all, sents, n);
    assert [] + (Concat(chunks) + rest) == Concat(ms);
    var k := FeedStream(ms, [], chunks, rest, size);
    StopsAt(ms, k, Feed([], chunks).cache, sents[n], rest);
    assert ms[..n] == all[..n];
  }

  /** The wire of a session that fails in message `n`, completed by the bytes that were not sent. */
  lemma WireOf(all: seq<seq<byte>>, sents: seq<seq<byte>>, n: nat)
    requires |sents| == n + 1 <= |all| && forall i :: 0 <= i < n ==> sents[i] == all[i]
    requires Prefix(sents[n], all[n])
    ensures Concat(sents) + all[n][|sents[n]|..] == Concat(all[..n + 1])
  {
    var part := sents[n];
    assert sents == all[..n] + [part] && all[..n + 1] == all[..n] + [all[n]];
    ConcatAppend(all[..n], [part]);
    ConcatAppend(all[..n], [all[n]]);
    ConcatOne(part);
    ConcatOne(all[n]);
    assert all[n] == part + all[n][|part|..];
    assert (Concat(all[..n]) + part) + all[n][|part|..] == Concat(all[..n]) + (part + all[n][|part|..]);
  }

  lemma FirstOnly(ps: seq<Packet>, last: nat, n: nat)
    requires AllSendable(ps) && n < |ps| && AreMessages(Messages(ps, last))
    requires Deliveries(Messages(ps, last)) == Received(ps, last)
    ensures Deliveries(Messages(ps, last)[..n]) == Received(ps[..n], last)
  {
    forall i | 0 <= i < n ensures Deliveries(Messages(ps, last)[..n])[i] == Received(ps[..n], last)[i] {
      assert Deliveries(Messages(ps, last))[i] == Received(ps, last)[i];
    }
  }

  lemma LongTail(ms: seq<seq<byte>>, k: nat)
    requires k < |ms| - 1
    ensures |Concat(ms[k..])| >= |ms[k]| + |ms[|ms| - 1]|
  {
    var n := |ms| - 1;
    assert ms[k..] == [ms[k]] + (ms[k + 1..n] + [ms[n]]);
    ConcatAppend([ms[k]], ms[k + 1..n] + [ms[n]]);
    ConcatAppend(ms[k + 1..n], [ms[n]]);
    assert Concat([ms[n]]) == ms[n] && Concat([ms[k]]) == ms[k];
  }

  /** A stream that ends inside its last message leaves that message's start behind. */
  lemma StopsAt(ms: seq<seq<byte>>, k: nat, left: seq<byte>, part: seq<byte>, rest: seq<byte>)
    requires ms != [] && k <= |ms| && rest != [] && part + rest == ms[|ms| - 1]
    requires IsRemainder(left, ms[k..]) && left + rest == Concat(ms[k..])
    ensures k == |ms| - 1 && left == part
  {
    var n := |ms| - 1;
    if k < n {
      LongTail(ms, k);
    } else if k == n {
      assert ms[k..] == [ms[n]] && Concat([ms[n]]) == ms[n];
      assert left == (left + rest)[..|left|] && part == (part + rest)[..|part|];
    }
  }
}
