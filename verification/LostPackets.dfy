/** What a failed send costs the packets after it, when it has left a part of its message on the wire. */
module LostPackets {
  import opened Common
  import opened Framing
  import opened EndToEnd
  import opened LaterSends

  // ---------- A wrong magic number ----------

  /** Complete messages at the start of the input are delivered one after another. */
  lemma {:induction false} UnpackAll(ms: seq<seq<byte>>, rest: seq<byte>)
    requires AreMessages(ms)
    ensures Unpack([], Concat(ms) + rest) == Outcome(Deliveries(ms) + Unpack([], rest).out, Unpack([], rest).cache)
  {
    hide Unpack, U16, HasMagic;
    if ms == [] {
      assert [] + rest == rest;
    } else {
      var d, tail, o := DeliveryOf(ms[0]), Concat(ms[1..]), Unpack([], rest);
      assert Concat(ms) + rest == ms[0] + (tail + rest) by {
        assert Concat(ms) == ms[0] + tail;
      }
      UnpackOne(ms[0], tail + rest);
      UnpackAll(ms[1..], rest);
      hide DeliveryOf, IsMessage, Concat;
      assert Deliveries(ms) == [d] + Deliveries(ms[1..]);
      assert [d] + (Deliveries(ms[1..]) + o.out) == ([d] + Deliveries(ms[1..])) + o.out;
    }
  }

  /**
   Main result: where a message should begin in the input and its magic number is wrong, the messages before it have
   been delivered, the rest of that input is dropped, and the next input is read from its start.
   */
  lemma {:induction false} WrongMagicDropsInput(ms: seq<seq<byte>>, rest: seq<byte>, more: seq<seq<byte>>)
    requires AreMessages(ms) && HEAD_SIZE <= |rest| && !HasMagic(rest)
    ensures var later := Feed([], more);
      Feed([], [Concat(ms) + rest] + more) == Outcome(Deliveries(ms) + later.out, later.cache)
  {
    UnpackAll(ms, rest);
    assert Unpack([], rest) == Outcome([], []);
    assert ([Concat(ms) + rest] + more)[1..] == more;
  }

  /** Main result: once a header with a wrong magic number is complete in the cache, nothing is delivered any more. */
  lemma {:induction false} WrongMagicInCacheSticks(cache: seq<byte>, data: seq<byte>, more: seq<seq<byte>>)
    requires 0 < |cache| < HEAD_SIZE <= |cache + data| && !HasMagic(cache + data)
    ensures Feed(cache, [data] + more) == Outcome([], (cache + data)[..HEAD_SIZE])
  {
    var need := HEAD_SIZE - |cache|;
    assert cache + data[..need] == (cache + data)[..HEAD_SIZE];
    assert Unpack(cache, data) == Outcome([], cache + data[..need]);
    StaysStuck(cache + data[..need], more);
    assert ([data] + more)[1..] == more;
  }

  // ---------- One byte on the wire ----------

  /**
   One byte of a failed send, the first of every message, and then a stream that begins with a message: when the header
   completes in the cache, nothing is delivered any more, whatever follows and however it is cut.
   */
  lemma {:induction false} OneByteLosesAll(rest: seq<byte>, more: seq<seq<byte>>)
    requires |rest| == HEAD_SIZE - 1 && rest[0] == 0xD5
    ensures Feed([], [[0xD5]] + ([rest] + more)).out == []
  {
    var chunks: seq<seq<byte>> := [[0xD5]] + ([rest] + more);
    var cache: seq<byte> := [0xD5];
    assert chunks[0] == cache && chunks[1..] == [rest] + more && ([rest] + more)[1..] == more;
    assert rest[..HEAD_SIZE - 1] == rest && rest[HEAD_SIZE - 1..] == [];
    assert Unpack([], cache) == Outcome([], cache);
    assert Unpack(cache, rest) == UnpackCached(cache + rest, []) == Outcome([], cache + rest);
    StaysStuck(cache + rest, more);
    assert Feed(cache, [rest] + more) == Outcome([] + [], cache + rest);
  }

  // ---------- Two bytes or more ----------

  /** The start of a stream does not contradict the magic number. */
  predicate GoodStart(s: seq<byte>) {
    (|s| >= 1 ==> s[0] == 0xD5) && (|s| >= 2 ==> s[1] == 0xF0)
  }

  /** The delivery has the sequence number, flags and timestamp of the header at the start of the stream. */
  predicate SameHead(d: Delivery, s: seq<byte>)
    requires HEAD_SIZE <= |s|
  {
    d.sequence == U16(s, 8) && d.flags == U16(s, 2) && d.timestamp == U32(s, 4)
  }

  lemma HeadOfPart(s: seq<byte>, m: seq<byte>)
    requires HEAD_SIZE <= |m| <= |s| && m == s[..|m|] && SizeOf(m) <= |m|
    ensures SameHead(DeliveryOf(m), s)
  {
    assert forall i :: 0 <= i < HEAD_SIZE ==> m[i] == s[i];
  }

  /** One call keeps everything, or is stuck, or delivers first what the header at the start of the stream says. */
  lemma UnpackFirst(cache: seq<byte>, data: seq<byte>)
    requires GoodStart(cache + data)
    ensures var o, s := Unpack(cache, data), cache + data;
      && (o.out == [] ==> o.cache == s || Stuck(o.cache))
      && (o.out != [] ==> HEAD_SIZE <= |s| && SameHead(o.out[0], s))
  {
    var s := cache + data;
    if data == [] {
      assert s == cache;
    } else if cache == [] {
      assert s == data;
      if HEAD_SIZE <= |data| && SizeOf(data) <= |data| {
        HeadOfPart(data, data);
      }
    } else if !(|cache| < HEAD_SIZE && |data| < HEAD_SIZE - |cache|) {
      var need := if |cache| < HEAD_SIZE then HEAD_SIZE - |cache| else 0;
      assert s == (cache + data[..need]) + data[need..];
      CachedFirst(cache + data[..need], data[need..]);
    }
  }

  lemma CachedFirst(head: seq<byte>, tail: seq<byte>)
    requires HEAD_SIZE <= |head| && GoodStart(head + tail)
    ensures var o, s := UnpackCached(head, tail), head + tail;
      && (o.out == [] ==> o.cache == s || Stuck(o.cache))
      && (o.out != [] ==> SameHead(o.out[0], s))
  {
    var s := head + tail;
    assert s[0] == head[0] && s[1] == head[1];
    if !Stuck(head) && SizeOf(head) - |head| <= |tail| {
      var m := head + tail[..SizeOf(head) - |head|];
      assert m == s[..|m|] && m[10] == head[10] && m[11] == head[11];
      HeadOfPart(s, m);
    }
  }

  /** However a stream is cut, what is delivered first has the header at its start. */
  lemma {:induction false} FeedFirst(cache: seq<byte>, chunks: seq<seq<byte>>)
    requires GoodStart(cache + Concat(chunks))
    ensures var o, s := Feed(cache, chunks), cache + Concat(chunks);
      o.out != [] ==> HEAD_SIZE <= |s| && SameHead(o.out[0], s)
    decreases |chunks|
  {
    if chunks != [] {
      var o, rest := Unpack(cache, chunks[0]), Concat(chunks[1..]);
      assert Concat(chunks) == chunks[0] + rest;
      var s := cache + Concat(chunks);
      assert s == (cache + chunks[0]) + rest;
      StartOfPart(s, cache + chunks[0]);
      UnpackFirst(cache, chunks[0]);
      hide Unpack, Concat;
      if o.out != [] {
        HeadLonger(o.out[0], cache + chunks[0], s);
      } else if o.cache == cache + chunks[0] {
        FeedFirst(o.cache, chunks[1..]);
      } else {
        StaysStuck(o.cache, chunks[1..]);
      }
    }
  }

  lemma StartOfPart(s: seq<byte>, a: seq<byte>)
    requires GoodStart(s) && |a| <= |s| && a == s[..|a|]
    ensures GoodStart(a)
  {
  }

  lemma HeadLonger(d: Delivery, a: seq<byte>, s: seq<byte>)
    requires HEAD_SIZE <= |a| <= |s| && a == s[..|a|] && SameHead(d, a)
    ensures SameHead(d, s)
  {
    assert forall i :: 0 <= i < HEAD_SIZE ==> a[i] == s[i];
  }

  /** The header that begins with the part and goes on with the message spells the message's own. */
  predicate Mixed(part: seq<byte>, m: seq<byte>)
    requires HEAD_SIZE <= |m| && SizeOf(m) <= |m|
  {
    SameHead(DeliveryOf(m), part + m)
  }

  /** Unless that happens by chance, the message that follows the part is not what is delivered first. */
  lemma StreamLoses(part: seq<byte>, m: seq<byte>, rest: seq<byte>, chunks: seq<seq<byte>>)
    requires |part| >= 2 && GoodStart(part) && IsMessage(m) && !Mixed(part, m)
    requires Concat(chunks) == part + (m + rest)
    ensures var o := Feed([], chunks).out; o == [] || !SameHeads(o[0], DeliveryOf(m))
  {
    StartsLike(part, m, rest);
    assert [] + Concat(chunks) == part + (m + rest);
    FeedFirst([], chunks);
    hide Feed, Concat, DeliveryOf, SameHead, SameHeads, IsMessage;
    var o := Feed([], chunks).out;
    if o != [] {
      HeadShorter(o[0], part + m, part + (m + rest));
      SameHeadOf(o[0], DeliveryOf(m), part + m);
    }
  }

  lemma StartsLike(part: seq<byte>, m: seq<byte>, rest: seq<byte>)
    requires |part| >= 2 && GoodStart(part)
    ensures var s, t := part + (m + rest), part + m;
      GoodStart(s) && |t| <= |s| && t == s[..|t|]
  {
    assert part + (m + rest) == (part + m) + rest;
  }

  lemma SameHeadOf(a: Delivery, b: Delivery, s: seq<byte>)
    requires HEAD_SIZE <= |s| && SameHead(a, s)
    ensures SameHeads(a, b) ==> SameHead(b, s)
  {
  }

  lemma HeadShorter(d: Delivery, a: seq<byte>, s: seq<byte>)
    requires HEAD_SIZE <= |a| <= |s| && a == s[..|a|] && SameHead(d, s)
    ensures SameHead(d, a)
  {
    assert forall i :: 0 <= i < HEAD_SIZE ==> a[i] == s[i];
  }

  predicate SameHeads(a: Delivery, b: Delivery) {
    a.sequence == b.sequence && a.flags == b.flags && a.timestamp == b.timestamp
  }

  /** It can happen by chance only after four to nine bytes. */
  lemma {:induction false} MixedIsRare(m1: seq<byte>, k: nat, m2: seq<byte>)
    requires IsMessage(m1) && IsMessage(m2) && 2 <= k < |m1|
    requires U16(m1, 2) == U16(m2, 2) == FLAGS_CRC && U16(m1, 8) != U16(m2, 8)
    ensures Mixed(m1[..k], m2) ==> 4 <= k <= 9
  {
    var s := m1[..k] + m2;
    assert forall i :: 0 <= i < k ==> s[i] == m1[i];
    assert k == 2 ==> s[2] == m2[0] == 0xD5;
    assert k == 3 ==> s[3] == m2[0] == 0xD5;
  }

  // ---------- Sessions ----------

  lemma {:induction false} FeedAppend(cache: seq<byte>, a: seq<seq<byte>>, b: seq<seq<byte>>)
    ensures var first := Feed(cache, a); var rest := Feed(first.cache, b);
      Feed(cache, a + b) == Outcome(first.out + rest.out, rest.cache)
    decreases |a|
  {
    if a == [] {
      assert a + b == b && [] + Feed(cache, b).out == Feed(cache, b).out;
    } else {
      var o := Unpack(cache, a[0]);
      assert (a + b)[0] == a[0] && (a + b)[1..] == a[1..] + b;
      hide Unpack;
      FeedAppend(o.cache, a[1..], b);
      var first := Feed(o.cache, a[1..]);
      assert o.out + (first.out + Feed(first.cache, b).out) == (o.out + first.out) + Feed(first.cache, b).out;
    }
  }

  /**
   Send `j` failed with a part of its message on the wire, and is the first that did: sends before it succeeded or put
   nothing on the wire. The later sends may end in any way.
   */
  predicate FailureAt(ps: seq<Packet>, last: nat, sents: seq<seq<byte>>, rets: seq<int>, j: nat)
    requires AllSendable(ps)
  {
    && Session(Messages(ps, last), sents, rets) && |sents| == |ps| && j < |ps|
    && rets[j] < 0 && sents[j] != []
    && FailuresSilent(sents[..j], rets[..j])
  }

  /** The packets sent successfully before send `j`, as they are delivered. */
  function Before(ps: seq<Packet>, last: nat, rets: seq<int>, j: nat): seq<Delivery>
    requires |rets| == |ps| && j <= |ps|
  {
    Successful(Received(ps, last)[..j], rets[..j])
  }

  lemma FailedPart(ps: seq<Packet>, last: nat, sents: seq<seq<byte>>, rets: seq<int>, j: nat)
    requires AllSendable(ps) && FailureAt(ps, last, sents, rets, j)
    ensures Prefix(sents[j], Messages(ps, last)[j])
    ensures Concat(sents) == Concat(sents[..j]) + (sents[j] + Concat(sents[j + 1..]))
  {
    assert SendResult(Messages(ps, last)[j], sents[j], rets[j]);
    assert sents == sents[..j] + ([sents[j]] + sents[j + 1..]);
    ConcatAppend(sents[..j], [sents[j]] + sents[j + 1..]);
    ConcatAppend([sents[j]], sents[j + 1..]);
    ConcatOne(sents[j]);
  }

  /** What was sent before the failure delivers the successful packets and leaves the cache empty. */
  lemma BeforeFailure(ps: seq<Packet>, last: nat, sents: seq<seq<byte>>, rets: seq<int>, j: nat)
    requires AllSendable(ps) && FailureAt(ps, last, sents, rets, j)
    ensures Feed([], [Concat(sents[..j])]) == Outcome(Before(ps, last, rets, j), [])
  {
    var ms := Messages(ps, last)[..j];
    MessagesDeliver(ps, last);
    FirstSends(Messages(ps, last), sents, rets, j);
    SuccessfulMessages(ms, rets[..j], UINT16);
    SuccessfulBytes(ms, sents[..j], rets[..j]);
    ConcatOne(Concat(sents[..j]));
    assert AllFit(ms, UINT16);
    ChunkingIsIrrelevant(Successful(ms, rets[..j]), [Concat(sents[..j])], UINT16);
    assert Deliveries(ms) == Received(ps, last)[..j];
  }

  lemma FirstSends(ms: seq<seq<byte>>, sents: seq<seq<byte>>, rets: seq<int>, j: nat)
    requires Session(ms, sents, rets) && j <= |sents|
    ensures Session(ms[..j], sents[..j], rets[..j])
  {
  }

  /** The stream cut before the failed message, and its remainder cut in any way. */
  lemma AfterFailure(ps: seq<Packet>, last: nat, sents: seq<seq<byte>>, rets: seq<int>, j: nat,
                     chunks: seq<seq<byte>>)
    requires AllSendable(ps) && FailureAt(ps, last, sents, rets, j)
    requires Concat(chunks) == sents[j] + Concat(sents[j + 1..])
    ensures var all := [Concat(sents[..j])] + chunks;
      && Concat(all) == Concat(sents)
      && Feed([], all).out == Before(ps, last, rets, j) + Feed([], chunks).out
  {
    var before := Concat(sents[..j]);
    FailedPart(ps, last, sents, rets, j);
    BeforeFailure(ps, last, sents, rets, j);
    ConcatAppend([before], chunks);
    ConcatOne(before);
    FeedAppend([], [before], chunks);
  }

  /** Whatever the sends of a session put on the wire begins as a message does. */
  lemma {:induction false} WireStarts(ms: seq<seq<byte>>, sents: seq<seq<byte>>, rets: seq<int>)
    requires Session(ms, sents, rets) && AreMessages(ms)
    ensures Concat(sents) != [] ==> Concat(sents)[0] == 0xD5
  {
    if sents != [] {
      assert SendResult(ms[0], sents[0], rets[0]);
      assert Session(ms[1..], sents[1..], rets[1..]);
      WireStarts(ms[1..], sents[1..], rets[1..]);
      assert sents[0] != [] ==> sents[0][0] == ms[0][0];
    }
  }

  lemma LaterSession(ms: seq<seq<byte>>, sents: seq<seq<byte>>, rets: seq<int>, j: nat)
    requires Session(ms, sents, rets) && AreMessages(ms) && j <= |sents|
    ensures Session(ms[j..], sents[j..], rets[j..]) && AreMessages(ms[j..])
  {
  }

  /** After one byte, the rest of the wire can be cut so that it delivers nothing. */
  lemma RestLost(rest: seq<byte>) returns (chunks: seq<seq<byte>>)
    requires rest != [] ==> rest[0] == 0xD5
    ensures Concat(chunks) == [0xD5] + rest && Feed([], chunks).out == []
  {
    if |rest| < HEAD_SIZE - 1 {
      chunks := [[0xD5] + rest];
      ConcatOne([0xD5] + rest);
      assert chunks[1..] == [] && Unpack([], [0xD5] + rest) == Outcome([], [0xD5] + rest);
    } else {
      var head, more := rest[..HEAD_SIZE - 1], rest[HEAD_SIZE - 1..];
      chunks := [[0xD5]] + ([head] + [more]);
      OneByteLosesAll(head, [more]);
      ConcatThree([0xD5], head, more);
    }
  }

  /**
   Main result: after a first failed send that put one byte on the wire, the stream can be cut so that none of the
   packets sent after it is ever delivered, however many there are and however their sends end.
   */
  lemma {:induction false} OneByteLosesSession(
    ps: seq<Packet>, last: nat, sents: seq<seq<byte>>, rets: seq<int>, j: nat)
      returns (chunks: seq<seq<byte>>)
    requires AllSendable(ps) && FailureAt(ps, last, sents, rets, j) && |sents[j]| == 1
    ensures Concat(chunks) == Concat(sents) && Feed([], chunks).out == Before(ps, last, rets, j)
  {
    var ms := Messages(ps, last);
    MessagesDeliver(ps, last);
    FailedPart(ps, last, sents, rets, j);
    LaterSession(ms, sents, rets, j + 1);
    WireStarts(ms[j + 1..], sents[j + 1..], rets[j + 1..]);
    assert IsMessage(ms[j]) && sents[j] == [0xD5];
    var tail := RestLost(Concat(sents[j + 1..]));
    AfterFailure(ps, last, sents, rets, j, tail);
    chunks := [Concat(sents[..j])] + tail;
  }

  lemma ConcatThree(a: seq<byte>, b: seq<byte>, c: seq<byte>)
    ensures Concat([a] + ([b] + [c])) == a + (b + c)
  {
    ConcatAppend([a], [b] + [c]);
    ConcatAppend([b], [c]);
    ConcatOne(a);
    ConcatOne(b);
    ConcatOne(c);
  }

  /** Send `k` is the first after the failure that succeeded, and the sends between put nothing on the wire. */
  predicate NextSuccess(sents: seq<seq<byte>>, rets: seq<int>, j: nat, k: nat)
    requires |sents| == |rets|
  {
    && j < k < |rets| && k - j < UINT16 && rets[k] >= 0
    && forall i :: j < i < k ==> rets[i] < 0 && sents[i] == []
  }

  /**
   Main result: after a first failed send that put two bytes or more on the wire, for any cutting of the rest, the
   packet that is sent successfully next is not what the peer gets next, and so the peer does not get the successful
   packets, however the sends after it end, except when the mixed header spells its own by chance. That needs four to
   nine bytes.
   */
  lemma {:induction false} NextPacketLost(
    ps: seq<Packet>, last: nat, sents: seq<seq<byte>>, rets: seq<int>, j: nat, k: nat, chunks: seq<seq<byte>>)
    requires AllSendable(ps) && FailureAt(ps, last, sents, rets, j) && |sents[j]| >= 2 && NextSuccess(sents, rets, j, k)
    requires Concat(chunks) == sents[j] + Concat(sents[j + 1..])
    ensures var next, n := Messages(ps, last)[k], |Before(ps, last, rets, j)|;
      && IsMessage(next) && (Mixed(sents[j], next) ==> 4 <= |sents[j]| <= 9)
      && (!Mixed(sents[j], next) ==>
        var out := Feed([], [Concat(sents[..j])] + chunks).out;
        && (|out| > n ==> !SameHeads(out[n], Received(ps, last)[k]))
        && out != Successful(Received(ps, last), rets))
  {
    var ms, ds := Messages(ps, last), Received(ps, last);
    SessionFacts(ps, last, j, k);
    FailedPart(ps, last, sents, rets, j);
    AfterFailure(ps, last, sents, rets, j, chunks);
    MixedIsRare(ms[j], |sents[j]|, ms[k]);
    if !Mixed(sents[j], ms[k]) {
      NextOnWire(ms, sents, rets, j, k);
      StreamLoses(sents[j], ms[k], Concat(sents[k + 1..]), chunks);
      SuccessfulFrom(ds, sents, rets, j, k);
      Differs(Before(ps, last, rets, j), Successful(ds[j..], rets[j..]), Feed([], chunks).out);
    }
  }

  lemma NextOnWire(ms: seq<seq<byte>>, sents: seq<seq<byte>>, rets: seq<int>, j: nat, k: nat)
    requires Session(ms, sents, rets) && NextSuccess(sents, rets, j, k)
    ensures Concat(sents[j + 1..]) == ms[k] + Concat(sents[k + 1..])
  {
    assert SendResult(ms[k], sents[k], rets[k]);
    Silent(sents[j + 1..k]);
    assert sents[j + 1..] == sents[j + 1..k] + ([sents[k]] + sents[k + 1..]);
    ConcatAppend(sents[j + 1..k], [sents[k]] + sents[k + 1..]);
    ConcatAppend([sents[k]], sents[k + 1..]);
    ConcatOne(sents[k]);
    assert [] + (ms[k] + Concat(sents[k + 1..])) == ms[k] + Concat(sents[k + 1..]);
  }

  lemma {:induction false} Silent(parts: seq<seq<byte>>)
    requires forall i :: 0 <= i < |parts| ==> parts[i] == []
    ensures Concat(parts) == []
  {
    if parts != [] {
      Silent(parts[1..]);
    }
  }

  /** The successful packets are those before the failure, and then the next success and more. */
  lemma SuccessfulFrom(ds: seq<Delivery>, sents: seq<seq<byte>>, rets: seq<int>, j: nat, k: nat)
    requires |ds| == |sents| == |rets| && j < |rets| && rets[j] < 0 && NextSuccess(sents, rets, j, k)
    ensures Successful(ds, rets) == Successful(ds[..j], rets[..j]) + Successful(ds[j..], rets[j..])
    ensures Successful(ds[j..], rets[j..]) != [] && Successful(ds[j..], rets[j..])[0] == ds[k]
  {
    SuccessfulSplit(ds, rets, j);
    FirstSuccess(ds[j..], rets[j..], k - j);
  }

  lemma {:induction false} SuccessfulSplit<T>(xs: seq<T>, rets: seq<int>, j: nat)
    requires |xs| == |rets| && j <= |xs|
    ensures Successful(xs, rets) == Successful(xs[..j], rets[..j]) + Successful(xs[j..], rets[j..])
  {
    if j == 0 {
      assert xs[0..] == xs && rets[0..] == rets;
    } else {
      SuccessfulSplit(xs[1..], rets[1..], j - 1);
      assert xs[..j][1..] == xs[1..][..j - 1] && rets[..j][1..] == rets[1..][..j - 1];
      assert xs[1..][j - 1..] == xs[j..] && rets[1..][j - 1..] == rets[j..];
    }
  }

  lemma {:induction false} FirstSuccess<T>(xs: seq<T>, rets: seq<int>, k: nat)
    requires |xs| == |rets| && k < |xs| && rets[k] >= 0 && forall i :: 0 <= i < k ==> rets[i] < 0
    ensures Successful(xs, rets) != [] && Successful(xs, rets)[0] == xs[k]
  {
    if k > 0 {
      FirstSuccess(xs[1..], rets[1..], k - 1);
    }
  }

  lemma Differs(before: seq<Delivery>, later: seq<Delivery>, out: seq<Delivery>)
    requires later != [] && (out == [] || !SameHeads(out[0], later[0]))
    ensures before + out != before + later
    ensures |before + out| > |before| ==> !SameHeads((before + out)[|before|], later[0])
  {
    assert (before + later)[|before|] == later[0];
    assert out != [] ==> (before + out)[|before|] == out[0];
    assert |before + later| == |before| + |later| && |before + out| == |before| + |out|;
  }

  /** The messages of a session and what they deliver; less than 65536 packets apart, sequence numbers differ. */
  lemma SessionFacts(ps: seq<Packet>, last: nat, j: nat, k: nat)
    requires AllSendable(ps) && j < k < |ps| && k - j < UINT16
    ensures var ms, ds := Messages(ps, last), Received(ps, last);
      && AreMessages(ms) && IsMessage(ms[j]) && IsMessage(ms[k])
      && DeliveryOf(ms[k]) == ds[k]
      && U16(ms[j], 2) == U16(ms[k], 2) == FLAGS_CRC && U16(ms[j], 8) != U16(ms[k], 8)
  {
    MessagesDeliver(ps, last);
    var ms, ds := Messages(ps, last), Received(ps, last);
    assert DeliveryOf(ms[j]) == ds[j] && DeliveryOf(ms[k]) == ds[k];
    SequencesDiffer(last, j, k);
  }

  lemma SequencesDiffer(last: nat, j: nat, k: nat)
    requires j < k && k - j < UINT16
    ensures SequenceOf(last, j) != SequenceOf(last, k)
  {
  }

  /**
   The chance is real: four bytes of a packet with sequence number 61652, and then a packet with a fitting timestamp and
   one byte of payload that is its own checksum. It is delivered as if nothing had happened, but its last four bytes
   stay behind.
   */
  lemma {:induction false} MixedCanHappen(payload: seq<byte>, timestamp: int, crc: byte, own: byte)
    requires |payload| + HEAD_SIZE < UINT16 && 0 <= timestamp < UINT32
    ensures var m1, m2 := Packed(payload, 61652, timestamp, crc), Packed([own], 61653, 0x1F0D5, own);
      && IsMessage(m1) && IsMessage(m2) && Mixed(m1[..4], m2)
      && Unpack([], m1[..4] + m2) == Outcome([DeliveryOf(m2)], m2[HEAD_SIZE - 3..])
  {
    var m1, m2 := Packed(payload, 61652, timestamp, crc), Packed([own], 61653, 0x1F0D5, own);
    PackedDelivers(payload, 61652, timestamp, crc);
    PackedDelivers([own], 61653, 0x1F0D5, own);
    assert m1[..4] == [0xD5, 0xF0, 1, 0];
    assert m2 == [0xD5, 0xF0, 1, 0, 0xD5, 0xF0, 1, 0, 0xD5, 0xF0, 1, 0, own, 0, 0, 0, own];
    var s := m1[..4] + m2;
    assert s[4..] == m2 && SizeOf(s) == HEAD_SIZE + 1 && s[HEAD_SIZE..HEAD_SIZE + 1] == [own];
    assert DeliveryOf(s) == DeliveryOf(m2);
    var left := s[HEAD_SIZE + 1..];
    assert left == m2[HEAD_SIZE - 3..] && |left| == 4;
    assert Unpack([], left) == Outcome([], left);
  }
}
