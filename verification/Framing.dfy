/**
 Packet framing as values: a message is a 16-byte little-endian header followed by its payload, and the unpacker is
 fed a byte stream in arbitrary pieces.
 */
module Framing {
  import opened Common

  const FLAGS_CRC: int := 1

  // ---------- Header fields ----------

  function U16(s: seq<byte>, at: nat): int
    requires at + 2 <= |s|
  {
    var lo: int, hi: int := s[at], s[at + 1];
    lo + 256 * hi
  }

  function U32(s: seq<byte>, at: nat): int
    requires at + 4 <= |s|
  {
    U16(s, at) + UINT16 * U16(s, at + 2)
  }

  function Bytes16(v: int): seq<byte>
    requires 0 <= v < UINT16
  {
    [v % 256, v / 256]
  }

  function Bytes32(v: int): seq<byte>
    requires 0 <= v < UINT32
  {
    Bytes16(v % UINT16) + Bytes16(v / UINT16)
  }

  /** The magic code 0xF0D5, low byte first. */
  predicate HasMagic(s: seq<byte>)
    requires HEAD_SIZE <= |s|
  {
    s[0] == 0xD5 && s[1] == 0xF0
  }

  /** Header and payload together, as the header announces it. */
  function SizeOf(s: seq<byte>): nat
    requires HEAD_SIZE <= |s|
  {
    HEAD_SIZE + U16(s, 10)
  }

  /** What the receive callback is given; `sequence8` is the sequence number again, cut to 8 bits. */
  datatype Delivery = Delivery(sequence: int, flags: int, timestamp: int, sequence8: int, payload: seq<byte>)

  function DeliveryOf(s: seq<byte>): Delivery
    requires HEAD_SIZE <= |s| && SizeOf(s) <= |s|
  {
    Delivery(U16(s, 8), U16(s, 2), U32(s, 4), U16(s, 8) % 256, s[HEAD_SIZE..SizeOf(s)])
  }

  /** The bytes pack writes: magic, flags, timestamp, sequence, length, crc, three reserved bytes, payload. */
  function Packed(payload: seq<byte>, sequence: int, timestamp: int, crc: byte): seq<byte>
    requires |payload| < UINT16 && 0 <= sequence < UINT16 && 0 <= timestamp < UINT32
  {
    Bytes16(0xF0D5) + Bytes16(FLAGS_CRC) + Bytes32(timestamp) + Bytes16(sequence) + Bytes16(|payload|)
    + [crc, 0, 0, 0] + payload
  }

  predicate IsMessage(m: seq<byte>) {
    HEAD_SIZE <= |m| && HasMagic(m) && SizeOf(m) == |m|
  }

  /** Round trip of one message: what was packed is what the callback gets; the checksum is behind the length. */
  lemma PackedDelivers(payload: seq<byte>, sequence: int, timestamp: int, crc: byte)
    requires |payload| < UINT16 && 0 <= sequence < UINT16 && 0 <= timestamp < UINT32
    ensures var m := Packed(payload, sequence, timestamp, crc);
      && IsMessage(m) && |m| == HEAD_SIZE + |payload|
      && DeliveryOf(m) == Delivery(sequence, FLAGS_CRC, timestamp, sequence % 256, payload)
      && m[12] == crc && m[13] == m[14] == m[15] == 0
  {
    var m := Packed(payload, sequence, timestamp, crc);
    assert m[0] == 0xD5 && m[1] == 0xF0 && m[2] == 1 && m[3] == 0;
    assert m[8] == sequence % 256 && m[9] == sequence / 256;
    assert m[10] == |payload| % 256 && m[11] == |payload| / 256;
    assert m[4..8] == Bytes32(timestamp);
    var lo, hi := timestamp % UINT16, timestamp / UINT16;
    assert m[4] == lo % 256 && m[5] == lo / 256 && m[6] == hi % 256 && m[7] == hi / 256;
    assert m[HEAD_SIZE..] == payload;
  }

  // ---------- The unpacker ----------

  /** The deliveries of one unpack call, and what it leaves in the cache. */
  datatype Outcome = Outcome(out: seq<Delivery>, cache: seq<byte>)

  function After(d: Delivery, o: Outcome): Outcome {
    Outcome([d] + o.out, o.cache)
  }

  /** One unpack call: the loop, with `cache` as the cached bytes and `data` as what is left of the input. */
  function Unpack(cache: seq<byte>, data: seq<byte>): Outcome
    decreases |data|
  {
    if data == [] then Outcome([], cache)
    else if cache == [] then
      if |data| < HEAD_SIZE then Outcome([], data)
      else if !HasMagic(data) then Outcome([], [])
      else if |data| < SizeOf(data) then Outcome([], data)
      else After(DeliveryOf(data), Unpack([], data[SizeOf(data)..]))
    else if |cache| < HEAD_SIZE && |data| < HEAD_SIZE - |cache| then Outcome([], cache + data)
    else
      var need := if |cache| < HEAD_SIZE then HEAD_SIZE - |cache| else 0;
      UnpackCached(cache + data[..need], data[need..])
  }

  /** The same, once the cache holds a whole header. */
  function UnpackCached(cache: seq<byte>, data: seq<byte>): Outcome
    requires HEAD_SIZE <= |cache|
    decreases |data|, 0
  {
    if !HasMagic(cache) || SizeOf(cache) <= |cache| then Outcome([], cache)
    else
      var need := SizeOf(cache) - |cache|;
      if |data| < need then Outcome([], cache + data)
      else After(DeliveryOf(cache + data[..need]), Unpack([], data[need..]))
  }

  /** So many bytes stay within a cache of `size` bytes, and within its 16-bit count. */
  predicate Cacheable(n: nat, size: nat) {
    n <= size && n < UINT16
  }

  /**
   The cache buffer is never filled beyond `size`, and the count of cached bytes never wraps around; the unpacker itself
   checks neither.
   */
  predicate Fits(cache: seq<byte>, data: seq<byte>, size: nat)
    decreases |data|
  {
    if data == [] then Cacheable(|cache|, size)
    else if cache == [] then
      if |data| < HEAD_SIZE then Cacheable(|data|, size)
      else if !HasMagic(data) then true
      else if |data| < SizeOf(data) then Cacheable(|data|, size)
      else Fits([], data[SizeOf(data)..], size)
    else if |cache| < HEAD_SIZE && |data| < HEAD_SIZE - |cache| then Cacheable(|cache + data|, size)
    else
      var need := if |cache| < HEAD_SIZE then HEAD_SIZE - |cache| else 0;
      HEAD_SIZE <= size && Cacheable(|cache|, size) && FitsCached(cache + data[..need], data[need..], size)
  }

  predicate FitsCached(cache: seq<byte>, data: seq<byte>, size: nat)
    requires HEAD_SIZE <= |cache|
    decreases |data|, 0
  {
    if !HasMagic(cache) || SizeOf(cache) <= |cache| then true
    else
      var need := SizeOf(cache) - |cache|;
      if |data| < need then Cacheable(|cache + data|, size)
      else SizeOf(cache) <= size && Fits([], data[need..], size)
  }

  /** Several calls, one for each chunk. */
  function Feed(cache: seq<byte>, chunks: seq<seq<byte>>): Outcome
    decreases |chunks|
  {
    if chunks == [] then Outcome([], cache)
    else
      var first := Unpack(cache, chunks[0]);
      var rest := Feed(first.cache, chunks[1..]);
      Outcome(first.out + rest.out, rest.cache)
  }

  // ---------- Streams of messages ----------

  /** No message is longer than the cache, or than what a 16-bit count of all but its last byte can count. */
  predicate AllFit(ms: seq<seq<byte>>, size: nat) {
    forall i :: 0 <= i < |ms| ==> |ms[i]| <= size && |ms[i]| <= UINT16
  }

  predicate AreMessages(ms: seq<seq<byte>>) {
    forall i :: 0 <= i < |ms| ==> IsMessage(ms[i])
  }

  function Deliveries(ms: seq<seq<byte>>): (ds: seq<Delivery>)
    requires AreMessages(ms)
    ensures |ds| == |ms| && forall i :: 0 <= i < |ms| ==> ds[i] == DeliveryOf(ms[i])
  {
    seq(|ms|, i requires 0 <= i < |ms| => DeliveryOf(ms[i]))
  }

  predicate Prefix(a: seq<byte>, b: seq<byte>) {
    |a| < |b| && a == b[..|a|]
  }

  /** `cache` is the unconsumed proper prefix of the next message, or empty when there is none. */
  predicate IsRemainder(cache: seq<byte>, ms: seq<seq<byte>>) {
    if ms == [] then cache == [] else Prefix(cache, ms[0])
  }

  /** The header at the start of a stream is the header of its first message. */
  lemma SameHeader(m: seq<byte>, s: seq<byte>)
    requires IsMessage(m) && HEAD_SIZE <= |s| && s[..HEAD_SIZE] == m[..HEAD_SIZE]
    ensures HasMagic(s) && SizeOf(s) == |m|
    ensures |m| <= |s| && s[..|m|] == m ==> DeliveryOf(s) == DeliveryOf(m)
  {
    assert forall i :: 0 <= i < HEAD_SIZE ==> s[i] == s[..HEAD_SIZE][i] == m[i];
    if |m| <= |s| && s[..|m|] == m {
      assert s[HEAD_SIZE..SizeOf(s)] == m[HEAD_SIZE..];
    }
  }

  /** A prefix of a stream and the first message of the stream agree as far as both go. */
  lemma Agree(a: seq<byte>, b: seq<byte>, m: seq<byte>, tail: seq<byte>)
    requires a + b == m + tail
    ensures |a| <= |m| ==> a == m[..|a|]
    ensures |m| <= |a| ==> a[..|m|] == m && a[|m|..] + b == tail
  {
    if |a| <= |m| {
      assert a == (a + b)[..|a|] == (m + tail)[..|a|];
    }
    if |m| <= |a| {
      assert a[..|m|] == (a + b)[..|m|] == (m + tail)[..|m|];
      assert a[|m|..] + b == (a + b)[|m|..] == (m + tail)[|m|..];
    }
  }

  /**
   One call on a well-formed stream: it delivers the messages its bytes complete, in order, caches the start of the
   next one, and never needs a larger cache than the longest message. Only a message without payload must not be in
   the cache already.
   */
  lemma {:induction false} UnpackStream(ms: seq<seq<byte>>, cache: seq<byte>, data: seq<byte>, rest: seq<byte>,
                                        size: nat)
      returns (k: nat)
    requires AreMessages(ms) && IsRemainder(cache, ms) && (cache != [] ==> |ms[0]| > HEAD_SIZE)
    requires cache + (data + rest) == Concat(ms)
    requires AllFit(ms, size)
    ensures k <= |ms| && Unpack(cache, data).out == Deliveries(ms[..k])
    ensures var left := Unpack(cache, data).cache; IsRemainder(left, ms[k..]) && left + rest == Concat(ms[k..])
    ensures Fits(cache, data, size)
    decreases |data|, 3
  {
    if data == [] {
      k := 0;
    } else if cache == [] {
      k := UnpackDirect(ms, data, rest, size);
    } else {
      k := UnpackRest(ms, cache, data, rest, size);
    }
  }

  lemma {:induction false} UnpackDirect(ms: seq<seq<byte>>, data: seq<byte>, rest: seq<byte>, size: nat)
      returns (k: nat)
    requires AreMessages(ms) && data != [] && data + rest == Concat(ms)
    requires AllFit(ms, size)
    ensures k <= |ms| && Unpack([], data).out == Deliveries(ms[..k])
    ensures var left := Unpack([], data).cache; IsRemainder(left, ms[k..]) && left + rest == Concat(ms[k..])
    ensures Fits([], data, size)
    decreases |data|, 1
  {
    var m := ms[0];
    Agree(data, rest, m, Concat(ms[1..]));
    k := 0;
    if |data| >= HEAD_SIZE {
      assert data[..HEAD_SIZE] == m[..HEAD_SIZE];
      SameHeader(m, data);
      if |data| >= |m| {
        var more := UnpackStream(ms[1..], [], data[|m|..], rest, size);
        k := Delivered(ms, more);
      }
    }
  }

  lemma Delivered(ms: seq<seq<byte>>, more: nat) returns (k: nat)
    requires AreMessages(ms) && more < |ms|
    ensures k == more + 1 && ms[1..][more..] == ms[k..]
    ensures Deliveries(ms[..k]) == [DeliveryOf(ms[0])] + Deliveries(ms[1..][..more])
  {
    k := more + 1;
  }

  lemma {:induction false} UnpackRest(ms: seq<seq<byte>>, cache: seq<byte>, data: seq<byte>, rest: seq<byte>, size: nat)
      returns (k: nat)
    requires AreMessages(ms) && data != [] && cache != [] && ms != [] && Prefix(cache, ms[0]) && |ms[0]| > HEAD_SIZE
    requires cache + (data + rest) == Concat(ms)
    requires AllFit(ms, size)
    ensures k <= |ms| && Unpack(cache, data).out == Deliveries(ms[..k])
    ensures var left := Unpack(cache, data).cache; IsRemainder(left, ms[k..]) && left + rest == Concat(ms[k..])
    ensures Fits(cache, data, size)
    decreases |data|, 2
  {
    hide UnpackCached;
    var m := ms[0];
    assert (cache + data) + rest == cache + (data + rest);
    if |cache| < HEAD_SIZE && |data| < HEAD_SIZE - |cache| {
      Agree(cache + data, rest, m, Concat(ms[1..]));
      k := 0;
    } else {
      var need := if |cache| < HEAD_SIZE then HEAD_SIZE - |cache| else 0;
      var head, tail := cache + data[..need], data[need..];
      assert head + (tail + rest) == cache + (data + rest);
      Agree(head, tail + rest, m, Concat(ms[1..]));
      k := UnpackHeaded(ms, head, tail, rest, size);
    }
  }

  lemma {:induction false} UnpackHeaded(ms: seq<seq<byte>>, head: seq<byte>, tail: seq<byte>, rest: seq<byte>,
                                        size: nat)
      returns (k: nat)
    requires AreMessages(ms) && ms != [] && HEAD_SIZE <= |head| && Prefix(head, ms[0])
    requires head + (tail + rest) == Concat(ms)
    requires AllFit(ms, size)
    ensures k <= |ms| && UnpackCached(head, tail).out == Deliveries(ms[..k])
    ensures var left := UnpackCached(head, tail).cache; IsRemainder(left, ms[k..]) && left + rest == Concat(ms[k..])
    ensures FitsCached(head, tail, size)
    decreases |tail|, 1
  {
    var m := ms[0];
    Completed(m, head, tail, size);
    assert (head + tail) + rest == head + (tail + rest) && Concat(ms) == m + Concat(ms[1..]);
    Agree(head + tail, rest, m, Concat(ms[1..]));
    k := 0;
    var need := |m| - |head|;
    hide Unpack, Concat, Fits, UnpackCached, FitsCached, IsMessage;
    if |tail| >= need {
      assert head + tail[..need] == (head + tail)[..|m|];
      assert tail[need..] == (head + tail)[|m|..];
      var more := UnpackStream(ms[1..], [], tail[need..], rest, size);
      k := Delivered(ms, more);
    }
  }

  /** A message whose header is in the cache is completed by the input, or not yet. */
  lemma Completed(m: seq<byte>, head: seq<byte>, tail: seq<byte>, size: nat)
    requires IsMessage(m) && HEAD_SIZE <= |head| && Prefix(head, m)
    ensures var need := |m| - |head|;
      && (|tail| < need ==>
        && UnpackCached(head, tail) == Outcome([], head + tail)
        && FitsCached(head, tail, size) == Cacheable(|head + tail|, size))
      && (|tail| >= need && head + tail[..need] == m ==>
        && UnpackCached(head, tail) == After(DeliveryOf(m), Unpack([], tail[need..]))
        && FitsCached(head, tail, size) == (|m| <= size && Fits([], tail[need..], size)))
  {
    assert head[..HEAD_SIZE] == m[..HEAD_SIZE];
    SameHeader(m, head);
  }

  // ---------- Any chunking ----------

  predicate HavePayload(ms: seq<seq<byte>>) {
    forall i :: 0 <= i < |ms| ==> |ms[i]| > HEAD_SIZE
  }

  /** No call of a whole session fills the cache beyond `size`. */
  predicate FeedFits(cache: seq<byte>, chunks: seq<seq<byte>>, size: nat)
    decreases |chunks|
  {
    chunks != [] ==> Fits(cache, chunks[0], size) && FeedFits(Unpack(cache, chunks[0]).cache, chunks[1..], size)
  }

  /**
   Main result, for any part of a session: whatever the chunks, the calls so far have delivered exactly the messages
   whose bytes are complete, and the cache is the unconsumed proper prefix of the next message, within `size`.
   */
  lemma {:induction false} FeedStream(ms: seq<seq<byte>>, cache: seq<byte>, chunks: seq<seq<byte>>, rest: seq<byte>,
                                      size: nat) returns (k: nat)
    requires AreMessages(ms) && HavePayload(ms) && IsRemainder(cache, ms)
    requires cache + (Concat(chunks) + rest) == Concat(ms)
    requires AllFit(ms, size)
    ensures k <= |ms| && Feed(cache, chunks).out == Deliveries(ms[..k])
    ensures var left := Feed(cache, chunks).cache; IsRemainder(left, ms[k..]) && left + rest == Concat(ms[k..])
    ensures FeedFits(cache, chunks, size)
    decreases |chunks|
  {
    hide AreMessages, AllFit, HavePayload, Unpack, IsRemainder, Deliveries, Feed, FeedFits, Fits, Concat;
    if chunks == [] {
      FeedNothing(ms, cache, rest, size);
      k := 0;
    } else {
      var after := Concat(chunks[1..]) + rest;
      FirstChunk(cache, chunks, rest, ms);
      StartedMessage(cache, ms);
      var n := UnpackStream(ms, cache, chunks[0], after, size);
      SuffixMessages(ms, n, size);
      FeedStep(cache, chunks, size);
      var more := FeedStream(ms[n..], Unpack(cache, chunks[0]).cache, chunks[1..], rest, size);
      k := n + more;
      SplitDeliveries(ms, n, more);
    }
  }

  lemma FeedNothing(ms: seq<seq<byte>>, cache: seq<byte>, rest: seq<byte>, size: nat)
    requires AreMessages(ms) && IsRemainder(cache, ms) && cache + (Concat([]) + rest) == Concat(ms)
    ensures Feed(cache, []).out == Deliveries(ms[..0]) && FeedFits(cache, [], size)
    ensures var left := Feed(cache, []).cache; IsRemainder(left, ms[0..]) && left + rest == Concat(ms[0..])
  {
    assert ms[0..] == ms && [] + rest == rest;
  }

  lemma FirstChunk(cache: seq<byte>, chunks: seq<seq<byte>>, rest: seq<byte>, ms: seq<seq<byte>>)
    requires chunks != [] && cache + (Concat(chunks) + rest) == Concat(ms)
    ensures cache + (chunks[0] + (Concat(chunks[1..]) + rest)) == Concat(ms)
  {
    var tail := Concat(chunks[1..]);
    assert Concat(chunks) == chunks[0] + tail;
    hide Concat;
    assert chunks[0] + (tail + rest) == (chunks[0] + tail) + rest;
  }

  lemma StartedMessage(cache: seq<byte>, ms: seq<seq<byte>>)
    requires AreMessages(ms) && HavePayload(ms) && IsRemainder(cache, ms)
    ensures cache != [] ==> ms != [] && |ms[0]| > HEAD_SIZE
  {
  }

  lemma SuffixMessages(ms: seq<seq<byte>>, n: nat, size: nat)
    requires AreMessages(ms) && HavePayload(ms) && n <= |ms|
    ensures AreMessages(ms[n..]) && HavePayload(ms[n..]) && (AllFit(ms, size) ==> AllFit(ms[n..], size))
  {
  }

  lemma FeedStep(cache: seq<byte>, chunks: seq<seq<byte>>, size: nat)
    requires chunks != []
    ensures var first := Unpack(cache, chunks[0]); var rest := Feed(first.cache, chunks[1..]);
      && Feed(cache, chunks) == Outcome(first.out + rest.out, rest.cache)
      && FeedFits(cache, chunks, size) == (Fits(cache, chunks[0], size) && FeedFits(first.cache, chunks[1..], size))
  {
  }

  lemma SplitDeliveries(ms: seq<seq<byte>>, n: nat, more: nat)
    requires AreMessages(ms) && n + more <= |ms|
    ensures ms[n..][more..] == ms[n + more..]
    ensures Deliveries(ms[..n + more]) == Deliveries(ms[..n]) + Deliveries(ms[n..][..more])
  {
  }

  /**
   Unpacking all the bytes of messages that fit the cache, cut in any way, gives exactly the messages, leaves the cache
   empty and never fills it beyond its size.
   */
  lemma {:induction false} ChunkingIsIrrelevant(ms: seq<seq<byte>>, chunks: seq<seq<byte>>, size: nat)
    requires AreMessages(ms) && HavePayload(ms) && AllFit(ms, size) && Concat(chunks) == Concat(ms)
    ensures Feed([], chunks) == Outcome(Deliveries(ms), []) && FeedFits([], chunks, size)
  {
    assert [] + (Concat(chunks) + []) == Concat(ms);
    var k := FeedStream(ms, [], chunks, [], size);
    assert Feed([], chunks).cache + [] == Concat(ms[k..]);
    AtLeastFirst(ms[k..]);
    assert ms[..k] == ms;
  }

  lemma AtLeastFirst(ms: seq<seq<byte>>)
    ensures ms != [] ==> |Concat(ms)| >= |ms[0]|
  {
  }

  /** The stream cut in two, `j` bytes into message `k`. */
  function CutAt(ms: seq<seq<byte>>, k: nat, j: nat): seq<seq<byte>>
    requires k < |ms| && j <= |ms[k]|
  {
    [Concat(ms[..k]) + ms[k][..j], ms[k][j..] + Concat(ms[k + 1..])]
  }

  lemma CutConcat(ms: seq<seq<byte>>, k: nat, j: nat)
    requires k < |ms| && j <= |ms[k]|
    ensures Concat(CutAt(ms, k, j)) == Concat(ms)
  {
    var m := ms[k];
    ConcatAppend(ms[..k], [m] + ms[k + 1..]);
    assert ms == ms[..k] + ([m] + ms[k + 1..]);
    var before, after := Concat(ms[..k]), Concat(ms[k + 1..]);
    assert Concat([m] + ms[k + 1..]) == m + after;
    var chunks := CutAt(ms, k, j);
    assert (before + m[..j]) + (m[j..] + after) == before + (m + after);
    assert Concat(chunks) == chunks[0] + (chunks[1] + Concat(chunks[2..]));
  }

  /** The condition on payloads is exact: a message without payload is lost by a cut anywhere inside its header. */
  lemma EmptyPayloadStalls(ms: seq<seq<byte>>, k: nat, j: nat)
    requires AreMessages(ms) && k < |ms| && |ms[k]| == HEAD_SIZE && 0 < j < HEAD_SIZE
    ensures Concat(CutAt(ms, k, j)) == Concat(ms) && Feed([], CutAt(ms, k, j)).out == Deliveries(ms[..k])
  {
    CutConcat(ms, k, j);
    StartsNext(ms, k, j);
    Stall(ms[k], j, Concat(ms[k + 1..]));
    FeedTwo(CutAt(ms, k, j));
  }

  /**
   So is the condition on sizes: a message longer than the cache is written past its end after a cut anywhere inside
   the message, and one of more than 65536 bytes wraps the count around after a cut behind its byte 65535.
   */
  lemma LongMessageOverruns(ms: seq<seq<byte>>, k: nat, j: nat, size: nat)
    requires AreMessages(ms) && k < |ms| && HEAD_SIZE < |ms[k]| && 0 < j < |ms[k]|
    requires |ms[k]| > size || j >= UINT16
    ensures Concat(CutAt(ms, k, j)) == Concat(ms) && !FeedFits([], CutAt(ms, k, j), size)
  {
    CutConcat(ms, k, j);
    StartsNext(ms, k, j);
    Overrun(ms[k], j, Concat(ms[k + 1..]), size);
    SecondFits(CutAt(ms, k, j), size);
  }

  lemma SecondFits(chunks: seq<seq<byte>>, size: nat)
    requires |chunks| == 2
    ensures FeedFits([], chunks, size) ==> Fits(Unpack([], chunks[0]).cache, chunks[1], size)
  {
    hide Fits, Unpack;
    var cache := Unpack([], chunks[0]).cache;
    assert FeedFits([], chunks, size) ==> FeedFits(cache, chunks[1..], size);
    assert FeedFits(cache, chunks[1..], size) ==> Fits(cache, chunks[1..][0], size);
  }

  lemma Overrun(m: seq<byte>, j: nat, after: seq<byte>, size: nat)
    requires IsMessage(m) && 0 < j < |m| && (|m| > size || j >= UINT16)
    ensures !Fits(m[..j], m[j..] + after, size)
  {
    var cache, data := m[..j], m[j..] + after;
    if j < HEAD_SIZE {
      assert cache + data[..HEAD_SIZE - j] == m[..HEAD_SIZE];
      SameHeader(m, m[..HEAD_SIZE]);
    } else {
      assert cache + data[..0] == cache && cache[..HEAD_SIZE] == m[..HEAD_SIZE];
      SameHeader(m, cache);
    }
  }

  /** For example, a payload of 2000 bytes and a channel for 1460, cut anywhere. */
  lemma LargePayloadOverruns(m: seq<byte>, j: nat)
    requires IsMessage(m) && |m| == HEAD_SIZE + 2000 && 0 < j < |m|
    ensures !FeedFits([], [m[..j], m[j..]], HEAD_SIZE + 1460)
  {
    LongMessageOverruns([m], 0, j, HEAD_SIZE + 1460);
    assert [m][..0] == [] && [m][1..] == [] && Concat([]) == [];
    assert [] + m[..j] == m[..j] && m[j..] + [] == m[j..];
    assert CutAt([m], 0, j) == [m[..j], m[j..]];
  }

  lemma FeedTwo(chunks: seq<seq<byte>>)
    requires |chunks| == 2
    ensures var first := Unpack([], chunks[0]); Feed([], chunks).out == first.out + Unpack(first.cache, chunks[1]).out
  {
    assert Feed([], chunks) == Outcome(Unpack([], chunks[0]).out + Feed(Unpack([], chunks[0]).cache, chunks[1..]).out,
                                       Feed(Unpack([], chunks[0]).cache, chunks[1..]).cache);
    assert chunks[1..][1..] == [];
  }

  /** A whole message at the start of the input is delivered first. */
  lemma UnpackOne(m: seq<byte>, rest: seq<byte>)
    requires IsMessage(m)
    ensures Unpack([], m + rest) == After(DeliveryOf(m), Unpack([], rest))
  {
    var data := m + rest;
    assert data[..HEAD_SIZE] == m[..HEAD_SIZE] && data[..|m|] == m && data[|m|..] == rest;
    SameHeader(m, data);
  }

  lemma FirstOf(ms: seq<seq<byte>>, k: nat)
    requires AreMessages(ms) && 0 < k <= |ms|
    ensures AreMessages(ms[1..]) && IsMessage(ms[0])
    ensures Concat(ms[..k]) == ms[0] + Concat(ms[1..][..k - 1])
    ensures Deliveries(ms[..k]) == [DeliveryOf(ms[0])] + Deliveries(ms[1..][..k - 1])
  {
    assert ms[..k] == [ms[0]] + ms[1..][..k - 1];
  }

  lemma StartsOne(m: seq<byte>, j: nat)
    requires IsMessage(m) && 0 < j < |m|
    ensures Unpack([], Concat([]) + m[..j]) == Outcome([], m[..j])
  {
    assert Concat([]) + m[..j] == m[..j];
    if HEAD_SIZE <= j {
      assert m[..j][..HEAD_SIZE] == m[..HEAD_SIZE];
      SameHeader(m, m[..j]);
    }
  }

  /** One call with the first `k` messages and a part of the next. */
  lemma {:induction false} StartsNext(ms: seq<seq<byte>>, k: nat, j: nat)
    requires AreMessages(ms) && k < |ms| && IsMessage(ms[k]) && 0 < j < |ms[k]|
    ensures Unpack([], Concat(ms[..k]) + ms[k][..j]) == Outcome(Deliveries(ms[..k]), ms[k][..j])
  {
    hide Unpack, Concat, Deliveries, AreMessages, DeliveryOf;
    if k == 0 {
      StartsOne(ms[0], j);
    } else {
      var rest := Concat(ms[1..][..k - 1]) + ms[k][..j];
      FirstOf(ms, k);
      assert Concat(ms[..k]) + ms[k][..j] == ms[0] + rest;
      UnpackOne(ms[0], rest);
      StartsNext(ms[1..], k - 1, j);
    }
  }

  lemma Stall(m: seq<byte>, j: nat, after: seq<byte>)
    requires IsMessage(m) && |m| == HEAD_SIZE && 0 < j < HEAD_SIZE
    ensures Unpack(m[..j], m[j..] + after).out == []
  {
    var data := m[j..] + after;
    assert m[..j] + data[..HEAD_SIZE - j] == m;
  }

  /** However the stream is cut, its messages are delivered, and the cache is never overrun on the way. */
  ghost predicate EveryCutDelivers(ms: seq<seq<byte>>, size: nat)
    requires AreMessages(ms)
  {
    forall chunks :: Concat(chunks) == Concat(ms) ==>
      FeedFits([], chunks, size) && Feed([], chunks).out == Deliveries(ms)
  }

  /**
   Main result: with a cache of `size` bytes, every cut of a stream delivers all its messages and stays within the cache
   if and only if every message has a payload and no message is longer than the cache or than 65536 bytes.
   */
  lemma {:induction false} EveryCutDeliversExactly(ms: seq<seq<byte>>, size: nat)
    requires AreMessages(ms) && HEAD_SIZE <= size
    ensures EveryCutDelivers(ms, size) <==> HavePayload(ms) && AllFit(ms, size)
  {
    if HavePayload(ms) && AllFit(ms, size) {
      forall chunks | Concat(chunks) == Concat(ms)
        ensures FeedFits([], chunks, size) && Feed([], chunks).out == Deliveries(ms)
      {
        ChunkingIsIrrelevant(ms, chunks, size);
      }
    } else if !HavePayload(ms) {
      var k :| 0 <= k < |ms| && |ms[k]| <= HEAD_SIZE;
      EmptyPayloadStalls(ms, k, 1);
      assert |Feed([], CutAt(ms, k, 1)).out| < |Deliveries(ms)|;
    } else {
      var k :| 0 <= k < |ms| && (|ms[k]| > size || |ms[k]| > UINT16);
      LongMessageOverruns(ms, k, |ms[k]| - 1, size);
    }
  }
}
