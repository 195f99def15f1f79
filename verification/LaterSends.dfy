/** Sends after a failed one: what the peer gets when any of the sends of a session may fail. */
module LaterSends {
  import opened Common
  import opened Framing
  import opened EndToEnd

  /** The entries whose send reported success. */
  function Successful<T>(xs: seq<T>, rets: seq<int>): seq<T>
    requires |xs| == |rets|
  {
    if xs == [] then []
    else if rets[0] >= 0 then [xs[0]] + Successful(xs[1..], rets[1..])
    else Successful(xs[1..], rets[1..])
  }

  /** Every failed send put nothing on the wire. */
  predicate FailuresSilent(sents: seq<seq<byte>>, rets: seq<int>)
    requires |sents| == |rets|
  {
    forall i :: 0 <= i < |rets| && rets[i] < 0 ==> sents[i] == []
  }

  /**
   However its bytes are cut, the peer gets exactly the packets whose send reported success, with nothing left over and
   without overrunning its cache.
   */
  ghost predicate ExactlyTheSuccessful(
    ps: seq<Packet>, last: nat, sents: seq<seq<byte>>, rets: seq<int>, size: nat)
    requires |ps| == |rets|
  {
    forall chunks :: Concat(chunks) == Concat(sents) ==>
      FeedFits([], chunks, size) && Feed([], chunks) == Outcome(Successful(Received(ps, last), rets), [])
  }

  // ---------- Silent failures do not matter ----------

  lemma {:induction false} SuccessfulMessages(ms: seq<seq<byte>>, rets: seq<int>, size: nat)
    requires |ms| == |rets| && AreMessages(ms) && HavePayload(ms)
    ensures var ok := Successful(ms, rets);
      AreMessages(ok) && HavePayload(ok) && Deliveries(ok) == Successful(Deliveries(ms), rets)
    ensures AllFit(ms, size) ==> AllFit(Successful(ms, rets), size)
  {
    if ms != [] {
      var rest := Successful(ms[1..], rets[1..]);
      FirstDelivery(ms[0], ms[1..]);
      assert [ms[0]] + ms[1..] == ms;
      SuccessfulMessages(ms[1..], rets[1..], size);
      FirstDelivery(ms[0], rest);
    }
  }

  lemma FirstDelivery(m: seq<byte>, rest: seq<seq<byte>>)
    requires IsMessage(m) && |m| > HEAD_SIZE
    ensures AreMessages(rest) <==> AreMessages([m] + rest)
    ensures HavePayload(rest) <==> HavePayload([m] + rest)
    ensures AreMessages(rest) ==> Deliveries([m] + rest) == [DeliveryOf(m)] + Deliveries(rest)
  {
    hide IsMessage, DeliveryOf;
    var ms := [m] + rest;
    assert ms[0] == m && ms[1..] == rest;
    forall i | 0 <= i < |rest| ensures ms[i + 1] == rest[i] {
    }
    assert forall i :: 0 < i < |ms| ==> ms[i] == rest[i - 1];
  }

  lemma {:induction false} SuccessfulBytes(ms: seq<seq<byte>>, sents: seq<seq<byte>>, rets: seq<int>)
    requires Session(ms, sents, rets) && |ms| == |rets|
    ensures FailuresSilent(sents, rets) ==> Concat(sents) == Concat(Successful(ms, rets))
    ensures !FailuresSilent(sents, rets) ==> |Concat(sents)| > |Concat(Successful(ms, rets))|
  {
    if ms != [] {
      FirstSend(ms, sents, rets);
      SuccessfulBytes(ms[1..], sents[1..], rets[1..]);
      var rest := Successful(ms[1..], rets[1..]);
      assert Concat(sents) == sents[0] + Concat(sents[1..]);
      assert ([ms[0]] + rest)[1..] == rest;
      assert Concat([ms[0]] + rest) == ms[0] + Concat(rest);
      assert [] + Concat(rest) == Concat(rest);
    }
  }

  lemma FirstSend(ms: seq<seq<byte>>, sents: seq<seq<byte>>, rets: seq<int>)
    requires Session(ms, sents, rets) && |ms| == |rets| && ms != []
    ensures Session(ms[1..], sents[1..], rets[1..]) && (rets[0] >= 0 ==> sents[0] == ms[0])
    ensures FailuresSilent(sents, rets) <==>
      (rets[0] < 0 ==> sents[0] == []) && FailuresSilent(sents[1..], rets[1..])
  {
    assert SendResult(ms[0], sents[0], rets[0]);
    forall i | 0 < i < |rets| ensures rets[i] == rets[1..][i - 1] && sents[i] == sents[1..][i - 1] {
    }
  }

  // ---------- Bytes are conserved ----------

  /** The bytes of the messages that were delivered. */
  function Consumed(ds: seq<Delivery>): nat {
    if ds == [] then 0 else HEAD_SIZE + |ds[0].payload| + Consumed(ds[1..])
  }

  lemma {:induction false} ConsumedDeliveries(ms: seq<seq<byte>>)
    requires AreMessages(ms)
    ensures Consumed(Deliveries(ms)) == |Concat(ms)|
  {
    if ms != [] {
      ConsumedDeliveries(ms[1..]);
      assert Deliveries(ms)[1..] == Deliveries(ms[1..]);
      assert |DeliveryOf(ms[0]).payload| == |ms[0]| - HEAD_SIZE;
    }
  }

  /** The stream cut into single bytes. */
  function Bytewise(bytes: seq<byte>): (chunks: seq<seq<byte>>)
    ensures Concat(chunks) == bytes
  {
    if bytes == [] then [] else
      var chunks := [[bytes[0]]] + Bytewise(bytes[1..]);
      assert chunks[1..] == Bytewise(bytes[1..]) && [bytes[0]] + bytes[1..] == bytes;
      chunks
  }

  /** Fed one byte, the unpacker keeps it or completes a message with it, or it is stuck for good. */
  lemma OneByte(cache: seq<byte>, b: byte)
    ensures var o := Unpack(cache, [b]);
      || o == Outcome([], cache + [b])
      || (o.cache == [] && Consumed(o.out) == |cache| + 1)
      || Stuck(o.cache)
  {
    var data := [b];
    assert data[..0] == [] && data[..1] == data && data[1..] == [] && data[0..] == data;
    if HEAD_SIZE <= |cache| {
      assert cache + data[..0] == cache;
      Completes(cache, b);
    } else if |cache| == HEAD_SIZE - 1 {
      assert Unpack(cache, data) == UnpackCached(cache + data, []);
    }
  }

  /** A header that is complete in the cache and wrong, or of a message without payload, is never left. */
  predicate Stuck(cache: seq<byte>) {
    HEAD_SIZE <= |cache| && (!HasMagic(cache) || SizeOf(cache) <= |cache|)
  }

  lemma Completes(cache: seq<byte>, b: byte)
    requires HEAD_SIZE <= |cache|
    ensures var o := UnpackCached(cache, [b]);
      || o == Outcome([], cache + [b])
      || (o.cache == [] && Consumed(o.out) == |cache| + 1)
      || (o == Outcome([], cache) && Stuck(cache))
  {
    if !Stuck(cache) && SizeOf(cache) == |cache| + 1 {
      CompletesNow(cache, b);
    }
  }

  lemma CompletesNow(cache: seq<byte>, b: byte)
    requires HEAD_SIZE <= |cache| && HasMagic(cache) && SizeOf(cache) == |cache| + 1
    ensures var o := UnpackCached(cache, [b]); o.cache == [] && Consumed(o.out) == |cache| + 1
  {
    var m := cache + [b];
    assert [b][..1] == [b] && [b][1..] == [];
    assert UnpackCached(cache, [b]) == Outcome([DeliveryOf(m)] + [], []);
    PayloadLength(cache, m);
    hide DeliveryOf, UnpackCached;
    assert Consumed([DeliveryOf(m)]) == HEAD_SIZE + |DeliveryOf(m).payload| + Consumed([]);
  }

  lemma PayloadLength(cache: seq<byte>, m: seq<byte>)
    requires HEAD_SIZE <= |cache| <= |m| && cache == m[..|cache|] && SizeOf(cache) == |m|
    ensures |DeliveryOf(m).payload| == |m| - HEAD_SIZE
  {
    assert cache[10] == m[10] && cache[11] == m[11];
  }

  lemma StuckUnpack(cache: seq<byte>, data: seq<byte>)
    requires Stuck(cache)
    ensures Unpack(cache, data) == Outcome([], cache)
  {
    assert cache + data[..0] == cache && data[0..] == data;
  }

  lemma {:induction false} StaysStuck(cache: seq<byte>, chunks: seq<seq<byte>>)
    requires Stuck(cache)
    ensures Feed(cache, chunks) == Outcome([], cache)
    decreases |chunks|
  {
    if chunks != [] {
      StuckUnpack(cache, chunks[0]);
      StaysStuck(cache, chunks[1..]);
    }
  }

  lemma {:induction false} ConsumedAppend(a: seq<Delivery>, b: seq<Delivery>)
    ensures Consumed(a + b) == Consumed(a) + Consumed(b)
  {
    if a == [] {
      assert a + b == b;
    } else {
      assert (a + b)[1..] == a[1..] + b;
      ConsumedAppend(a[1..], b);
    }
  }

  /** Fed byte by byte to an empty cache in the end, every byte belongs to a message that was delivered. */
  lemma {:induction false} BytesConserved(cache: seq<byte>, bytes: seq<byte>)
    ensures var o := Feed(cache, Bytewise(bytes)); o.cache == [] ==> Consumed(o.out) == |cache| + |bytes|
    decreases |bytes|
  {
    if bytes != [] {
      var o := Unpack(cache, [bytes[0]]);
      var rest := Feed(o.cache, Bytewise(bytes[1..]));
      var chunks := Bytewise(bytes);
      assert chunks[0] == [bytes[0]] && chunks[1..] == Bytewise(bytes[1..]);
      assert Feed(cache, chunks) == Outcome(o.out + rest.out, rest.cache);
      hide Unpack, Feed, Stuck;
      OneByte(cache, bytes[0]);
      ConsumedAppend(o.out, rest.out);
      if Stuck(o.cache) {
        StuckFull(o.cache);
        StaysStuck(o.cache, Bytewise(bytes[1..]));
      } else {
        BytesConserved(o.cache, bytes[1..]);
      }
    }
  }

  lemma StuckFull(cache: seq<byte>)
    requires Stuck(cache)
    ensures cache != []
  {
  }

  // ---------- Main result ----------

  /**
   Main result, for a session in which any sends may fail: however the stream is cut, the peer gets exactly the packets
   whose send reported success, and nothing is left over, if and only if every failed send put nothing on the wire.
   */
  lemma {:induction false} LaterSendsExactly(ps: seq<Packet>, last: nat, sents: seq<seq<byte>>, rets: seq<int>,
                                             size: nat)
    requires AllSendable(ps) && FitCache(ps, size) && Session(Messages(ps, last), sents, rets) && |sents| == |ps|
    ensures ExactlyTheSuccessful(ps, last, sents, rets, size) <==> FailuresSilent(sents, rets)
  {
    var ms := Messages(ps, last);
    MessagesDeliver(ps, last);
    SuccessfulMessages(ms, rets, size);
    SuccessfulBytes(ms, sents, rets);
    var ok := Successful(ms, rets);
    if FailuresSilent(sents, rets) {
      forall chunks | Concat(chunks) == Concat(sents)
        ensures FeedFits([], chunks, size) && Feed([], chunks) == Outcome(Successful(Received(ps, last), rets), [])
      {
        ChunkingIsIrrelevant(ok, chunks, size);
      }
    } else {
      BytesConserved([], Concat(sents));
      ConsumedDeliveries(ok);
      assert Feed([], Bytewise(Concat(sents))) != Outcome(Deliveries(ok), []);
    }
  }
}
