/** The transmission channel: the unpack loop over its cache buffer, and packing into its send buffer. */
module Transmission {
  import opened Common
  import opened Framing

  class Channel {
    const cbuf: array<byte>
    var ccount: nat
    var sequence: nat
    const tbuf: array<byte>
    const tsize: nat
    const csize: nat

    ghost predicate Valid()
      reads this, cbuf, tbuf
    {
      && cbuf != tbuf && ccount <= cbuf.Length && ccount < UINT16 && sequence < UINT16
      && tsize < UINT16 && tbuf.Length == tsize + HEAD_SIZE
    }

    /** The cached bytes: the start of the next message. */
    ghost function Cached(): seq<byte>
      requires Valid()
      reads this, cbuf, tbuf
    {
      cbuf[..ccount]
    }

    /** The channel as allocated: buffers of the two payload sizes plus a header each. */
    constructor (maxRx: nat, maxTx: nat)
      requires maxRx < UINT16 && maxTx < UINT16
      ensures Valid() && Cached() == [] && sequence == 0
      ensures cbuf.Length == maxRx + HEAD_SIZE && tsize == maxTx && fresh(cbuf) && fresh(tbuf)
      ensures csize == cbuf.Length % UINT16
    {
      cbuf := new byte[maxRx + HEAD_SIZE](_ => 0);
      tbuf := new byte[maxTx + HEAD_SIZE](_ => 0);
      tsize := maxTx;
      csize := (maxRx + HEAD_SIZE) % UINT16;
      ccount, sequence := 0, 0;
    }

    /** Copy `n` bytes of the input behind the cached ones. */
    method Copy(data: seq<byte>, p: nat, n: nat)
      requires Valid() && p + n <= |data| && ccount + n <= cbuf.Length
      modifies cbuf
      ensures Valid() && cbuf[..ccount + n] == old(Cached()) + data[p..p + n]
    {
      forall i | 0 <= i < n {
        cbuf[ccount + i] := data[p + i];
      }
    }

    /** Append `n` bytes of the input to the cache; the count has 16 bits. */
    method Cache(data: seq<byte>, p: nat, n: nat)
      requires Valid() && p + n <= |data| && Cacheable(ccount + n, cbuf.Length)
      modifies this`ccount, cbuf
      ensures Valid() && Cached() == old(Cached()) + data[p..p + n]
    {
      Copy(data, p, n);
      ccount := (ccount + n) % UINT16;
    }

    /** A header field, low byte first, of the cached message. */
    method Field16(at: nat) returns (v: int)
      requires Valid() && at + 2 <= cbuf.Length
      ensures v == U16(cbuf[..], at) && 0 <= v < UINT16
    {
      var lo: int, hi: int := cbuf[at], cbuf[at + 1];
      v := lo + 256 * hi;
    }

    /** The receive callback's arguments for the message of `total` bytes in the cache buffer. */
    method CachedDelivery(total: nat) returns (d: Delivery)
      requires Valid() && HEAD_SIZE <= total <= cbuf.Length && SizeOf(cbuf[..total]) == total
      ensures d == DeliveryOf(cbuf[..total])
    {
      var flags := Field16(2);
      var t0 := Field16(4);
      var t1 := Field16(6);
      var seqno := Field16(8);
      d := Delivery(seqno, flags, t0 + UINT16 * t1, seqno % 256, cbuf[HEAD_SIZE..total]);
    }

    /**
     Feed received bytes: `out` lists the calls of the receive callback. The source checks neither that a message fits
     its cache buffer nor that the count of cached bytes fits 16 bits, so its callers must send none that does not.
     */
    method Unpack(data: seq<byte>) returns (out: seq<Delivery>)
      requires Valid() && Fits(Cached(), data, cbuf.Length)
      modifies this`ccount, cbuf
      ensures Valid() && Outcome(out, Cached()) == Framing.Unpack(old(Cached()), data)
    {
      hide Framing.Unpack, Fits;
      out := [];
      var p := 0;
      assert data[0..] == data;
      while p < |data|
        invariant Valid() && p <= |data| && Fits(Cached(), data[p..], cbuf.Length)
        invariant var o := Framing.Unpack(Cached(), data[p..]);
          Framing.Unpack(old(Cached()), data) == Outcome(out + o.out, o.cache)
      {
        var d, stop;
        if ccount == 0 {
          p, d, stop := Direct(data, p);
        } else {
          p, d, stop := Continue(data, p);
        }
        if stop {
          return;
        }
        out := out + [d];
      }
      NothingLeft(data, p);
    }

    lemma NothingLeft(data: seq<byte>, p: nat)
      requires Valid() && p == |data|
      ensures Framing.Unpack(Cached(), data[p..]) == Outcome([], Cached())
    {
    }

    /** What one pass of the loop has done with the input from `p` on. */
    ghost predicate Passed(before: seq<byte>, data: seq<byte>, p: nat, q: nat, d: Delivery, stop: bool)
      requires Valid() && p <= q <= |data|
      reads this, cbuf, tbuf
    {
      var was, now := Framing.Unpack(before, data[p..]), Framing.Unpack([], data[q..]);
      if stop then was == Outcome([], Cached())
      else p < q && Cached() == [] && was == After(d, now) && Fits([], data[q..], cbuf.Length)
    }

    /** The pass of the loop on an empty cache: a whole message is delivered from the input itself. */
    method Direct(data: seq<byte>, p: nat) returns (q: nat, d: Delivery, stop: bool)
      requires Valid() && ccount == 0 && p < |data| && Fits([], data[p..], cbuf.Length)
      modifies this`ccount, cbuf
      ensures Valid() && p <= q <= |data| && Passed([], data, p, q, d, stop)
    {
      var left := |data| - p;
      q, d, stop := p, Delivery(0, 0, 0, 0, []), true;
      if left < HEAD_SIZE {
        Cache(data, p, left);
        return;
      }
      if !(data[p] == 0xD5 && data[p + 1] == 0xF0) {
        return;
      }
      var length := U16(data, p + 10);
      if left < length + HEAD_SIZE {
        Cache(data, p, left);
        return;
      }
      q := p + HEAD_SIZE + length;
      stop := false;
      assert data[p..][SizeOf(data[p..])..] == data[q..];
      assert data[p..][HEAD_SIZE..SizeOf(data[p..])] == data[p + HEAD_SIZE..q];
      d := Delivery(U16(data, p + 8), U16(data, p + 2), U32(data, p + 4), U16(data, p + 8) % 256,
                    data[p + HEAD_SIZE..q]);
    }

    /** The pass of the loop on a started message: complete its header, then the message, in the cache. */
    method Continue(data: seq<byte>, p: nat) returns (q: nat, d: Delivery, stop: bool)
      requires Valid() && ccount > 0 && p < |data| && Fits(Cached(), data[p..], cbuf.Length)
      modifies this`ccount, cbuf
      ensures Valid() && p <= q <= |data| && Passed(old(Cached()), data, p, q, d, stop)
    {
      hide UnpackCached, FitsCached;
      q := p;
      ghost var was, rest := Cached(), data[p..];
      if ccount < HEAD_SIZE {
        var missing := HEAD_SIZE - ccount;
        if |data| - p < missing {
          Cache(data, p, |data| - p);
          d, stop := Delivery(0, 0, 0, 0, []), true;
          return;
        }
        Cache(data, p, missing);
        q := p + missing;
      }
      ghost var need := q - p;
      assert Cached() == was + rest[..need] && data[q..] == rest[need..];
      assert Framing.Unpack(was, rest) == UnpackCached(was + rest[..need], rest[need..]);
      assert FitsCached(was + rest[..need], rest[need..], cbuf.Length);
      q, d, stop := Finish(data, q);
    }

    /** The same, once the cache holds a header: check it and complete the message. */
    method Finish(data: seq<byte>, p: nat) returns (q: nat, d: Delivery, stop: bool)
      requires Valid() && HEAD_SIZE <= ccount && p <= |data| && FitsCached(Cached(), data[p..], cbuf.Length)
      modifies this`ccount, cbuf
      ensures Valid() && p <= q <= |data|
      ensures var was := UnpackCached(old(Cached()), data[p..]);
        if stop then was == Outcome([], Cached())
        else
          && p < q && Cached() == [] && was == After(d, Framing.Unpack([], data[q..]))
          && Fits([], data[q..], cbuf.Length)
    {
      q, d, stop := p, Delivery(0, 0, 0, 0, []), true;
      ghost var head := Cached();
      if !(cbuf[0] == 0xD5 && cbuf[1] == 0xF0) {
        return;
      }
      var length := Field16(10);
      if ccount < HEAD_SIZE + length {
        var missing := HEAD_SIZE + length - ccount;
        if |data| - p < missing {
          Cache(data, p, |data| - p);
          return;
        }
        q := p + missing;
        assert data[p..][missing..] == data[q..];
        Copy(data, p, missing);
        ccount := (ccount + missing) % UINT16;
        ghost var message := cbuf[..HEAD_SIZE + length];
        assert message == head + data[p..][..missing] && message[..HEAD_SIZE] == head[..HEAD_SIZE];
        d := CachedDelivery(HEAD_SIZE + length);
        ccount := 0;
        stop := false;
      }
    }

    /** Pack a payload into the send buffer with the next sequence number; time and checksum come from outside. */
    method Pack(data: seq<byte>, timestamp: int, crc: byte)
      requires Valid() && |data| <= tsize && 0 <= timestamp < UINT32
      modifies this`sequence, tbuf
      ensures Valid() && sequence == (old(sequence) + 1) % UINT16
      ensures tbuf[..HEAD_SIZE + |data|] == Packed(data, sequence, timestamp, crc)
    {
      sequence := (sequence + 1) % UINT16;
      var head := Bytes16(0xF0D5) + Bytes16(FLAGS_CRC) + Bytes32(timestamp) + Bytes16(sequence) + Bytes16(|data|)
        + [crc, 0, 0, 0];
      forall i | 0 <= i < HEAD_SIZE {
        tbuf[i] := head[i];
      }
      forall i | 0 <= i < |data| {
        tbuf[HEAD_SIZE + i] := data[i];
      }
    }
  }

  /** The allocation of a channel; when a buffer cannot be allocated, there is none. */
  method TransmissionMalloc(maxRx: nat, maxTx: nat, cbufOk: bool, tbufOk: bool) returns (channel: Channel?)
    requires maxRx < UINT16 && maxTx < UINT16
    ensures channel == null <==> !(cbufOk && tbufOk)
    ensures channel != null ==> fresh(channel) && channel.Valid() && channel.Cached() == [] && channel.sequence == 0
    ensures channel != null ==> channel.cbuf.Length == maxRx + HEAD_SIZE && channel.tsize == maxTx
  {
    if !cbufOk || !tbufOk {
      return null;
    }
    channel := new Channel(maxRx, maxTx);
  }
}
