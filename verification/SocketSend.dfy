/** Sending with bounded retries over a socket that accepts any part of what it is given, or fails, at every call. */
module SocketSend {
  import opened Common
  import opened Framing
  import opened Transmission

  const MAX_RETRY: int := 2000

  /** The writes that one send makes before it gives up. */
  const MAX_WRITES: nat := 2001

  /**
   The socket: `wire` is what the peer will receive, `calls` counts the writes. Its answers are arbitrary; `closed`
   counts the times it was found closed, and `broken` the writes that failed otherwise than with a full buffer.
   */
  class Socket {
    var wire: seq<byte>
    var calls: nat
    ghost var closed: nat
    ghost var broken: nat

    constructor ()
      ensures wire == [] && calls == closed == broken == 0
    {
      wire, calls, closed, broken := [], 0, 0, 0;
    }

    /** Whether the descriptor is still open; another thread may close it at any time. */
    method IsOpen() returns (open: bool)
      modifies this`closed
      ensures closed == old(closed) + if open then 0 else 1
    {
      open := *;
      closed := closed + if open then 0 else 1;
    }

    /** Accept a part of the bytes, or fail; `again` tells whether a failure is a full buffer (EAGAIN). */
    method Write(data: seq<byte>) returns (r: int, again: bool)
      modifies this`wire, this`calls, this`broken
      ensures -1 <= r <= |data| && calls == old(calls) + 1
      ensures wire == old(wire) + if r > 0 then data[..r] else []
      ensures broken == old(broken) + if r < 0 && !again then 1 else 0
    {
      r :| -1 <= r <= |data|;
      again := *;
      calls := calls + 1;
      broken := broken + if r < 0 && !again then 1 else 0;
      if r > 0 {
        wire := wire + data[..r];
      }
    }
  }

  /** The send callbacks: none, the stream sender, or the datagram sender. */
  datatype Sender = NoSender | Stream | Datagram

  /**
   While this sender sent, the socket made no trouble that ends a send: it was open, no write failed otherwise than
   with a full buffer, or the sender does not mind, and fewer writes were made than a send gives up after.
   */
  twostate predicate NoTrouble(sender: Sender, sock: Socket)
    reads sock
  {
    && !sender.NoSender? && sock.closed == old(sock.closed)
    && (sender.Datagram? ==> sock.broken == old(sock.broken)) && sock.calls < old(sock.calls) + MAX_WRITES
  }

  /** The 16-bit size that the send functions compute from a 32-bit length and an offset. */
  function SizeToSend(length: nat, offset: int): nat {
    (length - offset) % UINT16
  }

  /**
   The outcome of one send: everything and the end position, or a failure after a proper prefix (of an empty message,
   nothing).
   */
  predicate SendOutcome(body: seq<byte>, offset: int, sent: seq<byte>, ret: int) {
    || (ret == |body| + offset && sent == body)
    || (ret < 0 && sent <= body && (sent == body ==> body == []))
  }

  /** What is sent lies in the buffer: it begins `offset` behind the data at `base`, or before it. */
  predicate InBuffer(buffer: seq<byte>, base: nat, length: nat, offset: int) {
    0 <= base + offset && base + offset + SizeToSend(length, offset) <= |buffer|
  }

  /** The part of the buffer that is sent. */
  function Body(buffer: seq<byte>, base: nat, length: nat, offset: int): seq<byte>
    requires InBuffer(buffer, base, length, offset)
  {
    buffer[base + offset..][..SizeToSend(length, offset)]
  }

  lemma BodySize(buffer: seq<byte>, base: nat, length: nat, offset: int)
    requires InBuffer(buffer, base, length, offset)
    ensures |Body(buffer, base, length, offset)| == SizeToSend(length, offset)
    ensures 0 <= length - offset < UINT16 ==>
      && SizeToSend(length, offset) == length - offset && base + length <= |buffer|
      && Body(buffer, base, length, offset) == buffer[base + offset..base + length]
  {
  }

  lemma Advance(body: seq<byte>, index: nat, r: nat)
    requires index + r <= |body|
    ensures body[..index] + body[index..][..r] == body[..index + r]
  {
  }

  /**
   socket_write: every failed write counts as zero bytes and uses up a retry. It fails when it finds the descriptor
   closed, and otherwise only after 2001 writes.
   */
  method SocketWrite(sock: Socket, buffer: seq<byte>, base: nat, length: nat, offset: int) returns (ret: int)
    requires InBuffer(buffer, base, length, offset)
    modifies sock
    ensures old(sock.calls) <= sock.calls <= old(sock.calls) + MAX_WRITES
    ensures old(sock.closed) <= sock.closed && old(sock.broken) <= sock.broken
    ensures NoTrouble(Stream, sock) ==>
      ret == SizeToSend(length, offset) + offset && sock.wire == old(sock.wire) + Body(buffer, base, length, offset)
    ensures sock.closed > old(sock.closed) ==> ret == -1
    ensures exists sent ::
      sock.wire == old(sock.wire) + sent && SendOutcome(Body(buffer, base, length, offset), offset, sent, ret)
    ensures 0 <= length - offset < UINT16 && ret >= 0 ==> ret == length
    ensures 0 <= length - offset && base + length <= |buffer| && ret >= 0 ==>
      (sock.wire == old(sock.wire) + buffer[base + offset..base + length] <==> length - offset < UINT16)
  {
    var size := SizeToSend(length, offset);
    var body := Body(buffer, base, length, offset);
    BodySize(buffer, base, length, offset);
    hide SizeToSend, Body, InBuffer;
    var maxRetry := MAX_RETRY;
    var index := 0;
    ret := 0;
    while true
      invariant 0 <= index <= size && (index < size || size == 0) && -1 < maxRetry <= MAX_RETRY
      invariant sock.wire == old(sock.wire) + body[..index]
      invariant sock.calls == old(sock.calls) + (MAX_RETRY - maxRetry)
      invariant sock.closed == old(sock.closed) && sock.broken >= old(sock.broken)
      decreases maxRetry
    {
      var open := sock.IsOpen();
      if !open {
        ret := -1;
        break;
      }
      var r, again := sock.Write(body[index..]);
      if r < 0 {
        r := 0;
      }
      Advance(body, index, r);
      index := index + r;
      if index == size {
        ret := size + offset;
        assert body[..index] == body;
        break;
      }
      maxRetry := maxRetry - 1;
      if maxRetry < 0 {
        ret := -1;
        break;
      }
    }
    assert sock.wire == old(sock.wire) + body[..index];
    assert SendOutcome(body, offset, body[..index], ret);
  }

  /** socket_sendto: like socket_write, except that a failure other than a full buffer also ends the send at once. */
  method SocketSendTo(sock: Socket, buffer: seq<byte>, base: nat, length: nat, offset: int) returns (ret: int)
    requires InBuffer(buffer, base, length, offset)
    modifies sock
    ensures old(sock.calls) <= sock.calls <= old(sock.calls) + MAX_WRITES
    ensures old(sock.closed) <= sock.closed && old(sock.broken) <= sock.broken
    ensures NoTrouble(Datagram, sock) ==>
      ret == SizeToSend(length, offset) + offset && sock.wire == old(sock.wire) + Body(buffer, base, length, offset)
    ensures sock.closed > old(sock.closed) || sock.broken > old(sock.broken) ==> ret == -1
    ensures exists sent ::
      sock.wire == old(sock.wire) + sent && SendOutcome(Body(buffer, base, length, offset), offset, sent, ret)
    ensures 0 <= length - offset < UINT16 && ret >= 0 ==> ret == length
    ensures 0 <= length - offset && base + length <= |buffer| && ret >= 0 ==>
      (sock.wire == old(sock.wire) + buffer[base + offset..base + length] <==> length - offset < UINT16)
  {
    var size := SizeToSend(length, offset);
    var body := Body(buffer, base, length, offset);
    BodySize(buffer, base, length, offset);
    hide SizeToSend, Body, InBuffer;
    var maxRetry := MAX_RETRY;
    var index := 0;
    ret := 0;
    while true
      invariant 0 <= index <= size && (index < size || size == 0) && -1 < maxRetry <= MAX_RETRY
      invariant sock.wire == old(sock.wire) + body[..index]
      invariant sock.calls == old(sock.calls) + (MAX_RETRY - maxRetry)
      invariant sock.closed == old(sock.closed) && sock.broken == old(sock.broken)
      decreases maxRetry
    {
      var open := sock.IsOpen();
      if !open {
        ret := -1;
        break;
      }
      var again;
      ret, again := sock.Write(body[index..]);
      if ret < 0 {
        if !again {
          break;
        }
        ret := 0;
      }
      Advance(body, index, ret);
      index := index + ret;
      if index == size {
        ret := size + offset;
        assert body[..index] == body;
        break;
      }
      maxRetry := maxRetry - 1;
      if maxRetry < 0 {
        ret := -1;
        break;
      }
    }
    assert sock.wire == old(sock.wire) + body[..index];
    assert SendOutcome(body, offset, body[..index], ret);
  }

  /** A callback's whole buffer from the start, with its 16-bit length; BK_FAIL when there is no callback. */
  method SendWith(sender: Sender, sock: Socket, message: seq<byte>) returns (ret: int)
    modifies sock
    ensures var body := message[..|message| % UINT16];
      exists sent :: sock.wire == old(sock.wire) + sent && SendOutcome(body, 0, sent, ret)
    ensures ret >= 0 && |message| < UINT16 ==> ret == |message|
    ensures ret >= 0 ==> (sock.wire == old(sock.wire) + message <==> |message| < UINT16)
    ensures sender.NoSender? ==> ret < 0 && sock.wire == old(sock.wire) && sock.calls == old(sock.calls)
    ensures NoTrouble(sender, sock) ==> ret >= 0
    ensures old(sock.calls) <= sock.calls && old(sock.closed) <= sock.closed && old(sock.broken) <= sock.broken
  {
    var length := |message| % UINT16;
    assert Body(message, 0, length, 0) == message[..length];
    match sender
    case NoSender =>
      ret := -1;
      assert sock.wire == old(sock.wire) + [];
    case Stream => ret := SocketWrite(sock, message, 0, length, 0);
    case Datagram => ret := SocketSendTo(sock, message, 0, length, 0);
  }

  /** pack_send: pack into the send buffer and send that with the channel's own callback or else with the one given. */
  method PackSend(channel: Channel, installed: Sender, given: Sender, sock: Socket, data: seq<byte>, timestamp: int,
                  crc: byte) returns (ret: int)
    requires channel.Valid() && |data| <= channel.tsize && 0 <= timestamp < UINT32
    modifies channel`sequence, channel.tbuf, sock
    ensures channel.Valid() && channel.sequence == (old(channel.sequence) + 1) % UINT16
    ensures ret >= 0 && HEAD_SIZE + |data| < UINT16 ==> ret == HEAD_SIZE + |data|
    ensures ret >= 0 ==>
      (sock.wire == old(sock.wire) + Packed(data, channel.sequence, timestamp, crc) <==> HEAD_SIZE + |data| < UINT16)
    ensures var message := Packed(data, channel.sequence, timestamp, crc)[..(HEAD_SIZE + |data|) % UINT16];
      exists sent :: sock.wire == old(sock.wire) + sent && SendOutcome(message, 0, sent, ret)
    ensures installed.NoSender? && given.NoSender? ==> ret < 0 && sock.wire == old(sock.wire)
    ensures NoTrouble(if installed.NoSender? then given else installed, sock) ==> ret >= 0
    ensures old(sock.calls) <= sock.calls && old(sock.closed) <= sock.closed && old(sock.broken) <= sock.broken
  {
    channel.Pack(data, timestamp, crc);
    ret := SendWith(if installed.NoSender? then given else installed, sock, channel.tbuf[..HEAD_SIZE + |data|]);
  }

  /** From a payload back to its header. */
  const TO_HEADER: int := -16

  /**
   The image path of the network services: pack, then send the packed payload with an offset that reaches back over
   its header. A non-negative result is the payload's length.
   */
  method PrepareAndSend(channel: Channel, sock: Socket, data: seq<byte>, timestamp: int, crc: byte) returns (ret: int)
    requires channel.Valid() && |data| <= channel.tsize && 0 <= timestamp < UINT32
    modifies channel`sequence, channel.tbuf, sock
    ensures channel.Valid() && channel.sequence == (old(channel.sequence) + 1) % UINT16
    ensures ret >= 0 && HEAD_SIZE + |data| < UINT16 ==> ret == |data|
    ensures ret >= 0 ==>
      (sock.wire == old(sock.wire) + Packed(data, channel.sequence, timestamp, crc) <==> HEAD_SIZE + |data| < UINT16)
    ensures var message := Packed(data, channel.sequence, timestamp, crc)[..(HEAD_SIZE + |data|) % UINT16];
      exists sent :: sock.wire == old(sock.wire) + sent && SendOutcome(message, TO_HEADER, sent, ret)
    ensures NoTrouble(Datagram, sock) && HEAD_SIZE + |data| < UINT16 ==> ret >= 0
    ensures old(sock.calls) <= sock.calls && old(sock.closed) <= sock.closed && old(sock.broken) <= sock.broken
  {
    channel.Pack(data, timestamp, crc);
    ghost var message := Packed(data, channel.sequence, timestamp, crc);
    var buffer := channel.tbuf[..HEAD_SIZE + |data|];
    assert buffer == message && buffer[0..] == buffer;
    assert |data| - (TO_HEADER) == HEAD_SIZE + |data|;
    assert Body(buffer, HEAD_SIZE, |data|, TO_HEADER) == message[..(HEAD_SIZE + |data|) % UINT16];
    ret := SocketSendTo(sock, buffer, HEAD_SIZE, |data|, TO_HEADER);
  }
}
