/** The back-pressured writer over the peer-to-peer library: its two nested loops keep the backlog bounded. */
module BackPressure {
  import opened Common
  import opened DropModel

  datatype ChannelKind = Command | Audio | Image

  /** The backlog at which the writer waits, by channel. */
  function Threshold(thd: nat, kind: ChannelKind): nat
    requires ConfigOk(thd)
  {
    match kind
    case Command => thd
    case Audio => thd - ImgThreshold(thd)
    case Image => ImgThreshold(thd)
  }

  /** Commands may fill the library's buffer; images three quarters of it, rounded down, and audio the rest. */
  lemma ThresholdsShare(thd: nat)
    requires ConfigOk(thd)
    ensures Threshold(thd, Command) == thd == Threshold(thd, Audio) + Threshold(thd, Image)
    ensures 4 * Threshold(thd, Image) <= 3 * thd < 4 * Threshold(thd, Image) + 4
  {
  }

  /**
   One channel of the library, with a single writer. `accepted` lists the bytes given to it so far and `backlog` is
   what it has not sent yet; it drains by any amount at any time, accepts any part of a write, and closes the session
   after finitely many checks. `peak` is the largest backlog at any moment so far, `failed` counts the checks and
   writes that failed, and `closed` the times the session was found closed.
   */
  class Line {
    var accepted: seq<byte>
    var backlog: nat
    var patience: nat
    ghost var peak: nat
    ghost var failed: nat
    ghost var closed: nat

    constructor (patience: nat)
      ensures accepted == [] && backlog == peak == failed == closed == 0 && this.patience == patience
    {
      accepted, backlog, this.patience := [], 0, patience;
      peak, failed, closed := 0, 0, 0;
    }

    method SessionOpen() returns (open: bool)
      modifies this`closed
      ensures closed == old(closed) + if open then 0 else 1
    {
      open := *;
      closed := closed + if open then 0 else 1;
    }

    /** PPCS_Check_Buffer. */
    method CheckBuffer() returns (ret: int, size: nat)
      modifies this`backlog, this`patience, this`failed
      ensures backlog <= old(backlog) && failed == old(failed) + if ret < 0 then 1 else 0
      ensures ret >= 0 ==> size == backlog && patience < old(patience)
    {
      var drained :| 0 <= drained <= backlog;
      backlog := backlog - drained;
      size := backlog;
      if patience == 0 {
        ret := -1;
      } else {
        patience := patience - 1;
        ret := *;
      }
      failed := failed + if ret < 0 then 1 else 0;
    }

    /** PPCS_Write. */
    method Write(data: seq<byte>) returns (ret: int)
      modifies this`accepted, this`backlog, this`peak, this`failed
      ensures ret <= |data| && failed == old(failed) + if ret < 0 then 1 else 0
      ensures accepted == old(accepted) + data[..if ret > 0 then ret else 0]
      ensures backlog <= old(backlog) + if ret > 0 then ret else 0
      ensures peak == Max(old(peak), old(backlog) + if ret > 0 then ret else 0)
    {
      ret :| ret <= |data|;
      failed := failed + if ret < 0 then 1 else 0;
      var taken := if ret > 0 then ret else 0;
      accepted := accepted + data[..taken];
      peak := Max(peak, backlog + taken);
      var drained :| 0 <= drained <= backlog;
      backlog := backlog - drained + taken;
    }
  }

  function Max(a: nat, b: nat): nat {
    if a < b then b else a
  }

  /**
   cs2_p2p_write: write while the backlog is at most the threshold. It fails exactly when a check or a write does, and
   writes less than all only when it sees the backlog above the threshold.
   */
  method P2pWrite(line: Line, thd: nat, kind: ChannelKind, data: seq<byte>) returns (ret: int)
    requires ConfigOk(thd) && |data| < 0x8000_0000
    modifies line
    ensures ret <= |data| && line.closed == old(line.closed) && line.failed >= old(line.failed)
    ensures ret < 0 <==> line.failed > old(line.failed)
    ensures 0 <= ret < |data| ==> line.backlog > Threshold(thd, kind)
    ensures exists n :: 0 <= n <= |data| && line.accepted == old(line.accepted) + data[..n] && (ret >= 0 ==> n == ret)
    ensures line.backlog <= Max(old(line.backlog), Threshold(thd, kind) + |data|)
    ensures line.peak <= Max(old(line.peak), Threshold(thd, kind) + |data|)
    ensures ret >= 0 && data != [] ==> line.patience < old(line.patience)
  {
    if data == [] {
      assert line.accepted == old(line.accepted) + data[..0];
      return 0;
    }
    var index := 0;
    while true
      invariant 0 <= index < |data| && line.patience <= old(line.patience)
      invariant line.closed == old(line.closed) && line.failed == old(line.failed)
      invariant index > 0 ==> line.patience < old(line.patience)
      invariant line.accepted == old(line.accepted) + data[..index]
      invariant line.backlog <= Max(old(line.backlog), Threshold(thd, kind) + |data|)
      invariant line.peak <= Max(old(line.peak), Threshold(thd, kind) + |data|)
      decreases line.patience
    {
      var check, size := line.CheckBuffer();
      if check < 0 {
        return check;
      }
      if size > Threshold(thd, kind) {
        return index;
      }
      var rest := data[index..];
      ret := line.Write(rest);
      if ret < 0 {
        return;
      }
      assert data[..index] + rest[..ret] == data[..index + ret];
      index := index + ret;
      if index == |data| {
        return index;
      }
    }
  }

  lemma WholePacket(before: seq<byte>, packet: seq<byte>)
    ensures before + packet[..|packet| % UINT16] == before + packet <==> |packet| < UINT16
  {
    if |packet| < UINT16 {
      assert packet[..|packet| % UINT16] == packet;
    } else {
      assert |before + packet[..|packet| % UINT16]| < |before + packet|;
    }
  }

  lemma NextPart(packet: seq<byte>, size: nat, index: nat, n: nat)
    requires index + n <= size <= |packet|
    ensures packet[..index] + packet[..size][index..][..n] == packet[..index + n]
  {
  }

  /** One call of the writer, with how much of the data it has written. */
  method SendPart(line: Line, thd: nat, kind: ChannelKind, data: seq<byte>) returns (ret: int, ghost n: nat)
    requires ConfigOk(thd) && |data| < 0x8000_0000
    modifies line
    ensures line.closed == old(line.closed) && line.failed >= old(line.failed)
    ensures ret < 0 <==> line.failed > old(line.failed)
    ensures ret <= n <= |data| && line.accepted == old(line.accepted) + data[..n] && (ret >= 0 ==> n == ret)
    ensures line.backlog <= Max(old(line.backlog), Threshold(thd, kind) + |data|)
    ensures line.peak <= Max(old(line.peak), Threshold(thd, kind) + |data|)
    ensures ret >= 0 && data != [] ==> line.patience < old(line.patience)
  {
    ret := P2pWrite(line, thd, kind, data);
    n :| 0 <= n <= |data| && line.accepted == old(line.accepted) + data[..n] && (ret >= 0 ==> n == ret);
  }

  /**
   cs2_img_send_packet: send a packet, header and payload, and wait while the channel is full. The packet's size has
   16 bits. A non-negative result means that every byte of it was given to the library, once and in order. It fails
   exactly when the channel is not ready, the session is found closed, or a check or a write fails.
   */
  method SendImage(line: Line, thd: nat, ready: bool, packet: seq<byte>) returns (ret: int)
    requires ConfigOk(thd) && HEAD_SIZE <= |packet| < UINT32
    modifies line
    ensures if ready && line.closed == old(line.closed) && line.failed == old(line.failed)
            then
              && ret == |packet| % UINT16 - HEAD_SIZE
              && line.accepted == old(line.accepted) + packet[..|packet| % UINT16]
            else ret == -1
    ensures ret >= 0 ==> ret == |packet| % UINT16 - HEAD_SIZE
    ensures ret >= 0 ==> line.accepted == old(line.accepted) + packet[..|packet| % UINT16]
    ensures ret >= 0 ==> (line.accepted == old(line.accepted) + packet <==> |packet| < UINT16)
    ensures line.backlog <= Max(old(line.backlog), Threshold(thd, Image) + |packet| % UINT16)
    ensures line.peak <= Max(old(line.peak), Threshold(thd, Image) + |packet| % UINT16)
    ensures exists n :: 0 <= n <= |packet| && line.accepted == old(line.accepted) + packet[..n]
  {
    assert line.accepted == old(line.accepted) + packet[..0];
    var size := |packet| % UINT16;
    var data := packet[..size];
    WholePacket(old(line.accepted), packet);
    var index := 0;
    var open := line.SessionOpen();
    if !ready || !open {
      return -1;
    }
    while true
      invariant 0 <= index <= size && (index < size || size == 0)
      invariant line.closed == old(line.closed) && line.failed == old(line.failed)
      invariant line.accepted == old(line.accepted) + packet[..index]
      invariant line.backlog <= Max(old(line.backlog), Threshold(thd, Image) + size)
      invariant line.peak <= Max(old(line.peak), Threshold(thd, Image) + size)
      decreases line.patience
    {
      open := line.SessionOpen();
      if !open {
        return -1;
      }
      ghost var n;
      var sent;
      sent, n := SendPart(line, thd, Image, data[index..]);
      NextPart(packet, size, index, n);
      assert line.accepted == old(line.accepted) + (packet[..index] + data[index..][..n]);
      if sent < 0 {
        return -1;
      }
      index := index + sent;
      if index >= size {
        break;
      }
    }
    ret := index - HEAD_SIZE;
  }

  /**
   cs2_p2p_event_send: the same for commands, without a header in front, with a 16-bit length parameter and without a
   look at the session.
   */
  method SendEvent(line: Line, thd: nat, data: seq<byte>) returns (ret: int)
    requires ConfigOk(thd) && |data| < UINT16
    modifies line
    ensures ret == if line.failed == old(line.failed) then |data| else -1
    ensures ret >= 0 ==> ret == |data| && line.accepted == old(line.accepted) + data
    ensures line.backlog <= Max(old(line.backlog), Threshold(thd, Command) + |data|)
    ensures line.peak <= Max(old(line.peak), Threshold(thd, Command) + |data|)
    ensures exists n :: 0 <= n <= |data| && line.accepted == old(line.accepted) + data[..n]
  {
    var index := 0;
    while true
      invariant 0 <= index <= |data| && (index < |data| || data == []) && line.failed == old(line.failed)
      invariant line.accepted == old(line.accepted) + data[..index]
      invariant line.backlog <= Max(old(line.backlog), Threshold(thd, Command) + |data|)
      invariant line.peak <= Max(old(line.peak), Threshold(thd, Command) + |data|)
      decreases line.patience
    {
      ghost var before := line.accepted;
      var sent := P2pWrite(line, thd, Command, data[index..]);
      ghost var n :|
        && 0 <= n <= |data| - index && line.accepted == before + data[index..][..n]
        && (sent >= 0 ==> n == sent);
      assert data[..index] + data[index..][..n] == data[..index + n];
      if sent < 0 {
        return -1;
      }
      index := index + sent;
      if index >= |data| {
        break;
      }
    }
    ret := index;
  }
}
