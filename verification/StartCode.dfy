/** The Annex B start-code scan of the encoder glue, and the payload it hands on for P frames. */
module StartCode {
  import opened Common

  /** Length of the start code at `i`, or 0: 00 00 01, or 00 00 00 01 (section B.1.1 of ITU-T Rec. H.264). */
  function CodeAt(s: seq<byte>, i: nat, end: nat): nat
    requires end <= |s|
  {
    if i + 3 <= end && s[i] == 0 && s[i + 1] == 0 && s[i + 2] == 1 then 3
    else if i + 4 <= end && s[i] == 0 && s[i + 1] == 0 && s[i + 2] == 0 && s[i + 3] == 1 then 4
    else 0
  }

  /** The two start codes, byte by byte, and nothing else. */
  lemma CodesAre(s: seq<byte>, i: nat, end: nat)
    requires end <= |s|
    ensures CodeAt(s, i, end) == 3 <==> i + 3 <= end && s[i..i + 3] == [0, 0, 1]
    ensures CodeAt(s, i, end) == 4 <==> i + 4 <= end && s[i..i + 4] == [0, 0, 0, 1]
    ensures CodeAt(s, i, end) in {0, 3, 4}
  {
    if i + 4 <= end {
      assert s[i..i + 4][..3] == s[i..i + 3] && s[i..i + 4][3] == s[i + 3];
    }
  }

  /** A position, -1 for none, and the length of the start code there. */
  datatype Found = Found(pos: int, codeLength: nat)

  /** The naive search: try every position in turn. */
  function FirstCode(s: seq<byte>, start: nat, end: nat): (r: Found)
    requires end <= |s|
    ensures r.pos == -1 <==> r.codeLength == 0
    ensures r.pos >= 0 ==> start <= r.pos && r.pos + r.codeLength <= end && r.codeLength == CodeAt(s, r.pos, end)
    ensures r.pos >= 0 || r.pos == -1
    decreases end - start
  {
    if start + 3 > end then Found(-1, 0)
    else if CodeAt(s, start, end) != 0 then Found(start, CodeAt(s, start, end))
    else FirstCode(s, start + 1, end)
  }

  /** Positions without a code can be skipped. */
  lemma {:induction false} SkipTo(s: seq<byte>, start: nat, next: nat, end: nat)
    requires end <= |s| && start <= next
    requires forall i :: start <= i < next && i + 3 <= end ==> CodeAt(s, i, end) == 0
    ensures FirstCode(s, start, end) == FirstCode(s, next, end)
    decreases next - start
  {
    if start < next && start + 3 <= end {
      SkipTo(s, start + 1, next, end);
    }
  }

  /** The scan with its three-byte skip over 00 00 03 finds what the naive search finds. */
  method FindNextStartCode(buf: array<byte>, start: nat, end: nat) returns (pos: int, codeLength: nat)
    requires end <= buf.Length
    ensures Found(pos, codeLength) == FirstCode(buf[..], start, end)
  {
    ghost var s := buf[..];
    var i := start;
    while i + 3 <= end
      invariant start <= i
      invariant forall j :: start <= j < i && j + 3 <= end ==> CodeAt(s, j, end) == 0
    {
      if buf[i] == 0 && buf[i + 1] == 0 && buf[i + 2] == 3 {
        i := i + 3;
        continue;
      }
      if buf[i] == 0 && buf[i + 1] == 0 && buf[i + 2] == 1 {
        SkipTo(s, start, i, end);
        return i, 3;
      }
      if buf[i] == 0 && buf[i + 1] == 0 && buf[i + 2] == 0 && i + 3 < end && buf[i + 3] == 1 {
        SkipTo(s, start, i, end);
        return i, 4;
      }
      i := i + 1;
    }
    SkipTo(s, start, i, end);
    return -1, 0;
  }

  const SLICE: int := 1

  /**
   Where the payload of a P frame begins that is handed to the peer, if any: after the first start code when a slice
   follows it, otherwise after the second. The unit type is read right behind a start code assumed to be at offset 0.
   */
  method SendP(buf: array<byte>, length: nat) returns (offset: Option<nat>)
    requires length <= buf.Length && Readable(buf[..], length)
    ensures offset == PayloadOffset(buf[..], length)
  {
    var pos, codeLength := FindNextStartCode(buf, 0, length);
    if pos == -1 {
      return None;
    }
    if buf[codeLength] % 32 == SLICE {
      return Some(codeLength);
    }
    pos, codeLength := FindNextStartCode(buf, pos + codeLength, length);
    if pos == -1 || pos > length {
      return None;
    }
    return Some(pos + codeLength);
  }

  /** The byte read for the unit type lies in the buffer. */
  predicate Readable(s: seq<byte>, length: nat)
    requires length <= |s|
  {
    FirstCode(s, 0, length).codeLength < |s|
  }

  function PayloadOffset(s: seq<byte>, length: nat): Option<nat>
    requires length <= |s| && Readable(s, length)
  {
    var first := FirstCode(s, 0, length);
    if first.pos == -1 then None
    else if s[first.codeLength] % 32 == SLICE then Some(first.codeLength)
    else
      var second := FirstCode(s, first.pos + first.codeLength, length);
      if second.pos == -1 then None else Some(second.pos + second.codeLength)
  }

  /** `o` is the end of the start code at `pos`, with no other code between `from` and it. */
  ghost predicate BehindNextCode(s: seq<byte>, from: nat, pos: nat, o: nat, length: nat)
    requires length <= |s|
  {
    && from <= pos && pos + 3 <= length && CodeAt(s, pos, length) != 0 && o == pos + CodeAt(s, pos, length)
    && forall i :: from <= i < pos && i + 3 <= length ==> CodeAt(s, i, length) == 0
  }

  lemma {:induction false} NoneBefore(s: seq<byte>, start: nat, end: nat)
    requires end <= |s|
    ensures var r := FirstCode(s, start, end);
      forall i :: start <= i && i + 3 <= end && (r.pos == -1 || i < r.pos) ==> CodeAt(s, i, end) == 0
    decreases end - start
  {
    if start + 3 <= end && CodeAt(s, start, end) == 0 {
      NoneBefore(s, start + 1, end);
    }
  }

  /**
   When the frame starts with a start code, the payload is exactly what follows the first start code or, when that
   begins another kind of unit, the second one; there is no payload when a needed start code is missing.
   */
  lemma PayloadFollowsCode(s: seq<byte>, length: nat)
    requires length <= |s| && CodeAt(s, 0, length) != 0 && Readable(s, length)
    ensures var c := CodeAt(s, 0, length); var o := PayloadOffset(s, length);
      if s[c] % 32 == SLICE then o == Some(c) && BehindNextCode(s, 0, 0, c, length)
      else if o == None then forall i :: c <= i && i + 3 <= length ==> CodeAt(s, i, length) == 0
      else exists pos :: BehindNextCode(s, c, pos, o.value, length)
  {
    var c := CodeAt(s, 0, length);
    assert FirstCode(s, 0, length) == Found(0, c);
    NoneBefore(s, c, length);
    var second := FirstCode(s, c, length);
    if second.pos >= 0 {
      assert BehindNextCode(s, c, second.pos, second.pos + second.codeLength, length);
    }
  }

  /** The same choice with the unit type read where it is, behind the first start code wherever that lies. */
  function IntendedOffset(s: seq<byte>, length: nat): Option<nat>
    requires length < |s|
  {
    var first := FirstCode(s, 0, length);
    if first.pos == -1 then None
    else if s[first.pos + first.codeLength] % 32 == SLICE then Some(first.pos + first.codeLength)
    else
      var second := FirstCode(s, first.pos + first.codeLength, length);
      if second.pos == -1 then None else Some(second.pos + second.codeLength)
  }

  /**
   The payload is the intended one if and only if the first start code, if any, is at offset 0, or neither the byte
   read for the unit type nor the one behind that start code says that a slice follows.
   */
  lemma PayloadRightExactly(s: seq<byte>, length: nat)
    requires length < |s|
    ensures Readable(s, length)
    ensures var first := FirstCode(s, 0, length); var c := first.codeLength;
      PayloadOffset(s, length) == IntendedOffset(s, length) <==>
      first.pos <= 0 || (s[c] % 32 != SLICE && s[first.pos + c] % 32 != SLICE)
  {
    var first := FirstCode(s, 0, length);
    if first.pos > 0 {
      var second := FirstCode(s, first.pos + first.codeLength, length);
      assert second.pos >= 0 ==> second.pos + second.codeLength > first.pos + first.codeLength;
    }
  }

  /**
   A three-byte start code at offset 1 is never at the right place: the byte read for the unit type is the start code's
   own last byte, which says slice, and the payload begins with it.
   */
  lemma CodeAtOneIsWrong(s: seq<byte>, length: nat)
    requires length < |s| && FirstCode(s, 0, length) == Found(1, 3)
    ensures PayloadOffset(s, length) == Some(3) && s[3] == 1 && PayloadOffset(s, length) != IntendedOffset(s, length)
  {
    PayloadRightExactly(s, length);
  }

  /** For example, an I slice behind a stray byte, followed by a P slice: the payload begins inside the first code. */
  lemma PayloadCanBeWrong()
    ensures var s: seq<byte> := [9, 0, 0, 1, 0x65, 7, 0, 0, 1, 0x41, 5, 0];
      PayloadOffset(s, 11) == Some(3) && IntendedOffset(s, 11) == Some(9)
  {
    var s: seq<byte> := [9, 0, 0, 1, 0x65, 7, 0, 0, 1, 0x41, 5, 0];
    assert CodeAt(s, 0, 11) == 0;
    assert FirstCode(s, 0, 11) == FirstCode(s, 1, 11) == Found(1, 3);
    assert CodeAt(s, 4, 11) == CodeAt(s, 5, 11) == 0;
    assert FirstCode(s, 4, 11) == FirstCode(s, 5, 11) == FirstCode(s, 6, 11) == Found(6, 3);
  }
}
