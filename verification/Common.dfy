/** Shared value types, widths and facts. */
module Common {
  datatype Option<+T> = None | Some(value: T)

  /** An 8-bit unsigned value of the source. */
  type byte = x: int | 0 <= x < 256

  const UINT16: int := 0x1_0000
  const UINT32: int := 0x1_0000_0000

  /** Consumer ids are the eight low bits of a mask. */
  const MAX_CONSUMERS: nat := 8

  /** The size of the header in front of every payload. */
  const HEAD_SIZE: nat := 16

  /** The conversion from unsigned to signed 32-bit integers. */
  function ToInt32(v: nat): (r: int)
    requires v < UINT32
    ensures -0x8000_0000 <= r < 0x8000_0000
  {
    if v < 0x8000_0000 then v else v - UINT32
  }

  lemma {:induction false} SubsetSize<T>(a: set<T>, b: set<T>)
    requires a <= b
    ensures |a| <= |b|
  {
    if a != {} {
      var x :| x in a;
      SubsetSize(a - {x}, b - {x});
    }
  }

  function Concat(parts: seq<seq<byte>>): seq<byte> {
    if parts == [] then [] else parts[0] + Concat(parts[1..])
  }

  lemma {:induction false} ConcatAppend(a: seq<seq<byte>>, b: seq<seq<byte>>)
    ensures Concat(a + b) == Concat(a) + Concat(b)
  {
    if a == [] {
      assert a + b == b;
    } else {
      assert (a + b)[1..] == a[1..] + b;
      ConcatAppend(a[1..], b);
    }
  }

  lemma ConcatOne(part: seq<byte>)
    ensures Concat([part]) == part
  {
    assert [part][1..] == [];
  }
}
