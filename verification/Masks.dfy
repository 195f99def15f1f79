/** Consumer masks: the eight single-bit consumer ids and the sets of consumers that 32-bit masks stand for. */
module Masks {
  import opened Common

  /** The id of consumer `i`: the mask `1 << i`. */
  function Bit(i: nat): bv32
    requires i < MAX_CONSUMERS
  {
    if i == 0 then 1 else if i == 1 then 2 else if i == 2 then 4 else if i == 3 then 8
    else if i == 4 then 16 else if i == 5 then 32 else if i == 6 then 64 else 128
  }

  /** Only ids of the eight consumers are ever or-ed into a mask. */
  predicate Small(m: bv32) {
    m <= 0xFF
  }

  predicate HasBit(m: bv32, i: nat)
    requires i < MAX_CONSUMERS
  {
    Shared(m, Bit(i)) != 0
  }

  /** The bits that are set in both masks. */
  function Shared(m: bv32, d: bv32): bv32 { m & d }

  /** The consumers whose bit is set in `m`. */
  function Members(m: bv32): set<nat> {
    set i | 0 <= i < MAX_CONSUMERS && HasBit(m, i)
  }

  /** A consumer id: one of the eight bits, or a value with none of them, which every operation refuses. */
  predicate IsConsumerId(id: bv32) {
    id & 0xFF == 0 || id in [1, 2, 4, 8, 16, 32, 64, 128]
  }

  /** The loop that turns a consumer id into an index: the lowest of its eight low bits, or -1 when it has none. */
  method ConsumerIndex(id: bv32) returns (index: int)
    ensures -1 <= index < MAX_CONSUMERS
    ensures index == -1 <==> id & 0xFF == 0
    ensures index >= 0 ==> HasBit(id, index) && forall j :: 0 <= j < index ==> !HasBit(id, j)
  {
    for i := 0 to MAX_CONSUMERS
      invariant forall j :: 0 <= j < i ==> !HasBit(id, j)
    {
      if HasBit(id, i) {
        BitIsLow(id, i);
        return i;
      }
    }
    NoLowBits(id);
    return -1;
  }

  /** For an id of one bit, the lowest bit found is the whole id, and no other index has this id. */
  lemma OnlyBit(id: bv32, i: nat)
    requires IsConsumerId(id) && i < MAX_CONSUMERS && HasBit(id, i)
    ensures id == Bit(i) && forall j :: 0 <= j < MAX_CONSUMERS && id == Bit(j) ==> j == i
  {
    BitIsLow(id, i);
    forall j | 0 <= j < MAX_CONSUMERS && Bit(i) == Bit(j) ensures j == i {
      SameBit(i, j);
    }
  }

  lemma NoBit(id: bv32)
    requires id & 0xFF == 0
    ensures forall j :: 0 <= j < MAX_CONSUMERS ==> id != Bit(j)
  {
  }

  lemma BitIsLow(m: bv32, i: nat)
    requires i < MAX_CONSUMERS && HasBit(m, i)
    ensures m & 0xFF != 0
  {
  }

  lemma BitIsValid(i: nat)
    requires i < MAX_CONSUMERS
    ensures Bit(i) & 0xFF != 0
  {
  }

  lemma NoLowBits(m: bv32)
    requires forall j :: 0 <= j < MAX_CONSUMERS ==> !HasBit(m, j)
    ensures m & 0xFF == 0
  {
    assert !HasBit(m, 0) && !HasBit(m, 1) && !HasBit(m, 2) && !HasBit(m, 3);
    assert !HasBit(m, 4) && !HasBit(m, 5) && !HasBit(m, 6) && !HasBit(m, 7);
  }

  function Added(m: bv32, id: bv32): bv32 { m | id }

  function Removed(m: bv32, id: bv32): bv32 { m & !id }

  /** Or-ing an id in adds exactly that consumer. */
  lemma SetBit(m: bv32, i: nat, m': bv32)
    requires i < MAX_CONSUMERS && Small(m) && m' == Added(m, Bit(i))
    ensures Small(m') && Members(m') == Members(m) + {i}
    ensures forall j :: 0 <= j < MAX_CONSUMERS ==> HasBit(m', j) == (HasBit(m, j) || i == j)
  {
    forall j | 0 <= j < MAX_CONSUMERS ensures HasBit(m', j) <==> HasBit(m, j) || i == j {
      OrBit(m, i, j);
    }
    StaysSmall(m, i);
  }

  lemma StaysSmall(m: bv32, i: nat)
    requires i < MAX_CONSUMERS && Small(m)
    ensures Small(m | Bit(i))
  {
  }

  lemma OrBit(m: bv32, i: nat, j: nat)
    requires i < MAX_CONSUMERS && j < MAX_CONSUMERS
    ensures HasBit(m | Bit(i), j) <==> HasBit(m, j) || i == j
  {
    hide Bit;
    OrAnd(m, Bit(i), Bit(j));
    BitsDiffer(i, j);
    OrZero(m & Bit(j), Bit(i) & Bit(j));
  }

  lemma OrZero(b: bv32, d: bv32)
    ensures (b | d) == 0 <==> b == 0 && d == 0
  {
  }

  lemma OrAnd(m: bv32, b: bv32, d: bv32)
    ensures (m | b) & d == (m & d) | (b & d)
  {
  }

  lemma BitsDiffer(i: nat, j: nat)
    requires i < MAX_CONSUMERS && j < MAX_CONSUMERS
    ensures Bit(i) & Bit(j) == if i == j then Bit(i) else 0
    ensures Bit(i) != 0
  {
  }

  /** And-ing with the complement of an id takes exactly that consumer out. */
  lemma ClearBit(m: bv32, i: nat, m': bv32)
    requires i < MAX_CONSUMERS && Small(m) && m' == Removed(m, Bit(i))
    ensures Small(m') && Members(m') == Members(m) - {i}
    ensures forall j :: 0 <= j < MAX_CONSUMERS ==> HasBit(m', j) == (HasBit(m, j) && i != j)
  {
    forall j | 0 <= j < MAX_CONSUMERS ensures HasBit(m', j) <==> HasBit(m, j) && i != j {
      AndNotBit(m, i, j);
    }
  }

  lemma AndNotBit(m: bv32, i: nat, j: nat)
    requires i < MAX_CONSUMERS && j < MAX_CONSUMERS
    ensures HasBit(Removed(m, Bit(i)), j) <==> HasBit(m, j) && i != j
  {
    hide Bit, Removed, Shared;
    if i == j {
      NotShared(m, Bit(i));
    } else {
      BitsApart(i, j);
      StillShared(m, Bit(i), Bit(j));
    }
  }

  lemma BitsApart(i: nat, j: nat)
    requires i < MAX_CONSUMERS && j < MAX_CONSUMERS && i != j
    ensures Shared(Bit(i), Bit(j)) == 0
  {
  }

  lemma NotShared(m: bv32, b: bv32)
    ensures Shared(Removed(m, b), b) == 0
  {
  }

  lemma StillShared(m: bv32, b: bv32, d: bv32)
    requires Shared(b, d) == 0
    ensures Shared(Removed(m, b), d) == Shared(m, d)
  {
  }

  /** The test `mask & id` of the source is membership, for an id of one bit. */
  predicate Overlaps(m: bv32, id: bv32, ghost c: nat)
    requires c < MAX_CONSUMERS && id == Bit(c)
    ensures Overlaps(m, id, c) <==> c in Members(m)
  {
    MemberBit(m, c);
    m & id != 0
  }

  lemma MemberBit(m: bv32, c: nat)
    requires c < MAX_CONSUMERS
    ensures m & Bit(c) != 0 <==> c in Members(m)
  {
    hide Bit;
    assert HasBit(m, c) <==> c in Members(m);
  }

  lemma SameBit(i: nat, j: nat)
    requires i < MAX_CONSUMERS && j < MAX_CONSUMERS && Bit(i) == Bit(j)
    ensures i == j
  {
  }

  /** `(accessed & mask) == mask` is set inclusion. */
  lemma Covers(accessed: bv32, mask: bv32)
    requires Small(mask)
    ensures (accessed & mask) == mask <==> Members(mask) <= Members(accessed)
  {
    if Members(mask) <= Members(accessed) {
      forall i | 0 <= i < MAX_CONSUMERS ensures HasBit(mask, i) ==> HasBit(accessed, i) {
        assert HasBit(mask, i) ==> i in Members(mask);
      }
      CoversBits(accessed, mask);
    }
  }

  lemma BitGone(m: bv32, a: bv32, i: nat)
    requires i < MAX_CONSUMERS && (HasBit(m, i) ==> HasBit(a, i))
    ensures !HasBit(m & !a, i)
  {
  }

  lemma CoversBits(accessed: bv32, mask: bv32)
    requires Small(mask)
    requires forall i :: 0 <= i < MAX_CONSUMERS ==> HasBit(mask, i) ==> HasBit(accessed, i)
    ensures (accessed & mask) == mask
  {
    var extra := mask & !accessed;
    forall i | 0 <= i < MAX_CONSUMERS ensures !HasBit(extra, i) {
      BitGone(mask, accessed, i);
    }
    NoLowBits(extra);
  }

  lemma NoBits()
    ensures Members(0) == {} && forall i :: 0 <= i < MAX_CONSUMERS ==> !HasBit(0, i)
  {
  }

  lemma ZeroIsEmpty(m: bv32)
    requires Small(m)
    ensures m == 0 <==> Members(m) == {}
  {
    if Members(m) == {} {
      forall i | 0 <= i < MAX_CONSUMERS ensures !HasBit(m, i) {
        assert i !in Members(m);
      }
      NoLowBits(m);
      assert m & 0xFF == m;
    }
  }

  /** Set bits among the first `n`, counted one by one. */
  function Count(m: bv32, n: nat): (k: nat)
    requires n <= MAX_CONSUMERS
    ensures k <= n
  {
    if n == 0 then 0 else Count(m, n - 1) + if HasBit(m, n - 1) then 1 else 0
  }

  lemma {:induction false} CountIsCardinality(m: bv32, n: nat, members: set<nat>)
    requires n <= MAX_CONSUMERS
    requires forall i: nat :: i in members <==> i < n && HasBit(m, i)
    ensures |members| == Count(m, n)
  {
    hide HasBit;
    if n > 0 {
      CountIsCardinality(m, n - 1, members - {n - 1});
    } else {
      assert members == {};
    }
  }

  /** A shift to the right moves every bit down and drops the lowest one. */
  lemma {:induction false} CountShifted(m: bv32, n: nat)
    requires n < MAX_CONSUMERS
    ensures Count(m, n + 1) == Count(m >> 1, n) + if HasBit(m, 0) then 1 else 0
  {
    if n > 0 {
      CountShifted(m, n - 1);
      ShiftBit(m, n);
    }
  }

  lemma ShiftBit(m: bv32, i: nat)
    requires 0 < i < MAX_CONSUMERS
    ensures HasBit(m, i) == HasBit(m >> 1, i - 1)
  {
  }

  lemma {:induction false} CountZero(n: nat)
    requires n <= MAX_CONSUMERS
    ensures Count(0, n) == 0
  {
    if n > 0 {
      CountZero(n - 1);
      assert !HasBit(0, n - 1);
    }
  }

  /** The bits that are set in a mask. */
  function Ones(m: bv32): nat
    decreases m
  {
    if m == 0 then 0
    else
      Shrinks(m);
      Ones(m >> 1) + if m & 1 != 0 then 1 else 0
  }

  lemma Shrinks(m: bv32)
    ensures m != 0 ==> m >> 1 < m
  {
  }

  /** For a mask of consumers, they are the consumers. */
  lemma {:induction false} OnesAreMembers(m: bv32)
    requires Small(m)
    ensures Ones(m) == |Members(m)|
  {
    OnesCounted(m);
    assert forall i: nat :: i in Members(m) <==> i < MAX_CONSUMERS && HasBit(m, i);
    CountIsCardinality(m, MAX_CONSUMERS, Members(m));
  }

  lemma {:induction false} OnesCounted(m: bv32)
    requires Small(m)
    ensures Ones(m) == Count(m, MAX_CONSUMERS)
    decreases m
  {
    if m == 0 {
      CountZero(MAX_CONSUMERS);
    } else {
      Shrinks(m);
      CountShifted(m, MAX_CONSUMERS - 1);
      TopBitGone(m);
      OnesCounted(m >> 1);
    }
  }

  /** The population count by repeated shifts is the number of bits set, and of consumers in a mask of consumers. */
  method CountActiveConsumers(mask: bv32) returns (count: nat)
    ensures count == Ones(mask)
    ensures Small(mask) ==> count == |Members(mask)|
  {
    count := 0;
    var m := mask;
    while m != 0
      invariant count + Ones(m) == Ones(mask)
      decreases m
    {
      Shrinks(m);
      if m & 1 != 0 {
        count := count + 1;
      }
      m := m >> 1;
    }
    if Small(mask) {
      OnesAreMembers(mask);
    }
  }

  lemma TopBitGone(m: bv32)
    requires Small(m)
    ensures Small(m >> 1)
    ensures Count(m >> 1, MAX_CONSUMERS) == Count(m >> 1, MAX_CONSUMERS - 1)
  {
    assert !HasBit(m >> 1, 7);
  }
}
