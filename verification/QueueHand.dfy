/** Which nodes are in the producer's hand, in every run, and that these have buffers. */
module QueueHand {
  import opened Common
  import opened QueueModel
  import opened QueueProtocol
  import opened QueueInvariant
  import opened QueueSteps
  import opened QueueClaim

  // ---------- The producer's hand ----------

  /** The nodes of a list that are marked as occupied. */
  ghost function OccupiedIds(es: seq<Entry>): set<nat> {
    set i | 0 <= i < |es| && es[i].inUse :: es[i].id
  }

  /**
   The nodes in the producer's hand after a step: malloc takes one into it, and complete, cancel, a malloc that fails
   and clear_all let go.
   */
  ghost function HandAfter(s: State, a: Action, hand: set<nat>): set<nat>
    requires Enabled(s, a) && |s.consumers| == |s.since| == |s.got| == MAX_CONSUMERS
  {
    var r := Next(s, a);
    match a
    case MallocClaim => if r.producer.Claimed? then hand + {r.producer.id} else hand
    case MallocFill(_) => if r.producer.Filled? then hand else hand - {s.producer.id}
    case Complete(_) => if r.producer.Posting? && r.q.ready != [] then hand - {r.q.ready[|r.q.ready| - 1].id} else hand
    case CancelSection(_) => if r.producer.Cancelling? then hand - {r.producer.id} else hand
    case ClearFree => {}
    case _ => hand
  }

  ghost function HandOver(s: State, actions: seq<Action>, t: State, hand: set<nat>): set<nat>
    requires Runs(s, actions, t)
    decreases |actions|
  {
    if actions == [] then hand else HandOver(Next(s, actions[0]), actions[1..], t, HandAfter(s, actions[0], hand))
  }

  lemma OccupiedAppend(a: seq<Entry>, b: seq<Entry>)
    requires forall j :: 0 <= j < |b| ==> !b[j].inUse
    ensures OccupiedIds(a + b) == OccupiedIds(a)
  {
    forall i | 0 <= i < |a| && a[i].inUse ensures a[i].id in OccupiedIds(a + b) {
      assert (a + b)[i] == a[i];
    }
  }

  /** A node as it is recycled: for nobody, accessed by nobody and not occupied. */
  predicate Blank(e: Entry) {
    e.refs == 0 && e.mask == {} && e.accessed == {} && !e.inUse
  }

  /** Recycled nodes come to the tail of the free list. */
  predicate Appended(s: State, r: State) {
    s.q.free <= r.q.free && forall j :: |s.q.free| <= j < |r.q.free| ==> Blank(r.q.free[j])
  }

  lemma AppendedHand(s: State, r: State)
    requires Appended(s, r)
    ensures OccupiedIds(r.q.free) == OccupiedIds(s.q.free)
  {
    assert r.q.free == s.q.free + r.q.free[|s.q.free|..];
    OccupiedAppend(s.q.free, r.q.free[|s.q.free|..]);
  }

  /** The steps of the producer's thread and of the thread that clears that look at the free list. */
  predicate OnFreeList(a: Action) {
    a.MallocClaim? || a.MallocFill? || a.MallocNote? || a.Complete? || a.CancelSection? || a.CancelFree? || a.ClearFree?
  }

  lemma SweptAppended(s: State, sweep: Sweep, active: set<nat>, r: State)
    requires r.q == Swept(sweep, s.q.(active := active))
    ensures Appended(s, r)
  {
    forall j | |s.q.free| <= j < |r.q.free| ensures Blank(r.q.free[j]) {
      var i := MovedFrom(sweep, s.q.ready, j - |s.q.free|);
    }
  }

  /** Every step of the consumers and of the first section of clear_all leaves the free list alone or recycles nodes. */
  lemma OthersAppend(s: State, a: Action)
    requires Inv(s) && Enabled(s, a) && !OnFreeList(a)
    ensures Appended(s, Next(s, a))
  {
    if a.Register? {
      SweptAppended(s, OnRegister, s.q.active + {a.c}, Next(s, a));
    } else if a.Unregister? {
      SweptAppended(s, OnUnregister(a.c), s.q.active - {a.c}, Next(s, a));
    } else if a.ClearReady? {
      SweptAppended(s, OnClear, s.q.active, Next(s, a));
    }
  }

  /** A changed node that stays where it is. */
  lemma OccupiedUpdate(s: State, k: nat, e: Entry)
    requires Inv(s) && k < |s.q.free| && e.id == s.q.free[k].id
    ensures OccupiedIds(s.q.free[k := e]) ==
      if e.inUse then OccupiedIds(s.q.free) + {e.id} else OccupiedIds(s.q.free) - {e.id}
  {
    var es, rs := s.q.free, s.q.free[k := e];
    forall i: nat | i < |es| && i != k ensures es[i].id != e.id && rs[i] == es[i] {
      FreeIdsDiffer(s, i, k);
    }
    assert rs[k] == e;
    hide Inv;
    assert forall x :: x in OccupiedIds(es) && x != e.id ==> x in OccupiedIds(rs);
  }

  lemma OccupiedWithout(s: State, k: nat)
    requires Inv(s) && k < |s.q.free|
    ensures OccupiedIds(Without(s.q.free, k)) == OccupiedIds(s.q.free) - {s.q.free[k].id}
  {
    var es, rs := s.q.free, Without(s.q.free, k);
    forall i: nat | i < |es| && i != k ensures es[i].id != es[k].id && rs[if i < k then i else i - 1] == es[i] {
      FreeIdsDiffer(s, i, k);
    }
    hide Inv;
    forall x | x in OccupiedIds(rs) ensures x in OccupiedIds(es) && x != es[k].id {
      var i: nat :| i < |rs| && rs[i].inUse && rs[i].id == x;
      assert rs[i] == es[if i < k then i else i + 1];
    }
  }

  lemma OccupiedFirst(e: Entry, es: seq<Entry>)
    requires e.inUse
    ensures OccupiedIds([e] + es) == OccupiedIds(es) + {e.id}
  {
    assert ([e] + es)[0] == e;
    forall i: nat | i < |es| ensures ([e] + es)[i + 1] == es[i] {
    }
    assert forall x :: x in OccupiedIds(es) ==> x in OccupiedIds([e] + es);
  }

  lemma HandClaim(s: State)
    requires Inv(s) && Enabled(s, MallocClaim)
    ensures OccupiedIds(Next(s, MallocClaim).q.free) == HandAfter(s, MallocClaim, OccupiedIds(s.q.free))
  {
    var i, j := Find(AnySlot, s.q.free), Find(AnyUnheld, s.q.ready);
    if i < |s.q.free| {
      OccupiedUpdate(s, i, s.q.free[i].(inUse := true));
    } else if j < |s.q.ready| {
      OccupiedFirst(s.q.ready[j].(inUse := true), s.q.free);
    }
  }

  lemma HandFill(s: State, supplied: Option<nat>)
    requires Inv(s) && Enabled(s, MallocFill(supplied)) && ClaimKept(s)
    ensures OccupiedIds(Next(s, MallocFill(supplied)).q.free) ==
      HandAfter(s, MallocFill(supplied), OccupiedIds(s.q.free))
  {
    var i := Find(WithId(s.producer.id), s.q.free);
    assert s.q.free[i].id in OccupiedIds(s.q.free);
    OccupiedUpdate(s, i, Next(s, MallocFill(supplied)).q.free[i]);
  }

  lemma HandGiven(s: State, a: Action)
    requires Inv(s) && Enabled(s, a) && (a.Complete? || a.CancelSection?)
    ensures OccupiedIds(Next(s, a).q.free) == HandAfter(s, a, OccupiedIds(s.q.free))
  {
    var i := Find(Occupied(a.buffer), s.q.free);
    if i < |s.q.free| {
      if a.Complete? {
        OccupiedWithout(s, i);
      } else {
        OccupiedUpdate(s, i, Next(s, a).q.free[i]);
      }
    }
  }

  lemma HandSame(s: State, a: Action)
    requires Inv(s) && Enabled(s, a) && (a.MallocNote? || a.CancelFree?)
    ensures OccupiedIds(Next(s, a).q.free) == OccupiedIds(s.q.free)
  {
    var i := Find(WithId(s.producer.id), s.q.free);
    var e := s.q.free[i];
    if e.inUse {
      assert e.id in OccupiedIds(s.q.free);
    } else {
      forall j: nat | j < |s.q.free| && s.q.free[j].inUse ensures s.q.free[j].id != e.id {
        FreeIdsDiffer(s, i, j);
      }
    }
    OccupiedUpdate(s, i, Next(s, a).q.free[i]);
  }

  lemma HandNext(s: State, a: Action)
    requires Inv(s) && Enabled(s, a) && ClaimKept(s)
    ensures OccupiedIds(Next(s, a).q.free) == HandAfter(s, a, OccupiedIds(s.q.free))
  {
    match a
    case MallocClaim => HandClaim(s);
    case MallocFill(supplied) => HandFill(s, supplied);
    case Complete(_) => HandGiven(s, a);
    case CancelSection(_) => HandGiven(s, a);
    case MallocNote => HandSame(s, a);
    case CancelFree => HandSame(s, a);
    case ClearFree =>
    case _ =>
      OthersAppend(s, a);
      AppendedHand(s, Next(s, a));
  }

  lemma {:induction false} HandRun(s: State, actions: seq<Action>, t: State)
    requires Inv(s) && ClaimKept(s) && Runs(s, actions, t)
    ensures Inv(t) && ClaimKept(t)
    ensures OccupiedIds(t.q.free) == HandOver(s, actions, t, OccupiedIds(s.q.free))
    decreases |actions|
  {
    if actions != [] {
      NextKeeps(s, actions[0]);
      ClaimKeptNext(s, actions[0]);
      HandNext(s, actions[0]);
      HandRun(Next(s, actions[0]), actions[1..], t);
    }
  }

  /**
   Main result: in every run the nodes of the free list that are marked as occupied are exactly those that malloc has
   claimed and that no complete, cancel, failed malloc or clear_all has given back.
   */
  lemma {:induction false} OccupiedExactly(format: Format, ids: seq<nat>, actions: seq<Action>, t: State, e: Entry)
    requires Different(ids) && Runs(Init(format, ids), actions, t) && e in t.q.free
    ensures e.inUse <==> e.id in HandOver(Init(format, ids), actions, t, {})
  {
    var s := Init(format, ids);
    InitOk(format, ids);
    assert OccupiedIds(s.q.free) == {};
    HandRun(s, actions, t);
    var i :| 0 <= i < |t.q.free| && t.q.free[i] == e;
    if e.id in OccupiedIds(t.q.free) {
      var j :| 0 <= j < |t.q.free| && t.q.free[j].inUse && t.q.free[j].id == e.id;
      if i != j {
        FreeIdsDiffer(t, i, j);
      }
    }
  }

  // ---------- Occupied nodes have a buffer ----------

  /** A node marked as occupied has a live buffer, or is the one that malloc is at work on. */
  ghost predicate OccupiedOk(s: State) {
    forall i :: 0 <= i < |s.q.free| && s.q.free[i].inUse ==>
      s.producer == Claimed(s.q.free[i].id)
      || (s.q.free[i].frame.Some? && Buffer(s.q.free[i].frame.value) in s.alive)
  }

  lemma BufferLives(s: State, i: nat)
    requires Inv(s) && i < |s.q.free| && s.q.free[i].frame.Some?
    ensures Buffer(s.q.free[i].frame.value) in s.alive
  {
    CountIn(s.q.free, i, Buffer(s.q.free[i].frame.value));
    assert Places(s, Buffer(s.q.free[i].frame.value)) > 0;
  }

  /** The part of it that is about the free list alone. */
  ghost predicate OccupiedFilled(s: State) {
    forall i :: 0 <= i < |s.q.free| && s.q.free[i].inUse && s.q.free[i].frame == None ==>
      s.producer == Claimed(s.q.free[i].id)
  }

  /** While cancel is at its end, its node is not occupied. */
  ghost predicate CancelKept(s: State) {
    s.producer.Cancelling? ==>
      var i := Find(WithId(s.producer.id), s.q.free); i < |s.q.free| && !s.q.free[i].inUse
  }

  lemma FilledClaim(s: State)
    requires Inv(s) && OccupiedFilled(s) && Enabled(s, MallocClaim)
    ensures OccupiedFilled(Next(s, MallocClaim))
  {
  }

  lemma FilledFill(s: State, supplied: Option<nat>)
    requires Inv(s) && OccupiedFilled(s) && Enabled(s, MallocFill(supplied))
    ensures OccupiedFilled(Next(s, MallocFill(supplied)))
  {
    var i := Find(WithId(s.producer.id), s.q.free);
    forall j: nat | j < |s.q.free| && j != i ensures s.q.free[j].id != s.producer.id {
      FreeIdsDiffer(s, i, j);
    }
  }

  lemma FilledOn(s: State, a: Action)
    requires Inv(s) && OccupiedFilled(s) && CancelKept(s) && Enabled(s, a)
    requires OnFreeList(a) && !a.MallocClaim? && !a.MallocFill?
    ensures OccupiedFilled(Next(s, a))
  {
  }

  lemma FilledAppended(s: State, r: State)
    requires OccupiedFilled(s) && Appended(s, r) && (s.producer.Claimed? ==> r.producer == s.producer)
    ensures OccupiedFilled(r)
  {
  }

  lemma CancelKeptNext(s: State, a: Action)
    requires Inv(s) && Enabled(s, a) && CancelKept(s)
    ensures CancelKept(Next(s, a))
  {
    var r := Next(s, a);
    if a.CancelSection? {
      var i := Find(Occupied(a.buffer), s.q.free);
      if i < |s.q.free| {
        var id := s.q.free[i].id;
        FindSameIds(id, s.q.free, r.q.free);
        assert Matches(WithId(id), s.q.free[i]);
        var k := Find(WithId(id), s.q.free);
        if k != i {
          FreeIdsDiffer(s, k, i);
        }
      }
    } else if r.producer.Cancelling? {
      assert r.producer == s.producer && s.q.free <= r.q.free;
      assert r.q.free == s.q.free + r.q.free[|s.q.free|..];
      FindAppended(WithId(s.producer.id), s.q.free, r.q.free[|s.q.free|..]);
    }
  }

  lemma FilledNext(s: State, a: Action)
    requires Inv(s) && OccupiedFilled(s) && CancelKept(s) && Enabled(s, a)
    ensures OccupiedFilled(Next(s, a))
  {
    if a.MallocClaim? {
      FilledClaim(s);
    } else if a.MallocFill? {
      FilledFill(s, a.supplied);
    } else if OnFreeList(a) {
      FilledOn(s, a);
    } else {
      OthersAppend(s, a);
      FilledAppended(s, Next(s, a));
    }
  }

  lemma {:induction false} FilledRun(s: State, actions: seq<Action>, t: State)
    requires Inv(s) && OccupiedFilled(s) && CancelKept(s) && Runs(s, actions, t)
    ensures Inv(t) && OccupiedFilled(t) && CancelKept(t)
    decreases |actions|
  {
    if actions != [] {
      NextKeeps(s, actions[0]);
      FilledNext(s, actions[0]);
      CancelKeptNext(s, actions[0]);
      FilledRun(Next(s, actions[0]), actions[1..], t);
    }
  }

  /** Main result: no occupied node is without a live buffer, except the one that malloc is at work on. */
  lemma {:induction false} OccupiedHasBuffer(format: Format, ids: seq<nat>, actions: seq<Action>, t: State)
    requires Different(ids) && Runs(Init(format, ids), actions, t)
    ensures OccupiedOk(t)
  {
    InitOk(format, ids);
    FilledRun(Init(format, ids), actions, t);
    forall i: nat | i < |t.q.free| && t.q.free[i].frame.Some?
      ensures Buffer(t.q.free[i].frame.value) in t.alive
    {
      BufferLives(t, i);
    }
  }
}
