/** The invariant of the frame queue holds initially and every step of every thread keeps it. */
module QueueSteps {
  import opened Common
  import opened QueueModel
  import opened QueueProtocol
  import opened QueueInvariant

  // ---------- Sweeps ----------

  /** Every kept node is a node of the list that was not recycled. */
  lemma {:induction false} KeptFrom(s: Sweep, es: seq<Entry>, j: nat) returns (i: nat)
    requires j < |Kept(s, es)|
    ensures i < |es| && Kept(s, es)[j] == Touched(s, es[i]) && !Recycled(s, es[i])
  {
    var init := es[..|es| - 1];
    if j < |Kept(s, init)| {
      i := KeptFrom(s, init, j);
    } else {
      i := |es| - 1;
    }
  }

  lemma {:induction false} MovedFrom(s: Sweep, es: seq<Entry>, j: nat) returns (i: nat)
    requires j < |Moved(s, es)|
    ensures i < |es| && Moved(s, es)[j] == Touched(s, es[i]).Reset() && Recycled(s, es[i])
  {
    var init := es[..|es| - 1];
    if j < |Moved(s, init)| {
      i := MovedFrom(s, init, j);
    } else {
      i := |es| - 1;
    }
  }

  lemma {:induction false} KeptSorted(s: Sweep, es: seq<Entry>)
    requires Sorted(es)
    ensures Sorted(Kept(s, es))
  {
    if es != [] {
      var init, last := es[..|es| - 1], es[|es| - 1];
      KeptSorted(s, init);
      forall j | 0 <= j < |Kept(s, init)| ensures Kept(s, init)[j].stamp < last.stamp {
        var i := KeptFrom(s, init, j);
      }
    }
  }

  /** The consumers that are active after a sweep's section. */
  ghost function ActiveAfter(s: Sweep, q: Queue, c: nat): set<nat> {
    match s
    case OnRegister => q.active + {c}
    case OnUnregister(_) => q.active - {c}
    case OnClear => q.active
  }

  lemma TouchedOk(s: Sweep, e: Entry, q: Queue, completed: seq<nat>, c: nat)
    requires ReadyOk(e, q.active, completed) && !Recycled(s, e) && (s.OnUnregister? ==> s.consumer == c)
    ensures ReadyOk(Touched(s, e), ActiveAfter(s, q, c), completed)
  {
    assert e.holders == {} <==> e.refs == 0;
  }

  lemma SweptLists(s: Sweep, q: Queue, completed: seq<nat>, c: nat)
    requires ListsOk(q, completed) && c < MAX_CONSUMERS && (s.OnUnregister? ==> s.consumer == c)
    ensures ListsOk(Swept(s, q.(active := ActiveAfter(s, q, c))), completed)
  {
    var r := Swept(s, q.(active := ActiveAfter(s, q, c)));
    KeptSorted(s, q.ready);
    forall j | 0 <= j < |r.ready| ensures ReadyOk(r.ready[j], r.active, completed) {
      var i := KeptFrom(s, q.ready, j);
      TouchedOk(s, q.ready[i], q, completed, c);
    }
    forall j | 0 <= j < |r.free| ensures Unheld(r.free[j]) {
      if j >= |q.free| {
        var i := MovedFrom(s, q.ready, j - |q.free|);
      }
    }
  }

  /** Appending to the free list does not hide a node a thread points to. */
  lemma {:induction false} FindAppended(w: Want, a: seq<Entry>, b: seq<Entry>)
    requires Find(w, a) < |a|
    ensures Find(w, a + b) == Find(w, a)
  {
    if !Matches(w, a[0]) {
      assert (a + b)[1..] == a[1..] + b;
      FindAppended(w, a[1..], b);
    }
  }

  lemma {:induction false} FindSameIds(id: nat, a: seq<Entry>, b: seq<Entry>)
    requires |a| == |b| && forall i :: 0 <= i < |a| ==> a[i].id == b[i].id
    ensures Find(WithId(id), a) == Find(WithId(id), b)
  {
    if a != [] && a[0].id != id {
      FindSameIds(id, a[1..], b[1..]);
    }
  }

  /** The consumer logs do not depend on nodes that only changed in what is not awaited from them. */
  lemma LogsSwept(s: State, sweep: Sweep, q: Queue, d: nat)
    requires d < |s.since| && d < |s.got| && LogOk(s, d) && q.ready == Kept(sweep, s.q.ready)
    ensures LogOk(s.(q := q), d)
  {
    forall j | 0 <= j < |q.ready| && d in q.ready[j].Awaited() ensures Newer(s, d, q.ready[j].stamp) {
      var i := KeptFrom(sweep, s.q.ready, j);
    }
  }

  /** A sweep's section keeps everything but, possibly, the log of the consumer it registers. */
  lemma SweepKeeps(s: State, sweep: Sweep, c: nat)
    requires Inv(s) && c < MAX_CONSUMERS && (sweep.OnUnregister? ==> sweep.consumer == c)
    ensures var q := Swept(sweep, s.q.(active := ActiveAfter(sweep, s.q, c)));
      && Conserved(s.(q := q)) && ListsOk(q, s.completed) && ThreadsOk(s.(q := q))
      && forall d :: d in s.q.active && d < MAX_CONSUMERS ==> LogOk(s.(q := q), d)
  {
    var q := Swept(sweep, s.q.(active := ActiveAfter(sweep, s.q, c)));
    SweptLists(sweep, s.q, s.completed, c);
    forall t ensures Places(s.(q := q), t) == Places(s, t) {
      CountSwept(sweep, s.q.ready, t);
      CountAppend(s.q.free, Moved(sweep, s.q.ready), t);
    }
    if s.producer.Claimed? || s.producer.Filled? || s.producer.Cancelling? {
      FindAppended(WithId(s.producer.id), s.q.free, Moved(sweep, s.q.ready));
    }
    forall d | d in s.q.active && d < MAX_CONSUMERS ensures LogOk(s.(q := q), d) {
      LogsSwept(s, sweep, q, d);
    }
  }

  lemma RegisterKeeps(s: State, c: nat)
    requires Inv(s) && Enabled(s, Action.Register(c))
    ensures Inv(Next(s, Action.Register(c)))
  {
    SweepKeeps(s, OnRegister, c);
    var r := Next(s, Action.Register(c));
    if c !in s.q.active {
      forall j | 0 <= j < |r.q.ready| ensures c !in r.q.ready[j].Awaited() {
        var i := KeptFrom(OnRegister, s.q.ready, j);
      }
      assert LogOk(r, c);
    }
    forall d | d in r.q.active && d != c ensures LogOk(r, d) {
      assert LogOk(s.(q := r.q), d);
      assert forall x :: Newer(s.(q := r.q), d, x) ==> Newer(r, d, x);
    }
  }

  lemma SweepingKeeps(s: State, a: Action)
    requires Inv(s) && Enabled(s, a) && (a.Unregister? || a.ClearReady?)
    ensures Inv(Next(s, a))
  {
    SweepKeeps(s, if a.Unregister? then OnUnregister(a.c) else OnClear, if a.Unregister? then a.c else 0);
  }

  // ---------- The producer ----------

  lemma ClaimKeeps(s: State)
    requires Inv(s) && Enabled(s, MallocClaim)
    ensures Inv(Next(s, MallocClaim))
  {
    var r := Next(s, MallocClaim);
    var i, j := Find(AnySlot, s.q.free), Find(AnyUnheld, s.q.ready);
    if i < |s.q.free| {
      forall t ensures Places(r, t) == Places(s, t) {
        CountUpdate(s.q.free, i, r.q.free[i], t);
      }
      assert r.q.free[i].id == r.producer.id;
    } else if s.format != Format.H264 && j < |s.q.ready| {
      StealKeeps(s, j);
    }
  }

  /** Frame dropping: malloc takes an unheld ready node. */
  lemma StolenPlaces(s: State, r: State, j: nat)
    requires j < |s.q.ready| && r.consumers == s.consumers
    requires r.q.free == [s.q.ready[j].(inUse := true)] + s.q.free && r.q.ready == Without(s.q.ready, j)
    ensures forall t :: Places(r, t) == Places(s, t)
  {
    var e := s.q.ready[j].(inUse := true);
    forall t ensures Places(r, t) == Places(s, t) {
      CountWithout(s.q.ready, j, t);
      CountAppend([e], s.q.free, t);
    }
  }

  lemma StealKeeps(s: State, j: nat)
    requires Inv(s) && j < |s.q.ready| && s.q.ready[j].refs == 0
    ensures var e := s.q.ready[j].(inUse := true);
      var q := s.q.(free := [e] + s.q.free, ready := Without(s.q.ready, j));
      Inv(s.(q := q, producer := Claimed(e.id)))
  {
    var e := s.q.ready[j].(inUse := true);
    var r := s.(q := s.q.(free := [e] + s.q.free, ready := Without(s.q.ready, j)), producer := Claimed(e.id));
    StolenPlaces(s, r, j);
    assert r.q.free[0] == e && Unheld(e);
    forall d | d in s.q.active && d < MAX_CONSUMERS ensures LogOk(r, d) {
      assert LogOk(s, d);
    }
  }

  lemma FillKeeps(s: State, supplied: Option<nat>)
    requires Inv(s) && Enabled(s, MallocFill(supplied))
    ensures Inv(Next(s, MallocFill(supplied)))
  {
    var r := Next(s, MallocFill(supplied));
    var i := Find(WithId(s.producer.id), s.q.free);
    FindSameIds(s.producer.id, s.q.free, r.q.free);
    forall t ensures Places(r, t) == if t in r.alive then 1 else 0 {
      CountUpdate(s.q.free, i, r.q.free[i], t);
      CountIn(s.q.free, i, t);
      assert Places(s, t) == if t in s.alive then 1 else 0;
    }
  }

  lemma NoteKeeps(s: State)
    requires Inv(s) && Enabled(s, MallocNote)
    ensures Inv(Next(s, MallocNote))
  {
    var r := Next(s, MallocNote);
    var i := Find(WithId(s.producer.id), s.q.free);
    forall t ensures Places(r, t) == Places(s, t) {
      CountUpdate(s.q.free, i, r.q.free[i], t);
    }
  }

  lemma CompleteKeeps(s: State, buffer: nat)
    requires Inv(s) && Enabled(s, Action.Complete(buffer))
    ensures Inv(Next(s, Action.Complete(buffer)))
  {
    var r := Next(s, Action.Complete(buffer));
    var i := Find(Occupied(buffer), s.q.free);
    if i < |s.q.free| {
      var e := r.q.ready[|s.q.ready|];
      forall t ensures Places(r, t) == Places(s, t) {
        CountWithout(s.q.free, i, t);
        CountLast(s.q.ready, e, t);
      }
      assert ReadyOk(e, r.q.active, r.completed);
      forall k | 0 <= k < |s.q.ready| ensures ReadyOk(r.q.ready[k], r.q.active, r.completed) {
      }
      forall d | d in s.q.active && d < MAX_CONSUMERS ensures LogOk(r, d) {
      }
    }
  }

  lemma CancelSectionKeeps(s: State, buffer: nat)
    requires Inv(s) && Enabled(s, CancelSection(buffer))
    ensures Inv(Next(s, CancelSection(buffer)))
  {
    var r := Next(s, CancelSection(buffer));
    var i := Find(Occupied(buffer), s.q.free);
    if i < |s.q.free| {
      forall t ensures Places(r, t) == Places(s, t) {
        CountUpdate(s.q.free, i, r.q.free[i], t);
      }
      assert r.q.free[i].id == r.producer.id;
    }
  }

  lemma CancelFreeKeeps(s: State)
    requires Inv(s) && Enabled(s, CancelFree)
    ensures Inv(Next(s, CancelFree))
  {
    var r := Next(s, CancelFree);
    var i := Find(WithId(s.producer.id), s.q.free);
    forall t ensures Places(r, t) == if t in r.alive then 1 else 0 {
      CountUpdate(s.q.free, i, r.q.free[i], t);
      CountIn(s.q.free, i, t);
      assert Places(s, t) == if t in s.alive then 1 else 0;
    }
  }

  // ---------- The consumers ----------

  /** A thread that carries nothing before and after a step does not change what is carried. */
  lemma MoveKeeps(s: State, c: nat, to: Consumer)
    requires Inv(s) && c < MAX_CONSUMERS
    requires !s.consumers[c].Unlinked? && !s.consumers[c].Freed? && !to.Unlinked? && !to.Freed?
    ensures Inv(Move(s, c, to))
  {
    forall t ensures Places(Move(s, c, to), t) == Places(s, t) {
      CarriedUpdate(s.consumers, c, to, t);
    }
  }

  lemma SearchKeeps(s: State, c: nat)
    requires Inv(s) && Enabled(s, GetSearch(c))
    ensures Inv(Next(s, GetSearch(c)))
  {
    var i := Find(AwaitedBy(c), s.q.ready);
    if i == |s.q.ready| {
      MoveKeeps(s, c, Waiting);
    } else {
      MoveKeeps(s, c, Out);
      var m, r := Move(s, c, Out), Next(s, GetSearch(c));
      GotLists(m, c, i);
      forall t ensures Places(r, t) == Places(m, t) {
        CountUpdate(s.q.ready, i, r.q.ready[i], t);
      }
      forall d | d in s.q.active && d < MAX_CONSUMERS ensures LogOk(r, d) {
        GotLog(m, c, i, d);
      }
    }
  }

  lemma GotLists(s: State, c: nat, i: nat)
    requires Inv(s) && i == Find(AwaitedBy(c), s.q.ready) < |s.q.ready|
    ensures c in s.q.active && ListsOk(Get(s.q, c).0, s.completed)
  {
    var e, r := s.q.ready[i], Get(s.q, c).0;
    assert c in e.Awaited() && c !in e.holders;
    assert ReadyOk(r.ready[i], r.active, s.completed);
    forall k | 0 <= k < |r.ready| && k != i ensures ReadyOk(r.ready[k], r.active, s.completed) {
    }
  }

  /** After a get, everything `d` still waits for is newer than what it has got. */
  lemma GotLog(s: State, c: nat, i: nat, d: nat)
    requires Inv(s) && i == Find(AwaitedBy(c), s.q.ready) < |s.q.ready| && c in s.q.active
    requires d in s.q.active
    ensures LogOk(s.(q := Get(s.q, c).0, got := s.got[c := s.got[c] + [s.q.ready[i].stamp]]), d)
  {
    var q := Get(s.q, c).0;
    var r := s.(q := q, got := s.got[c := s.got[c] + [s.q.ready[i].stamp]]);
    assert LogOk(s, d) && c in s.q.ready[i].Awaited() && LogOk(s, c);
    assert Newer(s, c, s.q.ready[i].stamp);
    forall k | 0 <= k < |q.ready| && d in q.ready[k].Awaited() ensures Newer(r, d, q.ready[k].stamp) {
      assert d in s.q.ready[k].Awaited() && Newer(s, d, s.q.ready[k].stamp);
      if d == c {
        assert !Matches(AwaitedBy(c), q.ready[i]);
        assert k > i;
      }
    }
  }

  lemma ReleaseSectionKeeps(s: State, c: nat, buffer: nat)
    requires Inv(s) && Enabled(s, ReleaseSection(c, buffer))
    ensures Inv(Next(s, ReleaseSection(c, buffer)))
  {
    var i := Find(WithFrame(buffer), s.q.ready);
    HeldIsFirst(s, c, buffer);
    var r := Next(s, ReleaseSection(c, buffer));
    var e := s.q.ready[i].(refs := s.q.ready[i].refs - 1, holders := s.q.ready[i].holders - {c});
    assert e.refs == |e.holders| && (e.holders == {} <==> e.refs == 0);
    if e.refs == 0 && e.mask <= e.accessed {
      ReleasedWhole(s, c, i, e);
    } else {
      ReleasedPart(s, i, e);
    }
  }

  lemma ReleasedWhole(s: State, c: nat, i: nat, e: Entry)
    requires Inv(s) && c < MAX_CONSUMERS && s.consumers[c] == Out && i < |s.q.ready|
    requires e.id == s.q.ready[i].id && e.frame == s.q.ready[i].frame && Unheld(e)
    ensures Inv(Move(s, c, Unlinked(e)).(q := s.q.(ready := Without(s.q.ready, i))))
  {
    var r := Move(s, c, Unlinked(e)).(q := s.q.(ready := Without(s.q.ready, i)));
    forall t ensures Places(r, t) == Places(s, t) {
      CountWithout(s.q.ready, i, t);
      CarriedUpdate(s.consumers, c, Unlinked(e), t);
    }
    forall d | d in s.q.active && d < MAX_CONSUMERS ensures LogOk(r, d) {
      assert LogOk(s, d);
    }
  }

  lemma ReleasedPart(s: State, i: nat, e: Entry)
    requires Inv(s) && i < |s.q.ready|
    requires e == s.q.ready[i].(refs := e.refs, holders := e.holders) && ReadyOk(e, s.q.active, s.completed)
    ensures Inv(s.(q := s.q.(ready := s.q.ready[i := e])))
  {
    var r := s.(q := s.q.(ready := s.q.ready[i := e]));
    forall t ensures Places(r, t) == Places(s, t) {
      CountUpdate(s.q.ready, i, e, t);
    }
    forall d | d in s.q.active && d < MAX_CONSUMERS ensures LogOk(r, d) {
      assert LogOk(s, d);
    }
  }

  lemma OnePlace(s: State, i: nat, j: nat, buffer: nat)
    requires Inv(s) && i < j < |s.q.ready| && s.q.ready[j].frame == Some(buffer)
    ensures s.q.ready[i].frame != Some(buffer)
  {
    assert Places(s, Buffer(buffer)) <= 1;
    if s.q.ready[i].frame == Some(buffer) {
      CountTwice(s.q.ready, i, j, Buffer(buffer));
    }
  }

  /** The first ready node with a held buffer is the held node: live buffers are in one place only. */
  lemma HeldIsFirst(s: State, c: nat, buffer: nat)
    requires Inv(s) && Holds(s, c, buffer)
    ensures var i := Find(WithFrame(buffer), s.q.ready);
      i < |s.q.ready| && s.q.ready[i].frame == Some(buffer) && c in s.q.ready[i].holders && s.q.ready[i].refs > 0
  {
    var e :| e in s.q.ready && e.frame == Some(buffer) && c in e.holders;
    var j :| 0 <= j < |s.q.ready| && s.q.ready[j] == e;
    forall i | 0 <= i < j ensures s.q.ready[i].frame != Some(buffer) {
      OnePlace(s, i, j, buffer);
    }
    assert Matches(WithFrame(buffer), s.q.ready[j]);
    assert e.holders != {};
  }

  /** What the search section of get_frame does to the ready list and to the consumer's log. */
  lemma SearchedOne(s: State, c: nat)
    requires Inv(s) && Enabled(s, GetSearch(c))
    ensures var r := Next(s, GetSearch(c)); var i := Find(AwaitedBy(c), s.q.ready);
      && |s.since| == |s.got| == MAX_CONSUMERS && c < MAX_CONSUMERS && i <= |s.q.ready|
      && r.completed == s.completed && r.since == s.since
      && if i == |s.q.ready| then r.q.ready == s.q.ready && r.got == s.got
         else
           && |r.q.ready| == |s.q.ready| && r.q.ready == s.q.ready[i := r.q.ready[i]]
           && r.q.ready[i].stamp == s.q.ready[i].stamp && r.q.ready[i].refs == s.q.ready[i].refs + 1
           && c in s.q.ready[i].Awaited() && r.q.ready[i].Awaited() == s.q.ready[i].Awaited() - {c}
           && r.got == s.got[c := s.got[c] + [s.q.ready[i].stamp]]
  {
  }

  /** What the section of release_frame does to the ready list. */
  lemma ReleasedReady(s: State, c: nat, buffer: nat)
    requires Inv(s) && Enabled(s, ReleaseSection(c, buffer))
    ensures var i := Find(WithFrame(buffer), s.q.ready);
      i < |s.q.ready| && s.q.ready[i].refs > 0 && s.q.ready[i].frame == Some(buffer)
    ensures var i := Find(WithFrame(buffer), s.q.ready); var e := s.q.ready[i];
      var e' := e.(refs := e.refs - 1, holders := e.holders - {c});
      var r := Next(s, ReleaseSection(c, buffer));
      && r.q.ready == (if e'.refs == 0 && e'.mask <= e'.accessed then Without(s.q.ready, i) else s.q.ready[i := e'])
      && r.q.active == s.q.active && r.completed == s.completed && r.since == s.since && r.got == s.got
      && |s.since| == |s.got| == MAX_CONSUMERS
    ensures forall j :: 0 <= j < Find(WithFrame(buffer), s.q.ready) ==> s.q.ready[j].frame != Some(buffer)
  {
    HeldIsFirst(s, c, buffer);
    assert forall j :: 0 <= j < Find(WithFrame(buffer), s.q.ready) ==> !Matches(WithFrame(buffer), s.q.ready[j]);
    assert |s.consumers| == |s.since| == |s.got| == MAX_CONSUMERS;
    hide Inv, Find, Matches, Holds;
  }

  lemma ReleaseFreeKeeps(s: State, c: nat)
    requires Inv(s) && Enabled(s, ReleaseFree(c))
    ensures Inv(Next(s, ReleaseFree(c)))
  {
    var r := Next(s, ReleaseFree(c));
    forall t ensures Places(r, t) == if t in r.alive then 1 else 0 {
      CarriedUpdate(s.consumers, c, r.consumers[c], t);
      assert Places(s, t) == if t in s.alive then 1 else 0;
    }
  }

  lemma ReleaseReturnKeeps(s: State, c: nat)
    requires Inv(s) && Enabled(s, ReleaseReturn(c))
    ensures Inv(Next(s, ReleaseReturn(c)))
  {
    var r := Next(s, ReleaseReturn(c));
    var e := s.consumers[c].node.Reset().(frame := None);
    forall t ensures Places(r, t) == Places(s, t) {
      CarriedUpdate(s.consumers, c, Out, t);
      CountLast(s.q.free, e, t);
    }
    if s.producer.Claimed? || s.producer.Filled? || s.producer.Cancelling? {
      FindAppended(WithId(s.producer.id), s.q.free, [e]);
    }
  }

  // ---------- The thread that clears ----------

  lemma ClearFreeKeeps(s: State)
    requires Inv(s) && Enabled(s, Action.ClearFree)
    ensures Inv(Next(s, Action.ClearFree))
  {
    var r := Next(s, Action.ClearFree);
    forall t ensures Places(r, t) == if t in r.alive then 1 else 0 {
      CountStripped(s.q.free, t);
      assert Places(s, t) == if t in s.alive then 1 else 0;
    }
  }

  // ---------- All runs ----------

  lemma {:induction false} NextKeeps(s: State, a: Action)
    requires Inv(s) && Enabled(s, a)
    ensures Inv(Next(s, a))
  {
    match a
    case Register(c) => RegisterKeeps(s, c);
    case Unregister(_) => SweepingKeeps(s, a);
    case MallocClaim => ClaimKeeps(s);
    case MallocFill(supplied) => FillKeeps(s, supplied);
    case MallocNote => NoteKeeps(s);
    case Complete(buffer) => CompleteKeeps(s, buffer);
    case Post =>
    case CancelSection(buffer) => CancelSectionKeeps(s, buffer);
    case CancelFree => CancelFreeKeeps(s);
    case GetEnter(c) => MoveKeeps(s, c, Searching);
    case GetSearch(c) => SearchKeeps(s, c);
    case GetWake(c) => MoveKeeps(s, c, Searching);
    case GetGiveUp(c) => MoveKeeps(s, c, Out);
    case ReleaseSection(c, buffer) => ReleaseSectionKeeps(s, c, buffer);
    case ReleaseFree(c) => ReleaseFreeKeeps(s, c);
    case ReleaseReturn(c) => ReleaseReturnKeeps(s, c);
    case ClearReady => SweepingKeeps(s, a);
    case ClearFree => ClearFreeKeeps(s);
  }

  lemma {:induction false} NewNodesCount(ids: seq<nat>, t: Token)
    ensures Count(NewNodes(ids), t) == if t.Node? then multiset(ids)[t.id] else 0
  {
    if ids != [] {
      assert NewNodes(ids)[1..] == NewNodes(ids[1..]);
      assert ids == [ids[0]] + ids[1..];
      NewNodesCount(ids[1..], t);
    }
  }

  lemma {:induction false} NothingCarried(n: nat, t: Token)
    ensures CountCarried(seq(n, _ => Out), t) == 0
  {
    if n > 0 {
      assert seq(n, _ => Out)[1..] == seq(n - 1, _ => Out);
      NothingCarried(n - 1, t);
    }
  }

  ghost predicate Different(ids: seq<nat>) {
    forall i, j :: 0 <= i < j < |ids| ==> ids[i] != ids[j]
  }

  lemma {:induction false} DifferentCount(ids: seq<nat>, id: nat)
    requires Different(ids)
    ensures multiset(ids)[id] == if id in ids then 1 else 0
  {
    if ids != [] {
      assert ids == [ids[0]] + ids[1..];
      DifferentCount(ids[1..], id);
    }
  }

  lemma InitOk(format: Format, ids: seq<nat>)
    requires Different(ids)
    ensures Inv(Init(format, ids))
  {
    var s := Init(format, ids);
    forall t ensures Places(s, t) == if t in s.alive then 1 else 0 {
      NewNodesCount(ids, t);
      NothingCarried(MAX_CONSUMERS, t);
      if t.Node? {
        DifferentCount(ids, t.id);
      }
    }
  }

  lemma {:induction false} RunKeeps(s: State, actions: seq<Action>, t: State)
    requires Inv(s) && Runs(s, actions, t)
    ensures Inv(t)
    decreases |actions|
  {
    if actions != [] {
      NextKeeps(s, actions[0]);
      RunKeeps(Next(s, actions[0]), actions[1..], t);
    }
  }

  /** Main result: the invariant holds after every run from init. */
  lemma InvariantAlways(format: Format, ids: seq<nat>, actions: seq<Action>, t: State)
    requires Different(ids) && Runs(Init(format, ids), actions, t)
    ensures Inv(t)
  {
    InitOk(format, ids);
    RunKeeps(Init(format, ids), actions, t);
  }
}
