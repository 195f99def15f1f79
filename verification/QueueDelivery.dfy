/** What consumers get, over all runs: H264 frames without loss, every format in order, and held frames untouched. */
module QueueDelivery {
  import opened Common
  import opened QueueModel
  import opened QueueProtocol
  import opened QueueInvariant
  import opened QueueSteps

  // ---------- Lossless delivery of H264 ----------

  /** The completions on the ready list that `c` has still to access, oldest first. */
  ghost function Pending(es: seq<Entry>, c: nat): seq<nat> {
    if es == [] then []
    else
      var init, last := es[..|es| - 1], es[|es| - 1];
      Pending(init, c) + if c in last.Awaited() then [last.stamp] else []
  }

  /** The numbers from `lo` up to, but not including, `hi`. */
  ghost function Range(lo: nat, hi: nat): (r: seq<nat>)
    requires lo <= hi
    ensures |r| == hi - lo && forall i :: 0 <= i < |r| ==> r[i] == lo + i
  {
    seq(hi - lo, i requires 0 <= i => lo + i)
  }

  /** What `c` has got, followed by what waits for it, is everything completed since it registered. */
  ghost predicate LosslessFor(s: State, c: nat)
    requires c < |s.since| && c < |s.got|
  {
    s.since[c] <= |s.completed| && s.got[c] + Pending(s.q.ready, c) == Range(s.since[c], |s.completed|)
  }

  ghost predicate Lossless(s: State) {
    |s.since| == |s.got| == MAX_CONSUMERS && forall c :: c in s.q.active && c < MAX_CONSUMERS ==> LosslessFor(s, c)
  }

  lemma {:induction false} PendingAppend(a: seq<Entry>, b: seq<Entry>, c: nat)
    ensures Pending(a + b, c) == Pending(a, c) + Pending(b, c)
  {
    if b == [] {
      assert a + b == a;
    } else {
      var init := b[..|b| - 1];
      assert (a + b)[..|a + b| - 1] == a + init;
      PendingAppend(a, init, c);
    }
  }

  lemma PendingSplit(es: seq<Entry>, k: nat, c: nat)
    requires k < |es|
    ensures Pending(es, c) ==
            Pending(es[..k], c) + (if c in es[k].Awaited() then [es[k].stamp] else []) + Pending(es[k + 1..], c)
  {
    assert es == es[..k] + ([es[k]] + es[k + 1..]);
    PendingAppend(es[..k], [es[k]] + es[k + 1..], c);
    PendingAppend([es[k]], es[k + 1..], c);
  }

  /** A change of one node that `c` does not await before or after, or awaits alike, changes nothing for `c`. */
  lemma PendingUpdate(es: seq<Entry>, k: nat, e: Entry, c: nat)
    requires k < |es| && e.stamp == es[k].stamp && (c in e.Awaited() <==> c in es[k].Awaited())
    ensures Pending(es[k := e], c) == Pending(es, c)
  {
    PendingSplit(es, k, c);
    PendingSplit(es[k := e], k, c);
    assert es[k := e][..k] == es[..k] && es[k := e][k + 1..] == es[k + 1..];
  }

  lemma PendingWithout(es: seq<Entry>, k: nat, c: nat)
    requires k < |es| && c !in es[k].Awaited()
    ensures Pending(Without(es, k), c) == Pending(es, c)
  {
    PendingSplit(es, k, c);
    PendingAppend(es[..k], es[k + 1..], c);
  }

  lemma {:induction false} NonePending(es: seq<Entry>, c: nat)
    requires forall i :: 0 <= i < |es| ==> c !in es[i].Awaited()
    ensures Pending(es, c) == []
  {
    if es != [] {
      NonePending(es[..|es| - 1], c);
    }
  }

  /** A get takes the oldest pending completion. */
  lemma PendingGot(es: seq<Entry>, k: nat, e: Entry, c: nat)
    requires k == Find(AwaitedBy(c), es) < |es| && c !in e.Awaited()
    ensures Pending(es, c) == [es[k].stamp] + Pending(es[k := e], c)
  {
    PendingSplit(es, k, c);
    PendingSplit(es[k := e], k, c);
    assert es[k := e][..k] == es[..k] && es[k := e][k + 1..] == es[k + 1..];
    forall i | 0 <= i < k ensures c !in es[..k][i].Awaited() {
      assert !Matches(AwaitedBy(c), es[i]);
    }
    NonePending(es[..k], c);
  }

  /** Registration and the leaving of another consumer recycle no frame that `c` awaits. */
  lemma {:induction false} PendingSwept(s: Sweep, es: seq<Entry>, c: nat)
    requires !s.OnClear? && s != OnUnregister(c)
    ensures Pending(Kept(s, es), c) == Pending(es, c)
  {
    if es != [] {
      var init, last := es[..|es| - 1], es[|es| - 1];
      PendingSwept(s, init, c);
      var e := Touched(s, last);
      assert c in e.Awaited() <==> c in last.Awaited();
      if Recycled(s, last) {
        assert Kept(s, es) == Kept(s, init);
      } else {
        PendingAppend(Kept(s, init), [e], c);
        assert [e][..0] == [];
      }
    }
  }

  lemma RegisterFor(s: State, c: nat, d: nat)
    requires Inv(s) && Lossless(s) && Enabled(s, Action.Register(c)) && d < MAX_CONSUMERS
    requires d in s.q.active || d == c
    ensures LosslessFor(Next(s, Action.Register(c)), d)
  {
    PendingSwept(OnRegister, s.q.ready, d);
    if d !in s.q.active {
      NonePending(s.q.ready, d);
    } else {
      assert LosslessFor(s, d);
    }
  }

  lemma LosslessRegister(s: State, c: nat)
    requires Inv(s) && Lossless(s) && Enabled(s, Action.Register(c))
    ensures Lossless(Next(s, Action.Register(c)))
  {
    var r := Next(s, Action.Register(c));
    hide LosslessFor;
    forall d | d in r.q.active && d < MAX_CONSUMERS ensures LosslessFor(r, d) {
      RegisterFor(s, c, d);
    }
  }

  lemma LosslessUnregister(s: State, c: nat)
    requires Inv(s) && Lossless(s) && Enabled(s, Action.Unregister(c))
    ensures Lossless(Next(s, Action.Unregister(c)))
  {
    var r := Next(s, Action.Unregister(c));
    forall d | d in r.q.active && d < MAX_CONSUMERS ensures LosslessFor(r, d) {
      assert LosslessFor(s, d);
      PendingSwept(OnUnregister(c), s.q.ready, d);
    }
  }

  lemma CompleteFor(s: State, buffer: nat, d: nat)
    requires Inv(s) && Lossless(s) && Enabled(s, Action.Complete(buffer)) && d in s.q.active && d < MAX_CONSUMERS
    ensures LosslessFor(Next(s, Action.Complete(buffer)), d)
  {
    var r := Next(s, Action.Complete(buffer));
    assert LosslessFor(s, d);
    CompletedLast(s, buffer);
    hide Next, Inv, Enabled, Lossless, Pending;
    if r != s {
      var e := r.q.ready[|s.q.ready|];
      PendingAppend(s.q.ready, [e], d);
      PendingOne(e, d);
      RangeGrows(s.since[d], |s.completed|, s.got[d], Pending(s.q.ready, d));
    }
  }

  lemma CompletedLast(s: State, buffer: nat)
    requires Inv(s) && Enabled(s, Action.Complete(buffer))
    ensures var r := Next(s, Action.Complete(buffer));
      && |s.since| == |s.got| == MAX_CONSUMERS && r.since == s.since && r.got == s.got && r.q.active == s.q.active
      && (r != s ==>
        && r.completed == s.completed + [buffer] && |r.q.ready| == |s.q.ready| + 1
        && var e := r.q.ready[|s.q.ready|];
           r.q.ready == s.q.ready + [e] && e.Awaited() == s.q.active && e.stamp == |s.completed|)
  {
  }

  lemma PendingOne(e: Entry, c: nat)
    ensures Pending([e], c) == if c in e.Awaited() then [e.stamp] else []
  {
    assert [e][..0] == [];
  }

  lemma RangeGrows(lo: nat, n: nat, got: seq<nat>, pending: seq<nat>)
    requires lo <= n && got + pending == Range(lo, n)
    ensures got + (pending + [n]) == Range(lo, n + 1)
  {
    assert got + (pending + [n]) == (got + pending) + [n];
  }

  lemma LosslessComplete(s: State, buffer: nat)
    requires Inv(s) && Lossless(s) && Enabled(s, Action.Complete(buffer))
    ensures Lossless(Next(s, Action.Complete(buffer)))
  {
    hide LosslessFor;
    forall d | d in s.q.active && d < MAX_CONSUMERS ensures LosslessFor(Next(s, Action.Complete(buffer)), d) {
      CompleteFor(s, buffer, d);
    }
  }

  lemma Regroup(got: seq<nat>, stamp: nat, pending: seq<nat>)
    ensures got + ([stamp] + pending) == (got + [stamp]) + pending
  {
  }

  lemma SearchFor(s: State, c: nat, d: nat)
    requires Inv(s) && Lossless(s) && Enabled(s, GetSearch(c)) && d in s.q.active && d < MAX_CONSUMERS
    ensures LosslessFor(Next(s, GetSearch(c)), d)
  {
    assert LosslessFor(s, d);
    SearchedOne(s, c);
    hide Inv, Enabled, Next, Find, Lossless, Pending;
    var i := Find(AwaitedBy(c), s.q.ready);
    if i < |s.q.ready| {
      var e := Next(s, GetSearch(c)).q.ready[i];
      if d == c {
        PendingGot(s.q.ready, i, e, c);
        Regroup(s.got[c], s.q.ready[i].stamp, Pending(s.q.ready[i := e], c));
      } else {
        PendingUpdate(s.q.ready, i, e, d);
      }
    }
  }

  lemma LosslessSearch(s: State, c: nat)
    requires Inv(s) && Lossless(s) && Enabled(s, GetSearch(c))
    ensures Lossless(Next(s, GetSearch(c)))
  {
    hide LosslessFor;
    forall d | d in s.q.active && d < MAX_CONSUMERS ensures LosslessFor(Next(s, GetSearch(c)), d) {
      SearchFor(s, c, d);
    }
  }

  lemma ReleaseFor(s: State, c: nat, buffer: nat, d: nat)
    requires Inv(s) && Lossless(s) && Enabled(s, ReleaseSection(c, buffer)) && d in s.q.active && d < MAX_CONSUMERS
    ensures LosslessFor(Next(s, ReleaseSection(c, buffer)), d)
  {
    var i := Find(WithFrame(buffer), s.q.ready);
    ReleasedReady(s, c, buffer);
    assert LosslessFor(s, d);
    hide Inv, Next, Enabled, Find, Lossless, Pending;
    var e := s.q.ready[i].(refs := s.q.ready[i].refs - 1, holders := s.q.ready[i].holders - {c});
    if e.refs == 0 && e.mask <= e.accessed {
      PendingWithout(s.q.ready, i, d);
    } else {
      PendingUpdate(s.q.ready, i, e, d);
    }
  }

  lemma LosslessRelease(s: State, c: nat, buffer: nat)
    requires Inv(s) && Lossless(s) && Enabled(s, ReleaseSection(c, buffer))
    ensures Lossless(Next(s, ReleaseSection(c, buffer)))
  {
    hide LosslessFor;
    forall d | d in s.q.active && d < MAX_CONSUMERS ensures LosslessFor(Next(s, ReleaseSection(c, buffer)), d) {
      ReleaseFor(s, c, buffer, d);
    }
  }

  lemma LosslessNext(s: State, a: Action)
    requires Inv(s) && Lossless(s) && Enabled(s, a) && s.format == Format.H264 && a != Action.ClearReady
    ensures Lossless(Next(s, a)) && Next(s, a).format == Format.H264
  {
    if a.Register? {
      LosslessRegister(s, a.c);
    } else if a.Unregister? {
      LosslessUnregister(s, a.c);
    } else if a.Complete? {
      LosslessComplete(s, a.buffer);
    } else if a.GetSearch? {
      LosslessSearch(s, a.c);
    } else if a.ReleaseSection? {
      LosslessRelease(s, a.c, a.buffer);
    } else {
      var r := Next(s, a);
      assert r.q.ready == s.q.ready && r.q.active == s.q.active && r.completed == s.completed;
      assert forall d :: d in r.q.active && d < MAX_CONSUMERS ==> LosslessFor(s, d) ==> LosslessFor(r, d);
    }
  }

  lemma {:induction false} LosslessRun(s: State, actions: seq<Action>, t: State)
    requires Inv(s) && Lossless(s) && s.format == Format.H264 && Runs(s, actions, t)
    requires forall i :: 0 <= i < |actions| ==> actions[i] != Action.ClearReady
    ensures Inv(t) && Lossless(t)
    decreases |actions|
  {
    if actions != [] {
      NextKeeps(s, actions[0]);
      LosslessNext(s, actions[0]);
      LosslessRun(Next(s, actions[0]), actions[1..], t);
    }
  }

  /**
   Main result: over any interleaving that does not clear the queue, what a registered consumer of H264 frames has got
   is a prefix of the frames completed since it registered, and the rest of them waits for it on the ready list.
   */
  lemma H264Lossless(ids: seq<nat>, actions: seq<Action>, t: State, c: nat)
    requires Different(ids) && Runs(Init(Format.H264, ids), actions, t)
    requires forall i :: 0 <= i < |actions| ==> actions[i] != Action.ClearReady
    requires c in t.q.active
    ensures c < |t.since| && c < |t.got|
    ensures var n := |t.got[c]|;
      && t.since[c] + n <= |t.completed|
      && t.got[c] == Range(t.since[c], t.since[c] + n)
      && Pending(t.q.ready, c) == Range(t.since[c] + n, |t.completed|)
  {
    InitOk(Format.H264, ids);
    LosslessRun(Init(Format.H264, ids), actions, t);
    assert LosslessFor(t, c);
    var n := |t.got[c]|;
    var all := Range(t.since[c], |t.completed|);
    assert t.got[c] == all[..n] && Pending(t.q.ready, c) == all[n..];
  }

  // ---------- Order in every format ----------

  /**
   Main result: in every format, with frame dropping and clearing, a registered consumer gets each completion at most
   once, in the order of completion, and only completions since it registered.
   */
  lemma DeliveredInOrder(format: Format, ids: seq<nat>, actions: seq<Action>, t: State, c: nat)
    requires Different(ids) && Runs(Init(format, ids), actions, t) && c in t.q.active
    ensures c < |t.since| && c < |t.got|
    ensures forall i :: 0 <= i < |t.got[c]| ==> t.since[c] <= t.got[c][i] < |t.completed|
    ensures forall i, j :: 0 <= i < j < |t.got[c]| ==> t.got[c][i] < t.got[c][j]
  {
    InvariantAlways(format, ids, actions, t);
    assert LogOk(t, c);
  }

  /** The buffer a get returns is the one of the completion it logs, and it is live. */
  lemma GotTheCompletedBuffer(s: State, c: nat)
    requires Inv(s) && Enabled(s, GetSearch(c)) && Get(s.q, c).1.Some?
    ensures var e, r := Get(s.q, c).1.value, Next(s, GetSearch(c));
      && r.got[c] == s.got[c] + [e.stamp] && e.stamp < |s.completed|
      && e.frame == Some(s.completed[e.stamp]) && Buffer(s.completed[e.stamp]) in s.alive
      && HeldNode(r, c, e.id, s.completed[e.stamp], e.stamp)
  {
    var i := Find(AwaitedBy(c), s.q.ready);
    var e, r := Get(s.q, c).1.value, Next(s, GetSearch(c));
    assert HeldAt(r, i, c, e.id, s.completed[e.stamp], e.stamp);
    CountIn(s.q.ready, i, Buffer(s.completed[e.stamp]));
    assert Places(s, Buffer(s.completed[e.stamp])) > 0;
  }

  // ---------- Held frames ----------

  /** Node `id` is ready with this buffer and completion number, held by `c`, and its buffer is not freed. */
  ghost predicate HeldNode(s: State, c: nat, id: nat, buffer: nat, stamp: nat) {
    && Buffer(buffer) in s.alive
    && exists j :: 0 <= j < |s.q.ready| && HeldAt(s, j, c, id, buffer, stamp)
  }

  ghost predicate HeldAt(s: State, j: nat, c: nat, id: nat, buffer: nat, stamp: nat)
    requires j < |s.q.ready|
  {
    var e := s.q.ready[j];
    e.id == id && e.frame == Some(buffer) && e.stamp == stamp && c in e.holders
  }

  lemma {:induction false} KeptHas(s: Sweep, es: seq<Entry>, i: nat) returns (j: nat)
    requires i < |es| && !Recycled(s, es[i])
    ensures j < |Kept(s, es)| && Kept(s, es)[j] == Touched(s, es[i])
  {
    if i == |es| - 1 {
      j := |Kept(s, es)| - 1;
    } else {
      j := KeptHas(s, es[..|es| - 1], i);
    }
  }

  /** Where a held node is after a step that does not release it for this consumer. */
  lemma HeldMoves(s: State, a: Action, i: nat, c: nat, id: nat, buffer: nat, stamp: nat) returns (j: nat)
    requires Inv(s) && Enabled(s, a) && a != ReleaseSection(c, buffer)
    requires i < |s.q.ready| && HeldAt(s, i, c, id, buffer, stamp)
    ensures j < |Next(s, a).q.ready| && HeldAt(Next(s, a), j, c, id, buffer, stamp)
  {
    match a
    case Register(d) => j := KeptHas(OnRegister, s.q.ready, i);
    case Unregister(d) => j := KeptHas(OnUnregister(d), s.q.ready, i);
    case ClearReady => j := KeptHas(OnClear, s.q.ready, i);
    case MallocClaim => j := HeldThroughClaim(s, i, c, id, buffer, stamp);
    case ReleaseSection(d, b) => j := HeldThroughRelease(s, d, b, i, c, id, buffer, stamp);
    case _ => j := i;
  }

  lemma HeldThroughClaim(s: State, i: nat, c: nat, id: nat, buffer: nat, stamp: nat) returns (j: nat)
    requires Inv(s) && Enabled(s, MallocClaim)
    requires i < |s.q.ready| && HeldAt(s, i, c, id, buffer, stamp)
    ensures j < |Next(s, MallocClaim).q.ready| && HeldAt(Next(s, MallocClaim), j, c, id, buffer, stamp)
  {
    var k := Find(AnyUnheld, s.q.ready);
    assert s.q.ready[i].refs > 0;
    j := if Next(s, MallocClaim).q.ready == s.q.ready || i < k then i else i - 1;
  }

  lemma HeldThroughRelease(s: State, d: nat, b: nat, i: nat, c: nat, id: nat, buffer: nat, stamp: nat) returns (j: nat)
    requires Inv(s) && Enabled(s, ReleaseSection(d, b)) && (d != c || b != buffer)
    requires i < |s.q.ready| && HeldAt(s, i, c, id, buffer, stamp)
    ensures var r := Next(s, ReleaseSection(d, b)); j < |r.q.ready| && HeldAt(r, j, c, id, buffer, stamp)
  {
    var k := Find(WithFrame(b), s.q.ready);
    HeldIsFirst(s, d, b);
    ReleasedReady(s, d, b);
    ReleasedElsewhere(s, i, c, d, b, k);
    hide Inv, Next, Enabled, Find;
    j := StillAt(s.q.ready, Next(s, ReleaseSection(d, b)).q.ready, k, i, d, c);
  }

  /** A node that another consumer holds stays on the list when one is released, or another node is. */
  lemma StillAt(es: seq<Entry>, rs: seq<Entry>, k: nat, i: nat, d: nat, c: nat) returns (j: nat)
    requires k < |es| && i < |es| && c in es[i].holders && (k == i ==> d != c && es[k].refs > 1) && es[k].refs > 0
    requires var e := es[k].(refs := es[k].refs - 1, holders := es[k].holders - {d});
      rs == if e.refs == 0 && e.mask <= e.accessed then Without(es, k) else es[k := e]
    ensures j < |rs| && rs[j].id == es[i].id && rs[j].frame == es[i].frame && rs[j].stamp == es[i].stamp
    ensures c in rs[j].holders
  {
    j := if |rs| == |es| || i < k then i else i - 1;
  }

  /** A release by another consumer, or of another frame, does not unlink a node that `c` holds. */
  lemma ReleasedElsewhere(s: State, i: nat, c: nat, d: nat, b: nat, k: nat)
    requires Inv(s) && i < |s.q.ready| && c in s.q.ready[i].holders
    requires k == Find(WithFrame(b), s.q.ready) < |s.q.ready| && d in s.q.ready[k].holders
    requires d != c || s.q.ready[i].frame != Some(b)
    ensures k == i ==> s.q.ready[k].refs > 1
  {
    if k == i {
      assert {c, d} <= s.q.ready[i].holders;
      SubsetSize({c, d}, s.q.ready[i].holders);
    }
  }

  lemma HeldNext(s: State, a: Action, c: nat, id: nat, buffer: nat, stamp: nat)
    requires Inv(s) && Enabled(s, a) && a != ReleaseSection(c, buffer)
    requires HeldNode(s, c, id, buffer, stamp)
    ensures HeldNode(Next(s, a), c, id, buffer, stamp)
  {
    var i :| 0 <= i < |s.q.ready| && HeldAt(s, i, c, id, buffer, stamp);
    var j := HeldMoves(s, a, i, c, id, buffer, stamp);
    var r := Next(s, a);
    NextKeeps(s, a);
    CountIn(r.q.ready, j, Buffer(buffer));
    assert Places(r, Buffer(buffer)) > 0;
  }

  /**
   Main result: from its get to its own release, a frame stays ready in the same node, with the same buffer and
   completion, and its buffer is not freed, whatever the producer, the other consumers and clear_all do.
   */
  lemma {:induction false} HeldFrameIsStable(s: State, actions: seq<Action>, t: State,
                                             c: nat, id: nat, buffer: nat, stamp: nat)
    requires Inv(s) && Runs(s, actions, t) && HeldNode(s, c, id, buffer, stamp)
    requires forall i :: 0 <= i < |actions| ==> actions[i] != ReleaseSection(c, buffer)
    ensures HeldNode(t, c, id, buffer, stamp)
    decreases |actions|
  {
    if actions != [] {
      NextKeeps(s, actions[0]);
      HeldNext(s, actions[0], c, id, buffer, stamp);
      HeldFrameIsStable(Next(s, actions[0]), actions[1..], t, c, id, buffer, stamp);
    }
  }
}
