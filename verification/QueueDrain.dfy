/** No frame leaks: gets and releases use the ready list up, and without completions it can always be drained. */
module QueueDrain {
  import opened Common
  import opened QueueModel
  import opened QueueProtocol
  import opened QueueInvariant
  import opened QueueSteps

  /** The gets and releases the ready list still asks for. */
  ghost function Weight(es: seq<Entry>): nat {
    if es == [] then 0
    else Weight(es[..|es| - 1]) + 2 * |es[|es| - 1].Awaited()| + es[|es| - 1].refs
  }

  ghost function WeightOf(e: Entry): nat {
    2 * |e.Awaited()| + e.refs
  }

  lemma {:induction false} WeightAppend(a: seq<Entry>, b: seq<Entry>)
    ensures Weight(a + b) == Weight(a) + Weight(b)
  {
    if b == [] {
      assert a + b == a;
    } else {
      assert (a + b)[..|a + b| - 1] == a + b[..|b| - 1];
      WeightAppend(a, b[..|b| - 1]);
    }
  }

  lemma WeightOne(e: Entry)
    ensures Weight([e]) == WeightOf(e)
  {
    assert [e][..0] == [];
  }

  lemma WeightWithout(es: seq<Entry>, k: nat)
    requires k < |es|
    ensures Weight(es) == Weight(Without(es, k)) + WeightOf(es[k])
  {
    hide Weight, WeightOf;
    assert es == es[..k] + ([es[k]] + es[k + 1..]);
    WeightAppend(es[..k], [es[k]] + es[k + 1..]);
    WeightAppend([es[k]], es[k + 1..]);
    WeightAppend(es[..k], es[k + 1..]);
    WeightOne(es[k]);
  }

  lemma WeightUpdate(es: seq<Entry>, k: nat, e: Entry)
    requires k < |es|
    ensures Weight(es[k := e]) == Weight(es) - WeightOf(es[k]) + WeightOf(e)
  {
    hide Weight, WeightOf;
    WeightWithout(es, k);
    WeightWithout(es[k := e], k);
    assert Without(es[k := e], k) == Without(es, k);
  }

  lemma {:induction false} WeightSwept(s: Sweep, es: seq<Entry>)
    ensures Weight(Kept(s, es)) <= Weight(es)
  {
    if es != [] {
      var init, last := es[..|es| - 1], es[|es| - 1];
      WeightSwept(s, init);
      if Recycled(s, last) {
        assert Kept(s, es) == Kept(s, init);
      } else {
        WeightAppend(Kept(s, init), [Touched(s, last)]);
        WeightOne(Touched(s, last));
        SubsetSize(Touched(s, last).Awaited(), last.Awaited());
      }
    }
  }

  /** The steps that serve a consumer: a search that finds a frame, and the section of a release. */
  ghost predicate Serves(s: State, a: Action) {
    a.ReleaseSection? || (a.GetSearch? && Find(AwaitedBy(a.c), s.q.ready) < |s.q.ready|)
  }

  ghost function Served(s: State, actions: seq<Action>): nat
    decreases |actions|
  {
    if actions == [] || !(|s.consumers| == |s.since| == |s.got| == MAX_CONSUMERS && Enabled(s, actions[0])) then 0
    else (if Serves(s, actions[0]) then 1 else 0) + Served(Next(s, actions[0]), actions[1..])
  }

  /** A serving step takes exactly one from the weight; a step that completes nothing adds nothing to it. */
  lemma {:induction false} WeightNext(s: State, a: Action)
    requires Inv(s) && Enabled(s, a) && !a.Complete?
    ensures Weight(Next(s, a).q.ready) <= Weight(s.q.ready) - (if Serves(s, a) then 1 else 0)
    ensures Serves(s, a) ==> Weight(Next(s, a).q.ready) == Weight(s.q.ready) - 1
  {
    match a
    case Register(_) => WeightSwept(OnRegister, s.q.ready);
    case Unregister(c) => WeightSwept(OnUnregister(c), s.q.ready);
    case ClearReady => WeightSwept(OnClear, s.q.ready);
    case MallocClaim => WeightClaim(s);
    case GetSearch(c) => WeightSearch(s, c);
    case ReleaseSection(c, buffer) => WeightRelease(s, c, buffer);
    case _ =>
  }

  lemma WeightClaim(s: State)
    requires Inv(s) && Enabled(s, MallocClaim)
    ensures Weight(Next(s, MallocClaim).q.ready) <= Weight(s.q.ready)
  {
    var j := Find(AnyUnheld, s.q.ready);
    if j < |s.q.ready| {
      WeightWithout(s.q.ready, j);
    }
  }

  lemma WeightSearch(s: State, c: nat)
    requires Inv(s) && Enabled(s, GetSearch(c))
    ensures Weight(Next(s, GetSearch(c)).q.ready) ==
            Weight(s.q.ready) - if Serves(s, GetSearch(c)) then 1 else 0
  {
    SearchedOne(s, c);
    hide Inv, Next, Enabled, Weight;
    var i := Find(AwaitedBy(c), s.q.ready);
    if i < |s.q.ready| {
      WeightUpdate(s.q.ready, i, Next(s, GetSearch(c)).q.ready[i]);
    }
  }

  lemma WeightRelease(s: State, c: nat, buffer: nat)
    requires Inv(s) && Enabled(s, ReleaseSection(c, buffer))
    ensures Weight(Next(s, ReleaseSection(c, buffer)).q.ready) == Weight(s.q.ready) - 1
  {
    var i := Find(WithFrame(buffer), s.q.ready);
    ReleasedReady(s, c, buffer);
    hide Inv, Next, Enabled, Weight;
    WeightReleased(s.q.ready, i, c);
  }

  lemma WeightReleased(es: seq<Entry>, i: nat, c: nat)
    requires i < |es| && es[i].refs > 0
    ensures var e := es[i].(refs := es[i].refs - 1, holders := es[i].holders - {c});
      Weight(if e.refs == 0 && e.mask <= e.accessed then Without(es, i) else es[i := e]) == Weight(es) - 1
  {
    hide Weight;
    var e := es[i].(refs := es[i].refs - 1, holders := es[i].holders - {c});
    if e.refs == 0 && e.mask <= e.accessed {
      assert es[i].Awaited() == {};
      WeightWithout(es, i);
    } else {
      WeightUpdate(es, i, e);
    }
  }

  /** Main result: between completions, at most `Weight` gets and releases can happen, in any interleaving. */
  lemma {:induction false} ServiceIsBounded(s: State, actions: seq<Action>, t: State)
    requires Inv(s) && Runs(s, actions, t)
    requires forall i :: 0 <= i < |actions| ==> !actions[i].Complete?
    ensures Served(s, actions) + Weight(t.q.ready) <= Weight(s.q.ready)
    decreases |actions|
  {
    if actions != [] {
      NextKeeps(s, actions[0]);
      WeightNext(s, actions[0]);
      ServiceIsBounded(Next(s, actions[0]), actions[1..], t);
    }
  }

  // ---------- Draining ----------

  /** The steps of consumers that wait for nobody: gets that find or give up, and releases. */
  predicate OwnStep(a: Action) {
    a.GetEnter? || a.GetSearch? || a.GetGiveUp? || a.ReleaseSection? || a.ReleaseFree? || a.ReleaseReturn?
  }

  lemma {:induction false} RunsAppend(s: State, a: seq<Action>, m: State, b: seq<Action>, t: State)
    requires Runs(s, a, m) && Runs(m, b, t)
    ensures Runs(s, a + b, t)
    decreases |a|
  {
    if a == [] {
      assert a + b == b;
    } else {
      assert (a + b)[0] == a[0] && (a + b)[1..] == a[1..] + b;
      RunsAppend(Next(s, a[0]), a[1..], m, b, t);
    }
  }

  lemma RunsOne(s: State, a: Action)
    requires Inv(s) && Enabled(s, a)
    ensures Runs(s, [a], Next(s, a)) && Inv(Next(s, a))
  {
    assert [a][1..] == [];
    assert Runs(Next(s, a), [], Next(s, a));
    NextKeeps(s, a);
  }

  ghost predicate OwnSteps(actions: seq<Action>) {
    forall i :: 0 <= i < |actions| ==> OwnStep(actions[i])
  }

  /** How far a consumer thread is from starting a get or a release. */
  ghost function Distance(w: Consumer): nat {
    match w
    case Out => 0
    case Waiting => 1
    case Searching => 2
    case Freed(_) => 1
    case Unlinked(_) => 2
  }

  ghost function OutAction(w: Consumer, c: nat): Action
    requires w != Out
  {
    match w
    case Waiting => GetGiveUp(c)
    case Searching => GetSearch(c)
    case Unlinked(_) => ReleaseFree(c)
    case Freed(_) => ReleaseReturn(c)
  }

  lemma OutMoves(s: State, c: nat)
    requires Inv(s) && c < MAX_CONSUMERS && s.consumers[c] != Out
    ensures var a := OutAction(s.consumers[c], c);
      && OwnStep(a) && Enabled(s, a) && !a.Complete?
      && var r := Next(s, a);
      && |r.consumers| == MAX_CONSUMERS
      && Distance(r.consumers[c]) < Distance(s.consumers[c]) && r.q.active == s.q.active
      && (forall d :: 0 <= d < MAX_CONSUMERS && d != c ==> r.consumers[d] == s.consumers[d])
      && (Serves(s, a) || r.q.ready == s.q.ready)
  {
  }

  lemma OutStep(s: State, c: nat)
    requires Inv(s) && c < MAX_CONSUMERS && s.consumers[c] != Out
    ensures var a := OutAction(s.consumers[c], c);
      && OwnStep(a) && Enabled(s, a)
      && var r := Next(s, a);
      && Distance(r.consumers[c]) < Distance(s.consumers[c]) && r.q.active == s.q.active
      && (forall d :: 0 <= d < MAX_CONSUMERS && d != c ==> r.consumers[d] == s.consumers[d])
      && Weight(r.q.ready) <= Weight(s.q.ready)
      && (Weight(r.q.ready) == Weight(s.q.ready) ==> r.q.ready == s.q.ready)
  {
    OutMoves(s, c);
    hide Inv, Next, Enabled, OutAction, OwnStep, Distance, Weight, Serves;
    WeightNext(s, OutAction(s.consumers[c], c));
  }

  /** A consumer thread alone gets back to where it can start a get or a release. */
  lemma {:induction false} ReturnsOut(s: State, c: nat) returns (actions: seq<Action>, t: State)
    requires Inv(s) && c < MAX_CONSUMERS
    ensures Runs(s, actions, t) && Inv(t) && OwnSteps(actions) && t.consumers[c] == Out
    ensures t.q.active == s.q.active && Weight(t.q.ready) <= Weight(s.q.ready)
    ensures Weight(t.q.ready) == Weight(s.q.ready) ==> t.q.ready == s.q.ready
    ensures forall d :: 0 <= d < MAX_CONSUMERS && d != c ==> t.consumers[d] == s.consumers[d]
    decreases Distance(s.consumers[c])
  {
    if s.consumers[c] == Out {
      actions, t := [], s;
    } else {
      var a := OutAction(s.consumers[c], c);
      OutStep(s, c);
      RunsOne(s, a);
      var rest;
      rest, t := ReturnsOut(Next(s, a), c);
      actions := [a] + rest;
      RunsAppend(s, [a], Next(s, a), rest, t);
    }
  }

  /** A consumer that is out of all operations releases the oldest ready frame if it holds it. */
  lemma ServeHolder(s: State, c: nat) returns (actions: seq<Action>, t: State)
    requires Inv(s) && c < MAX_CONSUMERS && s.consumers[c] == Out && s.q.ready != [] && c in s.q.ready[0].holders
    ensures Runs(s, actions, t) && Inv(t) && OwnSteps(actions)
    ensures t.q.active == s.q.active && Weight(t.q.ready) < Weight(s.q.ready)
  {
    var e := s.q.ready[0];
    assert ReadyOk(e, s.q.active, s.completed) && e in s.q.ready;
    var a := ReleaseSection(c, e.frame.value);
    assert Holds(s, c, e.frame.value);
    RunsOne(s, a);
    WeightNext(s, a);
    actions, t := [a], Next(s, a);
  }

  /** And it gets a frame if it awaits the oldest one. */
  lemma ServeAwaiting(s: State, c: nat) returns (actions: seq<Action>, t: State)
    requires Inv(s) && c < MAX_CONSUMERS && s.consumers[c] == Out && s.q.ready != [] && c in s.q.ready[0].Awaited()
    ensures Runs(s, actions, t) && Inv(t) && OwnSteps(actions)
    ensures t.q.active == s.q.active && Weight(t.q.ready) < Weight(s.q.ready)
  {
    EntersAndFinds(s, c);
    hide Inv, Enabled, Next, Serves;
    var m := Next(s, GetEnter(c));
    RunsOne(s, GetEnter(c));
    RunsOne(m, GetSearch(c));
    WeightNext(m, GetSearch(c));
    t := Next(m, GetSearch(c));
    actions := [GetEnter(c)] + [GetSearch(c)];
    assert OwnSteps([GetEnter(c)]) && OwnSteps([GetSearch(c)]);
    hide Runs, OwnSteps;
    Chain(s, [GetEnter(c)], m, [GetSearch(c)], t);
  }

  lemma EntersAndFinds(s: State, c: nat)
    requires Inv(s) && c < MAX_CONSUMERS && s.consumers[c] == Out && s.q.ready != [] && c in s.q.ready[0].Awaited()
    ensures Enabled(s, GetEnter(c))
    ensures var m := Next(s, GetEnter(c));
      && m.q == s.q && |m.consumers| == |m.since| == |m.got| == MAX_CONSUMERS
      && Enabled(m, GetSearch(c)) && Serves(m, GetSearch(c))
      && Next(m, GetSearch(c)).q.active == s.q.active
  {
    assert ReadyOk(s.q.ready[0], s.q.active, s.completed);
    assert Matches(AwaitedBy(c), s.q.ready[0]);
  }

  lemma Chain(s: State, a: seq<Action>, m: State, b: seq<Action>, t: State)
    requires Runs(s, a, m) && Runs(m, b, t) && OwnSteps(a) && OwnSteps(b)
    ensures Runs(s, a + b, t) && OwnSteps(a + b)
  {
    RunsAppend(s, a, m, b, t);
  }

  lemma ServeNow(s: State, c: nat) returns (actions: seq<Action>, t: State)
    requires Inv(s) && c < MAX_CONSUMERS && s.consumers[c] == Out && s.q.ready != []
    requires c in s.q.ready[0].holders + s.q.ready[0].Awaited()
    ensures Runs(s, actions, t) && Inv(t) && OwnSteps(actions)
    ensures t.q.active == s.q.active && Weight(t.q.ready) < Weight(s.q.ready)
  {
    hide Inv, Runs;
    if c in s.q.ready[0].holders {
      actions, t := ServeHolder(s, c);
    } else {
      actions, t := ServeAwaiting(s, c);
    }
  }

  /** While anything is ready, some consumer can be served by its own steps alone. */
  lemma ServeOne(s: State) returns (actions: seq<Action>, t: State)
    requires Inv(s) && s.q.active != {} && s.q.ready != []
    ensures Runs(s, actions, t) && Inv(t) && OwnSteps(actions)
    ensures t.q.active == s.q.active && Weight(t.q.ready) < Weight(s.q.ready)
  {
    var e := s.q.ready[0];
    assert ReadyOk(e, s.q.active, s.completed);
    var c :| c in e.holders + e.Awaited();
    assert c in e.mask && c < MAX_CONSUMERS;
    hide Inv, Runs, OwnSteps;
    actions, t := ReturnsOut(s, c);
    if Weight(t.q.ready) == Weight(s.q.ready) {
      var m, more := t, [];
      more, t := ServeNow(m, c);
      Chain(s, actions, m, more, t);
      actions := actions + more;
    }
  }

  lemma {:induction false} DrainReady(s: State) returns (actions: seq<Action>, t: State)
    requires Inv(s) && s.q.active != {}
    ensures Runs(s, actions, t) && Inv(t) && OwnSteps(actions) && t.q.ready == []
    decreases Weight(s.q.ready)
  {
    if s.q.ready == [] {
      actions, t := [], s;
    } else {
      var m, first := s, [];
      first, m := ServeOne(s);
      var rest;
      rest, t := DrainReady(m);
      RunsAppend(s, first, m, rest, t);
      actions := first + rest;
    }
  }

  lemma {:induction false} AllReturn(s: State, n: nat) returns (actions: seq<Action>, t: State)
    requires Inv(s) && s.q.ready == [] && n <= MAX_CONSUMERS
    ensures Runs(s, actions, t) && Inv(t) && OwnSteps(actions) && t.q.ready == []
    ensures forall c :: 0 <= c < n ==> t.consumers[c] == Out
  {
    if n == 0 {
      actions, t := [], s;
    } else {
      var m;
      actions, m := AllReturn(s, n - 1);
      var more;
      more, t := ReturnsOut(m, n - 1);
      Chain(s, actions, m, more, t);
      actions := actions + more;
    }
  }

  /**
   Main result: from every reachable state with an active consumer, the consumers' own steps can bring every node of
   the pool back to the free list.
   */
  lemma {:induction false} EverythingDrains(format: Format, ids: seq<nat>, before: seq<Action>, s: State)
      returns (actions: seq<Action>, t: State)
    requires Different(ids) && Runs(Init(format, ids), before, s) && s.q.active != {}
    ensures Runs(s, actions, t) && OwnSteps(actions)
    ensures t.q.ready == [] && forall id :: id in ids ==> Find(WithId(id), t.q.free) < |t.q.free|
  {
    InvariantAlways(format, ids, before, s);
    var m, first := s, [];
    first, m := DrainReady(s);
    actions, t := AllReturn(m, MAX_CONSUMERS);
    RunsAppend(s, first, m, actions, t);
    actions := first + actions;
    RunsAppend(Init(format, ids), before, s, actions, t);
    InitOk(format, ids);
    NodesStay(Init(format, ids), before + actions, t);
    forall id | id in ids ensures Find(WithId(id), t.q.free) < |t.q.free| {
      NothingIn(t.consumers, Node(id));
      assert Node(id) in t.alive && Places(t, Node(id)) == 1;
      FindOwner(t.q.free, id);
    }
  }

  /** Nobody is inside get_frame or release_frame, nobody holds a frame, and no active consumer would find one. */
  ghost predicate Quiescent(s: State) {
    && (forall c :: 0 <= c < |s.consumers| ==> s.consumers[c] == Out)
    && (forall i :: 0 <= i < |s.q.ready| ==> s.q.ready[i].holders == {})
    && (forall c :: c in s.q.active ==> Find(AwaitedBy(c), s.q.ready) == |s.q.ready|)
  }

  /**
   Main result: every reachable state in which the active consumers have nothing left to get or to release has an
   empty ready list and every node of the pool on the free list. `QueueFair` shows that fair consumers come to
   such a state.
   */
  lemma QuiescentIsDrained(format: Format, ids: seq<nat>, before: seq<Action>, s: State)
    requires Different(ids) && Runs(Init(format, ids), before, s) && s.q.active != {} && Quiescent(s)
    ensures s.q.ready == [] && forall id :: id in ids ==> Find(WithId(id), s.q.free) < |s.q.free|
  {
    InvariantAlways(format, ids, before, s);
    FirstIsServed(s);
    InitOk(format, ids);
    NodesStay(Init(format, ids), before, s);
    forall id | id in ids ensures Find(WithId(id), s.q.free) < |s.q.free| {
      NothingIn(s.consumers, Node(id));
      assert Node(id) in s.alive && Places(s, Node(id)) == 1;
      FindOwner(s.q.free, id);
    }
  }

  /** With an active consumer, somebody has something to do about the oldest ready frame. */
  lemma FirstIsServed(s: State)
    requires Inv(s) && s.q.active != {}
    ensures s.q.ready != [] ==>
      s.q.ready[0].holders != {} || exists c :: c in s.q.active && Find(AwaitedBy(c), s.q.ready) == 0
  {
    if s.q.ready != [] && s.q.ready[0].holders == {} {
      var e := s.q.ready[0];
      assert ReadyOk(e, s.q.active, s.completed);
      var c :| c in e.Awaited();
      assert Matches(AwaitedBy(c), e) && c in s.q.active;
    }
  }

  lemma {:induction false} NothingIn(ws: seq<Consumer>, t: Token)
    requires forall c :: 0 <= c < |ws| ==> ws[c] == Out
    ensures CountCarried(ws, t) == 0
  {
    if ws != [] {
      NothingIn(ws[1..], t);
    }
  }

  lemma {:induction false} FindOwner(es: seq<Entry>, id: nat)
    requires Count(es, Node(id)) > 0
    ensures Find(WithId(id), es) < |es|
  {
    if es[0].id != id {
      FindOwner(es[1..], id);
    }
  }

  /** The pool itself never changes: no step makes or destroys a node. */
  lemma {:induction false} NodesStay(s: State, actions: seq<Action>, t: State)
    requires Inv(s) && Runs(s, actions, t)
    ensures forall id :: Node(id) in s.alive <==> Node(id) in t.alive
    decreases |actions|
  {
    if actions != [] {
      NextKeeps(s, actions[0]);
      var r := Next(s, actions[0]);
      assert forall id :: Node(id) in s.alive <==> Node(id) in r.alive;
      NodesStay(r, actions[1..], t);
    }
  }
}
