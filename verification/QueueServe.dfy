/** What get_frame and release_frame do, in every run and with other threads between the sections of a release. */
module QueueServe {
  import opened Common
  import opened QueueModel
  import opened QueueProtocol
  import opened QueueInvariant
  import opened QueueSteps
  import opened QueueHand

  // ---------- Get ----------

  predicate AwaitedAt(s: State, i: nat, c: nat) {
    i < |s.q.ready| && c in s.q.ready[i].Awaited()
  }

  /** Ready frame `i` is the oldest that waits for `c`, and `c` gets it. */
  ghost predicate GetsOldest(s: State, i: nat, c: nat, r: State)
    requires c < |s.consumers| && c < |s.got|
  {
    && AwaitedAt(s, i, c) && (forall k: nat :: AwaitedAt(s, k, c) ==> s.q.ready[i].stamp <= s.q.ready[k].stamp)
    && var e := s.q.ready[i];
    r == s.(q := s.q.(ready := s.q.ready[i := e.(refs := e.refs + 1, accessed := e.accessed + {c},
                                                 holders := e.holders + {c})]),
            consumers := s.consumers[c := Out], got := s.got[c := s.got[c] + [e.stamp]])
  }

  /**
   Main result: in every run a search gives the consumer the oldest ready frame that waits for it, and when there is
   none it goes to wait; for a consumer that is not registered there is none.
   */
  lemma {:induction false} GetsExactly(format: Format, ids: seq<nat>, before: seq<Action>, s: State, c: nat)
    requires Different(ids) && Runs(Init(format, ids), before, s) && Enabled(s, GetSearch(c))
    ensures |s.consumers| == |s.since| == |s.got| == MAX_CONSUMERS
    ensures if exists i :: AwaitedAt(s, i, c) then exists i :: GetsOldest(s, i, c, Next(s, GetSearch(c)))
            else Next(s, GetSearch(c)) == s.(consumers := s.consumers[c := Waiting])
    ensures c !in s.q.active ==> !exists i :: AwaitedAt(s, i, c)
  {
    InvariantAlways(format, ids, before, s);
    var i := AwaitedFirst(s, c);
    hide Inv, Find;
    if i < |s.q.ready| {
      assert GetsOldest(s, i, c, Next(s, GetSearch(c)));
    }
  }

  /** The search finds the oldest ready frame that waits for the consumer. */
  lemma AwaitedFirst(s: State, c: nat) returns (i: nat)
    requires Inv(s)
    ensures i == Find(AwaitedBy(c), s.q.ready)
    ensures if exists k: nat :: AwaitedAt(s, k, c) then AwaitedAt(s, i, c) else i == |s.q.ready|
    ensures i < |s.q.ready| ==> AwaitedAt(s, i, c)
    ensures forall k: nat :: AwaitedAt(s, k, c) ==> i <= k && s.q.ready[i].stamp <= s.q.ready[k].stamp
    ensures c !in s.q.active ==> i == |s.q.ready|
  {
    i := Find(AwaitedBy(c), s.q.ready);
    assert i < |s.q.ready| ==> AwaitedAt(s, i, c) && ReadyOk(s.q.ready[i], s.q.active, s.completed);
    forall k: nat | AwaitedAt(s, k, c) ensures i <= k && s.q.ready[i].stamp <= s.q.ready[k].stamp {
      assert Matches(AwaitedBy(c), s.q.ready[k]);
    }
  }

  // ---------- Release ----------

  /** Ready frame `i` is in `buffer` and held by `c`. */
  predicate HoldsAt(s: State, i: nat, c: nat, buffer: nat) {
    i < |s.q.ready| && s.q.ready[i].frame == Some(buffer) && c in s.q.ready[i].holders
  }

  /** The node without `c` among its holders. */
  function LetGo(e: Entry, c: nat): Entry {
    e.(refs := |e.holders - {c}|, holders := e.holders - {c})
  }

  /**
   Main result: the section of a release takes exactly the consumer's own reference off the frame it holds, and unlinks
   the node if and only if then nobody holds it and nobody it was addressed to has still to get it.
   */
  lemma {:induction false} ReleasesExactly(
    format: Format, ids: seq<nat>, before: seq<Action>, s: State, i: nat, c: nat, buffer: nat)
    requires Different(ids) && Runs(Init(format, ids), before, s) && HoldsAt(s, i, c, buffer)
    requires Enabled(s, ReleaseSection(c, buffer))
    ensures |s.consumers| == |s.since| == |s.got| == MAX_CONSUMERS
    ensures var e := LetGo(s.q.ready[i], c);
      Next(s, ReleaseSection(c, buffer)) ==
      if e.holders == {} && e.Awaited() == {}
      then s.(q := s.q.(ready := Without(s.q.ready, i)), consumers := s.consumers[c := Unlinked(e)])
      else s.(q := s.q.(ready := s.q.ready[i := e]))
  {
    InvariantAlways(format, ids, before, s);
    HeldFirst(s, i, c, buffer);
    LastReference(s, i, c, buffer);
    hide Inv, Find;
  }

  lemma LastReference(s: State, i: nat, c: nat, buffer: nat)
    requires Inv(s) && HoldsAt(s, i, c, buffer)
    ensures var e := s.q.ready[i];
      && e.refs > 0 && |e.holders - {c}| == e.refs - 1 && (e.refs == 1 <==> e.holders - {c} == {})
      && (e.mask <= e.accessed <==> LetGo(e, c).Awaited() == {})
  {
    var e := s.q.ready[i];
    assert ReadyOk(e, s.q.active, s.completed);
    assert e.holders == (e.holders - {c}) + {c};
    assert e.holders - {c} == {} <==> |e.holders - {c}| == 0;
  }

  lemma HeldFirst(s: State, i: nat, c: nat, buffer: nat)
    requires Inv(s) && HoldsAt(s, i, c, buffer)
    ensures Find(WithFrame(buffer), s.q.ready) == i
  {
    assert Matches(WithFrame(buffer), s.q.ready[i]);
    var k := Find(WithFrame(buffer), s.q.ready);
    if k < i {
      OnePlace(s, k, i, buffer);
    }
  }

  /** While a consumer's thread is at the end of a release, the steps of the others leave the node it carries alone. */
  lemma {:induction false} CarriedStays(s: State, actions: seq<Action>, t: State, c: nat)
    requires Inv(s) && Runs(s, actions, t) && c < MAX_CONSUMERS && (s.consumers[c].Unlinked? || s.consumers[c].Freed?)
    requires forall k :: 0 <= k < |actions| ==>
      actions[k] != if s.consumers[c].Unlinked? then ReleaseFree(c) else ReleaseReturn(c)
    ensures Inv(t) && t.consumers[c] == s.consumers[c]
    decreases |actions|
  {
    if actions != [] {
      NextKeeps(s, actions[0]);
      CarriedNext(s, actions[0], c);
      CarriedStays(Next(s, actions[0]), actions[1..], t, c);
    }
  }

  lemma CarriedNext(s: State, a: Action, c: nat)
    requires Inv(s) && Enabled(s, a) && c < MAX_CONSUMERS && (s.consumers[c].Unlinked? || s.consumers[c].Freed?)
    requires a != if s.consumers[c].Unlinked? then ReleaseFree(c) else ReleaseReturn(c)
    ensures Next(s, a).consumers[c] == s.consumers[c]
  {
  }

  /** The thread of `c` frees this buffer, and nothing else changes. */
  predicate FreesBuffer(s: State, c: nat, buffer: nat, r: State) {
    && |s.consumers| == |r.consumers| == MAX_CONSUMERS && c < MAX_CONSUMERS
    && r == s.(alive := s.alive - {Buffer(buffer)}, consumers := s.consumers[c := r.consumers[c]])
  }

  /** The thread of `c` appends the node to the free list, blank and without buffer, and nothing else changes. */
  predicate ReturnsNode(s: State, c: nat, id: nat, r: State) {
    var n := |s.q.free|;
    && |s.consumers| == MAX_CONSUMERS && c < MAX_CONSUMERS && |r.q.free| == n + 1
    && Blank(r.q.free[n]) && r.q.free[n].frame == None && r.q.free[n].id == id
    && r == s.(q := s.q.(free := s.q.free + [r.q.free[n]]), consumers := s.consumers[c := Out])
  }

  /**
   Main result: the rest of a release that has unlinked its node, with any steps of other threads between its sections,
   frees the buffer and appends the node, blank and without buffer, to the free list.
   */
  lemma {:induction false} ReleaseEnds(
    format: Format, ids: seq<nat>, before: seq<Action>, s: State, i: nat, c: nat, buffer: nat,
    between: seq<Action>, t: State, later: seq<Action>, u: State)
    requires Different(ids) && Runs(Init(format, ids), before, s) && HoldsAt(s, i, c, buffer)
    requires var e := LetGo(s.q.ready[i], c); e.holders == {} && e.Awaited() == {}
    requires Runs(s, [ReleaseSection(c, buffer)] + between, t)
    requires Runs(t, [ReleaseFree(c)] + later, u)
    requires forall k :: 0 <= k < |between| ==> between[k] != ReleaseFree(c)
    requires forall k :: 0 <= k < |later| ==> later[k] != ReleaseReturn(c)
    ensures |t.consumers| == |t.since| == |t.got| == MAX_CONSUMERS && Enabled(t, ReleaseFree(c))
    ensures FreesBuffer(t, c, buffer, Next(t, ReleaseFree(c)))
    ensures |u.consumers| == |u.since| == |u.got| == MAX_CONSUMERS && Enabled(u, ReleaseReturn(c))
    ensures ReturnsNode(u, c, s.q.ready[i].id, Next(u, ReleaseReturn(c)))
  {
    RunsTail(s, ReleaseSection(c, buffer), between, t);
    RunsTail(t, ReleaseFree(c), later, u);
    ReleasesExactly(format, ids, before, s, i, c, buffer);
    InvariantAlways(format, ids, before, s);
    Unlinks(s, i, c, buffer);
    hide Inv, Next, Runs, HoldsAt, Enabled, FreesBuffer, ReturnsNode;
    var e := FreesCarried(Next(s, ReleaseSection(c, buffer)), between, t, c, buffer);
    ReturnsCarried(Next(t, ReleaseFree(c)), later, u, c);
  }

  lemma RunsTail(s: State, a: Action, rest: seq<Action>, t: State)
    requires Runs(s, [a] + rest, t)
    ensures |s.consumers| == |s.since| == |s.got| == MAX_CONSUMERS && Enabled(s, a) && Runs(Next(s, a), rest, t)
  {
    assert ([a] + rest)[1..] == rest;
  }

  lemma Unlinks(s: State, i: nat, c: nat, buffer: nat)
    requires Inv(s) && Enabled(s, ReleaseSection(c, buffer)) && HoldsAt(s, i, c, buffer)
    requires var e := LetGo(s.q.ready[i], c);
      Next(s, ReleaseSection(c, buffer)) ==
      s.(q := s.q.(ready := Without(s.q.ready, i)), consumers := s.consumers[c := Unlinked(e)])
    ensures var m := Next(s, ReleaseSection(c, buffer));
      && Inv(m) && c < MAX_CONSUMERS == |m.consumers| && m.consumers[c].Unlinked?
      && m.consumers[c].node.frame == Some(buffer) && m.consumers[c].node.id == s.q.ready[i].id
  {
    NextKeeps(s, ReleaseSection(c, buffer));
  }

  lemma {:induction false} FreesCarried(s: State, actions: seq<Action>, t: State, c: nat, buffer: nat)
      returns (e: Entry)
    requires Inv(s) && c < MAX_CONSUMERS == |s.consumers| && s.consumers[c].Unlinked?
    requires s.consumers[c].node.frame == Some(buffer)
    requires Runs(s, actions, t) && forall k :: 0 <= k < |actions| ==> actions[k] != ReleaseFree(c)
    ensures |t.consumers| == |t.since| == |t.got| == MAX_CONSUMERS && Enabled(t, ReleaseFree(c))
    ensures e.id == s.consumers[c].node.id && FreesBuffer(t, c, buffer, Next(t, ReleaseFree(c)))
    ensures Inv(Next(t, ReleaseFree(c))) && Next(t, ReleaseFree(c)).consumers[c] == Freed(e)
  {
    CarriedStays(s, actions, t, c);
    NextKeeps(t, ReleaseFree(c));
    e := s.consumers[c].node.(frame := None);
  }

  lemma {:induction false} ReturnsCarried(s: State, actions: seq<Action>, t: State, c: nat)
    requires Inv(s) && c < MAX_CONSUMERS == |s.consumers| && s.consumers[c].Freed?
    requires Runs(s, actions, t) && forall k :: 0 <= k < |actions| ==> actions[k] != ReleaseReturn(c)
    ensures |t.consumers| == |t.since| == |t.got| == MAX_CONSUMERS && Enabled(t, ReleaseReturn(c))
    ensures ReturnsNode(t, c, s.consumers[c].node.id, Next(t, ReleaseReturn(c)))
  {
    CarriedStays(s, actions, t, c);
  }
}
