/** What malloc, cancel, complete and clear_all do, in every run and with other threads between their sections. */
module QueueMalloc {
  import opened Common
  import opened QueueModel
  import opened QueueProtocol
  import opened QueueInvariant
  import opened QueueSteps
  import opened QueueClaim
  import opened QueueHand

  // ---------- Malloc ----------

  /** Malloc occupies free node `i`. */
  predicate Occupies(s: State, i: nat, r: State) {
    && i < |s.q.free| && !s.q.free[i].inUse && (forall j :: 0 <= j < i ==> s.q.free[j].inUse)
    && r == s.(q := s.q.(free := s.q.free[i := s.q.free[i].(inUse := true)]), producer := Claimed(s.q.free[i].id))
  }

  /** Malloc takes ready node `j`, which nobody holds and which was completed before all others that nobody holds. */
  predicate TakesOldest(s: State, j: nat, r: State) {
    && j < |s.q.ready| && s.q.ready[j].holders == {}
    && (forall k :: 0 <= k < |s.q.ready| && s.q.ready[k].holders == {} ==> s.q.ready[j].stamp <= s.q.ready[k].stamp)
    && r == s.(q := s.q.(free := [s.q.ready[j].(inUse := true)] + s.q.free, ready := Without(s.q.ready, j)),
               producer := Claimed(s.q.ready[j].id))
  }

  /**
   Main result: in every run malloc claims the first free node that the producer does not occupy; when there is none,
   for MJPEG and YUV, the oldest ready node that nobody holds; and when there is none either, nothing.
   */
  lemma {:induction false} MallocClaimsExactly(format: Format, ids: seq<nat>, before: seq<Action>, s: State)
    requires Different(ids) && Runs(Init(format, ids), before, s) && Enabled(s, MallocClaim)
    ensures |s.consumers| == |s.since| == |s.got| == MAX_CONSUMERS
    ensures var r := Next(s, MallocClaim);
      if exists e :: e in s.q.free && !e.inUse then exists i :: Occupies(s, i, r)
      else if s.format != Format.H264 && exists e :: e in s.q.ready && e.holders == {}
      then exists j :: TakesOldest(s, j, r)
      else r == s
  {
    InvariantAlways(format, ids, before, s);
    UnoccupiedFirst(s.q.free);
    UnheldFirst(s);
    hide Inv;
    var r := Next(s, MallocClaim);
    var i, j := Find(AnySlot, s.q.free), Find(AnyUnheld, s.q.ready);
    if i < |s.q.free| {
      assert Occupies(s, i, r);
    } else if j < |s.q.ready| && s.format != Format.H264 {
      assert TakesOldest(s, j, r);
    }
  }

  lemma UnoccupiedFirst(es: seq<Entry>)
    ensures var i := Find(AnySlot, es);
      && ((exists e :: e in es && !e.inUse) <==> i < |es|)
      && (i < |es| ==> !es[i].inUse) && forall j :: 0 <= j < i ==> es[j].inUse
  {
    var i := Find(AnySlot, es);
    assert forall j :: 0 <= j < |es| ==> (Matches(AnySlot, es[j]) <==> !es[j].inUse);
    assert i < |es| ==> es[i] in es;
  }

  lemma UnheldFirst(s: State)
    requires Inv(s)
    ensures var es := s.q.ready; var j := Find(AnyUnheld, es);
      && ((exists e :: e in es && e.holders == {}) <==> j < |es|)
      && (j < |es| ==> es[j].holders == {})
      && forall k :: 0 <= k < |es| && es[k].holders == {} ==> es[j].stamp <= es[k].stamp
  {
    var es := s.q.ready;
    var j := Find(AnyUnheld, es);
    assert forall k :: 0 <= k < |es| ==> (Matches(AnyUnheld, es[k]) <==> es[k].holders == {});
    assert j < |es| ==> es[j] in es;
  }

  /** The producer's thread is at work on free node `i`. */
  predicate WorksOn(s: State, i: nat) {
    && i < |s.q.free|
    && (s.producer == Claimed(s.q.free[i].id) || s.producer == Filled(s.q.free[i].id)
        || s.producer == Cancelling(s.q.free[i].id))
  }

  /** While it is, the steps of the other threads leave the free list's nodes alone. */
  lemma {:induction false} OthersLeave(s: State, actions: seq<Action>, t: State)
    requires Inv(s) && Runs(s, actions, t) && !s.producer.Idle?
    requires forall k :: 0 <= k < |actions| ==> !OnFreeList(actions[k]) && !actions[k].Post?
    ensures Inv(t) && t.producer == s.producer && s.q.free <= t.q.free
    decreases |actions|
  {
    if actions != [] {
      NextKeeps(s, actions[0]);
      OthersAppend(s, actions[0]);
      ProducerWaits(s, actions[0]);
      OthersLeave(Next(s, actions[0]), actions[1..], t);
    }
  }

  lemma ProducerWaits(s: State, a: Action)
    requires Inv(s) && Enabled(s, a) && !OnFreeList(a) && !a.Post?
    ensures Next(s, a).producer == s.producer
  {
  }

  /** The end of malloc: the buffer of node `i` is in the producer's hand. */
  predicate HandsOut(s: State, i: nat, buffer: nat, alive: set<Token>, r: State)
    requires i < |s.q.free|
  {
    var e := s.q.free[i].(frame := Some(buffer), refs := 0, accessed := {});
    e.inUse && r == s.(q := s.q.(free := s.q.free[i := e]), producer := Filled(e.id), alive := alive)
  }

  /**
   Main result: whatever other threads do between malloc's claim and its end, the buffer it hands out is the one its
   node had when it was claimed; when it had none, the one that the allocator supplies, which is then allocated; and
   when there is neither malloc fails, and the node is on the free list unoccupied.
   */
  lemma {:induction false} MallocFillsExactly(
    format: Format, ids: seq<nat>, before: seq<Action>, s: State, between: seq<Action>, t: State, i: nat,
    supplied: Option<nat>)
    requires Different(ids) && Runs(Init(format, ids), before, s) && WorksOn(s, i) && s.producer.Claimed?
    requires Runs(s, between, t) && forall k :: 0 <= k < |between| ==> !OnFreeList(between[k])
    requires Enabled(t, MallocFill(supplied))
    ensures |t.consumers| == |t.since| == |t.got| == MAX_CONSUMERS && WorksOn(t, i) && t.q.free[i] == s.q.free[i]
    ensures var r := Next(t, MallocFill(supplied));
      match s.q.free[i].frame
      case Some(kept) => HandsOut(t, i, kept, t.alive, r)
      case None =>
        if supplied.Some? then HandsOut(t, i, supplied.value, t.alive + {Buffer(supplied.value)}, r)
        else r == t.(q := t.q.(free := t.q.free[i := t.q.free[i].(inUse := false)]), producer := Producer.Idle)
  {
    InitOk(format, ids);
    ClaimKeptRun(Init(format, ids), before, s);
    NoPosts(s, between, t);
    OthersLeave(s, between, t);
    ClaimKeptRun(s, between, t);
    assert t.q.free[i] == s.q.free[i];
    FirstWithId(t, i);
  }

  lemma FirstWithId(s: State, i: nat)
    requires Inv(s) && i < |s.q.free|
    ensures Find(WithId(s.q.free[i].id), s.q.free) == i
  {
    assert Matches(WithId(s.q.free[i].id), s.q.free[i]);
    var k := Find(WithId(s.q.free[i].id), s.q.free);
    if k != i {
      FreeIdsDiffer(s, k, i);
    }
  }

  /** Nothing is posted while malloc or cancel is at work. */
  lemma {:induction false} NoPosts(s: State, actions: seq<Action>, t: State)
    requires Inv(s) && Runs(s, actions, t) && (s.producer.Claimed? || s.producer.Cancelling?)
    requires forall k :: 0 <= k < |actions| ==> !OnFreeList(actions[k])
    ensures forall k :: 0 <= k < |actions| ==> !actions[k].Post?
    decreases |actions|
  {
    if actions != [] {
      NextKeeps(s, actions[0]);
      ProducerWaits(s, actions[0]);
      NoPosts(Next(s, actions[0]), actions[1..], t);
    }
  }

  /** The last section of malloc notes the consumers that are active then, in the node it has filled. */
  lemma {:induction false} MallocNotesActive(
    format: Format, ids: seq<nat>, before: seq<Action>, s: State, i: nat)
    requires Different(ids) && Runs(Init(format, ids), before, s) && WorksOn(s, i) && s.producer.Filled?
    ensures |s.consumers| == |s.since| == |s.got| == MAX_CONSUMERS
    ensures Next(s, MallocNote) ==
      s.(q := s.q.(free := s.q.free[i := s.q.free[i].(mask := s.q.active)]), producer := Producer.Idle)
  {
    InvariantAlways(format, ids, before, s);
    FirstWithId(s, i);
  }

  // ---------- Cancel ----------

  /** The producer occupies free node `i` with this buffer. */
  predicate OccupiedAt(s: State, i: nat, buffer: nat) {
    i < |s.q.free| && s.q.free[i].inUse && s.q.free[i].frame == Some(buffer)
  }

  lemma OccupiedFound(s: State, buffer: nat) returns (i: nat)
    requires Inv(s)
    ensures i == Find(Occupied(buffer), s.q.free)
    ensures if exists j :: OccupiedAt(s, j, buffer) then OccupiedAt(s, i, buffer) else i == |s.q.free|
    ensures forall j :: OccupiedAt(s, j, buffer) ==> j == i
  {
    i := Find(Occupied(buffer), s.q.free);
    forall j: nat | OccupiedAt(s, j, buffer) ensures j == i {
      assert Matches(Occupied(buffer), s.q.free[j]);
      if j != i {
        FreeBuffersDiffer(s, i, j);
      }
    }
    if i < |s.q.free| {
      assert OccupiedAt(s, i, buffer);
    }
  }

  /** Cancel of a buffer that the producer does not have changes nothing. */
  lemma CancelRefuses(format: Format, ids: seq<nat>, before: seq<Action>, s: State, buffer: nat)
    requires Different(ids) && Runs(Init(format, ids), before, s) && Enabled(s, CancelSection(buffer))
    ensures |s.consumers| == |s.since| == |s.got| == MAX_CONSUMERS
    ensures Next(s, CancelSection(buffer)) == s <==> !exists i :: OccupiedAt(s, i, buffer)
  {
    InvariantAlways(format, ids, before, s);
    var i := OccupiedFound(s, buffer);
  }

  /**
   Main result: after cancel of a buffer that the producer has, with any steps of other threads before its end, the
   buffer's node is on the free list, unoccupied and without buffer, the buffer is not allocated any more, nothing
   else has changed, and malloc can claim again.
   */
  lemma {:induction false} CancelUndoes(
    format: Format, ids: seq<nat>, before: seq<Action>, s: State, i: nat, buffer: nat, between: seq<Action>, t: State)
    requires Different(ids) && Runs(Init(format, ids), before, s) && OccupiedAt(s, i, buffer)
    requires Runs(s, [CancelSection(buffer)] + between, t)
    requires forall k :: 0 <= k < |between| ==> !OnFreeList(between[k])
    ensures |t.consumers| == |t.since| == |t.got| == MAX_CONSUMERS && Enabled(t, CancelFree)
    ensures var r := Next(t, CancelFree);
      && i < |t.q.free| == |r.q.free| && r.q.free[i] == s.q.free[i].(inUse := false, frame := None)
      && r == t.(q := t.q.(free := t.q.free[i := r.q.free[i]]), producer := Producer.Idle,
                 alive := t.alive - {Buffer(buffer)})
      && |r.consumers| == |r.since| == |r.got| == MAX_CONSUMERS && Next(r, MallocClaim).producer.Claimed?
  {
    InvariantAlways(format, ids, before, s);
    var m := Next(s, CancelSection(buffer));
    assert ([CancelSection(buffer)] + between)[1..] == between;
    CancelStarts(s, i, buffer);
    NoPosts(m, between, t);
    OthersLeave(m, between, t);
    assert t.q.free[i] == m.q.free[i];
    CancelEnds(t, i, buffer);
    Claimable(Next(t, CancelFree), i);
  }

  lemma CancelStarts(s: State, i: nat, buffer: nat)
    requires Inv(s) && Enabled(s, CancelSection(buffer)) && OccupiedAt(s, i, buffer)
    ensures var m := Next(s, CancelSection(buffer));
      && Inv(m) && m.producer == Cancelling(s.q.free[i].id) && i < |m.q.free|
      && m.q.free[i] == s.q.free[i].(inUse := false)
  {
    var j := OccupiedFound(s, buffer);
    NextKeeps(s, CancelSection(buffer));
  }

  lemma CancelEnds(t: State, i: nat, buffer: nat)
    requires Inv(t) && i < |t.q.free| && t.producer == Cancelling(t.q.free[i].id) && t.q.free[i].frame == Some(buffer)
    ensures Enabled(t, CancelFree)
    ensures Next(t, CancelFree) ==
      t.(q := t.q.(free := t.q.free[i := t.q.free[i].(frame := None)]), producer := Producer.Idle,
         alive := t.alive - {Buffer(buffer)})
  {
    FirstWithId(t, i);
  }

  lemma Claimable(s: State, i: nat)
    requires |s.consumers| == |s.since| == |s.got| == MAX_CONSUMERS && Enabled(s, MallocClaim)
    requires i < |s.q.free| && !s.q.free[i].inUse
    ensures Next(s, MallocClaim).producer.Claimed?
  {
    assert Matches(AnySlot, s.q.free[i]);
  }

  // ---------- Complete ----------

  /**
   Main result: complete of a buffer that the producer does not have changes nothing. One that it has becomes the
   newest ready frame, with everyone active at that moment to be served, and posts once for each of them, or once.
   */
  lemma {:induction false} CompleteExactly(
    format: Format, ids: seq<nat>, before: seq<Action>, s: State, buffer: nat)
    requires Different(ids) && Runs(Init(format, ids), before, s) && Enabled(s, Action.Complete(buffer))
    ensures |s.consumers| == |s.since| == |s.got| == MAX_CONSUMERS
    ensures (!exists i :: OccupiedAt(s, i, buffer)) ==> Next(s, Action.Complete(buffer)) == s
    ensures forall i :: OccupiedAt(s, i, buffer) ==> Publishes(s, i, buffer, Next(s, Action.Complete(buffer)))
  {
    InvariantAlways(format, ids, before, s);
    var i := OccupiedFound(s, buffer);
  }

  predicate Publishes(s: State, i: nat, buffer: nat, r: State)
    requires OccupiedAt(s, i, buffer)
  {
    var e := s.q.free[i];
    && r.q.free == Without(s.q.free, i) && r.q.active == s.q.active
    && r.q.ready == s.q.ready + [Entry(e.id, Some(buffer), 0, s.q.active, {}, false, |s.completed|, {})]
    && r.completed == s.completed + [buffer] && r.alive == s.alive
    && r.producer == Posting(if s.q.active == {} then 1 else |s.q.active|)
  }

  // ---------- Clear ----------

  /** The first section of clear_all leaves exactly the held frames ready, in order and untouched. */
  lemma {:induction false} ClearKeepsHeld(format: Format, ids: seq<nat>, before: seq<Action>, s: State)
    requires Different(ids) && Runs(Init(format, ids), before, s) && Enabled(s, Action.ClearReady)
    ensures |s.consumers| == |s.since| == |s.got| == MAX_CONSUMERS
    ensures var r := Next(s, Action.ClearReady);
      && (forall e :: e in r.q.ready <==> e in s.q.ready && e.holders != {}) && Sorted(r.q.ready)
      && s.q.free <= r.q.free && |r.q.free| + |r.q.ready| == |s.q.free| + |s.q.ready|
      && forall e :: e in s.q.ready && e.holders == {} ==>
           exists e' :: e' in r.q.free && e'.id == e.id && e'.frame == e.frame && !e'.inUse
  {
    InvariantAlways(format, ids, before, s);
    NextKeeps(s, Action.ClearReady);
    var es := s.q.ready;
    assert forall i :: 0 <= i < |es| ==> (Recycled(OnClear, es[i]) <==> es[i].holders == {});
    ClearedKept(es);
    ClearedMoved(es);
    hide Inv;
    forall e | e in es && e.holders == {}
      ensures exists e' :: e' in s.q.free + Moved(OnClear, es) && e'.id == e.id && e'.frame == e.frame && !e'.inUse
    {
      assert e.Reset() in Moved(OnClear, es);
    }
  }

  lemma {:induction false} ClearedKept(es: seq<Entry>)
    ensures forall e :: e in Kept(OnClear, es) <==> e in es && e.refs != 0
    ensures |Kept(OnClear, es)| + |Moved(OnClear, es)| == |es|
  {
    if es != [] {
      var init, last := es[..|es| - 1], es[|es| - 1];
      ClearedKept(init);
      assert es == init + [last];
    }
  }

  lemma {:induction false} ClearedMoved(es: seq<Entry>)
    ensures forall e :: e in es && e.refs == 0 ==> e.Reset() in Moved(OnClear, es)
  {
    if es != [] {
      var init, last := es[..|es| - 1], es[|es| - 1];
      ClearedMoved(init);
      assert es == init + [last];
    }
  }

  /**
   Main result: after the second section no node of the free list is occupied or has a buffer, and the only buffers
   still allocated are those of ready frames and those that a release is about to free.
   */
  lemma {:induction false} ClearFreesAll(format: Format, ids: seq<nat>, before: seq<Action>, s: State)
    requires Different(ids) && Runs(Init(format, ids), before, s) && Enabled(s, Action.ClearFree)
    ensures |s.consumers| == |s.since| == |s.got| == MAX_CONSUMERS
    ensures var r := Next(s, Action.ClearFree);
      && r.q.ready == s.q.ready && r.consumers == s.consumers && |r.q.free| == |s.q.free|
      && (forall i :: 0 <= i < |r.q.free| ==>
            r.q.free[i].id == s.q.free[i].id && !r.q.free[i].inUse && r.q.free[i].frame == None)
      && (forall b: nat :: Buffer(b) in r.alive <==>
            Count(s.q.ready, Buffer(b)) + CountCarried(s.consumers, Buffer(b)) == 1)
  {
    InvariantAlways(format, ids, before, s);
    NextKeeps(s, Action.ClearFree);
    var r := Next(s, Action.ClearFree);
    forall b: nat
      ensures Buffer(b) in r.alive <==> Count(s.q.ready, Buffer(b)) + CountCarried(s.consumers, Buffer(b)) == 1
    {
      CountStripped(s.q.free, Buffer(b));
      assert Places(r, Buffer(b)) == if Buffer(b) in r.alive then 1 else 0;
    }
  }
}
