/** The producer's side of the frame queue: a buffer that malloc has handed out stays claimed until it is given back. */
module QueueClaim {
  import opened Common
  import opened QueueModel
  import opened QueueProtocol
  import opened QueueInvariant
  import opened QueueSteps

  ghost predicate ClaimAt(s: State, j: nat, id: nat, buffer: nat) {
    j < |s.q.free| && s.q.free[j].id == id && s.q.free[j].inUse && s.q.free[j].frame == Some(buffer)
  }

  /** Node `id` is on the free list, claimed, with this buffer, and malloc or cancel is not at work on it. */
  ghost predicate InHand(s: State, id: nat, buffer: nat) {
    && (exists j: nat :: ClaimAt(s, j, id, buffer))
    && s.producer != Producer.Claimed(id) && s.producer != Cancelling(id)
  }

  /** These steps give a buffer back: complete or cancel it, or clear the free list. */
  predicate GivesBack(a: Action, buffer: nat) {
    a == Action.Complete(buffer) || a == CancelSection(buffer) || a == Action.ClearFree
  }

  // ---------- Nodes have different ids ----------

  lemma FreeIdsDiffer(s: State, i: nat, j: nat)
    requires Inv(s) && i < |s.q.free| && j < |s.q.free| && i != j
    ensures s.q.free[i].id != s.q.free[j].id
  {
    var t := Node(s.q.free[i].id);
    assert Places(s, t) <= 1;
    if s.q.free[i].id == s.q.free[j].id {
      CountTwice(s.q.free, if i < j then i else j, if i < j then j else i, t);
    }
  }

  lemma ReadyIdsDiffer(s: State, i: nat, j: nat)
    requires Inv(s) && i < |s.q.ready| && j < |s.q.free|
    ensures s.q.ready[i].id != s.q.free[j].id
  {
    var t := Node(s.q.ready[i].id);
    assert Places(s, t) <= 1;
    CountIn(s.q.ready, i, t);
    CountIn(s.q.free, j, t);
  }

  lemma FreeBuffersDiffer(s: State, i: nat, j: nat)
    requires Inv(s) && i < |s.q.free| && j < |s.q.free| && i != j && s.q.free[j].frame.Some?
    ensures s.q.free[i].frame != s.q.free[j].frame
  {
    var t := Buffer(s.q.free[j].frame.value);
    assert Places(s, t) <= 1;
    if s.q.free[i].frame == s.q.free[j].frame {
      CountTwice(s.q.free, if i < j then i else j, if i < j then j else i, t);
    }
  }

  // ---------- Steps ----------

  /** Where a claimed node is after a step that does not give its buffer back. */
  lemma ClaimMoves(s: State, a: Action, j: nat, id: nat, buffer: nat) returns (j': nat)
    requires Inv(s) && Enabled(s, a) && InHand(s, id, buffer) && ClaimAt(s, j, id, buffer) && !GivesBack(a, buffer)
    ensures ClaimAt(Next(s, a), j', id, buffer)
  {
    hide ClaimAt, Inv, Enabled, Next;
    if a.MallocClaim? {
      j' := ClaimThroughClaim(s, j, id, buffer);
    } else if a.Complete? {
      j' := ClaimThroughComplete(s, a.buffer, j, id, buffer);
    } else {
      ClaimStays(s, a, j, id, buffer);
      j' := j;
    }
  }

  lemma ClaimThroughComplete(s: State, other: nat, j: nat, id: nat, buffer: nat) returns (j': nat)
    requires Inv(s) && Enabled(s, Action.Complete(other)) && ClaimAt(s, j, id, buffer) && other != buffer
    ensures ClaimAt(Next(s, Action.Complete(other)), j', id, buffer)
  {
    j' := if Find(Occupied(other), s.q.free) < j then j - 1 else j;
  }

  lemma ClaimStays(s: State, a: Action, j: nat, id: nat, buffer: nat)
    requires Inv(s) && Enabled(s, a) && InHand(s, id, buffer) && ClaimAt(s, j, id, buffer) && !GivesBack(a, buffer)
    requires !a.MallocClaim? && !a.Complete?
    ensures ClaimAt(Next(s, a), j, id, buffer)
  {
  }

  lemma ClaimThroughClaim(s: State, j: nat, id: nat, buffer: nat) returns (j': nat)
    requires Inv(s) && Enabled(s, MallocClaim) && ClaimAt(s, j, id, buffer)
    ensures ClaimAt(Next(s, MallocClaim), j', id, buffer)
  {
    var i := Find(AnySlot, s.q.free);
    j' := if i == |s.q.free| && Next(s, MallocClaim).q.free != s.q.free then j + 1 else j;
  }

  /** Neither malloc nor cancel starts to work on it. */
  lemma ProducerElsewhere(s: State, a: Action, j: nat, id: nat, buffer: nat)
    requires Inv(s) && Enabled(s, a) && InHand(s, id, buffer) && ClaimAt(s, j, id, buffer) && !GivesBack(a, buffer)
    ensures var p := Next(s, a).producer; p != Producer.Claimed(id) && p != Cancelling(id)
  {
    if a.MallocClaim? {
      var i, k := Find(AnySlot, s.q.free), Find(AnyUnheld, s.q.ready);
      if i < |s.q.free| {
        FreeIdsDiffer(s, i, j);
      } else if k < |s.q.ready| {
        ReadyIdsDiffer(s, k, j);
      }
    } else if a.CancelSection? {
      var i := Find(Occupied(a.buffer), s.q.free);
      if i < |s.q.free| {
        FreeIdsDiffer(s, i, j);
      }
    }
  }

  lemma InHandNext(s: State, a: Action, id: nat, buffer: nat)
    requires Inv(s) && Enabled(s, a) && InHand(s, id, buffer) && !GivesBack(a, buffer)
    ensures InHand(Next(s, a), id, buffer)
  {
    var j: nat :| ClaimAt(s, j, id, buffer);
    var j' := ClaimMoves(s, a, j, id, buffer);
    ProducerElsewhere(s, a, j, id, buffer);
  }

  // ---------- Malloc ----------

  /** The node that malloc has claimed in its first section is claimed until it returns. */
  ghost predicate ClaimKept(s: State) {
    s.producer.Claimed? ==>
      var i := Find(WithId(s.producer.id), s.q.free); i < |s.q.free| && s.q.free[i].inUse
  }

  lemma ClaimKeptNext(s: State, a: Action)
    requires Inv(s) && Enabled(s, a) && ClaimKept(s)
    ensures ClaimKept(Next(s, a))
  {
    var r := Next(s, a);
    if a.MallocClaim? {
      ClaimedFirst(s);
    } else if r.producer.Claimed? {
      assert r.producer == s.producer && s.q.free <= r.q.free;
      assert r.q.free == s.q.free + r.q.free[|s.q.free|..];
      FindAppended(WithId(s.producer.id), s.q.free, r.q.free[|s.q.free|..]);
    }
  }

  lemma ClaimedFirst(s: State)
    requires Inv(s) && Enabled(s, MallocClaim)
    ensures ClaimKept(Next(s, MallocClaim))
  {
    var r := Next(s, MallocClaim);
    var i := Find(AnySlot, s.q.free);
    if i < |s.q.free| {
      FindSameIds(s.q.free[i].id, s.q.free, r.q.free);
      assert Matches(WithId(s.q.free[i].id), s.q.free[i]);
      var k := Find(WithId(s.q.free[i].id), s.q.free);
      if k != i {
        FreeIdsDiffer(s, k, i);
      }
    }
  }

  lemma {:induction false} ClaimKeptRun(s: State, actions: seq<Action>, t: State)
    requires Inv(s) && ClaimKept(s) && Runs(s, actions, t)
    ensures Inv(t) && ClaimKept(t)
    decreases |actions|
  {
    if actions != [] {
      NextKeeps(s, actions[0]);
      ClaimKeptNext(s, actions[0]);
      ClaimKeptRun(Next(s, actions[0]), actions[1..], t);
    }
  }

  // ---------- Main results ----------

  /** In every run, when malloc gets a buffer or its node has one, the buffer it returns is in the producer's hand. */
  lemma {:induction false} MallocHandsOut(
    format: Format, ids: seq<nat>, before: seq<Action>, s: State, supplied: Option<nat>)
    requires Different(ids) && Runs(Init(format, ids), before, s) && Enabled(s, MallocFill(supplied))
    ensures |s.consumers| == |s.since| == |s.got| == MAX_CONSUMERS
    ensures var frame := Fill(s.q, s.producer.id, supplied).1;
      frame.Some? ==> InHand(Next(s, MallocFill(supplied)), s.producer.id, frame.value)
  {
    InitOk(format, ids);
    ClaimKeptRun(Init(format, ids), before, s);
    var i := Find(WithId(s.producer.id), s.q.free);
    var frame := Fill(s.q, s.producer.id, supplied).1;
    if frame.Some? {
      assert ClaimAt(Next(s, MallocFill(supplied)), i, s.producer.id, frame.value);
    }
  }

  /**
   Main result: until it is completed or cancelled or the queue is cleared, a buffer in the producer's hand stays
   allocated and claimed in its node, whatever the other threads do and however often malloc is called again.
   */
  lemma {:induction false} ClaimIsStable(s: State, actions: seq<Action>, t: State, id: nat, buffer: nat)
    requires Inv(s) && Runs(s, actions, t) && InHand(s, id, buffer)
    requires forall i :: 0 <= i < |actions| ==> !GivesBack(actions[i], buffer)
    ensures Inv(t) && InHand(t, id, buffer)
    decreases |actions|
  {
    if actions != [] {
      NextKeeps(s, actions[0]);
      InHandNext(s, actions[0], id, buffer);
      ClaimIsStable(Next(s, actions[0]), actions[1..], t, id, buffer);
    }
  }

  /** So complete and cancel find that node, and the buffer is live. */
  lemma {:induction false} ClaimIsFound(s: State, id: nat, buffer: nat)
    requires Inv(s) && InHand(s, id, buffer)
    ensures Buffer(buffer) in s.alive
    ensures var i := Find(Occupied(buffer), s.q.free); i < |s.q.free| && s.q.free[i].id == id
    ensures QueueModel.Complete(s.q, buffer, |s.completed|).1 && Disclaim(s.q, buffer).1 == Some(id)
  {
    var j: nat :| ClaimAt(s, j, id, buffer);
    CountIn(s.q.free, j, Buffer(buffer));
    assert Places(s, Buffer(buffer)) > 0;
    assert Matches(Occupied(buffer), s.q.free[j]);
    var i := Find(Occupied(buffer), s.q.free);
    if i != j {
      FreeBuffersDiffer(s, i, j);
    }
  }
}
