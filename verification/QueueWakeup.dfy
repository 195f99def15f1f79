/**
 Wakeups of get_frame. The semaphore is posted once per active consumer, but any consumer may take a post: no wakeup
 is lost exactly when at most one consumer calls get_frame.
 */
module QueueWakeup {
  import opened Common
  import opened QueueModel
  import opened QueueProtocol
  import opened QueueInvariant
  import opened QueueSteps
  import opened QueueDrain

  /** `c` has searched, found nothing and is about to wait or waiting, although a frame is ready for it. */
  predicate Asleep(s: State, c: nat) {
    c < |s.consumers| && s.consumers[c] == Waiting && Find(AwaitedBy(c), s.q.ready) < |s.q.ready|
  }

  /** A sleeping consumer will be woken: the semaphore is positive or complete still has posts to make. */
  predicate WakeupsKept(s: State) {
    forall c :: 0 <= c < MAX_CONSUMERS && Asleep(s, c) ==> s.semaphore > 0 || s.producer.Posting?
  }

  /** Only these consumers call get_frame. */
  predicate GettersIn(actions: seq<Action>, getters: set<nat>) {
    forall i :: 0 <= i < |actions| ==> actions[i].GetEnter? ==> actions[i].c in getters
  }

  // ---------- One consumer ----------

  predicate OthersOut(s: State, getters: set<nat>) {
    forall c :: 0 <= c < |s.consumers| && c !in getters ==> s.consumers[c] != Searching && s.consumers[c] != Waiting
  }

  /** A step other than complete makes no frame newly eligible for anyone. */
  lemma NoNewFrames(s: State, a: Action, c: nat)
    requires Inv(s) && Enabled(s, a) && !a.Complete?
    requires Find(AwaitedBy(c), s.q.ready) == |s.q.ready|
    ensures Find(AwaitedBy(c), Next(s, a).q.ready) == |Next(s, a).q.ready|
  {
    var r := Next(s, a);
    forall j | 0 <= j < |r.q.ready| ensures !Matches(AwaitedBy(c), r.q.ready[j]) {
      var i := Origin(s, a, j);
      assert !Matches(AwaitedBy(c), s.q.ready[i]);
      assert c !in r.q.ready[j].Awaited();
    }
  }

  /** Every ready node was ready before a step that completes nothing, and is awaited by no more consumers. */
  lemma Origin(s: State, a: Action, j: nat) returns (i: nat)
    requires Inv(s) && Enabled(s, a) && !a.Complete? && j < |Next(s, a).q.ready|
    ensures i < |s.q.ready| && Next(s, a).q.ready[j].Awaited() <= s.q.ready[i].Awaited()
  {
    if a.Register? {
      i := KeptFrom(OnRegister, s.q.ready, j);
    } else if a.Unregister? {
      i := KeptFrom(OnUnregister(a.c), s.q.ready, j);
    } else if a.ClearReady? {
      i := KeptFrom(OnClear, s.q.ready, j);
    } else if a.MallocClaim? {
      i := OriginClaim(s, j);
    } else if a.ReleaseSection? {
      i := OriginRelease(s, a.c, a.buffer, j);
    } else {
      i := j;
    }
  }

  lemma OriginClaim(s: State, j: nat) returns (i: nat)
    requires Inv(s) && Enabled(s, MallocClaim) && j < |Next(s, MallocClaim).q.ready|
    ensures i < |s.q.ready| && Next(s, MallocClaim).q.ready[j].Awaited() <= s.q.ready[i].Awaited()
  {
    var k := Find(AnyUnheld, s.q.ready);
    i := if Next(s, MallocClaim).q.ready == s.q.ready || j < k then j else j + 1;
  }

  lemma OriginRelease(s: State, c: nat, b: nat, j: nat) returns (i: nat)
    requires Inv(s) && Enabled(s, ReleaseSection(c, b)) && j < |Next(s, ReleaseSection(c, b)).q.ready|
    ensures i < |s.q.ready| && Next(s, ReleaseSection(c, b)).q.ready[j].Awaited() <= s.q.ready[i].Awaited()
  {
    var k := Find(WithFrame(b), s.q.ready);
    i := if |Next(s, ReleaseSection(c, b)).q.ready| == |s.q.ready| || j < k then j else j + 1;
  }

  lemma WakeupsNext(s: State, a: Action, getters: set<nat>)
    requires Inv(s) && Enabled(s, a) && WakeupsKept(s) && OthersOut(s, getters)
    requires forall b, c :: b in getters && c in getters ==> b == c
    requires a.GetEnter? ==> a.c in getters
    ensures WakeupsKept(Next(s, a)) && OthersOut(Next(s, a), getters)
  {
    OthersStayOut(s, a, getters);
    var r := Next(s, a);
    hide Inv, Enabled, Next, OthersOut, Asleep;
    forall c | 0 <= c < MAX_CONSUMERS && Asleep(r, c) ensures r.semaphore > 0 || r.producer.Posting? {
      WakeupNext(s, a, getters, c);
    }
  }

  lemma OthersStayOut(s: State, a: Action, getters: set<nat>)
    requires Inv(s) && Enabled(s, a) && OthersOut(s, getters) && (a.GetEnter? ==> a.c in getters)
    ensures OthersOut(Next(s, a), getters)
  {
  }

  lemma WakeupNext(s: State, a: Action, getters: set<nat>, c: nat)
    requires Inv(s) && Enabled(s, a) && WakeupsKept(s) && OthersOut(s, getters)
    requires forall b, c :: b in getters && c in getters ==> b == c
    requires (a.GetEnter? ==> a.c in getters) && c < MAX_CONSUMERS && Asleep(Next(s, a), c)
    ensures Next(s, a).semaphore > 0 || Next(s, a).producer.Posting?
  {
    if a.Complete? {
      CompletePosts(s, a.buffer, c);
    } else {
      OthersStayOut(s, a, getters);
      assert c in getters;
      if !Asleep(s, c) && s.consumers[c] == Waiting {
        NoNewFrames(s, a, c);
      } else if Asleep(s, c) {
        StillPosted(s, a, getters, c);
      }
    }
  }

  /** Nobody else takes the post that a sleeping consumer waits for. */
  lemma StillPosted(s: State, a: Action, getters: set<nat>, c: nat)
    requires Inv(s) && Enabled(s, a) && WakeupsKept(s) && OthersOut(s, getters) && !a.Complete?
    requires forall b, c :: b in getters && c in getters ==> b == c
    requires c < MAX_CONSUMERS && c in getters && Asleep(s, c) && Asleep(Next(s, a), c)
    ensures Next(s, a).semaphore > 0 || Next(s, a).producer.Posting?
  {
    assert s.semaphore > 0 || s.producer.Posting?;
  }

  lemma CompletePosts(s: State, buffer: nat, c: nat)
    requires Inv(s) && Enabled(s, Action.Complete(buffer)) && WakeupsKept(s) && c < MAX_CONSUMERS
    requires Asleep(Next(s, Action.Complete(buffer)), c)
    ensures var r := Next(s, Action.Complete(buffer)); r.semaphore > 0 || r.producer.Posting?
  {
  }

  lemma {:induction false} WakeupsRun(s: State, actions: seq<Action>, t: State, getters: set<nat>)
    requires Inv(s) && WakeupsKept(s) && OthersOut(s, getters) && Runs(s, actions, t)
    requires forall b, c :: b in getters && c in getters ==> b == c
    requires GettersIn(actions, getters)
    ensures WakeupsKept(t)
    decreases |actions|
  {
    if actions != [] {
      NextKeeps(s, actions[0]);
      WakeupsNext(s, actions[0], getters);
      WakeupsRun(Next(s, actions[0]), actions[1..], t, getters);
    }
  }

  // ---------- Two consumers ----------

  /** One more step of a run that is being built. */
  lemma Step(s: State, actions: seq<Action>, m: State, a: Action)
    requires Inv(m) && Runs(s, actions, m) && Enabled(m, a)
    ensures Runs(s, actions + [a], Next(m, a)) && Inv(Next(m, a))
  {
    RunsOne(m, a);
    RunsAppend(s, actions, m, [a], Next(m, a));
  }

  /** `a` and `b` register, and `a` falls asleep on the empty queue. */
  function FallAsleep(a: nat, b: nat): seq<Action> {
    [] + [Register(a)] + [Register(b)] + [GetEnter(a)] + [GetSearch(a)]
  }

  lemma AsleepRun(format: Format, ids: seq<nat>, a: nat, b: nat) returns (t: State)
    requires Different(ids) && a < MAX_CONSUMERS && b < MAX_CONSUMERS && a != b
    ensures Inv(t) && Runs(Init(format, ids), FallAsleep(a, b), t)
    ensures t.q == Queue(NewNodes(ids), [], {a, b}) && t.producer == Idle && t.semaphore == 0
    ensures t.consumers[a] == Waiting && t.consumers[b] == Out && forall x :: Buffer(x) !in t.alive
  {
    var s := Init(format, ids);
    InitOk(format, ids);
    Step(s, [], s, Register(a));
    var s1 := Next(s, Register(a));
    Step(s, [] + [Register(a)], s1, Register(b));
    var s2 := Next(s1, Register(b));
    assert s2.q == Queue(NewNodes(ids), [], {a, b});
    Step(s, [] + [Register(a)] + [Register(b)], s2, GetEnter(a));
    var s3 := Next(s2, GetEnter(a));
    Step(s, [] + [Register(a)] + [Register(b)] + [GetEnter(a)], s3, GetSearch(a));
    t := Next(s3, GetSearch(a));
  }

  /** The producer fills a frame ... */
  function Produce(buffer: nat): seq<Action> {
    [] + [MallocClaim] + [MallocFill(Some(buffer))] + [MallocNote]
  }

  lemma ProduceRun(s: State, ids: seq<nat>, active: set<nat>, buffer: nat) returns (t: State)
    requires Inv(s) && ids != [] && s.q == Queue(NewNodes(ids), [], active)
    requires s.producer == Idle && s.semaphore == 0 && Buffer(buffer) !in s.alive
    ensures Inv(t) && Runs(s, Produce(buffer), t)
    ensures Find(Occupied(buffer), t.q.free) == 0 < |t.q.free| && t.q.ready == [] && t.q.active == active
    ensures t.producer == Idle && t.semaphore == 0 && t.consumers == s.consumers
  {
    assert Find(AnySlot, s.q.free) == 0;
    Step(s, [], s, MallocClaim);
    var s1 := Next(s, MallocClaim);
    assert Find(WithId(ids[0]), s1.q.free) == 0;
    Step(s, [] + [MallocClaim], s1, MallocFill(Some(buffer)));
    var s2 := Next(s1, MallocFill(Some(buffer)));
    assert Find(WithId(ids[0]), s2.q.free) == 0;
    Step(s, [] + [MallocClaim] + [MallocFill(Some(buffer))], s2, MallocNote);
    t := Next(s2, MallocNote);
  }

  /** ... completes it and posts the semaphore for both consumers. */
  function Publish(buffer: nat): seq<Action> {
    [] + [Complete(buffer)] + [Post] + [Post]
  }

  lemma PublishRun(s: State, a: nat, b: nat, buffer: nat) returns (t: State)
    requires Inv(s) && a != b && s.q.active == {a, b} && s.q.ready == []
    requires Find(Occupied(buffer), s.q.free) == 0 < |s.q.free|
    requires s.producer == Idle && s.semaphore == 0
    ensures Inv(t) && Runs(s, Publish(buffer), t)
    ensures |t.q.ready| == 1 && t.q.ready[0].mask == {a, b} == t.q.active && t.q.ready[0].accessed == {}
    ensures t.producer == Idle && t.semaphore == 2 && t.consumers == s.consumers
  {
    Step(s, [], s, Complete(buffer));
    var s1 := Next(s, Complete(buffer));
    assert |{a, b}| == 2;
    Step(s, [] + [Complete(buffer)], s1, Post);
    var s2 := Next(s1, Post);
    Step(s, [] + [Complete(buffer)] + [Post], s2, Post);
    t := Next(s2, Post);
  }

  /** `b` gets the frame and comes back for the next one ... */
  function TakeOne(b: nat): seq<Action> {
    [] + [GetEnter(b)] + [GetSearch(b)] + [GetEnter(b)] + [GetSearch(b)]
  }

  lemma GetOneRun(s: State, a: nat, b: nat) returns (t: State)
    requires Inv(s) && a < MAX_CONSUMERS && b < MAX_CONSUMERS && a != b
    requires |s.q.ready| == 1 && s.q.ready[0].mask == {a, b} == s.q.active && s.q.ready[0].accessed == {}
    requires s.producer == Idle && s.semaphore == 2 && s.consumers[a] == Waiting && s.consumers[b] == Out
    ensures Inv(t) && Runs(s, [] + [GetEnter(b)] + [GetSearch(b)], t) && t.producer == Idle && t.semaphore == 2
    ensures |t.q.ready| == 1 && t.q.ready[0].mask == {a, b} == t.q.active && t.q.ready[0].accessed == {b}
    ensures t.consumers[a] == Waiting && t.consumers[b] == Out
  {
    assert Matches(AwaitedBy(b), s.q.ready[0]);
    var m := Move(s, b, Searching);
    Step(s, [], s, GetEnter(b));
    assert m == Next(s, GetEnter(b)) && Find(AwaitedBy(b), m.q.ready) == 0;
    Step(s, [] + [GetEnter(b)], m, GetSearch(b));
    t := Next(m, GetSearch(b));
  }

  lemma TakeOneRun(s: State, a: nat, b: nat) returns (t: State)
    requires Inv(s) && a < MAX_CONSUMERS && b < MAX_CONSUMERS && a != b
    requires |s.q.ready| == 1 && s.q.ready[0].mask == {a, b} == s.q.active && s.q.ready[0].accessed == {}
    requires s.producer == Idle && s.semaphore == 2 && s.consumers[a] == Waiting && s.consumers[b] == Out
    ensures Inv(t) && Runs(s, TakeOne(b), t) && t.producer == Idle && t.semaphore == 2
    ensures |t.q.ready| == 1 && t.q.ready[0].mask == {a, b} && t.q.ready[0].accessed == {b}
    ensures t.consumers[a] == t.consumers[b] == Waiting
  {
    var m := GetOneRun(s, a, b);
    assert Find(AwaitedBy(b), m.q.ready) == 1;
    Step(s, [] + [GetEnter(b)] + [GetSearch(b)], m, GetEnter(b));
    var m' := Next(m, GetEnter(b));
    Step(s, [] + [GetEnter(b)] + [GetSearch(b)] + [GetEnter(b)], m', GetSearch(b));
    t := Next(m', GetSearch(b));
  }

  /** ... and takes both posts while it waits. */
  function TakePosts(b: nat): seq<Action> {
    [] + [GetWake(b)] + [GetSearch(b)] + [GetWake(b)]
  }

  lemma TakePostsRun(s: State, a: nat, b: nat) returns (t: State)
    requires Inv(s) && a < MAX_CONSUMERS && b < MAX_CONSUMERS && a != b
    requires |s.q.ready| == 1 && s.q.ready[0].mask == {a, b} && s.q.ready[0].accessed == {b}
    requires s.producer == Idle && s.semaphore == 2 && s.consumers[a] == s.consumers[b] == Waiting
    ensures Inv(t) && Runs(s, TakePosts(b), t) && !WakeupsKept(t)
  {
    assert Find(AwaitedBy(b), s.q.ready) == 1;
    Step(s, [], s, GetWake(b));
    var s1 := Next(s, GetWake(b));
    Step(s, [] + [GetWake(b)], s1, GetSearch(b));
    var s2 := Next(s1, GetSearch(b));
    Step(s, [] + [GetWake(b)] + [GetSearch(b)], s2, GetWake(b));
    t := Next(s2, GetWake(b));
    assert Matches(AwaitedBy(a), t.q.ready[0]);
    assert Asleep(t, a);
  }

  function LosingRun(a: nat, b: nat): seq<Action> {
    FallAsleep(a, b) + Produce(0) + Publish(0) + TakeOne(b) + TakePosts(b)
  }

  /** With two consumers a wakeup can be lost: `a` sleeps on a ready frame and nobody will post. */
  lemma WakeupLost(format: Format, ids: seq<nat>, a: nat, b: nat) returns (t: State)
    requires Different(ids) && ids != [] && a < MAX_CONSUMERS && b < MAX_CONSUMERS && a != b
    ensures Runs(Init(format, ids), LosingRun(a, b), t) && !WakeupsKept(t)
  {
    hide FallAsleep, Produce, Publish, TakeOne, TakePosts;
    var s0 := Init(format, ids);
    var s1 := AsleepRun(format, ids, a, b);
    var s2 := ProduceRun(s1, ids, {a, b}, 0);
    var s3 := PublishRun(s2, a, b, 0);
    var s4 := TakeOneRun(s3, a, b);
    t := TakePostsRun(s4, a, b);
    RunsAppend(s0, FallAsleep(a, b), s1, Produce(0), s2);
    RunsAppend(s0, FallAsleep(a, b) + Produce(0), s2, Publish(0), s3);
    RunsAppend(s0, FallAsleep(a, b) + Produce(0) + Publish(0), s3, TakeOne(b), s4);
    RunsAppend(s0, FallAsleep(a, b) + Produce(0) + Publish(0) + TakeOne(b), s4, TakePosts(b), t);
  }

  lemma LosersOnly(a: nat, b: nat, getters: set<nat>)
    requires a in getters && b in getters
    ensures GettersIn(LosingRun(a, b), getters)
  {
    assert GettersIn(FallAsleep(a, b), getters) && GettersIn(Produce(0), getters);
    assert GettersIn(Publish(0), getters) && GettersIn(TakeOne(b), getters) && GettersIn(TakePosts(b), getters);
    hide FallAsleep, Produce, Publish, TakeOne, TakePosts;
    GettersAppend(FallAsleep(a, b), Produce(0), getters);
    GettersAppend(FallAsleep(a, b) + Produce(0), Publish(0), getters);
    GettersAppend(FallAsleep(a, b) + Produce(0) + Publish(0), TakeOne(b), getters);
    GettersAppend(FallAsleep(a, b) + Produce(0) + Publish(0) + TakeOne(b), TakePosts(b), getters);
  }

  lemma GettersAppend(x: seq<Action>, y: seq<Action>, getters: set<nat>)
    requires GettersIn(x, getters) && GettersIn(y, getters)
    ensures GettersIn(x + y, getters)
  {
  }

  ghost predicate NeverLoses(format: Format, ids: seq<nat>, getters: set<nat>) {
    forall actions, t :: Runs(Init(format, ids), actions, t) && GettersIn(actions, getters) ==> WakeupsKept(t)
  }

  /** Main result: no wakeup of get_frame can be lost if and only if at most one consumer calls it. */
  lemma WakeupsKeptExactly(format: Format, ids: seq<nat>, getters: set<nat>)
    requires Different(ids) && ids != [] && forall c :: c in getters ==> c < MAX_CONSUMERS
    ensures NeverLoses(format, ids, getters) <==> forall a, b :: a in getters && b in getters ==> a == b
  {
    if forall a, b :: a in getters && b in getters ==> a == b {
      forall actions, t | Runs(Init(format, ids), actions, t) && GettersIn(actions, getters) ensures WakeupsKept(t) {
        InitOk(format, ids);
        WakeupsRun(Init(format, ids), actions, t, getters);
      }
    } else {
      var a, b :| a in getters && b in getters && a != b;
      var t := WakeupLost(format, ids, a, b);
      LosersOnly(a, b, getters);
    }
  }
}
