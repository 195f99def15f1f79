/** Fair consumers drain the frame queue: no frame is kept for ever while every consumer gets its turns. */
module QueueFair {
  import opened QueueModel
  import opened QueueProtocol
  import opened QueueInvariant
  import opened QueueSteps
  import opened QueueDrain

  /** What happens while nothing new is completed, nobody comes or goes and nothing is cleared. */
  predicate ConsumerStep(a: Action) {
    OwnStep(a) || a.GetWake? || a.Post?
  }

  predicate ConsumerSteps(actions: seq<Action>) {
    forall i :: 0 <= i < |actions| ==> ConsumerStep(actions[i])
  }

  ghost predicate HoldsSome(s: State, c: nat) {
    exists i :: 0 <= i < |s.q.ready| && c in s.q.ready[i].holders
  }

  /** Every active consumer searches at least once, and every consumer that holds a frame releases one. */
  ghost predicate Fair(s: State, actions: seq<Action>) {
    && (forall c :: c in s.q.active ==> GetSearch(c) in actions)
    && (forall c :: HoldsSome(s, c) ==>
      exists i :: 0 <= i < |actions| && actions[i].ReleaseSection? && actions[i].c == c)
  }

  /** Rounds of consumer steps, each fair as seen from where it starts. */
  ghost predicate RunsRounds(s: State, rounds: seq<seq<Action>>, t: State)
    decreases |rounds|
  {
    if rounds == [] then s == t
    else
      exists m :: Runs(s, rounds[0], m) && ConsumerSteps(rounds[0]) && Fair(s, rounds[0])
        && RunsRounds(m, rounds[1..], t)
  }

  /** A consumer step that serves nobody leaves the ready list and the active consumers as they are. */
  lemma NotServed(s: State, a: Action)
    requires Inv(s) && Enabled(s, a) && ConsumerStep(a) && !Serves(s, a)
    ensures Next(s, a).q.ready == s.q.ready && Next(s, a).q.active == s.q.active
    ensures !a.ReleaseSection? && (a.GetSearch? ==> Find(AwaitedBy(a.c), s.q.ready) == |s.q.ready|)
  {
  }

  /** So a run that serves nobody holds no release, and only searches that find nothing. */
  lemma {:induction false} NoneServed(s: State, actions: seq<Action>, t: State)
    requires Inv(s) && Runs(s, actions, t) && ConsumerSteps(actions) && Served(s, actions) == 0
    ensures forall i :: 0 <= i < |actions| ==>
      && !actions[i].ReleaseSection?
      && (actions[i].GetSearch? ==> Find(AwaitedBy(actions[i].c), s.q.ready) == |s.q.ready|)
    decreases |actions|
  {
    if actions != [] {
      var a, rest := actions[0], actions[1..];
      NextKeeps(s, a);
      NotServed(s, a);
      NoneServed(Next(s, a), rest, t);
      forall i | 0 <= i < |actions|
        ensures !actions[i].ReleaseSection?
        ensures actions[i].GetSearch? ==> Find(AwaitedBy(actions[i].c), s.q.ready) == |s.q.ready|
      {
        assert i > 0 ==> actions[i] == rest[i - 1];
      }
    }
  }

  /** A fair round serves somebody as long as anything is ready. */
  lemma {:induction false} FairServes(s: State, actions: seq<Action>, t: State)
    requires Inv(s) && Runs(s, actions, t) && ConsumerSteps(actions) && Fair(s, actions) && s.q.active != {}
    ensures s.q.ready != [] ==> Served(s, actions) > 0
  {
    FirstIsServed(s);
    if Served(s, actions) == 0 {
      NoneServed(s, actions, t);
      forall c | c in s.q.active ensures Find(AwaitedBy(c), s.q.ready) == |s.q.ready| {
        var i :| 0 <= i < |actions| && actions[i] == GetSearch(c);
      }
      forall c ensures !HoldsSome(s, c) {
      }
      if s.q.ready != [] && s.q.ready[0].holders != {} {
        var c :| c in s.q.ready[0].holders;
        assert HoldsSome(s, c);
      }
    }
  }

  lemma {:induction false} RoundKeeps(s: State, actions: seq<Action>, t: State)
    requires Inv(s) && Runs(s, actions, t) && ConsumerSteps(actions)
    ensures Inv(t) && t.q.active == s.q.active && Served(s, actions) + Weight(t.q.ready) <= Weight(s.q.ready)
    ensures s.q.ready == [] ==> t.q.ready == []
    decreases |actions|
  {
    if actions != [] {
      var a, rest := actions[0], actions[1..];
      NextKeeps(s, a);
      StepKeeps(s, a);
      WeightNext(s, a);
      RoundKeeps(Next(s, a), rest, t);
    }
  }

  lemma StepKeeps(s: State, a: Action)
    requires Inv(s) && Enabled(s, a) && ConsumerStep(a)
    ensures Next(s, a).q.active == s.q.active && (s.q.ready == [] ==> Next(s, a).q.ready == [])
  {
  }

  /**
   Main result: while nothing is completed, consumers that take their turns empty the ready list, in whatever order they
   run and however often they poll in vain: as many fair rounds suffice as there are gets and releases to make.
   */
  lemma {:induction false} FairRoundsDrain(s: State, rounds: seq<seq<Action>>, t: State)
    requires Inv(s) && s.q.active != {} && RunsRounds(s, rounds, t) && Weight(s.q.ready) <= |rounds|
    ensures Inv(t) && t.q.active == s.q.active && t.q.ready == []
    decreases |rounds|
  {
    if rounds == [] {
      SomeWeight(s);
    } else {
      var m :| Runs(s, rounds[0], m) && ConsumerSteps(rounds[0]) && Fair(s, rounds[0])
        && RunsRounds(m, rounds[1..], t);
      RoundKeeps(s, rounds[0], m);
      FairServes(s, rounds[0], m);
      if m.q.ready == [] {
        StaysEmpty(m, rounds[1..], t);
      } else {
        FairRoundsDrain(m, rounds[1..], t);
      }
    }
  }

  lemma {:induction false} StaysEmpty(s: State, rounds: seq<seq<Action>>, t: State)
    requires Inv(s) && s.q.ready == [] && RunsRounds(s, rounds, t)
    ensures Inv(t) && t.q.ready == [] && t.q.active == s.q.active
    decreases |rounds|
  {
    if rounds != [] {
      var m :| Runs(s, rounds[0], m) && ConsumerSteps(rounds[0]) && Fair(s, rounds[0])
        && RunsRounds(m, rounds[1..], t);
      RoundKeeps(s, rounds[0], m);
      StaysEmpty(m, rounds[1..], t);
    }
  }

  /** With an active consumer, a ready frame still asks for something. */
  lemma SomeWeight(s: State)
    requires Inv(s) && s.q.active != {}
    ensures s.q.ready != [] ==> Weight(s.q.ready) > 0
  {
    if s.q.ready != [] {
      var e := s.q.ready[|s.q.ready| - 1];
      assert ReadyOk(e, s.q.active, s.completed);
    }
  }
}
