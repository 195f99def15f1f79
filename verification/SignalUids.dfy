/** Login uids over whole runs: they differ, and every uid but the current one is closed, with one exception. */
module SignalUids {
  import opened Common
  import opened SignalModel
  import opened SignalRuns
  import opened SignalQueue

  /** The uids of two logins less than 2^32 apart differ. */
  lemma UidsDiffer(i: nat, j: nat)
    requires i < j && j - i < UINT32
    ensures UidOf(i) != UidOf(j)
  {
    var a, b := (FIRST_UID + i) % UINT32, (FIRST_UID + j) % UINT32;
    assert a != b;
  }

  /**
   Every uid that a later login has superseded has had close called since it was issued, whatever came in between. The
   latest one has when its session has ended, unless its login was handled between the close and the clearing of an
   expiry check.
   */
  lemma {:induction false} UidsClosed(handlers: Handlers, actions: seq<Action>, t: System, i: nat)
    requires Runs(Init(handlers), actions, t) && i < t.Logins()
    ensures t.session.Some? ==> t.session.value.uid == UidOf(t.Logins() - 1)
    ensures handlers.close && i + 1 < t.Logins() ==> ClosedSince(t, i)
    ensures handlers.close && !Live(t, i) && !ClosedSince(t, i) ==> i + 1 == t.Logins() && t.issued[i].clearing
  {
    InvariantAlways(handlers, actions, t);
    HandlersStay(Init(handlers), actions, t);
  }

  /** In every run every uid issued but the current one is closed; the latest login may be a clearing one, or not. */
  ghost predicate AlwaysClosed(handlers: Handlers, clearing: bool) {
    forall actions, t, i: nat ::
      Runs(Init(handlers), actions, t) && i < t.Logins() && !Live(t, i) && (clearing || !LatestClearing(t)) ==>
        ClosedSince(t, i)
  }

  /** The latest login was handled between the close and the clearing of an expiry check. */
  predicate LatestClearing(t: System) {
    t.Logins() > 0 && t.issued[t.Logins() - 1].clearing
  }

  /** A login that comes just then is ended without having been closed. */
  function MissingRun(first: Request, second: Request, w: World, now: nat): seq<Action> {
    LoginThen(first, w, MissingEnd(second, w, now))
  }

  function MissingEnd(second: Request, w: World, now: nat): seq<Action> {
    [Test(now)] + ([CallClose] + ([Put(second)] + ([HandleHead(w)] + ([Clear] + []))))
  }

  lemma {:induction false} CloseMissed(handlers: Handlers, first: Request, second: Request, w: World, now: nat)
      returns (t: System)
    requires handlers.close && first.kind == second.kind == RequestType.Login && !w.sendOk
    requires Elapsed(now, w.now) > LIVE_SECONDS
    ensures Runs(Init(handlers), MissingRun(first, second, w, now), t)
    ensures t.Logins() == 2 && !Live(t, 1) && !ClosedSince(t, 1)
  {
    var s := LoggedIn(handlers, first, w);
    assert s.effects == [Closed(0)] && s.server.uid == UidOf(0);
    t := MissAfter(s, second, w, now);
    LoginRuns(handlers, first, w, MissingEnd(second, w, now), t);
  }

  lemma MissAfter(s: System, second: Request, w: World, now: nat) returns (t: System)
    requires s.server.handlers.close && second.kind == RequestType.Login && !w.sendOk && s.server.connected
    requires Elapsed(now, s.server.ts) > LIVE_SECONDS && s.loop && !s.handling && s.expiring == Expiring.Idle
    requires s.verified == None && !s.drained
    requires s.effects == [Closed(0)] && s.queue == [] && s.Logins() == 1
    requires s.server.uid == UidOf(0) && s.server.uidSeq == FIRST_UID + 1
    ensures Runs(s, MissingEnd(second, w, now), t)
    ensures t.Logins() == 2 && t.session == None && !ClosedSince(t, 1)
  {
    var s5 := Next(s, Test(now));
    var s6 := Next(s5, CallClose);
    var s7 := Next(s6, Put(second));
    var s8 := Next(s7, HandleHead(w));
    t := Next(s8, Clear);
    assert t.effects == [Closed(0), Closed(UidOf(0)), Closed(UidOf(0))];
    RunsBack(s8, Clear, [], t);
    RunsBack(s7, HandleHead(w), [Clear] + [], t);
    RunsBack(s6, Put(second), [HandleHead(w)] + ([Clear] + []), t);
    RunsBack(s5, CallClose, [Put(second)] + ([HandleHead(w)] + ([Clear] + [])), t);
    RunsBack(s, Test(now), [CallClose] + ([Put(second)] + ([HandleHead(w)] + ([Clear] + []))), t);
  }

  /**
   Main result: at every moment of all runs every uid but the current one is closed, if and only if the latest login
   never came between that close and clearing.
   */
  lemma {:induction false} AlwaysClosedExactly(handlers: Handlers, clearing: bool)
    requires handlers.close
    ensures AlwaysClosed(handlers, clearing) <==> !clearing
  {
    if clearing {
      var login := Request(P2p, RequestType.Login, 0, ZeroCid(), None);
      var now := 31_000_000;
      var t := CloseMissed(handlers, login, login, World(0, None, false, [], None), now);
    } else {
      forall actions, t, i: nat |
        Runs(Init(handlers), actions, t) && i < t.Logins() && !Live(t, i) && !LatestClearing(t)
        ensures ClosedSince(t, i)
      {
        UidsClosed(handlers, actions, t, i);
      }
    }
  }

  lemma {:induction false} HandlersStay(s: System, actions: seq<Action>, t: System)
    requires Runs(s, actions, t)
    ensures t.server.handlers == s.server.handlers
    decreases |actions|
  {
    if actions != [] {
      HandlersStay(Next(s, actions[0]), actions[1..], t);
    }
  }
}
