/** The message queue over whole runs: what is inserted is handled once and in order, and by the final drain at last. */
module SignalQueue {
  import opened Common
  import opened SignalModel
  import opened SignalRuns

  // ---------- Building runs ----------

  lemma RunsBack(s: System, a: Action, rest: seq<Action>, t: System)
    requires s.server.uidSeq < UINT32 && Enabled(s, a) && Runs(Next(s, a), rest, t)
    ensures Runs(s, [a] + rest, t)
  {
    assert ([a] + rest)[1..] == rest;
  }

  /** A client logs in, and then what comes next. */
  function LoginThen(login: Request, w: World, rest: seq<Action>): seq<Action> {
    [Start] + ([Put(login)] + ([HandleHead(w)] + ([RemoveHead] + rest)))
  }

  /** The state once it has logged in. */
  function LoggedIn(handlers: Handlers, login: Request, w: World): System
    requires login.kind == RequestType.Login
  {
    var (server, effects) := Handle(Create(handlers), login, w);
    Init(handlers).(server := server, loop := true, accepted := [login], handled := [login], effects := effects,
      session := Some(Login.Login(login.cid, UidOf(0), w.now)), issued := [Issue(|effects|, false)])
  }

  lemma LoginRuns(handlers: Handlers, login: Request, w: World, rest: seq<Action>, t: System)
    requires login.kind == RequestType.Login && Runs(LoggedIn(handlers, login, w), rest, t)
    ensures Runs(Init(handlers), LoginThen(login, w, rest), t)
  {
    var s0 := Init(handlers);
    var s1 := Next(s0, Start);
    var s2 := Next(s1, Put(login));
    var s3 := Next(s2, HandleHead(w));
    assert Next(s3, RemoveHead) == LoggedIn(handlers, login, w);
    RunsBack(s3, RemoveHead, rest, t);
    RunsBack(s2, HandleHead(w), [RemoveHead] + rest, t);
    RunsBack(s1, Put(login), [HandleHead(w)] + ([RemoveHead] + rest), t);
    RunsBack(s0, Start, [Put(login)] + ([HandleHead(w)] + ([RemoveHead] + rest)), t);
  }

  // ---------- Main results ----------

  /** Every accepted message is handled at most once and in the order of arrival; all are when the queue is empty. */
  lemma HandledInOrder(handlers: Handlers, actions: seq<Action>, t: System)
    requires Runs(Init(handlers), actions, t)
    ensures t.handled <= t.accepted
    ensures t.queue == [] ==> t.handled == t.accepted
  {
    InvariantAlways(handlers, actions, t);
  }

  /** After the final drain every accepted message has been handled, in every run; puts may be pending then, or not. */
  ghost predicate AllHandled(handlers: Handlers, pending: bool) {
    forall actions, t ::
      Runs(Init(handlers), actions, t) && t.drained && (pending || t.stranded == []) ==> t.handled == t.accepted
  }

  /** A put that has tested the loop flag before the session stops, and inserts after the final drain. */
  function StrandingRun(m: Request): seq<Action> {
    [Start] + ([PassTest(m)] + ([Stop] + ([EndDrain] + ([Insert(0)] + []))))
  }

  lemma {:induction false} MessageStranded(handlers: Handlers, m: Request) returns (t: System)
    ensures Runs(Init(handlers), StrandingRun(m), t) && t.drained && t.accepted == [m] && t.handled == []
  {
    var s0 := Init(handlers);
    var s1 := Next(s0, Start);
    var s2 := Next(s1, PassTest(m));
    var s3 := Next(s2, Stop);
    var s4 := Next(s3, EndDrain);
    t := Next(s4, Insert(0));
    RunsBack(s4, Insert(0), [], t);
    RunsBack(s3, EndDrain, [Insert(0)] + [], t);
    RunsBack(s2, Stop, [EndDrain] + ([Insert(0)] + []), t);
    RunsBack(s1, PassTest(m), [Stop] + ([EndDrain] + ([Insert(0)] + [])), t);
    RunsBack(s0, Start, [PassTest(m)] + ([Stop] + ([EndDrain] + ([Insert(0)] + []))), t);
  }

  /**
   Main result: after the final drain every accepted message has been handled, exactly once and in order, in all runs if
   and only if no put is then between its test of the loop flag and its insertion.
   */
  lemma {:induction false} AllHandledExactly(handlers: Handlers, pending: bool)
    ensures AllHandled(handlers, pending) <==> !pending
  {
    if pending {
      var t := MessageStranded(handlers, Request(P2p, Ping, 0, ZeroCid(), None));
    } else {
      forall actions, t | Runs(Init(handlers), actions, t) && t.drained && t.stranded == []
        ensures t.handled == t.accepted
      {
        InvariantAlways(handlers, actions, t);
      }
    }
  }
}
