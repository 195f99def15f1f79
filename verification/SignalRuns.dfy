/**
 The signalling server and its message queue over whole runs: the broker's thread and the local peer put messages, the
 run loop and the final drain handle the head and then remove it, and another thread checks for expiry.
 */
module SignalRuns {
  import opened Common
  import opened SignalModel

  /** The reference session: who logged in last and is not expired, under which uid, and when it last gave a sign. */
  datatype Login = Login(cid: Cid, uid: int, seen: nat)

  /**
   `handling` holds between handling the head and removing it, `verified` between verifying and handling it, with the
   session then. `expiring` is where the expiry check is, `passed` are the messages whose put has tested the loop flag
   and not inserted yet, and `drained` holds after the final drain. The fields after them are history.
   */
  datatype System = System(
    server: Server,
    queue: seq<Request>,
    loop: bool,
    handling: bool,
    verified: Option<Login>,
    expiring: Expiring,
    passed: seq<Request>,
    drained: bool,
    stranded: seq<Request>,
    accepted: seq<Request>,
    handled: seq<Request>,
    effects: seq<Effect>,
    session: Option<Login>,
    issued: seq<Issue>)
  {
    function Logins(): nat { |issued| }
  }

  /** The expiry check: not going on, about to call close, or about to clear the session. */
  datatype Expiring = Idle | Tested | Called

  /** A uid issued by a login: how many effects there had been, and whether the check was about to clear the session. */
  datatype Issue = Issue(at: nat, clearing: bool)

  datatype Action =
    | Start
    | Stop
    | Put(m: Request)
    | PutLocal(uid: int, candidate: seq<byte>)
    | PassTest(m: Request)
    | PassTestLocal(uid: int, candidate: seq<byte>)
    | Insert(i: nat)
    | HandleHead(w: World)
    | VerifyHead(w: World)
    | ActHead(w: World)
    | RemoveHead
    | Test(now: nat)
    | CallClose
    | Clear
    | EndDrain

  function Init(handlers: Handlers): System {
    System(Create(handlers), [], false, false, None, Expiring.Idle, [], false, [], [], [], [], None, [])
  }

  predicate Enabled(s: System, a: Action) {
    match a
    case Start => !s.drained
    case Insert(i) => i < |s.passed|
    case HandleHead(_) => !s.handling && s.queue != [] && s.verified == None && !s.drained
    case VerifyHead(_) =>
      !s.handling && s.queue != [] && s.verified == None && !s.drained && s.queue[0].kind != RequestType.Login
    case ActHead(_) => s.verified.Some? && s.queue != []
    case EndDrain => !s.loop && s.queue == [] && !s.drained
    case RemoveHead => s.handling && s.queue != []
    case Test(_) => s.expiring == Expiring.Idle
    case CallClose => s.expiring == Tested
    case Clear => s.expiring == Called
    case _ => true
  }

  function UidOf(login: nat): int {
    ToInt32((FIRST_UID + login) % UINT32)
  }

  /** The reference session after a message: a login replaces it, a matching ping refreshes it. */
  function AfterMessage(session: Option<Login>, logins: nat, m: Request, w: World): Option<Login> {
    if m.kind == RequestType.Login then Some(Login.Login(m.cid, UidOf(logins), w.now))
    else if session.Some? && SameClient(session.value.cid, m.cid) && m.connect == P2p && m.kind == Ping
    then Some(session.value.(seen := w.now))
    else session
  }

  function Accept(s: System, m: Request): System {
    s.(queue := s.queue + [m], accepted := s.accepted + [m])
  }

  function Pass(s: System, m: Request): System {
    if s.loop then s.(passed := s.passed + [m]) else s
  }

  function Next(s: System, a: Action): System
    requires Enabled(s, a) && s.server.uidSeq < UINT32
  {
    match a
    case Start => s.(loop := true)
    case Stop => s.(loop := false)
    case Put(m) => if s.loop then Accept(s, m) else s
    case PutLocal(uid, candidate) =>
      var m := LocalCandidate(s.server, uid, candidate);
      if m == None || !s.loop then s else Accept(s, m.value)
    case PassTest(m) => Pass(s, m)
    case PassTestLocal(uid, candidate) =>
      var m := LocalCandidate(s.server, uid, candidate);
      if m == None then s else Pass(s, m.value)
    case Insert(i) => Accept(s, s.passed[i]).(passed := s.passed[..i] + s.passed[i + 1..])
    case HandleHead(w) =>
      var m := s.queue[0];
      var (server, effects) := Handle(s.server, m, w);
      s.(server := server, effects := s.effects + effects, handling := true, handled := s.handled + [m],
         session := AfterMessage(s.session, s.Logins(), m, w),
         issued := s.issued +
           if m.kind == RequestType.Login then [Issue(|s.effects| + |effects|, s.expiring == Called)] else [])
    case VerifyHead(w) =>
      var m := s.queue[0];
      if Verified(s.server, m) then s.(verified := s.session)
      else s.(effects := s.effects + Refuse(s.server, m, w), handling := true, handled := s.handled + [m])
    case ActHead(w) =>
      var m := s.queue[0];
      var (server, effects) := Act(s.server, m, w);
      s.(server := server, effects := s.effects + effects, verified := None, handling := true,
         handled := s.handled + [m], session := AfterMessage(s.session, s.Logins(), m, w))
    case RemoveHead => s.(queue := s.queue[1..], handling := false)
    case Test(now) => if Expired(s.server, now) then s.(expiring := Tested) else s
    case CallClose => s.(effects := s.effects + CloseExpired(s.server), expiring := Called)
    case Clear => s.(server := ClearExpired(s.server), session := None, expiring := Expiring.Idle)
    case EndDrain => s.(drained := true, stranded := s.passed)
  }

  predicate Runs(s: System, actions: seq<Action>, t: System)
    decreases |actions|
  {
    if actions == [] then s == t
    else
      && s.server.uidSeq < UINT32 && Enabled(s, actions[0])
      && Runs(Next(s, actions[0]), actions[1..], t)
  }

  // ---------- The invariant ----------

  /** The last login among these messages. */
  function LastLogin(ms: seq<Request>): Option<Request> {
    if ms == [] then None
    else if ms[|ms| - 1].kind == RequestType.Login then Some(ms[|ms| - 1])
    else LastLogin(ms[..|ms| - 1])
  }

  /** The queue holds exactly the accepted messages that are not handled yet, plus the one being handled. */
  ghost predicate QueueOk(s: System) {
    && (s.handling ==> s.queue != [] && s.handled != [] && s.handled[|s.handled| - 1] == s.queue[0])
    && s.accepted == s.handled + (if s.handling then s.queue[1..] else s.queue)
  }

  /** The server's fields are the reference session's, and that is the session of the last login handled. */
  ghost predicate SessionOk(s: System) {
    && (s.server.connected <==> s.session.Some?)
    && (s.session.Some? ==>
      var l := s.session.value;
      && s.server.cid == l.cid && s.server.uid == l.uid && s.server.ts == l.seen
      && s.Logins() > 0 && l.uid == UidOf(s.Logins() - 1)
      && LastLogin(s.handled).Some? && LastLogin(s.handled).value.cid == l.cid)
  }

  /** The uid of login `i` has been closed since it was issued. */
  ghost predicate ClosedSince(s: System, i: nat)
    requires i < |s.issued|
  {
    exists k :: s.issued[i].at <= k < |s.effects| && s.effects[k] == Closed(UidOf(i))
  }

  /** Login `i` is the current one, and its session has not ended. */
  ghost predicate Live(s: System, i: nat) {
    s.session.Some? && i + 1 == s.Logins()
  }

  /** The session of login `i` has ended or is about to be cleared. */
  ghost predicate Ending(s: System, i: nat) {
    !Live(s, i) || s.expiring == Called
  }

  /** A later login has superseded login `i`, or its session has ended or ends, other than by a clearing in between. */
  ghost predicate MustBeClosed(s: System, i: nat)
    requires i < |s.issued|
  {
    i + 1 < s.Logins() || (Ending(s, i) && !s.issued[i].clearing)
  }

  /**
   Every uid issued has been closed since, except the latest one while its session lives, or when its login came between
   the close and the clearing of an expiry check.
   */
  ghost predicate UidsOk(s: System) {
    && s.server.uidSeq == (FIRST_UID + s.Logins()) % UINT32
    && (s.Logins() > 0 ==> s.server.uid == UidOf(s.Logins() - 1))
    && (forall i :: 0 <= i < s.Logins() ==> s.issued[i].at <= |s.effects|)
    && (s.server.handlers.close ==>
      forall i :: 0 <= i < s.Logins() && MustBeClosed(s, i) ==> ClosedSince(s, i))
  }

  /** The head that has been verified is of the client of the last login, whatever the expiry check does. */
  ghost predicate VerifiedOk(s: System) {
    s.verified.Some? ==>
      var cid := s.verified.value.cid;
      && !s.handling && s.queue != [] && s.queue[0].kind != RequestType.Login && SameClient(cid, s.queue[0].cid)
      && s.server.cid == cid && LastLogin(s.handled).Some? && LastLogin(s.handled).value.cid == cid
  }

  /** After the final drain only puts that had passed their test before can still insert. */
  ghost predicate DrainOk(s: System) {
    s.drained ==>
      && !s.loop && !s.handling && s.verified == None
      && (s.stranded == [] ==> s.passed == [] && s.queue == [])
  }

  ghost predicate Inv(s: System) {
    QueueOk(s) && SessionOk(s) && UidsOk(s) && VerifiedOk(s) && DrainOk(s)
  }

  lemma UidSeqNext(n: nat)
    ensures (n % UINT32 + 1) % UINT32 == (n + 1) % UINT32
  {
  }

  /** What has been closed since it was issued stays so. */
  lemma StaysClosed(s: System, r: System, i: nat)
    requires i < |s.issued| && ClosedSince(s, i)
    requires s.issued <= r.issued && s.effects <= r.effects
    ensures ClosedSince(r, i)
  {
    var k :| s.issued[i].at <= k < |s.effects| && s.effects[k] == Closed(UidOf(i));
    assert r.issued[i].at <= k < |r.effects| && r.effects[k] == Closed(UidOf(i));
  }

  /** A step that brings the current session to its end closes its uid. */
  lemma UidsKept(s: System, r: System)
    requires UidsOk(s) && r.server.handlers == s.server.handlers
    requires s.issued <= r.issued && s.effects <= r.effects && |r.issued| <= |s.issued| + 1
    requires |r.issued| > |s.issued| ==>
      && r.session.Some? && r.issued[|s.issued|].at <= |r.effects|
      && r.issued[|s.issued|].clearing == (r.expiring == Called)
    requires r.server.uidSeq == (FIRST_UID + r.Logins()) % UINT32
    requires r.Logins() > 0 ==> r.server.uid == UidOf(r.Logins() - 1)
    requires s.Logins() > 0 && s.server.handlers.close ==>
      (r.Logins() > s.Logins() || (!Ending(s, s.Logins() - 1) && Ending(r, s.Logins() - 1))) ==>
        |s.effects| < |r.effects| && r.effects[|s.effects|] == Closed(s.server.uid)
    ensures UidsOk(r)
  {
    if s.server.handlers.close {
      forall i | 0 <= i < r.Logins() && MustBeClosed(r, i) ensures ClosedSince(r, i) {
        assert i < |s.issued| && r.issued[i] == s.issued[i];
        if MustBeClosed(s, i) {
          StaysClosed(s, r, i);
        } else {
          assert r.issued[i].at <= |s.effects| < |r.effects| && r.effects[|s.effects|] == Closed(UidOf(i));
        }
      }
    }
  }

  lemma HandleSession(s: System, w: World)
    requires SessionOk(s) && UidsOk(s) && Enabled(s, HandleHead(w))
    ensures SessionOk(Next(s, HandleHead(w)))
  {
    ServerAfter(s.server, s.queue[0], w);
    assert Next(s, HandleHead(w)).handled[..|s.handled|] == s.handled;
    hide Handle;
  }

  /** What a message does to the server's fields. */
  lemma ServerAfter(s: Server, m: Request, w: World)
    requires s.uidSeq < UINT32
    ensures var r := Handle(s, m, w).0;
      if m.kind == RequestType.Login then
        r == s.(connected := true, uid := ToInt32(s.uidSeq), ts := w.now, cid := m.cid,
                uidSeq := (s.uidSeq + 1) % UINT32)
      else if Verified(s, m) && m.connect == P2p && m.kind == Ping then r == s.(ts := w.now)
      else r == s
  {
  }

  lemma HandleUids(s: System, w: World)
    requires SessionOk(s) && UidsOk(s) && Enabled(s, HandleHead(w))
    ensures UidsOk(Next(s, HandleHead(w)))
  {
    var r := Next(s, HandleHead(w));
    UidSeqNext(FIRST_UID + s.Logins());
    UidsKept(s, r);
  }

  lemma HandleQueue(s: System, w: World)
    requires QueueOk(s) && s.server.uidSeq < UINT32 && Enabled(s, HandleHead(w))
    ensures QueueOk(Next(s, HandleHead(w)))
  {
    hide Handle, AfterMessage;
    assert s.handled + s.queue == (s.handled + [s.queue[0]]) + s.queue[1..];
  }

  lemma HandleKeeps(s: System, w: World)
    requires Inv(s) && Enabled(s, HandleHead(w))
    ensures Inv(Next(s, HandleHead(w)))
  {
    HandleSession(s, w);
    HandleUids(s, w);
    HandleQueue(s, w);
  }

  lemma HandledOne(s: System, r: System)
    requires QueueOk(s) && !s.handling && s.queue != []
    requires r.queue == s.queue && r.handling && r.handled == s.handled + [s.queue[0]] && r.accepted == s.accepted
    ensures QueueOk(r)
    ensures s.queue[0].kind != RequestType.Login ==> LastLogin(r.handled) == LastLogin(s.handled)
  {
    assert s.handled + s.queue == (s.handled + [s.queue[0]]) + s.queue[1..];
    assert r.handled[..|s.handled|] == s.handled;
  }

  lemma VerifyKeeps(s: System, w: World)
    requires Inv(s) && Enabled(s, VerifyHead(w))
    ensures Inv(Next(s, VerifyHead(w)))
  {
    var r := Next(s, VerifyHead(w));
    if !Verified(s.server, s.queue[0]) {
      HandledOne(s, r);
    }
    UidsKept(s, r);
  }

  lemma ActKeeps(s: System, w: World)
    requires Inv(s) && Enabled(s, ActHead(w))
    ensures Inv(Next(s, ActHead(w)))
  {
    var r := Next(s, ActHead(w));
    HandledOne(s, r);
    UidsKept(s, r);
  }

  lemma NextKeeps(s: System, a: Action)
    requires Inv(s) && Enabled(s, a)
    ensures Inv(Next(s, a)) && s.server.uidSeq < UINT32
  {
    if a.HandleHead? {
      HandleKeeps(s, a.w);
    } else if a.VerifyHead? {
      VerifyKeeps(s, a.w);
    } else if a.ActHead? {
      ActKeeps(s, a.w);
    } else {
      UidsKept(s, Next(s, a));
      QueueNext(s, a);
      OthersKeep(s, a);
    }
  }

  /** The steps that handle nothing. */
  predicate Handles(a: Action) {
    a.HandleHead? || a.VerifyHead? || a.ActHead?
  }

  lemma Accepted(s: System, m: Request)
    requires QueueOk(s)
    ensures QueueOk(Accept(s, m))
  {
    assert s.queue != [] ==> (s.queue + [m])[1..] == s.queue[1..] + [m];
  }

  lemma QueueNext(s: System, a: Action)
    requires QueueOk(s) && Enabled(s, a) && s.server.uidSeq < UINT32 && !Handles(a)
    ensures QueueOk(Next(s, a))
  {
    match a
    case Put(m) => Accepted(s, m);
    case PutLocal(uid, candidate) =>
      var m := LocalCandidate(s.server, uid, candidate);
      if m.Some? {
        Accepted(s, m.value);
      }
    case Insert(i) => Accepted(s, s.passed[i]);
    case _ =>
  }

  lemma OthersKeep(s: System, a: Action)
    requires Inv(s) && Enabled(s, a) && !Handles(a)
    ensures SessionOk(Next(s, a)) && VerifiedOk(Next(s, a)) && DrainOk(Next(s, a))
  {
  }

  lemma {:induction false} RunKeeps(s: System, actions: seq<Action>, t: System)
    requires Inv(s) && Runs(s, actions, t)
    ensures Inv(t)
    decreases |actions|
  {
    if actions != [] {
      NextKeeps(s, actions[0]);
      RunKeeps(Next(s, actions[0]), actions[1..], t);
    }
  }

  lemma InvariantAlways(handlers: Handlers, actions: seq<Action>, t: System)
    requires Runs(Init(handlers), actions, t)
    ensures Inv(t)
  {
    InitOk(handlers);
    hide Inv, Init, Enabled, Next;
    RunKeeps(Init(handlers), actions, t);
  }

  lemma InitOk(handlers: Handlers)
    ensures Inv(Init(handlers))
  {
  }
}
