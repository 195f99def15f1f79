/** Session isolation over whole runs: what a message may cause, and where local candidates go. */
module SignalIsolation {
  import opened Common
  import opened SignalModel
  import opened SignalRuns
  import opened SignalQueue

  /** Callbacks and publications that only a logged-in client may cause. */
  predicate Privileged(e: Effect) {
    match e
    case PeerAdded(_, _) => true
    case PeerOffered(_) => true
    case LocalSet(_, _) => true
    case RemoteSet(_, _) => true
    case CandidateAdded(_, _) => true
    case DataReceived(_, _) => true
    case Closed(_) => true
    case Published(_, r) => r.kind != LoginResponse && r.kind != NotLogin
  }

  /**
   Session isolation: over whole runs, a message other than a login causes a privileged effect only if its client id
   is that of the last login handled and that session has not expired. What is published then goes to that client's
   own topic if and only if the client id is not empty; otherwise it goes to the topic that all clients share.
   */
  lemma Isolation(handlers: Handlers, actions: seq<Action>, t: System, w: World, e: Effect)
    requires Runs(Init(handlers), actions, t) && Enabled(t, HandleHead(w))
    requires t.queue[0].kind != RequestType.Login && t.server.uidSeq < UINT32
    requires e in Handle(t.server, t.queue[0], w).1 && Privileged(e)
    ensures t.session.Some? && SameClient(t.session.value.cid, t.queue[0].cid)
    ensures LastLogin(t.handled).Some? && LastLogin(t.handled).value.cid == t.session.value.cid
    ensures e.Published? ==>
      (OwnTopic(e, t.session.value.cid) <==> t.session.value.cid[0] != 0)
      && (e.topic == ClientTopic <==> t.session.value.cid[0] == 0)
  {
    InvariantAlways(handlers, actions, t);
    if e.Published? {
      TopicOf(t.server, t.queue[0], w, e);
      var a, b := t.session.value.cid, t.queue[0].cid;
      assert a[..CID_LENGTH - 1][0] == b[..CID_LENGTH - 1][0];
    }
  }

  /** `e` is published for this client, on its own topic. */
  predicate OwnTopic(e: Effect, cid: Cid)
    requires e.Published?
  {
    e.topic.CidTopic? && SameClient(e.topic.cid, cid) && SameClient(e.request.cid, cid)
  }

  /** Whatever a message is, what handling it publishes goes to its client's topic unless its client id is empty. */
  lemma TopicOf(s: Server, m: Request, w: World, e: Effect)
    requires s.uidSeq < UINT32 && e in Handle(s, m, w).1 && e.Published?
    ensures e.topic == if m.cid[0] == 0 then ClientTopic else CidTopic(m.cid)
    ensures m.cid[0] != 0 ==> e.request.cid == m.cid
  {
  }

  lemma ActTopic(s: Server, m: Request, w: World, e: Effect)
    requires e in Act(s, m, w).1 && e.Published?
    ensures e.topic == if m.cid[0] == 0 then ClientTopic else CidTopic(m.cid)
    ensures m.cid[0] != 0 ==> e.request.cid == m.cid
  {
  }

  /**
   When the verification of a message and its handling are taken apart, its client is still that of the last login
   handled, and its publications go to that client's own topic if and only if the id is not empty.
   */
  lemma {:induction false} IsolationBetween(handlers: Handlers, actions: seq<Action>, t: System, w: World, e: Effect)
    requires Runs(Init(handlers), actions, t) && Enabled(t, ActHead(w)) && e in Act(t.server, t.queue[0], w).1
    ensures LastLogin(t.handled).Some?
    ensures var cid := LastLogin(t.handled).value.cid;
      && SameClient(cid, t.queue[0].cid) && (t.session.Some? ==> t.session.value.cid == cid)
      && (e.Published? ==>
        (OwnTopic(e, cid) <==> cid[0] != 0) && (e.topic == ClientTopic <==> cid[0] == 0))
  {
    InvariantAlways(handlers, actions, t);
    if e.Published? {
      ActTopic(t.server, t.queue[0], w, e);
      var a, b := t.verified.value.cid, t.queue[0].cid;
      assert a[..CID_LENGTH - 1][0] == b[..CID_LENGTH - 1][0];
    }
  }

  /** But its session may have ended in between: the expiry check does not wait for a message being handled. */
  function LateRun(login: Request, data: Request, w: World, now: nat): seq<Action> {
    LoginThen(login, w, LateEnd(data, w, now))
  }

  function LateEnd(data: Request, w: World, now: nat): seq<Action> {
    [Put(data)] + ([VerifyHead(w)] + ([Test(now)] + ([CallClose] + ([Clear] + []))))
  }

  lemma {:induction false} HandledAfterExpiry(
    handlers: Handlers, login: Request, data: Request, w: World, now: nat)
      returns (t: System)
    requires handlers.receive && login.kind == RequestType.Login && SameClient(login.cid, data.cid)
    requires data.connect == Datachannel && data.kind == Data && data.data.Some? && Elapsed(now, w.now) > LIVE_SECONDS
    ensures Runs(Init(handlers), LateRun(login, data, w, now), t)
    ensures Enabled(t, ActHead(w)) && t.session == None
    ensures Act(t.server, t.queue[0], w).1 == [DataReceived(data.uid, data.data.value)]
  {
    t := LateAfter(LoggedIn(handlers, login, w), data, w, now);
    LoginRuns(handlers, login, w, LateEnd(data, w, now), t);
  }

  /** The expiry check without anything in between. */
  lemma Expire(s: System, now: nat) returns (t: System)
    requires s.expiring == Expiring.Idle && Expired(s.server, now) && s.server.uidSeq < UINT32
    ensures Runs(s, [Test(now)] + ([CallClose] + ([Clear] + [])), t)
    ensures t == s.(server := ClearExpired(s.server), session := None, effects := s.effects + CloseExpired(s.server))
  {
    var s1 := Next(s, Test(now));
    var s2 := Next(s1, CallClose);
    t := Next(s2, Clear);
    RunsBack(s2, Clear, [], t);
    RunsBack(s1, CallClose, [Clear] + [], t);
    RunsBack(s, Test(now), [CallClose] + ([Clear] + []), t);
  }

  lemma LateAfter(s: System, data: Request, w: World, now: nat) returns (t: System)
    requires s.server.handlers.receive && s.server.connected && s.session.Some? && SameClient(s.server.cid, data.cid)
    requires data.connect == Datachannel && data.kind == Data && data.data.Some?
    requires Elapsed(now, s.server.ts) > LIVE_SECONDS && s.loop && !s.handling && s.queue == []
    requires s.expiring == Expiring.Idle && s.verified == None && !s.drained && s.server.uidSeq < UINT32
    ensures Runs(s, LateEnd(data, w, now), t) && Enabled(t, ActHead(w)) && t.session == None
    ensures Act(t.server, t.queue[0], w).1 == [DataReceived(data.uid, data.data.value)]
  {
    var s5 := Next(s, Put(data));
    var s6 := Next(s5, VerifyHead(w));
    t := Expire(s6, now);
    RunsBack(s5, VerifyHead(w), [Test(now)] + ([CallClose] + ([Clear] + [])), t);
    RunsBack(s, Put(data), [VerifyHead(w)] + ([Test(now)] + ([CallClose] + ([Clear] + []))), t);
  }

  // ---------- Local candidates ----------

  predicate IsLocal(m: Request) {
    m.connect == User && m.kind == Candidate
  }

  /**
   If another client has logged in since a local candidate was queued, nothing but a refusal goes out. Otherwise it is
   published to the client logged in then: on that client's own topic if and only if the last login had a client id
   that is not empty.
   */
  lemma CandidatesStayPrivate(handlers: Handlers, actions: seq<Action>, t: System, w: World)
    requires Runs(Init(handlers), actions, t) && Enabled(t, HandleHead(w)) && t.server.uidSeq < UINT32
    requires IsLocal(t.queue[0])
    ensures var (r, es) := Handle(t.server, t.queue[0], w);
      && r == t.server && |es| <= 1
      && (forall e :: e in es ==> e.Published?)
      && (t.session == None || !SameClient(t.session.value.cid, t.queue[0].cid) ==>
        forall e :: e in es ==> e.request.kind == NotLogin && e.request.data == None)
      && (forall e :: e in es && e.request.kind == Candidate ==>
        && t.session.Some? && SameClient(t.session.value.cid, t.queue[0].cid)
        && LastLogin(t.handled).Some?
        && (OwnTopic(e, LastLogin(t.handled).value.cid) <==> LastLogin(t.handled).value.cid[0] != 0)
        && (e.topic == ClientTopic <==> LastLogin(t.handled).value.cid[0] == 0))
  {
    InvariantAlways(handlers, actions, t);
    forall e | e in Handle(t.server, t.queue[0], w).1 && e.request.kind == Candidate
      ensures t.session.Some? && LastLogin(t.handled).Some?
      ensures OwnTopic(e, LastLogin(t.handled).value.cid) <==> LastLogin(t.handled).value.cid[0] != 0
      ensures e.topic == ClientTopic <==> LastLogin(t.handled).value.cid[0] == 0
    {
      Isolation(handlers, actions, t, w, e);
    }
  }

  /** Every login that the broker delivers comes from one of these client ids. */
  predicate LoginsFrom(actions: seq<Action>, cids: set<Cid>) {
    forall i :: 0 <= i < |actions| ==>
      (actions[i].Put? || actions[i].PassTest?) && actions[i].m.kind == RequestType.Login ==> actions[i].m.cid in cids
  }

  /** In no run of logins from these client ids is a local candidate published elsewhere than to the client's topic. */
  ghost predicate NeverShared(handlers: Handlers, cids: set<Cid>) {
    forall actions, t, w, e ::
      Runs(Init(handlers), actions, t) && LoginsFrom(actions, cids) && CandidateOut(t, w, e) ==>
        OwnTopic(e, t.server.cid)
  }

  /** Handling the local candidate at the head of the queue publishes it as `e`. */
  predicate CandidateOut(t: System, w: World, e: Effect) {
    && t.server.uidSeq < UINT32 && t.queue != [] && IsLocal(t.queue[0])
    && e.Published? && e.request.kind == Candidate
    && ((Enabled(t, HandleHead(w)) && e in Handle(t.server, t.queue[0], w).1)
        || (Enabled(t, ActHead(w)) && e in Act(t.server, t.queue[0], w).1))
  }

  predicate AcceptedFrom(s: System, cids: set<Cid>) {
    && (forall i :: 0 <= i < |s.accepted| && s.accepted[i].kind == RequestType.Login ==> s.accepted[i].cid in cids)
    && (forall i :: 0 <= i < |s.passed| && s.passed[i].kind == RequestType.Login ==> s.passed[i].cid in cids)
  }

  lemma {:induction false} AcceptedRun(s: System, actions: seq<Action>, t: System, cids: set<Cid>)
    requires Runs(s, actions, t) && LoginsFrom(actions, cids) && AcceptedFrom(s, cids)
    ensures AcceptedFrom(t, cids)
    decreases |actions|
  {
    if actions != [] {
      assert LoginsFrom(actions[1..], cids);
      AcceptedRun(Next(s, actions[0]), actions[1..], t, cids);
    }
  }

  lemma {:induction false} LastLoginIn(ms: seq<Request>)
    ensures LastLogin(ms).Some? ==> LastLogin(ms).value in ms && LastLogin(ms).value.kind == RequestType.Login
  {
    if ms != [] && ms[|ms| - 1].kind != RequestType.Login {
      LastLoginIn(ms[..|ms| - 1]);
    }
  }

  /** With an empty client id in the login, a candidate is published to everyone. */
  function SharingRun(login: Request, w: World, uid: int, candidate: seq<byte>): seq<Action> {
    LoginThen(login, w, [PutLocal(uid, candidate)] + [])
  }

  lemma CandidateShared(handlers: Handlers, login: Request, w: World, uid: int, candidate: seq<byte>)
      returns (t: System, e: Effect)
    requires login.kind == RequestType.Login && login.cid[0] == 0 && w.sendOk
    ensures Runs(Init(handlers), SharingRun(login, w, uid, candidate), t) && CandidateOut(t, w, e)
    ensures e.topic == ClientTopic && e.request.data == Some(candidate)
    ensures w.clientId.Some? ==> e.request.cid == w.clientId.value
  {
    var s := LoggedIn(handlers, login, w);
    t := Next(s, PutLocal(uid, candidate));
    assert t.queue == [Request(User, Candidate, uid, login.cid, Some(candidate))];
    e := Handle(t.server, t.queue[0], w).1[0];
    assert e in Handle(t.server, t.queue[0], w).1;
    RunsBack(s, PutLocal(uid, candidate), [], t);
    LoginRuns(handlers, login, w, [PutLocal(uid, candidate)] + [], t);
  }

  lemma NamedStaysPrivate(handlers: Handlers, cids: set<Cid>, actions: seq<Action>, t: System, w: World, e: Effect)
    requires Runs(Init(handlers), actions, t) && LoginsFrom(actions, cids) && CandidateOut(t, w, e)
    requires forall c :: c in cids ==> c[0] != 0
    ensures OwnTopic(e, t.server.cid)
  {
    InvariantAlways(handlers, actions, t);
    LastLoginNamed(handlers, cids, actions, t);
    if Enabled(t, HandleHead(w)) && e in Handle(t.server, t.queue[0], w).1 {
      CandidatesStayPrivate(handlers, actions, t, w);
    } else {
      IsolationBetween(handlers, actions, t, w, e);
    }
  }

  lemma LastLoginNamed(handlers: Handlers, cids: set<Cid>, actions: seq<Action>, t: System)
    requires Runs(Init(handlers), actions, t) && LoginsFrom(actions, cids)
    ensures LastLogin(t.handled).Some? ==> LastLogin(t.handled).value.cid in cids
  {
    InvariantAlways(handlers, actions, t);
    AcceptedRun(Init(handlers), actions, t, cids);
    LastLoginIn(t.handled);
    assert forall i :: 0 <= i < |t.handled| ==> t.handled[i] == t.accepted[i];
  }

  /**
   Main result: no run publishes a local candidate elsewhere than on the topic of the client logged in, if and only if
   every client id that may log in is not empty.
   */
  lemma {:induction false} NeverSharedExactly(handlers: Handlers, cids: set<Cid>)
    ensures NeverShared(handlers, cids) <==> forall c :: c in cids ==> c[0] != 0
  {
    if forall c :: c in cids ==> c[0] != 0 {
      forall actions, t, w, e |
        Runs(Init(handlers), actions, t) && LoginsFrom(actions, cids) && CandidateOut(t, w, e)
        ensures OwnTopic(e, t.server.cid)
      {
        NamedStaysPrivate(handlers, cids, actions, t, w, e);
      }
    } else {
      var c :| c in cids && c[0] == 0;
      var w := World(0, None, true, [], None);
      var login := Request(P2p, RequestType.Login, 0, c, None);
      var t, e := CandidateShared(handlers, login, w, 0, []);
      assert LoginsFrom(SharingRun(login, w, 0, []), cids);
    }
  }
}
