/** Which callbacks and publications a message causes, told from the side of the effect, and in which order. */
module SignalCallbacks {
  import opened Common
  import opened SignalModel
  import opened SignalRuns

  /** Who a message comes from: the client logged in, another one, or anyone while nobody is logged in. */
  datatype Sender = Current | Other | Nobody

  function SenderOf(session: Option<Login>, m: Request): Sender {
    if session == None then Nobody else if SameClient(session.value.cid, m.cid) then Current else Other
  }

  /** A client is known by the first twelve bytes of its id: an id that differs in the last one is the same client's. */
  lemma SendersAre(session: Option<Login>, m: Request)
    ensures SenderOf(session, m) == Current <==>
      session.Some? && forall i :: 0 <= i < 12 ==> session.value.cid[i] == m.cid[i]
    ensures SenderOf(session, m) == Nobody <==> session == None
  {
    if session.Some? {
      var a, b := session.value.cid, m.cid;
      assert a[..12] == b[..12] <==> forall i :: 0 <= i < 12 ==> a[i] == b[i];
    }
  }

  /** A message of the client logged in, on this connection and of this type. */
  predicate Asks(from: Sender, m: Request, connect: ConnectType, kind: RequestType) {
    from == Current && m.connect == connect && m.kind == kind
  }

  /** A message that asks for nothing but what its connection is for. */
  predicate Plain(m: Request) {
    m.kind != RequestType.Login && m.kind != RequestType.Close
  }

  /**
   When an effect happens, given who sends the message, the uid of the session before it and the uid the next login
   gets: every callback with the message's own uid and data, if and only if it is installed.
   */
  predicate Due(h: Handlers, from: Sender, uid: int, next: int, m: Request, w: World, e: Effect) {
    match e
    case RemoteSet(u, sdp) => h.setRemote && Asks(from, m, P2p, Answer) && u == m.uid && sdp == m.data
    case CandidateAdded(u, c) => h.addCandidate && Asks(from, m, P2p, Candidate) && u == m.uid && c == m.data
    case PeerAdded(u, sdp) => h.addPeer && Asks(from, m, P2p, ConnectSdp) && u == m.uid && sdp == m.data
    case PeerOffered(u) => h.addPeer2 && Asks(from, m, P2p, Connect) && u == m.uid
    case LocalSet(u, sdp) =>
      h.addPeer && h.setLocal && w.sendOk && Asks(from, m, P2p, ConnectSdp) && u == m.uid && sdp == w.answer
    case DataReceived(u, data) =>
      h.receive && from == Current && m.connect == Datachannel && Plain(m) && u == m.uid && m.data == Some(data)
    case Closed(u) =>
      && h.close
      && (if m.kind == RequestType.Login then u == uid
          else from == Current && m.kind == RequestType.Close && m.connect != User && u == m.uid)
    case Published(topic, r) =>
      && w.sendOk
      && topic == (if m.cid[0] == 0 then ClientTopic else CidTopic(m.cid))
      && r.cid == (if m.cid[0] == 0 && w.clientId.Some? then w.clientId.value else m.cid)
      && Replies(h, from, next, m, w, r)
  }

  /** The request that answers a message or passes it on. */
  predicate Replies(h: Handlers, from: Sender, next: int, m: Request, w: World, r: Request) {
    if m.kind == RequestType.Login then
      r.kind == LoginResponse && r.connect == m.connect && r.uid == next && r.data == None
    else if from == Other then
      r.kind == NotLogin && r.connect == m.connect && r.uid == m.uid && r.data == None
    else if from == Current && m.connect == User then
      r.kind == m.kind && r.connect == P2p && r.uid == m.uid && r.data == m.data
    else
      && r.connect == P2p && r.uid == m.uid
      && ((r.kind == ConnectSdp && h.addPeer2 && Asks(from, m, P2p, Connect) && w.offer.Some? && r.data == w.offer)
          || (r.kind == Answer && h.addPeer && Asks(from, m, P2p, ConnectSdp) && r.data == Some(w.answer)))
  }

  /** The order of the effects of one message: callbacks, then the publication, then the local description. */
  function Rank(e: Effect): nat {
    if e.LocalSet? then 2 else if e.Published? then 1 else 0
  }

  predicate InOrder(es: seq<Effect>) {
    forall i, j :: 0 <= i < j < |es| ==> Rank(es[i]) < Rank(es[j])
  }

  // ---------- One message ----------

  lemma P2pDue(s: Server, uid: int, next: int, m: Request, w: World)
    requires Plain(m) && m.connect == P2p
    ensures forall e :: e in HandleP2p(s, m, w).1 <==> Due(s.handlers, Current, uid, next, m, w, e)
    ensures InOrder(HandleP2p(s, m, w).1)
  {
  }

  lemma ActDue(s: Server, uid: int, next: int, m: Request, w: World)
    requires m.kind != RequestType.Login
    ensures forall e :: e in Act(s, m, w).1 <==> Due(s.handlers, Current, uid, next, m, w, e)
    ensures InOrder(Act(s, m, w).1)
  {
    if m.connect == P2p && Plain(m) {
      P2pDue(s, uid, next, m, w);
      hide HandleP2p, Due;
    }
  }

  lemma RefuseDue(s: Server, session: Option<Login>, uid: int, next: int, m: Request, w: World)
    requires (s.connected <==> session.Some?) && (session.Some? ==> session.value.cid == s.cid)
    requires m.kind != RequestType.Login && !Verified(s, m)
    ensures forall e :: e in Refuse(s, m, w) <==> Due(s.handlers, SenderOf(session, m), uid, next, m, w, e)
    ensures InOrder(Refuse(s, m, w))
  {
  }

  lemma LoginDue(s: Server, from: Sender, m: Request, w: World)
    requires m.kind == RequestType.Login && s.uidSeq < UINT32
    ensures forall e :: e in Handle(s, m, w).1 <==> Due(s.handlers, from, s.uid, ToInt32(s.uidSeq), m, w, e)
    ensures InOrder(Handle(s, m, w).1)
  {
  }

  lemma Added(before: seq<Effect>, added: seq<Effect>)
    ensures before <= before + added && (before + added)[|before|..] == added
  {
  }

  // ---------- Main results ----------

  /**
   Main result: in every run, handling the head of the queue adds exactly the effects that are due, each once and in
   order. A login closes the uid of the session before and its response carries the uid issued.
   */
  lemma {:induction false} HandledExactly(handlers: Handlers, actions: seq<Action>, t: System, w: World)
    requires Runs(Init(handlers), actions, t) && Enabled(t, HandleHead(w))
    ensures t.server.uidSeq < UINT32 && t.effects <= Next(t, HandleHead(w)).effects
    ensures t.Logins() > 0 ==> t.server.uid == UidOf(t.Logins() - 1)
    ensures var m, added := t.queue[0], Next(t, HandleHead(w)).effects[|t.effects|..];
      && InOrder(added)
      && forall e :: e in added <==>
        Due(handlers, SenderOf(t.session, m), t.server.uid, UidOf(t.Logins()), m, w, e)
  {
    InvariantAlways(handlers, actions, t);
    HandlersStay(Init(handlers), actions, t);
    var m := t.queue[0];
    Added(t.effects, Handle(t.server, m, w).1);
    if m.kind == RequestType.Login {
      LoginDue(t.server, SenderOf(t.session, m), m, w);
    } else if Verified(t.server, m) {
      ActDue(t.server, t.server.uid, UidOf(t.Logins()), m, w);
    } else {
      RefuseDue(t.server, t.session, t.server.uid, UidOf(t.Logins()), m, w);
    }
  }

  /** The same when another thread runs between the verification of a message, which may refuse it, and its handling. */
  lemma {:induction false} VerifiedExactly(handlers: Handlers, actions: seq<Action>, t: System, w: World)
    requires Runs(Init(handlers), actions, t) && Enabled(t, VerifyHead(w))
    ensures t.server.uidSeq < UINT32 && t.effects <= Next(t, VerifyHead(w)).effects
    ensures var m, r := t.queue[0], Next(t, VerifyHead(w));
      var added := r.effects[|t.effects|..];
      if SenderOf(t.session, m) == Current then added == [] && r.verified == t.session
      else
        && r.verified == None && InOrder(added)
        && forall e :: e in added <==> Due(handlers, SenderOf(t.session, m), t.server.uid, UidOf(t.Logins()), m, w, e)
  {
    InvariantAlways(handlers, actions, t);
    HandlersStay(Init(handlers), actions, t);
    var m := t.queue[0];
    if Verified(t.server, m) {
      Added(t.effects, []);
    } else {
      Added(t.effects, Refuse(t.server, m, w));
      RefuseDue(t.server, t.session, t.server.uid, UidOf(t.Logins()), m, w);
    }
  }

  lemma {:induction false} ActedExactly(handlers: Handlers, actions: seq<Action>, t: System, w: World)
    requires Runs(Init(handlers), actions, t) && Enabled(t, ActHead(w))
    ensures t.server.uidSeq < UINT32 && t.effects <= Next(t, ActHead(w)).effects
    ensures var m, added := t.queue[0], Next(t, ActHead(w)).effects[|t.effects|..];
      && InOrder(added)
      && forall e :: e in added <==> Due(handlers, Current, t.server.uid, UidOf(t.Logins()), m, w, e)
  {
    InvariantAlways(handlers, actions, t);
    HandlersStay(Init(handlers), actions, t);
    Added(t.effects, Act(t.server, t.queue[0], w).1);
    ActDue(t.server, t.server.uid, UidOf(t.Logins()), t.queue[0], w);
  }

  /** No other step adds an effect, except that the expiry check closes the uid that is current by then. */
  lemma {:induction false} OthersAdd(handlers: Handlers, actions: seq<Action>, t: System, a: Action)
    requires Runs(Init(handlers), actions, t) && Enabled(t, a) && !Handles(a)
    ensures t.server.uidSeq < UINT32
    ensures Next(t, a).effects == t.effects + if a.CallClose? && handlers.close then [Closed(t.server.uid)] else []
  {
    InvariantAlways(handlers, actions, t);
    HandlersStay(Init(handlers), actions, t);
    assert t.effects + [] == t.effects;
  }

  lemma {:induction false} HandlersStay(s: System, actions: seq<Action>, t: System)
    requires Runs(s, actions, t)
    ensures t.server.handlers == s.server.handlers
    decreases |actions|
  {
    if actions != [] {
      HandlersNext(s, actions[0]);
      HandlersStay(Next(s, actions[0]), actions[1..], t);
    }
  }

  lemma HandlersNext(s: System, a: Action)
    requires Enabled(s, a) && s.server.uidSeq < UINT32
    ensures Next(s, a).server.handlers == s.server.handlers
  {
    if a.HandleHead? {
      ServerAfter(s.server, s.queue[0], a.w);
      hide Handle;
    }
  }

  /**
   A candidate of the local peer is put into the queue, as a request to the client logged in, if and only if somebody is
   logged in and the run loop has not been stopped.
   */
  lemma {:induction false} CandidateQueued(
    handlers: Handlers, actions: seq<Action>, t: System, uid: int, candidate: seq<byte>)
    requires Runs(Init(handlers), actions, t)
    ensures t.server.uidSeq < UINT32
    ensures var r := Next(t, PutLocal(uid, candidate));
      if t.session.Some? && t.loop then
        var m := Request(User, Candidate, uid, t.session.value.cid, Some(candidate));
        r == t.(queue := t.queue + [m], accepted := t.accepted + [m])
      else r == t
  {
    InvariantAlways(handlers, actions, t);
  }

  /** What the expiry check finds: a session without a sign of life for 31 seconds, as clocks of 2^31 seconds tell. */
  lemma {:induction false} ExpiresExactly(handlers: Handlers, actions: seq<Action>, t: System, now: nat)
    requires Runs(Init(handlers), actions, t) && Enabled(t, Test(now))
    requires t.session.Some? ==> t.session.value.seen <= now < t.session.value.seen + 0x8000_0000 * 1_000_000
    ensures t.server.uidSeq < UINT32
    ensures Next(t, Test(now)).expiring == Tested <==> t.session.Some? && now - t.session.value.seen >= 31_000_000
  {
    InvariantAlways(handlers, actions, t);
    if t.session.Some? {
      ElapsedSeconds(now, t.server.ts);
    }
  }

  lemma ElapsedSeconds(now: nat, ts: nat)
    requires ts <= now < ts + 0x8000_0000 * 1_000_000
    ensures Elapsed(now, ts) == (now - ts) / 1_000_000
  {
    assert (now - ts) % 0x1_0000_0000_0000_0000 == now - ts;
  }
}
