/** The signalling server as values: what handling one message does to the session, and which callbacks it makes. */
module SignalModel {
  import opened Common

  /** Client ids are arrays of 13 bytes; the first 12 are compared. */
  const CID_LENGTH: nat := 13
  const LIVE_SECONDS: int := 30
  const FIRST_UID: nat := 10

  type Cid = c: seq<byte> | |c| == CID_LENGTH witness seq(CID_LENGTH, _ => 0)

  datatype ConnectType = P2p | Sfu | Datachannel | User

  datatype RequestType =
    | NoQueryFile | NotLogin | Error | Login | LoginResponse | Connect | ConnectSdp | Answer | Candidate
    | SfuSuccess | SfuFail | Close | Data | Ping

  datatype Request = Request(connect: ConnectType, kind: RequestType, uid: int, cid: Cid, data: Option<seq<byte>>)

  /** The callbacks the application has installed. */
  datatype Handlers = Handlers(
    addPeer: bool, addPeer2: bool, addCandidate: bool, setLocal: bool, setRemote: bool, close: bool, receive: bool)

  /** What handling one message depends on outside the server: the clock, the broker and the peer connection. */
  datatype World = World(now: nat, clientId: Option<Cid>, sendOk: bool, answer: seq<byte>, offer: Option<seq<byte>>)

  datatype Topic = ClientTopic | CidTopic(cid: Cid)

  datatype Effect =
    | PeerAdded(uid: int, sdp: Option<seq<byte>>)
    | PeerOffered(uid: int)
    | LocalSet(uid: int, answer: seq<byte>)
    | RemoteSet(uid: int, sdp: Option<seq<byte>>)
    | CandidateAdded(uid: int, candidate: Option<seq<byte>>)
    | DataReceived(uid: int, data: seq<byte>)
    | Closed(uid: int)
    | Published(topic: Topic, request: Request)

  datatype Server = Server(
    handlers: Handlers, connected: bool, uid: int, ts: nat, cid: Cid, uidSeq: nat)

  function ZeroCid(): Cid {
    seq(CID_LENGTH, _ => 0)
  }

  function Create(handlers: Handlers): Server {
    Server(handlers, false, 0, 0, ZeroCid(), FIRST_UID)
  }

  predicate SameClient(a: Cid, b: Cid) {
    a[..CID_LENGTH - 1] == b[..CID_LENGTH - 1]
  }

  /** Publish a request to its client, or to everyone when it has no client id; the broker may refuse it. */
  function Send(request: Request, w: World): seq<Effect> {
    if !w.sendOk then []
    else if request.cid[0] == 0 then
      [Published(ClientTopic, if w.clientId.Some? then request.(cid := w.clientId.value) else request)]
    else [Published(CidTopic(request.cid), request)]
  }

  function When(present: bool, e: Effect): seq<Effect> {
    if present then [e] else []
  }

  function HandleLogin(s: Server, m: Request, w: World): (Server, seq<Effect>)
    requires s.uidSeq < UINT32
  {
    var uid := ToInt32(s.uidSeq);
    var response := Request(m.connect, LoginResponse, uid, m.cid, None);
    (s.(connected := true, uid := uid, ts := w.now, cid := m.cid, uidSeq := (s.uidSeq + 1) % UINT32),
     When(s.handlers.close, Closed(s.uid)) + Send(response, w))
  }

  function HandleP2p(s: Server, m: Request, w: World): (Server, seq<Effect>) {
    match m.kind
    case Connect =>
      if !s.handlers.addPeer2 then (s, [])
      else if w.offer == None then (s, [PeerOffered(m.uid)])
      else (s, [PeerOffered(m.uid)] + Send(Request(P2p, ConnectSdp, m.uid, m.cid, w.offer), w))
    case ConnectSdp =>
      if !s.handlers.addPeer then (s, [])
      else
        (s, [PeerAdded(m.uid, m.data)] + Send(Request(P2p, Answer, m.uid, m.cid, Some(w.answer)), w)
         + When(w.sendOk && s.handlers.setLocal, LocalSet(m.uid, w.answer)))
    case Answer => (s, When(s.handlers.setRemote, RemoteSet(m.uid, m.data)))
    case Candidate => (s, When(s.handlers.addCandidate, CandidateAdded(m.uid, m.data)))
    case Ping => (if s.connected then s.(ts := w.now) else s, [])
    case _ => (s, [])
  }

  function HandleData(s: Server, m: Request): seq<Effect> {
    if s.handlers.receive && m.data.Some? then [DataReceived(m.uid, m.data.value)] else []
  }

  /** A message of a client that is not the one logged in is answered with a refusal; with nobody logged in, ignored. */
  function Refuse(s: Server, m: Request, w: World): seq<Effect> {
    if !s.connected then [] else Send(Request(m.connect, NotLogin, m.uid, m.cid, None), w)
  }

  function Handle(s: Server, m: Request, w: World): (Server, seq<Effect>)
    requires s.uidSeq < UINT32
  {
    if m.kind == Login then HandleLogin(s, m, w)
    else if !Verified(s, m) then (s, Refuse(s, m, w))
    else Act(s, m, w)
  }

  predicate Verified(s: Server, m: Request) {
    s.connected && SameClient(s.cid, m.cid)
  }

  /** What a verified message does, other than a login. The session is not looked at again. */
  function Act(s: Server, m: Request, w: World): (Server, seq<Effect>) {
    if m.connect == User then (s, Send(m.(connect := P2p), w))
    else if m.kind == Close then (s, When(s.handlers.close, Closed(m.uid)))
    else if m.connect == P2p then HandleP2p(s, m, w)
    else if m.connect == Datachannel then (s, HandleData(s, m))
    else (s, [])
  }

  /** Seconds since the last sign of life, in the source's unsigned 64-bit and signed 32-bit arithmetic. */
  function Elapsed(now: nat, ts: nat): int {
    ToInt32((now - ts) % 0x1_0000_0000_0000_0000 / 1_000_000 % UINT32)
  }

  /** The test of the expiry check. */
  predicate Expired(s: Server, now: nat) {
    s.connected && Elapsed(now, s.ts) > LIVE_SECONDS
  }

  /** The callback it then makes: it closes whatever uid is current by then. */
  function CloseExpired(s: Server): seq<Effect> {
    When(s.handlers.close, Closed(s.uid))
  }

  /** And the end of the session that is current after that. */
  function ClearExpired(s: Server): Server {
    s.(connected := false)
  }

  /** A candidate of the local peer becomes a queued message to the client logged in now. */
  function LocalCandidate(s: Server, uid: int, candidate: seq<byte>): Option<Request> {
    if s.connected then Some(Request(User, Candidate, uid, s.cid, Some(candidate))) else None
  }
}
