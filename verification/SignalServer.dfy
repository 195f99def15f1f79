/** The signalling server session, updated in place by its handlers. */
module SignalServer {
  import opened Common
  import opened SignalModel

  class Session {
    const handlers: Handlers
    var connected: bool
    var uid: int
    var ts: nat
    var cid: Cid
    var uidSeq: nat
    /** The callbacks made and the requests published so far. */
    var effects: seq<Effect>

    constructor (handlers: Handlers)
      ensures Valid() && Value() == Create(handlers) && effects == []
    {
      this.handlers := handlers;
      connected, uid, ts, cid, uidSeq := false, 0, 0, ZeroCid(), FIRST_UID;
      effects := [];
    }

    ghost predicate Valid()
      reads this
    {
      uidSeq < UINT32
    }

    ghost function Value(): Server
      reads this
    {
      Server(handlers, connected, uid, ts, cid, uidSeq)
    }

    method SendMessage(request: Request, w: World)
      modifies this`effects
      ensures effects == old(effects) + Send(request, w)
    {
      if !w.sendOk {
        return;
      }
      var topic := if request.cid[0] == 0 then ClientTopic else CidTopic(request.cid);
      var sent := if request.cid[0] == 0 && w.clientId.Some? then request.(cid := w.clientId.value) else request;
      effects := effects + [Published(topic, sent)];
    }

    method HandleLogin(m: Request, w: World)
      requires Valid()
      modifies this
      ensures Valid() && Value() == SignalModel.HandleLogin(old(Value()), m, w).0
      ensures effects == old(effects) + SignalModel.HandleLogin(old(Value()), m, w).1
    {
      var newUid := ToInt32(uidSeq);
      uidSeq := (uidSeq + 1) % UINT32;
      if handlers.close {
        effects := effects + [Closed(uid)];
      }
      cid, ts, uid, connected := m.cid, w.now, newUid, true;
      SendMessage(Request(m.connect, LoginResponse, newUid, m.cid, None), w);
    }

    /** True when the message may be handled. */
    method Verify(m: Request, w: World) returns (ok: bool)
      modifies this`effects
      ensures ok == (connected && SameClient(cid, m.cid))
      ensures effects == old(effects) + if ok then [] else Refuse(Value(), m, w)
    {
      if !connected {
        return false;
      }
      if cid[..CID_LENGTH - 1] != m.cid[..CID_LENGTH - 1] {
        SendMessage(Request(m.connect, NotLogin, m.uid, m.cid, None), w);
        return false;
      }
      return true;
    }

    method HandleP2p(m: Request, w: World)
      requires Valid()
      modifies this
      ensures Valid() && Value() == SignalModel.HandleP2p(old(Value()), m, w).0
      ensures effects == old(effects) + SignalModel.HandleP2p(old(Value()), m, w).1
    {
      match m.kind
      case Connect =>
        if handlers.addPeer2 {
          effects := effects + [PeerOffered(m.uid)];
          if w.offer.Some? {
            SendMessage(Request(P2p, ConnectSdp, m.uid, m.cid, w.offer), w);
          }
        }
      case ConnectSdp =>
        if handlers.addPeer {
          effects := effects + [PeerAdded(m.uid, m.data)];
          SendMessage(Request(P2p, Answer, m.uid, m.cid, Some(w.answer)), w);
          if w.sendOk && handlers.setLocal {
            effects := effects + [LocalSet(m.uid, w.answer)];
          }
        }
      case Answer =>
        if handlers.setRemote {
          effects := effects + [RemoteSet(m.uid, m.data)];
        }
      case Candidate =>
        if handlers.addCandidate {
          effects := effects + [CandidateAdded(m.uid, m.data)];
        }
      case Ping =>
        if connected {
          ts := w.now;
        }
      case _ =>
    }

    method HandleMessage(m: Request, w: World)
      requires Valid()
      modifies this
      ensures Valid() && Value() == Handle(old(Value()), m, w).0
      ensures effects == old(effects) + Handle(old(Value()), m, w).1
    {
      if m.kind == Login {
        HandleLogin(m, w);
        return;
      }
      var ok := Verify(m, w);
      if !ok {
        return;
      }
      if m.connect == User {
        SendMessage(m.(connect := P2p), w);
        return;
      }
      if m.kind == Close {
        if handlers.close {
          effects := effects + [Closed(m.uid)];
        }
        return;
      }
      match m.connect
      case P2p => HandleP2p(m, w);
      case Datachannel =>
        if handlers.receive && m.data.Some? {
          effects := effects + [DataReceived(m.uid, m.data.value)];
        }
      case _ =>
    }

    /** The three steps of the expiry check, which takes no lock around them. */
    method TestExpired(now: nat) returns (expired: bool)
      requires Valid()
      ensures expired == Expired(Value(), now)
    {
      if !connected {
        return false;
      }
      return Elapsed(now, ts) > LIVE_SECONDS;
    }

    method CloseExpired()
      requires Valid()
      modifies this`effects
      ensures Valid() && effects == old(effects) + SignalModel.CloseExpired(Value())
    {
      if handlers.close {
        effects := effects + [Closed(uid)];
      }
    }

    method ClearExpired()
      requires Valid()
      modifies this`connected
      ensures Valid() && Value() == SignalModel.ClearExpired(old(Value()))
    {
      connected := false;
    }

    /** The whole check when nothing comes between its steps. */
    method CheckLive(now: nat)
      requires Valid()
      modifies this
      ensures Valid()
      ensures Value() == if Expired(old(Value()), now) then SignalModel.ClearExpired(old(Value())) else old(Value())
      ensures effects ==
        old(effects) + if Expired(old(Value()), now) then SignalModel.CloseExpired(old(Value())) else []
    {
      var expired := TestExpired(now);
      if expired {
        CloseExpired();
        ClearExpired();
      }
    }
  }
}
