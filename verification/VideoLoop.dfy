/** The consumer loop of the encoder glue: what one pass does, and that its gets and releases fit the frame queue. */
module VideoLoop {
  import opened Common
  import opened Masks
  import opened QueueModel
  import FQ = FrameQueue
  import StartCode
  import opened VideoFrames
  import opened QueueProtocol
  import opened QueueInvariant
  import opened QueueSteps
  import opened QueueDelivery

  // ---------- One pass ----------

  /** A release, with the buffer freed and the node returned, when no other section comes between. */
  function Released(q: Queue, c: nat, buffer: nat): Queue {
    var (r, e) := Release(q, c, buffer);
    if e == None then r else GiveBack(r, e.value)
  }

  /** What a pass makes of the queue: a frame that it got has been released again, whatever became of it. */
  function AfterPass(q: Queue, c: nat): Queue {
    var (r, e) := Get(q, c);
    if e == None || e.value.frame == None then r else Released(r, c, e.value.frame.value)
  }

  /** A frame in memory. */
  datatype FrameBuffer = FrameBuffer(data: array<byte>, length: nat, timestamp: nat, isI: bool)
  {
    function Value(): Frame
      reads data
    {
      Frame(data[..], length, timestamp, isI)
    }
  }

  /** The frame that a get would find. */
  function Found(q: Queue, c: nat): Option<nat> {
    var e := Get(q, c).1;
    if e == None then None else e.value.frame
  }

  /** The pass; `memory` holds the frames at their buffers' addresses. */
  method Pass(q: FQ.FrameQueue, id: bv32, c: nat, memory: map<nat, FrameBuffer>, base: nat)
      returns (got: Option<nat>, video: Option<Video>, base': nat)
    requires q.Valid() && c < MAX_CONSUMERS && id == Bit(c)
    requires var b := Found(q.Value(), c); b.Some? ==> b.value in memory && memory[b.value].Value().Ok()
    modifies q.free, q.ready, q.pool
    ensures q.Valid() && q.Value() == AfterPass(old(q.Value()), c)
    ensures got == Found(old(q.Value()), c) && (got == None ==> video == None && base' == base)
    ensures got.Some? ==> got.value in memory && memory[got.value].Value().Ok()
    ensures got.Some? ==> var f := memory[got.value].Value(); video == ToPeer(base, f) && base' == Base(base, f)
    ensures base != 0 ==> base' == base
    ensures got.Some? && base == 0 && memory[got.value].Value().SetsBase() ==> base' == memory[got.value].timestamp
    ensures video.Some? ==> (memory[got.value].timestamp - base') % UINT32 == video.value.dts
  {
    hide Members, Bit, Get, Release, GiveBack, Released, StartCode.PayloadOffset, StartCode.Readable;
    hide FQ.FrameQueue.Linked, FQ.FrameQueue.Sane;
    video, base' := None, base;
    got := q.GetFrame(id, c);
    if got == None {
      return;
    }
    var frame := memory[got.value];
    if frame.length < MIN_LENGTH {
      ReleaseAll(q, id, c, got.value);
      return;
    }
    if base' == 0 {
      base' := frame.timestamp;
    }
    var dts := (frame.timestamp - base') % UINT32;
    if frame.isI {
      video := Some(Video(0, dts, true));
    } else {
      var offset := StartCode.SendP(frame.data, frame.length);
      if offset.Some? {
        video := Some(Video(offset.value, dts, false));
      }
    }
    ReleaseAll(q, id, c, got.value);
  }

  /** The whole of release_frame. */
  method ReleaseAll(q: FQ.FrameQueue, id: bv32, c: nat, buffer: nat)
    requires q.Valid() && c < MAX_CONSUMERS && id == Bit(c)
    modifies q.free, q.ready, q.pool
    ensures q.Valid() && q.Value() == Released(old(q.Value()), c, buffer)
  {
    BitIsValid(c);
    hide Members, Release, Bit;
    var node := q.ReleaseFrame(id, buffer, c);
    if node != null {
      var _ := q.FreeUnlinked(node);
      q.ReturnNode(node);
    }
  }

  // ---------- The discipline ----------

  /** Where the loop is: at its top, inside get_frame, or at work on a frame. */
  datatype Pc = Top | Getting | Have(buffer: nat)
  {
    function Mine(): Option<nat> { if Have? then Some(buffer) else None }
  }

  /** The program of the loop: it gets at its top only, and releases the frame that it has. Others do as they like. */
  predicate Follows(a: Action, c: nat, pc: Pc) {
    && (a == GetEnter(c) ==> pc == Top)
    && (a == GetSearch(c) || a == GetWake(c) || a == GetGiveUp(c) ==> pc == Getting)
    && (a.ReleaseSection? && a.c == c ==> pc == Have(a.buffer))
  }

  /** Where a step takes it: a frame that is too short or an I frame or a P frame is released like any other. */
  function PcAfter(s: State, a: Action, c: nat, pc: Pc): Pc {
    if a == GetEnter(c) then (if c in s.q.active then Getting else Top)
    else if a == GetSearch(c) then
      (if Get(s.q, c).1 == None then Getting else match Found(s.q, c) case Some(b) => Have(b) case None => Top)
    else if a == GetGiveUp(c) || (a.ReleaseSection? && a.c == c) then Top
    else pc
  }

  predicate RunsLoop(s: State, actions: seq<Action>, c: nat, pc: Pc, t: State, pc': Pc)
    decreases |actions|
  {
    if actions == [] then s == t && pc == pc'
    else
      && |s.consumers| == |s.since| == |s.got| == MAX_CONSUMERS
      && Enabled(s, actions[0]) && Follows(actions[0], c, pc)
      && RunsLoop(Next(s, actions[0]), actions[1..], c, PcAfter(s, actions[0], c, pc), t, pc')
  }

  /** `c` holds exactly the frame that its loop has got, and has one only outside of get_frame. */
  ghost predicate HoldsMine(s: State, c: nat, pc: Pc) {
    var mine := pc.Mine();
    && c < |s.consumers|
    && (forall i :: 0 <= i < |s.q.ready| && c in s.q.ready[i].holders ==> s.q.ready[i].frame == mine)
    && (mine.Some? ==> s.consumers[c] == Out && Holds(s, c, mine.value))
  }

  /** A node of the ready list after a step was on it before, with the same frame and no fewer holders of `c`. */
  ghost predicate From(s: State, r: State, i: nat, j: nat, c: nat) {
    && i < |s.q.ready| && j < |r.q.ready|
    && c in s.q.ready[i].holders && s.q.ready[i].frame == r.q.ready[j].frame
  }

  lemma FromClaim(s: State, c: nat, j: nat) returns (i: nat)
    requires Inv(s) && Enabled(s, MallocClaim)
    requires j < |Next(s, MallocClaim).q.ready| && c in Next(s, MallocClaim).q.ready[j].holders
    ensures From(s, Next(s, MallocClaim), i, j, c)
  {
    var k := Find(AnyUnheld, s.q.ready);
    i := if Next(s, MallocClaim).q.ready == s.q.ready || j < k then j else j + 1;
  }

  lemma FromRelease(s: State, d: nat, buffer: nat, c: nat, j: nat) returns (i: nat)
    requires Inv(s) && Enabled(s, ReleaseSection(d, buffer))
    requires j < |Next(s, ReleaseSection(d, buffer)).q.ready|
    requires c in Next(s, ReleaseSection(d, buffer)).q.ready[j].holders
    ensures From(s, Next(s, ReleaseSection(d, buffer)), i, j, c)
    ensures d == c ==> s.q.ready[i].frame != Some(buffer)
  {
    var k := Find(WithFrame(buffer), s.q.ready);
    HeldIsFirst(s, d, buffer);
    ReleasedReady(s, d, buffer);
    hide Inv, Next, Enabled, Find;
    i := HolderBefore(s.q.ready, Next(s, ReleaseSection(d, buffer)).q.ready, k, j, d, c);
    if k < i {
      OnePlaceOnly(s, k, i, buffer);
    }
  }

  /** A holder of a node after a release held it before. */
  lemma HolderBefore(es: seq<Entry>, rs: seq<Entry>, k: nat, j: nat, d: nat, c: nat) returns (i: nat)
    requires k < |es| && j < |rs| && c in rs[j].holders && es[k].refs > 0
    requires var e := es[k].(refs := es[k].refs - 1, holders := es[k].holders - {d});
      rs == if e.refs == 0 && e.mask <= e.accessed then Without(es, k) else es[k := e]
    ensures i < |es| && c in es[i].holders && es[i].frame == rs[j].frame && (i == k ==> c != d)
  {
    i := if |rs| == |es| || j < k then j else j + 1;
  }

  lemma OnePlaceOnly(s: State, k: nat, i: nat, buffer: nat)
    requires Inv(s) && k < i < |s.q.ready| && s.q.ready[k].frame == Some(buffer)
    ensures s.q.ready[i].frame != Some(buffer)
  {
    if s.q.ready[i].frame == Some(buffer) {
      OnePlace(s, k, i, buffer);
    }
  }

  lemma FromComplete(s: State, buffer: nat, c: nat, j: nat)
    requires Inv(s) && Enabled(s, Action.Complete(buffer))
    requires j < |Next(s, Action.Complete(buffer)).q.ready| && c in Next(s, Action.Complete(buffer)).q.ready[j].holders
    ensures From(s, Next(s, Action.Complete(buffer)), j, j, c)
  {
  }

  /** A frame that `c` holds after a step was held by `c` before it, unless `c` has just got it. */
  lemma HeldBefore(s: State, a: Action, c: nat, j: nat) returns (i: nat)
    requires Inv(s) && Enabled(s, a) && a != GetSearch(c)
    requires j < |Next(s, a).q.ready| && c in Next(s, a).q.ready[j].holders
    ensures From(s, Next(s, a), i, j, c)
    ensures a.ReleaseSection? && a.c == c ==> s.q.ready[i].frame != Some(a.buffer)
  {
    if a.Register? {
      i := KeptFrom(OnRegister, s.q.ready, j);
    } else if a.Unregister? {
      i := KeptFrom(OnUnregister(a.c), s.q.ready, j);
    } else if a.ClearReady? {
      i := KeptFrom(OnClear, s.q.ready, j);
    } else if a.MallocClaim? {
      i := FromClaim(s, c, j);
    } else if a.ReleaseSection? {
      i := FromRelease(s, a.c, a.buffer, c, j);
    } else if a.Complete? {
      FromComplete(s, a.buffer, c, j);
      i := j;
    } else {
      i := j;
    }
  }

  /** What the loop has got stays held while other threads run. */
  lemma MineStays(s: State, a: Action, c: nat, buffer: nat)
    requires Inv(s) && Enabled(s, a) && Holds(s, c, buffer) && a != ReleaseSection(c, buffer)
    ensures Holds(Next(s, a), c, buffer)
  {
    var e :| e in s.q.ready && e.frame == Some(buffer) && c in e.holders;
    var i :| 0 <= i < |s.q.ready| && s.q.ready[i] == e;
    var j := HeldMoves(s, a, i, c, e.id, buffer, e.stamp);
    assert Next(s, a).q.ready[j] in Next(s, a).q.ready;
  }

  lemma MineGot(s: State, c: nat)
    requires Inv(s) && Enabled(s, GetSearch(c)) && HoldsMine(s, c, Getting)
    ensures HoldsMine(Next(s, GetSearch(c)), c, PcAfter(s, GetSearch(c), c, Getting))
  {
    var r := Next(s, GetSearch(c));
    var i := Find(AwaitedBy(c), s.q.ready);
    assert forall j :: 0 <= j < |s.q.ready| ==> c !in s.q.ready[j].holders;
    if i < |s.q.ready| {
      assert r.q.ready[i] in r.q.ready && c in r.q.ready[i].holders;
    }
  }

  /** The thread of `c` stays where it is while it has a frame, until it releases it. */
  lemma LoopStep(s: State, a: Action, c: nat, pc: Pc)
    requires Inv(s) && Enabled(s, a) && HoldsMine(s, c, pc) && Follows(a, c, pc) && a != GetSearch(c)
    ensures var m := PcAfter(s, a, c, pc).Mine();
      && m == (if a.ReleaseSection? && a.c == c then None else pc.Mine())
      && c < |Next(s, a).consumers| && (m.Some? ==> Next(s, a).consumers[c] == Out)
  {
  }

  lemma MineNext(s: State, a: Action, c: nat, pc: Pc)
    requires Inv(s) && Enabled(s, a) && HoldsMine(s, c, pc) && Follows(a, c, pc)
    ensures HoldsMine(Next(s, a), c, PcAfter(s, a, c, pc))
  {
    if a == GetSearch(c) {
      MineGot(s, c);
    } else {
      MineMoves(s, a, c, pc);
    }
  }

  lemma MineMoves(s: State, a: Action, c: nat, pc: Pc)
    requires Inv(s) && Enabled(s, a) && HoldsMine(s, c, pc) && Follows(a, c, pc) && a != GetSearch(c)
    ensures HoldsMine(Next(s, a), c, PcAfter(s, a, c, pc))
  {
    var r, m := Next(s, a), PcAfter(s, a, c, pc).Mine();
    LoopStep(s, a, c, pc);
    hide Inv, Next, Enabled, PcAfter;
    forall j | 0 <= j < |r.q.ready| && c in r.q.ready[j].holders ensures r.q.ready[j].frame == m {
      var i := HeldBefore(s, a, c, j);
    }
    if m.Some? {
      MineStays(s, a, c, m.value);
    }
  }

  lemma {:induction false} MineRun(s: State, actions: seq<Action>, c: nat, pc: Pc, t: State, pc': Pc)
    requires Inv(s) && HoldsMine(s, c, pc) && RunsLoop(s, actions, c, pc, t, pc')
    ensures Inv(t) && HoldsMine(t, c, pc')
    decreases |actions|
  {
    if actions != [] {
      NextKeeps(s, actions[0]);
      MineNext(s, actions[0], c, pc);
      MineRun(Next(s, actions[0]), actions[1..], c, PcAfter(s, actions[0], c, pc), t, pc');
    }
  }

  /**
   Main result: in every run in which a consumer's thread follows the program of the loop, the consumer holds exactly
   the frame the loop is at work on, so that the release it comes to is always of a frame it holds, and inside
   get_frame and between two passes it holds nothing.
   */
  lemma LoopMeetsDiscipline(format: Format, ids: seq<nat>, actions: seq<Action>, c: nat, t: State, pc: Pc)
    requires Different(ids) && c < MAX_CONSUMERS && RunsLoop(Init(format, ids), actions, c, Top, t, pc)
    ensures forall b: nat :: Holds(t, c, b) <==> pc == Have(b)
    ensures pc.Have? ==> Enabled(t, ReleaseSection(c, pc.buffer))
  {
    InitOk(format, ids);
    MineRun(Init(format, ids), actions, c, Top, t, pc);
    forall b: nat | Holds(t, c, b) ensures pc == Have(b) {
      var e :| e in t.q.ready && e.frame == Some(b) && c in e.holders;
      var i :| 0 <= i < |t.q.ready| && t.q.ready[i] == e;
    }
  }

  // ---------- A pass is a run of that program ----------

  /** The steps of one pass when no other thread comes between. */
  function Trace(q: Queue, c: nat): seq<Action> {
    [GetEnter(c)] + AfterEnter(q, c)
  }

  function AfterEnter(q: Queue, c: nat): seq<Action> {
    match Found(q, c)
    case None => [GetSearch(c)] + ([GetGiveUp(c)] + [])
    case Some(b) => [GetSearch(c)] + ([ReleaseSection(c, b)] + Ending(Release(Get(q, c).0, c, b).1, c))
  }

  function Ending(unlinked: Option<Entry>, c: nat): seq<Action> {
    if unlinked == None then [] else [ReleaseFree(c)] + ([ReleaseReturn(c)] + [])
  }

  lemma LoopBack(s: State, a: Action, rest: seq<Action>, c: nat, pc: Pc, t: State, pc': Pc)
    requires Inv(s) && Enabled(s, a) && Follows(a, c, pc)
    requires RunsLoop(Next(s, a), rest, c, PcAfter(s, a, c, pc), t, pc')
    ensures RunsLoop(s, [a] + rest, c, pc, t, pc')
  {
    assert ([a] + rest)[1..] == rest;
  }

  /** The unlocked end of a release. */
  lemma UnlinkedIsRun(s: State, c: nat) returns (t: State)
    requires Inv(s) && c < MAX_CONSUMERS && s.consumers[c].Unlinked?
    ensures RunsLoop(s, [ReleaseFree(c)] + ([ReleaseReturn(c)] + []), c, Top, t, Top)
    ensures t.q == GiveBack(s.q, s.consumers[c].node) && c < |t.consumers| && t.consumers[c] == Out
  {
    var m := Next(s, ReleaseFree(c));
    NextKeeps(s, ReleaseFree(c));
    t := Next(m, ReleaseReturn(c));
    hide Inv;
    LoopBack(m, ReleaseReturn(c), [], c, Top, t, Top);
    LoopBack(s, ReleaseFree(c), [ReleaseReturn(c)] + [], c, Top, t, Top);
  }

  /** The end of a pass: release, free the buffer and return the node. */
  lemma EndingIsRun(s: State, c: nat, buffer: nat) returns (t: State)
    requires Inv(s) && Enabled(s, ReleaseSection(c, buffer))
    ensures RunsLoop(s, [ReleaseSection(c, buffer)] + Ending(Release(s.q, c, buffer).1, c), c, Have(buffer), t, Top)
    ensures t.q == Released(s.q, c, buffer) && c < |t.consumers| && t.consumers[c] == Out
  {
    var a := ReleaseSection(c, buffer);
    NextKeeps(s, a);
    t := Next(s, a);
    if Release(s.q, c, buffer).1.Some? {
      t := UnlinkedIsRun(t, c);
    }
    hide Inv;
    LoopBack(s, a, Ending(Release(s.q, c, buffer).1, c), c, Have(buffer), t, Top);
  }

  /** What a search gives the thread. */
  lemma SearchGives(s: State, c: nat)
    requires Inv(s) && Enabled(s, GetSearch(c))
    ensures var r, b := Next(s, GetSearch(c)), Found(s.q, c);
      && r.q == Get(s.q, c).0 && |r.consumers| == MAX_CONSUMERS && c < MAX_CONSUMERS
      && (b == None <==> Get(s.q, c).1 == None)
      && (b == None ==> r.consumers[c] == Waiting && r.q == s.q)
      && (b.Some? ==> r.consumers[c] == Out && Holds(r, c, b.value))
  {
    var i := Find(AwaitedBy(c), s.q.ready);
    var r := Next(s, GetSearch(c));
    if i < |s.q.ready| {
      assert ReadyOk(s.q.ready[i], s.q.active, s.completed);
      assert r.q.ready[i] in r.q.ready && c in r.q.ready[i].holders;
    }
  }

  /** A search that finds nothing, and one that finds a frame, with the rest of the pass. */
  lemma SearchIsRun(s: State, c: nat) returns (t: State)
    requires Inv(s) && Enabled(s, GetSearch(c))
    ensures RunsLoop(s, AfterEnter(s.q, c), c, Getting, t, Top)
    ensures t.q == AfterPass(s.q, c) && c < |t.consumers| && t.consumers[c] == Out
  {
    SearchGives(s, c);
    NextKeeps(s, GetSearch(c));
    var r := Next(s, GetSearch(c));
    assert |r.since| == |r.got| == MAX_CONSUMERS && c < |r.consumers|;
    hide Inv;
    hide Get, Released;
    match Found(s.q, c)
    case None =>
      t := GiveUpIsRun(r, c);
      LoopBack(s, GetSearch(c), [GetGiveUp(c)] + [], c, Getting, t, Top);
    case Some(b) =>
      t := EndingIsRun(r, c, b);
      LoopBack(s, GetSearch(c), [ReleaseSection(c, b)] + Ending(Release(r.q, c, b).1, c), c, Getting, t, Top);
  }

  lemma GiveUpIsRun(s: State, c: nat) returns (t: State)
    requires Inv(s) && Enabled(s, GetGiveUp(c))
    ensures RunsLoop(s, [GetGiveUp(c)] + [], c, Getting, t, Top)
    ensures t.q == s.q && c < |t.consumers| && t.consumers[c] == Out
  {
    t := Next(s, GetGiveUp(c));
    LoopBack(s, GetGiveUp(c), [], c, Getting, t, Top);
  }

  /**
   Main result: what the pass does to the queue is what this run of the loop's program does to it, from the top of the
   loop back to its top.
   */
  lemma {:induction false} PassIsRun(s: State, c: nat) returns (t: State)
    requires Inv(s) && c < MAX_CONSUMERS && s.consumers[c] == Out && c in s.q.active
    ensures RunsLoop(s, Trace(s.q, c), c, Top, t, Top)
    ensures t.q == AfterPass(s.q, c) && c < |t.consumers| && t.consumers[c] == Out
  {
    var m := Move(s, c, Searching);
    assert m == Next(s, GetEnter(c));
    NextKeeps(s, GetEnter(c));
    t := SearchIsRun(m, c);
    LoopBack(s, GetEnter(c), AfterEnter(s.q, c), c, Top, t, Top);
  }
}
