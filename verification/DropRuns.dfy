/** Runs of the H264 drop controller: key frames pass, levels have hysteresis, GOPs shrink. */
module DropRuns {
  import opened Common
  import opened DropModel

  // ---------- Key frames always pass ----------

  ghost predicate Capped(c: Control) {
    WidthsOk(c) && c.level < MAX_DROP_LEVEL && !c.iDropped
  }

  /** A level computed from any 32-bit size is positive and fits a signed 32-bit integer. */
  lemma RawLevelSigned(thd: nat, size: nat)
    requires ConfigOk(thd) && StartThreshold(thd) <= size < UINT32
    ensures 1 <= RawLevel(thd, size) < 0x8000_0000
  {
    hide StartThreshold, ImgThreshold, LevelInterval;
    LargerDivisor(size - StartThreshold(thd), 3, LevelInterval(thd));
  }

  lemma CappedDown(c: Control, thd: nat, current: nat, recovery: bool, isI: bool)
    requires ConfigOk(thd) && Capped(c) && current < MAX_DROP_LEVEL
    ensures var r := DownLevel(c, thd, current, recovery, isI);
      && Capped(r) && r.pNum == c.pNum && r.iNum == c.iNum
      && (r == c || (isI && c.period > DOWN_MIN_PERIOD && r.period == r.total == r.count == 0))
      && (recovery || current <= r.level || r == c)
  {
    hide RawLevel, StartThreshold, ConfigOk, Average;
    if c.period > DOWN_MIN_PERIOD && isI && c.count != 0 {
      var average := Average(c.total, c.count);
      if average >= StartThreshold(thd) {
        RawLevelSigned(thd, average);
      }
    }
  }

  /** What a level adjustment can do: keep or raise the level, or fall on an I frame and restart the statistics. */
  lemma CappedAdjust(c: Control, thd: nat, size: nat, isI: bool)
    requires ConfigOk(thd) && Capped(c) && size < UINT32 && (size <= StartThreshold(thd) ==> c.level != 0)
    ensures var r := Adjust(c, thd, size, isI);
      && Capped(r) && r.pNum == c.pNum && r.iNum == c.iNum
      && (r.period == r.total == r.count == 0 || (r == c.(level := r.level) && r.level >= c.level && r.level != 0))
      && (r.level < c.level ==> isI && c.period > DOWN_MIN_PERIOD && r.period == 0)
      && r.period <= c.period && (size > StartThreshold(thd) ==> r.level != 0)
  {
    hide ConfigOk, RawLevel, DownLevel;
    if size > StartThreshold(thd) {
      RawLevelSigned(thd, size);
      var raw := RawLevel(thd, size);
      CappedDown(c, thd, if raw >= MAX_DROP_LEVEL then MAX_DROP_LEVEL - 1 else raw, false, isI);
    } else {
      CappedDown(c, thd, c.level, true, isI);
    }
  }

  /** The same for a whole level check: an I frame is never dropped, and the period is left positive with the level. */
  lemma CappedCheck(c: Control, thd: nat, pre: nat, backlog: nat, isI: bool)
    requires ConfigOk(thd) && Capped(c) && backlog < UINT32
    ensures var (r, drop) := LevelCheck(c, thd, pre, backlog, isI); var a := Account(c, backlog);
      && Capped(r) && (isI ==> !drop) && r.pNum == c.pNum
      && (r.level < c.level ==> isI && c.period > DOWN_MIN_PERIOD && r.period <= 1)
      && r.period <= c.period + (if c.period == 0 then 1 else 0)
      && (c.level != 0 || r != c ==>
        && (r.level == 0 ==> r.period == 0) && (r.level != 0 ==> 1 <= r.period)
        && r.period <= MAX_STATUS_PERIOD
        && ((r.total == a.total && r.count == a.count && (r.period == a.period || (a.period == 0 && r.period == 1)))
            || (r.period <= 1 && r.total == r.count == 0)))
      && (c.level == 0 && r == c ==> !drop)
      && (!isI ==> (drop <==> (c.level != 0 || (pre + backlog) % UINT32 > StartThreshold(thd))
                              && r.pNum >= MAX_DROP_LEVEL - r.level))
  {
    hide Adjust, ConfigOk, StartThreshold;
    var size := (pre + backlog) % UINT32;
    if !(c.level == 0 && size <= StartThreshold(thd)) {
      CappedAdjust(Account(c, backlog), thd, size, isI);
    }
  }

  /** Counting a frame keeps the cap and adds at most one to the period, on an I frame while a level is in force. */
  lemma RecordedCapped(c: Control, isI: bool)
    requires Capped(c)
    ensures var r := RecordMap(c, isI);
      && Capped(r) && r.level == c.level && r.total == c.total && r.count == c.count && r.dropping == c.dropping
      && r.pNum == (if isI then 0 else (c.pNum + 1) % UINT8)
      && r.period == if isI && c.level != 0 then (c.period + 1) % UINT8 else c.period
  {
  }

  lemma CappedNext(c: Control, thd: nat, i: Input)
    requires ConfigOk(thd) && Capped(c) && InputOk(i)
    ensures Capped(DropCheck(c, thd, i).0) && (i.isI ==> !DropCheck(c, thd, i).1)
  {
    hide LevelCheck, ConfigOk, StartThreshold, RecordMap;
    var c0 := AskConfig(c, i.config);
    RecordedCapped(if i.isI then c0.(dropping := false) else c0, i.isI);
    if i.backlog.Some? {
      var r := RecordMap(if i.isI then c0.(dropping := false) else c0, i.isI);
      CappedCheck(r, thd, i.size, i.backlog.value, i.isI);
      CappedCheck(r.(dropping := false), thd, i.size, i.backlog.value, i.isI);
    }
  }

  lemma {:induction false} CappedRun(c: Control, thd: nat, inputs: seq<Input>)
    requires ConfigOk(thd) && Capped(c) && AllInputsOk(inputs)
    ensures Capped(After(c, thd, inputs))
    decreases |inputs|
  {
    if inputs != [] {
      CappedNext(c, thd, inputs[0]);
      CappedRun(DropCheck(c, thd, inputs[0]).0, thd, inputs[1..]);
    }
  }

  /** Main result: in every run, whatever the sizes, failed checks and lost sessions, no I frame is dropped. */
  lemma KeyFramesAlwaysPass(thd: nat, before: seq<Input>, i: Input)
    requires ConfigOk(thd) && AllInputsOk(before) && InputOk(i) && i.isI
    ensures !DropCheck(After(START, thd, before), thd, i).1
    ensures var r := DropCheck(After(START, thd, before), thd, i).0; r.level < MAX_DROP_LEVEL && !r.iDropped
  {
    CappedRun(START, thd, before);
    CappedNext(After(START, thd, before), thd, i);
  }

  // ---------- Falls of the level ----------

  predicate Falls(c: Control, thd: nat, i: Input)
    requires ConfigOk(thd) && WidthsOk(c) && InputOk(i)
  {
    DropCheck(c, thd, i).0.level < c.level
  }

  function IFrames(inputs: seq<Input>): nat {
    if inputs == [] then 0 else (if inputs[0].isI then 1 else 0) + IFrames(inputs[1..])
  }

  /** A step raises the period by at most one per I frame, apart from starting it; a fall resets it. */
  lemma PeriodNext(c: Control, thd: nat, i: Input)
    requires ConfigOk(thd) && Capped(c) && InputOk(i)
    ensures var r := DropCheck(c, thd, i).0;
      && r.period <= (if c.period == 0 then 1 else c.period) + (if i.isI then 1 else 0)
      && (Falls(c, thd, i) ==> i.isI && c.period >= DOWN_MIN_PERIOD && r.period <= 1)
  {
    hide LevelCheck, ConfigOk, StartThreshold, RecordMap;
    var c0 := AskConfig(c, i.config);
    RecordedCapped(if i.isI then c0.(dropping := false) else c0, i.isI);
    if i.backlog.Some? {
      var r := RecordMap(if i.isI then c0.(dropping := false) else c0, i.isI);
      CappedCheck(r, thd, i.size, i.backlog.value, i.isI);
      CappedCheck(r.(dropping := false), thd, i.size, i.backlog.value, i.isI);
    }
  }

  lemma {:induction false} PeriodRun(c: Control, thd: nat, inputs: seq<Input>, k: nat)
    requires ConfigOk(thd) && Capped(c) && AllInputsOk(inputs) && c.period <= 1 + k
    ensures Capped(After(c, thd, inputs)) && After(c, thd, inputs).period <= 1 + k + IFrames(inputs)
    decreases |inputs|
  {
    if inputs != [] {
      PeriodNext(c, thd, inputs[0]);
      CappedNext(c, thd, inputs[0]);
      PeriodRun(DropCheck(c, thd, inputs[0]).0, thd, inputs[1..], k + if inputs[0].isI then 1 else 0);
    }
  }

  /** Runs compose. */
  lemma {:induction false} AfterAppend(c: Control, thd: nat, a: seq<Input>, b: seq<Input>)
    requires ConfigOk(thd) && WidthsOk(c) && AllInputsOk(a + b)
    ensures AllInputsOk(a) && AllInputsOk(b) && After(c, thd, a + b) == After(After(c, thd, a), thd, b)
    decreases |a|
  {
    assert forall k :: 0 <= k < |a| ==> (a + b)[k] == a[k];
    assert forall k :: 0 <= k < |b| ==> (a + b)[|a| + k] == b[k];
    if a == [] {
      assert a + b == b;
    } else {
      WidthsStay(c, thd, a[0]);
      assert (a + b)[0] == a[0] && (a + b)[1..] == a[1..] + b;
      AfterAppend(DropCheck(c, thd, a[0]).0, thd, a[1..], b);
    }
  }

  lemma AfterOne(c: Control, thd: nat, i: Input)
    requires ConfigOk(thd) && WidthsOk(c) && InputOk(i)
    ensures WidthsOk(DropCheck(c, thd, i).0) && After(c, thd, [i]) == DropCheck(c, thd, i).0
  {
    WidthsStay(c, thd, i);
    hide DropCheck;
    assert [i][1..] == [];
  }

  /** The level falls on the frame that comes after the frames of `before`. */
  ghost predicate FallsAfter(thd: nat, before: seq<Input>, i: Input)
    requires ConfigOk(thd)
  {
    AllInputsOk(before) && InputOk(i) && Falls(After(START, thd, before), thd, i)
  }

  /** Main result: in every run the level falls only on I frames, and two falls are at least ten I frames apart. */
  lemma FallsAreApart(thd: nat, before: seq<Input>, x: Input, between: seq<Input>, y: Input)
    requires ConfigOk(thd) && FallsAfter(thd, before, x) && FallsAfter(thd, before + [x] + between, y)
    ensures x.isI && y.isI && IFrames(between) + 1 >= 10
  {
    var c := After(START, thd, before);
    CappedRun(START, thd, before);
    PeriodNext(c, thd, x);
    CappedNext(c, thd, x);
    AfterAppend(START, thd, before + [x], between);
    AfterAppend(START, thd, before, [x]);
    AfterOne(c, thd, x);
    var r := DropCheck(c, thd, x).0;
    PeriodRun(r, thd, between, 0);
    PeriodNext(After(r, thd, between), thd, y);
  }

  // ---------- The level and the period ----------

  /** No period runs without a level. */
  ghost predicate Paired(c: Control) {
    Capped(c) && (c.level == 0 ==> c.period == 0)
  }

  /** Whether the frame comes to the level check. */
  predicate ComesToCheck(c: Control, i: Input, thd: nat)
    requires ConfigOk(thd)
  {
    && i.present && AskConfig(c, i.config).supported && i.session && i.backlog.Some?
    && (i.isI || !c.dropping || i.backlog.value < StartThreshold(thd) / 2)
  }

  lemma PairedNext(c: Control, thd: nat, i: Input)
    requires ConfigOk(thd) && Paired(c) && InputOk(i)
    ensures var r := DropCheck(c, thd, i).0;
      Paired(r) && (ComesToCheck(c, i, thd) ==> (r.level == 0 <==> r.period == 0) && r.period <= MAX_STATUS_PERIOD)
  {
    CappedNext(c, thd, i);
    hide LevelCheck, ConfigOk, StartThreshold, RecordMap;
    var c0 := AskConfig(c, i.config);
    RecordedCapped(if i.isI then c0.(dropping := false) else c0, i.isI);
    if i.backlog.Some? {
      var r := RecordMap(if i.isI then c0.(dropping := false) else c0, i.isI);
      CappedCheck(r, thd, i.size, i.backlog.value, i.isI);
      CappedCheck(r.(dropping := false), thd, i.size, i.backlog.value, i.isI);
    }
  }

  lemma {:induction false} PairedRun(c: Control, thd: nat, inputs: seq<Input>)
    requires ConfigOk(thd) && Paired(c) && AllInputsOk(inputs)
    ensures Paired(After(c, thd, inputs))
    decreases |inputs|
  {
    if inputs != [] {
      PairedNext(c, thd, inputs[0]);
      PairedRun(DropCheck(c, thd, inputs[0]).0, thd, inputs[1..]);
    }
  }

  /**
   Main result: after every level check of every run, failed checks and lost sessions included, a drop level is in force
   exactly if a drop period runs, and the period is within its limit.
   */
  lemma LevelIffPeriod(thd: nat, before: seq<Input>, i: Input)
    requires ConfigOk(thd) && AllInputsOk(before) && InputOk(i) && ComesToCheck(After(START, thd, before), i, thd)
    ensures var r := DropCheck(After(START, thd, before), thd, i).0;
      (r.level == 0 <==> r.period == 0) && r.period <= MAX_STATUS_PERIOD
  {
    PairedRun(START, thd, before);
    PairedNext(After(START, thd, before), thd, i);
  }

  // ---------- Steady runs: the buffer can always be checked ----------

  predicate Checkable(i: Input) {
    InputOk(i) && i.session && i.backlog.Some?
  }

  predicate AllCheckable(inputs: seq<Input>) {
    forall k :: 0 <= k < |inputs| ==> Checkable(inputs[k])
  }

  /** The level is up exactly while a period runs, and the period stays within its limit. */
  ghost predicate Steady(c: Control) {
    Capped(c) && (c.level == 0 <==> c.period == 0) && c.period <= MAX_STATUS_PERIOD
  }

  lemma SteadyNext(c: Control, thd: nat, i: Input)
    requires ConfigOk(thd) && Steady(c) && Checkable(i)
    ensures Steady(DropCheck(c, thd, i).0)
  {
    CappedNext(c, thd, i);
    hide LevelCheck, ConfigOk, StartThreshold, RecordMap;
    var c0 := AskConfig(c, i.config);
    RecordedCapped(if i.isI then c0.(dropping := false) else c0, i.isI);
    var r := RecordMap(if i.isI then c0.(dropping := false) else c0, i.isI);
    CappedCheck(r, thd, i.size, i.backlog.value, i.isI);
    CappedCheck(r.(dropping := false), thd, i.size, i.backlog.value, i.isI);
  }

  lemma {:induction false} SteadyRun(c: Control, thd: nat, inputs: seq<Input>)
    requires ConfigOk(thd) && Steady(c) && AllCheckable(inputs)
    ensures AllInputsOk(inputs) && Steady(After(c, thd, inputs))
    decreases |inputs|
  {
    if inputs != [] {
      SteadyNext(c, thd, inputs[0]);
      SteadyRun(DropCheck(c, thd, inputs[0]).0, thd, inputs[1..]);
    }
  }

  /** Without failed checks and lost sessions, a drop level is in force exactly while a drop period runs. */
  lemma SteadyLevelIffPeriod(thd: nat, inputs: seq<Input>)
    requires ConfigOk(thd) && AllCheckable(inputs)
    ensures AllInputsOk(inputs)
    ensures var c := After(START, thd, inputs); (c.level == 0 <==> c.period == 0) && c.period <= MAX_STATUS_PERIOD
  {
    SteadyRun(START, thd, inputs);
  }

  // ---------- The shape of a GOP ----------

  /** P frames of one GOP, each with a session and a buffer that can be checked. */
  predicate PFrames(ps: seq<Input>) {
    forall k :: 0 <= k < |ps| ==> Checkable(ps[k]) && ps[k].present && !ps[k].isI
  }

  /** For each frame, whether it is sent. */
  function Sent(c: Control, thd: nat, ps: seq<Input>): (r: seq<bool>)
    requires ConfigOk(thd) && WidthsOk(c) && AllInputsOk(ps)
    ensures |r| == |ps|
    decreases |ps|
  {
    if ps == [] then []
    else
      WidthsStay(c, thd, ps[0]);
      var (d, drop) := DropCheck(c, thd, ps[0]);
      [!drop] + Sent(d, thd, ps[1..])
  }

  function CountTrue(bs: seq<bool>): nat {
    if bs == [] then 0 else (if bs[0] then 1 else 0) + CountTrue(bs[1..])
  }

  /** The level after every check is at least `d`. */
  predicate LevelsAtLeast(c: Control, thd: nat, ps: seq<Input>, d: nat)
    requires ConfigOk(thd) && WidthsOk(c) && AllInputsOk(ps)
    decreases |ps|
  {
    ps != [] ==>
      && DropCheck(c, thd, ps[0]).0.level >= d
      && (WidthsStay(c, thd, ps[0]);
          LevelsAtLeast(DropCheck(c, thd, ps[0]).0, thd, ps[1..], d))
  }

  /** The drop check of a P frame, when the buffer can be checked: the level check, unless the GOP is being dropped. */
  lemma PFrameCheck(c: Control, thd: nat, i: Input)
    requires ConfigOk(thd) && Capped(c) && c.supported && c.checked && Checkable(i) && i.present && !i.isI
    ensures var r := RecordMap(c, false);
      && WidthsOk(r)
      && DropCheck(c, thd, i) ==
        if c.dropping && i.backlog.value >= StartThreshold(thd) / 2 then (r, true)
        else
          var (d, drop) := LevelCheck(r.(dropping := false), thd, i.size, i.backlog.value, false);
          (d.(dropping := drop), drop)
  {
    RecordedCapped(c, false);
    assert AskConfig(c, i.config) == c;
    hide LevelCheck, ConfigOk, StartThreshold, AskConfig;
  }

  /** A P frame that is sent at a level of at least `d` is one of the first `5 - d` of its GOP. */
  lemma PFrameNext(c: Control, thd: nat, i: Input)
    requires ConfigOk(thd) && Capped(c) && c.supported && c.checked
    requires Checkable(i) && i.present && !i.isI && c.pNum + 1 < UINT8
    ensures var (r, drop) := DropCheck(c, thd, i);
      && Capped(r) && r.supported && r.checked && r.pNum == c.pNum + 1 && r.dropping == drop
      && (!drop && r.level > 0 ==> r.pNum < MAX_DROP_LEVEL - r.level)
      && (c.dropping && i.backlog.value >= StartThreshold(thd) / 2 ==> drop)
  {
    PFrameCheck(c, thd, i);
    RecordedCapped(c, false);
    PLevelCheck(RecordMap(c, false).(dropping := false), thd, i.size, i.backlog.value);
    hide LevelCheck, ConfigOk, StartThreshold, RecordMap, WidthsOk, DropCheck;
  }

  lemma PLevelCheck(c: Control, thd: nat, pre: nat, backlog: nat)
    requires ConfigOk(thd) && Capped(c) && backlog < UINT32
    ensures var (r, drop) := LevelCheck(c, thd, pre, backlog, false);
      && Capped(r) && r.supported == c.supported && r.checked == c.checked && r.pNum == c.pNum
      && (!drop && r.level > 0 ==> r.pNum < MAX_DROP_LEVEL - r.level)
  {
    CappedCheck(c, thd, pre, backlog, false);
    hide ConfigOk, StartThreshold, RawLevel, Average;
  }

  /** Main result: at a drop level of at least `d`, at most `5 - d` of the P frames of a GOP are sent. */
  lemma {:induction false} FewPFramesSent(c: Control, thd: nat, ps: seq<Input>, d: nat, sent: nat)
    requires ConfigOk(thd) && Capped(c) && c.supported && c.checked && PFrames(ps) && AllInputsOk(ps)
    requires c.pNum + |ps| < UINT8 && 1 <= d <= 5
    requires sent <= c.pNum && sent <= 5 - d && LevelsAtLeast(c, thd, ps, d)
    ensures sent + CountTrue(Sent(c, thd, ps)) <= 5 - d
    decreases |ps|
  {
    if ps != [] {
      PFrameNext(c, thd, ps[0]);
      var (r, drop) := DropCheck(c, thd, ps[0]);
      assert Sent(c, thd, ps)[1..] == Sent(r, thd, ps[1..]);
      FewPFramesSent(r, thd, ps[1..], d, sent + if drop then 0 else 1);
    }
  }

  /** Main result: while the backlog stays up, the frames sent of a GOP are its first ones. */
  lemma {:induction false} SentArePrefix(c: Control, thd: nat, ps: seq<Input>) returns (n: nat)
    requires ConfigOk(thd) && Capped(c) && c.supported && c.checked && PFrames(ps) && AllInputsOk(ps)
    requires c.pNum + |ps| < UINT8
    requires forall k :: 0 <= k < |ps| ==> ps[k].backlog.value >= StartThreshold(thd) / 2
    ensures n <= |ps| && forall k :: 0 <= k < |ps| ==> (Sent(c, thd, ps)[k] <==> k < n)
    ensures c.dropping ==> n == 0
    decreases |ps|
  {
    n := 0;
    if ps != [] {
      PFrameNext(c, thd, ps[0]);
      var (r, drop) := DropCheck(c, thd, ps[0]);
      var m := SentArePrefix(r, thd, ps[1..]);
      n := if drop then 0 else m + 1;
    }
  }
}
