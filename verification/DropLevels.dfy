/** What the H264 drop controller decides: the level by its thresholds, and exactly which P frames are sent. */
module DropLevels {
  import opened Common
  import opened DropModel
  import opened DropRuns

  /**
   The thresholds: images may fill three quarters of the library's buffer, dropping starts at half of that, and each
   level covers a seventh of the other half, all rounded down.
   */
  lemma ThresholdsAre(thd: nat)
    ensures 4 * ImgThreshold(thd) <= 3 * thd < 4 * ImgThreshold(thd) + 4
    ensures 2 * StartThreshold(thd) <= ImgThreshold(thd) < 2 * StartThreshold(thd) + 2
    ensures 7 * LevelInterval(thd) <= StartThreshold(thd) < 7 * LevelInterval(thd) + 7
  {
  }

  /** The size at which level `d` begins. */
  function LevelStart(thd: nat, d: nat): int {
    StartThreshold(thd) + (d - 1) * LevelInterval(thd)
  }

  /** The level of a size above the start threshold reaches `d`. */
  predicate Reaches(thd: nat, size: nat, d: nat) {
    size >= LevelStart(thd, d)
  }

  /** The level of a size, at most five. */
  function LevelOf(thd: nat, size: nat): nat
    requires ConfigOk(thd) && StartThreshold(thd) <= size
  {
    var raw := RawLevel(thd, size);
    if raw >= MAX_DROP_LEVEL then MAX_DROP_LEVEL - 1 else raw
  }

  /** It is the last of the five levels that begins at or below the size. */
  lemma LevelReaches(thd: nat, size: nat, d: nat)
    requires ConfigOk(thd) && StartThreshold(thd) <= size < UINT32 && 1 <= d <= 5
    ensures 1 <= LevelOf(thd, size) <= 5 && (LevelOf(thd, size) >= d <==> Reaches(thd, size, d))
  {
    var x, n := size - StartThreshold(thd), LevelInterval(thd);
    RawLevelSigned(thd, size);
    LargerDivisor(x, 3, n);
    assert RawLevel(thd, size) == x / n + 1;
    hide ConfigOk, StartThreshold, LevelInterval, RawLevel;
    QuotientReaches(x, n, d - 1);
  }

  lemma QuotientReaches(x: nat, n: nat, k: nat)
    requires n > 0
    ensures x / n >= k <==> x >= k * n
  {
    Division(x, n);
    if x / n >= k {
      Larger(k, x / n, n);
    } else {
      Larger(x / n + 1, k, n);
    }
  }

  /** The statistics tell of a drop period that can end with this frame. */
  predicate Finished(c: Control, isI: bool) {
    c.period > DOWN_MIN_PERIOD && isI && c.count != 0
  }

  /** The size alone asks for at least the level in force. */
  predicate Raises(c: Control, thd: nat, size: nat) {
    size > StartThreshold(thd) && (c.level == 0 || Reaches(thd, size, c.level))
  }

  /**
   The level after an adjustment: the one of the size when that is no lower; otherwise the same as before, until a
   finished period lowers it to the one of the size or of the average backlog, or ends it when both are small.
   */
  predicate Adjusted(c: Control, thd: nat, size: nat, isI: bool, r: Control) {
    if Raises(c, thd, size) then
      r == c.(level := r.level) && forall d :: 1 <= d <= 5 ==> (r.level >= d <==> Reaches(thd, size, d))
    else if Finished(c, isI) then
      var average := c.total * 1024 % UINT32 / c.count;
      && r == c.(level := r.level, period := 0, total := 0, count := 0)
      && forall d :: 1 <= d <= 5 ==>
        (r.level >= d <==>
          || (size > StartThreshold(thd) && Reaches(thd, size, d))
          || (average >= StartThreshold(thd)
              && (Reaches(thd, average, d) || (size <= StartThreshold(thd) && c.level >= d))))
    else r == c
  }

  lemma DownByLevel(c: Control, thd: nat, current: nat, recovery: bool, isI: bool)
    requires ConfigOk(thd) && Capped(c) && current < MAX_DROP_LEVEL && Finished(c, isI)
    ensures var average := Average(c.total, c.count);
      var level :=
        if average < StartThreshold(thd) then (if recovery then 0 else current)
        else if LevelOf(thd, average) > current then LevelOf(thd, average) else current;
      DownLevel(c, thd, current, recovery, isI) == c.(level := level, period := 0, total := 0, count := 0)
  {
    var average := Average(c.total, c.count);
    if average >= StartThreshold(thd) {
      RawLevelSigned(thd, average);
    }
    hide ConfigOk, RawLevel, StartThreshold, Average;
  }

  lemma AdjustByLevel(c: Control, thd: nat, size: nat, isI: bool)
    requires ConfigOk(thd) && Capped(c) && size < UINT32
    ensures Adjust(c, thd, size, isI) ==
      if size > StartThreshold(thd) then
        (if c.level > LevelOf(thd, size) then DownLevel(c, thd, LevelOf(thd, size), false, isI)
         else c.(level := LevelOf(thd, size)))
      else DownLevel(c, thd, c.level, true, isI)
  {
    if size > StartThreshold(thd) {
      RawLevelSigned(thd, size);
    }
    hide ConfigOk, RawLevel, StartThreshold, DownLevel;
  }

  lemma AdjustExactly(c: Control, thd: nat, size: nat, isI: bool)
    requires ConfigOk(thd) && Capped(c) && size < UINT32
    ensures var r := Adjust(c, thd, size, isI); r.level <= 5 && Adjusted(c, thd, size, isI, r)
  {
    AdjustByLevel(c, thd, size, isI);
    forall d: nat, x: nat | 1 <= d <= 5 && StartThreshold(thd) <= x < UINT32
      ensures 1 <= LevelOf(thd, x) <= 5 && (LevelOf(thd, x) >= d <==> Reaches(thd, x, d))
    {
      LevelReaches(thd, x, d);
    }
    hide ConfigOk, LevelOf, Reaches, StartThreshold, RawLevel, Adjust;
    if !Raises(c, thd, size) && Finished(c, isI) {
      if size > StartThreshold(thd) {
        DownByLevel(c, thd, LevelOf(thd, size), false, isI);
      } else {
        DownByLevel(c, thd, c.level, true, isI);
      }
      hide DownLevel;
    }
  }

  /** The control that a level check works with: the frame is counted in its GOP, its backlog in the drop period. */
  predicate Counts(c: Control, i: Input, a: Control) {
    var period := if i.isI && c.level != 0 then (c.period + 1) % UINT8 else c.period;
    && a.level == c.level && a.pNum == (if i.isI then 0 else (c.pNum + 1) % UINT8)
    && a.iNum == (if !i.isI then c.iNum else if c.iNum >= I_FRAME_MAX_NUM then 1 else c.iNum + 1)
    && if period > MAX_STATUS_PERIOD then a.period == a.total == a.count == 0
       else if period == 0 || i.backlog == None then a.period == period && a.total == c.total && a.count == c.count
       else
         a.period == period && a.total == (c.total + i.backlog.value / 1024) % UINT32
         && a.count == (c.count + 1) % UINT32
  }

  /** The end of a check: a level starts a period, and a P frame is dropped when its number and the level reach six. */
  predicate Decided(b: Control, isI: bool, r: Control, drop: bool) {
    && r.level == b.level && r.total == b.total && r.count == b.count && r.pNum == b.pNum && r.iNum == b.iNum
    && r.period == (if b.level != 0 && b.period == 0 then 1 else b.period)
    && (drop <==> !isI && r.pNum + r.level >= MAX_DROP_LEVEL)
  }

  /** Nothing is in force and the size asks for nothing. */
  predicate Calm(c: Control, thd: nat, i: Input) {
    c.level == 0 && i.backlog.Some? && (i.size + i.backlog.value) % UINT32 <= StartThreshold(thd)
  }

  lemma LevelCheckExactly(c: Control, thd: nat, pre: nat, backlog: nat, isI: bool) returns (b: Control)
    requires ConfigOk(thd) && Capped(c) && backlog < UINT32
    ensures var (r, drop) := LevelCheck(c, thd, pre, backlog, isI);
      var size := (pre + backlog) % UINT32;
      if c.level == 0 && size <= StartThreshold(thd) then r == c && !drop
      else
        && Adjusted(Account(c, backlog), thd, size, isI, b) && b.level <= 5 && b.pNum == c.pNum
        && Decided(b, isI, r, drop)
  {
    var size := (pre + backlog) % UINT32;
    var a := Account(c, backlog);
    b := Adjust(a, thd, size, isI);
    if !(c.level == 0 && size <= StartThreshold(thd)) {
      AdjustExactly(a, thd, size, isI);
      CappedAdjust(a, thd, size, isI);
    }
    hide ConfigOk, StartThreshold, Adjust, Adjusted, Account;
  }

  lemma RecordCounts(c: Control, c1: Control, i: Input)
    requires WidthsOk(c) && i.backlog.Some? && i.backlog.value < UINT32
    requires c1 == c.(checked := c1.checked, supported := c1.supported, dropping := c1.dropping)
    ensures var r := RecordMap(c1, i.isI);
      && Counts(c, i, Account(r, i.backlog.value)) && Counts(c, i, Account(r.(dropping := false), i.backlog.value))
  {
  }

  lemma CheckShape(c: Control, thd: nat, i: Input)
    requires ConfigOk(thd) && Capped(c) && InputOk(i) && ComesToCheck(c, i, thd)
    ensures var c0 := AskConfig(c, i.config);
      var m := RecordMap(if i.isI then c0.(dropping := false) else c0, i.isI).(dropping := false);
      && WidthsOk(m)
      && var (r, drop) := LevelCheck(m, thd, i.size, i.backlog.value, i.isI);
      DropCheck(c, thd, i) == (r.(dropping := drop), drop)
  {
    var c0 := AskConfig(c, i.config);
    RecordedCapped(if i.isI then c0.(dropping := false) else c0, i.isI);
    hide ConfigOk, StartThreshold, LevelCheck, RecordMap;
  }

  /** A step that comes to the level check. */
  lemma StepExactly(c: Control, thd: nat, i: Input) returns (a: Control, b: Control)
    requires ConfigOk(thd) && Capped(c) && InputOk(i) && ComesToCheck(c, i, thd)
    ensures var (r, drop) := DropCheck(c, thd, i);
      if Calm(c, thd, i) then r.level == 0 && !drop
      else
        && Counts(c, i, a) && Adjusted(a, thd, (i.size + i.backlog.value) % UINT32, i.isI, b)
        && b.level <= 5 && b.pNum == a.pNum && Decided(b, i.isI, r, drop)
  {
    var c0 := AskConfig(c, i.config);
    var c1 := if i.isI then c0.(dropping := false) else c0;
    CheckShape(c, thd, i);
    RecordedCapped(c1, i.isI);
    RecordCounts(c, c1, i);
    var m := RecordMap(c1, i.isI).(dropping := false);
    a := Account(m, i.backlog.value);
    b := LevelCheckExactly(m, thd, i.size, i.backlog.value, i.isI);
    hide ConfigOk, StartThreshold, LevelCheck, Adjusted, Counts, RecordMap, Account, DropCheck, Decided;
  }

  /**
   Main result: in every run, at a frame that comes to the level check, the level is the one of its thresholds: that of
   the size, or that of the average backlog of a period that is over. A P frame is then dropped if and only if its
   number in the GOP and the level reach six together; with no level in force and none asked for, nothing is.
   */
  lemma {:induction false} CheckedExactly(thd: nat, before: seq<Input>, i: Input) returns (a: Control, b: Control)
    requires ConfigOk(thd) && AllInputsOk(before) && InputOk(i) && ComesToCheck(After(START, thd, before), i, thd)
    ensures var c := After(START, thd, before); var (r, drop) := DropCheck(c, thd, i);
      if Calm(c, thd, i) then r.level == 0 && !drop
      else
        && Counts(c, i, a) && Adjusted(a, thd, (i.size + i.backlog.value) % UINT32, i.isI, b)
        && b.level <= 5 && b.pNum == a.pNum && Decided(b, i.isI, r, drop)
  {
    CappedRun(START, thd, before);
    a, b := StepExactly(After(START, thd, before), thd, i);
  }

  /**
   Any other frame leaves the level as it is, and is dropped if and only if it could be checked: then it is a P frame of
   a GOP that is being dropped, and the backlog has not come down to half the start threshold.
   */
  lemma {:induction false} UncheckedExactly(thd: nat, before: seq<Input>, i: Input)
    requires ConfigOk(thd) && AllInputsOk(before) && InputOk(i) && !ComesToCheck(After(START, thd, before), i, thd)
    ensures var c := After(START, thd, before); var (r, drop) := DropCheck(c, thd, i);
      && r.level == c.level
      && (drop <==> i.present && AskConfig(c, i.config).supported && i.session && i.backlog.Some?)
      && (drop ==> !i.isI && c.dropping && i.backlog.value >= StartThreshold(thd) / 2)
  {
    CappedRun(START, thd, before);
    hide LevelCheck, ConfigOk, StartThreshold;
  }

  /** The rest of a GOP is being dropped exactly when its last frame that came to the controller was dropped. */
  lemma {:induction false} DroppingExactly(thd: nat, before: seq<Input>, i: Input)
    requires ConfigOk(thd) && AllInputsOk(before) && InputOk(i)
    ensures var c := After(START, thd, before); var (r, drop) := DropCheck(c, thd, i);
      r.dropping == if i.present && AskConfig(c, i.config).supported then drop else c.dropping
  {
    CappedRun(START, thd, before);
    hide LevelCheck, ConfigOk, StartThreshold;
  }

  // ---------- The encoder's configuration ----------

  /** The first answer about the encoder's configuration. */
  function FirstAnswer(inputs: seq<Input>): Option<nat> {
    if inputs == [] then None else if inputs[0].config.Some? then inputs[0].config else FirstAnswer(inputs[1..])
  }

  lemma ConfigNext(c: Control, thd: nat, i: Input)
    requires ConfigOk(thd) && WidthsOk(c) && InputOk(i)
    ensures var r := DropCheck(c, thd, i).0;
      if c.checked then r.checked && r.supported == c.supported
      else
        (r.checked <==> i.config.Some?)
        && r.supported == if i.config.Some? then i.config.value == SUPPORTED_P_FRAMES else c.supported
  {
    var c0 := AskConfig(c, i.config);
    var m := RecordMap(if i.isI then c0.(dropping := false) else c0, i.isI);
    assert WidthsOk(m) && m.checked == c0.checked && m.supported == c0.supported;
    if i.backlog.Some? {
      ConfigKept(m, thd, i.size, i.backlog.value, i.isI);
      ConfigKept(m.(dropping := false), thd, i.size, i.backlog.value, i.isI);
    }
    hide ConfigOk, StartThreshold, LevelCheck, RecordMap, WidthsOk;
  }

  lemma ConfigKept(c: Control, thd: nat, pre: nat, backlog: nat, isI: bool)
    requires ConfigOk(thd) && WidthsOk(c) && backlog < UINT32
    ensures var r := LevelCheck(c, thd, pre, backlog, isI).0; r.checked == c.checked && r.supported == c.supported
  {
    var a := Account(c, backlog);
    forall recovery, level: nat | level < UINT32
      ensures var r := DownLevel(a, thd, level, recovery, isI); r.checked == c.checked && r.supported == c.supported
    {
    }
    hide ConfigOk, StartThreshold, RawLevel, DownLevel;
  }

  lemma {:induction false} ConfigRun(c: Control, thd: nat, inputs: seq<Input>)
    requires ConfigOk(thd) && WidthsOk(c) && AllInputsOk(inputs)
    ensures var r := After(c, thd, inputs);
      if c.checked then r.checked && r.supported == c.supported
      else
        (r.checked <==> FirstAnswer(inputs).Some?)
        && r.supported == if FirstAnswer(inputs).Some? then FirstAnswer(inputs).value == SUPPORTED_P_FRAMES
                          else c.supported
    decreases |inputs|
  {
    if inputs != [] {
      ConfigNext(c, thd, inputs[0]);
      WidthsStay(c, thd, inputs[0]);
      hide DropCheck;
      ConfigRun(DropCheck(c, thd, inputs[0]).0, thd, inputs[1..]);
    }
  }

  /** The controller works if and only if the first answer it has got says that a GOP has five P frames. */
  lemma {:induction false} SupportedExactly(thd: nat, inputs: seq<Input>)
    requires ConfigOk(thd) && AllInputsOk(inputs)
    ensures After(START, thd, inputs).supported <==> FirstAnswer(inputs) == Some(SUPPORTED_P_FRAMES)
  {
    ConfigRun(START, thd, inputs);
  }

  // ---------- Exactly which P frames of a GOP are sent ----------

  /** The level after every check is `d`. */
  predicate LevelsAre(c: Control, thd: nat, ps: seq<Input>, d: nat)
    requires ConfigOk(thd) && WidthsOk(c) && AllInputsOk(ps)
    decreases |ps|
  {
    ps != [] ==>
      && DropCheck(c, thd, ps[0]).0.level == d
      && (WidthsStay(c, thd, ps[0]);
          LevelsAre(DropCheck(c, thd, ps[0]).0, thd, ps[1..], d))
  }

  /** Whether a P frame with this number is sent at level `d`: at level 0 all are. */
  predicate Keeps(d: nat, number: nat) {
    d == 0 || number + d < MAX_DROP_LEVEL
  }

  lemma PFrameExactly(c: Control, thd: nat, i: Input, d: nat)
    requires ConfigOk(thd) && Capped(c) && c.supported && c.checked
    requires Checkable(i) && i.present && !i.isI && c.pNum + 1 < UINT8
    requires DropCheck(c, thd, i).0.level == d && c.level == d && (c.dropping ==> !Keeps(d, c.pNum))
    ensures var (r, drop) := DropCheck(c, thd, i);
      && Capped(r) && r.supported && r.checked && r.pNum == c.pNum + 1 && r.dropping == drop
      && (drop <==> !Keeps(d, c.pNum + 1))
  {
    PFrameNext(c, thd, i);
    if ComesToCheck(c, i, thd) {
      var a, b := StepExactly(c, thd, i);
      hide DropCheck, ConfigOk, StartThreshold, Adjusted;
      if d == 0 && !Calm(c, thd, i) {
        NoLevelIsCalm(c, a, thd, i, b);
      }
    }
  }

  /** Without a level before, a size above the start threshold brings one. */
  lemma NoLevelIsCalm(c: Control, a: Control, thd: nat, i: Input, b: Control)
    requires ConfigOk(thd) && c.level == 0 && i.backlog.Some? && !Calm(c, thd, i) && Counts(c, i, a)
    requires Adjusted(a, thd, (i.size + i.backlog.value) % UINT32, i.isI, b)
    ensures b.level >= 1
  {
    assert Reaches(thd, (i.size + i.backlog.value) % UINT32, 1);
    hide ConfigOk, Reaches;
  }

  /**
   Main result: while the level stays at `d`, exactly those P frames of a GOP are sent whose number in the GOP is less
   than `6 - d`; at level 0 all are.
   */
  lemma {:induction false} SentExactly(c: Control, thd: nat, ps: seq<Input>, d: nat)
    requires ConfigOk(thd) && Capped(c) && c.supported && c.checked && PFrames(ps) && AllInputsOk(ps)
    requires c.pNum + |ps| < UINT8 && c.level == d && LevelsAre(c, thd, ps, d)
    requires c.dropping ==> !Keeps(d, c.pNum)
    ensures forall k :: 0 <= k < |ps| ==> (Sent(c, thd, ps)[k] <==> Keeps(d, c.pNum + 1 + k))
    decreases |ps|
  {
    if ps != [] {
      PFrameExactly(c, thd, ps[0], d);
      var (r, drop) := DropCheck(c, thd, ps[0]);
      assert Sent(c, thd, ps)[1..] == Sent(r, thd, ps[1..]);
      SentExactly(r, thd, ps[1..], d);
    }
  }
}
