/** When the 32-bit average backlog of a drop period is right: exactly up to a bound on the backlog. */
module DropAverages {
  import opened Common
  import opened DropModel
  import opened DropRuns

  /** GOPs with at most five P frames. */
  predicate GopsOk(c: Control, thd: nat, inputs: seq<Input>)
    requires ConfigOk(thd) && WidthsOk(c) && AllInputsOk(inputs)
    decreases |inputs|
  {
    inputs != [] ==>
      && (!inputs[0].isI ==> c.pNum < SUPPORTED_P_FRAMES)
      && (WidthsStay(c, thd, inputs[0]);
          GopsOk(DropCheck(c, thd, inputs[0]).0, thd, inputs[1..]))
  }

  predicate BacklogsWithin(inputs: seq<Input>, limit: nat) {
    forall k :: 0 <= k < |inputs| ==> inputs[k].backlog.Some? ==> inputs[k].backlog.value <= limit
  }

  predicate SizesWithin(inputs: seq<Input>, size: nat) {
    forall k :: 0 <= k < |inputs| ==> inputs[k].size <= size
  }

  /** A run of frames of at most `size` bytes in which every buffer check succeeds and finds at most `limit` bytes. */
  ghost predicate Ordinary(thd: nat, inputs: seq<Input>, limit: nat, size: nat)
    requires ConfigOk(thd)
  {
    && AllCheckable(inputs) && AllInputsOk(inputs) && BacklogsWithin(inputs, limit) && SizesWithin(inputs, size)
    && GopsOk(START, thd, inputs)
  }

  /** The statistics a level check works with after such a run: the frame is counted in its GOP and in the period. */
  function Counted(thd: nat, before: seq<Input>, i: Input): Control
    requires ConfigOk(thd) && AllInputsOk(before) && Checkable(i)
  {
    Account(RecordMap(After(START, thd, before), i.isI), i.backlog.value)
  }

  /** The next frame of a run: one more buffer check, and no sixth P frame. */
  ghost predicate NextFrame(thd: nat, before: seq<Input>, i: Input, limit: nat, size: nat)
    requires ConfigOk(thd) && AllInputsOk(before)
  {
    && Checkable(i) && i.backlog.value <= limit && i.size <= size
    && (!i.isI ==> After(START, thd, before).pNum < SUPPORTED_P_FRAMES)
  }

  /** With this threshold, the numerator of an average, in KiB scaled to bytes again, never exceeds 32 bits. */
  ghost predicate NeverOverflows(thd: nat, limit: nat, size: nat)
    requires ConfigOk(thd)
  {
    forall before, i :: Ordinary(thd, before, limit, size) && NextFrame(thd, before, i, limit, size) ==>
      Counted(thd, before, i).total * 1024 < UINT32
  }

  /** The most that a period can count is 179 backlogs. */
  predicate Fits(limit: nat) {
    179 * (limit / 1024) * 1024 < UINT32
  }

  // ---------- The bound suffices ----------

  /** The most that `n` backlogs of at most `kb` KiB add up to. */
  function Most(n: nat, kb: nat): nat {
    n * kb
  }

  /** Six checks for each period but the last, and one for each P frame of the current GOP; each adds at most `kb`. */
  ghost predicate Bounded(c: Control, kb: nat) {
    && Steady(c) && c.pNum <= SUPPORTED_P_FRAMES
    && (if c.period == 0 then c.count == 0 else c.count <= 6 * (c.period - 1) + c.pNum)
    && c.total <= Most(c.count, kb)
  }

  lemma MostAfter(total: nat, n: nat, backlog: nat, kb: nat)
    requires total <= Most(n, kb) && n < 179 && backlog / 1024 <= kb && 179 * kb * 1024 < UINT32
    ensures var t := total + backlog / 1024;
      t <= Most(n + 1, kb) && t * 1024 < UINT32 && t % UINT32 == t && (n + 1) % UINT32 == n + 1
  {
    assert (n + 1) * kb == n * kb + kb;
    Larger(n + 1, 179, kb);
  }

  /** The statistics after a frame has been counted in its GOP and before it is counted in the period. */
  ghost predicate Countable(c: Control, kb: nat) {
    && Capped(c) && c.pNum <= SUPPORTED_P_FRAMES && (c.level == 0 <==> c.period == 0)
    && c.period <= MAX_STATUS_PERIOD + 1
    && (if c.period == 0 then c.count == 0 else c.count < 6 * (c.period - 1) + c.pNum)
    && c.total <= Most(c.count, kb)
  }

  lemma AccountBounded(c: Control, backlog: nat, kb: nat)
    requires Countable(c, kb) && backlog / 1024 <= kb && 179 * kb * 1024 < UINT32
    ensures var a := Account(c, backlog);
      && a.total <= Most(a.count, kb)
      && (if a.period == 0 then a.count == 0 else a.count <= 6 * (a.period - 1) + a.pNum)
  {
    assert Most(0, kb) == 0;
    hide Most, WidthsOk;
    if 0 < c.period <= MAX_STATUS_PERIOD {
      MostAfter(c.total, c.count, backlog, kb);
      assert Account(c, backlog) == c.(total := c.total + backlog / 1024, count := c.count + 1);
    }
  }

  lemma RecordedCountable(c: Control, isI: bool, kb: nat)
    requires Bounded(c, kb) && (!isI ==> c.pNum < SUPPORTED_P_FRAMES)
    ensures Countable(RecordMap(c, isI), kb)
  {
    hide Most;
  }

  lemma BoundedCheck(c: Control, thd: nat, pre: nat, backlog: nat, isI: bool, kb: nat)
    requires ConfigOk(thd) && Countable(c, kb) && backlog < UINT32 && backlog / 1024 <= kb && 179 * kb * 1024 < UINT32
    ensures Bounded(LevelCheck(c, thd, pre, backlog, isI).0, kb)
  {
    assert Most(0, kb) == 0;
    hide LevelCheck, ConfigOk, StartThreshold, Account, Most, WidthsOk;
    AccountBounded(c, backlog, kb);
    CappedCheck(c, thd, pre, backlog, isI);
  }

  lemma BoundedNext(c: Control, thd: nat, i: Input, kb: nat)
    requires ConfigOk(thd) && Bounded(c, kb) && Checkable(i)
    requires i.backlog.value / 1024 <= kb && 179 * kb * 1024 < UINT32 && (!i.isI ==> c.pNum < SUPPORTED_P_FRAMES)
    ensures Bounded(DropCheck(c, thd, i).0, kb)
  {
    SteadyNext(c, thd, i);
    hide LevelCheck, ConfigOk, StartThreshold, RecordMap, Most, WidthsOk;
    var c0 := AskConfig(c, i.config);
    var c1 := if i.isI then c0.(dropping := false) else c0;
    RecordedCapped(c1, i.isI);
    RecordedCountable(c1, i.isI, kb);
    var r := RecordMap(c1, i.isI);
    BoundedCheck(r, thd, i.size, i.backlog.value, i.isI, kb);
    BoundedCheck(r.(dropping := false), thd, i.size, i.backlog.value, i.isI, kb);
  }

  lemma {:induction false} BoundedRun(c: Control, thd: nat, inputs: seq<Input>, limit: nat)
    requires ConfigOk(thd) && Bounded(c, limit / 1024) && AllCheckable(inputs) && AllInputsOk(inputs)
    requires GopsOk(c, thd, inputs) && BacklogsWithin(inputs, limit) && Fits(limit)
    ensures Bounded(After(c, thd, inputs), limit / 1024)
    decreases |inputs|
  {
    if inputs != [] {
      BoundedNext(c, thd, inputs[0], limit / 1024);
      BoundedRun(DropCheck(c, thd, inputs[0]).0, thd, inputs[1..], limit);
    }
  }

  lemma CountedBounded(thd: nat, before: seq<Input>, i: Input, limit: nat, size: nat)
    requires ConfigOk(thd) && Ordinary(thd, before, limit, size) && NextFrame(thd, before, i, limit, size)
    requires Fits(limit)
    ensures Counted(thd, before, i).total * 1024 < UINT32
  {
    var c, kb := After(START, thd, before), limit / 1024;
    BoundedRun(START, thd, before, limit);
    RecordedCountable(c, i.isI, kb);
    AccountBounded(RecordMap(c, i.isI), i.backlog.value, kb);
    Larger(Counted(thd, before, i).count, 179, kb);
  }

  // ---------- And it is needed ----------

  /** The least backlog above the bound. */
  const KB: nat := 23432
  const BACKLOG: nat := KB * 1024

  function Frame(isI: bool, size: nat): Input {
    Input(Some(SUPPORTED_P_FRAMES), true, isI, size, true, Some(BACKLOG))
  }

  /** A frame of this size over that backlog adds up, in 32 bits, to a size in the first level interval. */
  predicate FirstInterval(thd: nat, size: nat)
    requires ConfigOk(thd)
  {
    size < UINT32 && StartThreshold(thd) < (size + BACKLOG) % UINT32 < StartThreshold(thd) + LevelInterval(thd)
  }

  /** Level 1 for `p` periods, `k` P frames into the GOP, and every frame counted: only the fifth P frame is dropped. */
  ghost predicate Loaded(c: Control, p: nat, k: nat) {
    && WidthsOk(c) && c.checked && c.supported && !c.iDropped && 1 <= p
    && c.level == 1 && c.period == p && c.pNum == k && c.dropping == (k == SUPPORTED_P_FRAMES)
    && c.count == 6 * (p - 1) + k && c.total == KB * c.count
  }

  lemma FirstLevel(thd: nat, size: nat)
    requires ConfigOk(thd) && StartThreshold(thd) < size < StartThreshold(thd) + LevelInterval(thd)
    ensures RawLevel(thd, size) == 1
  {
    hide StartThreshold, LevelInterval;
    SmallQuotient(size - StartThreshold(thd), LevelInterval(thd));
  }

  lemma SmallQuotient(x: nat, n: nat)
    requires x < n
    ensures x / n == 0
  {
  }

  lemma LoadedCheck(c: Control, thd: nat, size: nat, isI: bool)
    requires ConfigOk(thd) && FirstInterval(thd, size)
    requires WidthsOk(c) && c.level <= 1 && c.period <= MAX_STATUS_PERIOD && c.count < 179 && c.total == KB * c.count
    requires !c.iDropped && (c.level == 0 <==> c.period == 0)
    ensures LevelCheck(c, thd, size, BACKLOG, isI) ==
      (if c.period == 0 then c.(level := 1, period := 1) else c.(total := c.total + KB, count := c.count + 1),
       !isI && c.pNum >= SUPPORTED_P_FRAMES)
  {
    FirstLevel(thd, (size + BACKLOG) % UINT32);
    hide StartThreshold, RawLevel, ConfigOk, DownLevel, LevelInterval;
    assert Account(c, BACKLOG) == if c.period == 0 then c else c.(total := c.total + KB, count := c.count + 1);
  }

  lemma LoadP(c: Control, thd: nat, size: nat, p: nat, k: nat)
    requires ConfigOk(thd) && FirstInterval(thd, size)
    requires Loaded(c, p, k) && p <= MAX_STATUS_PERIOD && k < SUPPORTED_P_FRAMES
    ensures Loaded(DropCheck(c, thd, Frame(false, size)).0, p, k + 1)
  {
    PFrameCheck(c, thd, Frame(false, size));
    LoadedCheck(RecordMap(c, false), thd, size, false);
    hide LevelCheck, ConfigOk, StartThreshold, LevelInterval, DropCheck, FirstInterval;
  }

  /** The drop check of an I frame, when the buffer check succeeds: it always comes to the level check. */
  lemma IFrameCheck(c: Control, thd: nat, i: Input)
    requires ConfigOk(thd) && WidthsOk(c) && c.supported && c.checked && Checkable(i) && i.present && i.isI
    ensures var r := RecordMap(c.(dropping := false), true);
      && WidthsOk(r)
      && var (d, drop) := LevelCheck(r, thd, i.size, i.backlog.value, true);
         DropCheck(c, thd, i) == (d.(dropping := drop), drop)
  {
    assert AskConfig(c, i.config) == c;
    hide LevelCheck, ConfigOk, StartThreshold, AskConfig;
  }

  lemma LoadI(c: Control, thd: nat, size: nat, p: nat)
    requires ConfigOk(thd) && FirstInterval(thd, size)
    requires Loaded(c, p, SUPPORTED_P_FRAMES) && p < MAX_STATUS_PERIOD
    ensures Loaded(DropCheck(c, thd, Frame(true, size)).0, p + 1, 0)
  {
    IFrameCheck(c, thd, Frame(true, size));
    LoadedCheck(RecordMap(c.(dropping := false), true), thd, size, true);
    hide LevelCheck, ConfigOk, StartThreshold, LevelInterval, DropCheck, FirstInterval;
  }

  lemma LoadFirst(thd: nat, size: nat)
    requires ConfigOk(thd) && FirstInterval(thd, size)
    ensures WidthsOk(START) && Loaded(DropCheck(START, thd, Frame(true, size)).0, 1, 0)
  {
    LoadedCheck(RecordMap(AskConfig(START, Some(SUPPORTED_P_FRAMES)), true), thd, size, true);
    hide LevelCheck, ConfigOk, StartThreshold, LevelInterval;
  }

  lemma {:induction false} RunSnoc(c: Control, thd: nat, inputs: seq<Input>, i: Input)
    requires ConfigOk(thd) && WidthsOk(c) && AllInputsOk(inputs) && InputOk(i) && GopsOk(c, thd, inputs)
    requires !i.isI ==> After(c, thd, inputs).pNum < SUPPORTED_P_FRAMES
    ensures AllInputsOk(inputs + [i]) && GopsOk(c, thd, inputs + [i])
    ensures After(c, thd, inputs + [i]) == DropCheck(After(c, thd, inputs), thd, i).0
    decreases |inputs|
  {
    WidthsStay(After(c, thd, inputs), thd, i);
    hide DropCheck, ConfigOk, WidthsOk;
    if inputs == [] {
      assert (inputs + [i])[1..] == [];
    } else {
      WidthsStay(c, thd, inputs[0]);
      assert (inputs + [i])[1..] == inputs[1..] + [i];
      RunSnoc(DropCheck(c, thd, inputs[0]).0, thd, inputs[1..], i);
    }
  }

  lemma {:induction false} LoadedRun(thd: nat, size: nat, p: nat, k: nat) returns (run: seq<Input>)
    requires ConfigOk(thd) && FirstInterval(thd, size)
    requires 1 <= p <= MAX_STATUS_PERIOD && k <= SUPPORTED_P_FRAMES
    ensures Ordinary(thd, run, BACKLOG, size) && Loaded(After(START, thd, run), p, k)
    decreases p, k
  {
    hide DropCheck, StartThreshold, ConfigOk, LevelInterval;
    if k > 0 {
      var before := LoadedRun(thd, size, p, k - 1);
      LoadP(After(START, thd, before), thd, size, p, k - 1);
      RunSnoc(START, thd, before, Frame(false, size));
      run := before + [Frame(false, size)];
    } else if p > 1 {
      var before := LoadedRun(thd, size, p - 1, SUPPORTED_P_FRAMES);
      LoadI(After(START, thd, before), thd, size, p - 1);
      RunSnoc(START, thd, before, Frame(true, size));
      run := before + [Frame(true, size)];
    } else {
      LoadFirst(thd, size);
      RunSnoc(START, thd, [], Frame(true, size));
      run := [] + [Frame(true, size)];
    }
  }

  // ---------- Main results ----------

  /**
   For any threshold and any bound on the frames that lets some frame bring the least failing backlog into the first
   level interval: the numerator stays within 32 bits in all runs if and only if 179 backlogs of the limit fit.
   */
  lemma AveragesExactFor(thd: nat, limit: nat, size: nat)
    requires ConfigOk(thd) && FirstInterval(thd, size)
    ensures NeverOverflows(thd, limit, size) <==> Fits(limit)
  {
    if Fits(limit) {
      AveragesFit(thd, limit, size);
    } else {
      var before := LoadedRun(thd, size, MAX_STATUS_PERIOD, SUPPORTED_P_FRAMES - 1);
      assert Ordinary(thd, before, limit, size) && NextFrame(thd, before, Frame(false, size), limit, size);
      assert Counted(thd, before, Frame(false, size)).total == 179 * KB;
    }
  }

  /** The bound suffices for every threshold and frames of any size. */
  lemma AveragesFit(thd: nat, limit: nat, size: nat)
    requires ConfigOk(thd) && Fits(limit)
    ensures NeverOverflows(thd, limit, size)
  {
    forall before, i | Ordinary(thd, before, limit, size) && NextFrame(thd, before, i, limit, size)
      ensures Counted(thd, before, i).total * 1024 < UINT32
    {
      CountedBounded(thd, before, i, limit, size);
    }
  }

  /**
   Main result: for each threshold, over frames of any 32-bit size, the numerator stays within 32 bits in all runs if
   and only if 179 backlogs of the limit, counted in KiB, do. 179 is the most frames a period can count.
   */
  lemma AveragesExact(thd: nat, limit: nat)
    requires ConfigOk(thd)
    ensures NeverOverflows(thd, limit, UINT32 - 1) <==> Fits(limit)
  {
    if Fits(limit) {
      AveragesFit(thd, limit, UINT32 - 1);
    } else {
      var size := (StartThreshold(thd) + 1 + UINT32 - BACKLOG) % UINT32;
      AveragesExactFor(thd, limit, size);
      LargerFrames(thd, limit, size, UINT32 - 1);
    }
  }

  lemma LargerFrames(thd: nat, limit: nat, size: nat, more: nat)
    requires ConfigOk(thd) && size <= more
    ensures NeverOverflows(thd, limit, more) ==> NeverOverflows(thd, limit, size)
  {
    assert forall before, i :: Ordinary(thd, before, limit, size) && NextFrame(thd, before, i, limit, size) ==>
      Ordinary(thd, before, limit, more) && NextFrame(thd, before, i, limit, more);
  }

  /**
   The averages fit behind the writer, which keeps the backlog within the image threshold and one packet: for every
   PPCS buffer of up to 30 MB, and so for all sizes that the source considers, of 128 KB to 1 MB.
   */
  lemma AveragesFitBehindWriter(thd: nat, size: nat)
    requires ConfigOk(thd) && thd <= 30 * 1024 * 1024
    ensures NeverOverflows(thd, ImgThreshold(thd) + UINT16, size)
  {
    AveragesFit(thd, ImgThreshold(thd) + UINT16, size);
  }

  /** Some bound on the threshold is needed there: with 61 MB, a backlog behind the writer overflows the numerator. */
  lemma AveragesNeedABound()
    ensures ConfigOk(LARGE_THD) && !NeverOverflows(LARGE_THD, ImgThreshold(LARGE_THD) + UINT16, 0)
  {
    assert FirstInterval(LARGE_THD, 0);
    AveragesExactFor(LARGE_THD, ImgThreshold(LARGE_THD) + UINT16, 0);
  }

  /** A threshold whose first level interval holds the least failing backlog. */
  const LARGE_THD: nat := 63984979
}
