/** A run in which the drop level falls twice, as closely as it can. */
module DropFalls {
  import opened Common
  import opened DropModel
  import opened DropRuns

  const MB: nat := 0x10_0000

  /** An I frame over this backlog. */
  function IFrame(backlog: nat): Input {
    Input(Some(SUPPORTED_P_FRAMES), true, true, 0, true, Some(backlog))
  }

  /** Full level, first level interval, and nothing at all, for a PPCS buffer of 1 MB. */
  const FULL: nat := 786432
  const LITTLE: nat := 400000
  const NONE: nat := 0

  /** Level `level`, `n` checks of an empty buffer into its period. */
  ghost predicate Waiting(c: Control, level: nat, n: nat) {
    && Capped(c) && c.supported && c.checked && !c.dropping
    && c.level == level && c.period == 1 + n && c.total == 0 && c.count == n
  }

  function Empties(n: nat): (es: seq<Input>)
    ensures |es| == n && AllInputsOk(es) && IFrames(es) == n
  {
    if n == 0 then []
    else
      var es := [IFrame(NONE)] + Empties(n - 1);
      assert es[1..] == Empties(n - 1);
      es
  }

  lemma Numbers()
    ensures ConfigOk(MB) && StartThreshold(MB) == 393216
    ensures RawLevel(MB, FULL) >= MAX_DROP_LEVEL && RawLevel(MB, LITTLE) == 1
  {
    assert ImgThreshold(MB) == 786432;
    hide ImgThreshold;
    assert LevelInterval(MB) == 56173 && StartThreshold(MB) == 393216;
    hide LevelInterval, StartThreshold;
    assert 393216 / 56173 == 7 && 6784 / 56173 == 0;
  }

  lemma ICheck(c: Control, backlog: nat)
    requires WidthsOk(c) && (c.checked ==> c.supported) && backlog < UINT32
    ensures ConfigOk(MB)
    ensures var r := RecordMap(c.(checked := true, supported := true, dropping := false), true);
      && WidthsOk(r)
      && var (d, drop) := LevelCheck(r, MB, 0, backlog, true);
         DropCheck(c, MB, IFrame(backlog)) == (d.(dropping := drop), drop)
  {
    Numbers();
    hide LevelCheck, StartThreshold, ConfigOk;
  }

  /** A full buffer starts a period at the highest level. */
  lemma Rise()
    ensures ConfigOk(MB) && Waiting(DropCheck(START, MB, IFrame(FULL)).0, MAX_DROP_LEVEL - 1, 0)
  {
    Numbers();
    ICheck(START, FULL);
    hide StartThreshold, RawLevel, ConfigOk, DropCheck;
  }

  /** An empty buffer is only counted while the period is short ... */
  lemma Wait(c: Control, level: nat, n: nat)
    requires Waiting(c, level, n) && 1 <= level && n < 9
    ensures ConfigOk(MB) && Waiting(DropCheck(c, MB, IFrame(NONE)).0, level, n + 1)
  {
    ICheck(c, NONE);
    Recorded(c, level, n);
    hide LevelCheck, StartThreshold, ConfigOk, DropCheck, RecordMap;
    ShortCheck(RecordMap(c.(dropping := false), true));
  }

  lemma ShortCheck(c: Control)
    requires Capped(c) && 1 <= c.level && 1 <= c.period <= DOWN_MIN_PERIOD && c.total == 0 && c.count < 9
    ensures ConfigOk(MB) && LevelCheck(c, MB, 0, NONE, true) == (c.(count := c.count + 1), false)
  {
    Numbers();
    hide StartThreshold, RawLevel, ConfigOk, Average, ToInt32, ToUint32;
  }

  lemma {:induction false} WaitMore(c: Control, level: nat, n: nat, k: nat)
    requires Waiting(c, level, n) && 1 <= level && n + k <= 9
    ensures ConfigOk(MB) && Waiting(After(c, MB, Empties(k)), level, n + k)
    decreases k
  {
    Numbers();
    if k > 0 {
      Wait(c, level, n);
      hide DropCheck, ConfigOk;
      assert Empties(k)[0] == IFrame(NONE) && Empties(k)[1..] == Empties(k - 1);
      WaitMore(DropCheck(c, MB, IFrame(NONE)).0, level, n + 1, k - 1);
    }
  }

  /** ... and when it is long enough, a little backlog makes the level fall to the first, */
  lemma FallToFirst(c: Control)
    requires Waiting(c, MAX_DROP_LEVEL - 1, 9)
    ensures ConfigOk(MB) && Waiting(DropCheck(c, MB, IFrame(LITTLE)).0, 1, 0)
  {
    ICheck(c, LITTLE);
    Recorded(c, MAX_DROP_LEVEL - 1, 9);
    hide LevelCheck, StartThreshold, ConfigOk, DropCheck, RecordMap;
    FirstLevelCheck(RecordMap(c.(dropping := false), true));
  }

  lemma Recorded(c: Control, level: nat, n: nat)
    requires Waiting(c, level, n) && 1 <= level && n <= 9
    ensures c.(checked := true, supported := true, dropping := false) == c.(dropping := false)
    ensures var r := RecordMap(c.(dropping := false), true);
      && Capped(r) && r.supported && r.checked && !r.dropping
      && r.level == level && r.period == 2 + n && r.total == 0 && r.count == n
  {
    RecordedCapped(c.(dropping := false), true);
  }

  lemma FirstLevelCheck(c: Control)
    requires Capped(c) && c.level == MAX_DROP_LEVEL - 1 && c.period == DOWN_MIN_PERIOD + 1
    requires c.total == 0 && c.count == 9
    ensures ConfigOk(MB)
    ensures LevelCheck(c, MB, 0, LITTLE, true) == (c.(level := 1, period := 1, count := 0), false)
  {
    Numbers();
    assert Account(c, LITTLE) == c.(total := 390, count := 10) && Average(390, 10) == 39936;
    hide StartThreshold, RawLevel, ConfigOk, Average, Account;
  }

  /** and an empty buffer to nothing. */
  lemma FallToNone(c: Control)
    requires Waiting(c, 1, 9)
    ensures ConfigOk(MB) && DropCheck(c, MB, IFrame(NONE)).0.level == 0
  {
    Numbers();
    ICheck(c, NONE);
    assert Average(0, 10) == 0;
    hide StartThreshold, RawLevel, ConfigOk, DropCheck, Average;
  }

  /** Main result: two falls can be exactly ten I frames apart. */
  lemma {:induction false} FallsTenApart()
    ensures ConfigOk(MB)
    ensures var before := [IFrame(FULL)] + Empties(9);
      && FallsAfter(MB, before, IFrame(LITTLE))
      && FallsAfter(MB, before + [IFrame(LITTLE)] + Empties(9), IFrame(NONE))
      && IFrames(Empties(9)) + 1 == 10
  {
    Numbers();
    hide DropCheck, ConfigOk;
    var before, x := [IFrame(FULL)] + Empties(9), IFrame(LITTLE);
    assert AllInputsOk([IFrame(FULL)]) && AllInputsOk([x]);
    Rise();
    AfterOne(START, MB, IFrame(FULL));
    AfterAppend(START, MB, [IFrame(FULL)], Empties(9));
    WaitMore(After(START, MB, [IFrame(FULL)]), MAX_DROP_LEVEL - 1, 0, 9);
    FallToFirst(After(START, MB, before));
    AfterOne(After(START, MB, before), MB, x);
    AfterAppend(START, MB, before, [x]);
    AfterAppend(START, MB, before + [x], Empties(9));
    WaitMore(After(START, MB, before + [x]), 1, 0, 9);
    FallToNone(After(START, MB, before + [x] + Empties(9)));
  }
}
