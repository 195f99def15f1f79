/**
 The H264 drop controller as values: one function per routine, with the source's 8-bit, 32-bit and signed arithmetic.
 `thd` is PPCS_TX_BUFFER_THD, whose value belongs to the PPCS library.
 */
module DropModel {
  import opened Common

  const DOWN_MIN_PERIOD: nat := 10
  const MAX_STATUS_PERIOD: nat := 30
  const MAX_DROP_LEVEL: nat := 6
  const I_FRAME_MAX_NUM: nat := 2
  const SUPPORTED_P_FRAMES: nat := 5
  const UINT8: nat := 0x100

  function ImgThreshold(thd: nat): nat {
    thd * 12 / 16
  }

  function StartThreshold(thd: nat): nat {
    ImgThreshold(thd) / 2
  }

  function LevelInterval(thd: nat): nat {
    ImgThreshold(thd) / 2 / 7
  }

  /** The macro arithmetic does not overflow, and neither does a level computed from a 32-bit average. */
  predicate ConfigOk(thd: nat) {
    thd * 12 < 0x8000_0000 && 3 <= LevelInterval(thd)
  }

  datatype Control = Control(
    iNum: nat,
    pNum: nat,
    level: nat,
    period: nat,
    total: nat,
    count: nat,
    checked: bool,
    supported: bool,
    iDropped: bool,
    dropping: bool)

  /** Zero-initialised statics. */
  const START: Control := Control(0, 0, 0, 0, 0, 0, false, false, false, false)

  /** Field widths of the source's structure. */
  predicate WidthsOk(c: Control) {
    c.iNum < UINT8 && c.pNum < UINT8 && c.level < UINT8 && c.period < UINT8 && c.total < UINT32 && c.count < UINT32
  }

  /**
   One call of the drop check: the encoder configuration if it is asked for and answers, whether there is a frame and
   whether it is an I frame, its size with all packet headers, the session, and the backlog if the check succeeds.
   */
  datatype Input = Input(
    config: Option<nat>,
    present: bool,
    isI: bool,
    size: nat,
    session: bool,
    backlog: Option<nat>)

  predicate InputOk(i: Input) {
    i.size < UINT32 && (i.backlog.Some? ==> i.backlog.value < UINT32)
  }

  function ToUint32(v: int): (r: nat)
    requires -0x8000_0000 <= v < 0x8000_0000
    ensures r < UINT32
  {
    if v < 0 then v + UINT32 else v
  }

  function RecordMap(c: Control, isI: bool): Control {
    var period := if isI && c.level != 0 then (c.period + 1) % UINT8 else c.period;
    if isI then
      var i := if c.iNum >= I_FRAME_MAX_NUM then 0 else c.iNum;
      c.(period := period, iNum := (i + 1) % UINT8, pNum := 0)
    else
      c.(pNum := (c.pNum + 1) % UINT8)
  }

  /** The level for an excess over the start threshold, in 32 bits and uncapped. */
  function RawLevel(thd: nat, size: nat): (r: nat)
    requires ConfigOk(thd) && StartThreshold(thd) <= size
    ensures r < UINT32
  {
    ((size - StartThreshold(thd)) / LevelInterval(thd) + 1) % UINT32
  }

  /** The average backlog of the period, in the source's 32-bit arithmetic. */
  function Average(total: nat, count: nat): (r: nat)
    requires count > 0
    ensures r < UINT32
  {
    LargerDivisor(total * 1024 % UINT32, 1, count);
    total * 1024 % UINT32 / count
  }

  lemma LargerDivisor(x: nat, k: nat, n: nat)
    requires 1 <= k <= n
    ensures x / n <= x / k
  {
    var p, q := x / n, x / k;
    Division(x, n);
    Division(x, k);
    if p > q {
      Larger(k, n, p);
      Larger(q + 1, p, k);
      assert false;
    }
  }

  lemma Division(x: nat, n: nat)
    requires 1 <= n
    ensures n * (x / n) <= x < n * (x / n + 1)
  {
  }

  lemma Larger(a: nat, b: nat, q: nat)
    requires a <= b
    ensures a * q <= b * q && q * a <= q * b
  {
  }

  function DownLevel(c: Control, thd: nat, current: nat, recovery: bool, isI: bool): Control
    requires ConfigOk(thd) && current < UINT32
  {
    if c.period <= DOWN_MIN_PERIOD || !isI || c.count == 0 then c
    else
      var average := Average(c.total, c.count);
      var level :=
        if average < StartThreshold(thd) then (if recovery then 0 else current)
        else
          var raw := ToInt32(RawLevel(thd, average));
          var capped := if raw >= MAX_DROP_LEVEL then MAX_DROP_LEVEL - 1 else raw;
          if ToUint32(capped) > current then ToUint32(capped) else current;
      c.(level := level % UINT8, period := 0, total := 0, count := 0)
  }

  /** Count this check in the statistics of the period, starting the period over when it has run too long. */
  function Account(c: Control, backlog: nat): Control {
    var c1 := if c.period > MAX_STATUS_PERIOD then c.(period := 0, total := 0, count := 0) else c;
    if c1.period != 0
    then c1.(total := (c1.total + backlog / 1024) % UINT32, count := (c1.count + 1) % UINT32)
    else c1
  }

  /** Adjust the level to the current size, or to the average of the period when the size has gone down. */
  function Adjust(c: Control, thd: nat, size: nat, isI: bool): Control
    requires ConfigOk(thd) && WidthsOk(c)
  {
    if size > StartThreshold(thd) then
      var raw := RawLevel(thd, size);
      var current := if raw >= MAX_DROP_LEVEL then MAX_DROP_LEVEL - 1 else raw;
      if c.level > current then DownLevel(c, thd, current, false, isI) else c.(level := current % UINT8)
    else
      DownLevel(c, thd, c.level, true, isI)
  }

  function LevelCheck(c: Control, thd: nat, pre: nat, backlog: nat, isI: bool): (Control, bool)
    requires ConfigOk(thd) && WidthsOk(c)
  {
    var size := (pre + backlog) % UINT32;
    if c.level == 0 && size <= StartThreshold(thd) then (c, false)
    else
      var c1 := Adjust(Account(c, backlog), thd, size, isI);
      var c2 := if c1.level != 0 && c1.period == 0 then c1.(period := 1) else c1;
      if isI then
        if c2.level >= MAX_DROP_LEVEL && c2.iNum == I_FRAME_MAX_NUM then (c2.(iDropped := true), true)
        else (c2.(iDropped := false), false)
      else
        (c2, c2.pNum >= MAX_DROP_LEVEL - c2.level)
  }

  /** Whether the encoder's GOP is of the kind the controller supports, asked until it is known. */
  function AskConfig(c: Control, config: Option<nat>): Control {
    if !c.checked && config.Some?
    then c.(checked := true, supported := config.value == SUPPORTED_P_FRAMES)
    else c
  }

  function DropCheck(c: Control, thd: nat, i: Input): (Control, bool)
    requires ConfigOk(thd) && WidthsOk(c) && InputOk(i)
  {
    var c0 := AskConfig(c, i.config);
    if !i.present || !c0.supported then (c0, false)
    else
      var c1 := if i.isI then c0.(dropping := false) else c0;
      if !i.session then (c1.(dropping := false), false)
      else
        var c2 := RecordMap(c1, i.isI);
        if i.backlog == None then (c2.(dropping := false), false)
        else
          var c3 := if !c2.iDropped && c2.dropping && i.backlog.value < StartThreshold(thd) / 2
                    then c2.(dropping := false) else c2;
          if c3.dropping then (c3, true)
          else
            var (c4, drop) := LevelCheck(c3, thd, i.size, i.backlog.value, i.isI);
            (c4.(dropping := drop), drop)
  }

  lemma WidthsDown(c: Control, thd: nat, current: nat, recovery: bool, isI: bool)
    requires ConfigOk(thd) && WidthsOk(c) && current < UINT32
    ensures WidthsOk(DownLevel(c, thd, current, recovery, isI))
  {
    hide RawLevel, ToInt32, ToUint32, Average;
  }

  lemma WidthsAdjust(c: Control, thd: nat, size: nat, isI: bool)
    requires ConfigOk(thd) && WidthsOk(c)
    ensures WidthsOk(Adjust(c, thd, size, isI))
  {
    hide DownLevel, RawLevel, StartThreshold, ConfigOk;
    if size > StartThreshold(thd) {
      var raw := RawLevel(thd, size);
      WidthsDown(c, thd, if raw >= MAX_DROP_LEVEL then MAX_DROP_LEVEL - 1 else raw, false, isI);
    } else {
      WidthsDown(c, thd, c.level, true, isI);
    }
  }

  lemma WidthsCheck(c: Control, thd: nat, pre: nat, backlog: nat, isI: bool)
    requires ConfigOk(thd) && WidthsOk(c) && backlog < UINT32
    ensures WidthsOk(LevelCheck(c, thd, pre, backlog, isI).0)
  {
    assert WidthsOk(Account(c, backlog));
    hide Adjust, Account, StartThreshold, ConfigOk;
    WidthsAdjust(Account(c, backlog), thd, (pre + backlog) % UINT32, isI);
  }

  lemma WidthsStay(c: Control, thd: nat, i: Input)
    requires ConfigOk(thd) && WidthsOk(c) && InputOk(i)
    ensures WidthsOk(DropCheck(c, thd, i).0)
  {
    var c1 := AskConfig(c, i.config);
    var c2 := RecordMap(if i.isI then c1.(dropping := false) else c1, i.isI);
    assert WidthsOk(c2);
    hide LevelCheck, RecordMap;
    if i.backlog.Some? {
      WidthsCheck(c2, thd, i.size, i.backlog.value, i.isI);
      WidthsCheck(c2.(dropping := false), thd, i.size, i.backlog.value, i.isI);
    }
  }

  predicate AllInputsOk(inputs: seq<Input>) {
    forall k :: 0 <= k < |inputs| ==> InputOk(inputs[k])
  }

  /** The controller after a run. */
  function After(c: Control, thd: nat, inputs: seq<Input>): (r: Control)
    requires ConfigOk(thd) && WidthsOk(c) && AllInputsOk(inputs)
    ensures WidthsOk(r)
    decreases |inputs|
  {
    if inputs == [] then c
    else
      WidthsStay(c, thd, inputs[0]);
      After(DropCheck(c, thd, inputs[0]).0, thd, inputs[1..])
  }
}
