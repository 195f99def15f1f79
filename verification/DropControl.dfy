/** The H264 drop controller with its statics, as the source updates them. */
module DropControl {
  import opened Common
  import opened DropModel

  class DropControl {
    const thd: nat
    var iNum: nat
    var pNum: nat
    var level: nat
    var period: nat
    var total: nat
    var count: nat
    var checked: bool
    var supported: bool
    var iDropped: bool
    var dropping: bool

    constructor (thd: nat)
      requires ConfigOk(thd)
      ensures this.thd == thd && Valid() && Value() == START
    {
      this.thd := thd;
      iNum, pNum, level, period, total, count := 0, 0, 0, 0, 0, 0;
      checked, supported, iDropped, dropping := false, false, false, false;
    }

    ghost function Value(): Control
      reads this
    {
      Control(iNum, pNum, level, period, total, count, checked, supported, iDropped, dropping)
    }

    ghost predicate Valid()
      reads this
    {
      ConfigOk(thd) && WidthsOk(Value())
    }

    /** Count the frame in its GOP. */
    method RecordMap(isI: bool)
      requires Valid()
      modifies this
      ensures Valid() && Value() == DropModel.RecordMap(old(Value()), isI)
    {
      if isI && level != 0 {
        period := (period + 1) % UINT8;
      }
      if isI && iNum >= I_FRAME_MAX_NUM {
        iNum := 0;
      }
      if isI {
        iNum := (iNum + 1) % UINT8;
        pNum := 0;
      } else {
        pNum := (pNum + 1) % UINT8;
      }
    }

    method DownDropLevel(current: nat, recovery: bool, isI: bool)
      requires Valid() && current < UINT32
      modifies this
      ensures Valid() && Value() == DownLevel(old(Value()), thd, current, recovery, isI)
    {
      hide RawLevel, ToInt32, ToUint32, ConfigOk, StartThreshold, Average;
      if period <= DOWN_MIN_PERIOD || !isI || count == 0 {
        return;
      }
      var average := Average(total, count);
      if average < StartThreshold(thd) {
        level := (if recovery then 0 else current) % UINT8;
      } else {
        var raw := ToInt32(RawLevel(thd, average));
        if raw >= MAX_DROP_LEVEL {
          raw := MAX_DROP_LEVEL - 1;
        }
        level := (if ToUint32(raw) > current then ToUint32(raw) else current) % UINT8;
      }
      period, total, count := 0, 0, 0;
    }

    /** The statistics of the period. */
    method CountStatus(backlog: nat)
      requires Valid()
      modifies this
      ensures Valid() && Value() == Account(old(Value()), backlog)
    {
      hide ConfigOk;
      if period > MAX_STATUS_PERIOD {
        period, total, count := 0, 0, 0;
      }
      if period != 0 {
        total := (total + backlog / 1024) % UINT32;
        count := (count + 1) % UINT32;
      }
    }

    /** The level for the current size. */
    method AdjustLevel(size: nat, isI: bool)
      requires Valid()
      modifies this
      ensures Valid() && Value() == Adjust(old(Value()), thd, size, isI)
    {
      hide DownLevel, RawLevel, ConfigOk, StartThreshold;
      if size > StartThreshold(thd) {
        var current := RawLevel(thd, size);
        if current >= MAX_DROP_LEVEL {
          current := MAX_DROP_LEVEL - 1;
        }
        if level > current {
          DownDropLevel(current, false, isI);
        } else {
          level := current % UINT8;
        }
      } else {
        DownDropLevel(level, true, isI);
      }
    }

    method DropLevelCheck(pre: nat, backlog: nat, isI: bool) returns (drop: bool)
      requires Valid() && backlog < UINT32
      modifies this
      ensures Valid() && (Value(), drop) == LevelCheck(old(Value()), thd, pre, backlog, isI)
    {
      hide Adjust, Account, ConfigOk, StartThreshold;
      var size := (pre + backlog) % UINT32;
      var needDrop := size > StartThreshold(thd);
      if level == 0 && !needDrop {
        return false;
      }
      CountStatus(backlog);
      AdjustLevel(size, isI);
      if level != 0 && period == 0 {
        period := 1;
      }
      if isI {
        if level >= MAX_DROP_LEVEL && iNum == I_FRAME_MAX_NUM {
          iDropped := true;
          return true;
        }
        iDropped := false;
      } else if pNum >= MAX_DROP_LEVEL - level {
        return true;
      }
      return false;
    }

    /** Ask the encoder for its GOP length until it answers once. */
    method LearnConfig(config: Option<nat>)
      requires Valid()
      modifies this`checked, this`supported
      ensures Valid() && Value() == AskConfig(old(Value()), config)
    {
      if !checked && config.Some? {
        checked := true;
        supported := config.value == SUPPORTED_P_FRAMES;
      }
    }

    /** Whether to drop the next frame. */
    method DropCheck(i: Input) returns (drop: bool)
      requires Valid() && InputOk(i)
      modifies this
      ensures Valid() && (Value(), drop) == DropModel.DropCheck(old(Value()), thd, i)
    {
      hide LevelCheck, DropModel.RecordMap, ConfigOk, StartThreshold;
      LearnConfig(i.config);
      if !i.present || !supported {
        return false;
      }
      if i.isI {
        dropping := false;
      }
      if !i.session {
        dropping := false;
        return false;
      }
      RecordMap(i.isI);
      if i.backlog == None {
        dropping := false;
        return false;
      }
      if !iDropped && dropping && i.backlog.value < StartThreshold(thd) / 2 {
        dropping := false;
      }
      if dropping {
        return true;
      }
      drop := DropLevelCheck(i.size, i.backlog.value, i.isI);
      dropping := drop;
    }
  }
}
