/** What the peer gets of the frames that the consumer loop of the encoder glue gets, one after another. */
module VideoFrames {
  import opened Common
  import StartCode

  const MIN_LENGTH: nat := 4

  /** A frame: its buffer, how many bytes of it are used, its 32-bit timestamp and whether it is an I frame. */
  datatype Frame = Frame(data: seq<byte>, length: nat, timestamp: nat, isI: bool)
  {
    predicate Ok() {
      length <= |data| && timestamp < UINT32 && StartCode.Readable(data, length)
    }

    /** It is long enough and has a timestamp that can be the time base. */
    predicate SetsBase() {
      length >= MIN_LENGTH && timestamp != 0
    }

    /** What the peer gets of it: an I frame whole, a P frame from its slice on, a frame too short not at all. */
    function Payload(): Option<nat>
      requires Ok()
    {
      if length < MIN_LENGTH then None else if isI then Some(0) else StartCode.PayloadOffset(data, length)
    }
  }

  /** What the peer gets: where the payload begins in the frame, the time since the first frame, and the kind. */
  datatype Video = Video(offset: nat, dts: nat, key: bool)

  /** The time base after a frame. */
  function Base(base: nat, f: Frame): nat {
    if f.length >= MIN_LENGTH && base == 0 then f.timestamp else base
  }

  function ToPeer(base: nat, f: Frame): Option<Video>
    requires f.Ok()
  {
    match f.Payload()
    case None => None
    case Some(offset) => Some(Video(offset, (f.timestamp - Base(base, f)) % UINT32, f.isI))
  }

  predicate AllOk(frames: seq<Frame>) {
    forall i :: 0 <= i < |frames| ==> frames[i].Ok()
  }

  /** What the peer gets from successive passes, the first of which finds this time base. */
  function Videos(base: nat, frames: seq<Frame>): (vs: seq<Option<Video>>)
    requires AllOk(frames)
    ensures |vs| == |frames|
    decreases |frames|
  {
    if frames == [] then []
    else [ToPeer(base, frames[0])] + Videos(Base(base, frames[0]), frames[1..])
  }

  /** The position of the first frame that sets the time base, or the number of frames. */
  function First(frames: seq<Frame>): (k: nat)
    ensures k <= |frames| && (k < |frames| ==> frames[k].SetsBase())
    ensures forall i :: 0 <= i < k ==> !frames[i].SetsBase()
  {
    if frames == [] || frames[0].SetsBase() then 0 else 1 + First(frames[1..])
  }

  /** The times of a connection that has its time base. */
  lemma {:induction false} TimesFrom(base: nat, frames: seq<Frame>)
    requires AllOk(frames) && base != 0
    ensures forall i :: 0 <= i < |frames| && Videos(base, frames)[i].Some? ==>
      Videos(base, frames)[i].value.dts == (frames[i].timestamp - base) % UINT32
    decreases |frames|
  {
    if frames != [] {
      TimesFrom(base, frames[1..]);
    }
  }

  lemma FirstTime(f: Frame)
    requires f.Ok()
    ensures Base(0, f) == if f.SetsBase() then f.timestamp else 0
    ensures ToPeer(0, f).Some? ==> ToPeer(0, f).value.dts == 0 && (f.timestamp == 0 || f.SetsBase())
  {
  }

  /**
   Main result: in a connection, a frame handed to the peer carries its time since the first frame of at least four
   bytes whose timestamp is not 0, in 32 bits; before that frame the time is 0, as the timestamps are.
   */
  lemma {:induction false} TimesAreRelative(frames: seq<Frame>)
    requires AllOk(frames)
    ensures var k, vs := First(frames), Videos(0, frames);
      forall i :: 0 <= i < |frames| && vs[i].Some? ==>
        if i < k then vs[i].value.dts == frames[i].timestamp == 0
        else vs[i].value.dts == (frames[i].timestamp - frames[k].timestamp) % UINT32
    decreases |frames|
  {
    if frames != [] {
      FirstTime(frames[0]);
      hide ToPeer, Base;
      if Base(0, frames[0]) == 0 {
        TimesAreRelative(frames[1..]);
      } else {
        TimesFrom(frames[0].timestamp, frames[1..]);
      }
    }
  }

  /** So from then on the times of any two frames differ as their timestamps do. */
  lemma {:induction false} TimesDiffer(frames: seq<Frame>, i: nat, j: nat)
    requires AllOk(frames) && First(frames) <= i < |frames| && First(frames) <= j < |frames|
    requires Videos(0, frames)[i].Some? && Videos(0, frames)[j].Some?
    ensures var vs := Videos(0, frames);
      (vs[j].value.dts - vs[i].value.dts) % UINT32 == (frames[j].timestamp - frames[i].timestamp) % UINT32
  {
    TimesAreRelative(frames);
  }

  /**
   Main result: exactly the frames of at least four bytes are handed on that are I frames or have a payload behind a
   start code; an I frame from its first byte on and marked as key frame, a P frame from its payload on and not marked.
   */
  lemma {:induction false} HandedOnExactly(base: nat, frames: seq<Frame>)
    requires AllOk(frames)
    ensures forall i :: 0 <= i < |frames| ==>
      var f, v := frames[i], Videos(base, frames)[i];
      && (v.Some? <==> f.length >= MIN_LENGTH && (f.isI || StartCode.PayloadOffset(f.data, f.length).Some?))
      && (v.Some? && f.isI ==> v.value.key && v.value.offset == 0)
      && (v.Some? && !f.isI ==>
            !v.value.key && StartCode.PayloadOffset(f.data, f.length) == Some(v.value.offset))
    decreases |frames|
  {
    if frames != [] {
      HandedOnExactly(Base(base, frames[0]), frames[1..]);
    }
  }
}
