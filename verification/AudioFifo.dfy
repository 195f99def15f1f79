/** The audio FIFO between the voice callback and the video thread, whose size tests are made before locking. */
module AudioFifo {
  import opened Common

  const FRAME_SIZE: nat := 160

  // ---------- The buffer ----------

  /** The frame taken from a buffer, completed by the bytes behind it when the buffer is too short. */
  function Taken(buffer: seq<byte>, stale: seq<byte>): seq<byte>
    requires FRAME_SIZE <= |buffer| + |stale|
  {
    (buffer + stale)[..FRAME_SIZE]
  }

  /** The data fit, or the sum wraps around to a size that would. */
  predicate TestPasses(size: nat, length: nat, capacity: nat) {
    size + length <= capacity || UINT32 <= size + length <= UINT32 + capacity
  }

  function Rest(buffer: seq<byte>): seq<byte> {
    if |buffer| < FRAME_SIZE then [] else buffer[FRAME_SIZE..]
  }

  class AudioData {
    const capacity: nat
    var audioSize: nat
    const audioBuffer: array<byte>

    ghost predicate Valid()
      reads this, audioBuffer
    {
      audioBuffer.Length == capacity < 0x8000 && audioSize <= capacity
    }

    ghost function Contents(): seq<byte>
      requires Valid()
      reads this, audioBuffer
    {
      audioBuffer[..audioSize]
    }

    constructor ()
      ensures Valid() && Contents() == [] && capacity == 16 * FRAME_SIZE && fresh(audioBuffer)
    {
      capacity := 16 * FRAME_SIZE;
      audioBuffer := new byte[16 * FRAME_SIZE](_ => 0);
      audioSize := 0;
    }

    /** The unlocked test of put, in unsigned 32-bit arithmetic. */
    method HasRoom(length: nat) returns (room: bool)
      requires Valid() && length < UINT32
      ensures room <==> TestPasses(|Contents()|, length, capacity)
      ensures |Contents()| + length < UINT32 ==> room == (|Contents()| + length <= capacity)
    {
      room := !((audioSize + length) % UINT32 > capacity);
    }

    /** The locked section of put. */
    method Append(data: seq<byte>)
      requires Valid() && audioSize + |data| <= capacity
      modifies this`audioSize, audioBuffer
      ensures Valid() && Contents() == old(Contents()) + data
    {
      forall i | 0 <= i < |data| {
        audioBuffer[audioSize + i] := data[i];
      }
      audioSize := audioSize + |data|;
    }

    /**
     The locked section of the thread: emit the first `FRAME_SIZE` bytes and move the rest down. Were the buffer
     shorter than a frame, the bytes behind it would be emitted as well.
     */
    method Emit() returns (frame: seq<byte>, ghost stale: seq<byte>)
      requires Valid() && FRAME_SIZE <= capacity
      modifies this`audioSize, audioBuffer
      ensures Valid() && FRAME_SIZE <= |old(Contents())| + |stale|
      ensures frame == Taken(old(Contents()), stale) && Contents() == Rest(old(Contents()))
    {
      frame := audioBuffer[..FRAME_SIZE];
      stale := audioBuffer[audioSize..];
      assert Contents() + stale == audioBuffer[..];
      if audioSize < FRAME_SIZE {
        audioSize := 0;
      } else {
        audioSize := audioSize - FRAME_SIZE;
        if audioSize > 0 {
          forall i | 0 <= i < audioSize {
            audioBuffer[i] := audioBuffer[FRAME_SIZE + i];
          }
        }
      }
    }

    method Reset()
      requires Valid()
      modifies this`audioSize
      ensures Valid() && Contents() == []
    {
      audioSize := 0;
    }
  }

  // ---------- The two threads ----------

  /**
   `putting` is the data of a put that has passed its test and not locked yet, `taking` the same for the thread.
   `accepted` and `emitted` are history since the last reset.
   */
  datatype State = State(
    capacity: nat, buffer: seq<byte>, putting: Option<seq<byte>>, taking: bool,
    accepted: seq<byte>, emitted: seq<seq<byte>>)

  datatype Action = PutTest(data: seq<byte>) | PutSection | TakeTest | TakeSection(stale: seq<byte>) | Reset

  function Init(capacity: nat): State { State(capacity, [], None, false, [], []) }

  predicate Enabled(s: State, a: Action) {
    match a
    case PutTest(data) => s.putting == None && |data| < UINT32
    case PutSection => s.putting.Some?
    case TakeTest => !s.taking
    case TakeSection(stale) => s.taking && FRAME_SIZE <= |s.buffer| + |stale|
    case Reset => !s.taking
  }

  function Next(s: State, a: Action): State
    requires Enabled(s, a)
  {
    match a
    case PutTest(data) =>
      if TestPasses(|s.buffer|, |data|, s.capacity) then s.(putting := Some(data)) else s
    case PutSection =>
      s.(buffer := s.buffer + s.putting.value, accepted := s.accepted + s.putting.value, putting := None)
    case TakeTest => s.(taking := |s.buffer| >= FRAME_SIZE)
    case TakeSection(stale) =>
      s.(buffer := Rest(s.buffer), emitted := s.emitted + [Taken(s.buffer, stale)], taking := false)
    case Reset => s.(buffer := [], accepted := [], emitted := [])
  }

  predicate Runs(s: State, actions: seq<Action>, t: State)
    decreases |actions|
  {
    if actions == [] then s == t
    else Enabled(s, actions[0]) && Runs(Next(s, actions[0]), actions[1..], t)
  }

  /** The pending put still fits, the pending take still has its frame, and no byte is lost, repeated or reordered. */
  ghost predicate Inv(s: State) {
    && |s.buffer| + (if s.putting.Some? then |s.putting.value| else 0) <= s.capacity
    && (s.taking ==> FRAME_SIZE <= |s.buffer|)
    && Concat(s.emitted) + s.buffer == s.accepted
    && forall i :: 0 <= i < |s.emitted| ==> |s.emitted[i]| == FRAME_SIZE
  }

  lemma InvNext(s: State, a: Action)
    requires Inv(s) && Enabled(s, a) && (a.PutTest? ==> |a.data| + s.capacity < UINT32)
    ensures Inv(Next(s, a)) && Next(s, a).capacity == s.capacity
  {
    if a.TakeSection? {
      var r := Next(s, a);
      assert Taken(s.buffer, a.stale) == s.buffer[..FRAME_SIZE];
      ConcatAppend(s.emitted, [s.buffer[..FRAME_SIZE]]);
      ConcatOne(s.buffer[..FRAME_SIZE]);
      assert Concat(r.emitted) == Concat(s.emitted) + s.buffer[..FRAME_SIZE];
      assert s.buffer == s.buffer[..FRAME_SIZE] + s.buffer[FRAME_SIZE..];
    } else if a.PutSection? {
      assert Concat(s.emitted) + (s.buffer + s.putting.value) == (Concat(s.emitted) + s.buffer) + s.putting.value;
    }
  }

  /** Every put has at most `most` bytes. */
  predicate PutsWithin(actions: seq<Action>, most: nat) {
    forall i :: 0 <= i < |actions| ==> actions[i].PutTest? ==> |actions[i].data| <= most
  }

  lemma {:induction false} InvRuns(s: State, actions: seq<Action>, t: State, most: nat)
    requires Inv(s) && Runs(s, actions, t) && PutsWithin(actions, most) && most + s.capacity < UINT32
    ensures Inv(t) && t.capacity == s.capacity
    decreases |actions|
  {
    if actions != [] {
      InvNext(s, actions[0]);
      InvRuns(Next(s, actions[0]), actions[1..], t, most);
    }
  }

  /**
   Main result: with one producer and one consumer, in every interleaving of puts that leave 32 bits room, the buffer
   stays within its capacity, a put that has passed its test still fits when it gets the lock, the thread never takes
   more than the buffer holds, and the frames emitted since the last reset followed by the buffer are exactly the data
   accepted since then.
   */
  lemma NothingLostOrTorn(capacity: nat, actions: seq<Action>, t: State, most: nat)
    requires Runs(Init(capacity), actions, t) && PutsWithin(actions, most) && most + capacity < UINT32
    ensures |t.buffer| <= capacity
    ensures t.putting.Some? ==> |t.buffer| + |t.putting.value| <= capacity
    ensures t.taking ==> FRAME_SIZE <= |t.buffer|
    ensures Concat(t.emitted) + t.buffer == t.accepted
    ensures forall i :: 0 <= i < |t.emitted| ==> |t.emitted[i]| == FRAME_SIZE
  {
    InvRuns(Init(capacity), actions, t, most);
  }

  /**
   Main result: in the same interleavings a put passes its test exactly when its data fit, and the thread takes a frame
   exactly when the buffer has one.
   */
  lemma {:induction false} TestsAreExact(
    capacity: nat, actions: seq<Action>, t: State, most: nat, data: seq<byte>)
    requires Runs(Init(capacity), actions, t) && PutsWithin(actions, most) && most + capacity < UINT32
    requires |data| <= most
    ensures Enabled(t, PutTest(data)) ==>
      Next(t, PutTest(data)).putting == if |t.buffer| + |data| <= capacity then Some(data) else None
    ensures Enabled(t, TakeTest) ==> (Next(t, TakeTest).taking <==> |t.buffer| >= FRAME_SIZE)
  {
    InvRuns(Init(capacity), actions, t, most);
  }

  /** Main result: and the frame it then emits is the next one of the data accepted since the last reset. */
  lemma {:induction false} EmitsNext(capacity: nat, actions: seq<Action>, t: State, most: nat, stale: seq<byte>)
    requires Runs(Init(capacity), actions, t) && PutsWithin(actions, most) && most + capacity < UINT32
    requires Enabled(t, TakeSection(stale))
    ensures var n := |t.emitted| * FRAME_SIZE;
      && n + FRAME_SIZE <= |t.accepted|
      && Next(t, TakeSection(stale)).emitted == t.emitted + [t.accepted[n..n + FRAME_SIZE]]
  {
    InvRuns(Init(capacity), actions, t, most);
    FramesLength(t.emitted);
    var sent, n := Concat(t.emitted), |t.emitted| * FRAME_SIZE;
    assert (sent + t.buffer)[n..n + FRAME_SIZE] == t.buffer[..FRAME_SIZE];
    assert Taken(t.buffer, stale) == t.buffer[..FRAME_SIZE];
  }

  lemma {:induction false} FramesLength(frames: seq<seq<byte>>)
    requires forall i :: 0 <= i < |frames| ==> |frames[i]| == FRAME_SIZE
    ensures |Concat(frames)| == |frames| * FRAME_SIZE
  {
    if frames != [] {
      FramesLength(frames[1..]);
    }
  }

  /** No put of at most `most` bytes can pass its test and then overrun the buffer. */
  ghost predicate NeverOverruns(capacity: nat, most: nat) {
    forall actions, t :: Runs(Init(capacity), actions, t) && PutsWithin(actions, most) && t.putting.Some? ==>
      |t.buffer| + |t.putting.value| <= capacity
  }

  /** Main result: the condition on the puts is exact, as the test adds in 32 bits. */
  lemma NeverOverrunsExactly(capacity: nat, most: nat)
    requires 0 < capacity < 0x8000 && most < UINT32
    ensures NeverOverruns(capacity, most) <==> most + capacity < UINT32
  {
    if most + capacity < UINT32 {
      forall actions, t | Runs(Init(capacity), actions, t) && PutsWithin(actions, most) && t.putting.Some?
        ensures |t.buffer| + |t.putting.value| <= capacity
      {
        NothingLostOrTorn(capacity, actions, t, most);
      }
    } else {
      var actions, t := WrappedPut(capacity);
      assert PutsWithin(actions, most);
    }
  }

  /** A put whose length wraps the sum around passes the test of a full buffer. */
  lemma WrappedPut(capacity: nat) returns (actions: seq<Action>, t: State)
    requires 0 < capacity < 0x8000
    ensures Runs(Init(capacity), actions, t) && PutsWithin(actions, UINT32 - capacity)
    ensures |t.buffer| == capacity && t.putting.Some? && |t.putting.value| == UINT32 - capacity
  {
    var fill: seq<byte> := seq(capacity, _ => 0);
    var more: seq<byte> := seq(UINT32 - capacity, _ => 0);
    var s0 := Init(capacity);
    var s1 := Next(s0, PutTest(fill));
    var s2 := Next(s1, PutSection);
    t := Next(s2, PutTest(more));
    actions := [PutTest(fill), PutSection, PutTest(more)];
    assert actions[1..] == [PutSection, PutTest(more)];
    assert actions[1..][1..] == [PutTest(more)] && [PutTest(more)][1..] == [];
    assert Runs(t, [], t) && Runs(s2, [PutTest(more)], t) && Runs(s1, actions[1..], t);
  }
}
