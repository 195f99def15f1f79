/**
 The frame queue as a concurrent system: one producer thread, one thread per consumer and the thread that clears the
 queue, interleaved at the granularity of critical sections and of the unlocked work between them.
 */
module QueueProtocol {
  import opened Common
  import opened QueueModel

  const SEMAPHORE_MAX: nat := 8

  /** Where the producer thread is: between the sections of malloc, posting wakeups, or at the end of cancel. */
  datatype Producer = Idle | Claimed(id: nat) | Filled(id: nat) | Posting(left: nat) | Cancelling(id: nat)

  /** Where a consumer thread is: inside get_frame, or in the unlocked end of release_frame with an unlinked node. */
  datatype Consumer = Out | Searching | Waiting | Unlinked(node: Entry) | Freed(node: Entry)

  /** What the pool and the buffer allocator have handed out. */
  datatype Token = Node(id: nat) | Buffer(address: nat)

  /**
   `alive` is the set of nodes made by init and of buffers the allocator considers allocated. The last three fields
   are history: the buffers completed so far, and for each consumer the number of completions when it registered and
   the completions it has got since.
   */
  datatype State = State(
    format: Format,
    q: Queue,
    producer: Producer,
    consumers: seq<Consumer>,
    semaphore: nat,
    alive: set<Token>,
    completed: seq<nat>,
    since: seq<nat>,
    got: seq<seq<nat>>)

  datatype Action =
    | Register(c: nat)
    | Unregister(c: nat)
    | MallocClaim
    | MallocFill(supplied: Option<nat>)
    | MallocNote
    | Complete(buffer: nat)
    | Post
    | CancelSection(buffer: nat)
    | CancelFree
    | GetEnter(c: nat)
    | GetSearch(c: nat)
    | GetWake(c: nat)
    | GetGiveUp(c: nat)
    | ReleaseSection(c: nat, buffer: nat)
    | ReleaseFree(c: nat)
    | ReleaseReturn(c: nat)
    | ClearReady
    | ClearFree

  function Init(format: Format, ids: seq<nat>): State {
    State(format, Initial(ids), Idle, seq(MAX_CONSUMERS, _ => Out), 0, set id | id in ids :: Node(id), [],
          seq(MAX_CONSUMERS, _ => 0), seq(MAX_CONSUMERS, _ => []))
  }

  /** `c` holds the ready frame in `buffer`. */
  predicate Holds(s: State, c: nat, buffer: nat) {
    exists e | e in s.q.ready :: e.frame == Some(buffer) && c in e.holders
  }

  /**
   Which thread may do what: a thread follows its program, only a held frame is released, the allocator never hands
   out a live buffer, and clear_all runs while the producer is stopped.
   */
  predicate Enabled(s: State, a: Action) {
    match a
    case Register(c) => c < MAX_CONSUMERS
    case Unregister(c) => c < MAX_CONSUMERS
    case MallocClaim => s.producer == Idle
    case MallocFill(supplied) => s.producer.Claimed? && (supplied.Some? ==> Buffer(supplied.value) !in s.alive)
    case MallocNote => s.producer.Filled?
    case Complete(_) => s.producer == Idle
    case Post => s.producer.Posting?
    case CancelSection(_) => s.producer == Idle
    case CancelFree => s.producer.Cancelling?
    case GetEnter(c) => c < |s.consumers| && s.consumers[c] == Out
    case GetSearch(c) => c < |s.consumers| && s.consumers[c] == Searching
    case GetWake(c) => c < |s.consumers| && s.consumers[c] == Waiting && s.semaphore > 0
    case GetGiveUp(c) => c < |s.consumers| && s.consumers[c] == Waiting
    case ReleaseSection(c, buffer) => c < |s.consumers| && s.consumers[c] == Out && Holds(s, c, buffer)
    case ReleaseFree(c) => c < |s.consumers| && s.consumers[c].Unlinked?
    case ReleaseReturn(c) => c < |s.consumers| && s.consumers[c].Freed?
    case ClearReady => s.producer == Idle
    case ClearFree => s.producer == Idle
  }

  function Move(s: State, c: nat, to: Consumer): State
    requires c < |s.consumers|
  {
    s.(consumers := s.consumers[c := to])
  }

  function Dropped(alive: set<Token>, frame: Option<nat>): set<Token> {
    if frame == None then alive else alive - {Buffer(frame.value)}
  }

  function Next(s: State, a: Action): State
    requires Enabled(s, a) && |s.consumers| == |s.since| == |s.got| == MAX_CONSUMERS
  {
    match a
    case Register(c) =>
      var q := QueueModel.Register(s.q, c);
      if c in s.q.active then s.(q := q)
      else s.(q := q, since := s.since[c := |s.completed|], got := s.got[c := []])
    case Unregister(c) => s.(q := QueueModel.Unregister(s.q, c))
    case MallocClaim =>
      var (q, id) := Claim(s.q, s.format);
      s.(q := q, producer := if id == None then Idle else Claimed(id.value))
    case MallocFill(supplied) =>
      var i := Find(WithId(s.producer.id), s.q.free);
      var asked := i < |s.q.free| && s.q.free[i].frame == None;
      var (q, frame) := Fill(s.q, s.producer.id, supplied);
      s.(q := q,
         producer := if frame == None then Idle else Filled(s.producer.id),
         alive := if asked && supplied.Some? then s.alive + {Buffer(supplied.value)} else s.alive)
    case MallocNote => s.(q := NoteConsumers(s.q, s.producer.id), producer := Idle)
    case Complete(buffer) =>
      var (q, ok) := QueueModel.Complete(s.q, buffer, |s.completed|);
      if ok then s.(q := q, producer := Posting(Wakeups(s.q)), completed := s.completed + [buffer]) else s
    case Post =>
      var left := s.producer.left;
      s.(semaphore := if s.semaphore < SEMAPHORE_MAX then s.semaphore + 1 else s.semaphore,
         producer := if left <= 1 then Idle else Posting(left - 1))
    case CancelSection(buffer) =>
      var (q, id) := Disclaim(s.q, buffer);
      s.(q := q, producer := if id == None then Idle else Cancelling(id.value))
    case CancelFree =>
      var i := Find(WithId(s.producer.id), s.q.free);
      s.(q := DropBuffer(s.q, s.producer.id),
         producer := Idle,
         alive := if i == |s.q.free| then s.alive else Dropped(s.alive, s.q.free[i].frame))
    case GetEnter(c) => if c in s.q.active then Move(s, c, Searching) else s
    case GetSearch(c) =>
      var (q, e) := Get(s.q, c);
      if e == None then Move(s, c, Waiting)
      else Move(s, c, Out).(q := q, got := s.got[c := s.got[c] + [e.value.stamp]])
    case GetWake(c) => Move(s, c, Searching).(semaphore := s.semaphore - 1)
    case GetGiveUp(c) => Move(s, c, Out)
    case ReleaseSection(c, buffer) =>
      var (q, e) := Release(s.q, c, buffer);
      (if e == None then s else Move(s, c, Unlinked(e.value))).(q := q)
    case ReleaseFree(c) =>
      var e := s.consumers[c].node;
      Move(s, c, Freed(e.(frame := None))).(alive := Dropped(s.alive, e.frame))
    case ReleaseReturn(c) => Move(s, c, Out).(q := GiveBack(s.q, s.consumers[c].node))
    case ClearReady => s.(q := QueueModel.ClearReady(s.q))
    case ClearFree =>
      var freed := set b | b in QueueModel.Buffers(s.q.free) :: Buffer(b);
      s.(q := QueueModel.ClearFree(s.q), alive := s.alive - freed)
  }

  /** The states of a run: each action must be enabled when it is its turn. */
  predicate Runs(s: State, actions: seq<Action>, t: State)
    decreases |actions|
  {
    if actions == [] then s == t
    else
      && |s.consumers| == |s.since| == |s.got| == MAX_CONSUMERS
      && Enabled(s, actions[0])
      && Runs(Next(s, actions[0]), actions[1..], t)
  }
}
