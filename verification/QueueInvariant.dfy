/** What every step of the frame queue keeps: conservation of nodes and buffers, reference counts and masks. */
module QueueInvariant {
  import opened Common
  import opened QueueModel
  import opened QueueProtocol

  // ---------- Conservation ----------

  /** How often a node owns a token: itself and its buffer. */
  ghost function Owns(e: Entry, t: Token): nat {
    if t == Node(e.id) || (t.Buffer? && e.frame == Some(t.address)) then 1 else 0
  }

  ghost function Count(es: seq<Entry>, t: Token): nat {
    if es == [] then 0 else Owns(es[0], t) + Count(es[1..], t)
  }

  /** What a consumer thread carries at the end of release_frame. */
  ghost function Carries(w: Consumer, t: Token): nat {
    if w.Unlinked? || w.Freed? then Owns(w.node, t) else 0
  }

  ghost function CountCarried(ws: seq<Consumer>, t: Token): nat {
    if ws == [] then 0 else Carries(ws[0], t) + CountCarried(ws[1..], t)
  }

  /** In how many places a node or a buffer is: on the lists and in the hands of the consumer threads. */
  ghost function Places(s: State, t: Token): nat {
    Count(s.q.free, t) + Count(s.q.ready, t) + CountCarried(s.consumers, t)
  }

  /** Every node of the pool and every live buffer is in exactly one place, and nothing else is anywhere. */
  ghost predicate Conserved(s: State) {
    forall t :: Places(s, t) == if t in s.alive then 1 else 0
  }

  lemma {:induction false} CountAppend(a: seq<Entry>, b: seq<Entry>, t: Token)
    ensures Count(a + b, t) == Count(a, t) + Count(b, t)
  {
    if a == [] {
      assert a + b == b;
    } else {
      assert (a + b)[0] == a[0] && (a + b)[1..] == a[1..] + b;
      CountAppend(a[1..], b, t);
    }
  }

  lemma CountLast(a: seq<Entry>, e: Entry, t: Token)
    ensures Count(a + [e], t) == Count(a, t) + Owns(e, t)
  {
    CountAppend(a, [e], t);
  }

  /** Taking one node out of a list takes out what it owns. */
  lemma CountWithout(es: seq<Entry>, k: nat, t: Token)
    requires k < |es|
    ensures Count(es, t) == Count(Without(es, k), t) + Owns(es[k], t)
  {
    assert es == es[..k] + ([es[k]] + es[k + 1..]);
    CountAppend(es[..k], [es[k]] + es[k + 1..], t);
    CountAppend(es[..k], es[k + 1..], t);
  }

  lemma CountUpdate(es: seq<Entry>, k: nat, e: Entry, t: Token)
    requires k < |es|
    ensures Count(es[k := e], t) == Count(es, t) - Owns(es[k], t) + Owns(e, t)
  {
    CountWithout(es, k, t);
    CountWithout(es[k := e], k, t);
    assert Without(es[k := e], k) == Without(es, k);
  }

  lemma {:induction false} CarriedUpdate(ws: seq<Consumer>, c: nat, w: Consumer, t: Token)
    requires c < |ws|
    ensures CountCarried(ws[c := w], t) == CountCarried(ws, t) - Carries(ws[c], t) + Carries(w, t)
  {
    if c == 0 {
      assert ws[c := w][1..] == ws[1..];
    } else {
      assert ws[c := w][1..] == ws[1..][c - 1 := w];
      CarriedUpdate(ws[1..], c - 1, w, t);
    }
  }

  lemma OwnsTouched(s: Sweep, e: Entry, t: Token)
    ensures Owns(Touched(s, e), t) == Owns(Touched(s, e).Reset(), t) == Owns(e, t)
  {
  }

  lemma {:induction false} CountSwept(s: Sweep, es: seq<Entry>, t: Token)
    ensures Count(Kept(s, es), t) + Count(Moved(s, es), t) == Count(es, t)
  {
    if es != [] {
      var init, last := es[..|es| - 1], es[|es| - 1];
      hide Owns, Touched, Recycled;
      CountSwept(s, init, t);
      OwnsTouched(s, last, t);
      assert es == init + [last];
      CountLast(init, last, t);
      if Recycled(s, last) {
        assert Kept(s, es) == Kept(s, init);
        CountLast(Moved(s, init), Touched(s, last).Reset(), t);
      } else {
        assert Moved(s, es) == Moved(s, init);
        CountLast(Kept(s, init), Touched(s, last), t);
      }
    }
  }

  lemma {:induction false} CountStripped(es: seq<Entry>, t: Token)
    ensures t.Node? ==> Count(Stripped(es), t) == Count(es, t)
    ensures t.Buffer? ==> Count(Stripped(es), t) == 0 && (t.address in Buffers(es) <==> Count(es, t) > 0)
  {
    if es != [] {
      CountStripped(es[1..], t);
      assert Stripped(es)[1..] == Stripped(es[1..]);
    }
  }

  lemma {:induction false} CountIn(es: seq<Entry>, i: nat, t: Token)
    requires i < |es|
    ensures Count(es, t) >= Owns(es[i], t)
  {
    if i > 0 {
      CountIn(es[1..], i - 1, t);
    }
  }

  /** Two positions of a list that own the same token count twice. */
  lemma {:induction false} CountTwice(es: seq<Entry>, i: nat, j: nat, t: Token)
    requires i < j < |es|
    ensures Count(es, t) >= Owns(es[i], t) + Owns(es[j], t)
  {
    if i == 0 {
      CountIn(es[1..], j - 1, t);
    } else {
      CountTwice(es[1..], i - 1, j - 1, t);
    }
  }

  // ---------- The other parts of the invariant ----------

  ghost predicate Consumers(cs: set<nat>) {
    forall c :: c in cs ==> c < MAX_CONSUMERS
  }

  /** A node on the free list, or carried by a thread, is held by nobody. */
  ghost predicate Unheld(e: Entry) {
    e.refs == 0 && e.holders == {}
  }

  /**
   A ready node counts its holders, who have all accessed it, and it is held, still awaited by an active consumer, or
   was completed when no consumer was active and none is active yet. Its buffer is the one of its completion.
   */
  ghost predicate ReadyOk(e: Entry, active: set<nat>, completed: seq<nat>) {
    && !e.inUse && e.refs == |e.holders|
    && e.holders <= e.accessed <= e.mask && Consumers(e.mask) && e.Awaited() <= active
    && (e.holders != {} || e.Awaited() != {} || e.mask == {})
    && (e.mask == {} ==> active == {})
    && e.stamp < |completed| && e.frame == Some(completed[e.stamp])
  }

  ghost predicate Sorted(es: seq<Entry>) {
    forall i, j :: 0 <= i < j < |es| ==> es[i].stamp < es[j].stamp
  }

  ghost predicate ListsOk(q: Queue, completed: seq<nat>) {
    && Consumers(q.active)
    && (forall i :: 0 <= i < |q.free| ==> Unheld(q.free[i]))
    && (forall i :: 0 <= i < |q.ready| ==> ReadyOk(q.ready[i], q.active, completed))
    && Sorted(q.ready)
  }

  ghost predicate ThreadsOk(s: State) {
    && |s.consumers| == MAX_CONSUMERS
    && (forall c :: 0 <= c < MAX_CONSUMERS ==>
      (s.consumers[c].Unlinked? ==> Unheld(s.consumers[c].node))
      && (s.consumers[c].Freed? ==> Unheld(s.consumers[c].node) && s.consumers[c].node.frame == None))
    && s.semaphore <= SEMAPHORE_MAX
    && (s.producer.Posting? ==> s.producer.left > 0)
    && (s.producer.Claimed? || s.producer.Filled? || s.producer.Cancelling? ==>
      Find(WithId(s.producer.id), s.q.free) < |s.q.free|)
  }

  /** Delivered completions are strictly increasing, and everything still to deliver is newer. */
  ghost predicate LogOk(s: State, c: nat)
    requires c < |s.since| && c < |s.got|
  {
    && s.since[c] <= |s.completed|
    && (forall i :: 0 <= i < |s.got[c]| ==> s.since[c] <= s.got[c][i] < |s.completed|)
    && (forall i, j :: 0 <= i < j < |s.got[c]| ==> s.got[c][i] < s.got[c][j])
    && (forall i :: 0 <= i < |s.q.ready| && c in s.q.ready[i].Awaited() ==> Newer(s, c, s.q.ready[i].stamp))
  }

  ghost predicate Newer(s: State, c: nat, stamp: nat)
    requires c < |s.since| && c < |s.got|
  {
    s.since[c] <= stamp && forall i :: 0 <= i < |s.got[c]| ==> s.got[c][i] < stamp
  }

  ghost predicate LogsOk(s: State) {
    && |s.since| == |s.got| == MAX_CONSUMERS
    && forall c :: c in s.q.active && c < MAX_CONSUMERS ==> LogOk(s, c)
  }

  ghost predicate Inv(s: State) {
    Conserved(s) && ListsOk(s.q, s.completed) && ThreadsOk(s) && LogsOk(s)
  }
}
