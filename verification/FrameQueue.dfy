/** The frame queue on the heap: each method is one critical section (or the unlocked work between two of them). */
module FrameQueue {
  import opened Common
  import opened Masks
  import opened QueueModel
  import opened FrameList

  class FrameQueue {
    const format: Format
    const free: FrameList
    const ready: FrameList
    var enabled: seq<bool>
    var active: bv32
    ghost var pool: set<FrameNode>

    /** Two disjoint well-formed lists over the pool. */
    ghost predicate Linked()
      reads this`pool, free, ready, pool
    {
      && free != ready && free.members !! ready.members && free.members + ready.members <= pool
      && free.Valid() && ready.Valid()
    }

    /** Mask bits belong to the eight consumers, and different nodes have different addresses. */
    ghost predicate Sane()
      reads this`pool, this`active, this`enabled, pool`consumerMask, pool`accessedMask
    {
      && (forall n :: n in pool ==> n.MasksSmall())
      && (forall m, n :: m in pool && n in pool && m.address == n.address ==> m == n)
      && Small(active)
      && |enabled| == MAX_CONSUMERS
      && (forall i :: 0 <= i < MAX_CONSUMERS ==> enabled[i] == HasBit(active, i))
    }

    ghost predicate Valid()
      reads this, free, ready, pool
    {
      Linked() && Sane()
    }

    ghost function Value(): Queue
      requires Valid()
      reads this, free, ready, pool, free.nodes, ready.nodes
    {
      Queue(Values(free.nodes), Values(ready.nodes), Members(active))
    }

    /** Init: the nodes that could be allocated, at the given distinct addresses, are free and without buffers. */
    constructor (format: Format, addresses: seq<nat>)
      requires forall i, j :: 0 <= i < j < |addresses| ==> addresses[i] != addresses[j]
      ensures Valid() && this.format == format && Value() == Initial(addresses)
      ensures fresh(free) && fresh(ready) && fresh(pool)
    {
      this.format := format;
      free := new FrameList();
      ready := new FrameList();
      enabled := seq(MAX_CONSUMERS, _ => false);
      active := 0;
      pool := {};
      new;
      NoBits();
      hide HasBit, Members, FrameNode.Value, FrameNode.MasksSmall, Distinct, At;
      AddNodes(addresses);
    }

    /** The loop of init. */
    method AddNodes(addresses: seq<nat>)
      requires Valid() && pool == {} && Value() == Initial([])
      requires forall i, j :: 0 <= i < j < |addresses| ==> addresses[i] != addresses[j]
      modifies this`pool, free
      ensures Valid() && fresh(pool) && Value() == Initial(addresses)
    {
      hide HasBit, Members, FrameNode.Value, FrameNode.MasksSmall, Linked, Sane, Distinct, At;
      for k := 0 to |addresses|
        invariant Valid() && fresh(pool) && Value() == Initial(addresses[..k])
        invariant forall n :: n in pool ==> n.address in addresses[..k]
      {
        InitialStep(addresses, k);
        AddNode(addresses[k]);
      }
      assert addresses[..|addresses|] == addresses;
    }

    method AddNode(address: nat)
      requires Valid() && forall n :: n in pool ==> n.address != address
      modifies this`pool, free, pool
      ensures Valid() && fresh(pool - old(pool))
      ensures forall n :: n in pool ==> n in old(pool) || n.address == address
      ensures Value() == old(Value()).(free := old(Value()).free + [Entry(address, None, 0, {}, {}, false, 0, {})])
    {
      hide Linked, Sane, Members, Distinct, At, FrameNode.MasksSmall;
      var node := new FrameNode(address);
      Adopt(node);
    }

    /** A new node enters the pool and the free list. */
    method Adopt(node: FrameNode)
      requires Valid() && node !in pool && node.MasksSmall()
      requires forall n :: n in pool ==> n.address != node.address
      modifies this`pool, free, pool, node
      ensures Valid() && pool == old(pool) + {node}
      ensures Value() == old(Value()).(free := old(Value()).free + [old(node.Value())])
    {
      hide Linked, Sane, Members, Distinct, At, FrameNode.Value, FrameNode.MasksSmall, FrameList.Valid;
      EnterPool(node);
      Append(free, ready, node);
    }

    ghost method EnterPool(node: FrameNode)
      requires Valid() && node !in pool && node.MasksSmall()
      requires forall n :: n in pool ==> n.address != node.address
      modifies this`pool
      ensures Valid() && pool == old(pool) + {node} && node !in ready.members && node !in free.members
      ensures Value() == old(Value())
    {
      hide Members, Distinct, At, FrameNode.Value, FrameNode.MasksSmall, FrameList.Valid;
      pool := pool + {node};
    }

    /** `list` is one of the two lists and `other` is the other one. */
    ghost predicate Both(list: FrameList, other: FrameList) {
      (list == free && other == ready) || (list == ready && other == free)
    }

    /** Take a node off its list: it is on neither list until it is appended again. */
    method Unlink(list: FrameList, ghost other: FrameList, node: FrameNode, ghost k: nat)
      requires Valid() && Both(list, other) && k < |list.nodes| && list.nodes[k] == node
      modifies list, pool`next, pool`prev
      ensures Valid() && node in pool && node !in ready.members && node !in free.members
      ensures list.nodes == old(list.nodes[..k] + list.nodes[k + 1..])
      ensures Values(list.nodes) == Without(old(Values(list.nodes)), k)
      ensures Values(other.nodes) == old(Values(other.nodes)) && node.Value() == old(node.Value())
    {
      hide Sane, Members, FrameNode.Value, Distinct, At, FrameList.Valid;
      MemberAt(list, other, k);
      list.Remove(node, k);
      other.StaysValid();
      list.ValuesWithout(k);
      assert forall i :: 0 <= i < |other.nodes| ==> other.nodes[i].Value() == old(other.nodes[i].Value());
    }

    lemma MemberAt(list: FrameList, other: FrameList, k: nat)
      requires Valid() && Both(list, other) && k < |list.nodes|
      ensures list.nodes[k] in list.members && list.nodes[k] in pool && list.nodes[k] !in other.members
    {
    }

    /** Append a node of the pool that is on neither list. */
    method Append(list: FrameList, ghost other: FrameList, node: FrameNode)
      requires Valid() && Both(list, other) && node in pool && node !in ready.members && node !in free.members
      modifies list, pool`next, pool`prev
      ensures Valid() && list.nodes == old(list.nodes) + [node]
      ensures Values(list.nodes) == old(Values(list.nodes)) + [node.Value()]
      ensures Values(other.nodes) == old(Values(other.nodes))
    {
      hide Sane, Members, FrameNode.Value, Distinct, At;
      list.AddTail(node);
      other.StaysValid();
    }

    /** Put a node of the pool that is on neither list at the head of the free list. */
    method Prepend(node: FrameNode)
      requires Valid() && node in pool && node !in ready.members && node !in free.members
      modifies free, pool`next, pool`prev
      ensures Valid() && free.nodes == [node] + old(free.nodes)
      ensures Values(free.nodes) == [node.Value()] + old(Values(free.nodes))
      ensures Values(ready.nodes) == old(Values(ready.nodes))
    {
      hide Sane, Members, FrameNode.Value, Distinct, At;
      free.AddHead(node);
      ready.StaysValid();
    }

    /** Changing a linked node changes one value of one list. */
    twostate lemma InReady(k: nat)
      requires Linked() && pool == old(pool) && k < |ready.nodes|
      requires free.nodes == old(free.nodes) && ready.nodes == old(ready.nodes)
      requires forall n :: n in pool && n != ready.nodes[k] ==> n.Value() == old(n.Value())
      ensures Values(ready.nodes) == old(Values(ready.nodes))[k := ready.nodes[k].Value()]
      ensures Values(free.nodes) == old(Values(free.nodes))
    {
      assert ready.nodes[k] in ready.members;
    }

    twostate lemma InFree(k: nat)
      requires Linked() && pool == old(pool) && k < |free.nodes|
      requires free.nodes == old(free.nodes) && ready.nodes == old(ready.nodes)
      requires forall n :: n in pool && n != free.nodes[k] ==> n.Value() == old(n.Value())
      ensures Values(free.nodes) == old(Values(free.nodes))[k := free.nodes[k].Value()]
      ensures Values(ready.nodes) == old(Values(ready.nodes))
    {
      assert free.nodes[k] in free.members;
    }

    /** Unlink a ready node, reset it and append it to the free list. */
    method Recycle(node: FrameNode, ghost k: nat)
      requires Valid() && k < |ready.nodes| && ready.nodes[k] == node
      modifies free, ready, pool
      ensures Valid()
      ensures ready.nodes == old(ready.nodes[..k] + ready.nodes[k + 1..])
      ensures Values(ready.nodes) == Without(old(Values(ready.nodes)), k)
      ensures Values(free.nodes) == old(Values(free.nodes)) + [old(Values(ready.nodes))[k].Reset()]
    {
      hide Sane, Members, FrameNode.Value, Distinct, At;
      Unlink(ready, free, node, k);
      ResetUnlinked(node);
      Append(free, ready, node);
    }

    method ResetUnlinked(node: FrameNode)
      requires Valid() && node in pool && node !in ready.members && node !in free.members
      modifies node`refCount, node`consumerMask, node`accessedMask, node`inUse, node`holders
      ensures Valid() && node.Value() == old(node.Value()).Reset()
      ensures Values(free.nodes) == old(Values(free.nodes)) && Values(ready.nodes) == old(Values(ready.nodes))
    {
      node.Reset();
      OtherValues(node);
    }

    /** Changing a node does not change the values of a list it is not on. */
    twostate lemma OtherValues(node: FrameNode)
      requires Linked() && pool == old(pool) && free.nodes == old(free.nodes) && ready.nodes == old(ready.nodes)
      requires node !in free.members && node !in ready.members
      requires forall n :: n in pool && n != node ==> n.Value() == old(n.Value())
      ensures Values(free.nodes) == old(Values(free.nodes)) && Values(ready.nodes) == old(Values(ready.nodes))
    {
    }

    /**
     Progress of a sweep whose loop has looked at the first `i` of the ready nodes, which had the values `es`; the
     free nodes had the values `fs`.
     */
    ghost predicate Sweeping(s: Sweep, es: seq<Entry>, fs: seq<Entry>, i: nat)
      reads this, free, ready, pool
    {
      && Valid() && i <= |es|
      && Values(ready.nodes) == Kept(s, es[..i]) + es[i..]
      && Values(free.nodes) == fs + Moved(s, es[..i])
    }

    /** The same, after the loop body has touched node `i` and before it has decided where the node goes. */
    ghost predicate Deciding(s: Sweep, es: seq<Entry>, fs: seq<Entry>, i: nat)
      reads this, free, ready, pool
    {
      && Valid() && i < |es|
      && Values(ready.nodes) == Kept(s, es[..i]) + [Touched(s, es[i])] + es[i + 1..]
      && Values(free.nodes) == fs + Moved(s, es[..i])
    }

    method RecycleStep(node: FrameNode, ghost s: Sweep, ghost es: seq<Entry>, ghost fs: seq<Entry>, ghost i: nat)
      requires Deciding(s, es, fs, i) && Recycled(s, es[i])
      requires node == ready.nodes[|Kept(s, es[..i])|]
      modifies free, ready, pool
      ensures Sweeping(s, es, fs, i + 1) && Kept(s, es[..i + 1]) == Kept(s, es[..i])
      ensures var k := |Kept(s, es[..i])|; At(ready.nodes, k) == old(At(ready.nodes, k + 1))
    {
      hide Linked, Sane, Members, FrameNode.Value, Distinct;
      SweepMoves(s, es, i);
      Recycle(node, |Kept(s, es[..i])|);
    }

    lemma KeepStep(s: Sweep, es: seq<Entry>, fs: seq<Entry>, i: nat)
      requires Deciding(s, es, fs, i) && !Recycled(s, es[i])
      ensures Sweeping(s, es, fs, i + 1) && |Kept(s, es[..i + 1])| == |Kept(s, es[..i])| + 1
    {
      hide Linked, Sane, Members;
      SweepKeeps(s, es, i);
    }

    lemma StartSweep(s: Sweep)
      requires Valid()
      ensures Sweeping(s, Values(ready.nodes), Values(free.nodes), 0)
      ensures Kept(s, Values(ready.nodes)[..0]) == []
    {
    }

    /** The node a sweep is at: its value and its successor, or the end of the list. */
    lemma Visit(s: Sweep, es: seq<Entry>, fs: seq<Entry>, i: nat)
      requires Sweeping(s, es, fs, i)
      ensures var k := |Kept(s, es[..i])|;
        && Valid() && i <= |es|
        && |ready.nodes| == k + |es| - i && ready.head == At(ready.nodes, 0)
        && (i == |es| ==> Values(ready.nodes) == Kept(s, es) && Values(free.nodes) == fs + Moved(s, es))
        && (i < |es| ==>
          && (Touched(s, es[i]) == es[i] ==> Deciding(s, es, fs, i))
          && ready.nodes[k].Value() == es[i] && ready.nodes[k].MasksSmall()
          && ready.nodes[k] in ready.members && ready.nodes[k] in pool
          && ready.nodes[k].next == At(ready.nodes, k + 1)
          && Values(ready.nodes) == Kept(s, es[..i]) + [es[i]] + es[i + 1..])
    {
      var k := |Kept(s, es[..i])|;
      assert es[..|es|] == es;
      if i < |es| {
        assert Values(ready.nodes)[k] == es[i];
        assert ready.nodes[k] in ready.members;
      }
    }

    /** The loop of register_consumer. */
    method SweepUnaddressed()
      requires Valid()
      modifies free, ready, pool
      ensures Valid() && Value() == Swept(OnRegister, old(Value()))
    {
      hide Linked, Sane, Members, Sweeping, Kept, Moved, Distinct, FrameNode.Value;
      ghost var es, fs, i, k := Values(ready.nodes), Values(free.nodes), 0, 0;
      StartSweep(OnRegister);
      Visit(OnRegister, es, fs, i);
      var node := ready.head;
      while node != null
        invariant i <= |es| && Sweeping(OnRegister, es, fs, i)
        invariant k == |Kept(OnRegister, es[..i])| && node == At(ready.nodes, k)
        decreases |es| - i
      {
        Visit(OnRegister, es, fs, i);
        node, k := Inspect(node, es, fs, i, k);
        i := i + 1;
      }
      Visit(OnRegister, es, fs, i);
    }

    /** Its body: recycle the node if nobody was asked to access it and nobody holds it; go to the next one. */
    method Inspect(node: FrameNode, ghost es: seq<Entry>, ghost fs: seq<Entry>, ghost i: nat, ghost k: nat)
      returns (next: FrameNode?, ghost k': nat)
      requires Sweeping(OnRegister, es, fs, i) && i < |es|
      requires k == |Kept(OnRegister, es[..i])| && node == At(ready.nodes, k)
      modifies free, ready, pool
      ensures Sweeping(OnRegister, es, fs, i + 1)
      ensures k' == |Kept(OnRegister, es[..i + 1])| && next == At(ready.nodes, k')
    {
      hide Linked, Sane, Members, Sweeping, Deciding, Kept, Moved, Distinct;
      hide FrameNode.Value, FrameNode.Unheld, FrameNode.NobodyAddressed, FrameNode.MasksSmall;
      Visit(OnRegister, es, fs, i);
      next, k' := node.next, k;
      if node.NobodyAddressed() && node.Unheld() {
        RecycleStep(node, OnRegister, es, fs, i);
      } else {
        KeepStep(OnRegister, es, fs, i);
        k' := k + 1;
      }
    }

    method Activate(id: bv32, c: nat)
      requires Valid() && c < MAX_CONSUMERS && id == Bit(c)
      modifies this`active, this`enabled
      ensures Valid() && Value() == old(Value()).(active := old(Value()).active + {c})
    {
      hide Bit, HasBit, Members, Added, Linked, FrameNode.Value;
      SetBit(active, c, Added(active, id));
      enabled := enabled[c := true];
      active := Added(active, id);
    }

    method Deactivate(id: bv32, c: nat)
      requires Valid() && c < MAX_CONSUMERS && id == Bit(c)
      modifies this`active, this`enabled
      ensures Valid() && Value() == old(Value()).(active := old(Value()).active - {c})
    {
      hide Bit, HasBit, Members, Removed, Linked, FrameNode.Value;
      ClearBit(active, c, Removed(active, id));
      active := Removed(active, id);
      enabled := enabled[c := false];
    }

    /** Register a consumer: activate it and recycle the ready nodes that no consumer was ever asked to access. */
    method Register(id: bv32) returns (ok: bool)
      requires Valid() && IsConsumerId(id)
      modifies this`active, this`enabled, free, ready, pool
      ensures Valid() && ok == (id & 0xFF != 0)
      ensures forall c :: 0 <= c < MAX_CONSUMERS && id == Bit(c) ==> Value() == QueueModel.Register(old(Value()), c)
      ensures !ok ==> Value() == old(Value())
    {
      hide Bit, HasBit, Members, Linked, Sane, Swept;
      var c := ConsumerIndex(id);
      if c < 0 {
        NoBit(id);
        return false;
      }
      OnlyBit(id, c);
      Activate(id, c);
      SweepUnaddressed();
      return true;
    }

    ghost predicate Awaits(e: Entry, c: nat) {
      c in e.mask && c !in e.accessed
    }

    /** The body of the loop of unregister_consumer before it decides: drop the consumer from one node. */
    method Withdraw(
      node: FrameNode, id: bv32, ghost c: nat, ghost es: seq<Entry>, ghost fs: seq<Entry>, ghost i: nat, ghost k: nat)
      requires c < MAX_CONSUMERS && id == Bit(c)
      requires Sweeping(OnUnregister(c), es, fs, i) && i < |es|
      requires k == |Kept(OnUnregister(c), es[..i])| && node == At(ready.nodes, k)
      requires Awaits(es[i], c)
      modifies node`consumerMask
      ensures node.MasksSmall()
      ensures Deciding(OnUnregister(c), es, fs, i) && node.Value() == Touched(OnUnregister(c), es[i])
    {
      hide Bit, HasBit, Members, FrameNode.Value, Kept, Moved;
      Visit(OnUnregister(c), es, fs, i);
      WithdrawReady(node, id, c, k);
    }

    method WithdrawReady(node: FrameNode, id: bv32, ghost c: nat, ghost k: nat)
      requires Valid() && c < MAX_CONSUMERS && id == Bit(c) && k < |ready.nodes| && ready.nodes[k] == node
      modifies node`consumerMask
      ensures Valid() && node.MasksSmall() && Values(free.nodes) == old(Values(free.nodes))
      ensures var es := old(Values(ready.nodes));
        Values(ready.nodes) == es[k := es[k].(mask := es[k].mask - {c})] && node.Value() == Values(ready.nodes)[k]
    {
      hide Members, Bit, HasBit, Distinct;
      assert node in ready.members;
      node.DropConsumer(id, c);
      InReady(k);
    }

    /** The loop of unregister_consumer. */
    method SweepWithdrawn(id: bv32, ghost c: nat)
      requires Valid() && c < MAX_CONSUMERS && id == Bit(c)
      modifies free, ready, pool
      ensures Valid() && Value() == Swept(OnUnregister(c), old(Value()))
    {
      hide Linked, Sane, Members, Bit, HasBit, Sweeping, Kept, Moved, Distinct, FrameNode.Value;
      ghost var s := OnUnregister(c);
      ghost var es, fs, i, k := Values(ready.nodes), Values(free.nodes), 0, 0;
      StartSweep(s);
      Visit(s, es, fs, i);
      var node := ready.head;
      while node != null
        invariant i <= |es| && Sweeping(s, es, fs, i)
        invariant k == |Kept(s, es[..i])| && node == At(ready.nodes, k)
        decreases |es| - i
      {
        Visit(s, es, fs, i);
        node, k := WithdrawAndInspect(node, id, c, es, fs, i, k);
        i := i + 1;
      }
      Visit(s, es, fs, i);
    }

    /** Its body: stop waiting for the consumer, then recycle the node if that leaves nobody to wait for. */
    method WithdrawAndInspect(
      node: FrameNode, id: bv32, ghost c: nat, ghost es: seq<Entry>, ghost fs: seq<Entry>, ghost i: nat, ghost k: nat)
      returns (next: FrameNode?, ghost k': nat)
      requires c < MAX_CONSUMERS && id == Bit(c)
      requires Sweeping(OnUnregister(c), es, fs, i) && i < |es|
      requires k == |Kept(OnUnregister(c), es[..i])| && node == At(ready.nodes, k)
      modifies free, ready, pool
      ensures Sweeping(OnUnregister(c), es, fs, i + 1)
      ensures k' == |Kept(OnUnregister(c), es[..i + 1])| && next == At(ready.nodes, k')
    {
      hide Linked, Sane, Members, Bit, HasBit, Sweeping, Deciding, Kept, Moved, Distinct;
      hide FrameNode.Value, FrameNode.Unheld, FrameNode.NobodyAddressed, FrameNode.WaitsFor, FrameNode.AllAccessed;
      hide FrameNode.MasksSmall;
      ghost var s := OnUnregister(c);
      Visit(s, es, fs, i);
      next, k' := node.next, k;
      if node.WaitsFor(id, c) {
        Withdraw(node, id, c, es, fs, i, k);
        if node.Unheld() && (node.NobodyAddressed() || node.AllAccessed()) {
          RecycleStep(node, s, es, fs, i);
        } else {
          KeepStep(s, es, fs, i);
          k' := k + 1;
        }
      } else {
        KeepStep(s, es, fs, i);
        k' := k + 1;
      }
    }

    /** Unregister a consumer: no new frames, and no waiting for it on the frames it has not accessed. */
    method Unregister(id: bv32) returns (ok: bool)
      requires Valid() && IsConsumerId(id)
      modifies this`active, this`enabled, free, ready, pool
      ensures Valid() && ok == (id & 0xFF != 0)
      ensures forall c :: 0 <= c < MAX_CONSUMERS && id == Bit(c) ==> Value() == QueueModel.Unregister(old(Value()), c)
      ensures !ok ==> Value() == old(Value())
    {
      hide Bit, HasBit, Members, Linked, Sane, Swept;
      var c := ConsumerIndex(id);
      if c < 0 {
        NoBit(id);
        return false;
      }
      OnlyBit(id, c);
      Deactivate(id, c);
      SweepWithdrawn(id, c);
      return true;
    }

    /** First section of clear_all. */
    method ClearReady()
      requires Valid()
      modifies free, ready, pool
      ensures Valid() && Value() == QueueModel.ClearReady(old(Value()))
    {
      hide Linked, Sane, Members, Sweeping, Kept, Moved, Distinct, FrameNode.Value;
      ghost var es, fs, i, k := Values(ready.nodes), Values(free.nodes), 0, 0;
      StartSweep(OnClear);
      Visit(OnClear, es, fs, i);
      var node := ready.head;
      while node != null
        invariant i <= |es| && Sweeping(OnClear, es, fs, i)
        invariant k == |Kept(OnClear, es[..i])| && node == At(ready.nodes, k)
        decreases |es| - i
      {
        Visit(OnClear, es, fs, i);
        node, k := RecycleUnheld(node, es, fs, i, k);
        i := i + 1;
      }
      Visit(OnClear, es, fs, i);
    }

    /** Its loop body. */
    method RecycleUnheld(node: FrameNode, ghost es: seq<Entry>, ghost fs: seq<Entry>, ghost i: nat, ghost k: nat)
      returns (next: FrameNode?, ghost k': nat)
      requires Sweeping(OnClear, es, fs, i) && i < |es| && k == |Kept(OnClear, es[..i])| && node == At(ready.nodes, k)
      modifies free, ready, pool
      ensures Sweeping(OnClear, es, fs, i + 1)
      ensures k' == |Kept(OnClear, es[..i + 1])| && next == At(ready.nodes, k')
    {
      hide Linked, Sane, Members, Sweeping, Deciding, Kept, Moved, Distinct, FrameNode.Value, FrameNode.Unheld;
      Visit(OnClear, es, fs, i);
      next, k' := node.next, k;
      if node.Unheld() {
        RecycleStep(node, OnClear, es, fs, i);
      } else {
        KeepStep(OnClear, es, fs, i);
        k' := k + 1;
      }
    }

    /** First section of malloc. */
    method ClaimNode() returns (node: FrameNode?)
      requires Valid()
      modifies free, ready, pool
      ensures Valid() && Value() == Claim(old(Value()), format).0
      ensures Claim(old(Value()), format).1 == if node == null then None else Some(node.address)
      ensures node != null ==> node in free.members && node.inUse
    {
      hide Linked, Sane, Members, Distinct, FrameNode.Value, FrameList.Valid, Matches, Find;
      ghost var k;
      SomeFacts();
      node, k := free.Search(AnySlot);
      if node != null {
        OccupyFree(node, true, k);
        return;
      }
      if format != H264 {
        node, k := ready.Search(AnyUnheld);
        if node != null {
          TakeOldest(node, k);
        }
      }
    }

    lemma SomeFacts()
      requires Valid()
      ensures free.Valid() && ready.Valid() && free.members + ready.members <= pool && Small(active)
    {
    }

    /** Set or clear the producer's claim on a free node. */
    method OccupyFree(node: FrameNode, flag: bool, ghost k: nat)
      requires Valid() && k < |free.nodes| && free.nodes[k] == node
      modifies node`inUse
      ensures Valid() && node in free.members && node.inUse == flag
      ensures Values(free.nodes) == old(Values(free.nodes))[k := old(Values(free.nodes))[k].(inUse := flag)]
      ensures Values(ready.nodes) == old(Values(ready.nodes))
    {
      hide Sane, Members, Distinct;
      node.Occupy(flag);
      InFree(k);
    }

    /** Frame dropping: an unheld ready node moves, claimed, to the head of the free list. */
    method TakeOldest(node: FrameNode, ghost k: nat)
      requires Valid() && k < |ready.nodes| && ready.nodes[k] == node
      modifies free, ready, pool
      ensures Valid() && node in free.members && node.inUse
      ensures Values(ready.nodes) == Without(old(Values(ready.nodes)), k)
      ensures Values(free.nodes) == [old(Values(ready.nodes))[k].(inUse := true)] + old(Values(free.nodes))
    {
      hide Sane, Members, Distinct, At;
      Unlink(ready, free, node, k);
      OccupyUnlinked(node);
      Prepend(node);
      assert free.nodes[0] == node;
    }

    method OccupyUnlinked(node: FrameNode)
      requires Valid() && node in pool && node !in ready.members && node !in free.members
      modifies node`inUse
      ensures Valid() && node.Value() == old(node.Value()).(inUse := true)
      ensures Values(free.nodes) == old(Values(free.nodes)) && Values(ready.nodes) == old(Values(ready.nodes))
    {
      node.Occupy(true);
      OtherValues(node);
    }

    /** A thread that points to a free node sees the entry with the node's address. */
    lemma Pointed(node: FrameNode, k: nat)
      requires Valid() && k < |free.nodes| && free.nodes[k] == node
      ensures Find(WithId(node.address), Values(free.nodes)) == k && node in pool
      ensures node.MasksSmall() && Small(active)
    {
      assert node in free.members;
      forall j | 0 <= j < k ensures free.nodes[j].address != node.address {
        assert free.nodes[j] in free.members;
      }
      var j := Find(WithId(node.address), Values(free.nodes));
      assert Matches(WithId(node.address), Values(free.nodes)[k]);
    }

    /** Malloc between its sections; `supplied` is what the buffer allocator returns when it is asked. */
    method FillNode(node: FrameNode, supplied: Option<nat>, ghost k: nat) returns (frame: Option<nat>)
      requires Valid() && k < |free.nodes| && free.nodes[k] == node
      modifies node`frame, node`refCount, node`accessedMask, node`inUse
      ensures Valid() && Value() == Fill(old(Value()), node.address, supplied).0
      ensures frame == Fill(old(Value()), node.address, supplied).1
      ensures frame == (if old(node.frame).Some? then old(node.frame) else supplied) && node.frame == frame
      ensures node.inUse <==> frame.Some? && old(node.inUse)
    {
      hide Linked, Sane, Members, Distinct;
      Pointed(node, k);
      frame := if node.frame == None then supplied else node.frame;
      if frame == None {
        OccupyFree(node, false, k);
      } else {
        PrepareFree(node, frame, k);
      }
    }

    method PrepareFree(node: FrameNode, frame: Option<nat>, ghost k: nat)
      requires Valid() && k < |free.nodes| && free.nodes[k] == node
      modifies node`frame, node`refCount, node`accessedMask
      ensures Valid()
      ensures var es := old(Values(free.nodes));
        Values(free.nodes) == es[k := es[k].(frame := frame, refs := 0, accessed := {})]
      ensures Values(ready.nodes) == old(Values(ready.nodes))
    {
      hide Members, Distinct;
      assert node in free.members;
      node.Prepare(frame);
      InFree(k);
    }

    /** Second section of malloc. */
    method NoteActive(node: FrameNode, ghost k: nat)
      requires Valid() && k < |free.nodes| && free.nodes[k] == node
      modifies node`consumerMask
      ensures Valid() && Value() == NoteConsumers(old(Value()), node.address)
    {
      hide Members, Distinct;
      Pointed(node, k);
      node.Address(active);
      InFree(k);
    }

    /** Complete: the occupied node with this buffer becomes the newest ready node. `posts` is the number of wakeups. */
    method Complete(buffer: nat, ghost completion: nat) returns (ok: bool, posts: nat)
      requires Valid()
      modifies free, ready, pool
      ensures Valid() && Value() == QueueModel.Complete(old(Value()), buffer, completion).0
      ensures ok == QueueModel.Complete(old(Value()), buffer, completion).1
      ensures posts == if ok then Wakeups(old(Value())) else 0
    {
      hide Linked, Sane, Members, Distinct, FrameNode.Value, FrameList.Valid, Matches, Find;
      SomeFacts();
      var node;
      ghost var k;
      node, k := free.Search(Occupied(buffer));
      if node == null {
        return false, 0;
      }
      var count := CountActiveConsumers(active);
      MoveToReady(node, completion, k);
      return true, if count > 0 then count else 1;
    }

    method MoveToReady(node: FrameNode, ghost completion: nat, ghost k: nat)
      requires Valid() && k < |free.nodes| && free.nodes[k] == node
      modifies free, ready, pool
      ensures Valid()
      ensures Values(free.nodes) == Without(old(Values(free.nodes)), k)
      ensures var e := old(Values(free.nodes))[k];
        var e' := e.(inUse := false, accessed := {}, mask := Members(active), stamp := completion);
        Values(ready.nodes) == old(Values(ready.nodes)) + [e']
    {
      hide Sane, Members, Distinct, At;
      Unlink(free, ready, node, k);
      PublishUnlinked(node, completion);
      Append(ready, free, node);
    }

    method PublishUnlinked(node: FrameNode, ghost completion: nat)
      requires Valid() && node in pool && node !in ready.members && node !in free.members
      modifies node`consumerMask, node`accessedMask, node`inUse, node`stamp
      ensures Valid()
      ensures var v := old(node.Value());
        node.Value() == v.(inUse := false, accessed := {}, mask := Members(active), stamp := completion)
      ensures Values(free.nodes) == old(Values(free.nodes)) && Values(ready.nodes) == old(Values(ready.nodes))
    {
      hide Members;
      node.Publish(active, completion);
      OtherValues(node);
    }

    /** First section of cancel. */
    method DisclaimNode(buffer: nat) returns (node: FrameNode?)
      requires Valid()
      modifies pool`inUse
      ensures Valid() && Value() == Disclaim(old(Value()), buffer).0
      ensures Disclaim(old(Value()), buffer).1 == if node == null then None else Some(node.address)
      ensures node != null ==> node in free.members && !node.inUse
    {
      hide Sane, Members, Distinct, FrameNode.Value, Matches, Find;
      ghost var k;
      node, k := free.Search(Occupied(buffer));
      if node != null {
        assert node in free.members;
        OccupyFree(node, false, k);
      }
    }

    /** End of cancel: the buffer is given back to the allocator. */
    method ForgetBuffer(node: FrameNode, ghost k: nat) returns (freed: Option<nat>)
      requires Valid() && k < |free.nodes| && free.nodes[k] == node
      modifies node`frame
      ensures Valid() && Value() == DropBuffer(old(Value()), node.address)
      ensures freed == old(node.frame)
    {
      hide Members, Distinct;
      Pointed(node, k);
      freed := node.frame;
      node.SetFrame(None);
      InFree(k);
    }

    /** The entry test of get_frame: the index of an enabled consumer, or -1. */
    method EnabledIndex(id: bv32) returns (c: int)
      requires Valid() && IsConsumerId(id)
      ensures -1 <= c < MAX_CONSUMERS
      ensures c >= 0 ==> id == Bit(c) && c in Value().active
      ensures c < 0 ==> forall d :: 0 <= d < MAX_CONSUMERS && id == Bit(d) ==> d !in Value().active
    {
      c := ConsumerIndex(id);
      if c >= 0 {
        OnlyBit(id, c);
        if !enabled[c] {
          c := -1;
        }
      } else {
        NoBit(id);
      }
    }

    /** The search section of get_frame. */
    method GetFrame(id: bv32, c: nat) returns (frame: Option<nat>)
      requires Valid() && c < MAX_CONSUMERS && id == Bit(c)
      modifies pool
      ensures Valid() && Value() == Get(old(Value()), c).0
      ensures var got := Get(old(Value()), c).1; frame == if got == None then None else got.value.frame
    {
      hide Linked, Sane, Members, Bit, HasBit, Distinct, FrameNode.Value, FrameList.Valid, Matches, Find;
      SomeFacts();
      var node;
      ghost var k;
      node, k := ready.Search(AwaitedBy(c));
      if node == null {
        return None;
      }
      frame := node.frame;
      AcquireReady(node, id, c, k);
    }

    method AcquireReady(node: FrameNode, id: bv32, ghost c: nat, ghost k: nat)
      requires Valid() && c < MAX_CONSUMERS && id == Bit(c) && k < |ready.nodes| && ready.nodes[k] == node
      modifies node`refCount, node`accessedMask, node`holders
      ensures Valid() && Values(free.nodes) == old(Values(free.nodes))
      ensures var es := old(Values(ready.nodes));
        var e := es[k].(refs := es[k].refs + 1, accessed := es[k].accessed + {c}, holders := es[k].holders + {c});
        Values(ready.nodes) == es[k := e]
    {
      hide Members, Bit, HasBit, Distinct;
      assert node in ready.members;
      node.Acquire(id, c);
      InReady(k);
    }

    /**
     The entry test and the section of release_frame; returns the node when nobody holds or awaits it any more. An id
     without a valid bit is refused.
     */
    method ReleaseFrame(id: bv32, buffer: nat, ghost c: nat) returns (node: FrameNode?)
      requires Valid()
      modifies ready, pool
      ensures Valid() && (id & 0xFF == 0 ==> node == null && Value() == old(Value()))
      ensures id & 0xFF != 0 ==> Value() == Release(old(Value()), c, buffer).0
      ensures id & 0xFF != 0 ==>
        Release(old(Value()), c, buffer).1 == if node == null then None else Some(node.Value())
      ensures node != null ==> node in pool && node !in ready.members && node !in free.members
    {
      var index := ConsumerIndex(id);
      if index < 0 {
        return null;
      }
      node := ReleaseSection(buffer, c);
    }

    method ReleaseSection(buffer: nat, ghost c: nat) returns (node: FrameNode?)
      requires Valid()
      modifies ready, pool
      ensures Valid() && Value() == Release(old(Value()), c, buffer).0
      ensures Release(old(Value()), c, buffer).1 == if node == null then None else Some(node.Value())
      ensures node != null ==> node in pool && node !in ready.members && node !in free.members
    {
      hide Linked, Sane, Members, Distinct, FrameList.Valid, Matches, Find;
      hide FrameNode.Value, FrameNode.Unheld, FrameNode.AllAccessed, FrameNode.MasksSmall;
      SomeFacts();
      ghost var k;
      node, k := ready.Search(WithFrame(buffer));
      if node != null {
        DropReady(node, c, k);
        if node.Unheld() && node.AllAccessed() {
          Unlink(ready, free, node, k);
        } else {
          node := null;
        }
      }
    }

    method DropReady(node: FrameNode, ghost c: nat, ghost k: nat)
      requires Valid() && k < |ready.nodes| && ready.nodes[k] == node
      modifies node`refCount, node`holders
      ensures Valid() && Values(free.nodes) == old(Values(free.nodes)) && node.MasksSmall()
      ensures var es := old(Values(ready.nodes));
        var e := es[k].(refs := if es[k].refs > 0 then es[k].refs - 1 else 0, holders := es[k].holders - {c});
        Values(ready.nodes) == es[k := e] && node.Value() == e
    {
      hide Members, Distinct;
      assert node in ready.members;
      node.DropReference(c);
      InReady(k);
    }

    /** Release outside the section: give the buffer of the unlinked node back to the allocator. */
    method FreeUnlinked(node: FrameNode) returns (freed: Option<nat>)
      requires Valid() && node in pool && node !in ready.members && node !in free.members
      modifies node`frame
      ensures Valid() && node.Value() == old(node.Value()).(frame := None) && freed == old(node.Value()).frame
      ensures Value() == old(Value())
    {
      hide Members;
      freed := node.frame;
      node.SetFrame(None);
      OtherValues(node);
    }

    /** End of release: the reset node returns to the tail of the free list. */
    method ReturnNode(node: FrameNode)
      requires Valid() && node in pool && node !in ready.members && node !in free.members && node.frame == None
      modifies free, pool
      ensures Valid() && Value() == GiveBack(old(Value()), old(node.Value()))
    {
      hide Sane, Members, Distinct, At;
      ResetUnlinked(node);
      Append(free, ready, node);
    }

    /** Progress of the loop over the free list: the first `k` nodes have been stripped. */
    ghost predicate Stripping(es: seq<Entry>, rs: seq<Entry>, k: nat)
      reads this, free, ready, pool
    {
      && Valid() && k <= |es| == |free.nodes|
      && Values(free.nodes) == Stripped(es[..k]) + es[k..] && Values(ready.nodes) == rs
    }

    /** The loop is at `node`, which is number `k`, and has freed the buffers of the nodes before it. */
    ghost predicate AtFree(node: FrameNode?, freed: seq<nat>, es: seq<Entry>, rs: seq<Entry>, k: nat)
      reads this, free, ready, pool
    {
      Stripping(es, rs, k) && node == At(free.nodes, k) && Freed(freed, es, k)
    }

    /** Second section of clear_all: every free node loses its claim and its buffer; `freed` lists the buffers freed. */
    method ClearFree() returns (freed: seq<nat>)
      requires Valid()
      modifies pool
      ensures Valid() && Value() == QueueModel.ClearFree(old(Value()))
      ensures freed == Buffers(old(Value()).free)
    {
      hide Linked, Sane, Members, FrameNode.Value, Buffers, Stripped, AtFree;
      freed := [];
      ghost var es, rs, k := Values(free.nodes), Values(ready.nodes), 0;
      var node := free.head;
      FreeStarts();
      while node != null
        invariant k <= |es| && AtFree(node, freed, es, rs, k)
        decreases |es| - k
      {
        FreeNext(node, freed, es, rs, k);
        node, freed := StripNext(node, freed, es, rs, k);
        k := k + 1;
      }
      FreeEnds(freed, es, rs, k);
    }

    lemma FreeStarts()
      requires Valid()
      ensures AtFree(free.head, [], Values(free.nodes), Values(ready.nodes), 0)
    {
      StartStrip();
      FreedEnds([], Values(free.nodes));
    }

    lemma FreeNext(node: FrameNode, freed: seq<nat>, es: seq<Entry>, rs: seq<Entry>, k: nat)
      requires AtFree(node, freed, es, rs, k)
      ensures Valid() && k < |es|
    {
      FreeAt(es, rs, k);
    }

    lemma FreeEnds(freed: seq<nat>, es: seq<Entry>, rs: seq<Entry>, k: nat)
      requires AtFree(null, freed, es, rs, k)
      ensures Valid() && Values(free.nodes) == Stripped(es) && Values(ready.nodes) == rs && freed == Buffers(es)
    {
      FreeAt(es, rs, k);
      FreedEnds(freed, es);
    }

    /** Its loop body: free the node's buffer if it has one, and go to the next node. */
    method StripNext(node: FrameNode, freed: seq<nat>, ghost es: seq<Entry>, ghost rs: seq<Entry>, ghost k: nat)
      returns (next: FrameNode?, freed': seq<nat>)
      requires AtFree(node, freed, es, rs, k) && k < |es|
      modifies pool
      ensures AtFree(next, freed', es, rs, k + 1)
    {
      hide Linked, Sane, Members, Distinct, FrameNode.Value, Stripping, Buffers, Stripped, Freed;
      FreeAt(es, rs, k);
      next := node.next;
      var f := StripFree(node, es, rs, k);
      FreedStep(freed, es, k);
      freed' := match f case Some(b) => freed + [b] case None => freed;
    }

    /** The buffers of the first `k` nodes have been freed. */
    ghost predicate Freed(freed: seq<nat>, es: seq<Entry>, k: nat) {
      k <= |es| && freed + Buffers(es[k..]) == Buffers(es)
    }

    lemma FreedStep(freed: seq<nat>, es: seq<Entry>, k: nat)
      requires k < |es| && Freed(freed, es, k)
      ensures Freed(match es[k].frame case Some(b) => freed + [b] case None => freed, es, k + 1)
    {
      var f := es[k].frame;
      var more := if f.Some? then [f.value] else [];
      assert es[k..] == [es[k]] + es[k + 1..];
      assert Buffers(es[k..]) == more + Buffers(es[k + 1..]);
      assert freed + (more + Buffers(es[k + 1..])) == (freed + more) + Buffers(es[k + 1..]);
    }

    lemma FreedEnds(freed: seq<nat>, es: seq<Entry>)
      ensures Freed([], es, 0)
      ensures Freed(freed, es, |es|) ==> freed == Buffers(es)
    {
      assert es[0..] == es && [] + Buffers(es) == Buffers(es);
      assert es[|es|..] == [] && freed + [] == freed;
    }

    lemma StartStrip()
      requires Valid()
      ensures Stripping(Values(free.nodes), Values(ready.nodes), 0)
    {
    }

    lemma FreeAt(es: seq<Entry>, rs: seq<Entry>, k: nat)
      requires Stripping(es, rs, k)
      ensures Valid() && k <= |es| == |free.nodes| && free.head == At(free.nodes, 0)
      ensures At(free.nodes, k) == null <==> k == |es|
      ensures k < |es| ==> free.nodes[k] in pool && free.nodes[k].next == At(free.nodes, k + 1)
      ensures k == |es| ==> Values(free.nodes) == Stripped(es) && Values(ready.nodes) == rs
    {
      if k < |es| {
        assert free.nodes[k] in free.members;
        StripStep(es, k);
      } else {
        assert es[..k] == es;
      }
    }

    method StripFree(node: FrameNode, ghost es: seq<Entry>, ghost rs: seq<Entry>, ghost k: nat)
      returns (freed: Option<nat>)
      requires Stripping(es, rs, k) && k < |free.nodes| && free.nodes[k] == node
      modifies node`frame, node`inUse
      ensures Stripping(es, rs, k + 1) && freed == es[k].frame
    {
      hide Linked, Sane, Members, FrameNode.Value;
      StripStep(es, k);
      freed := StripNode(node, k);
    }

    method StripNode(node: FrameNode, ghost k: nat) returns (freed: Option<nat>)
      requires Valid() && k < |free.nodes| && free.nodes[k] == node
      modifies node`frame, node`inUse
      ensures Valid() && Values(ready.nodes) == old(Values(ready.nodes))
      ensures var es := old(Values(free.nodes));
        Values(free.nodes) == es[k := es[k].(frame := None, inUse := false)] && freed == es[k].frame
    {
      hide Sane, Members;
      assert node in free.members;
      freed := node.Strip();
      InFree(k);
    }

    /** Deinit: both lists are emptied from the head and every buffer is freed once; `freed` lists them. */
    method Deinit() returns (freed: seq<nat>)
      requires Valid()
      modifies free, ready, pool
      ensures Valid() && Value().free == Value().ready == []
      ensures freed == Buffers(old(Value()).free) + Buffers(old(Value()).ready)
    {
      hide Linked, Sane, Members, FrameNode.Value;
      freed := DestroyAll(free, ready);
      var more := DestroyAll(ready, free);
      freed := freed + more;
    }

    /** One of the two loops of deinit. */
    method DestroyAll(list: FrameList, ghost other: FrameList) returns (freed: seq<nat>)
      requires Valid() && Both(list, other)
      modifies list, pool
      ensures Valid() && Values(list.nodes) == [] && Values(other.nodes) == old(Values(other.nodes))
      ensures freed == Buffers(old(Values(list.nodes)))
    {
      hide Linked, Sane, Members, Distinct, FrameNode.Value, Both, FrameList.Valid;
      freed := [];
      var node, f := DestroyHead(list, other);
      if f.Some? {
        freed := [f.value];
      }
      while node != null
        invariant Valid() && Both(list, other) && Values(other.nodes) == old(Values(other.nodes))
        invariant node == null ==> Values(list.nodes) == []
        invariant freed + Buffers(Values(list.nodes)) == Buffers(old(Values(list.nodes)))
        decreases |list.nodes|, node != null
      {
        node, f := DestroyHead(list, other);
        if f.Some? {
          freed := freed + [f.value];
        }
      }
    }

    /** Pop the head of a list and free its buffer. */
    method DestroyHead(list: FrameList, ghost other: FrameList) returns (node: FrameNode?, freed: Option<nat>)
      requires Valid() && Both(list, other)
      modifies list, pool`next, pool`prev
      ensures Valid() && Values(other.nodes) == old(Values(other.nodes))
      ensures node == null ==> freed == None && Values(list.nodes) == old(Values(list.nodes)) == []
      ensures node != null ==>
        var es := old(Values(list.nodes)); es != [] && Values(list.nodes) == es[1..] && freed == es[0].frame
    {
      hide Sane, Members, Distinct, At;
      node := list.PopHead();
      freed := if node == null then None else node.frame;
      other.StaysValid();
    }
  }
}
