/** The intrusive doubly linked list of frame nodes, with its constant-time operations. */
module FrameList {
  import opened Common
  import opened Masks
  import opened QueueModel

  /** A frame node; `address` stands for its pointer value, `frame` for the pointer to its buffer (or NULL). */
  class FrameNode {
    const address: nat
    var frame: Option<nat>
    var next: FrameNode?
    var prev: FrameNode?
    var refCount: nat
    var consumerMask: bv32
    var accessedMask: bv32
    var inUse: bool
    ghost var stamp: nat
    ghost var holders: set<nat>

    constructor (address: nat)
      ensures this.address == address && next == null && prev == null
      ensures Value() == Entry(address, None, 0, {}, {}, false, 0, {}) && MasksSmall()
    {
      this.address := address;
      frame, next, prev, refCount := None, null, null, 0;
      consumerMask, accessedMask, inUse := 0, 0, false;
      stamp, holders := 0, {};
      new;
      ZeroIsEmpty(0);
    }

    ghost function Value(): Entry
      reads this`frame, this`refCount, this`consumerMask, this`accessedMask, this`inUse, this`stamp, this`holders
    {
      Entry(address, frame, refCount, Members(consumerMask), Members(accessedMask), inUse, stamp, holders)
    }

    ghost predicate MasksSmall()
      reads this`consumerMask, this`accessedMask
    {
      Small(consumerMask) && Small(accessedMask)
    }

    /** The test a search loop makes on a node, on the bits of its masks. */
    predicate Test(w: Want)
      requires w.AwaitedBy? ==> w.consumer < MAX_CONSUMERS
      reads this
      ensures Test(w) == Matches(w, Value())
    {
      match w
      case AnySlot => !inUse
      case AnyUnheld => refCount == 0
      case Occupied(b) => inUse && frame == Some(b)
      case AwaitedBy(c) => consumerMask & Bit(c) != 0 && accessedMask & Bit(c) == 0
      case WithFrame(b) => frame == Some(b)
      case WithId(id) => address == id
    }

    predicate Unheld()
      reads this
      ensures Unheld() == (Value().refs == 0)
    {
      refCount == 0
    }

    predicate NobodyAddressed()
      requires MasksSmall()
      reads this
      ensures NobodyAddressed() == (Value().mask == {})
    {
      ZeroIsEmpty(consumerMask);
      consumerMask == 0
    }

    predicate AllAccessed()
      requires MasksSmall()
      reads this
      ensures AllAccessed() == (Value().mask <= Value().accessed)
    {
      Covers(accessedMask, consumerMask);
      accessedMask & consumerMask == consumerMask
    }

    predicate WaitsFor(id: bv32, ghost c: nat)
      requires c < MAX_CONSUMERS && id == Bit(c)
      reads this
      ensures WaitsFor(id, c) == (c in Value().Awaited())
    {
      Overlaps(consumerMask, id, c) && !Overlaps(accessedMask, id, c)
    }

    method DropConsumer(id: bv32, ghost c: nat)
      requires c < MAX_CONSUMERS && id == Bit(c) && MasksSmall()
      modifies this`consumerMask
      ensures Value() == old(Value()).(mask := old(Value()).mask - {c}) && MasksSmall()
    {
      hide Bit, HasBit, Members, Removed;
      ClearBit(consumerMask, c, Removed(consumerMask, id));
      consumerMask := Removed(consumerMask, id);
    }

    method Occupy(flag: bool)
      modifies this`inUse
      ensures Value() == old(Value()).(inUse := flag)
    {
      inUse := flag;
    }

    method SetFrame(f: Option<nat>)
      modifies this`frame
      ensures Value() == old(Value()).(frame := f)
    {
      frame := f;
    }

    method Strip() returns (freed: Option<nat>)
      modifies this`frame, this`inUse
      ensures Value() == old(Value()).(frame := None, inUse := false) && freed == old(frame) == old(Value()).frame
    {
      inUse := false;
      freed := frame;
      frame := None;
    }

    /** Malloc hands the node to the producer: a buffer, no references, nothing accessed. */
    method Prepare(f: Option<nat>)
      requires MasksSmall()
      modifies this`frame, this`refCount, this`accessedMask
      ensures Value() == old(Value()).(frame := f, refs := 0, accessed := {}) && MasksSmall()
    {
      ZeroIsEmpty(0);
      frame, refCount, accessedMask := f, 0, 0;
    }

    method Address(mask: bv32)
      requires MasksSmall() && Small(mask)
      modifies this`consumerMask
      ensures Value() == old(Value()).(mask := Members(mask)) && MasksSmall()
    {
      consumerMask := mask;
    }

    /** Complete: the frame is addressed to the active consumers and accessed by none. */
    method Publish(mask: bv32, ghost completion: nat)
      requires MasksSmall() && Small(mask)
      modifies this`consumerMask, this`accessedMask, this`inUse, this`stamp
      ensures Value() == old(Value()).(inUse := false, accessed := {}, mask := Members(mask), stamp := completion)
      ensures MasksSmall()
    {
      ZeroIsEmpty(0);
      inUse, accessedMask, consumerMask := false, 0, mask;
      stamp := completion;
    }

    method Acquire(id: bv32, ghost c: nat)
      requires c < MAX_CONSUMERS && id == Bit(c) && MasksSmall()
      modifies this`refCount, this`accessedMask, this`holders
      ensures MasksSmall()
      ensures var v := old(Value());
        Value() == v.(refs := v.refs + 1, accessed := v.accessed + {c}, holders := v.holders + {c})
    {
      hide Bit, HasBit, Members, Added;
      SetBit(accessedMask, c, Added(accessedMask, id));
      refCount := refCount + 1;
      accessedMask := Added(accessedMask, id);
      holders := holders + {c};
    }

    method DropReference(ghost c: nat)
      modifies this`refCount, this`holders
      ensures var v := old(Value());
        Value() == v.(refs := if v.refs > 0 then v.refs - 1 else 0, holders := v.holders - {c})
    {
      if refCount > 0 {
        refCount := refCount - 1;
      }
      holders := holders - {c};
    }

    /** The reset every recycled node gets; the buffer stays. */
    method Reset()
      modifies this`refCount, this`consumerMask, this`accessedMask, this`inUse, this`holders
      ensures Value() == old(Value()).Reset() && MasksSmall()
    {
      refCount, consumerMask, accessedMask, inUse := 0, 0, 0, false;
      holders := {};
      ZeroIsEmpty(0);
    }
  }

  ghost function Values(nodes: seq<FrameNode>): (es: seq<Entry>)
    reads nodes
    ensures |es| == |nodes| && forall i :: 0 <= i < |nodes| ==> es[i] == nodes[i].Value()
  {
    seq(|nodes|, i requires 0 <= i < |nodes| reads nodes => nodes[i].Value())
  }

  ghost predicate Distinct(nodes: seq<FrameNode>) {
    forall i, j :: 0 <= i < j < |nodes| ==> nodes[i] != nodes[j]
  }

  /** The node at position `i`, or null outside the sequence. */
  ghost function At(nodes: seq<FrameNode>, i: int): FrameNode? {
    if 0 <= i < |nodes| then nodes[i] else null
  }

  /** Positions of a sequence without its position `k`, in the original sequence. */
  ghost function Skip(k: nat, i: int): int {
    if i < k then i else i + 1
  }

  lemma WithoutAt(was: seq<FrameNode>, k: nat)
    requires k < |was| && Distinct(was)
    ensures var s := was[..k] + was[k + 1..];
      && Distinct(s) && was[k] !in s
      && forall i :: At(s, i) == At(was, Skip(k, i))
  {
    var s := was[..k] + was[k + 1..];
    forall i ensures At(s, i) == At(was, Skip(k, i)) {
    }
    forall i | 0 <= i < |s| ensures s[i] == was[Skip(k, i)] {
    }
  }

  class FrameList {
    var head: FrameNode?
    var tail: FrameNode?
    var count: nat
    ghost var nodes: seq<FrameNode>
    ghost var members: set<FrameNode>

    /** Acyclic and doubly linked from head to tail, with the count equal to the length. */
    ghost predicate Valid()
      reads this, members
    {
      && count == |nodes|
      && Distinct(nodes)
      && (forall i :: 0 <= i < |nodes| ==> nodes[i] in members)
      && head == (if nodes == [] then null else nodes[0])
      && tail == (if nodes == [] then null else nodes[|nodes| - 1])
      && (forall i {:trigger nodes[i].next} :: 0 <= i < |nodes| ==> nodes[i].next == At(nodes, i + 1))
      && (forall i {:trigger nodes[i].prev} :: 0 <= i < |nodes| ==> nodes[i].prev == At(nodes, i - 1))
    }

    constructor ()
      ensures Valid() && nodes == [] && members == {}
    {
      head, tail, count, nodes, members := null, null, 0, [], {};
    }

    /** A list does not depend on the links of other nodes. */
    twostate lemma StaysValid()
      requires old(Valid()) && unchanged(this)
      requires forall n :: n in members ==> n.next == old(n.next) && n.prev == old(n.prev)
      ensures Valid()
    {
    }

    method AddTail(node: FrameNode)
      requires Valid() && node !in members
      modifies this, node`next, node`prev, members`next
      ensures Valid() && nodes == old(nodes) + [node] && members == old(members) + {node}
    {
      ghost var was := nodes;
      assert tail != null ==> tail == was[|was| - 1];
      node.next := null;
      node.prev := tail;
      if tail != null {
        tail.next := node;
      }
      tail := node;
      if head == null {
        head := node;
      }
      count := count + 1;
      nodes := nodes + [node];
      members := members + {node};
      forall i | 0 <= i < |nodes| ensures nodes[i].prev == At(nodes, i - 1) {
        assert i < |was| ==> nodes[i] == was[i] && old(was[i].prev) == At(was, i - 1);
      }
    }

    method AddHead(node: FrameNode)
      requires Valid() && node !in members
      modifies this, node`next, node`prev, members`prev
      ensures Valid() && nodes == [node] + old(nodes) && members == old(members) + {node}
    {
      ghost var was := nodes;
      assert head != null ==> head == was[0];
      node.next := head;
      node.prev := null;
      if head != null {
        head.prev := node;
      }
      head := node;
      if tail == null {
        tail := node;
      }
      count := count + 1;
      nodes := [node] + nodes;
      members := members + {node};
      forall i | 0 <= i < |nodes| ensures nodes[i].next == At(nodes, i + 1) {
        assert i > 0 ==> nodes[i] == was[i - 1] && old(was[i - 1].next) == At(was, i);
      }
    }

    /** Constant-time unlinking of a node anywhere in the list; `k` is its position, known to the proof only. */
    method Remove(node: FrameNode, ghost k: nat)
      requires Valid() && k < |nodes| && nodes[k] == node
      modifies this, members`next, members`prev
      ensures Valid() && nodes == old(nodes[..k] + nodes[k + 1..]) && members == old(members) - {node}
      ensures node.next == null && node.prev == null
    {
      ghost var was := nodes;
      WithoutAt(was, k);
      Bypass(node, k);
      count := count - 1;
      node.next := null;
      node.prev := null;
      nodes := was[..k] + was[k + 1..];
      members := members - {node};
      Relinked(was, k);
    }

    /** The neighbours of a node are linked to each other. */
    method Bypass(node: FrameNode, ghost k: nat)
      requires Valid() && k < |nodes| && nodes[k] == node
      modifies this`head, this`tail, members`next, members`prev
      ensures head == At(nodes, if k == 0 then 1 else 0)
      ensures tail == At(nodes, if k == |nodes| - 1 then k - 1 else |nodes| - 1)
      ensures forall j {:trigger nodes[j].next} :: 0 <= j < |nodes| && j != k ==>
        nodes[j].next == At(nodes, if j + 1 == k then k + 1 else j + 1)
      ensures forall j {:trigger nodes[j].prev} :: 0 <= j < |nodes| && j != k ==>
        nodes[j].prev == At(nodes, if j - 1 == k then k - 1 else j - 1)
    {
      assert node.prev == At(nodes, k - 1) && node.next == At(nodes, k + 1);
      if node.prev != null {
        node.prev.next := node.next;
      } else {
        head := node.next;
      }
      if node.next != null {
        node.next.prev := node.prev;
      } else {
        tail := node.prev;
      }
    }

    /** What remains when the two neighbours of position `k` point past it is a valid list. */
    lemma Relinked(was: seq<FrameNode>, k: nat)
      requires k < |was| && count == |nodes| == |was| - 1
      requires Distinct(nodes) && forall i :: At(nodes, i) == At(was, Skip(k, i))
      requires forall i :: 0 <= i < |nodes| ==> nodes[i] in members
      requires head == At(was, Skip(k, 0)) && tail == At(was, Skip(k, |nodes| - 1))
      requires forall j {:trigger was[j].next} :: 0 <= j < |was| && j != k ==>
        was[j].next == At(was, if j + 1 == k then k + 1 else j + 1)
      requires forall j {:trigger was[j].prev} :: 0 <= j < |was| && j != k ==>
        was[j].prev == At(was, if j - 1 == k then k - 1 else j - 1)
      ensures Valid()
    {
      forall i | 0 <= i < |nodes|
        ensures nodes[i].next == At(nodes, i + 1) && nodes[i].prev == At(nodes, i - 1)
      {
        var j := Skip(k, i);
        assert nodes[i] == At(nodes, i) == At(was, j) == was[j];
        assert At(nodes, i + 1) == At(was, Skip(k, i + 1));
        assert At(nodes, i - 1) == At(was, Skip(k, i - 1));
      }
      assert head == At(nodes, 0) && tail == At(nodes, |nodes| - 1);
    }

    /** Unlinking position `k` takes one value out of the list and leaves the others. */
    twostate lemma ValuesWithout(k: nat)
      requires k < |old(nodes)| && nodes == old(nodes)[..k] + old(nodes)[k + 1..]
      requires forall i :: 0 <= i < |old(nodes)| ==> old(nodes)[i].Value() == old(nodes[i].Value())
      ensures Values(nodes) == Without(old(Values(nodes)), k)
    {
      forall i | 0 <= i < |nodes| ensures nodes[i].Value() == old(Values(nodes))[Skip(k, i)] {
        assert nodes[i] == old(nodes)[Skip(k, i)];
      }
    }

    method PopHead() returns (node: FrameNode?)
      requires Valid()
      modifies this, members`next, members`prev
      ensures Valid()
      ensures old(nodes) == [] ==> node == null && nodes == [] && members == old(members)
      ensures old(nodes) != [] ==>
        node == old(nodes)[0] && nodes == old(nodes)[1..] && members == old(members) - {node}
      ensures node != null ==> node.next == null && node.prev == null
    {
      ghost var was := nodes;
      node := head;
      if node != null {
        assert node.next != null ==> |was| > 1 && node.next == was[1];
        head := node.next;
        if head != null {
          head.prev := null;
        } else {
          tail := null;
        }
        count := count - 1;
        node.next := null;
        node.prev := null;
        nodes := nodes[1..];
        members := members - {node};
        forall i | 0 <= i < |nodes| ensures nodes[i].next == At(nodes, i + 1) {
          assert nodes[i] == was[i + 1] && old(was[i + 1].next) == At(was, i + 2);
        }
      }
    }

    /** The search loop of malloc, complete, cancel, get_frame and release_frame: the first node to pass the test. */
    method Search(w: Want) returns (node: FrameNode?, ghost k: nat)
      requires Valid() && (w.AwaitedBy? ==> w.consumer < MAX_CONSUMERS)
      ensures k == Find(w, Values(nodes)) && node == At(nodes, k)
      ensures node != null ==> node in members && node.Value() == Values(nodes)[k] && node.Value().id == node.address
      ensures node != null ==> node.Value().frame == node.frame
    {
      node, k := head, 0;
      while node != null
        invariant k <= |nodes| && node == At(nodes, k)
        invariant forall j :: 0 <= j < k ==> !Matches(w, nodes[j].Value())
        decreases |nodes| - k
      {
        if node.Test(w) {
          return;
        }
        node := node.next;
        k := k + 1;
      }
    }
  }
}
