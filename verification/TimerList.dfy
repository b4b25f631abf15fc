/** The intrusive timer list, on its own: nodes, their owner, and push, pop and delete. */
module TimerList {
  import opened Text

  /** What the memory of a timer node holds. */
  datatype NodeFields<T> = NodeFields(
    cli: T, prev: TimerNode?<T>, next: TimerNode?<T>, owner: TimerMgr?<T>, timeout: int)

  /** struct timer_node; T is the client it belongs to. `live` is false once the node is freed. */
  class TimerNode<T> {
    var cli: T
    var prev: TimerNode?<T>
    var next: TimerNode?<T>
    var owner: TimerMgr?<T>
    var timeout: int
    ghost var live: bool
    ghost var corpse: Option<NodeFields<T>>    // the fields as free() left them

    constructor (cli: T, timeout: int)
      ensures this.cli == cli && this.timeout == timeout
      ensures prev == null && next == null && owner == null && live
    {
      this.cli := cli;
      this.timeout := timeout;
      prev, next, owner := null, null, null;
      live, corpse := true, None;
    }

    ghost function Fields(): NodeFields<T>
      reads this
    {
      NodeFields(cli, prev, next, owner, timeout)
    }

    /** Freed, and not written to since. */
    ghost predicate Dead()
      reads this
    {
      !live && corpse == Some(Fields())
    }

    /** free(), of a node that has not been freed: nothing is known of its fields afterwards. */
    method Free()
      requires live
      modifies this
      ensures Dead()
    {
      live, corpse := false, Some(Fields());
    }
  }

  /** A list without its element at index k. */
  ghost function Dropped<X>(s: seq<X>, k: nat): (r: seq<X>)
    requires k < |s|
    ensures |r| == |s| - 1
    ensures forall i :: 0 <= i < k ==> r[i] == s[i]
    ensures forall i :: k <= i < |r| ==> r[i] == s[i + 1]
    ensures forall i {:trigger s[i]} :: 0 <= i < |s| && i != k ==> s[i] in r
  {
    var r := s[..k] + s[k + 1..];
    assert forall i :: 0 <= i < |s| && i != k ==> s[i] == r[if i < k then i else i - 1];
    r
  }

  /** struct timer_mgr. `nodes` is the list from head to tail, `repr` the set of its nodes. */
  class TimerMgr<T> {
    var head: TimerNode?<T>
    var tail: TimerNode?<T>
    var count: int
    ghost var nodes: seq<TimerNode<T>>
    ghost var repr: set<TimerNode<T>>

    /** Every link of the list, in both directions, and every node's owner. */
    ghost predicate Valid()
      reads this, repr
    {
      && (forall n :: n in repr ==> n in nodes)
      && count == |nodes|
      && (forall i, j :: 0 <= i < j < |nodes| ==> nodes[i] != nodes[j])
      && head == (if nodes == [] then null else nodes[0])
      && tail == (if nodes == [] then null else nodes[|nodes| - 1])
      && (forall i :: 0 <= i < |nodes| ==> nodes[i] in repr)
      && (forall n :: n in repr ==> n.owner == this)
      && (nodes != [] ==> nodes[0].prev == null && nodes[|nodes| - 1].next == null)
      && (forall i {:trigger nodes[i].prev} :: 1 <= i < |nodes| ==> nodes[i].prev == nodes[i - 1])
      && (forall i {:trigger nodes[i].next} :: 0 <= i < |nodes| - 1 ==> nodes[i].next == nodes[i + 1])
    }

    /** What users of a list rely on. */
    lemma Owns()
      requires Valid()
      ensures forall i :: 0 <= i < |nodes| ==> nodes[i] in repr
      ensures forall n :: n in repr ==> n.owner == this && n in nodes
      ensures forall i, j :: 0 <= i < j < |nodes| ==> nodes[i] != nodes[j]
    {
    }

    /** node->timeout of a listed node may be set freely. */
    method SetTimeout(node: TimerNode<T>, timeout: int)
      requires Valid() && node in repr
      modifies node`timeout
      ensures Valid() && node.timeout == timeout
    {
      node.timeout := timeout;
    }

    constructor ()
      ensures Valid() && nodes == []
    {
      head, tail, count, nodes, repr := null, null, 0, [], {};
    }

    /** Appends an unlinked node; a node that has an owner is left where it is. */
    method Push(node: TimerNode<T>) returns (r: int)
      requires Valid() && node.live
      requires node.owner == null ==> node.prev == null && node.next == null
      modifies this, node`prev, node`owner, repr`next
      ensures Valid()
      ensures old(node.owner) != null ==> r == 1 && unchanged(this) && unchanged(node) && unchanged(repr)
      ensures old(node.owner) == null ==> r == 0 && nodes == old(nodes) + [node] && repr == old(repr) + {node}
    {
      if node.owner != null { return 1; }
      assert node !in repr;
      if head == tail && head == null {
        head, tail := node, node;
      } else {
        node.prev := tail;
        tail.next := node;
        tail := node;
      }
      node.owner := this;
      count := count + 1;
      nodes := nodes + [node];
      repr := repr + {node};
      return 0;
    }

    /** Takes the first node off the list and unlinks it. */
    method Pop() returns (node: TimerNode?<T>)
      requires Valid()
      modifies this, repr`prev, repr`next, repr`owner
      ensures Valid()
      ensures old(nodes) == [] ==> node == null && nodes == [] && repr == old(repr)
      ensures old(nodes) != [] ==> node == old(nodes)[0] && nodes == old(nodes)[1..] && repr == old(repr) - {node}
      ensures node != null ==> node.prev == null && node.next == null && node.owner == null
    {
      if head == null { return null; }
      node := head;
      assert |nodes| > 1 ==> node.next == nodes[1];
      head := head.next;
      if head == null {
        tail := head;
      } else {
        head.prev := null;
      }
      node.prev, node.next := null, null;
      node.owner := null;
      count := count - 1;
      nodes := nodes[1..];
      repr := repr - {node};
    }

    method UnlinkHead(node: TimerNode<T>)
      requires Valid() && nodes != [] && nodes[0] == node
      modifies this, node`owner, repr`prev
      ensures Valid() && nodes == old(nodes)[1..] && repr == old(repr) - {node} && node.owner == null
    {
      assert |nodes| > 1 ==> node.next == nodes[1];
      head := node.next;
      if head != null { head.prev := null; }
      nodes, repr := nodes[1..], repr - {node};
      Uncount(node);
    }

    method UnlinkTail(node: TimerNode<T>)
      requires Valid() && |nodes| > 1 && nodes[|nodes| - 1] == node
      modifies this, node`owner, repr`next
      ensures Valid() && nodes == old(nodes)[..|old(nodes)| - 1] && repr == old(repr) - {node} && node.owner == null
    {
      assert node.prev == nodes[|nodes| - 2];
      tail := node.prev;
      if tail != null { tail.next := null; }
      nodes, repr := nodes[..|nodes| - 1], repr - {node};
      Uncount(node);
    }

    method UnlinkMiddle(node: TimerNode<T>, ghost k: nat)
      requires Valid() && 0 < k < |nodes| - 1 && nodes[k] == node
      modifies this, node`owner, repr`prev, repr`next
      ensures Valid() && nodes == Dropped(old(nodes), k)
      ensures repr == old(repr) - {node} && node.owner == null
    {
      hide Dropped;
      assert node.prev == nodes[k - 1] && node.next == nodes[k + 1];
      node.prev.next := node.next;
      node.next.prev := node.prev;
      nodes, repr := Dropped(nodes, k), repr - {node};
      Uncount(node);
    }

    /** Takes the node at index k out of the list: the head, the tail, or one in the middle. */
    method Unlink(node: TimerNode<T>, ghost k: nat)
      requires Valid() && k < |nodes| && nodes[k] == node
      modifies this, node`owner, repr`prev, repr`next
      ensures Valid() && nodes == old(nodes)[..k] + old(nodes)[k + 1..]
      ensures repr == old(repr) - {node} && node.owner == null
    {
      assert k > 0 ==> node.prev == nodes[k - 1];
      assert k < |nodes| - 1 ==> node.next == nodes[k + 1];
      if node.prev == null {
        UnlinkHead(node);
      } else if node.next == null {
        UnlinkTail(node);
      } else {
        UnlinkMiddle(node, k);
      }
    }

    /** The end of every removal: the node has no owner, and an emptied list has no head and tail. */
    method Uncount(node: TimerNode<T>)
      modifies this`count, this`head, this`tail, node`owner
      ensures node.owner == null && count == old(count) - 1
      ensures if count == 0 then head == null && tail == null else head == old(head) && tail == old(tail)
    {
      node.owner := null;
      count := count - 1;
      if count == 0 {
        head, tail := null, null;
      }
    }

    /** Unlinks a node that this list owns, at any position, or takes one that no list owns; then frees it. */
    method Delete(node: TimerNode?<T>)
      requires Valid()
      requires node != null ==> node.live && (node.owner == null || (node.owner == this && node in repr))
      modifies this, node, repr`prev, repr`next
      ensures Valid()
      ensures node !in old(repr) ==> nodes == old(nodes)
      ensures forall k :: 0 <= k < |old(nodes)| && old(nodes)[k] == node ==> nodes == Dropped(old(nodes), k)
      ensures repr == old(repr) - {node}
      ensures node != null ==> node.Dead()
    {
      hide Valid;
      Owns();
      if node == null { return; }
      if node.owner != null {
        ghost var k :| 0 <= k < |nodes| && nodes[k] == node;
        Unlink(node, k);
      }
      node.Free();
    }
  }
}
