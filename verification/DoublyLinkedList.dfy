/** The heap-allocated doubly linked list behind the recency order. */
module DoublyLinkedLists {
  import opened Sequences

  class DLLNode {
    var data: nat
    var prev: DLLNode?
    var next: DLLNode?

    constructor (d: nat)
      ensures data == d && prev == null && next == null
    {
      data, prev, next := d, null, null;
    }
  }

  class DoublyLinkedList {
    var head: DLLNode?
    var tail: DLLNode?
    var size: int
    /** The nodes from head to tail. */
    ghost var nodes: seq<DLLNode>
    /** The values they hold. */
    ghost var vals: seq<nat>

    /** The links form one acyclic chain from head to tail, readable both ways. */
    ghost predicate Valid()
      reads this, nodes
    {
      && (nodes == [] ==> head == null && tail == null)
      && (nodes != [] ==>
            && head == nodes[0] && nodes[0].prev == null
            && tail == nodes[|nodes| - 1] && nodes[|nodes| - 1].next == null)
      && (forall i {:trigger nodes[i].prev} :: 1 <= i < |nodes| ==> nodes[i].prev == nodes[i - 1])
      && (forall i {:trigger nodes[i].next} :: 0 <= i < |nodes| - 1 ==> nodes[i].next == nodes[i + 1])
      && (forall i, j :: 0 <= i < j < |nodes| ==> nodes[i] != nodes[j])
      && |vals| == |nodes| && (forall i {:trigger nodes[i].data} :: 0 <= i < |nodes| ==> nodes[i].data == vals[i])
    }

    constructor ()
      ensures Valid() && nodes == [] && vals == [] && size == 0
    {
      head, tail, size, nodes, vals := null, null, 0, [], [];
    }

    method PushFront(val: nat) returns (node: DLLNode)
      requires Valid()
      modifies this, head
      ensures Valid() && fresh(node) && node.data == val
      ensures nodes == [node] + old(nodes) && vals == [val] + old(vals) && size == old(size) + 1
      ensures forall n :: n in old(nodes) ==> n.data == old(n.data)
    {
      node := new DLLNode(val);
      LinkFront(node);
      size := size + 1;
    }

    /** Links a detached node in front of the chain. */
    method LinkFront(node: DLLNode)
      requires Valid() && node !in nodes
      modifies this, node, head
      ensures Valid() && nodes == [node] + old(nodes) && vals == [node.data] + old(vals) && size == old(size)
      ensures forall n :: n in nodes ==> n.data == old(n.data)
    {
      node.next := head;
      node.prev := null;
      if head != null {
        head.prev := node;
      }
      head := node;
      if tail == null {
        tail := node;
      }
      nodes, vals := [node] + nodes, [node.data] + vals;
    }

    /** Takes one node out of the chain; no other node's data changes. */
    method Unlink(node: DLLNode, ghost i: nat)
      requires Valid() && i < |nodes| && nodes[i] == node
      modifies this, nodes
      ensures Valid() && nodes == Without(old(nodes), i) && vals == Without(old(vals), i) && size == old(size) - 1
      ensures node.prev == null && node.next == null
      ensures forall n :: n in old(nodes) ==> n.data == old(n.data)
    {
      hide Without;
      assert i > 0 ==> nodes[i].prev == nodes[i - 1];
      assert i < |nodes| - 1 ==> nodes[i].next == nodes[i + 1];
      if node.prev != null {
        node.prev.next := node.next;
      } else {
        head := node.next;
      }
      if node.next != null {
        node.next.prev := node.prev;
      } else {
        tail := node.prev;
      }
      node.prev, node.next := null, null;
      size := size - 1;
      ghost var ns, vs := nodes, vals;
      WithoutAll(ns, i);
      WithoutAll(vs, i);
      nodes, vals := Without(ns, i), Without(vs, i);
      forall k | 0 <= k < |nodes|
        ensures k > 0 ==> nodes[k].prev == nodes[k - 1]
        ensures k < |nodes| - 1 ==> nodes[k].next == nodes[k + 1]
        ensures nodes[k].data == vals[k]
      {
        assert nodes[k] == ns[if k < i then k else k + 1];
      }
    }

    /** Brings a node to the front.  The size field loses one each time the node was not there
        already, because unlinking decrements it and nothing adds it back. */
    method MoveToFront(node: DLLNode, ghost i: nat)
      requires Valid() && i < |nodes| && nodes[i] == node
      modifies this, nodes
      ensures Valid() && nodes == [node] + Without(old(nodes), i) && vals == [node.data] + Without(old(vals), i)
      ensures size == if i == 0 then old(size) else old(size) - 1
      ensures forall n :: n in old(nodes) ==> n.data == old(n.data)
    {
      hide Without;
      if node == head {
        FirstAgain(nodes);
        FirstAgain(vals);
        return;
      }
      WithoutLacks(nodes, i);
      Unlink(node, i);
      assert head != null ==> head in nodes;
      LinkFront(node);
    }

    /** Removes the last node and returns its value; an empty list gives the default value. */
    method PopTail() returns (val: nat)
      requires Valid()
      modifies this, nodes
      ensures Valid()
      ensures forall n :: n in old(nodes) ==> n.data == old(n.data)
      ensures old(nodes) == [] ==> val == 0 && nodes == [] && size == old(size)
      ensures old(nodes) != [] ==> var k := |old(nodes)| - 1;
        val == old(vals)[k] && nodes == old(nodes)[..k] && vals == old(vals)[..k] && size == old(size) - 1
    {
      if tail == null {
        return 0;
      }
      var node := tail;
      val := node.data;
      ghost var k := |nodes| - 1;
      assert Without(nodes, k) == nodes[..k] && Without(vals, k) == vals[..k];
      Unlink(node, k);
    }
  }
}
