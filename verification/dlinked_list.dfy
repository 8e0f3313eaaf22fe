/**
 * The generic doubly linked list container `DLinkedList<T>`.
 *
 * The list is a chain of heap nodes with `next` and `prev` links and the two
 * end pointers `head` and `tail`.  The ghost field `nodes` lists the nodes
 * reachable from `head` in order; `Contents()` is the sequence of their data.
 *
 * One quirk of the container is kept on purpose: `RemoveHead` on a list with
 * a single node clears `head` but leaves `tail` pointing at the deleted node.
 * `Valid()` therefore allows a non-null `tail` on an empty list (a "stale"
 * tail), and the operations say what they do with it.
 */
module DLinkedList {

  /** Outcome of the indexing operator: the element or the `out_of_range`
      exception. */
  datatype Access<T> = Element(value: T) | OutOfRange

  class Node<T> {
    var data: T
    var next: Node?<T>
    var prev: Node?<T>

    constructor (d: T)
      ensures data == d && next == null && prev == null
    {
      data := d;
      next := null;
      prev := null;
    }
  }

  class List<T> {
    var head: Node?<T>
    var tail: Node?<T>
    /** The nodes reachable from `head`, in list order. */
    ghost var nodes: seq<Node<T>>

    ghost predicate Valid()
      reads this, nodes, tail
    {
      && (|nodes| == 0 <==> head == null)
      && (|nodes| > 0 ==> head == nodes[0] && tail == nodes[|nodes| - 1])
      // a stale tail left behind by RemoveHead is the former single node
      && (|nodes| == 0 && tail != null ==> tail.prev == null)
      && (|nodes| > 0 ==> nodes[0].prev == null && nodes[|nodes| - 1].next == null)
      && (forall i :: 0 <= i < |nodes| - 1 ==> nodes[i].next == nodes[i + 1])
      && (forall i :: 0 < i < |nodes| ==> nodes[i].prev == nodes[i - 1])
      && (forall i, j :: 0 <= i < j < |nodes| ==> nodes[i] != nodes[j])
    }

    /** The elements of the list, head first. */
    ghost function Contents(): seq<T>
      reads this, nodes
    {
      seq(|nodes|, i requires 0 <= i < |nodes| reads this, nodes => nodes[i].data)
    }

    /** A new list has no head and no tail and is empty. */
    constructor ()
      ensures Valid() && fresh(nodes)
      ensures head == null && tail == null && Contents() == []
    {
      head := null;
      tail := null;
      nodes := [];
    }

    method IsEmpty() returns (empty: bool)
      requires Valid()
      ensures empty <==> Contents() == []
    {
      empty := head == null;
    }

    /** `size(temp)`: the number of nodes reachable from `temp`, which is
        the `k`-th node of the list (or null when `k` is the length). */
    function Count(temp: Node?<T>, ghost k: nat): (n: nat)
      requires Valid()
      requires k <= |nodes|
      requires if k < |nodes| then temp == nodes[k] else temp == null
      reads this, nodes, tail
      decreases |nodes| - k
      ensures n == |nodes| - k
    {
      if temp == null then 0
      else
        assert k + 1 < |nodes| ==> temp.next == nodes[k + 1];
        Count(temp.next, k + 1) + 1
    }

    /** `size()`: the number of elements. */
    function Size(): (n: nat)
      requires Valid()
      reads this, nodes, tail
      ensures n == |Contents()|
    {
      Count(head, 0)
    }

    method AddHead(d: T)
      requires Valid()
      modifies this, head
      ensures Valid() && fresh(head)
      ensures Contents() == [d] + old(Contents())
      ensures old(Contents()) == [] ==> tail == head
      ensures old(Contents()) != [] ==> tail == old(tail)
    {
      var val := new Node(d);
      var empty := IsEmpty();
      if empty {
        tail := val;
        head := val;
        val.next := null;
      } else {
        val.next := head;
        head.prev := val;
      }
      head := val;
      nodes := [val] + nodes;
      assert forall i :: 1 <= i < |nodes| ==> nodes[i] == old(nodes)[i - 1];
    }

    method AddTail(d: T)
      requires Valid()
      modifies this, tail
      ensures Valid()
      ensures Contents() == old(Contents()) + [d]
      ensures old(Contents()) != [] ==> head == old(head)
    {
      var empty := IsEmpty();
      if empty {
        AddHead(d);
        return;
      }
      var val := new Node(d);
      val.next := null;
      val.prev := tail;
      tail.next := val;
      tail := val;
      nodes := nodes + [val];
      assert forall i :: 0 <= i < |nodes| - 1 ==> nodes[i] == old(nodes)[i];
    }

    method RemoveHead()
      requires Valid()
      modifies this, nodes
      ensures Valid()
      ensures old(Contents()) == [] ==> Contents() == [] && tail == old(tail)
      ensures old(Contents()) != [] ==> Contents() == old(Contents())[1..]
      // removing the only node leaves `tail` at the deleted node
      ensures |old(Contents())| == 1 ==> head == null && tail == old(tail) && tail != null
      ensures |old(Contents())| > 1 ==> tail == old(tail)
      ensures nodes == if old(nodes) == [] then old(nodes) else old(nodes)[1..]
    {
      if head == null {
        return;
      }
      assert 1 < |nodes| ==> head.next == nodes[1];
      if head.next == null {
        head := null;
      } else {
        head := head.next;
        head.prev := null;
      }
      nodes := nodes[1..];
    }

    method RemoveTail()
      requires Valid()
      modifies this, nodes
      ensures Valid()
      ensures old(Contents()) == [] ==> Contents() == [] && tail == null
      ensures old(Contents()) != [] ==>
                Contents() == old(Contents())[..|old(Contents())| - 1]
      // a single-node list is emptied through RemoveHead, keeping its stale tail
      ensures |old(Contents())| == 1 ==> tail == old(tail) && tail != null
    {
      if tail == null {
        return;
      } else if Size() == 1 {
        RemoveHead();
        return;
      }
      assert 1 < |nodes| ==> tail.prev == nodes[|nodes| - 2];
      if tail.prev == null {
        // only reachable with a stale tail: the source deletes that node again
        tail := null;
      } else {
        tail := tail.prev;
        tail.next := null;
        nodes := nodes[..|nodes| - 1];
      }
    }

    /** `operator[]`: the bounds check compares the `int` index with the
        unsigned size, so a negative index converts to a huge value and is
        rejected like one at or past the end. */
    method Get(index: int) returns (r: Access<T>)
      requires Valid()
      ensures index < 0 || index >= |Contents()| ==> r == OutOfRange
      ensures 0 <= index < |Contents()| ==> r == Element(Contents()[index])
    {
      var n := Size();
      if index < 0 || index >= n {
        return OutOfRange;
      }
      var temp := head;
      var i := 0;
      while i < index
        invariant 0 <= i <= index < |nodes|
        invariant temp == nodes[i]
      {
        temp := temp.next;
        i := i + 1;
      }
      return Element(temp.data);
    }

    /** The destructor: remove head nodes until the list is empty.  The last
        removal leaves `tail` at the former last node. */
    method Destroy()
      requires Valid()
      modifies this, nodes
      ensures Valid() && Contents() == [] && head == null
      ensures tail == old(tail)
    {
      var empty := IsEmpty();
      while !empty
        invariant Valid()
        invariant forall i :: 0 <= i < |nodes| ==> nodes[i] in old(nodes)
        invariant tail == old(tail)
        invariant empty <==> nodes == []
        decreases |nodes|
      {
        RemoveHead();
        empty := IsEmpty();
      }
    }
  }
}
