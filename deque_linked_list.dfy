/** A double-ended queue kept in a ring of doubly linked nodes around a
    sentinel node. Java's null item becomes None: the sentinel holds None,
    every other node the item stored in it. */
module Deque {
  import opened Wrappers

  class Node<T> {
    var item: Option<T>
    var next: Node?<T>
    var prev: Node?<T>

    /** Node(i, p, n). */
    constructor (i: Option<T>, p: Node?<T>, n: Node?<T>)
      ensures item == i && prev == p && next == n
    {
      item, prev, next := i, p, n;
    }

    /** Node(): every field null. */
    constructor Empty()
      ensures item == None && prev == null && next == null
    {
      item, prev, next := None, null, null;
    }
  }

  /** The item at index i as get returns it: None past the end, the item
      itself inside the deque, and the first item, or None when there is
      none, for a negative index, where the walk never advances. */
  function ItemAt<T>(items: seq<T>, i: int): (r: Option<T>)
  {
    if i > |items| - 1 then None
    else if i < 0 then (if items == [] then None else Some(items[0]))
    else Some(items[i])
  }

  class LinkedListDeque<T> {
    /** The items from first to last. */
    ghost var Contents: seq<T>
    /** The nodes holding them, in the same order. */
    ghost var nodes: seq<Node<T>>
    ghost var Repr: set<object>

    var size: int
    var sentinel: Node<T>

    /** The node after position i - 1 in the ring: the sentinel stands
        before the first and after the last node. */
    ghost function NodeAt(i: int): Node<T>
      reads this
    {
      if 0 <= i < |nodes| then nodes[i] else sentinel
    }

    /** The ring invariant: going forward from the sentinel visits the
        size nodes in order and comes back to the sentinel, prev is the
        inverse of next, and node i holds item i. */
    ghost predicate Valid()
      reads this, Repr
      ensures Valid() ==> this in Repr
    {
      && this in Repr && sentinel in Repr
      && |nodes| == |Contents| == size
      && (forall i :: 0 <= i < |nodes| ==> nodes[i] in Repr && nodes[i] != sentinel)
      && (forall i, j :: 0 <= i < j < |nodes| ==> nodes[i] != nodes[j])
      && sentinel.item == None
      && (forall i :: 0 <= i < |nodes| ==> nodes[i].item == Some(Contents[i]))
      && (|nodes| == 0 ==> sentinel.next == sentinel && sentinel.prev == sentinel)
      && (|nodes| > 0 ==>
            && sentinel.next == nodes[0] && nodes[0].prev == sentinel
            && sentinel.prev == nodes[|nodes| - 1] && nodes[|nodes| - 1].next == sentinel)
      && (forall i, j :: 0 <= i < |nodes| && 0 <= j < |nodes| && j == i + 1 ==>
            nodes[i].next == nodes[j] && nodes[j].prev == nodes[i])
    }

    /** LinkedListDeque(): a sentinel linked to itself. */
    constructor ()
      ensures Valid() && fresh(Repr) && Contents == []
    {
      size := 0;
      var head := new Node.Empty();
      head.prev := head;
      head.next := head;
      sentinel := head;
      Contents, nodes := [], [];
      Repr := {this, head};
    }

    /** addFirst: x becomes item 0 and every other item moves up one. */
    method AddFirst(x: T)
      requires Valid()
      modifies Repr
      ensures Valid() && fresh(Repr - old(Repr))
      ensures Contents == [x] + old(Contents)
    {
      var first := new Node(Some(x), sentinel, sentinel.next);
      sentinel.next.prev := first;
      sentinel.next := first;
      size := size + 1;
      Contents, nodes := [x] + Contents, [first] + nodes;
      Repr := Repr + {first};
    }

    /** addLast: x becomes the last item; the others keep their indices. */
    method AddLast(x: T)
      requires Valid()
      modifies Repr
      ensures Valid() && fresh(Repr - old(Repr))
      ensures Contents == old(Contents) + [x]
    {
      var last := new Node(Some(x), sentinel.prev, sentinel);
      sentinel.prev.next := last;
      sentinel.prev := last;
      size := size + 1;
      Contents, nodes := Contents + [x], nodes + [last];
      Repr := Repr + {last};
    }

    /** isEmpty. */
    function IsEmpty(): (b: bool)
      requires Valid()
      reads this, Repr
      ensures b <==> Contents == []
    {
      size == 0
    }

    /** size. */
    function Size(): (n: int)
      requires Valid()
      reads this, Repr
      ensures n == |Contents|
    {
      size
    }

    /** removeFirst: None on an empty deque, which is left as it is;
        otherwise the first item, which leaves the deque. */
    method RemoveFirst() returns (r: Option<T>)
      requires Valid()
      modifies Repr
      ensures Valid() && Repr == old(Repr)
      ensures old(Contents) == [] ==> r == None && Contents == []
      ensures old(Contents) != [] ==> r == Some(old(Contents)[0]) && Contents == old(Contents)[1..]
    {
      if size == 0 {
        return None;
      }
      assert size > 1 ==> sentinel.next.next == nodes[1];
      var newFirst := sentinel.next.next;
      var oldFirst := sentinel.next;
      newFirst.prev := sentinel;
      sentinel.next := newFirst;
      size := size - 1;
      Contents, nodes := Contents[1..], nodes[1..];
      r := oldFirst.item;
    }

    /** removeLast: None on an empty deque, which is left as it is;
        otherwise the last item, which leaves the deque. */
    method RemoveLast() returns (r: Option<T>)
      requires Valid()
      modifies Repr
      ensures Valid() && Repr == old(Repr)
      ensures old(Contents) == [] ==> r == None && Contents == []
      ensures old(Contents) != [] ==>
        r == Some(old(Contents)[|old(Contents)| - 1]) && Contents == old(Contents)[..|old(Contents)| - 1]
    {
      if size == 0 {
        return None;
      }
      assert size > 1 ==> sentinel.prev.prev == nodes[size - 2];
      r := sentinel.prev.item;
      sentinel.prev.prev.next := sentinel;
      sentinel.prev := sentinel.prev.prev;
      size := size - 1;
      Contents, nodes := Contents[..size], nodes[..size];
    }

    /** get: walks index nodes forward from the first one. */
    method Get(index: int) returns (r: Option<T>)
      requires Valid()
      ensures r == ItemAt(Contents, index)
    {
      if index > size - 1 {
        return None;
      }
      var n := sentinel.next;
      var i := 0;
      while i < index
        invariant 0 <= i <= index || i == 0
        invariant n == NodeAt(i)
      {
        n := n.next;
        i := i + 1;
      }
      r := n.item;
    }

    /** getRecursive: the same lookup by recursion over the nodes. A
        negative index goes round the ring without end. */
    function GetRecursive(index: int): (r: Option<T>)
      requires Valid() && index >= 0
      reads this, Repr
      ensures r == ItemAt(Contents, index)
    {
      if index > size - 1 then None
      else RecursiveHelper(sentinel.next, 0, index)
    }

    /** recurisiveHelper: the item rest nodes after node j. */
    function RecursiveHelper(n: Node<T>, ghost j: int, rest: int): (r: Option<T>)
      requires Valid() && 0 <= j && 0 <= rest && j + rest < |nodes| && n == nodes[j]
      reads this, Repr
      ensures r == Some(Contents[j + rest])
      decreases rest
    {
      if rest == 0 then n.item
      else
        assert n.next == NodeAt(j + 1) == nodes[j + 1];
        RecursiveHelper(n.next, j + 1, rest - 1)
    }

    /** hasNext of the iterator in the second copy of the deque, an
        unfinished stub: no item is ever offered, whatever the deque holds. */
    function StubHasNext(): (b: bool)
      ensures !b
    {
      false
    }

    /** next of that stub iterator: always null. */
    function StubNext(): (r: Option<T>)
      ensures r == None
    {
      None
    }

    /** equals in the second copy, also a stub: o is the argument when it
        is a LinkedListDeque and None for any other object or null; every
        deque is equal to this one, whatever either holds. */
    function StubEquals(o: Option<LinkedListDeque<T>>): (b: bool)
      ensures b <==> o.Some?
    {
      o.Some?
    }
  }

  /** What a caller can rely on: an item added at one end is the first
      to come back out of that end, and the rest is left as it was. */
  method AddRemoveFront<T>(d: LinkedListDeque<T>, x: T) returns (r: Option<T>)
    requires d.Valid()
    modifies d.Repr
    ensures d.Valid() && r == Some(x) && d.Contents == old(d.Contents)
  {
    d.AddFirst(x);
    r := d.RemoveFirst();
  }
}
