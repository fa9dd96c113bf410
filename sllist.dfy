/** A singly linked list behind a sentinel node. The sentinel's item is
    Java's null, None here; the items of the list are in the nodes after
    it. */
module SList {
  import opened Wrappers

  class IntNode<Item> {
    var item: Option<Item>
    var next: IntNode?<Item>

    constructor (i: Option<Item>, n: IntNode?<Item>)
      ensures item == i && next == n
    {
      item, next := i, n;
    }
  }

  class SLList<Item> {
    /** The items from first to last. */
    ghost var Contents: seq<Item>
    /** The nodes after the sentinel, in order. */
    ghost var nodes: seq<IntNode<Item>>
    ghost var Repr: set<object>

    var sentinel: IntNode<Item>
    var size: int

    /** The first item, if any, is at sentinel.next; each node links to
        the next one and the last to null; size counts the nodes after
        the sentinel. */
    ghost predicate Valid()
      reads this, Repr
      ensures Valid() ==> this in Repr
    {
      && this in Repr && sentinel in Repr
      && |nodes| == |Contents| == size
      && (forall i :: 0 <= i < |nodes| ==> nodes[i] in Repr && nodes[i] != sentinel)
      && (forall i, j :: 0 <= i < j < |nodes| ==> nodes[i] != nodes[j])
      && sentinel.item == None
      && (forall i :: 0 <= i < |nodes| ==> nodes[i].item == Some(Contents[i]))
      && (|nodes| == 0 ==> sentinel.next == null)
      && (|nodes| > 0 ==> sentinel.next == nodes[0] && nodes[|nodes| - 1].next == null)
      && (forall i, j :: 0 <= i < |nodes| && 0 <= j < |nodes| && j == i + 1 ==> nodes[i].next == nodes[j])
    }

    /** The node k steps after the sentinel, the sentinel itself for k = 0. */
    ghost function NodeAt(k: int): IntNode<Item>
      reads this
    {
      if 1 <= k <= |nodes| then nodes[k - 1] else sentinel
    }

    /** SLList(): the empty list. */
    constructor ()
      ensures Valid() && fresh(Repr) && Contents == []
    {
      sentinel := new IntNode(None, null);
      size := 0;
      Contents, nodes := [], [];
      Repr := {this, sentinel};
    }

    /** SLList(x): the list holding x alone. */
    constructor Singleton(x: Item)
      ensures Valid() && fresh(Repr) && Contents == [x]
    {
      var s := new IntNode(None, null);
      var n := new IntNode(Some(x), null);
      s.next := n;
      sentinel := s;
      size := 1;
      Contents, nodes := [x], [n];
      Repr := {this, s, n};
    }

    /** addFirst: x goes in front of the other items. */
    method AddFirst(x: Item)
      requires Valid()
      modifies Repr
      ensures Valid() && fresh(Repr - old(Repr))
      ensures Contents == [x] + old(Contents)
    {
      var n := new IntNode(Some(x), sentinel.next);
      sentinel.next := n;
      size := size + 1;
      Contents, nodes := [x] + Contents, [n] + nodes;
      Repr := Repr + {n};
    }

    /** getFirst: the first item. On an empty list sentinel.next is null
        and the Java method throws NullPointerException. */
    function GetFirst(): (x: Item)
      requires Valid() && Contents != []
      reads this, Repr
      ensures x == Contents[0]
    {
      sentinel.next.item.value
    }

    /** The walk to the end of the list: from the sentinel, follow next
        until it is null. */
    method LastNode() returns (p: IntNode<Item>, ghost k: int)
      requires Valid()
      ensures k == |nodes| && p == NodeAt(k)
    {
      p := sentinel;
      k := 0;
      while p.next != null
        invariant 0 <= k <= |nodes| && p == NodeAt(k)
        invariant p.next == if k < |nodes| then nodes[k] else null
        decreases |nodes| - k
      {
        p := p.next;
        k := k + 1;
        assert k < |nodes| ==> nodes[k - 1].next == nodes[k];
      }
    }

    /** addLast: x goes after every other item, which keep their places. */
    method AddLast(x: Item)
      requires Valid()
      modifies Repr
      ensures Valid() && fresh(Repr - old(Repr))
      ensures Contents == old(Contents) + [x]
    {
      var p, k := LastNode();
      size := size + 1;
      var n := new IntNode(Some(x), null);
      p.next := n;
      Contents, nodes := Contents + [x], nodes + [n];
      Repr := Repr + {n};
    }

    /** getLast: the last item, or the sentinel's null item on an empty
        list. */
    method GetLast() returns (x: Option<Item>)
      requires Valid()
      ensures Contents == [] ==> x == None
      ensures Contents != [] ==> x == Some(Contents[|Contents| - 1])
    {
      var p, k := LastNode();
      x := p.item;
    }

    /** size. */
    function Size(): (n: int)
      requires Valid()
      reads this, Repr
      ensures n == |Contents|
    {
      size
    }
  }
}
