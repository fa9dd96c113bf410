/** The recursive int list of the IntList lab: a node holds first and a
    reference to the rest of the list, null at the end. Only acyclic
    lists are modelled; Valid() says so through shrinking footprints. */
module IntLists {
  import opened Wrappers
  import opened JavaText

  /** toString of a non-empty list of values: the numbers joined by
      " -> ". */
  function Joined(xs: seq<int>): (s: string)
    requires xs != []
    decreases |xs|
  {
    if |xs| == 1 then IntString(xs[0]) else IntString(xs[0]) + " -> " + Joined(xs[1..])
  }

  class IntList {
    var first: int
    var rest: IntList?
    /** The values from this node to the end. */
    ghost var Contents: seq<int>
    ghost var Repr: set<object>

    ghost predicate Valid()
      reads this, Repr
      decreases Repr
    {
      && this in Repr && Contents != [] && Contents[0] == first
      && (rest == null ==> Contents == [first])
      && (rest != null ==>
            && rest in Repr && rest.Repr <= Repr && this !in rest.Repr
            && rest.Valid() && Contents == [first] + rest.Contents)
    }

    /** IntList(f, r). */
    constructor (f: int, r: IntList?)
      requires r != null ==> r.Valid()
      ensures Valid() && first == f && rest == r
      ensures Contents == [f] + (if r == null then [] else r.Contents)
      ensures Repr == {this} + (if r == null then {} else r.Repr)
    {
      first, rest := f, r;
      Contents := [f] + (if r == null then [] else r.Contents);
      Repr := {this} + (if r == null then {} else r.Repr);
    }

    /** size, by recursion: the number of values in the list. */
    function Size(): (n: int)
      requires Valid()
      reads Repr
      ensures n == |Contents| && n >= 1
      decreases Repr
    {
      if rest == null then 1 else 1 + rest.Size()
    }

    /** iterativeSize: counts the nodes with a loop; it agrees with Size. */
    method IterativeSize() returns (totalSize: int)
      requires Valid()
      ensures totalSize == |Contents| && totalSize == Size()
    {
      var p: IntList? := this;
      totalSize := 0;
      while p != null
        invariant p != null ==> p.Valid() && p.Repr <= Repr && totalSize + |p.Contents| == |Contents|
        invariant p == null ==> totalSize == |Contents|
        decreases if p == null then {} else p.Repr
      {
        totalSize := totalSize + 1;
        p := p.rest;
      }
    }

    /** get: the value at index i. An index outside the list, past the end
        or negative (each step lowers it further, so it never meets 0),
        reaches a null rest, where Java throws NullPointerException: None. */
    function Get(i: int): (v: Option<int>)
      requires Valid()
      reads Repr
      ensures v.Some? <==> 0 <= i < |Contents|
      ensures v.Some? ==> v.value == Contents[i]
      decreases Repr
    {
      if i == 0 then Some(first) else if rest == null then None else rest.Get(i - 1)
    }

    /** toString: the values joined by " -> ". */
    function ToString(): (s: string)
      requires Valid()
      reads Repr
      ensures s == Joined(Contents)
      decreases Repr
    {
      if rest == null then IntString(first) else IntString(first) + " -> " + rest.ToString()
    }
  }

  /** of(a...): null for no values, otherwise a fresh list holding the
      values in order. */
  method Of(argList: seq<int>) returns (l: IntList?)
    ensures argList == [] <==> l == null
    ensures l != null ==> l.Valid() && l.Contents == argList && fresh(l.Repr)
    decreases |argList|
  {
    if |argList| == 0 {
      return null;
    }
    var restList := argList[1..];
    var r := Of(restList);
    l := new IntList(argList[0], r);
  }
}
