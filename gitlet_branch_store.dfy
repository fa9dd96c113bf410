/** The branches directory: one serialized Branch per file, named by the branch name. */
module GitletBranchStore {
  import opened Wrappers
  import opened GitletCommit
  import opened GitletBranch

  class BranchStore {
    /** Branch name to the hash of its head commit. A branch file is always
        written under the branch's current name, so the stored name is the key. */
    var branches: map<Name, Name>

    constructor ()
      ensures branches == map[]
    {
      branches := map[];
    }

    /** The head stored for a branch name, or None when no such file exists. */
    function Lookup(name: Name): (r: Option<Name>)
      reads this
      ensures r.None? <==> name !in branches
      ensures r.Some? ==> r.value == branches[name]
    {
      if name in branches then Some(branches[name]) else None
    }

    /** getBranch: a freshly deserialized Branch, or null. */
    method GetBranch(name: Name) returns (b: Branch?)
      ensures b == null <==> Lookup(name).None?
      ensures b != null ==> fresh(b) && b.name == name && Lookup(name) == Some(b.head)
    {
      if name in branches {
        b := new Branch(name, branches[name]);
      } else {
        b := null;
      }
    }

    function ContainsBranch(name: Name): (r: bool)
      reads this
      ensures r <==> Lookup(name).Some?
    {
      name in branches
    }

    /** saveBranch: writes b under its current name, replacing any earlier file. */
    method SaveBranch(b: Branch)
      modifies this
      ensures branches == old(branches)[b.name := b.head]
      ensures Lookup(b.name) == Some(b.head)
    {
      branches := branches[b.name := b.head];
    }

    /** removeBranch: deletes the file named by b, if it exists; other branches stay. */
    method RemoveBranch(b: Branch)
      modifies this
      ensures branches == old(branches) - {b.name}
      ensures Lookup(b.name).None?
      ensures forall n :: n != b.name ==> Lookup(n) == old(Lookup(n))
    {
      branches := branches - {b.name};
    }

    /** allBranches: one freshly read Branch per branch file, in listing order. */
    method AllBranches() returns (r: seq<Branch>)
      ensures |r| == |branches|
      ensures forall i :: 0 <= i < |r| ==> fresh(r[i])
      ensures forall i :: 0 <= i < |r| ==> r[i].name in branches && branches[r[i].name] == r[i].head
      ensures forall n :: n in branches ==> exists i :: 0 <= i < |r| && r[i].name == n
    {
      var names := SortedNames(branches.Keys);
      SortedNamesLength(branches.Keys);
      r := ReadBranches(names, branches);
      forall n | n in branches ensures exists i :: 0 <= i < |r| && r[i].name == n {
        var i :| 0 <= i < |names| && names[i] == n;
        assert r[i].name == n;
      }
    }
  }

  /** Reads the branch file of each listed name, in order. */
  method ReadBranches(names: seq<Name>, branches: map<Name, Name>) returns (r: seq<Branch>)
    requires forall n :: n in names ==> n in branches
    ensures |r| == |names|
    ensures forall i :: 0 <= i < |r| ==> fresh(r[i])
    ensures forall i :: 0 <= i < |r| ==> r[i].name == names[i] && r[i].head == branches[names[i]]
  {
    r := [];
    for i := 0 to |names|
      invariant |r| == i
      invariant forall j :: 0 <= j < i ==> fresh(r[j])
      invariant forall j :: 0 <= j < i ==> r[j].name == names[j] && r[j].head == branches[names[j]]
    {
      var b := new Branch(names[i], branches[names[i]]);
      r := r + [b];
    }
  }
}
