/** The commits directory: one serialized commit per file, named by its hash. */
module GitletCommitStore {
  import opened Wrappers
  import opened JavaText
  import opened GitletCommit

  class CommitStore {
    /** File name in the commits directory to the commit stored there. */
    var commits: map<Name, Commit>

    /** Every commit is stored under its own hash. */
    ghost predicate Valid()
      reads this
    {
      forall h :: h in commits ==> commits[h].hash == h
    }

    constructor ()
      ensures commits == map[] && Valid()
    {
      commits := map[];
    }

    /** allCommitsStream: the stored commits, in the listing order of their file names. */
    function AllCommits(): (r: seq<Commit>)
      reads this
      ensures |r| == |SortedNames(commits.Keys)|
      ensures forall i :: 0 <= i < |r| ==> r[i] == commits[SortedNames(commits.Keys)[i]]
      ensures forall h :: h in commits ==> commits[h] in r
    {
      ListingCovers(commits);
      InListingOrder(commits)
    }

    /** getCommitByHash: null for a null id; the commit stored under the id
        if there is one; otherwise the first commit, in listing order, whose
        hash starts with the id, or null. An ambiguous prefix is not reported. */
    function GetCommitByHash(id: Option<Name>): (r: Option<Commit>)
      reads this
      ensures id.None? ==> r.None?
      ensures r.Some? ==> exists h :: h in commits && commits[h] == r.value
      ensures id.Some? && id.value in commits ==> r == Some(commits[id.value])
      ensures id.Some? && id.value !in commits ==>
        (r.None? <==> forall c :: c in AllCommits() ==> !StartsWith(c.hash, id.value))
      ensures id.Some? && id.value !in commits && r.Some? ==>
        exists i :: (0 <= i < |AllCommits()| && AllCommits()[i] == r.value
          && StartsWith(r.value.hash, id.value)
          && forall j :: 0 <= j < i ==> !StartsWith(AllCommits()[j].hash, id.value))
    {
      if id.None? then None
      else if id.value in commits then Some(commits[id.value])
      else
        var r := FirstWithPrefix(AllCommits(), id.value);
        if r.Some? then
          ghost var i :| 0 <= i < |AllCommits()| && AllCommits()[i] == r.value;
          assert commits[SortedNames(commits.Keys)[i]] == r.value;
          r
        else r
    }

    /** getCommitsByMessage: the stored commits whose message equals the argument, in listing order. */
    function GetCommitsByMessage(message: string): (r: seq<Commit>)
      reads this
      ensures forall c :: c in r <==> c in commits.Values && c.message == message
      ensures r == WithMessage(AllCommits(), message)
    {
      var r := WithMessage(AllCommits(), message);
      assert forall c :: c in commits.Values ==> c in AllCommits();
      r
    }

    /** saveCommit: writes the commit under its hash, replacing any file of that name. */
    method SaveCommit(c: Commit)
      modifies this
      ensures commits == old(commits)[c.hash := c]
      ensures GetCommitByHash(Some(c.hash)) == Some(c)
      ensures old(Valid()) ==> Valid()
    {
      commits := commits[c.hash := c];
    }
  }

  /** The values of a directory map, in the listing order of their names. */
  function InListingOrder<V>(m: map<Name, V>): (r: seq<V>)
    ensures |r| == |SortedNames(m.Keys)|
    ensures forall i :: 0 <= i < |r| ==> r[i] == m[SortedNames(m.Keys)[i]]
  {
    var names := SortedNames(m.Keys);
    seq(|names|, i requires 0 <= i < |names| => m[names[i]])
  }

  /** Every stored value appears in the listing. */
  lemma ListingCovers<V>(m: map<Name, V>)
    ensures forall h :: h in m ==> m[h] in InListingOrder(m)
  {
    var names, r := SortedNames(m.Keys), InListingOrder(m);
    forall h | h in m ensures m[h] in r {
      var i :| 0 <= i < |names| && names[i] == h;
      assert r[i] == m[h];
    }
  }

  /** Stream.filter(startsWith).findFirst() over a list of commits. */
  function FirstWithPrefix(cs: seq<Commit>, id: string): (r: Option<Commit>)
    ensures r.None? <==> forall c :: c in cs ==> !StartsWith(c.hash, id)
    ensures r.Some? ==> exists i :: (0 <= i < |cs| && cs[i] == r.value && StartsWith(r.value.hash, id)
      && forall j :: 0 <= j < i ==> !StartsWith(cs[j].hash, id))
  {
    if cs == [] then None
    else if StartsWith(cs[0].hash, id) then Some(cs[0])
    else
      var r := FirstWithPrefix(cs[1..], id);
      assert forall c :: c in cs ==> c == cs[0] || c in cs[1..];
      if r.Some? then
        ghost var i :| 0 <= i < |cs[1..]| && cs[1..][i] == r.value && StartsWith(r.value.hash, id)
          && forall j :: 0 <= j < i ==> !StartsWith(cs[1..][j].hash, id);
        assert cs[i + 1] == r.value;
        r
      else r
  }

  /** Stream.filter(message equals).collect() over a list of commits. */
  function WithMessage(cs: seq<Commit>, message: string): (r: seq<Commit>)
    ensures forall c :: c in r <==> c in cs && c.message == message
  {
    if cs == [] then []
    else
      var rest := WithMessage(cs[1..], message);
      assert forall c :: c in cs <==> c == cs[0] || c in cs[1..];
      if cs[0].message == message then [cs[0]] + rest else rest
  }

  /** The filter keeps the order of the list: a commit on its own is kept
      exactly when its message matches, and filtering a concatenation
      filters each part in turn. */
  lemma {:induction false} WithMessageConcat(a: seq<Commit>, b: seq<Commit>, message: string)
    ensures forall c :: WithMessage([c], message) == if c.message == message then [c] else []
    ensures WithMessage(a + b, message) == WithMessage(a, message) + WithMessage(b, message)
  {
    forall c: Commit ensures WithMessage([c], message) == if c.message == message then [c] else [] {
      assert [c][1..] == [];
    }
    if a == [] {
      assert a + b == b;
    } else {
      assert (a + b)[0] == a[0] && (a + b)[1..] == a[1..] + b;
      WithMessageConcat(a[1..], b, message);
    }
  }
}
