/** The blobs directory: file contents stored under the SHA-1 of the contents. */
module GitletBlobStore {
  import opened Wrappers
  import opened GitletCommit

  class BlobStore {
    /** File name in the blobs directory to stored contents. */
    var blobs: map<Name, string>
    const sha1: Sha1

    /** Every blob is stored under the hash of its own contents. */
    ghost predicate Valid()
      reads this
    {
      forall h :: h in blobs ==> sha1([blobs[h]]) == h
    }

    constructor (sha1: Sha1)
      ensures this.sha1 == sha1 && blobs == map[] && Valid()
    {
      this.sha1 := sha1;
      blobs := map[];
    }

    /** The stored contents for hash h, or None when nothing is stored under h. */
    function Get(h: Name): (r: Option<string>)
      reads this
      ensures r.None? <==> h !in blobs
      ensures r.Some? ==> r.value == blobs[h] && (Valid() ==> sha1([r.value]) == h)
    {
      if h in blobs then Some(blobs[h]) else None
    }

    /** Stores contents under sha1(contents) and returns that name. */
    method Save(contents: string) returns (h: Name)
      modifies this
      ensures h == sha1([contents])
      ensures blobs == old(blobs)[h := contents]
      ensures Get(h) == Some(contents)
      ensures old(Valid()) ==> Valid()
    {
      h := sha1([contents]);
      blobs := blobs[h := contents];
    }

    function Contains(h: Name): (b: bool)
      reads this
      ensures b <==> Get(h).Some?
    {
      h in blobs
    }
  }

  /** The blob map after saving contents: a pure statement of BlobStore.Save. */
  function Saved(blobs: map<Name, string>, sha1: Sha1, contents: string): map<Name, string> {
    blobs[sha1([contents]) := contents]
  }

  /** A save adds at most one new blob: the one named by the contents' hash. */
  lemma SaveAddsAtMostOne(blobs: map<Name, string>, sha1: Sha1, contents: string)
    ensures Saved(blobs, sha1, contents).Keys - blobs.Keys <= {sha1([contents])}
    ensures |Saved(blobs, sha1, contents).Keys - blobs.Keys| <= 1
  {
    var s := Saved(blobs, sha1, contents);
    SubsetCard(s.Keys - blobs.Keys, {sha1([contents])});
  }

  lemma SubsetCard<T>(a: set<T>, b: set<T>)
    requires a <= b
    ensures |a| <= |b|
  {
    assert b == a + (b - a);
  }
}
