/** The HEAD file: the name of the current branch, and nothing else. */
module GitletHead {
  import opened GitletBranch

  class Head {
    /** The HEAD file's contents; the file starts out empty. */
    var text: string

    constructor ()
      ensures text == ""
    {
      text := "";
    }

    /** get: reads the stored branch name. */
    function Get(): (r: string)
      reads this
      ensures r == text
    {
      text
    }

    /** set: overwrites HEAD with the branch's name; the last writer wins. */
    method Set(b: Branch)
      modifies this
      ensures text == b.name && Get() == b.GetName()
    {
      text := b.name;
    }
  }
}
