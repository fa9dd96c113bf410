/** A branch: a mutable name and the hash of the commit it points to. */
module GitletBranch {
  import opened GitletCommit

  class Branch {
    var name: Name
    /** Hash of the commit this branch points to. */
    var head: Name

    constructor (name: Name, head: Name)
      ensures this.name == name && this.head == head
    {
      this.name := name;
      this.head := head;
    }

    function GetName(): (r: Name)
      reads this
      ensures r == name
    {
      name
    }

    function GetHead(): (r: Name)
      reads this
      ensures r == head
    {
      head
    }

    /** setName changes the name and nothing else. */
    method SetName(name: Name)
      modifies this
      ensures this.name == name && head == old(head)
    {
      this.name := name;
    }

    /** setHead moves the branch and leaves its name alone. */
    method SetHead(head: Name)
      modifies this
      ensures this.head == head && name == old(name)
    {
      this.head := head;
    }
  }
}
