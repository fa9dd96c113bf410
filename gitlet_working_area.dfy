/** A directory of plain files, as a map from file name to contents. */
module GitletWorkingArea {
  import opened Wrappers
  import opened GitletCommit

  class WorkingArea {
    var files: map<Name, string>

    constructor (files: map<Name, string>)
      ensures this.files == files
    {
      this.files := files;
    }

    /** getFile: the file's contents, or None when no such file exists. */
    function GetFile(name: Name): (r: Option<string>)
      reads this
      ensures r.None? <==> name !in files
      ensures r.Some? ==> r.value == files[name]
    {
      if name in files then Some(files[name]) else None
    }

    /** saveFile: the file now exists with exactly these contents. */
    method SaveFile(contents: string, name: Name)
      modifies this
      ensures files == old(files)[name := contents]
      ensures GetFile(name) == Some(contents)
    {
      files := files[name := contents];
    }

    /** deleteFile: false when the file is absent; afterwards it is gone. */
    method DeleteFile(name: Name) returns (deleted: bool)
      modifies this
      ensures deleted <==> old(GetFile(name)).Some?
      ensures files == old(files) - {name}
      ensures GetFile(name).None?
    {
      deleted := name in files;
      files := files - {name};
    }

    /** allFiles (and plainFilenamesIn): one name per plain file, in listing order. */
    function AllFiles(): (r: seq<Name>)
      reads this
      ensures forall n :: n in r <==> n in files
    {
      SortedNames(files.Keys)
    }

    /** Deletes every listed file, one at a time. */
    method DeleteAll(names: seq<Name>)
      modifies this
      ensures files == map n | n in old(files) && n !in names :: old(files)[n]
    {
      for i := 0 to |names|
        invariant files == map n | n in old(files) && n !in names[..i] :: old(files)[n]
      {
        var _ := DeleteFile(names[i]);
        assert names[..i + 1] == names[..i] + [names[i]];
      }
      assert names[..|names|] == names;
    }
  }
}
