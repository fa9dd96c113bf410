/** The staging area: an addition directory and a removal directory, each
    holding file contents under the staged file's name. */
module GitletStagingArea {
  import opened Wrappers
  import opened GitletCommit

  /** Which of the two staging directories a staged file lives in. */
  datatype Stage = Addition | Removal

  /** A java.io.File inside one of the staging directories. */
  datatype StagedFile = StagedFile(stage: Stage, name: Name)

  class StagingArea {
    var addition: map<Name, string>
    var removal: map<Name, string>

    constructor ()
      ensures addition == map[] && removal == map[]
    {
      addition := map[];
      removal := map[];
    }

    /** stageFileForAddition(file, newName): the addition directory now holds
        the contents under newName; the removal directory is untouched. */
    method StageFileForAddition(contents: string, newName: Name) returns (f: StagedFile)
      modifies this
      ensures addition == old(addition)[newName := contents] && removal == old(removal)
      ensures GetFileForAddition(newName) == Some(contents)
      ensures f == StagedFile(Addition, newName)
    {
      addition := addition[newName := contents];
      f := StagedFile(Addition, newName);
    }

    /** stageFileForRemoval(file, newName), symmetric to StageFileForAddition. */
    method StageFileForRemoval(contents: string, newName: Name) returns (f: StagedFile)
      modifies this
      ensures removal == old(removal)[newName := contents] && addition == old(addition)
      ensures GetFileForRemoval(newName) == Some(contents)
      ensures f == StagedFile(Removal, newName)
    {
      removal := removal[newName := contents];
      f := StagedFile(Removal, newName);
    }

    /** getFileForAddition: the staged contents, or None when the name is not staged for addition. */
    function GetFileForAddition(name: Name): (r: Option<string>)
      reads this
      ensures r.None? <==> name !in addition
      ensures r.Some? ==> r.value == addition[name]
    {
      if name in addition then Some(addition[name]) else None
    }

    function GetFileForRemoval(name: Name): (r: Option<string>)
      reads this
      ensures r.None? <==> name !in removal
      ensures r.Some? ==> r.value == removal[name]
    {
      if name in removal then Some(removal[name]) else None
    }

    /** getFilesForAddition: the addition directory's files in listing order. */
    function GetFilesForAddition(): (r: seq<StagedFile>)
      reads this
      ensures forall f :: f in r <==> f.stage == Addition && f.name in addition
    {
      Listing(Addition, SortedNames(addition.Keys))
    }

    function GetFilesForRemoval(): (r: seq<StagedFile>)
      reads this
      ensures forall f :: f in r <==> f.stage == Removal && f.name in removal
    {
      Listing(Removal, SortedNames(removal.Keys))
    }

    /** getFiles: the files staged for addition followed by those staged for removal. */
    function GetFiles(): (r: seq<StagedFile>)
      reads this
      ensures |r| == |addition| + |removal|
      ensures forall i :: 0 <= i < |addition| ==> r[i].stage == Addition
      ensures forall i :: |addition| <= i < |r| ==> r[i].stage == Removal
      ensures forall f :: f in r <==> (f.stage == Addition && f.name in addition) || (f.stage == Removal && f.name in removal)
    {
      SortedNamesLength(addition.Keys);
      SortedNamesLength(removal.Keys);
      GetFilesForAddition() + GetFilesForRemoval()
    }

    function IsStagedForAddition(name: Name): (b: bool)
      reads this
      ensures b <==> name in addition
    {
      GetFileForAddition(name).Some?
    }

    function IsStagedForRemoval(name: Name): (b: bool)
      reads this
      ensures b <==> name in removal
    {
      GetFileForRemoval(name).Some?
    }

    /** contains: staged in either direction. */
    function Contains(name: Name): (b: bool)
      reads this
      ensures b <==> IsStagedForAddition(name) || IsStagedForRemoval(name)
      ensures b <==> name in addition || name in removal
    {
      IsStagedForAddition(name) || IsStagedForRemoval(name)
    }

    /** isEmpty: getFiles() is empty, that is, nothing is staged either way. */
    function IsEmpty(): (b: bool)
      reads this
      ensures b <==> addition == map[] && removal == map[]
    {
      EmptyMapCard(addition);
      EmptyMapCard(removal);
      |GetFiles()| == 0
    }

    /** File.delete() on a staged file: removes it from its directory. */
    method Delete(f: StagedFile)
      modifies this
      ensures f.stage == Addition ==> addition == old(addition) - {f.name} && removal == old(removal)
      ensures f.stage == Removal ==> removal == old(removal) - {f.name} && addition == old(addition)
    {
      if f.stage == Addition {
        addition := addition - {f.name};
      } else {
        removal := removal - {f.name};
      }
    }

    /** Deletes every file in a listing, as `files.forEach(File::delete)`. */
    method DeleteAll(files: seq<StagedFile>)
      modifies this
      ensures addition == old(addition) - NamesIn(Addition, files)
      ensures removal == old(removal) - NamesIn(Removal, files)
    {
      for i := 0 to |files|
        invariant addition == old(addition) - NamesIn(Addition, files[..i])
        invariant removal == old(removal) - NamesIn(Removal, files[..i])
      {
        Delete(files[i]);
        assert files[..i + 1] == files[..i] + [files[i]];
      }
      assert files[..|files|] == files;
    }
  }

  /** The names of the listed files that live in the given stage. */
  function NamesIn(stage: Stage, files: seq<StagedFile>): set<Name> {
    set f | f in files && f.stage == stage :: f.name
  }

  function Listing(stage: Stage, names: seq<Name>): (r: seq<StagedFile>)
    ensures |r| == |names|
    ensures forall i :: 0 <= i < |r| ==> r[i] == StagedFile(stage, names[i])
    ensures forall f :: f in r <==> f.stage == stage && f.name in names
  {
    var r := seq(|names|, i requires 0 <= i < |names| => StagedFile(stage, names[i]));
    assert forall n :: n in names ==> StagedFile(stage, n) in r by {
      forall n | n in names ensures StagedFile(stage, n) in r {
        var i :| 0 <= i < |names| && names[i] == n;
        assert r[i] == StagedFile(stage, n);
      }
    }
    r
  }

  lemma EmptyMapCard<K, V>(m: map<K, V>)
    ensures |m| == 0 <==> m == map[]
  {
    if |m| == 0 {
      assert m.Keys == {};
    }
  }
}
