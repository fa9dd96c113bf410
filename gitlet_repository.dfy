/** The gitlet commands. Each command checks its preconditions in order and
    fails with the exact message the command prints, changing nothing;
    otherwise it updates the stores step by step. */
module GitletRepository {
  import opened Wrappers
  import opened GitletCommit
  import opened GitletCommitStore
  import opened GitletBlobStore
  import opened GitletStagingArea
  import opened GitletBranch
  import opened GitletBranchStore
  import opened GitletHead
  import opened GitletWorkingArea

  const ALREADY_EXISTS := "A Gitlet version-control system already exists in the current directory."
  const NO_SUCH_FILE := "File does not exist."
  const EMPTY_MESSAGE := "Please enter a commit message."
  const NOTHING_STAGED := "No changes added to the commit."
  const NO_REASON_TO_REMOVE := "No reason to remove the file."
  const NO_SUCH_COMMIT := "No commit with that id exists."
  const NOT_IN_COMMIT := "File does not exist in that commit."
  const ALREADY_ON_BRANCH := "No need to checkout the current branch."
  const NO_SUCH_BRANCH := "No such branch exists."
  const UNTRACKED_IN_WAY := "There is an untracked file in the way; delete it, or add and commit it first."
  const BRANCH_EXISTS := "A branch with that name already exists"
  const REMOVE_CURRENT_BRANCH := "Cannot remove the current branch."
  const BRANCH_MISSING := "A branch with that name does not exist."
  const RESET_NO_SUCH_COMMIT := "No targetCommit with that id exists."

  const INITIAL_MESSAGE := "initial commit"
  const MASTER: Name := "master"

  /** The root commit: the initial message, the epoch timestamp, no parent
      and an empty manifest. */
  function RootCommit(epoch: Timestamp, sha1: Sha1): Commit {
    NewCommit(INITIAL_MESSAGE, Some(epoch), epoch, None, None, None, sha1)
  }

  /** The name-to-blob map of the files staged for addition. */
  function StagedHashes(addition: map<Name, string>, sha1: Sha1): map<Name, Name> {
    map n | n in addition :: sha1([addition[n]])
  }

  /** The manifest a commit records: the parent's manifest, overridden by
      the hash of each file staged for addition (putAll), minus each file
      staged for removal. */
  function NewManifest(parent: map<Name, Name>, addition: map<Name, string>,
                       removal: map<Name, string>, sha1: Sha1): map<Name, Name>
  {
    (parent + StagedHashes(addition, sha1)) - removal.Keys
  }

  /** A name is tracked by the new commit iff it was tracked by the parent or
      staged for addition, and is not staged for removal; a staged file maps
      to the hash of its staged contents, any other to the parent's blob. */
  lemma NewManifestEntries(parent: map<Name, Name>, addition: map<Name, string>,
                           removal: map<Name, string>, sha1: Sha1)
    ensures var m := NewManifest(parent, addition, removal, sha1);
      && (forall f :: f in m <==> (f in parent || f in addition) && f !in removal)
      && (forall f :: f in m && f in addition ==> m[f] == sha1([addition[f]]))
      && (forall f :: f in m && f !in addition ==> m[f] == parent[f])
  {
  }

  /** The blob map after saving the contents of each listed staged file, in order. */
  function SaveAll(blobs: map<Name, string>, sha1: Sha1, files: seq<StagedFile>,
                   addition: map<Name, string>): map<Name, string>
    requires forall f :: f in files ==> f.name in addition
    decreases |files|
  {
    if files == [] then blobs
    else Saved(SaveAll(blobs, sha1, files[..|files| - 1], addition), sha1, addition[files[|files| - 1].name])
  }

  lemma SaveAllPrefix(blobs: map<Name, string>, sha1: Sha1, files: seq<StagedFile>,
                      addition: map<Name, string>, i: int)
    requires forall f :: f in files ==> f.name in addition
    requires 0 <= i < |files|
    ensures SaveAll(blobs, sha1, files[..i + 1], addition)
      == Saved(SaveAll(blobs, sha1, files[..i], addition), sha1, addition[files[i].name])
  {
    assert files[..i + 1][..i] == files[..i];
  }

  /** Saving keeps every earlier blob, stores every listed file's contents
      under its hash, and keeps the store content-addressed. */
  lemma {:induction false} SaveAllStores(blobs: map<Name, string>, sha1: Sha1, files: seq<StagedFile>,
                                         addition: map<Name, string>)
    requires forall f :: f in files ==> f.name in addition
    ensures var r := SaveAll(blobs, sha1, files, addition);
      && blobs.Keys <= r.Keys
      && (forall f :: f in files ==> sha1([addition[f.name]]) in r)
      && ((forall h :: h in blobs ==> sha1([blobs[h]]) == h) ==> forall h :: h in r ==> sha1([r[h]]) == h)
    decreases |files|
  {
    if files != [] {
      var init := files[..|files| - 1];
      SaveAllStores(blobs, sha1, init, addition);
      assert forall f :: f in files ==> f in init || f == files[|files| - 1];
    }
  }

  /** The working directory that holds exactly the files of a manifest. */
  function Materialize(manifest: map<Name, Name>, blobs: map<Name, string>): (files: map<Name, string>)
    requires forall f :: f in manifest ==> manifest[f] in blobs
    ensures files.Keys == manifest.Keys
    ensures forall f :: f in files ==> files[f] == blobs[manifest[f]]
  {
    map f | f in manifest :: blobs[manifest[f]]
  }

  class Repository {
    const commitStore: CommitStore
    const branchStore: BranchStore
    const stagingArea: StagingArea
    const head: Head
    const blobStore: BlobStore
    /** The current working directory. */
    const cwd: WorkingArea
    const sha1: Sha1
    /** Whether the .gitlet directory exists. */
    var initialized: bool

    /** HEAD names a stored branch and every branch points at a stored
        commit, so the current commit can always be resolved. */
    ghost predicate HeadResolves()
      reads this, head, branchStore, commitStore
    {
      && initialized
      && commitStore.Valid()
      && head.text != ""
      && head.text in branchStore.branches.Keys
      && (forall b :: b in branchStore.branches ==> branchStore.branches[b] in commitStore.commits)
    }

    /** Every blob a stored commit tracks is in the blob store. */
    ghost predicate BlobsTracked()
      reads commitStore, blobStore
    {
      forall h, f :: h in commitStore.commits && f in commitStore.commits[h].trackedFiles ==>
        commitStore.commits[h].trackedFiles[f] in blobStore.blobs
    }

    /** The stores agree on the hash function and are each consistent. */
    ghost predicate StoresAgree()
      reads this, commitStore, blobStore
    {
      blobStore.sha1 == sha1 && commitStore.Valid() && blobStore.Valid()
    }

    /** After init: the current commit resolves, every tracked blob is
        stored, and no name is staged both for addition and for removal. */
    ghost predicate Running()
      reads this, commitStore, branchStore, stagingArea, head, blobStore
    {
      && HeadResolves()
      && BlobsTracked()
      && (forall n :: n in stagingArea.addition ==> n !in stagingArea.removal)
    }

    /** Before init every store is empty. */
    ghost predicate Pristine()
      reads commitStore, branchStore, stagingArea, head, blobStore
    {
      && commitStore.commits == map[]
      && branchStore.branches == map[]
      && blobStore.blobs == map[]
      && stagingArea.addition == map[]
      && stagingArea.removal == map[]
      && head.text == ""
    }

    /** The repository invariant. */
    ghost predicate Valid()
      reads this, commitStore, branchStore, stagingArea, head, blobStore
    {
      StoresAgree() && (initialized ==> Running()) && (!initialized ==> Pristine())
    }

    constructor (sha1: Sha1, files: map<Name, string>)
      ensures Valid() && !initialized && cwd.files == files && this.sha1 == sha1
    {
      commitStore := new CommitStore();
      branchStore := new BranchStore();
      stagingArea := new StagingArea();
      head := new Head();
      blobStore := new BlobStore(sha1);
      cwd := new WorkingArea(files);
      this.sha1 := sha1;
      initialized := false;
    }

    /** The branch HEAD names. */
    function CurrentBranchName(): (n: Name)
      requires HeadResolves()
      reads this, head, branchStore, commitStore
      ensures n in branchStore.branches
    {
      head.Get()
    }

    /** The hash the current branch points at. */
    function CurrentHead(): (h: Name)
      requires HeadResolves()
      reads this, head, branchStore, commitStore
      ensures h in commitStore.commits
    {
      branchStore.branches[CurrentBranchName()]
    }

    /** getCurrentCommit: HEAD is re-resolved through the branch store and
        the head hash names a stored commit (lemma CurrentCommitById: the
        id lookup takes its exact-match branch). */
    function GetCurrentCommit(): (c: Commit)
      requires HeadResolves()
      reads this, head, branchStore, commitStore
      ensures c in commitStore.commits.Values && c.hash == CurrentHead()
    {
      commitStore.commits[CurrentHead()]
    }

    lemma CurrentCommitById()
      requires HeadResolves()
      ensures commitStore.GetCommitByHash(Some(CurrentHead())) == Some(GetCurrentCommit())
    {
    }

    /** getCurrentBranch: a fresh copy of the branch HEAD names. */
    method GetCurrentBranch() returns (b: Branch)
      requires HeadResolves()
      ensures fresh(b) && b.name == CurrentBranchName() && b.head == CurrentHead()
    {
      b := branchStore.GetBranch(head.Get());
    }

    /** A manifest's blobs are all stored. */
    ghost predicate Stored(manifest: map<Name, Name>)
      reads blobStore
    {
      forall f :: f in manifest ==> manifest[f] in blobStore.blobs
    }

    lemma StoredCommit(c: Commit)
      requires BlobsTracked()
      requires exists h :: h in commitStore.commits && commitStore.commits[h] == c
      ensures Stored(c.trackedFiles)
    {
      var h :| h in commitStore.commits && commitStore.commits[h] == c;
    }

    /** init */
    method Init(epoch: Timestamp) returns (o: Outcome<string>)
      requires Valid() && epoch.millis == 0
      modifies this, commitStore, branchStore, head
      ensures Valid()
      ensures o.Fail? <==> old(initialized)
      ensures o.Fail? ==> (o.error == ALREADY_EXISTS && initialized
        && unchanged(commitStore, branchStore, head))
      ensures o.Pass? ==>
        var root := RootCommit(epoch, sha1);
        && initialized
        && root.message == INITIAL_MESSAGE && root.timestamp.millis == 0
        && root.parent.None? && root.secondaryParent.None? && root.trackedFiles == map[]
        && commitStore.commits == map[root.hash := root]
        && branchStore.branches == map[MASTER := root.hash]
        && CurrentBranchName() == MASTER && GetCurrentCommit() == root
    {
      if initialized {
        return Fail(ALREADY_EXISTS);
      }
      initialized := true;
      var initialCommit := NewCommit(INITIAL_MESSAGE, Some(epoch), epoch, None, None, None, sha1);
      commitStore.SaveCommit(initialCommit);
      var masterBranch := new Branch(MASTER, initialCommit.hash);
      branchStore.SaveBranch(masterBranch);
      head.Set(masterBranch);
      return Pass;
    }

    /** add */
    method Add(fileName: Name) returns (o: Outcome<string>)
      requires Valid() && initialized
      modifies stagingArea
      ensures Valid()
      ensures o.Fail? <==> fileName !in cwd.files
      ensures o.Fail? ==> o.error == NO_SUCH_FILE && unchanged(stagingArea)
      ensures o.Pass? ==>
        var contents := cwd.files[fileName];
        var tracked := GetCurrentCommit().trackedFiles;
        if fileName in tracked && tracked[fileName] == sha1([contents]) then
          stagingArea.addition == old(stagingArea.addition) - {fileName}
          && stagingArea.removal == old(stagingArea.removal)
        else
          stagingArea.addition == old(stagingArea.addition)[fileName := contents]
          && stagingArea.removal == old(stagingArea.removal) - {fileName}
    {
      var workingFile := cwd.GetFile(fileName);
      if workingFile.None? {
        return Fail(NO_SUCH_FILE);
      }
      var workingFileContents := workingFile.value;
      var stagedFile := stagingArea.StageFileForAddition(workingFileContents, fileName);
      var currentCommit := GetCurrentCommit();
      var committedFileHash := if fileName in currentCommit.trackedFiles
        then Some(currentCommit.trackedFiles[fileName]) else None;
      if committedFileHash == Some(sha1([workingFileContents])) {
        stagingArea.Delete(stagedFile);
        return Pass;
      }
      if stagingArea.GetFileForRemoval(fileName).Some? {
        stagingArea.Delete(StagedFile(Removal, fileName));
      }
      return Pass;
    }

    /** commit */
    method Commit(message: string, now: Timestamp) returns (o: Outcome<string>)
      requires Valid() && initialized
      modifies commitStore, branchStore, stagingArea, blobStore
      ensures Valid()
      ensures o.Fail? <==> message == "" || old(stagingArea.IsEmpty())
      ensures o.Fail? ==> (o.error == (if message == "" then EMPTY_MESSAGE else NOTHING_STAGED)
        && unchanged(commitStore, branchStore, stagingArea, blobStore))
      ensures o.Pass? ==> Committed(message, now)
    {
      if message == "" {
        return Fail(EMPTY_MESSAGE);
      }
      if stagingArea.IsEmpty() {
        return Fail(NOTHING_STAGED);
      }
      CommitStaged(message, now);
      return Pass;
    }

    /** What a successful commit does: the new commit (message, current
        time, the old current commit as parent, the parent's manifest
        updated by the staging area) is stored, the current branch moves to
        it, the staged blobs are saved in listing order and the staging area
        is emptied. */
    twostate predicate Committed(message: string, now: Timestamp)
      requires old(HeadResolves()) && HeadResolves()
      reads this, commitStore, branchStore, stagingArea, head, blobStore
    {
      var c := old(NextCommit(message, now));
      && commitStore.commits == old(commitStore.commits)[c.hash := c]
      && branchStore.branches == old(branchStore.branches)[old(CurrentBranchName()) := c.hash]
      && CurrentBranchName() == old(CurrentBranchName())
      && GetCurrentCommit() == c
      && blobStore.blobs == SaveAll(old(blobStore.blobs), sha1, old(stagingArea.GetFilesForAddition()), old(stagingArea.addition))
      && stagingArea.addition == map[] && stagingArea.removal == map[]
    }

    /** The commit command once its checks have passed. */
    method CommitStaged(message: string, now: Timestamp)
      requires Valid() && initialized
      modifies commitStore, branchStore, stagingArea, blobStore
      ensures Valid() && Committed(message, now)
    {
      ghost var branch := CurrentBranchName();
      ghost var added := stagingArea.GetFilesForAddition();
      ghost var staged := stagingArea.addition;
      var newCommit := StageCommit(message, now);
      RecordCommit(newCommit);
      ClearStaging();
      assert branchStore.branches == old(branchStore.branches)[branch := newCommit.hash];
      assert blobStore.blobs == SaveAll(old(blobStore.blobs), sha1, added, staged);
    }

    /** The commit a commit command makes: the message, the current time,
        the current commit as parent and the parent's manifest updated by
        the staging area. */
    ghost function NextCommit(message: string, now: Timestamp): Commit
      requires HeadResolves()
      reads this, head, branchStore, commitStore, stagingArea
    {
      var parent := GetCurrentCommit();
      NewCommit(message, None, now,
        Some(NewManifest(parent.trackedFiles, stagingArea.addition, stagingArea.removal, sha1)),
        Some(parent.hash), None, sha1)
    }

    /** The new commit of a commit command, with its staged blobs saved:
        the message, the current time, the current commit as parent and the
        parent's manifest updated by the staging area. */
    method StageCommit(message: string, now: Timestamp) returns (c: Commit)
      requires HeadResolves() && BlobsTracked() && blobStore.Valid() && blobStore.sha1 == sha1
      modifies blobStore
      ensures c == NextCommit(message, now)
      ensures blobStore.blobs == SaveAll(old(blobStore.blobs), sha1, stagingArea.GetFilesForAddition(), stagingArea.addition)
      ensures blobStore.Valid() && BlobsTracked() && Stored(c.trackedFiles)
    {
      var addedFiles := stagingArea.GetFilesForAddition();
      var removedFiles := stagingArea.GetFilesForRemoval();
      var currentCommit := GetCurrentCommit();
      StoredCommit(currentCommit);
      var trackedFiles := BuildManifest(currentCommit.trackedFiles, addedFiles, removedFiles);
      c := NewCommit(message, None, now, Some(trackedFiles), Some(currentCommit.hash), None, sha1);
    }

    /** Deletes every listed staged file, emptying the staging area. */
    method ClearStaging()
      requires blobStore.sha1 == sha1 && blobStore.Valid() && HeadResolves() && BlobsTracked()
      modifies stagingArea
      ensures stagingArea.addition == map[] && stagingArea.removal == map[]
      ensures Valid()
    {
      var addedFiles := stagingArea.GetFilesForAddition();
      var removedFiles := stagingArea.GetFilesForRemoval();
      ListedAll(addedFiles, Addition, stagingArea.addition);
      ListedAll(removedFiles, Removal, stagingArea.removal);
      stagingArea.DeleteAll(addedFiles);
      stagingArea.DeleteAll(removedFiles);
    }

    /** The commit's manifest: the blobs of the added files are stored, the
        parent's manifest is overridden by them (putAll) and the removed
        names are dropped. */
    method BuildManifest(parent: map<Name, Name>, addedFiles: seq<StagedFile>, removedFiles: seq<StagedFile>)
      returns (trackedFiles: map<Name, Name>)
      requires blobStore.sha1 == sha1
      requires forall f :: f in addedFiles <==> f.stage == Addition && f.name in stagingArea.addition
      requires forall f :: f in removedFiles <==> f.stage == Removal && f.name in stagingArea.removal
      requires Stored(parent) && BlobsTracked()
      modifies blobStore
      ensures trackedFiles == NewManifest(parent, stagingArea.addition, stagingArea.removal, sha1)
      ensures blobStore.blobs == SaveAll(old(blobStore.blobs), sha1, addedFiles, stagingArea.addition)
      ensures old(blobStore.blobs).Keys <= blobStore.blobs.Keys
      ensures old(blobStore.Valid()) ==> blobStore.Valid()
      ensures Stored(trackedFiles) && BlobsTracked()
    {
      var nameToBlob := SaveStagedBlobs(addedFiles);
      StagedNames(addedFiles, Addition, stagingArea.addition);
      SameMap(nameToBlob, StagedHashes(stagingArea.addition, sha1));
      trackedFiles := RemoveAll(parent + nameToBlob, removedFiles);
      StagedNames(removedFiles, Removal, stagingArea.removal);
      SaveAllStores(old(blobStore.blobs), sha1, addedFiles, stagingArea.addition);
      NewManifestEntries(parent, stagingArea.addition, stagingArea.removal, sha1);
      forall f | f in trackedFiles ensures trackedFiles[f] in blobStore.blobs {
        if f in stagingArea.addition {
          assert StagedFile(Addition, f) in addedFiles;
        }
      }
    }

    /** Saves a new commit and moves the current branch to it. */
    method RecordCommit(c: Commit)
      requires HeadResolves() && BlobsTracked() && Stored(c.trackedFiles)
      modifies commitStore, branchStore
      ensures HeadResolves() && BlobsTracked()
      ensures commitStore.commits == old(commitStore.commits)[c.hash := c]
      ensures branchStore.branches == old(branchStore.branches)[old(CurrentBranchName()) := c.hash]
      ensures CurrentBranchName() == old(CurrentBranchName()) && CurrentHead() == c.hash
    {
      commitStore.SaveCommit(c);
      SetCurrentCommit(c.hash);
    }

    /** setCurrentCommit: moves the current branch to the given commit. */
    method SetCurrentCommit(commitHash: Name)
      requires HeadResolves()
      modifies branchStore
      ensures branchStore.branches == old(branchStore.branches)[old(CurrentBranchName()) := commitHash]
    {
      var currentBranch := GetCurrentBranch();
      currentBranch.SetHead(commitHash);
      branchStore.SaveBranch(currentBranch);
    }

    /** Stores the contents of each listed file staged for addition as a
        blob, in order, and returns the name-to-blob map. */
    method SaveStagedBlobs(addedFiles: seq<StagedFile>) returns (nameToBlob: map<Name, Name>)
      requires blobStore.sha1 == sha1
      requires forall f :: f in addedFiles ==> f.name in stagingArea.addition
      modifies blobStore
      ensures forall n :: n in nameToBlob <==> n in NamesOf(addedFiles)
      ensures forall n :: n in nameToBlob ==> nameToBlob[n] == sha1([stagingArea.addition[n]])
      ensures blobStore.blobs == SaveAll(old(blobStore.blobs), sha1, addedFiles, stagingArea.addition)
    {
      nameToBlob := map[];
      for i := 0 to |addedFiles|
        invariant forall n :: n in nameToBlob <==> n in NamesOf(addedFiles[..i])
        invariant forall n :: n in nameToBlob ==> nameToBlob[n] == sha1([stagingArea.addition[n]])
        invariant blobStore.blobs == SaveAll(old(blobStore.blobs), sha1, addedFiles[..i], stagingArea.addition)
      {
        var file := addedFiles[i];
        var storedBlob := blobStore.Save(stagingArea.addition[file.name]);
        nameToBlob := nameToBlob[file.name := storedBlob];
        SaveAllPrefix(old(blobStore.blobs), sha1, addedFiles, stagingArea.addition, i);
        NamesOfPrefix(addedFiles, i);
      }
      assert addedFiles[..|addedFiles|] == addedFiles;
    }

    /** rm */
    method Rm(fileName: Name) returns (o: Outcome<string>)
      requires Valid() && initialized
      modifies stagingArea, cwd
      ensures Valid()
      ensures o.Fail? <==> fileName !in old(stagingArea.addition) && fileName !in GetCurrentCommit().trackedFiles
      ensures o.Fail? ==> o.error == NO_REASON_TO_REMOVE && unchanged(stagingArea, cwd)
      ensures o.Pass? ==> Removed(fileName)
    {
      var stagedForAdditionFile := stagingArea.GetFileForAddition(fileName);
      var trackedFiles := GetCurrentCommit().trackedFiles;
      if stagedForAdditionFile.None? && fileName !in trackedFiles {
        return Fail(NO_REASON_TO_REMOVE);
      }
      RmStaged(fileName);
      return Pass;
    }

    /** What a successful rm does: the name is no longer staged for
        addition; if the current commit tracks it, it is staged for removal
        with the tracked contents and deleted from the working directory,
        otherwise nothing else changes. */
    twostate predicate Removed(fileName: Name)
      requires HeadResolves()
      reads this, head, branchStore, commitStore, stagingArea, blobStore, cwd
    {
      var tracked := GetCurrentCommit().trackedFiles;
      && stagingArea.addition == old(stagingArea.addition) - {fileName}
      && if fileName in tracked then
           && tracked[fileName] in blobStore.blobs
           && stagingArea.removal == old(stagingArea.removal)[fileName := blobStore.blobs[tracked[fileName]]]
           && cwd.files == old(cwd.files) - {fileName}
         else
           && stagingArea.removal == old(stagingArea.removal)
           && cwd.files == old(cwd.files)
    }

    /** The rm command once its check has passed. */
    method RmStaged(fileName: Name)
      requires Valid() && initialized
      modifies stagingArea, cwd
      ensures Valid() && Removed(fileName)
    {
      var stagedForAdditionFile := stagingArea.GetFileForAddition(fileName);
      var currentCommit := GetCurrentCommit();
      var contents: Option<string> := None;
      if fileName in currentCommit.trackedFiles {
        StoredCommit(currentCommit);
        var trackedFile := blobStore.Get(currentCommit.trackedFiles[fileName]);
        contents := Some(trackedFile.value);
      }
      Unstage(fileName, stagedForAdditionFile.Some?, contents);
    }

    /** The staging-area and working-directory updates of rm: drop the
        addition entry, and when the file is tracked stage its contents
        for removal and delete the working copy. */
    method Unstage(fileName: Name, staged: bool, contents: Option<string>)
      requires staged <==> fileName in stagingArea.addition
      requires forall n :: n in stagingArea.addition ==> n !in stagingArea.removal
      modifies stagingArea, cwd
      ensures stagingArea.addition == old(stagingArea.addition) - {fileName}
      ensures contents.Some? ==> stagingArea.removal == old(stagingArea.removal)[fileName := contents.value]
      ensures contents.Some? ==> cwd.files == old(cwd.files) - {fileName}
      ensures contents.None? ==> stagingArea.removal == old(stagingArea.removal) && cwd.files == old(cwd.files)
      ensures forall n :: n in stagingArea.addition ==> n !in stagingArea.removal
    {
      if staged {
        stagingArea.Delete(StagedFile(Addition, fileName));
      }
      if contents.Some? {
        var _ := stagingArea.StageFileForRemoval(contents.value, fileName);
        if cwd.GetFile(fileName).Some? {
          var _ := cwd.DeleteFile(fileName);
        }
      }
    }

    /** checkout -- [file name] for a given commit id (exact or abbreviated). */
    method CheckoutFile(commitId: Name, fileName: Name) returns (o: Outcome<string>)
      requires Valid() && initialized
      modifies cwd
      ensures var c := commitStore.GetCommitByHash(Some(commitId));
        o.Fail? <==> c.None? || fileName !in c.value.trackedFiles
      ensures var c := commitStore.GetCommitByHash(Some(commitId));
        o.Fail? ==> o.error == (if c.None? then NO_SUCH_COMMIT else NOT_IN_COMMIT) && unchanged(cwd)
      ensures var c := commitStore.GetCommitByHash(Some(commitId));
        o.Pass? ==> WroteBlob(c.value, fileName)
    {
      var commit := commitStore.GetCommitByHash(Some(commitId));
      if commit.None? {
        return Fail(NO_SUCH_COMMIT);
      }
      if fileName !in commit.value.trackedFiles {
        return Fail(NOT_IN_COMMIT);
      }
      StoredCommit(commit.value);
      var blob := blobStore.Get(commit.value.trackedFiles[fileName]);
      cwd.SaveFile(blob.value, fileName);
      return Pass;
    }

    /** The working file now holds the blob the commit tracks for it,
        and no other working file changed. */
    twostate predicate WroteBlob(c: Commit, fileName: Name)
      reads blobStore, cwd
    {
      && fileName in c.trackedFiles
      && c.trackedFiles[fileName] in blobStore.blobs
      && cwd.files == old(cwd.files)[fileName := blobStore.blobs[c.trackedFiles[fileName]]]
    }

    /** checkout -- [file name]: the version in the current commit. */
    method CheckoutCurrentFile(fileName: Name) returns (o: Outcome<string>)
      requires Valid() && initialized
      modifies cwd
      ensures o.Fail? <==> fileName !in GetCurrentCommit().trackedFiles
      ensures o.Fail? ==> o.error == NOT_IN_COMMIT && unchanged(cwd)
      ensures o.Pass? ==> WroteBlob(GetCurrentCommit(), fileName)
    {
      o := CheckoutFile(GetCurrentCommit().hash, fileName);
    }

    /** Deletes every working file and every staged file, then writes out
        the files of a stored manifest. */
    method CheckoutManifest(manifest: map<Name, Name>)
      requires Stored(manifest)
      modifies cwd, stagingArea
      ensures cwd.files == Materialize(manifest, blobStore.blobs)
      ensures stagingArea.addition == map[] && stagingArea.removal == map[]
    {
      var workingFiles := cwd.AllFiles();
      cwd.DeleteAll(workingFiles);
      assert cwd.files == map[] by {
        assert forall n :: n in old(cwd.files) ==> n in workingFiles;
      }
      DeleteStagedFiles();
      WriteManifest(manifest);
    }

    /** stagingArea.getFiles().forEach(File::delete): empties both stages. */
    method DeleteStagedFiles()
      modifies stagingArea
      ensures stagingArea.addition == map[] && stagingArea.removal == map[]
    {
      var files := stagingArea.GetFiles();
      forall n | n in stagingArea.addition ensures n in NamesIn(Addition, files) {
        assert StagedFile(Addition, n) in files;
      }
      forall n | n in stagingArea.removal ensures n in NamesIn(Removal, files) {
        assert StagedFile(Removal, n) in files;
      }
      stagingArea.DeleteAll(files);
      assert stagingArea.addition.Keys == {};
      assert stagingArea.removal.Keys == {};
    }

    /** Writes each file of a stored manifest into the working directory. */
    method WriteManifest(manifest: map<Name, Name>)
      requires Stored(manifest)
      modifies cwd
      ensures cwd.files == old(cwd.files) + Materialize(manifest, blobStore.blobs)
    {
      var names := SortedNames(manifest.Keys);
      for i := 0 to |names|
        invariant cwd.files == WriteAll(old(cwd.files), names[..i], manifest, blobStore.blobs)
      {
        var blob := blobStore.Get(manifest[names[i]]);
        cwd.SaveFile(blob.value, names[i]);
        assert names[..i + 1][..i] == names[..i];
      }
      assert names[..|names|] == names;
      WriteAllEntries(old(cwd.files), names, manifest, blobStore.blobs);
      SameMap(cwd.files, old(cwd.files) + Materialize(manifest, blobStore.blobs));
    }
    /** The working directory holds exactly the files of the stored commit
        h, and nothing is staged. */
    ghost predicate HoldsCommit(h: Name)
      requires h in commitStore.commits && BlobsTracked()
      reads commitStore, blobStore, cwd, stagingArea
    {
      && cwd.files == Materialize(commitStore.commits[h].trackedFiles, blobStore.blobs)
      && stagingArea.addition == map[] && stagingArea.removal == map[]
    }

    /** Some working file is not tracked by the manifest. */
    ghost predicate UntrackedInWay(tracked: map<Name, Name>)
      reads cwd
    {
      exists f :: f in cwd.files && f !in tracked
    }

    /** checkout [branch name] */
    method CheckoutBranch(targetBranchName: Name) returns (o: Outcome<string>)
      requires Valid() && initialized
      modifies head, stagingArea, cwd
      ensures Valid()
      ensures o.Fail? <==> (targetBranchName == old(CurrentBranchName())
        || targetBranchName !in branchStore.branches
        || old(UntrackedInWay(GetCurrentCommit().trackedFiles)))
      ensures o.Fail? ==> (unchanged(head, stagingArea, cwd)
        && o.error == (if targetBranchName == CurrentBranchName() then ALREADY_ON_BRANCH
                       else if targetBranchName !in branchStore.branches then NO_SUCH_BRANCH
                       else UNTRACKED_IN_WAY))
      ensures o.Pass? ==> CurrentBranchName() == targetBranchName && HoldsCommit(CurrentHead())
    {
      var currentBranch := GetCurrentBranch();
      if targetBranchName == currentBranch.name {
        return Fail(ALREADY_ON_BRANCH);
      }
      var targetBranch := branchStore.GetBranch(targetBranchName);
      if targetBranch == null {
        return Fail(NO_SUCH_BRANCH);
      }
      var currentCommit := GetCurrentCommit();
      var workingFiles := cwd.AllFiles();
      if exists i :: 0 <= i < |workingFiles| && workingFiles[i] !in currentCommit.trackedFiles {
        return Fail(UNTRACKED_IN_WAY);
      }
      SwitchBranch(targetBranch);
      return Pass;
    }

    /** checkout [branch name] once its checks have passed. */
    method SwitchBranch(targetBranch: Branch)
      requires Valid() && initialized
      requires targetBranch.name in branchStore.branches
      requires branchStore.branches[targetBranch.name] == targetBranch.head
      modifies head, stagingArea, cwd
      ensures Valid() && CurrentBranchName() == targetBranch.name && HoldsCommit(CurrentHead())
    {
      var targetCommit := commitStore.GetCommitByHash(Some(targetBranch.head));
      StoredCommit(targetCommit.value);
      CheckoutManifest(targetCommit.value.trackedFiles);
      head.Set(targetBranch);
    }

    /** branch: a new branch at the current head; HEAD stays where it is. */
    method CreateBranch(branchName: Name) returns (o: Outcome<string>)
      requires Valid() && initialized
      modifies branchStore
      ensures Valid()
      ensures CurrentBranchName() == old(CurrentBranchName()) && CurrentHead() == old(CurrentHead())
      ensures o.Fail? <==> branchName in old(branchStore.branches)
      ensures o.Fail? ==> o.error == BRANCH_EXISTS && unchanged(branchStore)
      ensures o.Pass? ==> branchStore.branches == old(branchStore.branches)[branchName := CurrentHead()]
    {
      var existing := branchStore.GetBranch(branchName);
      if existing != null {
        return Fail(BRANCH_EXISTS);
      }
      var currentBranch := GetCurrentBranch();
      var branch := new Branch(branchName, currentBranch.head);
      branchStore.SaveBranch(branch);
      return Pass;
    }

    /** rm-branch: removes a branch other than the current one. */
    method RmBranch(branchName: Name) returns (o: Outcome<string>)
      requires Valid() && initialized
      modifies branchStore
      ensures Valid()
      ensures CurrentBranchName() == old(CurrentBranchName()) && CurrentHead() == old(CurrentHead())
      ensures o.Fail? <==> branchName == CurrentBranchName() || branchName !in old(branchStore.branches)
      ensures o.Fail? ==> (unchanged(branchStore)
        && o.error == (if branchName == CurrentBranchName() then REMOVE_CURRENT_BRANCH else BRANCH_MISSING))
      ensures o.Pass? ==> branchStore.branches == old(branchStore.branches) - {branchName}
    {
      var currentBranch := GetCurrentBranch();
      if currentBranch.name == branchName {
        return Fail(REMOVE_CURRENT_BRANCH);
      }
      var branch := branchStore.GetBranch(branchName);
      if branch == null {
        return Fail(BRANCH_MISSING);
      }
      branchStore.RemoveBranch(branch);
      return Pass;
    }

    /** reset [commit id]: the untracked-file check is made against the
        target commit's manifest. */
    method Reset(commitHash: Name) returns (o: Outcome<string>)
      requires Valid() && initialized
      modifies branchStore, stagingArea, cwd
      ensures Valid()
      ensures var c := commitStore.GetCommitByHash(Some(commitHash));
        o.Fail? <==> c.None? || old(UntrackedInWay(c.value.trackedFiles))
      ensures var c := commitStore.GetCommitByHash(Some(commitHash));
        o.Fail? ==> (unchanged(branchStore, stagingArea, cwd)
          && o.error == (if c.None? then RESET_NO_SUCH_COMMIT else UNTRACKED_IN_WAY))
      ensures var c := commitStore.GetCommitByHash(Some(commitHash));
        o.Pass? ==> (c.Some? && CurrentBranchName() == old(CurrentBranchName())
          && branchStore.branches == old(branchStore.branches)[CurrentBranchName() := c.value.hash]
          && HoldsCommit(CurrentHead()))
    {
      var targetCommit := commitStore.GetCommitByHash(Some(commitHash));
      if targetCommit.None? {
        return Fail(RESET_NO_SUCH_COMMIT);
      }
      var workingFiles := cwd.AllFiles();
      if exists i :: 0 <= i < |workingFiles| && workingFiles[i] !in targetCommit.value.trackedFiles {
        return Fail(UNTRACKED_IN_WAY);
      }
      ResetTo(targetCommit.value);
      return Pass;
    }

    /** reset once its checks have passed. */
    method ResetTo(targetCommit: Commit)
      requires Valid() && initialized
      requires targetCommit.hash in commitStore.commits
      requires commitStore.commits[targetCommit.hash] == targetCommit
      modifies branchStore, stagingArea, cwd
      ensures Valid() && CurrentBranchName() == old(CurrentBranchName())
      ensures branchStore.branches == old(branchStore.branches)[CurrentBranchName() := targetCommit.hash]
      ensures HoldsCommit(CurrentHead())
    {
      StoredCommit(targetCommit);
      CheckoutManifest(targetCommit.trackedFiles);
      SetCurrentCommit(targetCommit.hash);
    }
  }

  /** The working files after writing the listed manifest entries, in order. */
  function WriteAll(files: map<Name, string>, names: seq<Name>, manifest: map<Name, Name>,
                    blobs: map<Name, string>): map<Name, string>
    requires forall n :: n in manifest ==> manifest[n] in blobs
    requires forall i :: 0 <= i < |names| ==> names[i] in manifest
    decreases |names|
  {
    if names == [] then files
    else
      var last := names[|names| - 1];
      WriteAll(files, names[..|names| - 1], manifest, blobs)[last := blobs[manifest[last]]]
  }

  /** A written name holds its manifest blob; every other file is untouched. */
  lemma {:induction false} WriteAllEntries(files: map<Name, string>, names: seq<Name>,
                                           manifest: map<Name, Name>, blobs: map<Name, string>)
    requires forall n :: n in manifest ==> manifest[n] in blobs
    requires forall i :: 0 <= i < |names| ==> names[i] in manifest
    ensures var r := WriteAll(files, names, manifest, blobs);
      && (forall n :: n in r <==> n in files || n in names)
      && (forall n :: n in r ==> r[n] == if n in names then blobs[manifest[n]] else files[n])
    decreases |names|
  {
    if names != [] {
      var init := names[..|names| - 1];
      WriteAllEntries(files, init, manifest, blobs);
      assert forall n :: n in names <==> n in init || n == names[|names| - 1];
    }
  }

  function NamesOf(files: seq<StagedFile>): set<Name> {
    set f | f in files :: f.name
  }

  lemma NamesOfPrefix(files: seq<StagedFile>, i: int)
    requires 0 <= i < |files|
    ensures NamesOf(files[..i + 1]) == NamesOf(files[..i]) + {files[i].name}
  {
    assert files[..i + 1] == files[..i] + [files[i]];
  }

  /** A listing of one staging directory names exactly its files. */
  lemma StagedNames(files: seq<StagedFile>, stage: Stage, dir: map<Name, string>)
    requires forall f :: f in files <==> f.stage == stage && f.name in dir
    ensures NamesOf(files) == dir.Keys
  {
    forall n | n in dir ensures n in NamesOf(files) {
      assert StagedFile(stage, n) in files;
    }
  }

  /** Deleting every file of a complete listing empties the directory. */
  lemma ListedAll(files: seq<StagedFile>, stage: Stage, dir: map<Name, string>)
    requires forall f :: f in files <==> f.stage == stage && f.name in dir
    ensures dir - NamesIn(stage, files) == map[]
  {
    forall n | n in dir ensures n in NamesIn(stage, files) {
      assert StagedFile(stage, n) in files;
    }
    assert (dir - NamesIn(stage, files)).Keys == {};
  }

  lemma SameMap<K, V>(a: map<K, V>, b: map<K, V>)
    requires forall k :: k in a <==> k in b
    requires forall k :: k in a ==> a[k] == b[k]
    ensures a == b
  {
  }

  /** Map.remove of each listed file's name, in order. */
  function RemoveAll(tracked: map<Name, Name>, files: seq<StagedFile>): (r: map<Name, Name>)
    ensures r == tracked - NamesOf(files)
  {
    if files == [] then tracked
    else
      var r := RemoveAll(tracked - {files[0].name}, files[1..]);
      assert NamesOf(files) == {files[0].name} + NamesOf(files[1..]) by {
        assert forall f :: f in files <==> f == files[0] || f in files[1..];
      }
      r
  }
}
