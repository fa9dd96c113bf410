# A Dafny model of the CS 61B course skeleton

This project models the parts of a CS 61B course repository that carry
real logic and proves properties of them. The repository holds labs and
four projects:

- **Gitlet** (`proj2/gitlet`), a small version-control system. The
  repository is a `Repository` object over six stores, each a class with
  a map field:
  - commits (hash to commit);
  - blobs (hash to contents);
  - branches (name to head hash);
  - HEAD (a branch name);
  - the staging area (an addition map and a removal map, name to
    contents);
  - the working directory (name to contents).

  The modelled commands are init, add, commit, rm, both forms of
  checkout of a file, checkout of a branch, branch, rm-branch and reset.
  Each command checks its preconditions in the order the source does.
  A failure is an `Outcome` carrying the source's exact message, and it
  leaves the stores as they were. `sha1` is an uninterpreted function:
  a field of the repository and of the blob store.
- **2048** (`proj0/game2048`). There are four pieces:
  - the `Board` class, a 2-D array of tiles seen through a viewing
    perspective;
  - the `Tile` successor objects;
  - the `Side` reorientation arithmetic;
  - the `Model` class with `tilt`, `tileColumn` and the game-over checks.

  `tileColumn`'s row walk is proved against pure reference rules
  (`Game2048Rules`):
  - a column keeps its tiles in order, with gaps dropped;
  - equal tiles that meet merge pairwise from the leading side;
  - the merged tiles are packed against the tilt side.
- **Linked containers**:
  - the sentinel ring deque `LinkedListDeque`;
  - the association-list map `ULLMap` and its key iterator;
  - the singly linked `SLList`;
  - the recursive `IntList`.

  Each is a class over nodes, with a ghost sequence of contents, a
  `Repr` footprint and a `Valid()` invariant.
- **Utilities**:
  - `StringUtils`, the alphabetical successor of a string with its
    carry, and random lower-case strings;
  - `Primes`, modular exponentiation in 32-bit arithmetic and the
    Fermat test;
  - `Collatz`, the Collatz step;
  - `StopwatchDemo`, `fib`;
  - `Dog`, `noise`;
  - `StringInputDevice`, a string cursor;
  - the integer part of `RandomUtils`: uniform draws, range checks,
    Fisher–Yates shuffles, permutations and `discrete`.
- **The test runners**: the pure helpers shared by the three Python
  runners. These are `editDistance` (a Levenshtein table), `canonicalize`
  and `chop_nl`.

Java semantics are written out where they matter:
- `int` wrap-around (`JavaInt.Wrap32`);
- truncating `/` and `%` (`JavaInt.Div`, `JavaInt.Rem`);
- UTF-16 `char` arithmetic (`StringUtils.Char16`);
- string order and sorted listings (`JavaText`).

`null` is `None` of an `Option`, or a nullable reference where the source
passes objects. A thrown exception or a call to `exitWithMessage` is a
`Failure`/`Fail` result. `java.util.Random` is an oracle class
(`JavaRandom.Random`): `nextInt(bound)` returns `draw(calls, bound)` for
a fixed but arbitrary function `draw`. So every property of the random
utilities holds whatever the generator returns.

## Model

| member | source | states |
|---|---|---|
| GitletRepository.Repository.constructor | proj2/gitlet/Repository.java:15-32 | before init the repository is uninitialised, every store is empty and the working directory holds the given files |
| GitletRepository.Repository.Init | proj2/gitlet/Repository.java:40-60 | fails with the exact "already exists" message iff the repository exists, changing no store; otherwise the only commit is the root commit ("initial commit", epoch time, no parent, empty manifest), the only branch is master at it, and HEAD names master |
| GitletRepository.Repository.Add | proj2/gitlet/Repository.java:71-88 | fails with "File does not exist." iff the working file is missing, leaving the staging area alone; if the working contents hash to the blob the current commit tracks, the name leaves the addition set and the removal set is untouched; otherwise the addition entry holds the working contents and the removal entry for the name is gone |
| GitletRepository.Repository.Commit | proj2/gitlet/Repository.java:108-148 | fails with "Please enter a commit message." on an empty message, else with "No changes added to the commit." on an empty staging area, changing no store; otherwise the new commit (message, now, current commit as parent, updated manifest) is stored, the current branch points at it, HEAD keeps its name, the staged blobs are saved and both staging sets are empty |
| GitletRepository.Repository.CommitStaged | proj2/gitlet/Repository.java:117-147 | the commit command after its checks: the same new state as a successful Commit |
| GitletRepository.Repository.StageCommit | proj2/gitlet/Repository.java:117-137 | builds the commit the command records and leaves the blob store holding every staged file's contents under its hash, with every tracked blob stored |
| GitletRepository.Repository.SaveStagedBlobs | proj2/gitlet/Repository.java:121-125 | nameToBlob maps exactly the staged names, each to the hash of its staged contents, and the blob store has saved them in order |
| GitletRepository.Repository.BuildManifest | proj2/gitlet/Repository.java:117-131 | the tracked map is the parent manifest overridden by the staged additions' hashes minus the staged removals, and every blob it names is stored |
| GitletRepository.Repository.RecordCommit | proj2/gitlet/Repository.java:138-143 | the commit is stored under its hash and the current branch, and only it, now points at it |
| GitletRepository.Repository.ClearStaging | proj2/gitlet/Repository.java:145-147 | both staging sets end empty and the repository invariant holds again |
| GitletRepository.NewManifestEntries | proj2/gitlet/Repository.java:127-131 | a name is tracked by the new commit iff the parent tracks it or it is staged for addition, and it is not staged for removal; a staged name maps to its staged contents' hash, any other to the parent's blob |
| GitletRepository.SaveAllStores | proj2/gitlet/Repository.java:121-125 | saving the staged files keeps every earlier blob, stores each staged file's contents under its hash, and keeps the blob store content-addressed |
| GitletRepository.RemoveAll | proj2/gitlet/Repository.java:131 | removing each staged-for-removal name from the tracked map leaves the map minus exactly those names |
| GitletRepository.Repository.Rm | proj2/gitlet/Repository.java:157-172 | fails with "No reason to remove the file." iff the name is neither staged for addition nor tracked, leaving staging and the working directory alone; otherwise the name is no longer staged for addition, and if tracked it is staged for removal with the tracked contents and gone from the working directory |
| GitletRepository.Repository.RmStaged | proj2/gitlet/Repository.java:163-171 | rm after its check: the same new state as a successful Rm |
| GitletRepository.Repository.Unstage | proj2/gitlet/Repository.java:163-171 | the name leaves the addition set; with tracked contents it enters the removal set and leaves the working directory, otherwise both stay; no name is ever staged both ways |
| GitletRepository.Repository.CheckoutFile | proj2/gitlet/Repository.java:317-331 | fails with "No commit with that id exists." when the id (exact or prefix) finds no commit, else with "File does not exist in that commit." when the commit does not track the file, leaving the working directory alone; otherwise the working file holds that commit's blob and nothing else in the working directory changes |
| GitletRepository.Repository.CheckoutCurrentFile | proj2/gitlet/Repository.java:336-338 | the same for the current commit: fails iff it does not track the file, otherwise writes its blob |
| GitletRepository.Repository.CheckoutBranch | proj2/gitlet/Repository.java:351-385 | fails, in this order, for the current branch, an unknown branch, or any working file the current commit does not track, with the matching message and HEAD, staging and working directory unchanged; otherwise HEAD names the target branch, the working directory holds exactly the files of its head commit and staging is empty |
| GitletRepository.Repository.SwitchBranch | proj2/gitlet/Repository.java:371-384 | checkout of a stored branch after the checks: HEAD names it and the working directory and staging hold its head commit exactly |
| GitletRepository.Repository.CheckoutManifest | proj2/gitlet/Repository.java:371-382 | deleting the working files and staged files, then writing a manifest's files, leaves the working directory equal to that manifest's contents and staging empty |
| GitletRepository.Repository.DeleteStagedFiles | proj2/gitlet/Repository.java:375 | every staged file is deleted: both staging sets are empty |
| GitletRepository.Repository.WriteManifest | proj2/gitlet/Repository.java:378-382 | each tracked file is written with its blob's contents over the existing working directory |
| GitletRepository.WriteAllEntries | proj2/gitlet/Repository.java:378-382 | writing the listed names leaves exactly the earlier files plus those names, a written name holding its blob and any other its earlier contents |
| GitletRepository.Materialize | proj2/gitlet/Repository.java:377-382 | the working directory of a manifest has exactly its names, each holding the contents of the blob the manifest names |
| GitletRepository.Repository.CreateBranch | proj2/gitlet/Repository.java:392-398 | fails with "A branch with that name already exists" iff the name is taken, changing no branch; otherwise adds exactly that branch at the current head; HEAD and the current head never change |
| GitletRepository.Repository.RmBranch | proj2/gitlet/Repository.java:405-414 | fails with "Cannot remove the current branch." for the current branch, else with "A branch with that name does not exist." for an unknown one, changing no branch; otherwise removes exactly that branch |
| GitletRepository.Repository.Reset | proj2/gitlet/Repository.java:426-454 | fails with "No targetCommit with that id exists." for an unknown id, else refuses when a working file is untracked by the target commit, changing nothing; otherwise only the current branch moves to the target, HEAD keeps its name, and working directory and staging hold the target commit exactly |
| GitletRepository.Repository.ResetTo | proj2/gitlet/Repository.java:440-453 | reset after its checks: the current branch points at the target and the working directory holds its files, staging empty |
| GitletRepository.Repository.GetCurrentCommit | proj2/gitlet/Repository.java:456-459 | the current commit is a stored commit whose hash is the current branch's head |
| GitletRepository.Repository.CurrentCommitById | proj2/gitlet/Repository.java:456-459 | looking up the current head by id yields the current commit |
| GitletRepository.Repository.SetCurrentCommit | proj2/gitlet/Repository.java:461-465 | only the current branch's head changes, to the given hash |
| GitletRepository.Repository.GetCurrentBranch | proj2/gitlet/Repository.java:467-469 | a fresh branch record with HEAD's branch name and that branch's stored head |
| GitletRepository.Repository.CurrentBranchName | proj2/gitlet/Repository.java:467-469 | HEAD always names a stored branch |
| GitletRepository.Repository.CurrentHead | proj2/gitlet/Repository.java:456-459 | the current branch's head is always a stored commit |
| GitletRepository.Repository.StoredCommit | proj2/gitlet/Repository.java:328-330 | every blob a stored commit tracks is in the blob store, so reading a checked-out blob never fails |
| GitletCommit.NewCommit | proj2/gitlet/Commit.java:22-41 | the fields are the arguments, a missing timestamp becomes now and a missing manifest the empty map, and the hash is sha1 of the hash items built from the stored fields alone, so equal fields give equal hashes whatever the clock reads |
| GitletCommit.HashItemsLayout | proj2/gitlet/Commit.java:31-41 | the hashed list is the message, the timestamp text, the parent or "", the second parent or "", then one "name=blob" entry per tracked file in ascending name order |
| GitletCommit.SortedNames | proj2/gitlet/Commit.java:37-39 | a TreeMap's key order lists exactly the keys of the set |
| GitletCommit.SortedNamesAscending | proj2/gitlet/Commit.java:37-39 | that order is strictly ascending under String.compareTo |
| GitletCommit.SortedNamesLength | proj2/gitlet/Commit.java:37-39 | each key is listed once |
| GitletCommit.ManifestItemsOrder | proj2/gitlet/Commit.java:37-39 | the manifest contributes one entry text per tracked file, the i-th for the i-th name in ascending order |
| GitletCommit.Log | proj2/gitlet/Commit.java:84-98 | the text starts "===\ncommit <hash>\n"; the "Merge: " line with the first seven characters of each parent comes next iff both parents exist; otherwise the date line and the message follow directly; the text ends with the message and a blank line |
| GitletCommitStore.CommitStore.constructor | proj2/gitlet/CommitStore.java:14-19 | a new store holds no commit |
| GitletCommitStore.CommitStore.GetCommitByHash | proj2/gitlet/CommitStore.java:21-31 | a null id finds nothing; an exact hash finds that commit; otherwise the result is the first commit in listing order whose hash starts with the id, and nothing iff none does |
| GitletCommitStore.FirstWithPrefix | proj2/gitlet/CommitStore.java:27-30 | the first commit of a list whose hash starts with the id, none iff no hash does |
| GitletCommitStore.CommitStore.GetCommitsByMessage | proj2/gitlet/CommitStore.java:33-37 | exactly the stored commits with that message, in the order of the commit listing |
| GitletCommitStore.WithMessage | proj2/gitlet/CommitStore.java:33-37 | filtering a list keeps exactly the commits with that message |
| GitletCommitStore.WithMessageConcat | proj2/gitlet/CommitStore.java:33-37 | the filter keeps listing order: a single commit is kept iff its message matches, and filtering a concatenation filters each part in turn |
| GitletCommitStore.CommitStore.SaveCommit | proj2/gitlet/CommitStore.java:39-42 | the commit is stored under its hash, overwriting any earlier one, and looking that hash up returns it |
| GitletCommitStore.CommitStore.AllCommits | proj2/gitlet/CommitStore.java:44-46 | one commit per stored hash, in file-listing (ascending name) order, and every stored commit appears |
| GitletCommitStore.InListingOrder | proj2/gitlet/CommitStore.java:48-52 | the stored values in ascending key order, one per key |
| GitletCommitStore.ListingCovers | proj2/gitlet/CommitStore.java:44-52 | every stored value appears in the listing |
| GitletBlobStore.BlobStore.constructor | proj2/gitlet/BlobStore.java:10-12 | a new store holds no blob |
| GitletBlobStore.BlobStore.Get | proj2/gitlet/BlobStore.java:14-17 | nothing iff no blob is stored under the name; a stored blob's contents hash to its name |
| GitletBlobStore.BlobStore.Save | proj2/gitlet/BlobStore.java:19-25 | the contents are stored under sha1 of the contents, which is returned, and reading that name back gives the contents (round trip) |
| GitletBlobStore.BlobStore.Contains | proj2/gitlet/BlobStore.java:27-29 | contains iff get finds a blob |
| GitletBlobStore.SaveAddsAtMostOne | proj2/gitlet/BlobStore.java:19-25 | a save adds at most one name, the contents' hash |
| GitletBranch.Branch.constructor | proj2/gitlet/Branch.java:14-17 | the record holds the given name and head |
| GitletBranch.Branch.GetName | proj2/gitlet/Branch.java:19-21 | returns the current name |
| GitletBranch.Branch.SetName | proj2/gitlet/Branch.java:23-25 | changes the name only; the head is unchanged |
| GitletBranch.Branch.GetHead | proj2/gitlet/Branch.java:27-29 | returns the current head |
| GitletBranch.Branch.SetHead | proj2/gitlet/Branch.java:31-33 | changes the head only; the name is unchanged |
| GitletBranchStore.BranchStore.constructor | proj2/gitlet/BranchStore.java:13-15 | a new store holds no branch |
| GitletBranchStore.BranchStore.Lookup | proj2/gitlet/BranchStore.java:17-21 | the stored head of a name, nothing iff no such branch |
| GitletBranchStore.BranchStore.GetBranch | proj2/gitlet/BranchStore.java:17-21 | null iff no branch has the name; otherwise a fresh record with that name and its stored head |
| GitletBranchStore.BranchStore.ContainsBranch | proj2/gitlet/BranchStore.java:23-25 | containsBranch iff getBranch finds one |
| GitletBranchStore.BranchStore.SaveBranch | proj2/gitlet/BranchStore.java:27-30 | the branch's head is stored under its name, replacing any earlier head, and other branches are untouched |
| GitletBranchStore.BranchStore.RemoveBranch | proj2/gitlet/BranchStore.java:32-35 | the name is gone afterwards (a no-op when absent) and every other name looks up as before |
| GitletBranchStore.BranchStore.AllBranches | proj2/gitlet/BranchStore.java:37-42 | one fresh record per stored branch, each with its stored head, and every stored name appears |
| GitletBranchStore.ReadBranches | proj2/gitlet/BranchStore.java:38-41 | reading the listed names gives one record per name with its stored head |
| GitletHead.Head.constructor | proj2/gitlet/Head.java:10-12 | the HEAD file starts empty |
| GitletHead.Head.Get | proj2/gitlet/Head.java:14-16 | returns the stored branch name |
| GitletHead.Head.Set | proj2/gitlet/Head.java:18-20 | afterwards get returns that branch's name (last writer wins) |
| GitletRemoteStore.RemoteStore.constructor | proj2/gitlet/RemoteStore.java:12-17 | a new store holds no remote |
| GitletRemoteStore.RemoteStore.GetRemoteURI | proj2/gitlet/RemoteStore.java:19-22 | the stored URI, nothing iff the name is unknown |
| GitletRemoteStore.RemoteStore.Contains | proj2/gitlet/RemoteStore.java:24-26 | contains iff getRemoteURI finds one |
| GitletRemoteStore.RemoteStore.AddRemote | proj2/gitlet/RemoteStore.java:28-35 | fails with "A remote with that name already exists." iff present, changing nothing; otherwise the name maps to the URI |
| GitletRemoteStore.RemoteStore.RemoveRemote | proj2/gitlet/RemoteStore.java:37-43 | fails with "A remote with that name does not exist." iff absent, changing nothing; otherwise the name is gone |
| GitletStagingArea.StagingArea.constructor | proj2/gitlet/StagingArea.java:14-17 | both staging sets start empty |
| GitletStagingArea.StagingArea.StageFileForAddition | proj2/gitlet/StagingArea.java:24-28 | the addition entry holds the contents, overwriting any earlier one, the removal set is untouched, and getFileForAddition returns the contents |
| GitletStagingArea.StagingArea.StageFileForRemoval | proj2/gitlet/StagingArea.java:40-44 | the same for the removal set, leaving the addition set untouched |
| GitletStagingArea.StagingArea.GetFileForAddition | proj2/gitlet/StagingArea.java:30-33 | the staged contents, nothing iff the name is not staged for addition |
| GitletStagingArea.StagingArea.GetFileForRemoval | proj2/gitlet/StagingArea.java:46-49 | the staged contents, nothing iff the name is not staged for removal |
| GitletStagingArea.StagingArea.GetFilesForAddition | proj2/gitlet/StagingArea.java:51-56 | exactly the names staged for addition |
| GitletStagingArea.StagingArea.GetFilesForRemoval | proj2/gitlet/StagingArea.java:58-63 | exactly the names staged for removal |
| GitletStagingArea.StagingArea.GetFiles | proj2/gitlet/StagingArea.java:65-69 | the addition entries followed by the removal entries, one per staged name |
| GitletStagingArea.Listing | proj2/gitlet/StagingArea.java:51-63 | a directory listing becomes one staged-file entry per name, in order |
| GitletStagingArea.StagingArea.Contains | proj2/gitlet/StagingArea.java:71-73 | contains iff staged for addition or for removal |
| GitletStagingArea.StagingArea.IsStagedForAddition | proj2/gitlet/StagingArea.java:75-77 | iff the name is in the addition set |
| GitletStagingArea.StagingArea.IsStagedForRemoval | proj2/gitlet/StagingArea.java:79-81 | iff the name is in the removal set |
| GitletStagingArea.StagingArea.IsEmpty | proj2/gitlet/StagingArea.java:83-85 | iff both sets are empty |
| GitletStagingArea.StagingArea.Delete | proj2/gitlet/Repository.java:146-147 | deleting a staged file removes that name from its own set only |
| GitletStagingArea.StagingArea.DeleteAll | proj2/gitlet/Repository.java:146-147 | deleting listed staged files removes exactly their names from the matching sets |
| GitletWorkingArea.WorkingArea.constructor | proj2/gitlet/WorkingArea.java:13-15 | the working directory holds the given files |
| GitletWorkingArea.WorkingArea.GetFile | proj2/gitlet/WorkingArea.java:17-20 | the file's contents, nothing iff it does not exist |
| GitletWorkingArea.WorkingArea.SaveFile | proj2/gitlet/WorkingArea.java:22-26 | the file exists afterwards with exactly those contents, overwriting any earlier version |
| GitletWorkingArea.WorkingArea.DeleteFile | proj2/gitlet/WorkingArea.java:28-32 | returns whether the file existed; afterwards it does not |
| GitletWorkingArea.WorkingArea.AllFiles | proj2/gitlet/WorkingArea.java:34-39 | exactly the names of the files in the directory |
| GitletWorkingArea.WorkingArea.DeleteAll | proj2/gitlet/Repository.java:371-373 | deleting the listed names leaves exactly the other files, unchanged |
| Game2048Model.Model.constructor | proj0/game2048/Model.java:30-34 | an empty board of the given size viewed from NORTH, score and maximum score 0, game not over |
| Game2048Model.Model.FromRaw | proj0/game2048/Model.java:39-45 | the board holds rawValues[size-1-row][col] at (col, row), and score, maximum score and game-over flag are the arguments |
| Game2048Model.Model.GameOver | proj0/game2048/Model.java:63-69 | returns whether the game is over (a 2048 tile, or atLeastOneMoveExists finds no move) and, when it is, makes the maximum score the larger of itself and the score |
| Game2048Model.Model.Clear | proj0/game2048/Model.java:82-87 | the board is empty, the score 0 and the game not over |
| Game2048Model.Model.AddTile | proj0/game2048/Model.java:91-95 | the tile is at its square, no other square changes, and the game-over flag is recomputed by checkGameOver on the new board |
| Game2048Model.Model.Tilt | proj0/game2048/Model.java:109-124 | every column, seen from the side, ends in its slid form; the score rises by the merges' total; the result is true iff some column was not already slid; the game-over flag is checkGameOver (with atLeastOneMoveExists) on the board before the tilt |
| Game2048Model.Model.TiltColumns | proj0/game2048/Model.java:116-118 | the loop over the columns slides each one, adds up their gains and ors their changes |
| Game2048Model.Model.TiltColumn | proj0/game2048/Model.java:117 | one more column is slid, with its gain and change recorded |
| Game2048Model.Model.TileColumn | proj0/game2048/Model.java:129-159 | the column ends in its slid form (tiles packed against the side in order, leading equal pairs merged once), other columns are unchanged, the score rises by the merged values, the result is true iff the column changed, and the perspective is NORTH again |
| Game2048Model.Model.WalkSquare | proj0/game2048/Model.java:135-156 | one row of the walk keeps the board, the counters and the score in step with the reference walk |
| Game2048Model.Model.WalkEmpty | proj0/game2048/Model.java:138-141 | an empty square adds one to emptySpace and changes nothing else |
| Game2048Model.Model.WalkTile | proj0/game2048/Model.java:143-155 | a tile moves up by emptySpace, or one further onto an equal pending tile, and the counters and score follow the reference walk |
| Game2048Model.Model.SlideTile | proj0/game2048/Model.java:147-155 | moving the tile turns the column's layout into the next step of the reference walk and leaves other columns unchanged |
| Game2048Model.Model.MoveTile | proj0/game2048/Model.java:148-153 | board.move clears the tile's square and puts the tile, or its merged double, at the target, reporting a merge iff the target held a tile |
| Game2048Model.TileMove | proj0/game2048/Model.java:147-155 | the target row lies between the tile's row and the top, and the layout changes exactly at the source and target squares |
| Game2048Model.SlideColumn | proj0/game2048/Model.java:147-155 | a move at the computed target advances the column to the next layout of the walk |
| Game2048Model.WalkStep | proj0/game2048/Model.java:143-155 | a tile that meets an equal pending tile merges (one more empty square, no pending tile, gain 2v); otherwise it becomes pending; the column changes iff it merges or has a gap ahead |
| Game2048Model.EmptySpaceExists | proj0/game2048/Model.java:176-186 | true iff some square is empty |
| Game2048Model.MaxTileExists | proj0/game2048/Model.java:193-204 | true iff some tile is worth MAX_PIECE = 2048 |
| Game2048Model.AtLeastOneMoveExists | proj0/game2048/Model.java:212-236 | true iff a square is empty, or (0,0) equals (1,0) or (0,1), or some square with both coordinates at least 1 equals its left or lower neighbour; false on a full 1x1 board |
| Game2048Model.LeftOrBelowMatchExists | proj0/game2048/Model.java:226-233 | the nested loop finds a square off row 0 and column 0 equal to its left or lower neighbour iff one exists |
| Game2048Model.AnyMoveExists | proj0/game2048/Model.java:206-211 | the corrected move check the doc comment describes: true iff a square is empty or two adjacent tiles are equal |
| Game2048Model.EqualNeighboursExist | proj0/game2048/Model.java:206-211 | on a full board, true iff some square equals its right-hand or upper neighbour |
| Game2048Model.IsGameOver | proj0/game2048/Model.java:169-171 | true iff a 2048 tile is on the board or atLeastOneMoveExists, as written, finds no move |
| Game2048Model.IsGameOverIntended | proj0/game2048/Model.java:169-171 | the corrected game-over check: true iff a 2048 tile is on the board or no tilt can move a tile (no empty square, no two equal adjacent tiles) |
| Game2048Model.Model.CheckGameOver | proj0/game2048/Model.java:164-166 | sets the flag to checkGameOver(board) as written: a 2048 tile, or no move that atLeastOneMoveExists finds |
| Game2048Rules.SlidPacked | proj0/game2048/Model.java:97-108 | after a tilt a column is packed (no empty square before a tile) and its tiles are the merged tiles of the original, in order |
| Game2048Rules.MergedSnoc | proj0/game2048/Model.java:97-108 | a tile behind the column merges with the pending tile iff equal, else it is appended; so of three equal tiles the leading two merge and a merged tile never merges again |
| Game2048Rules.PendingSnoc | proj0/game2048/Model.java:147-155 | after a tile arrives, nothing is pending if it merged, else the tile itself is |
| Game2048Rules.MergeScoreSnoc | proj0/game2048/Model.java:151 | a tile scores twice its value exactly when it merges |
| Game2048Rules.MergedSum | proj0/game2048/Model.java:147-153 | merging preserves the sum of the tiles |
| Game2048Rules.SlidSum | proj0/game2048/Model.java:147-153 | a tilt preserves the sum of a column's tiles |
| Game2048Rules.MergedSameLength | proj0/game2048/Model.java:143-151 | a column whose merges keep its length has no merge and scores nothing |
| Game2048Rules.SlidChanges | proj0/game2048/Model.java:143-145 | a tilt changes a column iff a merge happens or some tile has a gap ahead of it; an unchanged column scores nothing |
| Game2048Rules.WalkMerges | proj0/game2048/Model.java:135-156 | the walk's placed tiles, pending value and score are those of the reference merge rules, and its emptySpace counts the squares freed |
| Game2048Rules.WalkChanged | proj0/game2048/Model.java:143-145 | the walk's changed flag is set iff a merge happens or a tile has a gap ahead |
| Game2048Rules.WalkSlides | proj0/game2048/Model.java:135-158 | the walk's placed tiles followed by its empty squares are the slid column, its score is the tilt's gain and its flag says whether the column changed |
| Game2048Rules.LayoutDone | proj0/game2048/Model.java:135-158 | the column after the whole walk is the slid column, with the tilt's gain and change flag |
| Game2048Rules.LayoutForm | proj0/game2048/Model.java:135-156 | midway through the walk the column is the placed tiles, then the freed squares, then the rows not yet visited |
| Game2048Rules.TiltGainIdle | proj0/game2048/Model.java:116-118 | a tilt that changes no column scores nothing |
| Game2048Rules.TiltChangesSome | proj0/game2048/Model.java:116-118 | the or of the columns' results is true iff some column is not already in its slid form |
| Game2048Rules.AsWrittenSound | proj0/game2048/Model.java:212-236 | every move the written check reports is a real move |
| Game2048Rules.AsWrittenMissesRowZero | proj0/game2048/Model.java:220-233 | a full 3x3 board whose only equal neighbours lie in row 0 away from (0,0) has a move, yet the written check says none |
| Game2048Rules.AsWrittenEndsNoLater | proj0/game2048/Model.java:169-171 | whenever the corrected check ends the game, the written one does too: the written check can only end a game early |
| Game2048Rules.MissedEndsGame | proj0/game2048/Model.java:169-171 | on that 3x3 board the written checkGameOver ends the game while the corrected one does not |
| Game2048Board.Board.constructor | proj0/game2048/Board.java:19-22 | an empty size x size board viewed from NORTH |
| Game2048Board.Board.FromRaw | proj0/game2048/Board.java:31-47 | square (col, row) holds a tile of value rawValues[size-1-row][col], empty for 0, and the perspective is NORTH |
| Game2048Board.Board.SetViewingPerspective | proj0/game2048/Board.java:25-27 | only the perspective changes |
| Game2048Board.Board.VTile | proj0/game2048/Board.java:61-63 | the tile at the square that (col, row) names when side is on top, null iff that square is empty |
| Game2048Board.Board.TileAt | proj0/game2048/Board.java:67-69 | tile reads through the current perspective |
| Game2048Board.Board.ColumnAt | proj0/game2048/Board.java:61-69 | column c seen from a side, read from the top, holds at position size-1-r the value of the viewed square (c, r) |
| Game2048Board.Board.Clear | proj0/game2048/Board.java:72-76 | every square is empty |
| Game2048Board.Board.AddTile | proj0/game2048/Board.java:79-81 | only the tile's own square changes, to the tile |
| Game2048Board.Board.Move | proj0/game2048/Board.java:88-104 | a move to the tile's own square changes nothing and returns false; otherwise the old square empties, the target gets the tile's successor (same value onto an empty target, double onto an occupied one, which then also points at it), the result says whether it merged, and no other square changes |
| Game2048Board.Board.Place | proj0/game2048/Board.java:95-101 | writing one square changes the value grid at that square only |
| Game2048Board.ColumnOfMove | proj0/game2048/Board.java:88-104 | a move within a viewed column changes that column at the source and target positions only, and every other column not at all |
| Game2048Side.Opposite | proj0/game2048/Side.java:42-52 | no side is its own opposite |
| Game2048Side.OppositeInvolution | proj0/game2048/Side.java:42-52 | the opposite of the opposite is the side itself |
| Game2048Side.Col | proj0/game2048/Side.java:56-58 | the quarter-turn column of each side equals col0*(size-1) + c*drow + r*dcol with that side's constants |
| Game2048Side.Row | proj0/game2048/Side.java:62-64 | the quarter-turn row of each side equals row0*(size-1) - c*dcol + r*drow with that side's constants |
| Game2048Side.NorthIdentity | proj0/game2048/Side.java:56-64 | NORTH maps every square to itself |
| Game2048Side.Reorients | proj0/game2048/Side.java:56-64 | every square of the reoriented board maps onto the board, and back to itself under the inverse map |
| Game2048Side.ReorientsBack | proj0/game2048/Side.java:56-64 | every standard square is reached, so the map is onto |
| Game2048Side.ReorientInjective | proj0/game2048/Side.java:56-64 | distinct squares map to distinct squares |
| Game2048Side.StepUp | proj0/game2048/Side.java:56-64 | one row up on the reoriented board moves the standard coordinates by exactly (dcol, drow) |
| Game2048Tile.Tile.constructor | proj0/game2048/Tile.java:11-16 | value, column and row as given, no successor |
| Game2048Tile.Create | proj0/game2048/Tile.java:40-42 | a fresh tile with the given value and square whose next() is itself |
| Game2048Tile.Tile.Next | proj0/game2048/Tile.java:35-37 | the successor, or the tile itself before it has one |
| Game2048Tile.Tile.Move | proj0/game2048/Tile.java:45-49 | a fresh tile of the same value at the new square becomes the successor |
| Game2048Tile.Tile.Merge | proj0/game2048/Tile.java:53-57 | for equal values, a fresh tile of twice the value at the square becomes the successor of both tiles |
| Game2048Tile.Tile.DistToNext | proj0/game2048/Tile.java:61-68 | 0 without a successor, else the larger of the row and column distances to it |
| Deque.LinkedListDeque.constructor | proj1/deque/LinkedListDeque.java:52-58 | an empty ring: the sentinel points at itself |
| Deque.LinkedListDeque.AddFirst | proj1/deque/LinkedListDeque.java:61-66 | the contents become x followed by the old contents, and the ring invariant holds |
| Deque.LinkedListDeque.AddLast | proj1/deque/LinkedListDeque.java:70-75 | the contents become the old contents followed by x |
| Deque.LinkedListDeque.IsEmpty | proj1/deque/LinkedListDeque.java:78-80 | iff the deque holds nothing |
| Deque.LinkedListDeque.Size | proj1/deque/LinkedListDeque.java:83-85 | the size field equals the number of items |
| Deque.LinkedListDeque.RemoveFirst | proj1/deque/LinkedListDeque.java:102-112 | null and no change on an empty deque; otherwise the first item, which leaves the contents |
| Deque.LinkedListDeque.RemoveLast | proj1/deque/LinkedListDeque.java:115-122 | null and no change on an empty deque; otherwise the last item, which leaves the contents |
| Deque.LinkedListDeque.Get | proj1/deque/LinkedListDeque.java:126-135 | null past the end, the index-th item inside, and for a negative index the first item (null when empty) |
| Deque.LinkedListDeque.GetRecursive | proj1/deque/LinkedListDeque.java:136-142 | agrees with get for every index that is not negative |
| Deque.LinkedListDeque.RecursiveHelper | proj1/deque/LinkedListDeque.java:143-149 | the item rest nodes after a given node |
| Deque.LinkedListDeque.StubHasNext | proj1/deque/deque/LinkedListDeque.java:129-134 | the second copy's iterator never offers an item |
| Deque.LinkedListDeque.StubNext | proj1/deque/deque/LinkedListDeque.java:136-139 | its next() is always null |
| Deque.LinkedListDeque.StubEquals | proj1/deque/deque/LinkedListDeque.java:149-155 | the second copy's equals is true for every deque argument, whatever it holds, and false for anything else |
| Deque.AddRemoveFront | proj1/deque/LinkedListDeque.java:61-112 | addFirst then removeFirst returns the item added and restores the contents |
| HashMap.ULLMap.constructor | lab8/hashmap/ULLMap.java:13 | an empty map: size 0 and no entry list |
| HashMap.ULLMap.Get | lab8/hashmap/ULLMap.java:16-25 | the value stored for that non-null key, null when no entry holds it or the key is null |
| HashMap.ULLMap.Find | lab8/hashmap/ULLMap.java:100-108 | Entry.get finds the first entry from here on with that non-null key, or null |
| HashMap.KeyIndex | lab8/hashmap/ULLMap.java:100-108 | the first position from j holding the non-null key, -1 iff none does |
| HashMap.ULLMap.Size | lab8/hashmap/ULLMap.java:28-30 | the number of entries |
| HashMap.ULLMap.Clear | lab8/hashmap/ULLMap.java:34-37 | no entry is left and every lookup misses |
| HashMap.ULLMap.Put | lab8/hashmap/ULLMap.java:43-56 | a key not found is prepended with its value (size up by one); a found key keeps its place and gets the new value; afterwards a non-null key finds the value and every other key finds what it found before |
| HashMap.ULLMap.PutNew | lab8/hashmap/ULLMap.java:52-55 | prepending an entry for an absent key |
| HashMap.ULLMap.ContainsKey | lab8/hashmap/ULLMap.java:62-67 | iff the key is not null and some entry holds it, that is iff get finds it |
| HashMap.ULLMap.Remove | lab8/hashmap/ULLMap.java:149-151 | always UnsupportedOperationException |
| HashMap.ULLMap.RemoveValue | lab8/hashmap/ULLMap.java:154-156 | always UnsupportedOperationException |
| HashMap.ULLMap.KeySet | lab8/hashmap/ULLMap.java:159-161 | always UnsupportedOperationException |
| HashMap.LookupAfterPrepend | lab8/hashmap/ULLMap.java:52-55 | after prepending an absent key, keys stay unique, the key finds the new value and every other key finds its old value |
| HashMap.LookupAfterSet | lab8/hashmap/ULLMap.java:46-50 | overwriting a found entry's value changes only that key's value |
| HashMap.KeyIndexShift | lab8/hashmap/ULLMap.java:100-108 | a prepended entry moves every other key one place back and finds nothing new |
| HashMap.ULLMapIter.constructor | lab8/hashmap/ULLMap.java:126-128 | the walk starts at the first entry |
| HashMap.ULLMapIter.HasNext | lab8/hashmap/ULLMap.java:131-133 | iff keys remain |
| HashMap.ULLMapIter.Next | lab8/hashmap/ULLMap.java:136-140 | returns the keys in list order, newest first, one per call |
| SList.SLList.constructor | lab3/timingtest/SLList.java:21-24 | an empty list |
| SList.SLList.Singleton | lab3/timingtest/SLList.java:26-30 | a one-item list holding x |
| SList.SLList.AddFirst | lab3/timingtest/SLList.java:33-36 | the contents become x followed by the old contents |
| SList.SLList.GetFirst | lab3/timingtest/SLList.java:39-41 | the first item |
| SList.SLList.AddLast | lab3/timingtest/SLList.java:44-55 | the contents become the old contents followed by x |
| SList.SLList.LastNode | lab3/timingtest/SLList.java:46-49 | the walk ends at the last node, or the sentinel when empty |
| SList.SLList.GetLast | lab3/timingtest/SLList.java:58-67 | the last item, or the sentinel's null item when empty |
| SList.SLList.Size | lab3/timingtest/SLList.java:71-73 | the size field equals the number of items |
| IntLists.IntList.constructor | lab2/IntList/IntList.java:7-10 | a list of first followed by rest's items |
| IntLists.IntList.Size | lab2/IntList/IntList.java:13-18 | the number of items, at least 1 |
| IntLists.IntList.IterativeSize | lab2/IntList/IntList.java:21-29 | the loop's count equals the number of items and equals size() |
| IntLists.IntList.Get | lab2/IntList/IntList.java:32-37 | the i-th item for an index inside the list; for any other index, past the end or negative, the walk reaches a null rest and the NullPointerException is None |
| IntLists.IntList.ToString | lab2/IntList/IntList.java:40-47 | the items' decimal texts joined by " -> " |
| IntLists.Of | lab2/IntList/IntList.java:60-66 | null iff there are no arguments; otherwise a fresh list of exactly the arguments, in order |
| StringUtils.IsLowerCase | lab7/bstmap/StringUtils.java:34-36 | iff every character is in 'a'..'z' (true for "") |
| StringUtils.IsAllzs | lab7/bstmap/StringUtils.java:78-80 | iff the string is non-empty and all 'z' |
| StringUtils.NextString | lab7/bstmap/StringUtils.java:43-51 | an all-'z' string of length n is followed by n+1 'a's; otherwise the trailing 'z's become 'a's and the character before them goes up by one; "" fails; on a lower-case string the result is the next one in shortlex order (its rank is one more) |
| StringUtils.CarryIncrement | lab7/bstmap/StringUtils.java:48-50 | copying into a char array and incrementing its last position gives the carried string |
| StringUtils.IncrementCharArray | lab7/bstmap/StringUtils.java:59-66 | the run of 'z's ending at p turns into 'a's, the character before it goes up by one, and all other characters stay |
| StringUtils.AllAs | lab7/bstmap/StringUtils.java:69-75 | len 'a's, none for a negative len |
| StringUtils.NextOfPotato | lab7/bstmap/StringUtils.java:38-42 | the documented example: the string after "potato" is "potatp" |
| StringUtils.BumpRank | lab7/bstmap/StringUtils.java:43-66 | raising the character before the trailing 'z's and resetting them keeps the string lower-case and adds one to its shortlex rank |
| StringUtils.RankAllZs | lab7/bstmap/StringUtils.java:45-47 | n 'z's and n+1 'a's are shortlex neighbours |
| StringUtils.RandomString | lab7/bstmap/StringUtils.java:22-28 | length characters, each 'a' plus the generator's next draw below 26, so lower-case; a negative length fails |
| Primes.Power | lab2/IntList/Primes.java:49-68 | the loop's result is power as Java computes it, and a^n mod p whenever no int overflows (0 <= a, 0 <= n, 2 <= p <= 46341) |
| Primes.PowerExact | lab2/IntList/Primes.java:57-66 | without overflow the loop computes a^n mod p |
| Primes.PowerLoopExact | lab2/IntList/Primes.java:57-66 | the loop invariant: from state (res, a, n) the loop ends with res * a^n mod p |
| Primes.IsPrime | lab2/IntList/Primes.java:21-41 | false for n <= 1 and 4, true for 2 and 3, and for n > 4 true iff each of the three witnesses passes the Fermat check; since every witness is 2, a base-2 Fermat test |
| Primes.FermatRounds | lab2/IntList/Primes.java:26-40 | true iff a^(n-1) mod n is 1 for each of the three witnesses |
| Primes.Witness | lab2/IntList/Primes.java:31 | the witness 2 + (int)(r % (n - 4)) drawn from any r in [0, 1) is always 2 |
| Primes.Pseudoprime341 | lab2/IntList/Primes.java:49-68 | 341 = 11 * 31 yet power(2, 340, 341) is 1 |
| Primes.IsPrimeAccepts341 | lab2/IntList/Primes.java:21-41 | isPrime(341) is true whatever Math.random() returns, though 341 is composite |
| Primes.IntendedWitness | lab2/IntList/Primes.java:29 | the witness the comment asks for lies in [2, n-2] |
| Primes.IntendedWitnessReaches | lab2/IntList/Primes.java:29 | every a in [2, n-2] is the intended witness of some draw |
| Primes.ThreeExposes341 | lab2/IntList/Primes.java:49-68 | power(3, 340, 341) is 56, not 1 |
| Primes.IsPrimeCorrected | lab2/IntList/Primes.java:21-41 | isPrime with the intended witnesses: the same corner cases, and for n > 4 true iff each intended witness passes |
| Primes.IsPrimeCorrectedRejects341 | lab2/IntList/Primes.java:21-41 | with the intended witnesses a draw that picks 3 rejects 341 |
| Collatz.NextNumber | lab1/Collatz.java:9-15 | the step stays an int |
| Collatz.NextNumberPositive | lab1/Collatz.java:9-15 | for positive n: even n halves and shrinks, odd n gives 3n+1 |
| Collatz.NextNumberHalves | lab1/Collatz.java:9-15 | every even n and every negative n (where Java's % is never 1) gives n / 2 truncated toward zero |
| Collatz.OrbitSteps | lab1/Collatz.java:17-25 | from 5 the steps visit 16, 8, 4, 2, 1 |
| Collatz.Main5 | lab1/Collatz.java:17-25 | main's loop prints 5 16 8 4 2 1 and stops |
| StopwatchDemo.Fib | lab3/timingtest/StopwatchDemo.java:10-18 | the result is an int |
| StopwatchDemo.FibIsFibonacci | lab3/timingtest/StopwatchDemo.java:10-18 | fib(n) is the n-th Fibonacci number wrapped to 32 bits, for every n >= 0 |
| StopwatchDemo.FibExact | lab3/timingtest/StopwatchDemo.java:10-18 | fib(n) is the n-th Fibonacci number while that fits in an int |
| StopwatchDemo.FibBaseCases | lab3/timingtest/StopwatchDemo.java:11-17 | fib is 0 for every negative n, fib(0) is 0 and fib(1) is 1 |
| Dogs.Dog.constructor | lab2setup/Dog/Dog.java:6-8 | the size is the given one |
| Dogs.Dog.Noise | lab2setup/Dog/Dog.java:11-16 | "yip" iff size < 10, "bark" iff size >= 10 |
| Dogs.SmallAndLargeDogs | lab2setup/Dog/DogTest.java:8-17 | a dog of size 3 yips and a dog of size 20 barks |
| InputDemo.StringInputDevice.constructor | proj3/byow/InputDemo/StringInputDevice.java:10-13 | the cursor starts at index 0 of the input |
| InputDemo.StringInputDevice.GetNextKey | proj3/byow/InputDemo/StringInputDevice.java:15-19 | the character at the cursor, which moves on by one; at the end it fails and the cursor stays |
| InputDemo.StringInputDevice.PossibleNextInput | proj3/byow/InputDemo/StringInputDevice.java:21-23 | iff the cursor is before the end |
| InputDemo.ReadAll | proj3/byow/InputDemo/StringInputDevice.java:15-23 | calling getNextKey while possibleNextInput holds yields the rest of the input in order, after which possibleNextInput is false |
| RandomUtils.Uniform | proj3/byow/Core/RandomUtils.java:33-38 | fails for n <= 0 without drawing; otherwise one draw, in [0, n) |
| RandomUtils.UniformBetween | proj3/byow/Core/RandomUtils.java:85-90 | fails iff b <= a or b - a >= Integer.MAX_VALUE; otherwise a plus one draw below b - a, in [a, b) |
| RandomUtils.ValidateSubarrayIndices | proj3/byow/Core/RandomUtils.java:540-545 | passes iff 0 <= lo <= hi <= length (lo == hi included) |
| RandomUtils.Shuffle | proj3/byow/Core/RandomUtils.java:388-397 | fails iff the array is null; otherwise the array ends as a permutation of its contents |
| RandomUtils.ShuffleRange | proj3/byow/Core/RandomUtils.java:467-477 | passes iff the array is not null and the indices are valid; then a[lo..hi) is permuted and every cell outside it unchanged; a failed check changes nothing |
| RandomUtils.Permutation | proj3/byow/Core/RandomUtils.java:487-497 | fails iff n < 0; otherwise the result is a permutation of 0..n-1 |
| RandomUtils.PermutationValues | proj3/byow/Core/RandomUtils.java:487-497 | the same result has length n and holds each of 0..n-1 exactly once |
| RandomUtils.PermutationOfRange | proj3/byow/Core/RandomUtils.java:487-497 | a sequence with the multiset of 0..n-1 has length n, distinct entries, all in [0, n) |
| RandomUtils.PermutationK | proj3/byow/Core/RandomUtils.java:509-529 | fails unless 0 <= k <= n; otherwise k distinct values from [0, n) |
| RandomUtils.Discrete | proj3/byow/Core/RandomUtils.java:298-330 | fails on null, a negative entry, an all-zero array or a sum >= Integer.MAX_VALUE, and only then; otherwise returns the index whose cumulative interval holds one draw below the sum, an entry with f[i] > 0 |
| RandomUtils.LandsAtExists | proj3/byow/Core/RandomUtils.java:319-327 | every draw below the sum lands in some entry's interval |
| RandomUtils.LandsAtUnique | proj3/byow/Core/RandomUtils.java:319-327 | it lands in only one |
| RandomUtils.LandsAtPositive | proj3/byow/Core/RandomUtils.java:319-327 | and that entry is positive |
| TestRunner.EditDistance | lab6/testing/runner.py:122-130 | the table's last cell is the Levenshtein distance of the two strings |
| TestRunner.FillRow | lab6/testing/runner.py:126-130 | each cell of row i is min(up+1, left+1, diag + mismatch), so the row holds the prefix distances |
| TestRunner.LevenshteinProperties | lab6/testing/runner.py:122-130 | distance to "" is the length, zero iff equal, at most the longer length, at least the length difference |
| TestRunner.DistZeroIff | lab6/testing/runner.py:125-130 | a prefix distance is zero iff the prefixes are equal |
| TestRunner.DistAtMostMax | lab6/testing/runner.py:125-130 | a prefix distance is at most the longer prefix length |
| TestRunner.DistAtLeastLengthGap | lab6/testing/runner.py:125-130 | a prefix distance is at least the difference of the prefix lengths |
| TestRunner.Canonicalize | lab6/testing/runner.py:216-219 | None stays None; text loses every '\r' and keeps every other character |
| TestRunner.RemoveCarriageReturns | lab6/testing/runner.py:219 | no '\r' is left and every other character keeps its count |
| TestRunner.RemoveCarriageReturnsConcat | lab6/testing/runner.py:219 | removal works piece by piece, so the kept characters keep their order |
| TestRunner.RemoveCarriageReturnsKeeps | lab6/testing/runner.py:219 | text without '\r' is unchanged |
| TestRunner.CanonicalizeIdempotent | lab6/testing/runner.py:216-219 | canonical text is already canonical |
| TestRunner.ChopNl | lab6/testing/runner.py:267-271 | with a trailing '\n' the result plus "\n" is the input; otherwise the input unchanged |
| TestRunner.ChopNlOnce | lab6/testing/runner.py:267-271 | exactly one newline goes: text ending in two keeps one |

The copies of the helpers in proj2/testing/staff-runner.py (154-162,
231-234, 282-286) and lab6/testing/tester.py (109-117, 184-187, 235-239)
are the same code as lab6/testing/runner.py. So are the deque operations
of proj1/deque/deque/LinkedListDeque.java (27-124). One model covers each
pair.

Some behaviour follows the code where its comments promise otherwise:
- `add` returns early on unchanged contents without clearing a removal
  entry.
- `checkoutBranch` refuses when any working file is untracked by the
  current commit.
- `reset` checks the target commit's manifest and prints "No
  targetCommit with that id exists.".
- `validateSubarrayIndices` accepts lo == hi.
- `atLeastOneMoveExists` skips pairs in row 0 and column 0, and
  `checkGameOver` uses it, so the game can end while a tilt would still
  move a tile (see Findings); the documented check is kept beside it as
  `IsGameOverIntended`.

## Left out

- The Gitlet Utils class (file I/O, serialisation, `plainFilenamesIn`,
  `sha1`) is not part of this model. Directories are maps, `sha1` is an
  uninterpreted function, a listing is in ascending name order, and
  `exitWithMessage` is a failure result.
- `Commit.Builder`, `getCommitById` and `stageForAddition`/
  `stageForRemoval(String, String)` are not part of this model either.
  They are taken as the Commit constructor with no second parent,
  `getCommitByHash`, and `stageFileForAddition`/`stageFileForRemoval`.
- GitletCommit.Log: the date line (a time-zone dependent formatter) is
  a parameter, and the commit's timestamp carries its `toString` text;
  `new Date()` is the `now` parameter.
- GitletCommit.Name: file, branch and commit names are non-empty
  strings, so `add ""`, `rm ""` or `branch ""` (where the empty name
  resolves to the working directory itself) are not modelled.
- GitletCommit.HashItemsLayout: manifest entries are hashed in
  ascending name order (a TreeMap); a manifest in another map class
  would iterate differently.
- Repository's log, global-log, find and status print to the console
  and are not modelled; `Commit.toString` and `Commit.saveCommit(File)`
  (debug text and a file write) are covered only by
  `CommitStore.SaveCommit`.
- GitletRepository.Repository.Init requires the epoch timestamp as
  input, standing for `new Date(0)`.
- GitletRepository.Repository.Commit: the parent commit's map is
  edited in place by `putAll`/`remove`; the model builds the new map as
  a value, which matches since that parent copy is never written back.
- Game2048Model.AtLeastOneMoveExists requires a board of size at least
  1: on an empty board the source reads square (0, 0) and throws.
- Game2048Model.IsGameOver requires a board of size at least 1, for the
  same ArrayIndexOutOfBoundsException in `atLeastOneMoveExists`.
- Game2048Model.Model.CheckGameOver requires a board of size at least 1,
  for the same reason.
- Game2048Model.Model.GameOver requires a board of size at least 1, for
  the same reason.
- Game2048Model.Model.Tilt requires a board of size at least 1, for the
  same reason.
- Board.startViewingFrom (proj0/game2048/Board.java:55-57) is the same
  assignment as `setViewingPerspective`; the getters `tile`, `size`,
  `score`, `maxScore`, the `Observable` notifications (`setChanged`) and
  `toString` of Model and Board are not modelled.
- The GUI, the random tile source and the 2048 game loop are I/O.
- Deque.LinkedListDeque.GetRecursive requires a non-negative index: on a
  negative one the source recurses around the ring until the stack
  overflows.
- `printDeque`, the first copy's `DequeIterator` (its first `next()`
  returns the sentinel's null item) and its `equals` (which compares
  references) are not modelled: console output and accidental
  behaviour.
- The size fields of the deque, SLList and ULLMap, and the 2048 score,
  maximum score and tile values, are unbounded integers; 32-bit overflow
  (after 2^31 insertions, or a score no real game reaches) is not
  modelled.
- IntLists: only acyclic lists are modelled; on a cyclic list `size`
  and `toString` never return.
- SList.SLList.GetFirst requires a non-empty list: the source
  dereferences a null node otherwise.
- Primes.Power requires p != 0, where the source throws
  ArithmeticException on `a % p`; its exact result a^n mod p is proved
  only where no int overflows, elsewhere it is the 32-bit computation
  `JavaPower`.
- Math.random() in `isPrime` is the `draws` input.
- The double-to-int cast of a NaN or huge double does not arise: every
  draw lies in [0, 1).
- JavaText.LessEq orders strings by Unicode scalar values, where Java's
  `compareTo` orders UTF-16 code units; the two disagree only between a
  supplementary character and one in U+E000..U+FFFF, which affects the
  TreeMap order of manifest entries in GitletCommit.HashItemsLayout and
  the ascending order of file listings.
- StringUtils: `randomString` draws from the `JavaRandom` oracle; a Java
  `char` is a UTF-16 code unit (`Char16`).
- InputDemo.StringInputDevice: Dafny `char` is a Unicode scalar value,
  not a UTF-16 unit, so a surrogate pair counts as one key here.
- Collatz's `main` prints; the model returns the printed numbers as a
  sequence.
- `StopwatchDemo.main` and SLList's `main` are timing and console
  harnesses.
- RandomUtils: the floating-point distributions, `uniform(long)`,
  `discrete(double[])` and the message texts of the exceptions are not
  modelled. The four array
  shuffles (Object, double, int, char) share one generic model
  (`Shuffle<T>`), as do the three sub-array shuffles (`ShuffleRange<T>`).
- RandomUtils: `java.util.Random` is an oracle whose draws are
  inputs; no distribution (uniformity) is stated.
- TestRunner: a Python `None` reaches only `canonicalize`, as `None`
  of an `Option`; subprocess execution, temp directories and output
  matching in the runners are I/O.

## Findings

| source | as written | input that shows it | evidently intended | confidence | as-written member | corrected member |
|---|---|---|---|---|---|---|
| proj0/game2048/Model.java:220-233 | after (0,0), atLeastOneMoveExists compares only squares with both coordinates at least 1 against their left and lower neighbours, so equal neighbours lying wholly in row 0 or column 0 away from (0,0) are never seen | the full 3x3 board with columns [2,8,64], [4,16,128], [4,32,256] (squares (1,0) and (2,0) are both 4): a tilt east or west merges them, yet the check reports no move and checkGameOver ends the game | detect any empty square or any two equal adjacent tiles, as the doc comment at lines 206-211 says | not executed | Game2048Rules.MissedEndsGame | Game2048Model.IsGameOverIntended |
| lab2/IntList/Primes.java:31 | the witness is 2 + (int)(Math.random() % (n - 4)); the remainder of a number in [0, 1) by n - 4 >= 1 is the number itself, which truncates to 0, so every witness is 2 and the test is a fixed base-2 Fermat test | n = 341 = 11 * 31: 2^340 mod 341 is 1, so isPrime(341) is true for every draw | a witness spread over [2, n-2], as the comment at line 29 says | not executed | Primes.IsPrimeAccepts341 | Primes.IsPrimeCorrectedRejects341 |
