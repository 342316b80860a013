# Seafile's version-control core, verified

Seafile keeps libraries as content-addressed directory trees, links them into a graph of commits and
moves one branch head by compare-and-swap.  This project models that core in Dafny and proves what its
parts promise together: the three-way merge, history traversal and merge bases, the tree diff with its
rename pass, the head update protocol, and four smaller pieces of machinery (the v0 directory format,
parallel chunking, group paths, the MySQL connection pool).

Code that the repository writes as loops over mutable state is written here as methods over arrays,
objects and loop variables, each proved against a function of its inputs; the theorems are about those
functions.  Protocols are state machines whose steps any number of clients interleave.

| files | what they hold |
|---|---|
| `Names`, `FsObjects`, `FsStore`, `TreePaths` | names and strcmp order, directory objects and ids, the object store, entries by path |
| `DirJoin` | the n-way walk over sorted directories used by merge and diff |
| `MergeSpec`, `MergePointwise`, `MergeSurvival`, `MergeLaws`, `ConflictPaths`, `MergeEverywhere`, `MergeSuccess`, `ThreeWayMerge` | the three-way merge, path by path, and when it succeeds |
| `DiffSpec`, `DiffPatch`, `DiffFold`, `DiffReading`, `DiffLosses`, `TreeDiff`, `RenameResolve`, `CommitDiff` | the tree diff, also where directories are missing, and the rename pass |
| `History`, `Traversal`, `TraversalOrder`, `Paging`, `PageBreaks`, `CommitList` | traversal of the commit graph |
| `CommonAncestors`, `MergeBases` | merge bases and commit comparison |
| `HeadProtocol` | optimistic commits by many clients |
| `ByteBuffers`, `DirCodec` | the v0 directory bytes and their verifier |
| `Chunking` | fixed-size chunking by parallel workers |
| `GroupPaths`, `GroupManager`, `GroupRaces` | path texts against parent pointers, and removals that race |
| `ConnPool` | the connection pool and its callers |

`dafny verify dfyconfig.toml` checks everything.

## How the source is read

- Object ids are free terms over the content they name.  That is an injective hash of (version, entries)
  with one version per repository, and an object graph without cycles.  The empty file and the empty
  directory share one id.
- Directory entries are files or directories.  The theorems about merge and diff take well-formed trees:
  distinct names in descending order at every level, as the code says it assumes
  (common/merge-new.c:489, common/diff-simple.c:180).  The methods make no such assumption: they equal
  their specification on unsorted lists too.
- Conflict names come from two functions, one for files (by path) and one for directories (by name), that
  may find no name.  Only `FreshNamesKeepMergeWellFormed` and the theorems of `MergeEverywhere` need the
  names to be fresh: found, not in use, and different for different names.
- A history is a finite map of the commits that can be loaded, acyclic where the traversals start.
  `compute_commit_id` does not hash the parents (common/commit-mgr.c:42-61), so an id may come up again;
  `save_commit` then leaves the stored commit alone and reports success (common/commit-mgr.c:877-880).
  `AddKeepsHistory` shows that storing therefore never makes a cycle, and the protocol runs with ids
  used again.  A commit's times and parents are fields of their own; the rest of its object is one text.
- Times are unbounded integers, narrowed to 32 bits where `compare_commit_by_time` does so.  Only the
  ordering theorems take times less than 2^31 apart; `TwoCommitsInOrder` says exactly when two commits
  are ordered rightly.
- A database transaction is one atomic step on maps.  Which statement fails is a parameter.  Statements
  outside a transaction, as in the removal of a group, are steps of their own in `GroupRaces`.  A COMMIT
  that reports failure is either not applied, or applied with its answer lost (a step of its own).
- Paths of diff entries are lists of components; `PathTextIsFaithful` ties them to the slash-joined text.
- Two slips of this fork are read as intended: `de->sha` as `de->sha1` (common/diff-simple.c:621) and
  `INSERT INOT` as `INSERT INTO` (common/group-mgr.c:312).
- The pointer comparison of commits in `merge_bases_many` is a comparison of ids.
- SHA-1, encryption, the disk, ping and opening connections are function or boolean parameters.

## Where the code falls short

Each of these is a lemma with the exact condition, or with a concrete input.

- A fixed block size of 4 GiB or more truncates chunk lengths to 32 bits.  The chunks partition the file
  exactly when the file or the block size is below 2^32 (`ChunksPartitionTheFile`, `TruncationLosesAFile`).
- A chunk whose length comes out as 0 is pushed as a success with its checksum slot still zero: the worker
  asks for a buffer of 0 bytes, gets NULL and leaves without setting a result (common/fs-mgr.c:633-637).
  A finished run holds every checksum exactly when no length is a multiple of 2^32, or the hash of nothing
  is zeros (`ChecksumsExactly`), so it does wherever no length is truncated (`UntruncatedRunIsRight`).  A
  4 GiB file with blocks of 4 GiB (`fixed_block_size` of 4096 MB) is indexed successfully under a block id
  of zeros (`LargeBlockLeavesZeros`, `LargeBlockSucceeds`).
- `split_file_to_block` fails on an empty file, because it allocates no bytes for no checksums; its caller
  excludes that (`EmptyFileFails`).
- A v0 directory gives its entries back exactly when every name is a C string of at most 255 bytes and
  the last name is not empty (`DirRoundTrip`).  A name of 256 bytes comes back cut (`LongNameIsCut`), a
  nameless last entry not at all (`NamelessEntryIsLost`).
- Commit ids do not cover parents.  A password change repeated by one user within a second gets the id of
  the first: it is reported as done, but its commit was never stored (`SameSecondChangeIsDropped`).  With
  another commit in between, the head goes back and that commit is lost (`OldIdTakesTheHeadBack`).
  In a run every installed change is stored as its client made it, and stays so, exactly when every
  installed commit was stored under an unused id or under one that already named that very commit
  (`ChangesAreNeverDropped`).  No head is lost in a run exactly when every installed commit was stored
  under an unused id, or under one whose stored commit already had the expected parent among its ancestors
  (`HeadsAreNeverLost`).  The first condition implies the second (`NothingDroppedNothingLost`); the dropped
  password change meets only the second.
- Commits 2^31 seconds apart are queued in the wrong order (`FarTimesAreMisordered`,
  `TwoCommitsInOrder`).
- Pages can repeat commits (`PagesCanRepeat`).  The pages of every size are the one-shot traversal exactly
  when, wherever a single commit is queued, it reaches nothing visited before
  (`PagesAreTheTraversalExactly`).
- `diff_commit_roots` reports success also when a directory could not be read.  The tree diff itself
  succeeds exactly when every directory it visits can be loaded (`DiffTreeRoots`); the report is exact
  exactly when no file differs below the first directory that cannot be loaded or in anything met after it
  (`DiffCommitRoots`, `RootsLoseNoFile`); with an unreadable root it can be empty and wrong
  (`MissingRootHidesAFile`).
- Removing a group runs as separate statements whose failures go unnoticed.  Path texts stay right in an
  interleaving exactly when every step is safe: no group row goes while the group has a child, none stays
  behind its path row or the other way round, and no group is created under one that is half gone
  (`RunsAreRightExactly`, `ChildDuringRemoval`).
- Creating a group returns an id also when its COMMIT failed and the group does not exist
  (`CreateGroup`).

## Model

| member | source | states |
|---|---|---|
| Names.StrictTotalOrder | common/merge-new.c:453-459 | strcmp, the order of directory lists, is a strict total order |
| FsObjects.LookupFinds | common/merge-new.c:484-538 | in a sorted directory a name leads to exactly one entry, so a directory is a map from names |
| FsStore.ObjStore.GetSeafdir | common/fs-mgr.c:1877-1906 | the empty directory loads without an object, any other exactly when stored; a complete tree loads with complete subtrees |
| FsStore.ObjStore.SaveDir | common/fs-mgr.c:1855-1875 | the store grows by the directory's id only, unless it is empty; fails only where a missing object cannot be written |
| DirJoin.LargestFront | common/merge-new.c:484-505 | the scan finds the largest name at the cursors, none when all lists are used up |
| DirJoin.TakeGroup | common/merge-new.c:507-520 | exactly the cursors standing at that name give up their entry and advance |
| DirJoin.WalkVisitsEachNameOnce | common/merge-new.c:484-538 | over sorted lists the walk visits every name once, in descending order, and gathers for it what each list has under that name |
| DirJoin.GroupsHoldMembers | common/diff-simple.c:156-227 | on any lists, sorted or not, a group is not empty, is taken from its own lists and carries one name |
| ThreeWayMerge.MergeEntries | common/merge-new.c:82-322 | the file half of a group: conflict renames in place, entries kept, conflict flag raised exactly on a clash |
| ThreeWayMerge.KeepOrDrop | common/merge-new.c:346-410 | the directory cases that keep or drop a whole subtree by id equality, and exactly those |
| ThreeWayMerge.MergeDirectories | common/merge-new.c:324-451 | the directory half of a group, recursion included; the id is read from the shared register after the call that wrote it |
| ThreeWayMerge.FinishLevel | common/merge-new.c:540-557 | a level leaves the id of its sorted list in the register, and that id resolves although saving is skipped when head or remote has it |
| ThreeWayMerge.MergeTreesRecursive | common/merge-new.c:461-560 | one level computes the merge function; store and register discipline: the register ends with this call's own result, fully resolvable |
| ThreeWayMerge.SeafMergeTrees | common/merge-new.c:562-589 | the merged root, the conflict flag and, on complete trees, a fully resolvable result; it succeeds if the merge can load, name and publish what it needs with what is stored before, and only if it can with what is stored after; on complete trees exactly then |
| ThreeWayMerge.CompleteRootsMerge | common/merge-new.c:461-560 | complete trees can always be merged where no name is missing and no write fails |
| MergeSuccess.CompleteTreesMergeable | common/merge-new.c:461-560 | on complete trees whether a merge can succeed hangs only on the names it has to find and the ids it has to publish |
| MergeSpec.MergedEntries | common/merge-new.c:484-545 | an entry is in the merged directory exactly when the group of some name produced it |
| MergeSpec.ConflictingNames | common/merge-new.c:484-538 | a merge conflicts exactly when the group of some name does |
| MergePointwise.MergeIsPointwise | common/merge-new.c:115-444 | with no conflict reported, every path of the result holds what the pointwise three-way rule gives, and no path was changed differently on both sides |
| MergePointwise.QuietResultIsWellFormed | common/merge-new.c:540-548 | a conflict-free merge of well-formed trees is well formed at every level |
| MergeSurvival.HeadChangesSurvive | common/merge-new.c:115-444 | in any merge a head file that is new or changed is in the result at its own path |
| MergeSurvival.RemoteChangesSurvive | common/merge-new.c:115-444 | in any merge a remote file that is new or changed is in the result, at its path with some components conflict-renamed |
| MergeSurvival.NothingIsMadeUp | common/merge-new.c:115-444 | every file of the result is head's at that path or remote's at a path it was renamed from |
| MergeLaws.ConflictIsSymmetric | common/merge-new.c:115-319 | exchanging head and remote never changes whether a conflict is reported |
| MergeLaws.ConflictFreeMergesCommute | common/merge-new.c:115-444 | conflict-free merges commute on the map from paths to file ids |
| ConflictPaths.ConflictExactly | common/merge-new.c:115-319 | a merge reports a conflict exactly when at some path both sides changed a file differently, or one has a new or changed file and the other a new or changed directory |
| MergeLaws.UnchangedRemoteGivesHead | common/merge-new.c:346-444 | merge(b, h, b) is h, entry by entry, without conflict |
| MergeLaws.EqualSidesGiveHead | common/merge-new.c:346-444 | merge(b, h, h) is h, entry by entry, without conflict |
| MergeLaws.HeadRootComesBack | common/merge-new.c:540-557 | in both cases the merged root id is head's own root id |
| MergeLaws.UnchangedHeadGivesRemote | common/merge-new.c:346-444 | merge(b, b, r) is r up to the metadata of entries whose kind and id are unchanged |
| MergeLaws.FreshNamesKeepMergeWellFormed | common/merge-new.c:14-80 | with fresh conflict names every merge, conflicting or not, has distinct sorted names at every level |
| MergeEverywhere.EveryPath | common/merge-new.c:82-451 | in every merge, conflicting or not, the file at each path in use is the pointwise merge, with remote left out where it made way for head, and at each conflict renaming of the path it is remote's file where a conflict moved it there and nothing otherwise |
| MergeEverywhere.NothingElsewhere | common/merge-new.c:82-451 | every file of a merge lies at a path in use or at a conflict renaming of one |
| MergeEverywhere.UnchangedFileYields | common/merge-new.c:115-444 | a file that one side left as it was in base, and the other side deleted or changed, is not in any merge, neither at its path nor at a renaming of it |
| MergeEverywhere.RemoteMovesAtPrefix | common/merge-new.c:172-303 | remote makes way exactly where at some prefix of the path one side has a new or changed file and the other a new or changed directory |
| MergeEverywhere.DirectoriesExactly | common/merge-new.c:346-410 | a directory, empty or not, stays under its name unless one side deleted it and the other left it alone; remote's moves out of the way of a file of head |
| MergeEverywhere.EntriesAreTaken | common/merge-new.c:82-451 | kind, permissions, time, author and size of a merged entry are remote's where head has none or only remote changed it, and head's otherwise |
| DiffSpec.PathTextIsFaithful | common/diff-simple.c:97-154 | slash-joined texts of slash-free names stand for component lists one to one |
| TreeDiff.TwowayDiffFiles | common/diff-simple.c:265-296 | the file callback prepends the one entry the two files call for, or none |
| TreeDiff.TwowayDiffDirs | common/diff-simple.c:298-333 | the directory callback prepends its mark and says whether to descend |
| TreeDiff.DiffFiles | common/diff-simple.c:73-91 | the files of a group reach the callback, directories are left out |
| TreeDiff.DiffDirectories | common/diff-simple.c:97-154 | the directories of a group, with the recursion the callback asks for, up to the first directory that cannot be loaded |
| TreeDiff.DiffTreesRecursive | common/diff-simple.c:156-227 | one level prepends exactly its own entries; it succeeds exactly when every directory it visits can be loaded, and a failure keeps what was reported so far |
| TreeDiff.DiffTreeRoots | common/diff-simple.c:229-258 | the same from two root ids, which must load too |
| TreeDiff.CompleteRootsAreReadable | common/diff-simple.c:229-258 | trees stored completely are readable, so their diff succeeds |
| DiffReading.ReadingTrees | common/diff-simple.c:97-227 | a diff gets to its end exactly when what it visits is readable; then it reports everything, otherwise the end of the full list |
| DiffPatch.DiffIsPointwise | common/diff-simple.c:65-227 | the unfolded diff says of a path exactly what comparing the two files there says, subtree skips and file/directory swaps included |
| DiffPatch.DiffSaysOfEachPath | common/diff-simple.c:156-333 | all entries of the diff at a path, directories included: a directory only the old tree has, one only the new tree has if it is empty or the diff is folded, and the file; the folded diff is silent below a directory only one tree has |
| DiffPatch.OneEntryPerChangedPath | common/diff-simple.c:265-333 | one A, D or M entry for each path whose file differs, none elsewhere |
| DiffPatch.DiffPatchesOldIntoNew | common/diff-simple.c:156-333 | applying the unfolded diff to the old path map gives the new one at every path |
| DiffFold.OneSidedDiff | common/diff-simple.c:298-333 | the unfolded diff of a tree against nothing lists exactly its files |
| DiffFold.FoldedDiffExpands | common/diff-simple.c:156-333 | replacing each folded directory entry by the files of its subtree gives the file entries of the unfolded diff, in order |
| RenameResolve.CountEmpty | common/diff-simple.c:594-613 | empty contents are paired only when exactly one was deleted and one added |
| RenameResolve.CollectDeleted | common/diff-simple.c:617-636 | the tables hold exactly the eligible deleted contents, each with the last of its links |
| RenameResolve.CollectAdded | common/diff-simple.c:639-656 | the added list holds exactly the eligible additions, each once, the last one first |
| RenameResolve.DiffResolveRenames | common/diff-simple.c:575-702 | taking renames apart again gives the input multiset; each content both deleted and added yields exactly one rename per kind; the list shrinks by the number of renames; the rename is of the last deletion and the last addition in the list |
| CommitDiff.DiffSaysExactly | common/diff-simple.c:156-333 | the multiset of facts in the unfolded diff is exactly the change from one path map to the other |
| CommitDiff.DiffSaysDirs | common/diff-simple.c:296-333 | the report names as deleted each directory only the old tree has, and as added each only the new tree has, unfolded only the empty ones, folded only the topmost |
| CommitDiff.PartSaysExactly | common/diff-simple.c:156-333 | a diff that stopped early is still an exact report exactly when what is missing names no file |
| DiffLosses.SameFilesExactly | common/diff-simple.c:156-227 | the diff has no file entry exactly when no file differs at any path |
| DiffLosses.MissesExactly | common/diff-simple.c:156-227 | the part a stopped diff leaves out names no file exactly when, in the trees, no file differs below the directory that cannot be loaded or in any group met after it |
| CommitDiff.DiffCommitRoots | common/diff-simple.c:378-405 | always 0; the reported list, renames taken apart, is what the diff got to read; it is the exact change exactly when, in the trees, no file differs in what the diff did not get to, so whenever all visited directories are readable |
| CommitDiff.MissingRootHidesAFile | common/diff-simple.c:378-405 | two roots, one not stored, whose report is empty although a file is new |
| History.ReachStep | common/commit-mgr.c:324-353 | a commit reaches itself, what its loadable parents reach, and nothing else |
| Traversal.InsertParentCommit | common/commit-mgr.c:324-353 | a parent enters queue and visited set once; a missing one fails unless truncation is allowed |
| Traversal.TraverseCommitTree | common/commit-mgr.c:466-558 | the loop runs the callback over the queue, stops branches and fails as the recursive traversal does, and terminates on every graph |
| TraversalOrder.EveryReachableCommitOnce | common/commit-mgr.c:466-558 | a traversal that never stops visits exactly the reachable commits, each once |
| TraversalOrder.TraverseIsFold | common/commit-mgr.c:499-548 | a callback that stops branches sees the graph with those branches cut, in order; the traversal fails exactly when an uncut parent is missing and errors are not tolerated |
| TraversalOrder.TraverseUpToFault | common/commit-mgr.c:499-548 | a callback that fails or stops is run over the pruned order up to and including its first faulty visit, and the traversal succeeds exactly when there is none |
| TraversalOrder.FirstFaultIsFirst | common/commit-mgr.c:499-548 | a visit is faulty when the callback fails in the state the visits before it left, or a needed parent is missing |
| TraversalOrder.OrderIsNewestFirst | common/commit-mgr.c:314-322 | with parents older than children, visit times never increase |
| TraversalOrder.DescendantsComeFirst | common/commit-mgr.c:466-558 | then no commit is visited before one of its descendants |
| TraversalOrder.TwoCommitsInOrder | common/commit-mgr.c:314-322 | the queue orders two commits by time exactly when the sign of their difference survives the cast to 32 bits |
| TraversalOrder.FarTimesAreMisordered | common/commit-mgr.c:314-322 | commits 2^31 seconds apart come out oldest first |
| Paging.TraverseCommitTreeWithLimit | common/commit-mgr.c:355-464 | the paged loop is the page function, its resume point included |
| Paging.PageIsFold | common/commit-mgr.c:372-452 | a callback that never stops is run over exactly the page's commits |
| Paging.PageIsPrefix | common/commit-mgr.c:372-452 | a page is the beginning of the full traversal and leaves at most one commit queued |
| Paging.PageUpToFault | common/commit-mgr.c:391-441 | any callback is run over the page of the pruned history up to its first faulty visit; only a page without one gives the next start |
| Paging.PageIsShortest | common/commit-mgr.c:430-437 | a page is the shortest beginning of that order after which as many commits as the limit were gone on from, the last visited among them, with at most one commit queued, or all of it |
| Paging.PageLosesNothing | common/commit-mgr.c:355-464 | the page and everything reachable from the next start are everything reachable from the head |
| Paging.PagesVisitEverything | common/commit-mgr.c:355-464 | all pages together visit exactly what is reachable, whatever the times |
| PageBreaks.PagesAreTheTraversalExactly | common/commit-mgr.c:355-464 | the pages of every size, end to end, are the one-shot traversal exactly when a commit queued alone never reaches one visited before |
| PageBreaks.PagesAreTheTraversal | common/commit-mgr.c:355-464 | so it is when every parent is strictly older than its child |
| PageBreaks.PagesCanRepeat | common/commit-mgr.c:355-464 | a history with a misdated parent whose pages visit that parent twice |
| CommonAncestors.MaximalIsMet | common/vc-common.c:123-142 | a traversal that stops at common ancestors still meets every best one |
| CommonAncestors.FewerCommon | common/vc-common.c:66-116 | the common ancestors of two members of a down-closed set are strictly fewer, which ends the mutual recursion |
| MergeBases.CommitTreeToHash | common/vc-common.c:42-64 | all commits reachable from the head, or failure exactly when one is missing |
| MergeBases.PairBases | common/vc-common.c:66-116 | two related commits have a single best common ancestor, the older one; unrelated ones do not have each other |
| MergeBases.DropOlder | common/vc-common.c:85-100 | the inner loop empties exactly the slots below the other commit and never looks into an emptied slot |
| MergeBases.GetIndependentCommits | common/vc-common.c:66-116 | exactly the commits that are ancestors of no other in the list |
| MergeBases.MergeBasesMany | common/vc-common.c:149-205 | exactly the maximal elements of reach(one) within the union of reach(twos); empty only if there are none or a history is broken |
| MergeBases.GetMergeBase | common/vc-common.c:212-254 | terminates and finds what the rounds of the search find: the best common ancestor when it is unique, otherwise what the newest of the best has in common with the others, and so on; on criss-cross histories some common ancestor whenever all of them share one |
| MergeBases.SeveralGoOn | common/vc-common.c:231-247 | with several best common ancestors the search goes on and never ends with one of them |
| MergeBases.TwoMeetInOne | common/vc-common.c:231-247 | two best common ancestors that have a single best common ancestor lead to that one |
| MergeBases.VcCompareCommits | common/vc-common.c:270-306 | decides ancestry exactly on loadable histories; otherwise never claims more than independence |
| MergeBases.IsFastForward | common/vc-common.c:259-268 | true exactly for a proper descendant of the destination |
| CommitList.CollectsWindow | common/rpc-service.c:379-421 | the callback, stopping one branch at a time, collects exactly the window of the listed history |
| CommitList.NoTruncationListsAll | common/rpc-service.c:379-421 | without truncation the listed history is the whole traversal order |
| CommitList.CleanedHistoryIsHead | common/rpc-service.c:384-389 | with truncate time 0 only the head is listed |
| CommitList.ListedExactly | common/rpc-service.c:390-406 | whatever the times, a truncated history lists, each once, the head and the commits newer than the truncation time that it reaches through such commits |
| CommitList.ListedIsNewer | common/rpc-service.c:390-406 | with parents older than children that is the traversal order without the commits, other than the head, that are not newer than the truncation time |
| CommitList.WindowIsSlice | common/rpc-service.c:408-420 | the window holds what stands from offset on, up to the limit or the end |
| CommitList.GetCommitList | common/rpc-service.c:424-503 | the result is the slice [offset, offset + limit) of the traversal order |
| HeadProtocol.BranchManager.TestAndUpdateBranch | common/branch-mgr.c:338-399 | the head moves exactly when every statement succeeds and the row still holds the expected commit; no other branch changes |
| HeadProtocol.UpdateRow | common/branch-mgr.c:338-399 | the update step of the protocol is what the method does to the branch row |
| HeadProtocol.AddKeepsHistory | common/commit-mgr.c:866-905 | storing a commit, its id used before or not, keeps a complete history acyclic and complete |
| HeadProtocol.AddKeepsReach | common/commit-mgr.c:866-905 | what is stored keeps its ancestors |
| HeadProtocol.StepKeepsInv | common/rpc-service.c:1021-1094 | every atomic step of any client keeps the protocol invariant and only extends the log of heads |
| HeadProtocol.HeadIsAlwaysStored | common/branch-mgr.c:338-399 | in every run the head names a stored commit of an acyclic, complete history |
| HeadProtocol.StoreDecides | common/rpc-service.c:1065-1085 | whether an install keeps the head it replaces was decided when its commit was stored |
| HeadProtocol.HeadsAreNeverLost | common/rpc-service.c:1065-1085 | in a run every head stays an ancestor or self of the head exactly when every installed commit had an unused id, or one whose stored commit reaches the expected parent |
| HeadProtocol.InstalledIsStored | common/commit-mgr.c:866-905 | an install makes the stored id the head, and from then on the id names the change its client made exactly when the store met no other commit under it |
| HeadProtocol.ChangesAreNeverDropped | common/rpc-service.c:1065-1085 | in a run every installed change is stored as it was made, for good, exactly when every installed commit had an unused id or one that already named that very commit |
| HeadProtocol.NothingDroppedNothingLost | common/rpc-service.c:1065-1085 | a run that drops no change loses no head |
| HeadProtocol.HeadNeverReturns | common/branch-mgr.c:338-399 | under that condition the head never returns to a commit it has left |
| HeadProtocol.HeadReturnsExactly | common/branch-mgr.c:338-399 | whatever the ids, the head never returns exactly when no install puts back a commit that was the head before |
| HeadProtocol.SameSecondChangeIsDropped | common/rpc-service.c:1065-1085 | two password changes within a second: the second is reported as installed but was never stored, although no head is lost |
| HeadProtocol.OldIdTakesTheHeadBack | common/commit-mgr.c:877-880 | a repeated id takes the head back over another client's commit, which is lost |
| HeadProtocol.RefusalsAreDeserved | common/rpc-service.c:1021-1094 | a refusal by id mismatch means another client installed a commit since the refused one read the head |
| ByteBuffers.Copy | common/fs-mgr.c:1767-1776 | memcpy behind a moving pointer: the prefix grows by the bytes, the rest stays |
| DirCodec.WordRoundTrip | common/fs-mgr.c:1770-1772 | reading a word in network order undoes writing it |
| DirCodec.WordOrders | common/fs-mgr.c:1408-1437 | words are printed most significant byte first, and the mode is hashed least significant byte first |
| DirCodec.EntryLayout | common/fs-mgr.c:1765-1777 | where an entry's mode, id, name length and name stand behind the entries before it |
| DirCodec.SeafDirToV0Data | common/fs-mgr.c:1746-1780 | the buffer, sized by one loop and filled by another, is exactly the printed directory |
| DirCodec.SeafDirFromV0Data | common/fs-mgr.c:1533-1592 | the parsing loop equals the parser: wrong type and cut-off entries fail, long names are cut at 255 bytes, short tails are ignored |
| DirCodec.DirRoundTrip | common/fs-mgr.c:1533-1592 | parsing a printed directory gives it back exactly when its names survive |
| DirCodec.LongNameIsCut | common/fs-mgr.c:1570-1575 | a name of 256 bytes comes back one byte shorter |
| DirCodec.NamelessEntryIsLost | common/fs-mgr.c:1560-1562 | a directory whose only entry has no name comes back empty |
| DirCodec.ComputeDirIdV0 | common/fs-mgr.c:1408-1437 | the id is the hash of ids, names and little-endian modes in order, zeros for the empty directory |
| DirCodec.IdInputLayout | common/fs-mgr.c:1421-1434 | the hash is fed, for each entry in turn, its id, its name and its mode |
| DirCodec.VerifySeafdirV0 | common/fs-mgr.c:2797-2870 | accepts exactly well-formed data whose hashed entries give the id, or any well-formed data when ids are not checked |
| DirCodec.VerifierHashesTheSame | common/fs-mgr.c:2797-2870 | the verifier feeds the hash the bytes the id computation fed |
| DirCodec.SavedDirsVerify | common/fs-mgr.c:2797-2870 | every saved non-empty directory verifies; an empty one only if the hash of nothing is zeros |
| DirCodec.VerifierParses | common/fs-mgr.c:2797-2870 | verifier and parser accept the same entry bytes |
| Chunking.PushChunks | common/fs-mgr.c:721-737 | the cutting loop yields exactly the specified chunks |
| Chunking.ChunksPartitionTheFile | common/fs-mgr.c:721-737 | the chunks partition the file exactly when no length is truncated |
| Chunking.TruncationLosesAFile | common/fs-mgr.c:729 | a 4 GiB file with a 4 GiB block size becomes one empty chunk |
| Chunking.ChunkIndex | common/fs-mgr.c:691 | there are ceil(size / block) chunks, and dividing a chunk's offset by the block size gives its index |
| Chunking.BlocksMakeTheFile | common/fs-mgr.c:625-673 | the blocks of a partition, put together, are the file |
| Chunking.ChunkingWorker | common/fs-mgr.c:624-673 | a worker puts the hash of its block of the file, encrypted if the repository is, into its own 20-byte slot and changes no other byte, or nothing when it fails; for an empty chunk it changes nothing and reports success |
| Chunking.FinishedRunIsSequential | common/fs-mgr.c:675-757 | under every interleaving of byte writes and completions a finished run leaves the per-block checksums in file order, zeros for empty chunks, and had no failed worker |
| Chunking.NoneEmptyExactly | common/fs-mgr.c:721-737 | no chunk comes out empty exactly when neither the full blocks nor the rest have a length that is a multiple of 2^32 |
| Chunking.ChecksumsExactly | common/fs-mgr.c:633-673 | a finished run holds every chunk's checksum exactly when no chunk length comes out as zero, or zeros are the hash of nothing |
| Chunking.UntruncatedRunIsRight | common/fs-mgr.c:675-757 | with the file or the block size below 2^32 a finished run holds every checksum |
| Chunking.SlotsHashTheFile | common/fs-mgr.c:639-667 | then slot w is the hash of the bytes from w block sizes on, a block long or up to the end, encrypted if the repository is; a file cut short counts as padded with zeros |
| Chunking.LargeBlockLeavesZeros | common/fs-mgr.c:633-637 | a 4 GiB file in one 4 GiB block: every run leaves twenty zeros, whatever the file holds |
| Chunking.LargeBlockSucceeds | common/fs-mgr.c:633-673 | and the run reports success, whether or not reading would have failed |
| Chunking.CollectorIsNeverStuck | common/fs-mgr.c:739-753 | some step is always possible until the collector is done, and it fails only on a failed worker or an empty file |
| Chunking.EveryRunEnds | common/fs-mgr.c:675-757 | every run ends, within 23 steps for each chunk, and the collector has then finished, or failed on a failed worker or an empty file |
| Chunking.EmptyFileFails | common/fs-mgr.c:694-700 | with no blocks the allocation for their checksums is refused and every run has failed |
| GroupPaths.DecimalIsInjective | common/group-mgr.c:311-328 | equal decimal texts are equal ids |
| GroupPaths.LikePrefix | common/group-mgr.c:925-941 | a LIKE pattern ending in % is a prefix test |
| GroupPaths.LikeInside | common/group-mgr.c:925-941 | a LIKE pattern between two % is a search |
| GroupPaths.StartsWithId | common/group-mgr.c:925-941 | a path text starts with "g, " exactly when g is its first id and not its only one |
| GroupPaths.ContainsId | common/group-mgr.c:925-941 | ", g, " occurs in a path text exactly when g is neither its first nor its last id |
| GroupPaths.ListOfJoined | common/group-mgr.c:700-724 | a path text inside IN (...) names exactly its ids |
| GroupManager.EveryRunSpellsChains | common/group-mgr.c:311-328 | in every run of creations and removals, each removal one step, every path text is the joined parent chain from the root, and exactly the structured groups have one |
| GroupManager.DroppingKeepsPaths | common/group-mgr.c:490-503 | taking out both rows of a group keeps the paths right exactly when it has no child |
| GroupRaces.RunsAreRightExactly | common/group-mgr.c:461-507 | statement by statement, with any of them failing, the paths are right all along exactly when every step is safe |
| GroupRaces.RightAtRest | common/group-mgr.c:461-507 | with no removal underway, right paths are the joined parent chains |
| GroupRaces.ChildDuringRemoval | common/group-mgr.c:461-507 | a child created between check and deletes is left with a parent that is gone |
| GroupManager.SubtreeQueryIsExact | common/group-mgr.c:917-951 | the two patterns and the id select exactly the group and its transitive children |
| GroupManager.AncestorsComeRootFirst | common/group-mgr.c:693-724 | the rows a path names, ordered by id, are the parent chain with the root first |
| GroupManager.CcnetGroupManager.CreateGroup | common/group-mgr.c:254-343 | the transaction on both tables with any statement failing; an error exactly when one does or the parent is not in the structure; a failed COMMIT leaves the id without its group |
| GroupManager.CcnetGroupManager.RemoveGroup | common/group-mgr.c:461-507 | refused while a child exists; the paths stay right exactly when a structured group loses both its rows or none |
| GroupManager.CcnetGroupManager.GetDescendantsGroups | common/group-mgr.c:917-951 | exactly the groups that descend from the given one, itself included |
| GroupManager.CcnetGroupManager.GetAncestorGroups | common/group-mgr.c:693-735 | the chain root first; a group outside the structure alone; nothing for no group |
| ConnPool.DBConnPool.GetConnection | common/seaf-db.c:105-140 | the first free connection that answers is taken, else one is opened below the limit, else none |
| ConnPool.GrantsExactly | common/seaf-db.c:105-140 | a connection is granted exactly when a free one answers, which is preferred, or one can be opened below the limit |
| ConnPool.ServedExactly | common/seaf-db.c:105-140 | so is every client that asks, in every run |
| ConnPool.DBConnPool.ReleaseConnection | common/seaf-db.c:142-164 | the connection leaves the pool when it needs closing, becomes free otherwise; the rest stays |
| ConnPool.DBConnPool.StatementQuery | common/seaf-db.c:359-377 | a connection whose statement failed is out of the pool when the wrapper returns |
| ConnPool.DBConnPool.BeginTransaction | common/seaf-db.c:533-551 | a failed BEGIN closes the connection at once |
| ConnPool.SeafDBTrans.RunSql | common/seaf-db.c:560-641 | need_close is sticky over queries, COMMIT and ROLLBACK |
| ConnPool.DBConnPool.TransClose | common/seaf-db.c:553-558 | the transaction's connection goes back as need_close says |
| ConnPool.EveryRunKeepsInv | common/seaf-db.c:105-164 | every interleaving keeps the pool invariant |
| ConnPool.PoolStaysWithinLimit | common/seaf-db.c:105-140 | the pool never exceeds the limit |
| ConnPool.NoConnectionIsShared | common/seaf-db.c:105-164 | no connection is held by two clients |
| ConnPool.FailedIsNeverHandedOut | common/seaf-db.c:359-600 | a connection on which anything failed is never handed out again, however long the run |
| ConnPool.IdlePoolIsFree | common/seaf-db.c:142-164 | when all clients are idle every pooled connection is free and sound |

## Left out

- Two-way mode of `seaf_merge_trees`: it only forwards to a callback; the counter of visited directories likewise.
- `threeway_diff_files` and the diff of merges: they reuse the walk proved here with another callback.
- `diff_resolve_empty_dirs`: its prefix test ignores the "/" boundary, so its natural statement does not hold.
- Client-only fields of entries and diff results, and the JSON form of directory objects (versions above 0).
- Unconditional branch update, branch deletion and `remove_anyway` group deletion: they break the invariants on purpose.
- The retry loop of the password change as one method: a client's read, store and update are separate steps, so its rounds interleave with other clients and may repeat without bound.
- Key derivation and password hashing around the retry loop of the password change: the client's commit is a step parameter.
- A pool limit of 0, where connections are opened and closed without being pooled.
- The SQLite backend, prepared statements, table creation, LDAP, logging, configuration and message queues: plumbing.
- Content-defined chunking, `repo-mgr`, garbage collection and fsck: their source is not part of this model.
- DirCodec.SeafDirFromV0Data: the name_len field of a parsed entry is not kept apart from its name; they differ only for names with a NUL byte.
- DirCodec.SeafDirToV0Data: does not model overflow of the 32-bit buffer size, because a directory of 2 GiB cannot be built elsewhere.
- Chunking.ChunkingWorker: does not model overflow of 32-bit block indexes, which needs more than 2^31 / 20 blocks.
- GroupManager.CcnetGroupManager.CreateGroup: the new row is found by its own id; the code looks it up by name, creator and time. User rows are not modelled, ids are never reused, and BEGIN is taken to succeed, because the code goes on with a null transaction otherwise.
- Memory management, reference counts and error texts: failures are kept only where a result depends on them.
