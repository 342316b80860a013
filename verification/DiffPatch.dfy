/** The unfolded diff is an exact patch, and the folded diff is the same patch abbreviated. */
module DiffPatch {
  import opened Names
  import opened FsObjects
  import opened DirJoin
  import opened TreePaths
  import opened DiffSpec

  predicate WellFormedPair(trees: TwoLists) {
    forall i :: 0 <= i < 2 ==> WellFormed(trees[i])
  }

  predicate IsFileEntry(e: DiffEntry) {
    e.status in {Added, Deleted, Modified}
  }

  /** All entries of a diff at one path, in list order. */
  function AllAt(es: seq<DiffEntry>, p: Path): seq<DiffEntry> {
    if es == [] then [] else (if es[0].path == p then [es[0]] else []) + AllAt(es[1..], p)
  }

  /** The file entries of a diff at one path, in list order. */
  function EntriesAt(es: seq<DiffEntry>, p: Path): seq<DiffEntry> {
    if es == [] then []
    else (if IsFileEntry(es[0]) && es[0].path == p then [es[0]] else []) + EntriesAt(es[1..], p)
  }

  lemma Regroup(x: seq<DiffEntry>, y: seq<DiffEntry>, z: seq<DiffEntry>)
    ensures x + [] == x && (x + y) + z == x + (y + z)
  {
  }

  lemma {:induction false} AllAtConcat(a: seq<DiffEntry>, b: seq<DiffEntry>, p: Path)
    ensures AllAt(a + b, p) == AllAt(a, p) + AllAt(b, p)
  {
    if a == [] {
      assert a + b == b;
    } else {
      assert (a + b)[1..] == a[1..] + b && (a + b)[0] == a[0];
      AllAtConcat(a[1..], b, p);
      Regroup(AllAt([a[0]], p), AllAt(a[1..], p), AllAt(b, p));
    }
  }

  lemma {:induction false} NothingAt(es: seq<DiffEntry>, p: Path)
    requires forall e :: e in es ==> e.path != p
    ensures AllAt(es, p) == []
  {
    if es != [] {
      NothingAt(es[1..], p);
    }
  }

  /** The file entries at a path are found among all its entries. */
  lemma {:induction false} EntriesAmongAll(es: seq<DiffEntry>, p: Path)
    ensures EntriesAt(es, p) == EntriesAt(AllAt(es, p), p)
  {
    if es != [] {
      EntriesAmongAll(es[1..], p);
      if es[0].path == p {
        assert AllAt(es, p)[1..] == AllAt(es[1..], p);
      } else {
        assert AllAt(es, p) == AllAt(es[1..], p);
      }
    }
  }

  lemma {:induction false} EntriesAtConcat(a: seq<DiffEntry>, b: seq<DiffEntry>, p: Path)
    ensures EntriesAt(a + b, p) == EntriesAt(a, p) + EntriesAt(b, p)
  {
    if a == [] {
      assert a + b == b;
    } else {
      assert (a + b)[1..] == a[1..] + b && (a + b)[0] == a[0];
      EntriesAtConcat(a[1..], b, p);
      Regroup(EntriesAt([a[0]], p), EntriesAt(a[1..], p), EntriesAt(b, p));
    }
  }

  lemma {:induction false} NoEntriesAt(es: seq<DiffEntry>, p: Path)
    requires forall e :: e in es && IsFileEntry(e) ==> e.path != p
    ensures EntriesAt(es, p) == []
  {
    if es != [] {
      NoEntriesAt(es[1..], p);
    }
  }

  // ---- where entries lie ----

  predicate Under(p: Path, basedir: Path) {
    |basedir| < |p| && p[..|basedir|] == basedir
  }

  /** Entries of a group lie at or below its own path. */
  predicate AtOrBelow(es: seq<DiffEntry>, path: Path) {
    forall e :: e in es ==> |path| <= |e.path| && e.path[..|path|] == path
  }

  lemma {:induction false} TreesStayBelow(trees: TwoLists, basedir: Path, fold: bool, e: DiffEntry)
    requires e in DiffTrees(trees, basedir, fold)
    ensures Under(e.path, basedir)
    decreases TreesHeight(trees), 2, 0
  {
    GroupsHeightWithin(trees);
    GroupsStayBelow(Groups(trees), basedir, fold, e);
  }

  lemma {:induction false} GroupsStayBelow(gs: seq<Pair>, basedir: Path, fold: bool, e: DiffEntry)
    requires e in DiffGroups(gs, basedir, fold)
    ensures Under(e.path, basedir)
    decreases GroupsHeight(gs), 1, |gs|
  {
    if e in DiffGroups(gs[1..], basedir, fold) {
      GroupsStayBelow(gs[1..], basedir, fold, e);
    } else {
      GroupStaysBelow(gs[0], basedir, fold);
      assert e.path[..|basedir|] == (basedir + [GroupName(gs[0])])[..|basedir|];
    }
  }

  lemma {:induction false} GroupStaysBelow(g: Pair, basedir: Path, fold: bool)
    ensures AtOrBelow(DiffGroup(g, basedir, fold), basedir + [GroupName(g)])
    ensures Descends(g, fold) ==>
              forall e :: e in DiffTrees(SubTrees(g), basedir + [GroupName(g)], fold) ==> Under(e.path, basedir + [GroupName(g)])
    decreases GroupHeight(g), 0
  {
    if Descends(g, fold) {
      assert IsDir(g[0]) || IsDir(g[1]);
      SubTreesAreSmaller(g);
      forall e | e in DiffTrees(SubTrees(g), basedir + [GroupName(g)], fold)
        ensures Under(e.path, basedir + [GroupName(g)])
      {
        TreesStayBelow(SubTrees(g), basedir + [GroupName(g)], fold, e);
      }
    }
  }

  // ---- only the path's own group speaks about it ----

  lemma OtherGroup(g: Pair, basedir: Path, fold: bool, p: Path)
    requires Under(p, basedir) && GroupName(g) != p[|basedir|]
    ensures AllAt(DiffGroup(g, basedir, fold), p) == []
  {
    GroupStaysBelow(g, basedir, fold);
    var path := basedir + [GroupName(g)];
    forall e | e in DiffGroup(g, basedir, fold)
      ensures e.path != p
    {
      assert e.path[|basedir|] == e.path[..|path|][|basedir|] == GroupName(g);
    }
    NothingAt(DiffGroup(g, basedir, fold), p);
  }

  lemma GroupsCons(gs: seq<Pair>, basedir: Path, fold: bool, p: Path)
    requires gs != []
    ensures AllAt(DiffGroups(gs, basedir, fold), p)
            == AllAt(DiffGroups(gs[1..], basedir, fold), p) + AllAt(DiffGroup(gs[0], basedir, fold), p)
  {
    AllAtConcat(DiffGroups(gs[1..], basedir, fold), DiffGroup(gs[0], basedir, fold), p);
  }

  lemma {:induction false} OtherGroups(gs: seq<Pair>, basedir: Path, fold: bool, p: Path)
    requires Under(p, basedir) && forall k :: 0 <= k < |gs| ==> GroupName(gs[k]) != p[|basedir|]
    ensures AllAt(DiffGroups(gs, basedir, fold), p) == []
  {
    if gs != [] {
      GroupsCons(gs, basedir, fold, p);
      OtherGroup(gs[0], basedir, fold, p);
      OtherGroups(gs[1..], basedir, fold, p);
    }
  }

  lemma {:induction false} OwnGroup(gs: seq<Pair>, k: nat, basedir: Path, fold: bool, p: Path)
    requires k < |gs| && Under(p, basedir) && GroupName(gs[k]) == p[|basedir|]
    requires forall j :: 0 <= j < |gs| && j != k ==> GroupName(gs[j]) != p[|basedir|]
    ensures AllAt(DiffGroups(gs, basedir, fold), p) == AllAt(DiffGroup(gs[k], basedir, fold), p)
  {
    GroupsCons(gs, basedir, fold, p);
    if k == 0 {
      OtherGroups(gs[1..], basedir, fold, p);
    } else {
      OtherGroup(gs[0], basedir, fold, p);
      OwnGroup(gs[1..], k - 1, basedir, fold, p);
    }
  }

  lemma OwnGroupOfTrees(trees: TwoLists, basedir: Path, fold: bool, p: Path)
    requires WellFormedPair(trees) && Under(p, basedir)
    ensures var m := p[|basedir|];
      AllAt(DiffTrees(trees, basedir, fold), p)
      == if HasName(trees, m) then AllAt(DiffGroup(LookupAll(trees, m), basedir, fold), p) else []
  {
    GroupsHeightWithin(trees);
    WalkVisitsEachNameOnce(trees);
    var gs, names := Groups(trees), GroupNames(trees);
    DescendingNamesDiffer(names);
    forall k | 0 <= k < |gs|
      ensures GroupName(gs[k]) == names[k]
    {
      assert names[k] in names;
      NameOfLookup(trees, names[k]);
    }
    if HasName(trees, p[|basedir|]) {
      var k :| 0 <= k < |names| && names[k] == p[|basedir|];
      OwnGroup(gs, k, basedir, fold, p);
    } else {
      forall k | 0 <= k < |gs| ensures names[k] != p[|basedir|] { assert names[k] in names; }
      OtherGroups(gs, basedir, fold, p);
    }
  }

  lemma NameOfLookup(trees: TwoLists, m: Name)
    requires HasName(trees, m)
    ensures GroupName(LookupAll(trees, m)) == m
  {
  }

  // ---- the patch at one path ----

  /** What the two trees call for at a path: a directory that only one of them has, and the files. */
  function Report(tree1: Option<Dirent>, tree2: Option<Dirent>, path: Path, fold: bool): seq<DiffEntry> {
    DirReport(tree1, tree2, path, fold) + FileDiff(FileOf(tree1), FileOf(tree2), path)
  }

  /** A directory that only the old tree has is deleted; one that only the new tree has is added, but
      where the diff is not folded it is added only if it is empty. */
  function DirReport(tree1: Option<Dirent>, tree2: Option<Dirent>, path: Path, fold: bool): seq<DiffEntry> {
    if OnlyDir(tree1, tree2) then
      [DiffEntry(DirDeleted, tree1.value.id, path, [], tree1.value.size, 0)]
    else if OnlyDir(tree2, tree1) && (fold || tree2.value.id == EmptyId) then
      [DiffEntry(DirAdded, tree2.value.id, path, [], tree2.value.size, 0)]
    else []
  }

  /** A directory, where the other tree has none. */
  predicate OnlyDir(one: Option<Dirent>, other: Option<Dirent>) {
    one.Some? && one.value.isDir && (other.None? || !other.value.isDir)
  }

  /** The path leads through a directory that only one of the trees has. */
  ghost predicate BelowOnlyDir(trees: TwoLists, path: Path) {
    exists k :: 0 < k < |path| && OneHasDir(trees, path[..k])
  }

  predicate OneHasDir(trees: TwoLists, path: Path) {
    OnlyDir(EntryAt(trees[0], path), EntryAt(trees[1], path)) || OnlyDir(EntryAt(trees[1], path), EntryAt(trees[0], path))
  }

  lemma {:induction false} AllHere(es: seq<DiffEntry>, p: Path)
    requires forall e :: e in es ==> e.path == p
    ensures AllAt(es, p) == es
  {
    if es != [] {
      AllHere(es[1..], p);
    }
  }

  lemma MarkIsReport(g: Pair, path: Path, fold: bool)
    ensures DirMark(g, path, fold) == DirReport(g[0], g[1], path, fold)
  {
  }

  lemma AtGroup(g: Pair, basedir: Path, fold: bool)
    requires !Unchanged(g)
    ensures var p := basedir + [GroupName(g)];
      AllAt(DiffGroup(g, basedir, fold), p) == Report(g[0], g[1], p, fold)
  {
    var p := basedir + [GroupName(g)];
    GroupStaysBelow(g, basedir, fold);
    var sub := if Descends(g, fold) then DiffTrees(SubTrees(g), p, fold) else [];
    var mark, files := DirMark(g, p, fold), FileDiff(FileOf(g[0]), FileOf(g[1]), p);
    AllAtConcat(sub + mark, files, p);
    AllAtConcat(sub, mark, p);
    NothingAt(sub, p);
    AllHere(mark, p);
    AllHere(files, p);
    MarkIsReport(g, p, fold);
  }

  lemma BelowGroup(g: Pair, basedir: Path, fold: bool, p: Path)
    requires !Unchanged(g) && Under(p, basedir + [GroupName(g)])
    ensures var path := basedir + [GroupName(g)];
      AllAt(DiffGroup(g, basedir, fold), p)
      == if Descends(g, fold) then AllAt(DiffTrees(SubTrees(g), path, fold), p) else []
  {
    var path := basedir + [GroupName(g)];
    var sub := if Descends(g, fold) then DiffTrees(SubTrees(g), path, fold) else [];
    var mark, files := DirMark(g, path, fold), FileDiff(FileOf(g[0]), FileOf(g[1]), path);
    AllAtConcat(sub + mark, files, p);
    AllAtConcat(sub, mark, p);
    NothingAt(files, p);
    NothingAt(mark, p);
  }

  /** Entries that dirent_same calls equal hide nothing, at and below them. */
  lemma UnchangedHidesNothing(g: Pair, path: Path)
    requires Unchanged(g)
    ensures FileDiff(FileOf(g[0]), FileOf(g[1]), path) == []
    ensures SubDir(g[0]) == SubDir(g[1])
    ensures forall fold :: Report(g[0], g[1], path, fold) == []
  {
  }

  lemma SameEntryNoReport(e: Option<Dirent>, path: Path, fold: bool)
    ensures Report(e, e, path, fold) == []
  {
  }

  /** A path through a name is below a directory of one tree only if that is one, or below it. */
  lemma BelowOnlyDirSplits(trees: TwoLists, path: Path)
    requires |path| > 1
    ensures var g := LookupAll(trees, path[0]);
      BelowOnlyDir(trees, path) <==> OnlyDir(g[0], g[1]) || OnlyDir(g[1], g[0]) || BelowOnlyDir(SubTrees(g), path[1..])
  {
    var g := LookupAll(trees, path[0]);
    forall k | 0 < k < |path|
      ensures OneHasDir(trees, path[..k]) <==>
              if k == 1 then OnlyDir(g[0], g[1]) || OnlyDir(g[1], g[0]) else OneHasDir(SubTrees(g), path[1..][..k - 1])
    {
      EntrySplits(trees[0], path[..k]);
      EntrySplits(trees[1], path[..k]);
      assert k > 1 ==> path[..k][1..] == path[1..][..k - 1];
    }
    if OnlyDir(g[0], g[1]) || OnlyDir(g[1], g[0]) {
      assert OneHasDir(trees, path[..1]);
    }
    if k :| 0 < k < |path[1..]| && OneHasDir(SubTrees(g), path[1..][..k]) {
      assert OneHasDir(trees, path[..k + 1]);
    }
  }

  /** The diff, folded or not, says of each path exactly what comparing the entries of the two trees
      there calls for, whatever is a file on one side and a directory on the other and whatever
      subtrees were skipped; but the folded diff is silent below a directory that only one tree has. */
  lemma {:induction false} DiffSaysOfEachPath(trees: TwoLists, basedir: Path, path: Path, fold: bool)
    requires WellFormedPair(trees) && path != []
    ensures AllAt(DiffTrees(trees, basedir, fold), basedir + path)
            == if fold && BelowOnlyDir(trees, path) then []
               else Report(EntryAt(trees[0], path), EntryAt(trees[1], path), basedir + path, fold)
    decreases |path|
  {
    var p, m := basedir + path, path[0];
    var g: Pair := LookupAll(trees, m);
    OwnGroupOfTrees(trees, basedir, fold, p);
    EntrySplits(trees[0], path);
    EntrySplits(trees[1], path);
    if |path| > 1 { BelowOnlyDirSplits(trees, path); }
    if HasName(trees, m) {
      GroupSaysOfEachPath(trees, basedir, path, fold);
    } else {
      assert g == [None, None];
      if |path| > 1 { NothingBelow(path[1..]); }
    }
  }

  lemma SubPairWellFormed(trees: TwoLists, m: Name)
    requires WellFormedPair(trees)
    ensures WellFormedPair(SubTrees(LookupAll(trees, m)))
  {
    var g := LookupAll(trees, m);
    forall i | 0 <= i < 2 ensures WellFormed(SubTrees(g)[i]) {
      assert g[i] == Lookup(trees[i], m);
      if g[i].Some? { assert WellFormedDirent(g[i].value); }
    }
  }

  lemma {:induction false} GroupSaysOfEachPath(trees: TwoLists, basedir: Path, path: Path, fold: bool)
    requires WellFormedPair(trees) && path != [] && HasName(trees, path[0])
    ensures var g := LookupAll(trees, path[0]); var p := basedir + path;
      AllAt(DiffGroup(g, basedir, fold), p)
      == if |path| == 1 then Report(g[0], g[1], p, fold)
         else if fold && (OnlyDir(g[0], g[1]) || OnlyDir(g[1], g[0]) || BelowOnlyDir(SubTrees(g), path[1..])) then []
         else Report(EntryAt(SubDir(g[0]), path[1..]), EntryAt(SubDir(g[1]), path[1..]), p, fold)
    decreases |path|, 0
  {
    var p, m := basedir + path, path[0];
    var g: Pair := LookupAll(trees, m);
    NameOfLookup(trees, m);
    if Unchanged(g) {
      UnchangedHidesNothing(g, p);
      if |path| > 1 { SameEntryNoReport(EntryAt(SubDir(g[0]), path[1..]), p, fold); }
    } else if |path| == 1 {
      assert p == basedir + [m];
      AtGroup(g, basedir, fold);
    } else {
      var path' := basedir + [m];
      assert p == path' + path[1..];
      BelowGroup(g, basedir, fold, p);
      if Descends(g, fold) {
        SubPairWellFormed(trees, m);
        DiffSaysOfEachPath(SubTrees(g), path', path[1..], fold);
      } else if !fold || !(OnlyDir(g[0], g[1]) || OnlyDir(g[1], g[0])) {
        assert SubDir(g[0]) == SubDir(g[1]) == [];
        SameEntryNoReport(EntryAt([], path[1..]), p, fold);
      }
    }
  }

  lemma {:induction false} FileOfEntry(es: seq<Dirent>, path: Path)
    requires path != []
    ensures FileAt(es, path) == FileOf(EntryAt(es, path))
    decreases |path|
  {
    EntrySplits(es, path);
    if |path| > 1 {
      FileOfEntry(SubDir(Lookup(es, path[0])), path[1..]);
      NothingBelow(path[1..]);
    }
  }

  lemma ReportedFiles(tree1: Option<Dirent>, tree2: Option<Dirent>, path: Path, fold: bool)
    ensures EntriesAt(Report(tree1, tree2, path, fold), path) == FileDiff(FileOf(tree1), FileOf(tree2), path)
  {
    EntriesAtConcat(DirReport(tree1, tree2, path, fold), FileDiff(FileOf(tree1), FileOf(tree2), path), path);
    NoEntriesAt(DirReport(tree1, tree2, path, fold), path);
  }

  /** The file entries of the unfolded diff at a path are exactly what comparing the two files found
      there calls for. */
  lemma DiffIsPointwise(trees: TwoLists, basedir: Path, path: Path)
    requires WellFormedPair(trees) && path != []
    ensures EntriesAt(DiffTrees(trees, basedir, false), basedir + path)
            == FileDiff(FileAt(trees[0], path), FileAt(trees[1], path), basedir + path)
  {
    DiffSaysOfEachPath(trees, basedir, path, false);
    EntriesAmongAll(DiffTrees(trees, basedir, false), basedir + path);
    ReportedFiles(EntryAt(trees[0], path), EntryAt(trees[1], path), basedir + path, false);
    FileOfEntry(trees[0], path);
    FileOfEntry(trees[1], path);
  }

  // ---- the main theorems ----

  /** The files at a path differ: present on one side only, or in content, permissions or time. */
  predicate FilesDiffer(tree1: Option<Dirent>, tree2: Option<Dirent>) {
    if tree1.Some? && tree2.Some? then
      || tree1.value.id != tree2.value.id || tree1.value.isDir != tree2.value.isDir
      || tree1.value.perm != tree2.value.perm || tree1.value.mtime != tree2.value.mtime
    else tree1 != tree2
  }

  /** Exactly one A, D or M entry for each path whose file differs, none for any other path,
      and each of the right kind. */
  lemma OneEntryPerChangedPath(trees: TwoLists, p: Path)
    requires WellFormedPair(trees)
    ensures var here := EntriesAt(DiffTrees(trees, [], false), p);
            var tree1, tree2 := FileAt(trees[0], p), FileAt(trees[1], p);
      && |here| == (if FilesDiffer(tree1, tree2) then 1 else 0)
      && (here != [] ==>
            && here[0].status == (if tree1.None? then Added else if tree2.None? then Deleted else Modified)
            && here[0].id == (if tree2.Some? then tree2.value.id else tree1.value.id)
            && here[0].size == (if tree2.Some? then tree2.value.size else tree1.value.size)
            && here[0].originSize == (if tree1.Some? && tree2.Some? then tree1.value.size else 0))
  {
    if p == [] {
      forall e | e in DiffTrees(trees, [], false) ensures e.path != p {
        TreesStayBelow(trees, [], false, e);
      }
      NoEntriesAt(DiffTrees(trees, [], false), p);
    } else {
      DiffIsPointwise(trees, [], p);
      assert [] + p == p;
    }
  }

  /** Applying file entries in list order to what a path holds. */
  function PatchAt(es: seq<DiffEntry>, p: Path, held: Option<Id>): Option<Id> {
    if es == [] then held
    else
      var e := es[0];
      PatchAt(es[1..], p,
        if e.path != p then held
        else match e.status
          case Added | Modified => Some(e.id)
          case Deleted => None
          case _ => held)
  }

  lemma {:induction false} OnlyOwnEntriesPatch(es: seq<DiffEntry>, p: Path, held: Option<Id>)
    ensures PatchAt(es, p, held) == PatchAt(EntriesAt(es, p), p, held)
  {
    if es != [] {
      var e := es[0];
      if IsFileEntry(e) && e.path == p {
        assert EntriesAt(es, p)[1..] == EntriesAt(es[1..], p);
        OnlyOwnEntriesPatch(es[1..], p, if e.status == Deleted then None else Some(e.id));
      } else {
        assert EntriesAt(es, p) == EntriesAt(es[1..], p);
        OnlyOwnEntriesPatch(es[1..], p, held);
      }
    }
  }

  /** Applying the diff to the old tree's path map gives the new tree's, at every path. */
  lemma DiffPatchesOldIntoNew(trees: TwoLists, p: Path)
    requires WellFormedPair(trees)
    ensures PatchAt(DiffTrees(trees, [], false), p, FileIdAt(trees[0], p)) == FileIdAt(trees[1], p)
  {
    var es := DiffTrees(trees, [], false);
    OnlyOwnEntriesPatch(es, p, FileIdAt(trees[0], p));
    OneEntryPerChangedPath(trees, p);
    var here := EntriesAt(es, p);
    if here != [] {
      EntriesAtHave(es, p);
      assert here == [here[0]];
    }
  }

  lemma {:induction false} EntriesAtHave(es: seq<DiffEntry>, p: Path)
    ensures forall e :: e in EntriesAt(es, p) ==> e in es && IsFileEntry(e) && e.path == p
  {
    if es != [] {
      EntriesAtHave(es[1..], p);
    }
  }
}
