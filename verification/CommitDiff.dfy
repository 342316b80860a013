/** The diff of two commits' trees: the tree diff followed by the rename pass.  What is reported
    in the end, renames taken apart again, is still the exact patch. */
module CommitDiff {
  import opened Names
  import opened FsObjects
  import opened DirJoin
  import opened TreePaths
  import opened DiffSpec
  import opened DiffPatch
  import opened FsStore
  import opened DiffReading
  import opened DiffLosses
  import opened TreeDiff
  import opened RenameResolve

  // ---- the tree diff itself reports no renames ----

  predicate IsRename(e: DiffEntry) {
    e.status in {Renamed, DirRenamed}
  }

  lemma {:induction false} TreesReportNoRename(trees: TwoLists, basedir: Path, fold: bool, e: DiffEntry)
    requires e in DiffTrees(trees, basedir, fold)
    ensures !IsRename(e)
    decreases TreesHeight(trees), 2, 0
  {
    GroupsHeightWithin(trees);
    GroupsReportNoRename(Groups(trees), basedir, fold, e);
  }

  lemma {:induction false} GroupsReportNoRename(gs: seq<Pair>, basedir: Path, fold: bool, e: DiffEntry)
    requires e in DiffGroups(gs, basedir, fold)
    ensures !IsRename(e)
    decreases GroupsHeight(gs), 1, |gs|
  {
    if e in DiffGroups(gs[1..], basedir, fold) {
      GroupsReportNoRename(gs[1..], basedir, fold, e);
    } else {
      var g: Pair := gs[0];
      var path := basedir + [GroupName(g)];
      assert e in DirDiff(g, basedir, fold) || e in FileDiff(FileOf(g[0]), FileOf(g[1]), path);
      if Descends(g, fold) && e in DiffTrees(SubTrees(g), path, fold) {
        assert HasDir(g) by { assert IsDir(g[0]) || IsDir(g[1]); }
        SubTreesAreSmaller(g);
        TreesReportNoRename(SubTrees(g), path, fold, e);
      }
    }
  }

  // ---- what a list of entries says ----

  function MeaningOf(es: seq<DiffEntry>): multiset<Fact> {
    if es == [] then multiset{} else Meaning(es[0]) + MeaningOf(es[1..])
  }

  /** Of entries without renames, the file facts about a path are its file entries. */
  lemma {:induction false} FactsAreEntries(es: seq<DiffEntry>, status: Status, p: Path, id: Id)
    requires forall e :: e in es ==> !IsRename(e)
    requires status in {Added, Deleted, Modified} && |EntriesAt(es, p)| <= 1
    ensures MeaningOf(es)[(status, p, id)]
      == if EntriesAt(es, p) != [] && EntriesAt(es, p)[0].status == status && EntriesAt(es, p)[0].id == id then 1 else 0
  {
    if es != [] {
      FactsAreEntries(es[1..], status, p, id);
      assert es[0] in es;
      assert Meaning(es[0]) == multiset{(es[0].status, es[0].path, es[0].id)};
      assert Meaning(es[0])[(status, p, id)]
        == if es[0].status == status && es[0].path == p && es[0].id == id then 1 else 0;
    }
  }

  /** The facts an exact report of the change from one tree to another consists of. */
  ghost predicate SaysExactly(facts: multiset<Fact>, tree1: seq<Dirent>, tree2: seq<Dirent>) {
    forall p: Path, id: Id ::
      var file1, file2 := FileAt(tree1, p), FileAt(tree2, p);
      && facts[(Added, p, id)] == (if file1.None? && file2.Some? && file2.value.id == id then 1 else 0)
      && facts[(Deleted, p, id)] == (if file1.Some? && file2.None? && file1.value.id == id then 1 else 0)
      && facts[(Modified, p, id)]
         == (if file1.Some? && file2.Some? && FilesDiffer(file1, file2) && file2.value.id == id then 1 else 0)
  }

  lemma DiffSaysExactly(trees: TwoLists)
    requires WellFormedPair(trees)
    ensures SaysExactly(MeaningOf(DiffTrees(trees, [], false)), trees[0], trees[1])
  {
    var es := DiffTrees(trees, [], false);
    forall e | e in es
      ensures !IsRename(e)
    {
      TreesReportNoRename(trees, [], false, e);
    }
    forall p: Path, id: Id, status | status in {Added, Deleted, Modified}
      ensures |EntriesAt(es, p)| <= 1
      ensures MeaningOf(es)[(status, p, id)]
        == if EntriesAt(es, p) != [] && EntriesAt(es, p)[0].status == status && EntriesAt(es, p)[0].id == id then 1 else 0
      ensures EntriesAt(es, p) != [] <==> FilesDiffer(FileAt(trees[0], p), FileAt(trees[1], p))
    {
      OneEntryPerChangedPath(trees, p);
      FactsAreEntries(es, status, p, id);
    }
    forall p: Path, id: Id
      ensures var file1, file2 := FileAt(trees[0], p), FileAt(trees[1], p);
        && MeaningOf(es)[(Added, p, id)] == (if file1.None? && file2.Some? && file2.value.id == id then 1 else 0)
        && MeaningOf(es)[(Deleted, p, id)] == (if file1.Some? && file2.None? && file1.value.id == id then 1 else 0)
        && MeaningOf(es)[(Modified, p, id)]
           == (if file1.Some? && file2.Some? && FilesDiffer(file1, file2) && file2.value.id == id then 1 else 0)
    {
      OneEntryPerChangedPath(trees, p);
    }
  }

  // ---- a diff that stopped early ----

  predicate NoRenames(es: seq<DiffEntry>) {
    forall e :: e in es ==> !IsRename(e)
  }

  function FactOf(e: DiffEntry): Fact {
    (e.status, e.path, e.id)
  }

  function Facts(es: seq<DiffEntry>): (r: seq<Fact>)
    ensures |r| == |es|
  {
    seq(|es|, i requires 0 <= i < |es| => FactOf(es[i]))
  }

  lemma FactsCons(es: seq<DiffEntry>)
    requires es != []
    ensures multiset(Facts(es)) == multiset{FactOf(es[0])} + multiset(Facts(es[1..]))
  {
    assert Facts(es) == [FactOf(es[0])] + Facts(es[1..]);
  }

  lemma PlainMeaning(e: DiffEntry)
    requires !IsRename(e)
    ensures Meaning(e) == multiset{FactOf(e)}
  {
  }

  /** Without renames every entry says one fact. */
  lemma {:induction false} MeaningIsFacts(es: seq<DiffEntry>)
    requires NoRenames(es)
    ensures MeaningOf(es) == multiset(Facts(es))
  {
    if es == [] {
      assert Facts(es) == [];
    } else {
      MeaningIsFacts(es[1..]);
      FactsCons(es);
      assert es[0] in es;
      PlainMeaning(es[0]);
      assert MeaningOf(es) == Meaning(es[0]) + MeaningOf(es[1..]);
    }
  }

  // ---- directories ----

  /** What a list without renames says of a path, its entries at that path say. */
  lemma {:induction false} MeaningIsLocal(es: seq<DiffEntry>, fact: Fact)
    requires NoRenames(es)
    ensures NoRenames(AllAt(es, fact.1)) && MeaningOf(es)[fact] == MeaningOf(AllAt(es, fact.1))[fact]
  {
    if es != [] {
      MeaningIsLocal(es[1..], fact);
      assert es[0] in es;
      PlainMeaning(es[0]);
      if es[0].path == fact.1 {
        assert AllAt(es, fact.1)[1..] == AllAt(es[1..], fact.1);
      } else {
        assert AllAt(es, fact.1) == AllAt(es[1..], fact.1);
      }
    }
  }

  lemma MeaningOfTwo(a: seq<DiffEntry>, b: seq<DiffEntry>)
    requires |a| <= 1
    ensures MeaningOf(a + b) == MeaningOf(a) + MeaningOf(b)
  {
    if a == [] {
      assert a + b == b;
    } else {
      assert (a + b)[0] == a[0] && (a + b)[1..] == b && a[1..] == [];
    }
  }

  lemma MeaningOfOne(e: DiffEntry)
    requires !IsRename(e)
    ensures MeaningOf([e]) == multiset{FactOf(e)}
  {
    assert [e][1..] == [];
  }

  lemma FilesSayNoDirs(file1: Option<Dirent>, file2: Option<Dirent>, path: Path, fact: Fact)
    requires fact.0 == DirAdded || fact.0 == DirDeleted
    ensures MeaningOf(FileDiff(file1, file2, path))[fact] == 0
  {
    var files := FileDiff(file1, file2, path);
    if files != [] {
      assert files == [files[0]];
      MeaningOfOne(files[0]);
    }
  }

  lemma DirsMean(tree1: Option<Dirent>, tree2: Option<Dirent>, path: Path, fold: bool, id: Id)
    ensures var said := MeaningOf(DirReport(tree1, tree2, path, fold));
      && |DirReport(tree1, tree2, path, fold)| <= 1
      && said[(DirDeleted, path, id)] == (if OnlyDir(tree1, tree2) && tree1.value.id == id then 1 else 0)
      && said[(DirAdded, path, id)]
         == (if OnlyDir(tree2, tree1) && (fold || tree2.value.id == EmptyId) && tree2.value.id == id then 1 else 0)
  {
    var dirs := DirReport(tree1, tree2, path, fold);
    if dirs != [] {
      assert dirs == [dirs[0]];
      MeaningOfOne(dirs[0]);
    }
  }

  lemma ReportMeans(tree1: Option<Dirent>, tree2: Option<Dirent>, path: Path, fold: bool, id: Id)
    ensures var said := MeaningOf(Report(tree1, tree2, path, fold));
      && said[(DirDeleted, path, id)] == (if OnlyDir(tree1, tree2) && tree1.value.id == id then 1 else 0)
      && said[(DirAdded, path, id)]
         == (if OnlyDir(tree2, tree1) && (fold || tree2.value.id == EmptyId) && tree2.value.id == id then 1 else 0)
  {
    DirsMean(tree1, tree2, path, fold, id);
    FilesSayNoDirs(FileOf(tree1), FileOf(tree2), path, (DirDeleted, path, id));
    FilesSayNoDirs(FileOf(tree1), FileOf(tree2), path, (DirAdded, path, id));
    MeaningOfTwo(DirReport(tree1, tree2, path, fold), FileDiff(FileOf(tree1), FileOf(tree2), path));
  }

  /** The directories in the report: each that only the old tree has is deleted, each that only the
      new tree has is added, unfolded only if it is empty; folded, only the topmost of them. */
  lemma DiffSaysDirs(trees: TwoLists, fold: bool, path: Path, id: Id)
    requires WellFormedPair(trees) && path != []
    ensures var said := MeaningOf(DiffTrees(trees, [], fold));
      var tree1, tree2 := EntryAt(trees[0], path), EntryAt(trees[1], path);
      var shown := !(fold && BelowOnlyDir(trees, path));
      && said[(DirDeleted, path, id)] == (if shown && OnlyDir(tree1, tree2) && tree1.value.id == id then 1 else 0)
      && said[(DirAdded, path, id)]
         == (if shown && OnlyDir(tree2, tree1) && (fold || id == EmptyId) && tree2.value.id == id then 1 else 0)
  {
    var es := DiffTrees(trees, [], fold);
    forall e | e in es ensures !IsRename(e) {
      TreesReportNoRename(trees, [], fold, e);
    }
    MeaningIsLocal(es, (DirDeleted, path, id));
    MeaningIsLocal(es, (DirAdded, path, id));
    assert [] + path == path;
    DiffSaysOfEachPath(trees, [], path, fold);
    ReportMeans(EntryAt(trees[0], path), EntryAt(trees[1], path), path, fold, id);
  }

  // ---- the part that is missing ----

  /** Two exact reports agree on every file fact. */
  lemma ExactReportsAgree(a: multiset<Fact>, b: multiset<Fact>, tree1: seq<Dirent>, tree2: seq<Dirent>,
                          status: Status, p: Path, id: Id)
    requires SaysExactly(a, tree1, tree2) && SaysExactly(b, tree1, tree2)
    requires status in {Added, Deleted, Modified}
    ensures a[(status, p, id)] == b[(status, p, id)]
  {
    assert a[(Added, p, id)] == b[(Added, p, id)];
    assert a[(Deleted, p, id)] == b[(Deleted, p, id)];
    assert a[(Modified, p, id)] == b[(Modified, p, id)];
  }

  lemma SameFileFactsSayTheSame(a: multiset<Fact>, b: multiset<Fact>, tree1: seq<Dirent>, tree2: seq<Dirent>)
    requires SaysExactly(a, tree1, tree2)
    requires forall status, p, id | status in {Added, Deleted, Modified} :: a[(status, p, id)] == b[(status, p, id)]
    ensures SaysExactly(b, tree1, tree2)
  {
    forall p: Path, id: Id
      ensures a[(Added, p, id)] == b[(Added, p, id)]
      ensures a[(Deleted, p, id)] == b[(Deleted, p, id)]
      ensures a[(Modified, p, id)] == b[(Modified, p, id)]
    {
    }
  }

  /** How often a fact is said: by the front, and by the part. */
  lemma FrontAdds(front: seq<DiffEntry>, part: seq<DiffEntry>, fact: Fact)
    requires NoRenames(front + part) && NoRenames(part)
    ensures MeaningOf(front + part)[fact] == multiset(Facts(front))[fact] + MeaningOf(part)[fact]
    ensures multiset(Facts(front))[fact] > 0 <==> exists e :: e in front && FactOf(e) == fact
  {
    MeaningIsFacts(front + part);
    MeaningIsFacts(part);
    assert Facts(front + part) == Facts(front) + Facts(part);
    FactsAreOfEntries(front, fact);
  }

  lemma FactsAreOfEntries(es: seq<DiffEntry>, fact: Fact)
    ensures fact in Facts(es) <==> exists e :: e in es && FactOf(e) == fact
  {
    if e :| e in es && FactOf(e) == fact {
      var k :| 0 <= k < |es| && es[k] == e;
      assert Facts(es)[k] == fact;
    }
  }

  lemma MissedFileIsNoticed(trees: TwoLists, front: seq<DiffEntry>, part: seq<DiffEntry>, e: DiffEntry)
    requires WellFormedPair(trees) && DiffTrees(trees, [], false) == front + part
    requires NoRenames(front + part) && NoRenames(part) && e in front && IsFileEntry(e)
    ensures !SaysExactly(MeaningOf(part), trees[0], trees[1])
  {
    DiffSaysExactly(trees);
    FrontAdds(front, part, FactOf(e));
    assert MeaningOf(front + part)[FactOf(e)] > MeaningOf(part)[FactOf(e)];
    if SaysExactly(MeaningOf(part), trees[0], trees[1]) {
      ExactReportsAgree(MeaningOf(front + part), MeaningOf(part), trees[0], trees[1], e.status, e.path, e.id);
    }
  }

  lemma MissedDirsAreNot(trees: TwoLists, front: seq<DiffEntry>, part: seq<DiffEntry>)
    requires WellFormedPair(trees) && DiffTrees(trees, [], false) == front + part
    requires NoRenames(front + part) && NoRenames(part) && forall e :: e in front ==> !IsFileEntry(e)
    ensures SaysExactly(MeaningOf(part), trees[0], trees[1])
  {
    DiffSaysExactly(trees);
    forall status, p, id | status in {Added, Deleted, Modified}
      ensures MeaningOf(front + part)[(status, p, id)] == MeaningOf(part)[(status, p, id)]
    {
      FrontAdds(front, part, (status, p, id));
    }
    SameFileFactsSayTheSame(MeaningOf(front + part), MeaningOf(part), trees[0], trees[1]);
  }

  /** The end of a diff is an exact report exactly when the missing front names no file. */
  lemma PartSaysExactly(trees: TwoLists, part: seq<DiffEntry>)
    requires WellFormedPair(trees) && Tail(DiffTrees(trees, [], false), part)
    ensures SaysExactly(MeaningOf(part), trees[0], trees[1]) <==> MissesNoFile(DiffTrees(trees, [], false), part)
  {
    var whole := DiffTrees(trees, [], false);
    var front := whole[..|whole| - |part|];
    assert whole == front + part;
    forall e | e in whole
      ensures !IsRename(e)
    {
      TreesReportNoRename(trees, [], false, e);
    }
    if MissesNoFile(whole, part) {
      MissedDirsAreNot(trees, front, part);
    } else {
      var e :| e in front && IsFileEntry(e);
      MissedFileIsNoticed(trees, front, part, e);
    }
  }

  /** What diff_trees reports for two roots is the end of the full diff, and all of it if readable. */
  lemma RootsReadTail(objs: set<Id>, root1: Id, root2: Id, fold: bool)
    ensures var whole := DiffTrees([Entries(root1), Entries(root2)], [], fold);
      && Tail(whole, ReadRoots(objs, root1, root2, fold))
      && (RootsReadable(objs, root1, root2, fold) ==> ReadRoots(objs, root1, root2, fold) == whole)
  {
    ReadingTrees(objs, [Entries(root1), Entries(root2)], [], fold);
  }

  lemma RootsMissExactly(objs: set<Id>, root1: Id, root2: Id)
    requires WellFormed(Entries(root1)) && WellFormed(Entries(root2))
    ensures var whole := DiffTrees([Entries(root1), Entries(root2)], [], false);
      var part := ReadRoots(objs, root1, root2, false);
      |part| <= |whole| && (MissesNoFile(whole, part) <==> RootsLoseNoFile(objs, root1, root2))
  {
    var trees: TwoLists := [Entries(root1), Entries(root2)];
    var whole := DiffTrees(trees, [], false);
    MissesExactly(objs, trees, []);
    SameFilesExactly(trees, []);
    assert whole[..|whole|] == whole;
  }

  /** What diff_trees reports of two well-formed roots is exact exactly when no file differs in what
      it did not get to, and so whenever everything it visits is readable. */
  lemma RootsReportExactly(objs: set<Id>, root1: Id, root2: Id)
    requires WellFormed(Entries(root1)) && WellFormed(Entries(root2))
    ensures SaysExactly(MeaningOf(ReadRoots(objs, root1, root2, false)), Entries(root1), Entries(root2))
            <==> RootsLoseNoFile(objs, root1, root2)
    ensures RootsReadable(objs, root1, root2, false) ==> RootsLoseNoFile(objs, root1, root2)
  {
    RootsReadTail(objs, root1, root2, false);
    RootsMissExactly(objs, root1, root2);
    PartSaysExactly([Entries(root1), Entries(root2)], ReadRoots(objs, root1, root2, false));
  }

  lemma RootsReportNoRename(objs: set<Id>, root1: Id, root2: Id, fold: bool)
    ensures NoRenames(ReadRoots(objs, root1, root2, fold))
  {
    RootsReadTail(objs, root1, root2, fold);
    forall e | e in ReadRoots(objs, root1, root2, fold)
      ensures !IsRename(e)
    {
      TreesReportNoRename([Entries(root1), Entries(root2)], [], fold, e);
    }
  }

  /** A new file under a root that is not stored: success is reported, with nothing in the list. */
  lemma MissingRootHidesAFile()
    ensures var file := Dirent("f", false, 0, FileId("x"), 0, "", 1);
      && WellFormed([file])
      && ReadRoots({}, EmptyId, DirId([file]), false) == []
      && !SaysExactly(MeaningOf([]), [], [file])
  {
    var file := Dirent("f", false, 0, FileId("x"), 0, "", 1);
    assert FileAt([], ["f"]).None? && FileAt([file], ["f"]) == Some(file);
    assert MeaningOf([])[(Added, ["f"], FileId("x"))] == 0;
  }

  // ---- the code ----

  lemma PrependLink(l: Link, list: seq<Link>, es: seq<DiffEntry>, k: nat)
    requires k < |es| && l.data == es[k] && MeaningAll(list) == MeaningOf(es[k + 1..])
    ensures MeaningAll([l] + list) == MeaningOf(es[k..])
    ensures RenameCount([l] + list) == RenameCount(list) + (if IsRename(es[k]) then 1 else 0)
  {
  }

  /** The result list as links. */
  method LinksOf(es: seq<DiffEntry>) returns (list: seq<Link>)
    ensures Distinct(list) && MeaningAll(list) == MeaningOf(es) && |list| == |es|
    ensures (forall e :: e in es ==> !IsRename(e)) ==> RenameCount(list) == 0
  {
    list := [];
    for k := |es| downto 0
      invariant forall l :: l in list ==> allocated(l)
      invariant Distinct(list) && MeaningAll(list) == MeaningOf(es[k..]) && |list| == |es| - k
      invariant (forall e :: e in es ==> !IsRename(e)) ==> RenameCount(list) == 0
    {
      var l := new Link(es[k]);
      PrependDistinct(l, list);
      PrependLink(l, list, es, k);
      list := [l] + list;
    }
  }

  /** The rename pass over a list that has no renames yet. */
  method Resolved(es: seq<DiffEntry>) returns (results: seq<Link>)
    requires NoRenames(es)
    ensures MeaningAll(results) == MeaningOf(es) && |results| + RenameCount(results) == |es|
  {
    var list := LinksOf(es);
    results := DiffResolveRenames(list);
  }

  /** diff_commit_roots: a failed tree diff is not reported, the results so far go through the
      rename pass all the same.  The report is exact exactly when no file differs in what the diff
      did not get to, which holds when everything it visits is readable. */
  method DiffCommitRoots(root1: Id, root2: Id, fold: bool, store: ObjStore) returns (rc: int, results: seq<Link>)
    ensures rc == 0
    ensures var entries := ReadRoots(store.objs, root1, root2, fold);
      MeaningAll(results) == MeaningOf(entries) && |results| + RenameCount(results) == |entries|
    ensures RootsReadable(store.objs, root1, root2, fold) ==>
      MeaningAll(results) == MeaningOf(DiffTrees([Entries(root1), Entries(root2)], [], fold))
    ensures !fold && WellFormed(Entries(root1)) && WellFormed(Entries(root2)) ==>
      (SaysExactly(MeaningAll(results), Entries(root1), Entries(root2))
       <==> RootsLoseNoFile(store.objs, root1, root2))
    ensures !fold && WellFormed(Entries(root1)) && WellFormed(Entries(root2)) ==>
      (RootsReadable(store.objs, root1, root2, fold) ==> RootsLoseNoFile(store.objs, root1, root2))
  {
    var data := new DiffData(fold);
    var _ := DiffTreeRoots([root1, root2], data, store);
    ghost var entries := ReadRoots(store.objs, root1, root2, fold);
    assert data.results == entries by {
      assert entries + [] == entries;
    }
    RootsReadTail(store.objs, root1, root2, fold);
    RootsReportNoRename(store.objs, root1, root2, fold);
    if !fold && WellFormed(Entries(root1)) && WellFormed(Entries(root2)) {
      RootsReportExactly(store.objs, root1, root2);
    }
    results := Resolved(data.results);
    rc := 0;
  }
}
