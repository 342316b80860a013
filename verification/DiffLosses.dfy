/** What a diff that stops at an unreadable directory leaves out, said of the trees and the store
    alone: it is exact when no file differs in the part it did not get to. */
module DiffLosses {
  import opened Names
  import opened FsObjects
  import opened DirJoin
  import opened DiffSpec
  import opened DiffPatch
  import opened FsStore
  import opened DiffReading

  // ---- conditions on the trees and the store ----

  /** No file differs between the two trees. */
  ghost predicate SameFiles(trees: TwoLists) {
    forall p: Path :: !FilesDiffer(FileAt(trees[0], p), FileAt(trees[1], p))
  }

  /** No file differs at the name of the group or below it. */
  ghost predicate GroupSameFiles(g: Pair) {
    !FilesDiffer(FileOf(g[0]), FileOf(g[1])) && SameFiles(SubTrees(g))
  }

  ghost predicate AllSameFiles(gs: seq<Pair>) {
    forall g: Pair :: g in gs ==> GroupSameFiles(g)
  }

  /** Where the walk stops, no file differs below the directory that cannot be loaded, nor in
      anything that the walk would have met after it. */
  ghost predicate LosesNoFile(objs: set<Id>, trees: TwoLists)
    decreases TreesHeight(trees), 2, 0
  {
    GroupsHeightWithin(trees);
    GroupsLoseNoFile(objs, Groups(trees))
  }

  ghost predicate GroupsLoseNoFile(objs: set<Id>, gs: seq<Pair>)
    decreases GroupsHeight(gs), 1, |gs|
  {
    gs == [] ||
    (GroupLosesNoFile(objs, gs[0]) &&
     if GroupReadable(objs, gs[0], false) then GroupsLoseNoFile(objs, gs[1..]) else AllSameFiles(gs[1..]))
  }

  ghost predicate GroupLosesNoFile(objs: set<Id>, g: Pair)
    decreases GroupHeight(g), 0, 0
  {
    if Unchanged(g) || !Descends(g, false) then true
    else if !AllLoad(objs, g) then SameFiles(SubTrees(g))
    else
      assert HasDir(g) by { assert IsDir(g[0]) || IsDir(g[1]); }
      SubTreesAreSmaller(g);
      LosesNoFile(objs, SubTrees(g))
  }

  // ---- no file differs exactly when the diff has no file entry ----

  predicate NoFiles(es: seq<DiffEntry>) {
    forall e :: e in es ==> !IsFileEntry(e)
  }

  lemma NoFilesConcat(a: seq<DiffEntry>, b: seq<DiffEntry>)
    ensures NoFiles(a + b) <==> NoFiles(a) && NoFiles(b)
  {
    assert forall e :: e in a + b <==> e in a || e in b;
  }

  lemma {:induction false} FileEntryIsAtItsPath(es: seq<DiffEntry>, e: DiffEntry)
    requires e in es && IsFileEntry(e)
    ensures EntriesAt(es, e.path) != []
  {
    if es[0] != e {
      FileEntryIsAtItsPath(es[1..], e);
    }
  }

  lemma SameFilesExactly(trees: TwoLists, basedir: Path)
    requires WellFormedPair(trees)
    ensures SameFiles(trees) <==> NoFiles(DiffTrees(trees, basedir, false))
  {
    var es := DiffTrees(trees, basedir, false);
    forall p: Path
      ensures p != [] ==> (FilesDiffer(FileAt(trees[0], p), FileAt(trees[1], p)) <==> EntriesAt(es, basedir + p) != [])
    {
      if p != [] { DiffIsPointwise(trees, basedir, p); }
    }
    if NoFiles(es) {
      forall p: Path ensures !FilesDiffer(FileAt(trees[0], p), FileAt(trees[1], p)) {
        NoEntriesAt(es, basedir + p);
      }
    }
    if e :| e in es && IsFileEntry(e) {
      TreesStayBelow(trees, basedir, false, e);
      FileEntryIsAtItsPath(es, e);
      var p := e.path[|basedir|..];
      assert p != [] && basedir + p == e.path;
    }
  }

  predicate SubsWellFormed(gs: seq<Pair>) {
    forall g: Pair :: g in gs ==> WellFormedPair(SubTrees(g))
  }

  lemma GroupsSubsWellFormed(trees: TwoLists)
    requires WellFormedPair(trees)
    ensures AllPairs(Groups(trees)) && SubsWellFormed(Groups(trees))
  {
    GroupsHeightWithin(trees);
    forall g: Pair | g in Groups(trees) ensures WellFormedPair(SubTrees(g)) {
      GroupsHoldMembers(trees, g);
      forall i | 0 <= i < 2 ensures WellFormed(SubTrees(g)[i]) {
        if g[i].Some? { assert WellFormedDirent(g[i].value); }
      }
    }
  }

  lemma NoSubdirsSameFiles(g: Pair)
    requires Unchanged(g) || !Descends(g, false)
    ensures SameFiles(SubTrees(g))
  {
    assert SubDir(g[0]) == SubDir(g[1]);
  }

  lemma FileDiffExactly(tree1: Option<Dirent>, tree2: Option<Dirent>, path: Path)
    ensures NoFiles(FileDiff(tree1, tree2, path)) <==> !FilesDiffer(tree1, tree2)
  {
    var files := FileDiff(tree1, tree2, path);
    assert files != [] ==> files[0] in files && IsFileEntry(files[0]);
  }

  lemma DirDiffExactly(g: Pair, basedir: Path)
    requires WellFormedPair(SubTrees(g)) && !Unchanged(g)
    ensures NoFiles(DirDiff(g, basedir, false)) <==> SameFiles(SubTrees(g))
  {
    var path := basedir + [GroupName(g)];
    var sub := if Descends(g, false) then DiffTrees(SubTrees(g), path, false) else [];
    NoFilesConcat(sub, DirMark(g, path, false));
    assert DirDiff(g, basedir, false) == sub + DirMark(g, path, false);
    if Descends(g, false) {
      SameFilesExactly(SubTrees(g), path);
    } else {
      NoSubdirsSameFiles(g);
    }
  }

  lemma GroupSameFilesExactly(g: Pair, basedir: Path)
    requires WellFormedPair(SubTrees(g))
    ensures GroupSameFiles(g) <==> NoFiles(DiffGroup(g, basedir, false))
  {
    var path := basedir + [GroupName(g)];
    FileDiffExactly(FileOf(g[0]), FileOf(g[1]), path);
    if Unchanged(g) {
      UnchangedHidesNothing(g, path);
      NoSubdirsSameFiles(g);
    } else {
      NoFilesConcat(DirDiff(g, basedir, false), FileDiff(FileOf(g[0]), FileOf(g[1]), path));
      DirDiffExactly(g, basedir);
    }
  }

  lemma {:induction false} AllSameFilesExactly(gs: seq<Pair>, basedir: Path)
    requires SubsWellFormed(gs)
    ensures AllSameFiles(gs) <==> NoFiles(DiffGroups(gs, basedir, false))
  {
    if gs != [] {
      GroupSameFilesExactly(gs[0], basedir);
      AllSameFilesExactly(gs[1..], basedir);
      NoFilesConcat(DiffGroups(gs[1..], basedir, false), DiffGroup(gs[0], basedir, false));
    }
  }

  // ---- what the report misses ----

  /** What the part leaves out of the whole names no file. */
  predicate MissesNoFile(whole: seq<DiffEntry>, part: seq<DiffEntry>)
    requires |part| <= |whole|
  {
    NoFiles(whole[..|whole| - |part|])
  }

  /** The report went on to its end behind `last`: what is missing is missing before it. */
  lemma MissesBefore(whole: seq<DiffEntry>, part: seq<DiffEntry>, last: seq<DiffEntry>)
    requires |part| <= |whole|
    ensures MissesNoFile(whole + last, part + last) <==> MissesNoFile(whole, part)
  {
    assert (whole + last)[..|whole| - |part|] == whole[..|whole| - |part|];
  }

  /** The report ended within `whole`: all of `rest` is missing as well. */
  lemma MissesRest(rest: seq<DiffEntry>, whole: seq<DiffEntry>, part: seq<DiffEntry>)
    requires |part| <= |whole|
    ensures MissesNoFile(rest + whole, part) <==> NoFiles(rest) && MissesNoFile(whole, part)
  {
    var n := |whole| - |part|;
    assert (rest + whole)[..|rest| + n] == rest + whole[..n];
    NoFilesConcat(rest, whole[..n]);
  }

  /** The report of a diff misses no file exactly when the trees and the store say so. */
  lemma {:induction false} MissesExactly(objs: set<Id>, trees: TwoLists, basedir: Path)
    requires WellFormedPair(trees)
    ensures var whole, part := DiffTrees(trees, basedir, false), ReadTrees(objs, trees, basedir, false).entries;
      |part| <= |whole| && (MissesNoFile(whole, part) <==> LosesNoFile(objs, trees))
    decreases TreesHeight(trees), 2, 0
  {
    GroupsHeightWithin(trees);
    GroupsSubsWellFormed(trees);
    GroupsMissExactly(objs, Groups(trees), basedir);
  }

  lemma {:induction false} GroupsMissExactly(objs: set<Id>, gs: seq<Pair>, basedir: Path)
    requires SubsWellFormed(gs)
    ensures var whole, part := DiffGroups(gs, basedir, false), ReadGroups(objs, gs, basedir, false).entries;
      |part| <= |whole| && (MissesNoFile(whole, part) <==> GroupsLoseNoFile(objs, gs))
    decreases GroupsHeight(gs), 1, |gs|
  {
    if gs != [] {
      var whole1, whole2 := DiffGroup(gs[0], basedir, false), DiffGroups(gs[1..], basedir, false);
      var part1, part2 := ReadGroup(objs, gs[0], basedir, false).entries, ReadGroups(objs, gs[1..], basedir, false).entries;
      ReadingGroup(objs, gs[0], basedir, false);
      GroupMissesExactly(objs, gs[0], basedir);
      if GroupReadable(objs, gs[0], false) {
        GroupsMissExactly(objs, gs[1..], basedir);
        MissesBefore(whole2, part2, whole1);
        assert MissesNoFile(whole1, whole1);
      } else {
        AllSameFilesExactly(gs[1..], basedir);
        MissesRest(whole2, whole1, part1);
      }
    }
  }

  lemma {:induction false} GroupMissesExactly(objs: set<Id>, g: Pair, basedir: Path)
    requires WellFormedPair(SubTrees(g))
    ensures var whole, part := DiffGroup(g, basedir, false), ReadGroup(objs, g, basedir, false).entries;
      |part| <= |whole| && (MissesNoFile(whole, part) <==> GroupLosesNoFile(objs, g))
    decreases GroupHeight(g), 0, 1
  {
    if !Unchanged(g) {
      DirsMissExactly(objs, g, basedir);
      MissesBefore(DirDiff(g, basedir, false), ReadDirs(objs, g, basedir, false).entries,
                   FileDiff(FileOf(g[0]), FileOf(g[1]), basedir + [GroupName(g)]));
    }
  }

  lemma {:induction false} DirsMissExactly(objs: set<Id>, g: Pair, basedir: Path)
    requires WellFormedPair(SubTrees(g)) && !Unchanged(g)
    ensures var whole, part := DirDiff(g, basedir, false), ReadDirs(objs, g, basedir, false).entries;
      |part| <= |whole| && (MissesNoFile(whole, part) <==> GroupLosesNoFile(objs, g))
    decreases GroupHeight(g), 0, 0
  {
    var path := basedir + [GroupName(g)];
    var mark := DirMark(g, path, false);
    if Descends(g, false) {
      assert HasDir(g) by { assert IsDir(g[0]) || IsDir(g[1]); }
      SubTreesAreSmaller(g);
      var sub := DiffTrees(SubTrees(g), path, false);
      if AllLoad(objs, g) {
        MissesExactly(objs, SubTrees(g), path);
        MissesBefore(sub, ReadTrees(objs, SubTrees(g), path, false).entries, mark);
      } else {
        SameFilesExactly(SubTrees(g), path);
        MissesBefore(sub, [], mark);
        assert [] + mark == mark && sub[..|sub|] == sub;
      }
    }
  }

  /** Where one of the roots cannot be loaded, nothing is read. */
  ghost predicate RootsLoseNoFile(objs: set<Id>, root1: Id, root2: Id) {
    var trees: TwoLists := [Entries(root1), Entries(root2)];
    if Load(objs, root1).None? || Load(objs, root2).None? then SameFiles(trees) else LosesNoFile(objs, trees)
  }
}
