/** What a reported conflict means: some path where both sides made changes that do not go together. */
module ConflictPaths {
  import opened Names
  import opened FsObjects
  import opened DirJoin
  import opened TreePaths
  import opened MergeSpec
  import opened MergePointwise
  import opened MergeLaws

  /** The entry is new, or not of base's kind, or of other content. */
  predicate Changed(base: Option<Dirent>, e: Dirent) {
    base.None? || base.value.isDir != e.isDir || base.value.id != e.id
  }

  /** A new or changed file on one side, a new or changed directory on the other. */
  predicate KindConflict(base: Option<Dirent>, head: Option<Dirent>, remote: Option<Dirent>) {
    && head.Some? && remote.Some? && head.value.isDir != remote.value.isDir
    && Changed(base, head.value) && Changed(base, remote.value)
  }

  predicate FilesConflictAt(trees: ThreeLists, path: Path)
  {
    PointConflict(FileIdAt(trees[0], path), FileIdAt(trees[1], path), FileIdAt(trees[2], path))
  }

  predicate KindsConflictAt(trees: ThreeLists, path: Path)
  {
    KindConflict(EntryAt(trees[0], path), EntryAt(trees[1], path), EntryAt(trees[2], path))
  }

  predicate ConflictAt(trees: ThreeLists, path: Path)
  {
    FilesConflictAt(trees, path) || KindsConflictAt(trees, path)
  }

  lemma AtName(trees: ThreeLists, m: Name)
    ensures var g := LookupAll(trees, m);
      ConflictAt(trees, [m]) <==> PointConflict(FileHere(g[0]), FileHere(g[1]), FileHere(g[2])) || KindConflict(g[0], g[1], g[2])
  {
    FileIdSplits(trees[0], [m]);
    FileIdSplits(trees[1], [m]);
    FileIdSplits(trees[2], [m]);
  }

  lemma BelowName(trees: ThreeLists, m: Name, rest: Path)
    requires rest != []
    ensures FilesConflictAt(trees, [m] + rest) == FilesConflictAt(SubTrees(LookupAll(trees, m)), rest)
    ensures KindsConflictAt(trees, [m] + rest) == KindsConflictAt(SubTrees(LookupAll(trees, m)), rest)
  {
    assert ([m] + rest)[1..] == rest;
    FileIdSplits(trees[0], [m] + rest);
    FileIdSplits(trees[1], [m] + rest);
    FileIdSplits(trees[2], [m] + rest);
  }

  /** A reported conflict lies at some path. */
  lemma {:induction false} ConflictHasPath(trees: ThreeLists) returns (path: Path)
    requires WellFormedTriple(trees) && MergeConflicts(trees)
    ensures path != [] && ConflictAt(trees, path)
    decreases TreesHeight(trees)
  {
    var m := ConflictHasName(trees);
    var g := LookupAll(trees, m);
    WellFormedGroup(trees, m);
    if ClashOf(g) != NoClash {
      AtName(trees, m);
      path := [m];
    } else {
      var rest := ConflictHasPath(SubTrees(g));
      BelowName(trees, m, rest);
      path := [m] + rest;
    }
  }

  lemma SameIdsShareTrees(g: Triple, m: Name)
    requires GroupOf(g, m)
    ensures SameId(g[0], g[1]) ==> SubDir(g[0]) == SubDir(g[1])
    ensures SameId(g[0], g[2]) ==> SubDir(g[0]) == SubDir(g[2])
    ensures SameId(g[1], g[2]) ==> SubDir(g[1]) == SubDir(g[2])
  {
    if SameId(g[0], g[1]) { SameIdSameBelow(g[0], g[1], m); }
    if SameId(g[0], g[2]) { SameIdSameBelow(g[0], g[2], m); }
    if SameId(g[1], g[2]) { SameIdSameBelow(g[1], g[2], m); }
  }

  /** Directories whose contents conflict are merged entry by entry. */
  lemma ConflictBelowRecurses(g: Triple, m: Name, rest: Path)
    requires GroupOf(g, m) && rest != [] && KindsConflictAt(SubTrees(g), rest)
    ensures DirActionOf(g).Recurse?
  {
    SameIdsShareTrees(g, m);
  }

  lemma {:induction false} KindConflictIsReported(trees: ThreeLists, path: Path)
    requires WellFormedTriple(trees) && path != [] && KindsConflictAt(trees, path)
    ensures MergeConflicts(trees)
    decreases |path|
  {
    var m := path[0];
    var g := LookupAll(trees, m);
    WellFormedGroup(trees, m);
    if |path| == 1 {
      assert path == [m];
      AtName(trees, m);
    } else {
      assert path == [m] + path[1..];
      BelowName(trees, m, path[1..]);
      ConflictBelowRecurses(g, m, path[1..]);
      KindConflictIsReported(SubTrees(g), path[1..]);
    }
    ConflictAtName(trees, m);
  }

  /** A merge reports a conflict exactly when at some path both sides have a file and changed it
      differently, or one has a new or changed file and the other a new or changed directory. */
  lemma ConflictExactly(trees: ThreeLists)
    requires WellFormedTriple(trees)
    ensures MergeConflicts(trees) <==> exists path :: path != [] && ConflictAt(trees, path)
  {
    if MergeConflicts(trees) {
      var path := ConflictHasPath(trees);
    }
    if path :| path != [] && ConflictAt(trees, path) {
      if KindsConflictAt(trees, path) {
        KindConflictIsReported(trees, path);
      } else if !MergeConflicts(trees) {
        MergeIsPointwise(Naming((d, n) => None, n => None), trees, "", path);
      }
    }
  }
}
