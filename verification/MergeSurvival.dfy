/** What every merge keeps, conflicting or not: no changed file is lost and none is made up. */
module MergeSurvival {
  import opened Names
  import opened FsObjects
  import opened DirJoin
  import opened MergeSpec
  import opened MergePointwise

  /** Some chain of entries leads along the path to a file of that id. */
  ghost predicate HoldsFile(es: seq<Dirent>, path: Path, id: Id)
    decreases |path|, 0
  {
    path != [] && exists e :: e in es && e.name == path[0] && LeadsTo(e, path[1..], id)
  }

  ghost predicate LeadsTo(e: Dirent, rest: Path, id: Id)
    decreases |rest|, 1
  {
    if rest == [] then !e.isDir && e.id == id
    else e.isDir && HoldsFile(Entries(e.id), rest, id)
  }

  /** Some components of `p` replaced by their conflict names. */
  ghost predicate RenamedPath(env: Naming, basedir: string, p: Path, p': Path)
    decreases |p|
  {
    && |p| == |p'|
    && (p != [] ==>
          && RenamedStep(env, basedir, p[0], p'[0], |p| == 1)
          && RenamedPath(env, basedir + p'[0] + "/", p[1..], p'[1..]))
  }

  predicate RenamedStep(env: Naming, basedir: string, n: Name, n': Name, isFile: bool) {
    || n' == n
    || Some(n') == (if isFile then env.file(basedir, n) else env.dir(n))
  }

  lemma {:induction false} SamePathIsRenamed(env: Naming, basedir: string, p: Path)
    ensures RenamedPath(env, basedir, p, p)
    decreases |p|
  {
    if p != [] {
      SamePathIsRenamed(env, basedir + p[0] + "/", p[1..]);
    }
  }

  lemma {:induction false} FileAtHolds(es: seq<Dirent>, path: Path, id: Id)
    requires FileIdAt(es, path) == Some(id)
    ensures HoldsFile(es, path, id)
    decreases |path|
  {
    var e := Lookup(es, path[0]).value;
    if |path| > 1 {
      FileAtHolds(Entries(e.id), path[1..], id);
    }
    assert LeadsTo(e, path[1..], id);
  }

  lemma {:induction false} HoldsMeansFileAt(es: seq<Dirent>, path: Path, id: Id)
    requires WellFormed(es) && HoldsFile(es, path, id)
    ensures FileIdAt(es, path) == Some(id)
    decreases |path|
  {
    var e :| e in es && e.name == path[0] && LeadsTo(e, path[1..], id);
    LookupFinds(es, e);
    if |path| > 1 {
      assert WellFormedDirent(e);
      HoldsMeansFileAt(Entries(e.id), path[1..], id);
    }
  }

  lemma NamedGroupExists(trees: ThreeLists, i: nat, path: Path, id: Id)
    requires i < 3 && FileIdAt(trees[i], path) == Some(id)
    ensures path != [] && HasName(trees, path[0])
    ensures var g := LookupAll(trees, path[0]);
            g[i].Some? && if |path| == 1 then FileHere(g[i]) == Some(id)
                          else IsDir(g[i]) && FileBelow(g[i], path[1..]) == Some(id)
  {
  }

  lemma OutputIsMerged(env: Naming, trees: ThreeLists, basedir: string, m: Name, e: Dirent, rest: Path, id: Id)
    requires AllSorted(trees) && HasName(trees, m)
    requires e in MergeGroup(env, LookupAll(trees, m), basedir) && LeadsTo(e, rest, id)
    ensures HoldsFile(MergeTrees(env, trees, basedir), [e.name] + rest, id)
  {
    MergedEntries(env, trees, basedir, e);
    assert ([e.name] + rest)[1..] == rest;
  }

  // ---- head ----

  lemma HeadFileKept(env: Naming, g: Triple, basedir: string)
    requires IsFile(g[1]) && !(IsFile(g[0]) && SameId(g[0], g[1]))
    ensures exists e :: e in MergeGroup(env, g, basedir) && e.name == g[1].value.name && LeadsTo(e, [], g[1].value.id)
  {
  }

  /** A directory of head survives as itself or as its merge. */
  lemma HeadDirKept(env: Naming, g: Triple, basedir: string, m: Name, path: Path, id: Id) returns (e: Dirent)
    requires GroupOf(g, m) && IsDir(g[1]) && path != []
    requires FileBelow(g[1], path) == Some(id) && FileBelow(g[0], path) != Some(id)
    requires DirActionOf(g) == Recurse(1) ==>
               forall d :: HoldsFile(MergeTrees(env, SubTrees(g), d), path, id)
    ensures e in MergeGroup(env, g, basedir) && e.name == m && LeadsTo(e, path, id)
  {
    var g' := Renamed(env, basedir, g);
    assert g'[1] == g[1] && DirActionOf(g') == DirActionOf(g);
    match DirActionOf(g)
    case Drop =>
    case Take(k) =>
      FileAtHolds(Entries(g[1].value.id), path, id);
      e := g[1].value;
    case Recurse(k) =>
      var sub := MergeTrees(env, SubTrees(g'), basedir + DirName(g') + "/");
      assert SubTrees(g') == SubTrees(g);
      e := g[1].value.(id := DirIdOf(sub));
      assert Entries(e.id) == sub;
  }

  /** A head file that is new, or differs from base's file at the same path, is in the merged
      tree at that very path. */
  lemma {:induction false} HeadChangesSurvive(env: Naming, trees: ThreeLists, basedir: string, path: Path, id: Id)
    requires WellFormedTriple(trees)
    requires FileIdAt(trees[1], path) == Some(id) && FileIdAt(trees[0], path) != Some(id)
    ensures HoldsFile(MergeTrees(env, trees, basedir), path, id)
    decreases |path|
  {
    NamedGroupExists(trees, 1, path, id);
    var m := path[0];
    var g := LookupAll(trees, m);
    WellFormedGroup(trees, m);
    FileIdSplits(trees[0], path);
    assert path == [m] + path[1..];
    if |path| == 1 {
      HeadFileKept(env, g, basedir);
      var e :| e in MergeGroup(env, g, basedir) && e.name == m && LeadsTo(e, [], id);
      OutputIsMerged(env, trees, basedir, m, e, path[1..], id);
    } else {
      forall d | DirActionOf(g) == Recurse(1)
        ensures HoldsFile(MergeTrees(env, SubTrees(g), d), path[1..], id)
      {
        HeadChangesSurvive(env, SubTrees(g), d, path[1..], id);
      }
      var e := HeadDirKept(env, g, basedir, m, path[1..], id);
      OutputIsMerged(env, trees, basedir, m, e, path[1..], id);
    }
  }

  // ---- remote ----

  lemma RenamedRemote(env: Naming, g: Triple, basedir: string, m: Name)
    requires GroupOf(g, m) && g[2].Some?
    ensures var g' := Renamed(env, basedir, g);
            && g'[2].Some? && g'[2].value == g[2].value.(name := g'[2].value.name)
            && RenamedStep(env, basedir, m, g'[2].value.name, IsFile(g[2]))
            && (IsDir(g[1]) && IsDir(g[2]) ==> g' == g)
            && g'[0] == g[0] && g'[1] == g[1] && SubTrees(g') == SubTrees(g) && DirActionOf(g') == DirActionOf(g)
  {
  }

  lemma RemoteFileKept(env: Naming, g: Triple, basedir: string, m: Name) returns (e: Dirent)
    requires GroupOf(g, m) && IsFile(g[2]) && !(IsFile(g[0]) && SameId(g[0], g[2]))
    ensures e in MergeGroup(env, g, basedir) && LeadsTo(e, [], g[2].value.id)
    ensures RenamedStep(env, basedir, m, e.name, true)
  {
    RenamedRemote(env, g, basedir, m);
    var g' := Renamed(env, basedir, g);
    e := if IsFile(g[1]) && SameId(g[1], g[2]) then g[1].value else g'[2].value;
    assert e in FileOut(g');
  }

  /** A directory of remote survives, under its own or its conflict name, as itself or as its
      merge; `d` is the base directory of that merge. */
  lemma RemoteDirKept(env: Naming, g: Triple, basedir: string, m: Name, path: Path, id: Id)
    returns (e: Dirent, d: string)
    requires GroupOf(g, m) && IsDir(g[2]) && path != []
    requires FileBelow(g[2], path) == Some(id) && FileBelow(g[0], path) != Some(id)
    ensures e in MergeGroup(env, g, basedir) && e.isDir
    ensures RenamedStep(env, basedir, m, e.name, false)
    ensures d == basedir + e.name + "/"
    ensures if DirActionOf(g).Recurse? then Entries(e.id) == MergeTrees(env, SubTrees(g), d)
            else LeadsTo(e, path, id)
  {
    RenamedRemote(env, g, basedir, m);
    var g' := Renamed(env, basedir, g);
    match DirActionOf(g)
    case Drop =>
    case Take(k) =>
      if k == 1 && IsDir(g[1]) { SameIdSameBelow(g[1], g[2], m); }
      e := g'[k].value;
      FileAtHolds(Entries(e.id), path, id);
      d := basedir + e.name + "/";
    case Recurse(k) =>
      d := basedir + DirName(g') + "/";
      e := g'[k].value.(id := DirIdOf(MergeTrees(env, SubTrees(g'), d)));
  }

  /** A remote file that is new, or differs from base's file at the same path, is in the merged
      tree at that path with some components replaced by conflict names. */
  lemma {:induction false} RemoteChangesSurvive(env: Naming, trees: ThreeLists, basedir: string, path: Path, id: Id)
    returns (path': Path)
    requires WellFormedTriple(trees)
    requires FileIdAt(trees[2], path) == Some(id) && FileIdAt(trees[0], path) != Some(id)
    ensures RenamedPath(env, basedir, path, path')
    ensures HoldsFile(MergeTrees(env, trees, basedir), path', id)
    decreases |path|
  {
    NamedGroupExists(trees, 2, path, id);
    var m := path[0];
    var g := LookupAll(trees, m);
    WellFormedGroup(trees, m);
    FileIdSplits(trees[0], path);
    if |path| == 1 {
      var e := RemoteFileKept(env, g, basedir, m);
      OutputIsMerged(env, trees, basedir, m, e, [], id);
      path' := [e.name] + [];
    } else {
      var e, d := RemoteDirKept(env, g, basedir, m, path[1..], id);
      var rest := path[1..];
      if DirActionOf(g).Recurse? {
        rest := RemoteChangesSurvive(env, SubTrees(g), d, path[1..], id);
        assert LeadsTo(e, rest, id);
      } else {
        SamePathIsRenamed(env, d, rest);
      }
      OutputIsMerged(env, trees, basedir, m, e, rest, id);
      path' := [e.name] + rest;
      assert path'[1..] == rest;
    }
  }

  // ---- nothing is made up ----

  /** Where a merged file came from: head's file at that path, or remote's file at a path of
      which that one is a conflict renaming. */
  ghost predicate ComesFrom(env: Naming, trees: ThreeLists, basedir: string, path: Path, id: Id)
  {
    || FileIdAt(trees[1], path) == Some(id)
    || exists p :: RenamedPath(env, basedir, p, path) && FileIdAt(trees[2], p) == Some(id)
  }

  lemma FileOutputComes(env: Naming, trees: ThreeLists, basedir: string, m: Name, e: Dirent, path: Path)
    requires WellFormedTriple(trees) && HasName(trees, m)
    requires e in MergeGroup(env, LookupAll(trees, m), basedir) && !e.isDir && path == [e.name]
    ensures ComesFrom(env, trees, basedir, path, e.id)
  {
    var g := LookupAll(trees, m);
    WellFormedGroup(trees, m);
    if IsFile(g[1]) && e == g[1].value {
      FileIdSplits(trees[1], path);
    } else {
      RenamedRemote(env, g, basedir, m);
      assert IsFile(g[2]) && e == Renamed(env, basedir, g)[2].value;
      FileIdSplits(trees[2], [m]);
      assert RenamedPath(env, basedir, [m], path);
    }
  }

  /** A directory in the output is head's, remote's, or the merge of the two. */
  lemma DirOutput(env: Naming, g: Triple, basedir: string, m: Name, e: Dirent) returns (d: string)
    requires GroupOf(g, m) && e in MergeGroup(env, g, basedir) && e.isDir
    ensures || (IsDir(g[1]) && e == g[1].value)
            || (IsDir(g[2]) && e.id == g[2].value.id && RenamedStep(env, basedir, m, e.name, false))
            || (&& DirActionOf(g).Recurse? && Entries(e.id) == MergeTrees(env, SubTrees(g), d)
                && d == basedir + e.name + "/"
                && (IsDir(g[1]) ==> e.name == m)
                && (IsDir(g[2]) ==> RenamedStep(env, basedir, m, e.name, false)))
  {
    var g' := Renamed(env, basedir, g);
    if g[2].Some? { RenamedRemote(env, g, basedir, m); }
    d := basedir + DirName(g') + "/";
  }

  lemma RemoteOrigin(env: Naming, trees: ThreeLists, basedir: string, m: Name, p: Path, path: Path, id: Id)
    requires |path| > 1 && p != []
    requires RenamedStep(env, basedir, m, path[0], false)
    requires RenamedPath(env, basedir + path[0] + "/", p, path[1..])
    requires IsDir(Lookup(trees[2], m)) && FileBelow(Lookup(trees[2], m), p) == Some(id)
    ensures ComesFrom(env, trees, basedir, path, id)
  {
    var q := [m] + p;
    assert q[1..] == p;
    FileIdSplits(trees[2], q);
    assert RenamedPath(env, basedir, q, path);
  }

  lemma HeadOrigin(trees: ThreeLists, m: Name, path: Path, id: Id)
    requires WellFormedTriple(trees) && |path| > 1 && path[0] == m
    requires IsDir(Lookup(trees[1], m)) && HoldsFile(SubDir(Lookup(trees[1], m)), path[1..], id)
    ensures FileIdAt(trees[1], path) == Some(id)
  {
    assert WellFormedDirent(Lookup(trees[1], m).value);
    HoldsMeansFileAt(SubDir(Lookup(trees[1], m)), path[1..], id);
    FileIdSplits(trees[1], path);
  }

  /** Every file of a merged tree is a file of head or of remote. */
  lemma {:induction false} NothingIsMadeUp(env: Naming, trees: ThreeLists, basedir: string, path: Path, id: Id)
    requires WellFormedTriple(trees) && HoldsFile(MergeTrees(env, trees, basedir), path, id)
    ensures ComesFrom(env, trees, basedir, path, id)
    decreases |path|
  {
    var e :| e in MergeTrees(env, trees, basedir) && e.name == path[0] && LeadsTo(e, path[1..], id);
    WellFormedGroup(trees, "");
    MergedEntries(env, trees, basedir, e);
    var m :| HasName(trees, m) && e in MergeGroup(env, LookupAll(trees, m), basedir);
    var g := LookupAll(trees, m);
    WellFormedGroup(trees, m);
    if |path| == 1 {
      FileOutputComes(env, trees, basedir, m, e, path);
    } else {
      DirOutputComes(env, trees, basedir, m, e, path, id);
    }
  }

  lemma {:induction false} DirOutputComes(env: Naming, trees: ThreeLists, basedir: string, m: Name, e: Dirent,
                                          path: Path, id: Id)
    requires WellFormedTriple(trees) && HasName(trees, m) && |path| > 1
    requires e in MergeGroup(env, LookupAll(trees, m), basedir) && e.name == path[0] && LeadsTo(e, path[1..], id)
    ensures ComesFrom(env, trees, basedir, path, id)
    decreases |path|, 0
  {
    var g := LookupAll(trees, m);
    WellFormedGroup(trees, m);
    var rest := path[1..];
    var d := DirOutput(env, g, basedir, m, e);
    if IsDir(g[1]) && e == g[1].value {
      HeadOrigin(trees, m, path, id);
    } else if IsDir(g[2]) && e.id == g[2].value.id && RenamedStep(env, basedir, m, e.name, false) {
      assert WellFormed(SubTrees(g)[2]);
      HoldsMeansFileAt(SubDir(g[2]), rest, id);
      SamePathIsRenamed(env, basedir + path[0] + "/", rest);
      RemoteOrigin(env, trees, basedir, m, rest, path, id);
    } else {
      NothingIsMadeUp(env, SubTrees(g), d, rest, id);
      if FileIdAt(SubDir(g[1]), rest) == Some(id) {
        FileIdSplits(trees[1], path);
      } else {
        var p :| RenamedPath(env, d, p, rest) && FileIdAt(SubDir(g[2]), p) == Some(id);
        RemoteOrigin(env, trees, basedir, m, p, path, id);
      }
    }
  }
}
