/** Every merge, conflicting or not, path by path: with fresh conflict names the file at each path,
    and at each conflict renaming of a path, is what a rule on the three trees says. */
module MergeEverywhere {
  import opened Names
  import opened FsObjects
  import opened DirJoin
  import opened MergeSpec
  import opened MergePointwise
  import opened MergeSurvival
  import opened MergeLaws
  import opened ConflictPaths

  // ---- the rule ----

  /** At this name or below it, remote has made way: a file on one side clashes with a directory on
      the other, and head keeps the name. */
  predicate RemoteMoves(trees: ThreeLists, path: Path)
    decreases |path|
  {
    if path == [] then false
    else
      var g := LookupAll(trees, path[0]);
      KindConflict(g[0], g[1], g[2]) || RemoteMoves(SubTrees(g), path[1..])
  }

  /** Remote's file clashes with what head has under the same name. */
  predicate FileMoves(g: Triple) {
    IsFile(g[2]) && (PointConflict(FileHere(g[0]), FileHere(g[1]), FileHere(g[2])) || KindConflict(g[0], g[1], g[2]))
  }

  predicate DirMoves(g: Triple) {
    IsDir(g[2]) && KindConflict(g[0], g[1], g[2])
  }

  /** Where remote's file at a path goes, if a conflict moves it. */
  function MovedPath(env: Naming, trees: ThreeLists, basedir: string, path: Path): Option<Path>
    decreases |path|
  {
    if path == [] then None
    else
      var m, g := path[0], LookupAll(trees, path[0]);
      if |path| == 1 then
        if FileMoves(g) && env.file(basedir, m).Some? then Some([env.file(basedir, m).value]) else None
      else if DirMoves(g) then
        if env.dir(m).Some? then Some([env.dir(m).value] + path[1..]) else None
      else
        match MovedPath(env, SubTrees(g), basedir + m + "/", path[1..])
        case None => None
        case Some(rest) => Some([m] + rest)
  }

  /** What the merge has at `path'`, a renaming of `path`: at the path itself the pointwise merge,
      with remote left out where it made way, and where remote's file went, remote's side of it. */
  function Expected(env: Naming, trees: ThreeLists, basedir: string, path: Path, path': Path): Option<Id> {
    var base, head, remote := FileIdAt(trees[0], path), FileIdAt(trees[1], path), FileIdAt(trees[2], path);
    if path' == path then PointMerge(base, head, if RemoteMoves(trees, path) then None else remote)
    else if MovedPath(env, trees, basedir, path) == Some(path') then PointMerge(base, None, remote)
    else None
  }

  /** Remote makes way exactly where some prefix of the path has a kind conflict. */
  lemma {:induction false} RemoteMovesAtPrefix(trees: ThreeLists, path: Path)
    ensures RemoteMoves(trees, path) <==> exists k :: 0 < k <= |path| && KindsConflictAt(trees, path[..k])
    decreases |path|
  {
    if path != [] {
      var m, rest := path[0], path[1..];
      var g := LookupAll(trees, m);
      RemoteMovesAtPrefix(SubTrees(g), rest);
      assert path[..1] == [m];
      forall k | 1 < k <= |path|
        ensures KindsConflictAt(trees, path[..k]) == KindsConflictAt(SubTrees(g), rest[..k - 1])
      {
        assert path[..k] == [m] + rest[..k - 1];
        BelowName(trees, m, rest[..k - 1]);
      }
      if k :| 0 < k <= |rest| && KindsConflictAt(SubTrees(g), rest[..k]) {
        assert KindsConflictAt(trees, path[..k + 1]);
      }
      if KindConflict(g[0], g[1], g[2]) {
        assert KindsConflictAt(trees, path[..1]);
      }
    }
  }

  // ---- trees without conflicts below ----

  /** Two of the trees are equal, or one of the sides is empty. */
  predicate OneSided(trees: ThreeLists) {
    trees[0] == trees[1] || trees[0] == trees[2] || trees[1] == trees[2] || trees[1] == [] || trees[2] == []
  }

  lemma {:induction false} OneSidedIsQuiet(env: Naming, trees: ThreeLists, basedir: string, path: Path)
    requires OneSided(trees)
    ensures !RemoteMoves(trees, path) && MovedPath(env, trees, basedir, path) == None
    decreases |path|
  {
    if path != [] {
      var g := LookupAll(trees, path[0]);
      assert OneSided(SubTrees(g));
      OneSidedIsQuiet(env, SubTrees(g), basedir + path[0] + "/", path[1..]);
    }
  }

  // ---- names ----

  predicate AllUsed(path: Path, used: set<Name>) {
    forall i :: 0 <= i < |path| ==> path[i] in used
  }

  /** A renaming that renames anything has a name that is not in use. */
  lemma {:induction false} RenamedIsFresh(env: Naming, used: set<Name>, basedir: string, path: Path, path': Path)
    requires FreshNaming(env, used) && RenamedPath(env, basedir, path, path') && AllUsed(path, used)
    ensures path' == path || !AllUsed(path', used)
    decreases |path|
  {
    if path != [] {
      if path'[0] == path[0] {
        RenamedIsFresh(env, used, basedir + path'[0] + "/", path[1..], path'[1..]);
        assert path == [path[0]] + path[1..] && path' == [path'[0]] + path'[1..];
        if i :| 0 <= i < |path'[1..]| && path'[1..][i] !in used {
          assert path'[i + 1] !in used;
        }
      } else {
        assert path'[0] !in used;
      }
    }
  }

  lemma {:induction false} NoUnusedNames(es: seq<Dirent>, used: set<Name>, path: Path)
    requires NamesAmong(es, used) && !AllUsed(path, used)
    ensures FileIdAt(es, path) == None
    decreases |path|
  {
    var e := Lookup(es, path[0]);
    FileIdSplits(es, path);
    if e.Some? && |path| > 1 {
      var i :| 0 <= i < |path| && path[i] !in used;
      assert i > 0 && path[1..][i - 1] == path[i];
      assert NamesAmong(SubDir(e), used);
      NoUnusedNames(SubDir(e), used, path[1..]);
    }
  }

  /** In a tree of names in use, a renaming leads to a file only if it is the path itself. */
  lemma OnlyThePath(env: Naming, used: set<Name>, basedir: string, es: seq<Dirent>, path: Path, path': Path)
    requires FreshNaming(env, used) && NamesAmong(es, used)
    requires RenamedPath(env, basedir, path, path') && AllUsed(path, used)
    ensures FileIdAt(es, path') == if path' == path then FileIdAt(es, path) else None
  {
    RenamedIsFresh(env, used, basedir, path, path');
    if path' != path {
      NoUnusedNames(es, used, path');
    }
  }

  // ---- one group ----

  predicate AllAmong(trees: ThreeLists, used: set<Name>) {
    forall i :: 0 <= i < 3 ==> NamesAmong(trees[i], used)
  }

  lemma {:induction false} LookupDistinct(es: seq<Dirent>, e: Dirent)
    requires DistinctNames(es) && e in es
    ensures Lookup(es, e.name) == Some(e)
  {
    if es[0] != e {
      assert e in es[1..];
      LookupDistinct(es[1..], e);
    }
  }

  /** A name that belongs to a group is looked up in the output of that group. */
  lemma FreshLookup(env: Naming, used: set<Name>, trees: ThreeLists, basedir: string, m: Name, n: Name)
    requires WellFormedTriple(trees) && FreshNaming(env, used) && AllAmong(trees, used)
    requires m in used && n in OwnNames(env, basedir, m)
    ensures Lookup(MergeTrees(env, trees, basedir), n)
            == if HasName(trees, m) then Lookup(MergeGroup(env, LookupAll(trees, m), basedir), n) else None
  {
    var merged := MergeTrees(env, trees, basedir);
    FreshNamesKeepMergeWellFormed(env, used, trees, basedir);
    WellFormedGroup(trees, m);
    forall x | x in merged && x.name == n
      ensures HasName(trees, m) && x in MergeGroup(env, LookupAll(trees, m), basedir)
    {
      OwnerOf(env, used, trees, basedir, m, x);
    }
    if HasName(trees, m) {
      var out := MergeGroup(env, LookupAll(trees, m), basedir);
      GroupOutputNames(env, used, LookupAll(trees, m), basedir, m);
      if Lookup(out, n).Some? {
        MergedEntries(env, trees, basedir, Lookup(out, n).value);
        LookupFinds(merged, Lookup(out, n).value);
      }
    }
  }

  lemma OwnerOf(env: Naming, used: set<Name>, trees: ThreeLists, basedir: string, m: Name, x: Dirent)
    requires WellFormedTriple(trees) && FreshNaming(env, used) && AllAmong(trees, used)
    requires m in used && x in MergeTrees(env, trees, basedir) && x.name in OwnNames(env, basedir, m)
    ensures HasName(trees, m) && x in MergeGroup(env, LookupAll(trees, m), basedir)
  {
    WellFormedGroup(trees, m);
    MergedEntries(env, trees, basedir, x);
    var n :| HasName(trees, n) && x in MergeGroup(env, LookupAll(trees, n), basedir);
    WellFormedGroup(trees, n);
    TreesUse(trees, used, n);
    GroupOutputNames(env, used, LookupAll(trees, n), basedir, n);
    SameOwner(env, used, basedir, m, n, x.name);
  }

  lemma SameOwner(env: Naming, used: set<Name>, basedir: string, m: Name, n: Name, name: Name)
    requires FreshNaming(env, used) && m in used && n in used
    requires name in OwnNames(env, basedir, m) && name in OwnNames(env, basedir, n)
    ensures m == n
  {
    if m != n { OwnNamesDoNotMeet(env, used, basedir, m, n); }
  }

  /** What a group gives to a name: the one entry that has it. */
  lemma GivenName(env: Naming, used: set<Name>, g: Triple, basedir: string, m: Name, e: Dirent)
    requires GroupOf(g, m) && FreshNaming(env, used) && m in used && e in MergeGroup(env, g, basedir)
    ensures Lookup(MergeGroup(env, g, basedir), e.name) == Some(e)
  {
    GroupOutputNames(env, used, g, basedir, m);
    LookupDistinct(MergeGroup(env, g, basedir), e);
  }

  /** The files of a group: head's or remote's under the name itself, and remote's under its conflict
      name if it moves. */
  lemma FilesGiven(env: Naming, used: set<Name>, g: Triple, basedir: string, m: Name, e: Dirent)
    requires GroupOf(g, m) && FreshNaming(env, used) && m in used && e in MergeGroup(env, g, basedir) && !e.isDir
    ensures if e.name == m then
              Some(e.id) == PointMerge(FileHere(g[0]), FileHere(g[1]), if KindConflict(g[0], g[1], g[2]) then None else FileHere(g[2]))
            else FileMoves(g) && Some(e.name) == env.file(basedir, m) && Some(e.id) == FileHere(g[2])
  {
    var g' := Renamed(env, basedir, g);
    assert e in FileOut(g');
  }

  /** And they are there. */
  lemma FileGiven(env: Naming, used: set<Name>, g: Triple, basedir: string, m: Name)
    requires GroupOf(g, m) && FreshNaming(env, used) && m in used
    ensures PointMerge(FileHere(g[0]), FileHere(g[1]), if KindConflict(g[0], g[1], g[2]) then None else FileHere(g[2])).Some? ==>
              exists e :: e in MergeGroup(env, g, basedir) && !e.isDir && e.name == m
    ensures FileMoves(g) ==> exists e :: e in MergeGroup(env, g, basedir) && !e.isDir && Some(e.name) == env.file(basedir, m)
  {
    var g' := Renamed(env, basedir, g);
    assert forall e :: e in FileOut(g') ==> e in MergeGroup(env, g, basedir);
    if FileMoves(g) {
      assert g'[2].value in FileOut(g');
    }
    if IsFile(g[1]) && g'[1].value in FileOut(g') {
      assert !g'[1].value.isDir && g'[1].value.name == m;
    } else if IsFile(g[2]) && g'[2].value in FileOut(g') {
      assert !g'[2].value.isDir;
    }
  }

  /** The last component of a path. */
  lemma FileRule(env: Naming, used: set<Name>, g: Triple, basedir: string, m: Name, n: Name)
    requires GroupOf(g, m) && FreshNaming(env, used) && m in used
    requires n == m || Some(n) == env.file(basedir, m)
    ensures var file := FileHere(Lookup(MergeGroup(env, g, basedir), n));
      var base, head, remote := FileHere(g[0]), FileHere(g[1]), FileHere(g[2]);
      file == if n == m then PointMerge(base, head, if KindConflict(g[0], g[1], g[2]) then None else remote)
              else if FileMoves(g) then PointMerge(base, None, remote) else None
  {
    var o := Lookup(MergeGroup(env, g, basedir), n);
    FileGiven(env, used, g, basedir, m);
    forall e | e in MergeGroup(env, g, basedir)
      ensures Lookup(MergeGroup(env, g, basedir), e.name) == Some(e)
    {
      GivenName(env, used, g, basedir, m, e);
    }
    if IsFile(o) { FilesGiven(env, used, g, basedir, m, o.value); }
  }

  /** The directory that a group leaves under its own name, or under the conflict name of remote's
      directory if that moves. */
  function DirLeft(env: Naming, g: Triple, basedir: string, n: Name): seq<Dirent> {
    match DirActionOf(g)
    case Drop => []
    case Take(k) => SubDir(g[k])
    case Recurse(_) => MergeTrees(env, SubTrees(g), basedir + n + "/")
  }

  lemma DirsGiven(env: Naming, used: set<Name>, g: Triple, basedir: string, m: Name, e: Dirent)
    requires GroupOf(g, m) && FreshNaming(env, used) && m in used && e in MergeGroup(env, g, basedir) && e.isDir
    ensures if DirMoves(g) then Some(e.name) == env.dir(m) && e.name != m else e.name == m
    ensures Entries(e.id) == DirLeft(env, g, basedir, e.name)
  {
    var g' := Renamed(env, basedir, g);
    assert e in DirOut(env, g', basedir);
    if g[2].Some? { RenamedRemote(env, g, basedir, m); }
    match DirActionOf(g)
    case Drop =>
    case Take(k) =>
    case Recurse(k) => assert DirName(g') == e.name;
  }

  lemma DirGiven(env: Naming, used: set<Name>, g: Triple, basedir: string, m: Name)
    requires GroupOf(g, m) && FreshNaming(env, used) && m in used && !DirActionOf(g).Drop?
    ensures exists e :: e in MergeGroup(env, g, basedir) && e.isDir
  {
    var g' := Renamed(env, basedir, g);
    if g[2].Some? { RenamedRemote(env, g, basedir, m); }
    assert DirOut(env, g', basedir)[0] in MergeGroup(env, g, basedir);
  }

  /** The directory under a name. */
  lemma DirRule(env: Naming, used: set<Name>, g: Triple, basedir: string, m: Name, n: Name)
    requires GroupOf(g, m) && FreshNaming(env, used) && m in used
    requires n == m || Some(n) == env.dir(m)
    ensures SubDir(Lookup(MergeGroup(env, g, basedir), n))
            == if DirMoves(g) == (n == m) then [] else DirLeft(env, g, basedir, n)
  {
    var o := Lookup(MergeGroup(env, g, basedir), n);
    if IsDir(o) {
      DirsGiven(env, used, g, basedir, m, o.value);
    } else if !DirActionOf(g).Drop? {
      DirGiven(env, used, g, basedir, m);
      var e :| e in MergeGroup(env, g, basedir) && e.isDir;
      DirsGiven(env, used, g, basedir, m, e);
      GivenName(env, used, g, basedir, m, e);
    }
  }

  // ---- every path of every merge ----

  lemma MovedBelow(env: Naming, trees: ThreeLists, basedir: string, path: Path, path': Path)
    requires |path| > 1 && |path'| == |path|
    ensures var m, n := path[0], path'[0]; var g := LookupAll(trees, m);
      MovedPath(env, trees, basedir, path) == Some(path') <==>
        if DirMoves(g) then Some(n) == env.dir(m) && path'[1..] == path[1..]
        else n == m && MovedPath(env, SubTrees(g), basedir + m + "/", path[1..]) == Some(path'[1..])
  {
    var m, n := path[0], path'[0];
    assert path' == [n] + path'[1..];
    if env.dir(m).Some? {
      var moved := [env.dir(m).value] + path[1..];
      assert moved[0] == env.dir(m).value && moved[1..] == path[1..];
    }
    var below := MovedPath(env, SubTrees(LookupAll(trees, m)), basedir + m + "/", path[1..]);
    if below.Some? {
      assert ([m] + below.value)[0] == m && ([m] + below.value)[1..] == below.value;
    }
  }

  lemma SubTreesFresh(trees: ThreeLists, used: set<Name>, m: Name)
    requires WellFormedTriple(trees) && AllAmong(trees, used) && HasName(trees, m)
    ensures GroupOf(LookupAll(trees, m), m)
    ensures WellFormedTriple(SubTrees(LookupAll(trees, m))) && AllAmong(SubTrees(LookupAll(trees, m)), used)
  {
    WellFormedGroup(trees, m);
    TreesUse(trees, used, m);
  }

  /** Directories that are kept or dropped whole have no conflict below. */
  lemma WholeIsOneSided(g: Triple, m: Name)
    requires GroupOf(g, m) && !DirActionOf(g).Recurse?
    ensures OneSided(SubTrees(g))
  {
    SameIdsShareTrees(g, m);
  }

  /** What the pointwise rule says below directories that are kept or dropped whole. */
  lemma WholeRule(env: Naming, g: Triple, basedir: string, m: Name, n: Name, rest: Path)
    requires GroupOf(g, m) && !DirActionOf(g).Recurse? && (DirMoves(g) ==> n != m)
    ensures FileIdAt(DirLeft(env, g, basedir, n), rest)
            == PointMerge(FileBelow(g[0], rest), FileBelow(g[1], rest), FileBelow(g[2], rest))
  {
    SameIdsShareTrees(g, m);
  }

  lemma WholeNamesUsed(env: Naming, used: set<Name>, g: Triple, basedir: string, n: Name)
    requires !DirActionOf(g).Recurse? && AllAmong(SubTrees(g), used)
    ensures NamesAmong(DirLeft(env, g, basedir, n), used)
  {
    var subs := SubTrees(g);
    assert subs[1] == SubDir(g[1]) && subs[2] == SubDir(g[2]);
  }

  /** Below a name the rule is that of what is below, where a directory is left under the name. */
  lemma ExpectedBelow(env: Naming, trees: ThreeLists, basedir: string, path: Path, path': Path)
    requires |path| > 1 && |path'| == |path|
    ensures var m, n := path[0], path'[0]; var g := LookupAll(trees, m);
      Expected(env, trees, basedir, path, path')
      == if (DirMoves(g) && Some(n) == env.dir(m) && n != m) || (!DirMoves(g) && n == m)
         then Expected(env, SubTrees(g), basedir + n + "/", path[1..], path'[1..])
         else None
  {
    var m, n, rest, rest' := path[0], path'[0], path[1..], path'[1..];
    var g := LookupAll(trees, m);
    assert path == [m] + rest && path' == [n] + rest';
    MovedBelow(env, trees, basedir, path, path');
    FileIdSplits(trees[0], path);
    FileIdSplits(trees[1], path);
    FileIdSplits(trees[2], path);
    assert SubTrees(g) == [SubDir(g[0]), SubDir(g[1]), SubDir(g[2])];
    NoFileBelow(g[1], rest);
    NoFileBelow(g[2], rest);
    if DirMoves(g) {
      DirMovesAlone(g);
      ExpectedOneSided(env, SubTrees(g), basedir + n + "/", rest, rest');
    }
  }

  lemma NoFileBelow(o: Option<Dirent>, rest: Path)
    ensures !IsDir(o) ==> FileBelow(o, rest) == None
  {
  }

  lemma ExpectedHere(env: Naming, trees: ThreeLists, basedir: string, path: Path, path': Path)
    requires |path| == 1 && |path'| == 1
    ensures var m, n := path[0], path'[0];
      var g := LookupAll(trees, m);
      var base, head, remote := FileHere(g[0]), FileHere(g[1]), FileHere(g[2]);
      Expected(env, trees, basedir, path, path')
      == if n == m then PointMerge(base, head, if KindConflict(g[0], g[1], g[2]) then None else remote)
         else if FileMoves(g) && Some(n) == env.file(basedir, m) then PointMerge(base, None, remote) else None
  {
    assert path == [path[0]] && path' == [path'[0]] && path[1..] == [];
    assert !RemoteMoves(SubTrees(LookupAll(trees, path[0])), []);
    FileIdSplits(trees[0], path);
    FileIdSplits(trees[1], path);
    FileIdSplits(trees[2], path);
  }

  lemma RenamedBelow(env: Naming, used: set<Name>, basedir: string, path: Path, path': Path)
    requires RenamedPath(env, basedir, path, path') && AllUsed(path, used) && |path| > 1
    ensures RenamedPath(env, basedir + path'[0] + "/", path[1..], path'[1..]) && AllUsed(path[1..], used)
    ensures path[0] in used && (path'[0] == path[0] || Some(path'[0]) == env.dir(path[0]))
  {
  }

  /** What is below a name: the directories kept or dropped whole, or the merge of what is below. */
  lemma {:induction false} BelowAName(env: Naming, used: set<Name>, trees: ThreeLists, basedir: string, path: Path, path': Path)
    requires WellFormedTriple(trees) && FreshNaming(env, used) && AllAmong(trees, used)
    requires RenamedPath(env, basedir, path, path') && AllUsed(path, used) && |path| > 1 && HasName(trees, path[0])
    requires DirMoves(LookupAll(trees, path[0])) != (path'[0] == path[0])
    ensures var g := LookupAll(trees, path[0]); var d := basedir + path'[0] + "/";
      FileIdAt(DirLeft(env, g, basedir, path'[0]), path'[1..]) == Expected(env, SubTrees(g), d, path[1..], path'[1..])
    decreases |path|, 0
  {
    var m, n := path[0], path'[0];
    var g := LookupAll(trees, m);
    SubTreesFresh(trees, used, m);
    RenamedBelow(env, used, basedir, path, path');
    if DirActionOf(g).Recurse? {
      EveryPath(env, used, SubTrees(g), basedir + n + "/", path[1..], path'[1..]);
    } else {
      WholeIsExpected(env, used, g, basedir, m, n, path[1..], path'[1..]);
    }
  }

  /** Directories that are kept or dropped whole. */
  lemma WholeIsExpected(env: Naming, used: set<Name>, g: Triple, basedir: string, m: Name, n: Name, rest: Path, rest': Path)
    requires GroupOf(g, m) && !DirActionOf(g).Recurse? && DirMoves(g) != (n == m)
    requires FreshNaming(env, used) && AllAmong(SubTrees(g), used)
    requires RenamedPath(env, basedir + n + "/", rest, rest') && AllUsed(rest, used)
    ensures FileIdAt(DirLeft(env, g, basedir, n), rest') == Expected(env, SubTrees(g), basedir + n + "/", rest, rest')
  {
    WholeIsOneSided(g, m);
    WholeNamesUsed(env, used, g, basedir, n);
    WholeRule(env, g, basedir, m, n, rest);
    OnlyThePath(env, used, basedir + n + "/", DirLeft(env, g, basedir, n), rest, rest');
    ExpectedOneSided(env, SubTrees(g), basedir + n + "/", rest, rest');
  }

  /** A directory of remote that moves has a file of head in its place. */
  lemma DirMovesAlone(g: Triple)
    requires DirMoves(g)
    ensures !IsDir(g[1]) && SubTrees(g)[1] == [] && OneSided(SubTrees(g))
  {
  }

  lemma ExpectedOneSided(env: Naming, trees: ThreeLists, basedir: string, path: Path, path': Path)
    requires OneSided(trees)
    ensures Expected(env, trees, basedir, path, path')
            == if path' == path then PointMerge(FileIdAt(trees[0], path), FileIdAt(trees[1], path), FileIdAt(trees[2], path))
               else None
  {
    OneSidedIsQuiet(env, trees, basedir, path);
  }

  /** Every merge of well-formed trees, conflicting or not: with fresh conflict names, the file at a
      path of names in use, and at every conflict renaming of that path, is the expected one. */
  lemma {:induction false} EveryPath(env: Naming, used: set<Name>, trees: ThreeLists, basedir: string, path: Path, path': Path)
    requires WellFormedTriple(trees) && FreshNaming(env, used) && AllAmong(trees, used)
    requires RenamedPath(env, basedir, path, path') && AllUsed(path, used)
    ensures FileIdAt(MergeTrees(env, trees, basedir), path') == Expected(env, trees, basedir, path, path')
    decreases |path|
  {
    if path != [] {
      var m, n := path[0], path'[0];
      var g := LookupAll(trees, m);
      assert m in used && n in OwnNames(env, basedir, m);
      FreshLookup(env, used, trees, basedir, m, n);
      FileIdSplits(MergeTrees(env, trees, basedir), path');
      WellFormedGroup(trees, m);
      if !HasName(trees, m) {
        AbsentIsExpected(env, trees, basedir, path, path');
      } else if |path| == 1 {
        ExpectedHere(env, trees, basedir, path, path');
        HereRule(env, used, g, basedir, m, n);
      } else {
        ExpectedBelow(env, trees, basedir, path, path');
        RenamedBelow(env, used, basedir, path, path');
        DirRule(env, used, g, basedir, m, n);
        if DirMoves(g) != (n == m) { BelowAName(env, used, trees, basedir, path, path'); }
      }
    }
  }

  lemma HereRule(env: Naming, used: set<Name>, g: Triple, basedir: string, m: Name, n: Name)
    requires GroupOf(g, m) && FreshNaming(env, used) && m in used
    requires n == m || Some(n) == env.file(basedir, m)
    ensures FileHere(Lookup(MergeGroup(env, g, basedir), n))
            == if n == m then
                 PointMerge(FileHere(g[0]), FileHere(g[1]), if KindConflict(g[0], g[1], g[2]) then None else FileHere(g[2]))
               else if FileMoves(g) then PointMerge(FileHere(g[0]), None, FileHere(g[2])) else None
  {
    FileRule(env, used, g, basedir, m, n);
  }

  lemma AbsentIsExpected(env: Naming, trees: ThreeLists, basedir: string, path: Path, path': Path)
    requires path != [] && |path'| == |path| && !HasName(trees, path[0])
    ensures Expected(env, trees, basedir, path, path') == None
  {
    var g := LookupAll(trees, path[0]);
    assert g[0] == g[1] == g[2] == None;
    if |path| == 1 {
      ExpectedHere(env, trees, basedir, path, path');
    } else {
      assert SubTrees(g)[1] == SubDir(g[1]) == [];
      ExpectedBelow(env, trees, basedir, path, path');
      ExpectedOneSided(env, SubTrees(g), basedir + path[0] + "/", path[1..], path'[1..]);
      NoFileBelow(g[0], path[1..]);
    }
  }

  lemma ExpectedYields(env: Naming, trees: ThreeLists, basedir: string, path: Path, path': Path, id: Id, side: nat)
    requires (side == 1 || side == 2) && FileIdAt(trees[0], path) == FileIdAt(trees[side], path) == Some(id)
    requires FileIdAt(trees[3 - side], path) != Some(id)
    ensures Expected(env, trees, basedir, path, path') != Some(id)
  {
  }

  /** A file that one side left as it was in base yields to the other side: if that deleted or changed
      it, the merge does not hold it any more, neither at its path nor at a renaming of it. */
  lemma UnchangedFileYields(env: Naming, used: set<Name>, trees: ThreeLists, basedir: string, path: Path, path': Path,
                            id: Id, side: nat)
    requires WellFormedTriple(trees) && FreshNaming(env, used) && AllAmong(trees, used)
    requires RenamedPath(env, basedir, path, path') && AllUsed(path, used)
    requires (side == 1 || side == 2) && FileIdAt(trees[0], path) == FileIdAt(trees[side], path) == Some(id)
    requires FileIdAt(trees[3 - side], path) != Some(id)
    ensures !HoldsFile(MergeTrees(env, trees, basedir), path', id)
  {
    EveryPath(env, used, trees, basedir, path, path');
    ExpectedYields(env, trees, basedir, path, path', id, side);
    FreshNamesKeepMergeWellFormed(env, used, trees, basedir);
    if HoldsFile(MergeTrees(env, trees, basedir), path', id) {
      HoldsMeansFileAt(MergeTrees(env, trees, basedir), path', id);
    }
  }

  /** A side's directory is still what it was in base. */
  predicate DirUnchanged(base: Option<Dirent>, side: Option<Dirent>) {
    IsDir(base) && SameId(base, side)
  }

  /** Directories, empty ones too, stay under their name unless the one side deleted what the other
      left alone; remote's directory moves out of the way of a file of head. */
  predicate DirStays(g: Triple) {
    || (IsDir(g[1]) && (IsDir(g[2]) || !DirUnchanged(g[0], g[1])))
    || (IsDir(g[2]) && !IsDir(g[1]) && !DirUnchanged(g[0], g[2]) && !DirMoves(g))
  }

  lemma DirectoriesExactly(env: Naming, used: set<Name>, trees: ThreeLists, basedir: string, m: Name, n: Name)
    requires WellFormedTriple(trees) && FreshNaming(env, used) && AllAmong(trees, used) && m in used
    requires n == m || Some(n) == env.dir(m)
    ensures var g := LookupAll(trees, m);
      IsDir(Lookup(MergeTrees(env, trees, basedir), n)) <==> if n == m then DirStays(g) else DirMoves(g)
  {
    FreshLookup(env, used, trees, basedir, m, n);
    if HasName(trees, m) {
      WellFormedGroup(trees, m);
      DirGivenExactly(env, used, LookupAll(trees, m), basedir, m, n);
    } else {
      assert forall i :: 0 <= i < 3 ==> LookupAll(trees, m)[i] == None;
    }
  }

  lemma DirGivenExactly(env: Naming, used: set<Name>, g: Triple, basedir: string, m: Name, n: Name)
    requires GroupOf(g, m) && FreshNaming(env, used) && m in used
    requires n == m || Some(n) == env.dir(m)
    ensures IsDir(Lookup(MergeGroup(env, g, basedir), n)) <==> if n == m then DirStays(g) else DirMoves(g)
  {
    var o := Lookup(MergeGroup(env, g, basedir), n);
    if !DirActionOf(g).Drop? {
      DirGiven(env, used, g, basedir, m);
      var e :| e in MergeGroup(env, g, basedir) && e.isDir;
      DirsGiven(env, used, g, basedir, m, e);
      GivenName(env, used, g, basedir, m, e);
      if IsDir(o) { DirsGiven(env, used, g, basedir, m, o.value); }
    } else {
      assert DirOut(env, Renamed(env, basedir, g), basedir) == [];
    }
  }

  /** There is nothing else: a file of the merge lies at a path of names in use or at a renaming of one. */
  lemma NothingElsewhere(env: Naming, used: set<Name>, trees: ThreeLists, basedir: string, path': Path, id: Id)
    returns (path: Path)
    requires WellFormedTriple(trees) && FreshNaming(env, used) && AllAmong(trees, used)
    requires FileIdAt(MergeTrees(env, trees, basedir), path') == Some(id)
    ensures AllUsed(path, used) && RenamedPath(env, basedir, path, path')
  {
    FileAtHolds(MergeTrees(env, trees, basedir), path', id);
    NothingIsMadeUp(env, trees, basedir, path', id);
    if FileIdAt(trees[1], path') == Some(id) {
      path := path';
      SamePathIsRenamed(env, basedir, path');
      if !AllUsed(path, used) { NoUnusedNames(trees[1], used, path); }
    } else {
      path :| RenamedPath(env, basedir, path, path') && FileIdAt(trees[2], path) == Some(id);
      if !AllUsed(path, used) { NoUnusedNames(trees[2], used, path); }
    }
  }

  // ---- where an entry's other fields come from ----

  predicate SameKindAndId(a: Option<Dirent>, b: Option<Dirent>) {
    a.Some? && b.Some? && a.value.isDir == b.value.isDir && a.value.id == b.value.id
  }

  /** Head's entry is base's; between directories an empty file of base passes for an empty directory,
      since the two share an id. */
  predicate HeadUnchanged(g: Triple) {
    SameKindAndId(g[0], g[1]) || (SameId(g[0], g[1]) && IsDir(g[1]) && IsDir(g[2]))
  }

  /** The side whose entry stands under the name itself: remote's where head has none, or where only
      remote changed it; head's otherwise. */
  function SideKept(g: Triple): Option<Dirent> {
    if g[1].None? || (HeadUnchanged(g) && !SameKindAndId(g[1], g[2])) then g[2] else g[1]
  }

  /** Only the name and the id of the entry may be new. */
  predicate TakenFrom(e: Dirent, source: Option<Dirent>) {
    source.Some? && e.(name := source.value.name, id := source.value.id) == source.value
  }

  lemma GivenFrom(env: Naming, used: set<Name>, g: Triple, basedir: string, m: Name, e: Dirent)
    requires GroupOf(g, m) && FreshNaming(env, used) && m in used && e in MergeGroup(env, g, basedir)
    ensures TakenFrom(e, if e.name == m then SideKept(g) else g[2])
  {
    if e.isDir { DirTakenFrom(env, used, g, basedir, m, e); } else { FileTakenFrom(env, used, g, basedir, m, e); }
  }

  lemma FileTakenFrom(env: Naming, used: set<Name>, g: Triple, basedir: string, m: Name, e: Dirent)
    requires GroupOf(g, m) && FreshNaming(env, used) && m in used && e in MergeGroup(env, g, basedir) && !e.isDir
    ensures TakenFrom(e, if e.name == m then SideKept(g) else g[2])
  {
    assert e in FileOut(Renamed(env, basedir, g));
  }

  lemma DirTakenFrom(env: Naming, used: set<Name>, g: Triple, basedir: string, m: Name, e: Dirent)
    requires GroupOf(g, m) && FreshNaming(env, used) && m in used && e in MergeGroup(env, g, basedir) && e.isDir
    ensures TakenFrom(e, if e.name == m then SideKept(g) else g[2])
  {
    assert e in DirOut(env, Renamed(env, basedir, g), basedir);
  }

  /** Kind, permissions, time, author and size of each merged entry are those of one side. */
  lemma EntriesAreTaken(env: Naming, used: set<Name>, trees: ThreeLists, basedir: string, m: Name, e: Dirent)
    requires WellFormedTriple(trees) && FreshNaming(env, used) && AllAmong(trees, used)
    requires m in used && e in MergeTrees(env, trees, basedir) && e.name in OwnNames(env, basedir, m)
    ensures var g := LookupAll(trees, m); TakenFrom(e, if e.name == m then SideKept(g) else g[2])
  {
    OwnerOf(env, used, trees, basedir, m, e);
    WellFormedGroup(trees, m);
    GivenFrom(env, used, LookupAll(trees, m), basedir, m, e);
  }
}
