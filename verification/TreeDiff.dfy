/** The two-way tree diff as the code runs it: cursors over two sorted lists, callbacks that
    prepend to a shared result list. */
module TreeDiff {
  import opened Names
  import opened FsObjects
  import opened DirJoin
  import opened DiffSpec
  import opened FsStore
  import opened DiffReading

  class DiffData {
    var results: seq<DiffEntry>
    const foldDirDiff: bool

    constructor (fold: bool)
      ensures results == [] && foldDirDiff == fold
    {
      results := [];
      foldDirDiff := fold;
    }
  }

  predicate SameNames(g: Dents) {
    forall i, j :: 0 <= i < |g| && 0 <= j < |g| && g[i].Some? && g[j].Some? ==> g[i].value.name == g[j].value.name
  }

  /** twoway_diff_files */
  method TwowayDiffFiles(basedir: Path, files: seq<Option<Dirent>>, data: DiffData)
    requires |files| == 2 && SameNames(files) && (files[0].Some? || files[1].Some?)
    modifies data`results
    ensures data.results == FileDiff(files[0], files[1], basedir + [GroupName(files)]) + old(data.results)
  {
    var tree1, tree2 := files[0], files[1];
    if tree1 == None {
      var de := EntryFor(Added, tree2.value, basedir + [tree2.value.name]);
      data.results := [de] + data.results;
      return;
    }
    if tree2 == None {
      var de := EntryFor(Deleted, tree1.value, basedir + [tree1.value.name]);
      data.results := [de] + data.results;
      return;
    }
    if !DirentSame(tree1.value, tree2.value) {
      var de := EntryFor(Modified, tree2.value, basedir + [tree2.value.name]);
      de := de.(originSize := tree1.value.size);
      data.results := [de] + data.results;
    }
  }

  /** twoway_diff_dirs: whether to descend into the directories. */
  method TwowayDiffDirs(basedir: Path, dirs: seq<Option<Dirent>>, data: DiffData) returns (recurse: bool)
    requires |dirs| == 2 && SameNames(dirs) && (dirs[0].Some? || dirs[1].Some?)
    requires forall i :: 0 <= i < 2 && dirs[i].Some? ==> dirs[i].value.isDir
    modifies data`results
    ensures data.results == DirMark(dirs, basedir + [GroupName(dirs)], data.foldDirDiff) + old(data.results)
    ensures recurse == Descends(dirs, data.foldDirDiff)
  {
    recurse := true;
    var tree1, tree2 := dirs[0], dirs[1];
    if tree1 == None {
      if tree2.value.id == EmptyId || data.foldDirDiff {
        var de := EntryFor(DirAdded, tree2.value, basedir + [tree2.value.name]);
        data.results := [de] + data.results;
        recurse := false;
      } else {
        recurse := true;
      }
      return;
    }
    if tree2 == None {
      var de := EntryFor(DirDeleted, tree1.value, basedir + [tree1.value.name]);
      data.results := [de] + data.results;
      recurse := !data.foldDirDiff;
      return;
    }
  }

  /** diff_files */
  method DiffFiles(dents: array<Option<Dirent>>, basedir: Path, data: DiffData)
    requires dents.Length == 2 && SameNames(dents[..])
    modifies data`results
    ensures data.results
            == FileDiff(FileOf(dents[0]), FileOf(dents[1]), basedir + [GroupName(dents[..])]) + old(data.results)
  {
    var files: seq<Option<Dirent>> := [None, None];
    var nFiles := 0;
    for i := 0 to 2
      invariant |files| == 2
      invariant forall k :: 0 <= k < 2 ==> files[k] == if k < i then FileOf(dents[k]) else None
      invariant nFiles > 0 <==> exists k :: 0 <= k < i && IsFile(dents[k])
    {
      if IsFile(dents[i]) {
        files := files[i := dents[i]];
        nFiles := nFiles + 1;
      }
    }
    if nFiles == 0 { return; }
    TwowayDiffFiles(basedir, files, data);
  }

  /** Loads the subdirectories of a group; the name left over is the last directory's. */
  method LoadSubDirs(dents: array<Option<Dirent>>, store: ObjStore) returns (ok: bool, subDirs: Lists, dirname: Name)
    requires dents.Length == 2 && SameNames(dents[..]) && HasDir(dents[..])
    ensures ok ==> subDirs == SubTrees(dents[..]) && dirname == GroupName(dents[..])
    ensures ok <==> AllLoad(store.objs, dents[..])
  {
    ghost var g := dents[..];
    subDirs, dirname := [[], []], "";
    for i := 0 to 2
      invariant |subDirs| == 2
      invariant forall k :: 0 <= k < 2 ==> subDirs[k] == if k < i then SubDir(g[k]) else []
      invariant forall k :: 0 <= k < i && IsDir(g[k]) ==> dirname == g[k].value.name
      invariant forall k :: 0 <= k < i && IsDir(g[k]) ==> Load(store.objs, g[k].value.id).Some?
    {
      if IsDir(dents[i]) {
        var dir := store.GetSeafdir(dents[i].value.id);
        if dir == None { return false, subDirs, dirname; }
        subDirs := subDirs[i := dir.value.entries];
        dirname := dents[i].value.name;
      }
    }
    ok := true;
    assert subDirs == SubTrees(g);
  }

  /** diff_directories */
  method DiffDirectories(dents: array<Option<Dirent>>, basedir: Path, data: DiffData, store: ObjStore)
    returns (ok: bool)
    requires dents.Length == 2 && SameNames(dents[..])
    modifies data`results
    ensures var r := ReadDirs(store.objs, dents[..], basedir, data.foldDirDiff);
      ok == r.ok && data.results == r.entries + old(data.results)
    decreases GroupHeight(dents[..]), 0
  {
    ghost var g: Pair := dents[..];
    var dirs: seq<Option<Dirent>> := [None, None];
    if IsDir(dents[0]) { dirs := dirs[0 := dents[0]]; }
    if IsDir(dents[1]) { dirs := dirs[1 := dents[1]]; }
    ReadDirsParts(store.objs, g, dirs, basedir, data.foldDirDiff, data.results);
    if dirs[0] == None && dirs[1] == None { return true; }

    var recurse := TwowayDiffDirs(basedir, dirs, data);
    if !recurse { return true; }

    var subDirs, dirname;
    ok, subDirs, dirname := LoadSubDirs(dents, store);
    if !ok { return; }
    SubTreesAreSmaller(g);
    ok := DiffTreesRecursive(subDirs, basedir + [dirname], data, store);
  }

  /** What the directories of a group add to the results: the callback's entry, then the subtrees'. */
  lemma ReadDirsParts(objs: set<Id>, g: Pair, dirs: Pair, basedir: Path, fold: bool, results: seq<DiffEntry>)
    requires SameNames(g) && forall i :: 0 <= i < 2 ==> dirs[i] == if IsDir(g[i]) then g[i] else None
    ensures SameNames(dirs)
    ensures HasDir(g) <==> dirs[0].Some? || dirs[1].Some?
    ensures var r := ReadDirs(objs, g, basedir, fold);
      var marked := DirMark(dirs, basedir + [GroupName(dirs)], fold) + results;
      if !HasDir(g) then r.ok && r.entries + results == results
      else if !Descends(dirs, fold) then r.ok && r.entries + results == marked
      else if !AllLoad(objs, g) then !r.ok && r.entries + results == marked
      else
        var sub := ReadTrees(objs, SubTrees(g), basedir + [GroupName(g)], fold);
        r.ok == sub.ok && r.entries + results == sub.entries + marked
  {
    assert HasDir(g) ==> GroupName(dirs) == GroupName(g);
    assert Descends(dirs, fold) == Descends(g, fold);
  }

  /** What the walk over `trees` has left: groups of these trees only. */
  ghost predicate Walking(trees: TwoLists, ptrs: Lists) {
    |trees| == 2 && |ptrs| == 2 && AllPairs(Groups(ptrs)) && forall g :: g in Groups(ptrs) ==> g in Groups(trees)
  }

  /** The next group of the walk: what it holds, and that there is less left behind it. */
  lemma NextPair(trees: TwoLists, ptrs: Lists, name: Name)
    requires Walking(trees, ptrs) && FirstName(ptrs) == Some(name)
    ensures var g, rest := Pick(ptrs, name), Advance(ptrs, name);
      && Walking(trees, rest)
      && TotalLength(rest) < TotalLength(ptrs)
      && |g| == 2 && SameNames(g) && GroupHeight(g) <= TreesHeight(trees)
      && Groups(ptrs) == [g] + Groups(rest)
  {
    AdvanceShrinks(ptrs);
    GroupsHeightWithin(Advance(ptrs, name));
    var g := Pick(ptrs, name);
    assert Groups(ptrs)[0] == g && Groups(ptrs)[1..] == Groups(Advance(ptrs, name));
    assert g in Groups(trees);
    GroupsHoldMembers(trees, g);
    GroupHeightWithin(trees, g);
  }

  /** What the walk has still to report on top of what it has reported. */
  ghost function Ahead(objs: set<Id>, gs: seq<Pair>, basedir: Path, fold: bool, results: seq<DiffEntry>): Reading
  {
    var r := ReadGroups(objs, gs, basedir, fold);
    Reading(r.ok, r.entries + results)
  }

  lemma AheadStep(objs: set<Id>, gs: seq<Pair>, basedir: Path, fold: bool, results: seq<DiffEntry>)
    requires gs != []
    ensures var r := ReadGroup(objs, gs[0], basedir, fold);
      Ahead(objs, gs, basedir, fold, results)
      == if r.ok then Ahead(objs, gs[1..], basedir, fold, r.entries + results) else Reading(false, r.entries + results)
  {
    var r, rest := ReadGroup(objs, gs[0], basedir, fold), ReadGroups(objs, gs[1..], basedir, fold);
    assert (rest.entries + r.entries) + results == rest.entries + (r.entries + results);
  }

  /** One step of the walk: equal entries are skipped, otherwise files first, then directories. */
  method DiffOneGroup(dents: array<Option<Dirent>>, basedir: Path, data: DiffData, store: ObjStore)
    returns (ok: bool)
    requires dents.Length == 2 && SameNames(dents[..])
    modifies data`results
    ensures var r := ReadGroup(store.objs, dents[..], basedir, data.foldDirDiff);
      ok == r.ok && data.results == r.entries + old(data.results)
    decreases GroupHeight(dents[..]), 1
  {
    if dents[0] != None && dents[1] != None && DirentSame(dents[0].value, dents[1].value) {
      return true;
    }
    DiffFiles(dents, basedir, data);
    ok := DiffDirectories(dents, basedir, data, store);
  }

  /** The walk of one level, group by group. */
  method DiffLevel(ghost trees: TwoLists, ptrs: array<seq<Dirent>>, basedir: Path, data: DiffData, store: ObjStore)
    returns (ok: bool)
    requires ptrs.Length == 2 && Walking(trees, ptrs[..])
    modifies data`results, ptrs
    ensures Reading(ok, data.results) == Ahead(store.objs, Groups(old(ptrs[..])), basedir, data.foldDirDiff, old(data.results))
    decreases TreesHeight(trees), 2
  {
    ghost var whole := Ahead(store.objs, Groups(ptrs[..]), basedir, data.foldDirDiff, data.results);
    var dents := new Option<Dirent>[2](_ => None);
    while true
      invariant Walking(trees, ptrs[..])
      invariant whole == Ahead(store.objs, Groups(ptrs[..]), basedir, data.foldDirDiff, data.results)
      decreases TotalLength(ptrs[..])
    {
      var firstName := LargestFront(ptrs);
      if firstName == None { break; }
      NextPair(trees, ptrs[..], firstName.value);
      AheadStep(store.objs, Groups(ptrs[..]), basedir, data.foldDirDiff, data.results);
      TakeGroup(ptrs, dents, firstName.value);
      ok := DiffOneGroup(dents, basedir, data, store);
      if !ok { return; }
    }
    ok := true;
  }

  /** diff_trees_recursive: prepends this level's entries to the results.  It succeeds exactly when
      every directory it visits can be loaded; when it fails, what it reported so far stays. */
  method DiffTreesRecursive(trees: TwoLists, basedir: Path, data: DiffData, store: ObjStore) returns (ok: bool)
    modifies data`results
    ensures ok <==> Readable(store.objs, trees, data.foldDirDiff)
    ensures ok ==> data.results == DiffTrees(trees, basedir, data.foldDirDiff) + old(data.results)
    ensures var r := ReadTrees(store.objs, trees, basedir, data.foldDirDiff);
      ok == r.ok && data.results == r.entries + old(data.results)
    decreases TreesHeight(trees), 3
  {
    GroupsHeightWithin(trees);
    var ptrs := new seq<Dirent>[2](i requires 0 <= i < 2 => trees[i]);
    assert ptrs[..] == trees;
    ok := DiffLevel(trees, ptrs, basedir, data, store);
    ReadingTrees(store.objs, trees, basedir, data.foldDirDiff);
  }

  /** What diff_trees needs: the two roots, and what it visits below them. */
  predicate RootsReadable(objs: set<Id>, root1: Id, root2: Id, fold: bool) {
    && Load(objs, root1).Some? && Load(objs, root2).Some?
    && Readable(objs, [Entries(root1), Entries(root2)], fold)
  }

  /** The entries diff_trees reports, to the end or to the directory it cannot load. */
  function ReadRoots(objs: set<Id>, root1: Id, root2: Id, fold: bool): seq<DiffEntry> {
    if Load(objs, root1).None? || Load(objs, root2).None? then []
    else ReadTrees(objs, [Entries(root1), Entries(root2)], [], fold).entries
  }

  /** diff_trees for two roots. */
  method DiffTreeRoots(roots: seq<Id>, data: DiffData, store: ObjStore) returns (ok: bool)
    requires |roots| == 2
    modifies data`results
    ensures ok <==> RootsReadable(store.objs, roots[0], roots[1], data.foldDirDiff)
    ensures ok ==> data.results
                   == DiffTrees([Entries(roots[0]), Entries(roots[1])], [], data.foldDirDiff) + old(data.results)
    ensures data.results == ReadRoots(store.objs, roots[0], roots[1], data.foldDirDiff) + old(data.results)
  {
    var tree1 := store.GetSeafdir(roots[0]);
    if tree1 == None { return false; }
    var tree2 := store.GetSeafdir(roots[1]);
    if tree2 == None { return false; }
    ok := DiffTreesRecursive([tree1.value.entries, tree2.value.entries], [], data, store);
  }

  /** Roots that are stored completely are readable. */
  lemma CompleteRootsAreReadable(objs: set<Id>, root1: Id, root2: Id, fold: bool)
    requires Resolvable(objs, root1) && Resolvable(objs, root2)
    ensures RootsReadable(objs, root1, root2, fold)
  {
    CompleteIsReadable(objs, [Entries(root1), Entries(root2)], fold);
  }
}
