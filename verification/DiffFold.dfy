/** The folded diff is the unfolded one abbreviated: a directory entry stands for the files of
    its subtree. */
module DiffFold {
  import opened Names
  import opened FsObjects
  import opened DirJoin
  import opened DiffSpec
  import opened DiffPatch

  /** All files of a directory tree with their paths, the last names first. */
  function FilesUnder(es: seq<Dirent>, basedir: Path): seq<(Path, Dirent)>
    decreases Height(es), |es|
  {
    if es == [] then []
    else
      var path := basedir + [es[0].name];
      TailHeight(es);
      FilesUnder(es[1..], basedir)
      + (if es[0].isDir then
           SubHeight(es[0]);
           FilesUnder(Entries(es[0].id), path)
         else [(path, es[0])])
  }

  lemma SubHeight(e: Dirent)
    requires e.isDir
    ensures Height(Entries(e.id)) < DirentHeight(e)
  {
  }

  function Marked(status: Status, files: seq<(Path, Dirent)>): seq<DiffEntry> {
    seq(|files|, i requires 0 <= i < |files| => EntryFor(status, files[i].1, files[i].0))
  }

  /** What an entry stands for: itself, or the files of the directory it names. */
  function Expand(e: DiffEntry): seq<DiffEntry> {
    match e.status
    case DirAdded => Marked(Added, FilesUnder(Entries(e.id), e.path))
    case DirDeleted => Marked(Deleted, FilesUnder(Entries(e.id), e.path))
    case _ => if IsFileEntry(e) then [e] else []
  }

  function ExpandAll(es: seq<DiffEntry>): seq<DiffEntry> {
    if es == [] then [] else Expand(es[0]) + ExpandAll(es[1..])
  }

  function FileEntries(es: seq<DiffEntry>): seq<DiffEntry> {
    if es == [] then [] else (if IsFileEntry(es[0]) then [es[0]] else []) + FileEntries(es[1..])
  }

  lemma {:induction false} ExpandConcat(a: seq<DiffEntry>, b: seq<DiffEntry>)
    ensures ExpandAll(a + b) == ExpandAll(a) + ExpandAll(b)
  {
    if a == [] {
      assert a + b == b;
    } else {
      assert (a + b)[1..] == a[1..] + b;
      ExpandConcat(a[1..], b);
    }
  }

  lemma {:induction false} FileEntriesConcat(a: seq<DiffEntry>, b: seq<DiffEntry>)
    ensures FileEntries(a + b) == FileEntries(a) + FileEntries(b)
  {
    if a == [] {
      assert a + b == b;
    } else {
      var first := if IsFileEntry(a[0]) then [a[0]] else [];
      FileEntriesConcat(a[1..], b);
      assert (a + b)[0] == a[0] && (a + b)[1..] == a[1..] + b;
      assert first + (FileEntries(a[1..]) + FileEntries(b)) == (first + FileEntries(a[1..])) + FileEntries(b);
    }
  }

  lemma MarkedConcat(status: Status, a: seq<(Path, Dirent)>, b: seq<(Path, Dirent)>)
    ensures Marked(status, a + b) == Marked(status, a) + Marked(status, b)
  {
  }

  // ---- a tree against nothing ----

  type Side = n: nat | n < 2

  /** One tree on the new (`side == 1`) or the old (`side == 0`) side, nothing on the other. */
  function OneSided(side: Side, es: seq<Dirent>): TwoLists
  {
    if side == 0 then [es, []] else [[], es]
  }

  function OneSidedGroup(side: Side, e: Dirent): Pair
  {
    if side == 0 then [Some(e), None] else [None, Some(e)]
  }

  function SideStatus(side: Side): Status {
    if side == 0 then Deleted else Added
  }

  lemma OneSidedStep(side: Side, es: seq<Dirent>)
    requires es != []
    ensures Groups(OneSided(side, es)) == [OneSidedGroup(side, es[0])] + Groups(OneSided(side, es[1..]))
  {
    var ptrs := OneSided(side, es);
    assert ptrs[..1][..0] == [];
    assert FirstName(ptrs[..1]) == if side == 0 then Some(es[0].name) else None;
    assert FirstName(ptrs) == Some(es[0].name);
    assert Pick(ptrs, es[0].name) == OneSidedGroup(side, es[0]);
    assert Advance(ptrs, es[0].name) == OneSided(side, es[1..]);
  }

  lemma OneSidedEnd(side: Side)
    ensures Groups(OneSided(side, [])) == []
  {
    FirstNameIsSomeFront(OneSided(side, []));
  }

  lemma OneSidedDirs(side: Side, e: Dirent)
    requires e.isDir
    ensures SubTrees(OneSidedGroup(side, e)) == OneSided(side, Entries(e.id))
  {
  }

  /** The unfolded diff of a tree against nothing lists exactly the tree's files. */
  lemma {:induction false} OneSidedDiff(side: Side, es: seq<Dirent>, basedir: Path)
    ensures FileEntries(DiffTrees(OneSided(side, es), basedir, false))
            == Marked(SideStatus(side), FilesUnder(es, basedir))
    decreases Height(es), |es|
  {
    if es == [] {
      OneSidedEnd(side);
    } else {
      var g := OneSidedGroup(side, es[0]);
      OneSidedStep(side, es);
      GroupsHeightWithin(OneSided(side, es));
      GroupsHeightWithin(OneSided(side, es[1..]));
      TailHeight(es);
      OneSidedDiff(side, es[1..], basedir);
      OneSidedEntry(side, es[0], basedir);
      assert Groups(OneSided(side, es))[1..] == Groups(OneSided(side, es[1..]));
      var rest := DiffTrees(OneSided(side, es[1..]), basedir, false);
      FileEntriesConcat(rest, DiffGroup(g, basedir, false));
      MarkedConcat(SideStatus(side), FilesUnder(es[1..], basedir), FilesOfEntry(es[0], basedir));
    }
  }

  function FilesOfEntry(e: Dirent, basedir: Path): seq<(Path, Dirent)> {
    if e.isDir then FilesUnder(Entries(e.id), basedir + [e.name]) else [(basedir + [e.name], e)]
  }

  lemma {:induction false} OneSidedEntry(side: Side, e: Dirent, basedir: Path)
    ensures FileEntries(DiffGroup(OneSidedGroup(side, e), basedir, false))
            == Marked(SideStatus(side), FilesOfEntry(e, basedir))
    decreases DirentHeight(e), 0
  {
    var g := OneSidedGroup(side, e);
    var path := basedir + [e.name];
    var files := FileDiff(FileOf(g[0]), FileOf(g[1]), path);
    FileEntriesConcat(DirDiff(g, basedir, false), files);
    if e.isDir {
      OneSidedDirs(side, e);
      SubHeight(e);
      OneSidedDiff(side, Entries(e.id), path);
      if Descends(g, false) {
        FileEntriesConcat(DiffTrees(SubTrees(g), path, false), DirMark(g, path, false));
      }
    }
  }

  // ---- the fold ----

  /** File entries stand for themselves. */
  lemma FileDiffStands(old0: Option<Dirent>, new1: Option<Dirent>, path: Path, dirs: seq<DiffEntry>)
    ensures ExpandAll(dirs + FileDiff(old0, new1, path)) == ExpandAll(dirs) + FileDiff(old0, new1, path)
    ensures FileEntries(dirs + FileDiff(old0, new1, path)) == FileEntries(dirs) + FileDiff(old0, new1, path)
  {
    var files := FileDiff(old0, new1, path);
    ExpandConcat(dirs, files);
    FileEntriesConcat(dirs, files);
    assert ExpandAll(files) == files == FileEntries(files);
  }

  lemma {:induction false} FoldedGroup(g: Pair, basedir: Path)
    ensures ExpandAll(DiffGroup(g, basedir, true)) == FileEntries(DiffGroup(g, basedir, false))
    decreases GroupHeight(g), 0, 1
  {
    if !Unchanged(g) {
      var path := basedir + [GroupName(g)];
      FileDiffStands(FileOf(g[0]), FileOf(g[1]), path, DirDiff(g, basedir, true));
      FileDiffStands(FileOf(g[0]), FileOf(g[1]), path, DirDiff(g, basedir, false));
      FoldedDirs(g, basedir);
    }
  }

  lemma {:induction false} FoldedDirs(g: Pair, basedir: Path)
    ensures ExpandAll(DirDiff(g, basedir, true)) == FileEntries(DirDiff(g, basedir, false))
    decreases GroupHeight(g), 0, 0
  {
    var path := basedir + [GroupName(g)];
    if IsDir(g[0]) && IsDir(g[1]) {
      assert HasDir(g);
      SubTreesAreSmaller(g);
      FoldedDiffExpands(SubTrees(g), path);
      assert DirDiff(g, basedir, true) == DiffTrees(SubTrees(g), path, true);
      assert DirDiff(g, basedir, false) == DiffTrees(SubTrees(g), path, false);
    } else if IsDir(g[0]) || IsDir(g[1]) {
      var side := if IsDir(g[0]) then 0 else 1;
      var sub := SubDir(g[side]);
      assert SubTrees(g) == OneSided(side, sub);
      OneSidedDiff(side, sub, path);
      OneSidedFold(g, basedir, side);
    }
  }

  lemma OneSidedFold(g: Pair, basedir: Path, side: Side)
    requires IsDir(g[side]) && !IsDir(g[1 - side])
    requires var path := basedir + [GroupName(g)];
      && SubTrees(g) == OneSided(side, SubDir(g[side]))
      && FileEntries(DiffTrees(SubTrees(g), path, false)) == Marked(SideStatus(side), FilesUnder(SubDir(g[side]), path))
    ensures ExpandAll(DirDiff(g, basedir, true)) == FileEntries(DirDiff(g, basedir, false))
  {
    FoldedMark(g, basedir, side);
    var path := basedir + [GroupName(g)];
    if Descends(g, false) {
      FileEntriesConcat(DiffTrees(SubTrees(g), path, false), DirMark(g, path, false));
    }
  }

  lemma FoldedMark(g: Pair, basedir: Path, side: Side)
    requires IsDir(g[side]) && !IsDir(g[1 - side])
    ensures ExpandAll(DirDiff(g, basedir, true))
            == Marked(SideStatus(side), FilesUnder(SubDir(g[side]), basedir + [GroupName(g)]))
  {
  }

  /** Replacing each directory entry of the folded diff by the files of its subtree gives the
      file entries of the unfolded diff, in the same order. */
  lemma {:induction false} FoldedDiffExpands(trees: TwoLists, basedir: Path)
    ensures ExpandAll(DiffTrees(trees, basedir, true)) == FileEntries(DiffTrees(trees, basedir, false))
    decreases TreesHeight(trees), 2
  {
    GroupsHeightWithin(trees);
    FoldedGroups(Groups(trees), basedir);
  }

  lemma {:induction false} FoldedGroups(gs: seq<Pair>, basedir: Path)
    ensures ExpandAll(DiffGroups(gs, basedir, true)) == FileEntries(DiffGroups(gs, basedir, false))
    decreases GroupsHeight(gs), 1, |gs|
  {
    if gs != [] {
      FoldedGroups(gs[1..], basedir);
      FoldedGroup(gs[0], basedir);
      ExpandConcat(DiffGroups(gs[1..], basedir, true), DiffGroup(gs[0], basedir, true));
      FileEntriesConcat(DiffGroups(gs[1..], basedir, false), DiffGroup(gs[0], basedir, false));
    }
  }
}
