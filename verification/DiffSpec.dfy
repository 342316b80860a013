/** What the two-way tree diff reports, as a function of the old and the new directory.
    Position 0 of a group is the old tree, 1 the new one. */
module DiffSpec {
  import opened Names
  import opened FsObjects
  import opened DirJoin

  /** DIFF_STATUS_*: A, D, M, R for files and B, C, E for directories. */
  datatype Status = Added | Deleted | Modified | Renamed | DirAdded | DirDeleted | DirRenamed

  /** `path` is the list of components of the entry's name; `newPath` is used by renames only. */
  datatype DiffEntry = DiffEntry(status: Status, id: Id, path: Path, newPath: Path, size: int, originSize: int)

  /** The old and the new entries. */
  type TwoLists = t: Lists | |t| == 2 witness [[], []]

  type Pair = g: Dents | |g| == 2 witness [None, None]

  /** dirent_same: id, mode and mtime agree. */
  predicate DirentSame(a: Dirent, b: Dirent) {
    a.id == b.id && a.isDir == b.isDir && a.perm == b.perm && a.mtime == b.mtime
  }

  function EntryFor(status: Status, e: Dirent, path: Path): DiffEntry {
    DiffEntry(status, e.id, path, [], e.size, 0)
  }

  /** twoway_diff_files for the files found at one path. */
  function FileDiff(tree1: Option<Dirent>, tree2: Option<Dirent>, path: Path): seq<DiffEntry> {
    if tree1.None? then (if tree2.None? then [] else [EntryFor(Added, tree2.value, path)])
    else if tree2.None? then [EntryFor(Deleted, tree1.value, path)]
    else if !DirentSame(tree1.value, tree2.value) then
      [EntryFor(Modified, tree2.value, path).(originSize := tree1.value.size)]
    else []
  }

  function FileOf(o: Option<Dirent>): Option<Dirent> {
    if IsFile(o) then o else None
  }

  /** Some entry of the group; all carry the same name. */
  function GroupName(g: Pair): Name {
    if g[1].Some? then g[1].value.name else if g[0].Some? then g[0].value.name else ""
  }

  /** twoway_diff_dirs: the entry it adds for the directories of a group ... */
  function DirMark(g: Pair, path: Path, fold: bool): seq<DiffEntry> {
    if IsDir(g[0]) == IsDir(g[1]) then []
    else if IsDir(g[1]) then
      if g[1].value.id == EmptyId || fold then [EntryFor(DirAdded, g[1].value, path)] else []
    else [EntryFor(DirDeleted, g[0].value, path)]
  }

  /** ... and whether the diff then descends into them. */
  predicate Descends(g: Pair, fold: bool) {
    if IsDir(g[0]) then IsDir(g[1]) || !fold
    else IsDir(g[1]) && g[1].value.id != EmptyId && !fold
  }

  predicate Unchanged(g: Pair) {
    g[0].Some? && g[1].Some? && DirentSame(g[0].value, g[1].value)
  }

  predicate AllPairs(gs: seq<Dents>) {
    forall g :: g in gs ==> |g| == 2
  }

  /** All entries of a level, latest first. */
  function DiffTrees(trees: TwoLists, basedir: Path, fold: bool): seq<DiffEntry>
    decreases TreesHeight(trees), 2, 0
  {
    GroupsHeightWithin(trees);
    DiffGroups(Groups(trees), basedir, fold)
  }

  function DiffGroups(gs: seq<Pair>, basedir: Path, fold: bool): seq<DiffEntry>
    decreases GroupsHeight(gs), 1, |gs|
  {
    if gs == [] then []
    else DiffGroups(gs[1..], basedir, fold) + DiffGroup(gs[0], basedir, fold)
  }

  function DiffGroup(g: Pair, basedir: Path, fold: bool): seq<DiffEntry>
    decreases GroupHeight(g), 0, 1
  {
    if Unchanged(g) then []
    else
      DirDiff(g, basedir, fold) + FileDiff(FileOf(g[0]), FileOf(g[1]), basedir + [GroupName(g)])
  }

  function DirDiff(g: Pair, basedir: Path, fold: bool): seq<DiffEntry>
    decreases GroupHeight(g), 0, 0
  {
    var path := basedir + [GroupName(g)];
    (if Descends(g, fold) then
       assert HasDir(g) by { assert IsDir(g[0]) || IsDir(g[1]); }
       SubTreesAreSmaller(g);
       DiffTrees(SubTrees(g), path, fold)
     else [])
    + DirMark(g, path, fold)
  }

  // ---- path text ----

  /** The text of an entry's name: the components joined by slashes. */
  function PathText(p: Path): string
    requires p != []
  {
    if |p| == 1 then p[0] else p[0] + "/" + PathText(p[1..])
  }

  predicate PlainNames(p: Path) {
    forall i :: 0 <= i < |p| ==> '/' !in p[i]
  }

  /** Where a slash-free name ends inside a path text. */
  lemma {:induction false} FirstSlash(a: Name, b: Name, s: string, t: string)
    requires '/' !in a && '/' !in b && a + "/" + s == b + "/" + t
    ensures a == b && s == t
  {
    var x, y := a + "/" + s, b + "/" + t;
    assert x[|a|] == '/' && y[|b|] == '/';
    assert forall i :: 0 <= i < |a| ==> x[i] == a[i];
    assert forall i :: 0 <= i < |b| ==> y[i] == b[i];
    assert |a| == |b|;
    assert a == x[..|a|] && b == y[..|b|];
    assert s == x[|a| + 1..] && t == y[|b| + 1..];
  }

  /** Component lists stand for path texts one to one, so long as names have no slash. */
  lemma {:induction false} PathTextIsFaithful(p: Path, q: Path)
    requires p != [] && q != [] && PlainNames(p) && PlainNames(q)
    requires PathText(p) == PathText(q)
    ensures p == q
  {
    if |p| > 1 {
      FirstSlash(p[0], q[0], PathText(p[1..]), PathText(q[1..]));
      PathTextIsFaithful(p[1..], q[1..]);
      assert p == [p[0]] + p[1..] && q == [q[0]] + q[1..];
    }
  }
}
