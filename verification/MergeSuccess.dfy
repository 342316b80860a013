/** When a three-way merge succeeds, said of the trees: the directories it has to load, the names it
    has to find and the ids it has to publish. */
module MergeSuccess {
  import opened Names
  import opened FsObjects
  import opened DirJoin
  import opened MergeSpec
  import opened FsStore

  // ---- loaded directories ----

  /** Base's, head's and remote's directory; a side may have none. */
  type Trees = t: seq<Option<SeafDir>> | |t| == 3 witness [None, None, None]

  /** The entry lists of loaded trees; a missing tree has none. */
  function TreeEntries(trees: Trees): (lists: ThreeLists)
  {
    seq(3, i requires 0 <= i < 3 => if trees[i].Some? then trees[i].value.entries else [])
  }

  function DirOf(o: Option<Dirent>): Option<SeafDir> {
    if IsDir(o) then Some(SeafDir(o.value.id, Entries(o.value.id))) else None
  }

  /** The subdirectories of a group as they are once loaded. */
  function SubDirs(g: Triple): (trees: Trees)
    ensures TreeEntries(trees) == SubTrees(g)
  {
    [DirOf(g[0]), DirOf(g[1]), DirOf(g[2])]
  }

  // ---- the condition ----

  /** What a merge has at hand: names for clashes, the objects it can load, and the ids that need no
      writing or can be written. */
  datatype Means = Means(env: Naming, loads: set<Id>, savable: iset<Id>)

  ghost function Savable(objs: set<Id>, writable: Id -> bool): iset<Id> {
    iset id | id == EmptyId || id in objs || writable(id)
  }

  ghost function MeansOf(env: Naming, objs: set<Id>, writable: Id -> bool): Means {
    Means(env, objs, Savable(objs, writable))
  }

  /** A name is found where the group needs one. */
  predicate CanRename(env: Naming, basedir: string, g: Triple) {
    ClashOf(g) == NoClash || ClashName(env, basedir, g).Some?
  }

  predicate HasId(tree: Option<SeafDir>, id: Id) {
    tree.Some? && tree.value.dirId == id
  }

  /** Unless head or remote already is the result, its id must be savable. */
  predicate CanPublish(m: Means, trees: Trees, id: Id) {
    HasId(trees[1], id) || HasId(trees[2], id) || id in m.savable
  }

  lemma GroupHeights(lists: ThreeLists)
    ensures forall g :: g in Groups(lists) ==> |g| == 3 && GroupHeight(g) <= TreesHeight(lists)
  {
    forall g | g in Groups(lists) ensures |g| == 3 && GroupHeight(g) <= TreesHeight(lists) {
      GroupHeightWithin(lists, g);
    }
  }

  ghost predicate TreesMergeable(m: Means, trees: Trees, basedir: string)
    decreases TreesHeight(TreeEntries(trees)), 2
  {
    GroupHeights(TreeEntries(trees));
    && (forall g :: g in Groups(TreeEntries(trees)) ==> GroupMergeable(m, g, basedir))
    && CanPublish(m, trees, DirIdOf(MergeTrees(m.env, TreeEntries(trees), basedir)))
  }

  ghost predicate GroupMergeable(m: Means, g: Triple, basedir: string)
    decreases GroupHeight(g), 1
  {
    RenamingKeepsHeight(m.env, basedir, g);
    CanRename(m.env, basedir, g) && DirsMergeable(m, Renamed(m.env, basedir, g), basedir)
  }

  ghost predicate DirsMergeable(m: Means, g: Triple, basedir: string)
    decreases GroupHeight(g), 0
  {
    DirActionOf(g).Recurse? ==>
      AllLoad(m.loads, g) && (SubTreesAreSmaller(g); TreesMergeable(m, SubDirs(g), basedir + DirName(g) + "/"))
  }

  ghost predicate AllMergeable(m: Means, gs: seq<Dents>, basedir: string)
    requires AllTriples(gs)
  {
    forall g :: g in gs ==> GroupMergeable(m, g, basedir)
  }

  /** The three roots load and can be merged. */
  ghost predicate RootsMergeable(m: Means, roots: seq<Id>)
    requires |roots| == 3
  {
    && (forall i :: 0 <= i < 3 ==> Load(m.loads, roots[i]).Some?)
    && TreesMergeable(m, RootDirs(roots), "")
  }

  function RootDirs(roots: seq<Id>): Trees
    requires |roots| == 3
  {
    seq(3, i requires 0 <= i < 3 => Some(SeafDir(roots[i], Entries(roots[i]))))
  }

  // ---- more objects to load ----

  /** One merge can load whatever another can, and differs in nothing else. */
  ghost predicate LoadsMore(m: Means, m': Means) {
    m.env == m'.env && m.loads <= m'.loads && m.savable == m'.savable
  }

  lemma {:induction false} MoreTreesMergeable(m: Means, m': Means, trees: Trees, basedir: string)
    requires LoadsMore(m, m') && TreesMergeable(m, trees, basedir)
    ensures TreesMergeable(m', trees, basedir)
    decreases TreesHeight(TreeEntries(trees)), 2
  {
    var lists := TreeEntries(trees);
    GroupHeights(lists);
    forall g | g in Groups(lists) ensures GroupMergeable(m', g, basedir) {
      MoreGroupsMergeable(m, m', g, basedir);
    }
  }

  lemma {:induction false} MoreGroupsMergeable(m: Means, m': Means, g: Triple, basedir: string)
    requires LoadsMore(m, m') && GroupMergeable(m, g, basedir)
    ensures GroupMergeable(m', g, basedir)
    decreases GroupHeight(g), 1
  {
    RenamingKeepsHeight(m.env, basedir, g);
    MoreDirsMergeable(m, m', Renamed(m.env, basedir, g), basedir);
  }

  lemma {:induction false} MoreDirsMergeable(m: Means, m': Means, g: Triple, basedir: string)
    requires LoadsMore(m, m') && DirsMergeable(m, g, basedir)
    ensures DirsMergeable(m', g, basedir)
    decreases GroupHeight(g), 0
  {
    if DirActionOf(g).Recurse? {
      SubTreesAreSmaller(g);
      MoreTreesMergeable(m, m', SubDirs(g), basedir + DirName(g) + "/");
    }
  }

  // ---- while the merge runs ----

  /** What can be written need not be there already, so saving goes on as it started. */
  lemma SavableStays(objs: set<Id>, objs': set<Id>, writable: Id -> bool)
    requires Grew(objs, objs', writable)
    ensures Savable(objs, writable) == Savable(objs', writable)
  {
  }

  lemma GroupStaysMergeable(env: Naming, objs: set<Id>, objs': set<Id>, writable: Id -> bool, g: Triple, basedir: string)
    requires Grew(objs, objs', writable) && GroupMergeable(MeansOf(env, objs, writable), g, basedir)
    ensures GroupMergeable(MeansOf(env, objs', writable), g, basedir)
  {
    SavableStays(objs, objs', writable);
    MoreGroupsMergeable(MeansOf(env, objs, writable), MeansOf(env, objs', writable), g, basedir);
  }

  /** What a merge that began with `objs` can have used once `objs'` are stored. */
  ghost function MeansAfter(env: Naming, objs: set<Id>, objs': set<Id>, writable: Id -> bool): Means {
    MeansOf(env, objs, writable).(loads := objs')
  }

  /** One more group is merged: it used what is stored by now, and so did the groups before it. */
  lemma OneMoreMergeable(env: Naming, objs: set<Id>, objs1: set<Id>, objs2: set<Id>, writable: Id -> bool,
                         done: seq<Dents>, g: Triple, basedir: string)
    requires Grew(objs, objs1, writable) && Grew(objs1, objs2, writable) && AllTriples(done)
    requires AllMergeable(MeansAfter(env, objs, objs1, writable), done, basedir)
    requires GroupMergeable(MeansAfter(env, objs1, objs2, writable), g, basedir)
    ensures Grew(objs, objs2, writable)
    ensures AllTriples(done + [g]) && AllMergeable(MeansAfter(env, objs, objs2, writable), done + [g], basedir)
  {
    SavableStays(objs, objs1, writable);
    var m := MeansAfter(env, objs, objs2, writable);
    forall d | d in done + [g] ensures |d| == 3 && GroupMergeable(m, d, basedir) {
      if d in done { MoreGroupsMergeable(MeansAfter(env, objs, objs1, writable), m, d, basedir); }
    }
  }

  // ---- complete trees ----

  /** Three directories as the store hands them out, or missing. */
  predicate Loaded(trees: Trees) {
    forall i :: 0 <= i < 3 && trees[i].Some? ==> trees[i].value.entries == Entries(trees[i].value.dirId)
  }

  /** Every directory reachable from the loaded trees is on disk. */
  predicate OnDisk(objs: set<Id>, trees: Trees) {
    forall i :: 0 <= i < 3 && trees[i].Some? ==> Resolvable(objs, trees[i].value.dirId)
  }

  lemma OnDiskResolves(objs: set<Id>, trees: Trees)
    requires Loaded(trees) && OnDisk(objs, trees)
    ensures AllResolvable(objs, TreeEntries(trees))
  {
  }

  lemma SubDirsOnDisk(objs: set<Id>, g: Triple)
    requires GroupResolvable(objs, g)
    ensures AllLoad(objs, g) && Loaded(SubDirs(g)) && OnDisk(objs, SubDirs(g))
  {
  }

  /** No name is ever missing and no write ever fails. */
  ghost predicate NothingFails(m: Means) {
    (forall d, n :: m.env.file(d, n).Some?) && (forall n :: m.env.dir(n).Some?) && forall id :: id in m.savable
  }

  /** Trees that are complete in m' need nothing more to load. */
  lemma {:induction false} CompleteTreesMergeable(m: Means, m': Means, trees: Trees, basedir: string)
    requires m.env == m'.env && m.savable == m'.savable && Loaded(trees) && OnDisk(m'.loads, trees)
    requires NothingFails(m) || TreesMergeable(m, trees, basedir)
    ensures TreesMergeable(m', trees, basedir)
    decreases TreesHeight(TreeEntries(trees)), 2
  {
    var lists := TreeEntries(trees);
    GroupHeights(lists);
    OnDiskResolves(m'.loads, trees);
    forall g | g in Groups(lists) ensures GroupMergeable(m', g, basedir) {
      GroupsHoldMembers(lists, g);
      CompleteGroupMergeable(m, m', g, basedir);
    }
  }

  lemma {:induction false} CompleteGroupMergeable(m: Means, m': Means, g: Triple, basedir: string)
    requires m.env == m'.env && m.savable == m'.savable && GroupResolvable(m'.loads, g)
    requires NothingFails(m) || GroupMergeable(m, g, basedir)
    ensures GroupMergeable(m', g, basedir)
    decreases GroupHeight(g), 1
  {
    var g' := Renamed(m.env, basedir, g);
    RenamingKeepsHeight(m.env, basedir, g);
    RenamingKeepsDirs(m.env, basedir, m'.loads, g);
    if DirActionOf(g').Recurse? {
      SubTreesAreSmaller(g');
      SubDirsOnDisk(m'.loads, g');
      CompleteTreesMergeable(m, m', SubDirs(g'), basedir + DirName(g') + "/");
    }
  }

  lemma RenamingKeepsDirs(env: Naming, basedir: string, objs: set<Id>, g: Triple)
    ensures GroupResolvable(objs, g) <==> GroupResolvable(objs, Renamed(env, basedir, g))
  {
    var g' := Renamed(env, basedir, g);
    assert forall i :: 0 <= i < 3 && g[i].Some? ==> g'[i].Some? && g'[i].value == g[i].value.(name := g'[i].value.name);
  }
}
