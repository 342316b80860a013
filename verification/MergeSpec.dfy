/** What the three-way merge computes, as functions of the three directories.
    Position 0 of a group is base, 1 is head, 2 is remote. */
module MergeSpec {
  import opened Names
  import opened FsObjects
  import opened DirJoin

  /** What a same-name collision forces: nothing, or a rename of remote's file or directory. */
  datatype Clash = NoClash | RemoteFile | RemoteDir

  /** What becomes of the directories of a group. */
  datatype DirAction = Drop | Take(from: nat) | Recurse(under: nat)

  /** Conflict names: a file's depends on its path, a directory's on its name only.
      None is the failure to find the remote head commit. */
  datatype Naming = Naming(file: (string, Name) -> Option<Name>, dir: Name -> Option<Name>)

  /** Base's, head's and remote's entries. */
  type ThreeLists = t: Lists | |t| == 3 witness [[], [], []]

  type Triple = g: Dents | |g| == 3 witness [None, None, None]

  predicate SameId(a: Option<Dirent>, b: Option<Dirent>) {
    a.Some? && b.Some? && a.value.id == b.value.id
  }

  function ClashOf(g: Triple): Clash {
    if IsFile(g[1]) && IsFile(g[2]) then
      if SameId(g[1], g[2]) then NoClash
      else if IsFile(g[0]) && (SameId(g[0], g[1]) || SameId(g[0], g[2])) then NoClash
      else RemoteFile
    else if IsFile(g[2]) && g[1].Some? then
      // head has a directory where remote has a file
      if SameId(g[0], if IsFile(g[0]) then g[2] else g[1]) then NoClash else RemoteFile
    else if IsFile(g[1]) && g[2].Some? then
      // remote has a directory where head has a file
      if SameId(g[0], if IsFile(g[0]) then g[1] else g[2]) then NoClash else RemoteDir
    else NoClash
  }

  function ClashName(env: Naming, basedir: string, g: Triple): Option<Name> {
    match ClashOf(g)
    case NoClash => None
    case RemoteFile => env.file(basedir, if IsFile(g[1]) then g[1].value.name else g[2].value.name)
    case RemoteDir => env.dir(g[2].value.name)
  }

  function WithRemoteName(g: Triple, name: Name): (r: Triple)
    requires g[2].Some?
  {
    g[2 := Some(g[2].value.(name := name))]
  }

  /** The group after remote's entry was renamed in place, if it had to be. */
  function Renamed(env: Naming, basedir: string, g: Triple): (r: Triple) {
    match ClashName(env, basedir, g)
    case None => g
    case Some(name) => WithRemoteName(g, name)
  }

  /** The entries the files of a group contribute, latest first; `g` is already renamed. */
  function FileOut(g: Triple): seq<Dirent> {
    if IsFile(g[1]) && IsFile(g[2]) then
      if SameId(g[1], g[2]) then [g[1].value]
      else if IsFile(g[0]) && SameId(g[0], g[1]) then [g[2].value]
      else if IsFile(g[0]) && SameId(g[0], g[2]) then [g[1].value]
      else [g[2].value, g[1].value]
    else if IsFile(g[2]) then
      if IsFile(g[0]) && SameId(g[0], g[2]) then [] else [g[2].value]
    else if IsFile(g[1]) then
      if IsFile(g[0]) && SameId(g[0], g[1]) then [] else [g[1].value]
    else []
  }

  function DirActionOf(g: Triple): DirAction {
    if IsDir(g[1]) && IsDir(g[2]) then
      if SameId(g[1], g[2]) then Take(1)
      else if SameId(g[0], g[1]) then Take(2)
      else if SameId(g[0], g[2]) then Take(1)
      else Recurse(1)
    else if IsDir(g[1]) then
      if !IsDir(g[0]) then Take(1) else if SameId(g[0], g[1]) then Drop else Recurse(1)
    else if IsDir(g[2]) then
      if !IsDir(g[0]) then Take(2) else if SameId(g[0], g[2]) then Drop else Recurse(2)
    else Drop
  }

  /** The last directory's name, as the loop over the group leaves it. */
  function DirName(g: Triple): Name {
    if IsDir(g[2]) then g[2].value.name
    else if IsDir(g[1]) then g[1].value.name
    else if IsDir(g[0]) then g[0].value.name
    else ""
  }

  predicate AllTriples(gs: seq<Dents>) {
    forall g :: g in gs ==> |g| == 3
  }

  lemma RenamingKeepsHeight(env: Naming, basedir: string, g: Triple)
    ensures GroupHeight(Renamed(env, basedir, g)) == GroupHeight(g)
    ensures SubTrees(Renamed(env, basedir, g)) == SubTrees(g)
  {
    TripleHeight(g);
    TripleHeight(Renamed(env, basedir, g));
  }

  lemma TripleHeight(g: Triple)
    ensures GroupHeight(g) == OptHeight(g[0]) + OptHeight(g[1]) + OptHeight(g[2])
  {
    assert GroupHeight(g) == OptHeight(g[0]) + GroupHeight(g[1..]);
    assert GroupHeight(g[1..]) == OptHeight(g[1]) + GroupHeight(g[1..][1..]);
    assert GroupHeight(g[1..][1..]) == OptHeight(g[2]) + GroupHeight(g[1..][1..][1..]);
  }

  // ---- sorting ----

  /** g_list_sort with compare_dirents: a stable sort, largest name first. */
  function SortDescending(es: seq<Dirent>): seq<Dirent> {
    if es == [] then [] else InsertDescending(es[0], SortDescending(es[1..]))
  }

  function InsertDescending(e: Dirent, es: seq<Dirent>): seq<Dirent> {
    if es == [] then [e]
    else if Less(e.name, es[0].name) then [es[0]] + InsertDescending(e, es[1..])
    else [e] + es
  }

  // ---- the merge ----

  /** The merged directory: sorted, with its subdirectories merged. */
  function MergeTrees(env: Naming, trees: ThreeLists, basedir: string): seq<Dirent>
    decreases TreesHeight(trees), 2, 0
  {
    GroupsHeightWithin(trees);
    SortDescending(MergeGroups(env, Groups(trees), basedir))
  }

  /** The entries collected by the walk, latest first. */
  function MergeGroups(env: Naming, gs: seq<Dents>, basedir: string): seq<Dirent>
    requires AllTriples(gs)
    decreases GroupsHeight(gs), 1, |gs|
  {
    if gs == [] then []
    else MergeGroups(env, gs[1..], basedir) + MergeGroup(env, gs[0], basedir)
  }

  function MergeGroup(env: Naming, g: Triple, basedir: string): seq<Dirent>
    decreases GroupHeight(g), 0, 1
  {
    var g' := Renamed(env, basedir, g);
    RenamingKeepsHeight(env, basedir, g);
    DirOut(env, g', basedir) + FileOut(g')
  }

  /** The entries the directories of a group contribute; `g` is already renamed. */
  function DirOut(env: Naming, g: Triple, basedir: string): seq<Dirent>
    decreases GroupHeight(g), 0, 0
  {
    match DirActionOf(g)
    case Drop => []
    case Take(k) => [g[k].value]
    case Recurse(k) =>
      SubTreesAreSmaller(g);
      [g[k].value.(id := DirIdOf(MergeTrees(env, SubTrees(g), basedir + DirName(g) + "/")))]
  }

  /** Whether the merge reports a conflict. */
  predicate MergeConflicts(trees: ThreeLists)
    decreases TreesHeight(trees), 2, 0
  {
    GroupsHeightWithin(trees);
    GroupsConflict(Groups(trees))
  }

  predicate GroupsConflict(gs: seq<Dents>)
    requires AllTriples(gs)
    decreases GroupsHeight(gs), 1, |gs|
  {
    gs != [] && (GroupConflicts(gs[0]) || GroupsConflict(gs[1..]))
  }

  predicate GroupConflicts(g: Triple)
    decreases GroupHeight(g), 0, 0
  {
    || ClashOf(g) != NoClash
    || (DirActionOf(g).Recurse? && (SubTreesAreSmaller(g); MergeConflicts(SubTrees(g))))
  }

  // ---- from lists back to single groups ----

  lemma {:induction false} SortKeepsMembers(es: seq<Dirent>, x: Dirent)
    ensures x in SortDescending(es) <==> x in es
  {
    if es != [] {
      SortKeepsMembers(es[1..], x);
      InsertKeepsMembers(es[0], SortDescending(es[1..]), x);
    }
  }

  lemma {:induction false} InsertKeepsMembers(e: Dirent, es: seq<Dirent>, x: Dirent)
    ensures x in InsertDescending(e, es) <==> x == e || x in es
  {
    if es != [] {
      InsertKeepsMembers(e, es[1..], x);
    }
  }

  lemma {:induction false} GroupsMembers(env: Naming, gs: seq<Dents>, basedir: string, x: Dirent)
    requires AllTriples(gs)
    ensures x in MergeGroups(env, gs, basedir) <==> exists g :: g in gs && x in MergeGroup(env, g, basedir)
  {
    if gs != [] {
      GroupsMembers(env, gs[1..], basedir, x);
      if x in MergeGroups(env, gs[1..], basedir) {
        var g :| g in gs[1..] && x in MergeGroup(env, g, basedir);
        assert g in gs;
      }
      if g :| g in gs && x in MergeGroup(env, g, basedir) {
        assert g == gs[0] || g in gs[1..];
      }
    }
  }

  lemma {:induction false} GroupsConflictMembers(gs: seq<Dents>)
    requires AllTriples(gs)
    ensures GroupsConflict(gs) <==> exists g :: g in gs && GroupConflicts(g)
  {
    if gs != [] {
      GroupsConflictMembers(gs[1..]);
      if GroupsConflict(gs[1..]) {
        var g :| g in gs[1..] && GroupConflicts(g);
        assert g in gs;
      }
      if g :| g in gs && GroupConflicts(g) {
        assert g == gs[0] || g in gs[1..];
      }
    }
  }

  lemma GroupOfName(trees: ThreeLists, m: Name)
    requires AllSorted(trees) && HasName(trees, m)
    ensures LookupAll(trees, m) in Groups(trees)
  {
    WalkVisitsEachNameOnce(trees);
    var k :| 0 <= k < |GroupNames(trees)| && GroupNames(trees)[k] == m;
    assert Groups(trees)[k] == LookupAll(trees, m);
  }

  lemma NameOfGroup(trees: ThreeLists, g: Dents) returns (m: Name)
    requires AllSorted(trees) && g in Groups(trees)
    ensures HasName(trees, m) && g == LookupAll(trees, m)
  {
    WalkVisitsEachNameOnce(trees);
    var k :| 0 <= k < |Groups(trees)| && Groups(trees)[k] == g;
    m := GroupNames(trees)[k];
    assert m in GroupNames(trees);
  }

  /** An entry is in the merged directory exactly when the group of some name produced it. */
  lemma MergedEntries(env: Naming, trees: ThreeLists, basedir: string, x: Dirent)
    requires AllSorted(trees)
    ensures x in MergeTrees(env, trees, basedir) <==>
            exists m :: HasName(trees, m) && x in MergeGroup(env, LookupAll(trees, m), basedir)
  {
    GroupsHeightWithin(trees);
    var gs := Groups(trees);
    SortKeepsMembers(MergeGroups(env, gs, basedir), x);
    GroupsMembers(env, gs, basedir, x);
    if x in MergeTrees(env, trees, basedir) {
      var g :| g in gs && x in MergeGroup(env, g, basedir);
      var m := NameOfGroup(trees, g);
    }
    if m :| HasName(trees, m) && x in MergeGroup(env, LookupAll(trees, m), basedir) {
      GroupOfName(trees, m);
    }
  }

  /** The merge conflicts exactly when the group of some name does. */
  lemma ConflictingNames(trees: ThreeLists)
    requires AllSorted(trees)
    ensures MergeConflicts(trees) <==> exists m :: HasName(trees, m) && GroupConflicts(LookupAll(trees, m))
  {
    GroupsHeightWithin(trees);
    var gs := Groups(trees);
    GroupsConflictMembers(gs);
    if MergeConflicts(trees) {
      var g :| g in gs && GroupConflicts(g);
      var m := NameOfGroup(trees, g);
    }
    if m :| HasName(trees, m) && GroupConflicts(LookupAll(trees, m)) {
      GroupOfName(trees, m);
    }
  }
}
