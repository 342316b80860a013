/** A merge that reports no conflict is the pointwise merge of the three path maps. */
module MergePointwise {
  import opened Names
  import opened FsObjects
  import opened DirJoin
  import opened MergeSpec

  /** The textbook three-way merge of one path: equal sides win, an unchanged side yields,
      a modification beats a deletion. */
  function PointMerge(base: Option<Id>, head: Option<Id>, remote: Option<Id>): Option<Id> {
    if head == remote then head
    else if base == head then remote
    else if base == remote then head
    else if head.None? then remote
    else head
  }

  /** Both sides changed the same path to different contents. */
  predicate PointConflict(base: Option<Id>, head: Option<Id>, remote: Option<Id>) {
    head.Some? && remote.Some? && head != remote && base != head && base != remote
  }

  predicate WellFormedTriple(trees: ThreeLists) {
    forall i :: 0 <= i < 3 ==> WellFormed(trees[i])
  }

  /** All entries of a group carry the group's name and are well formed. */
  predicate GroupOf(g: Triple, m: Name) {
    forall i :: 0 <= i < 3 && g[i].Some? ==> g[i].value.name == m && WellFormedDirent(g[i].value)
  }

  predicate DistinctNames(es: seq<Dirent>) {
    forall i, j :: 0 <= i < j < |es| ==> es[i].name != es[j].name
  }

  lemma WellFormedGroup(trees: ThreeLists, m: Name)
    requires WellFormedTriple(trees)
    ensures AllSorted(trees)
    ensures GroupOf(LookupAll(trees, m), m)
    ensures WellFormedTriple(SubTrees(LookupAll(trees, m)))
  {
  }

  // ---- the sorted result ----

  lemma {:induction false} InsertSorts(e: Dirent, es: seq<Dirent>)
    requires SortedDescending(es)
    requires forall x :: x in es ==> x.name != e.name
    ensures SortedDescending(InsertDescending(e, es))
  {
    StrictTotalOrder();
    if es != [] && Less(e.name, es[0].name) {
      InsertSorts(e, es[1..]);
      var rest := InsertDescending(e, es[1..]);
      forall j | 0 <= j < |rest|
        ensures Less(rest[j].name, es[0].name)
      {
        InsertKeepsMembers(e, es[1..], rest[j]);
      }
    }
  }

  lemma {:induction false} SortSorts(es: seq<Dirent>)
    requires DistinctNames(es)
    ensures SortedDescending(SortDescending(es))
  {
    if es != [] {
      SortSorts(es[1..]);
      forall x | x in SortDescending(es[1..])
        ensures x.name != es[0].name
      {
        SortKeepsMembers(es[1..], x);
      }
      InsertSorts(es[0], SortDescending(es[1..]));
    }
  }

  /** The outputs of the groups stay within name sets that do not meet. */
  ghost predicate Apart(env: Naming, gs: seq<Dents>, basedir: string, owned: seq<set<Name>>)
    requires AllTriples(gs)
  {
    && |owned| == |gs|
    && (forall k, l :: 0 <= k < l < |gs| ==> owned[k] !! owned[l])
    && (forall k :: 0 <= k < |gs| ==> DistinctNames(MergeGroup(env, gs[k], basedir)))
    && (forall k :: 0 <= k < |gs| ==> NamesWithin(MergeGroup(env, gs[k], basedir), owned[k]))
  }

  predicate NamesWithin(es: seq<Dirent>, names: set<Name>) {
    forall x :: x in es ==> x.name in names
  }

  lemma ConcatenationIsDistinct(a: seq<Dirent>, b: seq<Dirent>)
    requires DistinctNames(a) && DistinctNames(b)
    requires forall x, y :: x in a && y in b ==> x.name != y.name
    ensures DistinctNames(a + b)
  {
  }

  predicate OwnedBySome(owned: seq<set<Name>>, n: Name) {
    exists k :: 0 <= k < |owned| && n in owned[k]
  }

  lemma OwnedStep(owned: seq<set<Name>>, n: Name)
    requires owned != []
    ensures OwnedBySome(owned, n) <==> n in owned[0] || OwnedBySome(owned[1..], n)
  {
    if k :| 0 <= k < |owned[1..]| && n in owned[1..][k] {
      assert n in owned[k + 1];
    }
    if k :| 0 < k < |owned| && n in owned[k] {
      assert n in owned[1..][k - 1];
    }
  }

  lemma ApartStep(env: Naming, gs: seq<Dents>, basedir: string, owned: seq<set<Name>>)
    requires AllTriples(gs) && gs != [] && Apart(env, gs, basedir, owned)
    ensures Apart(env, gs[1..], basedir, owned[1..])
    ensures DistinctNames(MergeGroup(env, gs[0], basedir)) && NamesWithin(MergeGroup(env, gs[0], basedir), owned[0])
    ensures forall n :: OwnedBySome(owned[1..], n) ==> n !in owned[0]
  {
    forall k | 0 <= k < |owned[1..]|
      ensures owned[0] !! owned[1..][k]
    {
      assert owned[1..][k] == owned[k + 1];
    }
  }

  lemma {:induction false} ApartMeansDistinct(env: Naming, gs: seq<Dents>, basedir: string, owned: seq<set<Name>>)
    requires AllTriples(gs) && Apart(env, gs, basedir, owned)
    ensures DistinctNames(MergeGroups(env, gs, basedir))
    ensures forall x :: x in MergeGroups(env, gs, basedir) ==> OwnedBySome(owned, x.name)
  {
    if gs != [] {
      var front, back := MergeGroups(env, gs[1..], basedir), MergeGroup(env, gs[0], basedir);
      ApartStep(env, gs, basedir, owned);
      ApartMeansDistinct(env, gs[1..], basedir, owned[1..]);
      ConcatenationIsDistinct(front, back);
      forall x: Dirent | x in front + back
        ensures OwnedBySome(owned, x.name)
      {
        OwnedStep(owned, x.name);
      }
    }
  }

  // ---- groups without conflict ----

  lemma QuietGroup(env: Naming, g: Triple, basedir: string, m: Name)
    requires GroupOf(g, m) && !GroupConflicts(g)
    ensures Renamed(env, basedir, g) == g
    ensures |MergeGroup(env, g, basedir)| <= 1
    ensures forall x :: x in MergeGroup(env, g, basedir) ==> x.name == m
  {
  }

  lemma QuietGroupOfName(env: Naming, trees: ThreeLists, basedir: string, m: Name)
    requires WellFormedTriple(trees) && !MergeConflicts(trees) && HasName(trees, m)
    ensures GroupOf(LookupAll(trees, m), m)
    ensures !GroupConflicts(LookupAll(trees, m))
    ensures |MergeGroup(env, LookupAll(trees, m), basedir)| <= 1
    ensures forall x :: x in MergeGroup(env, LookupAll(trees, m), basedir) ==> x.name == m
  {
    WellFormedGroup(trees, m);
    ConflictingNames(trees);
    QuietGroup(env, LookupAll(trees, m), basedir, m);
  }

  lemma QuietGroupAt(env: Naming, trees: ThreeLists, basedir: string, k: nat)
    requires WellFormedTriple(trees) && !MergeConflicts(trees) && k < |Groups(trees)|
    ensures AllTriples(Groups(trees)) && |GroupNames(trees)| == |Groups(trees)|
    ensures DistinctNames(MergeGroup(env, Groups(trees)[k], basedir))
    ensures NamesWithin(MergeGroup(env, Groups(trees)[k], basedir), {GroupNames(trees)[k]})
  {
    GroupsHeightWithin(trees);
    WalkVisitsEachNameOnce(trees);
    assert GroupNames(trees)[k] in GroupNames(trees);
    QuietGroupOfName(env, trees, basedir, GroupNames(trees)[k]);
  }

  lemma QuietGroupsApart(env: Naming, trees: ThreeLists, basedir: string) returns (owned: seq<set<Name>>)
    requires WellFormedTriple(trees) && !MergeConflicts(trees)
    ensures AllTriples(Groups(trees)) && Apart(env, Groups(trees), basedir, owned)
  {
    var names := GroupNames(trees);
    WalkVisitsEachNameOnce(trees);
    owned := seq(|names|, k requires 0 <= k < |names| => {names[k]});
    GroupsHeightWithin(trees);
    forall k | 0 <= k < |names|
      ensures DistinctNames(MergeGroup(env, Groups(trees)[k], basedir))
      ensures NamesWithin(MergeGroup(env, Groups(trees)[k], basedir), owned[k])
    {
      QuietGroupAt(env, trees, basedir, k);
    }
    DescendingNamesDiffer(names);
    forall k, l | 0 <= k < l < |names|
      ensures owned[k] !! owned[l]
    {
      assert names[k] != names[l];
    }
  }

  lemma QuietResultIsSorted(env: Naming, trees: ThreeLists, basedir: string)
    requires WellFormedTriple(trees) && !MergeConflicts(trees)
    ensures SortedDescending(MergeTrees(env, trees, basedir))
  {
    GroupsHeightWithin(trees);
    var owned := QuietGroupsApart(env, trees, basedir);
    ApartMeansDistinct(env, Groups(trees), basedir, owned);
    SortSorts(MergeGroups(env, Groups(trees), basedir));
  }

  /** In a conflict-free merge the entry of a name is the one its own group produced. */
  lemma QuietLookup(env: Naming, trees: ThreeLists, basedir: string, m: Name)
    requires WellFormedTriple(trees) && !MergeConflicts(trees)
    ensures !HasName(trees, m) ==> Lookup(MergeTrees(env, trees, basedir), m) == None
    ensures HasName(trees, m) ==>
              var out := MergeGroup(env, LookupAll(trees, m), basedir);
              |out| <= 1 && Lookup(MergeTrees(env, trees, basedir), m) == if out == [] then None else Some(out[0])
  {
    WellFormedGroup(trees, m);
    QuietResultIsSorted(env, trees, basedir);
    var merged := MergeTrees(env, trees, basedir);
    forall x | x in merged && x.name == m
      ensures HasName(trees, m) && x in MergeGroup(env, LookupAll(trees, m), basedir)
    {
      MergedEntries(env, trees, basedir, x);
      var n :| HasName(trees, n) && x in MergeGroup(env, LookupAll(trees, n), basedir);
      QuietGroupOfName(env, trees, basedir, n);
    }
    if HasName(trees, m) {
      QuietGroupOfName(env, trees, basedir, m);
      var out := MergeGroup(env, LookupAll(trees, m), basedir);
      if out != [] {
        MergedEntries(env, trees, basedir, out[0]);
        LookupFinds(merged, out[0]);
      }
    }
  }

  lemma QuietGroupIsWellFormed(env: Naming, g: Triple, basedir: string, m: Name)
    requires GroupOf(g, m) && !GroupConflicts(g)
    requires DirActionOf(g).Recurse? ==> WellFormed(MergeTrees(env, SubTrees(g), basedir + DirName(g) + "/"))
    ensures forall x :: x in MergeGroup(env, g, basedir) ==> WellFormedDirent(x)
  {
  }

  /** A conflict-free merge of well-formed directories is a well-formed directory. */
  lemma {:induction false} QuietResultIsWellFormed(env: Naming, trees: ThreeLists, basedir: string)
    requires WellFormedTriple(trees) && !MergeConflicts(trees)
    ensures WellFormed(MergeTrees(env, trees, basedir))
    decreases TreesHeight(trees)
  {
    QuietResultIsSorted(env, trees, basedir);
    WellFormedGroup(trees, "");
    var merged := MergeTrees(env, trees, basedir);
    forall x | x in merged
      ensures WellFormedDirent(x)
    {
      MergedEntries(env, trees, basedir, x);
      var m :| HasName(trees, m) && x in MergeGroup(env, LookupAll(trees, m), basedir);
      QuietGroupOfName(env, trees, basedir, m);
      WellFormedGroup(trees, m);
      var g := LookupAll(trees, m);
      if DirActionOf(g).Recurse? {
        SubTreesAreSmaller(g);
        GroupOfName(trees, m);
        GroupHeightWithin(trees, g);
        QuietResultIsWellFormed(env, SubTrees(g), basedir + DirName(g) + "/");
      }
      QuietGroupIsWellFormed(env, g, basedir, m);
    }
  }

  // ---- the main theorem ----

  /** The file an entry is itself, and the file at a path below it. */
  function FileHere(o: Option<Dirent>): Option<Id> {
    if IsFile(o) then Some(o.value.id) else None
  }

  function FileBelow(o: Option<Dirent>, path: Path): Option<Id> {
    FileIdAt(SubDir(o), path)
  }

  lemma FileIdSplits(es: seq<Dirent>, path: Path)
    requires path != []
    ensures FileIdAt(es, path) == if |path| == 1 then FileHere(Lookup(es, path[0]))
                                  else FileBelow(Lookup(es, path[0]), path[1..])
  {
  }

  function First(es: seq<Dirent>): Option<Dirent> {
    if es == [] then None else Some(es[0])
  }

  /** The last component of a path: files against directories of the same name. */
  lemma PointwiseHere(env: Naming, g: Triple, basedir: string, m: Name)
    requires GroupOf(g, m) && !GroupConflicts(g)
    ensures FileHere(First(MergeGroup(env, g, basedir)))
            == PointMerge(FileHere(g[0]), FileHere(g[1]), FileHere(g[2]))
    ensures !PointConflict(FileHere(g[0]), FileHere(g[1]), FileHere(g[2]))
  {
  }

  /** Equal ids leave the same files below, even when one side is the empty file. */
  lemma SameIdSameBelow(a: Option<Dirent>, b: Option<Dirent>, m: Name)
    requires GroupOf([a, b, None], m) && SameId(a, b)
    ensures SubDir(a) == SubDir(b)
  {
    var g: Triple := [a, b, None];
    assert WellFormedDirent(g[0].value) && WellFormedDirent(g[1].value);
  }

  /** The same below a group whose directories are kept or dropped whole. */
  lemma PointwiseWhole(env: Naming, g: Triple, basedir: string, m: Name, path: Path)
    requires GroupOf(g, m) && !GroupConflicts(g) && !DirActionOf(g).Recurse?
    ensures FileBelow(First(MergeGroup(env, g, basedir)), path)
            == PointMerge(FileBelow(g[0], path), FileBelow(g[1], path), FileBelow(g[2], path))
    ensures !PointConflict(FileBelow(g[0], path), FileBelow(g[1], path), FileBelow(g[2], path))
  {
    if SameId(g[0], g[1]) { SameIdSameBelow(g[0], g[1], m); }
    if SameId(g[0], g[2]) { SameIdSameBelow(g[0], g[2], m); }
    if SameId(g[1], g[2]) { SameIdSameBelow(g[1], g[2], m); }
  }

  lemma RecursiveGroup(env: Naming, g: Triple, basedir: string, m: Name)
    requires GroupOf(g, m) && !GroupConflicts(g) && DirActionOf(g).Recurse?
    ensures SubDir(First(MergeGroup(env, g, basedir))) == MergeTrees(env, SubTrees(g), basedir + DirName(g) + "/")
    ensures !MergeConflicts(SubTrees(g))
  {
  }

  /** When no conflict is reported, the file at every path of the merged tree is the pointwise
      merge of the files the three trees have there, and no path had a conflicting change. */
  lemma {:induction false} MergeIsPointwise(env: Naming, trees: ThreeLists, basedir: string, path: Path)
    requires WellFormedTriple(trees) && !MergeConflicts(trees)
    ensures FileIdAt(MergeTrees(env, trees, basedir), path)
            == PointMerge(FileIdAt(trees[0], path), FileIdAt(trees[1], path), FileIdAt(trees[2], path))
    ensures !PointConflict(FileIdAt(trees[0], path), FileIdAt(trees[1], path), FileIdAt(trees[2], path))
    decreases |path|
  {
    if path != [] {
      var m := path[0];
      var g := LookupAll(trees, m);
      var merged := MergeTrees(env, trees, basedir);
      FileIdSplits(merged, path);
      FileIdSplits(trees[0], path);
      FileIdSplits(trees[1], path);
      FileIdSplits(trees[2], path);
      QuietLookup(env, trees, basedir, m);
      if HasName(trees, m) {
        PointwiseAtName(env, trees, basedir, path);
      } else {
        assert forall i :: 0 <= i < 3 ==> Lookup(trees[i], m) == None;
      }
    }
  }

  lemma {:induction false} PointwiseAtName(env: Naming, trees: ThreeLists, basedir: string, path: Path)
    requires WellFormedTriple(trees) && !MergeConflicts(trees)
    requires path != [] && HasName(trees, path[0])
    ensures var g := LookupAll(trees, path[0]);
            var out := First(MergeGroup(env, g, basedir));
            if |path| == 1 then
              && FileHere(out) == PointMerge(FileHere(g[0]), FileHere(g[1]), FileHere(g[2]))
              && !PointConflict(FileHere(g[0]), FileHere(g[1]), FileHere(g[2]))
            else
              var rest := path[1..];
              && FileBelow(out, rest) == PointMerge(FileBelow(g[0], rest), FileBelow(g[1], rest), FileBelow(g[2], rest))
              && !PointConflict(FileBelow(g[0], rest), FileBelow(g[1], rest), FileBelow(g[2], rest))
    decreases |path|, 0
  {
    var m := path[0];
    var g := LookupAll(trees, m);
    QuietGroupOfName(env, trees, basedir, m);
    if |path| == 1 {
      PointwiseHere(env, g, basedir, m);
    } else if DirActionOf(g).Recurse? {
      RecursiveGroup(env, g, basedir, m);
      WellFormedGroup(trees, m);
      MergeIsPointwise(env, SubTrees(g), basedir + DirName(g) + "/", path[1..]);
    } else {
      PointwiseWhole(env, g, basedir, m, path[1..]);
    }
  }
}
