/** Algebraic laws of the merge: the conflict flag is symmetric, conflict-free merges commute,
    an unchanged or equal side leaves the other side's root id exactly, and fresh conflict names
    keep every merge well formed. */
module MergeLaws {
  import opened Names
  import opened FsObjects
  import opened DirJoin
  import opened MergeSpec
  import opened MergePointwise

  // ---- head and remote exchanged ----

  function Swap(trees: ThreeLists): Lists
  {
    [trees[0], trees[2], trees[1]]
  }

  function SwapGroup(g: Triple): Triple {
    [g[0], g[2], g[1]]
  }

  lemma SwapLookup(trees: ThreeLists, m: Name)
    ensures LookupAll(Swap(trees), m) == SwapGroup(LookupAll(trees, m))
    ensures HasName(trees, m) ==> HasName(Swap(trees), m)
  {
    var g := LookupAll(trees, m);
    assert g == [Lookup(trees[0], m), Lookup(trees[1], m), Lookup(trees[2], m)];
    var s := Swap(trees);
    if HasName(trees, m) {
      assert Lookup(s[0], m).Some? || Lookup(s[1], m).Some? || Lookup(s[2], m).Some?;
    }
  }

  lemma SwapKeepsClash(g: Triple)
    ensures ClashOf(SwapGroup(g)) == NoClash <==> ClashOf(g) == NoClash
    ensures DirActionOf(SwapGroup(g)).Recurse? <==> DirActionOf(g).Recurse?
    ensures SubTrees(SwapGroup(g)) == Swap(SubTrees(g))
  {
  }

  lemma ConflictOfGroupSwaps(g: Triple)
    requires ClashOf(g) != NoClash || (DirActionOf(g).Recurse? && MergeConflicts(Swap(SubTrees(g))))
    ensures GroupConflicts(SwapGroup(g))
  {
    SwapKeepsClash(g);
  }

  /** The name a conflict comes from, and whether it lies here or in a subdirectory. */
  lemma ConflictHasName(trees: ThreeLists) returns (m: Name)
    requires WellFormedTriple(trees) && MergeConflicts(trees)
    ensures HasName(trees, m)
    ensures var g: Triple := LookupAll(trees, m);
            ClashOf(g) != NoClash
            || (&& DirActionOf(g).Recurse? && MergeConflicts(SubTrees(g))
                && WellFormedTriple(SubTrees(g)) && TreesHeight(SubTrees(g)) < TreesHeight(trees))
  {
    WellFormedGroup(trees, "");
    ConflictingNames(trees);
    m :| HasName(trees, m) && GroupConflicts(LookupAll(trees, m));
    var g := LookupAll(trees, m);
    if ClashOf(g) == NoClash {
      WellFormedGroup(trees, m);
      SubTreesAreSmaller(g);
      GroupOfName(trees, m);
      GroupHeightWithin(trees, g);
    }
  }

  lemma ConflictAtName(trees: ThreeLists, m: Name)
    requires AllSorted(trees) && HasName(trees, m) && GroupConflicts(LookupAll(trees, m))
    ensures MergeConflicts(trees)
  {
    ConflictingNames(trees);
  }

  lemma {:induction false} ConflictSurvivesSwap(trees: ThreeLists)
    requires WellFormedTriple(trees) && MergeConflicts(trees)
    ensures MergeConflicts(Swap(trees))
    decreases TreesHeight(trees)
  {
    var m := ConflictHasName(trees);
    var g := LookupAll(trees, m);
    if ClashOf(g) == NoClash {
      ConflictSurvivesSwap(SubTrees(g));
    }
    ConflictOfGroupSwaps(g);
    SwapLookup(trees, m);
    ConflictAtName(Swap(trees), m);
  }

  /** Exchanging head and remote never changes whether a conflict is reported. */
  lemma ConflictIsSymmetric(trees: ThreeLists)
    requires WellFormedTriple(trees)
    ensures MergeConflicts(Swap(trees)) <==> MergeConflicts(trees)
  {
    if MergeConflicts(trees) { ConflictSurvivesSwap(trees); }
    if MergeConflicts(Swap(trees)) {
      ConflictSurvivesSwap(Swap(trees));
      assert Swap(Swap(trees)) == trees;
    }
  }

  /** Conflict-free merges commute on the map from paths to file ids. */
  lemma ConflictFreeMergesCommute(env: Naming, env': Naming, trees: ThreeLists, basedir: string, path: Path)
    requires WellFormedTriple(trees) && !MergeConflicts(trees)
    ensures !MergeConflicts(Swap(trees))
    ensures FileIdAt(MergeTrees(env, trees, basedir), path) == FileIdAt(MergeTrees(env', Swap(trees), basedir), path)
  {
    ConflictIsSymmetric(trees);
    MergeIsPointwise(env, trees, basedir, path);
    MergeIsPointwise(env', Swap(trees), basedir, path);
  }

  // ---- one side unchanged ----

  lemma {:induction false} SortedListsWithSameEntries(a: seq<Dirent>, b: seq<Dirent>)
    requires SortedDescending(a) && SortedDescending(b)
    requires forall n :: Lookup(a, n) == Lookup(b, n)
    ensures a == b
  {
    StrictTotalOrder();
    assert a != [] ==> Lookup(b, a[0].name).Some?;
    assert b != [] ==> Lookup(a, b[0].name).Some?;
    if a != [] && b != [] {
      assert Lookup(a, a[0].name) == Some(a[0]) && Lookup(b, b[0].name) == Some(b[0]);
      assert Lookup(b, a[0].name).value in b && Lookup(a, b[0].name).value in a;
      assert a[0] == b[0];
      forall n ensures Lookup(a[1..], n) == Lookup(b[1..], n) {
        assert Lookup(a, n) == Lookup(b, n);
        if n == a[0].name {
          assert forall e :: e in a[1..] ==> e.name != n;
          assert forall e :: e in b[1..] ==> e.name != n;
        }
      }
      SortedListsWithSameEntries(a[1..], b[1..]);
      assert a == [a[0]] + a[1..] && b == [b[0]] + b[1..];
    }
  }

  /** No name conflicts, and each gives the entry expected of it. */
  ghost predicate GivesEachName(env: Naming, trees: ThreeLists, basedir: string, expected: seq<Dirent>)
  {
    forall m :: HasName(trees, m) ==>
      !GroupConflicts(LookupAll(trees, m)) && First(MergeGroup(env, LookupAll(trees, m), basedir)) == Lookup(expected, m)
  }

  lemma QuietResultIs(env: Naming, trees: ThreeLists, basedir: string, expected: seq<Dirent>)
    requires WellFormedTriple(trees) && Expectable(trees, expected)
    requires GivesEachName(env, trees, basedir, expected)
    ensures !MergeConflicts(trees)
    ensures MergeTrees(env, trees, basedir) == expected
  {
    WellFormedGroup(trees, "");
    ConflictingNames(trees);
    QuietResultIsSorted(env, trees, basedir);
    forall m ensures Lookup(MergeTrees(env, trees, basedir), m) == Lookup(expected, m) {
      QuietLookup(env, trees, basedir, m);
    }
    SortedListsWithSameEntries(MergeTrees(env, trees, basedir), expected);
  }

  lemma HeadOnlyGroup(env: Naming, g: Triple, basedir: string, m: Name)
    requires GroupOf(g, m) && (g[2] == g[0] || g[2] == g[1])
    ensures !GroupConflicts(g)
    ensures First(MergeGroup(env, g, basedir)) == g[1]
  {
  }

  /** Remote unchanged since base: the merge is head itself, entry by entry. */
  lemma UnchangedRemoteGivesHead(env: Naming, base: seq<Dirent>, head: seq<Dirent>, basedir: string)
    requires WellFormed(base) && WellFormed(head)
    ensures !MergeConflicts([base, head, base])
    ensures MergeTrees(env, [base, head, base], basedir) == head
  {
    HeadWins(env, [base, head, base], basedir);
  }

  lemma HeadWins(env: Naming, trees: ThreeLists, basedir: string)
    requires WellFormedTriple(trees) && (trees[2] == trees[0] || trees[2] == trees[1])
    ensures !MergeConflicts(trees)
    ensures MergeTrees(env, trees, basedir) == trees[1]
  {
    forall m | HasName(trees, m)
      ensures !GroupConflicts(LookupAll(trees, m))
      ensures First(MergeGroup(env, LookupAll(trees, m), basedir)) == Lookup(trees[1], m)
    {
      WellFormedGroup(trees, m);
      HeadOnlyGroup(env, LookupAll(trees, m), basedir, m);
    }
    forall e | e in trees[1] ensures HasName(trees, e.name) {
      LookupFinds(trees[1], e);
    }
    QuietResultIs(env, trees, basedir, trees[1]);
  }

  /** Both sides equal: the merge is head itself, entry by entry. */
  lemma EqualSidesGiveHead(env: Naming, base: seq<Dirent>, head: seq<Dirent>, basedir: string)
    requires WellFormed(base) && WellFormed(head)
    ensures !MergeConflicts([base, head, head])
    ensures MergeTrees(env, [base, head, head], basedir) == head
  {
    HeadWins(env, [base, head, head], basedir);
  }

  /** When one side is unchanged, or both are equal, the merge returns head's own root id. */
  lemma HeadRootComesBack(env: Naming, base: Id, head: Id)
    requires WellFormed(Entries(base)) && WellFormed(Entries(head)) && head == DirIdOf(Entries(head))
    ensures DirIdOf(MergeTrees(env, [Entries(base), Entries(head), Entries(base)], "")) == head
    ensures DirIdOf(MergeTrees(env, [Entries(base), Entries(head), Entries(head)], "")) == head
  {
    UnchangedRemoteGivesHead(env, Entries(base), Entries(head), "");
    EqualSidesGiveHead(env, Entries(base), Entries(head), "");
  }

  /** Remote's entry, but head's copy of it where kind and content id are the same. */
  function PreferHead(head: seq<Dirent>, e: Dirent): Dirent {
    match Lookup(head, e.name)
    case None => e
    case Some(h) => if h.isDir == e.isDir && h.id == e.id then h else e
  }

  function RemoteWithHeadMetadata(head: seq<Dirent>, remote: seq<Dirent>): seq<Dirent> {
    seq(|remote|, i requires 0 <= i < |remote| => PreferHead(head, remote[i]))
  }

  lemma LookupPreferred(head: seq<Dirent>, remote: seq<Dirent>, m: Name)
    requires SortedDescending(remote)
    ensures SortedDescending(RemoteWithHeadMetadata(head, remote))
    ensures Lookup(RemoteWithHeadMetadata(head, remote), m)
            == match Lookup(remote, m) { case None => None case Some(e) => Some(PreferHead(head, e)) }
  {
    var out := RemoteWithHeadMetadata(head, remote);
    assert forall i :: 0 <= i < |remote| ==> out[i].name == remote[i].name;
    if Lookup(remote, m).Some? {
      var i :| 0 <= i < |remote| && remote[i] == Lookup(remote, m).value;
      LookupFinds(out, out[i]);
    }
  }

  lemma PreferredHasName(head: seq<Dirent>, remote: seq<Dirent>, e: Dirent)
    requires e in RemoteWithHeadMetadata(head, remote)
    ensures HasName([head, head, remote], e.name)
  {
    var i :| 0 <= i < |remote| && RemoteWithHeadMetadata(head, remote)[i] == e;
    assert remote[i] in remote && remote[i].name == e.name;
    assert Lookup([head, head, remote][2], e.name).Some?;
  }

  lemma RemoteOnlyGroup(env: Naming, g: Triple, basedir: string, m: Name)
    requires GroupOf(g, m) && g[0] == g[1]
    ensures !GroupConflicts(g)
    ensures First(MergeGroup(env, g, basedir)) ==
            if g[2].Some? && g[1].Some? && g[1].value.isDir == g[2].value.isDir && SameId(g[1], g[2]) then g[1] else g[2]
  {
  }

  lemma RemoteOnlyName(env: Naming, base: seq<Dirent>, remote: seq<Dirent>, basedir: string, m: Name)
    requires WellFormed(base) && WellFormed(remote)
    ensures var g := LookupAll([base, base, remote], m);
            && !GroupConflicts(g)
            && First(MergeGroup(env, g, basedir)) == Lookup(RemoteWithHeadMetadata(base, remote), m)
  {
    WellFormedGroup([base, base, remote], m);
    RemoteOnlyGroup(env, LookupAll([base, base, remote], m), basedir, m);
    LookupPreferred(base, remote, m);
  }

  /** Head unchanged since base: the merge is remote, up to the metadata of entries whose kind
      and content id head already had. */
  lemma UnchangedHeadGivesRemote(env: Naming, base: seq<Dirent>, remote: seq<Dirent>, basedir: string)
    requires WellFormed(base) && WellFormed(remote)
    ensures !MergeConflicts([base, base, remote])
    ensures MergeTrees(env, [base, base, remote], basedir) == RemoteWithHeadMetadata(base, remote)
  {
    RemoteGivesEachName(env, base, remote, basedir);
    PreferredIsExpected(base, remote);
    QuietResultIs(env, [base, base, remote], basedir, RemoteWithHeadMetadata(base, remote));
  }

  /** What a merged directory is expected to be: sorted, with names of the three trees only. */
  predicate Expectable(trees: ThreeLists, expected: seq<Dirent>) {
    SortedDescending(expected) && forall e :: e in expected ==> HasName(trees, e.name)
  }

  lemma PreferredIsExpected(base: seq<Dirent>, remote: seq<Dirent>)
    requires WellFormed(base) && WellFormed(remote)
    ensures WellFormedTriple([base, base, remote])
    ensures Expectable([base, base, remote], RemoteWithHeadMetadata(base, remote))
  {
    LookupPreferred(base, remote, "");
    forall e | e in RemoteWithHeadMetadata(base, remote) ensures HasName([base, base, remote], e.name) {
      PreferredHasName(base, remote, e);
    }
  }

  lemma RemoteGivesEachName(env: Naming, base: seq<Dirent>, remote: seq<Dirent>, basedir: string)
    requires WellFormed(base) && WellFormed(remote)
    ensures GivesEachName(env, [base, base, remote], basedir, RemoteWithHeadMetadata(base, remote))
  {
    forall m | HasName([base, base, remote], m)
      ensures !GroupConflicts(LookupAll([base, base, remote], m))
      ensures First(MergeGroup(env, LookupAll([base, base, remote], m), basedir))
              == Lookup(RemoteWithHeadMetadata(base, remote), m)
    {
      RemoteOnlyName(env, base, remote, basedir, m);
    }
  }

  // ---- fresh conflict names ----

  /** Every name that occurs in a tree is among `used`. */
  predicate NamesAmong(es: seq<Dirent>, used: set<Name>) {
    forall e :: e in es ==> e.name in used && (e.isDir && e.id.DirId? ==> NamesAmong(e.id.entries, used))
  }

  /** Conflict names are always found, avoid the names in use and each other. */
  ghost predicate FreshNaming(env: Naming, used: set<Name>) {
    && (forall d, n :: env.file(d, n).Some? && env.file(d, n).value !in used)
    && (forall n :: env.dir(n).Some? && env.dir(n).value !in used)
    && (forall d, n, n' :: n != n' ==> env.file(d, n) != env.file(d, n'))
    && (forall n, n' :: n != n' ==> env.dir(n) != env.dir(n'))
    && (forall d, n, n' :: n != n' ==> env.file(d, n) != env.dir(n'))
  }

  /** The names the outputs of one group may take. */
  function OwnNames(env: Naming, basedir: string, m: Name): set<Name> {
    {m} + (if env.file(basedir, m).Some? then {env.file(basedir, m).value} else {})
        + (if env.dir(m).Some? then {env.dir(m).value} else {})
  }

  lemma GroupOutputNames(env: Naming, used: set<Name>, g: Triple, basedir: string, m: Name)
    requires GroupOf(g, m) && FreshNaming(env, used) && m in used
    ensures DistinctNames(MergeGroup(env, g, basedir))
    ensures NamesWithin(MergeGroup(env, g, basedir), OwnNames(env, basedir, m))
  {
  }

  lemma TreesUse(trees: ThreeLists, used: set<Name>, m: Name)
    requires HasName(trees, m)
    requires forall i :: 0 <= i < 3 ==> NamesAmong(trees[i], used)
    ensures m in used
    ensures forall i :: 0 <= i < 3 ==> NamesAmong(SubTrees(LookupAll(trees, m))[i], used)
  {
  }

  lemma OwnNamesDoNotMeet(env: Naming, used: set<Name>, basedir: string, m: Name, n: Name)
    requires FreshNaming(env, used) && m in used && n in used && m != n
    ensures OwnNames(env, basedir, m) !! OwnNames(env, basedir, n)
  {
  }

  lemma FreshGroupAt(env: Naming, used: set<Name>, trees: ThreeLists, basedir: string, k: nat)
    requires WellFormedTriple(trees) && FreshNaming(env, used) && k < |Groups(trees)|
    requires forall i :: 0 <= i < 3 ==> NamesAmong(trees[i], used)
    ensures AllTriples(Groups(trees)) && |GroupNames(trees)| == |Groups(trees)|
    ensures GroupNames(trees)[k] in used
    ensures DistinctNames(MergeGroup(env, Groups(trees)[k], basedir))
    ensures NamesWithin(MergeGroup(env, Groups(trees)[k], basedir), OwnNames(env, basedir, GroupNames(trees)[k]))
  {
    GroupsHeightWithin(trees);
    WalkVisitsEachNameOnce(trees);
    var m := GroupNames(trees)[k];
    assert m in GroupNames(trees);
    TreesUse(trees, used, m);
    WellFormedGroup(trees, m);
    GroupOutputNames(env, used, LookupAll(trees, m), basedir, m);
  }

  lemma FreshGroupsApart(env: Naming, used: set<Name>, trees: ThreeLists, basedir: string) returns (owned: seq<set<Name>>)
    requires WellFormedTriple(trees) && FreshNaming(env, used)
    requires forall i :: 0 <= i < 3 ==> NamesAmong(trees[i], used)
    ensures AllTriples(Groups(trees)) && Apart(env, Groups(trees), basedir, owned)
  {
    var names := GroupNames(trees);
    WalkVisitsEachNameOnce(trees);
    owned := seq(|names|, k requires 0 <= k < |names| => OwnNames(env, basedir, names[k]));
    GroupsHeightWithin(trees);
    forall k | 0 <= k < |names|
      ensures names[k] in used
      ensures DistinctNames(MergeGroup(env, Groups(trees)[k], basedir))
      ensures NamesWithin(MergeGroup(env, Groups(trees)[k], basedir), owned[k])
    {
      FreshGroupAt(env, used, trees, basedir, k);
    }
    DescendingNamesDiffer(names);
    forall k, l | 0 <= k < l < |names|
      ensures owned[k] !! owned[l]
    {
      OwnNamesDoNotMeet(env, used, basedir, names[k], names[l]);
    }
  }

  lemma OutputIsWellFormed(env: Naming, g: Triple, basedir: string, m: Name, x: Dirent)
    requires GroupOf(g, m) && x in MergeGroup(env, g, basedir)
    requires DirActionOf(g).Recurse? ==> forall d :: WellFormed(MergeTrees(env, SubTrees(g), d))
    ensures WellFormedDirent(x)
  {
    var g' := Renamed(env, basedir, g);
    assert SubTrees(g') == SubTrees(g) && DirActionOf(g') == DirActionOf(g);
    if x !in FileOut(g') && DirActionOf(g').Recurse? {
      var sub := MergeTrees(env, SubTrees(g'), basedir + DirName(g') + "/");
      assert Entries(x.id) == sub && x.id == DirIdOf(sub) && x.isDir;
    }
  }

  /** With fresh conflict names every merge, conflicting or not, is a well-formed directory:
      sorted, with distinct names at every level. */
  lemma {:induction false} FreshNamesKeepMergeWellFormed(env: Naming, used: set<Name>, trees: ThreeLists, basedir: string)
    requires WellFormedTriple(trees) && FreshNaming(env, used)
    requires forall i :: 0 <= i < 3 ==> NamesAmong(trees[i], used)
    ensures WellFormed(MergeTrees(env, trees, basedir))
    decreases TreesHeight(trees)
  {
    GroupsHeightWithin(trees);
    var owned := FreshGroupsApart(env, used, trees, basedir);
    ApartMeansDistinct(env, Groups(trees), basedir, owned);
    SortSorts(MergeGroups(env, Groups(trees), basedir));
    WellFormedGroup(trees, "");
    forall x | x in MergeTrees(env, trees, basedir)
      ensures WellFormedDirent(x)
    {
      MergedEntries(env, trees, basedir, x);
      var m :| HasName(trees, m) && x in MergeGroup(env, LookupAll(trees, m), basedir);
      var g := LookupAll(trees, m);
      WellFormedGroup(trees, m);
      TreesUse(trees, used, m);
      if DirActionOf(g).Recurse? {
        SubTreesAreSmaller(g);
        GroupOfName(trees, m);
        GroupHeightWithin(trees, g);
        forall d ensures WellFormed(MergeTrees(env, SubTrees(g), d)) {
          FreshNamesKeepMergeWellFormed(env, used, SubTrees(g), d);
        }
      }
      OutputIsWellFormed(env, g, basedir, m, x);
    }
  }
}
