/** The n-way walk over sorted directories shared by the three-way merge and the tree diff:
    repeatedly take the largest name at the front of any list, together with the entries that
    carry it, and advance those lists. */
module DirJoin {
  import opened Names
  import opened FsObjects

  type Lists = seq<seq<Dirent>>

  /** One entry per list, or None where the list has no entry of the current name. */
  type Dents = seq<Option<Dirent>>

  predicate Done(ptrs: Lists) {
    forall i :: 0 <= i < |ptrs| ==> ptrs[i] == []
  }

  /** The largest front name, as the scan over the cursors computes it. */
  function FirstName(ptrs: Lists): Option<Name> {
    if ptrs == [] then None
    else
      var before := FirstName(ptrs[..|ptrs| - 1]);
      var last := ptrs[|ptrs| - 1];
      if last == [] then before
      else if before.None? || Less(before.value, last[0].name) then Some(last[0].name)
      else before
  }

  predicate FrontIs(es: seq<Dirent>, name: Name) {
    es != [] && es[0].name == name
  }

  function Pick(ptrs: Lists, name: Name): Dents {
    seq(|ptrs|, i requires 0 <= i < |ptrs| => if FrontIs(ptrs[i], name) then Some(ptrs[i][0]) else None)
  }

  function Advance(ptrs: Lists, name: Name): Lists {
    seq(|ptrs|, i requires 0 <= i < |ptrs| => if FrontIs(ptrs[i], name) then ptrs[i][1..] else ptrs[i])
  }

  function TotalLength(ptrs: Lists): nat {
    if ptrs == [] then 0 else |ptrs[0]| + TotalLength(ptrs[1..])
  }

  lemma {:induction false} TotalLengthShrinks(a: Lists, b: Lists)
    requires |a| == |b|
    requires forall i :: 0 <= i < |a| ==> |b[i]| <= |a[i]|
    ensures TotalLength(b) <= TotalLength(a)
    ensures (exists i :: 0 <= i < |a| && |b[i]| < |a[i]|) ==> TotalLength(b) < TotalLength(a)
  {
    if a != [] {
      TotalLengthShrinks(a[1..], b[1..]);
      if i :| 0 <= i < |a| && |b[i]| < |a[i]| {
        if i > 0 {
          assert |b[1..][i - 1]| < |a[1..][i - 1]|;
        }
      }
    }
  }

  lemma {:induction false} FirstNameIsSomeFront(ptrs: Lists)
    ensures FirstName(ptrs).None? <==> Done(ptrs)
    ensures FirstName(ptrs).Some? ==> exists i :: 0 <= i < |ptrs| && FrontIs(ptrs[i], FirstName(ptrs).value)
  {
    if ptrs != [] {
      var n := |ptrs| - 1;
      FirstNameIsSomeFront(ptrs[..n]);
      if ptrs[n] != [] {
        assert !Done(ptrs);
        if FirstName(ptrs) == Some(ptrs[n][0].name) {
          assert FrontIs(ptrs[n], FirstName(ptrs).value);
        }
      }
      if FirstName(ptrs[..n]).Some? {
        var i :| 0 <= i < n && FrontIs(ptrs[..n][i], FirstName(ptrs[..n]).value);
        assert ptrs[i] == ptrs[..n][i];
      } else {
        assert forall i :: 0 <= i < n ==> ptrs[i] == ptrs[..n][i];
      }
    }
  }

  /** No front name is above the chosen one. */
  lemma {:induction false} FirstNameIsLargest(ptrs: Lists, k: nat)
    requires k < |ptrs| && ptrs[k] != []
    ensures FirstName(ptrs).Some?
    ensures ptrs[k][0].name == FirstName(ptrs).value || Less(ptrs[k][0].name, FirstName(ptrs).value)
  {
    var n := |ptrs| - 1;
    StrictTotalOrder();
    if k < n {
      FirstNameIsLargest(ptrs[..n], k);
    }
  }

  lemma AdvanceShrinks(ptrs: Lists)
    requires FirstName(ptrs).Some?
    ensures TotalLength(Advance(ptrs, FirstName(ptrs).value)) < TotalLength(ptrs)
  {
    FirstNameIsSomeFront(ptrs);
    var name := FirstName(ptrs).value;
    var i :| 0 <= i < |ptrs| && FrontIs(ptrs[i], name);
    assert |Advance(ptrs, name)[i]| < |ptrs[i]|;
    TotalLengthShrinks(ptrs, Advance(ptrs, name));
  }

  /** The groups of same-named entries, in the order the walk visits them. */
  function Groups(ptrs: Lists): seq<Dents>
    decreases TotalLength(ptrs)
  {
    match FirstName(ptrs)
    case None => []
    case Some(name) =>
      AdvanceShrinks(ptrs);
      [Pick(ptrs, name)] + Groups(Advance(ptrs, name))
  }

  predicate AllSorted(ptrs: Lists) {
    forall i :: 0 <= i < |ptrs| ==> SortedDescending(ptrs[i])
  }

  /** What every list has under a name. */
  function LookupAll(ptrs: Lists, name: Name): Dents {
    seq(|ptrs|, i requires 0 <= i < |ptrs| => Lookup(ptrs[i], name))
  }

  predicate HasName(ptrs: Lists, name: Name) {
    exists i :: 0 <= i < |ptrs| && Lookup(ptrs[i], name).Some?
  }

  /** In a sorted list whose front is not above `name`, only the front can carry `name`. */
  lemma LookupAtFront(es: seq<Dirent>, name: Name)
    requires SortedDescending(es)
    requires es != [] ==> es[0].name == name || Less(es[0].name, name)
    ensures Lookup(es, name) == if FrontIs(es, name) then Some(es[0]) else None
    ensures forall e :: e in es && !(FrontIs(es, name) && e == es[0]) ==> Less(e.name, name)
  {
    StrictTotalOrder();
  }

  lemma StepOfList(ptrs: Lists, name: Name, i: nat)
    requires AllSorted(ptrs) && FirstName(ptrs) == Some(name) && i < |ptrs|
    ensures Pick(ptrs, name)[i] == Lookup(ptrs[i], name)
    ensures SortedDescending(Advance(ptrs, name)[i])
    ensures forall e :: e in Advance(ptrs, name)[i] ==> Less(e.name, name)
    ensures forall m :: m != name ==> Lookup(Advance(ptrs, name)[i], m) == Lookup(ptrs[i], m)
  {
    if ptrs[i] != [] {
      FirstNameIsLargest(ptrs, i);
      LookupAtFront(ptrs[i], name);
    }
  }

  /** One step of the walk: what is picked, and what the remaining lists still hold. */
  lemma StepOfWalk(ptrs: Lists)
    requires AllSorted(ptrs) && FirstName(ptrs).Some?
    ensures var name := FirstName(ptrs).value;
      && Pick(ptrs, name) == LookupAll(ptrs, name)
      && HasName(ptrs, name)
      && AllSorted(Advance(ptrs, name))
      && (forall m :: m != name ==> LookupAll(Advance(ptrs, name), m) == LookupAll(ptrs, m))
      && (forall m :: HasName(Advance(ptrs, name), m) ==> Less(m, name))
  {
    var name := FirstName(ptrs).value;
    var rest := Advance(ptrs, name);
    forall i | 0 <= i < |ptrs|
      ensures Pick(ptrs, name)[i] == Lookup(ptrs[i], name)
      ensures forall e: Dirent :: e in rest[i] ==> Less(e.name, name)
      ensures SortedDescending(rest[i])
      ensures forall m :: m != name ==> Lookup(rest[i], m) == Lookup(ptrs[i], m)
    {
      StepOfList(ptrs, name, i);
    }
    assert Pick(ptrs, name) == LookupAll(ptrs, name);
    FirstNameIsSomeFront(ptrs);
    var k :| 0 <= k < |ptrs| && FrontIs(ptrs[k], name);
    assert Lookup(ptrs[k], name).Some?;
    forall m | m != name ensures LookupAll(rest, m) == LookupAll(ptrs, m) {
      assert forall i :: 0 <= i < |ptrs| ==> LookupAll(rest, m)[i] == LookupAll(ptrs, m)[i];
    }
  }

  /** The names of the groups, in order. */
  function GroupNames(ptrs: Lists): seq<Name>
    decreases TotalLength(ptrs)
  {
    match FirstName(ptrs)
    case None => []
    case Some(name) =>
      AdvanceShrinks(ptrs);
      [name] + GroupNames(Advance(ptrs, name))
  }

  predicate NamesDescend(names: seq<Name>) {
    forall i, j :: 0 <= i < j < |names| ==> Less(names[j], names[i])
  }

  lemma DescendingNamesDiffer(names: seq<Name>)
    requires NamesDescend(names)
    ensures forall i, j :: 0 <= i < j < |names| ==> names[i] != names[j]
  {
    forall i, j | 0 <= i < j < |names|
      ensures names[i] != names[j]
    {
      LessIsIrreflexive(names[i]);
    }
  }

  lemma {:induction false} WalkVisitsNames(ptrs: Lists)
    requires AllSorted(ptrs)
    ensures NamesDescend(GroupNames(ptrs))
    ensures forall m :: m in GroupNames(ptrs) <==> HasName(ptrs, m)
    decreases TotalLength(ptrs)
  {
    FirstNameIsSomeFront(ptrs);
    if FirstName(ptrs).Some? {
      var name := FirstName(ptrs).value;
      var rest := Advance(ptrs, name);
      AdvanceShrinks(ptrs);
      StepOfWalk(ptrs);
      WalkVisitsNames(rest);
      forall m | m != name
        ensures m in GroupNames(ptrs) <==> HasName(ptrs, m)
      {
        SameLookups(rest, ptrs, m);
      }
    }
  }

  lemma SameLookups(a: Lists, b: Lists, m: Name)
    requires LookupAll(a, m) == LookupAll(b, m)
    ensures HasName(a, m) <==> HasName(b, m)
  {
    assert |a| == |LookupAll(a, m)| == |b|;
    assert forall i :: 0 <= i < |a| ==> Lookup(a[i], m) == LookupAll(a, m)[i];
    assert forall i :: 0 <= i < |b| ==> Lookup(b[i], m) == LookupAll(b, m)[i];
  }

  lemma {:induction false} WalkGathers(ptrs: Lists)
    requires AllSorted(ptrs)
    ensures |Groups(ptrs)| == |GroupNames(ptrs)|
    ensures forall k :: 0 <= k < |Groups(ptrs)| ==> Groups(ptrs)[k] == LookupAll(ptrs, GroupNames(ptrs)[k])
    decreases TotalLength(ptrs)
  {
    if FirstName(ptrs).Some? {
      var name := FirstName(ptrs).value;
      var rest := Advance(ptrs, name);
      AdvanceShrinks(ptrs);
      StepOfWalk(ptrs);
      WalkGathers(rest);
      WalkVisitsNames(rest);
      LessIsIrreflexive(name);
      forall k | 0 < k < |Groups(ptrs)|
        ensures Groups(ptrs)[k] == LookupAll(ptrs, GroupNames(ptrs)[k])
      {
        assert GroupNames(rest)[k - 1] in GroupNames(rest);
      }
    }
  }

  /** The walk over sorted lists visits every name exactly once, in descending order, and
      gathers under it exactly what each list holds. */
  lemma WalkVisitsEachNameOnce(ptrs: Lists)
    requires AllSorted(ptrs)
    ensures NamesDescend(GroupNames(ptrs))
    ensures forall m :: m in GroupNames(ptrs) <==> HasName(ptrs, m)
    ensures |Groups(ptrs)| == |GroupNames(ptrs)|
    ensures forall k :: 0 <= k < |Groups(ptrs)| ==> Groups(ptrs)[k] == LookupAll(ptrs, GroupNames(ptrs)[k])
  {
    WalkVisitsNames(ptrs);
    WalkGathers(ptrs);
  }

  /** Whatever the lists, a group only holds entries of its own lists. */
  lemma {:induction false} GroupsHoldMembers(ptrs: Lists, g: Dents)
    requires g in Groups(ptrs)
    ensures |g| == |ptrs|
    ensures forall i :: 0 <= i < |g| && g[i].Some? ==> g[i].value in ptrs[i]
    ensures exists i :: 0 <= i < |g| && g[i].Some?
    ensures forall i, j :: 0 <= i < |g| && 0 <= j < |g| && g[i].Some? && g[j].Some? ==> g[i].value.name == g[j].value.name
    decreases TotalLength(ptrs)
  {
    FirstNameIsSomeFront(ptrs);
    var name := FirstName(ptrs).value;
    AdvanceShrinks(ptrs);
    if g == Pick(ptrs, name) {
      var k :| 0 <= k < |ptrs| && FrontIs(ptrs[k], name);
      assert g[k].Some?;
    } else {
      GroupsHoldMembers(Advance(ptrs, name), g);
    }
  }

  // ---- subdirectories of a group ----

  predicate IsFile(o: Option<Dirent>) {
    o.Some? && !o.value.isDir
  }

  predicate IsDir(o: Option<Dirent>) {
    o.Some? && o.value.isDir
  }

  predicate HasDir(g: Dents) {
    exists i :: 0 <= i < |g| && IsDir(g[i])
  }

  function SubDir(o: Option<Dirent>): seq<Dirent> {
    if IsDir(o) then Entries(o.value.id) else []
  }

  /** The subdirectories of a group; a missing one has no entries. */
  function SubTrees(g: Dents): Lists {
    seq(|g|, i requires 0 <= i < |g| => SubDir(g[i]))
  }

  function OptHeight(o: Option<Dirent>): nat {
    if o.Some? then DirentHeight(o.value) else 0
  }

  function GroupHeight(g: Dents): nat {
    if g == [] then 0 else OptHeight(g[0]) + GroupHeight(g[1..])
  }

  function GroupsHeight(gs: seq<Dents>): nat {
    if gs == [] then 0 else Max(GroupHeight(gs[0]), GroupsHeight(gs[1..]))
  }

  function TreesHeight(trees: Lists): nat {
    if trees == [] then 0 else Height(trees[0]) + TreesHeight(trees[1..])
  }

  lemma {:induction false} GroupHeightBound(g: Dents, trees: Lists)
    requires |g| == |trees|
    requires forall i :: 0 <= i < |g| ==> OptHeight(g[i]) <= Height(trees[i])
    ensures GroupHeight(g) <= TreesHeight(trees)
  {
    if g != [] {
      GroupHeightBound(g[1..], trees[1..]);
    }
  }

  lemma {:induction false} GroupsHeightBound(gs: seq<Dents>, bound: nat)
    requires forall g :: g in gs ==> GroupHeight(g) <= bound
    ensures GroupsHeight(gs) <= bound
  {
    if gs != [] {
      assert forall g :: g in gs[1..] ==> g in gs;
      GroupsHeightBound(gs[1..], bound);
    }
  }

  lemma GroupHeightWithin(trees: Lists, g: Dents)
    requires g in Groups(trees)
    ensures |g| == |trees| && GroupHeight(g) <= TreesHeight(trees)
  {
    GroupsHoldMembers(trees, g);
    forall i | 0 <= i < |g|
      ensures OptHeight(g[i]) <= Height(trees[i])
    {
      if g[i].Some? {
        MemberHeight(trees[i], g[i].value);
      }
    }
    GroupHeightBound(g, trees);
  }

  /** The walk never meets entries deeper than the directories it walks over. */
  lemma GroupsHeightWithin(trees: Lists)
    ensures forall g :: g in Groups(trees) ==> |g| == |trees|
    ensures GroupsHeight(Groups(trees)) <= TreesHeight(trees)
  {
    forall g | g in Groups(trees)
      ensures |g| == |trees| && GroupHeight(g) <= TreesHeight(trees)
    {
      GroupHeightWithin(trees, g);
    }
    GroupsHeightBound(Groups(trees), TreesHeight(trees));
  }

  lemma {:induction false} SubTreesAreSmaller(g: Dents)
    ensures TreesHeight(SubTrees(g)) <= GroupHeight(g)
    ensures HasDir(g) ==> TreesHeight(SubTrees(g)) < GroupHeight(g)
  {
    if g != [] {
      SubTreesAreSmaller(g[1..]);
      assert SubTrees(g)[1..] == SubTrees(g[1..]);
      assert HasDir(g) ==> IsDir(g[0]) || HasDir(g[1..]) by {
        if i :| 0 <= i < |g| && IsDir(g[i]) {
          if i > 0 { assert IsDir(g[1..][i - 1]); }
        }
      }
    }
  }

  // ---- the walk as the code runs it ----

  /** The scan for the largest front name. */
  method LargestFront(ptrs: array<seq<Dirent>>) returns (firstName: Option<Name>)
    ensures firstName == FirstName(ptrs[..])
  {
    firstName := None;
    for i := 0 to ptrs.Length
      invariant firstName == FirstName(ptrs[..i])
    {
      assert ptrs[..i + 1][..i] == ptrs[..i];
      if ptrs[i] != [] {
        var dent := ptrs[i][0];
        if firstName == None || Less(firstName.value, dent.name) {
          firstName := Some(dent.name);
        }
      }
    }
    assert ptrs[..] == ptrs[..ptrs.Length];
  }

  /** The front entries called `firstName` fill the group, and their cursors advance. */
  method TakeGroup(ptrs: array<seq<Dirent>>, dents: array<Option<Dirent>>, firstName: Name)
    requires ptrs.Length == dents.Length
    modifies ptrs, dents
    ensures dents[..] == Pick(old(ptrs[..]), firstName)
    ensures ptrs[..] == Advance(old(ptrs[..]), firstName)
  {
    ghost var before := ptrs[..];
    for i := 0 to ptrs.Length
      invariant forall k :: 0 <= k < i ==> dents[k] == Pick(before, firstName)[k]
      invariant forall k :: 0 <= k < i ==> ptrs[k] == Advance(before, firstName)[k]
      invariant forall k :: i <= k < ptrs.Length ==> ptrs[k] == before[k]
    {
      dents[i] := None;
      if ptrs[i] != [] {
        var dent := ptrs[i][0];
        if dent.name == firstName {
          dents[i] := Some(dent);
          ptrs[i] := ptrs[i][1..];
        }
      }
    }
  }
}
