/** Groups and their materialised paths: the group table holds parent pointers, the structure table
    a path text for every group that is in the structure. */
module GroupManager {
  import opened Names
  import opened GroupPaths

  const TOP := -1

  /** groups: id to parent_group_id; paths: id to path text; nextId: the auto-increment column. */
  datatype Tables = Tables(groups: map<nat, int>, paths: map<nat, string>, nextId: nat)

  const EMPTY_TABLES := Tables(map[], map[], 1)

  /** The groups that have a structure row: top-level groups and groups with a parent. */
  predicate Structured(t: Tables, g: nat) {
    g in t.groups && (t.groups[g] == TOP || t.groups[g] > 0)
  }

  /** Parents are older, and the parent of a structured group is a structured group. */
  ghost predicate Rooted(t: Tables) {
    && (forall g :: g in t.groups ==> 0 < g < t.nextId)
    && (forall g :: Structured(t, g) && t.groups[g] > 0 ==> t.groups[g] < g && Structured(t, t.groups[g]))
  }

  /** The group's parents from the root down, and the group itself. */
  function Chain(t: Tables, g: nat): (ids: seq<nat>)
    requires Rooted(t) && Structured(t, g)
    ensures ids != [] && ids[|ids| - 1] == g
    decreases g
  {
    if t.groups[g] == TOP then [g] else Chain(t, t.groups[g]) + [g]
  }

  /** Each path text spells the parent chain, and exactly the structured groups have one. */
  ghost predicate PathsSpellChains(t: Tables) {
    && Rooted(t)
    && (forall g :: g in t.paths <==> Structured(t, g))
    && (forall g :: g in t.paths ==> t.paths[g] == Joined(Chain(t, g)))
  }

  // ---- chains ----

  lemma {:induction false} ChainIncreases(t: Tables, g: nat)
    requires Rooted(t) && Structured(t, g)
    ensures forall i, j :: 0 <= i < j < |Chain(t, g)| ==> Chain(t, g)[i] < Chain(t, g)[j]
    ensures forall i :: 0 <= i < |Chain(t, g)| ==> Structured(t, Chain(t, g)[i])
    decreases g
  {
    if t.groups[g] != TOP {
      ChainIncreases(t, t.groups[g]);
    }
  }

  /** h is g or has g among its parents, grandparents and so on. */
  predicate IsUnder(t: Tables, h: nat, g: nat)
    requires Rooted(t)
    decreases h
  {
    Structured(t, h) && (h == g || (t.groups[h] > 0 && IsUnder(t, t.groups[h], g)))
  }

  lemma {:induction false} UnderMeansInChain(t: Tables, h: nat, g: nat)
    requires Rooted(t) && Structured(t, h)
    ensures IsUnder(t, h, g) <==> g in Chain(t, h)
    decreases h
  {
    if t.groups[h] != TOP {
      UnderMeansInChain(t, t.groups[h], g);
    }
  }

  /** A row that is nobody's parent can come or go without touching the chains of the others. */
  lemma {:induction false} ChainUnmoved(t: Tables, u: Tables, g: nat, changed: nat)
    requires Rooted(t) && Rooted(u) && Structured(t, g) && g != changed
    requires forall h :: h in t.groups ==> t.groups[h] != changed
    requires forall h :: h in t.groups && h != changed ==> h in u.groups && u.groups[h] == t.groups[h]
    ensures Chain(u, g) == Chain(t, g)
    decreases g
  {
    if t.groups[g] != TOP {
      ChainUnmoved(t, u, t.groups[g], changed);
    }
  }

  // ---- the transactions on the tables ----

  /** create_group_common: the id and the tables after it. A rolled-back insert uses up its id. */
  function Created(t: Tables, parent: int): (Option<nat>, Tables) {
    var id := t.nextId;
    var counted := t.(nextId := id + 1);
    var inserted := counted.(groups := t.groups[id := parent]);
    if parent == TOP then
      (Some(id), inserted.(paths := t.paths[id := Decimal(id)]))
    else if parent > 0 then
      if parent in t.paths
      then (Some(id), inserted.(paths := t.paths[id := t.paths[parent] + ", " + Decimal(id)]))
      else (None, counted)
    else
      (Some(id), inserted)
  }

  /** ccnet_group_manager_remove_group without remove_anyway: refused while a child exists. */
  function Removed(t: Tables, g: nat): (bool, Tables) {
    if exists h :: h in t.groups && t.groups[h] == g then (false, t)
    else (true, t.(groups := t.groups - {g}, paths := t.paths - {g}))
  }

  lemma CreationKeepsRoots(t: Tables, parent: int)
    requires PathsSpellChains(t) && t.nextId > 0
    ensures Rooted(Created(t, parent).1)
  {
    var u := Created(t, parent).1;
    forall g | Structured(u, g) && u.groups[g] > 0
      ensures u.groups[g] < g && Structured(u, u.groups[g])
    {
      if g == t.nextId {
        assert Structured(t, parent);
      } else {
        assert Structured(t, g);
      }
    }
  }

  lemma CreationKeepsChains(t: Tables, parent: int, g: nat)
    requires PathsSpellChains(t) && t.nextId > 0 && Rooted(Created(t, parent).1)
    requires Structured(t, g)
    ensures Structured(Created(t, parent).1, g)
    ensures Chain(Created(t, parent).1, g) == Chain(t, g)
  {
  }

  lemma NewChain(t: Tables, parent: int)
    requires PathsSpellChains(t) && t.nextId > 0 && Rooted(Created(t, parent).1)
    requires Structured(Created(t, parent).1, t.nextId)
    ensures var u := Created(t, parent).1;
      t.nextId in u.paths && u.paths[t.nextId] == Joined(Chain(u, t.nextId))
  {
    if parent > 0 {
      CreationKeepsChains(t, parent, parent);
      JoinedGrows(Chain(t, parent), t.nextId);
    }
  }

  lemma CreationKeepsPaths(t: Tables, parent: int)
    requires PathsSpellChains(t) && t.nextId > 0
    ensures PathsSpellChains(Created(t, parent).1)
  {
    var u := Created(t, parent).1;
    CreationKeepsRoots(t, parent);
    assert forall g :: g != t.nextId ==> Structured(u, g) == Structured(t, g);
    if Structured(u, t.nextId) {
      NewChain(t, parent);
    }
    forall g | g in u.paths
      ensures u.paths[g] == Joined(Chain(u, g))
    {
      if g != t.nextId {
        CreationKeepsChains(t, parent, g);
      }
    }
  }

  /** A structured group whose parent is g. */
  predicate HasChild(t: Tables, g: nat) {
    exists h :: h in t.groups && t.groups[h] == g && Structured(t, h)
  }

  /** Taking out both rows of a group keeps the paths right exactly when it has no child. */
  lemma DroppingKeepsPaths(t: Tables, g: nat)
    requires PathsSpellChains(t)
    ensures PathsSpellChains(t.(groups := t.groups - {g}, paths := t.paths - {g})) <==> !HasChild(t, g)
  {
    var u := t.(groups := t.groups - {g}, paths := t.paths - {g});
    if HasChild(t, g) {
      var h :| h in t.groups && t.groups[h] == g && Structured(t, h);
      assert Structured(u, h) && !Structured(u, g);
    } else {
      ChildlessDropKeepsPaths(t, g);
    }
  }

  lemma ChildlessDropKeepsPaths(t: Tables, g: nat)
    requires PathsSpellChains(t) && !HasChild(t, g)
    ensures PathsSpellChains(t.(groups := t.groups - {g}, paths := t.paths - {g}))
  {
    var u := t.(groups := t.groups - {g}, paths := t.paths - {g});
    DropKeepsRoots(t, g);
    assert forall h :: Structured(u, h) <==> Structured(t, h) && h != g;
    forall h | h in u.paths
      ensures u.paths[h] == Joined(Chain(u, h))
    {
      StructuredChainUnmoved(t, u, h, g);
    }
  }

  lemma DropKeepsRoots(t: Tables, g: nat)
    requires PathsSpellChains(t) && !HasChild(t, g)
    ensures Rooted(t.(groups := t.groups - {g}, paths := t.paths - {g}))
  {
    var u := t.(groups := t.groups - {g}, paths := t.paths - {g});
    forall h | Structured(u, h) && u.groups[h] > 0
      ensures u.groups[h] < h && Structured(u, u.groups[h])
    {
      assert Structured(t, h);
    }
  }

  /** ChainUnmoved where g may be the parent of groups outside the structure. */
  lemma {:induction false} StructuredChainUnmoved(t: Tables, u: Tables, h: nat, g: nat)
    requires Rooted(t) && Rooted(u) && Structured(t, h) && h != g && !HasChild(t, g)
    requires forall k :: k in t.groups && k != g ==> k in u.groups && u.groups[k] == t.groups[k]
    ensures Chain(u, h) == Chain(t, h)
    decreases h
  {
    if t.groups[h] != TOP {
      StructuredChainUnmoved(t, u, t.groups[h], g);
    }
  }

  lemma RemovalKeepsPaths(t: Tables, g: nat)
    requires PathsSpellChains(t)
    ensures PathsSpellChains(Removed(t, g).1)
  {
    DroppingKeepsPaths(t, g);
  }

  // ---- statements that fail ----

  /** Which statements of a creation succeed; selectPath stands for finding the parent's path. */
  datatype CreateRun = CreateRun(insert: bool, select: bool, addUser: bool, selectPath: bool, structure: bool,
                                 commit: bool)

  predicate StatementsSucceed(run: CreateRun, parent: int) {
    && run.insert && run.select && run.addUser
    && (parent == TOP || parent > 0 ==> run.structure)
    && (parent > 0 ==> run.selectPath)
  }

  /** create_group_common when statements may fail.  The result of COMMIT is not looked at. */
  function CreatedBy(t: Tables, parent: int, run: CreateRun): (Option<nat>, Tables) {
    if !run.insert then (None, t)
    else if !StatementsSucceed(run, parent) then (None, t.(nextId := t.nextId + 1))
    else
      var (id, u) := Created(t, parent);
      (id, if run.commit then u else t.(nextId := t.nextId + 1))
  }

  lemma OnlyIdsKeepPaths(t: Tables, nextId: nat)
    requires PathsSpellChains(t) && nextId >= t.nextId
    ensures PathsSpellChains(t.(nextId := nextId))
  {
    var u := t.(nextId := nextId);
    assert forall g :: Structured(u, g) == Structured(t, g);
    assert Rooted(u);
    forall g | g in u.paths
      ensures u.paths[g] == Joined(Chain(u, g))
    {
      SameGroupsSameChain(t, u, g);
    }
  }

  lemma {:induction false} SameGroupsSameChain(t: Tables, u: Tables, g: nat)
    requires Rooted(t) && Rooted(u) && Structured(t, g) && u.groups == t.groups
    ensures Chain(u, g) == Chain(t, g)
    decreases g
  {
    if t.groups[g] != TOP {
      SameGroupsSameChain(t, u, t.groups[g]);
    }
  }

  lemma CreationByKeepsPaths(t: Tables, parent: int, run: CreateRun)
    requires PathsSpellChains(t) && t.nextId > 0
    ensures PathsSpellChains(CreatedBy(t, parent, run).1)
  {
    CreationKeepsPaths(t, parent);
    OnlyIdsKeepPaths(t, t.nextId + 1);
  }

  lemma CreationByResult(t: Tables, parent: int, run: CreateRun)
    requires PathsSpellChains(t)
    ensures var (id, u) := CreatedBy(t, parent, run);
      && (id == None <==> !StatementsSucceed(run, parent) || (parent > 0 && !Structured(t, parent)))
      && (id.Some? ==> (id.value in u.groups <==> run.commit))
  {
  }

  /** Which statements of a removal succeed; the deletes are not looked at. */
  datatype RemoveRun = RemoveRun(check: bool, dropGroup: bool, dropPath: bool)

  function RemovedBy(t: Tables, g: nat, run: RemoveRun): (bool, Tables) {
    if !run.check || exists h :: h in t.groups && t.groups[h] == g then (false, t)
    else (true, t.(groups := if run.dropGroup then t.groups - {g} else t.groups,
                   paths := if run.dropPath then t.paths - {g} else t.paths))
  }

  /** A removal leaves the paths right exactly when a structured group lost both its rows or none. */
  lemma RemovalByKeepsPaths(t: Tables, g: nat, run: RemoveRun)
    requires PathsSpellChains(t)
    ensures PathsSpellChains(RemovedBy(t, g, run).1)
      <==> (RemovedBy(t, g, run).0 && Structured(t, g) ==> run.dropGroup == run.dropPath)
  {
    var (done, u) := RemovedBy(t, g, run);
    if done {
      DroppingKeepsPaths(t, g);
      var w := t.(groups := t.groups - {g}, paths := t.paths - {g});
      if Structured(t, g) {
        assert g in t.paths;
        if run.dropGroup && !run.dropPath {
          assert g in u.paths && !Structured(u, g);
        } else if !run.dropGroup && run.dropPath {
          assert g !in u.paths && Structured(u, g);
        }
      } else {
        assert t.paths - {g} == t.paths;
        assert !run.dropGroup ==> u == t;
      }
    }
  }

  // ---- whole runs ----

  datatype Operation = Create(parent: int) | Remove(group: nat)

  function Apply(t: Tables, op: Operation): Tables {
    match op
    case Create(parent) => Created(t, parent).1
    case Remove(group) => Removed(t, group).1
  }

  /** The tables after operations that succeed or fail in any order. */
  function Run(ops: seq<Operation>): Tables {
    if ops == [] then EMPTY_TABLES else Apply(Run(ops[..|ops| - 1]), ops[|ops| - 1])
  }

  /** In every run every path text is the joined parent chain of its group. */
  lemma {:induction false} EveryRunSpellsChains(ops: seq<Operation>)
    ensures Run(ops).nextId > 0 && PathsSpellChains(Run(ops))
  {
    if ops != [] {
      EveryRunSpellsChains(ops[..|ops| - 1]);
      match ops[|ops| - 1]
      case Create(parent) => CreationKeepsPaths(Run(ops[..|ops| - 1]), parent);
      case Remove(group) => RemovalKeepsPaths(Run(ops[..|ops| - 1]), group);
    }
  }

  // ---- the queries ----

  /** The WHERE clause of the descendants query. */
  predicate InSubtree(t: Tables, h: nat, g: nat) {
    && h in t.groups && h in t.paths
    && (Like(t.paths[h], Decimal(g) + ", %") || Like(t.paths[h], "%, " + Decimal(g) + ", %") || h == g)
  }

  /** The two patterns and the id together select exactly the subtree. */
  lemma SubtreeQueryIsExact(t: Tables, h: nat, g: nat)
    requires PathsSpellChains(t)
    ensures InSubtree(t, h, g) <==> IsUnder(t, h, g)
  {
    if Structured(t, h) {
      var ids, d := Chain(t, h), Decimal(g);
      PatternsAreSearches(t.paths[h], g);
      StartsWithId(ids, g);
      ContainsId(ids, g);
      UnderMeansInChain(t, h, g);
      FirstInnerLast(ids, g);
    }
  }

  lemma FirstInnerLast(ids: seq<nat>, g: nat)
    requires ids != []
    ensures g in ids <==>
      ids[|ids| - 1] == g || (|ids| > 1 && ids[0] == g) || IsInner(ids, g)
  {
  }

  lemma PatternsAreSearches(s: string, g: nat)
    ensures Like(s, Decimal(g) + ", %") <==> Decimal(g) + ", " <= s
    ensures Like(s, "%, " + Decimal(g) + ", %")
      <==> Occurs(s, Separated(g))
  {
    var d := Decimal(g);
    LikePrefix(s, d + ", ");
    assert d + ", %" == (d + ", ") + "%";
    LikeInside(s, Separated(g));
    assert "%, " + d + ", %" == "%" + Separated(g) + "%";
  }

  function RowIds(t: Tables, ids: seq<nat>): set<nat> {
    set g | g in t.groups && g in ids
  }

  predicate Increasing(ids: seq<nat>) {
    forall i, j :: 0 <= i < j < |ids| ==> ids[i] < ids[j]
  }

  lemma {:induction false} OrderIsUnique(a: seq<nat>, b: seq<nat>)
    requires Increasing(a) && Increasing(b)
    requires forall x :: x in a <==> x in b
    ensures a == b
    decreases |a|
  {
    if b != [] {
      assert b[0] in a;
    }
    if a != [] {
      assert a[0] in b;
      assert a[0] == b[0];
      forall x
        ensures x in a[1..] <==> x in b[1..]
      {
        assert x in a[1..] <==> x in a && x != a[0];
        assert x in b[1..] <==> x in b && x != b[0];
      }
      OrderIsUnique(a[1..], b[1..]);
    }
  }

  /** The rows named by a path text, ordered by id, are the chain with the root first. */
  lemma AncestorsComeRootFirst(t: Tables, g: nat, rows: seq<nat>)
    requires PathsSpellChains(t) && g in t.paths
    requires Increasing(rows)
    requires forall x :: x in rows <==> x in RowIds(t, ListIds(t.paths[g], 0))
    ensures rows == Chain(t, g)
  {
    var ids := Chain(t, g);
    ListOfJoined(ids);
    ChainIncreases(t, g);
    forall x
      ensures x in rows <==> x in ids
    {
    }
    OrderIsUnique(rows, ids);
  }

  // ---- the code ----

  class CcnetGroupManager {
    var groups: map<nat, int>
    var paths: map<nat, string>
    var nextId: nat

    ghost function Rows(): Tables
      reads this
    {
      Tables(groups, paths, nextId)
    }

    ghost predicate Valid()
      reads this
    {
      nextId > 0 && PathsSpellChains(Rows())
    }

    constructor ()
      ensures Valid() && Rows() == EMPTY_TABLES
    {
      groups, paths, nextId := map[], map[], 1;
    }

    /** -1 stands for an error; the transaction is then rolled back.  A failed COMMIT goes unnoticed:
        the id of a group that does not exist is returned. */
    method CreateGroup(parent: int, run: CreateRun) returns (id: int)
      requires Valid()
      modifies this
      ensures Valid() && Rows() == CreatedBy(old(Rows()), parent, run).1
      ensures id == match CreatedBy(old(Rows()), parent, run).0 { case Some(g) => g case None => -1 }
      ensures id == -1 <==> !StatementsSucceed(run, parent) || (parent > 0 && !Structured(old(Rows()), parent))
      ensures id >= 0 ==> (id in groups <==> run.commit)
      ensures groups == if id >= 0 && run.commit then old(groups)[old(nextId) := parent] else old(groups)
      ensures id >= 0 ==> id == old(nextId)
      ensures id < 0 || !run.commit ==> paths == old(paths)
    {
      CreationByKeepsPaths(Rows(), parent, run);
      CreationByResult(Rows(), parent, run);
      id := RunTransaction(parent, run);
    }

    method RunTransaction(parent: int, run: CreateRun) returns (id: int)
      modifies this
      ensures Rows() == CreatedBy(old(Rows()), parent, run).1
      ensures id == match CreatedBy(old(Rows()), parent, run).0 { case Some(g) => g case None => -1 }
    {
      if !run.insert {
        return -1;
      }
      var savedGroups, savedPaths, group := groups, paths, nextId;
      nextId := nextId + 1;
      groups := groups[group := parent];
      if !run.select || !run.addUser {
        groups := savedGroups;
        return -1;
      }
      var ok := AddPath(group, parent, run);
      if !ok {
        groups := savedGroups;
        return -1;
      }
      if !run.commit {
        groups, paths := savedGroups, savedPaths;
      }
      id := group;
    }

    /** The structure row of a new group, if it is to have one. */
    method AddPath(group: nat, parent: int, run: CreateRun) returns (ok: bool)
      modifies this`paths
      ensures ok <==> (parent == TOP || parent > 0 ==> run.structure)
                      && (parent > 0 ==> run.selectPath && parent in old(paths))
      ensures paths == if !ok then old(paths)
                       else if parent == TOP then old(paths)[group := Decimal(group)]
                       else if parent > 0 then old(paths)[group := old(paths)[parent] + ", " + Decimal(group)]
                       else old(paths)
    {
      if parent == TOP {
        if !run.structure {
          return false;
        }
        paths := paths[group := Decimal(group)];
      } else if parent > 0 {
        if !run.selectPath || parent !in paths || !run.structure {
          return false;
        }
        paths := paths[group := paths[parent] + ", " + Decimal(group)];
      }
      ok := true;
    }

    /** Nobody looks at the results of the deletes; the paths stay right exactly when a structured
        group lost both its rows or none. */
    method RemoveGroup(g: nat, run: RemoveRun) returns (rc: int)
      requires Valid()
      modifies this
      ensures Rows() == RemovedBy(old(Rows()), g, run).1
      ensures rc == if RemovedBy(old(Rows()), g, run).0 then 0 else -1
      ensures rc == 0 <==> run.check && forall h :: h in old(groups) ==> old(groups)[h] != g
      ensures groups == if rc == 0 && run.dropGroup then old(groups) - {g} else old(groups)
      ensures paths == if rc == 0 && run.dropPath then old(paths) - {g} else old(paths)
      ensures Valid() <==> (rc == 0 && Structured(old(Rows()), g) ==> run.dropGroup == run.dropPath)
    {
      RemovalByKeepsPaths(Rows(), g, run);
      if !run.check {
        return -1;
      }
      if exists h :: h in groups && groups[h] == g {
        return -1;
      }
      if run.dropGroup {
        groups := groups - {g};
      }
      if run.dropPath {
        paths := paths - {g};
      }
      rc := 0;
    }

    /** The rows come in any order. */
    method GetDescendantsGroups(g: nat) returns (ret: set<nat>)
      requires Valid()
      ensures forall h :: h in ret <==> IsUnder(Rows(), h, g)
    {
      ghost var t := Rows();
      ret := set h | h in groups && h in paths
        && (Like(paths[h], Decimal(g) + ", %") || Like(paths[h], "%, " + Decimal(g) + ", %") || h == g);
      forall h
        ensures h in ret <==> IsUnder(t, h, g)
      {
        SubtreeQueryIsExact(t, h, g);
      }
    }

    /** A group outside the structure is its own only ancestor. */
    method GetAncestorGroups(g: nat) returns (ret: seq<nat>)
      requires Valid()
      ensures Structured(Rows(), g) ==> ret == Chain(Rows(), g)
      ensures !Structured(Rows(), g) ==> ret == if g in groups then [g] else []
    {
      ghost var t := Rows();
      if g in paths {
        var listed := ListIds(paths[g], 0);
        ret := OrderedRows(listed);
        AncestorsComeRootFirst(t, g, ret);
      } else {
        ret := if g in groups then [g] else [];
      }
    }

    /** SELECT ... WHERE group_id IN (...) ORDER BY group_id */
    method OrderedRows(listed: seq<nat>) returns (rows: seq<nat>)
      requires forall g :: g in groups ==> g < nextId
      ensures Increasing(rows)
      ensures forall x :: x in rows <==> x in RowIds(Rows(), listed)
    {
      rows := [];
      for g := 0 to nextId
        invariant Increasing(rows)
        invariant forall x :: x in rows <==> x < g && x in RowIds(Rows(), listed)
      {
        if g in groups && g in listed {
          assert forall i :: 0 <= i < |rows| ==> rows[i] in rows;
          rows := rows + [g];
        }
      }
    }
  }
}
