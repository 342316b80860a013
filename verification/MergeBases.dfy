/** Merge bases and commit comparison as the code computes them. */
module MergeBases {
  import opened Names
  import opened History
  import opened Traversal
  import opened TraversalOrder
  import opened CommonAncestors

  /** The whole history of a commit can be loaded. */
  ghost predicate FullyLoadable(h: Commits, c: CommitId)
    requires Acyclic(h) && c in h
  {
    forall x :: x in Reach(h, c) ==> ParentsLoadable(h, x)
  }

  // ---- the two traversals ----

  lemma PruneNothing(h: Commits)
    ensures Prune(h, Never()) == h
  {
  }

  /** commit_tree_to_hash: all commits reachable from `head`, or a failure. */
  method CommitTreeToHash(h: Commits, head: CommitId) returns (hash: Option<set<CommitId>>)
    requires Acyclic(h) && head in h
    ensures hash.Some? <==> FullyLoadable(h, head)
    ensures hash.Some? ==> hash.value == Reach(h, head)
  {
    PruneNothing(h);
    StartIsTidy(h, head);
    TraverseIsFold(h, Start(head), AddToHash, {}, false, false, Never());
    EveryReachableCommitOnce(h, head);
    HashCollects(Order(h, Start(head)), {});
    ghost var order := Order(h, Start(head));
    assert forall c :: c in order <==> c in Elements(order);

    var res, data := TraverseCommitTree(h, head, AddToHash, {}, false, false);
    if !res {
      return None;
    }
    return Some(data);
  }

  /** What a traversal from `two` finds of `hash` when it goes no further there. */
  ghost function Met(h: Commits, hash: set<CommitId>, two: CommitId): set<CommitId>
    requires Acyclic(h) && two in h
  {
    PrunedIsAcyclic(h, InHash(hash));
    Reach(Prune(h, InHash(hash)), two) * hash
  }

  lemma MetTraversal(h: Commits, hash: set<CommitId>, two: CommitId, result: seq<CommitId>)
    requires Acyclic(h) && two in h && AllIn(h, result) && NoDuplicates(result)
    ensures var r := Traverse(h, Start(two), GetMergeBases(h, hash), result, false, false);
      && (r.ok ==> AllIn(h, r.state) && NoDuplicates(r.state) && Elements(r.state) == Elements(result) + Met(h, hash, two))
      && (FullyLoadable(h, two) ==> r.ok)
  {
    var stop := InHash(hash);
    var h' := Prune(h, stop);
    PrunedIsAcyclic(h, stop);
    StartIsTidy(h', two);
    TraverseIsFold(h, Start(two), GetMergeBases(h, hash), result, false, false, stop);
    EveryReachableCommitOnce(h', two);
    var order := Order(h', Start(two));
    OrderIsLoadable(h', Start(two));
    BasesCollect(h, hash, order, result);
    forall c | c in order ensures c in Reach(h, two) {
      assert c in Elements(order);
      PrunedReach(h, stop, two, c);
    }
  }

  // ---- the commits met are enough ----

  /** Everything met from any of `twos`. */
  ghost predicate MetFrom(h: Commits, hash: set<CommitId>, twos: seq<CommitId>, r: set<CommitId>)
    requires Acyclic(h) && AllIn(h, twos)
  {
    forall c :: c in r <==> exists t :: t in twos && c in Met(h, hash, t)
  }

  lemma MetIsCommon(h: Commits, one: CommitId, twos: seq<CommitId>, r: set<CommitId>)
    requires Acyclic(h) && one in h && AllIn(h, twos) && MetFrom(h, Reach(h, one), twos, r)
    ensures r <= Common(h, one, Elements(twos))
  {
    var hash := Reach(h, one);
    PrunedIsAcyclic(h, InHash(hash));
    forall c | c in r ensures c in Common(h, one, Elements(twos)) {
      var t :| t in twos && c in Met(h, hash, t);
      PrunedReach(h, InHash(hash), t, c);
      ReachAllContains(h, Elements(twos), t);
    }
  }

  lemma BestIsMet(h: Commits, one: CommitId, twos: seq<CommitId>, r: set<CommitId>)
    requires Acyclic(h) && one in h && AllIn(h, twos) && MetFrom(h, Reach(h, one), twos, r)
    ensures Common(h, one, Elements(twos)) <= h.Keys
    ensures Maximal(h, Common(h, one, Elements(twos))) <= r
  {
    var hash, c := Reach(h, one), Common(h, one, Elements(twos));
    ReachIsLoadable(h, one);
    PrunedIsAcyclic(h, InHash(hash));
    forall m | m in Maximal(h, c) ensures m in r {
      var t :| t in Elements(twos) && m in Reach(h, t);
      ReachAllContains(h, Elements(twos), t);
      ReachStep(h, t, t);
      MaximalIsMet(h, hash, t, t, m);
      assert m in Met(h, hash, t);
    }
  }

  lemma SameMaximal(h: Commits, all: set<CommitId>, r: set<CommitId>)
    requires Acyclic(h) && all <= h.Keys && r <= all && Maximal(h, all) <= r
    ensures Maximal(h, r) == Maximal(h, all)
  {
    forall x | x in Maximal(h, r) ensures x in Maximal(h, all) {
      var m := MaximalAbove(h, all, x);
      if m != x {
        assert Below(h, x, m);
      }
    }
  }

  lemma FewAreMaximal(h: Commits, result: seq<CommitId>)
    requires Acyclic(h) && AllIn(h, result) && |result| <= 1
    ensures Elements(result) <= h.Keys && Maximal(h, Elements(result)) == Elements(result)
  {
  }

  // ---- two commits ----

  /** The best common ancestors of two different commits: the older one if they are related, and
      otherwise neither. */
  lemma PairBases(h: Commits, a: CommitId, b: CommitId)
    requires Acyclic(h) && a in h && b in h && a != b
    ensures var c := Common(h, a, {b});
      && c <= h.Keys
      && (Below(h, a, b) ==> Maximal(h, c) == {a})
      && (Below(h, b, a) ==> Maximal(h, c) == {b})
      && (!Below(h, a, b) ==> a !in c)
      && (!Below(h, b, a) ==> b !in c)
      && !(Below(h, a, b) && Below(h, b, a))
  {
    ReachIsLoadable(h, a);
    ReachAllContains(h, {b}, b);
    assert forall x :: x in ReachAll(h, {b}) ==> x in Reach(h, b);
    ReachStep(h, a, a);
    ReachStep(h, b, b);
    if Below(h, a, b) {
      TopIsMaximal(h, a, b);
      if Below(h, b, a) { ReachIsAntisymmetric(h, a, b); }
    } else if Below(h, b, a) {
      TopIsMaximal(h, b, a);
      assert Common(h, a, {b}) == Reach(h, b) by {
        ReachIsTransitive(h, a, b);
      }
      assert Common(h, b, {a}) == Reach(h, b) by {
        ReachIsTransitive(h, a, b);
        ReachAllContains(h, {a}, a);
      }
    }
  }

  lemma TopIsMaximal(h: Commits, a: CommitId, b: CommitId)
    requires Acyclic(h) && a in h && b in h && a in Reach(h, b)
    ensures var c := Common(h, a, {b}); c <= h.Keys && Maximal(h, c) == {a}
  {
    var c := Common(h, a, {b});
    ReachIsLoadable(h, a);
    ReachStep(h, a, a);
    ReachAllContains(h, {b}, b);
    assert a in c;
    forall x | x in c && x != a ensures Below(h, x, a) {
    }
    forall y | y in c ensures !Below(h, a, y) {
      if Below(h, a, y) { ReachIsAntisymmetric(h, a, y); }
    }
    forall x | x in Maximal(h, c) ensures x == a {
    }
  }

  // ---- independent commits ----

  /** Every slot holds its commit, or was emptied because some other commit lies above it. */
  ghost predicate Justified(h: Commits, commits: seq<CommitId>, slots: seq<Option<CommitId>>)
    requires Acyclic(h) && AllIn(h, commits)
  {
    && |slots| == |commits|
    && (forall k :: 0 <= k < |slots| ==> slots[k] == None || slots[k] == Some(commits[k]))
    && (forall k :: 0 <= k < |slots| && slots[k] == None ==>
          exists m :: 0 <= m < |commits| && Below(h, commits[k], commits[m]))
  }

  ghost predicate Related(h: Commits, a: CommitId, b: CommitId)
    requires Acyclic(h) && a in h && b in h
  {
    Below(h, a, b) || Below(h, b, a)
  }

  /** Of the pairs before (i, j), none still has two related commits. */
  ghost predicate SettledBefore(h: Commits, commits: seq<CommitId>, slots: seq<Option<CommitId>>, i: int, j: int)
    requires Acyclic(h) && AllIn(h, commits) && |slots| == |commits|
  {
    forall p, q :: 0 <= p < q < |slots| && (p < i || (p == i && q < j)) && slots[p].Some? && slots[q].Some? ==>
      !Related(h, commits[p], commits[q])
  }

  /** The commits left in the slots are the maximal ones. */
  lemma SurvivorsAreMaximal(h: Commits, commits: seq<CommitId>, slots: seq<Option<CommitId>>, k: nat)
    requires Acyclic(h) && AllIn(h, commits) && NoDuplicates(commits) && k < |commits|
    requires Justified(h, commits, slots)
    requires forall p, q :: 0 <= p < q < |slots| && slots[p].Some? && slots[q].Some? ==> !Related(h, commits[p], commits[q])
    ensures slots[k].Some? <==> commits[k] in Maximal(h, Elements(commits))
  {
    var cs := Elements(commits);
    assert commits[k] in cs;
    if slots[k].Some? {
      var m := MaximalAbove(h, cs, commits[k]);
      var q :| 0 <= q < |commits| && commits[q] == m;
      if q != k {
        assert Below(h, commits[k], m);
      }
    } else {
      var m :| 0 <= m < |commits| && Below(h, commits[k], commits[m]);
      assert commits[m] in cs;
    }
  }

  lemma SingletonLength(result: seq<CommitId>, x: CommitId)
    requires NoDuplicates(result) && Elements(result) == {x}
    ensures |result| == 1
  {
    DistinctLength(result);
  }

  lemma {:induction false} DistinctLength(cs: seq<CommitId>)
    requires NoDuplicates(cs)
    ensures |Elements(cs)| == |cs|
  {
    if cs != [] {
      DistinctLength(cs[1..]);
      assert cs == [cs[0]] + cs[1..];
      assert Elements(cs) == {cs[0]} + Elements(cs[1..]);
    }
  }

  ghost predicate BothFull(slots: seq<Option<CommitId>>, i: nat, j: nat)
    requires i < j < |slots|
  {
    slots[i].Some? && slots[j].Some?
  }

  /** Two commits to compare: different, and with a history in `all`. */
  ghost predicate Comparable(h: Commits, slots: seq<Option<CommitId>>, i: nat, j: nat, all: set<CommitId>)
    requires i < j < |slots|
  {
    BothFull(slots, i, j) ==>
      && slots[i].value in h && slots[j].value in h && slots[i] != slots[j]
      && slots[i].value in all && slots[j].value in all
  }

  /** The two slots after their comparison: whichever is below the other is emptied. */
  ghost function Compared(h: Commits, slots: seq<Option<CommitId>>, i: nat, j: nat, all: set<CommitId>)
    : seq<Option<CommitId>>
    requires Acyclic(h) && i < j < |slots| && Comparable(h, slots, i, j, all)
  {
    if BothFull(slots, i, j) then
      var a, b := slots[i].value, slots[j].value;
      slots[i := if Below(h, a, b) then None else Some(a)][j := if Below(h, b, a) then None else Some(b)]
    else slots
  }

  /** The inner loop over the merge bases of one pair.  Once a slot is emptied nothing may follow
      in the list, because the next comparison would look into it. */
  method DropOlder(h: Commits, rslt: array<Option<CommitId>>, i: nat, j: nat, result: seq<CommitId>,
                   ghost all: set<CommitId>)
    requires Acyclic(h) && i < j < rslt.Length && rslt[i].Some? && rslt[j].Some?
    requires Comparable(h, rslt[..], i, j, all)
    requires Elements(result) == Maximal(h, Common(h, rslt[i].value, {rslt[j].value})) && NoDuplicates(result)
    modifies rslt
    ensures rslt[..] == Compared(h, old(rslt[..]), i, j, all)
  {
    ghost var a, b := rslt[i].value, rslt[j].value;
    PairBases(h, a, b);
    assert forall x :: x in result <==> x in Elements(result);
    if Related(h, a, b) {
      SingletonLength(result, if Below(h, a, b) then a else b);
    }
    for list := 0 to |result|
      invariant rslt[i] == if list > 0 && Below(h, a, b) then None else Some(a)
      invariant rslt[j] == if list > 0 && Below(h, b, a) then None else Some(b)
      invariant forall k :: 0 <= k < rslt.Length && k != i && k != j ==> rslt[k] == old(rslt[k])
    {
      var c := result[list];
      assert c in result;
      if rslt[i].value == c {
        rslt[i] := None;
      }
      if rslt[j].value == c {
        rslt[j] := None;
      }
    }
  }

  /** All ancestors of a set can be loaded. */
  ghost predicate AllLoadable(h: Commits, cs: set<CommitId>) {
    forall c :: c in cs ==> ParentsLoadable(h, c)
  }

  /** The best common ancestors, in any order, each once. */
  ghost predicate AreMaximal(h: Commits, result: seq<CommitId>, cs: set<CommitId>)
    requires Acyclic(h) && cs <= h.Keys
  {
    AllIn(h, result) && NoDuplicates(result) && Elements(result) == Maximal(h, cs)
  }

  /** Newest first, so far as the 32-bit comparison can tell. */
  predicate SortedByTime(h: Commits, cs: seq<CommitId>) {
    AllIn(h, cs) && (TimesClose(h) ==> NewestFirst(h, cs))
  }

  lemma ElementsOfOne(c: CommitId)
    ensures Elements([c]) == {c}
  {
  }

  /** Two commits of a loadable down-closed set: their common ancestors are fewer, and loadable. */
  lemma PairIsSmaller(h: Commits, all: set<CommitId>, a: CommitId, b: CommitId)
    requires Acyclic(h) && DownClosed(h, all) && AllLoadable(h, all) && a in all && b in all && a != b
    ensures |Common(h, a, Elements([b]))| < |all|
    ensures FullyLoadable(h, a) && FullyLoadable(h, b)
  {
    ElementsOfOne(b);
    FewerCommon(h, all, a, {b});
  }

  lemma ComparedSlots(h: Commits, commits: seq<CommitId>, slots: seq<Option<CommitId>>, i: nat, j: nat,
                      all: set<CommitId>)
    requires Acyclic(h) && AllIn(h, commits) && i < j < |commits| && Justified(h, commits, slots)
    requires Comparable(h, slots, i, j, all) && BothFull(slots, i, j)
    ensures var after := Compared(h, slots, i, j, all);
      && after[i] == (if Below(h, commits[i], commits[j]) then None else slots[i])
      && after[j] == (if Below(h, commits[j], commits[i]) then None else slots[j])
      && forall k :: 0 <= k < |after| && k != i && k != j ==> after[k] == slots[k]
  {
  }

  lemma PairJustified(h: Commits, commits: seq<CommitId>, slots: seq<Option<CommitId>>, i: nat, j: nat,
                      all: set<CommitId>)
    requires Acyclic(h) && AllIn(h, commits) && i < j < |commits| && Justified(h, commits, slots)
    requires Comparable(h, slots, i, j, all)
    ensures Justified(h, commits, Compared(h, slots, i, j, all))
  {
    if BothFull(slots, i, j) {
      ComparedSlots(h, commits, slots, i, j, all);
    }
  }

  /** Slots are only ever emptied, so one more settled pair is enough. */
  lemma SettledOneMore(h: Commits, commits: seq<CommitId>, slots: seq<Option<CommitId>>,
                       after: seq<Option<CommitId>>, i: nat, j: nat)
    requires Acyclic(h) && AllIn(h, commits) && i < j < |commits| && |slots| == |after| == |commits|
    requires SettledBefore(h, commits, slots, i, j)
    requires forall k :: 0 <= k < |after| && after[k].Some? ==> slots[k].Some?
    requires after[i].Some? && after[j].Some? ==> !Related(h, commits[i], commits[j])
    ensures SettledBefore(h, commits, after, i, j + 1)
  {
  }

  lemma PairSettled(h: Commits, commits: seq<CommitId>, slots: seq<Option<CommitId>>, i: nat, j: nat,
                    all: set<CommitId>)
    requires Acyclic(h) && AllIn(h, commits) && i < j < |commits| && Justified(h, commits, slots)
    requires SettledBefore(h, commits, slots, i, j) && Comparable(h, slots, i, j, all)
    ensures SettledBefore(h, commits, Compared(h, slots, i, j, all), i, j + 1)
  {
    if BothFull(slots, i, j) {
      ComparedSlots(h, commits, slots, i, j, all);
    }
    SettledOneMore(h, commits, slots, Compared(h, slots, i, j, all), i, j);
  }

  /** The loop that gathers what is left in the slots, newest first. */
  method CollectSurvivors(h: Commits, rslt: array<Option<CommitId>>) returns (result: seq<CommitId>)
    requires forall k :: 0 <= k < rslt.Length && rslt[k].Some? ==> rslt[k].value in h
    requires forall p, q :: 0 <= p < q < rslt.Length && rslt[p].Some? && rslt[q].Some? ==> rslt[p] != rslt[q]
    ensures AllIn(h, result) && NoDuplicates(result) && SortedByTime(h, result)
    ensures forall c :: c in result <==> exists k :: 0 <= k < rslt.Length && rslt[k] == Some(c)
  {
    result := [];
    for i := 0 to rslt.Length
      invariant AllIn(h, result) && NoDuplicates(result) && SortedByTime(h, result)
      invariant forall c :: c in result <==> exists k :: 0 <= k < i && rslt[k] == Some(c)
    {
      if rslt[i].Some? {
        InsertKeepsDistinct(h, result, rslt[i].value);
        if TimesClose(h) { InsertKeepsOrder(h, result, rslt[i].value); }
        result := InsertSorted(h, result, rslt[i].value);
      }
    }
  }

  lemma SurvivorsOf(h: Commits, commits: seq<CommitId>, slots: seq<Option<CommitId>>, result: seq<CommitId>)
    requires Acyclic(h) && AllIn(h, commits) && NoDuplicates(commits)
    requires Justified(h, commits, slots) && SettledBefore(h, commits, slots, |commits|, 0)
    requires AllIn(h, result) && NoDuplicates(result)
    requires forall c :: c in result <==> exists k :: 0 <= k < |slots| && slots[k] == Some(c)
    ensures Elements(commits) <= h.Keys && AreMaximal(h, result, Elements(commits))
  {
    var best := Maximal(h, Elements(commits));
    forall c ensures c in result <==> c in best {
      if c in best {
        var k :| 0 <= k < |commits| && commits[k] == c;
        SurvivorsAreMaximal(h, commits, slots, k);
      }
      if c in result {
        var k :| 0 <= k < |slots| && slots[k] == Some(c);
        SurvivorsAreMaximal(h, commits, slots, k);
      }
    }
  }

  /** The comparison of one pair of slots. */
  method ComparePair(h: Commits, rslt: array<Option<CommitId>>, i: nat, j: nat, ghost all: set<CommitId>)
    requires Acyclic(h) && i < j < rslt.Length && Comparable(h, rslt[..], i, j, all)
    requires DownClosed(h, all) && AllLoadable(h, all)
    modifies rslt
    ensures rslt[..] == Compared(h, old(rslt[..]), i, j, all)
    decreases |all|, 0
  {
    if rslt[i] == None || rslt[j] == None {
      return;
    }
    var bases := BasesOfTwo(h, rslt[i].value, rslt[j].value, all);
    DropOlder(h, rslt, i, j, bases, all);
  }

  /** merge_bases_many for two commits of a list that is being reduced. */
  method BasesOfTwo(h: Commits, a: CommitId, b: CommitId, ghost all: set<CommitId>) returns (bases: seq<CommitId>)
    requires Acyclic(h) && a in h && b in h && a != b
    requires DownClosed(h, all) && AllLoadable(h, all) && a in all && b in all
    ensures Common(h, a, {b}) <= h.Keys && AreMaximal(h, bases, Common(h, a, {b}))
    decreases |all|, 0, 0
  {
    PairIsSmaller(h, all, a, b);
    ElementsOfOne(b);
    bases := MergeBasesMany(h, a, [b]);
  }

  lemma SlotsAreComparable(h: Commits, commits: seq<CommitId>, slots: seq<Option<CommitId>>, i: nat, j: nat,
                           all: set<CommitId>)
    requires Acyclic(h) && AllIn(h, commits) && NoDuplicates(commits) && i < j < |commits|
    requires Elements(commits) <= all && Justified(h, commits, slots)
    ensures Comparable(h, slots, i, j, all)
  {
  }

  /** get_independent_commits: the commits of the list that are ancestors of no other.  The
      recursion ends because two of them have fewer common ancestors than `all` has members. */
  method GetIndependentCommits(h: Commits, commits: seq<CommitId>, ghost all: set<CommitId>)
    returns (result: seq<CommitId>)
    requires Acyclic(h) && AllIn(h, commits) && NoDuplicates(commits)
    requires DownClosed(h, all) && Elements(commits) <= all && AllLoadable(h, all)
    ensures Elements(commits) <= h.Keys && AreMaximal(h, result, Elements(commits)) && SortedByTime(h, result)
    decreases |all|, 1
  {
    var cnt := |commits|;
    var rslt := new Option<CommitId>[cnt](k requires 0 <= k < cnt => Some(commits[k]));
    var i := 0;
    while i < cnt - 1
      invariant 0 <= i <= cnt
      invariant Justified(h, commits, rslt[..])
      invariant SettledBefore(h, commits, rslt[..], i, 0)
    {
      for j := i + 1 to cnt
        invariant Justified(h, commits, rslt[..])
        invariant SettledBefore(h, commits, rslt[..], i, j)
      {
        SlotsAreComparable(h, commits, rslt[..], i, j, all);
        PairJustified(h, commits, rslt[..], i, j, all);
        PairSettled(h, commits, rslt[..], i, j, all);
        ComparePair(h, rslt, i, j, all);
      }
      i := i + 1;
    }
    result := CollectSurvivors(h, rslt);
    SurvivorsOf(h, commits, rslt[..], result);
  }

  // ---- merge_bases_many ----

  lemma ShortcutIsRight(h: Commits, one: CommitId, twos: seq<CommitId>)
    requires Acyclic(h) && one in h && AllIn(h, twos) && one in twos
    ensures var c := Common(h, one, Elements(twos)); c <= h.Keys && AreMaximal(h, [one], c)
  {
    var c := Common(h, one, Elements(twos));
    ReachIsLoadable(h, one);
    ReachAllContains(h, Elements(twos), one);
    ReachStep(h, one, one);
    forall y | y in c ensures !Below(h, one, y) {
      if Below(h, one, y) { ReachIsAntisymmetric(h, one, y); }
    }
    forall x | x in c && x != one ensures Below(h, x, one) {
    }
    ElementsOfOne(one);
    assert Maximal(h, c) == {one};
  }

  /** The loop over `twos`: what each traversal meets, or a failure. */
  method MeetAll(h: Commits, hash: set<CommitId>, twos: seq<CommitId>) returns (ok: bool, result: seq<CommitId>)
    requires Acyclic(h) && AllIn(h, twos)
    ensures ok ==> AllIn(h, result) && NoDuplicates(result) && MetFrom(h, hash, twos, Elements(result))
    ensures (forall t :: t in twos ==> FullyLoadable(h, t)) ==> ok
  {
    result := [];
    for i := 0 to |twos|
      invariant AllIn(h, result) && NoDuplicates(result)
      invariant MetFrom(h, hash, twos[..i], Elements(result))
    {
      MetTraversal(h, hash, twos[i], result);
      ghost var before := Elements(result);
      ok, result := TraverseCommitTree(h, twos[i], GetMergeBases(h, hash), result, false, false);
      if !ok {
        return false, [];
      }
      MetOneMore(h, hash, twos, i, before, Elements(result));
    }
    assert twos[..|twos|] == twos;
    ok := true;
  }

  lemma MetOneMore(h: Commits, hash: set<CommitId>, twos: seq<CommitId>, i: nat, before: set<CommitId>, after: set<CommitId>)
    requires Acyclic(h) && AllIn(h, twos) && i < |twos|
    requires MetFrom(h, hash, twos[..i], before) && after == before + Met(h, hash, twos[i])
    ensures MetFrom(h, hash, twos[..i + 1], after)
  {
  }

  /** merge_bases_many: the best common ancestors of `one` and the commits of `twos`, newest first.  When the
      history of `one` or of `twos` cannot be loaded far enough the list comes back empty. */
  method MergeBasesMany(h: Commits, one: CommitId, twos: seq<CommitId>) returns (result: seq<CommitId>)
    requires Acyclic(h) && one in h && AllIn(h, twos)
    ensures Common(h, one, Elements(twos)) <= h.Keys
    ensures result == [] || AreMaximal(h, result, Common(h, one, Elements(twos)))
    ensures SortedByTime(h, result)
    ensures FullyLoadable(h, one) && (forall t :: t in twos ==> FullyLoadable(h, t)) ==>
              AreMaximal(h, result, Common(h, one, Elements(twos)))
    decreases |Common(h, one, Elements(twos))|, 2
  {
    ghost var all := Common(h, one, Elements(twos));
    ReachIsLoadable(h, one);
    for i := 0 to |twos| {
      if one == twos[i] {
        ShortcutIsRight(h, one, twos);
        return [one];
      }
    }
    var commitHash := CommitTreeToHash(h, one);
    if commitHash == None {
      return [];
    }
    var ok;
    ok, result := MeetAll(h, commitHash.value, twos);
    if !ok {
      return [];
    }
    MetIsCommon(h, one, twos, Elements(result));
    BestIsMet(h, one, twos, Elements(result));
    SameMaximal(h, all, Elements(result));
    if |result| <= 1 {
      FewAreMaximal(h, result);
      return;
    }
    CommonIsDownClosed(h, one, Elements(twos));
    result := GetIndependentCommits(h, result, all);
  }

  // ---- get_merge_base ----

  /** No commit of the list is an ancestor of another. */
  ghost predicate Antichain(h: Commits, cs: seq<CommitId>)
    requires Acyclic(h) && AllIn(h, cs)
  {
    forall i, j :: 0 <= i < |cs| && 0 <= j < |cs| ==> !Below(h, cs[i], cs[j])
  }

  lemma MaximalIsAntichain(h: Commits, result: seq<CommitId>, cs: set<CommitId>)
    requires Acyclic(h) && cs <= h.Keys && AreMaximal(h, result, cs)
    ensures Antichain(h, result)
    ensures forall x :: x in result ==> x in cs
  {
    assert forall x :: x in result ==> x in Elements(result);
    assert forall i :: 0 <= i < |result| ==> result[i] in result;
  }

  lemma ManyAreNotOne(h: Commits, result: seq<CommitId>, cs: set<CommitId>)
    requires Acyclic(h) && cs <= h.Keys && AreMaximal(h, result, cs) && |result| > 1
    ensures forall x :: Maximal(h, cs) != {x}
  {
    assert result[0] in Elements(result) && result[1] in Elements(result);
  }

  /** The next round of the search works on strictly fewer common ancestors. */
  lemma NextRound(h: Commits, all: set<CommitId>, result: seq<CommitId>)
    requires Acyclic(h) && DownClosed(h, all) && AreMaximal(h, result, all) && |result| > 1
    ensures var next := Common(h, result[0], Elements(result[1..]));
      && next <= all && |next| < |all| && DownClosed(h, next)
      && result[0] in all
  {
    MaximalIsAntichain(h, result, all);
    var one, twos := result[0], Elements(result[1..]);
    assert one in result && forall t :: t in twos ==> t in result;
    FewerCommon(h, all, one, twos);
    CommonIsDownClosed(h, one, twos);
  }

  /** One commit of the set is an ancestor of, or equal to, all of them. */
  ghost predicate SharedBy(h: Commits, cs: set<CommitId>, r: CommitId)
    requires Acyclic(h) && cs <= h.Keys
  {
    r in cs && forall c :: c in cs ==> r in Reach(h, c)
  }

  lemma SharedNextRound(h: Commits, all: set<CommitId>, result: seq<CommitId>, r: CommitId)
    requires Acyclic(h) && all <= h.Keys && DownClosed(h, all) && AreMaximal(h, result, all) && |result| > 1
    requires SharedBy(h, all, r)
    ensures var next := Common(h, result[0], Elements(result[1..])); next <= h.Keys && SharedBy(h, next, r)
  {
    NextRound(h, all, result);
    assert result[0] in Elements(result) && result[1] in Elements(result);
    assert result[1] == result[1..][0] && result[1] in Elements(result[1..]);
  }

  lemma LoadableBelow(h: Commits, c: CommitId, y: CommitId)
    requires Acyclic(h) && c in h && FullyLoadable(h, c) && y in Reach(h, c)
    ensures y in h && FullyLoadable(h, y)
  {
    ReachIsTransitive(h, c, y);
  }

  lemma SomeAreMaximal(h: Commits, cs: set<CommitId>, result: seq<CommitId>)
    requires Acyclic(h) && cs <= h.Keys && cs != {} && AreMaximal(h, result, cs)
    ensures result != []
  {
    var x :| x in cs;
    var m := MaximalAbove(h, cs, x);
  }

  lemma AllBelowLoadable(h: Commits, c: CommitId, cs: set<CommitId>)
    requires Acyclic(h) && c in h && FullyLoadable(h, c) && cs <= Reach(h, c)
    ensures cs <= h.Keys && forall x :: x in cs ==> FullyLoadable(h, x)
  {
    forall x | x in cs ensures x in h && FullyLoadable(h, x) {
      LoadableBelow(h, c, x);
    }
  }

  /** Where the search stands: `result` are best commits of `cur`, which only shrinks and keeps the
      root that all of them share, if they do. */
  ghost predicate Searching(h: Commits, cur: set<CommitId>, result: seq<CommitId>, loadable: bool, root: Option<CommitId>)
    requires Acyclic(h) && cur <= h.Keys
  {
    && AllIn(h, result) && DownClosed(h, cur)
    && (result == [] || AreMaximal(h, result, cur))
    && (loadable ==> AreMaximal(h, result, cur) && forall x :: x in cur ==> FullyLoadable(h, x))
    && (root.Some? ==> SharedBy(h, cur, root.value))
  }

  lemma RoundIsLoadable(h: Commits, cur: set<CommitId>, result: seq<CommitId>)
    requires Acyclic(h) && cur <= h.Keys && AreMaximal(h, result, cur) && forall x :: x in cur ==> FullyLoadable(h, x)
    ensures forall c :: c in result ==> c in cur && FullyLoadable(h, c)
  {
    assert forall c :: c in result ==> c in Elements(result);
  }

  lemma SearchStep(h: Commits, cur: set<CommitId>, result: seq<CommitId>, result': seq<CommitId>, loadable: bool,
                   root: Option<CommitId>)
    requires Acyclic(h) && cur <= h.Keys && Searching(h, cur, result, loadable, root) && |result| > 1
    requires var next := Common(h, result[0], Elements(result[1..]));
      && next <= h.Keys && AllIn(h, result') && (result' == [] || AreMaximal(h, result', next))
      && (FullyLoadable(h, result[0]) && (forall t :: t in result[1..] ==> FullyLoadable(h, t)) ==>
            AreMaximal(h, result', next))
    ensures var next := Common(h, result[0], Elements(result[1..]));
      next <= cur && |next| < |cur| && Searching(h, next, result', loadable, root)
  {
    NextRound(h, cur, result);
    if loadable {
      RoundIsLoadable(h, cur, result);
    }
    if root.Some? {
      SharedNextRound(h, cur, result, root.value);
    }
  }

  lemma SearchDone(h: Commits, cur: set<CommitId>, result: seq<CommitId>, loadable: bool, root: Option<CommitId>)
    requires Acyclic(h) && cur <= h.Keys && Searching(h, cur, result, loadable, root) && |result| <= 1
    ensures result != [] ==> result[0] in cur
    ensures loadable && root.Some? ==> result != []
  {
    if result != [] {
      assert result[0] in Elements(result);
    } else if loadable && root.Some? {
      SomeAreMaximal(h, cur, result);
    }
  }

  // ---- the rounds of the search ----

  predicate AtMostOne(cs: set<CommitId>) {
    forall x, y :: x in cs && y in cs ==> x == y
  }

  predicate NewestOf(h: Commits, cs: set<CommitId>, one: CommitId) {
    one in h && forall t :: t in cs && t in h ==> h[t].ctime <= h[one].ctime
  }

  /** What the search that starts with the common ancestors `cs` may find: the best of them, if there
      is only one; and otherwise what it finds among the commits that the newest of the best has in
      common with the others. */
  ghost predicate Finds(h: Commits, cs: set<CommitId>, ret: Option<CommitId>)
    requires Acyclic(h) && DownClosed(h, cs)
    decreases |cs|
  {
    var best := Maximal(h, cs);
    if AtMostOne(best) then best == if ret.Some? then {ret.value} else {}
    else
      exists one :: one in best && (TimesClose(h) ==> NewestOf(h, best, one)) &&
        (RoundShrinks(h, cs, one); Finds(h, Common(h, one, best - {one}), ret))
  }

  lemma RoundShrinks(h: Commits, cs: set<CommitId>, one: CommitId)
    requires Acyclic(h) && DownClosed(h, cs) && one in Maximal(h, cs)
    ensures var next := Common(h, one, Maximal(h, cs) - {one});
      next <= cs && |next| < |cs| && DownClosed(h, next)
  {
    var others := Maximal(h, cs) - {one};
    FewerCommon(h, cs, one, others);
    CommonIsDownClosed(h, one, others);
  }

  /** The commit that the next round starts from. */
  lemma NextStart(h: Commits, cs: set<CommitId>, ret: Option<CommitId>) returns (one: CommitId)
    requires Acyclic(h) && DownClosed(h, cs) && Finds(h, cs, ret) && !AtMostOne(Maximal(h, cs))
    ensures one in Maximal(h, cs)
    ensures var next := Common(h, one, Maximal(h, cs) - {one});
      next <= cs && |next| < |cs| && DownClosed(h, next) && Finds(h, next, ret)
  {
    var best := Maximal(h, cs);
    one :| one in best && (TimesClose(h) ==> NewestOf(h, best, one)) &&
      (RoundShrinks(h, cs, one); Finds(h, Common(h, one, best - {one}), ret));
    RoundShrinks(h, cs, one);
  }

  /** Whatever the search finds is a common ancestor. */
  lemma {:induction false} FoundIsCommon(h: Commits, cs: set<CommitId>, ret: Option<CommitId>)
    requires Acyclic(h) && DownClosed(h, cs) && Finds(h, cs, ret)
    ensures ret.Some? ==> ret.value in cs
    decreases |cs|
  {
    if !AtMostOne(Maximal(h, cs)) {
      var one := NextStart(h, cs, ret);
      FoundIsCommon(h, Common(h, one, Maximal(h, cs) - {one}), ret);
    } else if ret.Some? {
      assert ret.value in Maximal(h, cs);
    }
  }

  /** What one best commit has in common with the others is none of the best. */
  lemma RoundLeavesBest(h: Commits, cs: set<CommitId>, one: CommitId, y: CommitId)
    requires Acyclic(h) && DownClosed(h, cs) && one in Maximal(h, cs)
    requires y in Common(h, one, Maximal(h, cs) - {one})
    ensures y !in Maximal(h, cs)
  {
    var t :| t in Maximal(h, cs) - {one} && y in Reach(h, t);
    assert !Below(h, y, t) ==> y == t;
    assert !Below(h, y, one) ==> y == one;
  }

  /** Where several commits are best, the search does not end with one of them. */
  lemma SeveralGoOn(h: Commits, cs: set<CommitId>, ret: Option<CommitId>)
    requires Acyclic(h) && DownClosed(h, cs) && Finds(h, cs, ret) && !AtMostOne(Maximal(h, cs))
    ensures ret.Some? ==> ret.value !in Maximal(h, cs)
  {
    var one := NextStart(h, cs, ret);
    FoundIsCommon(h, Common(h, one, Maximal(h, cs) - {one}), ret);
    if ret.Some? {
      RoundLeavesBest(h, cs, one, ret.value);
    }
  }

  lemma FindsTheBest(h: Commits, cs: set<CommitId>, x: CommitId, ret: Option<CommitId>)
    requires Acyclic(h) && DownClosed(h, cs) && Maximal(h, cs) == {x} && Finds(h, cs, ret)
    ensures ret == Some(x)
  {
    assert AtMostOne({x});
    assert x in Maximal(h, cs);
  }

  /** The criss-cross case: with two best commits that have a single best common ancestor, that is
      found. */
  lemma TwoMeetInOne(h: Commits, cs: set<CommitId>, a: CommitId, b: CommitId, x: CommitId, ret: Option<CommitId>)
    requires Acyclic(h) && DownClosed(h, cs) && Finds(h, cs, ret)
    requires a != b && Maximal(h, cs) == {a, b}
    requires Common(h, a, {b}) <= h.Keys && Maximal(h, Common(h, a, {b})) == {x}
    ensures ret == Some(x)
  {
    PairIsMany(a, b, Maximal(h, cs));
    var one := NextStart(h, cs, ret);
    CommonOfPair(h, Maximal(h, cs), a, b, one);
    FindsTheBest(h, Common(h, one, Maximal(h, cs) - {one}), x, ret);
  }

  lemma PairIsMany(a: CommitId, b: CommitId, best: set<CommitId>)
    requires a != b && best == {a, b}
    ensures a in best && b in best && !AtMostOne(best)
  {
  }

  lemma CommonOfPair(h: Commits, best: set<CommitId>, a: CommitId, b: CommitId, one: CommitId)
    requires Acyclic(h) && a in h && b in h && a != b && best == {a, b} && one in best
    ensures best - {one} <= h.Keys && Common(h, one, best - {one}) == Common(h, a, {b})
  {
    assert best - {one} == if one == a then {b} else {a};
    CommonOfTwo(h, a, b);
    CommonOfTwo(h, b, a);
  }

  lemma CommonOfTwo(h: Commits, a: CommitId, b: CommitId)
    requires Acyclic(h) && a in h && b in h
    ensures Common(h, a, {b}) == Reach(h, a) * Reach(h, b)
  {
    ReachAllOf(h, b);
  }

  lemma ReachAllOf(h: Commits, a: CommitId)
    requires Acyclic(h) && a in h
    ensures ReachAll(h, {a}) == Reach(h, a)
  {
    ReachAllContains(h, {a}, a);
    forall y | y in ReachAll(h, {a}) ensures y in Reach(h, a) {
      var c :| c in {a} && y in Reach(h, c);
    }
  }

  /** The first of several best commits, and the others. */
  lemma FirstAndOthers(h: Commits, best: set<CommitId>, result: seq<CommitId>)
    requires NoDuplicates(result) && Elements(result) == best && SortedByTime(h, result) && |result| > 1
    ensures result[0] in best && Elements(result[1..]) == best - {result[0]} && !AtMostOne(best)
    ensures TimesClose(h) ==> NewestOf(h, best, result[0])
  {
    assert result[0] in Elements(result) && result[1] in Elements(result);
    forall x ensures x in Elements(result[1..]) <==> x in best - {result[0]} {
      assert x in best <==> x in result;
    }
    assert forall t :: t in best ==> t in result;
  }

  /** One round of the loop. */
  lemma RoundFinds(h: Commits, cs: set<CommitId>, result: seq<CommitId>, ret: Option<CommitId>)
    requires Acyclic(h) && DownClosed(h, cs) && AreMaximal(h, result, cs) && SortedByTime(h, result) && |result| > 1
    ensures var next := Common(h, result[0], Elements(result[1..]));
      DownClosed(h, next) && (Finds(h, next, ret) ==> Finds(h, cs, ret))
  {
    FirstAndOthers(h, Maximal(h, cs), result);
    RoundShrinks(h, cs, result[0]);
  }

  /** At most one best commit ends the loop. */
  lemma LastFinds(h: Commits, cs: set<CommitId>, result: seq<CommitId>)
    requires Acyclic(h) && DownClosed(h, cs) && AreMaximal(h, result, cs) && |result| <= 1
    ensures Finds(h, cs, FirstCommit(result))
  {
    assert result != [] ==> result == [result[0]];
    assert Elements(result) == if result == [] then {} else {result[0]};
  }

  function FirstCommit(result: seq<CommitId>): Option<CommitId> {
    if result == [] then None else Some(result[0])
  }

  /** The loop of get_merge_base: from several best commits on to at most one. */
  method NarrowDown(h: Commits, several: seq<CommitId>, ghost all: set<CommitId>, ghost loadable: bool,
                    ghost root: Option<CommitId>)
    returns (result: seq<CommitId>)
    requires Acyclic(h) && all <= h.Keys && Searching(h, all, several, loadable, root) && SortedByTime(h, several)
    ensures |result| <= 1
    ensures DownClosed(h, all) && (loadable || result != [] ==> Finds(h, all, FirstCommit(result)))
    ensures result != [] ==> result[0] in all
    ensures loadable && root.Some? ==> result != []
  {
    result := several;
    ghost var cur := all;
    while |result| > 1
      invariant cur <= all && Searching(h, cur, result, loadable, root) && SortedByTime(h, result)
      invariant forall ret :: Finds(h, cur, ret) ==> Finds(h, all, ret)
      decreases |cur|
    {
      var next := MergeBasesMany(h, result[0], result[1..]);
      SearchStep(h, cur, result, next, loadable, root);
      forall ret | Finds(h, Common(h, result[0], Elements(result[1..])), ret) ensures Finds(h, cur, ret) {
        RoundFinds(h, cur, result, ret);
      }
      cur := Common(h, result[0], Elements(result[1..]));
      result := next;
    }
    if loadable || result != [] { LastFinds(h, cur, result); }
    SearchDone(h, cur, result, loadable, root);
  }

  /** A commit that all common ancestors share, if there is one. */
  ghost function SharedRoot(h: Commits, cs: set<CommitId>): (root: Option<CommitId>)
    requires Acyclic(h) && cs <= h.Keys
    ensures root.Some? ==> SharedBy(h, cs, root.value)
    ensures root.None? ==> forall r :: !SharedBy(h, cs, r)
  {
    if r :| SharedBy(h, cs, r) then Some(r) else None
  }

  lemma SearchBegins(h: Commits, head: CommitId, remote: CommitId, result: seq<CommitId>)
    requires Acyclic(h) && head in h && remote in h && AllIn(h, result)
    requires var all := Common(h, head, Elements([remote]));
      && all <= h.Keys && (result == [] || AreMaximal(h, result, all))
      && (FullyLoadable(h, head) && FullyLoadable(h, remote) ==> AreMaximal(h, result, all))
    ensures var all := Common(h, head, {remote});
      && all <= h.Keys
      && Searching(h, all, result, FullyLoadable(h, head) && FullyLoadable(h, remote), SharedRoot(h, all))
  {
    ElementsOfOne(remote);
    CommonIsDownClosed(h, head, {remote});
    if FullyLoadable(h, head) {
      AllBelowLoadable(h, head, Common(h, head, {remote}));
    }
  }

  /** With at most one best commit, it is the best one. */
  lemma OneIsBest(h: Commits, cs: set<CommitId>, result: seq<CommitId>, loadable: bool, root: Option<CommitId>)
    requires Acyclic(h) && cs <= h.Keys && Searching(h, cs, result, loadable, root) && |result| <= 1
    ensures forall x :: Maximal(h, cs) == {x} ==> (result == [] && !loadable) || result == [x]
  {
    if result != [] {
      assert result[0] in Elements(result) && result == [result[0]];
    }
  }

  /** get_merge_base: what the rounds of the search find, so far as the histories can be loaded.  It
      is the best common ancestor when that is unique; and when one common ancestor lies below all of
      them, as a common root does, the search never ends empty. */
  method GetMergeBase(h: Commits, head: CommitId, remote: CommitId) returns (ret: Option<CommitId>)
    requires Acyclic(h) && head in h && remote in h
    ensures Common(h, head, {remote}) <= h.Keys
    ensures ret.Some? ==> ret.value in Common(h, head, {remote})
    ensures DownClosed(h, Common(h, head, {remote}))
    ensures ret.Some? || (FullyLoadable(h, head) && FullyLoadable(h, remote)) ==>
              Finds(h, Common(h, head, {remote}), ret)
    ensures forall x :: Maximal(h, Common(h, head, {remote})) == {x} ==>
              ret == None || ret == Some(x)
    ensures forall x :: Maximal(h, Common(h, head, {remote})) == {x} && FullyLoadable(h, head) && FullyLoadable(h, remote) ==>
              ret == Some(x)
    ensures forall r :: SharedBy(h, Common(h, head, {remote}), r) && FullyLoadable(h, head) && FullyLoadable(h, remote) ==>
              ret.Some?
  {
    ghost var loadable := FullyLoadable(h, head) && FullyLoadable(h, remote);
    var result := MergeBasesMany(h, head, [remote]);
    SearchBegins(h, head, remote, result);
    ghost var all := Common(h, head, {remote});
    ghost var root := SharedRoot(h, all);
    if |result| > 1 {
      ManyAreNotOne(h, result, all);
      result := NarrowDown(h, result, all, loadable, root);
    } else {
      OneIsBest(h, all, result, loadable, root);
      if loadable || result != [] { LastFinds(h, all, result); }
      SearchDone(h, all, result, loadable, root);
    }
    return FirstCommit(result);
  }

  // ---- comparison ----

  datatype Comparison = UpToDate | FastForward | Independent

  /** How two commits are related. */
  ghost function Relation(h: Commits, c1: CommitId, c2: CommitId): Comparison
    requires Acyclic(h) && c1 in h && c2 in h
  {
    if c1 in Reach(h, c2) then UpToDate
    else if c2 in Reach(h, c1) then FastForward
    else Independent
  }

  /** vc_compare_commits: ancestry, decided exactly when both histories can be loaded.  A missing
      commit or a broken history can only turn the answer into Independent. */
  method VcCompareCommits(h: Commits, c1: CommitId, c2: CommitId) returns (ret: Comparison)
    requires Acyclic(h)
    ensures c1 == c2 ==> ret == UpToDate
    ensures c1 != c2 && (c1 !in h || c2 !in h) ==> ret == Independent
    ensures c1 in h && c2 in h ==> ret == Relation(h, c1, c2) || ret == Independent
    ensures c1 in h && c2 in h && FullyLoadable(h, c1) && FullyLoadable(h, c2) ==> ret == Relation(h, c1, c2)
  {
    if c1 == c2 {
      if c1 in h { ReachStep(h, c1, c1); }
      return UpToDate;
    }
    if c1 !in h {
      return Independent;
    }
    if c2 !in h {
      return Independent;
    }
    PairBases(h, c1, c2);
    var ca := GetMergeBase(h, c1, c2);
    if ca == None {
      ret := Independent;
    } else if ca.value == c1 {
      ret := UpToDate;
    } else if ca.value == c2 {
      ret := FastForward;
    } else {
      ret := Independent;
    }
  }

  /** is_fast_forward */
  method IsFastForward(h: Commits, srcHead: CommitId, dstHead: CommitId) returns (res: bool)
    requires Acyclic(h)
    ensures res ==> srcHead in h && dstHead in h && Below(h, dstHead, srcHead)
    ensures srcHead in h && dstHead in h && FullyLoadable(h, srcHead) && FullyLoadable(h, dstHead) ==>
              res == Below(h, dstHead, srcHead)
  {
    var cmp := VcCompareCommits(h, srcHead, dstHead);
    if srcHead in h && dstHead in h && srcHead != dstHead { PairBases(h, srcHead, dstHead); }
    return cmp == FastForward;
  }
}
