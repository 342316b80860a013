/** What a traversal visits, and in which order. */
module TraversalOrder {
  import opened Names
  import opened History
  import opened Traversal

  predicate NoDuplicates(cs: seq<CommitId>) {
    forall i, j :: 0 <= i < j < |cs| ==> cs[i] != cs[j]
  }

  function Elements(cs: seq<CommitId>): set<CommitId> {
    set c | c in cs
  }

  /** Every frontier a traversal meets: distinct queued commits, all of them seen, and every seen
      commit no longer queued has its parents seen. */
  ghost predicate Tidy(h: Commits, fr: Frontier) {
    && Loadable(h, fr)
    && NoDuplicates(fr.queue)
    && (forall c :: c in fr.queue ==> c in fr.seen)
    && fr.seen <= h.Keys
    && ClosedExcept(h, fr.seen, Elements(fr.queue))
  }

  lemma {:induction false} InsertKeepsDistinct(h: Commits, list: seq<CommitId>, c: CommitId)
    requires AllIn(h, list) && c in h && NoDuplicates(list) && c !in list
    ensures NoDuplicates(InsertSorted(h, list, c))
  {
    if list != [] && CompareByTime(h, c, list[0]) > 0 {
      InsertKeepsDistinct(h, list[1..], c);
      var rest := InsertSorted(h, list[1..], c);
      forall j | 0 <= j < |rest| ensures rest[j] != list[0] {
        assert rest[j] in rest;
      }
    }
  }

  lemma InsertParentFacts(h: Commits, fr: Frontier, p: Option<CommitId>)
    requires Loadable(h, fr) && fr.seen <= h.Keys && NoDuplicates(fr.queue)
    requires forall c :: c in fr.queue ==> c in fr.seen
    ensures var r := InsertParent(h, fr, p);
      && NoDuplicates(r.queue) && (forall c :: c in r.queue ==> c in r.seen) && r.seen <= h.Keys
      && (forall c :: c in r.seen <==> c in fr.seen || (p == Some(c) && c in h))
      && (forall c :: c in r.queue <==> c in fr.queue || (p == Some(c) && c in h && c !in fr.seen))
  {
    if p.Some? && p.value !in fr.seen && p.value in h {
      InsertKeepsDistinct(h, fr.queue, p.value);
    }
  }

  /** One step: the first commit leaves the queue, its unseen parents enter it. */
  lemma NextFacts(h: Commits, fr: Frontier)
    requires Tidy(h, fr) && fr.queue != []
    ensures var r := Next(h, fr); var c := fr.queue[0];
      && Tidy(h, r)
      && (forall x :: x in r.seen <==> x in fr.seen || HasParent(h, c, x))
      && (forall x :: x in r.queue <==> (x in fr.queue && x != c) || (HasParent(h, c, x) && x !in fr.seen))
  {
    var c := fr.queue[0];
    var popped := Pop(fr);
    assert forall x :: x in popped.queue <==> x in fr.queue && x != c;
    InsertParentFacts(h, popped, h[c].parent);
    var mid := InsertParent(h, popped, h[c].parent);
    InsertParentFacts(h, mid, h[c].second);
  }

  /** An ordinary traversal visits the queued commits and everything unseen they lead to, each
      exactly once. */
  lemma {:induction false} OrderVisits(h: Commits, fr: Frontier)
    requires Acyclic(h) && Tidy(h, fr)
    ensures NoDuplicates(Order(h, fr))
    ensures forall y :: y in Order(h, fr) <==> y in fr.queue || (y in ReachAll(h, fr.seen) && y !in fr.seen)
    decreases Unseen(h, fr), |fr.queue|
  {
    if fr.queue == [] {
      forall y | y in ReachAll(h, fr.seen) ensures y in fr.seen {
        var c :| c in fr.seen && y in Reach(h, c);
        OpenCommitsReachTheRest(h, fr.seen, {}, c, y);
      }
    } else {
      var c, r := fr.queue[0], Next(h, fr);
      NextIsSmaller(h, fr);
      NextFacts(h, fr);
      OrderVisits(h, r);
      SameReachAfterStep(h, fr);
      forall y ensures y in Order(h, fr) <==> y in fr.queue || (y in ReachAll(h, fr.seen) && y !in fr.seen) {
        assert y in Order(h, fr) <==> y == c || y in Order(h, r);
        if HasParent(h, c, y) { ParentIsReached(h, fr.seen, c, y); }
      }
    }
  }

  lemma ParentIsReached(h: Commits, cs: set<CommitId>, c: CommitId, p: CommitId)
    requires Acyclic(h) && cs <= h.Keys && c in cs && HasParent(h, c, p)
    ensures p in ReachAll(h, cs) && Reach(h, p) <= ReachAll(h, cs)
  {
    ReachStep(h, p, p);
    ReachStep(h, c, p);
    ReachAllContains(h, cs, c);
    ReachIsTransitive(h, c, p);
  }

  lemma SameReachAfterStep(h: Commits, fr: Frontier)
    requires Acyclic(h) && Tidy(h, fr) && fr.queue != [] && Next(h, fr).seen <= h.Keys
    requires forall x :: x in Next(h, fr).seen <==> x in fr.seen || HasParent(h, fr.queue[0], x)
    ensures ReachAll(h, Next(h, fr).seen) == ReachAll(h, fr.seen)
  {
  }

  lemma StartIsTidy(h: Commits, head: CommitId)
    requires head in h
    ensures Tidy(h, Start(head))
  {
  }

  /** A traversal that never stops visits exactly the commits reachable from the head, once each. */
  lemma EveryReachableCommitOnce(h: Commits, head: CommitId)
    requires Acyclic(h) && head in h
    ensures NoDuplicates(Order(h, Start(head)))
    ensures Elements(Order(h, Start(head))) == Reach(h, head)
  {
    StartIsTidy(h, head);
    OrderVisits(h, Start(head));
    ReachIsLoadable(h, head);
    ReachStep(h, head, head);
    forall y ensures y in Order(h, Start(head)) <==> y in Reach(h, head) {
      if y in ReachAll(h, {head}) {
        var c :| c in {head} && y in Reach(h, c);
      }
      ReachAllContains(h, {head}, head);
    }
  }

  // ---- callbacks that stop by commit ----

  /** The graph with the parents of stopped commits cut off. */
  function Prune(h: Commits, stop: CommitId -> bool): Commits {
    map c | c in h :: if stop(c) then h[c].(parent := None, second := None) else h[c]
  }

  lemma {:induction false} PruningKeepsTimes(h: Commits, stop: CommitId -> bool, list: seq<CommitId>, c: CommitId)
    requires AllIn(h, list) && c in h
    ensures AllIn(Prune(h, stop), list)
    ensures InsertSorted(Prune(h, stop), list, c) == InsertSorted(h, list, c)
  {
    var h' := Prune(h, stop);
    assert forall x :: x in h ==> x in h' && h'[x].ctime == h[x].ctime;
    if list != [] {
      PruningKeepsTimes(h, stop, list[1..], c);
      assert CompareByTime(h', c, list[0]) == CompareByTime(h, c, list[0]);
    }
  }

  lemma PrunedNext(h: Commits, stop: CommitId -> bool, fr: Frontier)
    requires Loadable(h, fr) && fr.queue != []
    ensures Loadable(Prune(h, stop), fr)
    ensures Next(Prune(h, stop), fr) == if stop(fr.queue[0]) then Pop(fr) else Next(h, fr)
  {
    var c, h' := fr.queue[0], Prune(h, stop);
    assert Loadable(h', fr);
    if !stop(c) {
      var p := h[c].parent;
      if p.Some? && p.value in h { PruningKeepsTimes(h, stop, Pop(fr).queue, p.value); }
      var mid := InsertParent(h, Pop(fr), p);
      var q := h[c].second;
      if q.Some? && q.value in h { PruningKeepsTimes(h, stop, mid.queue, q.value); }
    }
  }

  lemma PruneKeepsUnseen(h: Commits, stop: CommitId -> bool, fr: Frontier)
    ensures Prune(h, stop).Keys == h.Keys
    ensures Unseen(Prune(h, stop), fr) == Unseen(h, fr)
  {
  }

  /** A callback that never fails and stops at the commits `stop` says, whatever its state. */
  ghost predicate StopsAt<S(!new)>(func: (CommitId, S) -> Answer<S>, stop: CommitId -> bool) {
    forall c, s :: func(c, s).ok && func(c, s).stop == stop(c)
  }

  /** The callback's state after a list of commits. */
  function FoldStates<S>(func: (CommitId, S) -> Answer<S>, s: S, cs: seq<CommitId>): S {
    if cs == [] then s else FoldStates(func, func(cs[0], s).state, cs[1..])
  }

  /** Both parents of a commit, as far as it has any, can be loaded. */
  predicate ParentsLoadable(h: Commits, c: CommitId) {
    && c in h
    && (h[c].parent.Some? ==> h[c].parent.value in h)
    && (h[c].second.Some? ==> h[c].second.value in h)
  }

  /** Stopping at the first queued commit leaves a tidy frontier of the pruned graph. */
  lemma PrunedTidy(h: Commits, stop: CommitId -> bool, fr: Frontier)
    requires Tidy(Prune(h, stop), fr) && fr.queue != []
    ensures Loadable(h, fr) && NoDuplicates(fr.queue) && fr.seen <= h.Keys && (forall c :: c in fr.queue ==> c in fr.seen)
    ensures Tidy(Prune(h, stop), if stop(fr.queue[0]) then Pop(fr) else Next(h, fr))
  {
    var h' := Prune(h, stop);
    assert h'.Keys == h.Keys;
    PrunedNext(h, stop, fr);
    NextFacts(h', fr);
  }

  /** With such a callback the traversal is an ordinary one of the pruned graph.  It fails exactly
      when some commit it does not stop at has a parent that cannot be loaded, unless that is
      tolerated. */
  lemma {:induction false} TraverseIsFold<S(!new)>(h: Commits, fr: Frontier, func: (CommitId, S) -> Answer<S>, s: S,
                                                   skipErrors: bool, allowTruncate: bool, stop: CommitId -> bool)
    requires Tidy(Prune(h, stop), fr) && StopsAt(func, stop)
    ensures Loadable(h, fr)
    ensures var r := Traverse(h, fr, func, s, skipErrors, allowTruncate);
      && (r.ok ==> r.state == FoldStates(func, s, Order(Prune(h, stop), fr)))
      && (r.ok <==> skipErrors || allowTruncate || Unbroken(h, stop, Order(Prune(h, stop), fr)))
    decreases Unseen(h, fr), |fr.queue|
  {
    PruneKeepsUnseen(h, stop, fr);
    if fr.queue != [] {
      var c := fr.queue[0];
      var rest := if stop(c) then Pop(fr) else Next(h, fr);
      PrunedNext(h, stop, fr);
      PrunedTidy(h, stop, fr);
      NextIsSmaller(h, fr);
      NextIsSmaller(Prune(h, stop), fr);
      MissesWhenUnloadable(h, fr);
      var order := Order(Prune(h, stop), rest);
      assert Order(Prune(h, stop), fr) == [c] + order;
      UnbrokenSplits(h, stop, c, order);
      TraverseIsFold(h, rest, func, func(c, s).state, skipErrors, allowTruncate, stop);
    }
  }

  lemma MissesWhenUnloadable(h: Commits, fr: Frontier)
    requires Loadable(h, fr) && NoDuplicates(fr.queue) && fr.seen <= h.Keys && fr.queue != []
    requires forall c :: c in fr.queue ==> c in fr.seen
    ensures MissesParent(h, fr) <==> !ParentsLoadable(h, fr.queue[0])
  {
  }

  /** No commit of the list, other than those stopped at, has an unloadable parent. */
  predicate Unbroken(h: Commits, stop: CommitId -> bool, cs: seq<CommitId>) {
    forall c :: c in cs && !stop(c) ==> ParentsLoadable(h, c)
  }

  lemma UnbrokenSplits(h: Commits, stop: CommitId -> bool, c: CommitId, cs: seq<CommitId>)
    ensures Unbroken(h, stop, [c] + cs) <==> (stop(c) || ParentsLoadable(h, c)) && Unbroken(h, stop, cs)
  {
  }

  // ---- callbacks that fail ----

  /** A callback that stops at the commits `stop` says, and may fail as it likes. */
  ghost predicate StopsBy<S(!new)>(func: (CommitId, S) -> Answer<S>, stop: CommitId -> bool) {
    forall c, s :: func(c, s).stop == stop(c)
  }

  /** The visit of a commit ends the traversal: the callback fails, or a parent that is needed cannot
      be loaded. */
  predicate Faulty<S>(h: Commits, func: (CommitId, S) -> Answer<S>, stop: CommitId -> bool, c: CommitId, s: S,
                      skipErrors: bool, allowTruncate: bool)
  {
    !skipErrors && (!func(c, s).ok || (!stop(c) && !ParentsLoadable(h, c) && !allowTruncate))
  }

  /** The position of the first faulty visit; the length of the list if there is none. */
  function FirstFault<S>(h: Commits, func: (CommitId, S) -> Answer<S>, stop: CommitId -> bool, cs: seq<CommitId>, s: S,
                         skipErrors: bool, allowTruncate: bool): (k: nat)
    ensures k <= |cs|
  {
    if cs == [] || Faulty(h, func, stop, cs[0], s, skipErrors, allowTruncate) then 0
    else 1 + FirstFault(h, func, stop, cs[1..], func(cs[0], s).state, skipErrors, allowTruncate)
  }

  lemma {:induction false} FirstFaultIsFirst<S>(h: Commits, func: (CommitId, S) -> Answer<S>, stop: CommitId -> bool,
                                                cs: seq<CommitId>, s: S, skipErrors: bool, allowTruncate: bool)
    ensures var k := FirstFault(h, func, stop, cs, s, skipErrors, allowTruncate);
      && (forall i :: 0 <= i < k ==> !Faulty(h, func, stop, cs[i], FoldStates(func, s, cs[..i]), skipErrors, allowTruncate))
      && (k < |cs| ==> Faulty(h, func, stop, cs[k], FoldStates(func, s, cs[..k]), skipErrors, allowTruncate))
  {
    if cs != [] && !Faulty(h, func, stop, cs[0], s, skipErrors, allowTruncate) {
      var s', rest := func(cs[0], s).state, cs[1..];
      FirstFaultIsFirst(h, func, stop, rest, s', skipErrors, allowTruncate);
      forall i | 0 < i < |cs|
        ensures cs[i] == rest[i - 1] && FoldStates(func, s, cs[..i]) == FoldStates(func, s', rest[..i - 1])
      {
        assert cs[..i][1..] == rest[..i - 1];
      }
    }
  }

  /** What a run over a list leaves, up to and including its first faulty visit. */
  function RunOver<S>(h: Commits, func: (CommitId, S) -> Answer<S>, stop: CommitId -> bool, cs: seq<CommitId>, s: S,
                      skipErrors: bool, allowTruncate: bool): Outcome<S>
  {
    var k := FirstFault(h, func, stop, cs, s, skipErrors, allowTruncate);
    if k == |cs| then Outcome(FoldStates(func, s, cs), true)
    else Outcome(FoldStates(func, s, cs[..k + 1]), false)
  }

  lemma RunOverCons<S>(h: Commits, func: (CommitId, S) -> Answer<S>, stop: CommitId -> bool, c: CommitId,
                       rest: seq<CommitId>, s: S, skipErrors: bool, allowTruncate: bool)
    ensures RunOver(h, func, stop, [c] + rest, s, skipErrors, allowTruncate)
            == if Faulty(h, func, stop, c, s, skipErrors, allowTruncate) then Outcome(func(c, s).state, false)
               else RunOver(h, func, stop, rest, func(c, s).state, skipErrors, allowTruncate)
  {
    var cs := [c] + rest;
    assert cs[1..] == rest;
    if Faulty(h, func, stop, c, s, skipErrors, allowTruncate) {
      assert cs[0] == c && cs[..1] == [c] && [c][1..] == [];
      assert FoldStates(func, s, [c]) == FoldStates(func, func(c, s).state, []);
    } else {
      var k := FirstFault(h, func, stop, rest, func(c, s).state, skipErrors, allowTruncate);
      assert k < |rest| ==> cs[..k + 2][1..] == rest[..k + 1];
    }
  }

  /** Any callback that stops by commit, failing or not, is run over the pruned order up to the first
      faulty visit; with none of these the traversal succeeds. */
  lemma {:induction false} TraverseUpToFault<S(!new)>(h: Commits, fr: Frontier, func: (CommitId, S) -> Answer<S>, s: S,
                                                      skipErrors: bool, allowTruncate: bool, stop: CommitId -> bool)
    requires Tidy(Prune(h, stop), fr) && StopsBy(func, stop)
    ensures Loadable(h, fr)
    ensures Traverse(h, fr, func, s, skipErrors, allowTruncate)
            == RunOver(h, func, stop, Order(Prune(h, stop), fr), s, skipErrors, allowTruncate)
    decreases Unseen(h, fr), |fr.queue|
  {
    PruneKeepsUnseen(h, stop, fr);
    if fr.queue != [] {
      var c := fr.queue[0];
      var rest := if stop(c) then Pop(fr) else Next(h, fr);
      PrunedNext(h, stop, fr);
      PrunedTidy(h, stop, fr);
      NextIsSmaller(h, fr);
      NextIsSmaller(Prune(h, stop), fr);
      MissesWhenUnloadable(h, fr);
      RunOverCons(h, func, stop, c, Order(Prune(h, stop), rest), s, skipErrors, allowTruncate);
      TraverseUpToFault(h, rest, func, func(c, s).state, skipErrors, allowTruncate, stop);
    }
  }

  // ---- time ----

  /** Commit times are close enough for the 32-bit comparison. */
  predicate TimesClose(h: Commits) {
    forall a, b :: a in h && b in h ==> -0x8000_0000 < h[a].ctime - h[b].ctime < 0x8000_0000
  }

  /** Every parent is strictly older than its child. */
  ghost predicate ParentsOlder(h: Commits) {
    forall c, p :: HasParent(h, c, p) ==> h[p].ctime < h[c].ctime
  }

  predicate NewestFirst(h: Commits, list: seq<CommitId>)
    requires AllIn(h, list)
  {
    forall i, j :: 0 <= i < j < |list| ==> h[list[j]].ctime <= h[list[i]].ctime
  }

  lemma CompareIsByTime(h: Commits, a: CommitId, b: CommitId)
    requires a in h && b in h && TimesClose(h)
    ensures CompareByTime(h, a, b) == h[b].ctime - h[a].ctime
  {
  }

  /** The sign of a difference survives the narrowing to 32 bits. */
  predicate SignSurvives(d: int) {
    d == 0 || (d > 0 <==> 0 < d % 0x1_0000_0000 < 0x8000_0000)
  }

  lemma NarrowedSign(d: int)
    ensures SignSurvives(d) <==> if Narrow32(d) > 0 then d >= 0 else d <= 0
  {
  }

  lemma PairInOrder(h: Commits, list: seq<CommitId>, a: CommitId, b: CommitId, aFirst: bool)
    requires a in h && b in h && list == if aFirst then [a, b] else [b, a]
    ensures NewestFirst(h, list) <==>
            if aFirst then h[a].ctime - h[b].ctime >= 0 else h[a].ctime - h[b].ctime <= 0
  {
    assert list[0] == (if aFirst then a else b) && list[1] == (if aFirst then b else a);
  }

  /** Of two commits the queue puts the newer one first exactly when the sign of their time
      difference survives the narrowing. */
  lemma TwoCommitsInOrder(h: Commits, a: CommitId, b: CommitId)
    requires a in h && b in h
    ensures NewestFirst(h, InsertSorted(h, [a], b)) <==> SignSurvives(h[a].ctime - h[b].ctime)
  {
    NarrowedSign(h[a].ctime - h[b].ctime);
    InsertIntoOne(h, a, b);
    PairInOrder(h, InsertSorted(h, [a], b), a, b, Narrow32(h[a].ctime - h[b].ctime) > 0);
  }

  lemma InsertIntoOne(h: Commits, a: CommitId, b: CommitId)
    requires a in h && b in h
    ensures InsertSorted(h, [a], b) == if Narrow32(h[a].ctime - h[b].ctime) > 0 then [a, b] else [b, a]
  {
    assert InsertSorted(h, [], b) == [b];
    assert [a] + [b] == [a, b] && [b] + [a] == [b, a];
  }

  /** Commits 2^31 seconds apart: the older one comes first. */
  lemma FarTimesAreMisordered()
    ensures var h: Commits := map["new" := Commit(0x8000_0000, None, None, ""), "old" := Commit(0, None, None, "")];
      InsertSorted(h, ["new"], "old") == ["old", "new"]
  {
  }

  lemma {:induction false} InsertKeepsOrder(h: Commits, list: seq<CommitId>, c: CommitId)
    requires AllIn(h, list) && c in h && TimesClose(h) && NewestFirst(h, list)
    ensures NewestFirst(h, InsertSorted(h, list, c))
  {
    if list != [] {
      CompareIsByTime(h, c, list[0]);
      if CompareByTime(h, c, list[0]) > 0 {
        InsertKeepsOrder(h, list[1..], c);
        var rest := InsertSorted(h, list[1..], c);
        forall j | 0 <= j < |rest| ensures h[rest[j]].ctime <= h[list[0]].ctime {
          assert rest[j] in rest;
        }
      }
    }
  }

  lemma InsertParentKeepsOrder(h: Commits, fr: Frontier, p: Option<CommitId>)
    requires Loadable(h, fr) && TimesClose(h) && NewestFirst(h, fr.queue)
    ensures NewestFirst(h, InsertParent(h, fr, p).queue)
  {
    if p.Some? && p.value !in fr.seen && p.value in h {
      InsertKeepsOrder(h, fr.queue, p.value);
    }
  }

  lemma NextKeepsOrder(h: Commits, fr: Frontier)
    requires Tidy(h, fr) && fr.queue != [] && TimesClose(h) && ParentsOlder(h) && NewestFirst(h, fr.queue)
    ensures NewestFirst(h, Next(h, fr).queue)
    ensures forall x :: x in Next(h, fr).queue ==> h[x].ctime <= h[fr.queue[0]].ctime
  {
    var c := fr.queue[0];
    InsertParentKeepsOrder(h, Pop(fr), h[c].parent);
    InsertParentKeepsOrder(h, InsertParent(h, Pop(fr), h[c].parent), h[c].second);
    NextFacts(h, fr);
  }

  lemma {:induction false} OrderIsLoadable(h: Commits, fr: Frontier)
    requires Loadable(h, fr)
    ensures AllIn(h, Order(h, fr))
    decreases Unseen(h, fr), |fr.queue|
  {
    if fr.queue != [] {
      NextIsSmaller(h, fr);
      OrderIsLoadable(h, Next(h, fr));
    }
  }

  lemma PrependNewest(h: Commits, c: CommitId, list: seq<CommitId>)
    requires c in h && AllIn(h, list) && NewestFirst(h, list)
    requires forall x :: x in list ==> h[x].ctime <= h[c].ctime
    ensures AllIn(h, [c] + list) && NewestFirst(h, [c] + list)
  {
  }

  /** Visits run from newest to oldest when parents are older than children. */
  lemma {:induction false} OrderIsNewestFirst(h: Commits, fr: Frontier)
    requires Tidy(h, fr) && TimesClose(h) && ParentsOlder(h) && NewestFirst(h, fr.queue)
    ensures AllIn(h, Order(h, fr)) && NewestFirst(h, Order(h, fr))
    ensures fr.queue != [] ==> forall x :: x in Order(h, fr) ==> h[x].ctime <= h[fr.queue[0]].ctime
    decreases Unseen(h, fr), |fr.queue|
  {
    OrderIsLoadable(h, fr);
    if fr.queue != [] {
      var c, r := fr.queue[0], Next(h, fr);
      NextIsSmaller(h, fr);
      NextFacts(h, fr);
      NextKeepsOrder(h, fr);
      OrderIsNewestFirst(h, r);
      forall x | x in Order(h, r) ensures h[x].ctime <= h[c].ctime {
        if r.queue != [] {
          assert r.queue[0] in r.queue;
        }
      }
      PrependNewest(h, c, Order(h, r));
    }
  }

  lemma {:induction false} AncestorsAreOlder(h: Commits, c: CommitId, y: CommitId)
    requires Acyclic(h) && ParentsOlder(h) && c in h && y in Reach(h, c) && y != c
    ensures y in h && h[y].ctime < h[c].ctime
    decreases Rank(h, c)
  {
    ReachIsLoadable(h, c);
    ReachStep(h, c, y);
    ParentsRankLower(h);
    var p :| HasParent(h, c, p) && y in Reach(h, p);
    if y != p {
      AncestorsAreOlder(h, p, y);
    }
  }

  /** A commit is never visited before one of its descendants, and times never increase. */
  lemma DescendantsComeFirst(h: Commits, head: CommitId, i: nat, j: nat)
    requires Acyclic(h) && head in h && TimesClose(h) && ParentsOlder(h)
    requires i < |Order(h, Start(head))| && j < |Order(h, Start(head))|
    ensures var order := Order(h, Start(head));
      && order[i] in h && order[j] in h
      && (i < j ==> h[order[j]].ctime <= h[order[i]].ctime)
      && (order[j] in Reach(h, order[i]) && order[j] != order[i] ==> i < j)
  {
    var order := Order(h, Start(head));
    StartIsTidy(h, head);
    OrderIsNewestFirst(h, Start(head));
    assert order[i] in order && order[j] in order;
    if order[j] in Reach(h, order[i]) && order[j] != order[i] {
      AncestorsAreOlder(h, order[i], order[j]);
    }
  }
}
