/** Traversal in pages: stop after a number of commits, but only where the history is a single
    line again, and resume from there. */
module Paging {
  import opened Names
  import opened History
  import opened Traversal
  import opened TraversalOrder

  /** The outcome of one page: state, success, and where the next page starts. */
  datatype PageOutcome<S> = PageOutcome(state: S, ok: bool, next: Option<CommitId>)

  predicate PageEnds(limit: int, count: int, queue: seq<CommitId>) {
    limit > 0 && count >= limit && |queue| <= 1
  }

  function FirstOf(queue: seq<CommitId>): Option<CommitId> {
    if queue == [] then None else Some(queue[0])
  }

  /** The counter only runs when there is a limit. */
  function Tick(limit: int, count: int): int {
    if limit > 0 then count + 1 else count
  }

  function TraversePage<S>(h: Commits, fr: Frontier, func: (CommitId, S) -> Answer<S>, s: S,
                           limit: int, count: int, skipErrors: bool): PageOutcome<S>
    requires Loadable(h, fr)
    decreases Unseen(h, fr), |fr.queue|
  {
    if fr.queue == [] then PageOutcome(s, true, None)
    else
      var c := fr.queue[0];
      var r := func(c, s);
      if !r.ok && !skipErrors then PageOutcome(r.state, false, None)
      else if r.stop then TraversePage(h, Pop(fr), func, r.state, limit, count, skipErrors)
      else if MissesParent(h, fr) && !skipErrors then PageOutcome(r.state, false, None)
      else
        NextIsSmaller(h, fr);
        var fr' := Next(h, fr);
        if PageEnds(limit, Tick(limit, count), fr'.queue) then PageOutcome(r.state, true, FirstOf(fr'.queue))
        else TraversePage(h, fr', func, r.state, limit, Tick(limit, count), skipErrors)
  }

  /** seaf_commit_manager_traverse_commit_tree_with_limit */
  method TraverseCommitTreeWithLimit<S>(h: Commits, head: CommitId, func: (CommitId, S) -> Answer<S>, limit: int,
                                        data: S, skipErrors: bool)
    returns (ret: bool, data': S, nextStartCommit: Option<CommitId>)
    ensures head !in h ==> !ret && data' == data && nextStartCommit == None
    ensures head in h ==>
              PageOutcome(data', ret, nextStartCommit) == TraversePage(h, Start(head), func, data, limit, 0, skipErrors)
  {
    ret, data', nextStartCommit := true, data, None;
    if head !in h {
      return false, data, None;
    }
    var list := [head];
    var commitHash := {head};
    var count := 0;
    ghost var whole := TraversePage(h, Start(head), func, data, limit, 0, skipErrors);

    while list != []
      invariant AllIn(h, list)
      invariant whole == TraversePage(h, Frontier(list, commitHash), func, data', limit, count, skipErrors)
      decreases Unseen(h, Frontier(list, commitHash)), |list|
    {
      ghost var fr := Frontier(list, commitHash);
      NextIsSmaller(h, fr);
      var commit := list[0];
      list := list[1..];

      var r := func(commit, data');
      data' := r.state;
      if !r.ok && !skipErrors {
        return false, data', None;
      }
      if r.stop {
        continue;
      }
      var ok;
      ok, list, commitHash := InsertParents(h, commit, fr, list, commitHash, skipErrors, false);
      if !ok {
        return false, data', None;
      }
      if limit > 0 {
        count := count + 1;
        if count >= limit && |list| <= 1 {
          if list != [] {
            nextStartCommit := Some(list[0]);
          }
          return;
        }
      }
    }
  }

  // ---- what a page visits ----

  /** A page of a traversal that never stops: the commits visited and the frontier left. */
  function Page(h: Commits, fr: Frontier, limit: int, count: int): (r: (seq<CommitId>, Frontier))
    requires Loadable(h, fr)
    ensures Loadable(h, r.1)
    decreases Unseen(h, fr), |fr.queue|
  {
    if fr.queue == [] then ([], fr)
    else
      NextIsSmaller(h, fr);
      var fr' := Next(h, fr);
      if PageEnds(limit, Tick(limit, count), fr'.queue) then ([fr.queue[0]], fr')
      else
        var rest := Page(h, fr', limit, Tick(limit, count));
        ([fr.queue[0]] + rest.0, rest.1)
  }

  /** A callback that never fails and never stops. */
  ghost predicate NeverStops<S(!new)>(func: (CommitId, S) -> Answer<S>) {
    forall c, s :: func(c, s).ok && !func(c, s).stop
  }

  /** With such a callback, a page runs it over exactly the page's commits, and the next page
      starts at the one commit left, if any. */
  lemma {:induction false} PageIsFold<S(!new)>(h: Commits, fr: Frontier, func: (CommitId, S) -> Answer<S>, s: S,
                                               limit: int, count: int, skipErrors: bool)
    requires Loadable(h, fr) && NeverStops(func) && (Complete(h) || skipErrors)
    ensures var page := Page(h, fr, limit, count);
      TraversePage(h, fr, func, s, limit, count, skipErrors)
      == PageOutcome(FoldStates(func, s, page.0), true, FirstOf(page.1.queue))
    decreases Unseen(h, fr), |fr.queue|
  {
    if fr.queue != [] {
      NextIsSmaller(h, fr);
      var c, fr' := fr.queue[0], Next(h, fr);
      var s' := func(c, s).state;
      if PageEnds(limit, Tick(limit, count), fr'.queue) {
        assert FoldStates(func, s, [c]) == s';
      } else {
        PageIsFold(h, fr', func, s', limit, Tick(limit, count), skipErrors);
        var rest := Page(h, fr', limit, Tick(limit, count));
        assert ([c] + rest.0)[1..] == rest.0;
      }
    }
  }

  /** A page is the beginning of the full traversal; what is left is at most one commit. */
  lemma {:induction false} PageIsPrefix(h: Commits, fr: Frontier, limit: int, count: int)
    requires Tidy(h, fr)
    ensures var page := Page(h, fr, limit, count);
      && Order(h, fr) == page.0 + Order(h, page.1)
      && Tidy(h, page.1)
      && |page.1.queue| <= 1
    decreases Unseen(h, fr), |fr.queue|
  {
    if fr.queue != [] {
      NextIsSmaller(h, fr);
      NextFacts(h, fr);
      var c, fr' := fr.queue[0], Next(h, fr);
      assert Order(h, fr) == [c] + Order(h, fr');
      if !PageEnds(limit, Tick(limit, count), fr'.queue) {
        PageIsPrefix(h, fr', limit, Tick(limit, count));
        var rest := Page(h, fr', limit, Tick(limit, count));
        assert [c] + (rest.0 + Order(h, rest.1)) == ([c] + rest.0) + Order(h, rest.1);
      }
    } else {
      assert [] + Order(h, fr) == Order(h, fr);
    }
  }

  /** What has been seen when a page ends: visited, or still queued. */
  lemma {:induction false} PageSeen(h: Commits, fr: Frontier, limit: int, count: int)
    requires Tidy(h, fr)
    ensures var page := Page(h, fr, limit, count);
      forall x :: x in page.1.seen <==> x in fr.seen || x in page.0 || x in page.1.queue
    decreases Unseen(h, fr), |fr.queue|
  {
    if fr.queue != [] {
      NextIsSmaller(h, fr);
      NextFacts(h, fr);
      var c, fr' := fr.queue[0], Next(h, fr);
      if !PageEnds(limit, Tick(limit, count), fr'.queue) {
        PageSeen(h, fr', limit, Tick(limit, count));
        var rest := Page(h, fr', limit, Tick(limit, count));
        forall x ensures x in rest.1.seen <==> x in fr.seen || x in [c] + rest.0 || x in rest.1.queue {
          QueuedIsVisited(h, fr', limit, Tick(limit, count), x);
        }
      }
    }
  }

  /** A queued commit is visited by the page or still queued at its end. */
  lemma {:induction false} QueuedIsVisited(h: Commits, fr: Frontier, limit: int, count: int, x: CommitId)
    requires Tidy(h, fr)
    ensures var page := Page(h, fr, limit, count);
      x in fr.queue ==> x in page.0 || x in page.1.queue
    decreases Unseen(h, fr), |fr.queue|
  {
    if fr.queue != [] {
      NextIsSmaller(h, fr);
      NextFacts(h, fr);
      if !PageEnds(limit, Tick(limit, count), Next(h, fr).queue) {
        QueuedIsVisited(h, Next(h, fr), limit, Tick(limit, count), x);
      }
    }
  }

  // ---- pages of callbacks that stop or fail ----

  /** A page of a history in which some commits have been cut off from their parents: a visit of one
      of these does not count. */
  function CutPage(cut: Commits, stop: CommitId -> bool, fr: Frontier, limit: int, count: int): (r: (seq<CommitId>, Frontier))
    requires Loadable(cut, fr)
    ensures Loadable(cut, r.1)
    decreases Unseen(cut, fr), |fr.queue|
  {
    if fr.queue == [] then ([], fr)
    else
      NextIsSmaller(cut, fr);
      var c, fr' := fr.queue[0], Next(cut, fr);
      if EndsHere(stop, c, limit, count, fr') then ([c], fr')
      else
        var rest := CutPage(cut, stop, fr', limit, Counted(stop, c, limit, count));
        ([c] + rest.0, rest.1)
  }

  function Counted(stop: CommitId -> bool, c: CommitId, limit: int, count: int): int {
    if stop(c) then count else Tick(limit, count)
  }

  predicate EndsHere(stop: CommitId -> bool, c: CommitId, limit: int, count: int, fr: Frontier) {
    !stop(c) && PageEnds(limit, Tick(limit, count), fr.queue)
  }

  /** Any callback that stops by commit, failing or not, is run over the page of the pruned history up
      to the first faulty visit; only a page without one says where the next starts. */
  lemma {:induction false} PageUpToFault<S(!new)>(h: Commits, fr: Frontier, func: (CommitId, S) -> Answer<S>, s: S,
                                                  limit: int, count: int, skipErrors: bool, stop: CommitId -> bool)
    requires Tidy(Prune(h, stop), fr) && StopsBy(func, stop)
    ensures Loadable(h, fr)
    ensures var page := CutPage(Prune(h, stop), stop, fr, limit, count);
      var r := RunOver(h, func, stop, page.0, s, skipErrors, false);
      TraversePage(h, fr, func, s, limit, count, skipErrors)
      == PageOutcome(r.state, r.ok, if r.ok then FirstOf(page.1.queue) else None)
    decreases Unseen(h, fr), |fr.queue|
  {
    PruneKeepsUnseen(h, stop, fr);
    if fr.queue != [] {
      var c := fr.queue[0];
      var rest := if stop(c) then Pop(fr) else Next(h, fr);
      PrunedNext(h, stop, fr);
      PrunedTidy(h, stop, fr);
      NextIsSmaller(h, fr);
      MissesWhenUnloadable(h, fr);
      if EndsHere(stop, c, limit, count, rest) {
        RunOverCons(h, func, stop, c, [], s, skipErrors, false);
        assert [c] + [] == [c];
      } else {
        var count' := Counted(stop, c, limit, count);
        RunOverCons(h, func, stop, c, CutPage(Prune(h, stop), stop, rest, limit, count').0, s, skipErrors, false);
        PageUpToFault(h, rest, func, func(c, s).state, limit, count', skipErrors, stop);
      }
    }
  }

  /** How many commits of a list were gone on from. */
  function GoneOn(stop: CommitId -> bool, cs: seq<CommitId>): nat {
    if cs == [] then 0 else (if stop(cs[0]) then 0 else 1) + GoneOn(stop, cs[1..])
  }

  /** The frontier after k visits. */
  function After(h: Commits, fr: Frontier, k: nat): (r: Frontier)
    requires Loadable(h, fr)
    ensures Loadable(h, r)
    decreases k
  {
    if k == 0 || fr.queue == [] then fr else After(h, Next(h, fr), k - 1)
  }

  /** A page may end after some visits: the last commit was gone on from, as many as the limit asks for
      were, and at most one commit is queued. */
  predicate MayEnd(cut: Commits, stop: CommitId -> bool, fr: Frontier, limit: int, count: int, visited: seq<CommitId>)
    requires Loadable(cut, fr)
  {
    && visited != [] && !stop(visited[|visited| - 1])
    && limit > 0 && count + GoneOn(stop, visited) >= limit && |After(cut, fr, |visited|).queue| <= 1
  }

  lemma OneVisit(cut: Commits, stop: CommitId -> bool, fr: Frontier, limit: int, count: int, visited: seq<CommitId>)
    requires Loadable(cut, fr) && fr.queue != []
    ensures var c, rest := fr.queue[0], Next(cut, fr);
      && After(cut, fr, |[c] + visited|) == After(cut, rest, |visited|)
      && (MayEnd(cut, stop, fr, limit, count, [c] + visited) <==>
            if visited == [] then EndsHere(stop, c, limit, count, rest)
            else MayEnd(cut, stop, rest, limit, Counted(stop, c, limit, count), visited))
  {
    var c := fr.queue[0];
    assert ([c] + visited)[1..] == visited;
    if visited == [] {
      assert [c] + visited == [c] && [c][1..] == [];
      assert GoneOn(stop, [c]) == if stop(c) then 0 else 1;
    } else {
      assert ([c] + visited)[|visited|] == visited[|visited| - 1];
    }
  }

  /** The list ends where a page may end for the first time, or with the traversal. */
  predicate EndsFirst(cut: Commits, stop: CommitId -> bool, fr: Frontier, limit: int, count: int, visited: seq<CommitId>)
    requires Loadable(cut, fr)
  {
    && (After(cut, fr, |visited|).queue == [] || MayEnd(cut, stop, fr, limit, count, visited))
    && forall k :: 0 < k < |visited| ==> !MayEnd(cut, stop, fr, limit, count, visited[..k])
  }

  lemma EndsOneLater(cut: Commits, stop: CommitId -> bool, fr: Frontier, limit: int, count: int, visited: seq<CommitId>)
    requires Loadable(cut, fr) && fr.queue != []
    requires !EndsHere(stop, fr.queue[0], limit, count, Next(cut, fr))
    requires EndsFirst(cut, stop, Next(cut, fr), limit, Counted(stop, fr.queue[0], limit, count), visited)
    ensures EndsFirst(cut, stop, fr, limit, count, [fr.queue[0]] + visited)
  {
    var c := fr.queue[0];
    var all := [c] + visited;
    OneVisit(cut, stop, fr, limit, count, visited);
    forall k | 0 < k < |all| ensures !MayEnd(cut, stop, fr, limit, count, all[..k]) {
      assert all[..k] == [c] + visited[..k - 1];
      OneVisit(cut, stop, fr, limit, count, visited[..k - 1]);
    }
  }

  /** A page is the shortest beginning of the order of the pruned history after which it may end, or all
      of it; the next page starts from what is queued then. */
  lemma {:induction false} PageIsShortest(cut: Commits, stop: CommitId -> bool, fr: Frontier, limit: int, count: int)
    requires Loadable(cut, fr)
    ensures var page := CutPage(cut, stop, fr, limit, count);
      && page.0 <= Order(cut, fr) && page.1 == After(cut, fr, |page.0|)
      && EndsFirst(cut, stop, fr, limit, count, page.0)
    decreases Unseen(cut, fr), |fr.queue|
  {
    if fr.queue != [] {
      NextIsSmaller(cut, fr);
      var c, rest, count' := fr.queue[0], Next(cut, fr), Counted(stop, fr.queue[0], limit, count);
      if EndsHere(stop, c, limit, count, rest) {
        OneVisit(cut, stop, fr, limit, count, []);
        assert [c] + [] == [c];
      } else {
        PageIsShortest(cut, stop, rest, limit, count');
        EndsOneLater(cut, stop, fr, limit, count, CutPage(cut, stop, rest, limit, count').0);
        OneVisit(cut, stop, fr, limit, count, CutPage(cut, stop, rest, limit, count').0);
      }
    }
  }

  /** Without stops, a page is the one that the paging theorems are about. */
  lemma {:induction false} UncutPage(h: Commits, stop: CommitId -> bool, fr: Frontier, limit: int, count: int)
    requires Loadable(h, fr) && forall c :: !stop(c)
    ensures CutPage(h, stop, fr, limit, count) == Page(h, fr, limit, count)
    decreases Unseen(h, fr), |fr.queue|
  {
    if fr.queue != [] {
      NextIsSmaller(h, fr);
      UncutPage(h, stop, Next(h, fr), limit, Tick(limit, count));
    }
  }

  lemma NothingPruned(h: Commits, stop: CommitId -> bool)
    requires forall c :: !stop(c)
    ensures Prune(h, stop) == h
  {
  }

  // ---- paging loses nothing ----

  lemma ReachOfOne(h: Commits, queue: seq<CommitId>, y: CommitId)
    requires Acyclic(h) && AllIn(h, queue) && |queue| <= 1 && y in ReachAll(h, Elements(queue))
    ensures queue != [] && y in Reach(h, queue[0])
  {
  }

  lemma ReachAllOfOne(h: Commits, x: CommitId)
    requires Acyclic(h) && x in h
    ensures ReachAll(h, Elements([x])) == Reach(h, x)
  {
    ReachAllContains(h, Elements([x]), x);
    forall y | y in ReachAll(h, Elements([x])) ensures y in Reach(h, x) {
      ReachOfOne(h, [x], y);
    }
  }

  lemma ElementsOfBoth(a: seq<CommitId>, b: seq<CommitId>)
    ensures Elements(a + b) == Elements(a) + Elements(b)
  {
  }

  /** The commit a page leaves for the next one. */
  lemma NextPageStart(h: Commits, head: CommitId, limit: int)
    requires Acyclic(h) && head in h
    ensures var page := Page(h, Start(head), limit, 0);
      && |page.1.queue| <= 1
      && (page.1.queue != [] ==>
            var x := page.1.queue[0]; x in h && x in Reach(h, head) && x != head && Rank(h, x) < Rank(h, head))
  {
    var page := Page(h, Start(head), limit, 0);
    StartIsTidy(h, head);
    PageIsPrefix(h, Start(head), limit, 0);
    EveryReachableCommitOnce(h, head);
    if page.1.queue != [] {
      var order, x := Order(h, Start(head)), page.1.queue[0];
      assert order[0] == head && order[|page.0|] == x;
      assert page.0 != [];
      assert x in Elements(order);
      AncestorsRankLower(h, head, x);
    }
  }

  /** Whatever the times: the commits a page visits, and what the next start reaches, are
      together exactly what the head reaches. */
  lemma PageLosesNothing(h: Commits, head: CommitId, limit: int)
    requires Acyclic(h) && head in h
    ensures var page := Page(h, Start(head), limit, 0);
      && (forall c :: c in page.1.queue ==> c in h)
      && Reach(h, head) == Elements(page.0) + ReachAll(h, Elements(page.1.queue))
  {
    var page := Page(h, Start(head), limit, 0);
    var queued := Elements(page.1.queue);
    StartIsTidy(h, head);
    PageIsPrefix(h, Start(head), limit, 0);
    PageSeen(h, Start(head), limit, 0);
    EveryReachableCommitOnce(h, head);
    NextPageStart(h, head, limit);
    HeadIsVisited(h, head, limit);
    forall y | y in Reach(h, head) ensures y in page.0 || y in ReachAll(h, queued) {
      OpenCommitsReachTheRest(h, page.1.seen, queued, head, y);
      if y in queued {
        ReachAllContains(h, queued, y);
      }
    }
    forall y | y in page.0 ensures y in Reach(h, head) {
      assert y in Elements(Order(h, Start(head)));
    }
    forall y | y in ReachAll(h, queued) ensures y in Reach(h, head) {
      ReachOfOne(h, page.1.queue, y);
      ReachIsTransitive(h, head, page.1.queue[0]);
    }
  }

  lemma HeadIsVisited(h: Commits, head: CommitId, limit: int)
    requires Acyclic(h) && head in h
    ensures head in Page(h, Start(head), limit, 0).0
  {
  }

  /** All pages, one after the other. */
  ghost function AllPages(h: Commits, head: CommitId, limit: int): seq<CommitId>
    requires Acyclic(h) && head in h
    decreases Rank(h, head)
  {
    NextPageStart(h, head, limit);
    var page := Page(h, Start(head), limit, 0);
    page.0 + if page.1.queue == [] then [] else AllPages(h, page.1.queue[0], limit)
  }

  /** Whatever the times, the pages visit everything reachable and nothing else. */
  lemma {:induction false} PagesVisitEverything(h: Commits, head: CommitId, limit: int)
    requires Acyclic(h) && head in h
    ensures Elements(AllPages(h, head, limit)) == Reach(h, head)
    decreases Rank(h, head)
  {
    NextPageStart(h, head, limit);
    PageLosesNothing(h, head, limit);
    var page := Page(h, Start(head), limit, 0);
    if page.1.queue != [] {
      var x := page.1.queue[0];
      PagesVisitEverything(h, x, limit);
      ElementsOfBoth(page.0, AllPages(h, x, limit));
      assert page.1.queue == [x];
      ReachAllOfOne(h, x);
    }
  }

  // ---- the pages are the one-shot traversal ----

  ghost predicate AgreeBelow(h: Commits, fr: Frontier, fr': Frontier)
    requires Acyclic(h)
  {
    && fr.queue == fr'.queue
    && Elements(fr.queue) <= h.Keys
    && forall y :: y in ReachAll(h, Elements(fr.queue)) ==> (y in fr.seen <==> y in fr'.seen)
  }

  lemma AgreeAfterStep(h: Commits, fr: Frontier, fr': Frontier)
    requires Acyclic(h) && Tidy(h, fr) && Tidy(h, fr') && fr.queue != [] && AgreeBelow(h, fr, fr')
    ensures AgreeBelow(h, Next(h, fr), Next(h, fr'))
  {
    var c := fr.queue[0];
    var queued := Elements(fr.queue);
    NextFacts(h, fr);
    NextFacts(h, fr');
    forall p | HasParent(h, c, p) ensures p in ReachAll(h, queued) {
      ParentIsReached(h, queued, c, p);
    }
    var p, q := h[c].parent, h[c].second;
    assert p.Some? && p.value in h ==> HasParent(h, c, p.value);
    assert q.Some? && q.value in h ==> HasParent(h, c, q.value);
    assert Next(h, fr).queue == Next(h, fr').queue;
    var queued' := Elements(Next(h, fr).queue);
    forall y | y in ReachAll(h, queued') ensures y in ReachAll(h, queued) {
      var x :| x in queued' && y in Reach(h, x);
      if x in queued {
        ReachAllContains(h, queued, x);
      } else {
        ParentIsReached(h, queued, c, x);
      }
    }
  }

  /** Commits seen but out of reach do not influence the order. */
  lemma {:induction false} SameFuture(h: Commits, fr: Frontier, fr': Frontier)
    requires Acyclic(h) && Tidy(h, fr) && Tidy(h, fr') && AgreeBelow(h, fr, fr')
    ensures Order(h, fr) == Order(h, fr')
    decreases Unseen(h, fr), |fr.queue|
  {
    if fr.queue != [] {
      NextIsSmaller(h, fr);
      NextFacts(h, fr);
      NextFacts(h, fr');
      AgreeAfterStep(h, fr, fr');
      SameFuture(h, Next(h, fr), Next(h, fr'));
    }
  }
}
