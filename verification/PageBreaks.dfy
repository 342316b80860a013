/** When the pages of a history, put end to end, are its one-shot traversal. */
module PageBreaks {
  import opened Names
  import opened History
  import opened Traversal
  import opened TraversalOrder
  import opened Paging

  function Repeat<T>(f: T -> T, x: T, n: nat): T {
    if n == 0 then x else Repeat(f, f(x), n - 1)
  }

  lemma {:induction false} RepeatSum<T>(f: T -> T, x: T, m: nat, n: nat)
    ensures Repeat(f, x, m + n) == Repeat(f, Repeat(f, x, m), n)
  {
    if m > 0 {
      RepeatSum(f, f(x), m - 1, n);
    }
  }

  /** One visit; nothing happens once the queue is empty. */
  function Visit(h: Commits): Frontier -> Frontier {
    (fr: Frontier) => if Loadable(h, fr) && fr.queue != [] then Next(h, fr) else fr
  }

  lemma {:induction false} VisitsStayLoadable(h: Commits, fr: Frontier, n: nat)
    requires Loadable(h, fr)
    ensures Loadable(h, Repeat(Visit(h), fr, n))
    decreases n
  {
    if n > 0 {
      VisitsStayLoadable(h, Visit(h)(fr), n - 1);
    }
  }

  /** The frontier after n visits. */
  function After(h: Commits, fr: Frontier, n: nat): (r: Frontier)
    requires Loadable(h, fr)
    ensures Loadable(h, r)
  {
    VisitsStayLoadable(h, fr, n);
    Repeat(Visit(h), fr, n)
  }

  lemma AfterStep(h: Commits, fr: Frontier, n: nat)
    requires Loadable(h, fr) && n > 0
    ensures After(h, fr, n) == After(h, if fr.queue == [] then fr else Next(h, fr), n - 1)
  {
  }

  lemma OrderStep(h: Commits, fr: Frontier)
    requires Loadable(h, fr) && Order(h, fr) != []
    ensures fr.queue != [] && Order(h, fr)[0] == fr.queue[0] && Order(h, fr)[1..] == Order(h, Next(h, fr))
  {
  }

  lemma {:induction false} OrderAfter(h: Commits, fr: Frontier, n: nat)
    requires Tidy(h, fr) && n <= |Order(h, fr)|
    ensures Tidy(h, After(h, fr, n))
    ensures Order(h, After(h, fr, n)) == Order(h, fr)[n..]
    decreases n
  {
    if n > 0 {
      OrderStep(h, fr);
      NextFacts(h, fr);
      AfterStep(h, fr, n);
      OrderAfter(h, Next(h, fr), n - 1);
      assert Order(h, fr)[n..] == Order(h, fr)[1..][n - 1..];
    }
  }

  /** A page is some number of visits. */
  lemma {:induction false} PageIsAfter(h: Commits, fr: Frontier, limit: int, count: int)
    requires Tidy(h, fr)
    ensures Page(h, fr, limit, count).1 == After(h, fr, |Page(h, fr, limit, count).0|)
    decreases Unseen(h, fr), |fr.queue|
  {
    if fr.queue != [] {
      NextIsSmaller(h, fr);
      NextFacts(h, fr);
      PageIsAfter(h, Next(h, fr), limit, Tick(limit, count));
      AfterStep(h, fr, |Page(h, fr, limit, count).0|);
    }
  }

  lemma PageStep(h: Commits, fr: Frontier, limit: int, count: int)
    requires Loadable(h, fr) && fr.queue != [] && limit > 0
    ensures |Page(h, fr, limit, count).0|
            == if PageEnds(limit, count + 1, Next(h, fr).queue) then 1 else 1 + |Page(h, Next(h, fr), limit, count + 1).0|
  {
  }

  /** A page ends at its limit if only one commit is queued there. */
  lemma {:induction false} PageEndsAtLimit(h: Commits, fr: Frontier, limit: int, count: int, n: nat)
    requires Loadable(h, fr) && limit > 0 && 0 < n == limit - count && n <= |Order(h, fr)|
    requires |After(h, fr, n).queue| <= 1
    ensures |Page(h, fr, limit, count).0| == n
    decreases n
  {
    OrderStep(h, fr);
    AfterStep(h, fr, n);
    PageStep(h, fr, limit, count);
    if n > 1 {
      PageEndsAtLimit(h, Next(h, fr), limit, count + 1, n - 1);
    }
  }

  /** Frontiers that agree on what they can still reach keep agreeing. */
  lemma {:induction false} AgreeAfter(h: Commits, fr: Frontier, fr': Frontier, n: nat)
    requires Acyclic(h) && Tidy(h, fr) && Tidy(h, fr') && AgreeBelow(h, fr, fr')
    ensures After(h, fr, n).queue == After(h, fr', n).queue
    decreases n
  {
    if n > 0 && fr.queue != [] {
      NextFacts(h, fr);
      NextFacts(h, fr');
      AgreeAfterStep(h, fr, fr');
      AgreeAfter(h, Next(h, fr), Next(h, fr'), n - 1);
      AfterStep(h, fr, n);
      AfterStep(h, fr', n);
    } else if n > 0 {
      AgreeAfter(h, fr, fr', n - 1);
      AfterStep(h, fr, n);
      AfterStep(h, fr', n);
    }
  }

  // ---- looking back ----

  /** After n visits a single commit is queued, and it reaches a commit visited before. */
  ghost predicate LooksBack(h: Commits, head: CommitId, n: nat)
    requires Acyclic(h) && head in h
  {
    var fr := After(h, Start(head), n);
    && 0 < n < |Order(h, Start(head))| && |fr.queue| == 1
    && exists z :: z in Order(h, Start(head))[..n] && z in Reach(h, fr.queue[0])
  }

  ghost predicate NeverLooksBack(h: Commits, head: CommitId)
    requires Acyclic(h) && head in h
  {
    forall n: nat :: !LooksBack(h, head, n)
  }

  /** Where a page ends, as a number of visits from its head. */
  lemma PageBreak(h: Commits, head: CommitId, limit: int) returns (n: nat)
    requires Acyclic(h) && head in h
    ensures var page, order := Page(h, Start(head), limit, 0), Order(h, Start(head));
      && n == |page.0| && 0 < n <= |order| && page.0 == order[..n]
      && page.1 == After(h, Start(head), n) && Tidy(h, page.1) && |page.1.queue| <= 1
      && order == page.0 + Order(h, page.1)
      && (page.1.queue != [] ==> n < |order|)
  {
    StartIsTidy(h, head);
    PageIsPrefix(h, Start(head), limit, 0);
    PageIsAfter(h, Start(head), limit, 0);
    HeadIsVisited(h, head, limit);
    n := |Page(h, Start(head), limit, 0).0|;
  }

  /** Nothing visited lies below the commit left over: the next page sees what the traversal sees. */
  lemma NextPageAgrees(h: Commits, head: CommitId, limit: int)
    requires Acyclic(h) && head in h && NeverLooksBack(h, head)
    requires Page(h, Start(head), limit, 0).1.queue != []
    ensures var page := Page(h, Start(head), limit, 0);
      var x := page.1.queue[0];
      x in h && AgreeBelow(h, page.1, Start(x)) && Tidy(h, page.1) && Tidy(h, Start(x))
  {
    var page := Page(h, Start(head), limit, 0);
    var n := PageBreak(h, head, limit);
    var x := page.1.queue[0];
    NextPageStart(h, head, limit);
    StartIsTidy(h, head);
    StartIsTidy(h, x);
    PageSeen(h, Start(head), limit, 0);
    HeadIsVisited(h, head, limit);
    assert page.1.queue == [x] && !LooksBack(h, head, n);
    forall y | y in ReachAll(h, Elements([x])) ensures y in page.1.seen <==> y in Start(x).seen {
      ReachOfOne(h, [x], y);
    }
  }

  /** The next page's traversal looks back only where the whole one does. */
  lemma NextNeverLooksBack(h: Commits, head: CommitId, limit: int)
    requires Acyclic(h) && head in h && NeverLooksBack(h, head)
    requires Page(h, Start(head), limit, 0).1.queue != []
    ensures var x := Page(h, Start(head), limit, 0).1.queue[0];
      x in h && NeverLooksBack(h, x) && Order(h, Start(x)) == Order(h, Page(h, Start(head), limit, 0).1)
  {
    var page := Page(h, Start(head), limit, 0);
    var x := page.1.queue[0];
    var n := PageBreak(h, head, limit);
    NextPageAgrees(h, head, limit);
    SameFuture(h, page.1, Start(x));
    forall m: nat
      ensures !LooksBack(h, x, m)
    {
      AgreeAfter(h, page.1, Start(x), m);
      RepeatSum(Visit(h), Start(head), n, m);
      assert !LooksBack(h, head, n + m);
      if m <= |Order(h, Start(x))| {
        VisitsExtend(page.0, Order(h, Start(x)), m);
      }
    }
  }

  lemma VisitsExtend(front: seq<CommitId>, order: seq<CommitId>, m: nat)
    requires m <= |order|
    ensures (front + order)[..|front| + m] == front + order[..m]
  {
  }

  lemma {:induction false} PagesWithoutLookingBack(h: Commits, head: CommitId, limit: int)
    requires Acyclic(h) && head in h && NeverLooksBack(h, head)
    ensures AllPages(h, head, limit) == Order(h, Start(head))
    decreases Rank(h, head)
  {
    var page := Page(h, Start(head), limit, 0);
    var n := PageBreak(h, head, limit);
    NextPageStart(h, head, limit);
    if page.1.queue != [] {
      NextNeverLooksBack(h, head, limit);
      PagesWithoutLookingBack(h, page.1.queue[0], limit);
    }
  }

  /** Pages of the size at which the history looks back repeat a commit. */
  lemma LookingBackRepeats(h: Commits, head: CommitId, n: nat)
    requires Acyclic(h) && head in h && LooksBack(h, head, n)
    ensures AllPages(h, head, n) != Order(h, Start(head))
  {
    var page, order := Page(h, Start(head), n, 0), Order(h, Start(head));
    PageEndsAtLimit(h, Start(head), n, 0, n);
    var k := PageBreak(h, head, n);
    NextPageStart(h, head, n);
    var x := page.1.queue[0];
    var rest := AllPages(h, x, n);
    PagesVisitEverything(h, x, n);
    var z :| z in page.0 && z in Reach(h, x);
    assert z in Elements(rest);
    RepeatedIsDuplicate(page.0, rest, z);
    EveryReachableCommitOnce(h, head);
  }

  lemma RepeatedIsDuplicate(a: seq<CommitId>, b: seq<CommitId>, z: CommitId)
    requires z in a && z in b
    ensures !NoDuplicates(a + b)
  {
    var i :| 0 <= i < |a| && a[i] == z;
    var j :| 0 <= j < |b| && b[j] == z;
    assert (a + b)[i] == (a + b)[|a| + j];
  }

  /** The pages of every size, end to end, are the traversal exactly when, wherever a single commit
      is queued, that commit reaches nothing visited before. */
  lemma PagesAreTheTraversalExactly(h: Commits, head: CommitId)
    requires Acyclic(h) && head in h
    ensures (forall limit :: AllPages(h, head, limit) == Order(h, Start(head))) <==> NeverLooksBack(h, head)
  {
    if NeverLooksBack(h, head) {
      forall limit
        ensures AllPages(h, head, limit) == Order(h, Start(head))
      {
        PagesWithoutLookingBack(h, head, limit);
      }
    } else {
      var n: nat :| LooksBack(h, head, n);
      LookingBackRepeats(h, head, n);
    }
  }

  // ---- dates ----

  /** With every parent strictly older than its child a traversal never looks back. */
  lemma OlderParentsNeverLookBack(h: Commits, head: CommitId)
    requires Acyclic(h) && head in h && TimesClose(h) && ParentsOlder(h)
    ensures NeverLooksBack(h, head)
  {
    forall n: nat
      ensures !LooksBack(h, head, n)
    {
      if LooksBack(h, head, n) {
        var z :| z in Order(h, Start(head))[..n] && z in Reach(h, After(h, Start(head), n).queue[0]);
        VisitedAreNewer(h, head, n, z);
      }
    }
  }

  lemma VisitedAreNewer(h: Commits, head: CommitId, n: nat, z: CommitId)
    requires Acyclic(h) && head in h && TimesClose(h) && ParentsOlder(h)
    requires n < |Order(h, Start(head))| && z in Order(h, Start(head))[..n]
    ensures After(h, Start(head), n).queue != []
    ensures var x := After(h, Start(head), n).queue[0]; x in h && z !in Reach(h, x)
  {
    var order := Order(h, Start(head));
    StartIsTidy(h, head);
    OrderAfter(h, Start(head), n);
    OrderIsNewestFirst(h, Start(head));
    EveryReachableCommitOnce(h, head);
    var i :| 0 <= i < n && order[i] == z;
    assert order[n] == Order(h, After(h, Start(head), n))[0];
    if z in Reach(h, order[n]) {
      AncestorsAreOlder(h, order[n], z);
    }
  }

  /** When every parent is strictly older than its child, the pages one after the other are
      exactly the traversal without a limit. */
  lemma PagesAreTheTraversal(h: Commits, head: CommitId, limit: int)
    requires Acyclic(h) && head in h && TimesClose(h) && ParentsOlder(h)
    ensures AllPages(h, head, limit) == Order(h, Start(head))
  {
    OlderParentsNeverLookBack(h, head);
    PagesWithoutLookingBack(h, head, limit);
  }

  /** A history in which q's parent p is dated after q. */
  function Misdated(): Commits {
    map["h" := Commit(3, Some("p"), Some("q"), ""), "p" := Commit(2, None, None, ""),
        "q" := Commit(1, Some("p"), None, "")]
  }

  /** There the first page visits p and leaves q for the next one, which reaches p again. */
  lemma PagesCanRepeat()
    ensures var h := Misdated(); var page := Page(h, Start("h"), 2, 0);
      && page.0 == ["h", "p"] && page.1.queue == ["q"]
      && Order(h, Start("q")) == ["q", "p"]
  {
  }
}
