/** The commit list shown to users: a window onto the traversal order, collected by a callback
    that can only stop one branch at a time. */
module CommitList {
  import opened Names
  import opened History
  import opened Traversal
  import opened TraversalOrder

  datatype CollectParam = CollectParam(offset: int, limit: int, count: int, commits: seq<CommitId>,
                                       truncateTime: int, traversedHead: bool)

  /** get_commit */
  function GetCommit(h: Commits): (CommitId, CollectParam) -> Answer<CollectParam> {
    (c: CommitId, cp: CollectParam) =>
      if cp.truncateTime > 0 && c in h && h[c].ctime <= cp.truncateTime && cp.traversedHead then
        Answer(cp, true, true)
      else
        var stop, cp' := cp.truncateTime == 0, cp.(traversedHead := true);
        if cp.limit > 0 && cp.count >= cp.offset + cp.limit then Answer(cp', true, true)
        else
          var commits := if cp.count >= cp.offset then [c] + cp.commits else cp.commits;
          Answer(cp'.(commits := commits, count := cp.count + 1), true, stop)
  }

  /** History from `truncateTime` on is cut off; zero cuts everything below the head. */
  function CutAt(h: Commits, truncateTime: int): CommitId -> bool {
    (c: CommitId) => truncateTime == 0 || HiddenBy(h, truncateTime, c)
  }

  predicate HiddenBy(h: Commits, truncateTime: int, c: CommitId) {
    truncateTime > 0 && c in h && h[c].ctime <= truncateTime
  }

  function Shown(h: Commits, truncateTime: int, cs: seq<CommitId>): seq<CommitId> {
    if cs == [] then []
    else (if HiddenBy(h, truncateTime, cs[0]) then [] else [cs[0]]) + Shown(h, truncateTime, cs[1..])
  }

  /** All commits that can ever be listed, in order: the head, then what the traversal of the cut
      history shows. */
  function ListedHistory(h: Commits, head: CommitId, truncateTime: int): seq<CommitId>
    requires head in h
  {
    var below := if truncateTime == 0 then Pop(Start(head)) else Next(h, Start(head));
    var cut := Prune(h, CutAt(h, truncateTime));
    assert Loadable(cut, below);
    [head] + Shown(h, truncateTime, Order(cut, below))
  }

  /** The commits at positions offset, offset + 1, ..., at most `limit` of them if positive. */
  function Window(cs: seq<CommitId>, offset: nat, limit: int): seq<CommitId> {
    var from := Min(offset, |cs|);
    var to := if limit > 0 then Min(offset + limit, |cs|) else |cs|;
    cs[from..to]
  }

  function Reverse(cs: seq<CommitId>): seq<CommitId> {
    if cs == [] then [] else Reverse(cs[1..]) + [cs[0]]
  }

  // ---- what the callback collects ----

  /** What is collected of `cs` once `count` commits have been counted. */
  function Collected(cs: seq<CommitId>, count: int, offset: int, limit: int): seq<CommitId> {
    if cs == [] || (limit > 0 && count >= offset + limit) then []
    else (if count >= offset then [cs[0]] else []) + Collected(cs[1..], count + 1, offset, limit)
  }

  /** Positions are cut to the list. */
  function Clip(k: int, n: nat): (r: nat)
    ensures r <= n
  {
    if k < 0 then 0 else if k > n then n else k
  }

  lemma {:induction false} CollectedAfterOffset(cs: seq<CommitId>, count: nat, offset: nat, limit: int)
    requires count >= offset
    ensures Collected(cs, count, offset, limit) == if limit > 0 then cs[..Clip(offset + limit - count, |cs|)] else cs
  {
    if cs != [] && !(limit > 0 && count >= offset + limit) {
      var rest := cs[1..];
      CollectedAfterOffset(rest, count + 1, offset, limit);
      assert cs == [cs[0]] + rest;
      if limit > 0 {
        var to := Clip(offset + limit - count - 1, |rest|);
        assert cs[..to + 1] == [cs[0]] + rest[..to];
      }
    }
  }

  lemma {:induction false} CollectedUpToOffset(cs: seq<CommitId>, count: nat, offset: nat, limit: int)
    requires count <= offset
    ensures Collected(cs, count, offset, limit) == Collected(cs[Clip(offset - count, |cs|)..], offset, offset, limit)
  {
    if cs != [] && count < offset {
      CollectedUpToOffset(cs[1..], count + 1, offset, limit);
      assert cs[1..][Clip(offset - count - 1, |cs| - 1)..] == cs[Clip(offset - count, |cs|)..];
      assert [] + Collected(cs[1..], count + 1, offset, limit) == Collected(cs[1..], count + 1, offset, limit);
    }
  }

  lemma CollectedIsWindow(cs: seq<CommitId>, offset: nat, limit: int)
    ensures Collected(cs, 0, offset, limit) == Window(cs, offset, limit)
  {
    CollectedUpToOffset(cs, 0, offset, limit);
    CollectedAfterOffset(cs[Clip(offset, |cs|)..], offset, offset, limit);
  }

  lemma {:induction false} ReverseTwice(cs: seq<CommitId>, tail: seq<CommitId>)
    ensures Reverse(Reverse(cs) + tail) == Reverse(tail) + cs
  {
    if cs == [] {
      assert Reverse(cs) + tail == tail;
    } else {
      assert Reverse(cs) + tail == Reverse(cs[1..]) + ([cs[0]] + tail);
      ReverseTwice(cs[1..], [cs[0]] + tail);
      assert ([cs[0]] + tail)[1..] == tail;
      assert cs == [cs[0]] + cs[1..];
    }
  }

  /** Once the window is full every commit still queued only stops its own branch. */
  lemma {:induction false} FullWindowDrains(h: Commits, fr: Frontier, cp: CollectParam)
    requires Loadable(h, fr) && cp.limit > 0 && cp.count >= cp.offset + cp.limit
    ensures var r := Traverse(h, fr, GetCommit(h), cp, true, false); r.ok && r.state.commits == cp.commits
    decreases |fr.queue|
  {
    if fr.queue != [] {
      FullWindowDrains(h, Pop(fr), GetCommit(h)(fr.queue[0], cp).state);
    }
  }

  lemma CutNext(h: Commits, truncateTime: int, fr: Frontier)
    requires Loadable(h, fr) && fr.queue != []
    ensures var cut := Prune(h, CutAt(h, truncateTime));
      && Loadable(cut, fr) && Unseen(cut, fr) == Unseen(h, fr)
      && Next(cut, fr) == (if CutAt(h, truncateTime)(fr.queue[0]) then Pop(fr) else Next(h, fr))
      && Order(cut, fr) == [fr.queue[0]] + Order(cut, Next(cut, fr))
  {
    var cut := Prune(h, CutAt(h, truncateTime));
    PruneKeepsUnseen(h, CutAt(h, truncateTime), fr);
    PrunedNext(h, CutAt(h, truncateTime), fr);
    NextIsSmaller(cut, fr);
  }

  /** What has been collected once the commits of `order` have been visited below the head. */
  function AfterVisiting(h: Commits, cp: CollectParam, order: seq<CommitId>): seq<CommitId> {
    Reverse(Collected(Shown(h, cp.truncateTime, order), cp.count, cp.offset, cp.limit)) + cp.commits
  }

  predicate WindowFull(cp: CollectParam) {
    cp.limit > 0 && cp.count >= cp.offset + cp.limit
  }

  lemma NothingMore(h: Commits, cp: CollectParam, order: seq<CommitId>)
    requires WindowFull(cp) || order == []
    ensures AfterVisiting(h, cp, order) == cp.commits
  {
  }

  /** Below the head, the callback collects from the shown commits of the cut history, in order. */
  lemma {:induction false} CollectsShown(h: Commits, fr: Frontier, cp: CollectParam)
    requires Loadable(h, fr) && cp.traversedHead
    ensures Loadable(Prune(h, CutAt(h, cp.truncateTime)), fr)
    ensures var r := Traverse(h, fr, GetCommit(h), cp, true, false);
      r.ok && r.state.commits == AfterVisiting(h, cp, Order(Prune(h, CutAt(h, cp.truncateTime)), fr))
    decreases Unseen(h, fr), |fr.queue|
  {
    var cut := Prune(h, CutAt(h, cp.truncateTime));
    if WindowFull(cp) {
      FullWindowDrains(h, fr, cp);
      NothingMore(h, cp, Order(cut, fr));
    } else if fr.queue == [] {
      NothingMore(h, cp, []);
    } else {
      var c := fr.queue[0];
      var cp' := GetCommit(h)(c, cp).state;
      CutNext(h, cp.truncateTime, fr);
      var rest := Next(cut, fr);
      VisitBelowHead(h, fr, cp);
      CollectsShown(h, rest, cp');
      OneMoreShown(h, cp, c, Order(cut, rest));
    }
  }

  /** One visit below the head, while the window is not full. */
  lemma VisitBelowHead(h: Commits, fr: Frontier, cp: CollectParam)
    requires Loadable(h, fr) && fr.queue != [] && cp.traversedHead && !WindowFull(cp)
    ensures var c := fr.queue[0];
      var rest := if CutAt(h, cp.truncateTime)(c) then Pop(fr) else Next(h, fr);
      var cp' := GetCommit(h)(c, cp).state;
      && Loadable(h, rest)
      && (Unseen(h, rest) < Unseen(h, fr) || (Unseen(h, rest) == Unseen(h, fr) && |rest.queue| < |fr.queue|))
      && Traverse(h, fr, GetCommit(h), cp, true, false) == Traverse(h, rest, GetCommit(h), cp', true, false)
      && cp'.traversedHead && cp'.truncateTime == cp.truncateTime && cp'.offset == cp.offset && cp'.limit == cp.limit
  {
    NextIsSmaller(h, fr);
  }

  lemma OneMoreShown(h: Commits, cp: CollectParam, c: CommitId, rest: seq<CommitId>)
    requires cp.traversedHead && c in h && !WindowFull(cp)
    ensures AfterVisiting(h, GetCommit(h)(c, cp).state, rest) == AfterVisiting(h, cp, [c] + rest)
  {
    assert ([c] + rest)[1..] == rest;
    var shown := Shown(h, cp.truncateTime, rest);
    if HiddenBy(h, cp.truncateTime, c) {
      assert Shown(h, cp.truncateTime, [c] + rest) == shown;
    } else {
      assert Shown(h, cp.truncateTime, [c] + rest) == [c] + shown;
      OneMoreCollected(cp, c, shown);
    }
  }

  lemma OneMoreCollected(cp: CollectParam, c: CommitId, shown: seq<CommitId>)
    requires !WindowFull(cp)
    ensures var commits := if cp.count >= cp.offset then [c] + cp.commits else cp.commits;
      Reverse(Collected(shown, cp.count + 1, cp.offset, cp.limit)) + commits
      == Reverse(Collected([c] + shown, cp.count, cp.offset, cp.limit)) + cp.commits
  {
    assert ([c] + shown)[1..] == shown;
    var tail := Collected(shown, cp.count + 1, cp.offset, cp.limit);
    var whole := Collected([c] + shown, cp.count, cp.offset, cp.limit);
    if cp.count >= cp.offset {
      assert whole == [c] + tail && whole[1..] == tail;
      assert Reverse(tail) + ([c] + cp.commits) == (Reverse(tail) + [c]) + cp.commits;
    } else {
      assert whole == [] + tail == tail;
    }
  }

  /** The head is always visited and counted. */
  lemma VisitHead(h: Commits, head: CommitId, offset: nat, limit: int, truncateTime: int)
    requires head in h
    ensures Loadable(h, Start(head)) && Start(head).queue != []
    ensures var below := if truncateTime == 0 then Pop(Start(head)) else Next(h, Start(head));
      Traverse(h, Start(head), GetCommit(h), CollectParam(offset, limit, 0, [], truncateTime, false), true, false)
      == Traverse(h, below, GetCommit(h),
                  CollectParam(offset, limit, 1, if offset == 0 then [head] else [], truncateTime, true), true, false)
  {
    var cp := CollectParam(offset, limit, 0, [], truncateTime, false);
    var r := GetCommit(h)(head, cp);
    assert [head] + cp.commits == [head];
    assert r == Answer(CollectParam(offset, limit, 1, if offset == 0 then [head] else [], truncateTime, true),
                       true, truncateTime == 0);
    NextIsSmaller(h, Start(head));
  }

  /** The traversal from the head, for an empty collection. */
  lemma CollectsWindow(h: Commits, head: CommitId, offset: nat, limit: int, truncateTime: int)
    requires head in h
    ensures Loadable(h, Start(head))
    ensures var r := Traverse(h, Start(head), GetCommit(h), CollectParam(offset, limit, 0, [], truncateTime, false), true, false);
      r.ok && Reverse(r.state.commits) == Window(ListedHistory(h, head, truncateTime), offset, limit)
  {
    var cp' := CollectParam(offset, limit, 1, if offset == 0 then [head] else [], truncateTime, true);
    var below := if truncateTime == 0 then Pop(Start(head)) else Next(h, Start(head));
    VisitHead(h, head, offset, limit, truncateTime);
    CollectsShown(h, below, cp');
    WindowFromHead(head, Shown(h, truncateTime, Order(Prune(h, CutAt(h, truncateTime)), below)), offset, limit);
  }

  lemma WindowFromHead(head: CommitId, shown: seq<CommitId>, offset: nat, limit: int)
    ensures Reverse(Reverse(Collected(shown, 1, offset, limit)) + (if offset == 0 then [head] else []))
            == Window([head] + shown, offset, limit)
  {
    var all, tail := [head] + shown, Collected(shown, 1, offset, limit);
    assert all[1..] == shown;
    ReverseTwice(tail, if offset == 0 then [head] else []);
    CollectedIsWindow(all, offset, limit);
  }

  /** Without truncation the listed history is the whole traversal order. */
  lemma NoTruncationListsAll(h: Commits, head: CommitId, truncateTime: int)
    requires head in h && truncateTime < 0
    ensures ListedHistory(h, head, truncateTime) == Order(h, Start(head))
  {
    var cut := CutAt(h, truncateTime);
    assert forall c :: c in h ==> !cut(c);
    assert Prune(h, cut) == h;
    NextIsSmaller(h, Start(head));
    ShowsAll(h, truncateTime, Order(h, Next(h, Start(head))));
  }

  lemma {:induction false} ShowsAll(h: Commits, truncateTime: int, cs: seq<CommitId>)
    requires truncateTime < 0
    ensures Shown(h, truncateTime, cs) == cs
  {
    if cs != [] {
      ShowsAll(h, truncateTime, cs[1..]);
      assert cs == [cs[0]] + cs[1..];
    }
  }

  // ---- what truncation leaves ----

  /** With everything cleaned only the head is listed. */
  lemma CleanedHistoryIsHead(h: Commits, head: CommitId)
    requires head in h
    ensures ListedHistory(h, head, 0) == [head]
  {
    assert Pop(Start(head)).queue == [];
  }

  /** The commits of a list that are newer than a time. */
  function NewerThan(h: Commits, time: int, cs: seq<CommitId>): seq<CommitId>
    requires AllIn(h, cs)
  {
    if cs == [] then []
    else if h[cs[0]].ctime > time then [cs[0]] + NewerThan(h, time, cs[1..])
    else NewerThan(h, time, cs[1..])
  }

  lemma {:induction false} ShownMembers(h: Commits, truncateTime: int, cs: seq<CommitId>)
    requires AllIn(h, cs) && truncateTime > 0
    ensures forall c :: c in Shown(h, truncateTime, cs) <==> c in cs && h[c].ctime > truncateTime
    ensures NoDuplicates(cs) ==> NoDuplicates(Shown(h, truncateTime, cs))
  {
    if cs != [] {
      ShownMembers(h, truncateTime, cs[1..]);
      assert cs == [cs[0]] + cs[1..];
      if NoDuplicates(cs) {
        forall j | 1 <= j < |cs| ensures cs[j] != cs[0] { }
        DistinctCons(cs[0], Shown(h, truncateTime, cs[1..]));
      }
    }
  }

  lemma DistinctCons(c: CommitId, cs: seq<CommitId>)
    requires NoDuplicates(cs)
    ensures c !in cs ==> NoDuplicates([c] + cs)
    ensures NoDuplicates([] + cs)
  {
    assert [] + cs == cs;
  }

  /** The history in which every commit up to a time, other than the head, has lost its parents. */
  function HistoryAfter(h: Commits, head: CommitId, time: int): Commits {
    Prune(h, UpTo(h, head, time))
  }

  function UpTo(h: Commits, head: CommitId, time: int): CommitId -> bool {
    (c: CommitId) => c != head && c in h && h[c].ctime <= time
  }

  lemma PrunedIsAcyclic(h: Commits, stop: CommitId -> bool)
    requires Acyclic(h)
    ensures Acyclic(Prune(h, stop))
  {
    var rank :| RankedBy(h, rank);
    assert forall c, p :: HasParent(Prune(h, stop), c, p) ==> HasParent(h, c, p);
    assert RankedBy(Prune(h, stop), rank);
  }

  /** Once the head is visited it does not matter whether it has parents. */
  lemma {:induction false} HeadIsPast(h: Commits, stop: CommitId -> bool, stop': CommitId -> bool, head: CommitId,
                                      fr: Frontier)
    requires Loadable(h, fr) && head in fr.seen && head !in fr.queue
    requires forall c :: c in h && c != head ==> stop(c) == stop'(c)
    ensures Loadable(Prune(h, stop), fr) && Loadable(Prune(h, stop'), fr)
    ensures Order(Prune(h, stop), fr) == Order(Prune(h, stop'), fr)
    decreases Unseen(h, fr), |fr.queue|
  {
    PruneKeepsUnseen(h, stop, fr);
    PruneKeepsUnseen(h, stop', fr);
    if fr.queue != [] {
      var rest := if stop(fr.queue[0]) then Pop(fr) else Next(h, fr);
      PrunedNext(h, stop, fr);
      PrunedNext(h, stop', fr);
      NextIsSmaller(h, fr);
      NextIsSmaller(Prune(h, stop), fr);
      NextIsSmaller(Prune(h, stop'), fr);
      NewInQueue(h, fr, head);
      HeadIsPast(h, stop, stop', head, rest);
    }
  }

  lemma NewInQueue(h: Commits, fr: Frontier, x: CommitId)
    requires Loadable(h, fr) && fr.queue != [] && x in fr.seen && x !in fr.queue
    ensures x in Next(h, fr).seen && x !in Next(h, fr).queue && x !in Pop(fr).queue
  {
  }

  /** Whatever the times: the listed history holds, each once, the head and the commits newer than
      the truncation time that the head reaches through commits newer than it. */
  lemma ListedExactly(h: Commits, head: CommitId, truncateTime: int)
    requires Acyclic(h) && head in h && truncateTime > 0
    ensures Acyclic(HistoryAfter(h, head, truncateTime)) && head in HistoryAfter(h, head, truncateTime)
    ensures NoDuplicates(ListedHistory(h, head, truncateTime))
    ensures forall c :: c in ListedHistory(h, head, truncateTime) <==>
              (c == head ||
               (c in Reach(HistoryAfter(h, head, truncateTime), head) && c in h && h[c].ctime > truncateTime))
  {
    var stop, cut, after := UpTo(h, head, truncateTime), Prune(h, CutAt(h, truncateTime)), HistoryAfter(h, head, truncateTime);
    var below := Next(h, Start(head));
    PrunedIsAcyclic(h, stop);
    EveryReachableCommitOnce(after, head);
    StartIsTidy(h, head);
    NextFacts(h, Start(head));
    PrunedNext(h, stop, Start(head));
    NextIsSmaller(after, Start(head));
    NoLoop(h, head);
    HeadIsPast(h, CutAt(h, truncateTime), stop, head, below);
    var order := Order(after, below);
    assert Order(after, Start(head)) == [head] + order;
    TailIsDistinct(head, order);
    forall c | c in order ensures c in h { assert c in Order(after, Start(head)); OrderIsLoadable(after, below); }
    ShownMembers(h, truncateTime, order);
    DistinctCons(head, Shown(h, truncateTime, order));
    forall c ensures c in Reach(after, head) <==> c == head || c in order {
      assert c in Elements(Order(after, Start(head))) <==> c in [head] + order;
    }
  }

  lemma NoLoop(h: Commits, c: CommitId)
    requires Acyclic(h)
    ensures !HasParent(h, c, c)
  {
    ParentsRankLower(h);
  }

  lemma TailIsDistinct(c: CommitId, cs: seq<CommitId>)
    requires NoDuplicates([c] + cs)
    ensures NoDuplicates(cs) && c !in cs
  {
    var all := [c] + cs;
    forall j | 0 <= j < |cs| ensures cs[j] != c { assert all[j + 1] == cs[j] && all[0] == c; }
    forall i, j | 0 <= i < j < |cs| ensures cs[i] != cs[j] { assert all[i + 1] != all[j + 1]; }
  }

  /** Below a commit that is not newer than the time, nothing is. */
  lemma NothingNewer(h: Commits, fr: Frontier, time: int)
    requires Tidy(h, fr) && TimesClose(h) && ParentsOlder(h) && NewestFirst(h, fr.queue)
    requires fr.queue != [] && h[fr.queue[0]].ctime <= time
    ensures AllIn(h, Order(h, fr)) && NewerThan(h, time, Order(h, fr)) == []
  {
    OrderIsNewestFirst(h, fr);
    NoneNewer(h, time, Order(h, fr));
  }

  lemma {:induction false} NoneNewer(h: Commits, time: int, cs: seq<CommitId>)
    requires AllIn(h, cs) && forall c :: c in cs ==> h[c].ctime <= time
    ensures NewerThan(h, time, cs) == []
  {
    if cs != [] {
      NoneNewer(h, time, cs[1..]);
    }
  }

  lemma {:induction false} ShownIsNewer(h: Commits, truncateTime: int, cs: seq<CommitId>)
    requires AllIn(h, cs) && truncateTime > 0
    ensures Shown(h, truncateTime, cs) == NewerThan(h, truncateTime, cs)
  {
    if cs != [] {
      ShownIsNewer(h, truncateTime, cs[1..]);
      assert [] + Shown(h, truncateTime, cs[1..]) == Shown(h, truncateTime, cs[1..]);
    }
  }

  /** Cutting parents off keeps what the order theorems need. */
  lemma PruneKeepsOrder(h: Commits, stop: CommitId -> bool, fr: Frontier)
    requires Tidy(h, fr) && TimesClose(h) && ParentsOlder(h) && NewestFirst(h, fr.queue)
    ensures var cut := Prune(h, stop);
      && Tidy(cut, fr) && TimesClose(cut) && ParentsOlder(cut) && NewestFirst(cut, fr.queue)
      && h.Keys == cut.Keys
      && forall c :: c in h ==> h[c].ctime == cut[c].ctime
  {
    var cut := Prune(h, stop);
    assert forall c, p :: HasParent(cut, c, p) ==> HasParent(h, c, p);
  }

  lemma {:induction false} NewerInBoth(h: Commits, cut: Commits, time: int, cs: seq<CommitId>)
    requires AllIn(cut, cs) && AllIn(h, cs) && forall c :: c in h && c in cut ==> h[c].ctime == cut[c].ctime
    ensures NewerThan(h, time, cs) == NewerThan(cut, time, cs)
  {
    if cs != [] {
      NewerInBoth(h, cut, time, cs[1..]);
    }
  }

  /** The traversal of the cut history shows what is newer in the traversal of the whole one. */
  lemma {:induction false} ShowsTheNewer(h: Commits, truncateTime: int, fr: Frontier)
    requires Tidy(h, fr) && TimesClose(h) && ParentsOlder(h) && NewestFirst(h, fr.queue) && truncateTime > 0
    ensures Loadable(Prune(h, CutAt(h, truncateTime)), fr) && AllIn(h, Order(h, fr))
    ensures Shown(h, truncateTime, Order(Prune(h, CutAt(h, truncateTime)), fr))
            == NewerThan(h, truncateTime, Order(h, fr))
    decreases Unseen(h, fr), |fr.queue|
  {
    var cut := Prune(h, CutAt(h, truncateTime));
    OrderIsLoadable(h, fr);
    PruneKeepsOrder(h, CutAt(h, truncateTime), fr);
    OrderIsLoadable(cut, fr);
    if fr.queue != [] {
      CutNext(h, truncateTime, fr);
      if h[fr.queue[0]].ctime <= truncateTime {
        NothingNewer(h, fr, truncateTime);
        NothingNewer(cut, fr, truncateTime);
        ShownIsNewer(h, truncateTime, Order(cut, fr));
        NewerInBoth(h, cut, truncateTime, Order(cut, fr));
      } else {
        NextIsSmaller(h, fr);
        NextFacts(h, fr);
        NextKeepsOrder(h, fr);
        ShowsTheNewer(h, truncateTime, Next(h, fr));
        assert ([fr.queue[0]] + Order(cut, Next(h, fr)))[1..] == Order(cut, Next(h, fr));
      }
    }
  }

  /** With parents older than children, the listed history is the traversal order without the commits,
      other than the head, that are not newer than the truncation time. */
  lemma ListedIsNewer(h: Commits, head: CommitId, truncateTime: int)
    requires head in h && TimesClose(h) && ParentsOlder(h) && truncateTime > 0
    ensures Order(h, Start(head)) != [] && AllIn(h, Order(h, Start(head))[1..])
    ensures ListedHistory(h, head, truncateTime) == [head] + NewerThan(h, truncateTime, Order(h, Start(head))[1..])
  {
    StartIsTidy(h, head);
    NextIsSmaller(h, Start(head));
    NextFacts(h, Start(head));
    NextKeepsOrder(h, Start(head));
    ShowsTheNewer(h, truncateTime, Next(h, Start(head)));
    assert Order(h, Start(head))[1..] == Order(h, Next(h, Start(head)));
  }

  /** The window holds what stands at offset, offset + 1, ..., up to the limit or the end. */
  lemma WindowIsSlice(cs: seq<CommitId>, offset: nat, limit: int)
    ensures var window := Window(cs, offset, limit);
      && (forall k :: 0 <= k < |window| ==> offset + k < |cs| && window[k] == cs[offset + k])
      && (limit > 0 ==> |window| <= limit)
      && (offset + |window| < |cs| ==> limit > 0 && |window| == limit)
  {
  }

  /** seafile_get_commit_list, from a known head: exactly the window [offset, offset + limit) of
      the listed history, although the callback can stop only one branch at a time. */
  method GetCommitList(h: Commits, head: CommitId, offset: int, limit: int, truncateTime: int)
    returns (commits: Option<seq<CommitId>>)
    ensures head !in h ==> commits == None
    ensures head in h ==>
              commits == Some(Window(ListedHistory(h, head, truncateTime), if offset < 0 then 0 else offset, limit))
    ensures head in h && truncateTime < 0 ==>
              commits == Some(Window(Order(h, Start(head)), if offset < 0 then 0 else offset, limit))
  {
    var from := offset;
    if from < 0 {
      from := 0;
    }
    if head in h {
      CollectsWindow(h, head, from, limit, truncateTime);
      if truncateTime < 0 { NoTruncationListsAll(h, head, truncateTime); }
    }
    var cp := CollectParam(from, limit, 0, [], truncateTime, false);
    var ret;
    ret, cp := TraverseCommitTree(h, head, GetCommit(h), cp, true, false);
    if !ret {
      return None;
    }
    return Some(Reverse(cp.commits));
  }
}
