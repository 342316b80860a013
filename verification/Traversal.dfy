/** Traversal of the commit graph: a queue ordered by time, a set of commits ever queued, and a
    callback that may fail or stop the branch below a commit. */
module Traversal {
  import opened Names
  import opened History

  /** A 64-bit difference squeezed into a 32-bit signed integer. */
  function Narrow32(d: int): int {
    (d + 0x8000_0000) % 0x1_0000_0000 - 0x8000_0000
  }

  /** compare_commit_by_time: negative or zero when `a` belongs before `b`. */
  function CompareByTime(h: Commits, a: CommitId, b: CommitId): int
    requires a in h && b in h
  {
    Narrow32(h[b].ctime - h[a].ctime)
  }

  predicate AllIn(h: Commits, list: seq<CommitId>) {
    forall c :: c in list ==> c in h
  }

  /** g_list_insert_sorted: before the first element not ahead of the new one. */
  function InsertSorted(h: Commits, list: seq<CommitId>, c: CommitId): (r: seq<CommitId>)
    requires AllIn(h, list) && c in h
    ensures AllIn(h, r) && |r| == |list| + 1
    ensures forall x :: x in r <==> x == c || x in list
  {
    if list == [] then [c]
    else if CompareByTime(h, c, list[0]) > 0 then [list[0]] + InsertSorted(h, list[1..], c)
    else [c] + list
  }

  /** The queue, and every commit that was ever in it. */
  datatype Frontier = Frontier(queue: seq<CommitId>, seen: set<CommitId>)

  function Start(head: CommitId): Frontier {
    Frontier([head], {head})
  }

  predicate Loadable(h: Commits, fr: Frontier) {
    AllIn(h, fr.queue)
  }

  /** insert_parent_commit, where the parent can be loaded or is skipped. */
  function InsertParent(h: Commits, fr: Frontier, p: Option<CommitId>): (r: Frontier)
    requires Loadable(h, fr)
    ensures Loadable(h, r) && fr.seen <= r.seen
  {
    if p.None? || p.value in fr.seen || p.value !in h then fr
    else Frontier(InsertSorted(h, fr.queue, p.value), fr.seen + {p.value})
  }

  predicate Missing(h: Commits, fr: Frontier, p: Option<CommitId>) {
    p.Some? && p.value !in fr.seen && p.value !in h
  }

  function Pop(fr: Frontier): Frontier
    requires fr.queue != []
  {
    fr.(queue := fr.queue[1..])
  }

  /** The frontier once the first queued commit has been replaced by its parents. */
  function Next(h: Commits, fr: Frontier): (r: Frontier)
    requires Loadable(h, fr) && fr.queue != []
    ensures Loadable(h, r) && fr.seen <= r.seen
  {
    var c := fr.queue[0];
    InsertParent(h, InsertParent(h, Pop(fr), h[c].parent), h[c].second)
  }

  function Unseen(h: Commits, fr: Frontier): nat {
    |h.Keys - fr.seen|
  }

  lemma InsertingUsesUnseen(h: Commits, fr: Frontier, p: Option<CommitId>)
    requires Loadable(h, fr)
    ensures var r := InsertParent(h, fr, p);
      Unseen(h, r) < Unseen(h, fr) || (r == fr && Unseen(h, r) == Unseen(h, fr))
  {
    var r := InsertParent(h, fr, p);
    if r != fr {
      assert h.Keys - r.seen == (h.Keys - fr.seen) - {p.value};
      assert p.value in h.Keys - fr.seen;
    }
  }

  lemma NextIsSmaller(h: Commits, fr: Frontier)
    requires Loadable(h, fr) && fr.queue != []
    ensures var r := Next(h, fr);
      Unseen(h, r) < Unseen(h, fr) || (Unseen(h, r) == Unseen(h, fr) && |r.queue| < |fr.queue|)
  {
    var c := fr.queue[0];
    InsertingUsesUnseen(h, Pop(fr), h[c].parent);
    InsertingUsesUnseen(h, InsertParent(h, Pop(fr), h[c].parent), h[c].second);
  }

  /** The order in which a traversal that never fails or stops visits commits. */
  function Order(h: Commits, fr: Frontier): seq<CommitId>
    requires Loadable(h, fr)
    decreases Unseen(h, fr), |fr.queue|
  {
    if fr.queue == [] then []
    else
      NextIsSmaller(h, fr);
      [fr.queue[0]] + Order(h, Next(h, fr))
  }

  // ---- the traversal with a callback ----

  /** What the callback answers: its new state, whether it succeeded, whether to stop here. */
  datatype Answer<S> = Answer(state: S, ok: bool, stop: bool)

  /** The final state, and whether the traversal succeeded. */
  datatype Outcome<S> = Outcome(state: S, ok: bool)

  function Traverse<S>(h: Commits, fr: Frontier, func: (CommitId, S) -> Answer<S>, s: S,
                       skipErrors: bool, allowTruncate: bool): Outcome<S>
    requires Loadable(h, fr)
    decreases Unseen(h, fr), |fr.queue|
  {
    if fr.queue == [] then Outcome(s, true)
    else
      var c := fr.queue[0];
      var r := func(c, s);
      if !r.ok && !skipErrors then Outcome(r.state, false)
      else if r.stop then Traverse(h, Pop(fr), func, r.state, skipErrors, allowTruncate)
      else if MissesParent(h, fr) && !allowTruncate && !skipErrors then Outcome(r.state, false)
      else
        NextIsSmaller(h, fr);
        Traverse(h, Next(h, fr), func, r.state, skipErrors, allowTruncate)
  }

  /** Some parent of the first queued commit cannot be loaded. */
  predicate MissesParent(h: Commits, fr: Frontier)
    requires Loadable(h, fr) && fr.queue != []
  {
    var c := fr.queue[0];
    Missing(h, Pop(fr), h[c].parent) || Missing(h, InsertParent(h, Pop(fr), h[c].parent), h[c].second)
  }

  /** insert_parent_commit */
  method InsertParentCommit(h: Commits, list: seq<CommitId>, hash: set<CommitId>, parent: CommitId, allowTruncate: bool)
    returns (ok: bool, list': seq<CommitId>, hash': set<CommitId>)
    requires AllIn(h, list)
    ensures Frontier(list', hash') == InsertParent(h, Frontier(list, hash), Some(parent))
    ensures ok == !(Missing(h, Frontier(list, hash), Some(parent)) && !allowTruncate)
  {
    if parent in hash {
      return true, list, hash;
    }
    if parent !in h {
      return allowTruncate, list, hash;
    }
    return true, InsertSorted(h, list, parent), hash + {parent};
  }

  /** Both parents of a popped commit enter the queue; a failure is fatal unless errors are
      skipped. */
  method InsertParents(h: Commits, c: CommitId, ghost fr: Frontier, list: seq<CommitId>, hash: set<CommitId>,
                       skipErrors: bool, allowTruncate: bool)
    returns (ok: bool, list': seq<CommitId>, hash': set<CommitId>)
    requires Loadable(h, fr) && fr.queue != [] && c == fr.queue[0] && Frontier(list, hash) == Pop(fr)
    ensures ok == !(MissesParent(h, fr) && !allowTruncate && !skipErrors)
    ensures ok ==> Frontier(list', hash') == Next(h, fr)
  {
    list', hash' := list, hash;
    var commit := h[c];
    if commit.parent.Some? {
      ok, list', hash' := InsertParentCommit(h, list', hash', commit.parent.value, allowTruncate);
      if !ok && !skipErrors {
        return;
      }
    }
    if commit.second.Some? {
      ok, list', hash' := InsertParentCommit(h, list', hash', commit.second.value, allowTruncate);
      if !ok && !skipErrors {
        return;
      }
    }
    ok := true;
  }

  /** traverse_commit_tree_common: visits from `head`, newest first, each commit once. */
  method TraverseCommitTree<S>(h: Commits, head: CommitId, func: (CommitId, S) -> Answer<S>, data: S,
                               skipErrors: bool, allowTruncate: bool)
    returns (ret: bool, data': S)
    ensures head !in h ==> !ret && data' == data
    ensures head in h ==> Outcome(data', ret) == Traverse(h, Start(head), func, data, skipErrors, allowTruncate)
  {
    ret, data' := true, data;
    if head !in h {
      return false, data;
    }
    var list := [head];
    var commitHash := {head};
    ghost var whole := Traverse(h, Start(head), func, data, skipErrors, allowTruncate);

    while list != []
      invariant AllIn(h, list)
      invariant whole == Traverse(h, Frontier(list, commitHash), func, data', skipErrors, allowTruncate)
      decreases Unseen(h, Frontier(list, commitHash)), |list|
    {
      ghost var fr := Frontier(list, commitHash);
      NextIsSmaller(h, fr);
      var commit := list[0];
      list := list[1..];

      var r := func(commit, data');
      data' := r.state;
      if !r.ok && !skipErrors {
        return false, data';
      }
      if r.stop {
        continue;
      }
      var ok;
      ok, list, commitHash := InsertParents(h, commit, fr, list, commitHash, skipErrors, allowTruncate);
      if !ok {
        return false, data';
      }
    }
  }
}
