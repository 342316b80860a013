/** The commit graph: which commits are loadable, their parents, and reachability. */
module History {
  import opened Names

  type CommitId = string

  /** body stands for everything else that a commit object holds: its root, description, author and
      keys. */
  datatype Commit = Commit(ctime: int, parent: Option<CommitId>, second: Option<CommitId>, body: string)

  /** The loadable commits.  A parent id without a commit is a missing commit. */
  type Commits = map<CommitId, Commit>

  predicate HasParent(h: Commits, c: CommitId, p: CommitId) {
    c in h && p in h && (h[c].parent == Some(p) || h[c].second == Some(p))
  }

  /** Nothing is missing: every parent can be loaded. */
  predicate Complete(h: Commits) {
    forall c :: c in h ==>
      && (h[c].parent.Some? ==> h[c].parent.value in h)
      && (h[c].second.Some? ==> h[c].second.value in h)
  }

  ghost predicate RankedBy(h: Commits, rank: map<CommitId, nat>) {
    h.Keys <= rank.Keys && forall c, p :: HasParent(h, c, p) ==> rank[p] < rank[c]
  }

  /** No commit is its own ancestor: parents can be ranked below their children. */
  ghost predicate Acyclic(h: Commits) {
    exists rank :: RankedBy(h, rank)
  }

  ghost function Rank(h: Commits, c: CommitId): nat
    requires Acyclic(h) && c in h
  {
    var rank :| RankedBy(h, rank);
    rank[c]
  }

  lemma ParentsRankLower(h: Commits)
    requires Acyclic(h)
    ensures forall c, p :: HasParent(h, c, p) ==> Rank(h, p) < Rank(h, c)
  {
  }

  /** A commit and all its ancestors, as far as they can be loaded. */
  ghost function Reach(h: Commits, c: CommitId): set<CommitId>
    requires Acyclic(h) && c in h
    decreases Rank(h, c)
  {
    ParentsRankLower(h);
    var p, q := h[c].parent, h[c].second;
    {c}
    + (if p.Some? && p.value in h then assert HasParent(h, c, p.value); Reach(h, p.value) else {})
    + (if q.Some? && q.value in h then assert HasParent(h, c, q.value); Reach(h, q.value) else {})
  }

  lemma {:induction false} ReachIsLoadable(h: Commits, c: CommitId)
    requires Acyclic(h) && c in h
    ensures Reach(h, c) <= h.Keys
    decreases Rank(h, c)
  {
    ParentsRankLower(h);
    forall p | HasParent(h, c, p) ensures Reach(h, p) <= h.Keys {
      ReachIsLoadable(h, p);
    }
    var p, q := h[c].parent, h[c].second;
    assert p.Some? && p.value in h ==> HasParent(h, c, p.value);
    assert q.Some? && q.value in h ==> HasParent(h, c, q.value);
  }

  /** A commit reaches itself and what its parents reach, and nothing else. */
  lemma ReachStep(h: Commits, c: CommitId, y: CommitId)
    requires Acyclic(h) && c in h
    ensures y in Reach(h, c) <==> y == c || exists p :: HasParent(h, c, p) && y in Reach(h, p)
  {
    var p, q := h[c].parent, h[c].second;
    assert p.Some? && p.value in h ==> HasParent(h, c, p.value);
    assert q.Some? && q.value in h ==> HasParent(h, c, q.value);
  }

  lemma {:induction false} ReachIsTransitive(h: Commits, c: CommitId, y: CommitId)
    requires Acyclic(h) && c in h && y in Reach(h, c)
    ensures y in h && Reach(h, y) <= Reach(h, c)
    decreases Rank(h, c)
  {
    ReachIsLoadable(h, c);
    ReachStep(h, c, y);
    if y != c {
      ParentsRankLower(h);
      var p :| HasParent(h, c, p) && y in Reach(h, p);
      ReachIsTransitive(h, p, y);
      forall z | z in Reach(h, p) ensures z in Reach(h, c) {
        ReachStep(h, c, z);
      }
    }
  }

  lemma {:induction false} AncestorsRankLower(h: Commits, c: CommitId, y: CommitId)
    requires Acyclic(h) && c in h && y in Reach(h, c) && y != c
    ensures y in h && Rank(h, y) < Rank(h, c)
    decreases Rank(h, c)
  {
    ReachIsLoadable(h, c);
    ReachStep(h, c, y);
    ParentsRankLower(h);
    var p :| HasParent(h, c, p) && y in Reach(h, p);
    if y != p {
      AncestorsRankLower(h, p, y);
    }
  }

  /** Two commits that reach each other are one. */
  lemma ReachIsAntisymmetric(h: Commits, c: CommitId, y: CommitId)
    requires Acyclic(h) && c in h && y in Reach(h, c) && y in h && c in Reach(h, y)
    ensures c == y
  {
    if c != y {
      AncestorsRankLower(h, c, y);
      AncestorsRankLower(h, y, c);
    }
  }

  /** Everything reachable from a set of commits. */
  ghost function ReachAll(h: Commits, cs: set<CommitId>): set<CommitId>
    requires Acyclic(h) && cs <= h.Keys
  {
    set y | y in h && exists c :: c in cs && y in Reach(h, c)
  }

  lemma ReachAllContains(h: Commits, cs: set<CommitId>, c: CommitId)
    requires Acyclic(h) && cs <= h.Keys && c in cs
    ensures Reach(h, c) <= ReachAll(h, cs) && c in ReachAll(h, cs)
  {
    ReachIsLoadable(h, c);
    ReachStep(h, c, c);
  }

  /** Every commit but those in `open` has its parents in the set. */
  ghost predicate ClosedExcept(h: Commits, cs: set<CommitId>, open: set<CommitId>) {
    forall c, p :: c in cs && c !in open && HasParent(h, c, p) ==> p in cs
  }

  /** What a set reaches is the set itself and what its open commits reach. */
  lemma {:induction false} OpenCommitsReachTheRest(h: Commits, cs: set<CommitId>, open: set<CommitId>, c: CommitId, y: CommitId)
    requires Acyclic(h) && cs <= h.Keys && open <= cs && ClosedExcept(h, cs, open)
    requires c in cs && y in Reach(h, c)
    ensures y in cs || y in ReachAll(h, open)
    decreases Rank(h, c)
  {
    if c in open {
      ReachAllContains(h, open, c);
    } else {
      ReachStep(h, c, y);
      if y != c {
        ParentsRankLower(h);
        var p :| HasParent(h, c, p) && y in Reach(h, p);
        OpenCommitsReachTheRest(h, cs, open, p, y);
      }
    }
  }
}
