/** Common ancestors, the best ones among them, and how a traversal that stops at the first
    common ancestors meets them. */
module CommonAncestors {
  import opened History
  import opened Traversal
  import opened TraversalOrder

  /** The commits reachable from `one` and from some of `twos`. */
  ghost function Common(h: Commits, one: CommitId, twos: set<CommitId>): set<CommitId>
    requires Acyclic(h) && one in h && twos <= h.Keys
  {
    Reach(h, one) * ReachAll(h, twos)
  }

  /** `x` is a proper ancestor of `y`. */
  ghost predicate Below(h: Commits, x: CommitId, y: CommitId)
    requires Acyclic(h) && y in h
  {
    x != y && x in Reach(h, y)
  }

  /** The commits of a set that are ancestors of no other commit of the set. */
  ghost function Maximal(h: Commits, cs: set<CommitId>): set<CommitId>
    requires Acyclic(h) && cs <= h.Keys
  {
    set x | x in cs && forall y :: y in cs ==> !Below(h, x, y)
  }

  /** Sets that contain all ancestors of their members. */
  ghost predicate DownClosed(h: Commits, cs: set<CommitId>)
    requires Acyclic(h)
  {
    cs <= h.Keys && forall c :: c in cs ==> Reach(h, c) <= cs
  }

  lemma CommonIsDownClosed(h: Commits, one: CommitId, twos: set<CommitId>)
    requires Acyclic(h) && one in h && twos <= h.Keys
    ensures DownClosed(h, Common(h, one, twos))
  {
    ReachIsLoadable(h, one);
    forall c | c in Common(h, one, twos) ensures Reach(h, c) <= Common(h, one, twos) {
      ReachIsTransitive(h, one, c);
      var t :| t in twos && c in Reach(h, t);
      ReachIsTransitive(h, t, c);
      ReachAllContains(h, twos, t);
    }
  }

  lemma BelowIsTransitive(h: Commits, x: CommitId, y: CommitId, z: CommitId)
    requires Acyclic(h) && y in h && z in h && x in Reach(h, y) && Below(h, y, z)
    ensures Below(h, x, z)
  {
    ReachIsTransitive(h, z, y);
    if x == z {
      ReachIsAntisymmetric(h, z, y);
    }
  }

  /** Every commit of a set lies at or below a maximal one. */
  lemma {:induction false} MaximalAbove(h: Commits, cs: set<CommitId>, x: CommitId) returns (m: CommitId)
    requires Acyclic(h) && cs <= h.Keys && x in cs
    ensures m in Maximal(h, cs) && x in Reach(h, m)
    decreases |set y | y in cs && Below(h, x, y)|
  {
    ReachStep(h, x, x);
    if y :| y in cs && Below(h, x, y) {
      var above, above' := set z | z in cs && Below(h, x, z), set z | z in cs && Below(h, y, z);
      forall z | z in above' ensures z in above {
        BelowIsTransitive(h, x, y, z);
      }
      assert y in above && y !in above';
      assert above' <= above - {y};
      SmallerSet(above', above - {y});
      m := MaximalAbove(h, cs, y);
      ReachIsTransitive(h, m, y);
    } else {
      m := x;
    }
  }

  lemma SmallerSet(a: set<CommitId>, b: set<CommitId>)
    requires a <= b
    ensures |a| <= |b|
    decreases b
  {
    if a != b {
      assert !(b <= a);
      var x :| x in b && x !in a;
      SmallerSet(a, b - {x});
    }
  }

  /** A member of a down-closed set shares strictly fewer ancestors with one other member, or with
      members it is not an ancestor of, than the set has members: this is why the search for best
      common ancestors ends. */
  lemma FewerCommon(h: Commits, all: set<CommitId>, a: CommitId, bs: set<CommitId>)
    requires Acyclic(h) && DownClosed(h, all) && a in all && bs <= all && a !in bs
    requires forall b :: b in bs ==> bs == {b} || !Below(h, a, b)
    ensures |Common(h, a, bs)| < |all|
  {
    var c := Common(h, a, bs);
    assert c <= all;
    if all <= c {
      ReachStep(h, a, a);
      var b :| b in bs && a in Reach(h, b);
      assert b in c;
      ReachIsAntisymmetric(h, a, b);
    } else {
      var x :| x in all && x !in c;
      SmallerSet(c, all - {x});
    }
  }

  // ---- the traversal that stops at common ancestors ----

  /** The callback that collects all commit ids. */
  function AddToHash(c: CommitId, hash: set<CommitId>): Answer<set<CommitId>> {
    Answer(hash + {c}, true, false)
  }

  /** get_merge_bases: collect a commit of `hash` and go no further there. */
  function GetMergeBases(h: Commits, hash: set<CommitId>): (CommitId, seq<CommitId>) -> Answer<seq<CommitId>> {
    (c: CommitId, result: seq<CommitId>) =>
      if c in hash then
        Answer(if c in result || c !in h || !AllIn(h, result) then result else InsertSorted(h, result, c), true, true)
      else Answer(result, true, false)
  }

  function InHash(hash: set<CommitId>): CommitId -> bool {
    (c: CommitId) => c in hash
  }

  function Never(): CommitId -> bool {
    (c: CommitId) => false
  }

  lemma {:induction false} HashCollects(cs: seq<CommitId>, hash: set<CommitId>)
    ensures FoldStates(AddToHash, hash, cs) == hash + Elements(cs)
  {
    if cs != [] {
      HashCollects(cs[1..], hash + {cs[0]});
      assert cs == [cs[0]] + cs[1..];
    }
  }

  lemma {:induction false} BasesCollect(h: Commits, hash: set<CommitId>, cs: seq<CommitId>, result: seq<CommitId>)
    requires AllIn(h, cs) && AllIn(h, result) && NoDuplicates(result)
    ensures var r := FoldStates(GetMergeBases(h, hash), result, cs);
      && AllIn(h, r) && NoDuplicates(r)
      && Elements(r) == Elements(result) + Elements(cs) * hash
  {
    if cs != [] {
      var c, func := cs[0], GetMergeBases(h, hash);
      var result' := func(c, result).state;
      if c in hash && c !in result {
        InsertKeepsDistinct(h, result, c);
      }
      BasesCollect(h, hash, cs[1..], result');
      assert cs == [c] + cs[1..];
    }
  }

  lemma PrunedIsAcyclic(h: Commits, stop: CommitId -> bool)
    requires Acyclic(h)
    ensures Prune(h, stop).Keys == h.Keys
    ensures Acyclic(Prune(h, stop))
  {
    var h' := Prune(h, stop);
    assert h'.Keys == h.Keys;
    var rank :| RankedBy(h, rank);
    forall c, p | HasParent(h', c, p) ensures rank[p] < rank[c] {
      assert HasParent(h, c, p);
    }
    assert RankedBy(h', rank);
  }

  /** Pruning only removes ways. */
  lemma {:induction false} PrunedReach(h: Commits, stop: CommitId -> bool, x: CommitId, y: CommitId)
    requires Acyclic(h) && Acyclic(Prune(h, stop)) && x in h
    requires x in Prune(h, stop) && y in Reach(Prune(h, stop), x)
    ensures y in Reach(h, x)
    decreases Rank(h, x)
  {
    var h' := Prune(h, stop);
    ReachStep(h', x, y);
    ReachStep(h, x, y);
    if y != x {
      var p :| HasParent(h', x, p) && y in Reach(h', p);
      assert HasParent(h, x, p);
      ParentsRankLower(h);
      PrunedReach(h, stop, p, y);
    }
  }

  /** A best common ancestor is met although the traversal stops at every common ancestor. */
  lemma {:induction false} MaximalIsMet(h: Commits, hash: set<CommitId>, two: CommitId, x: CommitId, m: CommitId)
    requires Acyclic(h) && Acyclic(Prune(h, InHash(hash))) && two in h && x in h
    requires x in Prune(h, InHash(hash)) && x in Reach(h, two) && m in Reach(h, x)
    requires forall d :: d in hash && d in Reach(h, two) && d in h ==> !Below(h, m, d)
    ensures m in Reach(Prune(h, InHash(hash)), x)
    decreases Rank(h, x)
  {
    var h' := Prune(h, InHash(hash));
    ReachStep(h, x, m);
    ReachStep(h', x, m);
    if m != x {
      assert x !in hash;
      ParentsRankLower(h);
      var p :| HasParent(h, x, p) && m in Reach(h, p);
      assert HasParent(h', x, p);
      ReachStep(h, p, p);
      ReachStep(h, x, p);
      ReachIsTransitive(h, two, x);
      MaximalIsMet(h, hash, two, p, m);
    }
  }
}
