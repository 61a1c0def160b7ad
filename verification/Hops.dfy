/** Walks and hop distances in a directed graph given by its edges. */
module Hops {
  type Edges = set<(int, int)>

  ghost predicate StepAt(es: Edges, p: seq<int>, i: nat)
    requires i + 1 < |p|
  {
    (p[i], p[i + 1]) in es
  }

  /** `p` lists the vertices of a walk of `k` edges from `u` to `v`. */
  ghost predicate IsWalk(es: Edges, p: seq<int>, u: int, v: int, k: nat)
  {
    |p| == k + 1 && p[0] == u && p[k] == v && forall i: nat :: i < k ==> StepAt(es, p, i)
  }

  /** There is a walk of exactly `k` edges from `u` to `v`. */
  ghost predicate Walk(es: Edges, u: int, v: int, k: nat)
  {
    exists p :: IsWalk(es, p, u, v, k)
  }

  lemma StayWalk(es: Edges, u: int)
    ensures Walk(es, u, u, 0)
  {
    assert IsWalk(es, [u], u, u, 0);
  }

  lemma NoEdges(es: Edges, u: int, v: int)
    requires Walk(es, u, v, 0)
    ensures u == v
  {}

  lemma WalkOn(es: Edges, u: int, w: int, v: int, k: nat)
    requires Walk(es, u, w, k) && (w, v) in es
    ensures Walk(es, u, v, k + 1)
  {
    var p :| IsWalk(es, p, u, w, k);
    var q := p + [v];
    forall i: nat | i < k + 1 ensures StepAt(es, q, i) {
      if i < k { assert StepAt(es, p, i); }
    }
    assert IsWalk(es, q, u, v, k + 1);
  }

  lemma LastStep(es: Edges, u: int, v: int, k: nat) returns (w: int)
    requires Walk(es, u, v, k) && 0 < k
    ensures Walk(es, u, w, k - 1) && (w, v) in es
  {
    var p :| IsWalk(es, p, u, v, k);
    w := p[k - 1];
    var q := p[..k];
    forall i: nat | i < k - 1 ensures StepAt(es, q, i) {
      assert StepAt(es, p, i);
    }
    assert IsWalk(es, q, u, w, k - 1);
    assert StepAt(es, p, k - 1);
  }

  /** `d` is the hop distance from `u` to `v`. */
  ghost predicate IsHop(es: Edges, u: int, v: int, d: nat)
  {
    Walk(es, u, v, d) && forall k: nat :: k < d ==> !Walk(es, u, v, k)
  }

  lemma HopIsUnique(es: Edges, u: int, v: int, d: nat, e: nat)
    requires IsHop(es, u, v, d) && IsHop(es, u, v, e)
    ensures d == e
  {}

  lemma {:induction false} WalksJoin(es: Edges, u: int, v: int, w: int, j: nat, k: nat)
    requires Walk(es, u, v, j) && Walk(es, v, w, k)
    ensures Walk(es, u, w, j + k)
    decreases k
  {
    if k == 0 {
      NoEdges(es, v, w);
    } else {
      var x := LastStep(es, v, w, k);
      WalksJoin(es, u, v, x, j, k - 1);
      WalkOn(es, u, x, w, j + k - 1);
    }
  }

  lemma EdgeIsWalk(es: Edges, u: int, v: int)
    requires (u, v) in es
    ensures Walk(es, u, v, 1)
  {
    StayWalk(es, u);
    WalkOn(es, u, u, v, 0);
  }

  /** Some walk is a shortest one. */
  lemma {:induction false} ShortestExists(es: Edges, u: int, v: int, k: nat) returns (d: nat)
    requires Walk(es, u, v, k)
    ensures IsHop(es, u, v, d) && d <= k
    decreases k
  {
    if j: nat :| j < k && Walk(es, u, v, j) {
      d := ShortestExists(es, u, v, j);
    } else {
      d := k;
    }
  }

  /** The vertex before the last on a shortest walk is one hop nearer. */
  lemma PrefixIsShortest(es: Edges, u: int, v: int, d: nat) returns (w: int)
    requires IsHop(es, u, v, d) && 0 < d
    ensures IsHop(es, u, w, d - 1) && (w, v) in es
  {
    w := LastStep(es, u, v, d);
    forall k: nat | k < d - 1 ensures !Walk(es, u, w, k) {
      if Walk(es, u, w, k) { WalkOn(es, u, w, v, k); }
    }
  }

  ghost predicate Within(es: Edges, vs: set<int>)
  {
    forall a, b :: (a, b) in es ==> a in vs && b in vs
  }

  /** The vertices on a shortest walk are distinct: there is one at each distance. */
  lemma {:induction false} LevelsAreDistinct(es: Edges, vs: set<int>, u: int, v: int, d: nat) returns (on: set<int>)
    requires IsHop(es, u, v, d) && Within(es, vs) && u in vs
    ensures on <= vs && |on| == d + 1
    ensures forall x :: x in on ==> exists k: nat :: k <= d && IsHop(es, u, x, k)
    decreases d
  {
    if d == 0 {
      NoEdges(es, u, v);
      on := {v};
    } else {
      var w := PrefixIsShortest(es, u, v, d);
      var before := LevelsAreDistinct(es, vs, u, w, d - 1);
      forall k: nat | IsHop(es, u, v, k) ensures k == d {
        HopIsUnique(es, u, v, k, d);
      }
      on := before + {v};
      forall x | x in on ensures exists k: nat :: k <= d && IsHop(es, u, x, k) {
        if x in before { var k: nat :| k <= d - 1 && IsHop(es, u, x, k); }
      }
    }
  }

  lemma SubsetIsNoLarger(a: set<int>, b: set<int>)
    requires a <= b
    ensures |a| <= |b|
  {
    assert a !! b - a && a + (b - a) == b;
  }

  /** A hop distance is less than the number of vertices. */
  lemma HopBelowCount(es: Edges, vs: set<int>, u: int, v: int, d: nat)
    requires IsHop(es, u, v, d) && Within(es, vs) && u in vs
    ensures d < |vs|
  {
    var on := LevelsAreDistinct(es, vs, u, v, d);
    SubsetIsNoLarger(on, vs);
  }
}
