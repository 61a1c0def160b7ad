/** The shortest-path computation of mospf_daemon.c over arrays, for any number of routers. */
module Dijkstra {
  import opened Hops

  /** INT8_MAX, the distance of a router not reached. */
  const UNREACHED := 127
  /** memset(graph, INT8_MAX - 1, ...) fills each byte of each word. */
  const NO_EDGE := 0x7e7e7e7e
  const INT_MAX := 0x7fff_ffff

  function Below(n: nat): (r: set<int>)
    ensures |r| == n
    ensures forall x :: x in r <==> 0 <= x < n
  {
    if n == 0 then {} else Below(n - 1) + {n - 1}
  }

  /** What init_graph leaves in the matrix. */
  ghost predicate IsMatrix(g: array2<int>, n: nat)
    reads g
  {
    n <= g.Length0 && n <= g.Length1 &&
    forall u, v :: 0 <= u < n && 0 <= v < n ==> g[u, v] == 1 || g[u, v] == NO_EDGE
  }

  ghost function EdgesOf(g: array2<int>, n: nat): Edges
    reads g
    requires n <= g.Length0 && n <= g.Length1
  {
    set u, v | 0 <= u < n && 0 <= v < n && g[u, v] == 1 :: (u, v)
  }

  /** The labels agree with one another: each label but the root's is one more than that of
      its predecessor, over an edge, and the unreached have none. */
  ghost predicate TreeAt(es: Edges, dist: seq<int>, prev: seq<int>, v: int)
    requires |dist| == |prev| && 0 <= v < |dist|
  {
    && 0 <= dist[v] <= UNREACHED
    && (v == 0 ==> dist[v] == 0 && prev[v] == -1)
    && (dist[v] == UNREACHED ==> prev[v] == -1)
    && (0 < v && dist[v] < UNREACHED ==>
          0 <= prev[v] < |dist| && (prev[v], v) in es && dist[v] == dist[prev[v]] + 1)
  }

  ghost predicate IsTree(es: Edges, dist: seq<int>, prev: seq<int>)
    requires |dist| == |prev|
  {
    forall v :: 0 <= v < |dist| ==> TreeAt(es, dist, prev, v)
  }

  /** No edge could lower a label further. */
  ghost predicate Settled(es: Edges, dist: seq<int>)
  {
    forall u, v :: 0 <= u < |dist| && 0 <= v < |dist| && (u, v) in es ==> dist[v] <= dist[u] + 1
  }

  lemma {:induction false} LabelIsWalk(es: Edges, dist: seq<int>, prev: seq<int>, v: int)
    requires |dist| == |prev| && IsTree(es, dist, prev)
    requires 0 <= v < |dist| && 0 <= dist[v] < UNREACHED
    ensures Walk(es, 0, v, dist[v])
    decreases dist[v]
  {
    assert TreeAt(es, dist, prev, v);
    if v == 0 {
      StayWalk(es, 0);
    } else {
      assert TreeAt(es, dist, prev, prev[v]);
      LabelIsWalk(es, dist, prev, prev[v]);
      WalkOn(es, 0, prev[v], v, dist[prev[v]]);
    }
  }

  lemma {:induction false} WalkBoundsLabel(es: Edges, dist: seq<int>, v: int, k: nat)
    requires Settled(es, dist) && 0 < |dist| && dist[0] == 0
    requires Within(es, Below(|dist|))
    requires 0 <= v < |dist| && Walk(es, 0, v, k)
    ensures dist[v] <= k
    decreases k
  {
    if k == 0 {
      NoEdges(es, 0, v);
    } else {
      var w := LastStep(es, 0, v, k);
      WalkBoundsLabel(es, dist, w, k - 1);
    }
  }

  /** The labels are the hop distances, cut off at 127. */
  ghost predicate Exact(es: Edges, dist: seq<int>)
  {
    forall v :: 0 <= v < |dist| ==>
      if dist[v] < UNREACHED then 0 <= dist[v] && IsHop(es, 0, v, dist[v])
      else dist[v] == UNREACHED && forall k: nat :: k < UNREACHED ==> !Walk(es, 0, v, k)
  }

  lemma SettledTreeIsExact(es: Edges, dist: seq<int>, prev: seq<int>)
    requires |dist| == |prev| && 0 < |dist|
    requires IsTree(es, dist, prev) && Settled(es, dist)
    requires Within(es, Below(|dist|))
    ensures Exact(es, dist)
  {
    assert TreeAt(es, dist, prev, 0);
    forall v | 0 <= v < |dist|
      ensures 0 <= dist[v] <= UNREACHED
      ensures dist[v] < UNREACHED ==> Walk(es, 0, v, dist[v])
      ensures forall k: nat :: k < dist[v] ==> !Walk(es, 0, v, k)
    {
      assert TreeAt(es, dist, prev, v);
      if dist[v] < UNREACHED { LabelIsWalk(es, dist, prev, v); }
      forall k: nat | k < dist[v] ensures !Walk(es, 0, v, k) {
        if Walk(es, 0, v, k) { WalkBoundsLabel(es, dist, v, k); }
      }
    }
  }

  /** With at most 127 routers nothing is cut off: 127 means that no walk leads there. */
  lemma {:induction false} SmallNetworksAreExact(es: Edges, dist: seq<int>, v: int, k: nat)
    requires Exact(es, dist) && 0 < |dist| <= 127 && Within(es, Below(|dist|))
    requires 0 <= v < |dist| && Walk(es, 0, v, k)
    ensures dist[v] < UNREACHED && IsHop(es, 0, v, dist[v])
  {
    var d := ShortestExists(es, 0, v, k);
    HopBelowCount(es, Below(|dist|), 0, v, d);
  }

  // ------------------------------------------------------------------------ the algorithm

  ghost function VisitedSet(visited: seq<bool>, n: nat): set<int>
    requires n <= |visited|
  {
    set i | i in Below(n) && visited[i]
  }

  /** The first unvisited index with the smallest label, or -1. */
  method MinDist(dist: array<int>, visited: array<bool>, num: nat) returns (index: int)
    requires num <= dist.Length && num <= visited.Length
    ensures -1 <= index < num
    ensures index == -1 <==> forall u :: 0 <= u < num ==> visited[u]
    ensures index != -1 ==> !visited[index]
    ensures index != -1 ==> forall u :: 0 <= u < num && !visited[u] ==>
              dist[index] <= dist[u] && (dist[u] == dist[index] ==> index <= u)
  {
    index := -1;
    for u := 0 to num
      invariant -1 <= index < u
      invariant index == -1 <==> forall w :: 0 <= w < u ==> visited[w]
      invariant index != -1 ==> !visited[index]
      invariant index != -1 ==> forall w :: 0 <= w < u && !visited[w] ==>
                  dist[index] <= dist[w] && (dist[w] == dist[index] ==> index <= w)
    {
      if visited[u] { continue; }
      if index == -1 || dist[u] < dist[index] {
        index := u;
      }
    }
  }

  /** The state between two selections. */
  ghost predicate Progress(es: Edges, dist: seq<int>, prev: seq<int>, visited: seq<bool>)
    requires |dist| == |prev| == |visited|
  {
    && IsTree(es, dist, prev)
    && (forall u, v :: 0 <= u < |dist| && 0 <= v < |dist| && visited[u] && !visited[v] ==> dist[u] <= dist[v])
    && (forall u, v :: 0 <= u < |dist| && 0 <= v < |dist| && visited[u] && (u, v) in es ==> dist[v] <= dist[u] + 1)
    && (forall v :: 0 < v < |dist| && dist[v] < UNREACHED ==> 0 <= prev[v] < |dist| && visited[prev[v]])
  }

  /** The label and predecessor of `w` after the edges that leave `u` are tried. */
  ghost predicate RelaxedTo(es: Edges, u: int, d0: seq<int>, p0: seq<int>, visited: seq<bool>,
                            w: int, d: int, p: int)
    requires |d0| == |p0| == |visited| && 0 <= u < |d0| && 0 <= w < |d0|
  {
    if !visited[w] && (u, w) in es && d0[u] + 1 < d0[w] then d == d0[u] + 1 && p == u
    else d == d0[w] && p == p0[w]
  }

  lemma RelaxationProgresses(es: Edges, u: int, d0: seq<int>, p0: seq<int>, dist: seq<int>, prev: seq<int>,
                             before: seq<bool>, after: seq<bool>)
    requires |d0| == |p0| == |dist| == |prev| == |before| == |after| && 0 <= u < |d0|
    requires Progress(es, d0, p0, before) && !before[u] && after == before[u := true]
    requires forall v :: 0 <= v < |d0| && !before[v] ==> d0[u] <= d0[v]
    requires forall w :: 0 <= w < |d0| ==> RelaxedTo(es, u, d0, p0, after, w, dist[w], prev[w])
    ensures Progress(es, dist, prev, after)
  {
    assert forall v :: 0 <= v < |d0| && after[v] ==> dist[v] == d0[v];
    assert forall v :: 0 <= v < |d0| && before[v] ==> after[v];
    forall v | 0 <= v < |d0| ensures TreeAt(es, dist, prev, v) {
      assert TreeAt(es, d0, p0, v) && TreeAt(es, d0, p0, u) && TreeAt(es, d0, p0, 0);
    }
  }

  method Relax(graph: array2<int>, n: nat, u: nat, prev: array<int>, dist: array<int>, visited: array<bool>)
    requires IsMatrix(graph, n) && u < n && n == prev.Length == dist.Length == visited.Length
    requires prev != dist && visited[u]
    requires forall v :: 0 <= v < n ==> 0 <= dist[v] <= UNREACHED
    modifies prev, dist
    ensures forall w :: 0 <= w < n ==>
      RelaxedTo(EdgesOf(graph, n), u, old(dist[..]), old(prev[..]), visited[..], w, dist[w], prev[w])
  {
    ghost var d0, p0 := dist[..], prev[..];
    ghost var es := EdgesOf(graph, n);
    for v := 0 to n
      invariant dist[u] == d0[u]
      invariant forall w :: 0 <= w < v ==> RelaxedTo(es, u, d0, p0, visited[..], w, dist[w], prev[w])
      invariant forall w :: v <= w < n ==> dist[w] == d0[w] && prev[w] == p0[w]
    {
      assert (u, v) in es <==> graph[u, v] == 1;
      // the sum that is compared stays within an int
      assert dist[u] + graph[u, v] <= INT_MAX;
      if !visited[v] && dist[u] + graph[u, v] < dist[v] {
        dist[v] := dist[u] + graph[u, v];
        prev[v] := u;
      }
    }
  }

  lemma LabelsInRange(es: Edges, dist: seq<int>, prev: seq<int>)
    requires |dist| == |prev| && IsTree(es, dist, prev)
    ensures forall v :: 0 <= v < |dist| ==> 0 <= dist[v] <= UNREACHED
  {
    forall v | 0 <= v < |dist| ensures 0 <= dist[v] <= UNREACHED {
      assert TreeAt(es, dist, prev, v);
    }
  }

  /** Selects the nearest unvisited router and marks it. */
  method MarkNearest(n: nat, dist: array<int>, visited: array<bool>, ghost i: nat) returns (u: nat)
    requires n == dist.Length == visited.Length && i < n && |VisitedSet(visited[..], n)| == i
    modifies visited
    ensures u < n && !old(visited[u]) && visited[u] && visited[..][u := false] == old(visited[..])
    ensures |VisitedSet(visited[..], n)| == i + 1
    ensures forall v :: 0 <= v < n && !old(visited[v]) ==> dist[u] <= dist[v]
  {
    ghost var before := VisitedSet(visited[..], n);
    var index := MinDist(dist, visited, n);
    assert before != Below(n);
    visited[index] := true;
    assert VisitedSet(visited[..], n) == before + {index};
    return index;
  }

  method Unlabel(n: nat, prev: array<int>, dist: array<int>)
    requires n == prev.Length == dist.Length && prev != dist
    modifies prev, dist
    ensures forall w :: 0 <= w < n ==> prev[w] == -1 && dist[w] == UNREACHED
  {
    for i := 0 to n
      invariant forall w :: 0 <= w < i ==> prev[w] == -1 && dist[w] == UNREACHED
    {
      prev[i] := -1;
      dist[i] := UNREACHED;
    }
  }

  lemma StartProgresses(es: Edges, dist: seq<int>, prev: seq<int>, visited: seq<bool>)
    requires |dist| == |prev| == |visited|
    requires forall v :: 0 <= v < |dist| ==>
      prev[v] == -1 && !visited[v] && dist[v] == if v == 0 then 0 else UNREACHED
    ensures Progress(es, dist, prev, visited)
  {}

  /** One turn: the nearest unvisited router is marked and its edges are tried. */
  method VisitNearest(graph: array2<int>, n: nat, prev: array<int>, dist: array<int>, visited: array<bool>,
                      ghost i: nat)
    requires IsMatrix(graph, n) && n == prev.Length == dist.Length == visited.Length && prev != dist
    requires i < n && |VisitedSet(visited[..], n)| == i
    requires Progress(EdgesOf(graph, n), dist[..], prev[..], visited[..])
    modifies prev, dist, visited
    ensures |VisitedSet(visited[..], n)| == i + 1
    ensures Progress(EdgesOf(graph, n), dist[..], prev[..], visited[..])
  {
    ghost var es, d0, p0, before := EdgesOf(graph, n), dist[..], prev[..], visited[..];
    LabelsInRange(es, d0, p0);
    var u := MarkNearest(n, dist, visited, i);
    assert visited[..] == before[u := true];
    Relax(graph, n, u, prev, dist, visited);
    RelaxationProgresses(es, u, d0, p0, dist[..], prev[..], before, visited[..]);
  }

  /** Exact for any number of routers and any matrix: `dist` is the hop distance cut off at
      127 and `prev` a tree of shortest paths. */
  method Dijkstra(graph: array2<int>, n: nat, prev: array<int>, dist: array<int>)
    requires 0 < n && IsMatrix(graph, n) && n == prev.Length == dist.Length && prev != dist
    modifies prev, dist
    ensures IsTree(EdgesOf(graph, n), dist[..], prev[..])
    ensures Exact(EdgesOf(graph, n), dist[..])
  {
    ghost var es := EdgesOf(graph, n);
    var visited := new bool[n](_ => false);
    Unlabel(n, prev, dist);
    dist[0] := 0;
    StartProgresses(es, dist[..], prev[..], visited[..]);
    assert VisitedSet(visited[..], n) == {};
    for i := 0 to n
      invariant Progress(es, dist[..], prev[..], visited[..])
      invariant |VisitedSet(visited[..], n)| == i
    {
      VisitNearest(graph, n, prev, dist, visited, i);
    }
    AllVisited(visited[..], n);
    SettledTreeIsExact(es, dist[..], prev[..]);
  }

  lemma AllVisited(visited: seq<bool>, n: nat)
    requires n == |visited| && |VisitedSet(visited, n)| == n
    ensures forall i :: 0 <= i < n ==> visited[i]
  {
    if i :| 0 <= i < n && !visited[i] {
      SubsetIsNoLarger(VisitedSet(visited, n), Below(n) - {i});
    }
  }

  /** Follows `prev` back from a reached router: ends at a neighbour of the root that lies on
      a shortest path to that router. */
  method FindNextHop(i: nat, prev: array<int>, ghost es: Edges, ghost dist: seq<int>) returns (hop: nat)
    requires |dist| == prev.Length && IsTree(es, dist, prev[..])
    requires 0 < i < prev.Length && dist[i] < UNREACHED
    ensures 0 < hop < prev.Length && (0, hop) in es
    ensures dist[hop] == 1 && dist[i] >= 1 && Walk(es, hop, i, dist[i] - 1)
  {
    hop := i;
    StayWalk(es, i);
    assert TreeAt(es, dist, prev[..], i);
    assert TreeAt(es, dist, prev[..], prev[i]);
    while prev[hop] != 0
      invariant 0 < hop < prev.Length && 0 < dist[hop] <= dist[i] && dist[hop] < UNREACHED
      invariant Walk(es, hop, i, dist[i] - dist[hop])
      decreases dist[hop]
    {
      assert TreeAt(es, dist, prev[..], hop);
      assert TreeAt(es, dist, prev[..], prev[hop]);
      assert TreeAt(es, dist, prev[..], prev[prev[hop]]);
      EdgeIsWalk(es, prev[hop], hop);
      WalksJoin(es, prev[hop], hop, i, 1, dist[i] - dist[hop]);
      hop := prev[hop];
    }
    assert TreeAt(es, dist, prev[..], hop) && TreeAt(es, dist, prev[..], 0);
  }
}
