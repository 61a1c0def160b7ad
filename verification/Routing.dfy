/** One router's routing: building the graph from the link-state database and installing routes
    along shortest paths. */
module Routing {
  import opened Hops
  import opened Dijkstra
  import opened LinkState

  datatype Route = Route(dest: int, mask: int, gw: int, iface: int)

  datatype Neighbour = Neighbour(id: int, ip: int, iface: int)

  // -------------------------------------------------------------- positions and identifiers

  ghost predicate Distinct(ids: seq<int>)
  {
    forall i, j :: 0 <= i < j < |ids| ==> ids[i] != ids[j]
  }

  /** The router list: this router first, then the database in order. */
  function RouterList(id: int, db: seq<DbEntry>): (ids: seq<int>)
    ensures |ids| == |db| + 1 && ids[0] == id
    ensures forall i :: 0 <= i < |db| ==> ids[i + 1] == db[i].rid
  {
    [id] + seq(|db|, i requires 0 <= i < |db| => db[i].rid)
  }

  /** Every router named in an advertisement is in the list. */
  ghost predicate Closed(ids: seq<int>, es: Edges)
  {
    forall a, b :: (a, b) in es ==> a in ids && b in ids
  }

  /** The matrix graph and the graph on identifiers have the same walks. */
  ghost predicate Renames(ids: seq<int>, byIndex: Edges, byId: Edges)
  {
    && Distinct(ids) && Closed(ids, byId) && Within(byIndex, Below(|ids|))
    && forall u, v :: 0 <= u < |ids| && 0 <= v < |ids| ==>
         ((u, v) in byIndex <==> (ids[u], ids[v]) in byId)
  }

  lemma {:induction false} WalkToIds(ids: seq<int>, byIndex: Edges, byId: Edges, u: int, v: int, k: nat)
    requires Renames(ids, byIndex, byId) && 0 <= u < |ids| && 0 <= v < |ids|
    requires Walk(byIndex, u, v, k)
    ensures Walk(byId, ids[u], ids[v], k)
    decreases k
  {
    if k == 0 {
      NoEdges(byIndex, u, v);
      StayWalk(byId, ids[u]);
    } else {
      var w := LastStep(byIndex, u, v, k);
      assert w in Below(|ids|);
      WalkToIds(ids, byIndex, byId, u, w, k - 1);
      WalkOn(byId, ids[u], ids[w], ids[v], k - 1);
    }
  }

  lemma {:induction false} WalkFromIds(ids: seq<int>, byIndex: Edges, byId: Edges, u: int, v: int, k: nat)
    requires Renames(ids, byIndex, byId) && 0 <= u < |ids| && 0 <= v < |ids|
    requires Walk(byId, ids[u], ids[v], k)
    ensures Walk(byIndex, u, v, k)
    decreases k
  {
    if k == 0 {
      NoEdges(byId, ids[u], ids[v]);
      StayWalk(byIndex, u);
    } else {
      var x := LastStep(byId, ids[u], ids[v], k);
      var w :| 0 <= w < |ids| && ids[w] == x;
      WalkFromIds(ids, byIndex, byId, u, w, k - 1);
      WalkOn(byIndex, u, w, v, k - 1);
    }
  }

  lemma HopRenamed(ids: seq<int>, byIndex: Edges, byId: Edges, u: int, v: int, d: nat)
    requires Renames(ids, byIndex, byId) && 0 <= u < |ids| && 0 <= v < |ids|
    ensures IsHop(byIndex, u, v, d) <==> IsHop(byId, ids[u], ids[v], d)
  {
    forall k: nat ensures Walk(byIndex, u, v, k) <==> Walk(byId, ids[u], ids[v], k) {
      if Walk(byIndex, u, v, k) { WalkToIds(ids, byIndex, byId, u, v, k); }
      if Walk(byId, ids[u], ids[v], k) { WalkFromIds(ids, byIndex, byId, u, v, k); }
    }
  }

  // ---------------------------------------------------------------------- building the graph

  method GetRouterListIndex(ids: seq<int>, rid: int) returns (index: int)
    ensures -1 <= index < |ids|
    ensures index == -1 <==> rid !in ids
    ensures index != -1 ==> ids[index] == rid && rid !in ids[..index]
  {
    for i := 0 to |ids|
      invariant rid !in ids[..i]
    {
      if ids[i] == rid { return i; }
    }
    return -1;
  }

  /** The matrix holds exactly the links in `es`. */
  ghost predicate Encodes(g: array2<int>, ids: seq<int>, es: Edges)
    reads g
    requires |ids| <= g.Length0 && |ids| <= g.Length1
  {
    forall u, v :: 0 <= u < |ids| && 0 <= v < |ids| ==>
      g[u, v] == if (ids[u], ids[v]) in es then 1 else NO_EDGE
  }

  method ClearGraph(g: array2<int>)
    modifies g
    ensures forall u, v :: 0 <= u < g.Length0 && 0 <= v < g.Length1 ==> g[u, v] == NO_EDGE
  {
    for i := 0 to g.Length0
      invariant forall u, v :: 0 <= u < i && 0 <= v < g.Length1 ==> g[u, v] == NO_EDGE
    {
      for j := 0 to g.Length1
        invariant forall u, v :: 0 <= u < i && 0 <= v < g.Length1 ==> g[u, v] == NO_EDGE
        invariant forall v :: 0 <= v < j ==> g[i, v] == NO_EDGE
      {
        g[i, j] := NO_EDGE;
      }
    }
  }

  /** The links of one database entry. */
  method MarkLink(g: array2<int>, ids: seq<int>, u: nat, v: nat, ghost es: Edges)
    requires Distinct(ids) && |ids| <= g.Length0 && |ids| <= g.Length1 && u < |ids| && v < |ids|
    requires Encodes(g, ids, es)
    modifies g
    ensures Encodes(g, ids, es + {(ids[u], ids[v]), (ids[v], ids[u])})
  {
    g[u, v] := 1;
    g[v, u] := 1;
  }

  method AddLinks(g: array2<int>, ids: seq<int>, entry: DbEntry, ghost es: Edges)
    requires Distinct(ids) && |ids| <= g.Length0 && |ids| <= g.Length1
    requires Encodes(g, ids, es) && Closed(ids, LinksOfList(entry.rid, entry.lsas)) && entry.rid in ids
    modifies g
    ensures Encodes(g, ids, es + LinksOfList(entry.rid, entry.lsas))
  {
    var u := GetRouterListIndex(ids, entry.rid);
    var n := |entry.lsas|;
    for i := 0 to n
      invariant Encodes(g, ids, es + LinksOfList(entry.rid, entry.lsas[..i]))
    {
      assert entry.lsas[..i + 1][..i] == entry.lsas[..i];
      if entry.lsas[i].rid == 0 { continue; }
      assert Names(entry.lsas, entry.lsas[i].rid);
      LinkOfList(entry.rid, entry.lsas, entry.rid, entry.lsas[i].rid);
      var v := GetRouterListIndex(ids, entry.lsas[i].rid);
      MarkLink(g, ids, u, v, es + LinksOfList(entry.rid, entry.lsas[..i]));
    }
    assert entry.lsas[..n] == entry.lsas;
  }

  method InitGraph(g: array2<int>, id: int, db: seq<DbEntry>) returns (ids: seq<int>)
    requires |db| + 1 <= g.Length0 && |db| + 1 <= g.Length1
    requires Distinct(RouterList(id, db)) && Closed(RouterList(id, db), Links(db))
    modifies g
    ensures ids == RouterList(id, db)
    ensures Encodes(g, ids, Links(db))
    ensures IsMatrix(g, |ids|) && Renames(ids, EdgesOf(g, |ids|), Links(db))
  {
    ClearGraph(g);
    ids := RouterList(id, db);
    for j := 0 to |db|
      invariant Encodes(g, ids, Links(db[..j]))
    {
      assert db[..j + 1][..j] == db[..j];
      forall a, b | (a, b) in LinksOfList(db[j].rid, db[j].lsas) ensures (a, b) in Links(db) {
        LinkOfEntry(db, a, b);
      }
      assert ids[j + 1] == db[j].rid;
      AddLinks(g, ids, db[j], Links(db[..j]));
    }
    assert db[..|db|] == db;
  }

  // ---------------------------------------------------------------------- installing routes

  /** Routes without a gateway lead to the router's own networks. */
  function DirectOnly(rt: seq<Route>): seq<Route>
  {
    if rt == [] then []
    else DirectOnly(rt[..|rt| - 1]) + (if rt[|rt| - 1].gw == 0 then [rt[|rt| - 1]] else [])
  }

  ghost predicate Has(rt: seq<Route>, network: int, mask: int)
  {
    exists i :: 0 <= i < |rt| && rt[i].dest == network && rt[i].mask == mask
  }

  /** What the installing loop knows of the network: the router list, each router's entry, the
      labels, the tree and the neighbour lists. */
  datatype View = View(ids: seq<int>, db: seq<DbEntry>, es: Edges, dist: seq<int>, nbrs: seq<Neighbour>)

  ghost predicate ValidView(w: View)
  {
    && |w.ids| == |w.db| + 1 == |w.dist|
    && (forall i :: 0 <= i < |w.db| ==> w.ids[i + 1] == w.db[i].rid)
    && Distinct(w.ids)
    && (forall i :: 0 <= i < |w.nbrs| ==> w.nbrs[i].ip != 0)
    && (forall t :: 0 < t < |w.ids| ==> 0 < w.dist[t] < UNREACHED)
  }

  /** Each router one hop away in the graph is in a neighbour list. */
  ghost predicate NeighboursMatch(w: View)
  {
    forall h :: 0 < h < |w.ids| && (0, h) in w.es ==> w.ids[h] in IdsOf(w.nbrs)
  }

  function IdsOf(nbrs: seq<Neighbour>): (ids: seq<int>)
    ensures |ids| == |nbrs|
    ensures forall i :: 0 <= i < |nbrs| ==> ids[i] == nbrs[i].id
  {
    seq(|nbrs|, i requires 0 <= i < |nbrs| => nbrs[i].id)
  }

  ghost predicate AdvertisedAt(w: View, t: int, network: int, mask: int)
    requires ValidView(w) && 0 < t < |w.ids|
  {
    Advertises(w.db[t - 1].lsas, network, mask)
  }

  /** `gw` is an address of a neighbour on a shortest path to `t`. */
  ghost predicate Towards(w: View, t: int, gw: int, iface: int)
    requires ValidView(w) && 0 < t < |w.ids|
  {
    exists h :: 0 < h < |w.ids| && GatewayAt(w, h, gw, iface) && Walk(w.es, h, t, w.dist[t] - 1)
  }

  ghost predicate GatewayAt(w: View, h: int, gw: int, iface: int)
    requires 0 < h < |w.ids|
  {
    (0, h) in w.es && Neighbour(w.ids[h], gw, iface) in w.nbrs
  }

  /** `t` advertises the network and no router does so from nearer by. */
  ghost predicate Nearest(w: View, t: int, network: int, mask: int)
    requires ValidView(w) && 0 < t < |w.ids|
  {
    AdvertisedAt(w, t, network, mask) &&
    forall t' :: 0 < t' < |w.ids| && AdvertisedAt(w, t', network, mask) ==> w.dist[t] <= w.dist[t']
  }

  /** A route with a gateway leads towards a nearest router that advertises its network. */
  ghost predicate GoodRoute(w: View, r: Route)
    requires ValidView(w)
  {
    r.gw != 0 ==>
      exists t :: 0 < t < |w.ids| && Nearest(w, t, r.dest, r.mask) && Towards(w, t, r.gw, r.iface)
  }

  /** Networks with a direct route get no other, and no network gets two with gateways. */
  ghost predicate OneRouteEach(rt: seq<Route>)
  {
    forall i, j :: 0 <= i < j < |rt| && rt[j].gw != 0 ==> rt[i].dest != rt[j].dest || rt[i].mask != rt[j].mask
  }

  lemma {:induction false} DirectOnlyHasNoGateway(rt: seq<Route>)
    ensures forall i :: 0 <= i < |DirectOnly(rt)| ==> DirectOnly(rt)[i].gw == 0
    ensures forall r: Route :: r in DirectOnly(rt) <==> r in rt && r.gw == 0
  {
    if rt != [] {
      DirectOnlyHasNoGateway(rt[..|rt| - 1]);
      assert rt == rt[..|rt| - 1] + [rt[|rt| - 1]];
    }
  }

  lemma DirectStay(rt: seq<Route>, direct: seq<Route>, old': seq<Route>)
    requires direct == DirectOnly(old') && direct <= rt && forall i :: |direct| <= i < |rt| ==> rt[i].gw != 0
    ensures forall r: Route :: r.gw == 0 ==> (r in rt <==> r in old')
  {
    DirectOnlyHasNoGateway(old');
    assert rt == direct + rt[|direct|..];
    assert forall r: Route :: r in rt[|direct|..] ==> r.gw != 0;
  }

  method RemoveGatewayRoutes(rt0: seq<Route>) returns (rt: seq<Route>)
    ensures rt == DirectOnly(rt0)
  {
    rt := [];
    for i := 0 to |rt0|
      invariant rt == DirectOnly(rt0[..i])
    {
      assert rt0[..i + 1][..i] == rt0[..i];
      if rt0[i].gw == 0 { rt := rt + [rt0[i]]; }
    }
    assert rt0[..|rt0|] == rt0;
  }

  method CheckRtable(rt: seq<Route>, network: int, mask: int) returns (found: bool)
    ensures found <==> Has(rt, network, mask)
  {
    for i := 0 to |rt|
      invariant !Has(rt[..i], network, mask)
    {
      if rt[i].dest == network && rt[i].mask == mask { return true; }
      assert rt[..i + 1] == rt[..i] + [rt[i]];
    }
    assert rt[..|rt|] == rt;
    return false;
  }

  /** The neighbour entry for a router, if some interface has one. */
  method FindGateway(nbrs: seq<Neighbour>, id: int) returns (index: int)
    ensures -1 <= index < |nbrs|
    ensures index == -1 <==> id !in IdsOf(nbrs)
    ensures index != -1 ==> nbrs[index].id == id
  {
    for i := 0 to |nbrs|
      invariant forall j :: 0 <= j < i ==> nbrs[j].id != id
    {
      if nbrs[i].id == id { return i; }
    }
    return -1;
  }

  /** `rt` grew from `base` by routes through one gateway to networks not yet present. */
  ghost predicate Grown(base: seq<Route>, rt: seq<Route>, gw: int, iface: int, lsas: seq<Lsa>)
  {
    && |base| <= |rt| && rt[..|base|] == base
    && (forall i :: |base| <= i < |rt| ==>
          && rt[i].gw == gw && rt[i].iface == iface
          && Advertises(lsas, rt[i].dest, rt[i].mask)
          && !Has(base, rt[i].dest, rt[i].mask))
  }

  /** One route per network advertised and not yet in the table. */
  method InstallRoutes(base: seq<Route>, lsas: seq<Lsa>, gw: int, iface: int) returns (rt: seq<Route>)
    requires OneRouteEach(base)
    ensures Grown(base, rt, gw, iface, lsas) && OneRouteEach(rt)
    ensures forall n, m :: Advertises(lsas, n, m) ==> Has(rt, n, m)
  {
    rt := base;
    for i := 0 to |lsas|
      invariant Grown(base, rt, gw, iface, lsas) && OneRouteEach(rt)
      invariant forall j :: 0 <= j < i ==> Has(rt, lsas[j].network, lsas[j].mask)
    {
      var exists' := CheckRtable(rt, lsas[i].network, lsas[i].mask);
      if !exists' {
        HasAfterAppend(base, rt, lsas[i].network, lsas[i].mask);
        forall j | 0 <= j < i
          ensures Has(rt + [Route(lsas[i].network, lsas[i].mask, gw, iface)], lsas[j].network, lsas[j].mask)
        {
          HasKept(rt, Route(lsas[i].network, lsas[i].mask, gw, iface), lsas[j].network, lsas[j].mask);
        }
        rt := rt + [Route(lsas[i].network, lsas[i].mask, gw, iface)];
        assert rt[|rt| - 1].dest == lsas[i].network && rt[|rt| - 1].mask == lsas[i].mask;
      }
    }
  }

  lemma HasKept(rt: seq<Route>, r: Route, n: int, m: int)
    requires Has(rt, n, m)
    ensures Has(rt + [r], n, m)
  {
    var k :| 0 <= k < |rt| && rt[k].dest == n && rt[k].mask == m;
    assert (rt + [r])[k] == rt[k];
  }

  lemma HasAfterAppend(base: seq<Route>, rt: seq<Route>, n: int, m: int)
    requires |base| <= |rt| && rt[..|base|] == base && !Has(rt, n, m)
    ensures !Has(base, n, m)
  {}

  /** What holds between two turns of the installing loop. */
  ghost predicate Installed(w: View, visited: seq<bool>, direct: seq<Route>, rt: seq<Route>)
    requires ValidView(w) && |visited| == |w.ids|
  {
    && |direct| <= |rt| && rt[..|direct|] == direct
    && (forall i :: |direct| <= i < |rt| ==> rt[i].gw != 0)
    && OneRouteEach(rt)
    && (NeighboursMatch(w) ==>
          && (forall i :: |direct| <= i < |rt| ==> GoodRoute(w, rt[i]))
          && (forall t, n, m :: 0 < t < |w.ids| && visited[t] && AdvertisedAt(w, t, n, m) ==> Has(rt, n, m)))
  }

  /** Selected in order of distance: no router left is nearer than one already taken. */
  ghost predicate InOrder(w: View, visited: seq<bool>)
    requires |visited| == |w.dist|
  {
    forall p, q :: 0 < p < |w.dist| && 0 <= q < |w.dist| && visited[p] && !visited[q] ==> w.dist[p] <= w.dist[q]
  }

  lemma TurnInstalls(w: View, before: seq<bool>, t: int, hop: int, gw: int, iface: int,
                     direct: seq<Route>, base: seq<Route>, rt: seq<Route>)
    requires ValidView(w) && |before| == |w.ids| && 0 < t < |w.ids| && !before[t]
    requires Installed(w, before, direct, base)
    requires InOrder(w, before[t := true]) && gw != 0
    requires 0 < hop < |w.ids| && GatewayAt(w, hop, gw, iface) && Walk(w.es, hop, t, w.dist[t] - 1)
    requires Grown(base, rt, gw, iface, w.db[t - 1].lsas) && OneRouteEach(rt)
    requires forall n, m :: Advertises(w.db[t - 1].lsas, n, m) ==> Has(rt, n, m)
    ensures Installed(w, before[t := true], direct, rt)
  {
    assert rt[..|direct|] == direct;
    assert forall i :: 0 <= i < |base| ==> rt[i] == base[i];
    if NeighboursMatch(w) {
      forall t', n, m | 0 < t' < |w.ids| && before[t := true][t'] && AdvertisedAt(w, t', n, m)
        ensures Has(rt, n, m)
      {
        if t' != t {
          assert Has(base, n, m);
          var k :| 0 <= k < |base| && base[k].dest == n && base[k].mask == m;
          assert rt[k] == base[k];
        }
      }
      assert Towards(w, t, gw, iface);
      forall i | |base| <= i < |rt| ensures GoodRoute(w, rt[i]) {
        assert !Has(base, rt[i].dest, rt[i].mask);
        assert AdvertisedAt(w, t, rt[i].dest, rt[i].mask);
        assert Nearest(w, t, rt[i].dest, rt[i].mask);
      }
    }
  }

  /** The entry of router `t` is looked up in the database and its networks installed. */
  method InstallFor(ghost w: View, ids: seq<int>, db: seq<DbEntry>, nbrs: seq<Neighbour>, prev: array<int>,
                    t: nat, base: seq<Route>, ghost before: seq<bool>, ghost direct: seq<Route>)
      returns (rt: seq<Route>)
    requires ValidView(w) && w.ids == ids && w.db == db && w.nbrs == nbrs && |prev[..]| == |w.dist|
    requires IsTree(w.es, w.dist, prev[..])
    requires 0 < t < |ids| && |before| == |ids| && !before[t] && InOrder(w, before[t := true])
    requires Installed(w, before, direct, base)
    ensures Installed(w, before[t := true], direct, rt)
  {
    rt := base;
    var j := 0;
    while j < |db|
      invariant 0 <= j <= |db|
      invariant j < t ==> rt == base
      invariant t <= j ==> Installed(w, before[t := true], direct, rt)
    {
      if db[j].rid == ids[t] {
        assert ids[j + 1] == db[j].rid;
        var hop := FindNextHop(t, prev, w.es, w.dist);
        var k := FindGateway(nbrs, ids[hop]);
        if k == -1 {
          assert !NeighboursMatch(w);
          return;
        }
        assert nbrs[k] == Neighbour(ids[hop], nbrs[k].ip, nbrs[k].iface) && nbrs[k] in nbrs;
        rt := InstallRoutes(base, db[j].lsas, nbrs[k].ip, nbrs[k].iface);
        TurnInstalls(w, before, t, hop, nbrs[k].ip, nbrs[k].iface, direct, base, rt);
      } else {
        assert ids[t] == db[t - 1].rid;
      }
      j := j + 1;
    }
  }

  /** Nearest first, each other router's networks are given routes. */
  method UpdateRouter(ghost w: View, ids: seq<int>, db: seq<DbEntry>, nbrs: seq<Neighbour>, prev: array<int>,
                      dist: array<int>, rt0: seq<Route>) returns (rt: seq<Route>)
    requires ValidView(w) && w.ids == ids && w.db == db && w.nbrs == nbrs && w.dist == dist[..]
    requires prev.Length == dist.Length && IsTree(w.es, dist[..], prev[..])
    ensures Installed(w, seq(|ids|, _ => true), DirectOnly(rt0), rt)
  {
    var n := |ids|;
    var visited := new bool[n](_ => false);
    visited[0] := true;
    rt := RemoveGatewayRoutes(rt0);
    DirectOnlyHasNoGateway(rt0);
    ghost var direct := rt;
    assert VisitedSet(visited[..], n) == {0};
    for i := 0 to n - 1
      invariant visited[0] && |VisitedSet(visited[..], n)| == i + 1
      invariant InOrder(w, visited[..]) && Installed(w, visited[..], direct, rt)
    {
      ghost var before := visited[..];
      var t := MarkNearest(n, dist, visited, i + 1);
      assert before[t := true] == visited[..];
      rt := InstallFor(w, ids, db, nbrs, prev, t, rt, before, direct);
    }
    AllVisited(visited[..], n);
    assert visited[..] == seq(|ids|, _ => true);
  }

  // ------------------------------------------------------------- what one router ends up with

  ghost predicate AdvertisedBy(db: seq<DbEntry>, a: int, network: int, mask: int)
  {
    exists j :: 0 <= j < |db| && db[j].rid == a && Advertises(db[j].lsas, network, mask)
  }

  /** The route leads over `h`, on a shortest path of length `d` to the router `a`. */
  ghost predicate Via(id: int, db: seq<DbEntry>, nbrs: seq<Neighbour>, r: Route, a: int, h: int, d: nat)
  {
    && AdvertisedBy(db, a, r.dest, r.mask) && 0 < d && IsHop(Links(db), id, a, d)
    && (id, h) in Links(db) && Neighbour(h, r.gw, r.iface) in nbrs && Walk(Links(db), h, a, d - 1)
  }

  ghost predicate NoneCloser(id: int, db: seq<DbEntry>, network: int, mask: int, d: nat)
  {
    forall b, k: nat :: AdvertisedBy(db, b, network, mask) && Walk(Links(db), id, b, k) ==> d <= k
  }

  /** The route's gateway is a neighbour on a shortest path to a nearest advertiser. */
  ghost predicate LeadsToNearest(id: int, db: seq<DbEntry>, nbrs: seq<Neighbour>, r: Route)
  {
    exists a, h, d: nat :: Via(id, db, nbrs, r, a, h, d) && NoneCloser(id, db, r.dest, r.mask, d)
  }

  /** What updating the table establishes, the kept direct routes first. */
  ghost predicate Updated(id: int, db: seq<DbEntry>, nbrs: seq<Neighbour>, direct: seq<Route>, rt: seq<Route>)
  {
    && |direct| <= |rt| && rt[..|direct|] == direct && OneRouteEach(rt)
    && (forall i :: |direct| <= i < |rt| ==> rt[i].gw != 0 && LeadsToNearest(id, db, nbrs, rt[i]))
    && (forall a, n, m :: AdvertisedBy(db, a, n, m) ==> Has(rt, n, m))
  }

  /** The labels and lists describe the database's graph as router `id` sees it. */
  ghost predicate Describes(w: View, id: int)
  {
    ValidView(w) && w.ids[0] == id && Renames(w.ids, w.es, Links(w.db)) && Exact(w.es, w.dist)
  }

  lemma NearestIsVia(w: View, id: int, r: Route, t: int, h: int)
    requires Describes(w, id) && 0 < t < |w.ids| && 0 < h < |w.ids|
    requires AdvertisedAt(w, t, r.dest, r.mask)
    requires GatewayAt(w, h, r.gw, r.iface) && Walk(w.es, h, t, w.dist[t] - 1)
    ensures Via(id, w.db, w.nbrs, r, w.ids[t], w.ids[h], w.dist[t])
  {
    HopRenamed(w.ids, w.es, Links(w.db), 0, t, w.dist[t]);
    WalkToIds(w.ids, w.es, Links(w.db), h, t, w.dist[t] - 1);
    assert w.ids[t] == w.db[t - 1].rid;
  }

  lemma NearestIsNoFarther(w: View, id: int, network: int, mask: int, t: int, j: int, k: nat)
    requires Describes(w, id) && 0 < t < |w.ids| && Nearest(w, t, network, mask)
    requires 0 <= j < |w.db| && Advertises(w.db[j].lsas, network, mask) && Walk(Links(w.db), id, w.db[j].rid, k)
    ensures w.dist[t] <= k
  {
    assert w.ids[j + 1] == w.db[j].rid && AdvertisedAt(w, j + 1, network, mask);
    WalkFromIds(w.ids, w.es, Links(w.db), 0, j + 1, k);
  }

  lemma NearestHasNoneCloser(w: View, id: int, network: int, mask: int, t: int)
    requires Describes(w, id) && 0 < t < |w.ids| && Nearest(w, t, network, mask)
    ensures NoneCloser(id, w.db, network, mask, w.dist[t])
  {
    forall b, k: nat | AdvertisedBy(w.db, b, network, mask) && Walk(Links(w.db), id, b, k)
      ensures w.dist[t] <= k
    {
      var j :| 0 <= j < |w.db| && w.db[j].rid == b && Advertises(w.db[j].lsas, network, mask);
      NearestIsNoFarther(w, id, network, mask, t, j, k);
    }
  }

  lemma NearestLeads(w: View, id: int, r: Route, t: int, h: int)
    requires Describes(w, id) && 0 < t < |w.ids| && 0 < h < |w.ids|
    requires Nearest(w, t, r.dest, r.mask)
    requires GatewayAt(w, h, r.gw, r.iface) && Walk(w.es, h, t, w.dist[t] - 1)
    ensures LeadsToNearest(id, w.db, w.nbrs, r)
  {
    NearestIsVia(w, id, r, t, h);
    NearestHasNoneCloser(w, id, r.dest, r.mask, t);
  }

  lemma GoodRouteLeads(w: View, id: int, r: Route)
    requires Describes(w, id) && GoodRoute(w, r) && r.gw != 0
    ensures LeadsToNearest(id, w.db, w.nbrs, r)
  {
    var t :| 0 < t < |w.ids| && Nearest(w, t, r.dest, r.mask) && Towards(w, t, r.gw, r.iface);
    var h :| 0 < h < |w.ids| && GatewayAt(w, h, r.gw, r.iface) && Walk(w.es, h, t, w.dist[t] - 1);
    NearestLeads(w, id, r, t, h);
  }

  lemma InstalledIsUpdated(w: View, id: int, direct: seq<Route>, rt: seq<Route>)
    requires Describes(w, id)
    requires NeighboursMatch(w) && Installed(w, seq(|w.ids|, _ => true), direct, rt)
    ensures Updated(id, w.db, w.nbrs, direct, rt)
  {
    forall i | |direct| <= i < |rt| ensures LeadsToNearest(id, w.db, w.nbrs, rt[i]) {
      GoodRouteLeads(w, id, rt[i]);
    }
    var all := seq(|w.ids|, _ => true);
    forall a, n, m | AdvertisedBy(w.db, a, n, m) ensures Has(rt, n, m) {
      var j :| 0 <= j < |w.db| && w.db[j].rid == a && Advertises(w.db[j].lsas, n, m);
      assert all[j + 1] && AdvertisedAt(w, j + 1, n, m);
    }
  }

  ghost predicate Reachable(es: Edges, u: int, v: int)
  {
    exists k: nat :: k < UNREACHED && Walk(es, u, v, k)
  }

  /** What the source takes for granted: every router named is in the database once and can be
      reached in fewer than 127 hops, and the neighbour lists match the links. */
  ghost predicate Usable(id: int, db: seq<DbEntry>, nbrs: seq<Neighbour>)
  {
    && Distinct(RouterList(id, db)) && Closed(RouterList(id, db), Links(db))
    && (forall i :: 0 <= i < |db| ==> Reachable(Links(db), id, db[i].rid))
    && (forall i :: 0 <= i < |nbrs| ==> nbrs[i].ip != 0)
    && (forall h :: (id, h) in Links(db) && h != id ==> h in IdsOf(nbrs))
  }

  /** A router: its identity, neighbour lists, link-state database and routing table. */
  class Router {
    const id: int
    var nbrs: seq<Neighbour>
    var db: seq<DbEntry>
    var rtable: seq<Route>
    const graph: array2<int>

    ghost predicate Ready()
      reads this
    {
      |db| < graph.Length0 && |db| < graph.Length1 && Usable(id, db, nbrs)
    }

    constructor (id: int, n: nat)
      ensures this.id == id && nbrs == [] && db == [] && rtable == []
      ensures fresh(graph) && graph.Length0 == graph.Length1 == n
    {
      this.id := id;
      nbrs, db, rtable := [], [], [];
      graph := new int[n, n];
    }

    method UpdateRtable()
      requires Ready()
      modifies this`rtable, graph
      ensures Updated(id, db, nbrs, DirectOnly(old(rtable)), rtable)
      ensures forall r: Route :: r.gw == 0 ==> (r in rtable <==> r in old(rtable))
    {
      var ids := InitGraph(graph, id, db);
      var n := |ids|;
      ghost var es := EdgesOf(graph, n);
      var prev, dist := new int[n], new int[n];
      Dijkstra.Dijkstra(graph, n, prev, dist);
      assert EdgesOf(graph, n) == es;
      ghost var w := View(ids, db, es, dist[..], nbrs);
      EveryRouterReached(w, id);
      rtable := UpdateRouter(w, ids, db, nbrs, prev, dist, rtable);
      InstalledIsUpdated(w, id, DirectOnly(old(rtable)), rtable);
      DirectStay(rtable, DirectOnly(old(rtable)), old(rtable));
    }
  }

  lemma EveryRouterReached(w: View, id: int)
    requires w.ids == RouterList(id, w.db) && |w.ids| == |w.dist|
    requires Renames(w.ids, w.es, Links(w.db)) && Exact(w.es, w.dist) && Usable(id, w.db, w.nbrs)
    ensures Describes(w, id) && NeighboursMatch(w)
  {
    forall t | 0 < t < |w.ids| ensures 0 < w.dist[t] < UNREACHED {
      assert Reachable(Links(w.db), id, w.db[t - 1].rid);
      var k: nat :| k < UNREACHED && Walk(Links(w.db), id, w.db[t - 1].rid, k);
      WalkFromIds(w.ids, w.es, Links(w.db), 0, t, k);
      if w.dist[t] == 0 {
        NoEdges(w.es, 0, t);
      }
    }
  }
}
