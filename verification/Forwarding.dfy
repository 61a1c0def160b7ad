/** All routers together, each forwarding by its own table. */
module Forwarding {
  import opened Hops
  import opened LinkState
  import opened Routing

  /** What each router advertises, and what each one holds. */
  datatype Network = Network(
    adv: map<int, seq<Lsa>>,
    db: map<int, seq<DbEntry>>,
    nbrs: map<int, seq<Neighbour>>,
    tables: map<int, seq<Route>>)

  ghost predicate Linked(net: Network, a: int, b: int)
  {
    a in net.adv && b != 0 && Names(net.adv[a], b)
  }

  /** Router `x` holds the advertisement of every other router. */
  ghost predicate InSync(net: Network, x: int)
    requires x in net.db
  {
    && (forall j :: 0 <= j < |net.db[x]| ==>
          net.db[x][j].rid in net.adv && net.db[x][j].rid != x && net.db[x][j].lsas == net.adv[net.db[x][j].rid])
    && (forall a :: a in net.adv && a != x ==> exists j :: 0 <= j < |net.db[x]| && net.db[x][j].rid == a)
  }

  ghost predicate OneOwner(nbrs: seq<Neighbour>)
  {
    forall i, j :: 0 <= i < |nbrs| && 0 <= j < |nbrs| && nbrs[i].ip == nbrs[j].ip ==> nbrs[i].id == nbrs[j].id
  }

  /** Router `x` has just updated its table, and has direct routes to its own networks only. */
  ghost predicate UpToDate(net: Network, x: int)
    requires x in net.db && x in net.nbrs && x in net.tables && x in net.adv
  {
    && InSync(net, x) && OneOwner(net.nbrs[x])
    && exists direct :: Updated(x, net.db[x], net.nbrs[x], direct, net.tables[x]) && OwnRoutes(net.adv[x], direct)
  }

  ghost predicate OwnRoutes(own: seq<Lsa>, direct: seq<Route>)
  {
    forall i :: 0 <= i < |direct| ==> Advertises(own, direct[i].dest, direct[i].mask)
  }

  /** Links are announced from both ends. */
  ghost predicate Mutual(net: Network)
  {
    0 !in net.adv && forall a, b :: Linked(net, a, b) ==> Linked(net, b, a) && a != b
  }

  ghost predicate Converged(net: Network)
  {
    && net.db.Keys == net.nbrs.Keys == net.tables.Keys == net.adv.Keys && Mutual(net)
    && (forall x :: x in net.adv ==> UpToDate(net, x))
  }

  ghost function Graph(net: Network): Edges
  {
    set a, b | a in net.adv && b in net.adv && Linked(net, a, b) :: (a, b)
  }

  /** Every router in sync computes with the same graph, although its own announcement is not in
      its database. */
  lemma {:induction false} SameGraph(net: Network, x: int)
    requires Mutual(net) && x in net.adv && x in net.db && InSync(net, x)
    ensures Links(net.db[x]) == Graph(net)
  {
    forall e: (int, int) ensures e in Links(net.db[x]) <==> e in Graph(net) {
      SameLink(net, x, e.0, e.1);
    }
  }

  lemma SameLink(net: Network, x: int, a: int, b: int)
    requires Mutual(net) && x in net.adv && x in net.db && InSync(net, x)
    ensures (a, b) in Links(net.db[x]) <==> (a, b) in Graph(net)
  {
    var db := net.db[x];
    LinkMeansAdvertised(db, a, b);
    if (a, b) in Links(db) {
      var j :| 0 <= j < |db| && Joins(db[j].rid, db[j].lsas, a, b);
      assert Linked(net, a, b) || Linked(net, b, a);
    }
    if (a, b) in Graph(net) {
      assert Linked(net, a, b) && Linked(net, b, a);
      var y := if a != x then a else b;
      var j :| 0 <= j < |db| && db[j].rid == y;
      assert Joins(db[j].rid, db[j].lsas, a, b);
    }
  }

  ghost predicate Advertiser(net: Network, a: int, n: int, m: int)
  {
    a in net.adv && Advertises(net.adv[a], n, m)
  }

  ghost function Advertisers(net: Network, n: int, m: int): set<int>
  {
    set a | a in net.adv && Advertises(net.adv[a], n, m)
  }

  /** `d` hops lead from `x` to a nearest of the goals. */
  ghost predicate NearestAt(es: Edges, goals: set<int>, x: int, d: nat)
  {
    && (exists a :: a in goals && Walk(es, x, a, d))
    && (forall a, k: nat :: a in goals && Walk(es, x, a, k) ==> d <= k)
  }

  ghost predicate AtDistance(net: Network, x: int, n: int, m: int, d: nat)
  {
    NearestAt(Graph(net), Advertisers(net, n, m), x, d)
  }

  lemma OneCloser(es: Edges, goals: set<int>, x: int, h: int, a: int, d: nat)
    requires NearestAt(es, goals, x, d) && a in goals && (x, h) in es
    requires 0 < d && Walk(es, h, a, d - 1)
    ensures NearestAt(es, goals, h, d - 1)
  {
    EdgeIsWalk(es, x, h);
    forall b, k: nat | b in goals && Walk(es, h, b, k) ensures d - 1 <= k {
      WalksJoin(es, x, h, b, 1, k);
    }
  }

  /** `x` sends packets for the network on to `h`. */
  ghost predicate Forwards(net: Network, x: int, h: int, n: int, m: int)
  {
    x in net.tables && x in net.nbrs &&
    exists i :: 0 <= i < |net.tables[x]| && RouteTo(net.tables[x][i], net.nbrs[x], h, n, m)
  }

  ghost predicate RouteTo(r: Route, nbrs: seq<Neighbour>, h: int, n: int, m: int)
  {
    r.dest == n && r.mask == m && r.gw != 0 && Neighbour(h, r.gw, r.iface) in nbrs
  }

  lemma AdvertisedInSync(net: Network, x: int, n: int, m: int)
    requires Converged(net) && x in net.adv
    ensures forall a :: AdvertisedBy(net.db[x], a, n, m) <==> a in Advertisers(net, n, m) && a != x
  {}

  /** A route for a network that the router does not advertise itself was installed. */
  lemma ForeignRoute(net: Network, x: int, i: nat)
    requires Converged(net) && x in net.adv && i < |net.tables[x]|
    requires !Advertiser(net, x, net.tables[x][i].dest, net.tables[x][i].mask)
    ensures net.tables[x][i].gw != 0 && LeadsToNearest(x, net.db[x], net.nbrs[x], net.tables[x][i])
  {}

  /** The route that forwards to `h` is over `h`, whichever other neighbours share it. */
  lemma InstalledRoute(net: Network, x: int, h: int, n: int, m: int) returns (r: Route, a: int, d: nat)
    requires Converged(net) && x in net.adv && !Advertiser(net, x, n, m) && Forwards(net, x, h, n, m)
    ensures r.dest == n && r.mask == m
    ensures Via(x, net.db[x], net.nbrs[x], r, a, h, d) && NoneCloser(x, net.db[x], n, m, d)
  {
    var i :| 0 <= i < |net.tables[x]| && RouteTo(net.tables[x][i], net.nbrs[x], h, n, m);
    r := net.tables[x][i];
    ForeignRoute(net, x, i);
    var h';
    a, h', d :| Via(x, net.db[x], net.nbrs[x], r, a, h', d) && NoneCloser(x, net.db[x], r.dest, r.mask, d);
    assert UpToDate(net, x);
    var j :| 0 <= j < |net.nbrs[x]| && net.nbrs[x][j] == Neighbour(h', r.gw, r.iface);
    var k :| 0 <= k < |net.nbrs[x]| && net.nbrs[x][k] == Neighbour(h, r.gw, r.iface);
    assert h == h';
  }

  /** Each hop by the installed routes is exactly one hop nearer to an advertiser. */
  lemma {:induction false} NextIsOneCloser(net: Network, x: int, h: int, n: int, m: int, d: nat)
    requires Converged(net) && x in net.adv && !Advertiser(net, x, n, m)
    requires Forwards(net, x, h, n, m) && AtDistance(net, x, n, m, d)
    ensures 0 < d && h in net.adv && AtDistance(net, h, n, m, d - 1)
  {
    var r, a, d' := InstalledRoute(net, x, h, n, m);
    assert UpToDate(net, x);
    SameGraph(net, x);
    AdvertisedInSync(net, x, n, m);
    var a2 :| a2 in Advertisers(net, n, m) && Walk(Graph(net), x, a2, d);
    assert Advertiser(net, a2, n, m);
    assert d == d';
    OneCloser(Graph(net), Advertisers(net, n, m), x, h, a, d);
  }

  /** Every router but the last passes the packet on by its own table. */
  ghost predicate ForwardingPath(net: Network, path: seq<int>, n: int, m: int)
  {
    if |path| <= 1 then path != [] && path[0] in net.adv
    else
      && path[0] in net.adv && !Advertiser(net, path[0], n, m) && Forwards(net, path[0], path[1], n, m)
      && ForwardingPath(net, path[1..], n, m)
  }

  lemma {:induction false} HopOf(net: Network, path: seq<int>, n: int, m: int, i: nat)
    requires ForwardingPath(net, path, n, m) && i + 1 < |path|
    ensures path[i] in net.adv && !Advertiser(net, path[i], n, m) && Forwards(net, path[i], path[i + 1], n, m)
    decreases i
  {
    if i > 0 {
      var rest := path[1..];
      HopOf(net, rest, n, m, i - 1);
      assert rest[i - 1] == path[i] && rest[i] == path[i + 1];
    }
  }

  ghost predicate PlaceAt(net: Network, path: seq<int>, n: int, m: int, i: nat, d: int)
    requires i < |path|
  {
    0 <= d && AtDistance(net, path[i], n, m, d)
  }

  ghost predicate HopNearer(net: Network, path: seq<int>, n: int, m: int, i: nat, d: int)
    requires i + 1 < |path|
  {
    PlaceAt(net, path, n, m, i, d) ==> PlaceAt(net, path, n, m, i + 1, d - 1)
  }

  ghost predicate EachHopNearer(net: Network, path: seq<int>, n: int, m: int)
  {
    forall i: nat, d: int :: i + 1 < |path| ==> HopNearer(net, path, n, m, i, d)
  }

  lemma HopsAreNearer(net: Network, path: seq<int>, n: int, m: int)
    requires Converged(net) && ForwardingPath(net, path, n, m)
    ensures EachHopNearer(net, path, n, m)
  {
    forall i: nat, d: int | i + 1 < |path| ensures HopNearer(net, path, n, m, i, d) {
      if PlaceAt(net, path, n, m, i, d) {
        HopOf(net, path, n, m, i);
        NextIsOneCloser(net, path[i], path[i + 1], n, m, d);
      }
    }
  }

  /** After `i` hops the distance is less by `i`. */
  lemma {:induction false} DistanceFalls(net: Network, path: seq<int>, n: int, m: int, d: int, i: nat)
    requires EachHopNearer(net, path, n, m) && i < |path| && PlaceAt(net, path, n, m, 0, d)
    ensures PlaceAt(net, path, n, m, i, d - i)
    decreases i
  {
    if i > 0 {
      DistanceFalls(net, path, n, m, d, i - 1);
      assert HopNearer(net, path, n, m, i - 1, d - (i - 1));
    }
  }

  /** No forwarding loops anywhere: a packet for a network, passed on by each router's own
      table, never meets a router twice and makes at most as many hops as the nearest
      advertiser is away. */
  lemma {:induction false} NoForwardingLoop(net: Network, path: seq<int>, n: int, m: int, d: nat)
    requires Converged(net) && ForwardingPath(net, path, n, m)
    requires AtDistance(net, path[0], n, m, d)
    ensures |path| <= d + 1
    ensures forall i, j :: 0 <= i < j < |path| ==> path[i] != path[j]
  {
    HopsAreNearer(net, path, n, m);
    DistanceFalls(net, path, n, m, d, |path| - 1);
    forall i: nat, j: nat | i < j < |path| ensures path[i] != path[j] {
      DistanceFalls(net, path, n, m, d, i);
      DistanceFalls(net, path, n, m, d, j);
    }
  }

  /** A router that is not itself an advertiser has a next hop. */
  lemma HasNextHop(net: Network, x: int, n: int, m: int, d: nat) returns (h: int)
    requires Converged(net) && x in net.adv && !Advertiser(net, x, n, m) && AtDistance(net, x, n, m, d)
    ensures Forwards(net, x, h, n, m)
  {
    var a :| a in Advertisers(net, n, m) && Walk(Graph(net), x, a, d);
    AdvertisedInSync(net, x, n, m);
    assert Advertiser(net, a, n, m) && UpToDate(net, x);
    assert Has(net.tables[x], n, m);
    var i :| 0 <= i < |net.tables[x]| && net.tables[x][i].dest == n && net.tables[x][i].mask == m;
    ForeignRoute(net, x, i);
    var r := net.tables[x][i];
    var a', h', d' :| Via(x, net.db[x], net.nbrs[x], r, a', h', d');
    h := h';
    assert RouteTo(r, net.nbrs[x], h, n, m);
  }

  /** And forwarding arrives: from any router that can reach an advertiser, the installed
      routes lead to one in exactly the hop distance of the nearest. */
  lemma {:induction false} ForwardingDelivers(net: Network, x: int, n: int, m: int, d: nat) returns (path: seq<int>)
    requires Converged(net) && x in net.adv && AtDistance(net, x, n, m, d)
    ensures ForwardingPath(net, path, n, m) && |path| == d + 1 && path[0] == x
    ensures Advertiser(net, path[d], n, m)
    decreases d
  {
    path := [x];
    if Advertiser(net, x, n, m) {
      StayWalk(Graph(net), x);
      assert x in Advertisers(net, n, m);
    } else {
      var h := HasNextHop(net, x, n, m, d);
      NextIsOneCloser(net, x, h, n, m, d);
      var rest := ForwardingDelivers(net, h, n, m, d - 1);
      path := [x] + rest;
      assert path[1..] == rest;
    }
  }
}

/** Flooding hands every router what forwarding needs. */
module Convergence {
  import opened Hops
  import opened LinkState
  import opened Routing
  import opened Forwarding
  import F = Flooding

  ghost predicate Quiescent(s: F.State)
  {
    && (forall o :: F.Quiet(s, o))
    && (forall o :: o in s.published ==> s.published[o] != [])
  }

  ghost predicate Connected(nbrs: map<int, seq<int>>)
  {
    forall o, v :: o in nbrs && v in nbrs ==> Joined(nbrs, o, v)
  }

  ghost predicate Joined(nbrs: map<int, seq<int>>, o: int, v: int)
  {
    exists path :: F.PathFrom(nbrs, path, o) && path[|path| - 1] == v
  }

  /** The network as its routers know it: each one's latest announcement, and its database. */
  ghost function Known(s: F.State, nbrs: map<int, seq<Neighbour>>, tables: map<int, seq<Route>>): Network
    requires Quiescent(s)
  {
    Network(map o | o in s.published :: s.published[o][|s.published[o]| - 1], s.db, nbrs, tables)
  }

  /** Every router has announced itself since the lists last changed, and nothing is in flight. */
  ghost predicate Renewed(h: F.History)
  {
    && F.ValidHistory(h) && Quiescent(F.Result(h))
    && forall o :: o in h.nbrs ==> F.Newest(F.Midway(h), o) < F.Newest(F.Result(h), o)
  }

  ghost predicate Stores(db: seq<DbEntry>, e: DbEntry)
  {
    exists j :: 0 <= j < |db| && db[j] == e
  }

  lemma NewestIsLatest(s: F.State, x: int, a: int)
    requires F.HasNewest(s, x, a)
    ensures Stores(s.db[x], Latest(s, a))
  {}

  lemma LatestIsStored(h: F.History, x: int, a: int)
    requires F.ValidHistory(h) && F.Quiet(F.Result(h), a) && a != x
    requires F.Newest(F.Midway(h), a) < F.Newest(F.Result(h), a) && Joined(F.Result(h).nbrs, a, x)
    ensures x in F.Result(h).db && a in F.Result(h).published && F.Result(h).published[a] != []
    ensures Stores(F.Result(h).db[x], Latest(F.Result(h), a))
  {
    var path :| F.PathFrom(F.Result(h).nbrs, path, a) && path[|path| - 1] == x;
    F.FloodingConverges(h, a, path);
    NewestIsLatest(F.Result(h), x, a);
  }

  /** What a router stores is then the latest, as there is one entry each. */
  lemma LatestOnly(s: F.State, x: int)
    requires Quiescent(s) && F.Inv(s) && x in s.db
    requires forall a :: a in s.published && a != x ==>
               Stores(s.db[x], Latest(s, a))
    ensures forall j :: 0 <= j < |s.db[x]| ==>
              && s.db[x][j].rid in s.published && s.db[x][j].rid != x
              && s.db[x][j] == Latest(s, s.db[x][j].rid)
  {
    assert F.DatabaseOk(s, x);
    forall j | 0 <= j < |s.db[x]|
      ensures s.db[x][j].rid in s.published && s.db[x][j].rid != x && s.db[x][j] == Latest(s, s.db[x][j].rid)
    {
      var e := s.db[x][j];
      assert F.Genuine(s, e.rid, e.num, e.lsas) && Stores(s.db[x], Latest(s, e.rid));
      var k :| 0 <= k < |s.db[x]| && s.db[x][k] == Latest(s, e.rid);
      assert k == j;
    }
  }

  lemma StoredByName(db: seq<DbEntry>, e: DbEntry)
    requires Stores(db, e)
    ensures exists j :: 0 <= j < |db| && db[j].rid == e.rid
  {
    var j :| 0 <= j < |db| && db[j] == e;
  }

  lemma LatestIsSync(s: F.State, x: int, lists: map<int, seq<Neighbour>>, tables: map<int, seq<Route>>)
    requires Quiescent(s) && F.Inv(s) && x in s.db
    requires forall a :: a in s.published && a != x ==> Stores(s.db[x], Latest(s, a))
    ensures InSync(Known(s, lists, tables), x)
  {
    LatestOnly(s, x);
    var net := Known(s, lists, tables);
    forall j | 0 <= j < |net.db[x]|
      ensures net.db[x][j].rid in net.adv && net.db[x][j].rid != x && net.db[x][j].lsas == net.adv[net.db[x][j].rid]
    {
      assert s.db[x][j] == Latest(s, s.db[x][j].rid);
    }
    forall a | a in net.adv && a != x ensures exists j :: 0 <= j < |net.db[x]| && net.db[x][j].rid == a {
      StoredByName(s.db[x], Latest(s, a));
    }
  }

  /** In every run over connected routers that have all announced themselves since neighbour lists
      last changed, once nothing is in flight each router is in sync: its database holds the latest
      announcement of every other router and nothing else. */
  lemma {:induction false} FloodingSynchronises(h: F.History, x: int, lists: map<int, seq<Neighbour>>,
                                                tables: map<int, seq<Route>>)
    requires Renewed(h) && Connected(F.Result(h).nbrs) && x in h.nbrs
    ensures x in F.Result(h).db && InSync(Known(F.Result(h), lists, tables), x)
  {
    F.HistoryKeepsInv(h);
    forall a | a in F.Result(h).published && a != x ensures Stores(F.Result(h).db[x], Latest(F.Result(h), a)) {
      assert Joined(F.Result(h).nbrs, a, x);
      LatestIsStored(h, x, a);
    }
    LatestIsSync(F.Result(h), x, lists, tables);
  }

  ghost function Latest(s: F.State, o: int): DbEntry
    requires o in s.published && s.published[o] != []
  {
    DbEntry(o, |s.published[o]|, s.published[o][|s.published[o]| - 1])
  }

  // ------------------------------------------------------- from flooding to loop-free forwarding

  type Interfaces = map<int, seq<F.Interface>>
  type Lists = map<int, seq<Neighbour>>
  type Tables = map<int, seq<Route>>

  /** The neighbours of each router, as flooding sees them. */
  function Neighbours(ifaces: Interfaces): map<int, seq<int>>
  {
    map o | o in ifaces :: F.NbrIds(ifaces[o])
  }

  /** At most 127 routers, joined into one network, with neighbour lists on both ends of each link;
      `lists` holds the same neighbours with their addresses. */
  ghost predicate Sensible(ifaces: Interfaces, lists: Lists)
  {
    && |ifaces.Keys| <= 127 && 0 !in ifaces && lists.Keys == ifaces.Keys
    && (forall u, v :: u in ifaces && v in F.NbrIds(ifaces[u]) ==> LinkBack(ifaces, u, v))
    && Connected(Neighbours(ifaces))
    && (forall x :: x in ifaces ==> SameNeighbours(F.NbrIds(ifaces[x]), lists[x]))
  }

  ghost predicate LinkBack(ifaces: Interfaces, u: int, v: int)
  {
    u != v && v in ifaces && u in F.NbrIds(ifaces[v])
  }

  ghost predicate SameNeighbours(ids: seq<int>, list: seq<Neighbour>)
  {
    && OneOwner(list) && (forall i :: 0 <= i < |list| ==> list[i].ip != 0)
    && (forall h :: h in IdsOf(list) <==> h in ids)
  }

  /** Each announcement is made from the interfaces. */
  ghost predicate FromInterfaces(ifaces: Interfaces, run: seq<F.Step>)
  {
    forall i :: 0 <= i < |run| && run[i].Originate? && run[i].o in ifaces ==> run[i].lsas == F.LsasOf(ifaces[run[i].o])
  }

  /** All announced from number `n` on is this. */
  ghost predicate SaysOnly(said: seq<seq<Lsa>>, n: nat, lsas: seq<Lsa>)
  {
    forall i :: n <= i < |said| ==> said[i] == lsas
  }

  lemma {:induction false} PublishedFromInterfaces(ifaces: Interfaces, s: F.State, run: seq<F.Step>, o: int, n: nat)
    requires F.ValidRun(s, run) && FromInterfaces(ifaces, run)
    requires o in ifaces && o in s.published && SaysOnly(s.published[o], n, F.LsasOf(ifaces[o]))
    ensures o in F.After(s, run).published && SaysOnly(F.After(s, run).published[o], n, F.LsasOf(ifaces[o]))
    decreases |run|
  {
    if run != [] {
      PublishedFromInterfaces(ifaces, F.Next(s, run[0]), run[1..], o, n);
    }
  }

  /** The network that a run of flooding ends in: the interfaces are what the neighbour lists were
      last changed to, and all announcements since are made from them. */
  ghost predicate Flooded(ifaces: Interfaces, lists: Lists, h: F.History)
  {
    && Sensible(ifaces, lists) && Renewed(h) && h.nbrs.Keys == ifaces.Keys
    && F.Midway(h).nbrs == Neighbours(ifaces) && FromInterfaces(ifaces, h.after)
  }

  lemma FloodedTopology(ifaces: Interfaces, lists: Lists, h: F.History)
    requires Flooded(ifaces, lists, h)
    ensures F.Inv(F.Result(h)) && F.Result(h).nbrs == Neighbours(ifaces)
    ensures F.Result(h).published.Keys == F.Result(h).db.Keys == ifaces.Keys
  {
    F.HistoryKeepsInv(h);
  }

  /** Each router is known by the announcement made from its interfaces. */
  lemma KnownByInterfaces(ifaces: Interfaces, lists: Lists, h: F.History,
                          tables: Tables, o: int)
    requires Flooded(ifaces, lists, h) && o in ifaces
    ensures var net := Known(F.Result(h), lists, tables);
            o in net.adv && net.adv[o] == F.LsasOf(ifaces[o])
  {
    FloodedTopology(ifaces, lists, h);
    F.HistoryKeepsInv(h);
    PublishedFromInterfaces(ifaces, F.Midway(h), h.after, o, F.Newest(F.Midway(h), o));
  }

  lemma LinkedIsNeighbour(ifaces: Interfaces, lists: Lists, h: F.History,
                          tables: Tables, a: int, b: int)
    requires Flooded(ifaces, lists, h)
    ensures Linked(Known(F.Result(h), lists, tables), a, b) <==> a in ifaces && b in F.NbrIds(ifaces[a])
  {
    FloodedTopology(ifaces, lists, h);
    if a in ifaces {
      KnownByInterfaces(ifaces, lists, h, tables, a);
      if b != 0 { F.AnnouncesNeighbours(ifaces[a], b); }
      assert b in F.NbrIds(ifaces[a]) ==> LinkBack(ifaces, a, b);
    }
  }

  lemma FloodedIsMutual(ifaces: Interfaces, lists: Lists, h: F.History, tables: Tables)
    requires Flooded(ifaces, lists, h)
    ensures Mutual(Known(F.Result(h), lists, tables))
    ensures Known(F.Result(h), lists, tables).adv.Keys == ifaces.Keys
  {
    FloodedTopology(ifaces, lists, h);
    var net := Known(F.Result(h), lists, tables);
    forall a, b | Linked(net, a, b) ensures Linked(net, b, a) && a != b {
      LinkedIsNeighbour(ifaces, lists, h, tables, a, b);
      assert LinkBack(ifaces, a, b);
      LinkedIsNeighbour(ifaces, lists, h, tables, b, a);
    }
  }

  /** Every router computes with the links there are. */
  lemma FloodedGraph(ifaces: Interfaces, lists: Lists, h: F.History, x: int)
    requires Flooded(ifaces, lists, h) && x in ifaces
    ensures var s := F.Result(h);
            && x in s.db && InSync(Known(s, lists, map[]), x)
            && forall a, b :: (a, b) in Links(s.db[x]) <==> a in ifaces && b in F.NbrIds(ifaces[a])
  {
    FloodedTopology(ifaces, lists, h);
    var s := F.Result(h);
    FloodingSynchronises(h, x, lists, map[]);
    FloodedIsMutual(ifaces, lists, h, map[]);
    var net := Known(s, lists, map[]);
    SameGraph(net, x);
    forall a, b ensures (a, b) in Links(s.db[x]) <==> a in ifaces && b in F.NbrIds(ifaces[a]) {
      LinkedIsNeighbour(ifaces, lists, h, map[], a, b);
      assert Linked(net, a, b) ==> Linked(net, b, a);
    }
  }

  lemma {:induction false} PathIsWalk(es: Edges, nbrs: map<int, seq<int>>, path: seq<int>, o: int)
    requires F.PathFrom(nbrs, path, o)
    requires forall a, b :: a in nbrs && b in nbrs[a] ==> (a, b) in es
    ensures Walk(es, o, path[|path| - 1], |path| - 1)
    decreases |path|
  {
    if |path| == 1 {
      StayWalk(es, o);
    } else {
      var front := path[..|path| - 1];
      forall i | 0 <= i < |front| - 1 ensures F.HopAt(nbrs, front, i) {
        assert F.HopAt(nbrs, path, i);
      }
      PathIsWalk(es, nbrs, front, o);
      assert F.HopAt(nbrs, path, |path| - 2);
      WalkOn(es, o, path[|path| - 2], path[|path| - 1], |path| - 2);
    }
  }

  /** A path among at most 127 routers shows that its end is less than 127 hops away. */
  lemma PathMakesReachable(es: Edges, nbrs: map<int, seq<int>>, path: seq<int>, x: int)
    requires F.PathFrom(nbrs, path, x) && Within(es, nbrs.Keys) && x in nbrs && |nbrs.Keys| <= 127
    requires forall a, b :: a in nbrs && b in nbrs[a] ==> (a, b) in es
    ensures Reachable(es, x, path[|path| - 1])
  {
    PathIsWalk(es, nbrs, path, x);
    var d := ShortestExists(es, x, path[|path| - 1], |path| - 1);
    HopBelowCount(es, nbrs.Keys, x, path[|path| - 1], d);
  }

  lemma SensibleReachable(ifaces: Interfaces, lists: Lists, es: Edges, x: int, y: int)
    requires Sensible(ifaces, lists) && x in ifaces && y in ifaces
    requires forall a, b :: (a, b) in es <==> a in ifaces && b in F.NbrIds(ifaces[a])
    ensures Reachable(es, x, y)
  {
    var nbrs := Neighbours(ifaces);
    assert nbrs.Keys == ifaces.Keys && Joined(nbrs, x, y);
    var path :| F.PathFrom(nbrs, path, x) && path[|path| - 1] == y;
    forall a, b | (a, b) in es ensures a in nbrs.Keys && b in nbrs.Keys {
      assert LinkBack(ifaces, a, b);
    }
    PathMakesReachable(es, nbrs, path, x);
  }

  lemma FloodedReachable(ifaces: Interfaces, lists: Lists, h: F.History, x: int, y: int)
    requires Flooded(ifaces, lists, h) && x in ifaces && y in ifaces
    ensures x in F.Result(h).db && Reachable(Links(F.Result(h).db[x]), x, y)
  {
    FloodedGraph(ifaces, lists, h, x);
    SensibleReachable(ifaces, lists, Links(F.Result(h).db[x]), x, y);
  }

  lemma DistinctWithSelf(s: F.State, x: int)
    requires x in s.db && F.DatabaseOk(s, x)
    ensures Distinct(RouterList(x, s.db[x]))
  {
    var ids := RouterList(x, s.db[x]);
    forall i, j | 0 <= i < j < |ids| ensures ids[i] != ids[j] {
      assert ids[j] == s.db[x][j - 1].rid;
      if i > 0 { assert ids[i] == s.db[x][i - 1].rid; }
    }
  }

  lemma FloodedDatabase(ifaces: Interfaces, lists: Lists, h: F.History, x: int)
    requires Flooded(ifaces, lists, h) && x in ifaces
    ensures var s := F.Result(h);
            && x in s.db && Distinct(RouterList(x, s.db[x]))
            && (forall i :: 0 <= i < |s.db[x]| ==> s.db[x][i].rid in ifaces)
            && (forall a :: a in ifaces ==> a in RouterList(x, s.db[x]))
  {
    FloodedTopology(ifaces, lists, h);
    FloodedGraph(ifaces, lists, h, x);
    var s := F.Result(h);
    var net, ids := Known(s, lists, map[]), RouterList(x, s.db[x]);
    DistinctWithSelf(s, x);
    forall i | 0 <= i < |s.db[x]| ensures s.db[x][i].rid in ifaces {
      assert s.db[x][i].rid in net.adv;
    }
    forall a | a in ifaces ensures a in ids {
      if a != x {
        assert a in net.adv;
        var j :| 0 <= j < |s.db[x]| && s.db[x][j].rid == a;
        assert ids[j + 1] == a;
      }
    }
  }

  /** What flooding ends in is what updating the routing table takes for granted, at every router. */
  lemma {:induction false} FloodedIsUsable(ifaces: Interfaces, lists: Lists, h: F.History, x: int)
    requires Flooded(ifaces, lists, h) && x in ifaces
    ensures x in F.Result(h).db && x in lists && Usable(x, F.Result(h).db[x], lists[x])
  {
    FloodedGraph(ifaces, lists, h, x);
    FloodedDatabase(ifaces, lists, h, x);
    var db := F.Result(h).db[x];
    forall a, b | (a, b) in Links(db) ensures a in RouterList(x, db) && b in RouterList(x, db) {
      assert LinkBack(ifaces, a, b);
    }
    forall i | 0 <= i < |db| ensures Reachable(Links(db), x, db[i].rid) {
      FloodedReachable(ifaces, lists, h, x, db[i].rid);
    }
    assert SameNeighbours(F.NbrIds(ifaces[x]), lists[x]);
  }

  /** Every router has updated its table from direct routes to its own networks. */
  ghost predicate AllUpdated(ifaces: Interfaces, lists: Lists, s: F.State, tables: Tables)
  {
    && tables.Keys == ifaces.Keys
    && forall x :: x in ifaces ==>
         x in s.db && x in lists && HasUpdated(F.LsasOf(ifaces[x]), x, s.db[x], lists[x], tables[x])
  }

  ghost predicate HasUpdated(own: seq<Lsa>, x: int, db: seq<DbEntry>, list: seq<Neighbour>, table: seq<Route>)
  {
    exists direct :: Updated(x, db, list, direct, table) && OwnRoutes(own, direct)
  }

  /** From flooding to forwarding: in every run of announcements made from the interfaces, once
      nothing is in flight and every router has updated its table, the network has converged. All
      that forwarding is proved to do, it then does. */
  lemma {:induction false} FloodingThenUpdatingConverges(ifaces: Interfaces, lists: Lists,
                                                         h: F.History, tables: Tables)
    requires Flooded(ifaces, lists, h) && AllUpdated(ifaces, lists, F.Result(h), tables)
    ensures Converged(Known(F.Result(h), lists, tables))
  {
    FloodedTopology(ifaces, lists, h);
    FloodedIsMutual(ifaces, lists, h, tables);
    var s := F.Result(h);
    var net := Known(s, lists, tables);
    forall x | x in net.adv ensures UpToDate(net, x) {
      FloodingSynchronises(h, x, lists, tables);
      KnownByInterfaces(ifaces, lists, h, tables, x);
      assert SameNeighbours(F.NbrIds(ifaces[x]), lists[x]);
      assert HasUpdated(F.LsasOf(ifaces[x]), x, s.db[x], lists[x], tables[x]);
    }
  }

  /** No router twice, and no more hops than `d`. */
  ghost predicate LoopFree(path: seq<int>, d: nat)
  {
    |path| <= d + 1 && forall i, j :: 0 <= i < j < |path| ==> path[i] != path[j]
  }

  /** So hop-by-hop forwarding never meets a router twice and takes no more hops than the nearest
      advertiser is away. */
  lemma {:induction false} FloodedNetworkIsLoopFree(ifaces: Interfaces, lists: Lists, h: F.History, tables: Tables)
    requires Flooded(ifaces, lists, h) && AllUpdated(ifaces, lists, F.Result(h), tables)
    ensures var net := Known(F.Result(h), lists, tables);
            forall path, n, m, d: nat :: ForwardingPath(net, path, n, m) && AtDistance(net, path[0], n, m, d) ==>
              LoopFree(path, d)
  {
    var net := Known(F.Result(h), lists, tables);
    FloodingThenUpdatingConverges(ifaces, lists, h, tables);
    forall path, n, m, d: nat | ForwardingPath(net, path, n, m) && AtDistance(net, path[0], n, m, d)
      ensures LoopFree(path, d)
    {
      NoForwardingLoop(net, path, n, m, d);
    }
  }
}
