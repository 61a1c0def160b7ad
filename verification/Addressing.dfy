/** Forwarding by destination address: every router applies longest prefix match to its own table,
    where the networks advertised may overlap. */
module Addressing {
  import opened Hops
  import opened LinkState
  import opened Routing
  import opened Forwarding
  import B = Bits
  import C = Convergence
  import F = Flooding

  predicate Word(a: int) { 0 <= a < 0x1_0000_0000 }

  /** a & b, bit by bit. */
  function And(a: nat, b: nat): nat
  {
    if a == 0 then 0 else 2 * And(a / 2, b / 2) + (a % 2) * (b % 2)
  }

  /** A network as it is advertised: an address under its mask. */
  predicate Masked(network: int, mask: int)
  {
    Word(network) && Word(mask) && And(network, mask) == network
  }

  predicate Matches(r: Route, dst: int)
    requires Word(dst)
  {
    Masked(r.dest, r.mask) && And(dst, r.mask) == r.dest
  }

  /** The `n` lowest bits of a number, most significant first. */
  function BitsOf(a: nat, n: nat): (bits: seq<bool>)
    ensures |bits| == n
  {
    if n == 0 then [] else BitsOf(a / 2, n - 1) + [a % 2 == 1]
  }

  lemma {:induction false} AndOfBits(a: nat, b: nat, n: nat, k: nat)
    requires k < n
    ensures BitsOf(And(a, b), n)[k] <==> BitsOf(a, n)[k] && BitsOf(b, n)[k]
    decreases n
  {
    if a == 0 {
      NoBits(n, k);
    } else if k < n - 1 {
      AndOfBits(a / 2, b / 2, n - 1, k);
    }
  }

  lemma {:induction false} NoBits(n: nat, k: nat)
    requires k < n
    ensures !BitsOf(0, n)[k]
  {
    if k < n - 1 { NoBits(n - 1, k); }
  }

  function Power(n: nat): nat { if n == 0 then 1 else 2 * Power(n - 1) }

  lemma {:induction false} BitsDetermine(a: nat, b: nat, n: nat)
    requires a < Power(n) && b < Power(n) && BitsOf(a, n) == BitsOf(b, n)
    ensures a == b
  {
    if n > 0 {
      var x, y := BitsOf(a, n), BitsOf(b, n);
      assert x[..n - 1] == BitsOf(a / 2, n - 1) && y[..n - 1] == BitsOf(b / 2, n - 1);
      assert x[n - 1] == y[n - 1];
      BitsDetermine(a / 2, b / 2, n - 1);
    }
  }

  /** The entry that longest prefix match takes: the first of those with the greatest mask. */
  ghost predicate Chosen(rt: seq<Route>, dst: int, i: int)
    requires Word(dst)
  {
    && 0 <= i < |rt| && Matches(rt[i], dst)
    && forall j :: 0 <= j < |rt| && Matches(rt[j], dst) ==>
         rt[j].mask <= rt[i].mask && (rt[j].mask == rt[i].mask ==> i <= j)
  }

  // ------------------------------------------------------------- what matching and choosing mean

  function WordOf(a: int): B.Word
    requires Word(a)
  {
    BitsOf(a, 32)
  }

  lemma {:induction false} AndAtMost(a: nat, b: nat)
    ensures And(a, b) <= a
  {
    if a != 0 { AndAtMost(a / 2, b / 2); }
  }

  lemma AndIsBitwise(a: int, b: int)
    requires Word(a) && Word(b)
    ensures Word(And(a, b)) && WordOf(And(a, b)) == B.And(WordOf(a), WordOf(b))
  {
    AndAtMost(a, b);
    forall k | 0 <= k < 32 ensures WordOf(And(a, b))[k] == B.And(WordOf(a), WordOf(b))[k] {
      AndOfBits(a, b, 32, k);
    }
  }

  lemma PowerOfWord()
    ensures Power(32) == 0x1_0000_0000
  {
    assert Power(8) == 0x100 && Power(16) == 0x1_0000 && Power(24) == 0x100_0000;
  }

  lemma WordsDetermine(a: int, b: int)
    requires Word(a) && Word(b) && WordOf(a) == WordOf(b)
    ensures a == b
  {
    PowerOfWord();
    BitsDetermine(a, b, 32);
  }

  /** Under a contiguous mask an entry matches the addresses that begin as its network does. */
  lemma {:induction false} MatchesIsPrefix(r: Route, dst: int, len: nat)
    requires Word(dst) && Masked(r.dest, r.mask) && len <= 32 && WordOf(r.mask) == B.Mask(len)
    ensures Matches(r, dst) <==> WordOf(dst)[..len] == WordOf(r.dest)[..len]
  {
    AndIsBitwise(dst, r.mask);
    AndIsBitwise(r.dest, r.mask);
    B.MaskedEqualIsSamePrefix(WordOf(dst), WordOf(r.dest), len);
    if WordOf(And(dst, r.mask)) == WordOf(r.dest) { WordsDetermine(And(dst, r.mask), r.dest); }
  }

  lemma {:induction false} SmallerHasLess(a: nat, b: nat, n: nat) returns (k: nat)
    requires a < b < Power(n)
    ensures k < n && BitsOf(a, n)[..k] == BitsOf(b, n)[..k] && !BitsOf(a, n)[k] && BitsOf(b, n)[k]
  {
    if a / 2 < b / 2 {
      k := SmallerHasLess(a / 2, b / 2, n - 1);
      assert BitsOf(a, n)[..k] == BitsOf(a / 2, n - 1)[..k] && BitsOf(b, n)[..k] == BitsOf(b / 2, n - 1)[..k];
    } else {
      k := n - 1;
      assert a / 2 == b / 2;
    }
  }

  lemma SmallerIsLess(a: int, b: int)
    requires Word(a) && Word(b) && a < b
    ensures B.Less(WordOf(a), WordOf(b))
  {
    PowerOfWord();
    var k := SmallerHasLess(a, b, 32);
  }

  lemma LessIsStrict(m: nat)
    ensures !B.Less(B.Mask(m), B.Mask(m))
  {}

  /** Contiguous masks compare as their lengths. */
  lemma MaskNumbers(a: int, b: int, m: nat, n: nat)
    requires Word(a) && Word(b) && m <= 32 && n <= 32 && WordOf(a) == B.Mask(m) && WordOf(b) == B.Mask(n)
    ensures a < b <==> m < n
  {
    B.MaskOrder(m, n);
    B.MaskOrder(n, m);
    LessIsStrict(m);
    if a < b { SmallerIsLess(a, b); }
    if b < a { SmallerIsLess(b, a); }
  }

  ghost predicate Contiguous(rt: seq<Route>, lens: seq<nat>)
  {
    |lens| == |rt| && forall j :: 0 <= j < |rt| ==> ContiguousAt(rt[j], lens[j])
  }

  ghost predicate ContiguousAt(r: Route, len: nat)
  {
    len <= 32 && Masked(r.dest, r.mask) && WordOf(r.mask) == B.Mask(len)
  }

  /** In a table of contiguous masks the entry chosen has the longest prefix of the address, and is
      the first that has. */
  lemma {:induction false} ChosenIsLongest(rt: seq<Route>, lens: seq<nat>, dst: int, i: int, j: int)
    requires Word(dst) && Contiguous(rt, lens) && Chosen(rt, dst, i)
    requires 0 <= j < |rt| && WordOf(dst)[..lens[j]] == WordOf(rt[j].dest)[..lens[j]]
    ensures WordOf(dst)[..lens[i]] == WordOf(rt[i].dest)[..lens[i]]
    ensures lens[j] <= lens[i] && (lens[j] == lens[i] ==> i <= j)
  {
    assert ContiguousAt(rt[i], lens[i]) && ContiguousAt(rt[j], lens[j]);
    MatchesIsPrefix(rt[i], dst, lens[i]);
    MatchesIsPrefix(rt[j], dst, lens[j]);
    MaskNumbers(rt[i].mask, rt[j].mask, lens[i], lens[j]);
    MaskNumbers(rt[j].mask, rt[i].mask, lens[j], lens[i]);
  }

  /** The router has a direct route to each network it advertises, and no other direct ones. */
  ghost predicate DirectRoutes(own: seq<Lsa>, direct: seq<Route>)
  {
    && (forall i :: 0 <= i < |direct| ==> direct[i].gw == 0 && Advertises(own, direct[i].dest, direct[i].mask))
    && (forall n, m :: Advertises(own, n, m) ==> Has(direct, n, m))
  }

  ghost predicate WellKept(net: Network, x: int)
    requires x in net.db && x in net.nbrs && x in net.tables && x in net.adv
  {
    exists direct :: Updated(x, net.db[x], net.nbrs[x], direct, net.tables[x]) && DirectRoutes(net.adv[x], direct)
  }

  ghost predicate AllMasked(lsas: seq<Lsa>)
  {
    forall i :: 0 <= i < |lsas| ==> Masked(lsas[i].network, lsas[i].mask)
  }

  ghost predicate Ready(net: Network)
  {
    && Converged(net)
    && (forall x :: x in net.adv ==> WellKept(net, x))
    && (forall x :: x in net.adv ==> AllMasked(net.adv[x]))
  }

  ghost predicate Advertised(net: Network, n: int, m: int)
  {
    exists a :: Advertiser(net, a, n, m)
  }

  // ----------------------------------------------------------------- what is in the tables

  lemma OwnIsHeld(own: seq<Lsa>, direct: seq<Route>, rt: seq<Route>, n: int, m: int)
    requires DirectRoutes(own, direct) && direct <= rt && Advertises(own, n, m)
    ensures Has(rt, n, m)
  {
    var i :| 0 <= i < |direct| && direct[i].dest == n && direct[i].mask == m;
    assert rt[i] == direct[i];
  }

  lemma AdvertisedIsHeld(net: Network, x: int, a: int, n: int, m: int)
    requires Ready(net) && x in net.adv && Advertiser(net, a, n, m)
    ensures x in net.tables && Has(net.tables[x], n, m)
  {
    assert WellKept(net, x);
    var direct: seq<Route> :|
      Updated(x, net.db[x], net.nbrs[x], direct, net.tables[x]) && DirectRoutes(net.adv[x], direct);
    if a == x {
      OwnIsHeld(net.adv[x], direct, net.tables[x], n, m);
    } else {
      AdvertisedInSync(net, x, n, m);
      assert a in Advertisers(net, n, m);
    }
  }

  /** Each table has a route for every network advertised anywhere, and for no other. */
  lemma TablesHaveTheSame(net: Network, x: int, n: int, m: int)
    requires Ready(net) && x in net.adv
    ensures x in net.tables && (Has(net.tables[x], n, m) <==> Advertised(net, n, m))
  {
    assert WellKept(net, x);
    if Has(net.tables[x], n, m) {
      var i :| 0 <= i < |net.tables[x]| && net.tables[x][i].dest == n && net.tables[x][i].mask == m;
      RouteIsAdvertised(net, x, i);
    }
    if a :| Advertiser(net, a, n, m) { AdvertisedIsHeld(net, x, a, n, m); }
  }

  lemma RouteIsAdvertised(net: Network, x: int, i: nat)
    requires Ready(net) && x in net.adv && i < |net.tables[x]|
    ensures Advertised(net, net.tables[x][i].dest, net.tables[x][i].mask)
  {
    var r := net.tables[x][i];
    if !Advertiser(net, x, r.dest, r.mask) {
      ForeignRoute(net, x, i);
      AdvertisedInSync(net, x, r.dest, r.mask);
      var a, h, d :| Via(x, net.db[x], net.nbrs[x], r, a, h, d);
      assert a in Advertisers(net, r.dest, r.mask) && Advertiser(net, a, r.dest, r.mask);
    }
  }

  lemma OwnIsDirect(own: seq<Lsa>, direct: seq<Route>, rt: seq<Route>, i: nat)
    requires |direct| <= |rt| && rt[..|direct|] == direct && OneRouteEach(rt) && DirectRoutes(own, direct)
    requires i < |rt| && Advertises(own, rt[i].dest, rt[i].mask)
    ensures rt[i].gw == 0
  {
    var k :| 0 <= k < |direct| && direct[k].dest == rt[i].dest && direct[k].mask == rt[i].mask;
    assert rt[k] == direct[k] && (i < |direct| ==> rt[i] == direct[i]);
  }

  /** A route over a gateway is for a network that the router does not advertise itself. */
  lemma GatewayIsForeign(net: Network, x: int, i: nat)
    requires Ready(net) && x in net.adv && x in net.tables && i < |net.tables[x]| && net.tables[x][i].gw != 0
    ensures !Advertiser(net, x, net.tables[x][i].dest, net.tables[x][i].mask)
  {
    assert WellKept(net, x);
    var rt := net.tables[x];
    var direct: seq<Route> :|
      Updated(x, net.db[x], net.nbrs[x], direct, rt) && DirectRoutes(net.adv[x], direct);
    if Advertises(net.adv[x], rt[i].dest, rt[i].mask) { OwnIsDirect(net.adv[x], direct, rt, i); }
  }

  /** The networks in a table are masked. */
  lemma RouteIsMasked(net: Network, x: int, i: nat)
    requires Ready(net) && x in net.adv && i < |net.tables[x]|
    ensures Masked(net.tables[x][i].dest, net.tables[x][i].mask)
  {
    RouteIsAdvertised(net, x, i);
    var a :| Advertiser(net, a, net.tables[x][i].dest, net.tables[x][i].mask);
    assert AllMasked(net.adv[a]);
  }

  /** All routers choose the same network for an address. */
  lemma {:induction false} SameChoice(net: Network, dst: int, x: int, i: int, y: int, j: int)
    requires Ready(net) && Word(dst) && x in net.adv && y in net.adv
    requires Chosen(net.tables[x], dst, i) && Chosen(net.tables[y], dst, j)
    ensures net.tables[x][i].dest == net.tables[y][j].dest && net.tables[x][i].mask == net.tables[y][j].mask
  {
    MaskNoGreater(net, dst, x, i, y, j);
    MaskNoGreater(net, dst, y, j, x, i);
  }

  lemma MaskNoGreater(net: Network, dst: int, x: int, i: int, y: int, j: int)
    requires Ready(net) && Word(dst) && x in net.adv && y in net.adv
    requires Chosen(net.tables[x], dst, i) && Chosen(net.tables[y], dst, j)
    ensures net.tables[x][i].mask <= net.tables[y][j].mask
  {
    var r := net.tables[x][i];
    TablesHaveTheSame(net, x, r.dest, r.mask);
    TablesHaveTheSame(net, y, r.dest, r.mask);
    var k :| 0 <= k < |net.tables[y]| && net.tables[y][k].dest == r.dest && net.tables[y][k].mask == r.mask;
    assert Matches(net.tables[y][k], dst);
  }

  // ---------------------------------------------------------------------- hop by hop

  /** `x` passes a packet for the address on to `h`. */
  ghost predicate PassesOn(net: Network, x: int, h: int, dst: int)
    requires Word(dst)
  {
    x in net.tables && x in net.nbrs &&
    exists i :: Chosen(net.tables[x], dst, i) && Leads(net.tables[x][i], net.nbrs[x], h)
  }

  ghost predicate Leads(r: Route, nbrs: seq<Neighbour>, h: int)
  {
    r.gw != 0 && Neighbour(h, r.gw, r.iface) in nbrs
  }

  ghost predicate AddressPath(net: Network, path: seq<int>, dst: int)
    requires Word(dst)
  {
    if |path| <= 1 then path != [] && path[0] in net.adv
    else path[0] in net.adv && PassesOn(net, path[0], path[1], dst) && AddressPath(net, path[1..], dst)
  }

  /** The network that router `x` chooses for the address. */
  ghost predicate Chooses(net: Network, x: int, dst: int, n: int, m: int)
    requires Word(dst)
  {
    x in net.tables &&
    exists i :: Chosen(net.tables[x], dst, i) && net.tables[x][i].dest == n && net.tables[x][i].mask == m
  }

  lemma HopForNetwork(net: Network, x: int, h: int, dst: int) returns (n: int, m: int)
    requires Ready(net) && Word(dst) && x in net.adv && PassesOn(net, x, h, dst)
    ensures Chooses(net, x, dst, n, m) && !Advertiser(net, x, n, m) && Forwards(net, x, h, n, m)
  {
    var i :| Chosen(net.tables[x], dst, i) && Leads(net.tables[x][i], net.nbrs[x], h);
    n, m := net.tables[x][i].dest, net.tables[x][i].mask;
    GatewayIsForeign(net, x, i);
    assert RouteTo(net.tables[x][i], net.nbrs[x], h, n, m);
  }

  lemma ChoosesSame(net: Network, dst: int, x: int, y: int, n: int, m: int, n': int, m': int)
    requires Ready(net) && Word(dst) && x in net.adv && y in net.adv
    requires Chooses(net, x, dst, n, m) && Chooses(net, y, dst, n', m')
    ensures n == n' && m == m'
  {
    var i :| Chosen(net.tables[x], dst, i) && net.tables[x][i].dest == n && net.tables[x][i].mask == m;
    var j :| Chosen(net.tables[y], dst, j) && net.tables[y][j].dest == n' && net.tables[y][j].mask == m';
    SameChoice(net, dst, x, i, y, j);
  }

  /** So a packet for an address is forwarded as one for a network is. */
  lemma {:induction false} PathForNetwork(net: Network, path: seq<int>, dst: int, n: int, m: int)
    requires Ready(net) && Word(dst) && AddressPath(net, path, dst)
    requires Chooses(net, path[0], dst, n, m) && path[0] in net.adv
    ensures ForwardingPath(net, path, n, m)
    decreases |path|
  {
    if |path| > 1 {
      var n', m' := HopForNetwork(net, path[0], path[1], dst);
      ChoosesSame(net, dst, path[0], path[0], n, m, n', m');
      if |path| > 2 {
        assert PassesOn(net, path[1], path[1..][1], dst);
        n', m' := HopForNetwork(net, path[1], path[1..][1], dst);
        ChoosesSame(net, dst, path[0], path[1], n, m, n', m');
        PathForNetwork(net, path[1..], dst, n, m);
      }
    }
  }

  /** A first hop presupposes an advertiser at some distance. */
  lemma FirstHopHasDistance(net: Network, x: int, h: int, n: int, m: int) returns (d: nat)
    requires Converged(net) && x in net.adv && !Advertiser(net, x, n, m) && Forwards(net, x, h, n, m)
    ensures AtDistance(net, x, n, m, d)
  {
    var r, a;
    r, a, d := InstalledRoute(net, x, h, n, m);
    assert UpToDate(net, x);
    SameGraph(net, x);
    AdvertisedInSync(net, x, n, m);
    assert a in Advertisers(net, n, m);
    forall b, k: nat | b in Advertisers(net, n, m) && Walk(Graph(net), x, b, k) ensures d <= k {
      assert Advertiser(net, b, n, m);
    }
  }

  /** No forwarding loop for any address: with longest prefix match in every table, over networks
      that may overlap, a packet never meets a router twice. */
  lemma {:induction false} AddressLoopFree(net: Network, path: seq<int>, dst: int)
    requires Ready(net) && Word(dst) && AddressPath(net, path, dst)
    ensures forall i, j :: 0 <= i < j < |path| ==> path[i] != path[j]
  {
    if |path| > 1 {
      var n, m := HopForNetwork(net, path[0], path[1], dst);
      PathForNetwork(net, path, dst, n, m);
      var d := FirstHopHasDistance(net, path[0], path[1], n, m);
      NoForwardingLoop(net, path, n, m, d);
    }
  }

  lemma OneRouteForChoice(net: Network, x: int, i: int, j: int)
    requires Ready(net) && x in net.adv && 0 <= i < |net.tables[x]| && 0 <= j < |net.tables[x]|
    requires net.tables[x][j].gw != 0
    requires net.tables[x][i].dest == net.tables[x][j].dest && net.tables[x][i].mask == net.tables[x][j].mask
    ensures i == j
  {
    GatewayIsForeign(net, x, j);
    ForeignRoute(net, x, i);
    assert UpToDate(net, x);
  }

  lemma HopByChoice(net: Network, x: int, h: int, dst: int, n: int, m: int)
    requires Ready(net) && Word(dst) && x in net.adv && Forwards(net, x, h, n, m) && Chooses(net, x, dst, n, m)
    ensures PassesOn(net, x, h, dst)
  {
    var i :| Chosen(net.tables[x], dst, i) && net.tables[x][i].dest == n && net.tables[x][i].mask == m;
    var j :| 0 <= j < |net.tables[x]| && RouteTo(net.tables[x][j], net.nbrs[x], h, n, m);
    OneRouteForChoice(net, x, i, j);
    assert Leads(net.tables[x][i], net.nbrs[x], h);
  }

  lemma {:induction false} ChoosesEverywhere(net: Network, x: int, y: int, dst: int, n: int, m: int)
    requires Ready(net) && Word(dst) && x in net.adv && y in net.adv && Chooses(net, x, dst, n, m)
    ensures Chooses(net, y, dst, n, m)
  {
    var i :| Chosen(net.tables[x], dst, i) && net.tables[x][i].dest == n && net.tables[x][i].mask == m;
    TablesHaveTheSame(net, x, n, m);
    TablesHaveTheSame(net, y, n, m);
    var k :| 0 <= k < |net.tables[y]| && net.tables[y][k].dest == n && net.tables[y][k].mask == m;
    assert Matches(net.tables[y][k], dst);
    var j := SomeChosen(net.tables[y], dst, k);
    ChoosesSame(net, dst, x, y, n, m, net.tables[y][j].dest, net.tables[y][j].mask);
  }

  /** Of the places `hits` below `len`, the first of those with the greatest mask. */
  lemma {:induction false} LongestOf(rt: seq<Route>, hits: set<int>, len: nat, k: int) returns (i: int)
    requires len <= |rt| && 0 <= k < len && k in hits
    ensures 0 <= i < len && i in hits
    ensures forall j :: 0 <= j < len && j in hits ==>
              rt[j].mask <= rt[i].mask && (rt[j].mask == rt[i].mask ==> i <= j)
    decreases len
  {
    var last := len - 1;
    if j :| 0 <= j < last && j in hits {
      i := LongestOf(rt, hits, last, j);
      if last in hits && rt[i].mask < rt[last].mask { i := last; }
    } else {
      i := last;
    }
  }

  /** Where something matches, something is chosen. */
  lemma SomeChosen(rt: seq<Route>, dst: int, k: int) returns (i: int)
    requires Word(dst) && 0 <= k < |rt| && Matches(rt[k], dst)
    ensures Chosen(rt, dst, i)
  {
    i := LongestOf(rt, set j | 0 <= j < |rt| && Matches(rt[j], dst), |rt|, k);
  }

  lemma {:induction false} PathByChoice(net: Network, path: seq<int>, dst: int, n: int, m: int)
    requires Ready(net) && Word(dst) && ForwardingPath(net, path, n, m) && Chooses(net, path[0], dst, n, m)
    ensures AddressPath(net, path, dst)
    decreases |path|
  {
    if |path| > 1 {
      HopByChoice(net, path[0], path[1], dst, n, m);
      ChoosesEverywhere(net, path[0], path[1], dst, n, m);
      PathByChoice(net, path[1..], dst, n, m);
    }
  }

  /** And it arrives: from a router that chooses a network for the address and can reach an
      advertiser of it, in as many hops as the nearest is away. */
  lemma {:induction false} AddressDelivers(net: Network, x: int, dst: int, n: int, m: int, d: nat)
      returns (path: seq<int>)
    requires Ready(net) && Word(dst) && x in net.adv && Chooses(net, x, dst, n, m) && AtDistance(net, x, n, m, d)
    ensures AddressPath(net, path, dst) && |path| == d + 1 && path[0] == x && Advertiser(net, path[d], n, m)
  {
    path := ForwardingDelivers(net, x, n, m, d);
    PathByChoice(net, path, dst, n, m);
  }

  // ------------------------------------------------------------- from flooding to addresses

  /** Every router has updated its table from direct routes to its own networks, all of them. */
  ghost predicate AllKept(ifaces: C.Interfaces, lists: C.Lists, s: F.State, tables: C.Tables)
  {
    && tables.Keys == ifaces.Keys
    && forall x :: x in ifaces ==>
         x in s.db && x in lists && Kept(F.LsasOf(ifaces[x]), x, s.db[x], lists[x], tables[x])
  }

  ghost predicate Kept(own: seq<Lsa>, x: int, db: seq<DbEntry>, list: seq<Neighbour>, table: seq<Route>)
  {
    AllMasked(own) && exists direct :: Updated(x, db, list, direct, table) && DirectRoutes(own, direct)
  }

  /** In every run, once flooding has settled and every router has updated its table, all is ready
      for addresses. */
  lemma {:induction false} FloodedIsReady(ifaces: C.Interfaces, lists: C.Lists, h: F.History, tables: C.Tables)
    requires C.Flooded(ifaces, lists, h) && AllKept(ifaces, lists, F.Result(h), tables)
    ensures Ready(C.Known(F.Result(h), lists, tables))
  {
    var s, net := F.Result(h), C.Known(F.Result(h), lists, tables);
    forall x | x in ifaces ensures C.HasUpdated(F.LsasOf(ifaces[x]), x, s.db[x], lists[x], tables[x]) {
      assert Kept(F.LsasOf(ifaces[x]), x, s.db[x], lists[x], tables[x]);
    }
    C.FloodingThenUpdatingConverges(ifaces, lists, h, tables);
    forall x | x in net.adv ensures WellKept(net, x) && AllMasked(net.adv[x]) {
      C.KnownByInterfaces(ifaces, lists, h, tables, x);
      assert Kept(F.LsasOf(ifaces[x]), x, s.db[x], lists[x], tables[x]);
    }
  }

  /** From interfaces to tables: every router has a route for exactly the networks that some router's
      interface is on, its own if it has no neighbours there and else its neighbours'. */
  lemma {:induction false} FloodedTablesExactly(ifaces: C.Interfaces, lists: C.Lists, h: F.History,
                                                tables: C.Tables, x: int, n: int, m: int)
    requires C.Flooded(ifaces, lists, h) && AllKept(ifaces, lists, F.Result(h), tables) && x in ifaces
    ensures x in tables
    ensures Has(tables[x], n, m) <==>
              exists y, i :: y in ifaces && 0 <= i < |ifaces[y]| && F.NetworkOn(ifaces[y][i], n, m)
  {
    var net := C.Known(F.Result(h), lists, tables);
    FloodedIsReady(ifaces, lists, h, tables);
    C.KnownByInterfaces(ifaces, lists, h, tables, x);
    TablesHaveTheSame(net, x, n, m);
    if a :| Advertiser(net, a, n, m) { AdvertiserHasInterface(ifaces, lists, h, tables, a, n, m); }
    if y, i :| y in ifaces && 0 <= i < |ifaces[y]| && F.NetworkOn(ifaces[y][i], n, m) {
      C.KnownByInterfaces(ifaces, lists, h, tables, y);
      F.AnnouncesNetworks(ifaces[y], n, m);
      assert Advertiser(net, y, n, m);
    }
  }

  lemma AdvertiserHasInterface(ifaces: C.Interfaces, lists: C.Lists, h: F.History, tables: C.Tables,
                               a: int, n: int, m: int)
    requires C.Flooded(ifaces, lists, h) && Advertiser(C.Known(F.Result(h), lists, tables), a, n, m)
    ensures a in ifaces && exists i :: 0 <= i < |ifaces[a]| && F.NetworkOn(ifaces[a][i], n, m)
  {
    C.FloodedTopology(ifaces, lists, h);
    C.KnownByInterfaces(ifaces, lists, h, tables, a);
    F.AnnouncesNetworks(ifaces[a], n, m);
  }

  /** From announcements to forwarding by address: no packet meets a router twice. */
  lemma {:induction false} FloodedAddressLoopFree(ifaces: C.Interfaces, lists: C.Lists, h: F.History,
                                                  tables: C.Tables, path: seq<int>, dst: int)
    requires C.Flooded(ifaces, lists, h) && AllKept(ifaces, lists, F.Result(h), tables)
    requires Word(dst) && AddressPath(C.Known(F.Result(h), lists, tables), path, dst)
    ensures forall i, j :: 0 <= i < j < |path| ==> path[i] != path[j]
  {
    FloodedIsReady(ifaces, lists, h, tables);
    AddressLoopFree(C.Known(F.Result(h), lists, tables), path, dst);
  }
}
