/** Flooding of link-state updates: what a router does with one, the routers together over
    links that reorder but do not lose, and where every run of theirs ends. */
module Flooding {
  import opened LinkState
  import opened Hops

  const MAX_TTL := 255
  const MAX_NUM := 65535

  /** An 8-bit word. */
  type Octet = x: int | 0 <= x < 256

  datatype Lsu = Lsu(origin: int, num: nat, ttl: Octet, lsas: seq<Lsa>)

  /** The decrement of the 8-bit TTL wraps. */
  function Lowered(ttl: Octet): (r: Octet)
    ensures r == (ttl + 255) % 256
  {
    if ttl == 0 then 255 else ttl - 1
  }

  // ------------------------------------------------------------------- the database of one

  function Find(db: seq<DbEntry>, rid: int): (i: int)
    ensures -1 <= i < |db|
    ensures i == -1 <==> forall j :: 0 <= j < |db| ==> db[j].rid != rid
    ensures i != -1 ==> db[i].rid == rid
  {
    if db == [] then -1
    else
      var i := Find(db[..|db| - 1], rid);
      if i != -1 then i
      else if db[|db| - 1].rid == rid then |db| - 1
      else
        assert forall j :: 0 <= j < |db| - 1 ==> db[..|db| - 1][j] == db[j];
        -1
  }

  /** The number stored for a router, 0 if none: no update carries 0. */
  function Stored(db: seq<DbEntry>, rid: int): nat
  {
    var i := Find(db, rid); if i == -1 then 0 else db[i].num
  }

  /** Whether an update is accepted: nothing stored, or something older. */
  predicate Accepts(db: seq<DbEntry>, lsu: Lsu)
  {
    var i := Find(db, lsu.origin); i == -1 || db[i].num < lsu.num
  }

  function Store(db: seq<DbEntry>, lsu: Lsu): seq<DbEntry>
  {
    var i := Find(db, lsu.origin);
    var e := DbEntry(lsu.origin, lsu.num, lsu.lsas);
    if i == -1 then db + [e] else db[i := e]
  }

  ghost predicate OneEntryEach(db: seq<DbEntry>)
  {
    forall i, j :: 0 <= i < j < |db| ==> db[i].rid != db[j].rid
  }

  lemma FindIs(db: seq<DbEntry>, i: nat)
    requires OneEntryEach(db) && i < |db|
    ensures Find(db, db[i].rid) == i
  {}

  lemma StoreKeepsOneEach(db: seq<DbEntry>, lsu: Lsu)
    requires OneEntryEach(db)
    ensures OneEntryEach(Store(db, lsu))
    ensures Stored(Store(db, lsu), lsu.origin) == lsu.num
  {
    var k := Find(db, lsu.origin);
    FindIs(Store(db, lsu), if k == -1 then |db| else k);
  }

  /** Storing replaces the origin's entry, adds it if there was none, and no other. */
  lemma {:induction false} StoreReplacesOne(db: seq<DbEntry>, lsu: Lsu)
    requires OneEntryEach(db)
    ensures OneEntryEach(Store(db, lsu))
    ensures Stored(Store(db, lsu), lsu.origin) == lsu.num
    ensures forall r :: r != lsu.origin ==> Stored(Store(db, lsu), r) == Stored(db, r)
    ensures forall i :: 0 <= i < |Store(db, lsu)| ==>
              Store(db, lsu)[i] in db || Store(db, lsu)[i] == DbEntry(lsu.origin, lsu.num, lsu.lsas)
  {
    StoreKeepsOneEach(db, lsu);
    forall r | r != lsu.origin ensures Stored(Store(db, lsu), r) == Stored(db, r) {
      StoreKeepsOther(db, lsu, r);
    }
  }

  lemma StoreKeepsOther(db: seq<DbEntry>, lsu: Lsu, r: int)
    requires OneEntryEach(db) && OneEntryEach(Store(db, lsu)) && r != lsu.origin
    ensures Stored(Store(db, lsu), r) == Stored(db, r)
  {
    var t, i := Store(db, lsu), Find(db, r);
    if i == -1 {
      assert forall j :: 0 <= j < |t| ==> t[j].rid != r;
    } else {
      assert t[i] == db[i];
      FindIs(t, i);
    }
  }

  // ----------------------------------------------------------------- what a router announces

  datatype Adjacency = Adjacency(id: int, network: int, mask: int)

  /** An interface: the network it is on (its address under its mask) and its neighbour list. */
  datatype Interface = Interface(network: int, mask: int, nbrs: seq<Adjacency>)

  function IdsOn(nbrs: seq<Adjacency>): (ids: seq<int>)
    ensures |ids| == |nbrs| && forall i :: 0 <= i < |nbrs| ==> ids[i] == nbrs[i].id
  {
    seq(|nbrs|, i requires 0 <= i < |nbrs| => nbrs[i].id)
  }

  /** The neighbours, interface by interface. */
  function NbrIds(ifaces: seq<Interface>): seq<int>
  {
    if ifaces == [] then [] else NbrIds(ifaces[..|ifaces| - 1]) + IdsOn(ifaces[|ifaces| - 1].nbrs)
  }

  /** One entry per neighbour, or one for the network itself where there is none. */
  function LsasOn(iface: Interface): (lsas: seq<Lsa>)
  {
    if iface.nbrs == [] then [Lsa(iface.network, iface.mask, 0)]
    else seq(|iface.nbrs|, i requires 0 <= i < |iface.nbrs| =>
               Lsa(iface.nbrs[i].network, iface.nbrs[i].mask, iface.nbrs[i].id))
  }

  function LsasOf(ifaces: seq<Interface>): seq<Lsa>
  {
    if ifaces == [] then [] else LsasOf(ifaces[..|ifaces| - 1]) + LsasOn(ifaces[|ifaces| - 1])
  }

  lemma NamesOn(iface: Interface, id: int)
    requires id != 0
    ensures Names(LsasOn(iface), id) <==> id in IdsOn(iface.nbrs)
  {
    var lsas, ids := LsasOn(iface), IdsOn(iface.nbrs);
    if id in ids {
      var i :| 0 <= i < |ids| && ids[i] == id;
      assert lsas[i].rid == id;
    }
    if Names(lsas, id) {
      var i :| 0 <= i < |lsas| && lsas[i].rid == id;
      assert ids[i] == id;
    }
  }

  lemma NamesBoth(a: seq<Lsa>, b: seq<Lsa>, id: int)
    ensures Names(a + b, id) <==> Names(a, id) || Names(b, id)
  {
    if i :| 0 <= i < |a| && a[i].rid == id { assert (a + b)[i].rid == id; }
    if i :| 0 <= i < |b| && b[i].rid == id { assert (a + b)[|a| + i].rid == id; }
  }

  /** A router announces a link to another exactly when that one is in a neighbour list. */
  lemma {:induction false} AnnouncesNeighbours(ifaces: seq<Interface>, id: int)
    requires id != 0
    ensures Names(LsasOf(ifaces), id) <==> id in NbrIds(ifaces)
  {
    if ifaces != [] {
      var front, last := ifaces[..|ifaces| - 1], ifaces[|ifaces| - 1];
      AnnouncesNeighbours(front, id);
      NamesOn(last, id);
      NamesBoth(LsasOf(front), LsasOn(last), id);
    }
  }

  /** What one interface has announced: each neighbour's network with the neighbour's identifier; or,
      where there is no neighbour, its own network with none. */
  ghost predicate AnnouncedOn(iface: Interface, l: Lsa)
  {
    || (iface.nbrs == [] && l.network == iface.network && l.mask == iface.mask && l.rid == 0)
    || exists k :: 0 <= k < |iface.nbrs| &&
         iface.nbrs[k].network == l.network && iface.nbrs[k].mask == l.mask && iface.nbrs[k].id == l.rid
  }

  lemma AnnouncesOn(iface: Interface, l: Lsa)
    ensures l in LsasOn(iface) <==> AnnouncedOn(iface, l)
  {
    var lsas := LsasOn(iface);
    if k :| 0 <= k < |iface.nbrs| && iface.nbrs[k].network == l.network && iface.nbrs[k].mask == l.mask
            && iface.nbrs[k].id == l.rid {
      assert lsas[k] == l;
    }
  }

  ghost predicate AnnouncedBy(ifaces: seq<Interface>, l: Lsa)
  {
    exists i :: 0 <= i < |ifaces| && AnnouncedOn(ifaces[i], l)
  }

  lemma AnnouncedByOneMore(front: seq<Interface>, last: Interface, l: Lsa)
    ensures AnnouncedBy(front + [last], l) <==> AnnouncedBy(front, l) || AnnouncedOn(last, l)
  {
    var ifaces := front + [last];
    if i :| 0 <= i < |front| && AnnouncedOn(front[i], l) { assert AnnouncedOn(ifaces[i], l); }
    if AnnouncedOn(last, l) { assert AnnouncedOn(ifaces[|front|], l); }
  }

  /** What is announced, entry by entry: nothing but what some interface has to announce, and all of it. */
  lemma {:induction false} AnnouncesExactly(ifaces: seq<Interface>, l: Lsa)
    ensures l in LsasOf(ifaces) <==> AnnouncedBy(ifaces, l)
  {
    if ifaces != [] {
      var front, last := ifaces[..|ifaces| - 1], ifaces[|ifaces| - 1];
      AnnouncesExactly(front, l);
      AnnouncesOn(last, l);
      AnnouncedByOneMore(front, last, l);
      assert front + [last] == ifaces;
    }
  }

  /** The networks announced: those of interfaces without neighbours, and those of the neighbours. */
  lemma {:induction false} AnnouncesNetworks(ifaces: seq<Interface>, n: int, m: int)
    ensures Advertises(LsasOf(ifaces), n, m) <==>
              exists i :: 0 <= i < |ifaces| && NetworkOn(ifaces[i], n, m)
  {
    var lsas := LsasOf(ifaces);
    if k :| 0 <= k < |lsas| && lsas[k].network == n && lsas[k].mask == m {
      AnnouncesExactly(ifaces, lsas[k]);
      var i :| 0 <= i < |ifaces| && AnnouncedOn(ifaces[i], lsas[k]);
      assert NetworkOn(ifaces[i], n, m);
    }
    if i :| 0 <= i < |ifaces| && NetworkOn(ifaces[i], n, m) {
      var l := NetworkIsAnnounced(ifaces[i], n, m);
      AnnouncesExactly(ifaces, l);
    }
  }

  ghost predicate NetworkOn(iface: Interface, n: int, m: int)
  {
    || (iface.nbrs == [] && iface.network == n && iface.mask == m)
    || exists k :: 0 <= k < |iface.nbrs| && iface.nbrs[k].network == n && iface.nbrs[k].mask == m
  }

  lemma NetworkIsAnnounced(iface: Interface, n: int, m: int) returns (l: Lsa)
    requires NetworkOn(iface, n, m)
    ensures l.network == n && l.mask == m && AnnouncedOn(iface, l)
  {
    if iface.nbrs == [] {
      l := Lsa(n, m, 0);
    } else {
      var k :| 0 <= k < |iface.nbrs| && iface.nbrs[k].network == n && iface.nbrs[k].mask == m;
      l := Lsa(n, m, iface.nbrs[k].id);
    }
  }

  /** The number of entries that the source counts first: one per neighbour or lonely interface. */
  function EntryCount(ifaces: seq<Interface>): nat
  {
    if ifaces == [] then 0
    else
      var last := ifaces[|ifaces| - 1];
      EntryCount(ifaces[..|ifaces| - 1]) + if last.nbrs == [] then 1 else |last.nbrs|
  }

  lemma {:induction false} EntriesAreCounted(ifaces: seq<Interface>)
    ensures |LsasOf(ifaces)| == EntryCount(ifaces)
  {
    if ifaces != [] { EntriesAreCounted(ifaces[..|ifaces| - 1]); }
  }

  /** The router's own part in flooding, as an object. */
  class LsuHandler {
    const id: int
    var ifaces: seq<Interface>
    var db: seq<DbEntry>
    /** 16 bits. */
    var sequenceNum: nat
    /** Updates handed to the network layer, with the neighbour each is for. */
    var out: seq<(int, Lsu)>

    constructor (id: int, ifaces: seq<Interface>)
      ensures this.id == id && this.ifaces == ifaces && db == [] && sequenceNum == 0 && out == []
    {
      this.id, this.ifaces := id, ifaces;
      db, sequenceNum, out := [], 0, [];
    }

    /** The first loop: how many entries there will be. */
    method CountEntries() returns (n: nat)
      ensures n == |LsasOf(ifaces)|
    {
      n := 0;
      for i := 0 to |ifaces|
        invariant n == EntryCount(ifaces[..i])
      {
        assert ifaces[..i + 1][..i] == ifaces[..i];
        if |ifaces[i].nbrs| == 0 {
          n := n + 1;
        } else {
          n := n + |ifaces[i].nbrs|;
        }
      }
      assert ifaces[..|ifaces|] == ifaces;
      EntriesAreCounted(ifaces);
    }

    method FillArray() returns (lsas: seq<Lsa>)
      ensures lsas == LsasOf(ifaces)
      ensures forall l :: l in lsas <==> exists i :: 0 <= i < |ifaces| && AnnouncedOn(ifaces[i], l)
    {
      lsas := [];
      for i := 0 to |ifaces|
        invariant lsas == LsasOf(ifaces[..i])
      {
        assert ifaces[..i + 1][..i] == ifaces[..i];
        if ifaces[i].nbrs == [] {
          lsas := lsas + [Lsa(ifaces[i].network, ifaces[i].mask, 0)];
        } else {
          ghost var before := lsas;
          for k := 0 to |ifaces[i].nbrs|
            invariant lsas == before + LsasOn(ifaces[i])[..k]
          {
            var n := ifaces[i].nbrs[k];
            assert LsasOn(ifaces[i])[..k + 1] == LsasOn(ifaces[i])[..k] + [LsasOn(ifaces[i])[k]];
            lsas := lsas + [Lsa(n.network, n.mask, n.id)];
          }
          assert LsasOn(ifaces[i])[..|ifaces[i].nbrs|] == LsasOn(ifaces[i]);
        }
      }
      assert ifaces[..|ifaces|] == ifaces;
      forall l ensures l in lsas <==> exists i :: 0 <= i < |ifaces| && AnnouncedOn(ifaces[i], l) {
        AnnouncesExactly(ifaces, l);
      }
    }

    /** A new update of this router's own, naming its neighbours, goes to every one of them. */
    method SendingMospfLsu()
      modifies this`sequenceNum, this`out
      ensures sequenceNum == (old(sequenceNum) + 1) % 65536
      ensures out == old(out) + Addressed(NbrIds(ifaces), Lsu(id, sequenceNum, 255, LsasOf(ifaces)))
    {
      var n := CountEntries();
      var lsas := FillArray();
      assert |lsas| == n;
      sequenceNum := (sequenceNum + 1) % (MAX_NUM + 1);
      SendToAll(Lsu(id, sequenceNum, MAX_TTL, lsas));
    }

    method SendToAll(lsu: Lsu)
      modifies this`out
      ensures out == old(out) + Addressed(NbrIds(ifaces), lsu)
    {
      var nbrs := NbrIds(ifaces);
      for i := 0 to |nbrs|
        invariant out == old(out) + Addressed(nbrs[..i], lsu)
      {
        assert nbrs[..i + 1] == nbrs[..i] + [nbrs[i]];
        AddressedAppend(nbrs[..i], nbrs[i], lsu);
        out := out + [(nbrs[i], lsu)];
      }
      assert nbrs[..|nbrs|] == nbrs;
    }

    /** An update arrives: the database is searched, the entry replaced or added if the update
        is newer, and then the update passed on with its TTL lowered, if any is left. */
    method HandleMospfLsu(lsu: Lsu)
      modifies this`db, this`out
      ensures db == if Accepts(old(db), lsu) then Store(old(db), lsu) else old(db)
      ensures out == old(out) +
                (if Accepts(old(db), lsu) && Lowered(lsu.ttl) > 0
                 then Addressed(Others(NbrIds(ifaces), lsu.origin), lsu.(ttl := Lowered(lsu.ttl))) else [])
    {
      var isUpdated := StoreIfNewer(lsu);
      if !isUpdated { return; }
      var next := lsu.(ttl := Lowered(lsu.ttl));
      if next.ttl > 0 {
        PassOn(next);
      }
    }

    /** A copy for every neighbour but the origin. */
    method PassOn(lsu: Lsu)
      modifies this`out
      ensures out == old(out) + Addressed(Others(NbrIds(ifaces), lsu.origin), lsu)
    {
      var nbrs := NbrIds(ifaces);
      for i := 0 to |nbrs|
        invariant out == old(out) + Addressed(Others(nbrs[..i], lsu.origin), lsu)
      {
        OneMore(old(out), nbrs, i, lsu);
        if nbrs[i] == lsu.origin { continue; }
        out := out + [(nbrs[i], lsu)];
      }
      assert nbrs[..|nbrs|] == nbrs;
    }

    method StoreIfNewer(lsu: Lsu) returns (isUpdated: bool)
      modifies this`db
      ensures isUpdated <==> Accepts(old(db), lsu)
      ensures db == if isUpdated then Store(old(db), lsu) else old(db)
    {
      ghost var k := Find(db, lsu.origin);
      var i := 0;
      FirstIsFound(db, lsu.origin);
      while i < |db|
        invariant 0 <= i <= |db| && forall j :: 0 <= j < i ==> db[j].rid != lsu.origin
      {
        if db[i].rid == lsu.origin {
          isUpdated := db[i].num < lsu.num;
          if isUpdated { db := db[i := DbEntry(lsu.origin, lsu.num, lsu.lsas)]; }
          return;
        }
        i := i + 1;
      }
      db := db + [DbEntry(lsu.origin, lsu.num, lsu.lsas)];
      return true;
    }
  }

  lemma {:induction false} FirstIsFound(db: seq<DbEntry>, rid: int)
    ensures forall j :: 0 <= j < Find(db, rid) ==> db[j].rid != rid
  {
    if db != [] {
      var front := db[..|db| - 1];
      FirstIsFound(front, rid);
      assert forall j :: 0 <= j < |front| ==> front[j] == db[j];
    }
  }

  function Addressed(ids: seq<int>, lsu: Lsu): seq<(int, Lsu)>
  {
    if ids == [] then [] else Addressed(ids[..|ids| - 1], lsu) + [(ids[|ids| - 1], lsu)]
  }

  lemma AddressedAppend(ids: seq<int>, x: int, lsu: Lsu)
    ensures Addressed(ids + [x], lsu) == Addressed(ids, lsu) + [(x, lsu)]
  {}

  /** The neighbours other than the origin; the one it came from is not spared. */
  function Others(ids: seq<int>, origin: int): seq<int>
  {
    if ids == [] then []
    else Others(ids[..|ids| - 1], origin) + (if ids[|ids| - 1] == origin then [] else [ids[|ids| - 1]])
  }

  lemma OthersAppend(ids: seq<int>, x: int, origin: int)
    ensures Others(ids + [x], origin) == Others(ids, origin) + (if x == origin then [] else [x])
  {}

  lemma OneMore(base: seq<(int, Lsu)>, ids: seq<int>, i: nat, lsu: Lsu)
    requires i < |ids|
    ensures base + Addressed(Others(ids[..i + 1], lsu.origin), lsu) ==
            base + Addressed(Others(ids[..i], lsu.origin), lsu) +
            (if ids[i] == lsu.origin then [] else [(ids[i], lsu)])
  {
    var before := Others(ids[..i], lsu.origin);
    assert ids[..i + 1] == ids[..i] + [ids[i]];
    OthersAppend(ids[..i], ids[i], lsu.origin);
    if ids[i] == lsu.origin {
      assert before + [] == before;
    } else {
      AddressedAppend(before, ids[i], lsu);
    }
  }

  // ------------------------------------------------------------------------ all the routers

  /** An update on its way; `trail` lists, as history, who has passed it on. */
  datatype Message = Message(to: int, lsu: Lsu, trail: set<int>)

  /** `published[o]` lists, as history, what router `o` has announced so far. */
  datatype State = State(
    nbrs: map<int, seq<int>>,
    db: map<int, seq<DbEntry>>,
    published: map<int, seq<seq<Lsa>>>,
    flight: seq<Message>)

  /** A router announces itself; an update arrives; a router's neighbour lists change, for hellos
      heard or no longer heard. */
  datatype Step = Originate(o: int, lsas: seq<Lsa>) | Deliver(i: nat) | Relist(u: int, ids: seq<int>)

  /** The routers and links: at most 255 routers, none its own neighbour. */
  ghost predicate Topology(nbrs: map<int, seq<int>>)
  {
    && |nbrs.Keys| <= MAX_TTL
    && (forall u, v :: u in nbrs && v in nbrs[u] ==> v in nbrs && u != v)
  }

  ghost predicate WellFormed(s: State)
  {
    && Topology(s.nbrs) && s.db.Keys == s.nbrs.Keys && s.published.Keys == s.nbrs.Keys
  }

  function Newest(s: State, o: int): nat
  {
    if o in s.published then |s.published[o]| else 0
  }

  /** The newest number of origin `o` that router `u` knows. */
  function Level(s: State, u: int, o: int): nat
  {
    if u == o then Newest(s, o)
    else if u in s.db then Stored(s.db[u], o)
    else 0
  }

  function Init(nbrs: map<int, seq<int>>): State
  {
    State(nbrs, map u | u in nbrs :: [], map u | u in nbrs :: [], [])
  }

  function Messages(ids: seq<int>, lsu: Lsu, trail: set<int>): (ms: seq<Message>)
    ensures |ms| == |ids|
    ensures forall i :: 0 <= i < |ids| ==> ms[i] == Message(ids[i], lsu, trail)
  {
    seq(|ids|, i requires 0 <= i < |ids| => Message(ids[i], lsu, trail))
  }

  predicate Enabled(s: State, st: Step)
  {
    match st
    case Originate(o, _) => o in s.nbrs && o in s.published && |s.published[o]| < MAX_NUM
    case Deliver(i) => i < |s.flight| && s.flight[i].to in s.nbrs && s.flight[i].to in s.db
    case Relist(u, ids) => u in s.nbrs && forall v :: v in ids ==> v in s.nbrs && v != u
  }

  function Without<T>(q: seq<T>, i: nat): seq<T>
    requires i < |q|
  {
    q[..i] + q[i + 1..]
  }

  /** What the router `m.to` sends on when it receives `m`. */
  function PassedOn(s: State, m: Message): seq<Message>
    requires m.to in s.nbrs && m.to in s.db
  {
    if Accepts(s.db[m.to], m.lsu) && Lowered(m.lsu.ttl) > 0
    then Messages(Others(s.nbrs[m.to], m.lsu.origin), m.lsu.(ttl := Lowered(m.lsu.ttl)), m.trail + {m.to})
    else []
  }

  /** What a message is to the network layer. */
  function Packets(ms: seq<Message>): (ps: seq<(int, Lsu)>)
    ensures |ps| == |ms| && forall i :: 0 <= i < |ms| ==> ps[i] == (ms[i].to, ms[i].lsu)
  {
    seq(|ms|, i requires 0 <= i < |ms| => (ms[i].to, ms[i].lsu))
  }

  /** The handler's packets are the system's messages. */
  lemma {:induction false} AddressedAreMessages(ids: seq<int>, lsu: Lsu, trail: set<int>)
    ensures Packets(Messages(ids, lsu, trail)) == Addressed(ids, lsu)
  {
    if ids != [] {
      var front := ids[..|ids| - 1];
      AddressedAreMessages(front, lsu, trail);
      assert Packets(Messages(ids, lsu, trail)) == Packets(Messages(front, lsu, trail)) + [(ids[|ids| - 1], lsu)];
    }
  }

  /** Any update in flight may be the next to arrive. */
  function Next(s: State, st: Step): State
    requires Enabled(s, st)
  {
    match st
    case Originate(o, lsas) =>
      var num := |s.published[o]| + 1;
      s.(published := s.published[o := s.published[o] + [lsas]],
         flight := s.flight + Messages(s.nbrs[o], Lsu(o, num, MAX_TTL, lsas), {}))
    case Deliver(i) =>
      var m := s.flight[i];
      var db := if Accepts(s.db[m.to], m.lsu) then Store(s.db[m.to], m.lsu) else s.db[m.to];
      s.(db := s.db[m.to := db], flight := Without(s.flight, i) + PassedOn(s, m))
    case Relist(u, ids) => s.(nbrs := s.nbrs[u := ids])
  }

  // ----------------------------------------------------------------------------- invariant

  /** An entry or update carries what its origin announced under its number. */
  ghost predicate Genuine(s: State, o: int, num: nat, lsas: seq<Lsa>)
  {
    o in s.published && 1 <= num <= |s.published[o]| && s.published[o][num - 1] == lsas
  }

  ghost predicate MessageOk(s: State, m: Message)
  {
    && m.to in s.nbrs && m.to != m.lsu.origin
    && Genuine(s, m.lsu.origin, m.lsu.num, m.lsu.lsas)
    && m.trail <= s.nbrs.Keys - {m.lsu.origin}
    && m.lsu.ttl == MAX_TTL - |m.trail|
    && (forall w :: w in m.trail ==> m.lsu.num <= Level(s, w, m.lsu.origin))
  }

  ghost predicate DatabaseOk(s: State, u: int)
    requires u in s.db
  {
    && OneEntryEach(s.db[u])
    && (forall i :: 0 <= i < |s.db[u]| ==>
          s.db[u][i].rid != u && Genuine(s, s.db[u][i].rid, s.db[u][i].num, s.db[u][i].lsas))
  }

  /** An update for `v` of origin `o`, no older than `num`, is on its way. */
  ghost predicate Coming(s: State, v: int, o: int, num: nat)
  {
    exists i :: 0 <= i < |s.flight| && s.flight[i].to == v && s.flight[i].lsu.origin == o && num <= s.flight[i].lsu.num
  }

  /** What `u` knows of `o`, its neighbour `v` knows too or will. */
  ghost predicate KeptUp(s: State, u: int, v: int, o: int)
  {
    Level(s, u, o) <= Level(s, v, o) || Coming(s, v, o, Level(s, u, o))
  }

  ghost predicate Inv(s: State)
  {
    && WellFormed(s)
    && (forall i :: 0 <= i < |s.flight| ==> MessageOk(s, s.flight[i]))
    && (forall u :: u in s.db ==> DatabaseOk(s, u))
  }

  /** Of `o`'s announcements from number `k` on, each router's neighbours know or will know what
      it knows. */
  ghost predicate KeptUpFrom(s: State, o: int, k: nat)
  {
    forall u, v :: u in s.nbrs && v in s.nbrs[u] && v != o && k <= Level(s, u, o) ==> KeptUp(s, u, v, o)
  }

  lemma InitInv(nbrs: map<int, seq<int>>)
    requires Topology(nbrs)
    ensures Inv(Init(nbrs))
  {}

  lemma LevelAtMostNewest(s: State, u: int, o: int)
    requires Inv(s)
    ensures Level(s, u, o) <= Newest(s, o)
  {
    if u in s.db && u != o {
      assert DatabaseOk(s, u);
      var i := Find(s.db[u], o);
      assert i != -1 ==> Genuine(s, o, s.db[u][i].num, s.db[u][i].lsas);
    }
  }

  /** Whatever the lists are, there is nothing yet to keep up with beyond what is announced. */
  lemma FutureIsKeptUp(s: State, o: int)
    requires Inv(s)
    ensures KeptUpFrom(s, o, Newest(s, o) + 1)
  {
    forall u | u in s.nbrs ensures Level(s, u, o) <= Newest(s, o) {
      LevelAtMostNewest(s, u, o);
    }
  }

  /** The TTL never stops an update that is accepted: those who passed it on are distinct, and
      neither its origin nor its receiver is among them. */
  lemma {:induction false} TtlNeverSuppresses(s: State, m: Message)
    requires WellFormed(s) && MessageOk(s, m) && m.lsu.origin in s.nbrs
    requires m.to in s.db && Accepts(s.db[m.to], m.lsu)
    ensures 0 < Lowered(m.lsu.ttl) == m.lsu.ttl - 1 && m.to !in m.trail
  {
    assert Level(s, m.to, m.lsu.origin) < m.lsu.num;
    assert m.to !in m.trail;
    TwoAreMissing(s.nbrs.Keys, m.trail, m.lsu.origin, m.to);
  }

  lemma TwoAreMissing(keys: set<int>, trail: set<int>, o: int, v: int)
    requires trail <= keys && o in keys && v in keys && o != v && o !in trail && v !in trail
    ensures |trail| + 2 <= |keys|
  {
    SubsetIsNoLarger(trail + {o} + {v}, keys);
  }

  lemma {:induction false} OthersAre(ids: seq<int>, origin: int)
    ensures forall x :: x in Others(ids, origin) <==> x in ids && x != origin
  {
    if ids != [] {
      var front := ids[..|ids| - 1];
      OthersAre(front, origin);
      assert ids == front + [ids[|ids| - 1]];
    }
  }

  // ------------------------------------------------------------------ each step keeps it

  lemma LevelsGrow(s: State, t: State)
    requires s.nbrs == t.nbrs && s.db == t.db && s.published.Keys == t.published.Keys
    requires forall o :: o in s.published ==> s.published[o] <= t.published[o]
    ensures forall u, o :: Level(s, u, o) <= Level(t, u, o)
    ensures forall o, num, lsas :: Genuine(s, o, num, lsas) ==> Genuine(t, o, num, lsas)
    ensures forall m :: MessageOk(s, m) ==> MessageOk(t, m)
  {}

  lemma OriginateKeepsInv(s: State, o: int, lsas: seq<Lsa>)
    requires Inv(s) && Enabled(s, Originate(o, lsas))
    ensures Inv(Next(s, Originate(o, lsas)))
  {
    var t := Next(s, Originate(o, lsas));
    var num := |s.published[o]| + 1;
    LevelsGrow(s, t);
    forall i | 0 <= i < |t.flight| ensures MessageOk(t, t.flight[i]) {
      if i < |s.flight| {
        assert MessageOk(s, s.flight[i]);
      } else {
        assert t.flight[i].to == s.nbrs[o][i - |s.flight|];
      }
    }
    forall u | u in t.db ensures DatabaseOk(t, u) {
      assert DatabaseOk(s, u);
    }
  }

  lemma {:induction false} OriginateKeepsUp(s: State, p: int, lsas: seq<Lsa>, o: int, k: nat)
    requires Inv(s) && Enabled(s, Originate(p, lsas)) && KeptUpFrom(s, o, k)
    ensures KeptUpFrom(Next(s, Originate(p, lsas)), o, k)
  {
    var t, num := Next(s, Originate(p, lsas)), |s.published[p]| + 1;
    forall u, v | u in t.nbrs && v in t.nbrs[u] && v != o && k <= Level(t, u, o) ensures KeptUp(t, u, v, o) {
      if u == p == o {
        var n :| 0 <= n < |s.nbrs[o]| && s.nbrs[o][n] == v;
        assert t.flight[|s.flight| + n] == Message(v, Lsu(o, num, MAX_TTL, lsas), {});
        assert Coming(t, v, o, num);
      } else {
        assert Level(t, u, o) == Level(s, u, o);
        assert KeptUp(s, u, v, o);
        ComingKept(s, t, v, o, Level(s, u, o));
      }
    }
  }

  lemma ComingKept(s: State, t: State, v: int, o: int, num: nat)
    requires s.flight <= t.flight
    ensures Coming(s, v, o, num) ==> Coming(t, v, o, num)
  {}

  function Handled(db: seq<DbEntry>, lsu: Lsu): seq<DbEntry>
  {
    if Accepts(db, lsu) then Store(db, lsu) else db
  }

  lemma HandledRaisesOne(db: seq<DbEntry>, lsu: Lsu)
    requires OneEntryEach(db)
    ensures Stored(Handled(db, lsu), lsu.origin) == if Accepts(db, lsu) then lsu.num else Stored(db, lsu.origin)
    ensures lsu.num <= Stored(Handled(db, lsu), lsu.origin)
    ensures Stored(db, lsu.origin) <= Stored(Handled(db, lsu), lsu.origin)
    ensures forall r :: r != lsu.origin ==> Stored(Handled(db, lsu), r) == Stored(db, r)
  {
    StoreReplacesOne(db, lsu);
  }

  /** A delivery raises one level, to the update's number, or none. */
  lemma DeliveryLevels(s: State, i: nat)
    requires Inv(s) && Enabled(s, Deliver(i))
    ensures var m, t := s.flight[i], Next(s, Deliver(i));
            && t.published == s.published && t.nbrs == s.nbrs && t.db.Keys == s.db.Keys
            && Level(t, m.to, m.lsu.origin) ==
                 (if Accepts(s.db[m.to], m.lsu) then m.lsu.num else Level(s, m.to, m.lsu.origin))
            && m.lsu.num <= Level(t, m.to, m.lsu.origin)
            && (forall u, o :: u != m.to || o != m.lsu.origin ==> Level(t, u, o) == Level(s, u, o))
            && (forall u, o :: Level(s, u, o) <= Level(t, u, o))
  {
    var m, t := s.flight[i], Next(s, Deliver(i));
    assert MessageOk(s, m) && DatabaseOk(s, m.to);
    HandledRaisesOne(s.db[m.to], m.lsu);
    assert t.db == s.db[m.to := Handled(s.db[m.to], m.lsu)];
  }

  lemma DeliveryKeepsDatabases(s: State, i: nat)
    requires Inv(s) && Enabled(s, Deliver(i))
    ensures forall u :: u in Next(s, Deliver(i)).db ==> DatabaseOk(Next(s, Deliver(i)), u)
  {
    var m, t := s.flight[i], Next(s, Deliver(i));
    assert MessageOk(s, m);
    forall u | u in t.db ensures DatabaseOk(t, u) {
      assert DatabaseOk(s, u);
      if u == m.to {
        StoreReplacesOne(s.db[u], m.lsu);
        forall k | 0 <= k < |t.db[u]|
          ensures t.db[u][k].rid != u && Genuine(t, t.db[u][k].rid, t.db[u][k].num, t.db[u][k].lsas)
        {
          if t.db[u][k] in s.db[u] {
            var j :| 0 <= j < |s.db[u]| && s.db[u][j] == t.db[u][k];
            assert Genuine(s, s.db[u][j].rid, s.db[u][j].num, s.db[u][j].lsas);
          }
        }
      } else {
        forall k | 0 <= k < |t.db[u]|
          ensures Genuine(t, t.db[u][k].rid, t.db[u][k].num, t.db[u][k].lsas)
        {
          assert Genuine(s, s.db[u][k].rid, s.db[u][k].num, s.db[u][k].lsas);
        }
      }
    }
  }

  lemma MessageStaysOk(s: State, i: nat, m: Message)
    requires Inv(s) && Enabled(s, Deliver(i)) && MessageOk(s, m)
    ensures MessageOk(Next(s, Deliver(i)), m)
  {
    DeliveryLevels(s, i);
    assert Genuine(s, m.lsu.origin, m.lsu.num, m.lsu.lsas);
  }

  lemma PassedOnIsOk(s: State, i: nat, m': Message)
    requires Inv(s) && Enabled(s, Deliver(i)) && m' in PassedOn(s, s.flight[i])
    ensures MessageOk(Next(s, Deliver(i)), m')
  {
    var m := s.flight[i];
    assert MessageOk(s, m);
    MessageStaysOk(s, i, m);
    DeliveryLevels(s, i);
    var ids := Others(s.nbrs[m.to], m.lsu.origin);
    OthersAre(s.nbrs[m.to], m.lsu.origin);
    var k :| 0 <= k < |ids| && m' == Message(ids[k], m.lsu.(ttl := Lowered(m.lsu.ttl)), m.trail + {m.to});
    assert ids[k] in ids;
    TtlNeverSuppresses(s, m);
  }

  lemma DeliveryKeepsMessages(s: State, i: nat)
    requires Inv(s) && Enabled(s, Deliver(i))
    ensures var t := Next(s, Deliver(i)); forall k :: 0 <= k < |t.flight| ==> MessageOk(t, t.flight[k])
  {
    var t := Next(s, Deliver(i));
    forall k | 0 <= k < |t.flight| ensures MessageOk(t, t.flight[k]) {
      if k < |s.flight| - 1 {
        var j := if k < i then k else k + 1;
        assert t.flight[k] == s.flight[j] && MessageOk(s, s.flight[j]);
        MessageStaysOk(s, i, s.flight[j]);
      } else {
        assert t.flight[k] in PassedOn(s, s.flight[i]);
        PassedOnIsOk(s, i, t.flight[k]);
      }
    }
  }

  /** Every other update in flight is still in flight. */
  lemma ComingUnlessDelivered(s: State, i: nat, v: int, o: int, num: nat)
    requires Enabled(s, Deliver(i)) && Coming(s, v, o, num)
    ensures Coming(Next(s, Deliver(i)), v, o, num) ||
            (v == s.flight[i].to && o == s.flight[i].lsu.origin && num <= s.flight[i].lsu.num)
  {
    var t := Next(s, Deliver(i));
    var j :| 0 <= j < |s.flight| && s.flight[j].to == v && s.flight[j].lsu.origin == o && num <= s.flight[j].lsu.num;
    if j != i {
      var k := if j < i then j else j - 1;
      assert t.flight[k] == s.flight[j];
    }
  }

  lemma PassedOnTo(s: State, m: Message, v: int) returns (k: nat)
    requires m.to in s.nbrs && m.to in s.db && Accepts(s.db[m.to], m.lsu) && Lowered(m.lsu.ttl) > 0
    requires v in s.nbrs[m.to] && v != m.lsu.origin
    ensures k < |PassedOn(s, m)| && PassedOn(s, m)[k].to == v
    ensures PassedOn(s, m)[k].lsu == m.lsu.(ttl := Lowered(m.lsu.ttl))
  {
    var ids := Others(s.nbrs[m.to], m.lsu.origin);
    OthersAre(s.nbrs[m.to], m.lsu.origin);
    k :| k < |ids| && ids[k] == v;
  }

  lemma ComingAt(s: State, k: nat, v: int, o: int, num: nat)
    requires k < |s.flight| && s.flight[k].to == v && s.flight[k].lsu.origin == o && num <= s.flight[k].lsu.num
    ensures Coming(s, v, o, num)
  {}

  lemma AcceptedIsPassedOn(s: State, i: nat, v: int)
    requires Enabled(s, Deliver(i)) && Accepts(s.db[s.flight[i].to], s.flight[i].lsu)
    requires WellFormed(s) && MessageOk(s, s.flight[i])
    requires v in s.nbrs[s.flight[i].to] && v != s.flight[i].lsu.origin
    ensures Coming(Next(s, Deliver(i)), v, s.flight[i].lsu.origin, s.flight[i].lsu.num)
  {
    var m, t := s.flight[i], Next(s, Deliver(i));
    TtlNeverSuppresses(s, m);
    var k := PassedOnTo(s, m, v);
    assert t.flight[|s.flight| - 1 + k] == PassedOn(s, m)[k];
    ComingAt(t, |s.flight| - 1 + k, v, m.lsu.origin, m.lsu.num);
  }

  lemma DeliverKeepsInv(s: State, i: nat)
    requires Inv(s) && Enabled(s, Deliver(i))
    ensures Inv(Next(s, Deliver(i)))
  {
    DeliveryKeepsMessages(s, i);
    DeliveryKeepsDatabases(s, i);
    DeliveryLevels(s, i);
  }

  lemma {:induction false} DeliverKeepsUp(s: State, i: nat, o: int, k: nat)
    requires Inv(s) && Enabled(s, Deliver(i)) && KeptUpFrom(s, o, k)
    ensures KeptUpFrom(Next(s, Deliver(i)), o, k)
  {
    var m, t := s.flight[i], Next(s, Deliver(i));
    DeliveryLevels(s, i);
    assert MessageOk(s, m);
    forall u, v | u in t.nbrs && v in t.nbrs[u] && v != o && k <= Level(t, u, o) ensures KeptUp(t, u, v, o) {
      if u == m.to && o == m.lsu.origin && Accepts(s.db[m.to], m.lsu) {
        AcceptedIsPassedOn(s, i, v);
      } else {
        assert KeptUp(s, u, v, o);
        if Coming(s, v, o, Level(s, u, o)) { ComingUnlessDelivered(s, i, v, o, Level(s, u, o)); }
      }
    }
  }

  lemma RelistKeepsInv(s: State, u: int, ids: seq<int>)
    requires Inv(s) && Enabled(s, Relist(u, ids))
    ensures Inv(Next(s, Relist(u, ids)))
  {
    var t := Next(s, Relist(u, ids));
    assert t.nbrs.Keys == s.nbrs.Keys;
    forall k | 0 <= k < |t.flight| ensures MessageOk(t, t.flight[k]) {
      assert MessageOk(s, s.flight[k]);
    }
    forall v | v in t.db ensures DatabaseOk(t, v) {
      assert DatabaseOk(s, v);
    }
  }

  // ------------------------------------------------------------------------- whole runs

  ghost predicate ValidRun(s: State, run: seq<Step>)
    decreases |run|
  {
    run == [] || (Enabled(s, run[0]) && ValidRun(Next(s, run[0]), run[1..]))
  }

  ghost function After(s: State, run: seq<Step>): State
    requires ValidRun(s, run)
    decreases |run|
  {
    if run == [] then s else After(Next(s, run[0]), run[1..])
  }

  lemma {:induction false} RunKeepsInv(s: State, run: seq<Step>)
    requires Inv(s) && ValidRun(s, run)
    ensures Inv(After(s, run)) && After(s, run).nbrs.Keys == s.nbrs.Keys
    ensures SameLists(run) ==> After(s, run).nbrs == s.nbrs
    decreases |run|
  {
    if run != [] {
      match run[0] {
        case Originate(o, lsas) => OriginateKeepsInv(s, o, lsas);
        case Deliver(i) => DeliverKeepsInv(s, i);
        case Relist(u, ids) => RelistKeepsInv(s, u, ids);
      }
      RunKeepsInv(Next(s, run[0]), run[1..]);
    }
  }

  /** No neighbour list changes. */
  ghost predicate SameLists(run: seq<Step>)
  {
    forall i :: 0 <= i < |run| ==> !run[i].Relist?
  }

  lemma {:induction false} RunKeepsUp(s: State, run: seq<Step>, o: int, k: nat)
    requires Inv(s) && ValidRun(s, run) && SameLists(run) && KeptUpFrom(s, o, k)
    ensures KeptUpFrom(After(s, run), o, k)
    decreases |run|
  {
    if run != [] {
      match run[0] {
        case Originate(p, lsas) =>
          OriginateKeepsInv(s, p, lsas);
          OriginateKeepsUp(s, p, lsas, o, k);
        case Deliver(i) =>
          DeliverKeepsInv(s, i);
          DeliverKeepsUp(s, i, o, k);
      }
      RunKeepsUp(Next(s, run[0]), run[1..], o, k);
    }
  }

  ghost predicate PathFrom(nbrs: map<int, seq<int>>, path: seq<int>, o: int)
  {
    && path != [] && path[0] == o && o in nbrs
    && forall i :: 0 <= i < |path| - 1 ==> HopAt(nbrs, path, i)
  }

  ghost predicate HopAt(nbrs: map<int, seq<int>>, path: seq<int>, i: int)
    requires 0 <= i < |path| - 1
  {
    path[i] in nbrs && path[i + 1] in nbrs[path[i]]
  }

  ghost predicate Quiet(s: State, o: int)
  {
    forall i :: 0 <= i < |s.flight| ==> s.flight[i].lsu.origin != o
  }

  lemma {:induction false} NewestAlongPath(s: State, o: int, path: seq<int>)
    requires Inv(s) && KeptUpFrom(s, o, Newest(s, o)) && Quiet(s, o) && PathFrom(s.nbrs, path, o)
    ensures Newest(s, o) <= Level(s, path[|path| - 1], o)
    decreases |path|
  {
    if |path| > 1 {
      var front := path[..|path| - 1];
      forall i | 0 <= i < |front| - 1 ensures HopAt(s.nbrs, front, i) {
        assert HopAt(s.nbrs, path, i);
      }
      NewestAlongPath(s, o, front);
      assert HopAt(s.nbrs, path, |path| - 2);
      var u, v := path[|path| - 2], path[|path| - 1];
      if v != o { assert KeptUp(s, u, v, o); }
    }
  }

  /** `v` stores exactly what `o` announced last. */
  ghost predicate HasNewest(s: State, v: int, o: int)
  {
    && v in s.db && o in s.published && s.published[o] != []
    && var said := s.published[o];
       exists i :: 0 <= i < |s.db[v]| && s.db[v][i] == DbEntry(o, |said|, said[|said| - 1])
  }

  lemma NewestIsStored(s: State, o: int, v: int)
    requires Inv(s) && v != o && 0 < Newest(s, o) <= Level(s, v, o)
    ensures HasNewest(s, v, o)
  {}

  /** A run whose neighbour lists no longer change after its first part. */
  datatype History = History(nbrs: map<int, seq<int>>, before: seq<Step>, after: seq<Step>)

  ghost predicate ValidHistory(h: History)
  {
    && Topology(h.nbrs) && ValidRun(Init(h.nbrs), h.before)
    && ValidRun(After(Init(h.nbrs), h.before), h.after) && SameLists(h.after)
  }

  ghost function Midway(h: History): State
    requires ValidHistory(h)
  {
    After(Init(h.nbrs), h.before)
  }

  ghost function Result(h: History): State
    requires ValidHistory(h)
  {
    After(Midway(h), h.after)
  }

  lemma HistoryKeepsInv(h: History)
    requires ValidHistory(h)
    ensures Inv(Midway(h)) && Inv(Result(h)) && Result(h).nbrs == Midway(h).nbrs
    ensures Midway(h).nbrs.Keys == h.nbrs.Keys
  {
    InitInv(h.nbrs);
    RunKeepsInv(Init(h.nbrs), h.before);
    RunKeepsInv(Midway(h), h.after);
  }

  /** Convergence: in every run, for every origin that has announced itself since neighbour lists
      last changed, once none of its updates is in flight, each router that its links lead to
      stores exactly what it announced last. */
  lemma {:induction false} FloodingConverges(h: History, o: int, path: seq<int>)
    requires ValidHistory(h) && Newest(Midway(h), o) < Newest(Result(h), o) && Quiet(Result(h), o)
    requires PathFrom(Result(h).nbrs, path, o) && path[|path| - 1] != o
    ensures HasNewest(Result(h), path[|path| - 1], o)
  {
    HistoryKeepsInv(h);
    FutureIsKeptUp(Midway(h), o);
    RunKeepsUp(Midway(h), h.after, o, Newest(Midway(h), o) + 1);
    NewestAlongPath(Result(h), o, path);
    NewestIsStored(Result(h), o, path[|path| - 1]);
  }

  /** In every run, no update is on its way to its own origin, and what a router stores of
      another is always something that one announced. */
  lemma {:induction false} NoRouterHearsItself(nbrs: map<int, seq<int>>, run: seq<Step>)
    requires Topology(nbrs) && ValidRun(Init(nbrs), run)
    ensures var s := After(Init(nbrs), run);
            && (forall i :: 0 <= i < |s.flight| ==> s.flight[i].to != s.flight[i].lsu.origin)
            && (forall u, i :: u in s.db && 0 <= i < |s.db[u]| ==>
                  s.db[u][i].rid != u && Genuine(s, s.db[u][i].rid, s.db[u][i].num, s.db[u][i].lsas))
  {
    InitInv(nbrs);
    RunKeepsInv(Init(nbrs), run);
    var s := After(Init(nbrs), run);
    forall i | 0 <= i < |s.flight| ensures s.flight[i].to != s.flight[i].lsu.origin {
      assert MessageOk(s, s.flight[i]);
    }
    forall u, i | u in s.db && 0 <= i < |s.db[u]|
      ensures s.db[u][i].rid != u && Genuine(s, s.db[u][i].rid, s.db[u][i].num, s.db[u][i].lsas)
    {
      assert DatabaseOk(s, u);
    }
  }

  // --------------------------------------------------------------------- flooding dies out

  /** How many deliveries an update can still cause when each router has at most `d` links; a TTL
      of 0 counts for a whole round more. */
  function Weight(d: nat, ttl: Octet): (w: nat)
    ensures 1 <= w
    decreases if ttl == 0 then 256 else ttl as int
  {
    if ttl == 1 then 1 else 1 + d * Weight(d, Lowered(ttl))
  }

  function Load(d: nat, q: seq<Message>): nat
  {
    if q == [] then 0 else Load(d, q[..|q| - 1]) + Weight(d, q[|q| - 1].lsu.ttl)
  }

  lemma {:induction false} LoadOfBoth(d: nat, p: seq<Message>, q: seq<Message>)
    ensures Load(d, p + q) == Load(d, p) + Load(d, q)
  {
    if q == [] {
      assert p + q == p;
    } else {
      assert (p + q)[..|p + q| - 1] == p + q[..|q| - 1];
      LoadOfBoth(d, p, q[..|q| - 1]);
    }
  }

  lemma LoadWithout(d: nat, q: seq<Message>, i: nat)
    requires i < |q|
    ensures Load(d, q) == Load(d, Without(q, i)) + Weight(d, q[i].lsu.ttl)
  {
    assert q == q[..i] + ([q[i]] + q[i + 1..]);
    LoadOfBoth(d, q[..i], [q[i]] + q[i + 1..]);
    LoadOfBoth(d, [q[i]], q[i + 1..]);
    LoadOfBoth(d, q[..i], q[i + 1..]);
    assert Load(d, [q[i]]) == Load(d, [q[i]][..0]) + Weight(d, q[i].lsu.ttl);
  }

  lemma {:induction false} LoadOfEqual(d: nat, q: seq<Message>, ttl: Octet)
    requires forall k :: 0 <= k < |q| ==> q[k].lsu.ttl == ttl
    ensures Load(d, q) == |q| * Weight(d, ttl)
  {
    if q != [] {
      LoadOfEqual(d, q[..|q| - 1], ttl);
      assert |q| * Weight(d, ttl) == (|q| - 1) * Weight(d, ttl) + Weight(d, ttl);
    }
  }

  lemma {:induction false} OthersAreFewer(ids: seq<int>, origin: int)
    ensures |Others(ids, origin)| <= |ids|
  {
    if ids != [] { OthersAreFewer(ids[..|ids| - 1], origin); }
  }

  lemma ProductMonotone(a: nat, b: nat, w: nat)
    requires a <= b
    ensures a * w <= b * w
  {}

  lemma DeliveryLowersLoad(s: State, i: nat, d: nat)
    requires Enabled(s, Deliver(i)) && |s.nbrs[s.flight[i].to]| <= d
    ensures Load(d, Next(s, Deliver(i)).flight) < Load(d, s.flight)
  {
    var m := s.flight[i];
    var out := PassedOn(s, m);
    LoadWithout(d, s.flight, i);
    LoadOfBoth(d, Without(s.flight, i), out);
    if out != [] {
      LoadOfEqual(d, out, Lowered(m.lsu.ttl));
      OthersAreFewer(s.nbrs[m.to], m.lsu.origin);
      ProductMonotone(|out|, d, Weight(d, Lowered(m.lsu.ttl)));
    }
  }

  /** Once routers stop announcing, the updates in flight die out: from any state whatever, a
      run of deliveries is no longer than the load in flight allows. */
  lemma {:induction false} FloodingDiesOut(s: State, run: seq<Step>, d: nat)
    requires ValidRun(s, run) && forall k :: 0 <= k < |run| ==> run[k].Deliver?
    requires forall u :: u in s.nbrs ==> |s.nbrs[u]| <= d
    ensures |run| + Load(d, After(s, run).flight) <= Load(d, s.flight)
    decreases |run|
  {
    if run != [] {
      DeliveryLowersLoad(s, run[0].i, d);
      FloodingDiesOut(Next(s, run[0]), run[1..], d);
    }
  }
}
