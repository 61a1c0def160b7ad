/** Link-state advertisements and the database of mOSPF. */
module LinkState {
  /** One advertised network; `rid` is the neighbour on it, or 0 when there is none. */
  datatype Lsa = Lsa(network: int, mask: int, rid: int)

  datatype DbEntry = DbEntry(rid: int, num: nat, lsas: seq<Lsa>)

  ghost predicate Advertises(lsas: seq<Lsa>, network: int, mask: int)
  {
    exists i :: 0 <= i < |lsas| && lsas[i].network == network && lsas[i].mask == mask
  }

  /** The links one advertisement puts into the graph, in both directions. */
  function LinksOfList(rid: int, lsas: seq<Lsa>): set<(int, int)>
  {
    if lsas == [] then {}
    else
      var last := lsas[|lsas| - 1];
      LinksOfList(rid, lsas[..|lsas| - 1]) +
      (if last.rid == 0 then {} else {(rid, last.rid), (last.rid, rid)})
  }

  function Links(db: seq<DbEntry>): set<(int, int)>
  {
    if db == [] then {}
    else Links(db[..|db| - 1]) + LinksOfList(db[|db| - 1].rid, db[|db| - 1].lsas)
  }

  /** The router is named in the advertisement as a neighbour. */
  ghost predicate Names(lsas: seq<Lsa>, id: int)
  {
    exists i :: 0 <= i < |lsas| && lsas[i].rid == id
  }

  /** One of the two is the entry's router and lists the other. */
  ghost predicate Joins(rid: int, lsas: seq<Lsa>, a: int, b: int)
  {
    (a == rid && b != 0 && Names(lsas, b)) || (b == rid && a != 0 && Names(lsas, a))
  }

  lemma {:induction false} LinkOfList(rid: int, lsas: seq<Lsa>, a: int, b: int)
    ensures (a, b) in LinksOfList(rid, lsas) <==> Joins(rid, lsas, a, b)
  {
    if lsas != [] {
      var front := lsas[..|lsas| - 1];
      LinkOfList(rid, front, a, b);
      assert forall i :: 0 <= i < |front| ==> front[i] == lsas[i];
      assert lsas[|lsas| - 1].rid == a ==> Names(lsas, a);
      assert lsas[|lsas| - 1].rid == b ==> Names(lsas, b);
    }
  }

  lemma {:induction false} LinkOfEntry(db: seq<DbEntry>, a: int, b: int)
    ensures (a, b) in Links(db) <==>
      exists j :: 0 <= j < |db| && (a, b) in LinksOfList(db[j].rid, db[j].lsas)
  {
    if db != [] {
      var front := db[..|db| - 1];
      LinkOfEntry(front, a, b);
      assert forall j :: 0 <= j < |front| ==> front[j] == db[j];
    }
  }

  /** Two routers are linked in the graph exactly when some entry of one of them lists the other. */
  lemma {:induction false} LinkMeansAdvertised(db: seq<DbEntry>, a: int, b: int)
    ensures (a, b) in Links(db) <==> exists j :: 0 <= j < |db| && Joins(db[j].rid, db[j].lsas, a, b)
  {
    LinkOfEntry(db, a, b);
    forall j | 0 <= j < |db|
      ensures (a, b) in LinksOfList(db[j].rid, db[j].lsas) <==> Joins(db[j].rid, db[j].lsas, a, b)
    {
      LinkOfList(db[j].rid, db[j].lsas, a, b);
    }
  }
}
