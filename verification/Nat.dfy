/** Address translation: the port pool, the hashed mapping lists, translation both ways and
    the sweep of dead mappings. */
module Nat {
  const PORT_MIN := 12345
  const PORT_MAX := 23456
  const PORTS := 65536
  const BUCKETS := 256
  const TIMEOUT := 60
  const TCP_FIN := 0x01
  const TCP_ACK := 0x10

  datatype Conn = Conn(inFin: bool, exFin: bool, inSeqEnd: nat, exSeqEnd: nat, inAck: nat, exAck: nat)

  const FRESH_CONN := Conn(false, false, 0, 0, 0, 0)

  datatype Mapping = Mapping(inIp: nat, inPort: nat, exIp: nat, exPort: nat, updated: int, conn: Conn)

  datatype Rule = Rule(exIp: nat, exPort: nat, inIp: nat, inPort: nat)

  datatype Packet = Packet(srcIp: nat, srcPort: nat, dstIp: nat, dstPort: nat, flags: nat, num: nat, ack: nat)

  /** assigned_ports, the mapping lists by hash, the rules and the external address. */
  datatype Table = Table(taken: seq<bool>, lists: seq<seq<Mapping>>, rules: seq<Rule>, extIp: nat)
  {
    ghost predicate Valid()
    {
      && |taken| == PORTS && |lists| == BUCKETS
      && forall b :: 0 <= b < BUCKETS ==> InRange(lists[b])
    }
  }

  ghost predicate InRange(list: seq<Mapping>)
  {
    forall i :: 0 <= i < |list| ==> list[i].exPort < PORTS
  }

  predicate InPool(port: int) { PORT_MIN <= port < PORT_MAX }

  /** The packet's ports are 16-bit. */
  predicate ValidPacket(p: Packet) { p.srcPort < PORTS && p.dstPort < PORTS }

  function Byte(x: nat, shift: nat): bv8
    requires 0 < shift
  {
    ((x / shift) % 256) as bv8
  }

  /** hash8 over the remote address and port: the exclusive or of their bytes. */
  function Bucket(ip: nat, port: nat): (b: nat)
    ensures b < BUCKETS
  {
    (Byte(ip, 1) ^ Byte(ip, 0x100) ^ Byte(ip, 0x1_0000) ^ Byte(ip, 0x100_0000) ^
     Byte(port, 1) ^ Byte(port, 0x100)) as nat
  }

  // ------------------------------------------------------------------------- translation

  /** The first mapping with an external end, or -1; and with an internal end. */
  function FindEx(list: seq<Mapping>, ip: nat, port: nat, n: nat): (i: int)
    requires n <= |list|
    ensures -1 <= i < n
    ensures i == -1 <==> forall k :: 0 <= k < n ==> list[k].exIp != ip || list[k].exPort != port
    ensures i != -1 ==> list[i].exIp == ip && list[i].exPort == port
  {
    if n == 0 then -1
    else
      var i := FindEx(list, ip, port, n - 1);
      if i != -1 then i else if list[n - 1].exIp == ip && list[n - 1].exPort == port then n - 1 else -1
  }

  function FindIn(list: seq<Mapping>, ip: nat, port: nat, n: nat): (i: int)
    requires n <= |list|
    ensures -1 <= i < n
    ensures i == -1 <==> forall k :: 0 <= k < n ==> list[k].inIp != ip || list[k].inPort != port
    ensures i != -1 ==> list[i].inIp == ip && list[i].inPort == port
  {
    if n == 0 then -1
    else
      var i := FindIn(list, ip, port, n - 1);
      if i != -1 then i else if list[n - 1].inIp == ip && list[n - 1].inPort == port then n - 1 else -1
  }

  /** The first free port of the pool from `i` on, or 0 when there is none. */
  function FreePort(taken: seq<bool>, i: int): (port: int)
    requires |taken| == PORTS && PORT_MIN <= i <= PORT_MAX
    ensures port == 0 <==> forall k :: i <= k < PORT_MAX ==> taken[k]
    ensures port != 0 ==> i <= port < PORT_MAX && !taken[port] && forall k :: i <= k < port ==> taken[k]
    decreases PORT_MAX - i
  {
    if i == PORT_MAX then 0 else if !taken[i] then i else FreePort(taken, i + 1)
  }

  /** Every rule for the external end is applied, so the last one stands. */
  function ByRules(rules: seq<Rule>, m: Mapping, n: nat): (r: Mapping)
    requires n <= |rules|
    ensures r.exIp == m.exIp && r.exPort == m.exPort && r.conn == m.conn
  {
    if n == 0 then m
    else
      var r := ByRules(rules, m, n - 1);
      if rules[n - 1].exIp == m.exIp && rules[n - 1].exPort == m.exPort
      then r.(inIp := rules[n - 1].inIp, inPort := rules[n - 1].inPort) else r
  }

  /** The last rule for an external end: -1 when there is none. */
  ghost predicate LastFor(rules: seq<Rule>, ip: nat, port: nat, k: int)
  {
    && -1 <= k < |rules| && (k != -1 ==> rules[k].exIp == ip && rules[k].exPort == port)
    && forall j :: k < j < |rules| ==> rules[j].exIp != ip || rules[j].exPort != port
  }

  lemma {:induction false} LastRuleStands(rules: seq<Rule>, m: Mapping, n: nat, k: int)
    requires n <= |rules| && LastFor(rules[..n], m.exIp, m.exPort, k)
    ensures ByRules(rules, m, n) == if k == -1 then m else m.(inIp := rules[k].inIp, inPort := rules[k].inPort)
  {
    if n > 0 {
      var front := rules[..n - 1];
      assert forall j :: 0 <= j < n - 1 ==> front[j] == rules[..n][j];
      assert rules[..n][n - 1] == rules[n - 1];
      if k == n - 1 {
        var j := LastRuleExists(front, m.exIp, m.exPort);
        LastRuleStands(rules, m, n - 1, j);
      } else {
        LastRuleStands(rules, m, n - 1, k);
      }
    }
  }

  lemma {:induction false} LastRuleExists(rules: seq<Rule>, ip: nat, port: nat) returns (k: int)
    ensures LastFor(rules, ip, port, k)
  {
    if rules == [] {
      k := -1;
    } else if rules[|rules| - 1].exIp == ip && rules[|rules| - 1].exPort == port {
      k := |rules| - 1;
    } else {
      var front := rules[..|rules| - 1];
      k := LastRuleExists(front, ip, port);
    }
  }

  function TouchIn(m: Mapping, p: Packet, now: int): Mapping
  {
    var c := m.conn.(exFin := p.flags == TCP_FIN, exSeqEnd := p.num);
    m.(conn := if p.flags == TCP_ACK then c.(exAck := p.ack) else c, updated := now)
  }

  function TouchOut(m: Mapping, p: Packet, now: int): Mapping
  {
    var c := m.conn.(inFin := p.flags == TCP_FIN, inSeqEnd := p.num);
    m.(conn := if p.flags == TCP_ACK then c.(inAck := p.ack) else c, updated := now)
  }

  datatype Translated = Translated(table: Table, packet: Packet)

  function NewInbound(t: Table, p: Packet): Mapping
  {
    ByRules(t.rules, Mapping(0, 0, p.dstIp, p.dstPort, 0, FRESH_CONN), |t.rules|)
  }

  /** A packet from outside: the list of its source, searched by its destination. */
  function Inbound(t: Table, p: Packet, now: int): Translated
    requires t.Valid()
  {
    var b := Bucket(p.srcIp, p.srcPort);
    var i := FindEx(t.lists[b], p.dstIp, p.dstPort, |t.lists[b]|);
    var m := TouchIn(if i == -1 then NewInbound(t, p) else t.lists[b][i], p, now);
    var list := if i == -1 then t.lists[b] + [m] else t.lists[b][i := m];
    Translated(t.(lists := t.lists[b := list]), p.(dstIp := m.inIp, dstPort := m.inPort))
  }

  /** A packet from inside: the list of its destination, searched by its source. */
  function Outbound(t: Table, p: Packet, now: int): Translated
    requires t.Valid()
  {
    var b := Bucket(p.dstIp, p.dstPort);
    var i := FindIn(t.lists[b], p.srcIp, p.srcPort, |t.lists[b]|);
    var port := FreePort(t.taken, PORT_MIN);
    var new' := Mapping(p.srcIp, p.srcPort, t.extIp, port, 0, FRESH_CONN);
    var m := TouchOut(if i == -1 then new' else t.lists[b][i], p, now);
    var list := if i == -1 then t.lists[b] + [m] else t.lists[b][i := m];
    var taken := if i == -1 && port != 0 then t.taken[port := true] else t.taken;
    Translated(t.(lists := t.lists[b := list], taken := taken), p.(srcIp := m.exIp, srcPort := m.exPort))
  }

  /** A packet that hits no mapping goes where the last rule for its destination says, and to address
      and port 0 if there is none. */
  lemma StrayGoesByRules(t: Table, p: Packet, now: int, k: int)
    requires t.Valid() && LastFor(t.rules, p.dstIp, p.dstPort, k)
    requires forall m :: m in t.lists[Bucket(p.srcIp, p.srcPort)] ==> m.exIp != p.dstIp || m.exPort != p.dstPort
    ensures var q := Inbound(t, p, now).packet;
            && q.srcIp == p.srcIp && q.srcPort == p.srcPort
            && q.dstIp == (if k == -1 then 0 else t.rules[k].inIp)
            && q.dstPort == (if k == -1 then 0 else t.rules[k].inPort)
  {
    assert t.rules[..|t.rules|] == t.rules;
    LastRuleStands(t.rules, Mapping(0, 0, p.dstIp, p.dstPort, 0, FRESH_CONN), |t.rules|, k);
  }

  /** A packet that goes out to a remote for the first time leaves from the box's own external address
      and the first free port of the pool, or port 0 when there is none; the rest of it stays. */
  lemma FirstOutGetsPort(t: Table, p: Packet, now: int)
    requires t.Valid()
    requires forall m :: m in t.lists[Bucket(p.dstIp, p.dstPort)] ==> m.inIp != p.srcIp || m.inPort != p.srcPort
    ensures var q := Outbound(t, p, now).packet;
            && q == p.(srcIp := t.extIp, srcPort := q.srcPort)
            && (q.srcPort == 0 ==> forall k :: 12345 <= k < 23456 ==> t.taken[k])
            && (q.srcPort != 0 ==> 12345 <= q.srcPort < 23456 && !t.taken[q.srcPort]
                                   && forall k :: 12345 <= k < q.srcPort ==> t.taken[k])
  {}

  // ------------------------------------------------------------------------------ sweep

  predicate IsFinished(c: Conn)
  {
    c.inFin && c.exFin && c.inAck >= c.exSeqEnd && c.exAck >= c.inSeqEnd
  }

  predicate IsDead(m: Mapping, now: int)
  {
    now - m.updated > TIMEOUT || IsFinished(m.conn)
  }

  /** A connection that each side has acknowledged and then ended, in four packets in a row, is finished
      if and only if each acknowledgement covers the other side's end. */
  lemma FinishedExactly(m: Mapping, outAck: Packet, inAck: Packet, outFin: Packet, inFin: Packet, now: int)
    requires outAck.flags == inAck.flags == 0x10 && outFin.flags == inFin.flags == 0x01
    ensures var d := TouchIn(TouchOut(TouchIn(TouchOut(m, outAck, now), inAck, now), outFin, now), inFin, now);
            IsFinished(d.conn) <==> outAck.ack >= inFin.num && inAck.ack >= outFin.num
  {}

  function Alive(list: seq<Mapping>, now: int): seq<Mapping>
  {
    if list == [] then []
    else Alive(list[..|list| - 1], now) + (if IsDead(list[|list| - 1], now) then [] else [list[|list| - 1]])
  }

  function Freed(taken: seq<bool>, list: seq<Mapping>, now: int): (r: seq<bool>)
    requires |taken| == PORTS
    ensures |r| == PORTS
  {
    if list == [] then taken
    else
      var r := Freed(taken, list[..|list| - 1], now);
      var m := list[|list| - 1];
      if IsDead(m, now) && m.exPort < PORTS then r[m.exPort := false] else r
  }

  function SweepList(t: Table, now: int, b: nat): Table
    requires t.Valid() && b < BUCKETS
  {
    t.(taken := Freed(t.taken, t.lists[b], now), lists := t.lists[b := Alive(t.lists[b], now)])
  }

  function Sweep(t: Table, now: int, n: nat): (r: Table)
    requires t.Valid() && n <= BUCKETS
    ensures r.Valid() && r.rules == t.rules && r.extIp == t.extIp
  {
    if n == 0 then t
    else
      var r := Sweep(t, now, n - 1);
      AliveInRange(r.lists[n - 1], now);
      SweepList(r, now, n - 1)
  }

  lemma {:induction false} AliveInRange(list: seq<Mapping>, now: int)
    requires InRange(list)
    ensures InRange(Alive(list, now))
    ensures forall m :: m in Alive(list, now) <==> m in list && !IsDead(m, now)
  {
    if list != [] {
      var front := list[..|list| - 1];
      AliveInRange(front, now);
      assert list == front + [list[|list| - 1]];
    }
  }

  // -------------------------------------------------------------------- who owns a port

  function Owners(list: seq<Mapping>, port: int): nat
  {
    if list == [] then 0
    else Owners(list[..|list| - 1], port) + (if list[|list| - 1].exPort == port then 1 else 0)
  }

  function AllOwners(lists: seq<seq<Mapping>>, port: int): nat
  {
    if lists == [] then 0
    else AllOwners(lists[..|lists| - 1], port) + Owners(lists[|lists| - 1], port)
  }

  /** A pool port is flagged when exactly one mapping owns it, and none does otherwise. */
  ghost predicate PortExact(t: Table, port: int)
    requires 0 <= port < |t.taken|
  {
    AllOwners(t.lists, port) == if t.taken[port] then 1 else 0
  }

  ghost predicate PoolExact(t: Table)
    requires |t.taken| == PORTS
  {
    forall port :: InPool(port) ==> PortExact(t, port)
  }

  lemma {:induction false} OwnersReplaced(lists: seq<seq<Mapping>>, b: nat, list: seq<Mapping>, port: int)
    requires b < |lists|
    ensures AllOwners(lists[b := list], port) + Owners(lists[b], port) == AllOwners(lists, port) + Owners(list, port)
    decreases |lists|
  {
    var front := lists[..|lists| - 1];
    if b == |lists| - 1 {
      assert lists[b := list][..|lists| - 1] == front;
    } else {
      assert lists[b := list][..|lists| - 1] == front[b := list];
      OwnersReplaced(front, b, list, port);
    }
  }

  lemma {:induction false} OwnersOfUpdate(list: seq<Mapping>, i: nat, m: Mapping, port: int)
    requires i < |list| && m.exPort == list[i].exPort
    ensures Owners(list[i := m], port) == Owners(list, port)
    decreases |list|
  {
    var front := list[..|list| - 1];
    if i == |list| - 1 {
      assert list[i := m][..|list| - 1] == front;
    } else {
      assert list[i := m][..|list| - 1] == front[i := m];
      OwnersOfUpdate(front, i, m, port);
    }
  }

  lemma OwnersOfAppend(list: seq<Mapping>, m: Mapping, port: int)
    ensures Owners(list + [m], port) == Owners(list, port) + if m.exPort == port then 1 else 0
  {}

  /** Sweeping a list clears the flag of exactly those ports whose owners it removes. */
  lemma {:induction false} SweptOwners(list: seq<Mapping>, now: int, taken: seq<bool>, port: int)
    requires |taken| == PORTS && 0 <= port < PORTS
    ensures Owners(Alive(list, now), port) <= Owners(list, port)
    ensures Freed(taken, list, now)[port] ==
              (taken[port] && Owners(Alive(list, now), port) == Owners(list, port))
  {
    if list != [] {
      var front, last := list[..|list| - 1], list[|list| - 1];
      SweptOwners(front, now, taken, port);
      if IsDead(last, now) {
        assert Alive(front, now) + [] == Alive(front, now);
      } else {
        OwnersOfAppend(Alive(front, now), last, port);
      }
    }
  }

  lemma {:induction false} OwnersAmongAll(lists: seq<seq<Mapping>>, b: nat, port: int)
    requires b < |lists|
    ensures Owners(lists[b], port) <= AllOwners(lists, port)
  {
    if b < |lists| - 1 { OwnersAmongAll(lists[..|lists| - 1], b, port); }
  }

  lemma SweepListKeepsPool(t: Table, now: int, b: nat)
    requires t.Valid() && PoolExact(t) && b < BUCKETS
    ensures PoolExact(SweepList(t, now, b))
  {
    var r := SweepList(t, now, b);
    forall port | InPool(port) ensures PortExact(r, port) {
      assert PortExact(t, port);
      SweptOwners(t.lists[b], now, t.taken, port);
      OwnersReplaced(t.lists, b, Alive(t.lists[b], now), port);
      OwnersAmongAll(t.lists, b, port);
    }
  }

  lemma {:induction false} SweepKeepsPool(t: Table, now: int, n: nat)
    requires t.Valid() && PoolExact(t) && n <= BUCKETS
    ensures PoolExact(Sweep(t, now, n))
  {
    if n > 0 {
      SweepKeepsPool(t, now, n - 1);
      SweepListKeepsPool(Sweep(t, now, n - 1), now, n - 1);
    }
  }

  /** An outbound packet keeps the pool exact, even when the pool is exhausted. */
  lemma OutboundKeepsPool(t: Table, p: Packet, now: int)
    requires t.Valid() && PoolExact(t)
    ensures Outbound(t, p, now).table.Valid() && PoolExact(Outbound(t, p, now).table)
  {
    var b := Bucket(p.dstIp, p.dstPort);
    var i := FindIn(t.lists[b], p.srcIp, p.srcPort, |t.lists[b]|);
    var r := Outbound(t, p, now).table;
    forall port | InPool(port) ensures PortExact(r, port) {
      assert PortExact(t, port);
      OwnersReplaced(t.lists, b, r.lists[b], port);
      if i == -1 {
        OwnersOfAppend(t.lists[b], r.lists[b][|t.lists[b]|], port);
      } else {
        OwnersOfUpdate(t.lists[b], i, r.lists[b][i], port);
      }
    }
  }

  /** Whether an inbound packet finds a mapping in the list of its source. */
  predicate Hits(t: Table, p: Packet)
    requires t.Valid()
  {
    var list := t.lists[Bucket(p.srcIp, p.srcPort)];
    FindEx(list, p.dstIp, p.dstPort, |list|) != -1
  }

  /** Exactly which inbound packets keep the pool exact: those that hit a mapping, and those
      for ports outside the pool. A stray packet for a pool port always upsets it. */
  lemma {:induction false} InboundKeepsPoolExactly(t: Table, p: Packet, now: int)
    requires t.Valid() && PoolExact(t) && ValidPacket(p)
    ensures Inbound(t, p, now).table.Valid()
    ensures PoolExact(Inbound(t, p, now).table) <==> Hits(t, p) || !InPool(p.dstPort)
  {
    var b := Bucket(p.srcIp, p.srcPort);
    var i := FindEx(t.lists[b], p.dstIp, p.dstPort, |t.lists[b]|);
    var r := Inbound(t, p, now).table;
    forall port | InPool(port)
      ensures PortExact(r, port) <==> Hits(t, p) || port != p.dstPort
    {
      assert PortExact(t, port);
      OwnersReplaced(t.lists, b, r.lists[b], port);
      if i == -1 {
        OwnersOfAppend(t.lists[b], r.lists[b][|t.lists[b]|], port);
      } else {
        OwnersOfUpdate(t.lists[b], i, r.lists[b][i], port);
      }
    }
    assert InPool(p.dstPort) && PoolExact(r) ==> PortExact(r, p.dstPort);
  }

  // ----------------------------------------------------------------- every run of the box

  /** External ends are unique, but for the port 0 that an exhausted pool hands out. */
  ghost predicate OneExternalEach(list: seq<Mapping>)
  {
    forall i, j :: 0 <= i < j < |list| && list[i].exPort != 0 ==>
      list[i].exIp != list[j].exIp || list[i].exPort != list[j].exPort
  }

  ghost predicate Inv(t: Table)
  {
    t.Valid() && PoolExact(t) && forall b :: 0 <= b < BUCKETS ==> OneExternalEach(t.lists[b])
  }

  datatype Step = In(p: Packet, now: int) | Out(p: Packet, now: int) | Clean(now: int)

  /** No inbound packet is a stray one for a pool port. */
  predicate Legal(t: Table, st: Step)
    requires t.Valid()
  {
    match st
    case In(p, _) => ValidPacket(p) && (Hits(t, p) || !InPool(p.dstPort))
    case Out(p, _) => ValidPacket(p)
    case Clean(_) => true
  }

  function Next(t: Table, st: Step): Table
    requires t.Valid()
  {
    match st
    case In(p, now) => Inbound(t, p, now).table
    case Out(p, now) => Outbound(t, p, now).table
    case Clean(now) => Sweep(t, now, BUCKETS)
  }

  function Init(rules: seq<Rule>, extIp: nat): Table
  {
    Table(seq(PORTS, _ => false), seq(BUCKETS, _ => []), rules, extIp)
  }

  lemma {:induction false} NoOwners(lists: seq<seq<Mapping>>, port: int)
    requires forall b :: 0 <= b < |lists| ==> lists[b] == []
    ensures AllOwners(lists, port) == 0
  {
    if lists != [] { NoOwners(lists[..|lists| - 1], port); }
  }

  lemma InitInv(rules: seq<Rule>, extIp: nat)
    ensures Inv(Init(rules, extIp))
  {
    var t := Init(rules, extIp);
    forall port | InPool(port) ensures PortExact(t, port) {
      NoOwners(t.lists, port);
    }
  }

  lemma {:induction false} OwnerCounted(list: seq<Mapping>, i: nat)
    requires i < |list|
    ensures 0 < Owners(list, list[i].exPort)
    decreases |list|
  {
    if i < |list| - 1 { OwnerCounted(list[..|list| - 1], i); }
  }

  lemma {:induction false} AliveOneExternalEach(list: seq<Mapping>, now: int)
    requires OneExternalEach(list) && InRange(list)
    ensures OneExternalEach(Alive(list, now))
  {
    if list != [] {
      var front, last := list[..|list| - 1], list[|list| - 1];
      AliveOneExternalEach(front, now);
      AliveInRange(front, now);
      var kept := Alive(front, now);
      forall i | 0 <= i < |kept| && kept[i].exPort != 0
        ensures kept[i].exIp != last.exIp || kept[i].exPort != last.exPort
      {
        assert kept[i] in front;
      }
    }
  }

  lemma {:induction false} SweptList(t: Table, now: int, n: nat, b: nat)
    requires t.Valid() && n <= BUCKETS && b < BUCKETS
    ensures Sweep(t, now, n).lists[b] == if b < n then Alive(t.lists[b], now) else t.lists[b]
  {
    if n > 0 { SweptList(t, now, n - 1, b); }
  }

  lemma OutboundKeepsUnique(t: Table, p: Packet, now: int)
    requires Inv(t) && Legal(t, Out(p, now))
    ensures var b := Bucket(p.dstIp, p.dstPort); OneExternalEach(Outbound(t, p, now).table.lists[b])
  {
    var b := Bucket(p.dstIp, p.dstPort);
    var list := t.lists[b];
    var port := FreePort(t.taken, PORT_MIN);
    if FindIn(list, p.srcIp, p.srcPort, |list|) == -1 && port != 0 {
      assert PortExact(t, port);
      OwnersAmongAll(t.lists, b, port);
      forall i | 0 <= i < |list| ensures list[i].exPort != port {
        OwnerCounted(list, i);
      }
    }
  }

  lemma {:induction false} StepKeepsInv(t: Table, st: Step)
    requires Inv(t) && Legal(t, st)
    ensures Inv(Next(t, st))
  {
    match st
    case In(p, now) => InboundKeepsPoolExactly(t, p, now);
    case Out(p, now) =>
      OutboundKeepsPool(t, p, now);
      OutboundKeepsUnique(t, p, now);
    case Clean(now) =>
      SweepKeepsPool(t, now, BUCKETS);
      forall b | 0 <= b < BUCKETS ensures OneExternalEach(Sweep(t, now, BUCKETS).lists[b]) {
        SweptList(t, now, BUCKETS, b);
        AliveOneExternalEach(t.lists[b], now);
      }
  }

  ghost predicate ValidRun(t: Table, run: seq<Step>)
    decreases |run|
  {
    t.Valid() && (run == [] || (Legal(t, run[0]) && ValidRun(Next(t, run[0]), run[1..])))
  }

  ghost function After(t: Table, run: seq<Step>): Table
    requires ValidRun(t, run)
    decreases |run|
  {
    if run == [] then t else After(Next(t, run[0]), run[1..])
  }

  /** In every run of sweeps, outbound packets, whether the pool is exhausted or not, and inbound
      packets that are no strays for pool ports, a pool port is flagged exactly when one mapping
      owns it, and owned by none otherwise. */
  lemma {:induction false} PoolAlwaysExact(t: Table, run: seq<Step>)
    requires Inv(t) && ValidRun(t, run)
    ensures Inv(After(t, run))
    decreases |run|
  {
    if run != [] {
      StepKeepsInv(t, run[0]);
      PoolAlwaysExact(Next(t, run[0]), run[1..]);
    }
  }

  // ------------------------------------------------------------------- there and back again

  /** The two ends that a mapping joins. */
  datatype Ends = Ends(inIp: nat, inPort: nat, exIp: nat, exPort: nat)

  function EndsOf(m: Mapping): Ends { Ends(m.inIp, m.inPort, m.exIp, m.exPort) }

  ghost predicate Lives(t: Table, b: nat, k: Ends)
    requires b < |t.lists|
  {
    exists i :: 0 <= i < |t.lists[b]| && EndsOf(t.lists[b][i]) == k
  }

  /** No sweep of the run finds the mapping dead. */
  ghost predicate Spared(t: Table, run: seq<Step>, b: nat, k: Ends)
    requires ValidRun(t, run) && b < BUCKETS
    decreases |run|
  {
    run == [] ||
    ((run[0].Clean? ==>
        forall i :: 0 <= i < |t.lists[b]| && EndsOf(t.lists[b][i]) == k ==> !IsDead(t.lists[b][i], run[0].now))
     && Spared(Next(t, run[0]), run[1..], b, k))
  }

  lemma LivesAfterSweep(t: Table, now: int, b: nat, k: Ends)
    requires t.Valid() && b < BUCKETS && Lives(t, b, k)
    requires forall i :: 0 <= i < |t.lists[b]| && EndsOf(t.lists[b][i]) == k ==> !IsDead(t.lists[b][i], now)
    ensures Lives(Sweep(t, now, BUCKETS), b, k)
  {
    var i :| 0 <= i < |t.lists[b]| && EndsOf(t.lists[b][i]) == k;
    SweptList(t, now, BUCKETS, b);
    AliveInRange(t.lists[b], now);
    var kept := Alive(t.lists[b], now);
    assert t.lists[b][i] in kept;
    var j :| 0 <= j < |kept| && kept[j] == t.lists[b][i];
  }

  /** A translation keeps every mapping's ends where they are in its list. */
  lemma EndsStay(t: Table, st: Step, b: nat, i: nat)
    requires t.Valid() && b < BUCKETS && i < |t.lists[b]| && !st.Clean?
    ensures |Next(t, st).lists| == BUCKETS && i < |Next(t, st).lists[b]|
    ensures EndsOf(Next(t, st).lists[b][i]) == EndsOf(t.lists[b][i])
  {}

  lemma LivesAfterStep(t: Table, st: Step, b: nat, k: Ends)
    requires t.Valid() && b < BUCKETS && Lives(t, b, k)
    requires st.Clean? ==>
               forall i :: 0 <= i < |t.lists[b]| && EndsOf(t.lists[b][i]) == k ==> !IsDead(t.lists[b][i], st.now)
    ensures |Next(t, st).lists| == BUCKETS && Lives(Next(t, st), b, k)
  {
    if st.Clean? {
      LivesAfterSweep(t, st.now, b, k);
    } else {
      var i :| 0 <= i < |t.lists[b]| && EndsOf(t.lists[b][i]) == k;
      EndsStay(t, st, b, i);
    }
  }

  lemma {:induction false} LivesAfterRun(t: Table, run: seq<Step>, b: nat, k: Ends)
    requires Inv(t) && ValidRun(t, run) && b < BUCKETS && Lives(t, b, k) && Spared(t, run, b, k)
    ensures |After(t, run).lists| == BUCKETS && Lives(After(t, run), b, k)
    decreases |run|
  {
    if run != [] {
      LivesAfterStep(t, run[0], b, k);
      StepKeepsInv(t, run[0]);
      LivesAfterRun(Next(t, run[0]), run[1..], b, k);
    }
  }

  lemma ReplyFindsMapping(t: Table, b: nat, k: Ends, r: Packet, now: int)
    requires Inv(t) && b < BUCKETS && Lives(t, b, k) && k.exPort != 0
    requires Bucket(r.srcIp, r.srcPort) == b && r.dstIp == k.exIp && r.dstPort == k.exPort
    ensures Inbound(t, r, now).packet == r.(dstIp := k.inIp, dstPort := k.inPort)
  {}

  /** A packet that goes out to a remote with a port to its name and that remote's reply to the
      translated source: the reply is delivered to the address and port that the packet came from,
      whatever legal packets and sweeps come between, as long as no sweep finds the mapping dead. */
  lemma {:induction false} ReplyReturnsToSender(t: Table, p: Packet, now: int, run: seq<Step>, r: Packet, later: int)
    requires Inv(t) && Legal(t, Out(p, now))
    requires var o := Outbound(t, p, now);
             var k := Ends(p.srcIp, p.srcPort, o.packet.srcIp, o.packet.srcPort);
             && o.packet.srcPort != 0 && ValidRun(o.table, run) && Spared(o.table, run, Bucket(p.dstIp, p.dstPort), k)
             && r.srcIp == p.dstIp && r.srcPort == p.dstPort
             && r.dstIp == o.packet.srcIp && r.dstPort == o.packet.srcPort
    ensures After(Outbound(t, p, now).table, run).Valid()
    ensures Inbound(After(Outbound(t, p, now).table, run), r, later).packet ==
              r.(dstIp := p.srcIp, dstPort := p.srcPort)
  {
    var o := Outbound(t, p, now);
    var b := Bucket(p.dstIp, p.dstPort);
    var k := Ends(p.srcIp, p.srcPort, o.packet.srcIp, o.packet.srcPort);
    var list := t.lists[b];
    var i := FindIn(list, p.srcIp, p.srcPort, |list|);
    assert EndsOf(o.table.lists[b][if i == -1 then |list| else i]) == k;
    StepKeepsInv(t, Out(p, now));
    LivesAfterRun(o.table, run, b, k);
    PoolAlwaysExact(o.table, run);
    ReplyFindsMapping(After(o.table, run), b, k, r, later);
  }

  /** Mappings with these ends were used no earlier than `since` and have sent no FIN. */
  ghost predicate Recent(t: Table, b: nat, k: Ends, since: int)
    requires b < |t.lists|
  {
    forall i :: 0 <= i < |t.lists[b]| && EndsOf(t.lists[b][i]) == k ==>
      since <= t.lists[b][i].updated && !t.lists[b][i].conn.inFin
  }

  /** Sweeps come within the timeout, packets no earlier, and none that goes out is a FIN. */
  predicate Prompt(st: Step, since: int)
  {
    match st
    case In(_, now) => since <= now
    case Out(p, now) => since <= now && p.flags != TCP_FIN
    case Clean(now) => now - since <= TIMEOUT
  }

  lemma RecentAfterSweep(t: Table, now: int, b: nat, k: Ends, since: int)
    requires t.Valid() && b < BUCKETS && Recent(t, b, k, since)
    ensures Recent(Sweep(t, now, BUCKETS), b, k, since)
  {
    SweptList(t, now, BUCKETS, b);
    AliveInRange(t.lists[b], now);
    var kept := Alive(t.lists[b], now);
    forall i | 0 <= i < |kept| && EndsOf(kept[i]) == k ensures since <= kept[i].updated && !kept[i].conn.inFin {
      assert kept[i] in t.lists[b];
    }
  }

  /** A translation touches one mapping or adds one. */
  lemma RecentAfterTouch(t: Table, list: seq<Mapping>, c: nat, i: nat, b: nat, k: Ends, since: int)
    requires t.Valid() && b < BUCKETS && c < BUCKETS && Recent(t, b, k, since)
    requires i < |list| && |t.lists[c]| <= |list|
    requires forall j :: 0 <= j < |list| && j != i ==> j < |t.lists[c]| && list[j] == t.lists[c][j]
    requires EndsOf(list[i]) == k ==>
               since <= list[i].updated &&
               (list[i].conn.inFin ==> i < |t.lists[c]| && EndsOf(t.lists[c][i]) == k && t.lists[c][i].conn.inFin)
    ensures Recent(t.(lists := t.lists[c := list]), b, k, since)
  {}

  lemma RecentAfterStep(t: Table, st: Step, b: nat, k: Ends, since: int)
    requires t.Valid() && b < BUCKETS && Recent(t, b, k, since) && Prompt(st, since)
    ensures b < |Next(t, st).lists| && Recent(Next(t, st), b, k, since)
  {
    match st
    case Clean(now) => RecentAfterSweep(t, now, b, k, since);
    case In(p, now) =>
      var c := Bucket(p.srcIp, p.srcPort);
      var i := FindEx(t.lists[c], p.dstIp, p.dstPort, |t.lists[c]|);
      RecentAfterTouch(t, Next(t, st).lists[c], c, if i == -1 then |t.lists[c]| else i, b, k, since);
    case Out(p, now) =>
      var c := Bucket(p.dstIp, p.dstPort);
      var i := FindIn(t.lists[c], p.srcIp, p.srcPort, |t.lists[c]|);
      RecentAfterTouch(t, Next(t, st).lists[c], c, if i == -1 then |t.lists[c]| else i, b, k, since);
  }

  lemma {:induction false} RecentIsSpared(t: Table, run: seq<Step>, b: nat, k: Ends, since: int)
    requires Inv(t) && ValidRun(t, run) && b < BUCKETS && Recent(t, b, k, since)
    requires forall i :: 0 <= i < |run| ==> Prompt(run[i], since)
    ensures Spared(t, run, b, k)
    decreases |run|
  {
    if run != [] {
      RecentAfterStep(t, run[0], b, k, since);
      StepKeepsInv(t, run[0]);
      RecentIsSpared(Next(t, run[0]), run[1..], b, k, since);
    }
  }

  lemma RecentAfterOutbound(t: Table, p: Packet, now: int)
    requires Inv(t) && Legal(t, Out(p, now)) && p.flags != TCP_FIN && Outbound(t, p, now).packet.srcPort != 0
    ensures var o := Outbound(t, p, now);
            Recent(o.table, Bucket(p.dstIp, p.dstPort), Ends(p.srcIp, p.srcPort, o.packet.srcIp, o.packet.srcPort), now)
  {
    StepKeepsInv(t, Out(p, now));
  }

  /** A reply within the timeout: if the packet is no FIN, none goes out in between and no sweep
      comes more than 60 seconds after it, the reply is delivered to where the packet came from. */
  lemma {:induction false} PromptReplyReturns(t: Table, p: Packet, now: int, run: seq<Step>, r: Packet, later: int)
    requires Inv(t) && Legal(t, Out(p, now)) && p.flags != TCP_FIN
    requires Outbound(t, p, now).packet.srcPort != 0 && ValidRun(Outbound(t, p, now).table, run)
    requires forall i :: 0 <= i < |run| ==> Prompt(run[i], now)
    requires r.srcIp == p.dstIp && r.srcPort == p.dstPort
    requires r.dstIp == Outbound(t, p, now).packet.srcIp && r.dstPort == Outbound(t, p, now).packet.srcPort
    ensures After(Outbound(t, p, now).table, run).Valid()
    ensures Inbound(After(Outbound(t, p, now).table, run), r, later).packet ==
              r.(dstIp := p.srcIp, dstPort := p.srcPort)
  {
    var o := Outbound(t, p, now);
    StepKeepsInv(t, Out(p, now));
    RecentAfterOutbound(t, p, now);
    RecentIsSpared(o.table, run, Bucket(p.dstIp, p.dstPort),
                   Ends(p.srcIp, p.srcPort, o.packet.srcIp, o.packet.srcPort), now);
    ReplyReturnsToSender(t, p, now, run, r, later);
  }

  // ------------------------------------------------------------------- published servers

  /** The first mapping of the list with this internal end has these ends. */
  ghost predicate First(list: seq<Mapping>, k: Ends)
  {
    exists i :: 0 <= i < |list| && FirstAt(list, k, i)
  }

  ghost predicate FirstAt(list: seq<Mapping>, k: Ends, i: int)
    requires 0 <= i < |list|
  {
    EndsOf(list[i]) == k && forall j :: 0 <= j < i ==> list[j].inIp != k.inIp || list[j].inPort != k.inPort
  }

  lemma {:induction false} FirstAfterSweep(list: seq<Mapping>, now: int, k: Ends, i: nat)
    requires InRange(list) && i < |list| && FirstAt(list, k, i) && !IsDead(list[i], now)
    ensures First(Alive(list, now), k)
    decreases |list|
  {
    var front, last := list[..|list| - 1], list[|list| - 1];
    var kept := Alive(front, now);
    if i == |list| - 1 {
      AliveInRange(front, now);
      forall j | 0 <= j < |kept| ensures kept[j].inIp != k.inIp || kept[j].inPort != k.inPort {
        assert kept[j] in front;
      }
      assert FirstAt(kept + [last], k, |kept|);
    } else {
      assert FirstAt(front, k, i);
      FirstAfterSweep(front, now, k, i);
      var j :| 0 <= j < |kept| && FirstAt(kept, k, j);
      assert FirstAt(Alive(list, now), k, j);
    }
  }

  lemma FirstAfterTouch(t: Table, st: Step, b: nat, k: Ends)
    requires t.Valid() && b < BUCKETS && First(t.lists[b], k) && !st.Clean?
    ensures |Next(t, st).lists| == BUCKETS && First(Next(t, st).lists[b], k)
  {
    var list, i :| list == t.lists[b] && 0 <= i < |list| && FirstAt(list, k, i);
    forall j: nat | j <= i ensures j < |Next(t, st).lists[b]| && EndsOf(Next(t, st).lists[b][j]) == EndsOf(list[j]) {
      EndsStay(t, st, b, j);
    }
    assert FirstAt(Next(t, st).lists[b], k, i);
  }

  lemma {:induction false} FirstAfterRun(t: Table, run: seq<Step>, b: nat, k: Ends)
    requires Inv(t) && ValidRun(t, run) && b < BUCKETS && First(t.lists[b], k) && Spared(t, run, b, k)
    ensures |After(t, run).lists| == BUCKETS && First(After(t, run).lists[b], k)
    decreases |run|
  {
    if run != [] {
      if run[0].Clean? {
        var i :| 0 <= i < |t.lists[b]| && FirstAt(t.lists[b], k, i);
        SweptList(t, run[0].now, BUCKETS, b);
        FirstAfterSweep(t.lists[b], run[0].now, k, i);
      } else {
        FirstAfterTouch(t, run[0], b, k);
      }
      StepKeepsInv(t, run[0]);
      FirstAfterRun(Next(t, run[0]), run[1..], b, k);
    }
  }

  lemma {:induction false} FoundIsFirst(list: seq<Mapping>, k: Ends)
    requires First(list, k)
    ensures var i := FindIn(list, k.inIp, k.inPort, |list|); 0 <= i < |list| && EndsOf(list[i]) == k
  {
    var i :| 0 <= i < |list| && FirstAt(list, k, i);
    FirstInFound(list, k.inIp, k.inPort, i);
  }

  /** The packet comes from outside for an end that rule `k` publishes, and hits no mapping; its remote
      is not yet in touch with the server's internal end. */
  ghost predicate Calls(t: Table, p: Packet, k: nat)
    requires t.Valid()
  {
    var list := t.lists[Bucket(p.srcIp, p.srcPort)];
    && ValidPacket(p) && !InPool(p.dstPort) && k < |t.rules| && LastFor(t.rules, p.dstIp, p.dstPort, k)
    && (forall i :: 0 <= i < |list| ==> list[i].exIp != p.dstIp || list[i].exPort != p.dstPort)
    && (forall i :: 0 <= i < |list| ==> list[i].inIp != t.rules[k].inIp || list[i].inPort != t.rules[k].inPort)
  }

  /** The server's packet back to where `p` came from. */
  predicate Answers(a: Packet, p: Packet, r: Rule)
  {
    a.srcIp == r.inIp && a.srcPort == r.inPort && a.dstIp == p.srcIp && a.dstPort == p.srcPort
  }

  lemma CallIsFirst(t: Table, p: Packet, now: int, k: nat)
    requires Inv(t) && Calls(t, p, k)
    ensures Legal(t, In(p, now)) && Inv(Inbound(t, p, now).table)
    ensures var b := Bucket(p.srcIp, p.srcPort);
            var e := Ends(t.rules[k].inIp, t.rules[k].inPort, p.dstIp, p.dstPort);
            First(Inbound(t, p, now).table.lists[b], e) && Recent(Inbound(t, p, now).table, b, e, now)
  {
    var b := Bucket(p.srcIp, p.srcPort);
    var e := Ends(t.rules[k].inIp, t.rules[k].inPort, p.dstIp, p.dstPort);
    var list, after := t.lists[b], Inbound(t, p, now).table.lists[b];
    assert t.rules[..|t.rules|] == t.rules;
    LastRuleStands(t.rules, Mapping(0, 0, p.dstIp, p.dstPort, 0, FRESH_CONN), |t.rules|, k);
    assert |after| == |list| + 1 && forall i :: 0 <= i < |list| ==> after[i] == list[i];
    assert FirstAt(after, e, |list|);
    StepKeepsInv(t, In(p, now));
  }

  /** The round trip of a published server: a call for an end that a rule publishes goes to the server,
      and the server's answer leaves with that end, whatever legal packets and sweeps come between, as
      long as no sweep finds the mapping dead. */
  lemma {:induction false} ServerAnswers(t: Table, p: Packet, now: int, k: nat, run: seq<Step>, a: Packet, later: int)
    requires Inv(t) && Calls(t, p, k) && Answers(a, p, t.rules[k])
    requires ValidRun(Inbound(t, p, now).table, run)
    requires Spared(Inbound(t, p, now).table, run, Bucket(p.srcIp, p.srcPort),
                    Ends(t.rules[k].inIp, t.rules[k].inPort, p.dstIp, p.dstPort))
    ensures Inbound(t, p, now).packet == p.(dstIp := t.rules[k].inIp, dstPort := t.rules[k].inPort)
    ensures After(Inbound(t, p, now).table, run).Valid()
    ensures Outbound(After(Inbound(t, p, now).table, run), a, later).packet ==
              a.(srcIp := p.dstIp, srcPort := p.dstPort)
  {
    var b := Bucket(p.srcIp, p.srcPort);
    var e := Ends(t.rules[k].inIp, t.rules[k].inPort, p.dstIp, p.dstPort);
    StrayGoesByRules(t, p, now, k);
    CallIsFirst(t, p, now, k);
    FirstAfterRun(Inbound(t, p, now).table, run, b, e);
    PoolAlwaysExact(Inbound(t, p, now).table, run);
    FoundIsFirst(After(Inbound(t, p, now).table, run).lists[b], e);
  }

  /** As when the server sends no FIN in between and no sweep comes more than 60 seconds after the call. */
  lemma {:induction false} PromptServerAnswers(t: Table, p: Packet, now: int, k: nat, run: seq<Step>,
                                               a: Packet, later: int)
    requires Inv(t) && Calls(t, p, k) && Answers(a, p, t.rules[k])
    requires ValidRun(Inbound(t, p, now).table, run) && forall i :: 0 <= i < |run| ==> Prompt(run[i], now)
    ensures After(Inbound(t, p, now).table, run).Valid()
    ensures Outbound(After(Inbound(t, p, now).table, run), a, later).packet ==
              a.(srcIp := p.dstIp, srcPort := p.dstPort)
  {
    CallIsFirst(t, p, now, k);
    RecentIsSpared(Inbound(t, p, now).table, run, Bucket(p.srcIp, p.srcPort),
                   Ends(t.rules[k].inIp, t.rules[k].inPort, p.dstIp, p.dstPort), now);
    ServerAnswers(t, p, now, k, run, a, later);
  }

  lemma {:induction false} FindInSame(list: seq<Mapping>, m: Mapping, ip: nat, port: nat, n: nat)
    requires n <= |list|
    ensures FindIn(list + [m], ip, port, n) == FindIn(list, ip, port, n)
  {
    if n > 0 { FindInSame(list, m, ip, port, n - 1); }
  }

  /** The condition on a call is exact: an answer to it leaves with the published end if and only if no
      mapping of the remote's list had the server's internal end yet. */
  lemma {:induction false} AnswerIsRightExactly(t: Table, p: Packet, now: int, k: nat, a: Packet, later: int)
    requires t.Valid() && ValidPacket(p) && k < |t.rules| && LastFor(t.rules, p.dstIp, p.dstPort, k)
    requires Answers(a, p, t.rules[k])
    requires var list := t.lists[Bucket(p.srcIp, p.srcPort)];
             forall i :: 0 <= i < |list| ==> list[i].exIp != p.dstIp || list[i].exPort != p.dstPort
    ensures Inbound(t, p, now).table.Valid()
    ensures var list := t.lists[Bucket(p.srcIp, p.srcPort)];
            Outbound(Inbound(t, p, now).table, a, later).packet == a.(srcIp := p.dstIp, srcPort := p.dstPort) <==>
              forall i :: 0 <= i < |list| ==> list[i].inIp != t.rules[k].inIp || list[i].inPort != t.rules[k].inPort
  {
    var b, r := Bucket(p.srcIp, p.srcPort), t.rules[k];
    var list, after := t.lists[b], Inbound(t, p, now).table.lists[b];
    assert t.rules[..|t.rules|] == t.rules;
    LastRuleStands(t.rules, Mapping(0, 0, p.dstIp, p.dstPort, 0, FRESH_CONN), |t.rules|, k);
    assert after == list + [after[|list|]];
    FindInSame(list, after[|list|], r.inIp, r.inPort, |list|);
    var i := FindIn(list, r.inIp, r.inPort, |list|);
    if i == -1 {
      FirstInFound(after, r.inIp, r.inPort, |list|);
    } else {
      FoundStaysIn(after, r.inIp, r.inPort, |list|, |after|);
      assert after[i] == list[i];
    }
  }

  // ------------------------------------------------------------------------- what a sweep removes

  /** A sweep removes exactly the mappings unused for more than 60 seconds and those of finished
      connections. */
  lemma SweepRemovesExactly(t: Table, now: int, b: nat, m: Mapping)
    requires t.Valid() && b < BUCKETS
    ensures m in Sweep(t, now, BUCKETS).lists[b] <==>
              && m in t.lists[b] && now - m.updated <= 60
              && !(m.conn.inFin && m.conn.exFin &&
                   m.conn.inAck >= m.conn.exSeqEnd && m.conn.exAck >= m.conn.inSeqEnd)
  {
    SweptList(t, now, BUCKETS, b);
    AliveInRange(t.lists[b], now);
  }

  // ---------------------------------------------------------------------- the box as an object

  class NatBox {
    const taken: array<bool>
    const lists: array<seq<Mapping>>
    const rules: seq<Rule>
    const extIp: nat

    ghost predicate Valid()
      reads taken, lists
    {
      taken.Length == PORTS && lists.Length == BUCKETS && Model().Valid()
    }

    ghost function Model(): Table
      reads taken, lists
    {
      Table(taken[..], lists[..], rules, extIp)
    }

    constructor (rules: seq<Rule>, extIp: nat)
      ensures Valid() && fresh(taken) && fresh(lists) && Model() == Init(rules, extIp)
    {
      this.rules, this.extIp := rules, extIp;
      taken := new bool[PORTS](_ => false);
      lists := new seq<Mapping>[BUCKETS](_ => []);
      new;
      assert taken[..] == Init(rules, extIp).taken && lists[..] == Init(rules, extIp).lists;
    }

    method AssignPort() returns (port: nat)
      requires Valid()
      modifies taken
      ensures Valid() && port == FreePort(old(taken[..]), PORT_MIN)
      ensures taken[..] == if port != 0 then old(taken[..])[port := true] else old(taken[..])
      ensures port != 0 ==>
                12345 <= port < 23456 && !old(taken[..])[port] && forall k :: 12345 <= k < port ==> old(taken[..])[k]
      ensures port == 0 ==> forall k :: 12345 <= k < 23456 ==> old(taken[..])[k]
    {
      for i := PORT_MIN to PORT_MAX
        invariant taken[..] == old(taken[..])
        invariant FreePort(taken[..], PORT_MIN) == FreePort(taken[..], i)
      {
        if !taken[i] {
          taken[i] := true;
          return i;
        }
      }
      return 0;
    }

    method CheckRules(m0: Mapping) returns (m: Mapping)
      ensures m == ByRules(rules, m0, |rules|)
      ensures forall k :: LastFor(rules, m0.exIp, m0.exPort, k) ==>
                m == if k == -1 then m0 else m0.(inIp := rules[k].inIp, inPort := rules[k].inPort)
    {
      m := m0;
      for i := 0 to |rules|
        invariant m == ByRules(rules, m0, i)
      {
        if rules[i].exIp == m.exIp && rules[i].exPort == m.exPort {
          m := m.(inIp := rules[i].inIp, inPort := rules[i].inPort);
        }
      }
      assert rules[..|rules|] == rules;
      forall k | LastFor(rules, m0.exIp, m0.exPort, k)
        ensures m == if k == -1 then m0 else m0.(inIp := rules[k].inIp, inPort := rules[k].inPort)
      {
        LastRuleStands(rules, m0, |rules|, k);
      }
    }

    method TranslateInbound(p: Packet, now: int) returns (q: Packet)
      requires Valid() && ValidPacket(p)
      modifies lists
      ensures Valid() && Model() == Inbound(old(Model()), p, now).table
      ensures q == Inbound(old(Model()), p, now).packet
    {
      var b := Bucket(p.srcIp, p.srcPort);
      var list := lists[b];
      var i := 0;
      while i < |list| && !(list[i].exIp == p.dstIp && list[i].exPort == p.dstPort)
        invariant 0 <= i <= |list| && FindEx(list, p.dstIp, p.dstPort, i) == -1
      {
        i := i + 1;
      }
      var m;
      if i == |list| {
        m := CheckRules(Mapping(0, 0, p.dstIp, p.dstPort, 0, FRESH_CONN));
        m := TouchIn(m, p, now);
        lists[b] := list + [m];
      } else {
        FirstExFound(list, p.dstIp, p.dstPort, i);
        m := TouchIn(list[i], p, now);
        lists[b] := list[i := m];
      }
      q := p.(dstIp := m.inIp, dstPort := m.inPort);
    }

    method TranslateOutbound(p: Packet, now: int) returns (q: Packet)
      requires Valid() && ValidPacket(p)
      modifies lists, taken
      ensures Valid() && Model() == Outbound(old(Model()), p, now).table
      ensures q == Outbound(old(Model()), p, now).packet
    {
      var b := Bucket(p.dstIp, p.dstPort);
      var list := lists[b];
      var i := 0;
      while i < |list| && !(list[i].inIp == p.srcIp && list[i].inPort == p.srcPort)
        invariant 0 <= i <= |list| && FindIn(list, p.srcIp, p.srcPort, i) == -1
      {
        i := i + 1;
      }
      var m;
      if i == |list| {
        var port := AssignPort();
        m := TouchOut(Mapping(p.srcIp, p.srcPort, extIp, port, 0, FRESH_CONN), p, now);
        lists[b] := list + [m];
      } else {
        FirstInFound(list, p.srcIp, p.srcPort, i);
        m := TouchOut(list[i], p, now);
        lists[b] := list[i := m];
      }
      q := p.(srcIp := m.exIp, srcPort := m.exPort);
    }

    method SweepBucket(b: nat, now: int)
      requires Valid() && b < BUCKETS
      modifies lists, taken
      ensures Valid() && Model() == SweepList(old(Model()), now, b)
    {
      ghost var before := Model();
      var list := lists[b];
      var kept: seq<Mapping> := [];
      for i := 0 to |list|
        invariant Valid() && lists[..] == old(lists[..])
        invariant kept == Alive(list[..i], now) && taken[..] == Freed(old(taken[..]), list[..i], now)
      {
        assert list[..i + 1][..i] == list[..i];
        if IsDead(list[i], now) {
          taken[list[i].exPort] := false;
        } else {
          kept := kept + [list[i]];
        }
      }
      assert list[..|list|] == list;
      AliveInRange(list, now);
      lists[b] := kept;
    }

    method SweepAll(now: int)
      requires Valid()
      modifies lists, taken
      ensures Valid() && Model() == Sweep(old(Model()), now, BUCKETS)
      ensures forall b: nat, m :: b < 256 ==>
                (m in lists[b] <==>
                   && m in old(lists[b]) && now - m.updated <= 60
                   && !(m.conn.inFin && m.conn.exFin &&
                        m.conn.inAck >= m.conn.exSeqEnd && m.conn.exAck >= m.conn.inSeqEnd))
    {
      ghost var before := Model();
      for b := 0 to BUCKETS
        invariant Valid() && Model() == Sweep(old(Model()), now, b)
      {
        SweepBucket(b, now);
      }
      forall b: nat, m | b < 256
        ensures m in lists[b] <==>
                  && m in old(lists[b]) && now - m.updated <= 60
                  && !(m.conn.inFin && m.conn.exFin &&
                       m.conn.inAck >= m.conn.exSeqEnd && m.conn.exAck >= m.conn.inSeqEnd)
      {
        SweepRemovesExactly(before, now, b, m);
      }
    }
  }

  lemma {:induction false} FirstExFound(list: seq<Mapping>, ip: nat, port: nat, i: nat)
    requires i < |list| && list[i].exIp == ip && list[i].exPort == port && FindEx(list, ip, port, i) == -1
    ensures FindEx(list, ip, port, |list|) == i
  {
    FoundStaysEx(list, ip, port, i + 1, |list|);
  }

  lemma {:induction false} FoundStaysEx(list: seq<Mapping>, ip: nat, port: nat, i: nat, n: nat)
    requires i <= n <= |list| && FindEx(list, ip, port, i) != -1
    ensures FindEx(list, ip, port, n) == FindEx(list, ip, port, i)
    decreases n
  {
    if i < n { FoundStaysEx(list, ip, port, i, n - 1); }
  }

  lemma {:induction false} FirstInFound(list: seq<Mapping>, ip: nat, port: nat, i: nat)
    requires i < |list| && list[i].inIp == ip && list[i].inPort == port && FindIn(list, ip, port, i) == -1
    ensures FindIn(list, ip, port, |list|) == i
  {
    FoundStaysIn(list, ip, port, i + 1, |list|);
  }

  lemma {:induction false} FoundStaysIn(list: seq<Mapping>, ip: nat, port: nat, i: nat, n: nat)
    requires i <= n <= |list| && FindIn(list, ip, port, i) != -1
    ensures FindIn(list, ip, port, n) == FindIn(list, ip, port, i)
    decreases n
  {
    if i < n { FoundStaysIn(list, ip, port, i, n - 1); }
  }
}
