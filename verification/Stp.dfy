/** The spanning-tree lab: what a switch keeps and does with a config message. */
module Stp {
  /** `root`, `cost`, `bridge` and `number` are the designated root, cost, switch and port. */
  datatype Port = Port(id: int, root: int, cost: int, bridge: int, number: int)

  datatype Config = Config(root: int, cost: int, bridge: int, number: int)

  /** Every port costs 1 in this lab. */
  const PATH_COST := 1
  const NO_PORT := -1

  datatype Switch = Switch(id: int, root: int, cost: int, rootPort: int, ports: seq<Port>)

  // ------------------------------------------------------------------------- comparisons

  predicate IsDesignated(id: int, p: Port)
  {
    p.bridge == id && p.number == p.id
  }

  predicate IsRoot(sw: Switch) { sw.root == sw.id }

  /** recv_has_higher_pirority: the config is at least as good as what the port holds. */
  predicate Supersedes(p: Port, c: Config)
  {
    if p.root != c.root then c.root < p.root
    else if p.cost != c.cost then c.cost < p.cost
    else if p.bridge != c.bridge then c.bridge < p.bridge
    else c.number <= p.number
  }

  /** compare_ports_pirority answering 0: the first port is strictly better. */
  predicate Better(p: Port, q: Port)
  {
    if p.root != q.root then p.root < q.root
    else if p.cost != q.cost then p.cost < q.cost
    else if p.bridge != q.bridge then p.bridge < q.bridge
    else p.number < q.number
  }

  // --------------------------------------------------------------------------- one switch

  function UpdatePort(p: Port, c: Config): Port
  {
    Port(p.id, c.root, c.cost, c.bridge, c.number)
  }

  /** The indices of the first `n` ports that are not designated, in order. */
  function NonDesignated(id: int, ports: seq<Port>, n: nat): (nd: seq<int>)
    requires n <= |ports|
    ensures forall i :: 0 <= i < |nd| ==> 0 <= nd[i] < n && !IsDesignated(id, ports[nd[i]])
    ensures forall k :: 0 <= k < n && !IsDesignated(id, ports[k]) ==> k in nd
    ensures |nd| <= n
  {
    if n == 0 then []
    else NonDesignated(id, ports, n - 1) + (if IsDesignated(id, ports[n - 1]) then [] else [n - 1])
  }

  /** The selection loop, from position `i`; `judge` says that a candidate was found. */
  function Pick(ports: seq<Port>, nd: seq<int>, i: nat, judge: bool, chosen: int): int
    requires forall k :: 0 <= k < |nd| ==> 0 <= nd[k] < |ports|
    requires judge ==> 0 <= chosen < |ports|
    decreases |nd| - i
  {
    if i >= |nd| - 1 then chosen
    else if !judge then
      if Better(ports[nd[i]], ports[nd[i + 1]]) then Pick(ports, nd, i + 1, true, nd[i])
      else Pick(ports, nd, i + 1, false, chosen)
    else
      Pick(ports, nd, i + 1, true, if Better(ports[nd[i]], ports[chosen]) then nd[i] else chosen)
  }

  predicate ValidSwitch(sw: Switch)
  {
    NO_PORT <= sw.rootPort < |sw.ports|
  }

  function NewRootPort(sw: Switch): (rp: int)
    requires ValidSwitch(sw)
    ensures NO_PORT <= rp < |sw.ports|
    ensures rp != NO_PORT ==> rp == sw.rootPort || !IsDesignated(sw.id, sw.ports[rp])
  {
    var nd := NonDesignated(sw.id, sw.ports, |sw.ports|);
    if |nd| == 1 then nd[0]
    else
      PickIsCandidate(sw.ports, nd, 0, false, sw.rootPort);
      Pick(sw.ports, nd, 0, false, sw.rootPort)
  }

  lemma {:induction false} PickIsCandidate(ports: seq<Port>, nd: seq<int>, i: nat, judge: bool, chosen: int)
    requires forall k :: 0 <= k < |nd| ==> 0 <= nd[k] < |ports|
    requires judge ==> 0 <= chosen < |ports|
    ensures Pick(ports, nd, i, judge, chosen) == chosen || Pick(ports, nd, i, judge, chosen) in nd
    decreases |nd| - i
  {
    if i < |nd| - 1 {
      PickIsCandidate(ports, nd, i + 1, judge, chosen);
      PickIsCandidate(ports, nd, i + 1, true, nd[i]);
    }
  }

  function WithNewRoot(sw: Switch): (r: Switch)
    requires ValidSwitch(sw)
    ensures ValidSwitch(r) && r.ports == sw.ports && r.id == sw.id
  {
    var rp := NewRootPort(sw);
    if rp == NO_PORT then sw.(rootPort := rp, root := sw.id, cost := 0)
    else sw.(rootPort := rp, root := sw.ports[rp].root, cost := sw.ports[rp].cost + PATH_COST)
  }

  function Refreshed(sw: Switch, p: Port): Port
  {
    if IsDesignated(sw.id, p) then p.(root := sw.root, cost := sw.cost) else p
  }

  function UpdateOthers(sw: Switch): (r: Switch)
    ensures |r.ports| == |sw.ports|
    ensures forall i :: 0 <= i < |sw.ports| ==> r.ports[i] == Refreshed(sw, sw.ports[i])
  {
    sw.(ports := seq(|sw.ports|, i requires 0 <= i < |sw.ports| => Refreshed(sw, sw.ports[i])))
  }

  /** The ports as they stand when the selection runs: the message is taken, nothing else yet. */
  function Taken(sw: Switch, i: nat, c: Config): (r: Switch)
    requires ValidSwitch(sw) && i < |sw.ports|
    ensures ValidSwitch(r) && r.id == sw.id && |r.ports| == |sw.ports| && r.rootPort == sw.rootPort
  {
    sw.(ports := sw.ports[i := UpdatePort(sw.ports[i], c)])
  }

  /** A config message arrives at port `i`. */
  function Handle(sw: Switch, i: nat, c: Config): (r: Switch)
    requires ValidSwitch(sw) && i < |sw.ports|
    ensures ValidSwitch(r) && r.id == sw.id && |r.ports| == |sw.ports|
  {
    if !Supersedes(sw.ports[i], c) then sw
    else UpdateOthers(WithNewRoot(Taken(sw, i, c)))
  }

  /** Whether handling the message makes the switch send at once. */
  predicate Propagates(sw: Switch, i: nat, c: Config)
    requires ValidSwitch(sw) && i < |sw.ports|
  {
    Supersedes(sw.ports[i], c) && !IsRoot(Handle(sw, i, c))
  }

  /** What goes out of port `i`, if anything does. */
  predicate Sends(sw: Switch, i: nat)
    requires i < |sw.ports|
  {
    IsDesignated(sw.id, sw.ports[i]) && (IsRoot(sw) || sw.rootPort != NO_PORT)
  }

  function ConfigOf(sw: Switch, i: nat): Config
    requires i < |sw.ports|
  {
    Config(sw.root, sw.cost, sw.id, sw.ports[i].id)
  }

  function InitPort(id: int, i: nat): Port
  {
    Port(PortId(i), id, 0, id, PortId(i))
  }

  /** (STP_PORT_PRIORITY << 8) | (index + 1), for the at most 32 ports of a switch. */
  function PortId(i: nat): int { 0x8000 + i + 1 }

  lemma PackedPort(k: bv16)
    requires k <= 0xff
    ensures (128 as bv16 << 8) | k == 0x8000 + k
  {}

  lemma PortIdIsPacked(i: nat)
    requires i < 32
    ensures PortId(i) == ((128 as bv16 << 8) | (i + 1) as bv16) as int
  {
    PackedPort((i + 1) as bv16);
  }

  function InitSwitch(id: int, n: nat): (sw: Switch)
    ensures ValidSwitch(sw)
  {
    Switch(id, id, 0, NO_PORT, seq(n, i requires 0 <= i < n => InitPort(id, i)))
  }

  // ------------------------------------------------ which port the selection loop chooses

  /** No port at the listed positions is strictly better. */
  ghost predicate BestOf(ports: seq<Port>, nd: seq<int>, n: int, chosen: int)
    requires n <= |nd| && forall k :: 0 <= k < |nd| ==> 0 <= nd[k] < |ports|
    requires 0 <= chosen < |ports|
  {
    forall k :: 0 <= k < n ==> !Better(ports[nd[k]], ports[chosen])
  }

  /** Some listed port but the last is strictly better than the one after it. */
  ghost predicate DropsFrom(ports: seq<Port>, nd: seq<int>, i: int)
    requires 0 <= i && forall k :: 0 <= k < |nd| ==> 0 <= nd[k] < |ports|
  {
    exists k :: i <= k < |nd| - 1 && DropsAt(ports, nd, k)
  }

  ghost predicate DropsAt(ports: seq<Port>, nd: seq<int>, k: int)
    requires 0 <= k < |nd| - 1 && forall k :: 0 <= k < |nd| ==> 0 <= nd[k] < |ports|
  {
    Better(ports[nd[k]], ports[nd[k + 1]])
  }

  lemma BetterIsTotalOrder(p: Port, q: Port, r: Port)
    ensures !Better(p, p)
    ensures !Better(q, p) && !Better(r, q) ==> !Better(r, p)
    ensures Better(p, q) ==> !Better(q, p)
  {}

  /** Once a candidate is found, the loop keeps the best of all listed ports but the last. */
  lemma {:induction false} PickKeepsBest(ports: seq<Port>, nd: seq<int>, i: nat, chosen: int)
    requires forall k :: 0 <= k < |nd| ==> 0 <= nd[k] < |ports|
    requires 0 <= chosen < |ports| && i <= |nd| - 1
    requires BestOf(ports, nd, i, chosen)
    ensures var rp := Pick(ports, nd, i, true, chosen);
            0 <= rp < |ports| && BestOf(ports, nd, |nd| - 1, rp) && !Better(ports[chosen], ports[rp])
    decreases |nd| - i
  {
    BetterIsTotalOrder(ports[chosen], ports[chosen], ports[chosen]);
    if i < |nd| - 1 {
      var next := if Better(ports[nd[i]], ports[chosen]) then nd[i] else chosen;
      forall k | 0 <= k < i + 1 ensures !Better(ports[nd[k]], ports[next]) {
        if k < i { BetterIsTotalOrder(ports[next], ports[chosen], ports[nd[k]]); }
        BetterIsTotalOrder(ports[nd[i]], ports[chosen], ports[nd[i]]);
      }
      PickKeepsBest(ports, nd, i + 1, next);
      var rp := Pick(ports, nd, i + 1, true, next);
      BetterIsTotalOrder(ports[next], ports[chosen], ports[chosen]);
      BetterIsTotalOrder(ports[rp], ports[next], ports[chosen]);
    }
  }

  /** Before one is found, the ports only get better or stay as good along the list. */
  lemma {:induction false} PickSkipsAscent(ports: seq<Port>, nd: seq<int>, i: nat, chosen: int)
    requires forall k :: 0 <= k < |nd| ==> 0 <= nd[k] < |ports|
    requires i <= |nd| - 1 && NO_PORT <= chosen < |ports|
    requires BestOf(ports, nd, i, nd[i])
    ensures var rp := Pick(ports, nd, i, false, chosen);
            if DropsFrom(ports, nd, i) then 0 <= rp < |ports| && BestOf(ports, nd, |nd| - 1, rp) && rp in nd[..|nd| - 1]
            else rp == chosen && BestOf(ports, nd, |nd| - 1, nd[|nd| - 1])
    decreases |nd| - i
  {
    if i < |nd| - 1 {
      if Better(ports[nd[i]], ports[nd[i + 1]]) {
        assert DropsAt(ports, nd, i);
        forall k | 0 <= k < i + 1 ensures !Better(ports[nd[k]], ports[nd[i]]) {
          BetterIsTotalOrder(ports[nd[i]], ports[nd[i]], ports[nd[i]]);
        }
        PickKeepsBest(ports, nd, i + 1, nd[i]);
        PickStaysBeforeLast(ports, nd, i + 1, true, nd[i]);
      } else {
        forall k | 0 <= k < i + 1 ensures !Better(ports[nd[k]], ports[nd[i + 1]]) {
          if k < i { BetterIsTotalOrder(ports[nd[i + 1]], ports[nd[i]], ports[nd[k]]); }
        }
        PickSkipsAscent(ports, nd, i + 1, chosen);
        assert !DropsAt(ports, nd, i);
      }
    }
  }

  lemma {:induction false} PickStaysBeforeLast(ports: seq<Port>, nd: seq<int>, i: nat, judge: bool, chosen: int)
    requires forall k :: 0 <= k < |nd| ==> 0 <= nd[k] < |ports|
    requires judge && 0 < |nd| && chosen in nd[..|nd| - 1]
    ensures Pick(ports, nd, i, judge, chosen) in nd[..|nd| - 1]
    decreases |nd| - i
  {
    if i < |nd| - 1 {
      assert nd[..|nd| - 1][i] == nd[i];
      PickStaysBeforeLast(ports, nd, i + 1, true, if Better(ports[nd[i]], ports[chosen]) then nd[i] else chosen);
    }
  }

  ghost predicate IsBest(ports: seq<Port>, nd: seq<int>, rp: int)
    requires forall k :: 0 <= k < |nd| ==> 0 <= nd[k] < |ports|
  {
    rp in nd && BestOf(ports, nd, |nd|, rp)
  }

  /** When the ports that are not designated stand in an order that suits the loop: one alone;
      or one strictly better than its successor, and the last not better than all before it;
      or else an old root port that is as good as the last. */
  ghost predicate WellPlaced(ports: seq<Port>, nd: seq<int>, old': int)
    requires nd != [] && forall k :: 0 <= k < |nd| ==> 0 <= nd[k] < |ports|
  {
    var last := nd[|nd| - 1];
    || |nd| == 1
    || (DropsFrom(ports, nd, 0) && exists k :: 0 <= k < |nd| - 1 && AsGood(ports, nd[k], last))
    || (!DropsFrom(ports, nd, 0) && old' in nd && AsGood(ports, old', last))
  }

  ghost predicate AsGood(ports: seq<Port>, p: int, q: int)
    requires 0 <= p < |ports| && 0 <= q < |ports|
  {
    !Better(ports[q], ports[p])
  }

  lemma BestWithDrop(ports: seq<Port>, nd: seq<int>, old': int, rp: int)
    requires 1 < |nd| && forall k :: 0 <= k < |nd| ==> 0 <= nd[k] < |ports|
    requires NO_PORT <= old' < |ports| && DropsFrom(ports, nd, 0) && rp == Pick(ports, nd, 0, false, old')
    ensures IsBest(ports, nd, rp) <==> exists k :: 0 <= k < |nd| - 1 && AsGood(ports, nd[k], nd[|nd| - 1])
  {
    var last := nd[|nd| - 1];
    PickSkipsAscent(ports, nd, 0, old');
    if k :| 0 <= k < |nd| - 1 && AsGood(ports, nd[k], last) {
      BetterIsTotalOrder(ports[rp], ports[nd[k]], ports[last]);
    }
    var j :| 0 <= j < |nd| - 1 && nd[..|nd| - 1][j] == rp;
    assert nd[j] == rp;
    assert BestOf(ports, nd, |nd|, rp) ==> AsGood(ports, nd[j], last);
  }

  lemma BestWithoutDrop(ports: seq<Port>, nd: seq<int>, old': int)
    requires 1 < |nd| && forall k :: 0 <= k < |nd| ==> 0 <= nd[k] < |ports|
    requires NO_PORT <= old' < |ports| && !DropsFrom(ports, nd, 0)
    ensures Pick(ports, nd, 0, false, old') == old'
    ensures IsBest(ports, nd, old') <==> old' in nd && AsGood(ports, old', nd[|nd| - 1])
  {
    var last := nd[|nd| - 1];
    PickSkipsAscent(ports, nd, 0, old');
    if old' in nd && AsGood(ports, old', last) {
      forall k | 0 <= k < |nd| ensures !Better(ports[nd[k]], ports[old']) {
        BetterIsTotalOrder(ports[old'], ports[last], ports[nd[k]]);
      }
    }
  }

  /** The selection is not always of a best port. Exactly when it is, for any switch state with
      some port that is not designated. */
  lemma {:induction false} RootPortIsBestExactly(sw: Switch)
    requires ValidSwitch(sw) && NonDesignated(sw.id, sw.ports, |sw.ports|) != []
    ensures var nd := NonDesignated(sw.id, sw.ports, |sw.ports|);
            IsBest(sw.ports, nd, NewRootPort(sw)) <==> WellPlaced(sw.ports, nd, sw.rootPort)
  {
    var nd := NonDesignated(sw.id, sw.ports, |sw.ports|);
    if |nd| == 1 {
      BetterIsTotalOrder(sw.ports[nd[0]], sw.ports[nd[0]], sw.ports[nd[0]]);
    } else if DropsFrom(sw.ports, nd, 0) {
      BestWithDrop(sw.ports, nd, sw.rootPort, NewRootPort(sw));
    } else {
      BestWithoutDrop(sw.ports, nd, sw.rootPort);
    }
  }

  /** The root port of a switch that has been running: one that is not designated, or none, and
      then all ports are designated. */
  ghost predicate RootPortKnown(sw: Switch)
    requires ValidSwitch(sw)
  {
    if sw.rootPort == NO_PORT then forall i :: 0 <= i < |sw.ports| ==> IsDesignated(sw.id, sw.ports[i])
    else !IsDesignated(sw.id, sw.ports[sw.rootPort])
  }

  lemma {:induction false} NonDesignatedSplit(id: int, ports: seq<Port>, i: nat, n: nat)
    requires i < n <= |ports| && !IsDesignated(id, ports[i])
    requires forall k :: 0 <= k < n && k != i ==> IsDesignated(id, ports[k])
    ensures NonDesignated(id, ports, n) == [i]
    decreases n
  {
    if i < n - 1 {
      NonDesignatedSplit(id, ports, i, n - 1);
    } else {
      NoneNonDesignated(id, ports, n - 1);
    }
  }

  lemma {:induction false} NoneNonDesignated(id: int, ports: seq<Port>, n: nat)
    requires n <= |ports| && forall k :: 0 <= k < n ==> IsDesignated(id, ports[k])
    ensures NonDesignated(id, ports, n) == []
  {
    if n > 0 { NoneNonDesignated(id, ports, n - 1); }
  }

  /** The ports stand in an order that suits the loop, in a switch that has been running: one port
      alone that is not designated; or one strictly better than its successor, and the last not
      better than all before it; or no such drop, and the old root port as good as the last. */
  ghost predicate WellOrdered(ports: seq<Port>, nd: seq<int>, old': int)
    requires nd != [] && forall k :: 0 <= k < |nd| ==> 0 <= nd[k] < |ports|
    requires 0 <= old' < |ports| || |nd| == 1
  {
    || |nd| == 1
    || if DropsFrom(ports, nd, 0) then exists k :: 0 <= k < |nd| - 1 && AsGood(ports, nd[k], nd[|nd| - 1])
       else AsGood(ports, old', nd[|nd| - 1])
  }

  /** A message that makes its port one that is not designated leaves the selection something to
      choose from, and an old root port unless that port is the only one. */
  lemma TakenHasChoice(sw: Switch, i: nat, c: Config)
    requires ValidSwitch(sw) && i < |sw.ports| && RootPortKnown(sw)
    requires !IsDesignated(sw.id, UpdatePort(sw.ports[i], c))
    ensures var r := Taken(sw, i, c);
            var nd := NonDesignated(r.id, r.ports, |r.ports|);
            && i in nd
            && (r.rootPort == NO_PORT ==> nd == [i])
            && (r.rootPort != NO_PORT ==> r.rootPort in nd)
  {
    var r := Taken(sw, i, c);
    if r.rootPort == NO_PORT { NonDesignatedSplit(r.id, r.ports, i, |r.ports|); }
  }

  /** In a switch that has been running, the selection is of a best port exactly when the ports are
      well ordered. */
  lemma {:induction false} RunningRootPortIsBestExactly(sw: Switch, i: nat, c: Config)
    requires ValidSwitch(sw) && i < |sw.ports| && RootPortKnown(sw)
    requires !IsDesignated(sw.id, UpdatePort(sw.ports[i], c))
    ensures var r := Taken(sw, i, c);
            var nd := NonDesignated(r.id, r.ports, |r.ports|);
            && nd != [] && (0 <= r.rootPort < |r.ports| || |nd| == 1)
            && (IsBest(r.ports, nd, NewRootPort(r)) <==> WellOrdered(r.ports, nd, r.rootPort))
  {
    TakenHasChoice(sw, i, c);
    RootPortIsBestExactly(Taken(sw, i, c));
  }

  /** Handling any message that is not for the switch's own designation keeps the root port known,
      and a switch with a root port keeps one. */
  lemma {:induction false} RootPortStaysKnown(sw: Switch, i: nat, c: Config)
    requires ValidSwitch(sw) && i < |sw.ports| && RootPortKnown(sw)
    requires Supersedes(sw.ports[i], c) ==> !IsDesignated(sw.id, UpdatePort(sw.ports[i], c))
    ensures RootPortKnown(Handle(sw, i, c))
    ensures Supersedes(sw.ports[i], c) ==> Handle(sw, i, c).rootPort != NO_PORT
  {
    if Supersedes(sw.ports[i], c) {
      var r := Taken(sw, i, c);
      TakenHasChoice(sw, i, c);
      var nd := NonDesignated(r.id, r.ports, |r.ports|);
      PickIsCandidate(r.ports, nd, 0, false, r.rootPort);
      assert NewRootPort(r) in nd;
      var h := Handle(sw, i, c);
      assert h.ports[h.rootPort] == Refreshed(WithNewRoot(r), r.ports[h.rootPort]);
    }
  }

  lemma {:induction false} SameNonDesignated(id: int, ports: seq<Port>, other: seq<Port>, n: nat)
    requires |ports| == |other| && n <= |ports|
    requires forall i :: 0 <= i < |ports| ==> (IsDesignated(id, ports[i]) <==> IsDesignated(id, other[i]))
    ensures NonDesignated(id, other, n) == NonDesignated(id, ports, n)
  {
    if n > 0 {
      SameNonDesignated(id, ports, other, n - 1);
      assert IsDesignated(id, ports[n - 1]) <==> IsDesignated(id, other[n - 1]);
    }
  }

  /** What a switch has after it handled a superseding message: its root port is a best one of its
      ports that are not designated exactly when these were well ordered. */
  lemma {:induction false} HandledRootPortIsBestExactly(sw: Switch, i: nat, c: Config)
    requires ValidSwitch(sw) && i < |sw.ports| && RootPortKnown(sw) && Supersedes(sw.ports[i], c)
    requires !IsDesignated(sw.id, UpdatePort(sw.ports[i], c))
    ensures var r, h := Taken(sw, i, c), Handle(sw, i, c);
            var nd := NonDesignated(r.id, r.ports, |r.ports|);
            && nd == NonDesignated(h.id, h.ports, |h.ports|) && nd != []
            && (0 <= r.rootPort < |r.ports| || |nd| == 1)
            && (IsBest(h.ports, nd, h.rootPort) <==> WellOrdered(r.ports, nd, r.rootPort))
  {
    var r, h := Taken(sw, i, c), Handle(sw, i, c);
    RunningRootPortIsBestExactly(sw, i, c);
    SameNonDesignated(sw.id, r.ports, h.ports, |r.ports|);
    var nd := NonDesignated(r.id, r.ports, |r.ports|);
    forall k | 0 <= k < |nd| ensures h.ports[nd[k]] == r.ports[nd[k]] {}
    BestOfSame(r.ports, h.ports, nd, h.rootPort);
  }

  lemma BestOfSame(ports: seq<Port>, other: seq<Port>, nd: seq<int>, rp: int)
    requires |ports| == |other| && forall k :: 0 <= k < |nd| ==> 0 <= nd[k] < |ports| && other[nd[k]] == ports[nd[k]]
    ensures IsBest(other, nd, rp) <==> IsBest(ports, nd, rp)
  {}

  // ----------------------------------------------------------- what the choice comes down to

  /** The root port's record has the least root of all records at ports that are not designated; of
      those with that root, the least cost; of those, the least switch; and of those, the least port. */
  ghost predicate FollowsLeast(sw: Switch)
  {
    && 0 <= sw.rootPort < |sw.ports| && !IsDesignated(sw.id, sw.ports[sw.rootPort])
    && forall k :: 0 <= k < |sw.ports| && !IsDesignated(sw.id, sw.ports[k]) ==>
         var p, q := sw.ports[sw.rootPort], sw.ports[k];
         && p.root <= q.root
         && (p.root == q.root ==> p.cost <= q.cost)
         && (p.root == q.root && p.cost == q.cost ==> p.bridge <= q.bridge)
         && (p.root == q.root && p.cost == q.cost && p.bridge == q.bridge ==> p.number <= q.number)
  }

  lemma BestFollowsLeast(sw: Switch, nd: seq<int>)
    requires nd == NonDesignated(sw.id, sw.ports, |sw.ports|)
    ensures IsBest(sw.ports, nd, sw.rootPort) <==> FollowsLeast(sw)
  {
    if FollowsLeast(sw) {
      forall k | 0 <= k < |nd| ensures !Better(sw.ports[nd[k]], sw.ports[sw.rootPort]) {}
    }
    if IsBest(sw.ports, nd, sw.rootPort) {
      forall k | 0 <= k < |sw.ports| && !IsDesignated(sw.id, sw.ports[k])
        ensures !Better(sw.ports[k], sw.ports[sw.rootPort])
      {
        var j :| 0 <= j < |nd| && nd[j] == k;
      }
    }
  }

  /** After a superseding message the switch has the root on record at its root port, at one more than
      the cost there; and that record is the least one exactly when the ports were well ordered. */
  lemma {:induction false} HandledFollowsLeastExactly(sw: Switch, i: nat, c: Config)
    requires ValidSwitch(sw) && i < |sw.ports| && RootPortKnown(sw) && Supersedes(sw.ports[i], c)
    requires !IsDesignated(sw.id, UpdatePort(sw.ports[i], c))
    ensures var r, h := Taken(sw, i, c), Handle(sw, i, c);
            var nd := NonDesignated(r.id, r.ports, |r.ports|);
            && nd != [] && (0 <= r.rootPort < |r.ports| || |nd| == 1) && 0 <= h.rootPort
            && h.root == h.ports[h.rootPort].root && h.cost == h.ports[h.rootPort].cost + 1
            && (FollowsLeast(h) <==> WellOrdered(r.ports, nd, r.rootPort))
  {
    var r, h := Taken(sw, i, c), Handle(sw, i, c);
    HandledRootPortIsBestExactly(sw, i, c);
    BestFollowsLeast(h, NonDesignated(h.id, h.ports, |h.ports|));
    RootPortStaysKnown(sw, i, c);
    assert h.ports[h.rootPort] == Refreshed(WithNewRoot(r), r.ports[h.rootPort]);
  }

  /** The record is no greater than these fields, compared in order. */
  predicate AtMost(p: Port, root: int, cost: int, bridge: int, number: int)
  {
    || p.root < root
    || (p.root == root && (p.cost < cost
                           || (p.cost == cost && (p.bridge < bridge || (p.bridge == bridge && p.number <= number)))))
  }

  /** A message is taken exactly when it is no greater than the port's record: a repeated one too, which
      makes the switch choose its root port again and, unless it is root then, tell its own ports. */
  lemma TakenExactly(sw: Switch, i: nat, c: Config)
    requires ValidSwitch(sw) && i < |sw.ports|
    ensures var p := sw.ports[i];
            Supersedes(p, c) <==> AtMost(Port(p.id, c.root, c.cost, c.bridge, c.number),
                                         p.root, p.cost, p.bridge, p.number)
    ensures RecordOf(sw.ports[i]) == c && Handle(sw, i, c).root != sw.id ==> Propagates(sw, i, c)
  {}

  function RecordOf(p: Port): Config { Config(p.root, p.cost, p.bridge, p.number) }

  /** A port that is not designated keeps the least of what it hears: its record after a message is the
      lesser of its record before and the message. */
  lemma HandledRecordIsLesser(sw: Switch, i: nat, c: Config)
    requires ValidSwitch(sw) && i < |sw.ports| && !IsDesignated(sw.id, UpdatePort(sw.ports[i], c))
    requires !IsDesignated(sw.id, sw.ports[i])
    ensures var p, q := sw.ports[i], Handle(sw, i, c).ports[i];
            && AtMost(q, p.root, p.cost, p.bridge, p.number) && AtMost(q, c.root, c.cost, c.bridge, c.number)
            && (q == p || q == Port(p.id, c.root, c.cost, c.bridge, c.number))
  {}

  /** A designated port takes exactly the messages no worse than what the switch itself says there. */
  lemma HandledTakesLesser(sw: Switch, i: nat, c: Config)
    requires ValidSwitch(sw) && i < |sw.ports| && !IsDesignated(sw.id, UpdatePort(sw.ports[i], c))
    requires IsDesignated(sw.id, sw.ports[i])
    ensures var p, q := sw.ports[i], Handle(sw, i, c).ports[i];
            if AtMost(p, c.root, c.cost, c.bridge, c.number) && (p.root, p.cost, p.bridge, p.number) !=
                                                                 (c.root, c.cost, c.bridge, c.number)
            then q == p
            else q == Port(p.id, c.root, c.cost, c.bridge, c.number)
  {}

  /** Each designated port has on record what the switch itself believes. */
  ghost predicate Agrees(sw: Switch)
  {
    forall i :: 0 <= i < |sw.ports| && IsDesignated(sw.id, sw.ports[i]) ==>
      sw.ports[i].root == sw.root && sw.ports[i].cost == sw.cost
  }

  lemma HandleKeepsAgreement(sw: Switch, i: nat, c: Config)
    requires ValidSwitch(sw) && i < |sw.ports| && Agrees(sw)
    ensures Agrees(Handle(sw, i, c))
  {}

  // ------------------------------------------------------------------ the switch as an object

  class Bridge {
    const id: int
    var root: int
    var cost: int
    var rootPort: int
    const ports: array<Port>
    /** Configs handed to the interfaces: port index and message, oldest first. */
    var out: seq<(int, Config)>

    ghost predicate Valid()
      reads this
    {
      NO_PORT <= rootPort < ports.Length
    }

    ghost function Model(): (sw: Switch)
      reads this, ports
      requires Valid()
      ensures ValidSwitch(sw)
    {
      Switch(id, root, cost, rootPort, ports[..])
    }

    constructor (id: int, n: nat)
      ensures Valid() && fresh(ports) && Model() == InitSwitch(id, n) && out == []
    {
      this.id, root, cost, rootPort, out := id, id, 0, NO_PORT, [];
      ports := new Port[n](i requires 0 <= i => InitPort(id, i));
      new;
      assert ports[..] == InitSwitch(id, n).ports;
    }

    method UpdatePortConfig(i: nat, c: Config)
      requires i < ports.Length
      modifies ports
      ensures ports[..] == old(ports[..])[i := UpdatePort(old(ports[i]), c)]
    {
      ports[i] := Port(ports[i].id, c.root, c.cost, c.bridge, c.number);
    }

    method CollectNonDesignated() returns (nd: seq<int>)
      ensures nd == NonDesignated(id, ports[..], ports.Length)
    {
      nd := [];
      for i := 0 to ports.Length
        invariant nd == NonDesignated(id, ports[..], i)
      {
        if !IsDesignated(id, ports[i]) { nd := nd + [i]; }
      }
    }

    method ChooseRootPort()
      requires Valid()
      modifies this`rootPort
      ensures Valid() && rootPort == NewRootPort(old(Model()))
    {
      var nd := CollectNonDesignated();
      if |nd| == 1 {
        rootPort := nd[0];
      } else {
        PickIsCandidate(ports[..], nd, 0, false, rootPort);
        SelectAmong(nd);
      }
    }

    method SelectAmong(nd: seq<int>)
      requires Valid() && forall k :: 0 <= k < |nd| ==> 0 <= nd[k] < ports.Length
      modifies this`rootPort
      ensures rootPort == Pick(ports[..], nd, 0, false, old(rootPort))
    {
      var judge := false;
      var i := 0;
      ghost var ps, all := ports[..], Pick(ports[..], nd, 0, false, rootPort);
      while i < |nd| - 1
        invariant 0 <= i && Valid() && (judge ==> 0 <= rootPort) && ps == ports[..]
        invariant Pick(ps, nd, i, judge, rootPort) == all
        decreases |nd| - i
      {
        if !judge {
          if Better(ports[nd[i]], ports[nd[i + 1]]) {
            rootPort := nd[i];
            judge := true;
          }
        } else if Better(ports[nd[i]], ports[rootPort]) {
          rootPort := nd[i];
        }
        i := i + 1;
      }
    }

    method UpdateRoot()
      requires Valid()
      modifies this`rootPort, this`root, this`cost
      ensures Valid() && Model() == WithNewRoot(old(Model()))
    {
      ChooseRootPort();
      if rootPort == NO_PORT {
        root, cost := id, 0;
      } else {
        root, cost := ports[rootPort].root, ports[rootPort].cost + PATH_COST;
      }
    }

    method UpdateOtherPorts()
      requires Valid()
      modifies ports
      ensures Model() == UpdateOthers(old(Model()))
    {
      for i := 0 to ports.Length
        invariant forall k :: 0 <= k < ports.Length ==>
          ports[k] == if k < i then Refreshed(old(Model()), old(ports[k])) else old(ports[k])
      {
        if IsDesignated(id, ports[i]) {
          ports[i] := ports[i].(root := root, cost := cost);
        }
      }
      assert ports[..] == UpdateOthers(old(Model())).ports;
    }

    /** On every designated port, unless the switch has neither root role nor root port. */
    method SendConfig()
      requires Valid()
      modifies this`out
      ensures out == old(out) + Outgoing(Model(), ports.Length)
    {
      ghost var sw := Model();
      for i := 0 to ports.Length
        invariant Valid() && Model() == sw
        invariant out == old(out) + Outgoing(sw, i)
      {
        if IsDesignated(id, ports[i]) {
          if root == id || rootPort != NO_PORT {
            out := out + [(i, Config(root, cost, id, ports[i].id))];
          }
        }
      }
    }

    method HandleConfigPacket(i: nat, c: Config)
      requires Valid() && i < ports.Length
      modifies this, ports
      ensures Valid() && Model() == Handle(old(Model()), i, c)
      ensures out == old(out) +
                (if Propagates(old(Model()), i, c) then Outgoing(Model(), ports.Length) else [])
    {
      if Supersedes(ports[i], c) {
        UpdatePortConfig(i, c);
        UpdateRoot();
        UpdateOtherPorts();
        if root != id {
          SendConfig();
        }
      }
    }
  }

  function Outgoing(sw: Switch, n: nat): seq<(int, Config)>
    requires n <= |sw.ports|
  {
    if n == 0 then []
    else Outgoing(sw, n - 1) + (if Sends(sw, n - 1) then [(n - 1, ConfigOf(sw, n - 1))] else [])
  }

  lemma {:induction false} OutgoingAre(sw: Switch, n: nat)
    requires n <= |sw.ports|
    ensures forall i, c :: (i, c) in Outgoing(sw, n) <==> 0 <= i < n && Sends(sw, i) && c == ConfigOf(sw, i)
  {
    if n > 0 { OutgoingAre(sw, n - 1); }
  }
}
