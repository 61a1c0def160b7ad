/** Switches that exchange config messages over point-to-point links, in any order and with
    any delay, loss or repetition, and what holds in every state they reach. */
module StpNetwork {
  import opened Stp
  import opened Hops

  /** Ends of links: switch and port. Each link joins two switches. */
  type End = (nat, nat)

  datatype Wiring = Wiring(ids: seq<int>, sizes: seq<nat>, peer: map<End, End>)

  ghost predicate ValidWiring(w: Wiring)
  {
    && |w.ids| == |w.sizes|
    && (forall i, j :: 0 <= i < j < |w.ids| ==> w.ids[i] != w.ids[j])
    && (forall e :: e in w.peer ==> LinkOk(w, e))
  }

  ghost predicate LinkOk(w: Wiring, e: End)
    requires e in w.peer && |w.ids| == |w.sizes|
  {
    && e.0 < |w.ids| && e.1 < w.sizes[e.0]
    && w.peer[e] in w.peer && w.peer[w.peer[e]] == e && w.peer[e].0 != e.0
  }

  /** Which switches are one link apart. */
  ghost function LinksOf(w: Wiring): Edges
  {
    set e | e in w.peer :: (e.0 as int, w.peer[e].0 as int)
  }

  /** A message on the wire to an end; it was sent by that end's peer. */
  datatype Frame = Frame(to: End, config: Config)

  /** Frames stay on the wire: each may arrive at any time, never, or again. */
  datatype State = State(sws: seq<Switch>, wire: set<Frame>)

  datatype Step = Hello(s: nat) | Deliver(f: Frame)

  function Init(w: Wiring): State
    requires |w.ids| == |w.sizes|
  {
    State(seq(|w.ids|, i requires 0 <= i < |w.ids| => InitSwitch(w.ids[i], w.sizes[i])), {})
  }

  predicate Enabled(s: State, st: Step)
  {
    match st
    case Hello(k) => k < |s.sws|
    case Deliver(f) =>
      f in s.wire && f.to.0 < |s.sws| && ValidSwitch(s.sws[f.to.0]) && f.to.1 < |s.sws[f.to.0].ports|
  }

  /** What a switch puts on the wire when it sends configs. */
  ghost function Sent(w: Wiring, k: nat, sw: Switch): set<Frame>
  {
    set e | e in w.peer && e.0 == k && e.1 < |sw.ports| && Sends(sw, e.1) :: Frame(w.peer[e], ConfigOf(sw, e.1))
  }

  /** It is what the switch's method hands to the interfaces, each message to the link's far end. */
  lemma SentIsOutgoing(w: Wiring, k: nat, sw: Switch)
    ensures forall f :: f in Sent(w, k, sw) <==>
              exists e :: e in w.peer && e.0 == k && f.to == w.peer[e] &&
                          (e.1 as int, f.config) in Outgoing(sw, |sw.ports|)
  {
    OutgoingAre(sw, |sw.ports|);
  }

  ghost function Next(w: Wiring, s: State, st: Step): State
    requires Enabled(s, st)
  {
    match st
    case Hello(k) => s.(wire := s.wire + Sent(w, k, s.sws[k]))
    case Deliver(f) =>
      var k := f.to.0;
      var sw := Handle(s.sws[k], f.to.1, f.config);
      State(s.sws[k := sw], s.wire + if Propagates(s.sws[k], f.to.1, f.config) then Sent(w, k, sw) else {})
  }

  // ----------------------------------------------------------------------------- invariant

  /** `root` is the identifier of a switch exactly `cost` links away from switch `k`, by some
      way: so it is real, and its cost no less than the true distance. */
  ghost predicate Sound(w: Wiring, k: int, root: int, cost: int)
  {
    0 <= cost && exists r :: 0 <= r < |w.ids| && RootAt(w, k, r, root, cost)
  }

  ghost predicate RootAt(w: Wiring, k: int, r: int, root: int, cost: nat)
    requires 0 <= r < |w.ids|
  {
    w.ids[r] == root && Walk(LinksOf(w), k, r, cost)
  }

  ghost predicate PortOk(w: Wiring, k: nat, i: nat, p: Port)
    requires k < |w.ids|
  {
    if IsDesignated(w.ids[k], p) then Sound(w, k, p.root, p.cost)
    else
      && (k, i) in w.peer && w.peer[(k, i)].0 < |w.ids|
      && p.bridge == w.ids[w.peer[(k, i)].0] && Sound(w, w.peer[(k, i)].0, p.root, p.cost)
  }

  ghost predicate SwitchOk(w: Wiring, k: nat, sw: Switch)
    requires k < |w.ids| == |w.sizes|
  {
    && sw.id == w.ids[k] && ValidSwitch(sw) && |sw.ports| == w.sizes[k]
    && Sound(w, k, sw.root, sw.cost)
    && RootPortKnown(sw)
    && (forall i: nat :: i < |sw.ports| ==> PortOk(w, k, i, sw.ports[i]))
  }

  ghost predicate FrameOk(w: Wiring, f: Frame)
  {
    && f.to in w.peer && w.peer[f.to].0 < |w.ids|
    && f.config.bridge == w.ids[w.peer[f.to].0]
    && Sound(w, w.peer[f.to].0, f.config.root, f.config.cost)
  }

  ghost predicate Inv(w: Wiring, s: State)
  {
    && ValidWiring(w) && |s.sws| == |w.ids|
    && (forall k: nat :: k < |s.sws| ==> SwitchOk(w, k, s.sws[k]))
    && (forall f :: f in s.wire ==> FrameOk(w, f))
  }

  lemma OwnRootIsSound(w: Wiring, k: nat)
    requires k < |w.ids|
    ensures Sound(w, k, w.ids[k], 0)
  {
    StayWalk(LinksOf(w), k);
    assert RootAt(w, k, k, w.ids[k], 0);
  }

  /** A root seen over a link is one link further away. */
  lemma SoundAcross(w: Wiring, e: End, root: int, cost: int)
    requires ValidWiring(w) && e in w.peer && Sound(w, w.peer[e].0, root, cost)
    ensures Sound(w, e.0, root, cost + PATH_COST)
  {
    var es := LinksOf(w);
    var r :| 0 <= r < |w.ids| && RootAt(w, w.peer[e].0, r, root, cost);
    assert (e.0 as int, w.peer[e].0 as int) in es;
    EdgeIsWalk(es, e.0, w.peer[e].0);
    WalksJoin(es, e.0, w.peer[e].0, r, 1, cost);
    assert RootAt(w, e.0, r, root, cost + 1);
  }

  lemma InitInv(w: Wiring)
    requires ValidWiring(w)
    ensures Inv(w, Init(w))
  {
    forall k: nat | k < |w.ids| ensures SwitchOk(w, k, Init(w).sws[k]) {
      OwnRootIsSound(w, k);
    }
  }

  lemma SentIsOk(w: Wiring, k: nat, sw: Switch)
    requires ValidWiring(w) && k < |w.ids| && SwitchOk(w, k, sw)
    ensures forall f :: f in Sent(w, k, sw) ==> FrameOk(w, f)
  {}

  /** A config that supersedes makes the port the peer's, and no other port changes role. */
  lemma PortTakesConfig(w: Wiring, k: nat, sw: Switch, f: Frame)
    requires ValidWiring(w) && k < |w.ids| && SwitchOk(w, k, sw)
    requires FrameOk(w, f) && f.to.0 == k && f.to.1 < |sw.ports|
    ensures !IsDesignated(sw.id, UpdatePort(sw.ports[f.to.1], f.config))
    ensures PortOk(w, k, f.to.1, UpdatePort(sw.ports[f.to.1], f.config))
  {}

  lemma RootStaysSound(w: Wiring, k: nat, sw: Switch)
    requires ValidWiring(w) && k < |w.ids| && sw.id == w.ids[k] && ValidSwitch(sw)
    requires forall i: nat :: i < |sw.ports| ==> PortOk(w, k, i, sw.ports[i])
    requires sw.rootPort != NO_PORT ==> !IsDesignated(sw.id, sw.ports[sw.rootPort])
    ensures var r := WithNewRoot(sw);
            && Sound(w, k, r.root, r.cost)
            && (r.rootPort != NO_PORT ==> !IsDesignated(sw.id, sw.ports[r.rootPort]))
  {
    var rp := NewRootPort(sw);
    if rp == NO_PORT {
      OwnRootIsSound(w, k);
    } else {
      assert PortOk(w, k, rp, sw.ports[rp]);
      SoundAcross(w, (k, rp), sw.ports[rp].root, sw.ports[rp].cost);
    }
  }

  lemma HandleKeepsSwitch(w: Wiring, k: nat, sw: Switch, f: Frame)
    requires ValidWiring(w) && k < |w.ids| && SwitchOk(w, k, sw)
    requires FrameOk(w, f) && f.to.0 == k && f.to.1 < |sw.ports|
    ensures SwitchOk(w, k, Handle(sw, f.to.1, f.config))
  {
    if Supersedes(sw.ports[f.to.1], f.config) {
      var taken := Taken(sw, f.to.1, f.config);
      PortTakesConfig(w, k, sw, f);
      RootPortStaysKnown(sw, f.to.1, f.config);
      forall i: nat | i < |taken.ports| ensures PortOk(w, k, i, taken.ports[i]) {
        assert PortOk(w, k, i, sw.ports[i]);
      }
      RootStaysSound(w, k, taken);
      var r := WithNewRoot(taken);
      var t := UpdateOthers(r);
      forall i: nat | i < |t.ports| ensures PortOk(w, k, i, t.ports[i]) {
        assert PortOk(w, k, i, taken.ports[i]);
        assert t.ports[i] == Refreshed(r, taken.ports[i]);
      }
    }
  }

  lemma {:induction false} StepKeepsInv(w: Wiring, s: State, st: Step)
    requires Inv(w, s) && Enabled(s, st)
    ensures Inv(w, Next(w, s, st))
  {
    match st
    case Hello(k) => SentIsOk(w, k, s.sws[k]);
    case Deliver(f) =>
      var k := f.to.0;
      HandleKeepsSwitch(w, k, s.sws[k], f);
      SentIsOk(w, k, Handle(s.sws[k], f.to.1, f.config));
  }

  // -------------------------------------------------------------------------- whole runs

  ghost predicate ValidRun(w: Wiring, s: State, run: seq<Step>)
    decreases |run|
  {
    run == [] || (Enabled(s, run[0]) && ValidRun(w, Next(w, s, run[0]), run[1..]))
  }

  ghost function After(w: Wiring, s: State, run: seq<Step>): State
    requires ValidRun(w, s, run)
    decreases |run|
  {
    if run == [] then s else After(w, Next(w, s, run[0]), run[1..])
  }

  lemma {:induction false} RunKeepsInv(w: Wiring, s: State, run: seq<Step>)
    requires Inv(w, s) && ValidRun(w, s, run)
    ensures Inv(w, After(w, s, run))
    decreases |run|
  {
    if run != [] {
      StepKeepsInv(w, s, run[0]);
      RunKeepsInv(w, Next(w, s, run[0]), run[1..]);
    }
  }

  /** Whatever the true distance is, a believed cost is no less. */
  lemma CostAtLeastDistance(w: Wiring, k: int, root: int, cost: int, r: int, d: nat)
    requires ValidWiring(w) && Sound(w, k, root, cost)
    requires 0 <= r < |w.ids| && w.ids[r] == root && IsHop(LinksOf(w), k, r, d)
    ensures d <= cost
  {}

  /** Cost soundness: in every reachable state each root believed by a switch, a port or a
      message in flight is a real switch, and its cost is the length of some way there from
      the switch that claims it. */
  lemma {:induction false} CostsAreSound(w: Wiring, run: seq<Step>)
    requires ValidWiring(w) && ValidRun(w, Init(w), run)
    ensures var s := After(w, Init(w), run);
            && |s.sws| == |w.ids|
            && (forall k: nat :: k < |s.sws| ==> Sound(w, k, s.sws[k].root, s.sws[k].cost))
            && (forall k: nat, i: nat :: k < |s.sws| && i < |s.sws[k].ports| ==> PortOk(w, k, i, s.sws[k].ports[i]))
            && (forall f :: f in s.wire ==> FrameOk(w, f))
  {
    InitInv(w);
    RunKeepsInv(w, Init(w), run);
    var s := After(w, Init(w), run);
    forall k: nat | k < |s.sws| ensures SwitchOk(w, k, s.sws[k]) {}
  }

  // ------------------------------------------------------------------------ root stability

  ghost predicate Smallest(w: Wiring, m: nat)
  {
    m < |w.ids| && forall k :: 0 <= k < |w.ids| && k != m ==> w.ids[m] < w.ids[k]
  }

  /** All ports designated, root itself at cost 0. */
  ghost predicate Reigns(sw: Switch)
  {
    && sw.root == sw.id && sw.cost == 0 && sw.rootPort == NO_PORT
    && forall i :: 0 <= i < |sw.ports| ==>
         IsDesignated(sw.id, sw.ports[i]) && sw.ports[i].root == sw.id && sw.ports[i].cost == 0
  }

  lemma NothingSupersedes(w: Wiring, m: nat, sw: Switch, f: Frame)
    requires ValidWiring(w) && Smallest(w, m) && sw.id == w.ids[m] && Reigns(sw)
    requires FrameOk(w, f) && f.to.0 == m && f.to.1 < |sw.ports|
    ensures !Supersedes(sw.ports[f.to.1], f.config)
  {}

  lemma {:induction false} SmallestReignsAlong(w: Wiring, s: State, run: seq<Step>, m: nat)
    requires Inv(w, s) && ValidRun(w, s, run) && Smallest(w, m) && Reigns(s.sws[m])
    ensures |After(w, s, run).sws| == |w.ids| && Reigns(After(w, s, run).sws[m])
    decreases |run|
  {
    if run != [] {
      if run[0].Deliver? && run[0].f.to.0 == m {
        assert SwitchOk(w, m, s.sws[m]);
        NothingSupersedes(w, m, s.sws[m], run[0].f);
      }
      StepKeepsInv(w, s, run[0]);
      SmallestReignsAlong(w, Next(w, s, run[0]), run[1..], m);
    }
  }

  /** The switch with the smallest identifier believes itself root, at cost 0 and with every
      port designated, in every reachable state. */
  lemma {:induction false} SmallestAlwaysReigns(w: Wiring, run: seq<Step>, m: nat)
    requires ValidWiring(w) && ValidRun(w, Init(w), run) && Smallest(w, m)
    ensures |After(w, Init(w), run).sws| == |w.ids| && Reigns(After(w, Init(w), run).sws[m])
  {
    InitInv(w);
    SmallestReignsAlong(w, Init(w), run, m);
  }

  lemma RoleLostInHandling(w: Wiring, k: nat, sw: Switch, f: Frame, i: nat)
    requires ValidWiring(w) && k < |w.ids| && SwitchOk(w, k, sw)
    requires FrameOk(w, f) && f.to.0 == k && f.to.1 < |sw.ports|
    requires i < |sw.ports| && !IsDesignated(sw.id, sw.ports[i])
    ensures !IsDesignated(sw.id, Handle(sw, f.to.1, f.config).ports[i])
  {}

  /** A port that is not designated never becomes so again. */
  lemma {:induction false} DesignationNeverRegained(w: Wiring, s: State, run: seq<Step>, k: nat, i: nat)
    requires Inv(w, s) && ValidRun(w, s, run) && k < |s.sws| && i < |s.sws[k].ports|
    requires !IsDesignated(s.sws[k].id, s.sws[k].ports[i])
    ensures var t := After(w, s, run);
            && k < |t.sws| && i < |t.sws[k].ports| && t.sws[k].id == s.sws[k].id
            && !IsDesignated(t.sws[k].id, t.sws[k].ports[i])
    decreases |run|
  {
    if run != [] {
      if run[0].Deliver? && run[0].f.to.0 == k {
        assert SwitchOk(w, k, s.sws[k]);
        RoleLostInHandling(w, k, s.sws[k], run[0].f, i);
      }
      StepKeepsInv(w, s, run[0]);
      DesignationNeverRegained(w, Next(w, s, run[0]), run[1..], k, i);
    }
  }

  // ------------------------------------------------------------------------ the root ports

  /** In every reachable state a switch without a root port has only designated ports, and a root
      port is never a designated one. */
  lemma {:induction false} RootPortsAreKnown(w: Wiring, run: seq<Step>)
    requires ValidWiring(w) && ValidRun(w, Init(w), run)
    ensures forall k: nat :: k < |After(w, Init(w), run).sws| ==>
              ValidSwitch(After(w, Init(w), run).sws[k]) && RootPortKnown(After(w, Init(w), run).sws[k])
  {
    InitInv(w);
    RunKeepsInv(w, Init(w), run);
    forall k: nat | k < |After(w, Init(w), run).sws| ensures SwitchOk(w, k, After(w, Init(w), run).sws[k]) {}
  }

  /** In every run: after a message that supersedes is delivered, the switch's root port is a best
      one of its ports that are not designated if and only if these were well ordered for the
      selection loop. */
  lemma {:induction false} SelectionInRunsExactly(w: Wiring, run: seq<Step>, f: Frame)
    requires ValidWiring(w) && ValidRun(w, Init(w), run) && Enabled(After(w, Init(w), run), Deliver(f))
    requires Supersedes(After(w, Init(w), run).sws[f.to.0].ports[f.to.1], f.config)
    ensures var sw := After(w, Init(w), run).sws[f.to.0];
            var r, h := Taken(sw, f.to.1, f.config), Next(w, After(w, Init(w), run), Deliver(f)).sws[f.to.0];
            var nd := NonDesignated(h.id, h.ports, |h.ports|);
            && |h.ports| == |r.ports| && nd == NonDesignated(r.id, r.ports, |r.ports|) && nd != []
            && (0 <= r.rootPort < |r.ports| || |nd| == 1)
            && (IsBest(h.ports, nd, h.rootPort) <==> WellOrdered(r.ports, nd, r.rootPort))
  {
    InitInv(w);
    RunKeepsInv(w, Init(w), run);
    var s := After(w, Init(w), run);
    assert SwitchOk(w, f.to.0, s.sws[f.to.0]);
    PortTakesConfig(w, f.to.0, s.sws[f.to.0], f);
    HandledRootPortIsBestExactly(s.sws[f.to.0], f.to.1, f.config);
  }

  /** In every run: after a message that supersedes is delivered, the switch has the root on record at its
      root port, at one more than the cost there; and that record is the least of those at ports that are
      not designated, field by field, if and only if these were well ordered. */
  lemma {:induction false} RunsFollowLeastExactly(w: Wiring, run: seq<Step>, f: Frame)
    requires ValidWiring(w) && ValidRun(w, Init(w), run) && Enabled(After(w, Init(w), run), Deliver(f))
    requires Supersedes(After(w, Init(w), run).sws[f.to.0].ports[f.to.1], f.config)
    ensures var sw := After(w, Init(w), run).sws[f.to.0];
            var r, h := Taken(sw, f.to.1, f.config), Next(w, After(w, Init(w), run), Deliver(f)).sws[f.to.0];
            var nd := NonDesignated(r.id, r.ports, |r.ports|);
            && nd != [] && (0 <= r.rootPort < |r.ports| || |nd| == 1) && 0 <= h.rootPort < |h.ports|
            && h.root == h.ports[h.rootPort].root && h.cost == h.ports[h.rootPort].cost + 1
            && (FollowsLeast(h) <==> WellOrdered(r.ports, nd, r.rootPort))
  {
    InitInv(w);
    RunKeepsInv(w, Init(w), run);
    var s := After(w, Init(w), run);
    assert SwitchOk(w, f.to.0, s.sws[f.to.0]);
    PortTakesConfig(w, f.to.0, s.sws[f.to.0], f);
    HandledFollowsLeastExactly(s.sws[f.to.0], f.to.1, f.config);
  }

  // ------------------------------------------------------------------------- what a port hears

  lemma RecordAfterOne(w: Wiring, k: nat, sw: Switch, f: Frame, i: nat)
    requires ValidWiring(w) && k < |w.ids| && SwitchOk(w, k, sw)
    requires FrameOk(w, f) && f.to.0 == k && f.to.1 < |sw.ports|
    requires i < |sw.ports| && !IsDesignated(sw.id, sw.ports[i])
    ensures var p, q := sw.ports[i], Handle(sw, f.to.1, f.config).ports[i];
            && AtMost(q, p.root, p.cost, p.bridge, p.number)
            && (f.to.1 == i ==> AtMost(q, f.config.root, f.config.cost, f.config.bridge, f.config.number))
  {
    PortTakesConfig(w, k, sw, f);
    if f.to.1 == i { HandledRecordIsLesser(sw, i, f.config); }
  }

  lemma AtMostChain(p: Port, q: Port, c: Config)
    requires AtMost(p, q.root, q.cost, q.bridge, q.number) && AtMost(q, c.root, c.cost, c.bridge, c.number)
    ensures AtMost(p, c.root, c.cost, c.bridge, c.number)
  {}

  lemma RecordAfterStep(w: Wiring, s: State, st: Step, k: nat, i: nat)
    requires Inv(w, s) && Enabled(s, st) && k < |s.sws| && i < |s.sws[k].ports|
    requires !IsDesignated(s.sws[k].id, s.sws[k].ports[i])
    ensures var t, p := Next(w, s, st), s.sws[k].ports[i];
            && Inv(w, t) && k < |t.sws| && i < |t.sws[k].ports| && !IsDesignated(t.sws[k].id, t.sws[k].ports[i])
            && AtMost(t.sws[k].ports[i], p.root, p.cost, p.bridge, p.number)
            && (st.Deliver? && st.f.to == (k, i) ==>
                  var c := st.f.config; AtMost(t.sws[k].ports[i], c.root, c.cost, c.bridge, c.number))
  {
    assert SwitchOk(w, k, s.sws[k]);
    if st.Deliver? && st.f.to.0 == k {
      RoleLostInHandling(w, k, s.sws[k], st.f, i);
      RecordAfterOne(w, k, s.sws[k], st.f, i);
    }
    StepKeepsInv(w, s, st);
  }

  /** The record of a port that is not designated never gets worse. */
  lemma {:induction false} RecordNeverWorsens(w: Wiring, s: State, run: seq<Step>, k: nat, i: nat)
    requires Inv(w, s) && ValidRun(w, s, run) && k < |s.sws| && i < |s.sws[k].ports|
    requires !IsDesignated(s.sws[k].id, s.sws[k].ports[i])
    ensures var t, p := After(w, s, run), s.sws[k].ports[i];
            k < |t.sws| && i < |t.sws[k].ports| && AtMost(t.sws[k].ports[i], p.root, p.cost, p.bridge, p.number)
    decreases |run|
  {
    if run != [] {
      var t := Next(w, s, run[0]);
      RecordAfterStep(w, s, run[0], k, i);
      RecordNeverWorsens(w, t, run[1..], k, i);
      AtMostChain(After(w, t, run[1..]).sws[k].ports[i], t.sws[k].ports[i], RecordOf(s.sws[k].ports[i]));
    }
  }

  /** And from the moment a message arrives there it is, in every run, no worse than that message. */
  lemma {:induction false} HeardIsKept(w: Wiring, s: State, f: Frame, run: seq<Step>)
    requires Inv(w, s) && Enabled(s, Deliver(f)) && ValidRun(w, Next(w, s, Deliver(f)), run)
    requires !IsDesignated(s.sws[f.to.0].id, s.sws[f.to.0].ports[f.to.1])
    ensures var t, c := After(w, Next(w, s, Deliver(f)), run), f.config;
            && f.to.0 < |t.sws| && f.to.1 < |t.sws[f.to.0].ports|
            && AtMost(t.sws[f.to.0].ports[f.to.1], c.root, c.cost, c.bridge, c.number)
  {
    var t, k, i := Next(w, s, Deliver(f)), f.to.0, f.to.1;
    RecordAfterStep(w, s, Deliver(f), k, i);
    RecordNeverWorsens(w, t, run, k, i);
    AtMostChain(After(w, t, run).sws[k].ports[i], t.sws[k].ports[i], f.config);
  }

  /** In every reachable state each designated port has on record what its switch believes. */
  lemma {:induction false} DesignatedAgree(w: Wiring, s: State, run: seq<Step>)
    requires Inv(w, s) && ValidRun(w, s, run) && forall k :: 0 <= k < |s.sws| ==> Agrees(s.sws[k])
    ensures forall k :: 0 <= k < |After(w, s, run).sws| ==> Agrees(After(w, s, run).sws[k])
    decreases |run|
  {
    if run != [] {
      if run[0].Deliver? { HandleKeepsAgreement(s.sws[run[0].f.to.0], run[0].f.to.1, run[0].f.config); }
      StepKeepsInv(w, s, run[0]);
      DesignatedAgree(w, Next(w, s, run[0]), run[1..]);
    }
  }

  lemma DesignatedAgreeInRuns(w: Wiring, run: seq<Step>)
    requires ValidWiring(w) && ValidRun(w, Init(w), run)
    ensures forall k :: 0 <= k < |After(w, Init(w), run).sws| ==> Agrees(After(w, Init(w), run).sws[k])
  {
    InitInv(w);
    DesignatedAgree(w, Init(w), run);
  }

  lemma OnlyOneSender(w: Wiring, j: nat, sw: Switch, e: End, f: Frame)
    requires ValidWiring(w) && e in w.peer && f in Sent(w, j, sw) && f.to == w.peer[e]
    ensures e.0 == j && e.1 < |sw.ports| && Sends(sw, e.1)
  {
    var d :| d in w.peer && d.0 == j && d.1 < |sw.ports| && Sends(sw, d.1) && f == Frame(w.peer[d], ConfigOf(sw, d.1));
    assert LinkOk(w, d) && LinkOk(w, e);
  }

  /** A port that is not designated has sent its last message: nothing more from it comes onto the wire. */
  lemma {:induction false} BlockedIsSilent(w: Wiring, s: State, run: seq<Step>, k: nat, i: nat)
    requires Inv(w, s) && ValidRun(w, s, run) && k < |s.sws| && i < |s.sws[k].ports| && (k, i) in w.peer
    requires !IsDesignated(s.sws[k].id, s.sws[k].ports[i])
    ensures forall f :: f in After(w, s, run).wire && f.to == w.peer[(k, i)] ==> f in s.wire
    decreases |run|
  {
    if run != [] {
      var t := Next(w, s, run[0]);
      assert SwitchOk(w, k, s.sws[k]);
      if run[0].Deliver? && run[0].f.to.0 == k { RoleLostInHandling(w, k, s.sws[k], run[0].f, i); }
      StepKeepsInv(w, s, run[0]);
      BlockedIsSilent(w, t, run[1..], k, i);
      forall f | f in t.wire && f.to == w.peer[(k, i)] ensures f in s.wire {
        var j := if run[0].Hello? then run[0].s else run[0].f.to.0;
        if f in Sent(w, j, t.sws[j]) { OnlyOneSender(w, j, t.sws[j], (k, i), f); }
      }
    }
  }

  /** Three switches in a row; the one in the middle, with the largest identifier, has the switch
      with the smallest on its second port. */
  function Row(low: int, mid: int, high: int): Wiring
  {
    Wiring([low, mid, high], [1, 1, 2],
           map[(0, 0) := (2, 1), (2, 1) := (0, 0), (1, 0) := (2, 0), (2, 0) := (1, 0)])
  }

  lemma RowIsValid(low: int, mid: int, high: int)
    requires low < mid < high
    ensures ValidWiring(Row(low, mid, high))
  {
    var w := Row(low, mid, high);
    forall e | e in w.peer ensures LinkOk(w, e) {}
  }

  function FirstWord(id: int): Config { Config(id, 0, id, PortId(0)) }

  /** The middle switch follows the second-smallest, on its first port, and knows better. */
  function Misled(low: int, mid: int, high: int): Switch
  {
    Switch(high, mid, PATH_COST, 0,
           [UpdatePort(InitPort(high, 0), FirstWord(mid)), UpdatePort(InitPort(high, 1), FirstWord(low))])
  }

  /** The three messages there are: the first words of the ends, and what the middle switch tells
      the other end once it has heard the second-smallest. */
  function Words(low: int, mid: int, high: int): set<Frame>
  {
    {Frame((2, 0), FirstWord(mid)), Frame((2, 1), FirstWord(low)), Relayed(mid, high)}
  }

  function Relayed(mid: int, high: int): Frame
  {
    Frame((0, 0), Config(mid, PATH_COST, high, PortId(1)))
  }

  /** The three switches after both neighbours have been heard. */
  ghost predicate BothHeard(low: int, mid: int, high: int, s: State)
  {
    && s.sws == [InitSwitch(low, 1), InitSwitch(mid, 1), Misled(low, mid, high)]
    && s.wire == Words(low, mid, high)
  }

  /** The middle switch when it has heard its first port's neighbour only. */
  function Heard(mid: int, high: int): Switch
  {
    Switch(high, mid, PATH_COST, 0,
           [UpdatePort(InitPort(high, 0), FirstWord(mid)), Port(PortId(1), mid, PATH_COST, high, PortId(1))])
  }

  lemma HearsFirst(low: int, mid: int, high: int)
    requires low < mid < high
    ensures var sw := InitSwitch(high, 2);
            && Supersedes(sw.ports[0], FirstWord(mid))
            && Handle(sw, 0, FirstWord(mid)) == Heard(mid, high)
  {
    var sw := InitSwitch(high, 2);
    var r := Taken(sw, 0, FirstWord(mid));
    NonDesignatedSplit(high, r.ports, 0, 2);
    assert NewRootPort(r) == 0;
    assert Handle(sw, 0, FirstWord(mid)).ports == Heard(mid, high).ports;
  }

  lemma BothNonDesignated(low: int, mid: int, high: int)
    requires low < mid < high
    ensures NonDesignated(high, Misled(low, mid, high).ports, 2) == [0, 1]
    ensures !Better(Misled(low, mid, high).ports[0], Misled(low, mid, high).ports[1])
  {
    var ports := Misled(low, mid, high).ports;
    assert NonDesignated(high, ports, 0) == [];
    assert NonDesignated(high, ports, 1) == [0];
  }

  /** With both neighbours heard, the selection stays with the first port whatever is heard again. */
  lemma StaysMisled(low: int, mid: int, high: int, sw: Switch)
    requires low < mid < high
    requires sw.id == high && sw.rootPort == 0 && sw.ports == Misled(low, mid, high).ports
    ensures UpdateOthers(WithNewRoot(sw)) == Misled(low, mid, high)
  {
    BothNonDesignated(low, mid, high);
    assert Pick(sw.ports, [0, 1], 0, false, 0) == Pick(sw.ports, [0, 1], 1, false, 0) == 0;
    assert NewRootPort(sw) == 0;
    var m := WithNewRoot(sw);
    assert UpdateOthers(m).ports == m.ports;
  }

  lemma HearsSecond(low: int, mid: int, high: int)
    requires low < mid < high
    ensures var sw := Heard(mid, high);
            Supersedes(sw.ports[1], FirstWord(low)) && Handle(sw, 1, FirstWord(low)) == Misled(low, mid, high)
  {
    var sw := Heard(mid, high);
    var r := Taken(sw, 1, FirstWord(low));
    assert r.ports == Misled(low, mid, high).ports;
    StaysMisled(low, mid, high, r);
  }

  lemma HearsAgain(low: int, mid: int, high: int, f: Frame)
    requires low < mid < high
    requires f == Frame((2, 0), FirstWord(mid)) || f == Frame((2, 1), FirstWord(low))
    ensures Handle(Misled(low, mid, high), f.to.1, f.config) == Misled(low, mid, high)
  {
    var sw := Misled(low, mid, high);
    var r := Taken(sw, f.to.1, f.config);
    assert r.ports == sw.ports;
    StaysMisled(low, mid, high, r);
  }

  /** Each end, its own root, sends its first word; the middle switch relays the second-smallest
      to its second port while it has heard only that, and nothing afterwards. */
  lemma RowSends(low: int, mid: int, high: int)
    requires low < mid < high
    ensures var w := Row(low, mid, high);
            && Sent(w, 0, InitSwitch(low, 1)) == {Frame((2, 1), FirstWord(low))}
            && Sent(w, 1, InitSwitch(mid, 1)) == {Frame((2, 0), FirstWord(mid))}
            && Sent(w, 2, Heard(mid, high)) == {Relayed(mid, high)}
            && Sent(w, 2, Misled(low, mid, high)) == {}
  {
    var w := Row(low, mid, high);
    SendsOn(w, (0, 0), InitSwitch(low, 1));
    SendsOn(w, (1, 0), InitSwitch(mid, 1));
    SendsOn(w, (2, 1), Heard(mid, high));
  }

  /** The only link of a switch on which it sends. */
  lemma SendsOn(w: Wiring, e: End, sw: Switch)
    requires e in w.peer && e.1 < |sw.ports| && Sends(sw, e.1)
    requires forall d :: d in w.peer && d.0 == e.0 && d != e ==> d.1 < |sw.ports| && !Sends(sw, d.1)
    ensures Sent(w, e.0, sw) == {Frame(w.peer[e], ConfigOf(sw, e.1))}
  {
    forall f ensures f in Sent(w, e.0, sw) <==> f == Frame(w.peer[e], ConfigOf(sw, e.1)) {}
  }

  lemma BothHeardStays(low: int, mid: int, high: int, s: State, st: Step)
    requires low < mid < high && BothHeard(low, mid, high, s) && Enabled(s, st)
    ensures BothHeard(low, mid, high, Next(Row(low, mid, high), s, st))
  {
    RowSends(low, mid, high);
    if st.Deliver? {
      if st.f == Relayed(mid, high) {
        assert !Supersedes(s.sws[0].ports[0], st.f.config);
      } else {
        HearsAgain(low, mid, high, st.f);
      }
      assert s.sws[2 := Misled(low, mid, high)] == s.sws && s.sws[0 := s.sws[0]] == s.sws;
    }
  }

  lemma {:induction false} BothHeardForever(low: int, mid: int, high: int, s: State, run: seq<Step>)
    requires low < mid < high && BothHeard(low, mid, high, s) && ValidRun(Row(low, mid, high), s, run)
    ensures BothHeard(low, mid, high, After(Row(low, mid, high), s, run))
    decreases |run|
  {
    if run != [] {
      BothHeardStays(low, mid, high, s, run[0]);
      BothHeardForever(low, mid, high, Next(Row(low, mid, high), s, run[0]), run[1..]);
    }
  }

  /** Both neighbours say hello, and the middle switch hears the second-smallest first. */
  function Hellos(low: int, mid: int): seq<Step>
  {
    [Hello(1), Hello(0), Deliver(Frame((2, 0), FirstWord(mid))), Deliver(Frame((2, 1), FirstWord(low)))]
  }

  lemma OneMore(w: Wiring, s: State, st: Step, rest: seq<Step>)
    requires Enabled(s, st) && ValidRun(w, Next(w, s, st), rest)
    ensures ValidRun(w, s, [st] + rest) && After(w, s, [st] + rest) == After(w, Next(w, s, st), rest)
  {
    assert ([st] + rest)[1..] == rest;
  }

  /** From both hellos on. */
  lemma HeardSuffices(low: int, mid: int, high: int, s: State)
    requires low < mid < high
    requires s == State([InitSwitch(low, 1), InitSwitch(mid, 1), InitSwitch(high, 2)],
                        {Frame((2, 0), FirstWord(mid)), Frame((2, 1), FirstWord(low))})
    ensures ValidRun(Row(low, mid, high), s, Hellos(low, mid)[2..])
    ensures BothHeard(low, mid, high, After(Row(low, mid, high), s, Hellos(low, mid)[2..]))
  {
    var w := Row(low, mid, high);
    var one, two := Deliver(Frame((2, 0), FirstWord(mid))), Deliver(Frame((2, 1), FirstWord(low)));
    RowSends(low, mid, high);
    HearsFirst(low, mid, high);
    HearsSecond(low, mid, high);
    var m := Next(w, s, one);
    assert m == State([InitSwitch(low, 1), InitSwitch(mid, 1), Heard(mid, high)], Words(low, mid, high));
    var t := Next(w, m, two);
    assert t.sws == [InitSwitch(low, 1), InitSwitch(mid, 1), Misled(low, mid, high)];
    OneMore(w, m, two, []);
    OneMore(w, s, one, [two]);
    assert Hellos(low, mid)[2..] == [one] + [two] && [two] == [two] + [];
  }

  lemma HellosSuffice(low: int, mid: int, high: int)
    requires low < mid < high
    ensures var w := Row(low, mid, high);
            ValidRun(w, Init(w), Hellos(low, mid)) && BothHeard(low, mid, high, After(w, Init(w), Hellos(low, mid)))
  {
    var w := Row(low, mid, high);
    RowSends(low, mid, high);
    var s0 := Init(w);
    assert s0.sws == [InitSwitch(low, 1), InitSwitch(mid, 1), InitSwitch(high, 2)];
    var s1 := Next(w, s0, Hello(1));
    var s2 := Next(w, s1, Hello(0));
    assert s2.wire == {Frame((2, 0), FirstWord(mid)), Frame((2, 1), FirstWord(low))};
    HeardSuffices(low, mid, high, s2);
    var rest := Hellos(low, mid)[2..];
    OneMore(w, s1, Hello(0), rest);
    OneMore(w, s0, Hello(1), [Hello(0)] + rest);
    assert Hellos(low, mid) == [Hello(1)] + ([Hello(0)] + rest);
  }

  lemma RowHop(low: int, mid: int, high: int)
    requires low < mid < high
    ensures IsHop(LinksOf(Row(low, mid, high)), 2, 0, 1)
  {
    var w := Row(low, mid, high);
    var e: End := (2, 1);
    assert e in w.peer && w.peer[e].0 == 0;
    assert (2 as int, 0 as int) in LinksOf(w);
    EdgeIsWalk(LinksOf(w), 2, 0);
    if Walk(LinksOf(w), 2, 0, 0) { NoEdges(LinksOf(w), 2, 0); }
  }

  lemma {:induction false} RunSplits(w: Wiring, s: State, run: seq<Step>, more: seq<Step>)
    requires ValidRun(w, s, run + more)
    ensures ValidRun(w, s, run) && ValidRun(w, After(w, s, run), more)
    ensures After(w, s, run + more) == After(w, After(w, s, run), more)
    decreases |run|
  {
    if run == [] {
      assert run + more == more;
    } else {
      assert (run + more)[0] == run[0] && (run + more)[1..] == run[1..] + more;
      RunSplits(w, Next(w, s, run[0]), run[1..], more);
    }
  }

  /** The better root is missed, and for good. For all identifiers low < mid < high there is a run,
      `Hellos`, such that after it and after every continuation the middle switch believes that
      `mid` is root, although `low` is one link away and its second port has just that on record:
      its root port is not a best one, and the spanning tree never converges. */
  lemma {:induction false} BetterRootMissedForever(low: int, mid: int, high: int, more: seq<Step>)
    requires low < mid < high
    ensures var w := Row(low, mid, high);
            && ValidWiring(w) && Smallest(w, 0) && IsHop(LinksOf(w), 2, 0, 1)
            && ValidRun(w, Init(w), Hellos(low, mid))
            && (ValidRun(w, Init(w), Hellos(low, mid) + more) ==>
                  Misses(After(w, Init(w), Hellos(low, mid) + more), low, mid, high))
  {
    RowIsValid(low, mid, high);
    HellosSuffice(low, mid, high);
    RowHop(low, mid, high);
    var w := Row(low, mid, high);
    if ValidRun(w, Init(w), Hellos(low, mid) + more) {
      RunSplits(w, Init(w), Hellos(low, mid), more);
      BothHeardForever(low, mid, high, After(w, Init(w), Hellos(low, mid)), more);
      BothHeardMisses(low, mid, high, After(w, Init(w), Hellos(low, mid) + more));
    }
  }

  /** The middle switch follows `mid` with a port better than its root port at hand. */
  ghost predicate Misses(s: State, low: int, mid: int, high: int)
  {
    && |s.sws| == 3 && |s.sws[2].ports| == 2 && s.sws[2].id == high && s.sws[2].root == mid
    && 0 <= s.sws[2].rootPort < 2
    && !IsDesignated(high, s.sws[2].ports[1]) && s.sws[2].ports[1].root == low
    && !IsBest(s.sws[2].ports, NonDesignated(high, s.sws[2].ports, 2), s.sws[2].rootPort)
  }

  lemma BothHeardMisses(low: int, mid: int, high: int, s: State)
    requires low < mid < high && BothHeard(low, mid, high, s)
    ensures Misses(s, low, mid, high)
  {
    BothNonDesignated(low, mid, high);
    var ports := Misled(low, mid, high).ports;
    assert Better(ports[[0, 1][1]], ports[0]);
  }
}
