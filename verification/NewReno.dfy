/** The NewReno congestion states of a sender: what each acknowledgement and each timeout
    does to them, and what holds over every run. The window is a real number. */
module NewReno {
  import opened Seq32
  import opened Endpoints
  import opened Transfer

  datatype NrState = Open | Loss | Disorder | Recovery

  datatype Reno = Reno(
    state: NrState,
    cwnd: real,
    ssthresh: nat,
    dupacks: nat,
    flag: bool,
    recoveryPoint: int,
    lossPoint: int)

  const INITIAL := Reno(Open, 1.0, 16, 0, false, 0, 0)

  /** max((u32)(cwnd / 2), 1) */
  function Halved(cwnd: real): nat
  {
    if (cwnd / 2.0).Floor < 1 then 1 else (cwnd / 2.0).Floor
  }

  function UpdateCwnd(r: Reno): Reno
    requires r.cwnd != 0.0
  {
    r.(cwnd := if r.cwnd.Floor < r.ssthresh then r.cwnd + 1.0 else r.cwnd + 1.0 / r.cwnd)
  }

  /** In recovery the window shrinks by a half per ACK until it first fails the test. */
  function Shrink(r: Reno): Reno
  {
    if r.cwnd > r.ssthresh as real && !r.flag then r.(cwnd := r.cwnd - 0.5) else r.(flag := true)
  }

  function OnDisorder(r: Reno, isNew: bool, sndNxt: int): Reno
    requires 0.0 < r.cwnd
  {
    if isNew then UpdateCwnd(r).(state := Open, dupacks := 0)
    else
      var d := UpdateCwnd(r.(dupacks := r.dupacks + 1));
      if d.dupacks != 3 then d
      else d.(ssthresh := Halved(d.cwnd), cwnd := d.cwnd - 0.5, flag := false,
              recoveryPoint := sndNxt, state := Recovery)
  }

  function OnRecovery(r: Reno, isNew: bool, ack: int): Reno
  {
    if !isNew then Shrink(r.(dupacks := r.dupacks + 1))
    else if ack < r.recoveryPoint then Shrink(r)
    else Shrink(r).(state := Open, dupacks := 0)
  }

  /** The reaction to one ACK; `isNew` says whether it removed anything from the buffer. */
  function OnAck(r: Reno, isNew: bool, ack: int, sndNxt: int): Reno
    requires 0.0 < r.cwnd
  {
    match r.state
    case Open =>
      if isNew then UpdateCwnd(r) else UpdateCwnd(r.(dupacks := r.dupacks + 1)).(state := Disorder)
    case Disorder => OnDisorder(r, isNew, sndNxt)
    case Loss =>
      if !isNew then UpdateCwnd(r.(dupacks := r.dupacks + 1))
      else if ack >= r.lossPoint then UpdateCwnd(r).(state := Open, dupacks := 0)
      else UpdateCwnd(r)
    case Recovery => OnRecovery(r, isNew, ack)
  }

  /** The head is resent on entering recovery and on each partial ACK during it. */
  predicate Resends(r: Reno, isNew: bool, ack: int)
  {
    || (r.state.Disorder? && !isNew && r.dupacks + 1 == 3)
    || (r.state.Recovery? && isNew && ack < r.recoveryPoint)
  }

  function OnTimeout(r: Reno, sndNxt: int): Reno
  {
    r.(ssthresh := Halved(r.cwnd), cwnd := 1.0, state := Loss, lossPoint := sndNxt)
  }

  // ------------------------------------------------------------ the state and the counters

  predicate Consistent(r: Reno)
  {
    && (r.state.Open? ==> r.dupacks == 0)
    && (r.state.Disorder? ==> 1 <= r.dupacks <= 2)
    && (r.state.Recovery? ==> 3 <= r.dupacks)
    && 1 <= r.ssthresh
    && 0.5 < r.cwnd
  }

  /** Growth leaves the window at 3/2 or more, since x + 1/x is at least 2, so that entering
      recovery can take a half off at once. */
  lemma ConsistentAfterAck(r: Reno, isNew: bool, ack: int, sndNxt: int)
    requires Consistent(r)
    ensures Consistent(OnAck(r, isNew, ack, sndNxt))
  {}

  lemma ConsistentAfterTimeout(r: Reno, sndNxt: int)
    requires Consistent(r)
    ensures Consistent(OnTimeout(r, sndNxt))
  {}

  /** The third duplicate in a row, and no earlier one, starts recovery, up to what is sent. */
  lemma ThirdDuplicateEnters(r: Reno, a: int, b: int, c: int, sndNxt: int)
    requires Consistent(r) && r.state.Open?
    ensures var one := OnAck(r, false, a, sndNxt);
            var two := OnAck(one, false, b, sndNxt);
            var three := OnAck(two, false, c, sndNxt);
            && one.state.Disorder? && two.state.Disorder?
            && three.state.Recovery? && three.recoveryPoint == sndNxt && three.dupacks == 3
  {}

  /** The head is resent exactly on entering recovery and on new ACKs that stay in it. */
  lemma ResendsExactly(r: Reno, isNew: bool, ack: int, sndNxt: int)
    requires Consistent(r)
    ensures Resends(r, isNew, ack) <==>
              OnAck(r, isNew, ack, sndNxt).state.Recovery? && (isNew || !r.state.Recovery?)
  {}

  // ----------------------------------------------------------------- how the window moves

  /** The window after `k` ACKs that make it grow. */
  function Grow(r: Reno, k: nat): (g: Reno)
    requires 0.5 < r.cwnd
    ensures r.cwnd <= g.cwnd && g == r.(cwnd := g.cwnd)
  {
    if k == 0 then r else UpdateCwnd(Grow(r, k - 1))
  }

  /** Up to the threshold each ACK adds one. */
  lemma {:induction false} SlowStart(r: Reno, k: nat)
    requires 0.5 < r.cwnd && r.cwnd.Floor + k <= r.ssthresh
    ensures Grow(r, k).cwnd == r.cwnd + k as real
  {
    if k > 0 { SlowStart(r, k - 1); }
  }

  lemma InverseFalls(a: real, b: real)
    requires 0.0 < a <= b
    ensures 1.0 / b <= 1.0 / a
  {}

  lemma GrowthWithin(r: Reno, g: Reno)
    requires 0.5 < r.cwnd <= g.cwnd <= r.cwnd + 1.0 && g.ssthresh <= r.cwnd.Floor
    ensures g.cwnd + 1.0 / (r.cwnd + 1.0) <= UpdateCwnd(g).cwnd <= g.cwnd + 1.0 / r.cwnd
  {
    assert r.cwnd.Floor <= g.cwnd.Floor;
    InverseFalls(r.cwnd, g.cwnd);
    InverseFalls(g.cwnd, r.cwnd + 1.0);
  }

  function Times(k: nat, x: real): real
  {
    if k == 0 then 0.0 else Times(k - 1, x) + x
  }

  lemma {:induction false} TimesIsProduct(k: nat, x: real)
    ensures Times(k, x) == k as real * x
  {
    if k > 0 {
      TimesIsProduct(k - 1, x);
      assert k as real * x == (k - 1) as real * x + x;
    }
  }

  lemma TimesAtMostOne(k: nat, c: real)
    requires 0.0 < c && k as real <= c
    ensures Times(k, 1.0 / c) <= 1.0
  {
    var x := 1.0 / c;
    TimesIsProduct(k, x);
    assert c * x == 1.0 && 0.0 < x;
    assert (c - k as real) * x >= 0.0;
  }

  /** Beyond the threshold the ACKs of one window together add about one: `k` of them between
      k times 1 / (cwnd + 1) and k times 1 / cwnd, which is at most one. */
  lemma {:induction false} CongestionAvoidance(r: Reno, k: nat)
    requires 0.5 < r.cwnd && r.ssthresh <= r.cwnd.Floor && k as real <= r.cwnd
    ensures r.cwnd + Times(k, 1.0 / (r.cwnd + 1.0)) <= Grow(r, k).cwnd
    ensures Grow(r, k).cwnd <= r.cwnd + Times(k, 1.0 / r.cwnd) <= r.cwnd + 1.0
  {
    TimesAtMostOne(k, r.cwnd);
    if k > 0 {
      CongestionAvoidance(r, k - 1);
      GrowthWithin(r, Grow(r, k - 1));
    }
  }

  // -------------------------------------------------------------------------- whole runs

  datatype Controlled = Controlled(reno: Reno, snd: Sender)

  datatype Event = GotAck(ack: int) | Timeout | Pushed(data: seq<byte>)

  /** Whether the ACK removes an entry from the send buffer. */
  predicate NewAck(ar: Arith, c: Controlled, ack: int)
  {
    |DeleteAcked(ar, c.snd.sendBuf, ack)| < |c.snd.sendBuf|
  }

  function Advance(ar: Arith, c: Controlled, e: Event): (d: Controlled)
    requires Consistent(c.reno)
    ensures Consistent(d.reno)
  {
    match e
    case GotAck(a) =>
      ConsistentAfterAck(c.reno, NewAck(ar, c, a), a, c.snd.sndNxt);
      Controlled(OnAck(c.reno, NewAck(ar, c, a), a, c.snd.sndNxt), AckIn(ar, c.snd, a))
    case Timeout =>
      ConsistentAfterTimeout(c.reno, c.snd.sndNxt);
      c.(reno := OnTimeout(c.reno, c.snd.sndNxt))
    case Pushed(data) => c.(snd := Push(ar, c.snd, data))
  }

  /** Every run of ACKs (new, duplicate, stale or arbitrary), timeouts and sends, on unbounded
      and on 32-bit numbers, keeps the state and the counters consistent, as they are in a fresh
      socket. */
  ghost function AfterEvents(ar: Arith, c: Controlled, es: seq<Event>): (d: Controlled)
    requires Consistent(c.reno)
    ensures Consistent(d.reno)
    decreases |es|
  {
    if es == [] then c
    else AfterEvents(ar, Advance(ar, c, es[0]), es[1..])
  }

  // ------------------------------------------------------------- the window in whole runs

  function Acks(es: seq<Event>): nat
  {
    if es == [] then 0 else (if es[0].GotAck? then 1 else 0) + Acks(es[1..])
  }

  /** A stretch of a run without a timeout and never in recovery: in OPEN, DISORDER and LOSS. */
  ghost predicate OutsideRecovery(ar: Arith, c: Controlled, es: seq<Event>)
    requires Consistent(c.reno)
    decreases |es|
  {
    !c.reno.state.Recovery? &&
    (es == [] || (!es[0].Timeout? && OutsideRecovery(ar, Advance(ar, c, es[0]), es[1..])))
  }

  lemma {:induction false} GrownFirst(r: Reno, t: Reno, k: nat)
    requires 0.5 < r.cwnd && t.ssthresh == r.ssthresh && t.cwnd == UpdateCwnd(r).cwnd
    ensures Grow(t, k).cwnd == Grow(r, k + 1).cwnd
  {
    if k > 0 {
      GrownFirst(r, t, k - 1);
    } else {
      assert Grow(r, 0) == r;
    }
  }

  lemma {:induction false} GrownSame(r: Reno, t: Reno, k: nat)
    requires 0.5 < r.cwnd && t.ssthresh == r.ssthresh && t.cwnd == r.cwnd
    ensures Grow(t, k).cwnd == Grow(r, k).cwnd
  {
    if k > 0 { GrownSame(r, t, k - 1); }
  }

  lemma AckOutsideGrows(ar: Arith, c: Controlled, ack: int)
    requires Consistent(c.reno) && !c.reno.state.Recovery?
    requires !Advance(ar, c, GotAck(ack)).reno.state.Recovery?
    ensures var d := Advance(ar, c, GotAck(ack)).reno;
            d.ssthresh == c.reno.ssthresh && d.cwnd == UpdateCwnd(c.reno).cwnd
  {}

  lemma {:induction false} WindowOutsideRecovery(ar: Arith, c: Controlled, es: seq<Event>)
    requires Consistent(c.reno) && OutsideRecovery(ar, c, es)
    ensures var d := AfterEvents(ar, c, es);
            d.reno.ssthresh == c.reno.ssthresh && d.reno.cwnd == Grow(c.reno, Acks(es)).cwnd
    decreases |es|
  {
    if es != [] {
      var d := Advance(ar, c, es[0]);
      WindowOutsideRecovery(ar, d, es[1..]);
      if es[0].GotAck? {
        AckOutsideGrows(ar, c, es[0].ack);
        GrownFirst(c.reno, d.reno, Acks(es[1..]));
      } else {
        GrownSame(c.reno, d.reno, Acks(es[1..]));
      }
    }
  }

  /** The window over whole runs, in OPEN, DISORDER and LOSS alike: each ACK, new or not, adds one up
      to the threshold. */
  lemma {:induction false} EveryAckAddsOne(ar: Arith, c: Controlled, es: seq<Event>)
    requires Consistent(c.reno) && OutsideRecovery(ar, c, es) && c.reno.cwnd.Floor + Acks(es) <= c.reno.ssthresh
    ensures AfterEvents(ar, c, es).reno.cwnd == c.reno.cwnd + Acks(es) as real
    ensures AfterEvents(ar, c, es).reno.ssthresh == c.reno.ssthresh
  {
    WindowOutsideRecovery(ar, c, es);
    SlowStart(c.reno, Acks(es));
  }

  /** And beyond it those of one window together add between k times 1 / (w + 1) and k times 1 / w,
      which is at most one. */
  lemma {:induction false} OneWindowAddsOne(ar: Arith, c: Controlled, es: seq<Event>)
    requires Consistent(c.reno) && OutsideRecovery(ar, c, es)
    requires c.reno.ssthresh <= c.reno.cwnd.Floor && Acks(es) as real <= c.reno.cwnd
    ensures var w, d := c.reno.cwnd, AfterEvents(ar, c, es);
            w + Times(Acks(es), 1.0 / (w + 1.0)) <= d.reno.cwnd <= w + Times(Acks(es), 1.0 / w) <= w + 1.0
  {
    WindowOutsideRecovery(ar, c, es);
    CongestionAvoidance(c.reno, Acks(es));
  }

  /** A window's worth of ACKs doubles it. */
  lemma {:induction false} SlowStartDoubles(ar: Arith, c: Controlled, es: seq<Event>, w: nat)
    requires Consistent(c.reno) && OutsideRecovery(ar, c, es)
    requires c.reno.cwnd == w as real && Acks(es) == w && 2 * w <= c.reno.ssthresh
    ensures AfterEvents(ar, c, es).reno.cwnd == (2 * w) as real
  {
    EveryAckAddsOne(ar, c, es);
  }

  /** A fresh socket's window is 1 and grows by one per ACK to 16; the next 16 ACKs add at most one. */
  lemma {:induction false} FreshWindow(ar: Arith, c: Controlled, es: seq<Event>, more: seq<Event>)
    requires c.reno == INITIAL && OutsideRecovery(ar, c, es) && Acks(es) <= 15
    requires OutsideRecovery(ar, AfterEvents(ar, c, es), more) && Acks(more) <= 16
    ensures AfterEvents(ar, c, es).reno.cwnd == 1.0 + Acks(es) as real
    ensures Acks(es) == 15 ==> AfterEvents(ar, AfterEvents(ar, c, es), more).reno.cwnd <= 17.0
  {
    EveryAckAddsOne(ar, c, es);
    if Acks(es) == 15 { OneWindowAddsOne(ar, AfterEvents(ar, c, es), more); }
  }

  /** After a timeout the window starts again at 1 and, ACK by ACK, reaches half of what it was. */
  lemma {:induction false} TimeoutStartsAgain(ar: Arith, c: Controlled, es: seq<Event>)
    requires Consistent(c.reno) && OutsideRecovery(ar, Advance(ar, c, Timeout), es)
    ensures var w, d := c.reno.cwnd, AfterEvents(ar, Advance(ar, c, Timeout), es);
            && (Acks(es) == 0 || 2.0 * (1.0 + Acks(es) as real) <= w ==> d.reno.cwnd == 1.0 + Acks(es) as real)
            && d.reno.ssthresh as real <= (if w < 2.0 then 1.0 else w / 2.0) < d.reno.ssthresh as real + 1.0
  {
    var d := Advance(ar, c, Timeout);
    HalvedIsHalf(c.reno.cwnd);
    WindowOutsideRecovery(ar, d, es);
    if 2.0 * (1.0 + Acks(es) as real) <= c.reno.cwnd { EveryAckAddsOne(ar, d, es); }
  }

  /** The duplicates in a row at the end of a run, `n` of them before it. */
  ghost function InARow(ar: Arith, c: Controlled, es: seq<Event>, n: nat): nat
    requires Consistent(c.reno)
    decreases |es|
  {
    if es == [] then n
    else InARow(ar, Advance(ar, c, es[0]), es[1..],
                if !es[0].GotAck? then n else if NewAck(ar, c, es[0].ack) then 0 else n + 1)
  }

  /** From OPEN, recovery begins with exactly the third duplicate in a row, whatever new ACKs and sends
      come before; with fewer the state is DISORDER, and with none OPEN. */
  lemma {:induction false} ThirdInARowExactly(ar: Arith, c: Controlled, es: seq<Event>, ack: int)
    requires Consistent(c.reno) && (c.reno.state.Open? || c.reno.state.Disorder?) && OutsideRecovery(ar, c, es)
    ensures var d := AfterEvents(ar, c, es);
            && d.reno.dupacks == InARow(ar, c, es, c.reno.dupacks)
            && (d.reno.state.Open? <==> d.reno.dupacks == 0) && (d.reno.state.Disorder? <==> d.reno.dupacks != 0)
            && (Advance(ar, d, GotAck(ack)).reno.state.Recovery? <==>
                  !NewAck(ar, d, ack) && InARow(ar, c, es, c.reno.dupacks) == 2)
    decreases |es|
  {
    if es != [] { ThirdInARowExactly(ar, Advance(ar, c, es[0]), es[1..], ack); }
  }

  // ------------------------------------------------------------- leaving loss and recovery

  /** The position an episode is waiting for. */
  function Point(r: Reno): int
  {
    if r.state.Loss? then r.lossPoint else r.recoveryPoint
  }

  lemma {:induction false} KeptAreLater(buf: seq<Segment>, ack: int)
    ensures |DeleteAcked(Unbounded, buf, ack)| <= |buf|
    ensures forall x :: x in DeleteAcked(Unbounded, buf, ack) ==> ack <= x.pos && x in buf
  {
    if buf != [] {
      KeptAreLater(buf[1..], ack);
      assert forall x :: x in buf[1..] ==> x in buf;
    }
  }

  /** Recovery and loss end on exactly those new ACKs after which no segment below the
      recorded point is unacknowledged. The send buffer is taken contiguous and the ACK on
      one of its boundaries, as in every reachable state of the transfer, and the point
      not beyond what was sent. */
  lemma {:induction false} EpisodeEndsExactly(c: Controlled, iss: int, sent: seq<Segment>, u: nat, k: nat)
    requires Consistent(c.reno) && (c.reno.state.Loss? || c.reno.state.Recovery?)
    requires Chained(iss, sent) && u <= |sent| && k <= |sent|
    requires c.snd.sendBuf == sent[u..]
    requires Point(c.reno) <= Bound(iss, sent, |sent|)
    ensures var ack := Bound(iss, sent, k);
            var d := Advance(Unbounded, c, GotAck(ack));
            d.reno.state.Open? <==>
              NewAck(Unbounded, c, ack) && forall x :: x in d.snd.sendBuf ==> Point(c.reno) <= x.pos
  {
    var ack := Bound(iss, sent, k);
    var d := Advance(Unbounded, c, GotAck(ack));
    DeleteLeavesSuffix(iss, sent, u, k);
    KeptAreLater(c.snd.sendBuf, ack);
    if NewAck(Unbounded, c, ack) {
      assert u < k && d.snd.sendBuf == sent[k..];
      if ack < Point(c.reno) {
        assert k < |sent|;
        assert Placed(iss, sent, k) && sent[k] == sent[k..][0];
        assert sent[k] in d.snd.sendBuf;
      }
    }
  }

  /** An ACK never ends an episode while it leaves a segment below the point unacknowledged,
      whatever the buffer holds. */
  lemma {:induction false} NoEarlyExit(c: Controlled, ack: int)
    requires Consistent(c.reno) && (c.reno.state.Loss? || c.reno.state.Recovery?)
    requires Advance(Unbounded, c, GotAck(ack)).reno.state.Open?
    ensures forall x :: x in Advance(Unbounded, c, GotAck(ack)).snd.sendBuf ==> Point(c.reno) <= x.pos
  {
    KeptAreLater(c.snd.sendBuf, ack);
  }

  // ---------------------------------------------------------------- the length of recovery

  /** Segments below the recovery point that are still unacknowledged. */
  function Below(buf: seq<Segment>, point: int): nat
  {
    if buf == [] then 0 else (if buf[0].pos < point then 1 else 0) + Below(buf[1..], point)
  }

  lemma {:induction false} DeletionLowers(buf: seq<Segment>, ack: int, point: int)
    requires ack <= point
    ensures var kept := DeleteAcked(Unbounded, buf, ack);
            Below(kept, point) + (|buf| - |kept|) == Below(buf, point)
  {
    if buf != [] {
      DeletionLowers(buf[1..], ack, point);
      var kept := DeleteAcked(Unbounded, buf, ack);
      if !(buf[0].pos < ack) { assert kept[1..] == DeleteAcked(Unbounded, buf[1..], ack); }
    }
  }

  lemma {:induction false} DeletionNeverRaises(buf: seq<Segment>, ack: int, point: int)
    ensures Below(DeleteAcked(Unbounded, buf, ack), point) <= Below(buf, point)
  {
    if buf != [] {
      DeletionNeverRaises(buf[1..], ack, point);
      var kept := DeleteAcked(Unbounded, buf, ack);
      if !(buf[0].pos < ack) { assert kept[1..] == DeleteAcked(Unbounded, buf[1..], ack); }
    }
  }

  lemma {:induction false} PushAbovePoint(buf: seq<Segment>, seg: Segment, point: int)
    requires point <= seg.pos
    ensures Below(buf + [seg], point) == Below(buf, point)
  {
    if buf != [] {
      assert (buf + [seg])[1..] == buf[1..] + [seg];
      PushAbovePoint(buf[1..], seg, point);
    } else {
      assert buf + [seg] == [seg];
    }
  }

  /** A stretch of a run that stays in one recovery episode. */
  ghost predicate StaysInRecovery(ar: Arith, c: Controlled, es: seq<Event>)
    requires Consistent(c.reno)
    decreases |es|
  {
    c.reno.state.Recovery? &&
    (es == [] || StaysInRecovery(ar, Advance(ar, c, es[0]), es[1..]))
  }

  ghost function NewAcks(ar: Arith, c: Controlled, es: seq<Event>): nat
    requires Consistent(c.reno)
    decreases |es|
  {
    if es == [] then 0
    else
      (if es[0].GotAck? && NewAck(ar, c, es[0].ack) then 1 else 0) + NewAcks(ar, Advance(ar, c, es[0]), es[1..])
  }

  lemma {:induction false} RecoveryIsBounded(c: Controlled, es: seq<Event>)
    requires Consistent(c.reno) && StaysInRecovery(Unbounded, c, es)
    requires c.reno.recoveryPoint <= c.snd.sndNxt
    ensures NewAcks(Unbounded, c, es) + Below(AfterEvents(Unbounded, c, es).snd.sendBuf, c.reno.recoveryPoint)
            <= Below(c.snd.sendBuf, c.reno.recoveryPoint)
    decreases |es|
  {
    if es != [] {
      var point, d := c.reno.recoveryPoint, Advance(Unbounded, c, es[0]);
      match es[0] {
        case GotAck(a) =>
          if NewAck(Unbounded, c, a) {
            DeletionLowers(c.snd.sendBuf, a, point);
          } else {
            DeletionNeverRaises(c.snd.sendBuf, a, point);
          }
        case Timeout =>
        case Pushed(data) =>
          PushAbovePoint(c.snd.sendBuf, Segment(c.snd.sndNxt, data), point);
      }
      RecoveryIsBounded(d, es[1..]);
    }
  }

  /** A stretch of a run without a timeout, in recovery until its last event, which may end it. */
  ghost predicate DuringRecovery(ar: Arith, c: Controlled, es: seq<Event>)
    requires Consistent(c.reno)
    decreases |es|
  {
    es == [] ||
    (c.reno.state.Recovery? && !es[0].Timeout? && DuringRecovery(ar, Advance(ar, c, es[0]), es[1..]))
  }

  /** All through an episode the threshold stays and the window shrinks by a half per ACK, also with the
      one that ends it, until it is no longer above the threshold, and there it stays: never half a
      segment below it. */
  lemma {:induction false} RecoveryWindow(ar: Arith, c: Controlled, es: seq<Event>)
    requires Consistent(c.reno) && DuringRecovery(ar, c, es)
    requires c.reno.ssthresh as real - 0.5 < c.reno.cwnd
    requires c.reno.flag ==> c.reno.cwnd <= c.reno.ssthresh as real
    ensures var d := AfterEvents(ar, c, es);
            && d.reno.ssthresh == c.reno.ssthresh
            && c.reno.ssthresh as real - 0.5 < d.reno.cwnd <= c.reno.cwnd
            && c.reno.cwnd - Acks(es) as real / 2.0 <= d.reno.cwnd
            && (d.reno.cwnd == c.reno.cwnd - Acks(es) as real / 2.0 || d.reno.cwnd <= c.reno.ssthresh as real)
    decreases |es|
  {
    if es != [] { RecoveryWindow(ar, Advance(ar, c, es[0]), es[1..]); }
  }

  /** The threshold set on entering loss or recovery is half the window, rounded down, or 1. */
  lemma HalvedIsHalf(w: real)
    requires 0.0 < w
    ensures 1 <= Halved(w)
    ensures 2.0 <= w ==> Halved(w) as real <= w / 2.0 < Halved(w) as real + 1.0
    ensures w < 2.0 ==> Halved(w) == 1
  {}

  /** An episode halves the window: from its start, with a window `w` that the third duplicate too
      has made grow, the window falls by a half per ACK, and after w + 2 of them it is half of `w`,
      or 1, to within one and a half segments. */
  lemma {:induction false} RecoveryHalves(ar: Arith, c: Controlled, third: int, es: seq<Event>)
    requires Consistent(c.reno) && c.reno.state.Disorder?
    requires Advance(ar, c, GotAck(third)).reno.state.Recovery?
    requires DuringRecovery(ar, Advance(ar, c, GotAck(third)), es)
    ensures var w := UpdateCwnd(c.reno).cwnd;
            var d := AfterEvents(ar, Advance(ar, c, GotAck(third)), es);
            && w - 0.5 - Acks(es) as real / 2.0 <= d.reno.cwnd <= w - 0.5
            && (w + 2.0 <= Acks(es) as real ==>
                  w / 2.0 - 1.5 < d.reno.cwnd <= if w < 2.0 then 1.0 else w / 2.0)
  {
    var start := Advance(ar, c, GotAck(third));
    HalvedIsHalf(UpdateCwnd(c.reno).cwnd);
    RecoveryWindow(ar, start, es);
  }

  lemma {:induction false} BelowAtMostAll(buf: seq<Segment>, point: int)
    ensures Below(buf, point) <= |buf|
  {
    if buf != [] { BelowAtMostAll(buf[1..], point); }
  }

  /** From the third duplicate ACK that starts an episode, at most as many new ACKs leave it
      in recovery as there were segments outstanding when it began. */
  lemma {:induction false} RecoveryAbsorbsOutstanding(c: Controlled, third: int, es: seq<Event>)
    requires Consistent(c.reno) && c.reno.state.Disorder?
    requires Advance(Unbounded, c, GotAck(third)).reno.state.Recovery?
    requires StaysInRecovery(Unbounded, Advance(Unbounded, c, GotAck(third)), es)
    ensures NewAcks(Unbounded, Advance(Unbounded, c, GotAck(third)), es) <= |c.snd.sendBuf|
  {
    var d := Advance(Unbounded, c, GotAck(third));
    RecoveryIsBounded(d, es);
    BelowAtMostAll(d.snd.sendBuf, d.reno.recoveryPoint);
    KeptAreLater(c.snd.sendBuf, third);
  }
}
