/** The end of a loss or recovery episode on 32-bit numbers. The acknowledgement is compared with
    the recorded point as a plain unsigned word, so the test is right exactly between two
    positions on the same turn of the number circle. */
module Episodes {
  import opened Seq32
  import opened Endpoints
  import opened Transfer
  import opened NewReno
  import opened Wraparound

  /** Plain comparison of words against comparison of positions. */
  lemma {:induction false} PlainComparisonExactly(x: int, y: int)
    requires -MODULUS < x - y < MODULUS
    ensures (Wrap(x) >= Wrap(y) <==> x >= y) <==> x / MODULUS == y / MODULUS
  {
    var p, q := x / MODULUS, y / MODULUS;
    assert x == p * MODULUS + Wrap(x) && y == q * MODULUS + Wrap(y);
    assert -1 <= p - q <= 1;
  }

  function WrapControlled(c: Controlled): Controlled
  {
    Controlled(c.reno.(recoveryPoint := Wrap(c.reno.recoveryPoint), lossPoint := Wrap(c.reno.lossPoint)),
               WrapSender(c.snd))
  }

  /** The episode is over after this acknowledgement. */
  predicate Ends(ar: Arith, c: Controlled, ack: int)
    requires Consistent(c.reno)
  {
    Advance(ar, c, GotAck(ack)).reno.state.Open?
  }

  lemma EndsByComparison(ar: Arith, c: Controlled, ack: int)
    requires Consistent(c.reno) && (c.reno.state.Loss? || c.reno.state.Recovery?) && NewAck(ar, c, ack)
    ensures Ends(ar, c, ack) <==> ack >= Point(c.reno)
  {}

  lemma NewAckWrapped(c: Controlled, ack: int)
    requires Consistent(c.reno)
    requires forall i :: 0 <= i < |c.snd.sendBuf| ==> Near(c.snd.sendBuf[i].pos, ack)
    ensures NewAck(Wrapped, WrapControlled(c), Wrap(ack)) <==> NewAck(Unbounded, c, ack)
  {
    DeleteWrapped(c.snd.sendBuf, ack);
  }

  /** On 32-bit numbers an acknowledgement that removes something ends a loss or recovery episode
      when it should, that is, if and only if it leaves no segment below the recorded point
      unacknowledged, exactly when it and the point are on the same turn of the circle. */
  lemma {:induction false} EpisodeEndsRightlyExactly(c: Controlled, iss: int, sent: seq<Segment>, u: nat, k: nat)
    requires Consistent(c.reno) && (c.reno.state.Loss? || c.reno.state.Recovery?)
    requires Chained(iss, sent) && u < k <= |sent|
    requires c.snd.sendBuf == sent[u..]
    requires Point(c.reno) <= Bound(iss, sent, |sent|)
    requires forall i :: 0 <= i < |c.snd.sendBuf| ==> Near(c.snd.sendBuf[i].pos, Bound(iss, sent, k))
    requires Near(Bound(iss, sent, k), Point(c.reno))
    ensures var ack := Bound(iss, sent, k);
            (Ends(Wrapped, WrapControlled(c), Wrap(ack)) <==>
               forall x :: x in Advance(Unbounded, c, GotAck(ack)).snd.sendBuf ==> Point(c.reno) <= x.pos)
            <==> ack / MODULUS == Point(c.reno) / MODULUS
  {
    var ack := Bound(iss, sent, k);
    DeleteLeavesSuffix(iss, sent, u, k);
    NewAckWrapped(c, ack);
    EndsByComparison(Unbounded, c, ack);
    EndsByComparison(Wrapped, WrapControlled(c), Wrap(ack));
    EpisodeEndsExactly(c, iss, sent, u, k);
    PlainComparisonExactly(ack, Point(c.reno));
  }

  // ------------------------------------------------------------ episodes on the same turn

  function WordEvent(e: Event): Event
  {
    if e.GotAck? then GotAck(Wrap(e.ack)) else e
  }

  function WordEvents(es: seq<Event>): (w: seq<Event>)
    ensures |w| == |es| && forall i :: 0 <= i < |es| ==> w[i] == WordEvent(es[i])
  {
    seq(|es|, i requires 0 <= i < |es| => WordEvent(es[i]))
  }

  /** What an acknowledgement is compared with is near it, and the point of an episode on the same
      turn of the number circle. */
  ghost predicate SameTurn(c: Controlled, e: Event)
  {
    e.GotAck? ==>
      && (forall i :: 0 <= i < |c.snd.sendBuf| ==> Near(c.snd.sendBuf[i].pos, e.ack))
      && (c.reno.state.Loss? || c.reno.state.Recovery? ==> e.ack / MODULUS == Point(c.reno) / MODULUS)
  }

  lemma SameTurnCompares(x: int, y: int)
    requires x / MODULUS == y / MODULUS
    ensures Wrap(x) < Wrap(y) <==> x < y
  {
    assert x == x / MODULUS * MODULUS + Wrap(x) && y == y / MODULUS * MODULUS + Wrap(y);
  }

  /** Then the 32-bit sender does what the unbounded one does. */
  lemma {:induction false} AdvanceWrapped(c: Controlled, e: Event)
    requires Consistent(c.reno) && SameTurn(c, e)
    ensures Advance(Wrapped, WrapControlled(c), WordEvent(e)) == WrapControlled(Advance(Unbounded, c, e))
    ensures e.GotAck? ==> (NewAck(Wrapped, WrapControlled(c), Wrap(e.ack)) <==> NewAck(Unbounded, c, e.ack))
  {
    match e
    case GotAck(a) =>
      NewAckWrapped(c, a);
      DeleteWrapped(c.snd.sendBuf, a);
      if c.reno.state.Loss? || c.reno.state.Recovery? { SameTurnCompares(a, Point(c.reno)); }
    case Timeout =>
    case Pushed(data) => PushWrapped(c.snd, data);
  }

  ghost predicate SameTurnRun(c: Controlled, es: seq<Event>)
    requires Consistent(c.reno)
    decreases |es|
  {
    es == [] || (SameTurn(c, es[0]) && SameTurnRun(Advance(Unbounded, c, es[0]), es[1..]))
  }

  lemma {:induction false} RunWrapped(c: Controlled, es: seq<Event>)
    requires Consistent(c.reno) && SameTurnRun(c, es)
    ensures AfterEvents(Wrapped, WrapControlled(c), WordEvents(es)) == WrapControlled(AfterEvents(Unbounded, c, es))
    ensures StaysInRecovery(Wrapped, WrapControlled(c), WordEvents(es)) <==> StaysInRecovery(Unbounded, c, es)
    ensures NewAcks(Wrapped, WrapControlled(c), WordEvents(es)) == NewAcks(Unbounded, c, es)
    decreases |es|
  {
    if es != [] {
      AdvanceWrapped(c, es[0]);
      RunWrapped(Advance(Unbounded, c, es[0]), es[1..]);
      assert WordEvents(es)[1..] == WordEvents(es[1..]);
    }
  }

  /** On 32-bit numbers too, a recovery episode absorbs at most as many new ACKs as there were
      segments outstanding when it began, as long as the ACKs that arrive in it are on the same
      turn as its point. */
  lemma {:induction false} RecoveryAbsorbsOutstanding32(c: Controlled, third: int, es: seq<Event>)
    requires Consistent(c.reno) && c.reno.state.Disorder? && SameTurnRun(c, [GotAck(third)] + es)
    requires Advance(Wrapped, WrapControlled(c), GotAck(Wrap(third))).reno.state.Recovery?
    requires StaysInRecovery(Wrapped, Advance(Wrapped, WrapControlled(c), GotAck(Wrap(third))), WordEvents(es))
    ensures NewAcks(Wrapped, Advance(Wrapped, WrapControlled(c), GotAck(Wrap(third))), WordEvents(es))
            <= |c.snd.sendBuf|
  {
    assert ([GotAck(third)] + es)[1..] == es;
    AdvanceWrapped(c, GotAck(third));
    RunWrapped(Advance(Unbounded, c, GotAck(third)), es);
    RecoveryAbsorbsOutstanding(c, third, es);
  }

  // ------------------------------------------------------------------- across the wrap-around

  function Fresh(first: int): Controlled
  {
    Controlled(INITIAL, Sender(first, first, []))
  }

  /** Three packets of one byte, the last of them beyond the wrap-around; three duplicate ACKs;
      and an ACK for the first packet. */
  const ACROSS: seq<Event> :=
    [Pushed([1]), Pushed([2]), Pushed([3]),
     GotAck(MODULUS - 2), GotAck(MODULUS - 2), GotAck(MODULUS - 2), GotAck(MODULUS - 1)]

  lemma AfterMore(c: Controlled, es: seq<Event>, e: Event)
    requires Consistent(c.reno)
    ensures AfterEvents(Wrapped, c, es + [e]) == Advance(Wrapped, AfterEvents(Wrapped, c, es), e)
    decreases |es|
  {
    if es == [] {
      assert AfterEvents(Wrapped, Advance(Wrapped, c, e), []) == Advance(Wrapped, c, e);
    } else {
      assert (es + [e])[0] == es[0] && (es + [e])[1..] == es[1..] + [e];
      AfterMore(Advance(Wrapped, c, es[0]), es[1..], e);
    }
  }

  lemma ThreePushed()
    ensures var d := AfterEvents(Wrapped, Fresh(MODULUS - 2), ACROSS[..3]);
            && d.snd == Sender(1, MODULUS - 2, [Segment(MODULUS - 2, [1]), Segment(MODULUS - 1, [2]), Segment(0, [3])])
            && d.reno == INITIAL
  {
    var c := Fresh(MODULUS - 2);
    assert ACROSS[..0] == [] && ACROSS[..1] == ACROSS[..0] + [ACROSS[0]];
    assert ACROSS[..2] == ACROSS[..1] + [ACROSS[1]] && ACROSS[..3] == ACROSS[..2] + [ACROSS[2]];
    AfterMore(c, ACROSS[..0], ACROSS[0]);
    AfterMore(c, ACROSS[..1], ACROSS[1]);
    AfterMore(c, ACROSS[..2], ACROSS[2]);
  }

  lemma NothingDeleted(buf: seq<Segment>, ack: int)
    requires forall i :: 0 <= i < |buf| ==> !LessThan(buf[i].pos, ack)
    ensures DeleteAcked(Wrapped, buf, ack) == buf
  {
    if buf != [] { NothingDeleted(buf[1..], ack); }
  }

  lemma HeadDeleted(buf: seq<Segment>, ack: int)
    requires buf != [] && LessThan(buf[0].pos, ack)
    requires forall i :: 0 < i < |buf| ==> !LessThan(buf[i].pos, ack)
    ensures DeleteAcked(Wrapped, buf, ack) == buf[1..]
  {
    NothingDeleted(buf[1..], ack);
  }

  lemma ThreeDuplicates()
    ensures var d := AfterEvents(Wrapped, Fresh(MODULUS - 2), ACROSS[..6]);
            && d.snd.sendBuf == [Segment(MODULUS - 2, [1]), Segment(MODULUS - 1, [2]), Segment(0, [3])]
            && d.reno.state.Recovery? && d.reno.recoveryPoint == 1
  {
    ThreePushed();
    var c, a := Fresh(MODULUS - 2), MODULUS - 2;
    var buf := [Segment(MODULUS - 2, [1]), Segment(MODULUS - 1, [2]), Segment(0, [3])];
    NothingDeleted(buf, a);
    assert ACROSS[..4] == ACROSS[..3] + [GotAck(a)] && ACROSS[..5] == ACROSS[..4] + [GotAck(a)];
    assert ACROSS[..6] == ACROSS[..5] + [GotAck(a)];
    AfterMore(c, ACROSS[..3], GotAck(a));
    AfterMore(c, ACROSS[..4], GotAck(a));
    AfterMore(c, ACROSS[..5], GotAck(a));
    ThirdDuplicateEnters(INITIAL, a, a, a, 1);
  }

  /** A whole run from a fresh socket that leaves recovery early: the recovery point 1 lies beyond
      the wrap-around, so the ACK for the first of three packets passes for a later one, and the
      other two are below the point and unacknowledged. */
  lemma {:induction false} RecoveryLeftEarly()
    ensures AfterEvents(Wrapped, Fresh(MODULUS - 2), ACROSS[..6]).reno.state.Recovery?
    ensures AfterEvents(Wrapped, Fresh(MODULUS - 2), ACROSS[..6]).reno.recoveryPoint == 1
    ensures var d := AfterEvents(Wrapped, Fresh(MODULUS - 2), ACROSS);
            && d.reno.state.Open?
            && d.snd.sendBuf == [Segment(MODULUS - 1, [2]), Segment(0, [3])]
            && forall x :: x in d.snd.sendBuf ==> LessThan(x.pos, 1)
  {
    ThreeDuplicates();
    assert ACROSS == ACROSS[..6] + [GotAck(MODULUS - 1)];
    AfterMore(Fresh(MODULUS - 2), ACROSS[..6], GotAck(MODULUS - 1));
    var d := AfterEvents(Wrapped, Fresh(MODULUS - 2), ACROSS[..6]);
    HeadDeleted(d.snd.sendBuf, MODULUS - 1);
    EndsByComparison(Wrapped, d, MODULUS - 1);
  }

  /** In recovery up to the last position before the wrap-around, with everything acknowledged and
      the next position `k` beyond it. */
  ghost predicate Overstaying(c: Controlled, k: nat)
  {
    && Consistent(c.reno) && c.reno.state.Recovery? && c.reno.recoveryPoint == MODULUS - 1
    && c.snd.sendBuf == [] && c.snd.sndNxt == k < MODULUS - 2
  }

  /** A byte sent and acknowledged leaves it so: the ACK is a small word, the point a great one. */
  lemma OneMoreAbsorbed(c: Controlled, k: nat)
    requires Overstaying(c, k) && k + 1 < MODULUS - 2
    ensures var p := Advance(Wrapped, c, Pushed([0]));
            && p.reno.state.Recovery? && NewAck(Wrapped, p, k + 1)
            && Overstaying(Advance(Wrapped, p, GotAck(k + 1)), k + 1)
  {
    var p := Advance(Wrapped, c, Pushed([0]));
    assert p.snd.sendBuf == [Segment(k, [0])];
    ComparisonsAgree(k, k + 1);
    assert Wrap(k) == k && Wrap(k + 1) == k + 1 && LessThan(k, k + 1);
    assert DeleteAcked(Wrapped, p.snd.sendBuf, k + 1) == DeleteAcked(Wrapped, [], k + 1) == [];
  }

  lemma {:induction false} Absorbs(c: Controlled, k: nat, n: nat) returns (es: seq<Event>)
    requires Overstaying(c, k) && k + n < MODULUS - 2
    ensures StaysInRecovery(Wrapped, c, es) && NewAcks(Wrapped, c, es) == n
    decreases n
  {
    es := [];
    if n > 0 {
      OneMoreAbsorbed(c, k);
      var p := Advance(Wrapped, c, Pushed([0]));
      var d := Advance(Wrapped, p, GotAck(k + 1));
      var rest := Absorbs(d, k + 1, n - 1);
      es := [Pushed([0]), GotAck(k + 1)] + rest;
      assert es[1..][1..] == rest && es[1..][0] == GotAck(k + 1) && es[0] == Pushed([0]);
      assert StaysInRecovery(Wrapped, p, es[1..]);
    }
  }

  /** Two packets of one byte before the last position, duplicate ACKs for the first, one packet
      more, and an ACK for all. */
  const PAST: seq<Event> :=
    [Pushed([1]), Pushed([2]), GotAck(MODULUS - 3), GotAck(MODULUS - 3), GotAck(MODULUS - 3), Pushed([3]), GotAck(0)]

  lemma PastStarts()
    ensures var d := AfterEvents(Wrapped, Fresh(MODULUS - 3), PAST[..5]);
            && d.snd.sendBuf == [Segment(MODULUS - 3, [1]), Segment(MODULUS - 2, [2])] && d.snd.sndNxt == MODULUS - 1
            && d.reno.state.Recovery? && d.reno.recoveryPoint == MODULUS - 1
  {
    var c, a := Fresh(MODULUS - 3), MODULUS - 3;
    assert PAST[..0] == [] && PAST[..1] == PAST[..0] + [PAST[0]] && PAST[..2] == PAST[..1] + [PAST[1]];
    AfterMore(c, PAST[..0], PAST[0]);
    AfterMore(c, PAST[..1], PAST[1]);
    var buf := [Segment(MODULUS - 3, [1]), Segment(MODULUS - 2, [2])];
    assert AfterEvents(Wrapped, c, PAST[..2]).snd.sendBuf == buf;
    NothingDeleted(buf, a);
    assert PAST[..3] == PAST[..2] + [GotAck(a)] && PAST[..4] == PAST[..3] + [GotAck(a)];
    assert PAST[..5] == PAST[..4] + [GotAck(a)];
    AfterMore(c, PAST[..2], GotAck(a));
    AfterMore(c, PAST[..3], GotAck(a));
    AfterMore(c, PAST[..4], GotAck(a));
  }

  lemma AllDeleted(buf: seq<Segment>, ack: int)
    requires forall i :: 0 <= i < |buf| ==> LessThan(buf[i].pos, ack)
    ensures DeleteAcked(Wrapped, buf, ack) == []
  {
    if buf != [] { AllDeleted(buf[1..], ack); }
  }

  lemma PastGoesOn()
    ensures Overstaying(AfterEvents(Wrapped, Fresh(MODULUS - 3), PAST), 0)
  {
    var c := Fresh(MODULUS - 3);
    PastStarts();
    assert PAST[..6] == PAST[..5] + [Pushed([3])] && PAST == PAST[..6] + [GotAck(0)];
    AfterMore(c, PAST[..5], Pushed([3]));
    AfterMore(c, PAST[..6], GotAck(0));
    var d := AfterEvents(Wrapped, c, PAST[..6]);
    assert d.snd.sendBuf == [Segment(MODULUS - 3, [1]), Segment(MODULUS - 2, [2]), Segment(MODULUS - 1, [3])];
    AllDeleted(d.snd.sendBuf, 0);
  }

  /** A run from a fresh socket whose recovery episode outstays everything: it begins with two
      segments outstanding and its point just below the wrap-around; an ACK for all of them jumps
      past it unnoticed; and then it absorbs as many new ACKs as one likes. */
  lemma {:induction false} RecoveryOverstays(n: nat) returns (es: seq<Event>)
    requires n < MODULUS - 2
    ensures var d := AfterEvents(Wrapped, Fresh(MODULUS - 3), PAST[..5]);
            d.reno.state.Recovery? && |d.snd.sendBuf| == 2
    ensures AfterEvents(Wrapped, Fresh(MODULUS - 3), PAST).snd.sendBuf == []
    ensures StaysInRecovery(Wrapped, AfterEvents(Wrapped, Fresh(MODULUS - 3), PAST), es)
    ensures NewAcks(Wrapped, AfterEvents(Wrapped, Fresh(MODULUS - 3), PAST), es) == n
  {
    PastStarts();
    PastGoesOn();
    es := Absorbs(AfterEvents(Wrapped, Fresh(MODULUS - 3), PAST), 0, n);
  }
}
