/** The two-party system with a NewReno sender: what the congestion states rely on holds in every
    run, and on 32-bit numbers too. */
module Sessions {
  import opened Seq32
  import opened Endpoints
  import opened Wraparound
  import P = Progress
  import T = Transfer
  import R = NewReno
  import E = Episodes
  import W = Wire

  datatype Session = Session(z: W.Wires, reno: R.Reno)

  /** A step of either end or of the network; an acknowledgement processed, with what the sender
      resends for it; the timer, with the head resent. */
  datatype Act = Move(m: W.Move) | Acked(i: nat) | Expired

  function Sending(s: Session): R.Controlled { R.Controlled(s.reno, s.z.snd) }

  function Start(iss: int, capacity: nat): Session
  {
    Session(W.Start(iss, capacity), R.INITIAL)
  }

  predicate Can(s: Session, a: Act)
  {
    match a
    case Move(m) => !m.TakeAck? && !m.Resend? && W.Able(s.z, m)
    case Acked(i) => i < |s.z.acks|
    case Expired => true
  }

  function WithHead(z: W.Wires, resend: bool): W.Wires
  {
    if resend && z.snd.sendBuf != [] then W.Go(Unbounded, z, W.Resend) else z
  }

  /** The event that the congestion states see, if any. */
  function EventsOf(s: Session, a: Act): seq<R.Event>
    requires Can(s, a)
  {
    match a
    case Move(m) => if m.Write? then [R.Pushed(m.bytes)] else []
    case Acked(i) => [R.GotAck(s.z.acks[i])]
    case Expired => [R.Timeout]
  }

  predicate Resends(ar: Arith, s: Session, a: Act)
    requires Can(s, a)
  {
    match a
    case Move(_) => false
    case Acked(i) => R.Resends(s.reno, R.NewAck(ar, Sending(s), s.z.acks[i]), s.z.acks[i])
    case Expired => true
  }

  function Moved(ar: Arith, z: W.Wires, a: Act): W.Wires
    requires a.Move? ==> W.Able(z, a.m)
    requires a.Acked? ==> a.i < |z.acks|
  {
    match a
    case Move(m) => W.Go(ar, z, m)
    case Acked(i) => W.Go(ar, z, W.TakeAck(i))
    case Expired => z
  }

  function Step(ar: Arith, s: Session, a: Act): (t: Session)
    requires Can(s, a) && R.Consistent(s.reno)
    ensures R.Consistent(t.reno)
  {
    var reno := if EventsOf(s, a) == [] then s.reno else R.Advance(ar, Sending(s), EventsOf(s, a)[0]).reno;
    Session(WithHead(Moved(ar, s.z, a), Resends(ar, s, a)), reno)
  }

  /** The congestion states and the sender move together. */
  lemma StepAdvances(ar: Arith, s: Session, a: Act)
    requires Can(s, a) && R.Consistent(s.reno)
    ensures Sending(Step(ar, s, a)) ==
              if EventsOf(s, a) == [] then Sending(s) else R.Advance(ar, Sending(s), EventsOf(s, a)[0])
  {}

  // ------------------------------------------------------------------------- what is kept

  /** In an episode the point is not beyond what was sent. */
  predicate PointSent(s: Session)
  {
    s.reno.state.Loss? || s.reno.state.Recovery? ==> R.Point(s.reno) <= s.z.snd.sndNxt
  }

  ghost predicate Tied(s: Session, t: T.State, u: nat, r: nat)
  {
    W.Shows(s.z, t) && T.Linked(t, u, r) && P.Queued(t.rcv) && R.Consistent(s.reno) && PointSent(s)
  }

  ghost predicate Backed(z: W.Wires, t: T.State, u: nat, r: nat)
  {
    W.Shows(z, t) && T.Linked(t, u, r) && P.Queued(t.rcv)
  }

  lemma BackedAfterMove(z: W.Wires, t: T.State, m: W.Move, u: nat, r: nat) returns (t': T.State, u': nat, r': nat)
    requires Backed(z, t, u, r) && W.Able(z, m)
    ensures Backed(W.Go(Unbounded, z, m), t', u', r')
  {
    W.ShowsNext(z, t, m);
    t' := T.Next(t, W.StepOf(z, m));
    P.QueuedAfterStep(t, W.StepOf(z, m), u, r);
    u', r' := T.LinkedAfterStep(t, W.StepOf(z, m), u, r);
  }

  lemma PointStaysSent(s: Session, a: Act)
    requires Can(s, a) && R.Consistent(s.reno) && PointSent(s)
    ensures PointSent(Step(Unbounded, s, a))
  {
    StepAdvances(Unbounded, s, a);
  }

  lemma {:induction false} TiedAfterStep(s: Session, t: T.State, a: Act, u: nat, r: nat)
      returns (t': T.State, u': nat, r': nat)
    requires Tied(s, t, u, r) && Can(s, a)
    ensures Tied(Step(Unbounded, s, a), t', u', r')
  {
    PointStaysSent(s, a);
    t', u', r' := t, u, r;
    if !a.Expired? {
      t', u', r' := BackedAfterMove(s.z, t, if a.Move? then a.m else W.TakeAck(a.i), u, r);
    }
    var z := Moved(Unbounded, s.z, a);
    if Resends(Unbounded, s, a) && z.snd.sendBuf != [] {
      t', u', r' := BackedAfterMove(z, t', W.Resend, u', r');
    }
  }

  ghost predicate Run(ar: Arith, s: Session, acts: seq<Act>)
    requires R.Consistent(s.reno)
    decreases |acts|
  {
    acts == [] || (Can(s, acts[0]) && Run(ar, Step(ar, s, acts[0]), acts[1..]))
  }

  ghost function End(ar: Arith, s: Session, acts: seq<Act>): (t: Session)
    requires R.Consistent(s.reno) && Run(ar, s, acts)
    ensures R.Consistent(t.reno)
    decreases |acts|
  {
    if acts == [] then s else End(ar, Step(ar, s, acts[0]), acts[1..])
  }

  lemma {:induction false} TiedAfterRun(s: Session, t: T.State, acts: seq<Act>, u: nat, r: nat)
      returns (t': T.State, u': nat, r': nat)
    requires Tied(s, t, u, r) && Run(Unbounded, s, acts)
    ensures Tied(End(Unbounded, s, acts), t', u', r')
    decreases |acts|
  {
    t', u', r' := t, u, r;
    if acts != [] {
      t', u', r' := TiedAfterStep(s, t, acts[0], u, r);
      t', u', r' := TiedAfterRun(Step(Unbounded, s, acts[0]), t', acts[1..], u', r');
    }
  }

  lemma StartIsTied(iss: int, capacity: nat)
    ensures Tied(Start(iss, capacity), T.Init(iss, capacity), 0, 0)
  {}

  // ----------------------------------------------------------------- episodes in whole runs

  /** Nothing below the point of the episode is left. */
  ghost predicate NoneBelow(buf: seq<Segment>, point: int)
  {
    forall x :: x in buf ==> point <= x.pos
  }

  lemma EpisodeEnds(s: Session, t: T.State, i: nat, u: nat, r: nat)
    requires Tied(s, t, u, r) && i < |s.z.acks| && (s.reno.state.Loss? || s.reno.state.Recovery?)
    ensures var d := Step(Unbounded, s, Acked(i));
            d.reno.state.Open? <==>
              R.NewAck(Unbounded, Sending(s), s.z.acks[i]) && NoneBelow(d.z.snd.sendBuf, R.Point(s.reno))
  {
    var a := s.z.acks[i];
    assert a in multiset(s.z.acks);
    assert T.BoundaryUpTo(t, a, r);
    var k: nat :| k <= r && a == T.Bound(t.iss, t.sent, k);
    R.EpisodeEndsExactly(Sending(s), t.iss, t.sent, u, k);
    StepAdvances(Unbounded, s, Acked(i));
  }

  /** In every run of the two ends over a network that loses, reorders and duplicates, with the
      sender's timer going off at any time: an acknowledgement that arrives during loss or recovery
      ends it if and only if it is new and leaves nothing below the recorded point. */
  lemma {:induction false} EpisodesEndExactly(iss: int, capacity: nat, acts: seq<Act>, i: nat)
    requires Run(Unbounded, Start(iss, capacity), acts)
    requires i < |End(Unbounded, Start(iss, capacity), acts).z.acks|
    requires var s := End(Unbounded, Start(iss, capacity), acts); s.reno.state.Loss? || s.reno.state.Recovery?
    ensures var s := End(Unbounded, Start(iss, capacity), acts);
            var d := Step(Unbounded, s, Acked(i));
            d.reno.state.Open? <==>
              R.NewAck(Unbounded, Sending(s), s.z.acks[i]) && NoneBelow(d.z.snd.sendBuf, R.Point(s.reno))
  {
    StartIsTied(iss, capacity);
    var t, u, r := TiedAfterRun(Start(iss, capacity), T.Init(iss, capacity), acts, 0, 0);
    EpisodeEnds(End(Unbounded, Start(iss, capacity), acts), t, i, u, r);
  }

  // ------------------------------------------------------------------ what is sent again

  /** The oldest unacknowledged packet: it starts where the bytes not yet acknowledged start, and
      carries the first of them. */
  ghost predicate IsOldest(z: W.Wires, x: Segment)
  {
    var left := |T.Concat(z.snd.sendBuf)|;
    && x.pos == z.snd.sndNxt - left && left <= |z.written|
    && x.data != [] && x.data <= z.written[|z.written| - left..] && x.pos <= z.rcv.rcvNxt
  }

  lemma HeadIsOldest(s: Session, t: T.State, u: nat, r: nat)
    requires Tied(s, t, u, r) && s.z.snd.sendBuf != []
    ensures IsOldest(s.z, s.z.snd.sendBuf[0])
  {
    assert T.Placed(t.iss, t.sent, u);
    T.SuffixEnds(t.iss, t.sent, u);
    T.PositionIsIndex(t.iss, t.sent, u, r);
    assert t.sent == t.sent[..u] + t.sent[u..];
    T.ConcatBoth(t.sent[..u], t.sent[u..]);
    T.ConcatFirst(t.sent[u..]);
  }

  /** When something goes out again: on each timeout, on entering recovery and on each new
      acknowledgement that stays in it, if anything is unacknowledged. */
  predicate Again(s: Session, a: Act, d: Session)
  {
    d.z.snd.sendBuf != [] &&
    (a.Expired? ||
     (d.reno.state.Recovery? && (!s.reno.state.Recovery? || |d.z.snd.sendBuf| < |s.z.snd.sendBuf|)))
  }

  lemma HeadGoesAgain(ar: Arith, s: Session, a: Act)
    requires Can(s, a) && !a.Move? && R.Consistent(s.reno)
    ensures var d := Step(ar, s, a);
            d.z.data == if Again(s, a, d) then s.z.data + [d.z.snd.sendBuf[0]] else s.z.data
  {
    StepAdvances(ar, s, a);
    if a.Acked? { R.ResendsExactly(s.reno, R.NewAck(ar, Sending(s), s.z.acks[a.i]), s.z.acks[a.i], s.z.snd.sndNxt); }
  }

  /** In every run, when the timer goes off or an acknowledgement arrives: what goes out again, if
      anything, is the oldest unacknowledged packet. */
  lemma {:induction false} ResendsOldest(iss: int, capacity: nat, acts: seq<Act>, a: Act)
    requires Run(Unbounded, Start(iss, capacity), acts)
    requires !a.Move? && Can(End(Unbounded, Start(iss, capacity), acts), a)
    ensures var s := End(Unbounded, Start(iss, capacity), acts);
            var d := Step(Unbounded, s, a);
            if Again(s, a, d) then exists x :: d.z.data == s.z.data + [x] && IsOldest(d.z, x)
            else d.z.data == s.z.data
  {
    var s := End(Unbounded, Start(iss, capacity), acts);
    StartIsTied(iss, capacity);
    var t, u, r := TiedAfterRun(Start(iss, capacity), T.Init(iss, capacity), acts, 0, 0);
    t, u, r := TiedAfterStep(s, t, a, u, r);
    HeadGoesAgain(Unbounded, s, a);
    var d := Step(Unbounded, s, a);
    if Again(s, a, d) { HeadIsOldest(d, t, u, r); }
  }

  // --------------------------------------------------------------------- on 32-bit numbers

  function WrapSession(s: Session): Session
  {
    Session(W.WrapWires(s.z), E.WrapControlled(Sending(s)).reno)
  }

  /** The acknowledgement is of the same turn as the episode's point, and all is timely. */
  ghost predicate Timely(s: Session, a: Act)
    requires Can(s, a)
  {
    match a
    case Move(m) => W.Timely(s.z, m)
    case Acked(i) =>
      && W.Timely(s.z, W.TakeAck(i))
      && (s.reno.state.Loss? || s.reno.state.Recovery? ==> s.z.acks[i] / MODULUS == R.Point(s.reno) / MODULUS)
    case Expired => true
  }

  lemma HeadWraps(z: W.Wires, resend: bool)
    ensures WithHead(W.WrapWires(z), resend) == W.WrapWires(WithHead(z, resend))
  {
    if resend && z.snd.sendBuf != [] { W.QueueAppend(z.data, z.snd.sendBuf[0]); }
  }

  lemma AckWraps(s: Session, i: nat)
    requires i < |s.z.acks| && R.Consistent(s.reno) && W.MoveNear(s.z, W.TakeAck(i)) && Timely(s, Acked(i))
    ensures Step(Wrapped, WrapSession(s), Acked(i)) == WrapSession(Step(Unbounded, s, Acked(i)))
  {
    var c, a := Sending(s), s.z.acks[i];
    E.AdvanceWrapped(c, R.GotAck(a));
    W.WrapsAck(s.z, i);
    SameResend(s, i);
    HeadWraps(Moved(Unbounded, s.z, Acked(i)), Resends(Unbounded, s, Acked(i)));
  }

  lemma SameResend(s: Session, i: nat)
    requires i < |s.z.acks| && R.Consistent(s.reno) && W.MoveNear(s.z, W.TakeAck(i)) && Timely(s, Acked(i))
    ensures Resends(Wrapped, WrapSession(s), Acked(i)) <==> Resends(Unbounded, s, Acked(i))
  {
    E.NewAckWrapped(Sending(s), s.z.acks[i]);
    if s.reno.state.Recovery? { E.SameTurnCompares(s.z.acks[i], R.Point(s.reno)); }
  }

  lemma MoveWraps(s: Session, m: W.Move)
    requires Can(s, Move(m)) && R.Consistent(s.reno) && W.MoveNear(s.z, m)
    ensures Can(WrapSession(s), Move(m))
    ensures Step(Wrapped, WrapSession(s), Move(m)) == WrapSession(Step(Unbounded, s, Move(m)))
  {
    W.WrapsNext(s.z, m);
    if m.Write? { E.AdvanceWrapped(Sending(s), R.Pushed(m.bytes)); }
  }

  lemma ExpiryWraps(s: Session)
    requires R.Consistent(s.reno)
    ensures Step(Wrapped, WrapSession(s), Expired) == WrapSession(Step(Unbounded, s, Expired))
  {
    E.AdvanceWrapped(Sending(s), R.Timeout);
    HeadWraps(s.z, true);
  }

  lemma {:induction false} StepWraps(s: Session, t: T.State, a: Act, u: nat, r: nat)
    requires Tied(s, t, u, r) && Can(s, a) && Timely(s, a)
    ensures Can(WrapSession(s), a) && Step(Wrapped, WrapSession(s), a) == WrapSession(Step(Unbounded, s, a))
  {
    match a
    case Move(m) =>
      W.TimelyIsNear(s.z, t, m, u, r);
      MoveWraps(s, m);
    case Acked(i) =>
      W.TimelyIsNear(s.z, t, W.TakeAck(i), u, r);
      AckWraps(s, i);
    case Expired => ExpiryWraps(s);
  }

  ghost predicate TimelyRun(s: Session, acts: seq<Act>)
    requires R.Consistent(s.reno)
    decreases |acts|
  {
    acts == [] || (Can(s, acts[0]) && Timely(s, acts[0]) && TimelyRun(Step(Unbounded, s, acts[0]), acts[1..]))
  }

  lemma {:induction false} RunWraps(s: Session, t: T.State, acts: seq<Act>, u: nat, r: nat)
    requires Tied(s, t, u, r) && TimelyRun(s, acts)
    ensures Run(Unbounded, s, acts) && Run(Wrapped, WrapSession(s), acts)
    ensures End(Wrapped, WrapSession(s), acts) == WrapSession(End(Unbounded, s, acts))
    decreases |acts|
  {
    if acts != [] {
      StepWraps(s, t, acts[0], u, r);
      var t', u', r' := TiedAfterStep(s, t, acts[0], u, r);
      RunWraps(Step(Unbounded, s, acts[0]), t', acts[1..], u', r');
    }
  }

  /** On 32-bit numbers, from any first sequence number and across any number of wrap-arounds, the
      two ends with their NewReno sender deliver exactly what is written and leave loss and recovery
      when they should, as long as the packets are timely and no acknowledgement that arrives in an
      episode is of another turn than its point. */
  lemma {:induction false} Sessions32(iss: int, capacity: nat, acts: seq<Act>)
    requires TimelyRun(Start(iss, capacity), acts)
    ensures Run(Unbounded, Start(iss, capacity), acts) && Run(Wrapped, Start(Wrap(iss), capacity), acts)
    ensures var s := End(Wrapped, Start(Wrap(iss), capacity), acts);
            && s == WrapSession(End(Unbounded, Start(iss, capacity), acts))
            && s.z.got <= s.z.written
            && (s.z.snd.sendBuf == [] ==> s.z.got + s.z.rcv.ring + T.Pending(s.z.rcv) == s.z.written)
  {
    var first := Start(iss, capacity);
    StartIsTied(iss, capacity);
    assert WrapSession(first) == Start(Wrap(iss), capacity);
    RunWraps(first, T.Init(iss, capacity), acts, 0, 0);
    var t, u, r := TiedAfterRun(first, T.Init(iss, capacity), acts, 0, 0);
    W.LinkedDelivers(t, u, r);
    W.SamePending(End(Unbounded, first, acts).z.rcv);
  }

  // ----------------------------------------------------------- an episode across the wrap-around

  ghost predicate Reaches(s: Session, acts: seq<Act>, t: Session)
    requires R.Consistent(s.reno)
  {
    Run(Wrapped, s, acts) && End(Wrapped, s, acts) == t
  }

  lemma {:induction false} Then(s: Session, acts: seq<Act>, t: Session, a: Act) returns (more: seq<Act>)
    requires R.Consistent(s.reno) && Reaches(s, acts, t) && Can(t, a)
    ensures R.Consistent(t.reno) && Reaches(s, more, Step(Wrapped, t, a))
    decreases |acts|
  {
    if acts == [] {
      more := [a];
    } else {
      var rest := Then(Step(Wrapped, s, acts[0]), acts[1..], t, a);
      more := [acts[0]] + rest;
    }
  }

  const S0 := Segment(MODULUS - 3, [1])
  const S1 := Segment(MODULUS - 2, [2])
  const S2 := Segment(MODULUS - 1, [3])
  const S3 := Segment(0, [4])

  lemma FourWritten(capacity: nat) returns (acts: seq<Act>, t: Session)
    ensures Reaches(Start(MODULUS - 3, capacity), acts, t) && t.reno == R.INITIAL
    ensures t.z == W.Wires(Sender(1, MODULUS - 3, [S0, S1, S2, S3]), Receiver(MODULUS - 3, [], [], capacity, Idle),
                           [S0, S1, S2, S3], [], [1, 2, 3, 4], [])
  {
    var s := Start(MODULUS - 3, capacity);
    assert Reaches(s, [], s);
    acts := Then(s, [], s, Move(W.Write([1])));
    t := Step(Wrapped, s, Move(W.Write([1])));
    assert t.z.snd == Sender(MODULUS - 2, MODULUS - 3, [S0]) && t.z.data == [S0] && t.z.written == [1];
    acts := Then(s, acts, t, Move(W.Write([2])));
    t := Step(Wrapped, t, Move(W.Write([2])));
    assert t.z.snd == Sender(MODULUS - 1, MODULUS - 3, [S0, S1]) && t.z.data == [S0, S1] && t.z.written == [1, 2];
    acts := Then(s, acts, t, Move(W.Write([3])));
    t := Step(Wrapped, t, Move(W.Write([3])));
    assert t.z.snd == Sender(0, MODULUS - 3, [S0, S1, S2]) && t.z.data == [S0, S1, S2] && t.z.written == [1, 2, 3];
    acts := Then(s, acts, t, Move(W.Write([4])));
    t := Step(Wrapped, t, Move(W.Write([4])));
  }

  /** The packet at the head of the wire, next in the stream, is received, acknowledged and stored. */
  lemma NextReceived(s: Session, acts: seq<Act>, t: Session, seg: Segment, rest: seq<Segment>)
      returns (more: seq<Act>, t': Session)
    requires R.Consistent(s.reno) && Reaches(s, acts, t) && t.z.data == [seg] + rest && t.z.acks == []
    requires t.z.rcv.phase.Idle? && t.z.rcv.ofo == [] && t.z.rcv.rcvNxt == seg.pos
    requires 0 < |seg.data| && |t.z.rcv.ring| + |seg.data| <= t.z.rcv.capacity && Wrap(seg.pos) == seg.pos
    ensures Reaches(s, more, t') && t'.reno == t.reno
    ensures var next := Wrap(seg.pos + |seg.data|);
            t'.z == t.z.(data := rest, acks := [next],
                         rcv := t.z.rcv.(rcvNxt := next, ring := t.z.rcv.ring + seg.data))
  {
    DifferenceIsCongruent(seg.pos, seg.pos);
    ComparisonsAgree(seg.pos, seg.pos);
    var next := Wrap(seg.pos + |seg.data|);
    more := Then(s, acts, t, Move(W.TakeData(0)));
    t' := Step(Wrapped, t, Move(W.TakeData(0)));
    assert t'.z == t.z.(data := rest, rcv := t.z.rcv.(ofo := [seg], phase := Draining));
    more := Then(s, more, t', Move(W.Work(Drain)));
    t' := Step(Wrapped, t', Move(W.Work(Drain)));
    assert t'.z == t.z.(data := rest, acks := [next], rcv := t.z.rcv.(rcvNxt := next, ofo := [seg], phase := Waiting));
    more := Then(s, more, t', Move(W.Work(Store)));
    t' := Step(Wrapped, t', Move(W.Work(Store)));
    assert t'.z == t.z.(data := rest, acks := [next],
                        rcv := t.z.rcv.(rcvNxt := next, ofo := [], ring := t.z.rcv.ring + seg.data, phase := Draining));
    more := Then(s, more, t', Move(W.Work(Drain)));
    t' := Step(Wrapped, t', Move(W.Work(Drain)));
  }

  /** The network makes four of the acknowledgement. */
  lemma AckCopied(s: Session, acts: seq<Act>, t: Session, a: int) returns (more: seq<Act>, t': Session)
    requires R.Consistent(s.reno) && Reaches(s, acts, t) && t.z.acks == [a]
    ensures Reaches(s, more, t') && t' == t.(z := t.z.(acks := [a, a, a, a]))
  {
    more := Then(s, acts, t, Move(W.CopyAck(0)));
    t' := Step(Wrapped, t, Move(W.CopyAck(0)));
    assert t' == t.(z := t.z.(acks := [a, a]));
    more := Then(s, more, t', Move(W.CopyAck(0)));
    t' := Step(Wrapped, t', Move(W.CopyAck(0)));
    assert t' == t.(z := t.z.(acks := [a, a, a]));
    more := Then(s, more, t', Move(W.CopyAck(0)));
    t' := Step(Wrapped, t', Move(W.CopyAck(0)));
  }

  lemma FirstAcked(s: Session, acts: seq<Act>, t: Session) returns (more: seq<Act>, t': Session)
    requires R.Consistent(s.reno) && Reaches(s, acts, t) && t.reno == R.INITIAL
    requires t.z.snd == Sender(1, MODULUS - 3, [S0, S1, S2, S3])
    requires t.z.acks == [MODULUS - 2, MODULUS - 2, MODULUS - 2, MODULUS - 2]
    ensures R.Consistent(t'.reno) && Reaches(s, more, t') && t'.reno.state.Open?
    ensures t'.z == t.z.(snd := Sender(1, MODULUS - 2, [S1, S2, S3]), acks := [MODULUS - 2, MODULUS - 2, MODULUS - 2])
  {
    E.HeadDeleted(t.z.snd.sendBuf, MODULUS - 2);
    more := Then(s, acts, t, Acked(0));
    t' := Step(Wrapped, t, Acked(0));
  }

  ghost predicate NoneOlder(buf: seq<Segment>, a: int)
  {
    forall i :: 0 <= i < |buf| ==> !LessThan(buf[i].pos, a)
  }

  /** A duplicate: nothing is deleted. */
  lemma Duplicate(s: Session, acts: seq<Act>, t: Session, a: int, rest: seq<int>) returns (more: seq<Act>, t': Session)
    requires R.Consistent(s.reno) && R.Consistent(t.reno) && Reaches(s, acts, t) && t.z.acks == [a] + rest
    requires NoneOlder(t.z.snd.sendBuf, a)
    ensures R.Consistent(t'.reno) && Reaches(s, more, t')
    ensures t'.reno == R.OnAck(t.reno, false, a, t.z.snd.sndNxt)
    ensures t'.z == WithHead(t.z.(snd := t.z.snd.(sndUna := a), acks := rest), R.Resends(t.reno, false, a))
  {
    E.NothingDeleted(t.z.snd.sendBuf, a);
    more := Then(s, acts, t, Acked(0));
    t' := Step(Wrapped, t, Acked(0));
  }

  lemma TwoDuplicates(s: Session, acts: seq<Act>, t: Session, a: int) returns (more: seq<Act>, t': Session)
    requires R.Consistent(s.reno) && R.Consistent(t.reno) && Reaches(s, acts, t) && t.reno.state.Open?
    requires NoneOlder(t.z.snd.sendBuf, a) && t.z.snd.sndUna == a && t.z.acks == [a, a, a]
    ensures R.Consistent(t'.reno) && Reaches(s, more, t') && t'.z == t.z.(acks := [a])
    ensures t'.reno == R.OnAck(R.OnAck(t.reno, false, a, t.z.snd.sndNxt), false, a, t.z.snd.sndNxt)
  {
    R.ThirdDuplicateEnters(t.reno, a, a, a, t.z.snd.sndNxt);
    more, t' := Duplicate(s, acts, t, a, [a, a]);
    assert t'.z == t.z.(acks := [a, a]) && t'.z.acks == [a] + [a];
    more, t' := Duplicate(s, more, t', a, [a]);
  }

  lemma NoneOlderLeft()
    ensures NoneOlder([S1, S2, S3], MODULUS - 2)
  {}

  lemma ThreeDuplicates(s: Session, acts: seq<Act>, t: Session) returns (more: seq<Act>, t': Session)
    requires R.Consistent(s.reno) && R.Consistent(t.reno) && Reaches(s, acts, t) && t.reno.state.Open?
    requires t.z.snd == Sender(1, MODULUS - 2, [S1, S2, S3]) && t.z.data == [S1, S2, S3]
    requires t.z.acks == [MODULUS - 2, MODULUS - 2, MODULUS - 2]
    ensures R.Consistent(t'.reno) && Reaches(s, more, t')
    ensures t'.reno.state.Recovery? && t'.reno.recoveryPoint == 1
    ensures t'.z == t.z.(acks := [], data := [S1, S2, S3, S1])
  {
    var a := MODULUS - 2;
    R.ThirdDuplicateEnters(t.reno, a, a, a, 1);
    NoneOlderLeft();
    more, t' := TwoDuplicates(s, acts, t, a);
    assert t'.z.acks == [a] + [];
    more, t' := Duplicate(s, more, t', a, []);
    assert t'.z == t.z.(acks := [], data := [S1, S2, S3] + [S1]);
  }

  /** A run of both ends on 32-bit numbers, the receiver sending all its acknowledgements and the
      network repeating one, that leaves recovery early: of the four packets written two are
      unacknowledged and below the recovery point, which lies beyond the wrap-around. */
  lemma {:induction false} SessionLeavesEarly(capacity: nat) returns (acts: seq<Act>, s: Session)
    requires 2 <= capacity
    ensures Reaches(Start(MODULUS - 3, capacity), acts, s) && R.Consistent(s.reno) && Can(s, Acked(0))
    ensures s.reno.state.Recovery? && s.reno.recoveryPoint == 1
    ensures var d := Step(Wrapped, s, Acked(0));
            d.reno.state.Open? && d.z.snd.sendBuf == [S2, S3] && LessThan(S2.pos, 1) && LessThan(S3.pos, 1)
  {
    var first := Start(MODULUS - 3, capacity);
    acts, s := FourWritten(capacity);
    assert s.z.data == [S0] + [S1, S2, S3];
    acts, s := NextReceived(first, acts, s, S0, [S1, S2, S3]);
    acts, s := AckCopied(first, acts, s, MODULUS - 2);
    acts, s := FirstAcked(first, acts, s);
    acts, s := ThreeDuplicates(first, acts, s);
    assert s.z.data == [S1] + [S2, S3, S1];
    acts, s := NextReceived(first, acts, s, S1, [S2, S3, S1]);
    EarlyExit(s);
  }

  lemma EarlyExit(s: Session)
    requires R.Consistent(s.reno) && s.reno.state.Recovery? && s.reno.recoveryPoint == 1
    requires s.z.snd.sendBuf == [S1, S2, S3] && s.z.acks == [MODULUS - 1]
    ensures var d := Step(Wrapped, s, Acked(0));
            d.reno.state.Open? && d.z.snd.sendBuf == [S2, S3] && LessThan(S2.pos, 1) && LessThan(S3.pos, 1)
  {
    E.HeadDeleted(s.z.snd.sendBuf, MODULUS - 1);
    E.EndsByComparison(Wrapped, Sending(s), MODULUS - 1);
    StepAdvances(Wrapped, s, Acked(0));
  }
}
