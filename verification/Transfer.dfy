/** The two ends of a connection in ESTABLISHED with data flowing one way: what each end
    keeps, and what one atomic step of either end does. Every operation takes the number
    system it computes in, so that the same definition serves the unbounded reading used to
    state the protocol's properties and the 32-bit reading the sockets run. */
module Endpoints {
  import opened Seq32

  /** Largest payload of one packet: 1514 less the Ethernet, IP and TCP headers. */
  const MSS := 1514 - 14 - 20 - 20

  /** A data packet, or an entry of `send_buf` or of `rcv_ofo_buf`. */
  datatype Segment = Segment(pos: int, data: seq<byte>)

  /** Where the thread that handles packets stands: ready for a packet; at the head of the
      loop that empties the out-of-order queue; or inside it, asleep until the ring has room
      for the queue's first entry, which is already acknowledged. */
  datatype Phase = Idle | Draining | Waiting

  datatype Receiver = Receiver(rcvNxt: int, ofo: seq<Segment>, ring: seq<byte>, capacity: nat, phase: Phase)
  {
    function Free(): int { capacity - |ring| }
  }

  /** What a receiver step emits: nothing, an ACK, or the early `return -1`. */
  datatype Output = Silent | Ack(ack: int) | Stuck

  datatype Reaction = Reaction(rcv: Receiver, out: Output)

  datatype ReceiverEvent = Arrive(seg: Segment) | Drain | Store | Read(n: nat)

  /** Sorted insertion into the out-of-order queue: before the first later entry. */
  function InsertOfo(ar: Arith, ofo: seq<Segment>, seg: Segment): seq<Segment>
  {
    if ofo == [] then [seg]
    else if ar.Less(seg.pos, ofo[0].pos) then [seg] + ofo
    else [ofo[0]] + InsertOfo(ar, ofo[1..], seg)
  }

  /** Guards: a packet is looked at only when the handler is ready and the ring not full. */
  predicate ReceiverEnabled(r: Receiver, e: ReceiverEvent)
  {
    match e
    case Arrive(_) => r.phase.Idle? && r.Free() > 0
    case Drain => r.phase.Draining?
    case Store => r.phase.Waiting? && r.ofo != [] && |r.ofo[0].data| <= r.Free()
    case Read(_) => r.ring != []
  }

  function Smaller(a: nat, b: nat): nat { if a < b then a else b }

  function ReadCount(r: Receiver, n: nat): nat { Smaller(|r.ring|, n) }

  function React(ar: Arith, r: Receiver, e: ReceiverEvent): Reaction
    requires ReceiverEnabled(r, e)
  {
    match e
    case Arrive(seg) =>
      if ar.Less(seg.pos, r.rcvNxt) then Reaction(r, Ack(r.rcvNxt))
      else Reaction(r.(ofo := InsertOfo(ar, r.ofo, seg), phase := Draining), Silent)
    case Drain =>
      if r.ofo == [] then Reaction(r.(phase := Idle), Silent)
      else if r.rcvNxt == r.ofo[0].pos then
        var next := ar.Plus(r.rcvNxt, |r.ofo[0].data|);
        Reaction(r.(rcvNxt := next, phase := Waiting), Ack(next))
      else if ar.Less(r.rcvNxt, r.ofo[0].pos) then Reaction(r.(phase := Idle), Silent)
      else Reaction(r.(phase := Idle), Stuck)
    case Store =>
      Reaction(r.(ring := r.ring + r.ofo[0].data, ofo := r.ofo[1..], phase := Draining), Silent)
    case Read(n) =>
      Reaction(r.(ring := r.ring[ReadCount(r, n)..]), Silent)
  }

  datatype Sender = Sender(sndNxt: int, sndUna: int, sendBuf: seq<Segment>)

  /** Every entry that starts before `ack` goes; the whole list is scanned. */
  function DeleteAcked(ar: Arith, buf: seq<Segment>, ack: int): seq<Segment>
  {
    if buf == [] then []
    else if ar.Less(buf[0].pos, ack) then DeleteAcked(ar, buf[1..], ack)
    else [buf[0]] + DeleteAcked(ar, buf[1..], ack)
  }

  /** Sequence assignment, and the copy kept until it is acknowledged. */
  function Push(ar: Arith, s: Sender, data: seq<byte>): Sender
  {
    s.(sndNxt := ar.Plus(s.sndNxt, |data|), sendBuf := s.sendBuf + [Segment(s.sndNxt, data)])
  }

  function AckIn(ar: Arith, s: Sender, ack: int): Sender
  {
    s.(sndUna := ack, sendBuf := DeleteAcked(ar, s.sendBuf, ack))
  }
}

/** The two-party step system over a network that loses, reorders and duplicates, and what
    holds in every state that it can reach. Positions here are unbounded. */
module Transfer {
  import opened Seq32
  import opened Endpoints

  /** `sent` lists every segment ever pushed and `got` every byte the application has read;
      both, and the highest acknowledgement processed, are history that no step consults. */
  datatype State = State(
    iss: int,
    snd: Sender,
    rcv: Receiver,
    data: multiset<Segment>,
    acks: multiset<int>,
    sent: seq<Segment>,
    got: seq<byte>,
    hiAck: int)

  datatype Step =
    | Send(bytes: seq<byte>)
    | Retransmit
    | RecvAck(ack: int)
    | RecvData(seg: Segment)
    | Receive(e: ReceiverEvent)
    | LoseData(seg: Segment)
    | LoseAck(ack: int)
    | DuplicateData(seg: Segment)
    | DuplicateAck(ack: int)

  function Init(iss: int, capacity: nat): State
  {
    State(iss, Sender(iss, iss, []), Receiver(iss, [], [], capacity, Idle),
          multiset{}, multiset{}, [], [], iss)
  }

  predicate Enabled(s: State, st: Step)
  {
    match st
    case Send(bytes) => 0 < |bytes| <= MSS
    case Retransmit => s.snd.sendBuf != []
    case RecvAck(a) => a in s.acks
    case RecvData(seg) => seg in s.data && ReceiverEnabled(s.rcv, Arrive(seg))
    case Receive(e) => !e.Arrive? && ReceiverEnabled(s.rcv, e)
    case LoseData(seg) => seg in s.data
    case LoseAck(a) => a in s.acks
    case DuplicateData(seg) => seg in s.data
    case DuplicateAck(a) => a in s.acks
  }

  function AddAck(acks: multiset<int>, out: Output): multiset<int>
  {
    if out.Ack? then acks + multiset{out.ack} else acks
  }

  /** One receiver event inside the whole system. */
  function Deliver(s: State, e: ReceiverEvent): State
    requires ReceiverEnabled(s.rcv, e)
  {
    var re := React(Unbounded, s.rcv, e);
    s.(rcv := re.rcv,
       acks := AddAck(s.acks, re.out),
       got := if e.Read? then s.got + s.rcv.ring[..ReadCount(s.rcv, e.n)] else s.got)
  }

  function Next(s: State, st: Step): State
    requires Enabled(s, st)
  {
    match st
    case Send(bytes) =>
      var seg := Segment(s.snd.sndNxt, bytes);
      s.(snd := Push(Unbounded, s.snd, bytes), data := s.data + multiset{seg}, sent := s.sent + [seg])
    case Retransmit => s.(data := s.data + multiset{s.snd.sendBuf[0]})
    case RecvAck(a) =>
      s.(snd := AckIn(Unbounded, s.snd, a), acks := s.acks - multiset{a},
         hiAck := if a > s.hiAck then a else s.hiAck)
    case RecvData(seg) => Deliver(s.(data := s.data - multiset{seg}), Arrive(seg))
    case Receive(e) => Deliver(s, e)
    case LoseData(seg) => s.(data := s.data - multiset{seg})
    case LoseAck(a) => s.(acks := s.acks - multiset{a})
    case DuplicateData(seg) => s.(data := s.data + multiset{seg})
    case DuplicateAck(a) => s.(acks := s.acks + multiset{a})
  }

  ghost predicate ValidRun(s: State, run: seq<Step>)
    decreases |run|
  {
    run == [] || (Enabled(s, run[0]) && ValidRun(Next(s, run[0]), run[1..]))
  }

  ghost function After(s: State, run: seq<Step>): State
    requires ValidRun(s, run)
    decreases |run|
  {
    if run == [] then s else After(Next(s, run[0]), run[1..])
  }

  lemma {:induction false} RunsCompose(s: State, run: seq<Step>, more: seq<Step>)
    requires ValidRun(s, run) && ValidRun(After(s, run), more)
    ensures ValidRun(s, run + more)
    ensures After(s, run + more) == After(After(s, run), more)
    decreases |run|
  {
    if run == [] {
      assert run + more == more;
    } else {
      assert (run + more)[0] == run[0] && (run + more)[1..] == run[1..] + more;
      RunsCompose(Next(s, run[0]), run[1..], more);
    }
  }

  // ---------------------------------------------------------------- the byte stream

  /** The bytes of a list of segments, in order. */
  function Concat(segs: seq<Segment>): seq<byte>
  {
    if segs == [] then [] else Concat(segs[..|segs| - 1]) + segs[|segs| - 1].data
  }

  /** The position at which segment `i` starts, and at which segment `i - 1` ends. */
  function Bound(iss: int, sent: seq<Segment>, i: nat): int
    requires i <= |sent|
  {
    if i == 0 then iss else Bound(iss, sent, i - 1) + |sent[i - 1].data|
  }

  ghost predicate Placed(iss: int, sent: seq<Segment>, i: nat)
    requires i < |sent|
  {
    sent[i].pos == Bound(iss, sent, i) && 0 < |sent[i].data| <= MSS
  }

  /** The segments follow one another without gap, and none is empty or too large. */
  ghost predicate Chained(iss: int, sent: seq<Segment>)
  {
    forall i: nat :: i < |sent| ==> Placed(iss, sent, i)
  }

  lemma {:induction false} BoundIsLength(iss: int, sent: seq<Segment>, i: nat)
    requires i <= |sent|
    ensures Bound(iss, sent, i) == iss + |Concat(sent[..i])|
  {
    if i > 0 {
      BoundIsLength(iss, sent, i - 1);
      assert sent[..i][..i - 1] == sent[..i - 1];
    }
  }

  lemma {:induction false} BoundGrows(iss: int, sent: seq<Segment>, i: nat, j: nat)
    requires Chained(iss, sent) && i < j <= |sent|
    ensures Bound(iss, sent, i) < Bound(iss, sent, j)
    decreases j
  {
    assert Placed(iss, sent, j - 1);
    if i < j - 1 { BoundGrows(iss, sent, i, j - 1); }
  }

  lemma {:induction false} BoundKept(iss: int, sent: seq<Segment>, seg: Segment, i: nat)
    requires i <= |sent|
    ensures Bound(iss, sent + [seg], i) == Bound(iss, sent, i)
  {
    if i > 0 { BoundKept(iss, sent, seg, i - 1); }
  }

  lemma {:induction false} ConcatPrefix(sent: seq<Segment>, i: nat)
    requires i <= |sent|
    ensures Concat(sent[..i]) <= Concat(sent)
    decreases |sent|
  {
    if i == |sent| {
      assert sent[..i] == sent;
    } else {
      var front := sent[..|sent| - 1];
      assert front[..i] == sent[..i];
      ConcatPrefix(front, i);
    }
  }

  lemma ConcatNext(sent: seq<Segment>, i: nat)
    requires i < |sent|
    ensures Concat(sent[..i + 1]) == Concat(sent[..i]) + sent[i].data
  {
    assert sent[..i + 1][..i] == sent[..i];
  }

  lemma {:induction false} ConcatFirst(segs: seq<Segment>)
    requires segs != []
    ensures Concat(segs) == segs[0].data + Concat(segs[1..])
  {
    if |segs| > 1 {
      var front := segs[..|segs| - 1];
      ConcatFirst(front);
      assert front[1..] == segs[1..][..|segs| - 2];
      assert segs[1..][|segs| - 2] == segs[|segs| - 1];
    }
  }

  lemma {:induction false} ConcatBoth(a: seq<Segment>, b: seq<Segment>)
    ensures Concat(a + b) == Concat(a) + Concat(b)
  {
    if b == [] {
      assert a + b == a;
    } else {
      var front, all := b[..|b| - 1], a + b;
      ConcatBoth(a, front);
      assert all[..|all| - 1] == a + front && all[|all| - 1] == b[|b| - 1];
      calc {
        Concat(all);
        Concat(a + front) + b[|b| - 1].data;
        Concat(a) + Concat(front) + b[|b| - 1].data;
        { Joined(Concat(a), Concat(front), b[|b| - 1].data); }
        Concat(a) + Concat(b);
      }
    }
  }

  lemma Joined(a: seq<byte>, b: seq<byte>, c: seq<byte>)
    ensures a + b + c == a + (b + c)
  {}

  // ------------------------------------------------------------------- the invariant

  /** `a` is a segment boundary no later than boundary `r`. */
  ghost predicate BoundaryUpTo(s: State, a: int, r: nat)
    requires r <= |s.sent|
  {
    exists k: nat :: k <= r && a == Bound(s.iss, s.sent, k)
  }

  /** Bytes acknowledged but not yet in the ring. */
  function Pending(r: Receiver): seq<byte>
  {
    if r.phase.Waiting? && r.ofo != [] then r.ofo[0].data else []
  }

  /** Everything the receiver has accepted, in order. */
  function Accepted(s: State): seq<byte>
  {
    s.got + s.rcv.ring + Pending(s.rcv)
  }

  /** The link between the two ends: `u` segments are acknowledged at the sender and `r`
      accepted by the receiver. */
  ghost predicate Linked(s: State, u: nat, r: nat)
  {
    && Chained(s.iss, s.sent)
    && u <= r <= |s.sent|
    && s.snd.sndNxt == Bound(s.iss, s.sent, |s.sent|)
    && s.snd.sendBuf == s.sent[u..]
    && s.hiAck == Bound(s.iss, s.sent, u)
    && s.rcv.rcvNxt == Bound(s.iss, s.sent, r)
    && (forall seg :: seg in s.data ==> seg in s.sent)
    && (forall seg :: seg in s.rcv.ofo ==> seg in s.sent)
    && (forall a :: a in s.acks ==> BoundaryUpTo(s, a, r))
    && (s.rcv.phase.Waiting? ==> 0 < r && s.rcv.ofo != [] && s.rcv.ofo[0] == s.sent[r - 1])
    && Accepted(s) == Concat(s.sent[..r])
    && |s.rcv.ring| <= s.rcv.capacity
  }

  lemma PositionIsIndex(iss: int, sent: seq<Segment>, i: nat, j: nat)
    requires Chained(iss, sent) && i <= |sent| && j <= |sent|
    ensures (Bound(iss, sent, i) < Bound(iss, sent, j)) <==> i < j
    ensures (Bound(iss, sent, i) == Bound(iss, sent, j)) <==> i == j
  {
    if i < j { BoundGrows(iss, sent, i, j); }
    if j < i { BoundGrows(iss, sent, j, i); }
  }

  lemma {:induction false} DeleteLeavesSuffix(iss: int, sent: seq<Segment>, u: nat, k: nat)
    requires Chained(iss, sent) && u <= |sent| && k <= |sent|
    ensures DeleteAcked(Unbounded, sent[u..], Bound(iss, sent, k)) == sent[if u < k then k else u..]
    decreases |sent| - u
  {
    if u < |sent| {
      assert sent[u..][0] == sent[u] && sent[u..][1..] == sent[u + 1..];
      DeleteLeavesSuffix(iss, sent, u + 1, k);
      assert Placed(iss, sent, u);
      PositionIsIndex(iss, sent, u, k);
    }
  }

  lemma LinkedAfterSend(s: State, bytes: seq<byte>, u: nat, r: nat)
    requires Linked(s, u, r) && 0 < |bytes| <= MSS
    ensures Linked(Next(s, Send(bytes)), u, r)
  {
    var seg := Segment(s.snd.sndNxt, bytes);
    var t := Next(s, Send(bytes));
    forall i: nat | i <= |s.sent| ensures Bound(t.iss, t.sent, i) == Bound(s.iss, s.sent, i) {
      BoundKept(s.iss, s.sent, seg, i);
    }
    forall i: nat | i < |t.sent| ensures Placed(t.iss, t.sent, i) {
      assert i < |s.sent| ==> Placed(s.iss, s.sent, i);
    }
    assert t.sent[u..] == s.sent[u..] + [seg];
    assert t.sent[..r] == s.sent[..r];
    forall a | a in t.acks ensures BoundaryUpTo(t, a, r) {
      assert BoundaryUpTo(s, a, r);
      var k: nat :| k <= r && a == Bound(s.iss, s.sent, k);
      assert a == Bound(t.iss, t.sent, k);
    }
  }

  lemma LinkedAfterAck(s: State, a: int, u: nat, r: nat) returns (u': nat)
    requires Linked(s, u, r) && a in s.acks
    ensures Linked(Next(s, RecvAck(a)), u', r)
    ensures Bound(s.iss, s.sent, u') == if a > s.hiAck then a else s.hiAck
  {
    assert BoundaryUpTo(s, a, r);
    var k: nat :| k <= r && a == Bound(s.iss, s.sent, k);
    u' := if u < k then k else u;
    DeleteLeavesSuffix(s.iss, s.sent, u, k);
    PositionIsIndex(s.iss, s.sent, u, k);
    var t := Next(s, RecvAck(a));
    forall b | b in t.acks ensures BoundaryUpTo(t, b, r) {
      assert BoundaryUpTo(s, b, r);
    }
  }

  lemma AcksStay(s: State, t: State, r: nat, r': nat)
    requires s.iss == t.iss && s.sent == t.sent && r <= r' <= |s.sent|
    requires forall a :: a in s.acks ==> BoundaryUpTo(s, a, r)
    requires forall a :: a in t.acks ==> a in s.acks || a == Bound(s.iss, s.sent, r')
    ensures forall a :: a in t.acks ==> BoundaryUpTo(t, a, r')
  {}

  lemma {:induction false} InsertionAddsOne(ar: Arith, ofo: seq<Segment>, seg: Segment)
    ensures multiset(InsertOfo(ar, ofo, seg)) == multiset(ofo) + multiset{seg}
  {
    if ofo != [] {
      assert ofo == [ofo[0]] + ofo[1..];
      InsertionAddsOne(ar, ofo[1..], seg);
    }
  }

  lemma InsertedAreKnown(ar: Arith, ofo: seq<Segment>, seg: Segment)
    ensures forall x :: x in InsertOfo(ar, ofo, seg) <==> x in ofo || x == seg
  {}

  lemma LinkedAfterArrive(s: State, seg: Segment, u: nat, r: nat)
    requires Linked(s, u, r) && ReceiverEnabled(s.rcv, Arrive(seg)) && seg in s.sent
    ensures Linked(Deliver(s, Arrive(seg)), u, r)
  {
    InsertedAreKnown(Unbounded, s.rcv.ofo, seg);
    AcksStay(s, Deliver(s, Arrive(seg)), r, r);
  }

  /** An entry that starts at `rcv_nxt` is the next segment of the stream. */
  lemma NextInStream(s: State, seg: Segment, u: nat, r: nat)
    requires Linked(s, u, r) && seg in s.sent && seg.pos == s.rcv.rcvNxt
    ensures r < |s.sent| && seg == s.sent[r]
    ensures Bound(s.iss, s.sent, r + 1) == s.rcv.rcvNxt + |seg.data|
    ensures Concat(s.sent[..r + 1]) == Concat(s.sent[..r]) + seg.data
  {
    var k: nat :| k < |s.sent| && s.sent[k] == seg;
    assert Placed(s.iss, s.sent, k);
    PositionIsIndex(s.iss, s.sent, k, r);
    ConcatNext(s.sent, r);
  }

  /** The head of the queue is accepted: one more segment of the stream. */
  lemma LinkedWhenAccepted(s: State, u: nat, r: nat)
    requires Linked(s, u, r) && s.rcv.phase.Draining? && s.rcv.ofo != [] && s.rcv.rcvNxt == s.rcv.ofo[0].pos
    ensures Linked(Deliver(s, Drain), u, r + 1)
  {
    var head, t := s.rcv.ofo[0], Deliver(s, Drain);
    assert head in s.rcv.ofo && head in s.sent;
    NextInStream(s, head, u, r);
    AcksStay(s, t, r, r + 1);
    assert Accepted(t) == s.got + s.rcv.ring + head.data;
  }

  lemma LinkedWhenNoneAccepted(s: State, u: nat, r: nat)
    requires Linked(s, u, r) && s.rcv.phase.Draining?
    requires s.rcv.ofo == [] || s.rcv.rcvNxt != s.rcv.ofo[0].pos
    ensures Linked(Deliver(s, Drain), u, r)
  {
    AcksStay(s, Deliver(s, Drain), r, r);
  }

  lemma LinkedAfterDrain(s: State, u: nat, r: nat) returns (r': nat)
    requires Linked(s, u, r) && s.rcv.phase.Draining?
    ensures Linked(Deliver(s, Drain), u, r')
    ensures r' == if s.rcv.ofo != [] && s.rcv.rcvNxt == s.rcv.ofo[0].pos then r + 1 else r
  {
    if s.rcv.ofo != [] && s.rcv.rcvNxt == s.rcv.ofo[0].pos {
      r' := r + 1;
      LinkedWhenAccepted(s, u, r);
    } else {
      r' := r;
      LinkedWhenNoneAccepted(s, u, r);
    }
  }

  lemma LinkedAfterStore(s: State, u: nat, r: nat)
    requires Linked(s, u, r) && ReceiverEnabled(s.rcv, Store)
    ensures Linked(Deliver(s, Store), u, r)
  {
    assert Accepted(Deliver(s, Store)) == Accepted(s);
    AcksStay(s, Deliver(s, Store), r, r);
  }

  lemma MoveAcross(got: seq<byte>, ring: seq<byte>, k: nat)
    requires k <= |ring|
    ensures got + ring[..k] + ring[k..] == got + ring
  {}

  lemma LinkedAfterRead(s: State, n: nat, u: nat, r: nat)
    requires Linked(s, u, r) && s.rcv.ring != []
    ensures Linked(Deliver(s, Read(n)), u, r)
  {
    MoveAcross(s.got, s.rcv.ring, ReadCount(s.rcv, n));
    AcksStay(s, Deliver(s, Read(n)), r, r);
  }

  lemma LinkedAfterReceive(s: State, e: ReceiverEvent, u: nat, r: nat) returns (r': nat)
    requires Linked(s, u, r) && ReceiverEnabled(s.rcv, e)
    requires e.Arrive? ==> e.seg in s.sent
    ensures Linked(Deliver(s, e), u, r')
  {
    r' := r;
    match e
    case Arrive(seg) => LinkedAfterArrive(s, seg, u, r);
    case Drain => r' := LinkedAfterDrain(s, u, r);
    case Store => LinkedAfterStore(s, u, r);
    case Read(n) => LinkedAfterRead(s, n, u, r);
  }

  /** What the network alone does changes neither end. */
  lemma LinkedAfterNetwork(s: State, t: State, u: nat, r: nat)
    requires Linked(s, u, r)
    requires t == s.(data := t.data, acks := t.acks)
    requires forall seg :: seg in t.data ==> seg in s.data || (u < |s.sent| && seg == s.sent[u])
    requires forall a :: a in t.acks ==> a in s.acks
    ensures Linked(t, u, r)
  {}

  lemma LinkedAfterArrival(s: State, seg: Segment, u: nat, r: nat) returns (r': nat)
    requires Linked(s, u, r) && Enabled(s, RecvData(seg))
    ensures Linked(Next(s, RecvData(seg)), u, r')
  {
    LinkedAfterNetwork(s, s.(data := s.data - multiset{seg}), u, r);
    r' := LinkedAfterReceive(s.(data := s.data - multiset{seg}), Arrive(seg), u, r);
  }

  lemma LinkedAfterResend(s: State, u: nat, r: nat)
    requires Linked(s, u, r) && s.snd.sendBuf != []
    ensures Linked(Next(s, Retransmit), u, r)
  {
    LinkedAfterNetwork(s, Next(s, Retransmit), u, r);
  }

  lemma LinkedAfterLoss(s: State, st: Step, u: nat, r: nat)
    requires Linked(s, u, r) && Enabled(s, st)
    requires st.LoseData? || st.LoseAck? || st.DuplicateData? || st.DuplicateAck?
    ensures Linked(Next(s, st), u, r)
  {
    LinkedAfterNetwork(s, Next(s, st), u, r);
  }

  lemma {:induction false} LinkedAfterStep(s: State, st: Step, u: nat, r: nat) returns (u': nat, r': nat)
    requires Linked(s, u, r) && Enabled(s, st)
    ensures Linked(Next(s, st), u', r')
  {
    u', r' := u, r;
    match st
    case Send(bytes) => LinkedAfterSend(s, bytes, u, r);
    case Retransmit => LinkedAfterResend(s, u, r);
    case RecvAck(a) => u' := LinkedAfterAck(s, a, u, r);
    case RecvData(seg) => r' := LinkedAfterArrival(s, seg, u, r);
    case Receive(e) => r' := LinkedAfterReceive(s, e, u, r);
    case _ => LinkedAfterLoss(s, st, u, r);
  }

  lemma {:induction false} LinkedAfterRun(s: State, run: seq<Step>, u: nat, r: nat) returns (u': nat, r': nat)
    requires Linked(s, u, r) && ValidRun(s, run)
    ensures Linked(After(s, run), u', r')
    decreases |run|
  {
    u', r' := u, r;
    if run != [] {
      u', r' := LinkedAfterStep(s, run[0], u, r);
      u', r' := LinkedAfterRun(Next(s, run[0]), run[1..], u', r');
    }
  }

  // ---------------------------------------------------------------------- main results

  /** End to end: whatever the network loses, reorders or duplicates, the bytes read, then
      those in the ring, then an accepted segment still waiting for room, are exactly the
      first `rcv_nxt - iss` bytes written. */
  lemma {:induction false} EndToEnd(iss: int, capacity: nat, run: seq<Step>)
    requires ValidRun(Init(iss, capacity), run)
    ensures var t := After(Init(iss, capacity), run);
            && iss <= t.rcv.rcvNxt <= t.snd.sndNxt == iss + |Concat(t.sent)|
            && Accepted(t) == Concat(t.sent)[..t.rcv.rcvNxt - iss]
            && t.got <= Concat(t.sent)
  {
    var u, r := LinkedAfterRun(Init(iss, capacity), run, 0, 0);
    var t := After(Init(iss, capacity), run);
    IssKept(Init(iss, capacity), run);
    BoundIsLength(iss, t.sent, r);
    BoundIsLength(iss, t.sent, |t.sent|);
    assert t.sent[..|t.sent|] == t.sent;
    ConcatPrefix(t.sent, r);
    assert t.got <= Accepted(t);
  }

  lemma {:induction false} IssKept(s: State, run: seq<Step>)
    requires ValidRun(s, run)
    ensures After(s, run).iss == s.iss && After(s, run).rcv.capacity == s.rcv.capacity
    decreases |run|
  {
    if run != [] { IssKept(Next(s, run[0]), run[1..]); }
  }

  lemma {:induction false} SuffixBound(iss: int, sent: seq<Segment>, u: nat, i: nat)
    requires u + i <= |sent|
    ensures Bound(Bound(iss, sent, u), sent[u..], i) == Bound(iss, sent, u + i)
  {
    if i > 0 { SuffixBound(iss, sent, u, i - 1); }
  }

  lemma SuffixIsChained(iss: int, sent: seq<Segment>, u: nat)
    requires Chained(iss, sent) && u <= |sent|
    ensures Chained(Bound(iss, sent, u), sent[u..])
    ensures Bound(Bound(iss, sent, u), sent[u..], |sent| - u) == Bound(iss, sent, |sent|)
  {
    forall i: nat | u + i <= |sent|
      ensures Bound(Bound(iss, sent, u), sent[u..], i) == Bound(iss, sent, u + i)
    {
      SuffixBound(iss, sent, u, i);
    }
    forall i: nat | i < |sent| - u ensures Placed(Bound(iss, sent, u), sent[u..], i) {
      assert Placed(iss, sent, u + i);
    }
  }

  /** The suffix reaches from its first position to the end. */
  lemma SuffixEnds(iss: int, sent: seq<Segment>, u: nat)
    requires Chained(iss, sent) && u <= |sent|
    ensures Chained(Bound(iss, sent, u), sent[u..])
    ensures Bound(iss, sent, |sent|) == Bound(iss, sent, u) + |Concat(sent[u..])|
  {
    SuffixIsChained(iss, sent, u);
    BoundIsLength(Bound(iss, sent, u), sent[u..], |sent| - u);
    assert sent[u..][..|sent| - u] == sent[u..];
  }

  /** Acknowledgements: the send buffer is the unbroken run of segments from the highest
      acknowledgement processed to `snd_nxt`; that acknowledgement never passes what the
      receiver has accepted; and once the buffer is empty every byte written is accepted. */
  lemma {:induction false} AckExactness(iss: int, capacity: nat, run: seq<Step>)
    requires ValidRun(Init(iss, capacity), run)
    ensures var t := After(Init(iss, capacity), run);
            && Chained(t.hiAck, t.snd.sendBuf)
            && t.snd.sndNxt == t.hiAck + |Concat(t.snd.sendBuf)|
            && t.hiAck <= t.rcv.rcvNxt
            && (t.snd.sendBuf == [] ==> Accepted(t) == Concat(t.sent))
  {
    var u, r := LinkedAfterRun(Init(iss, capacity), run, 0, 0);
    var t := After(Init(iss, capacity), run);
    IssKept(Init(iss, capacity), run);
    PositionIsIndex(iss, t.sent, u, r);
    SuffixEnds(iss, t.sent, u);
    if t.snd.sendBuf == [] {
      assert t.sent[..r] == t.sent;
    }
  }

  lemma SegmentEndsBy(iss: int, sent: seq<Segment>, i: nat, k: nat)
    requires Chained(iss, sent) && i < k <= |sent|
    ensures sent[i].pos + |sent[i].data| <= Bound(iss, sent, k)
  {
    assert Placed(iss, sent, i);
    PositionIsIndex(iss, sent, i + 1, k);
  }

  lemma DeletedEndBy(iss: int, sent: seq<Segment>, u: nat, k: nat)
    requires Chained(iss, sent) && u <= |sent| && k <= |sent|
    ensures var buf, kept := sent[u..], DeleteAcked(Unbounded, sent[u..], Bound(iss, sent, k));
            && |kept| <= |buf| && kept == buf[|buf| - |kept|..]
            && forall i :: 0 <= i < |buf| - |kept| ==> buf[i].pos + |buf[i].data| <= Bound(iss, sent, k)
  {
    DeleteLeavesSuffix(iss, sent, u, k);
    var buf, kept := sent[u..], DeleteAcked(Unbounded, sent[u..], Bound(iss, sent, k));
    forall i: nat | i < |buf| - |kept| ensures buf[i].pos + |buf[i].data| <= Bound(iss, sent, k) {
      SegmentEndsBy(iss, sent, u + i, k);
    }
  }

  /** Deleting by starting position never discards a byte the receiver lacks: in every
      reachable state, each entry an arriving acknowledgement removes ends at or before it
      and before the receiver's `rcv_nxt`, and the entries it keeps are a suffix. */
  lemma {:induction false} DeletionIsSafe(iss: int, capacity: nat, run: seq<Step>, a: int)
    requires ValidRun(Init(iss, capacity), run)
    requires a in After(Init(iss, capacity), run).acks
    ensures var t := After(Init(iss, capacity), run);
            var buf, kept := t.snd.sendBuf, DeleteAcked(Unbounded, t.snd.sendBuf, a);
            && |kept| <= |buf|
            && kept == buf[|buf| - |kept|..]
            && a <= t.rcv.rcvNxt
            && forall i :: 0 <= i < |buf| - |kept| ==> buf[i].pos + |buf[i].data| <= a
  {
    var u, r := LinkedAfterRun(Init(iss, capacity), run, 0, 0);
    var t := After(Init(iss, capacity), run);
    assert BoundaryUpTo(t, a, r);
    var k: nat :| k <= r && a == Bound(t.iss, t.sent, k);
    DeletedEndBy(t.iss, t.sent, u, k);
    PositionIsIndex(t.iss, t.sent, k, r);
  }
}
