/** Both ends on 32-bit numbers, joined by the network: they do, step for step, what the two-party
    system on unbounded positions does, and so deliver the exact stream. */
module Wire {
  import opened Seq32
  import opened Endpoints
  import opened Transfer
  import opened Progress
  import opened Wraparound

  /** The two ends with the packets under way in lists, so that a step names a packet by its
      place there. `written` and `got` are history. */
  datatype Wires = Wires(
    snd: Sender,
    rcv: Receiver,
    data: seq<Segment>,
    acks: seq<int>,
    written: seq<byte>,
    got: seq<byte>)

  datatype Move =
    | Write(bytes: seq<byte>)
    | Resend
    | TakeAck(i: nat)
    | TakeData(i: nat)
    | Work(e: ReceiverEvent)
    | DropData(i: nat)
    | DropAck(i: nat)
    | CopyData(i: nat)
    | CopyAck(i: nat)

  function Start(iss: int, capacity: nat): Wires
  {
    Wires(Sender(iss, iss, []), Receiver(iss, [], [], capacity, Idle), [], [], [], [])
  }

  predicate Able(z: Wires, m: Move)
  {
    match m
    case Write(bytes) => 0 < |bytes| <= MSS
    case Resend => z.snd.sendBuf != []
    case TakeAck(i) => i < |z.acks|
    case TakeData(i) => i < |z.data| && ReceiverEnabled(z.rcv, Arrive(z.data[i]))
    case Work(e) => !e.Arrive? && ReceiverEnabled(z.rcv, e)
    case DropData(i) => i < |z.data|
    case DropAck(i) => i < |z.acks|
    case CopyData(i) => i < |z.data|
    case CopyAck(i) => i < |z.acks|
  }

  function Removed<T>(q: seq<T>, i: nat): seq<T>
    requires i < |q|
  {
    q[..i] + q[i + 1..]
  }

  function AckList(out: Output): seq<int>
  {
    if out.Ack? then [out.ack] else []
  }

  function Receive(ar: Arith, z: Wires, e: ReceiverEvent): Wires
    requires ReceiverEnabled(z.rcv, e)
  {
    var re := React(ar, z.rcv, e);
    z.(rcv := re.rcv, acks := z.acks + AckList(re.out),
       got := if e.Read? then z.got + z.rcv.ring[..ReadCount(z.rcv, e.n)] else z.got)
  }

  function Go(ar: Arith, z: Wires, m: Move): Wires
    requires Able(z, m)
  {
    match m
    case Write(bytes) =>
      z.(snd := Push(ar, z.snd, bytes), data := z.data + [Segment(z.snd.sndNxt, bytes)], written := z.written + bytes)
    case Resend => z.(data := z.data + [z.snd.sendBuf[0]])
    case TakeAck(i) => z.(snd := AckIn(ar, z.snd, z.acks[i]), acks := Removed(z.acks, i))
    case TakeData(i) => Receive(ar, z.(data := Removed(z.data, i)), Arrive(z.data[i]))
    case Work(e) => Receive(ar, z, e)
    case DropData(i) => z.(data := Removed(z.data, i))
    case DropAck(i) => z.(acks := Removed(z.acks, i))
    case CopyData(i) => z.(data := z.data + [z.data[i]])
    case CopyAck(i) => z.(acks := z.acks + [z.acks[i]])
  }

  ghost predicate Run(ar: Arith, z: Wires, ms: seq<Move>)
    decreases |ms|
  {
    ms == [] || (Able(z, ms[0]) && Run(ar, Go(ar, z, ms[0]), ms[1..]))
  }

  ghost function End(ar: Arith, z: Wires, ms: seq<Move>): Wires
    requires Run(ar, z, ms)
    decreases |ms|
  {
    if ms == [] then z else End(ar, Go(ar, z, ms[0]), ms[1..])
  }

  // -------------------------------------------------------- the unbounded system is the same one

  ghost predicate Shows(z: Wires, s: State)
  {
    && z.snd == s.snd && z.rcv == s.rcv && z.got == s.got && z.written == Concat(s.sent)
    && multiset(z.data) == s.data && multiset(z.acks) == s.acks
  }

  function StepOf(z: Wires, m: Move): Step
    requires Able(z, m)
  {
    match m
    case Write(bytes) => Step.Send(bytes)
    case Resend => Step.Retransmit
    case TakeAck(i) => Step.RecvAck(z.acks[i])
    case TakeData(i) => Step.RecvData(z.data[i])
    case Work(e) => Step.Receive(e)
    case DropData(i) => Step.LoseData(z.data[i])
    case DropAck(i) => Step.LoseAck(z.acks[i])
    case CopyData(i) => Step.DuplicateData(z.data[i])
    case CopyAck(i) => Step.DuplicateAck(z.acks[i])
  }

  lemma RemovedOne<T>(q: seq<T>, i: nat)
    requires i < |q|
    ensures multiset(Removed(q, i)) == multiset(q) - multiset{q[i]}
    ensures q[i] in multiset(q)
  {
    assert q == q[..i] + ([q[i]] + q[i + 1..]);
  }

  lemma ShowsReceive(z: Wires, s: State, e: ReceiverEvent)
    requires Shows(z, s) && ReceiverEnabled(z.rcv, e)
    ensures Shows(Receive(Unbounded, z, e), Deliver(s, e))
  {}

  lemma ShowsWrite(z: Wires, s: State, bytes: seq<byte>)
    requires Shows(z, s) && Able(z, Write(bytes))
    ensures Shows(Go(Unbounded, z, Write(bytes)), Next(s, Send(bytes)))
  {
    assert Next(s, Send(bytes)).sent[..|s.sent|] == s.sent;
  }

  lemma {:induction false} ShowsNext(z: Wires, s: State, m: Move)
    requires Shows(z, s) && Able(z, m)
    ensures Enabled(s, StepOf(z, m))
    ensures Shows(Go(Unbounded, z, m), Next(s, StepOf(z, m)))
  {
    match m
    case Write(bytes) => ShowsWrite(z, s, bytes);
    case Resend =>
    case TakeAck(i) => RemovedOne(z.acks, i);
    case TakeData(i) =>
      RemovedOne(z.data, i);
      ShowsReceive(z.(data := Removed(z.data, i)), s.(data := s.data - multiset{z.data[i]}), Arrive(z.data[i]));
    case Work(e) => ShowsReceive(z, s, e);
    case DropData(i) => RemovedOne(z.data, i);
    case DropAck(i) => RemovedOne(z.acks, i);
    case CopyData(i) => RemovedOne(z.data, i);
    case CopyAck(i) => RemovedOne(z.acks, i);
  }

  // ------------------------------------------------------------------ and so is the 32-bit one

  function WrapAcks(q: seq<int>): (w: seq<int>)
    ensures |w| == |q|
    ensures forall i :: 0 <= i < |q| ==> w[i] == Wrap(q[i])
  {
    seq(|q|, i requires 0 <= i < |q| => Wrap(q[i]))
  }

  function WrapWires(z: Wires): Wires
  {
    z.(snd := WrapSender(z.snd), rcv := WrapReceiver(z.rcv), data := WrapQueue(z.data), acks := WrapAcks(z.acks))
  }

  /** Everything a step compares is within half the number circle. */
  ghost predicate MoveNear(z: Wires, m: Move)
    requires Able(z, m)
  {
    match m
    case TakeAck(i) => forall k :: 0 <= k < |z.snd.sendBuf| ==> Near(z.snd.sendBuf[k].pos, z.acks[i])
    case TakeData(i) => EventNear(z.rcv, Arrive(z.data[i]))
    case Work(e) => EventNear(z.rcv, e)
    case _ => true
  }

  lemma QueueAppend(q: seq<Segment>, x: Segment)
    ensures WrapQueue(q + [x]) == WrapQueue(q) + [WrapSegment(x)]
  {}

  lemma QueueRemoved(q: seq<Segment>, i: nat)
    requires i < |q|
    ensures WrapQueue(Removed(q, i)) == Removed(WrapQueue(q), i)
  {}

  lemma AcksAppend(q: seq<int>, out: Output)
    ensures WrapAcks(q + AckList(out)) == WrapAcks(q) + AckList(WrapOutput(out))
  {}

  lemma AcksRemoved(q: seq<int>, i: nat)
    requires i < |q|
    ensures WrapAcks(Removed(q, i)) == Removed(WrapAcks(q), i)
  {}

  lemma WrapsReceive(z: Wires, e: ReceiverEvent)
    requires ReceiverEnabled(z.rcv, e) && EventNear(z.rcv, e)
    ensures ReceiverEnabled(WrapReceiver(z.rcv), WrapEvent(e))
    ensures Receive(Wrapped, WrapWires(z), WrapEvent(e)) == WrapWires(Receive(Unbounded, z, e))
  {
    ReactWrapped(z.rcv, e);
    AcksAppend(z.acks, React(Unbounded, z.rcv, e).out);
  }

  lemma WrapsWrite(z: Wires, bytes: seq<byte>)
    requires Able(z, Write(bytes))
    ensures Go(Wrapped, WrapWires(z), Write(bytes)) == WrapWires(Go(Unbounded, z, Write(bytes)))
  {
    PushWrapped(z.snd, bytes);
    QueueAppend(z.data, Segment(z.snd.sndNxt, bytes));
  }

  lemma WrapsAck(z: Wires, i: nat)
    requires Able(z, TakeAck(i)) && MoveNear(z, TakeAck(i))
    ensures Go(Wrapped, WrapWires(z), TakeAck(i)) == WrapWires(Go(Unbounded, z, TakeAck(i)))
  {
    DeleteWrapped(z.snd.sendBuf, z.acks[i]);
    AcksRemoved(z.acks, i);
  }

  lemma WrapsData(z: Wires, i: nat)
    requires Able(z, TakeData(i)) && MoveNear(z, TakeData(i))
    ensures Able(WrapWires(z), TakeData(i))
    ensures Go(Wrapped, WrapWires(z), TakeData(i)) == WrapWires(Go(Unbounded, z, TakeData(i)))
  {
    QueueRemoved(z.data, i);
    WrapsReceive(z.(data := Removed(z.data, i)), Arrive(z.data[i]));
  }

  lemma WrapsNetwork(z: Wires, m: Move)
    requires Able(z, m) && (m.Resend? || m.DropData? || m.DropAck? || m.CopyData? || m.CopyAck?)
    ensures Able(WrapWires(z), m)
    ensures Go(Wrapped, WrapWires(z), m) == WrapWires(Go(Unbounded, z, m))
  {
    match m
    case Resend => QueueAppend(z.data, z.snd.sendBuf[0]);
    case DropData(i) => QueueRemoved(z.data, i);
    case DropAck(i) => AcksRemoved(z.acks, i);
    case CopyData(i) => QueueAppend(z.data, z.data[i]);
    case CopyAck(i) => AcksAppend(z.acks, Ack(z.acks[i]));
  }

  /** One step of the whole system: same guard and same next state, up to wrapping. */
  lemma {:induction false} WrapsNext(z: Wires, m: Move)
    requires Able(z, m) && MoveNear(z, m)
    ensures Able(WrapWires(z), m)
    ensures Go(Wrapped, WrapWires(z), m) == WrapWires(Go(Unbounded, z, m))
  {
    match m
    case Write(bytes) => WrapsWrite(z, bytes);
    case TakeAck(i) => WrapsAck(z, i);
    case TakeData(i) => WrapsData(z, i);
    case Work(e) => WrapsReceive(z, e);
    case _ => WrapsNetwork(z, m);
  }

  // ------------------------------------------------------------------------------ whole runs

  /** Where the oldest byte not yet acknowledged stands. */
  function Oldest(s: Sender): int
  {
    if s.sendBuf == [] then s.sndNxt else s.sendBuf[0].pos
  }

  /** Fewer than 2^31 bytes, less one packet, are unacknowledged, and no packet arrives that is
      2^31 bytes old. */
  predicate Timely(z: Wires, m: Move)
    requires Able(z, m)
  {
    && z.snd.sndNxt - Oldest(z.snd) <= HALF - MSS
    && (m.TakeData? ==> z.rcv.rcvNxt - HALF <= z.data[m.i].pos)
    && (m.TakeAck? ==> z.snd.sndNxt - HALF <= z.acks[m.i])
  }

  ghost predicate TimelyRun(z: Wires, ms: seq<Move>)
    decreases |ms|
  {
    ms == [] || (Able(z, ms[0]) && Timely(z, ms[0]) && TimelyRun(Go(Unbounded, z, ms[0]), ms[1..]))
  }

  lemma BufferBetween(s: State, u: nat, r: nat, i: nat)
    requires Linked(s, u, r) && i < |s.snd.sendBuf|
    ensures Oldest(s.snd) == s.hiAck <= s.snd.sendBuf[i].pos < s.snd.sndNxt
  {
    SuffixEnds(s.iss, s.sent, u);
    assert Placed(s.iss, s.sent, u) && Placed(s.iss, s.sent, u + i);
    assert s.snd.sendBuf[0] == s.sent[u] && s.snd.sendBuf[i] == s.sent[u + i];
    PositionIsIndex(s.iss, s.sent, u, u + i);
    PositionIsIndex(s.iss, s.sent, u + i, |s.sent|);
  }

  lemma OldestAccepted(s: State, u: nat, r: nat)
    requires Linked(s, u, r)
    ensures Oldest(s.snd) <= s.rcv.rcvNxt <= s.snd.sndNxt
  {
    PositionIsIndex(s.iss, s.sent, u, r);
    PositionIsIndex(s.iss, s.sent, r, |s.sent|);
    if s.snd.sendBuf != [] { BufferBetween(s, u, r, 0); }
  }

  lemma AckIsPast(s: State, u: nat, r: nat, a: int)
    requires Linked(s, u, r) && a in s.acks
    ensures a <= s.rcv.rcvNxt
  {
    assert BoundaryUpTo(s, a, r);
    var k: nat :| k <= r && a == Bound(s.iss, s.sent, k);
    PositionIsIndex(s.iss, s.sent, k, r);
  }

  lemma TimelyIsNear(z: Wires, s: State, m: Move, u: nat, r: nat)
    requires Shows(z, s) && Linked(s, u, r) && Queued(s.rcv) && Able(z, m) && Timely(z, m)
    ensures MoveNear(z, m)
  {
    OldestAccepted(s, u, r);
    match m
    case TakeAck(i) =>
      assert z.acks[i] in multiset(z.acks);
      AckIsPast(s, u, r, z.acks[i]);
      forall k: nat | k < |z.snd.sendBuf| ensures Near(z.snd.sendBuf[k].pos, z.acks[i]) {
        BufferBetween(s, u, r, k);
      }
    case TakeData(i) =>
      assert z.data[i] in multiset(z.data);
      OutstandingBoundsSuffice(s, Arrive(z.data[i]), u, r);
    case Work(e) => OutstandingBoundsSuffice(s, e, u, r);
    case _ =>
  }

  lemma {:induction false} WrapsRun(z: Wires, s: State, ms: seq<Move>, u: nat, r: nat)
      returns (t: State, u': nat, r': nat)
    requires Shows(z, s) && Linked(s, u, r) && Queued(s.rcv) && TimelyRun(z, ms)
    ensures Run(Unbounded, z, ms) && Run(Wrapped, WrapWires(z), ms)
    ensures End(Wrapped, WrapWires(z), ms) == WrapWires(End(Unbounded, z, ms))
    ensures Shows(End(Unbounded, z, ms), t) && Linked(t, u', r')
    decreases |ms|
  {
    t, u', r' := s, u, r;
    if ms != [] {
      var m := ms[0];
      TimelyIsNear(z, s, m, u, r);
      WrapsNext(z, m);
      ShowsNext(z, s, m);
      QueuedAfterStep(s, StepOf(z, m), u, r);
      u', r' := LinkedAfterStep(s, StepOf(z, m), u, r);
      t, u', r' := WrapsRun(Go(Unbounded, z, m), Next(s, StepOf(z, m)), ms[1..], u', r');
    }
  }

  lemma LinkedDelivers(t: State, u: nat, r: nat)
    requires Linked(t, u, r)
    ensures t.got <= Concat(t.sent)
    ensures t.snd.sendBuf == [] ==> Accepted(t) == Concat(t.sent)
  {
    ConcatPrefix(t.sent, r);
    assert t.got <= Accepted(t);
    assert t.sent[..|t.sent|] == t.sent;
  }

  /** End to end on 32-bit numbers, whatever the first sequence number and across any number of
      wrap-arounds, over a network that loses, reorders and duplicates: what is read is a prefix
      of what is written; and when the send buffer is empty, what is read, in the ring and
      waiting for room is all of it. */
  lemma {:induction false} EndToEnd32(iss: int, capacity: nat, ms: seq<Move>)
    requires TimelyRun(Start(iss, capacity), ms)
    ensures Run(Wrapped, Start(Wrap(iss), capacity), ms)
    ensures var z := End(Wrapped, Start(Wrap(iss), capacity), ms);
            && z.got <= z.written
            && (z.snd.sendBuf == [] ==> z.got + z.rcv.ring + Pending(z.rcv) == z.written)
  {
    var first := Start(iss, capacity);
    assert Start(Wrap(iss), capacity) == WrapWires(first);
    var t, u, r := WrapsRun(first, Init(iss, capacity), ms, 0, 0);
    LinkedDelivers(t, u, r);
    SamePending(End(Unbounded, first, ms).rcv);
  }

  lemma SamePending(r: Receiver)
    ensures Pending(WrapReceiver(r)) == Pending(r)
  {}
}
