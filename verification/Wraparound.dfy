/** The endpoints on 32-bit sequence numbers simulate the endpoints on unbounded stream
    positions, step for step, while the positions compared lie within 2^31 of each other. */
module Wraparound {
  import opened Seq32
  import opened Endpoints
  import opened Transfer
  import opened Progress

  function WrapSegment(seg: Segment): Segment { Segment(Wrap(seg.pos), seg.data) }

  function WrapQueue(q: seq<Segment>): (w: seq<Segment>)
    ensures |w| == |q|
    ensures forall i :: 0 <= i < |q| ==> w[i] == WrapSegment(q[i])
  {
    seq(|q|, i requires 0 <= i < |q| => WrapSegment(q[i]))
  }

  function WrapReceiver(r: Receiver): Receiver
  {
    r.(rcvNxt := Wrap(r.rcvNxt), ofo := WrapQueue(r.ofo))
  }

  function WrapSender(s: Sender): Sender
  {
    Sender(Wrap(s.sndNxt), Wrap(s.sndUna), WrapQueue(s.sendBuf))
  }

  function WrapEvent(e: ReceiverEvent): ReceiverEvent
  {
    if e.Arrive? then Arrive(WrapSegment(e.seg)) else e
  }

  function WrapOutput(o: Output): Output
  {
    if o.Ack? then Ack(Wrap(o.ack)) else o
  }

  function WrapReaction(re: Reaction): Reaction
  {
    Reaction(WrapReceiver(re.rcv), WrapOutput(re.out))
  }

  ghost predicate QueueNear(q: seq<Segment>, p: int)
  {
    forall i :: 0 <= i < |q| ==> Near(p, q[i].pos)
  }

  /** Everything the step compares is within half the number circle. */
  ghost predicate EventNear(r: Receiver, e: ReceiverEvent)
  {
    match e
    case Arrive(seg) => Near(seg.pos, r.rcvNxt) && (r.rcvNxt <= seg.pos ==> QueueNear(r.ofo, seg.pos))
    case Drain => r.ofo != [] ==> Near(r.rcvNxt, r.ofo[0].pos)
    case _ => true
  }

  lemma {:induction false} InsertWrapped(ofo: seq<Segment>, seg: Segment)
    requires QueueNear(ofo, seg.pos)
    ensures InsertOfo(Wrapped, WrapQueue(ofo), WrapSegment(seg)) == WrapQueue(InsertOfo(Unbounded, ofo, seg))
  {
    if ofo != [] {
      ComparisonsAgree(seg.pos, ofo[0].pos);
      assert WrapQueue(ofo)[1..] == WrapQueue(ofo[1..]);
      if seg.pos < ofo[0].pos {
        assert WrapQueue([seg] + ofo) == [WrapSegment(seg)] + WrapQueue(ofo);
      } else {
        InsertWrapped(ofo[1..], seg);
      }
    }
  }

  /** One receiver step: same guard, same next state and same output, up to wrapping. */
  lemma {:induction false} ReactWrapped(r: Receiver, e: ReceiverEvent)
    requires ReceiverEnabled(r, e) && EventNear(r, e)
    ensures ReceiverEnabled(WrapReceiver(r), WrapEvent(e))
    ensures React(Wrapped, WrapReceiver(r), WrapEvent(e)) == WrapReaction(React(Unbounded, r, e))
  {
    match e
    case Arrive(seg) =>
      ComparisonsAgree(seg.pos, r.rcvNxt);
      if r.rcvNxt <= seg.pos { InsertWrapped(r.ofo, seg); }
    case Drain =>
      if r.ofo != [] {
        ComparisonsAgree(r.rcvNxt, r.ofo[0].pos);
        WrapPlus(r.rcvNxt, |r.ofo[0].data|);
      }
    case Store =>
      assert WrapQueue(r.ofo)[1..] == WrapQueue(r.ofo[1..]);
    case Read(_) =>
  }

  ghost predicate ReceiverRun(ar: Arith, r: Receiver, es: seq<ReceiverEvent>)
    decreases |es|
  {
    es == [] || (ReceiverEnabled(r, es[0]) && ReceiverRun(ar, React(ar, r, es[0]).rcv, es[1..]))
  }

  ghost predicate RunNear(r: Receiver, es: seq<ReceiverEvent>)
    requires ReceiverRun(Unbounded, r, es)
    decreases |es|
  {
    es == [] || (EventNear(r, es[0]) && RunNear(React(Unbounded, r, es[0]).rcv, es[1..]))
  }

  ghost function ReceiverAfter(ar: Arith, r: Receiver, es: seq<ReceiverEvent>): Receiver
    requires ReceiverRun(ar, r, es)
    decreases |es|
  {
    if es == [] then r else ReceiverAfter(ar, React(ar, r, es[0]).rcv, es[1..])
  }

  ghost function Outputs(ar: Arith, r: Receiver, es: seq<ReceiverEvent>): seq<Output>
    requires ReceiverRun(ar, r, es)
    decreases |es|
  {
    if es == [] then []
    else [React(ar, r, es[0]).out] + Outputs(ar, React(ar, r, es[0]).rcv, es[1..])
  }

  function WrapEvents(es: seq<ReceiverEvent>): (w: seq<ReceiverEvent>)
    ensures |w| == |es|
  {
    if es == [] then [] else [WrapEvent(es[0])] + WrapEvents(es[1..])
  }

  function WrapOutputs(os: seq<Output>): seq<Output>
  {
    if os == [] then [] else [WrapOutput(os[0])] + WrapOutputs(os[1..])
  }

  /** Whole runs: across any number of wrap-arounds of the sequence space, the 32-bit
      receiver delivers the same bytes and sends the same (wrapped) acknowledgements. */
  lemma {:induction false} ReceiverSimulation(r: Receiver, es: seq<ReceiverEvent>)
    requires ReceiverRun(Unbounded, r, es) && RunNear(r, es)
    ensures ReceiverRun(Wrapped, WrapReceiver(r), WrapEvents(es))
    ensures ReceiverAfter(Wrapped, WrapReceiver(r), WrapEvents(es)) == WrapReceiver(ReceiverAfter(Unbounded, r, es))
    ensures Outputs(Wrapped, WrapReceiver(r), WrapEvents(es)) == WrapOutputs(Outputs(Unbounded, r, es))
    decreases |es|
  {
    if es != [] {
      ReactWrapped(r, es[0]);
      var r' := React(Unbounded, r, es[0]).rcv;
      ReceiverSimulation(r', es[1..]);
      assert WrapEvents(es)[0] == WrapEvent(es[0]) && WrapEvents(es)[1..] == WrapEvents(es[1..]);
      var os := Outputs(Unbounded, r, es);
      assert os[1..] == Outputs(Unbounded, r', es[1..]);
    }
  }

  lemma {:induction false} DeleteWrapped(buf: seq<Segment>, ack: int)
    requires forall i :: 0 <= i < |buf| ==> Near(buf[i].pos, ack)
    ensures DeleteAcked(Wrapped, WrapQueue(buf), Wrap(ack)) == WrapQueue(DeleteAcked(Unbounded, buf, ack))
  {
    if buf != [] {
      ComparisonsAgree(buf[0].pos, ack);
      assert WrapQueue(buf)[1..] == WrapQueue(buf[1..]);
      DeleteWrapped(buf[1..], ack);
    }
  }

  lemma PushWrapped(s: Sender, data: seq<byte>)
    ensures Push(Wrapped, WrapSender(s), data) == WrapSender(Push(Unbounded, s, data))
  {
    WrapPlus(s.sndNxt, |data|);
    var seg := Segment(s.sndNxt, data);
    assert WrapQueue(s.sendBuf + [seg]) == WrapQueue(s.sendBuf) + [WrapSegment(seg)];
  }

  /** The sender's two steps likewise. */
  lemma {:induction false} SenderWrapped(s: Sender, data: seq<byte>, ack: int)
    requires forall i :: 0 <= i < |s.sendBuf| ==> Near(s.sendBuf[i].pos, ack)
    ensures Push(Wrapped, WrapSender(s), data) == WrapSender(Push(Unbounded, s, data))
    ensures AckIn(Wrapped, WrapSender(s), Wrap(ack)) == WrapSender(AckIn(Unbounded, s, ack))
  {
    PushWrapped(s, data);
    DeleteWrapped(s.sendBuf, ack);
  }

  /** In the two-party system the condition above is met in every run, also one that duplicates,
      whenever at most 2^31 less one packet of bytes are outstanding beyond `rcv_nxt` and the
      packet that arrives is no older than 2^31 bytes. */
  lemma {:induction false} OutstandingBoundsSuffice(s: State, e: ReceiverEvent, u: nat, r: nat)
    requires Linked(s, u, r) && Queued(s.rcv) && ReceiverEnabled(s.rcv, e)
    requires s.snd.sndNxt - s.rcv.rcvNxt <= HALF - if Tidy(s.rcv) then 0 else MSS
    requires e.Arrive? ==> e.seg in s.sent && s.rcv.rcvNxt - HALF <= e.seg.pos
    ensures EventNear(s.rcv, e)
  {
    forall x | x in s.rcv.ofo ensures s.rcv.rcvNxt <= x.pos + MSS && x.pos < s.snd.sndNxt {
      SentBeforeNext(s, x, u, r);
    }
    match e
    case Arrive(seg) =>
      SentBeforeNext(s, seg, u, r);
      forall i | 0 <= i < |s.rcv.ofo| && s.rcv.rcvNxt <= seg.pos ensures Near(seg.pos, s.rcv.ofo[i].pos) {
        assert s.rcv.ofo[i] in s.rcv.ofo;
      }
    case Drain =>
      if s.rcv.ofo != [] { assert s.rcv.ofo[0] in s.rcv.ofo; }
    case _ =>
  }
}
