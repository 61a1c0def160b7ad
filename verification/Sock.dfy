/** The established socket of tcp_sock.c, tcp_in.c, tcp_out.c and tcp_timer.c: one object
    whose methods edit its lists in place, on 32-bit sequence numbers. Each method is proved
    against the step functions of the endpoints and of the congestion states. */
module Sock {
  import opened Seq32
  import opened Endpoints
  import opened RingBuffers
  import Transfer
  import Wraparound
  import R = NewReno
  import S = Sessions
  import W = Wire

  datatype Packet = Data(seg: Segment, ack: int) | Control(pos: int, ack: int)

  /** The data packets among some that are sent, oldest first. */
  function Payloads(ps: seq<Packet>): seq<Segment>
  {
    if ps == [] then [] else (if ps[0].Data? then [ps[0].seg] else []) + Payloads(ps[1..])
  }

  lemma OnePayload(seg: Segment, ack: int)
    ensures Payloads([Data(seg, ack)]) == [seg] && Payloads([]) == []
  {}

  // ----------------------------------------------- the loops of the socket, as functions

  datatype Drained = Drained(rcv: Receiver, acks: seq<int>, stuck: bool)

  /** The queue-emptying loop, run until it ends or sleeps for want of room. */
  function DrainLoop(ar: Arith, r: Receiver): Drained
    requires r.phase.Waiting? ==> r.ofo != []
    decreases |r.ofo|, if r.phase.Draining? then 1 else 0
  {
    if r.phase.Idle? then Drained(r, [], false)
    else if r.phase.Waiting? then
      if |r.ofo[0].data| <= r.Free() then DrainLoop(ar, React(ar, r, Store).rcv)
      else Drained(r, [], false)
    else
      var re := React(ar, r, Drain);
      if re.out.Ack? then
        var d := DrainLoop(ar, re.rcv);
        Drained(d.rcv, [re.out.ack] + d.acks, d.stuck)
      else Drained(re.rcv, [], re.out.Stuck?)
  }

  /** The loop's result, given what one turn sent and what the turns after it do. */
  function Resumed(acked: seq<int>, d: Drained, stuck: bool): Drained
  {
    Drained(d.rcv, acked + d.acks, d.stuck || stuck)
  }

  lemma ResumedTwice(a: seq<int>, b: seq<int>, d: Drained, stuck: bool)
    ensures Resumed(a, Resumed(b, d, stuck), false) == Resumed(a + b, d, stuck)
  {}

  lemma ResumedNothing(a: seq<int>, r: Receiver, stuck: bool)
    ensures Resumed(a, Drained(r, [], false), stuck) == Drained(r, a, stuck)
  {}

  /** The measure by which each turn shortens the loop. */
  ghost predicate Turns(r: Receiver, r': Receiver)
  {
    |r'.ofo| < |r.ofo| || (r'.ofo == r.ofo && r.phase.Draining? && !r'.phase.Draining?)
  }

  lemma DrainLoopTurns(ar: Arith, r: Receiver, r': Receiver, acked: seq<int>, stuck: bool)
    requires r.phase.Waiting? ==> r.ofo != []
    requires r'.phase.Waiting? ==> r'.ofo != []
    requires
      || (r.phase.Waiting? && ReceiverEnabled(r, Store) && !stuck && acked == [] && r' == React(ar, r, Store).rcv)
      || (r.phase.Draining? && r' == React(ar, r, Drain).rcv && stuck == React(ar, r, Drain).out.Stuck?
          && acked == if r'.phase.Waiting? then [r'.rcvNxt] else [])
    ensures DrainLoop(ar, r) == Resumed(acked, DrainLoop(ar, r'), stuck)
    ensures Turns(r, r')
  {}

  function AcksOf(os: seq<Output>): seq<int>
  {
    if os == [] then []
    else (if os[0].Ack? then [os[0].ack] else []) + AcksOf(os[1..])
  }

  /** The loop is a run of the receiver's atomic steps, with the same acknowledgements: every
      property of all runs is a property of the loop, wherever other threads cut in. */
  lemma {:induction false} DrainLoopIsRun(ar: Arith, r: Receiver) returns (es: seq<ReceiverEvent>)
    requires r.phase.Waiting? ==> r.ofo != []
    ensures Wraparound.ReceiverRun(ar, r, es)
    ensures Wraparound.ReceiverAfter(ar, r, es) == DrainLoop(ar, r).rcv
    ensures AcksOf(Wraparound.Outputs(ar, r, es)) == DrainLoop(ar, r).acks
    ensures forall i :: 0 <= i < |es| ==> es[i].Drain? || es[i].Store?
    ensures DrainLoop(ar, r).stuck <==> Stuck in Wraparound.Outputs(ar, r, es)
    decreases |r.ofo|, if r.phase.Draining? then 1 else 0
  {
    es := [];
    if r.phase.Draining? || (r.phase.Waiting? && |r.ofo[0].data| <= r.Free()) {
      var e := if r.phase.Draining? then Drain else Store;
      var re := React(ar, r, e);
      var rest := [];
      if !re.rcv.phase.Idle? { rest := DrainLoopIsRun(ar, re.rcv); }
      es := [e] + rest;
      assert es[0] == e && es[1..] == rest;
      var os := Wraparound.Outputs(ar, r, es);
      assert os[0] == re.out && os[1..] == Wraparound.Outputs(ar, re.rcv, rest);
    }
  }

  /** The loop ends only when nothing is left to do: the thread is ready for the next packet, or the
      head of the queue is accepted and the ring has no room for it. */
  lemma {:induction false} DrainLoopStops(ar: Arith, r: Receiver)
    requires r.phase.Waiting? ==> r.ofo != []
    ensures var t := DrainLoop(ar, r).rcv;
            t.phase.Idle? || (t.phase.Waiting? && t.ofo != [] && t.Free() < |t.ofo[0].data|)
    decreases |r.ofo|, if r.phase.Draining? then 1 else 0
  {
    if r.phase.Draining? {
      var re := React(ar, r, Drain);
      if re.out.Ack? { DrainLoopStops(ar, re.rcv); }
    } else if r.phase.Waiting? && |r.ofo[0].data| <= r.Free() {
      DrainLoopStops(ar, React(ar, r, Store).rcv);
    }
  }

  /** One turn of the loop that deletes acknowledged entries. */
  lemma DeleteTurns(buf: seq<Segment>, i: nat, ack: int)
    requires i < |buf|
    ensures var all := buf[..i] + DeleteAcked(Wrapped, buf[i..], ack);
            if LessThan(buf[i].pos, ack) then
              var less := buf[..i] + buf[i + 1..];
              all == less[..i] + DeleteAcked(Wrapped, less[i..], ack)
            else
              all == buf[..i + 1] + DeleteAcked(Wrapped, buf[i + 1..], ack)
  {}

  /** One turn of the loop that looks for the place of a new entry. */
  lemma InsertTurns(ofo: seq<Segment>, i: nat, seg: Segment)
    requires i < |ofo|
    ensures ofo[..i] + InsertOfo(Wrapped, ofo[i..], seg) ==
              if LessThan(seg.pos, ofo[i].pos) then ofo[..i] + [seg] + ofo[i..]
              else ofo[..i + 1] + InsertOfo(Wrapped, ofo[i + 1..], seg)
  {}

  /** `tcp_sock_write` cuts the bytes into packets of at most MSS and pushes each. */
  function PushAll(ar: Arith, s: Sender, data: seq<byte>): Sender
    decreases |data|
  {
    if data == [] then s
    else
      var k := Smaller(|data|, MSS);
      PushAll(ar, Push(ar, s, data[..k]), data[k..])
  }

  ghost predicate PieceAt(ar: Arith, start: int, segs: seq<Segment>, i: nat)
    requires i < |segs|
  {
    && segs[i].pos == (if i == 0 then start else ar.Plus(segs[i - 1].pos, |segs[i - 1].data|))
    && 0 < |segs[i].data| <= 1460 && (i < |segs| - 1 ==> |segs[i].data| == 1460)
  }

  /** Pieces of 1460 bytes, the last perhaps smaller, each starting where the one before it ends. */
  ghost predicate Pieces(ar: Arith, start: int, segs: seq<Segment>)
  {
    forall i: nat :: i < |segs| ==> PieceAt(ar, start, segs, i)
  }

  lemma PiecesBehind(ar: Arith, head: Segment, rest: seq<Segment>)
    requires 0 < |head.data| <= 1460 && (rest != [] ==> |head.data| == 1460)
    requires Pieces(ar, ar.Plus(head.pos, |head.data|), rest)
    ensures Pieces(ar, head.pos, [head] + rest)
  {
    var segs := [head] + rest;
    forall i: nat | i < |segs| ensures PieceAt(ar, head.pos, segs, i) {
      if i > 0 { assert PieceAt(ar, ar.Plus(head.pos, |head.data|), rest, i - 1); }
    }
  }

  lemma FirstOfWritten(head: Segment, rest: seq<Segment>, data: seq<byte>, k: nat)
    requires k <= |data| && head.data == data[..k] && Transfer.Concat(rest) == data[k..]
    ensures Transfer.Concat([head] + rest) == data
  {
    Transfer.ConcatFirst([head] + rest);
    assert ([head] + rest)[1..] == rest && data == data[..k] + data[k..];
  }

  /** What a write queues, on either kind of numbers: pieces that concatenate to exactly the bytes
      written. */
  lemma {:induction false} WriteSegments(ar: Arith, s: Sender, data: seq<byte>) returns (segs: seq<Segment>)
    ensures PushAll(ar, s, data).sendBuf == s.sendBuf + segs
    ensures Transfer.Concat(segs) == data && Pieces(ar, s.sndNxt, segs)
    ensures data == [] ==> segs == []
    decreases |data|
  {
    segs := [];
    if data == [] {
      assert s.sendBuf + segs == s.sendBuf;
    } else {
      var k := Smaller(|data|, MSS);
      var head, t := Segment(s.sndNxt, data[..k]), Push(ar, s, data[..k]);
      var rest := WriteSegments(ar, t, data[k..]);
      segs := [head] + rest;
      assert PushAll(ar, s, data) == PushAll(ar, t, data[k..]);
      assert t.sendBuf + rest == s.sendBuf + segs;
      FirstOfWritten(head, rest, data, k);
      PiecesBehind(ar, head, rest);
    }
  }

  lemma {:induction false} PiecesStart(start: int, segs: seq<Segment>, i: nat)
    requires Pieces(Unbounded, start, segs) && i < |segs|
    ensures segs[i].pos == Transfer.Bound(start, segs, i)
  {
    assert PieceAt(Unbounded, start, segs, i);
    if i > 0 { PiecesStart(start, segs, i - 1); }
  }

  /** On unbounded positions the pieces are a chain such as the two-party system sends. */
  lemma PiecesAreChained(start: int, segs: seq<Segment>)
    requires Pieces(Unbounded, start, segs)
    ensures Transfer.Chained(start, segs)
  {
    forall i: nat | i < |segs| ensures Transfer.Placed(start, segs, i) {
      PiecesStart(start, segs, i);
      assert PieceAt(Unbounded, start, segs, i);
    }
  }

  lemma {:induction false} WriteMovesNext(s: Sender, data: seq<byte>)
    ensures PushAll(Unbounded, s, data).sndNxt == s.sndNxt + |data|
    decreases |data|
  {
    if data != [] {
      var k := Smaller(|data|, MSS);
      WriteMovesNext(Push(Unbounded, s, data[..k]), data[k..]);
    }
  }

  // ------------------------------------------------------------------------ the socket

  ghost predicate NoneEmpty(q: seq<Segment>)
  {
    forall seg :: seg in q ==> seg.data != []
  }

  class TcpSock {
    var sndNxt: int
    var sndUna: int
    var sendBuf: seq<Segment>
    var rcvNxt: int
    var ofo: seq<Segment>
    var phase: Phase
    const rcvBuf: RingBuffer
    var nrState: R.NrState
    var cwnd: real
    var ssthresh: nat
    var dupacks: nat
    var cwndFlag: bool
    var recoveryPoint: int
    var lossPoint: int
    /** What the handler of the packet being emptied into the ring does last: its ACK number. */
    var heldAck: int
    /** Packets handed to the network layer, oldest first. */
    var out: seq<Packet>

    /** Of the receiving half; the sending half's invariant is R.Consistent. */
    ghost predicate Valid()
      reads this`ofo, this`phase, rcvBuf, rcvBuf.buf
    {
      rcvBuf.Valid() && NoneEmpty(ofo) && (phase.Waiting? ==> ofo != [])
    }

    ghost function Rcv(): Receiver
      reads this`rcvNxt, this`ofo, this`phase, rcvBuf, rcvBuf.buf
      requires rcvBuf.Valid()
    {
      Receiver(rcvNxt, ofo, rcvBuf.Model().Contents(), rcvBuf.size - 1, phase)
    }

    ghost function Snd(): Sender
      reads this
    {
      Sender(sndNxt, sndUna, sendBuf)
    }

    function Congestion(): R.Reno
      reads this
    {
      R.Reno(nrState, cwnd, ssthresh, dupacks, cwndFlag, recoveryPoint, lossPoint)
    }

    /** The socket is the sending half of a session of the two ends. */
    ghost predicate Plays(s: S.Session)
      reads this
    {
      s.z.snd == Snd() && s.reno == Congestion()
    }

    /** A socket just established, its next positions agreed by the handshake. */
    constructor (snd: int, rcv: int, capacity: nat)
      ensures Valid() && fresh(rcvBuf) && fresh(rcvBuf.buf)
      ensures Snd() == Sender(snd, snd, []) && Rcv() == Receiver(rcv, [], [], capacity, Idle)
      ensures Congestion() == R.INITIAL && R.Consistent(Congestion()) && out == []
    {
      sndNxt, sndUna, sendBuf := snd, snd, [];
      rcvNxt, ofo, phase := rcv, [], Idle;
      rcvBuf := new RingBuffer(capacity);
      nrState, cwnd, ssthresh, dupacks := R.Open, 1.0, 16, 0;
      cwndFlag, recoveryPoint, lossPoint := false, 0, 0;
      heldAck, out := snd, [];
    }

    // ---- sending

    method AddSendBufferEntry(seg: Segment)
      modifies this`sendBuf
      ensures sendBuf == old(sendBuf) + [seg]
    {
      sendBuf := sendBuf + [seg];
    }

    /** Sequence assignment; the copy is queued before the packet leaves. */
    method TcpSendPacket(data: seq<byte>)
      modifies this`sndNxt, this`sendBuf, this`out
      ensures Snd() == Push(Wrapped, old(Snd()), data)
      ensures out == old(out) + [Data(Segment(old(sndNxt), data), rcvNxt)]
      ensures Congestion() == old(Congestion())
    {
      var seg := Segment(sndNxt, data);
      sndNxt := Wrap(sndNxt + |data|);
      AddSendBufferEntry(seg);
      out := out + [Data(seg, rcvNxt)];
    }

    method TcpSockWrite(buf: seq<byte>) returns (written: nat)
      modifies this`sndNxt, this`sendBuf, this`out
      ensures Snd() == PushAll(Wrapped, old(Snd()), buf)
      ensures |old(sendBuf)| <= |sendBuf| && sendBuf[..|old(sendBuf)|] == old(sendBuf)
      ensures |out| - |old(out)| == |sendBuf| - |old(sendBuf)|
      ensures forall i :: |old(out)| <= i < |out| ==>
                out[i] == Data(sendBuf[i - |old(out)| + |old(sendBuf)|], rcvNxt)
      ensures Transfer.Concat(sendBuf[|old(sendBuf)|..]) == buf
      ensures Pieces(Wrapped, old(sndNxt), sendBuf[|old(sendBuf)|..])
      ensures written == |buf|
    {
      ghost var segs := WriteSegments(Wrapped, Snd(), buf);
      var offset := 0;
      while offset < |buf|
        invariant 0 <= offset <= |buf|
        invariant PushAll(Wrapped, Snd(), buf[offset..]) == PushAll(Wrapped, old(Snd()), buf)
        invariant |old(sendBuf)| <= |sendBuf| && sendBuf[..|old(sendBuf)|] == old(sendBuf)
        invariant |out| - |old(out)| == |sendBuf| - |old(sendBuf)|
        invariant forall i :: |old(out)| <= i < |out| ==>
                    out[i] == Data(sendBuf[i - |old(out)| + |old(sendBuf)|], rcvNxt)
      {
        var single := Smaller(|buf| - offset, MSS);
        assert buf[offset..][..single] == buf[offset..offset + single];
        assert buf[offset..][single..] == buf[offset + single..];
        TcpSendPacket(buf[offset..offset + single]);
        offset := offset + single;
      }
      return |buf|;
    }

    /** The head of the send buffer, if `resent` says that it went out again. */
    ghost function Resent(resent: bool): seq<Packet>
      reads this`sendBuf, this`rcvNxt
    {
      if resent && sendBuf != [] then [Data(sendBuf[0], rcvNxt)] else []
    }

    /** The head of the buffer, if any, goes out again with a current acknowledgement. */
    method RetransSendBufferPacket()
      modifies this`out
      ensures sendBuf == [] ==> out == old(out)
      ensures sendBuf != [] ==> out == old(out) + [Data(sendBuf[0], rcvNxt)]
    {
      if sendBuf == [] { return; }
      out := out + [Data(sendBuf[0], rcvNxt)];
    }

    method DeleteSendBufferEntry(ack: int) returns (isDeleted: bool)
      modifies this`sendBuf
      ensures sendBuf == DeleteAcked(Wrapped, old(sendBuf), ack)
      ensures isDeleted <==> |sendBuf| < |old(sendBuf)|
      ensures |sendBuf| <= |old(sendBuf)|
    {
      isDeleted := false;
      var i := 0;
      ghost var all := DeleteAcked(Wrapped, sendBuf, ack);
      assert sendBuf[0..] == sendBuf;
      while i < |sendBuf|
        invariant 0 <= i <= |sendBuf| <= |old(sendBuf)|
        invariant sendBuf[..i] + DeleteAcked(Wrapped, sendBuf[i..], ack) == all
        invariant isDeleted <==> |sendBuf| < |old(sendBuf)|
        decreases |sendBuf| - i
      {
        DeleteTurns(sendBuf, i, ack);
        if LessThan(sendBuf[i].pos, ack) {
          sendBuf := sendBuf[..i] + sendBuf[i + 1..];
          isDeleted := true;
        } else {
          i := i + 1;
        }
      }
    }

    // ---- congestion control

    method UpdateCwnd()
      requires 0.5 < cwnd
      modifies this`cwnd
      ensures Congestion() == R.UpdateCwnd(old(Congestion()))
    {
      if cwnd.Floor < ssthresh {
        cwnd := cwnd + 1.0;
      } else {
        cwnd := cwnd + 1.0 / cwnd;
      }
    }

    method ShrinkCwnd()
      modifies this`cwnd, this`cwndFlag
      ensures Congestion() == R.Shrink(old(Congestion()))
    {
      if cwnd > ssthresh as real && !cwndFlag {
        cwnd := cwnd - 0.5;
      } else {
        cwndFlag := true;
      }
    }

    method AckInOpen(isNewAck: bool, ghost ack: int)
      requires R.Consistent(Congestion()) && nrState.Open?
      modifies this`cwnd, this`dupacks, this`nrState
      ensures Congestion() == R.OnAck(old(Congestion()), isNewAck, ack, sndNxt)
    {
      if isNewAck {
        UpdateCwnd();
      } else {
        dupacks := dupacks + 1;
        UpdateCwnd();
        nrState := R.Disorder;
      }
    }

    method AckInDisorder(isNewAck: bool, ghost ack: int)
      requires R.Consistent(Congestion()) && nrState.Disorder?
      modifies this`cwnd, this`ssthresh, this`dupacks, this`nrState, this`cwndFlag, this`recoveryPoint, this`out
      ensures Congestion() == R.OnDisorder(old(Congestion()), isNewAck, sndNxt)
      ensures out == old(out) + Resent(R.Resends(old(Congestion()), isNewAck, ack))
    {
      if isNewAck {
        UpdateCwnd();
        nrState := R.Open;
        dupacks := 0;
      } else {
        dupacks := dupacks + 1;
        UpdateCwnd();
        if dupacks == 3 {
          EnterRecovery();
        }
      }
    }

    method EnterRecovery()
      modifies this`cwnd, this`ssthresh, this`nrState, this`cwndFlag, this`recoveryPoint, this`out
      ensures var r := old(Congestion());
              Congestion() == r.(ssthresh := R.Halved(r.cwnd), cwnd := r.cwnd - 0.5, flag := false,
                                 recoveryPoint := sndNxt, state := R.Recovery)
      ensures out == old(out) + Resent(true)
    {
      ssthresh := R.Halved(cwnd);
      cwnd := cwnd - 0.5;
      cwndFlag := false;
      recoveryPoint := sndNxt;
      RetransSendBufferPacket();
      nrState := R.Recovery;
    }

    method AckInLoss(isNewAck: bool, ack: int)
      requires R.Consistent(Congestion()) && nrState.Loss?
      modifies this`cwnd, this`dupacks, this`nrState
      ensures Congestion() == R.OnAck(old(Congestion()), isNewAck, ack, sndNxt)
    {
      if isNewAck {
        UpdateCwnd();
        if ack >= lossPoint {
          nrState := R.Open;
          dupacks := 0;
        }
      } else {
        dupacks := dupacks + 1;
        UpdateCwnd();
      }
    }

    method AckInRecovery(isNewAck: bool, ack: int)
      requires nrState.Recovery?
      modifies this`cwnd, this`dupacks, this`nrState, this`cwndFlag, this`out
      ensures Congestion() == R.OnRecovery(old(Congestion()), isNewAck, ack)
      ensures out == old(out) + Resent(R.Resends(old(Congestion()), isNewAck, ack))
    {
      if isNewAck {
        ShrinkCwnd();
        if ack < recoveryPoint {
          RetransSendBufferPacket();
        } else {
          nrState := R.Open;
          dupacks := 0;
        }
      } else {
        dupacks := dupacks + 1;
        ShrinkCwnd();
      }
    }

    method TcpNewRenoProcess(ack: int)
      requires R.Consistent(Congestion())
      modifies this`sendBuf, this`cwnd, this`ssthresh, this`dupacks, this`nrState, this`cwndFlag,
               this`recoveryPoint, this`out
      ensures sendBuf == DeleteAcked(Wrapped, old(sendBuf), ack)
      ensures Congestion() == R.OnAck(old(Congestion()), |sendBuf| < |old(sendBuf)|, ack, sndNxt)
      ensures R.Consistent(Congestion())
      ensures var again := nrState.Recovery? && (!old(nrState).Recovery? || |sendBuf| < |old(sendBuf)|);
              out == old(out) + if again && sendBuf != [] then [Data(sendBuf[0], rcvNxt)] else []
    {
      ghost var before := Congestion();
      var isNewAck := DeleteSendBufferEntry(ack);
      R.ConsistentAfterAck(before, isNewAck, ack, sndNxt);
      R.ResendsExactly(before, isNewAck, ack, sndNxt);
      match nrState {
        case Open => AckInOpen(isNewAck, ack);
        case Disorder => AckInDisorder(isNewAck, ack);
        case Loss => AckInLoss(isNewAck, ack);
        case Recovery => AckInRecovery(isNewAck, ack);
      }
    }

    /** A packet without payload, in ESTABLISHED: `rcv_nxt` and `snd_una` are overwritten. In a session
        of the two ends this is the step that processes the acknowledgement. */
    method ProcessPureAck(pos: int, ack: int)
      requires R.Consistent(Congestion())
      modifies this`sendBuf, this`cwnd, this`ssthresh, this`dupacks, this`nrState, this`cwndFlag,
               this`recoveryPoint, this`out, this`rcvNxt, this`sndUna
      ensures Snd() == AckIn(Wrapped, old(Snd()), ack) && sndUna == ack && rcvNxt == pos
      ensures Congestion() == R.OnAck(old(Congestion()), |sendBuf| < |old(sendBuf)|, ack, sndNxt)
      ensures R.Consistent(Congestion())
      ensures var again := nrState.Recovery? && (!old(nrState).Recovery? || |sendBuf| < |old(sendBuf)|);
              out == old(out) + if again && sendBuf != [] then [Data(sendBuf[0], rcvNxt)] else []
      ensures forall s, i: nat :: old(Plays(s)) && i < |s.z.acks| && s.z.acks[i] == ack ==>
                var d := S.Step(Wrapped, s, S.Acked(i));
                Plays(d) && d.z.data == s.z.data + Payloads(out[|old(out)|..])
    {
      ghost var before, packets := Congestion(), out;
      rcvNxt := pos;
      sndUna := ack;
      TcpNewRenoProcess(ack);
      ghost var sent := out[|packets|..];
      forall s, i: nat | old(Plays(s)) && i < |s.z.acks| && s.z.acks[i] == ack
        ensures var d := S.Step(Wrapped, s, S.Acked(i)); Plays(d) && d.z.data == s.z.data + Payloads(sent)
      {
        S.StepAdvances(Wrapped, s, S.Acked(i));
        S.HeadGoesAgain(Wrapped, s, S.Acked(i));
        if sendBuf != [] { OnePayload(sendBuf[0], rcvNxt); }
      }
    }

    /** The retransmission timer fires: in a session, the step of that name. */
    method RetransTimeout()
      requires R.Consistent(Congestion())
      modifies this`ssthresh, this`cwnd, this`nrState, this`lossPoint, this`out
      ensures nrState.Loss? && cwnd == 1.0 && lossPoint == sndNxt
      ensures Congestion() == R.OnTimeout(old(Congestion()), sndNxt) && R.Consistent(Congestion())
      ensures out == old(out) + if sendBuf != [] then [Data(sendBuf[0], rcvNxt)] else []
      ensures forall s :: old(Plays(s)) ==>
                var d := S.Step(Wrapped, s, S.Expired);
                Plays(d) && d.z.data == s.z.data + Payloads(out[|old(out)|..])
    {
      ghost var packets := out;
      ssthresh := R.Halved(cwnd);
      cwnd := 1.0;
      nrState := R.Loss;
      lossPoint := sndNxt;
      RetransSendBufferPacket();
      ghost var sent := out[|packets|..];
      forall s | old(Plays(s))
        ensures var d := S.Step(Wrapped, s, S.Expired); Plays(d) && d.z.data == s.z.data + Payloads(sent)
      {
        S.StepAdvances(Wrapped, s, S.Expired);
        S.HeadGoesAgain(Wrapped, s, S.Expired);
        if sendBuf != [] { OnePayload(sendBuf[0], rcvNxt); }
      }
    }

    // ---- receiving

    method TcpSendAck()
      modifies this`out
      ensures out == old(out) + [Control(sndNxt, rcvNxt)]
    {
      out := out + [Control(sndNxt, rcvNxt)];
    }

    method AddRecvOfoBufEntry(seg: Segment)
      modifies this`ofo
      ensures ofo == InsertOfo(Wrapped, old(ofo), seg)
    {
      var i := 0;
      ghost var all := InsertOfo(Wrapped, ofo, seg);
      assert ofo[0..] == ofo;
      while i < |ofo|
        invariant 0 <= i <= |ofo| && ofo == old(ofo)
        invariant ofo[..i] + InsertOfo(Wrapped, ofo[i..], seg) == all
      {
        InsertTurns(ofo, i, seg);
        if LessThan(seg.pos, ofo[i].pos) {
          ofo := ofo[..i] + [seg] + ofo[i..];
          return;
        }
        i := i + 1;
      }
      ofo := ofo + [seg];
    }

    /** The head is acknowledged and the thread may sleep; or the loop ends. */
    method ExamineHead() returns (stuck: bool)
      requires Valid() && phase.Draining?
      modifies this`rcvNxt, this`phase, this`out
      ensures Valid()
      ensures var re := React(Wrapped, old(Rcv()), Drain);
              && Rcv() == re.rcv && stuck == re.out.Stuck?
              && out == old(out) + (if re.out.Ack? then [Control(sndNxt, re.out.ack)] else [])
    {
      stuck := false;
      if ofo == [] {
        phase := Idle;
      } else if rcvNxt == ofo[0].pos {
        rcvNxt := Wrap(rcvNxt + |ofo[0].data|);
        TcpSendAck();
        phase := Waiting;
      } else if LessThan(rcvNxt, ofo[0].pos) {
        phase := Idle;
      } else {
        phase := Idle;
        stuck := true;
      }
    }

    /** The head's bytes are appended to the ring. */
    method CopyHead()
      requires Valid() && phase.Waiting? && ReceiverEnabled(Rcv(), Store)
      modifies rcvBuf`tail, rcvBuf.buf
      ensures rcvBuf.Valid() && Rcv() == old(Rcv()).(ring := old(Rcv()).ring + ofo[0].data)
    {
      assert ofo[0] in ofo;
      UsedIsLength(rcvBuf.Model());
      rcvBuf.Write(ofo[0].data);
    }

    /** The head moves into the ring, if the ring has room for it. */
    method StoreHead() returns (stored: bool)
      requires Valid() && phase.Waiting?
      modifies this`ofo, this`phase, rcvBuf`tail, rcvBuf.buf
      ensures Valid()
      ensures stored <==> ReceiverEnabled(old(Rcv()), Store)
      ensures Rcv() == if stored then React(Wrapped, old(Rcv()), Store).rcv else old(Rcv())
    {
      var free := rcvBuf.Free();
      stored := |ofo[0].data| <= free;
      if stored {
        CopyHead();
        ofo := ofo[1..];
        phase := Draining;
      }
    }

    /** One turn of the loop; `asleep` says it cannot be taken yet for want of room. */
    method DrainTurn() returns (asleep: bool, stuck: bool, ghost acked: seq<int>)
      requires Valid() && !phase.Idle?
      modifies this`rcvNxt, this`ofo, this`phase, this`out, rcvBuf`tail, rcvBuf.buf
      ensures Valid() && (stuck ==> phase.Idle?)
      ensures asleep ==> Rcv() == old(Rcv()) && Rcv().phase.Waiting? && !ReceiverEnabled(Rcv(), Store) && !stuck
      ensures !asleep ==> Turns(old(Rcv()), Rcv())
      ensures DrainLoop(Wrapped, old(Rcv())) == Resumed(acked, DrainLoop(Wrapped, Rcv()), stuck)
      ensures out == old(out) + Acknowledgements(sndNxt, acked)
    {
      ghost var r := Rcv();
      asleep, stuck, acked := false, false, [];
      if phase.Waiting? {
        var stored := StoreHead();
        asleep := !stored;
      } else {
        stuck := ExamineHead();
        acked := if phase.Waiting? then [rcvNxt] else [];
      }
      if !asleep { DrainLoopTurns(Wrapped, r, Rcv(), acked, stuck); }
      assert out == old(out) + Acknowledgements(sndNxt, acked);
    }

    /** So far the loop, of which `all` is the result, has sent acknowledgements `sent` after `base`. */
    ghost predicate SoFar(base: seq<Packet>, all: Drained, sent: seq<int>, stuck: bool)
      reads this`rcvNxt, this`ofo, this`phase, this`sndNxt, this`out, rcvBuf, rcvBuf.buf
      requires Valid()
    {
      all == Resumed(sent, DrainLoop(Wrapped, Rcv()), stuck) && out == base + Acknowledgements(sndNxt, sent)
    }

    method NextTurn(ghost base: seq<Packet>, ghost all: Drained, ghost sent: seq<int>)
      returns (asleep: bool, stuck: bool, ghost more: seq<int>)
      requires Valid() && !phase.Idle? && SoFar(base, all, sent, false)
      modifies this`rcvNxt, this`ofo, this`phase, this`out, rcvBuf`tail, rcvBuf.buf
      ensures Valid() && (stuck ==> phase.Idle?) && SoFar(base, all, more, stuck)
      ensures asleep ==> Rcv().phase.Waiting? && !ReceiverEnabled(Rcv(), Store) && !stuck
      ensures !asleep ==> Turns(old(Rcv()), Rcv())
      ensures asleep ==> Rcv() == old(Rcv())
    {
      ghost var acked, was, packets := [], DrainLoop(Wrapped, Rcv()), out;
      asleep, stuck, acked := DrainTurn();
      more := sent + acked;
      TurnAdds(sndNxt, base, packets, out, sent, acked, all, was, DrainLoop(Wrapped, Rcv()), stuck);
    }

    /** Runs from where it last slept, until it ends or must sleep again. */
    method PutRecvOfoBufEntryToRingBuf() returns (stuck: bool)
      requires Valid()
      modifies this`rcvNxt, this`ofo, this`phase, this`out, rcvBuf`tail, rcvBuf.buf
      ensures Valid()
      ensures var d := DrainLoop(Wrapped, old(Rcv())); Rcv() == d.rcv && stuck == d.stuck
      ensures out == old(out) + Acknowledgements(sndNxt, DrainLoop(Wrapped, old(Rcv())).acks)
    {
      stuck := false;
      var asleep := false;
      ghost var sent: seq<int> := [];
      ghost var all := DrainLoop(Wrapped, Rcv());
      while !phase.Idle? && !asleep
        invariant Valid() && (stuck ==> phase.Idle?)
        invariant asleep ==> Rcv().phase.Waiting? && !ReceiverEnabled(Rcv(), Store)
        invariant SoFar(old(out), all, sent, stuck)
        decreases !asleep, |ofo|, if phase.Draining? then 1 else 0
      {
        asleep, stuck, sent := NextTurn(old(out), all, sent);
      }
      ResumedNothing(sent, Rcv(), stuck);
    }

    /** A packet with payload, in ESTABLISHED, once the ring is not full. */
    method HandleRecvData(seg: Segment, ack: int)
      requires Valid() && seg.data != []
      requires ReceiverEnabled(Rcv(), Arrive(seg))
      modifies this`rcvNxt, this`ofo, this`phase, this`sndUna, this`heldAck, this`out, rcvBuf`tail, rcvBuf.buf
      ensures Valid()
      ensures var re := React(Wrapped, old(Rcv()), Arrive(seg));
              if re.out.Ack? then
                Rcv() == re.rcv && out == old(out) + [Control(sndNxt, re.out.ack)] && sndUna == old(sndUna)
              else
                && Rcv() == DrainLoop(Wrapped, re.rcv).rcv
                && out == old(out) + Acknowledgements(sndNxt, DrainLoop(Wrapped, re.rcv).acks)
                && sndUna == (if phase.Idle? then Later(ack, old(sndUna)) else old(sndUna))
                && heldAck == ack
    {
      if LessThan(seg.pos, rcvNxt) {
        TcpSendAck();
        return;
      }
      QueueUp(seg);
      heldAck := ack;
      FinishRecvData();
    }

    method QueueUp(seg: Segment)
      requires Valid() && seg.data != [] && phase.Idle?
      modifies this`ofo, this`phase
      ensures Valid() && ofo == InsertOfo(Wrapped, old(ofo), seg) && phase == Draining
    {
      Transfer.InsertedAreKnown(Wrapped, ofo, seg);
      AddRecvOfoBufEntry(seg);
      phase := Draining;
    }

    /** The rest of the handler, from the queue's head or from where it slept: only when the queue
        is done with is `snd_una` moved. */
    method FinishRecvData()
      requires Valid() && !phase.Idle?
      modifies this`rcvNxt, this`ofo, this`phase, this`sndUna, this`out, rcvBuf`tail, rcvBuf.buf
      ensures Valid() && Rcv() == DrainLoop(Wrapped, old(Rcv())).rcv
      ensures out == old(out) + Acknowledgements(sndNxt, DrainLoop(Wrapped, old(Rcv())).acks)
      ensures sndUna == if phase.Idle? then Later(heldAck, old(sndUna)) else old(sndUna)
    {
      var stuck := PutRecvOfoBufEntryToRingBuf();
      if phase.Idle? {
        sndUna := Later(heldAck, sndUna);
      }
    }

    /** The application takes bytes; the source first sleeps until there are some. */
    method TcpSockRead(dst: array<byte>, n: nat) returns (len: nat)
      requires Valid() && n <= dst.Length && dst != rcvBuf.buf
      requires ReceiverEnabled(Rcv(), Endpoints.Read(n))
      modifies rcvBuf`head, dst
      ensures Valid()
      ensures len == ReadCount(old(Rcv()), n)
      ensures dst[..len] == old(Rcv()).ring[..len]
      ensures Rcv() == React(Wrapped, old(Rcv()), Endpoints.Read(n)).rcv
    {
      ReadIsFifo(rcvBuf.Model(), n);
      UsedIsLength(rcvBuf.Model());
      len := rcvBuf.Read(dst, n);
    }
  }

  function Later(ack: int, una: int): int
  {
    if GreaterThan(ack, una) then ack else una
  }

  /** For positions less than half the number circle apart it is the later of the two. */
  lemma LaterIsGreater(x: int, y: int)
    requires -0x8000_0000 < x - y < 0x8000_0000
    ensures Later(Wrap(x), Wrap(y)) == Wrap(if x > y then x else y)
  {
    ComparisonsAgree(x, y);
  }

  /** One ACK packet per value, in order. */
  function Acknowledgements(pos: int, acks: seq<int>): (ps: seq<Packet>)
    ensures |ps| == |acks|
  {
    if acks == [] then [] else [Control(pos, acks[0])] + Acknowledgements(pos, acks[1..])
  }

  lemma {:induction false} AcknowledgementsAppend(pos: int, acks: seq<int>, more: seq<int>)
    ensures Acknowledgements(pos, acks + more) == Acknowledgements(pos, acks) + Acknowledgements(pos, more)
  {
    if acks == [] {
      assert acks + more == more;
    } else {
      assert (acks + more)[1..] == acks[1..] + more;
      AcknowledgementsAppend(pos, acks[1..], more);
    }
  }

  /** What one turn adds to what the turns before it have sent. */
  lemma TurnAdds(pos: int, base: seq<Packet>, before: seq<Packet>, after: seq<Packet>, sent: seq<int>,
                 acked: seq<int>, all: Drained, was: Drained, is': Drained, stuck: bool)
    requires all == Resumed(sent, was, false) && before == base + Acknowledgements(pos, sent)
    requires was == Resumed(acked, is', stuck) && after == before + Acknowledgements(pos, acked)
    ensures all == Resumed(sent + acked, is', stuck) && after == base + Acknowledgements(pos, sent + acked)
  {
    AcknowledgementsAppend(pos, sent, acked);
    ResumedTwice(sent, acked, is', stuck);
  }
}
