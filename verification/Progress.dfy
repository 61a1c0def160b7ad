/** When the receiver can wedge: exactly when a packet that is still queued arrives once more.
    Until then delivery can always be completed; afterwards nothing beyond that packet is ever
    accepted. A network that does not duplicate data never brings this about. */
module Progress {
  import opened Seq32
  import opened Endpoints
  import opened Transfer

  ghost predicate Increasing(q: seq<Segment>)
  {
    forall i, j :: 0 <= i < j < |q| ==> q[i].pos < q[j].pos
  }

  ghost predicate Sorted(q: seq<Segment>)
  {
    forall i, j :: 0 <= i < j < |q| ==> q[i].pos <= q[j].pos
  }

  /** The queue without an entry that is accepted and only waits for room. */
  function Unaccepted(r: Receiver): seq<Segment>
  {
    if r.phase.Waiting? && r.ofo != [] then r.ofo[1..] else r.ofo
  }

  /** The queue is strictly sorted and nothing in it is behind the stream. */
  ghost predicate Tidy(r: Receiver)
  {
    && Increasing(Unaccepted(r))
    && (forall x :: x in Unaccepted(r) ==> r.rcvNxt <= x.pos)
    && (r.phase.Idle? ==> forall x :: x in r.ofo ==> r.rcvNxt < x.pos)
  }

  /** What the steps of a receiver take for granted of its queue: segments of the stream. */
  ghost predicate Knows(iss: int, sent: seq<Segment>, r: Receiver)
  {
    Chained(iss, sent) && (forall x :: x in r.ofo ==> x in sent) && (r.phase.Waiting? ==> r.ofo != [])
  }

  /** Where insertion puts the new entry: after all entries not later than it. */
  lemma {:induction false} InsertionPoint(ar: Arith, ofo: seq<Segment>, seg: Segment) returns (k: nat)
    ensures k <= |ofo|
    ensures InsertOfo(ar, ofo, seg) == ofo[..k] + [seg] + ofo[k..]
    ensures forall i :: 0 <= i < k ==> !ar.Less(seg.pos, ofo[i].pos)
    ensures k < |ofo| ==> ar.Less(seg.pos, ofo[k].pos)
  {
    k := 0;
    if ofo != [] && !ar.Less(seg.pos, ofo[0].pos) {
      var rest := ofo[1..];
      k := InsertionPoint(ar, rest, seg);
      InsertionBelow(ofo, k, seg);
      forall i | 0 <= i < k + 1 ensures !ar.Less(seg.pos, ofo[i].pos) {
        if i > 0 { assert ofo[i] == rest[i - 1]; }
      }
      k := k + 1;
    }
  }

  lemma InsertionBelow(ofo: seq<Segment>, k: nat, seg: Segment)
    requires ofo != [] && k < |ofo|
    ensures [ofo[0]] + (ofo[1..][..k] + [seg] + ofo[1..][k..]) == ofo[..k + 1] + [seg] + ofo[k + 1..]
  {}

  lemma IncreasingAround(ofo: seq<Segment>, k: nat, seg: Segment)
    requires Increasing(ofo) && k <= |ofo|
    requires forall i :: 0 <= i < k ==> ofo[i].pos < seg.pos
    requires forall i :: k <= i < |ofo| ==> seg.pos < ofo[i].pos
    ensures Increasing(ofo[..k] + [seg] + ofo[k..])
  {}

  /** Insertion keeps the queue strictly sorted exactly when no entry starts where the new
      one does; an equal start is what a repeated packet brings. */
  lemma {:induction false} InsertIncreasing(ofo: seq<Segment>, seg: Segment)
    requires Increasing(ofo)
    ensures Increasing(InsertOfo(Unbounded, ofo, seg)) <==>
            forall i :: 0 <= i < |ofo| ==> ofo[i].pos != seg.pos
  {
    var k := InsertionPoint(Unbounded, ofo, seg);
    if i :| 0 <= i < |ofo| && ofo[i].pos == seg.pos {
      var q := ofo[..k] + [seg] + ofo[k..];
      assert i < k && q[i] == ofo[i] && q[k] == seg;
    } else {
      IncreasingAround(ofo, k, seg);
    }
  }

  lemma {:induction false} InsertSorted(ofo: seq<Segment>, seg: Segment)
    requires Sorted(ofo)
    ensures Sorted(InsertOfo(Unbounded, ofo, seg))
  {
    var k := InsertionPoint(Unbounded, ofo, seg);
    var q := ofo[..k] + [seg] + ofo[k..];
    assert forall i :: 0 <= i < |q| ==> q[i] == if i < k then ofo[i] else if i == k then seg else ofo[i - 1];
  }

  lemma SamePlaceSameSegment(iss: int, sent: seq<Segment>, x: Segment, y: Segment)
    requires Chained(iss, sent) && x in sent && y in sent && x.pos == y.pos
    ensures x == y
  {
    var i: nat :| i < |sent| && sent[i] == x;
    var j: nat :| j < |sent| && sent[j] == y;
    assert Placed(iss, sent, i) && Placed(iss, sent, j);
    PositionIsIndex(iss, sent, i, j);
  }

  /** A segment that starts later starts at or after the other's end. */
  lemma LaterStartsAfter(iss: int, sent: seq<Segment>, x: Segment, y: Segment)
    requires Chained(iss, sent) && x in sent && y in sent && y.pos < x.pos
    ensures y.pos + |y.data| <= x.pos
  {
    var i: nat :| i < |sent| && sent[i] == x;
    var j: nat :| j < |sent| && sent[j] == y;
    assert Placed(iss, sent, i) && Placed(iss, sent, j);
    PositionIsIndex(iss, sent, j, i);
    PositionIsIndex(iss, sent, i, j + 1);
  }

  lemma SentBeforeNext(s: State, x: Segment, u: nat, r: nat)
    requires Linked(s, u, r) && x in s.sent
    ensures x.pos + |x.data| <= s.snd.sndNxt && 0 < |x.data| <= MSS
  {
    var i: nat :| i < |s.sent| && s.sent[i] == x;
    assert Placed(s.iss, s.sent, i);
    SegmentEndsBy(s.iss, s.sent, i, |s.sent|);
  }

  // ------------------------------------------------------- what the queue looks like in every run

  /** Sorted, and nothing in it further behind the stream than one packet. */
  ghost predicate Queued(r: Receiver)
  {
    Sorted(r.ofo) && forall x :: x in r.ofo ==> r.rcvNxt <= x.pos + MSS
  }

  lemma TailSorted(q: seq<Segment>)
    requires Sorted(q) && q != []
    ensures Sorted(q[1..])
    ensures forall x :: x in q[1..] ==> x in q && q[0].pos <= x.pos
  {
    forall x | x in q[1..] ensures x in q && q[0].pos <= x.pos {
      var i :| 0 <= i < |q[1..]| && q[1..][i] == x;
      assert q[i + 1] == x;
    }
  }

  lemma TailIncreasing(q: seq<Segment>)
    requires Increasing(q) && q != []
    ensures Increasing(q[1..])
    ensures forall x :: x in q[1..] ==> x in q && q[0].pos < x.pos
  {
    forall x | x in q[1..] ensures x in q && q[0].pos < x.pos {
      var i :| 0 <= i < |q[1..]| && q[1..][i] == x;
      assert q[i + 1] == x;
    }
  }

  lemma HeadIsLeast(q: seq<Segment>, x: Segment)
    requires Sorted(q) && x in q
    ensures q[0].pos <= x.pos
  {
    var i :| 0 <= i < |q| && q[i] == x;
  }

  lemma {:induction false} QueuedAfter(iss: int, sent: seq<Segment>, r: Receiver, e: ReceiverEvent)
    requires Knows(iss, sent, r) && Queued(r) && ReceiverEnabled(r, e)
    ensures Queued(React(Unbounded, r, e).rcv)
  {
    match e
    case Arrive(seg) =>
      InsertSorted(r.ofo, seg);
      InsertedAreKnown(Unbounded, r.ofo, seg);
    case Drain =>
      if r.ofo != [] && r.rcvNxt == r.ofo[0].pos {
        assert r.ofo[0] in r.ofo;
        SizeInStream(iss, sent, r.ofo[0]);
        forall x | x in r.ofo ensures r.rcvNxt + |r.ofo[0].data| <= x.pos + MSS {
          HeadIsLeast(r.ofo, x);
        }
      }
    case Store => TailSorted(r.ofo);
    case Read(_) =>
  }

  lemma SizeInStream(iss: int, sent: seq<Segment>, x: Segment)
    requires Chained(iss, sent) && x in sent
    ensures 0 < |x.data| <= MSS
  {
    var i: nat :| i < |sent| && sent[i] == x;
    assert Placed(iss, sent, i);
  }

  // ---------------------------------------------------------------- without a repeated arrival

  lemma {:induction false} TidyAfter(iss: int, sent: seq<Segment>, r: Receiver, e: ReceiverEvent)
    requires Knows(iss, sent, r) && Tidy(r) && ReceiverEnabled(r, e)
    requires e.Arrive? ==> e.seg in sent && (r.rcvNxt <= e.seg.pos ==> e.seg !in r.ofo)
    ensures Tidy(React(Unbounded, r, e).rcv) && !React(Unbounded, r, e).out.Stuck?
  {
    match e
    case Arrive(seg) =>
      if r.rcvNxt <= seg.pos { TidyInsert(iss, sent, r, seg); }
    case Drain => TidyDrain(iss, sent, r);
    case Store =>
    case Read(_) =>
  }

  lemma TidyInsert(iss: int, sent: seq<Segment>, r: Receiver, seg: Segment)
    requires Knows(iss, sent, r) && Tidy(r) && r.phase.Idle? && seg in sent && r.rcvNxt <= seg.pos && seg !in r.ofo
    ensures Tidy(r.(ofo := InsertOfo(Unbounded, r.ofo, seg), phase := Draining))
  {
    forall i | 0 <= i < |r.ofo| ensures r.ofo[i].pos != seg.pos {
      assert r.ofo[i] in r.ofo;
      if r.ofo[i].pos == seg.pos { SamePlaceSameSegment(iss, sent, r.ofo[i], seg); }
    }
    InsertIncreasing(r.ofo, seg);
    InsertedAreKnown(Unbounded, r.ofo, seg);
  }

  lemma AcceptedIsBelowRest(iss: int, sent: seq<Segment>, q: seq<Segment>)
    requires Chained(iss, sent) && Increasing(q) && q != [] && forall x :: x in q ==> x in sent
    ensures Increasing(q[1..]) && forall x :: x in q[1..] ==> q[0].pos + |q[0].data| <= x.pos
  {
    TailIncreasing(q);
    forall x | x in q[1..] ensures q[0].pos + |q[0].data| <= x.pos {
      LaterStartsAfter(iss, sent, x, q[0]);
    }
  }

  lemma TidyDrain(iss: int, sent: seq<Segment>, r: Receiver)
    requires Knows(iss, sent, r) && Tidy(r) && r.phase.Draining?
    ensures Tidy(React(Unbounded, r, Drain).rcv) && !React(Unbounded, r, Drain).out.Stuck?
  {
    if r.ofo != [] {
      assert r.ofo[0] in r.ofo;
      if r.ofo[0].pos == r.rcvNxt {
        AcceptedIsBelowRest(iss, sent, r.ofo);
      } else {
        assert Sorted(r.ofo);
        forall x | x in r.ofo ensures r.rcvNxt < x.pos { HeadIsLeast(r.ofo, x); }
      }
    }
  }

  lemma LinkedKnows(s: State, u: nat, r: nat)
    requires Linked(s, u, r)
    ensures Knows(s.iss, s.sent, s.rcv)
  {}

  /** A packet that the stream has not passed arrives while a copy of it is in the queue. */
  ghost predicate Repeats(s: State, st: Step)
  {
    st.RecvData? && s.rcv.rcvNxt <= st.seg.pos && st.seg in s.rcv.ofo
  }

  ghost predicate NoRepeat(s: State, run: seq<Step>)
    requires ValidRun(s, run)
    decreases |run|
  {
    run == [] || (!Repeats(s, run[0]) && NoRepeat(Next(s, run[0]), run[1..]))
  }

  /** What a step does to the receiver is one of its own events or nothing. */
  lemma ReceiverMoves(s: State, st: Step)
    requires Enabled(s, st)
    ensures Next(s, st).rcv ==
              if st.RecvData? then React(Unbounded, s.rcv, Arrive(st.seg)).rcv
              else if st.Receive? then React(Unbounded, s.rcv, st.e).rcv
              else s.rcv
  {}

  lemma {:induction false} TidyAfterStep(s: State, st: Step, u: nat, r: nat)
    requires Linked(s, u, r) && Tidy(s.rcv) && Enabled(s, st) && !Repeats(s, st)
    ensures Tidy(Next(s, st).rcv)
  {
    ReceiverMoves(s, st);
    LinkedKnows(s, u, r);
    if st.RecvData? {
      TidyAfter(s.iss, s.sent, s.rcv, Arrive(st.seg));
    } else if st.Receive? {
      TidyAfter(s.iss, s.sent, s.rcv, st.e);
    }
  }

  lemma {:induction false} QueuedAfterStep(s: State, st: Step, u: nat, r: nat)
    requires Linked(s, u, r) && Queued(s.rcv) && Enabled(s, st)
    ensures Queued(Next(s, st).rcv)
  {
    ReceiverMoves(s, st);
    LinkedKnows(s, u, r);
    if st.RecvData? {
      QueuedAfter(s.iss, s.sent, s.rcv, Arrive(st.seg));
    } else if st.Receive? {
      QueuedAfter(s.iss, s.sent, s.rcv, st.e);
    }
  }

  /** In every run, with or without repeats: the queue is sorted. */
  lemma {:induction false} QueuedAfterRun(s: State, run: seq<Step>, u: nat, r: nat)
    requires Linked(s, u, r) && Queued(s.rcv) && ValidRun(s, run)
    ensures Queued(After(s, run).rcv)
    decreases |run|
  {
    if run != [] {
      QueuedAfterStep(s, run[0], u, r);
      var u', r' := LinkedAfterStep(s, run[0], u, r);
      QueuedAfterRun(Next(s, run[0]), run[1..], u', r');
    }
  }

  lemma {:induction false} TidyAfterRun(s: State, run: seq<Step>, u: nat, r: nat) returns (u': nat, r': nat)
    requires Linked(s, u, r) && Tidy(s.rcv) && ValidRun(s, run) && NoRepeat(s, run)
    ensures Linked(After(s, run), u', r') && Tidy(After(s, run).rcv)
    decreases |run|
  {
    u', r' := u, r;
    if run != [] {
      TidyAfterStep(s, run[0], u, r);
      u', r' := LinkedAfterStep(s, run[0], u, r);
      u', r' := TidyAfterRun(Next(s, run[0]), run[1..], u', r');
    }
  }

  /** In every run without a repeated arrival, whatever the network loses, reorders and
      duplicates: the queue stays strictly sorted and above `rcv_nxt`, and the loop that empties
      it never takes its `return -1`. */
  lemma {:induction false} NoRepeatNeverStuck(iss: int, capacity: nat, run: seq<Step>)
    requires ValidRun(Init(iss, capacity), run) && NoRepeat(Init(iss, capacity), run)
    ensures var t := After(Init(iss, capacity), run);
            Tidy(t.rcv) && (t.rcv.phase.Draining? ==> !React(Unbounded, t.rcv, Drain).out.Stuck?)
  {
    var u, r := TidyAfterRun(Init(iss, capacity), run, 0, 0);
    var t := After(Init(iss, capacity), run);
    LinkedKnows(t, u, r);
    if t.rcv.phase.Draining? { TidyDrain(t.iss, t.sent, t.rcv); }
  }

  // --------------------------------------------------------- a network that does not duplicate

  /** How many copies of a segment exist between the sender and the receiver's stream. */
  function Copies(s: State, seg: Segment): nat
  {
    s.data[seg] + multiset(s.rcv.ofo)[seg]
  }

  ghost predicate Unique(s: State)
  {
    forall x: Segment :: s.rcv.rcvNxt < x.pos ==> Copies(s, x) <= 1
  }

  lemma UniqueWhenNoMore(s: State, t: State)
    requires Unique(s) && s.rcv.rcvNxt <= t.rcv.rcvNxt
    requires forall x: Segment :: t.rcv.rcvNxt < x.pos ==> Copies(t, x) <= Copies(s, x)
    ensures Unique(t)
  {
    forall x: Segment | t.rcv.rcvNxt < x.pos ensures Copies(t, x) <= 1 {
      assert Copies(s, x) <= 1;
    }
  }

  lemma UniqueAfterSend(s: State, bytes: seq<byte>, u: nat, r: nat)
    requires Linked(s, u, r) && Unique(s) && 0 < |bytes| <= MSS
    ensures Unique(Next(s, Send(bytes)))
  {
    var seg, t := Segment(s.snd.sndNxt, bytes), Next(s, Send(bytes));
    if seg in s.sent { SentBeforeNext(s, seg, u, r); }
    assert seg !in s.data && seg !in s.rcv.ofo && multiset(s.rcv.ofo)[seg] == 0;
    forall x: Segment | t.rcv.rcvNxt < x.pos ensures Copies(t, x) <= 1 {
      assert Copies(s, x) <= 1;
    }
  }

  /** Only the head is resent, and it starts no later than `rcv_nxt`. */
  lemma HeadIsBehind(s: State, u: nat, r: nat)
    requires Linked(s, u, r) && s.snd.sendBuf != []
    ensures u < |s.sent| && s.snd.sendBuf[0] == s.sent[u]
    ensures s.sent[u].pos <= s.rcv.rcvNxt && (u == r <==> s.sent[u].pos == s.rcv.rcvNxt)
  {
    assert Placed(s.iss, s.sent, u);
    PositionIsIndex(s.iss, s.sent, u, r);
  }

  lemma UniqueAfterArrival(s: State, seg: Segment)
    requires Unique(s) && Enabled(s, RecvData(seg))
    ensures Unique(Next(s, RecvData(seg)))
  {
    InsertionAddsOne(Unbounded, s.rcv.ofo, seg);
    UniqueWhenNoMore(s, Next(s, RecvData(seg)));
  }

  lemma CopiesOfTail(s: State)
    requires s.rcv.ofo != []
    ensures forall x: Segment :: multiset(s.rcv.ofo[1..])[x] <= multiset(s.rcv.ofo)[x]
  {
    assert s.rcv.ofo == [s.rcv.ofo[0]] + s.rcv.ofo[1..];
  }

  lemma UniqueAfterReceive(s: State, e: ReceiverEvent)
    requires Unique(s) && !e.Arrive? && ReceiverEnabled(s.rcv, e)
    ensures Unique(Deliver(s, e))
  {
    if e.Store? { CopiesOfTail(s); }
    UniqueWhenNoMore(s, Deliver(s, e));
  }

  lemma UniqueOnNetwork(s: State, t: State)
    requires Unique(s) && t.rcv == s.rcv && t.data <= s.data
    ensures Unique(t)
  {
    UniqueWhenNoMore(s, t);
  }

  lemma UniqueAfterResend(s: State, u: nat, r: nat)
    requires Linked(s, u, r) && Unique(s) && s.snd.sendBuf != []
    ensures Unique(Next(s, Retransmit))
  {
    HeadIsBehind(s, u, r);
    UniqueWhenNoMore(s, Next(s, Retransmit));
  }

  lemma {:induction false} UniqueAfterStep(s: State, st: Step, u: nat, r: nat)
    requires Linked(s, u, r) && Unique(s) && Enabled(s, st) && !st.DuplicateData?
    ensures Unique(Next(s, st))
  {
    match st
    case Send(bytes) => UniqueAfterSend(s, bytes, u, r);
    case Retransmit => UniqueAfterResend(s, u, r);
    case RecvData(seg) => UniqueAfterArrival(s, seg);
    case Receive(e) => UniqueAfterReceive(s, e);
    case LoseData(_) => UniqueOnNetwork(s, Next(s, st));
    case RecvAck(_) => UniqueOnNetwork(s, Next(s, st));
    case LoseAck(_) => UniqueOnNetwork(s, Next(s, st));
    case DuplicateAck(_) => UniqueOnNetwork(s, Next(s, st));
  }

  lemma UniqueNeverRepeats(s: State, st: Step)
    requires Tidy(s.rcv) && Unique(s) && Enabled(s, st)
    ensures !Repeats(s, st)
  {
    if st.RecvData? && s.rcv.rcvNxt < st.seg.pos {
      assert Copies(s, st.seg) <= 1;
      assert st.seg !in multiset(s.rcv.ofo);
    }
  }

  ghost predicate NoDuplication(run: seq<Step>)
  {
    forall i :: 0 <= i < |run| ==> !run[i].DuplicateData?
  }

  lemma {:induction false} UniqueAfterRun(s: State, run: seq<Step>, u: nat, r: nat)
    requires Linked(s, u, r) && Tidy(s.rcv) && Unique(s) && ValidRun(s, run) && NoDuplication(run)
    ensures NoRepeat(s, run) && Unique(After(s, run))
    decreases |run|
  {
    if run != [] {
      UniqueNeverRepeats(s, run[0]);
      TidyAfterStep(s, run[0], u, r);
      UniqueAfterStep(s, run[0], u, r);
      var u', r' := LinkedAfterStep(s, run[0], u, r);
      UniqueAfterRun(Next(s, run[0]), run[1..], u', r');
    }
  }

  /** In every run without duplication of data, however the network loses and reorders: every
      segment above `rcv_nxt` has at most one copy in the network and the queue together, no
      arrival is repeated, and so the receiver is never stuck. */
  lemma {:induction false} ReceiverNeverStuck(iss: int, capacity: nat, run: seq<Step>)
    requires ValidRun(Init(iss, capacity), run) && NoDuplication(run)
    ensures NoRepeat(Init(iss, capacity), run)
    ensures var t := After(Init(iss, capacity), run);
            && Unique(t) && Tidy(t.rcv)
            && (t.rcv.phase.Draining? ==> !React(Unbounded, t.rcv, Drain).out.Stuck?)
  {
    UniqueAfterRun(Init(iss, capacity), run, 0, 0);
    NoRepeatNeverStuck(iss, capacity, run);
  }

  // ------------------------------------------------------------ delivery can be completed

  /** Some run without duplication leads from `s` to `t`. */
  ghost predicate CanReach(s: State, t: State)
  {
    exists run :: ValidRun(s, run) && NoDuplication(run) && After(s, run) == t
  }

  lemma ReachNothing(s: State)
    ensures CanReach(s, s)
  {
    assert ValidRun(s, []) && NoDuplication([]) && After(s, []) == s;
  }

  lemma ReachVia(s: State, st: Step, t: State)
    requires Enabled(s, st) && !st.DuplicateData? && CanReach(Next(s, st), t)
    ensures CanReach(s, t)
  {
    var rest :| ValidRun(Next(s, st), rest) && NoDuplication(rest) && After(Next(s, st), rest) == t;
    var run := [st] + rest;
    assert run[0] == st && run[1..] == rest;
    assert ValidRun(s, run) && NoDuplication(run) && After(s, run) == t;
  }

  lemma ReachTransitive(s: State, m: State, t: State)
    requires CanReach(s, m) && CanReach(m, t)
    ensures CanReach(s, t)
  {
    var one :| ValidRun(s, one) && NoDuplication(one) && After(s, one) == m;
    var two :| ValidRun(m, two) && NoDuplication(two) && After(m, two) == t;
    RunsCompose(s, one, two);
    assert NoDuplication(one + two);
  }

  /** A good state of the same transfer, the handler ready and the ring empty. */
  ghost predicate AtRest(t: State, s: State, u: nat, r: nat)
  {
    && Linked(t, u, r) && Tidy(t.rcv)
    && t.rcv.phase.Idle? && t.rcv.ring == []
    && t.sent == s.sent && t.rcv.capacity == s.rcv.capacity
  }

  /** What a step towards rest keeps, and that it is one. */
  ghost predicate Nearer(s: State, st: Step, u: nat, r: nat, r': nat)
    requires Enabled(s, st)
  {
    var t := Next(s, st);
    && !st.DuplicateData? && r <= r'
    && Linked(t, u, r') && Tidy(t.rcv) && t.sent == s.sent && t.rcv.capacity == s.rcv.capacity
    && (|t.rcv.ofo| < |s.rcv.ofo| ||
        (|t.rcv.ofo| == |s.rcv.ofo| &&
         (Rank(t.rcv) < Rank(s.rcv) || (Rank(t.rcv) == Rank(s.rcv) && |t.rcv.ring| < |s.rcv.ring|))))
  }

  function Rank(r: Receiver): nat
  {
    if r.phase.Idle? then 0 else if r.phase.Waiting? then 1 else 2
  }

  lemma DrainNearer(s: State, u: nat, r: nat) returns (r': nat)
    requires Linked(s, u, r) && Tidy(s.rcv) && s.rcv.phase.Draining?
    ensures Nearer(s, Receive(Drain), u, r, r')
    ensures s.rcv.ofo != [] && s.rcv.ofo[0].pos == s.rcv.rcvNxt ==> r < r'
  {
    r' := LinkedAfterDrain(s, u, r);
    TidyAfterStep(s, Receive(Drain), u, r);
  }

  lemma ReadNearer(s: State, u: nat, r: nat)
    requires Linked(s, u, r) && Tidy(s.rcv) && s.rcv.ring != []
    ensures Enabled(s, Receive(Read(|s.rcv.ring|))) && Nearer(s, Receive(Read(|s.rcv.ring|)), u, r, r)
  {
    LinkedAfterRead(s, |s.rcv.ring|, u, r);
    TidyAfterStep(s, Receive(Read(|s.rcv.ring|)), u, r);
  }

  lemma StoreNearer(s: State, u: nat, r: nat)
    requires Linked(s, u, r) && Tidy(s.rcv) && s.rcv.phase.Waiting? && s.rcv.ring == [] && MSS <= s.rcv.capacity
    ensures Enabled(s, Receive(Store)) && Nearer(s, Receive(Store), u, r, r)
  {
    assert Placed(s.iss, s.sent, r - 1);
    LinkedAfterStore(s, u, r);
    TidyAfterStep(s, Receive(Store), u, r);
  }

  /** Reads and queue steps alone bring the receiver to rest. */
  lemma {:induction false} Settle(s: State, u: nat, r: nat) returns (t: State, r': nat)
    requires Linked(s, u, r) && Tidy(s.rcv) && MSS <= s.rcv.capacity
    ensures CanReach(s, t) && AtRest(t, s, u, r') && r <= r'
    ensures s.rcv.phase.Draining? && s.rcv.ofo != [] && s.rcv.ofo[0].pos == s.rcv.rcvNxt ==> r < r'
    decreases |s.rcv.ofo|, Rank(s.rcv), |s.rcv.ring|
  {
    if s.rcv.phase.Draining? {
      r' := DrainNearer(s, u, r);
      t, r' := SettleOn(s, Receive(Drain), u, r, r');
    } else if s.rcv.ring != [] {
      ReadNearer(s, u, r);
      t, r' := SettleOn(s, Receive(Read(|s.rcv.ring|)), u, r, r);
    } else if s.rcv.phase.Waiting? {
      StoreNearer(s, u, r);
      t, r' := SettleOn(s, Receive(Store), u, r, r);
    } else {
      t, r' := s, r;
      ReachNothing(s);
    }
  }

  lemma {:induction false} SettleOn(s: State, st: Step, u: nat, r: nat, m: nat) returns (t: State, r': nat)
    requires Linked(s, u, r) && MSS <= s.rcv.capacity && Enabled(s, st) && Nearer(s, st, u, r, m)
    ensures CanReach(s, t) && AtRest(t, s, u, r') && m <= r'
    decreases |s.rcv.ofo|, Rank(s.rcv), |s.rcv.ring|, 0
  {
    t, r' := Settle(Next(s, st), u, m);
    ReachVia(s, st, t);
  }

  /** The head is resent ... */
  lemma HeadResent(s: State, u: nat, r: nat) returns (m: State)
    requires AtRest(s, s, u, r) && u < |s.sent|
    ensures Enabled(s, Retransmit) && m == Next(s, Retransmit)
    ensures s.sent[u] in m.data && AtRest(m, s, u, r)
  {
    HeadIsBehind(s, u, r);
    m := Next(s, Retransmit);
    LinkedAfterNetwork(s, m, u, r);
  }

  /** ... and arrives, to be acknowledged or to be next in the queue. */
  lemma HeadArrives(m: State, head: Segment, u: nat, r: nat) returns (t: State)
    requires AtRest(m, m, u, r) && 0 < m.rcv.capacity && head in m.data && head.pos <= m.rcv.rcvNxt
    ensures Enabled(m, RecvData(head)) && t == Next(m, RecvData(head))
    ensures t.sent == m.sent && t.rcv.capacity == m.rcv.capacity
    ensures Linked(t, u, r) && Tidy(t.rcv)
    ensures head.pos < m.rcv.rcvNxt ==> AtRest(t, m, u, r) && t.rcv.rcvNxt == m.rcv.rcvNxt && t.rcv.rcvNxt in t.acks
    ensures head.pos == m.rcv.rcvNxt ==>
              t.rcv.phase.Draining? && t.rcv.ofo != [] && t.rcv.ofo[0].pos == t.rcv.rcvNxt
  {
    LinkedAfterNetwork(m, m.(data := m.data - multiset{head}), u, r);
    LinkedAfterArrive(m.(data := m.data - multiset{head}), head, u, r);
    assert !Repeats(m, RecvData(head));
    TidyAfterStep(m, RecvData(head), u, r);
    t := Next(m, RecvData(head));
    if head.pos == m.rcv.rcvNxt && m.rcv.ofo != [] {
      assert m.rcv.ofo[0] in m.rcv.ofo;
    }
  }

  lemma HeadAgain(s: State, u: nat, r: nat) returns (t: State)
    requires AtRest(s, s, u, r) && 0 < s.rcv.capacity && u < |s.sent|
    ensures CanReach(s, t) && t.sent == s.sent && t.rcv.capacity == s.rcv.capacity
    ensures Linked(t, u, r) && Tidy(t.rcv)
    ensures u < r ==> AtRest(t, s, u, r) && t.rcv.rcvNxt in t.acks
    ensures u == r ==> t.rcv.phase.Draining? && t.rcv.ofo != [] && t.rcv.ofo[0].pos == t.rcv.rcvNxt
  {
    HeadIsBehind(s, u, r);
    var m := HeadResent(s, u, r);
    t := HeadArrives(m, s.sent[u], u, r);
    ReachNothing(t);
    ReachVia(m, RecvData(s.sent[u]), t);
    ReachVia(s, Retransmit, t);
  }

  lemma AckTaken(m: State, u: nat, r: nat) returns (t: State, u': nat)
    requires AtRest(m, m, u, r) && u < r && m.rcv.rcvNxt in m.acks
    ensures CanReach(m, t) && AtRest(t, m, u', r) && u < u'
  {
    var ack := m.rcv.rcvNxt;
    PositionIsIndex(m.iss, m.sent, u, r);
    u' := LinkedAfterAck(m, ack, u, r);
    PositionIsIndex(m.iss, m.sent, u, u');
    t := Next(m, RecvAck(ack));
    ReachNothing(t);
    ReachVia(m, RecvAck(ack), t);
  }

  /** From rest, the head of the send buffer can be got accepted and acknowledged. */
  lemma {:induction false} DeliverHead(s: State, u: nat, r: nat) returns (t: State, u': nat, r': nat)
    requires AtRest(s, s, u, r) && MSS <= s.rcv.capacity && u < |s.sent|
    ensures CanReach(s, t) && AtRest(t, s, u', r') && u < u'
    decreases u == r
  {
    var m := HeadAgain(s, u, r);
    r' := r;
    if u < r {
      t, u' := AckTaken(m, u, r);
    } else {
      var q;
      q, r' := Settle(m, u, r);
      t, u', r' := DeliverHead(q, u, r');
      ReachTransitive(m, q, t);
    }
    ReachTransitive(s, m, t);
  }

  lemma {:induction false} DeliverAll(s: State, u: nat, r: nat) returns (t: State)
    requires AtRest(s, s, u, r) && MSS <= s.rcv.capacity
    ensures CanReach(s, t) && AtRest(t, s, |s.sent|, |s.sent|)
    decreases |s.sent| - u
  {
    if u == |s.sent| {
      ReachNothing(s);
      t := s;
    } else {
      var m, u', r' := DeliverHead(s, u, r);
      t := DeliverAll(m, u', r');
      ReachTransitive(s, m, t);
    }
  }

  lemma CompleteFrom(s: State, u: nat, r: nat) returns (t: State)
    requires Linked(s, u, r) && Tidy(s.rcv) && MSS <= s.rcv.capacity
    ensures CanReach(s, t) && t.sent == s.sent
    ensures t.got == Concat(s.sent) && t.snd.sendBuf == []
  {
    var m, r' := Settle(s, u, r);
    t := DeliverAll(m, u, r');
    ReachTransitive(s, m, t);
    assert t.sent[..|t.sent|] == t.sent;
    assert Accepted(t) == t.got;
  }

  /** No state reached without a repeated arrival is a dead end: whatever the network has lost,
      reordered or duplicated so far, if the ring can hold one full segment, the run can go on,
      and without further duplication, until every byte written is read and the send buffer is
      empty. */
  lemma {:induction false} DeliveryCanComplete(iss: int, capacity: nat, run: seq<Step>) returns (t: State)
    requires ValidRun(Init(iss, capacity), run) && NoRepeat(Init(iss, capacity), run) && MSS <= capacity
    ensures CanReach(After(Init(iss, capacity), run), t)
    ensures t.sent == After(Init(iss, capacity), run).sent
    ensures t.got == Concat(t.sent) && t.snd.sendBuf == []
  {
    var s := Init(iss, capacity);
    IssKept(s, run);
    var u, r := TidyAfterRun(s, run, 0, 0);
    t := CompleteFrom(After(s, run), u, r);
  }

  // ------------------------------------------------------------ after a repeated arrival

  /** The queue holds a spare copy of a segment: two copies while the stream has not passed it,
      or one copy once the stream stands right behind it. */
  ghost predicate Jammed(r: Receiver, seg: Segment)
  {
    || (r.rcvNxt <= seg.pos && 2 <= multiset(Unaccepted(r))[seg])
    || (r.rcvNxt == seg.pos + |seg.data| && seg in Unaccepted(r))
  }

  lemma {:induction false} JammedAfter(iss: int, sent: seq<Segment>, r: Receiver, e: ReceiverEvent, seg: Segment)
    requires Knows(iss, sent, r) && Queued(r) && Jammed(r, seg) && seg in sent && ReceiverEnabled(r, e)
    ensures Jammed(React(Unbounded, r, e).rcv, seg)
  {
    match e
    case Arrive(x) => InsertionAddsOne(Unbounded, r.ofo, x);
    case Drain => JammedDrain(iss, sent, r, seg);
    case Store =>
    case Read(_) =>
  }

  /** The head moves the stream at most to the end of the segment that has a spare copy. */
  lemma CopiesInTail(q: seq<Segment>, seg: Segment)
    requires q != []
    ensures multiset(q)[seg] == multiset(q[1..])[seg] + if q[0] == seg then 1 else 0
  {
    assert q == [q[0]] + q[1..];
  }

  lemma JammedDrain(iss: int, sent: seq<Segment>, r: Receiver, seg: Segment)
    requires Knows(iss, sent, r) && Queued(r) && Jammed(r, seg) && seg in sent && r.phase.Draining?
    ensures Jammed(React(Unbounded, r, Drain).rcv, seg)
  {
    assert seg in r.ofo by { assert seg in multiset(r.ofo); }
    var head := r.ofo[0];
    assert head in r.ofo;
    HeadIsLeast(r.ofo, seg);
    SizeInStream(iss, sent, seg);
    if head.pos == r.rcvNxt {
      CopiesInTail(r.ofo, seg);
      if head.pos == seg.pos {
        SamePlaceSameSegment(iss, sent, head, seg);
      } else {
        LaterStartsAfter(iss, sent, seg, head);
      }
    }
  }

  lemma {:induction false} JammedAfterStep(s: State, st: Step, u: nat, r: nat, seg: Segment)
    requires Linked(s, u, r) && Queued(s.rcv) && Jammed(s.rcv, seg) && seg in s.sent && Enabled(s, st)
    ensures Jammed(Next(s, st).rcv, seg) && seg in Next(s, st).sent
  {
    ReceiverMoves(s, st);
    LinkedKnows(s, u, r);
    if st.RecvData? {
      JammedAfter(s.iss, s.sent, s.rcv, Arrive(st.seg), seg);
    } else if st.Receive? {
      JammedAfter(s.iss, s.sent, s.rcv, st.e, seg);
    }
  }

  lemma {:induction false} JammedForever(s: State, run: seq<Step>, u: nat, r: nat, seg: Segment)
      returns (u': nat, r': nat)
    requires Linked(s, u, r) && Queued(s.rcv) && Jammed(s.rcv, seg) && seg in s.sent && ValidRun(s, run)
    ensures Linked(After(s, run), u', r') && Queued(After(s, run).rcv)
    ensures Jammed(After(s, run).rcv, seg) && seg in After(s, run).sent
    decreases |run|
  {
    u', r' := u, r;
    if run != [] {
      JammedAfterStep(s, run[0], u, r, seg);
      QueuedAfterStep(s, run[0], u, r);
      u', r' := LinkedAfterStep(s, run[0], u, r);
      u', r' := JammedForever(Next(s, run[0]), run[1..], u', r', seg);
    }
  }

  lemma RepeatJams(s: State, seg: Segment, u: nat, r: nat)
    requires Linked(s, u, r) && Enabled(s, RecvData(seg)) && Repeats(s, RecvData(seg))
    ensures Jammed(Next(s, RecvData(seg)).rcv, seg) && seg in s.sent
  {
    InsertionAddsOne(Unbounded, s.rcv.ofo, seg);
    assert seg in multiset(s.rcv.ofo);
  }

  /** After a repeated arrival, in every continuation, nothing beyond the repeated segment is
      ever accepted. */
  lemma {:induction false} RepeatWedges(iss: int, capacity: nat, run: seq<Step>, seg: Segment, more: seq<Step>)
    requires ValidRun(Init(iss, capacity), run)
    requires Enabled(After(Init(iss, capacity), run), RecvData(seg))
    requires Repeats(After(Init(iss, capacity), run), RecvData(seg))
    requires ValidRun(Next(After(Init(iss, capacity), run), RecvData(seg)), more)
    ensures After(Next(After(Init(iss, capacity), run), RecvData(seg)), more).rcv.rcvNxt <= seg.pos + |seg.data|
  {
    var s, st := After(Init(iss, capacity), run), RecvData(seg);
    var u, r := LinkedAfterRun(Init(iss, capacity), run, 0, 0);
    QueuedAfterRun(Init(iss, capacity), run, 0, 0);
    RepeatJams(s, seg, u, r);
    QueuedAfterStep(s, st, u, r);
    u, r := LinkedAfterStep(s, st, u, r);
    u, r := JammedForever(Next(s, st), more, u, r, seg);
  }

  lemma {:induction false} RepeatedRunJams(s: State, run: seq<Step>, u: nat, r: nat)
      returns (seg: Segment, u': nat, r': nat)
    requires Linked(s, u, r) && Queued(s.rcv) && ValidRun(s, run) && !NoRepeat(s, run)
    ensures Linked(After(s, run), u', r') && Queued(After(s, run).rcv)
    ensures Jammed(After(s, run).rcv, seg) && seg in After(s, run).sent
    decreases |run|
  {
    QueuedAfterStep(s, run[0], u, r);
    u', r' := LinkedAfterStep(s, run[0], u, r);
    if Repeats(s, run[0]) {
      seg := run[0].seg;
      RepeatJams(s, seg, u, r);
      u', r' := JammedForever(Next(s, run[0]), run[1..], u', r', seg);
    } else {
      seg, u', r' := RepeatedRunJams(Next(s, run[0]), run[1..], u', r');
    }
  }

  /** Some continuation writes more and gets all of it read. */
  ghost predicate CanDeliverMore(s: State)
  {
    exists more :: ValidRun(s, more) && DeliversMore(s, After(s, more))
  }

  ghost predicate DeliversMore(s: State, t: State)
  {
    |s.sent| < |t.sent| && t.got == Concat(t.sent)
  }

  lemma {:induction false} SentGrows(s: State, run: seq<Step>)
    requires ValidRun(s, run)
    ensures s.sent <= After(s, run).sent
    decreases |run|
  {
    if run != [] { SentGrows(Next(s, run[0]), run[1..]); }
  }

  /** A write, and then everything delivered. */
  lemma TidyDeliversMore(s: State, u: nat, r: nat)
    requires Linked(s, u, r) && Tidy(s.rcv) && MSS <= s.rcv.capacity
    ensures CanDeliverMore(s)
  {
    var st := Send([0]);
    LinkedAfterSend(s, [0], u, r);
    var t := CompleteFrom(Next(s, st), u, r);
    ReachVia(s, st, t);
    var more :| ValidRun(s, more) && NoDuplication(more) && After(s, more) == t;
    assert DeliversMore(s, After(s, more));
  }

  lemma JammedDeliversNoMore(s: State, u: nat, r: nat, seg: Segment, more: seq<Step>)
    requires Linked(s, u, r) && Queued(s.rcv) && Jammed(s.rcv, seg) && seg in s.sent && ValidRun(s, more)
    ensures !DeliversMore(s, After(s, more))
  {
    var t := After(s, more);
    var u', r' := JammedForever(s, more, u, r, seg);
    SentGrows(s, more);
    IssKept(s, more);
    if DeliversMore(s, t) {
      SentBeforeNext(s, seg, u, r);
      SizeInStream(t.iss, t.sent, seg);
      BoundIsLength(t.iss, t.sent, r');
      BoundIsLength(t.iss, t.sent, |t.sent|);
      assert t.sent[..|t.sent|] == t.sent;
      assert |t.got| <= |Accepted(t)|;
      PrefixBound(s.iss, s.sent, t.sent);
      PositionIsIndex(t.iss, t.sent, |s.sent|, |t.sent|);
    }
  }

  lemma {:induction false} PrefixBound(iss: int, sent: seq<Segment>, more: seq<Segment>)
    requires sent <= more
    ensures Bound(iss, more, |sent|) == Bound(iss, sent, |sent|)
    decreases |sent|
  {
    if sent != [] {
      var front := sent[..|sent| - 1];
      PrefixBound(iss, front, sent);
      PrefixBound(iss, front, more);
    }
  }

  /** Exactly when the receiver is wedged. For every run, whatever the network did in it: some
      continuation still delivers new data if and only if no packet arrived while a copy of it
      was waiting in the queue ahead of the stream. */
  lemma {:induction false} WedgedExactly(iss: int, capacity: nat, run: seq<Step>)
    requires ValidRun(Init(iss, capacity), run) && MSS <= capacity
    ensures CanDeliverMore(After(Init(iss, capacity), run)) <==> NoRepeat(Init(iss, capacity), run)
  {
    var s := Init(iss, capacity);
    var t := After(s, run);
    IssKept(s, run);
    if NoRepeat(s, run) {
      var u, r := TidyAfterRun(s, run, 0, 0);
      TidyDeliversMore(t, u, r);
    } else {
      var seg, u, r := RepeatedRunJams(s, run, 0, 0);
      forall more | ValidRun(t, more) ensures !DeliversMore(t, After(t, more)) {
        JammedDeliversNoMore(t, u, r, seg, more);
      }
    }
  }

  // -------------------------------------------------------------------- one duplicate suffices

  /** An entry below `rcv_nxt` at the head of the queue, not waiting for room. */
  ghost predicate Wedged(r: Receiver)
  {
    !r.phase.Waiting? && r.ofo != [] && r.ofo[0].pos < r.rcvNxt
  }

  lemma WedgedStays(r: Receiver, e: ReceiverEvent)
    requires Wedged(r) && ReceiverEnabled(r, e)
    ensures Wedged(React(Unbounded, r, e).rcv) && React(Unbounded, r, e).rcv.rcvNxt == r.rcvNxt
  {}

  /** Once wedged, no step whatever moves `rcv_nxt` or frees the receiver. */
  lemma {:induction false} WedgedForever(s: State, run: seq<Step>)
    requires Wedged(s.rcv) && ValidRun(s, run)
    ensures Wedged(After(s, run).rcv) && After(s, run).rcv.rcvNxt == s.rcv.rcvNxt
    decreases |run|
  {
    if run != [] {
      var st := run[0];
      ReceiverMoves(s, st);
      if st.RecvData? { WedgedStays(s.rcv, Arrive(st.seg)); }
      if st.Receive? { WedgedStays(s.rcv, st.e); }
      WedgedForever(Next(s, st), run[1..]);
    }
  }

  lemma {:induction false} Extend(s: State, run: seq<Step>, st: Step) returns (longer: seq<Step>)
    requires ValidRun(s, run) && Enabled(After(s, run), st)
    ensures ValidRun(s, longer) && After(s, longer) == Next(After(s, run), st)
  {
    longer := run + [st];
    assert ValidRun(After(s, run), [st]);
    RunsCompose(s, run, [st]);
  }

  /** Two packets are sent and the second is duplicated. */
  lemma SecondDuplicated(iss: int, capacity: nat) returns (run: seq<Step>)
    ensures ValidRun(Init(iss, capacity), run)
    ensures var t := After(Init(iss, capacity), run);
            && t.rcv == Init(iss, capacity).rcv
            && Segment(iss, [1]) in t.data
            && t.data[Segment(iss + 1, [2])] == 2
  {
    var s := Init(iss, capacity);
    run := Extend(s, [], Send([1]));
    run := Extend(s, run, Send([2]));
    run := Extend(s, run, DuplicateData(Segment(iss + 1, [2])));
  }

  /** A packet ahead of the stream, the queue empty or ahead too, is only queued. */
  lemma ArriveEarly(s: State, run: seq<Step>, next: int, ofo: seq<Segment>, capacity: nat, seg: Segment)
      returns (longer: seq<Step>)
    requires ValidRun(s, run) && 0 < capacity && seg in After(s, run).data
    requires After(s, run).rcv == Receiver(next, ofo, [], capacity, Idle)
    requires next < seg.pos && (ofo != [] ==> next < ofo[0].pos)
    ensures ValidRun(s, longer)
    ensures After(s, longer).rcv == Receiver(next, InsertOfo(Unbounded, ofo, seg), [], capacity, Idle)
    ensures After(s, longer).data == After(s, run).data - multiset{seg}
  {
    longer := Extend(s, run, RecvData(seg));
    assert After(s, longer).rcv == Receiver(next, InsertOfo(Unbounded, ofo, seg), [], capacity, Draining);
    longer := Extend(s, longer, Receive(Drain));
  }

  /** One copy arrives before the first packet does. */
  lemma OneCopyEarly(iss: int, capacity: nat) returns (run: seq<Step>)
    requires 2 <= capacity
    ensures ValidRun(Init(iss, capacity), run)
    ensures var t := After(Init(iss, capacity), run);
            && t.rcv == Receiver(iss, [Segment(iss + 1, [2])], [], capacity, Idle)
            && Segment(iss, [1]) in t.data && Segment(iss + 1, [2]) in t.data
  {
    var s, two := Init(iss, capacity), Segment(iss + 1, [2]);
    var first := SecondDuplicated(iss, capacity);
    var t := After(s, first);
    assert t.rcv == Receiver(iss, [], [], capacity, Idle) && two in t.data;
    assert InsertOfo(Unbounded, [], two) == [two];
    run := ArriveEarly(s, first, iss, [], capacity, two);
    assert After(s, run).data[two] == 1;
  }

  /** And so does the other. */
  lemma BothCopiesEarly(iss: int, capacity: nat) returns (run: seq<Step>)
    requires 2 <= capacity
    ensures ValidRun(Init(iss, capacity), run)
    ensures var t := After(Init(iss, capacity), run);
            && t.rcv == Receiver(iss, [Segment(iss + 1, [2]), Segment(iss + 1, [2])], [], capacity, Idle)
            && Segment(iss, [1]) in t.data
  {
    var two := Segment(iss + 1, [2]);
    var first := OneCopyEarly(iss, capacity);
    assert InsertOfo(Unbounded, [two], two) == [two, two];
    run := ArriveEarly(Init(iss, capacity), first, iss, [two], capacity, two);
  }

  /** The entry at `rcv_nxt` is accepted and stored. */
  lemma AcceptHead(s: State, run: seq<Step>, head: Segment, rest: seq<Segment>, ring: seq<byte>, capacity: nat)
      returns (longer: seq<Step>)
    requires ValidRun(s, run) && |ring| + |head.data| <= capacity
    requires After(s, run).rcv == Receiver(head.pos, [head] + rest, ring, capacity, Draining)
    ensures ValidRun(s, longer)
    ensures After(s, longer).rcv == Receiver(head.pos + |head.data|, rest, ring + head.data, capacity, Draining)
  {
    longer := Extend(s, run, Receive(Drain));
    assert After(s, longer).rcv == Receiver(head.pos + |head.data|, [head] + rest, ring, capacity, Waiting);
    longer := Extend(s, longer, Receive(Store));
    assert ([head] + rest)[1..] == rest;
  }

  lemma FirstArrives(iss: int, capacity: nat) returns (run: seq<Step>)
    requires 2 <= capacity
    ensures ValidRun(Init(iss, capacity), run)
    ensures var one, two := Segment(iss, [1]), Segment(iss + 1, [2]);
            After(Init(iss, capacity), run).rcv == Receiver(iss, [one] + [two, two], [], capacity, Draining)
  {
    var one, two := Segment(iss, [1]), Segment(iss + 1, [2]);
    run := BothCopiesEarly(iss, capacity);
    run := Extend(Init(iss, capacity), run, RecvData(one));
    assert InsertOfo(Unbounded, [two, two], one) == [one] + [two, two];
  }

  /** Duplicating one packet that arrives early wedges the receiver: the spare copy is left
      at the head of the queue, below `rcv_nxt`. */
  lemma {:induction false} DuplicationCanWedge(iss: int, capacity: nat) returns (run: seq<Step>)
    requires 2 <= capacity
    ensures ValidRun(Init(iss, capacity), run)
    ensures Wedged(After(Init(iss, capacity), run).rcv)
  {
    var s, one, two := Init(iss, capacity), Segment(iss, [1]), Segment(iss + 1, [2]);
    run := FirstArrives(iss, capacity);
    run := AcceptHead(s, run, one, [two, two], [], capacity);
    assert [two, two] == [two] + [two];
    run := AcceptHead(s, run, two, [two], [1], capacity);
  }
}
