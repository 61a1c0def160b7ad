# Verified models of the network labs

Dafny models of the protocol and algorithm cores of a set of user-level network labs, with
proofs of what they promise. `dafny verify dfyconfig.toml` checks everything.

| area | files |
|---|---|
| reliable byte transfer (EXP18) | `Seq32`, `RingBuffer`, `Transfer` (modules `Endpoints` and `Transfer`), `Progress`, `Wraparound`, `Wire`, `NewReno`, `Episodes`, `Session` (module `Sessions`), `Sock` |
| mOSPF (EXP12) | `Hops`, `LinkState`, `Dijkstra`, `Routing`, `Forwarding` (modules `Forwarding` and `Convergence`), `Addressing`, `Flooding` |
| route lookup (EXP11, EXP07) | `Tries`, `Bits`, `Lookup` |
| spanning tree (EXP06) | `Stp`, `StpNetwork` |
| address translation (EXP13) and Internet checksum (EXP13, EXP07) | `Nat`, `Checksum` |

Code that changes state in place is a class or a method over arrays, proved against step
functions; the same step functions make up the network-wide systems over which the results
about all runs are proved. So `Endpoints.React`, which `Sock.TcpSock` is proved to carry out on
32-bit numbers, is what `Transfer` runs at its receiver; `Stp.Handle`, which `Stp.Bridge` carries
out, is what `StpNetwork` runs at each switch; and so on.

## How the code is read

- **TCP.** Both ends are in ESTABLISHED and data flows one way, because a packet without payload
  overwrites `rcv_nxt`. Sequence numbers are unbounded positions in `Transfer` and 32-bit words in
  `Sock`; `Wraparound` and `Wire` join the two, and `Sessions` adds the NewReno sender to both ends.
  A thread that sleeps is a guard on a step: the receiver's phase says where the packet thread
  stands, and the queue-emptying loop resumes where it slept. `sent`, `got` and `hiAck` are history
  that no step consults. A timeout may fire at any time. The congestion window is a real number.
- **mOSPF.** The number of routers is arbitrary. A database entry's array is replaced whole. The
  installing loop makes its `idx - 1` useful turns (the last one would index with -1). Updating a
  table takes for granted what the code does: every router named in an advertisement is in the
  router list, all are less than 127 hops away, and the neighbour lists match the links; `Convergence`
  derives this from flooding. Flooding is over links that reorder but do not lose, without ageing,
  with at most 255 routers and 65535 announcements each; neighbour lists may change at any time, and
  convergence is for what was announced since they last did. `trail` and `published` are history.
  EXP12 takes its longest prefix match from a library that comes as a binary only; `Addressing`
  takes the one of EXP07, whose text there is, with networks advertised under their masks.
- **Tries.** Fresh nodes have null children. A word is its 32 bits, most significant first. The
  mask of length 0, a shift by -1 in C, is an arbitrary word.
- **Spanning tree.** Links are point to point between distinct switches. Messages stay on the
  wire, so each may arrive at any time, never, or again; a hello may be sent at any time.
- **NAT.** Packets and the clock are parameters; header numbers are compared as they stand. Runs
  leave out inbound packets for pool ports that no mapping owns, and nothing else.
- **Checksum.** Words are low byte first; sums wrap at 32 bits as the code's do.

## Where the code does less than it is meant to

- `add_node` never overwrites the port of an existing node, so a prefix inserted after one of its
  extensions, or twice, is lost, and a zero-length one always is. The tries therefore compute
  longest prefix match over the entries that took effect; `Tries.AgreementExactly` gives the exact
  condition and `Tries.LateShortPrefixIsLost` the addresses that are lost.
- `update_root` compares neighbours in the list until it first finds one better than its
  successor. The last port is never compared as a candidate: it is chosen only when it is alone or
  was the root port before. `StpNetwork.SelectionInRunsExactly` says exactly when the choice is a
  best port, in every run, and `StpNetwork.BetterRootMissedForever` gives a network of three
  switches, for any identifiers, that never converges.
- A packet that arrives ahead of the stream while a copy of it is in the out-of-order queue leaves
  a spare copy there, and the receiver never gets past it. `Progress.WedgedExactly`: this and
  nothing else stops delivery for good. Safety (`Transfer.EndToEnd`) does not need the assumption.
- The end of a loss or recovery episode is decided by comparing plain unsigned words. It is right
  exactly within one turn of the number circle (`Episodes.EpisodeEndsRightlyExactly`). Across a
  wrap-around an episode may end early, also between the two ends modelled
  (`Episodes.RecoveryLeftEarly`, `Sessions.SessionLeavesEarly`), or outstay everything outstanding
  and absorb any number of new acknowledgements up to 2^32 - 3 (`Episodes.RecoveryOverstays`).
- A stray inbound packet for a pool port creates a mapping without flagging the port:
  `Nat.InboundKeepsPoolExactly` says exactly which inbound packets keep the pool exact.
- The answer of a published server leaves with the published end only if its remote's list held no
  mapping with the server's internal end before: `Nat.AnswerIsRightExactly`.
- Distances are cut off at 127: `Dijkstra.Dijkstra` states what is computed for any size, and
  `Dijkstra.SmallNetworksAreExact` that nothing is cut off up to 127 routers.
- A 32-bit sum that wraps can lose its residue modulo 65535: `Checksum.WrappedSumKeepsResidue` is
  exact. A stored checksum verifies all the same (`Checksum.StoredBufferVerifies`).
- When a node lies on the address's first 31 bits, the leaf-pushed lookup returns a variable that
  was never set, and so does the simple one if the address's last bit is 0; if it is 1, the simple
  one looks back from that node, past any 32-bit entry. The contracts say just this.

## Model

| member | source | states |
|---|---|---|
| `Transfer.EndToEnd` | EXP18-TCP_Stack_4/code/18-tcp_stack/tcp_sock.c:516-559 | in every run over a network that loses, reorders and duplicates, the bytes read, then the ring, then an accepted segment waiting for room, are exactly the first `rcv_nxt - iss` bytes written |
| `Transfer.AckExactness` | EXP18-TCP_Stack_4/code/18-tcp_stack/tcp_sock.c:435-491 | in every run the send buffer is the gapless chain of segments from the highest acknowledgement processed up to `snd_nxt`, that acknowledgement is at most the receiver's `rcv_nxt`, and an empty buffer means that every byte written has been accepted |
| `Transfer.DeletionIsSafe` | EXP18-TCP_Stack_4/code/18-tcp_stack/tcp_sock.c:476-491 | in every run, whatever acknowledgement arrives (stale ones too), the entries removed for starting before it also end by it and by the receiver's `rcv_nxt`, and what stays is a suffix of the buffer |
| `Transfer.LinkedAfterStep` | EXP18-TCP_Stack_4/code/18-tcp_stack/tcp_in.c:66-81 | each step of either end or of the network keeps the invariant that ties the sender's head to the receiver's `rcv_nxt` and the stream |
| `Transfer.NextInStream` | EXP18-TCP_Stack_4/code/18-tcp_stack/tcp_sock.c:534-559 | a queue entry that starts at `rcv_nxt` is the next segment of the stream, so accepting it extends the accepted bytes by exactly its own |
| `Transfer.DeleteLeavesSuffix` | EXP18-TCP_Stack_4/code/18-tcp_stack/tcp_sock.c:476-491 | on a gapless buffer, scanning the whole list and deleting by start position leaves exactly the segments from the acknowledged boundary on |
| `Progress.WedgedExactly` | EXP18-TCP_Stack_4/code/18-tcp_stack/tcp_sock.c:516-559 | for every run, whatever the network loses, reorders and duplicates in it: some continuation still delivers new data if and only if no packet arrived ahead of the stream while a copy of it was in the queue |
| `Progress.NoRepeatNeverStuck` | EXP18-TCP_Stack_4/code/18-tcp_stack/tcp_sock.c:516-559 | in every run without such a repeated arrival the queue stays strictly sorted and above `rcv_nxt`, and the early `return -1` cannot be taken |
| `Progress.RepeatWedges` | EXP18-TCP_Stack_4/code/18-tcp_stack/tcp_sock.c:534-559 | after a repeated arrival, in every continuation, `rcv_nxt` never passes the end of the repeated segment |
| `Progress.ReceiverNeverStuck` | EXP18-TCP_Stack_4/code/18-tcp_stack/tcp_sock.c:493-559 | in every run without duplication of data, every segment above `rcv_nxt` exists at most once in network and queue together, so that no arrival is repeated and the receiver is never stuck |
| `Progress.InsertIncreasing` | EXP18-TCP_Stack_4/code/18-tcp_stack/tcp_sock.c:516-532 | insertion keeps the queue strictly sorted if and only if no entry starts where the new one does |
| `Progress.DeliveryCanComplete` | EXP18-TCP_Stack_4/code/18-tcp_stack/tcp_sock.c:435-559 | from every state reached without a repeated arrival, duplicates or not, some continuation without further duplication delivers every byte written to the reader and empties the send buffer, if the ring can hold one full segment: no dead ends |
| `Progress.WedgedForever` | EXP18-TCP_Stack_4/code/18-tcp_stack/tcp_sock.c:534-559 | with an entry below `rcv_nxt` at the head of the queue no run whatever moves `rcv_nxt` again |
| `Progress.DuplicationCanWedge` | EXP18-TCP_Stack_4/code/18-tcp_stack/tcp_sock.c:534-559 | a concrete run in which one duplicated packet leaves the receiver with such an entry |
| `Sock.DrainLoopIsRun` | EXP18-TCP_Stack_4/code/18-tcp_stack/tcp_sock.c:534-559 | the whole queue-emptying loop is a run of the receiver's atomic steps with the same acknowledgements, so what holds in every run holds of the loop |
| `Sock.DrainLoopStops` | EXP18-TCP_Stack_4/code/18-tcp_stack/tcp_sock.c:534-559 | the loop ends only when the handler is ready for the next packet, or the head is accepted and the ring has no room for it |
| `Sock.WriteSegments` | EXP18-TCP_Stack_4/code/18-tcp_stack/tcp_sock.c:423-458 | on unbounded and on 32-bit numbers, a write queues pieces of 1460 bytes, the last perhaps smaller, whose contents concatenate to exactly the bytes written, each starting where the previous ends |
| `Sock.TcpSock.constructor` | EXP18-TCP_Stack_4/code/18-tcp_stack/tcp_sock.c:54-91 | an established socket starts with empty lists and ring, OPEN, window 1 and threshold 16 |
| `Sock.TcpSock.TcpSendPacket` | EXP18-TCP_Stack_4/code/18-tcp_stack/tcp_out.c:32-63 | the socket makes the sender's `Push` step on 32-bit numbers and emits the packet just queued, with the old `snd_nxt` |
| `Sock.TcpSock.TcpSockWrite` | EXP18-TCP_Stack_4/code/18-tcp_stack/tcp_sock.c:435-458 | the loop queues exactly the bytes written, cut into such pieces from the old `snd_nxt` on, and each packet emitted is the matching new entry of the send buffer |
| `Sock.TcpSock.RetransSendBufferPacket` | EXP18-TCP_Stack_4/code/18-tcp_stack/tcp_sock.c:493-513 | the one packet sent carries position and bytes of the first entry of the send buffer, the oldest, and acknowledges the current `rcv_nxt`; none is sent when the buffer is empty |
| `Sock.TcpSock.DeleteSendBufferEntry` | EXP18-TCP_Stack_4/code/18-tcp_stack/tcp_sock.c:476-491 | deletion in place while scanning equals the list function `DeleteAcked`, and the answer tells exactly whether anything went |
| `Sock.TcpSock.TcpNewRenoProcess` | EXP18-TCP_Stack_4/code/18-tcp_stack/tcp_in.c:93-163 | one acknowledgement makes the congestion step `OnAck`, keeps state and counters consistent, and resends the first entry left exactly when recovery is entered or a new acknowledgement stays in it |
| `Sock.TcpSock.ProcessPureAck` | EXP18-TCP_Stack_4/code/18-tcp_stack/tcp_in.c:228-236 | a packet without payload overwrites `rcv_nxt` and `snd_una`; in a session of the two ends this is the step that processes the acknowledgement, with the same packets sent again, so that what holds in every run holds of the socket |
| `Sock.TcpSock.RetransTimeout` | EXP18-TCP_Stack_4/code/18-tcp_stack/tcp_timer.c:120-128 | a timeout enters LOSS with window 1, records `snd_nxt` and resends the first entry: the timer's step in a session of the two ends, packets included |
| `Sock.TcpSock.AddRecvOfoBufEntry` | EXP18-TCP_Stack_4/code/18-tcp_stack/tcp_sock.c:516-532 | insertion in place equals the ordered insertion `InsertOfo` under the 32-bit comparison |
| `Sock.TcpSock.PutRecvOfoBufEntryToRingBuf` | EXP18-TCP_Stack_4/code/18-tcp_stack/tcp_sock.c:534-559 | the loop over list, ring and acknowledgements equals `DrainLoop`, including where it sleeps and its -1 |
| `Sock.TcpSock.HandleRecvData` | EXP18-TCP_Stack_4/code/18-tcp_stack/tcp_in.c:66-81 | an old segment is only acknowledged; any other is queued and the queue drained; `snd_una` moves, and only forward, if the handler got to its end without sleeping |
| `Sock.TcpSock.FinishRecvData` | EXP18-TCP_Stack_4/code/18-tcp_stack/tcp_in.c:75-80 | the rest of the handler, resumed where it slept: the drain, and `snd_una` moved only when that is done |
| `Sock.LaterIsGreater` | EXP18-TCP_Stack_4/code/18-tcp_stack/tcp_in.c:78-78 | where `snd_una` moves it becomes the later of the two positions, across a wrap-around too |
| `Sock.TcpSock.TcpSockRead` | EXP18-TCP_Stack_4/code/18-tcp_stack/tcp_sock.c:412-421 | the oldest min(used, requested) bytes come out of the ring and the receiver makes its `Read` step |
| `Seq32.ComparisonsAgree` | EXP18-TCP_Stack_4/code/18-tcp_stack/include/tcp.h:10-13 | for positions less than 2^31 apart, all four macros on the wrapped numbers order them as the unbounded positions are ordered, and the wrapped difference is the true one |
| `Seq32.LessThanExactly` | EXP18-TCP_Stack_4/code/18-tcp_stack/include/tcp.h:10-13 | for any two positions, the macro says "less" if and only if their distance modulo 2^32 lies in the upper half |
| `Wraparound.ReceiverSimulation` | EXP18-TCP_Stack_4/code/18-tcp_stack/tcp_sock.c:516-559 | for whole runs, across any number of wrap-arounds, the 32-bit receiver reaches the wrapped states, delivers the same bytes and sends the wrapped acknowledgements of the unbounded one |
| `Wraparound.ReactWrapped` | EXP18-TCP_Stack_4/code/18-tcp_stack/tcp_sock.c:516-559 | the same for one step: same guard, state and output |
| `Wraparound.InsertWrapped` | EXP18-TCP_Stack_4/code/18-tcp_stack/tcp_sock.c:516-532 | ordered insertion commutes with wrapping |
| `Wraparound.SenderWrapped` | EXP18-TCP_Stack_4/code/18-tcp_stack/tcp_sock.c:470-491 | sequence assignment and acknowledgement processing commute with wrapping |
| `Wraparound.OutstandingBoundsSuffice` | EXP18-TCP_Stack_4/code/18-tcp_stack/tcp_sock.c:516-559 | in every run, also one that duplicates, the nearness these need follows from 2^31 bytes, less one packet, bounding those outstanding beyond `rcv_nxt`, and no packet older than 2^31 bytes |
| `Wire.EndToEnd32` | EXP18-TCP_Stack_4/code/18-tcp_stack/tcp_sock.c:412-559 | both ends on 32-bit numbers, from any first sequence number and across any number of wrap-arounds, over a network that loses, reorders and duplicates: while fewer than 2^31 bytes, less one packet, are unacknowledged and no packet arrives 2^31 bytes old, what is read is a prefix of what is written, and all of it is accepted when the send buffer is empty |
| `Wire.WrapsNext` | EXP18-TCP_Stack_4/code/18-tcp_stack/include/tcp.h:10-13 | each step of that system, at either end or of the network, has the same guard and the same next state as on unbounded positions, up to wrapping |
| `RingBuffers.RunIsFifo` | EXP18-TCP_Stack_4/code/18-tcp_stack/include/ring_buffer.h:56-92 | over any legal run, the bytes read followed by the contents equal the first contents followed by the bytes written |
| `RingBuffers.ReadIsFifo` | EXP18-TCP_Stack_4/code/18-tcp_stack/include/ring_buffer.h:56-74 | a read returns min(used, n) bytes, the oldest, and leaves the rest in order, also when it is split at the end |
| `RingBuffers.WriteIsFifo` | EXP18-TCP_Stack_4/code/18-tcp_stack/include/ring_buffer.h:77-92 | a write that fits appends exactly its bytes, also when it is split at the end |
| `RingBuffers.UsedIsLength` | EXP18-TCP_Stack_4/code/18-tcp_stack/include/ring_buffer.h:31-40 | used is the number of bytes held, and used + free = size - 1 |
| `RingBuffers.RingBuffer.constructor` | EXP18-TCP_Stack_4/code/18-tcp_stack/include/ring_buffer.h:15-24 | an empty buffer with the whole requested capacity free |
| `RingBuffers.RingBuffer.Used` | EXP18-TCP_Stack_4/code/18-tcp_stack/include/ring_buffer.h:31-34 | the modular formula gives the number of bytes held |
| `RingBuffers.RingBuffer.Free` | EXP18-TCP_Stack_4/code/18-tcp_stack/include/ring_buffer.h:36-40 | the capacity less the bytes held, never negative |
| `RingBuffers.RingBuffer.Read` | EXP18-TCP_Stack_4/code/18-tcp_stack/include/ring_buffer.h:56-74 | copies the oldest bytes to the destination, leaves the rest of the destination alone, and moves the head |
| `RingBuffers.RingBuffer.Write` | EXP18-TCP_Stack_4/code/18-tcp_stack/include/ring_buffer.h:77-92 | under the source's assertion, the contents grow by exactly the bytes given |
| `NewReno.AfterEvents` | EXP18-TCP_Stack_4/code/18-tcp_stack/tcp_in.c:93-163 | over every run of acknowledgements, timeouts and sends, on unbounded and on 32-bit numbers: OPEN has no duplicates counted, DISORDER one or two, RECOVERY at least three, the threshold is at least 1 and the window above 1/2 |
| `NewReno.ConsistentAfterAck` | EXP18-TCP_Stack_4/code/18-tcp_stack/tcp_in.c:83-163 | each acknowledgement keeps this, the window leaving room for the half that entering recovery takes off at once |
| `NewReno.SlowStart` | EXP18-TCP_Stack_4/code/18-tcp_stack/tcp_in.c:83-91 | up to the threshold k steps of growth add exactly k to the window |
| `NewReno.CongestionAvoidance` | EXP18-TCP_Stack_4/code/18-tcp_stack/tcp_in.c:83-91 | beyond it, k acknowledgements of one window add between k/(w+1) and k/w to a window w, so at most one per window |
| `NewReno.EveryAckAddsOne` | EXP18-TCP_Stack_4/code/18-tcp_stack/tcp_in.c:83-139 | over whole runs in OPEN, DISORDER and LOSS, whatever sends come between: as long as the threshold is not passed, k acknowledgements, new or not, add exactly k to the window |
| `NewReno.OneWindowAddsOne` | EXP18-TCP_Stack_4/code/18-tcp_stack/tcp_in.c:83-139 | and beyond it those of one window w add between k/(w+1) and k/w, at most one |
| `NewReno.SlowStartDoubles` | EXP18-TCP_Stack_4/code/18-tcp_stack/tcp_in.c:83-139 | so a window's worth of acknowledgements doubles it below the threshold |
| `NewReno.FreshWindow` | EXP18-TCP_Stack_4/code/18-tcp_stack/tcp_sock.c:54-91 | a fresh socket's window is 1 + k after k acknowledgements up to 16, and at most 17 after 16 more |
| `NewReno.TimeoutStartsAgain` | EXP18-TCP_Stack_4/code/18-tcp_stack/tcp_timer.c:120-128 | a timeout sets the window to 1 and the threshold to half the window, rounded down but at least 1; from there k acknowledgements bring it to 1 + k up to that half |
| `NewReno.ThirdInARowExactly` | EXP18-TCP_Stack_4/code/18-tcp_stack/tcp_in.c:96-124 | in every run from OPEN, recovery is entered on exactly the third acknowledgement in a row that is not new; before that the state is OPEN with none in a row and DISORDER with one or two |
| `NewReno.RecoveryWindow` | EXP18-TCP_Stack_4/code/18-tcp_stack/tcp_in.c:140-162 | all through an episode, on unbounded and on 32-bit numbers, the threshold stays and each acknowledgement, new or not and the ending one too, takes half a segment off the window until it is not above the threshold, and none after that |
| `NewReno.RecoveryHalves` | EXP18-TCP_Stack_4/code/18-tcp_stack/tcp_in.c:111-162 | so an episode that begins with window w and absorbs w + 2 acknowledgements leaves it at half of w, or 1, to within one and a half segments |
| `NewReno.EpisodeEndsExactly` | EXP18-TCP_Stack_4/code/18-tcp_stack/tcp_in.c:126-162 | on unbounded positions LOSS and RECOVERY end on an acknowledgement if and only if it is new and leaves no segment below the recorded point unacknowledged |
| `NewReno.NoEarlyExit` | EXP18-TCP_Stack_4/code/18-tcp_stack/tcp_in.c:126-162 | on unbounded positions, whatever the buffer holds, an episode never ends with a segment below its point left |
| `Episodes.PlainComparisonExactly` | EXP18-TCP_Stack_4/code/18-tcp_stack/tcp_in.c:126-148 | the plain unsigned comparison of two words agrees with that of the positions they stand for if and only if these lie on the same turn of the number circle |
| `Episodes.EpisodeEndsRightlyExactly` | EXP18-TCP_Stack_4/code/18-tcp_stack/tcp_in.c:126-162 | on 32-bit numbers a new acknowledgement ends an episode exactly when it leaves no segment below the point unacknowledged, if and only if it and the point lie on the same turn |
| `Episodes.RecoveryLeftEarly` | EXP18-TCP_Stack_4/code/18-tcp_stack/tcp_in.c:140-162 | a run from a fresh socket across the wrap-around that leaves recovery with two segments below the recovery point unacknowledged |
| `NewReno.RecoveryIsBounded` | EXP18-TCP_Stack_4/code/18-tcp_stack/tcp_in.c:140-162 | on unbounded positions, new acknowledgements absorbed plus segments below the point still outstanding never exceed those outstanding before |
| `NewReno.RecoveryAbsorbsOutstanding` | EXP18-TCP_Stack_4/code/18-tcp_stack/tcp_in.c:111-162 | on unbounded positions, a recovery episode absorbs at most as many new acknowledgements as segments were outstanding when it began |
| `Episodes.AdvanceWrapped` | EXP18-TCP_Stack_4/code/18-tcp_stack/tcp_in.c:93-163 | each acknowledgement, timeout or send does on 32-bit words what it does on unbounded positions, as long as an acknowledgement within an episode lies on the same turn as its point |
| `Episodes.RecoveryAbsorbsOutstanding32` | EXP18-TCP_Stack_4/code/18-tcp_stack/tcp_in.c:111-162 | so the bound on what a recovery episode absorbs holds on 32-bit words under that condition |
| `Episodes.RecoveryOverstays` | EXP18-TCP_Stack_4/code/18-tcp_stack/tcp_in.c:140-162 | and fails without it: for every n below 2^32 - 2, a run from a fresh socket whose recovery episode begins with two segments outstanding, goes on when all are acknowledged past the wrap-around, and then absorbs n new acknowledgements |
| `Sessions.EpisodesEndExactly` | EXP18-TCP_Stack_4/code/18-tcp_stack/tcp_in.c:93-163 | in every run of both ends over a network that loses, reorders and duplicates, with the timer going off at any time, an acknowledgement that arrives in an episode ends it if and only if it is new and leaves nothing below the point: all that the results on episodes presuppose of buffer and acknowledgement holds in every run |
| `Sessions.ResendsOldest` | EXP18-TCP_Stack_4/code/18-tcp_stack/tcp_sock.c:493-513 | in every run of both ends, what goes out again is exactly one packet on each timeout, on entering recovery and on each new acknowledgement that stays in it, if anything is unacknowledged, and nothing else: the packet that starts where the unacknowledged bytes start and carries the first of them, no later than what the receiver waits for |
| `Sessions.StepWraps` | EXP18-TCP_Stack_4/code/18-tcp_stack/tcp_in.c:93-163 | each step of both ends, with congestion states and resends, does on 32-bit words what it does on unbounded positions, as long as packets are timely and acknowledgements within an episode on its point's turn |
| `Sessions.Sessions32` | EXP18-TCP_Stack_4/code/18-tcp_stack/tcp_in.c:93-163 | so in every such run the 32-bit ends follow the unbounded ones, deliver a prefix of what is written, and all of it is accepted when the send buffer is empty |
| `Sessions.SessionLeavesEarly` | EXP18-TCP_Stack_4/code/18-tcp_stack/tcp_in.c:140-162 | a run of both ends on 32-bit words, the network repeating one acknowledgement, that leaves recovery with two of four segments unacknowledged below the point |
| `Dijkstra.Dijkstra` | EXP12-mOSPF/code/12-mopsf/mospf_daemon.c:473-494 | for every number of routers and every 0/1 graph, `dist` is the true hop distance cut off at 127, `prev` a tree of shortest paths, and no sum overflows an int |
| `Dijkstra.SettledTreeIsExact` | EXP12-mOSPF/code/12-mopsf/mospf_daemon.c:473-494 | labels that form a tree and that no edge can lower are the hop distances cut off at 127 |
| `Dijkstra.SmallNetworksAreExact` | EXP12-mOSPF/code/12-mopsf/mospf_daemon.c:473-494 | with at most 127 routers every router that a walk leads to has its exact distance, and 127 only means unreachable |
| `Dijkstra.MinDist` | EXP12-mOSPF/code/12-mopsf/mospf_daemon.c:459-471 | the first unvisited index with the smallest label, or -1 exactly when all are visited |
| `Dijkstra.Relax` | EXP12-mOSPF/code/12-mopsf/mospf_daemon.c:486-491 | each unvisited neighbour's label and predecessor are lowered if that helps, and no other |
| `Dijkstra.FindNextHop` | EXP12-mOSPF/code/12-mopsf/mospf_daemon.c:442-447 | terminates at a neighbour of the root that lies on a shortest path to the given router |
| `Routing.GetRouterListIndex` | EXP12-mOSPF/code/12-mopsf/mospf_daemon.c:410-416 | the first position of a router in the list, or -1 exactly when it is not there |
| `Routing.InitGraph` | EXP12-mOSPF/code/12-mopsf/mospf_daemon.c:418-440 | the matrix holds 1 exactly for the links of the database and 0x7e7e7e7e elsewhere, and its walks are the walks between the routers named |
| `LinkState.LinkMeansAdvertised` | EXP12-mOSPF/code/12-mopsf/mospf_daemon.c:430-439 | two routers are linked in the graph if and only if the database entry of one of them lists the other |
| `Routing.CheckRtable` | EXP12-mOSPF/code/12-mopsf/mospf_daemon.c:449-457 | true if and only if some route has this network and mask |
| `Routing.FindGateway` | EXP12-mOSPF/code/12-mopsf/mospf_daemon.c:527-542 | finds a neighbour entry with the identifier, or -1 exactly when no interface has one |
| `Routing.InstallRoutes` | EXP12-mOSPF/code/12-mopsf/mospf_daemon.c:543-551 | the table keeps what it had, gains one route per advertised network not yet present, all through the one gateway, and then has a route for every network advertised |
| `Routing.UpdateRouter` | EXP12-mOSPF/code/12-mopsf/mospf_daemon.c:496-555 | direct routes are kept and no network gets a second route; when the neighbour lists match the links, each gateway route is for the nearest router that advertises its network, and every advertised network has a route |
| `Routing.GoodRouteLeads` | EXP12-mOSPF/code/12-mopsf/mospf_daemon.c:496-555 | an installed route's gateway is a neighbour on a shortest path to an advertiser, and no advertiser of that network is closer |
| `Routing.Router.UpdateRtable` | EXP12-mOSPF/code/12-mopsf/mospf_daemon.c:557-563 | when every router is less than 127 hops away and the neighbour lists match the links: the direct routes are exactly the old ones, every network advertised in the database has exactly one route, and each gateway route leads over a neighbour on a shortest path to a nearest advertiser |
| `Forwarding.SameGraph` | EXP12-mOSPF/code/12-mopsf/mospf_daemon.c:418-440 | routers holding the same link-state data compute with one and the same graph, although each leaves its own advertisement out |
| `Forwarding.NextIsOneCloser` | EXP12-mOSPF/code/12-mopsf/mospf_daemon.c:496-555 | each installed next hop is exactly one hop nearer to the nearest router advertising the network |
| `Forwarding.NoForwardingLoop` | EXP12-mOSPF/code/12-mopsf/mospf_daemon.c:496-555 | hop-by-hop forwarding by all routers' own tables never meets a router twice and takes at most as many hops as the nearest advertiser is away |
| `Forwarding.ForwardingDelivers` | EXP12-mOSPF/code/12-mopsf/mospf_daemon.c:496-555 | from any router that can reach an advertiser, the installed routes lead to one in exactly the distance of the nearest |
| `Addressing.AddressLoopFree` | EXP07-Router/07-router/ip_base.c:32-48 | when every router forwards by longest prefix match in its own table, over networks that may overlap, no packet meets a router twice, whatever its destination address |
| `Addressing.AddressDelivers` | EXP07-Router/07-router/ip_base.c:32-48 | and from a router that can reach an advertiser of the network chosen, it gets to one in as many hops as the nearest is away |
| `Addressing.TablesHaveTheSame` | EXP12-mOSPF/code/12-mopsf/mospf_daemon.c:496-555 | each table has a route for every network advertised anywhere and for no other |
| `Addressing.SameChoice` | EXP07-Router/07-router/ip_base.c:32-48 | so all routers choose the same network for an address |
| `Addressing.MatchesIsPrefix` | EXP07-Router/07-router/ip_base.c:32-48 | under a contiguous mask an entry matches exactly the addresses that begin with its network's bits |
| `Addressing.ChosenIsLongest` | EXP07-Router/07-router/ip_base.c:32-48 | and the entry chosen is the first of those with the longest such prefix |
| `Addressing.FloodedIsReady` | EXP12-mOSPF/code/12-mopsf/mospf_daemon.c:102-563 | all that this takes for granted holds once flooding has settled and every router has updated its table from the direct routes to all its own networks |
| `Addressing.FloodedTablesExactly` | EXP12-mOSPF/code/12-mopsf/mospf_daemon.c:102-563 | from interfaces to tables: once flooding has settled and tables are updated, every router has a route for exactly the networks that some router's interface is on |
| `Addressing.FloodedAddressLoopFree` | EXP12-mOSPF/code/12-mopsf/mospf_daemon.c:102-563 | so from announcements to forwarding by address: no packet meets a router twice |
| `Flooding.FloodingConverges` | EXP12-mOSPF/code/12-mopsf/mospf_daemon.c:301-375 | in every run, for every origin that has announced itself since neighbour lists last changed, once no update of it is in flight every router that its links lead to stores exactly what it announced last |
| `Flooding.TtlNeverSuppresses` | EXP12-mOSPF/code/12-mopsf/mospf_daemon.c:345-376 | with at most 255 routers, an update that is accepted always has TTL left to be passed on |
| `Flooding.NoRouterHearsItself` | EXP12-mOSPF/code/12-mopsf/mospf_daemon.c:354-374 | in every run no update is on its way to its own origin, no router stores itself, and everything stored was announced by its origin under its number |
| `Flooding.OriginateKeepsUp` | EXP12-mOSPF/code/12-mopsf/mospf_daemon.c:102-172 | announcing keeps what convergence rests on, from any announcement on: what a router knows of an origin, each neighbour knows or is about to receive |
| `Flooding.DeliverKeepsUp` | EXP12-mOSPF/code/12-mopsf/mospf_daemon.c:284-376 | receiving and passing on keeps it |
| `Flooding.FutureIsKeptUp` | EXP12-mOSPF/code/12-mopsf/mospf_daemon.c:284-376 | whatever the neighbour lists were before, it holds for everything announced from now on |
| `Flooding.FloodingDiesOut` | EXP12-mOSPF/code/12-mopsf/mospf_daemon.c:345-376 | deliveries alone always come to an end, from any state, also one with a TTL of 0 that wraps to 255: their number is bounded by the load in flight |
| `Flooding.StoreReplacesOne` | EXP12-mOSPF/code/12-mopsf/mospf_daemon.c:301-343 | storing an update changes the entry of its origin and no other, and keeps one entry for each |
| `Flooding.AnnouncesNeighbours` | EXP12-mOSPF/code/12-mopsf/mospf_daemon.c:114-134 | the array filled from the interfaces names a router if and only if it is in a neighbour list |
| `Flooding.AnnouncesExactly` | EXP12-mOSPF/code/12-mopsf/mospf_daemon.c:117-134 | an entry is announced if and only if it is that of a neighbour on some interface, or names the network of an interface without neighbours and no router |
| `Flooding.AnnouncesNetworks` | EXP12-mOSPF/code/12-mopsf/mospf_daemon.c:117-134 | a network is announced if and only if an interface without neighbours is on it or a neighbour entry has it |
| `Flooding.LsuHandler.CountEntries` | EXP12-mOSPF/code/12-mopsf/mospf_daemon.c:104-113 | the first loop counts exactly the entries that the second fills in |
| `Flooding.LsuHandler.FillArray` | EXP12-mOSPF/code/12-mopsf/mospf_daemon.c:117-134 | the nested loops fill in exactly the entries to be announced: the network of each interface without neighbours, and each neighbour's network and mask with its identifier |
| `Flooding.LsuHandler.SendingMospfLsu` | EXP12-mOSPF/code/12-mopsf/mospf_daemon.c:102-172 | the 16-bit sequence number moves on by one and every neighbour is sent the array filled from the interfaces, with TTL 255 |
| `Flooding.LsuHandler.HandleMospfLsu` | EXP12-mOSPF/code/12-mopsf/mospf_daemon.c:284-376 | accepted exactly when nothing or something older is stored; then stored, and passed on to every neighbour but the origin unless the TTL, lowered as an 8-bit word, is 0 |
| `Flooding.AddressedAreMessages` | EXP12-mOSPF/code/12-mopsf/mospf_daemon.c:354-374 | the packets of the handler object are the messages of the network-wide system |
| `Convergence.FloodingSynchronises` | EXP12-mOSPF/code/12-mopsf/mospf_daemon.c:284-376 | in every run over connected routers that have announced themselves since neighbour lists last changed, once nothing is in flight each router holds the latest announcement of every other and nothing else: what the forwarding results assume |
| `Convergence.FloodedIsUsable` | EXP12-mOSPF/code/12-mopsf/mospf_daemon.c:410-457 | what flooding over at most 127 connected routers ends in meets, at every router, all that updating its table takes for granted |
| `Convergence.FloodingThenUpdatingConverges` | EXP12-mOSPF/code/12-mopsf/mospf_daemon.c:102-563 | once nothing is in flight and every router has then updated its table, the network has converged in the sense of the forwarding results |
| `Convergence.FloodedNetworkIsLoopFree` | EXP12-mOSPF/code/12-mopsf/mospf_daemon.c:102-563 | so from announcements to forwarding: no packet meets a router twice or takes more hops than the nearest advertiser is away |
| `StpNetwork.CostsAreSound` | EXP06-STP/code/06-stp/stp.c:69-104 | in every reachable state, with messages delayed, lost or repeated, each root held by a switch, a port or a message is a real switch, at a cost that is the length of some way there from the switch claiming it |
| `StpNetwork.CostAtLeastDistance` | EXP06-STP/code/06-stp/stp.c:204-270 | hence never less than the true hop distance |
| `StpNetwork.StepKeepsInv` | EXP06-STP/code/06-stp/stp.c:204-270 | each hello and each delivery keeps that invariant, with the root selection as written |
| `StpNetwork.SmallestAlwaysReigns` | EXP06-STP/code/06-stp/stp.c:142-171 | in every run the switch with the smallest identifier believes itself root at cost 0 with every port designated |
| `StpNetwork.DesignationNeverRegained` | EXP06-STP/code/06-stp/stp.c:256-270 | in every run a port that is not designated never becomes so again |
| `StpNetwork.SentIsOutgoing` | EXP06-STP/code/06-stp/stp.c:96-104 | the messages on the wire are what the switch object hands to its interfaces, one per designated port |
| `StpNetwork.RootPortsAreKnown` | EXP06-STP/code/06-stp/stp.c:211-245 | in every reachable state a switch has no root port if and only if all its ports are designated, and its root port is never a designated one |
| `StpNetwork.SelectionInRunsExactly` | EXP06-STP/code/06-stp/stp.c:204-270 | in every run, after a superseding message the switch's root port is a best one of its non-designated ports if and only if these stand in a suitable order: one alone; or one better than its successor and the last not better than all others; or no such drop and the old root port as good as the last |
| `StpNetwork.RunsFollowLeastExactly` | EXP06-STP/code/06-stp/stp.c:175-245 | the same in the fields: after such a message the switch has the root on record at its root port at that cost plus one, and this record has the least root, then cost, then switch, then port of all its non-designated ports if and only if they stand in such an order |
| `StpNetwork.HeardIsKept` | EXP06-STP/code/06-stp/stp.c:175-209 | from the moment a message arrives at a non-designated port, the port's record is in every run no worse than it, compared by root, cost, switch and port |
| `StpNetwork.RecordNeverWorsens` | EXP06-STP/code/06-stp/stp.c:175-209 | and never worse than it was before |
| `StpNetwork.DesignatedAgreeInRuns` | EXP06-STP/code/06-stp/stp.c:247-254 | in every reachable state each designated port has on record what its switch believes |
| `StpNetwork.BlockedIsSilent` | EXP06-STP/code/06-stp/stp.c:96-104 | once a port is not designated, no message of its switch ever comes onto its link again |
| `StpNetwork.BetterRootMissedForever` | EXP06-STP/code/06-stp/stp.c:211-270 | for all identifiers low < mid < high, three switches in a row and a run after which, in every continuation, the middle one follows `mid` although `low` is one link away and on record at its other port: the spanning tree never converges |
| `Stp.RootPortIsBestExactly` | EXP06-STP/code/06-stp/stp.c:211-245 | the same exact condition for the selection alone, from any switch state with a non-designated port |
| `Stp.TakenExactly` | EXP06-STP/code/06-stp/stp.c:143-170 | a message is taken if and only if it is no greater than the port's record in root, cost, switch and port, in that order; a repeated one makes the switch, unless root, tell its own ports again |
| `Stp.Bridge.constructor` | EXP06-STP/code/06-stp/stp.c:315-353 | a switch starts as root at cost 0 with every port designated |
| `Stp.Bridge.ChooseRootPort` | EXP06-STP/code/06-stp/stp.c:211-236 | the collecting and selecting loops equal the selection function that the results above are about, which `StpNetwork.RunsFollowLeastExactly` states in the fields |
| `Stp.Bridge.UpdateRoot` | EXP06-STP/code/06-stp/stp.c:211-245 | root and cost follow the chosen port, or the switch itself when there is none |
| `Stp.Bridge.UpdateOtherPorts` | EXP06-STP/code/06-stp/stp.c:247-254 | designated ports, and only these, take over root and cost |
| `Stp.Bridge.SendConfig` | EXP06-STP/code/06-stp/stp.c:69-104 | one message per designated port, none when the switch is not root and has no root port |
| `Stp.Bridge.HandleConfigPacket` | EXP06-STP/code/06-stp/stp.c:256-270 | the switch makes the step of the network-wide system and sends at once exactly when the message superseded and it is not root |
| `Tries.TriesAgree` | EXP11-Lookup/code/leaf_pushing/lookup.c:110-178 | for every list of entries in any order, the leaf-pushed trie and the simple trie with back-tracking answer every address alike |
| `Tries.LookupFindsEffective` | EXP11-Lookup/code/simple/lookup.c:113-218 | for every list of entries in any order, a lookup returns the port of the longest matching entry among those whose node no earlier entry had made, or the default 0 |
| `Tries.AgreementExactly` | EXP11-Lookup/code/simple/lookup.c:143-218 | for any list and address, the trie answers with the scan's winner, whatever port that has, if and only if no earlier entry had made the winner's node |
| `Tries.IneffectiveIsIgnored` | EXP11-Lookup/code/leaf_pushing/lookup.c:129-153 | the port of an entry whose node exists already changes no lookup |
| `Tries.LookupIsLongestMatch` | EXP11-Lookup/code/leaf_pushing/lookup.c:129-178 | when no entry comes after one that it is a proper prefix of, both tries give the longest prefix match or the default |
| `Tries.LateShortPrefixIsLost` | EXP11-Lookup/code/simple/lookup.c:143-218 | whenever a prefix is inserted after one of its extensions, every address that only the shorter one matches is answered with the default by both tries, and with the shorter prefix's port by the scan |
| `Tries.BestIsLongest` | EXP07-Router/07-router/ip_base.c:32-48 | the scan returns the first of the longest matching entries, or none exactly when none matches |
| `Tries.NodesAreCovered` | EXP11-Lookup/code/simple/lookup.c:143-178 | a trie has a node at a path if and only if some entry's prefix extends it, and both tries have the same nodes |
| `Bits.GetMaskIsMask` | EXP11-Lookup/code/simple/lookup.c:138-141 | the arithmetic shift of 0x80000000 gives the contiguous mask of that length |
| `Bits.MaskedEqualIsSamePrefix` | EXP07-Router/07-router/ip_base.c:39-39 | two words agree under a contiguous mask if and only if they share the prefix |
| `Bits.MaskOrder` | EXP07-Router/07-router/ip_base.c:42-43 | contiguous masks compare as unsigned words as their lengths do |
| `Lookup.SimpleTrie.constructor` | EXP11-Lookup/code/simple/lookup.c:98-111 | a root with port 0 and no entries |
| `Lookup.SimpleTrie.InsertTree` | EXP11-Lookup/code/simple/lookup.c:113-128 | a fresh node without children, with the entry's port at its own depth and -1 above |
| `Lookup.SimpleTrie.AddNode` | EXP11-Lookup/code/simple/lookup.c:143-178 | the heap trie stays well shaped and holds what the specification builds from the entries and the new one; the answer is the port of the prefix's node, or -1 when the address given has a 1 right behind the prefix |
| `Lookup.SimpleTrie.LookBack` | EXP11-Lookup/code/simple/lookup.c:130-136 | following parents terminates at the nearest node with a port |
| `Lookup.SimpleTrie.Lookup` | EXP11-Lookup/code/simple/lookup.c:180-218 | unless some entry's prefix has the address's first 31 bits the answer is the specification's, so the mask checks never change it; if one has and the last bit is 1, it is what looking back from that node gives |
| `Lookup.LeafTrie.constructor` | EXP11-Lookup/code/leaf_pushing/lookup.c:100-108 | a root with port 0 and no entries |
| `Lookup.LeafTrie.InsertTree` | EXP11-Lookup/code/leaf_pushing/lookup.c:110-122 | a fresh node without children, with the entry's port at its own depth and its parent's above |
| `Lookup.LeafTrie.AddNode` | EXP11-Lookup/code/leaf_pushing/lookup.c:129-153 | the heap trie stays well shaped and holds what the specification builds; the answer is the port of the prefix's node |
| `Lookup.LeafTrie.Lookup` | EXP11-Lookup/code/leaf_pushing/lookup.c:155-178 | unless some entry's prefix has the address's first 31 bits the answer is the specification's |
| `Lookup.Walk` | EXP11-Lookup/code/leaf_pushing/lookup.c:160-175 | the shifting bit leads to the deepest node on the address's path, and falls out of the loop exactly when there is one on its first 31 bits |
| `Lookup.LongestPrefixMatch` | EXP07-Router/07-router/ip_base.c:32-48 | with contiguous masks, the loop over words finds the entry that longest prefix match on bit strings chooses |
| `Nat.PoolAlwaysExact` | EXP13-NAT/13-nat/nat.c:54-146 | in every run of sweeps, of any outbound packets, also with the pool exhausted, and of inbound packets other than strays for a pool port: a pool port is flagged if and only if exactly one mapping owns it, and none owns it otherwise |
| `Nat.InboundKeepsPoolExactly` | EXP13-NAT/13-nat/nat.c:91-114 | an inbound packet keeps the pool exact if and only if it hits a mapping or is for a port outside the pool |
| `Nat.OutboundKeepsPool` | EXP13-NAT/13-nat/nat.c:115-140 | an outbound packet always keeps it exact, even when the pool is exhausted |
| `Nat.SweepKeepsPool` | EXP13-NAT/13-nat/nat.c:179-206 | a sweep clears exactly the flags of ports whose owners it removes |
| `Nat.StepKeepsInv` | EXP13-NAT/13-nat/nat.c:54-206 | each such packet or sweep also keeps external ends, other than port 0 of an exhausted pool, unique within a list |
| `Nat.ReplyReturnsToSender` | EXP13-NAT/13-nat/nat.c:76-146 | a remote's reply to a packet that went out with a port is delivered to the internal address and port it came from, whatever such packets and sweeps come between while the mapping lives |
| `Nat.PromptReplyReturns` | EXP13-NAT/13-nat/nat.c:76-206 | it lives whenever the packet is no FIN, none goes out in between, and no sweep comes more than 60 seconds after it: then the reply is delivered |
| `Nat.FirstOutGetsPort` | EXP13-NAT/13-nat/nat.c:115-140 | a packet to a new remote leaves with the box's external address and the first free port of the pool, and nothing else of it changes |
| `Nat.StrayGoesByRules` | EXP13-NAT/13-nat/nat.c:64-108 | an inbound packet that hits no mapping goes to the internal end of the last rule for its destination, and to address and port 0 when there is none |
| `Nat.ServerAnswers` | EXP13-NAT/13-nat/nat.c:64-146 | the round trip of a published server: a call for an end that a rule publishes reaches the server, and its answer leaves with that end, whatever packets and sweeps come between while the mapping lives |
| `Nat.PromptServerAnswers` | EXP13-NAT/13-nat/nat.c:64-206 | it lives whenever the server sends no FIN in between and no sweep comes more than 60 seconds after the call |
| `Nat.AnswerIsRightExactly` | EXP13-NAT/13-nat/nat.c:115-140 | and the answer leaves with that end if and only if no mapping in the remote's list had the server's internal end when the call came |
| `Nat.SweepRemovesExactly` | EXP13-NAT/13-nat/nat.c:170-206 | a sweep removes exactly the mappings unused for more than 60 seconds and those with both FINs in and both acknowledgements covering the other side's number |
| `Nat.FinishedExactly` | EXP13-NAT/13-nat/nat.c:106-176 | after an acknowledgement and then a FIN from each side, the connection is finished if and only if each acknowledgement covers the other side's FIN |
| `Nat.NatBox.constructor` | EXP13-NAT/13-nat/nat.c:298-315 | no port assigned and all lists empty |
| `Nat.NatBox.AssignPort` | EXP13-NAT/13-nat/nat.c:54-62 | the first free port of the pool is flagged and returned, or 0 exactly when none is free |
| `Nat.NatBox.CheckRules` | EXP13-NAT/13-nat/nat.c:64-72 | the mapping gets the internal end of the last rule for its external end, or stays as it is when there is none |
| `Nat.NatBox.TranslateInbound` | EXP13-NAT/13-nat/nat.c:91-114 | the table makes the inbound step that the results above are about, and the packet gets the mapping's internal end |
| `Nat.NatBox.TranslateOutbound` | EXP13-NAT/13-nat/nat.c:115-140 | the table makes the outbound step, and the packet gets the mapping's external end |
| `Nat.NatBox.SweepAll` | EXP13-NAT/13-nat/nat.c:179-206 | in every list exactly the mappings unused for more than 60 seconds or finished are gone, and their ports are freed |
| `Checksum.FoldingChecksum` | EXP13-NAT/13-nat/include/checksum.h:8-20 | the loops compute the complement of the folded 32-bit sum of the words; the fold loop terminates |
| `Checksum.TwoFoldChecksum` | EXP07-Router/07-router/include/checksum.h:8-23 | the other implementation, odd byte first and two fixed folds, computes the same function of every buffer and start value |
| `Checksum.TwoFoldsSuffice` | EXP07-Router/07-router/include/checksum.h:19-20 | for every 32-bit sum two folds give what folding to the end gives |
| `Checksum.FoldAllKeepsResidue` | EXP13-NAT/13-nat/include/checksum.h:16-17 | folding keeps the sum modulo 65535 and yields 0 for 0 only |
| `Checksum.SumIgnoresOrder` | EXP13-NAT/13-nat/include/checksum.h:10-11 | the sum is the same for every permutation of the words |
| `Checksum.WordsCountBytes` | EXP13-NAT/13-nat/include/checksum.h:10-14 | the sum of the words is that of the bytes, those at odd places counting 256 times |
| `Checksum.ChecksumBalances` | EXP13-NAT/13-nat/include/checksum.h:8-20 | start value, bytes and checksum together are a multiple of 65535 whenever the 32-bit sum does not wrap |
| `Checksum.WrappedSumKeepsResidue` | EXP13-NAT/13-nat/include/checksum.h:8-17 | a 32-bit sum that wraps keeps its residue if and only if the number of wrap-arounds is a multiple of 65535 |
| `Checksum.StoredChecksumVerifies` | EXP13-NAT/13-nat/include/checksum.h:8-20 | for every list of words and every start value, the checksum stored in its zeroed word makes the sum over all fold to 0xffff, also when the 32-bit sums wrap |
| `Checksum.StoredBufferVerifies` | EXP13-NAT/13-nat/include/checksum.h:8-20 | in every buffer, of even or odd length, with the checksum stored in a zeroed word, the checksum computed over all of it is 0 |
| `Checksum.AcceptsExactly` | EXP13-NAT/13-nat/include/checksum.h:8-20 | the checksum of a buffer is 0 if and only if its 32-bit sum is a multiple of 65535 other than 0 |

## Left out

- Progress.DeliveryCanComplete: says that every state has a completing continuation, not that a fair schedule takes it, because the sleep and wake calls share one wait object and promise no fairness.
- Lookup.SimpleTrie.Lookup: claims nothing about the answer when a node lies on the address's first 31 bits and the last bit is 0, because the code then reads an unset variable.
- Lookup.LeafTrie.Lookup: claims nothing about the answer when a node lies on the address's first 31 bits, for the same reason.
- Routing.UpdateRouter: needs every router in the list to be reached, because the code follows `prev` to index -1 from one that is not.
- Routing.Router.UpdateRtable: needs every router less than 127 hops away and in the router list, because the code indexes with -1 otherwise.
- Flooding.FloodingConverges: needs lossless links and an announcement made since the neighbour lists last changed, because an update that is lost is not sent again before the next announcement.
- Sock.TcpSock.TcpSockWrite: does not model sleeping on the window or on the send buffer at the end, because `is_allow_to_send` mixes unsigned words and bounds nothing.
- Sock.TcpSock.ProcessPureAck: does not model `tcp_update_window_safe`, for the same reason.
- Advertised and receive windows (`snd_wnd`, `rcv_wnd`, `adv_wnd`).
- Connection set-up and tear-down, SYN, FIN and RST paths, ports in use and backlog queues.
- Retransmission timer lists and giving up after eight attempts.
- Hello packets, neighbour and database ageing.
- `compress_node` and the memory counts of the tries.
- STP timers and state dumps, message fields that the decision does not read.
- ARP, ICMP, the MAC table, raw sockets, poll loops, packet headers and their byte order.
- Parsing of forwarding tables and NAT configuration; failing allocation.
- Rounding of `cwnd` as a floating-point number; wrap-around of `dupacks` at 32 bits.
- EXP15 to EXP17, which EXP18 replaces, and the repeated copies of `ring_buffer.h` and `checksum.h`.
- The `checksum` variant of EXP12, which adds an odd last byte after folding.
