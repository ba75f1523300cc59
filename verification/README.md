# Verified models of the lwIP core

This project models, in Dafny, the parts of the lwIP stack under `LwIP/` in which state is shared between many
operations, and proves what those operations keep over whole runs. Each part has a specification over plain values
(stream positions that never wrap, flat octet sequences, lists of blocks). Where the C code works by changing things
step by step, there are also methods and classes with the same loops and assignments, proved to compute exactly what
the specification says. 16- and 32-bit wrap-around is written out where the code relies on it.

`dafny verify dfyconfig.toml` verifies everything.

## Parts

- **TCP receive** (`TcpReassembly`, `TcpReceiveSpec`, `TcpStream`, `TcpDelivery`, `TcpWindow`, `TcpOffer`, `TcpReceive`,
  `TcpAnnounced`). The out-of-order queue, in-order delivery, refused data, the end of stream and the receive window.
  `TcpReceiveSpec` is a step machine over unbounded positions; `TcpReceive` works on 32-bit sequence numbers and 16-bit
  windows and refines it; `TcpAnnounced` carries this over whole runs.
- **TCP send** (`TcpSendSpec`, `TcpSendQueues`, `TcpSendRuns`, `TcpSendOrder`, `TcpSendOutput`, `TcpSend`). The three
  phases of `tcp_write`, and the queues between which `tcp_output`, `tcp_rexmit`, `tcp_rexmit_rto` and acknowledgements
  trade segments.
- **Heap** (`HeapLayout`, `HeapStore`, `Heap`). Blocks as a tiling, headers as octets of one byte array, and
  `mem_malloc`, `mem_free` and `mem_trim` on that array.
- **6LoWPAN** (`Iphc`, `IphcFormat`, `IphcCode`, `LowpanFrag`, `LowpanLoss`, `Lowpan`). Header compression and decompression,
  as specification, as tables of what the octets mean, and as code that reads and writes octets; fragmentation and
  reassembly; and all of it from end to end.
- **Sockets** (`SelectProtocol`, `SelectResults`, `AcceptHandover`). `lwip_select` against `event_callback`, what it
  returns, and the handover of receive events in `lwip_accept`, as state machines whose steps are the stretches between
  protection boundaries.
- **Checksums** (`Checksum`), **packet buffers** (`PbufChain`), **timers** (`Timeouts`), **pools** (`Memp`) and the
  **resolver** (`DnsNames`, `DnsTable`).
- `MachineWords`, `SeqSpace`, `BitOps` and `Bytes` hold truncation, the arithmetic of sequence numbers, bitwise or, and
  small facts about sequences.

## Where the code does less than one would expect

The code is modelled as it is. For each of these the lemmas named first show an instance and the ones named last say
exactly when it happens.

- Received and acknowledged data that the application refuses can be lost when the connection closes: it is freed, or it
  stays behind in a pcb in TIME_WAIT that nobody looks at, together with the end of stream (`TcpStream.LossHappens`,
  `TcpStream.StrandingHappens`; `TcpStream.LossExactly`, `TcpStream.LostForGood`).
- An out-of-order segment that overruns the window is trimmed only when it goes to the tail of a non-empty queue;
  elsewhere it is queued whole and later wraps `rcv_wnd` (`TcpWindow.OverrunWraps`; `TcpWindow.OutOfOrderWindow`).
- `tcp_write` and `tcp_send_fin` add to the last unsent segment even when that is an old one waiting for fast
  retransmission; the new octets then take positions that are queued already, and the FIN comes too early
  (`TcpSendOrder.StuckRetransmissionMisplaces`, `TcpSendOrder.FinMisplaced`; `TcpSendQueues.WriteContiguousExactly`,
  `TcpSendQueues.SendFinExactly`).
- `tcp_rexmit_rto` leaves `unsent` out of order when a fast retransmission is waiting there (`TcpSendOrder.TimeoutMisorders`;
  `TcpSendQueues.RexmitRtoSorted`, `TcpSendOrder.StepOrder`).
- `mss_local` is the whole MSS while the largest window seen is below two octets, and can shrink when that window
  grows; the assertion about it in `tcp_write` relies on its not shrinking (`TcpSendRuns.MssLocalShrinks`;
  `TcpSendRuns.MssLocalGrows`).
- A heap request of more than 0xfffc octets wraps in the alignment: `mem_malloc` can hand out a block of 12 octets, and
  `mem_trim` cuts the block to 12 octets where its comment promises NULL (`HeapLayout.LargeRequestWraps`,
  `HeapLayout.LargeTrimCuts`; `HeapLayout.HandedOutIsEnough`, `HeapLayout.LargerIsSeenExactly`).
- Three kinds of addresses do not survive header compression: multicast addresses in the 32-bit form with flags or
  scope, multicast addresses whose prefix is a context, and link-local addresses outside fe80::/64
  (`Iphc.SiteMulticastIsLost`, `Iphc.ContextMulticastIsLost`, `Iphc.LinkLocalIsLost`; `Iphc.RoundTrip`).
- A datagram of 2048 octets or more is passed on cut short, because the size field has eleven bits (`LowpanFrag.LongIsCut`;
  `LowpanFrag.ReassemblyIsFaithful`).
- The traffic class goes out as it stands, where section 3.2.1 of RFC 6282 puts the ECN bits first (`IphcFormat.EcnIsMisplaced`;
  `IphcFormat.ClassAsItStands`).
- A fragment that comes a second time ends the reassembly of its datagram, and one that comes early is passed over
  (`LowpanLoss.RepeatLoses`, `LowpanLoss.EarlyIsHarmless`, for every such fragment).
- `sys_timeout` delays the existing timers when it inserts at the head after time has gone by, and makes them earlier when
  the sum of the two wraps (`Timeouts.HeadIsDelayed`; `Timeouts.ArmedDelays`). A new timer is due at another time when the
  clock has run ahead of the whole list (`Timeouts.ClockIsAhead`; `Timeouts.ArmedDueExactly`).
- `sys_untimeout` moves the later timers when two times do not fit 32 bits together (`Timeouts.RemovalWraps`;
  `Timeouts.OutBehind`).
- `dns_compare_name` looks neither at the query's label boundaries nor for its end (`DnsNames.BoundaryIsNotCompared`,
  `DnsNames.FirstLabelIsAccepted`; `DnsNames.AcceptedExactly`, `DnsNames.EncodedExactly`).
- `dns_skip_name` takes the zero of the root's name for an empty label and goes on behind it (`DnsNames.SkipsExactly`, which
  says that this is the only name it does not skip).

Comments and code disagree in two places, and the model follows the code: `lowpan6_input` speaks of a missed fragment
where one starts too low and of a duplicate where one starts too high, and `lwip_accept` says that `rcvevent` is at
least 1 after the handover, where it can be 0.

## Assumptions

- `LWIP_WND_SCALE` is 0, `TCP_QUEUE_OOSEQ` is 1, `TCP_OVERSIZE` is on, `MEM_ALIGNMENT` is 4, `mem_size_t` has 16 bits, and
  the host is little-endian.
- `DNS_MAX_RETRIES` is 4; there may be any number of DNS servers.
- Allocation outcomes, the link, the clock, the application's answers and the peer's segments are parameters. A segment
  that arrives is any piece, of at most 0x7ffe octets, of the one byte stream that the peer sends, with or without its
  FIN.
- The 32-bit refinements ask that sequence numbers which are compared lie within a quarter of the sequence space of each
  other. `TcpAnnounced.HeedsIsNear` derives this for the receive path from a peer that stays inside the announced window
  and sends no duplicate older than that, `TcpSend.NormalIsNear` for the send queues from a 16-bit send buffer.
- In `SelectProtocol` no socket is opened or closed meanwhile, and `select_cb_ctr` and `select_waiting` do not wrap.
- In `AcceptHandover` nobody reads from a connection before it has a socket, and counts fit 16 bits.
- The link driver strips the two FCS octets of an 802.15.4 frame before `lowpan6_input` sees it.
- Timer handlers and resolver callbacks do not call back into the module.

Assertions of the source that are proved: `rcv_wnd >= tcplen` (`TcpWindow.ConsumeWindow`), the queue-length assertions of
the send path (`TcpSendQueues.QueueLengthTells`, `TcpSend.FreeAcked`), those on `mss_local` and the spare room in
`tcp_write` (`TcpSendRuns.StepFits`), `select_waiting > 0` (`SelectProtocol.WaitingIsPositive`) and the pool sanity
assertion (`Memp.Pool.Free`). Those that bound an input, such as the offset below 0x7fff in `tcp_receive`, are
preconditions.

## Model

| member | source | states |
|---|---|---|
| `SeqSpace.SeqDistance` | LwIP/include/lwip/priv/tcp_priv.h:106-114 | the signed 32-bit difference of two sequence numbers is the difference of their positions whenever these are less than half the space apart |
| `SeqSpace.Order` | LwIP/include/lwip/priv/tcp_priv.h:106-114 | the TCP_SEQ comparisons of two numbers agree with the order of their positions under the same condition |
| `TcpReassembly.InsertKeepsOrder` | LwIP/core/tcp_in.c:950-981 | tcp_oos_insert_segment leaves a queue that is strictly ordered, disjoint, cut from the stream, with FIN only at the end; only the new segment can be shorter or gain a FIN, the rest are old elements |
| `TcpReassembly.InsertBuffers` | LwIP/core/tcp_in.c:950-981 | after insertion a stream position is buffered if and only if the segment or the old queue had it |
| `TcpReassembly.EnqueueKeeps` | LwIP/core/tcp_in.c:1525-1648 | every branch that places an out-of-order segment keeps the queue sorted, disjoint, beyond rcv_nxt, cut from the stream, with FIN last |
| `TcpReassembly.EnqueueBuffers` | LwIP/core/tcp_in.c:1525-1648 | the exact positions buffered afterwards: those of the kept part of the segment and the old ones, less the tail of an element that the segment cuts off |
| `TcpReassembly.InsertOverruns` | LwIP/core/tcp_in.c:950-981 | an insertion stays inside the window if and only if the segment does |
| `TcpReassembly.EnqueueInsideWindow` | LwIP/core/tcp_in.c:1525-1648 | the queue stays inside the window if and only if the segment ends inside it or its placement drops or trims it |
| `TcpStream.ConsumeKeeps` | LwIP/core/tcp_in.c:1443-1470 | consuming an in-sequence segment keeps every received octet in exactly one place, in stream order |
| `TcpStream.DrainKeeps` | LwIP/core/tcp_in.c:1475-1511 | the dequeue loop keeps the account of received octets and leaves every queued element beyond rcv_nxt |
| `TcpStream.DrainMoves` | LwIP/core/tcp_in.c:1475-1511 | a position was queued before the dequeue loop if and only if it is received or still queued after it |
| `TcpStream.AbsorbKeeps` | LwIP/core/tcp_in.c:1394-1440 | resolving an in-sequence segment against the queue leaves disjoint pieces of the stream, the segment still at rcv_nxt and not empty, and nothing queued behind a FIN |
| `TcpStream.InOrderDelivers` | LwIP/core/tcp_in.c:1363-1511 | received or queued afterwards is exactly what the segment holds up to the window and what was queued before |
| `TcpStream.OutOfOrderKeeps` | LwIP/core/tcp_in.c:1525-1648 | an out-of-order segment inside the window keeps the whole receive invariant |
| `TcpStream.ReceiveKeeps` | LwIP/core/tcp_in.c:1267-1687 | the data part of tcp_receive keeps the receive invariant in every branch, and the state changes only with a FIN received while open |
| `TcpStream.ProcessKeeps` | LwIP/core/tcp_in.c:879-941 | the state changes of tcp_process around tcp_receive keep the receive invariant, and a FIN ends the open states |
| `TcpStream.NotifyKeeps` | LwIP/core/tcp_in.c:425-488 | handing data and end of stream to the application, or keeping them as refused, keeps the account of every octet |
| `TcpStream.ProcessRefusedKeeps` | LwIP/core/tcp.c:1305-1362 | offering refused data and its FIN again keeps the account of every octet |
| `TcpStream.InputKeeps` | LwIP/core/tcp_in.c:354-488 | tcp_input keeps the receive invariant for every segment of the stream |
| `TcpStream.StepKeeps` | LwIP/core/tcp_in.c:354-488 | every event, arriving segments and the application's calls alike, keeps the receive invariant |
| `TcpStream.StreamIntegrity` | LwIP/core/tcp_in.c:1267-1687 | for every run of segments in any order, overlap or repetition: delivered, refused and purged octets are together exactly the stream up to rcv_nxt, and the end is signalled at most once, after all data |
| `TcpStream.CompletesExactly` | LwIP/core/tcp_in.c:1267-1511 | tcp_receive reaches the end of the stream if and only if rcv_nxt is in the segment and in the window, and what the segment has beyond rcv_nxt and inside the window, and the queue, hold every missing octet and the FIN |
| `TcpStream.LossExactly` | LwIP/core/tcp_in.c:888-937 | a step loses received data, by freeing it or by leaving it in a pcb off the active list, if and only if a segment without data acknowledges the FIN in CLOSING or LAST_ACK while refused data is refused again, or the last missing octets and the FIN are refused on entry to TIME_WAIT |
| `TcpStream.LostForGood` | LwIP/core/tcp_in.c:644-676 | in every run from TIME_WAIT or CLOSED nothing more is delivered, neither data nor the end of stream |
| `TcpStream.LossHappens` | LwIP/core/tcp.c:1806-1846 | a run in which an octet that was received and acknowledged is freed undelivered |
| `TcpStream.StrandingHappens` | LwIP/core/tcp_in.c:909-918 | a run in which the last octet and the FIN are refused on entry to TIME_WAIT and stay behind |
| `TcpDelivery.ReceiveDelivers` | LwIP/core/tcp_in.c:1267-1687 | for every segment and every octet: with rcv_nxt in the segment, received and queued are afterwards exactly what the segment brings and what was queued; a segment beyond rcv_nxt is queued whole as far as the window goes, and only the end of an element around it is lost; any other segment changes nothing but the announcement |
| `TcpDelivery.ReceiveAdvances` | LwIP/core/tcp_in.c:1292-1511 | a segment with rcv_nxt in it moves rcv_nxt to the first octet that neither it nor the queue has, and to its own end or the edge of the window at least |
| `TcpDelivery.EnqueueFin` | LwIP/core/tcp_in.c:1525-1648 | a FIN out of order is queued, and a queued one kept, unless an element that starts at the same place is as long, or the FIN falls outside the window at the tail |
| `TcpDelivery.TakenIsDelivered` | LwIP/core/tcp_in.c:354-488 | an application that takes what it is offered has every octet received so far, and the end of stream if and only if that was reached |
| `TcpDelivery.DeclinedIsNot` | LwIP/core/tcp_in.c:425-488 | an application that takes nothing is handed nothing |
| `TcpDelivery.TakenRuns` | LwIP/core/tcp_in.c:354-488 | the same at any point of any run |
| `TcpDelivery.StateTells` | LwIP/core/tcp_in.c:879-941 | after every run the state is the one that the diagram of RFC 793 gives for who has closed first, who has closed, and whether the FIN was acknowledged |
| `TcpWindow.ConsumeWindow` | LwIP/core/tcp_in.c:1443-1449 | the assertion rcv_wnd >= tcplen holds, and consuming moves window to the application's account without moving either right edge |
| `TcpWindow.OutOfOrderWindow` | LwIP/core/tcp_in.c:1525-1648 | queueing keeps the window invariant if and only if the segment ends inside the window or its placement drops or trims it |
| `TcpWindow.RecvedWindow` | LwIP/core/tcp.c:788-821 | tcp_recved moves the real and the announced right edge only forward and conserves the window |
| `TcpWindow.StepWindow` | LwIP/core/tcp.c:753-821 | every step with a peer inside the window keeps rcv_wnd plus what the application holds equal to TCP_WND, and no edge moves back |
| `TcpWindow.WindowNeverRetreats` | LwIP/core/tcp_out.c:1215-1218 | over every such run, from every earlier point of it, the announced right edge never retreats and never passes rcv_nxt + rcv_wnd |
| `TcpWindow.OverrunWraps` | LwIP/core/tcp_in.c:1530-1531 | a peer that overruns the window by two octets makes rcv_wnd wrap to 0xfffe |
| `TcpOffer.OfferExactly` | LwIP/core/tcp.c:753-777 | the edge to be announced goes to the real one if and only if that gains the smaller of half the window and the MSS, and else stays |
| `TcpOffer.RecvedReopens` | LwIP/core/tcp.c:788-821 | tcp_recved gives back exactly what it is told, up to the whole window, and offers nearly all of it |
| `TcpOffer.AnsweredAtOnce` | LwIP/core/tcp_in.c:1525-1679 | a segment with data that does not move rcv_nxt is answered at once if an ACK can be allocated |
| `TcpOffer.ProbeIsAnswered` | LwIP/core/tcp_in.c:354-368 | a segment turned away because of refused data changes nothing, and is answered if and only if no window was offered |
| `TcpOffer.WindowIsOffered` | LwIP/core/tcp.c:753-777 | in every polite run a header announces all the window but less than that threshold, and moves the announced edge by at least the threshold or not at all |
| `TcpReceive.InWindow` | LwIP/core/tcp_in.c:1358-1363 | the 32-bit acceptance test agrees with the window over positions, and a closed window accepts nothing |
| `TcpReceive.SkipCovered` | LwIP/core/tcp_in.c:960-972 | the loop on 32-bit numbers drops exactly the elements that the segment covers and takes over their FIN |
| `TcpReceive.OosInsertSegment` | LwIP/core/tcp_in.c:950-981 | on 32-bit numbers and 16-bit lengths, the result is the insertion over positions |
| `TcpReceive.TrimToWindow` | LwIP/core/tcp_in.c:1624-1641 | an appended segment is cut at the window's edge over positions, and loses its FIN with the number it stood on |
| `TcpReceive.QueueOutOfSequence` | LwIP/core/tcp_in.c:1525-1648 | the search and relinking of pcb->ooseq on wrapping numbers yields the placement over positions |
| `TcpReceive.AbsorbQueue` | LwIP/core/tcp_in.c:1394-1440 | the trimming against ooseq on wrapping numbers yields the segment and queue over positions |
| `TcpReceive.RxPcb.constructor` | LwIP/core/tcp_in.c:757-765 | a connection that has just become established represents the initial state |
| `TcpReceive.RxPcb.UpdateRcvAnnWnd` | LwIP/core/tcp.c:753-777 | the announced window and the returned inflation are those over positions, whichever way the edges compare modulo 2^32 |
| `TcpReceive.RxPcb.SendEmptyAck` | LwIP/core/tcp_out.c:917-982 | an empty ACK moves the announced edge to rcv_nxt + rcv_ann_wnd if and only if it can be allocated |
| `TcpReceive.RxPcb.Consume` | LwIP/core/tcp_in.c:1443-1470 | the in-sequence step on words represents the step over positions |
| `TcpReceive.RxPcb.DrainQueue` | LwIP/core/tcp_in.c:1475-1511 | the dequeue loop on words represents draining over positions |
| `TcpReceive.RxPcb.InOrder` | LwIP/core/tcp_in.c:1363-1511 | the in-order branch on words represents the branch over positions |
| `TcpReceive.RxPcb.OutOfOrder` | LwIP/core/tcp_in.c:1525-1648 | the out-of-order branch on words represents the branch over positions |
| `TcpReceive.RxPcb.TrimFirstEdge` | LwIP/core/tcp_in.c:1292-1356 | the leading edge is cut at rcv_nxt exactly when rcv_nxt lies inside the segment |
| `TcpReceive.RxPcb.Receive` | LwIP/core/tcp_in.c:1267-1687 | the data part of tcp_receive on words represents the step over positions |
| `TcpReceive.RxPcb.Purge` | LwIP/core/tcp.c:1806-1846 | purging empties ooseq and frees refused data |
| `TcpReceive.RxPcb.Process` | LwIP/core/tcp_in.c:879-941 | the state changes on words represent those over positions |
| `TcpReceive.RxPcb.ProcessRefused` | LwIP/core/tcp.c:1305-1362 | refused data and then a refused FIN reach the application, or stay refused; what is handed over extends what was delivered |
| `TcpReceive.RxPcb.Notify` | LwIP/core/tcp_in.c:425-488 | data and then the end of stream are handed over, or kept as refused; what is handed over extends what was delivered |
| `TcpReceive.RxPcb.Input` | LwIP/core/tcp_in.c:354-488 | one arriving segment represents the step over positions and keeps the receive invariant; what is handed over extends what was delivered |
| `TcpReceive.RxPcb.Recved` | LwIP/core/tcp.c:788-821 | tcp_recved with its 16-bit addition represents the step over positions, and returns the inflation |
| `TcpAnnounced.StepUnder` | LwIP/core/tcp_in.c:1267-1687 | if nothing received or queued lies above an edge and the segment ends below it, the same holds afterwards |
| `TcpAnnounced.StepHeeds` | LwIP/core/tcp_in.c:354-488 | with a peer inside the announced window every event keeps rcv_nxt and the queue below the announced edge, with the window and stream invariants |
| `TcpAnnounced.HeedsIsNear` | LwIP/include/lwip/priv/tcp_priv.h:106-114 | with such a peer the announced edge and every arriving segment are near rcv_nxt, so no comparison of the receive path wraps |
| `TcpAnnounced.Perform` | LwIP/core/tcp_in.c:354-488 | any event on the words of a connection represents the step over positions and keeps what the next one needs |
| `TcpAnnounced.Drive` | LwIP/core/tcp_in.c:354-488 | every run on words from establishment represents the run over positions, and what is handed over, followed by refused and purged data, is the stream up to rcv_nxt |
| `TcpSendQueues.SendOneMoves` | LwIP/core/tcp_out.c:1128-1162 | sending only moves a segment from unsent to unacked: the bag of segments, octets, pbufs and accounts stay |
| `TcpSendQueues.RexmitMoves` | LwIP/core/tcp_out.c:1441-1468 | fast retransmission only moves a segment back: the bag of segments, octets, pbufs and accounts stay |
| `TcpSendQueues.RexmitRtoMoves` | LwIP/core/tcp_out.c:1398-1420 | the timeout only moves segments and keeps their overall order, unacked before unsent |
| `TcpSendQueues.MoveKeeps` | LwIP/core/tcp_out.c:1128-1162 | moving segments between the queues keeps every unacknowledged octet queued once and the accounts exact |
| `TcpSendQueues.ToUnackedIsInsertion` | LwIP/core/tcp_out.c:1136-1162 | the shortcut for the tail of unacked agrees with sorted insertion on every sorted queue |
| `TcpSendQueues.RexmitRtoSorted` | LwIP/core/tcp_out.c:1407-1420 | the requeued list is sorted if and only if both were and everything unacked started before everything unsent |
| `TcpSendQueues.AckRemovesOnlyAcked` | LwIP/core/tcp_in.c:1149-1228 | a segment leaves the queues only when a valid acknowledgement covers its end |
| `TcpSendQueues.AckAccounts` | LwIP/core/tcp_in.c:1165-1229 | an acknowledgement keeps snd_buf and snd_queuelen exact |
| `TcpSendQueues.AckKeeps` | LwIP/core/tcp_in.c:1149-1229 | an acknowledgement keeps every unacknowledged octet queued once, and snd_buf and snd_queuelen exact |
| `TcpSendQueues.QueueLengthTells` | LwIP/core/tcp_out.c:340-346 | snd_queuelen is zero if and only if both queues are empty, whenever the accounts are exact |
| `TcpSendQueues.WriteAppends` | LwIP/core/tcp_out.c:367-757 | after a successful tcp_write the unsent octets are the old ones followed by the argument |
| `TcpSendQueues.WriteKeeps` | LwIP/core/tcp_out.c:367-757 | tcp_write keeps every octet queued once at its own stream position, with snd_buf and snd_queuelen exact, if the segment that is filled up is the newest |
| `TcpSendQueues.WriteContiguousExactly` | LwIP/core/tcp_out.c:444-545 | no position is queued twice after tcp_write if and only if the segment that is filled up, if any, ends where the stream ends |
| `TcpSendQueues.SendFinExactly` | LwIP/core/tcp_out.c:138-156 | after tcp_send_fin what is queued is what is owed, if and only if the segment that gets the FIN, if any, ends where the stream ends |
| `TcpSendQueues.SendFinAccounts` | LwIP/core/tcp_out.c:784-881 | queueing a FIN keeps snd_buf and snd_queuelen exact |
| `TcpSendRuns.NormalSend` | LwIP/core/tcp_out.c:1091-1168 | in the usual shape, one unbroken run across both queues, sending only moves the border between them |
| `TcpSendRuns.RexmitUndone` | LwIP/core/tcp_out.c:1441-1468 | a fast retransmission that is sent at once restores both queues exactly |
| `TcpSendRuns.NormalWrite` | LwIP/core/tcp_out.c:367-757 | tcp_write keeps the usual shape: contiguous sequence numbers up to the end of the stream |
| `TcpSendRuns.NormalAck` | LwIP/core/tcp_in.c:1149-1229 | an acknowledgement keeps the usual shape |
| `TcpSendRuns.NormalAckExactly` | LwIP/core/tcp_in.c:1149-1228 | in the usual shape a segment stays if and only if it ends beyond the new lastack |
| `TcpSendRuns.StepKeeps` | LwIP/core/tcp_out.c:367-1481 | every careful step keeps every unacknowledged octet queued once and the accounts exact |
| `TcpSendRuns.NormalStep` | LwIP/core/tcp_out.c:367-1481 | in the usual shape every possible step is careful, and all but a stuck fast retransmission keep the shape |
| `TcpSendRuns.NothingForgotten` | LwIP/core/tcp_out.c:367-1481 | over every careful run each octet written and not acknowledged is queued exactly once, at its position, and the accounts are exact |
| `TcpSendRuns.UsualRuns` | LwIP/core/tcp_out.c:367-1481 | every run without a stuck fast retransmission is careful and ends in the usual shape |
| `TcpSendRuns.StepFits` | LwIP/core/tcp_out.c:455-473 | the assertions of tcp_write on mss_local and oversize hold after every step with one limit |
| `TcpSendOutput.OutputTransmits` | LwIP/core/tcp_out.c:1091-1168 | tcp_output sends the longest prefix of the unsent queue, up to the permissions, that lies between lastack and the end of the window, moves it to the unacked queue, and advances snd_nxt to its furthest end |
| `TcpSendOutput.TimeoutResends` | LwIP/core/tcp_out.c:1398-1420 | after a timeout in the usual shape everything goes out again, in order |
| `TcpSendOutput.AckExactly` | LwIP/core/tcp_in.c:1149-1229 | a new acknowledgement of something sent becomes lastack and takes from each queue the longest prefix that it covers; one of something never sent changes nothing |
| `TcpSendOutput.NormalAckRemoves` | LwIP/core/tcp_in.c:1149-1229 | in the usual shape exactly the segments that end beyond a new acknowledgement remain |
| `TcpSendOutput.WriteIsFrugal` | LwIP/core/tcp_out.c:455-757 | tcp_write fills the last unsent segment to the limit first, and makes no more new segments than the limit makes necessary |
| `TcpSendOutput.MssLocalIs` | LwIP/core/tcp_out.c:390-392 | the limit is at most the MSS and at most half the largest window, and is the MSS if and only if half the window is no less or the window is below two |
| `TcpSendOutput.NoSegmentExceedsMss` | LwIP/core/tcp_out.c:367-757 | in every run, whatever windows are offered, no segment queued or in flight is longer than the MSS |
| `TcpSendRuns.MssLocalGrows` | LwIP/core/tcp_out.c:390-392 | the limit does not shrink as the largest window grows if and only if that window was at least two octets, stays below two, or reaches twice the MSS |
| `TcpSendRuns.MssLocalShrinks` | LwIP/core/tcp_out.c:390-392 | with an MSS of 536 the limit shrinks from 536 to 2 when the largest window grows from 1 to 4 |
| `TcpSendOrder.StepOrder` | LwIP/core/tcp_out.c:367-1481 | a possible step leaves both queues sorted, with no start taken twice, if and only if it is not a timeout that finds an unacked segment behind an unsent one |
| `TcpSendOrder.QueuesStaySorted` | LwIP/core/tcp_out.c:367-1481 | over every possible run, with fast retransmissions stuck or sent, both queues stay sorted provided each timeout finds everything unacked before everything unsent |
| `TcpSendOrder.NormalIsSorted` | LwIP/core/tcp_out.c:1407-1420 | in the usual shape both queues are sorted, and a timeout finds everything unacked before everything unsent |
| `TcpSendOrder.UsualRunsSorted` | LwIP/core/tcp_out.c:367-1481 | after every run without a stuck fast retransmission both queues are sorted |
| `TcpSendOrder.TimeoutMisorders` | LwIP/core/tcp_out.c:1398-1420 | for any two octets, a run from a fresh connection after which the second is queued before the first |
| `TcpSendOrder.StuckRetransmissionMisplaces` | LwIP/core/tcp_out.c:1441-1481 | for any three octets, a run from a fresh connection after which the third is queued at the position of the second |
| `TcpSendOrder.FinMisplaced` | LwIP/core/tcp_out.c:138-156 | for any two octets, a run from a fresh connection after which the FIN is on the first |
| `TcpSend.Prealloc` | LwIP/core/tcp_out.c:233-278 | what is allocated holds the data and does not exceed the limit |
| `TcpSend.NewSegments` | LwIP/core/tcp_out.c:559-656 | phase 3 cuts the rest of the argument into abutting segments within the limit, and succeeds whenever memory and queue room suffice |
| `TcpSend.FindPlace` | LwIP/core/tcp_out.c:1150-1154 | the search on wrapping numbers finds the first element that does not start below the segment |
| `TcpSend.Requeue` | LwIP/core/tcp_out.c:1136-1162 | the move to unacked on wrapping numbers is the one over positions |
| `TcpSend.FreeAcked` | LwIP/core/tcp_in.c:1149-1174 | the freeing loop on wrapping numbers drops exactly the acknowledged head; snd_queuelen never underflows |
| `TcpSend.SndPcb.constructor` | LwIP/core/tcp.c:1599-1606 | a fresh connection has empty queues and the whole send buffer |
| `TcpSend.SndPcb.WriteChecks` | LwIP/core/tcp_out.c:306-348 | which error is returned in which case, and that only TF_NAGLEMEMERR can change |
| `TcpSend.SndPcb.FillLast` | LwIP/core/tcp_out.c:444-545 | phases 1 and 2 append exactly what fits behind the last unsent segment, whether in spare memory, a new pbuf or a longer reference |
| `TcpSend.SndPcb.Write` | LwIP/core/tcp_out.c:367-774 | success is a write as specified; any failure leaves everything but TF_NAGLEMEMERR unchanged; enough memory and queue room mean success; no segment gets longer than the MSS |
| `TcpSend.SndPcb.TransmitOne` | LwIP/core/tcp_out.c:1122-1167 | one transmission on wrapping numbers represents the one over positions |
| `TcpSend.SndPcb.Transmit` | LwIP/core/tcp_out.c:1091-1168 | the loop sends as long as its test in unsigned arithmetic allows, which is as long as the window over positions does |
| `TcpSend.SndPcb.FastRetransmit` | LwIP/core/tcp_out.c:1441-1468 | the sorted insertion on wrapping numbers represents the one over positions |
| `TcpSend.SndPcb.RetransmitAll` | LwIP/core/tcp_out.c:1398-1420 | the concatenation of the queues represents the one over positions |
| `TcpSend.SndPcb.Acked` | LwIP/core/tcp_in.c:1149-1229 | acknowledgement handling on wrapping numbers represents the one over positions |
| `TcpSend.SndPcb.Fin` | LwIP/core/tcp_out.c:138-156 | tcp_send_fin represents the one over positions; it fails exactly when it needs a segment and gets none, and then changes only TF_NAGLEMEMERR |
| `TcpSend.NormalIsNear` | LwIP/include/lwip/priv/tcp_priv.h:106-114 | with a 16-bit send buffer the comparisons on the send queues never wrap in the usual shape |
| `HeapLayout.RequestSize` | LwIP/core/mem.c:616-623 | the adjusted size is aligned, at least the minimum, and no smaller than the request if and only if that is at most 0xfffc |
| `HeapLayout.FirstFit` | LwIP/core/mem.c:641-658 | the lowest free block that holds the size, or none |
| `HeapLayout.AllocKeeps` | LwIP/core/mem.c:657-697 | allocation keeps the blocks a tiling of the heap without two free neighbours |
| `HeapLayout.FreeKeeps` | LwIP/core/mem.c:343-376 | freeing with coalescing keeps the blocks a tiling of the heap without two free neighbours |
| `HeapLayout.TrimKeeps` | LwIP/core/mem.c:517-580 | shrinking keeps the blocks a tiling of the heap without two free neighbours |
| `HeapLayout.RunKeepsLayout` | LwIP/core/mem.c:343-742 | after every run of calls on live blocks the blocks tile the heap without two free neighbours |
| `HeapLayout.FreeUndoesAlloc` | LwIP/core/mem.c:418-465 | freeing what was just allocated restores the layout |
| `HeapLayout.AllFreeIsOneBlock` | LwIP/core/mem.c:343-376 | nothing is in use if and only if the heap is one free block |
| `HeapLayout.AllocSum` | LwIP/core/mem.c:686-696 | the used statistic grows by exactly the extent that becomes used |
| `HeapLayout.FreeSum` | LwIP/core/mem.c:457-457 | the used statistic shrinks by exactly the extent of the freed block |
| `HeapLayout.TrimSum` | LwIP/core/mem.c:556-578 | the used statistic shrinks by exactly what the block loses |
| `HeapLayout.AllocLowest` | LwIP/core/mem.c:701-720 | allocating elsewhere than at the lowest free block leaves that the lowest |
| `HeapLayout.FreeLowest` | LwIP/core/mem.c:452-455 | the lowest free block after freeing is the lower of the old one and the freed block |
| `HeapLayout.TrimLowest` | LwIP/core/mem.c:539-570 | the lowest free block after shrinking is the new remainder if that lies below the old one, else the old one |
| `HeapLayout.HandedOutIsEnough` | LwIP/core/mem.c:612-697 | a block that is handed out holds the request if and only if the request is at most 0xfffc |
| `HeapLayout.LargeRequestWraps` | LwIP/core/mem.c:612-697 | on every fresh heap a request of more than 0xfffc octets is met with a block of 12 |
| `HeapLayout.LargerIsSeenExactly` | LwIP/core/mem.c:486-522 | a size larger than the block counts as larger if and only if it is at most 0xfffc; otherwise it becomes 12 |
| `HeapLayout.LargeTrimCuts` | LwIP/core/mem.c:477-592 | a block of 100 octets is cut to 12 by a trim to more than 0xfffc |
| `HeapStore.CutDescribes` | LwIP/core/mem.c:673-685 | writing the headers of a split makes them describe the split tiling |
| `HeapStore.MergeDescribes` | LwIP/core/mem.c:353-375 | writing the headers of a merge makes them describe the merged tiling |
| `HeapStore.MoveDescribes` | LwIP/core/mem.c:531-555 | writing the headers of a moved free block makes them describe the new tiling |
| `HeapStore.HeadersMissPayloads` | LwIP/core/mem.c:343-742 | writes to headers, or inside one block, change no other block's payload |
| `Heap.Mem.constructor` | LwIP/core/mem.c:381-410 | mem_init yields headers that describe one free block |
| `Heap.Mem.FindFit` | LwIP/core/mem.c:641-658 | the search from lfree, with its early stop, finds the lowest block that fits, if there is one |
| `Heap.Mem.Malloc` | LwIP/core/mem.c:602-742 | NULL exactly when the request is empty, too large or fits nowhere; else the first fit, with headers, lfree and the statistic exact and no other payload touched |
| `Heap.Mem.PlugHoles` | LwIP/core/mem.c:343-376 | the in-place coalescing describes the merge with both free neighbours, leaves lfree where it was and touches no other payload |
| `Heap.Mem.Free` | LwIP/core/mem.c:418-465 | a live block becomes free and is joined with its neighbours, touching no other payload; NULL is ignored and a foreign pointer only counted |
| `Heap.Mem.Trim` | LwIP/core/mem.c:477-592 | shrinking in place keeps the surviving payload and every other one; a size larger than the block yields NULL if and only if it is at most 0xfffc; a foreign pointer is only counted |
| `Iphc.Lookup` | LwIP/netif/lowpan6.c:142-154 | the lowest context with the prefix, or -1 if there is none |
| `Iphc.BitsRound` | LwIP/netif/lowpan6.c:268-397 | the two base bytes give back every mode field |
| `Iphc.TfRound` | LwIP/netif/lowpan6.c:299-326 | traffic class and flow label come back in all four forms |
| `Iphc.IidRound` | LwIP/netif/lowpan6.c:156-180 | the interface identifier comes back in each of its three forms |
| `Iphc.SourceRound` | LwIP/netif/lowpan6.c:349-369 | the source address comes back if and only if it has a context, is not link-local, or starts with fe80::/64 |
| `Iphc.MulticastRound` | LwIP/netif/lowpan6.c:182-202 | a multicast destination without context comes back if and only if it does not take the 32-bit form with non-zero flags and scope |
| `Iphc.DestRound` | LwIP/netif/lowpan6.c:371-409 | the destination comes back if and only if, as a multicast address, it has no context and MulticastRound's condition holds, or as a unicast address SourceRound's |
| `Iphc.UdpRound` | LwIP/netif/lowpan6.c:414-452 | ports and checksum come back in all four port forms, with the length recomputed |
| `Iphc.RoundTrip` | LwIP/netif/lowpan6.c:258-453 | for every IPv6 packet whose length fields are right, decompressing what was compressed gives it back octet for octet if and only if both addresses survive |
| `IphcFormat.FlipLocalIs` | LwIP/netif/lowpan6.c:167-171 | the octet with just the universal/local bit complemented |
| `IphcFormat.MacIidIs` | LwIP/netif/lowpan6.c:156-180 | the interface identifier of a link address, short or long, as RFC 6282 defines it |
| `IphcFormat.DecodesByTheTables` | LwIP/netif/lowpan6.c:686-965 | for every buffer that holds what it announces, the decoder refuses exactly missing contexts, stateful multicast and unknown header compression, and else yields the packet that the octets stand for, field by field |
| `IphcFormat.CompressedStands` | LwIP/netif/lowpan6.c:258-453 | the compressed form of a packet that survives stands for that packet |
| `IphcFormat.ElidedComesFromMac` | LwIP/netif/lowpan6.c:763-775 | with elided identifiers the addresses are fe80::/64 followed by the link addresses with just the universal/local bit changed |
| `IphcFormat.ElidedInstance` | LwIP/netif/lowpan6.c:763-775 | the link address 00:12:4b:00:01:02:03:04 stands for the identifier 212:4b00:102:304 |
| `IphcFormat.ShortestTf` | LwIP/netif/lowpan6.c:299-326 | no form of traffic class and flow label is shorter than the one chosen |
| `IphcFormat.ShortestHop` | LwIP/netif/lowpan6.c:337-347 | the hop limit is carried only when no form without it says the same |
| `IphcFormat.ShortestIid` | LwIP/netif/lowpan6.c:156-180 | no form of the interface identifier is shorter than the one chosen |
| `IphcFormat.ShortestMulticast` | LwIP/netif/lowpan6.c:182-202 | no form of a multicast address is shorter than the one chosen, if and only if it is not one that only the misplaced octet of the 32-bit form can spell |
| `IphcFormat.ShortestPorts` | LwIP/netif/lowpan6.c:420-445 | no form of the ports is shorter than the one chosen |
| `IphcFormat.ShortestSource` | LwIP/netif/lowpan6.c:349-369 | no form of the source address that needs no context is shorter than the one chosen without one |
| `IphcFormat.ShortestDest` | LwIP/netif/lowpan6.c:393-409 | the same for a unicast destination |
| `IphcFormat.ContextIsUsed` | LwIP/netif/lowpan6.c:275-297 | a context is used whenever the prefix has one, and then only the shortest form of the identifier is carried |
| `IphcFormat.SurvivesMeans` | LwIP/netif/lowpan6.c:258-453 | which packets survive, octet by octet: all but those with a link-local address outside fe80::/64 without a context, a multicast address with a context, or a multicast address ffXX::YY:YYYY other than ff02::YY with XX not 00 |
| `IphcFormat.ClassAsItStands` | LwIP/netif/lowpan6.c:306-309 | the traffic class goes out as RFC 6282 has it if and only if it equals its own rotation by two bits |
| `IphcFormat.EcnIsMisplaced` | LwIP/netif/lowpan6.c:306-309 | the ECN bits 11 go out as the DSCP 3 |
| `Iphc.SiteMulticastIsLost` | LwIP/netif/lowpan6.c:840-845 | ff05::1:3 comes back as ff00:5::1:3 |
| `Iphc.PrefixIsLost` | LwIP/netif/lowpan6.c:751-775 | every link-local source without context comes back in fe80::/64 with its interface identifier |
| `Iphc.LinkLocalIsLost` | LwIP/netif/lowpan6.c:349-369 | fe80:0:0:1::2 comes back as fe80::2 |
| `Iphc.ContextMulticastIsLost` | LwIP/netif/lowpan6.c:821-828 | a multicast address whose prefix is a context is sent in a form that is refused |
| `IphcCode.ContextLookup` | LwIP/netif/lowpan6.c:142-154 | the loop finds the lowest context with the prefix, or none |
| `IphcCode.AddressModeOf` | LwIP/netif/lowpan6.c:156-180 | the comparisons octet by octet decide the mode of a unicast address |
| `IphcCode.MulticastModeOf` | LwIP/netif/lowpan6.c:182-202 | the comparisons word by word decide the mode of a multicast address |
| `IphcCode.EncodeContexts` | LwIP/netif/lowpan6.c:275-297 | the bits set for contexts and the extension octet are those of the specification |
| `IphcCode.EncodeTf` | LwIP/netif/lowpan6.c:299-326 | bits and octets for traffic class and flow label are those of the specification |
| `IphcCode.EncodeNext` | LwIP/netif/lowpan6.c:328-335 | the next header takes a bit if it is UDP, else an octet |
| `IphcCode.EncodeHop` | LwIP/netif/lowpan6.c:337-347 | the hop limits 1, 64 and 255 take their bits, any other one an octet |
| `IphcCode.EncodeSource` | LwIP/netif/lowpan6.c:349-369 | bits and octets for the source address are those of the specification, in spite of the bits already set |
| `IphcCode.EncodeMulticast` | LwIP/netif/lowpan6.c:377-392 | mode and octets of a multicast destination are those of the specification, with or without context |
| `IphcCode.EncodeUnicast` | LwIP/netif/lowpan6.c:396-404 | mode and octets of a unicast destination with a context, or link-local, are those of the specification |
| `IphcCode.EncodeDest` | LwIP/netif/lowpan6.c:371-409 | bits and octets for the destination address are those of the specification, in spite of the bits already set |
| `IphcCode.EncodeUdp` | LwIP/netif/lowpan6.c:414-452 | the compressed UDP header is that of the specification |
| `IphcCode.BuildHeader` | LwIP/netif/lowpan6.c:258-453 | the buffer with its bits set one by one and its octets in order, followed by the payload, is the compressed packet |
| `IphcCode.DecodeTf` | LwIP/netif/lowpan6.c:711-723 | traffic class and flow label read at the running offset are those of the specification in all four forms |
| `IphcCode.DecodeNextHop` | LwIP/netif/lowpan6.c:725-742 | next header and hop limit come from their bits or from the octets at the running offset |
| `IphcCode.DecodeIid` | LwIP/netif/lowpan6.c:751-775 | the interface identifier, inline in eight or two octets or from the link address, is that of the specification |
| `IphcCode.DecodeFixed` | LwIP/netif/lowpan6.c:706-742 | the fields before the addresses and the offset behind them are those of the specification |
| `IphcCode.DecodeSource` | LwIP/netif/lowpan6.c:744-818 | the source address read at the running offset, or the error, is that of the specification |
| `IphcCode.DecodeMulticast` | LwIP/netif/lowpan6.c:830-851 | the four multicast forms read at the running offset are those of the specification |
| `IphcCode.DecodeDest` | LwIP/netif/lowpan6.c:820-897 | the destination address read at the running offset, or the error, is that of the specification |
| `IphcCode.DecodePorts` | LwIP/netif/lowpan6.c:916-934 | the four port forms read at the running offset are those of the specification |
| `IphcCode.PutPacket` | LwIP/netif/lowpan6.c:949-964 | header fields and payload, written one after the other, make the packet of the specification |
| `IphcCode.DecodeUdp` | LwIP/netif/lowpan6.c:901-947 | the UDP header and the rest, or the error, are those of the specification |
| `IphcCode.DecompressBuffer` | LwIP/netif/lowpan6.c:686-965 | the decoder with its running offset yields the decompressed packet, or none exactly when the specification does |
| `LowpanFrag.Send` | LwIP/netif/lowpan6.c:461-563 | a packet is refused as too long, goes out whole, or goes out in the fragments of the specification |
| `LowpanFrag.SendLater` | LwIP/netif/lowpan6.c:509-540 | the loop cuts what is left into the later fragments |
| `LowpanFrag.FragNKeeps` | LwIP/netif/lowpan6.c:1089-1117 | an appended fragment extends a prefix of its own datagram, although size and offset fields wrap |
| `LowpanFrag.StepKeeps` | LwIP/netif/lowpan6.c:1014-1118 | every frame and every tick keeps each buffer a prefix of its sender's datagram |
| `LowpanFrag.ReassemblyIsFaithful` | LwIP/netif/lowpan6.c:1014-1118 | under loss, repetition and reordering every buffer is a prefix of its sender's datagram, and what is passed on is a prefix, and all of it if and only if the datagram is shorter than 2048 octets |
| `LowpanFrag.LaterDeliver` | LwIP/netif/lowpan6.c:1067-1117 | the later fragments in order complete a buffer that holds the first part, once |
| `LowpanFrag.FragmentsDeliver` | LwIP/netif/lowpan6.c:471-540 | the fragments of a datagram in order yield it exactly once and leave no entry |
| `LowpanFrag.LongIsCut` | LwIP/netif/lowpan6.c:479-540 | the fragments of any datagram of 2048 octets or more, in order, yield its first two fragments and no more |
| `LowpanLoss.RepeatLoses` | LwIP/netif/lowpan6.c:1093-1101 | after a fragment that comes again, the rest of the datagram yields nothing |
| `LowpanLoss.EarlyIsHarmless` | LwIP/netif/lowpan6.c:1089-1092 | after a fragment that comes early, the rest in order yields the datagram |
| `LowpanLoss.FirstAgain` | LwIP/netif/lowpan6.c:1019-1045 | a repeated first fragment changes nothing; that of another datagram replaces the one under way |
| `LowpanLoss.TwoTicks` | LwIP/netif/lowpan6.c:101-116 | in every run a tick discards exactly the entries that have seen one before |
| `LowpanLoss.NoRenewal` | LwIP/netif/lowpan6.c:1067-1117 | a later fragment does not prolong the reassembly |
| `LowpanLoss.GoodRunDelivers` | LwIP/netif/lowpan6.c:1014-1118 | from any state, all fragments in order add the datagram, whole and once, to what is passed on |
| `LowpanLoss.FramesFit` | LwIP/netif/lowpan6.c:471-540 | every frame fits the 127 octets of the link |
| `LowpanLoss.FragmentsAreFull` | LwIP/netif/lowpan6.c:487-517 | eight octets more in a fragment would not fit |
| `LowpanLoss.FragmentsAreRead` | LwIP/netif/lowpan6.c:479-515 | the header octets of every fragment are read as they were meant, with the octets of the tag exchanged |
| `Lowpan.Arrives` | LwIP/netif/lowpan6.c:461-540 | the frames of a datagram, in order, yield it, or a proper prefix with the whole header if it has 2048 octets or more |
| `Lowpan.EndToEnd` | LwIP/netif/lowpan6.c:209-563 | a packet that is compressed, fragmented, reassembled and decompressed comes back octet for octet if and only if its addresses survive and its compressed form is shorter than 2048 octets |
| `Lowpan.SendPacket` | LwIP/netif/lowpan6.c:209-563 | lowpan6_frag refuses a packet as too long or yields the frames of its compressed form |
| `LowpanFrag.Reassembler.constructor` | LwIP/netif/lowpan6.c:80-80 | the list starts empty |
| `LowpanFrag.Reassembler.FirstFragment` | LwIP/netif/lowpan6.c:1014-1066 | the list keeps at most one entry a sender, and represents what the table does with a first fragment |
| `LowpanFrag.Reassembler.LaterFragment` | LwIP/netif/lowpan6.c:1067-1117 | the list keeps at most one entry a sender, and represents what the table does with a later fragment |
| `LowpanFrag.Reassembler.Timer` | LwIP/netif/lowpan6.c:101-140 | the entries whose timer runs out, and no others, leave the list |
| `SelectProtocol.NextKeeps` | LwIP/api/sockets.c:1371-1684 | every atomic step of select and of a callback keeps the protocol invariant |
| `SelectProtocol.NoLostWakeup` | LwIP/api/sockets.c:1425-1485 | in every interleaving, a thread that is blocked unsignalled although a socket it wants is ready has a callback under way that is yet to visit it |
| `SelectProtocol.WalkSignals` | LwIP/api/sockets.c:1645-1683 | an undisturbed walk signals a thread further down the list when it gets there |
| `SelectProtocol.ExpectedCallbackSignals` | LwIP/api/sockets.c:1645-1683 | a callback that is yet to visit a thread, left alone, signals it within as many steps as the list is long |
| `SelectProtocol.NoStaleControlBlock` | LwIP/api/sockets.c:1676-1683 | in every interleaving, a callback that resumes with an unchanged counter finds the control block it left still on the list |
| `SelectProtocol.WaitingIsPositive` | LwIP/api/sockets.c:1487-1507 | in every interleaving, the assertion select_waiting > 0 holds when a thread counts it down |
| `SelectResults.UndisturbedScan` | LwIP/api/sockets.c:1305-1368 | a scan that nothing disturbs finds exactly the ready descriptors; the first returns them if there are any, the second decides whether the thread sleeps, the last returns them |
| `SelectResults.UndisturbedCall` | LwIP/api/sockets.c:1391-1402 | a call returns at once if and only if something is ready, with the number of ready pairs and their sets |
| `SelectResults.RunSees` | LwIP/api/sockets.c:1305-1368 | in every interleaving each bit of a scan is what the socket had when its turn came, in that very scan, and the count is the number of bits |
| `SelectResults.ReturnsExactly` | LwIP/api/sockets.c:1370-1564 | in every interleaving a call fails if and only if it leaves the list with a descriptor that has no socket, returns 0 if and only if it polled, timed out or found nothing at last, and else the number of bits it hands back |
| `SelectResults.TimedOutMeans` | LwIP/api/sockets.c:1480-1545 | in every interleaving a call counts as timed out only since a timeout of its own wait |
| `SelectResults.EventsMean` | LwIP/api/sockets.c:1610-1631 | each event makes its socket ready for those who wait for it, and taking the last datum ends that |
| `SelectResults.EventWakes` | LwIP/api/sockets.c:1570-1685 | an event that makes a socket ready signals a thread that sleeps on it within as many steps of its callback as the list is long |
| `SelectResults.CallbackReturns` | LwIP/api/sockets.c:1645-1684 | a callback left alone returns within one step more than the list is long |
| `AcceptHandover.NextKeeps` | LwIP/api/sockets.c:1583-1618 | every atomic step of a callback and of accept keeps each receive event recorded once or still under way |
| `AcceptHandover.NoEventLost` | LwIP/api/sockets.c:513-521 | in every interleaving, once no callback is under way the count is exactly the receive events raised less those taken |
| `AcceptHandover.CallbackCounts` | LwIP/api/sockets.c:1581-1621 | a callback counts its event once and returns within three stretches of its own |
| `AcceptHandover.AcceptHandsOver` | LwIP/api/sockets.c:518-521 | the new socket gets exactly what has been counted |
| `Checksum.FoldTwice` | LwIP/include/lwip/inet_chksum.h:50-53 | two folds take any 32-bit accumulator to the 16-bit one's-complement value of the sum it stands for |
| `Checksum.StandardChksum1` | LwIP/core/inet_chksum.c:79-114 | version 1 returns the one's-complement sum of the octets, and its accumulator does not overflow |
| `Checksum.StandardChksum2` | LwIP/core/inet_chksum.c:132-173 | version 2 returns the same sum, for odd and even start addresses |
| `Checksum.StandardChksum3` | LwIP/core/inet_chksum.c:188-255 | version 3 returns the same sum, for every start address and every length |
| `Checksum.AddChain` | LwIP/core/inet_chksum.c:567-589 | the loop over a chain stands for the flat sum, swapped according to the octets so far |
| `Checksum.InetChksum` | LwIP/core/inet_chksum.c:554-558 | the inverted sum of the octets, whatever the alignment |
| `Checksum.InetChksumPbuf` | LwIP/core/inet_chksum.c:567-589 | the checksum of a chain is that of its octets in one piece, however they are split |
| `Checksum.AddressWords` | LwIP/core/inet_chksum.c:346-360 | the address words, added in halves and folded, stand for the octets of both addresses |
| `Checksum.PseudoChksum` | LwIP/core/inet_chksum.c:259-294 | from a folded start value, the checksum of protocol, length and the octets of the chain in one piece |
| `Checksum.InetChksumPseudo` | LwIP/core/inet_chksum.c:309-327 | the checksum of the IPv4 pseudo header followed by the octets of the chain in one piece, however they are split |
| `Checksum.Ip6ChksumPseudo` | LwIP/core/inet_chksum.c:342-363 | the checksum of the IPv6 pseudo header followed by the octets of the chain in one piece, however they are split |
| `Checksum.AddPrefix` | LwIP/core/inet_chksum.c:398-425 | the loop over the covered part stands for the flat sum of the prefix, although its parity test is on the whole node |
| `Checksum.PartialChksum` | LwIP/core/inet_chksum.c:398-440 | the partial form is the flat checksum of the covered prefix |
| `Checksum.StampVerifies` | LwIP/core/udp.c:788-825 | a sum that includes its own stamp verifies as zero, and UDP's stamp is never zero |
| `Checksum.StampedDatagramAccepted` | LwIP/core/udp.c:329-335 | a datagram whose checksum field holds the sender's stamp passes the receiver's test |
| `Checksum.SegAddChksum` | LwIP/core/tcp_out.c:284-297 | the running checksum of a segment stands for all the data added so far, with its swap flag the parity |
| `PbufChain.Cat` | LwIP/core/pbuf.c:839-862 | concatenation of the octets, with every total length right and the tail untouched |
| `PbufChain.Free` | LwIP/core/pbuf.c:714-790 | exactly the unshared head is deallocated, and the first shared node loses one reference |
| `PbufChain.FreeUndoesRef` | LwIP/core/pbuf.c:819-830 | giving up a reference just taken deallocates nothing and restores the chain |
| `PbufChain.Realloc` | LwIP/core/pbuf.c:492-555 | truncation to the new length in the fewest nodes, with right totals, and the rest of the chain freed |
| `PbufChain.Copy` | LwIP/core/pbuf.c:947-1001 | success puts the source octets in front of the target; without empty nodes it succeeds if and only if both exist and the target is long enough |
| `PbufChain.CopyPartial` | LwIP/core/pbuf.c:1014-1051 | the slice of the octets, as far as the packet has it |
| `PbufChain.Skip` | LwIP/core/pbuf.c:1104-1121 | the node and place of an octet; a node is found if and only if the octet exists |
| `PbufChain.TryGetAt` | LwIP/core/pbuf.c:1316-1328 | the octet at an offset, or -1 if there is none |
| `PbufChain.Take` | LwIP/core/pbuf.c:1148-1180 | the front is overwritten and nothing else; which error otherwise |
| `PbufChain.TakeAt` | LwIP/core/pbuf.c:1192-1213 | exactly the octets from the offset on are overwritten, or nothing on failure |
| `PbufChain.MemCmp` | LwIP/core/pbuf.c:1361-1388 | 0 if and only if equal, else the first difference, or too short |
| `PbufChain.MemFind` | LwIP/core/pbuf.c:1403-1417 | the first occurrence at or behind the start, or 0xffff exactly if there is none |
| `Timeouts.PositionSplits` | LwIP/core/timeouts.c:326-359 | the timers that fire are exactly those due by now |
| `Timeouts.SeekIs` | LwIP/core/timeouts.c:243-246 | without wrap-around the walk passes exactly the timers due no later |
| `Timeouts.ArmedMoves` | LwIP/core/timeouts.c:239-262 | arming moves other timers only when it inserts at the head, and then all by the same amount |
| `Timeouts.ArmedDelays` | LwIP/core/timeouts.c:239-262 | arming makes no timer earlier if and only if msecs and the elapsed time fit 32 bits or it does not insert at the head; then it delays all by the elapsed time exactly when it inserts at the head |
| `Timeouts.HeadIsDelayed` | LwIP/core/timeouts.c:239-242 | a timer armed for 100 ms becomes due at 130 |
| `Timeouts.ArmedOnTime` | LwIP/core/timeouts.c:217-262 | with no time elapsed the new timer is due in exactly msecs, behind all that are due no later |
| `Timeouts.ArmedDueExactly` | LwIP/core/timeouts.c:243-261 | when the new timer is due in general: msecs from now, unless the clock has run ahead of the whole list, and when it is due then |
| `Timeouts.ClockIsAhead` | LwIP/core/timeouts.c:249-255 | a timer armed for 10 ms becomes due at 30 where 110 was asked for |
| `Timeouts.FindSlot` | LwIP/core/timeouts.c:244-260 | the loop in 32-bit arithmetic stops where the walk of the specification does |
| `Timeouts.OutBefore` | LwIP/core/timeouts.c:281-296 | removing a timer leaves the ones before it as they were |
| `Timeouts.OutBehind` | LwIP/core/timeouts.c:281-296 | removing a timer leaves the due times behind it if and only if its time and its successor's fit 32 bits together |
| `Timeouts.RemovalWraps` | LwIP/core/timeouts.c:290-293 | after two sys_timeout calls, removing the first timer makes the second due at 4 where it was due at 2^32 + 4 |
| `Timeouts.CheckKeeps` | LwIP/core/timeouts.c:326-359 | what is left is due as before, counted from the new timeouts_last_time |
| `Timeouts.Timers.constructor` | LwIP/core/timeouts.c:112-113 | the static variables: an empty list |
| `Timeouts.Timers.Start` | LwIP/core/timeouts.c:175-187 | the cyclic timers are armed one after the other, each at its own reading of the clock, and the time is taken afterwards |
| `Timeouts.StartedOnTime` | LwIP/core/timeouts.c:175-187 | if the clock does not move meanwhile, every cyclic timer is due after exactly its interval |
| `Timeouts.Timers.Timeout` | LwIP/core/timeouts.c:204-262 | for every msecs and every clock the list afterwards is the armed list of the specification, wrap-around included |
| `Timeouts.Timers.Untimeout` | LwIP/core/timeouts.c:272-299 | the first matching timer is removed, or nothing |
| `Timeouts.Timers.Check` | LwIP/core/timeouts.c:312-361 | exactly the expired timers fire, in order, the rest stays, and timeouts_last_time advances by their sum |
| `Memp.Sanity` | LwIP/core/memp.c:100-116 | the cycle search terminates on every pool and returns 1 if and only if the free list ends |
| `Memp.Bounded` | LwIP/core/memp.c:105-113 | the pointers meet or the fast one runs off before the slow one has taken as many steps as there are elements |
| `Memp.Meets` | LwIP/core/memp.c:105-113 | on a list that does not end the pointers meet |
| `Memp.MetMeansNoEnd` | LwIP/core/memp.c:105-113 | a list on which they meet does not end |
| `Memp.ThreadedEnds` | LwIP/core/memp.c:434-438 | a properly threaded free list passes the sanity assertion |
| `Memp.Pool.constructor` | LwIP/core/memp.c:229-253 | all elements start on the free list |
| `Memp.Pool.Malloc` | LwIP/core/memp.c:290-348 | NULL if and only if nothing is free; else the first element leaves the free list, and free and live stay a partition |
| `Memp.Pool.Write` | LwIP/core/memp.c:337-338 | whatever the owner of a live element writes over its link leaves the free list sound |
| `Memp.Pool.Free` | LwIP/core/memp.c:406-442 | the element goes back to the front, free and live stay a partition, and the sanity assertion holds |
| `DnsNames.EncodeName` | LwIP/core/dns.c:775-792 | the loop over the host name writes length octet and label for each label, and a zero |
| `DnsNames.EncodeLength` | LwIP/core/dns.c:764-765 | the encoding fills exactly the room allocated for it |
| `DnsNames.EncodedIsAccepted` | LwIP/core/dns.c:650-688 | every name with labels of 1 to 63 octets is accepted where its encoding stands, with the offset behind it |
| `DnsNames.AcceptedExactly` | LwIP/core/dns.c:650-688 | a name is accepted if and only if it is uncompressed, ends inside the packet and agrees with the query in every octet of every label; the offset returned is behind it |
| `DnsNames.EncodedExactly` | LwIP/core/dns.c:650-688 | an accepted name is the encoding of the query if and only if its labels break exactly at the query's dots and it ends with the query |
| `DnsNames.BoundaryIsNotCompared` | LwIP/core/dns.c:679-685 | a single label with a dot in it is accepted for two labels |
| `DnsNames.FirstLabelIsAccepted` | LwIP/core/dns.c:681-687 | for every name, its first label alone is accepted |
| `DnsNames.CompareName` | LwIP/core/dns.c:650-688 | the cursor loops on a pbuf chain return what the comparison of the flat octets does |
| `DnsNames.AcceptedIsSkipped` | LwIP/core/dns.c:697-726 | a name that is accepted is skipped to the same offset |
| `DnsNames.SkipsExactly` | LwIP/core/dns.c:697-726 | a name of labels is skipped to the octet behind its root label or compression pointer, but for the name of the root alone |
| `DnsNames.SkipName` | LwIP/core/dns.c:697-726 | the cursor loop on a pbuf chain returns what skipping in the flat octets does |
| `DnsTable.TickedOk` | LwIP/core/dns.c:1034-1077 | a tick keeps counters in range, keeps an asking entry's identifier, and keeps its callback unless it is given up |
| `DnsTable.AgedCounts` | LwIP/core/dns.c:1034-1066 | every tick of an asking entry takes one of the ticks left, until it is given up |
| `DnsTable.QuietWithoutCallback` | LwIP/core/dns.c:1046-1053 | an entry without callback never reports |
| `DnsTable.ReportedOnce` | LwIP/core/dns.c:1034-1066 | an unanswered query reports failure at most once, and within the ticks left, at most seven a server, whatever servers come and go |
| `DnsTable.ReportedExactly` | LwIP/core/dns.c:1034-1066 | with fixed servers it reports failure exactly once, after exactly the ticks left |
| `DnsTable.SevenTicksPerServer` | LwIP/core/dns.c:1010-1082 | for any number of servers, a new query to fixed ones reports failure exactly once, after exactly seven ticks for each server asked |
| `DnsTable.UnsetServerGivesUp` | LwIP/core/dns.c:750-761 | a query that is due for a server no longer set is given up at once |
| `DnsTable.AnswerLasts` | LwIP/core/dns.c:1067-1074 | an answer is kept for as many ticks as its time to live, but for one at least |
| `DnsTable.Resolver.constructor` | LwIP/core/dns.c:340-343 | the table starts unused |
| `DnsTable.Resolver.CreateTxid` | LwIP/core/dns.c:979-999 | the identifier is unused, and found within one more try than there are queries asking |
| `DnsTable.Resolver.CallFound` | LwIP/core/dns.c:922-977 | a waiting callback is called once and forgotten |
| `DnsTable.Resolver.Send` | LwIP/core/dns.c:734-761 | a query to a server that is gone is given up, and its callback told |
| `DnsTable.Resolver.CheckNew` | LwIP/core/dns.c:1019-1033 | a new query is asked under an identifier that no other query has |
| `DnsTable.Resolver.CheckOld` | LwIP/core/dns.c:1034-1077 | one tick of an entry as specified, keeping identifiers unique |
| `DnsTable.Resolver.CheckEntries` | LwIP/core/dns.c:1087-1095 | one tick of every entry, with exactly the failures that are due, in order |
| `DnsTable.Resolver.CorrectResponse` | LwIP/core/dns.c:1100-1128 | an answer is reported once and kept for its bounded time to live, or not at all if that is zero |
| `DnsTable.Resolver.FindSlot` | LwIP/core/dns.c:1356-1386 | an unused entry, else the oldest finished one; none if and only if no entry is unused or finished with a non-zero age |
| `DnsTable.Resolver.Enqueue` | LwIP/core/dns.c:1316-1445 | no query in progress is displaced, and the new one is asked at once under an unused identifier, or fails at once without a server |

## Left out

- TCP options: window scaling, timestamps and SACK.
- Keepalive, delayed-ACK timing, RTT estimation, the retransmission and persist timers, and the congestion window as such: the send model takes the usable window and the decisions of Nagle and of the link as parameters.
- The TCP handshake, RST handling, listening pcbs and the pcb lists: the models start with an established connection, and a SYN or RST segment or a callback that aborts ends the modelled run.
- The limits on ooseq by octets and by pbufs, which are off by default.
- Transmissions that tcp_input triggers are events of their own in the receive model.
- PbufChain: chains are sequences of nodes, so two chains that share a tail and the aliasing of `next` pointers are not captured; pbuf_header, pbuf_alloc and custom pbufs are left out.
- TcpReceive and TcpSend: queues are sequences of segments, so the linking of `next` pointers and the freeing of segments are not captured.
- TcpWindow.WindowNeverRetreats: asks that the peer stays inside the window and that the application returns, with tcp_recved, some octets and no more than it holds; TcpWindow.OutOfOrderWindow says when the first matters.
- TcpSendRuns.NothingForgotten: asks that what tcp_write and tcp_send_fin fill up is the newest segment; TcpSendQueues.WriteContiguousExactly and TcpSendQueues.SendFinExactly say that this is needed, TcpSendRuns.UsualRuns when it holds.
- TcpSend.SndPcb.Write: asks that the last unsent segment and its spare room fit the current limit, as two assertions in tcp_write demand; TcpSendRuns.StepFits says that this is kept as long as the limit stays.
- TcpReceive.RxPcb.Input: asks that the segment starts within a quarter of the sequence space of rcv_nxt; TcpAnnounced.HeedsIsNear derives this from what the peer does.
- TcpReceive.RxPcb.Process: asks the same, and no data while refused data waits, as tcp_input sees to.
- TcpReceive.RxPcb.Receive: asks the same as TcpReceive.RxPcb.Process.
- TcpAnnounced.Drive: asks that the peer sends nothing beyond the window that was announced to it and no duplicate from a quarter of the sequence space back; TcpAnnounced.Perform asks the same of one event.
- The abort in tcp_input when data arrives after the receive side was shut down (TF_RXCLOSED).
- IphcCode.DecompressBuffer: asks that the buffer holds all the octets that its own header announces, because the decoder reads them without looking at the length.
- Lowpan.EndToEnd: is about packets that lowpan6_frag sends, which have at most 0x7ff octets of payload, and asks that the sender has no other datagram with the same tag and size under way.
- LowpanLoss.GoodRunDelivers: asks that the sender has no other datagram with the same tag and size under way.
- LowpanFrag.ReassemblyIsFaithful: asks that a sender does not use a tag and size again for another datagram while the first is being reassembled.
- Checksum.PartialChksum: asks that fewer than 0x7fff covered octets lie behind the first pbuf, as an assertion in the loop demands; the address words enter as one start value, which Checksum.AddressWords computes.
- Checksum.StampedDatagramAccepted: the address words enter as one start value.
- Checksum.StandardChksum1: at most 0x20000 octets, beyond which the 32-bit accumulator can overflow.
- PbufChain.MemFind: at most 0xfffe octets, because 0xffff means not found.
- Timeouts.ArmedDueExactly: asks that msecs plus the elapsed time, and msecs plus the first timer's time, fit 32 bits.
- Timeouts.Timers.Timeout: an empty timer pool is left out.
- Timeouts.Timers.Check: handlers that arm or remove timers while it runs are left out.
- Heap.Mem.Malloc: the mutex, the build that frees from interrupt context, and the pool- and libc-backed heaps are left out.
- DnsTable.Resolver.CreateTxid: the counter variant; with a random source there is no bound on the tries.
- Parsing of DNS answers, the local host list, multicast DNS and the LWIP_DNS_SECURE variants.
- SelectProtocol: opening and closing sockets while a select runs, and failure to allocate the semaphore.
- Drivers, IP routing, neighbour discovery, ICMP, the netconn layer, socket options and the application above the stack.
