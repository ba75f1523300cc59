/**
 The receive half of a TCP connection as a step machine over unbounded stream positions:
 segment arrival (tcp_input, tcp_process, tcp_receive), refused data, the application's
 tcp_recved, and the announcement of the receive window in every transmitted header.
 */
module TcpReceiveSpec {
  import opened Bytes
  import opened MachineWords
  import opened SeqSpace
  import opened TcpReassembly

  /** The connection states that reach tcp_receive, in the order of the source's enumeration. */
  datatype State = Established | FinWait1 | FinWait2 | CloseWait | Closing | LastAck | TimeWait | Closed {
    /** state < CLOSE_WAIT: segment text is still accepted. */
    predicate Open() { Established? || FinWait1? || FinWait2? }

    /** The pcb is on the list of active connections. */
    predicate Active() { !TimeWait? && !Closed? }
  }

  /**
   `refused` is pcb->refused_data ([] for NULL) and `refusedFin` its PBUF_FLAG_TCP_FIN;
   `recvData` and `gotFin` are the file-scope recv_data and TF_GOT_FIN of one tcp_input call.
   What the application saw is in `delivered` and `eofs`, what it acknowledged in `unread`;
   `purged` is received data that tcp_pcb_purge freed unseen.
   */
  datatype Pcb = Pcb(
    tcpWnd: int, mss: int,
    state: State,
    rcvNxt: int, rcvWnd: int, annWnd: int, annEdge: int,
    ooseq: seq<Segment>,
    refused: seq<byte>, refusedFin: bool,
    recvData: seq<byte>, gotFin: bool,
    delivered: seq<byte>, eofs: nat, unread: int,
    purged: seq<byte>, purgedFin: bool)
  {
    function RightEdge(): int { rcvNxt + rcvWnd }
  }

  /** What the environment decides while one segment is processed. */
  datatype Env = Env(
    retryAccepted: bool,  // the callback takes the refused data that is offered again
    accepted: bool,       // the callback takes the new data
    ackAlloc: bool,       // a pbuf is available for an immediate empty ACK
    segAlloc: bool,       // tcp_seg_copy succeeds
    allAcked: bool)       // the segment acknowledges everything sent, and nothing is unsent

  datatype Event =
    | Arrive(seg: Segment, env: Env)
    | Retry(accepted: bool)        // tcp_fasttmr offers refused data again
    | Recved(len: int)             // the application calls tcp_recved
    | Transmit                     // any segment leaves with a freshly filled header
    | ShutdownTx                   // the FIN of this side has been queued

  function Bit(b: bool): int { if b then 1 else 0 }

  // ----- The announced window

  /** tcp_update_rcv_ann_wnd */
  function UpdateAnnWnd(p: Pcb): Pcb {
    if p.RightEdge() >= p.annEdge + Min(p.tcpWnd / 2, p.mss) then p.(annWnd := p.rcvWnd)
    else if p.rcvNxt > p.annEdge then p.(annWnd := 0)
    else p.(annWnd := U16(p.annEdge - p.rcvNxt))
  }

  /** The header of every outgoing segment announces rcv_ann_wnd. */
  function Announce(p: Pcb): Pcb { p.(annEdge := p.rcvNxt + p.annWnd) }

  function SendEmptyAck(p: Pcb, alloc: bool): Pcb { if alloc then Announce(p) else p }

  /** tcp_recved */
  function RecvedStep(p: Pcb, len: int): Pcb {
    var w := U16(p.rcvWnd + len);
    var w' := if w > p.tcpWnd then p.tcpWnd
              else if w == 0 && (p.state.CloseWait? || p.state.LastAck?) then p.tcpWnd
              else w;
    UpdateAnnWnd(p.(rcvWnd := w', unread := if len <= p.unread then p.unread - len else 0))
  }

  // ----- Data

  /** Consume the sequence numbers of `c` and chain its payload to recv_data. */
  function Consume(p: Pcb, c: Segment): Pcb {
    UpdateAnnWnd(p.(rcvNxt := p.rcvNxt + c.TcpLen(), rcvWnd := U16(p.rcvWnd - c.TcpLen()),
                    recvData := p.recvData + c.data, gotFin := p.gotFin || c.fin))
  }

  /** Take the first element of the queue, which has become in-sequence. */
  function DrainOne(p: Pcb): Pcb
    requires p.ooseq != []
  {
    var c := p.ooseq[0];
    var p1 := Consume(p.(ooseq := p.ooseq[1..]), c);
    if c.fin && p.state.Established? then p1.(state := CloseWait) else p1
  }

  /** Move all elements that have become in-sequence from the queue to recv_data. */
  function Drain(p: Pcb): Pcb
    decreases |p.ooseq|
  {
    if p.ooseq != [] && p.ooseq[0].seqno == p.rcvNxt then Drain(DrainOne(p)) else p
  }

  /** Resolve an in-sequence segment against the queue: what is left of both. */
  function Absorb(c: Segment, q: seq<Segment>): (Segment, seq<Segment>) {
    if c.fin then (c, []) else (Front(c, q), q[Covered(q, c.End())..])
  }

  function InOrder(p: Pcb, seg: Segment): Pcb {
    var (c, q) := Absorb(seg.FitWindow(p.RightEdge()), p.ooseq);
    Drain(Consume(p.(ooseq := q), c))
  }

  function OutOfOrder(p: Pcb, seg: Segment, env: Env): Pcb {
    var p1 := SendEmptyAck(p, env.ackAlloc);
    p1.(ooseq := Enqueue(p1.ooseq, seg, p1.RightEdge(), env.segAlloc))
  }

  /** The leading edge is trimmed when rcv_nxt lies inside the segment. */
  function TrimFront(seg: Segment, nxt: int): Segment {
    if seg.seqno < nxt < seg.TcpEnd() then seg.DropTo(nxt) else seg
  }

  /** The data part of tcp_receive. */
  function Receive(p: Pcb, seg: Segment, env: Env): Pcb {
    if seg.TcpLen() > 0 && p.state.Open() then
      var s := TrimFront(seg, p.rcvNxt);
      if p.rcvNxt <= s.seqno < p.RightEdge() then
        if s.seqno == p.rcvNxt then InOrder(p, s) else OutOfOrder(p, s, env)
      else SendEmptyAck(p, env.ackAlloc)
    else p
  }

  /** tcp_pcb_purge */
  function Purge(p: Pcb): Pcb {
    p.(purged := p.purged + p.refused, purgedFin := p.purgedFin || p.refusedFin,
       refused := [], refusedFin := false, ooseq := [])
  }

  /** The state changes of tcp_process after tcp_receive, from the state before it. */
  function Transition(before: State, r: Pcb, allAcked: bool): Pcb {
    match before
    case Established | CloseWait => if r.gotFin then r.(state := CloseWait) else r
    case FinWait1 =>
      if r.gotFin then
        if allAcked then Purge(r).(state := TimeWait) else r.(state := Closing)
      else if allAcked then r.(state := FinWait2) else r
    case FinWait2 => if r.gotFin then Purge(r).(state := TimeWait) else r
    case Closing => if allAcked then Purge(r).(state := TimeWait) else r
    case LastAck => if allAcked then Purge(r).(state := Closed) else r
    case TimeWait | Closed => r
  }

  /** tcp_process for a segment without RST and SYN. */
  function Process(p: Pcb, seg: Segment, env: Env): Pcb {
    Transition(p.state, Receive(p, seg, env), env.allAcked)
  }

  /** The end of the stream is signalled, and the FIN's sequence number returned to the window. */
  function SignalEof(p: Pcb): Pcb {
    p.(rcvWnd := if p.rcvWnd != p.tcpWnd then U16(p.rcvWnd + 1) else p.rcvWnd, eofs := p.eofs + 1)
  }

  /** recv_data is offered to the callback. */
  function HandOver(p: Pcb, accepted: bool): Pcb {
    if p.recvData == [] then p
    else if accepted then
      p.(delivered := p.delivered + p.recvData, unread := p.unread + |p.recvData|, recvData := [])
    else p.(refused := p.recvData, recvData := [])
  }

  /** The callbacks at the end of tcp_input. */
  function Notify(p: Pcb, accepted: bool): Pcb {
    var p1 := HandOver(p, accepted);
    if !p1.gotFin then p1
    else if p1.refused != [] then p1.(refusedFin := true, gotFin := false)
    else SignalEof(p1.(gotFin := false))
  }

  /** tcp_process_refused_data */
  function ProcessRefused(p: Pcb, accepted: bool): Pcb {
    if p.refused == [] || !accepted then p
    else
      var p1 := p.(delivered := p.delivered + p.refused, unread := p.unread + |p.refused|,
                   refused := [], refusedFin := false);
      if p.refusedFin then SignalEof(p1) else p1
  }

  /** tcp_input for a segment that belongs to this connection. */
  function Input(p: Pcb, seg: Segment, env: Env): Pcb {
    if !p.state.Active() then p
    else
      var p1 := ProcessRefused(p, env.retryAccepted);
      if p1.refused != [] && seg.TcpLen() > 0 then
        if p1.annWnd == 0 then SendEmptyAck(p1, env.ackAlloc) else p1
      else Notify(Process(p1, seg, env), env.accepted)
  }

  function Step(p: Pcb, e: Event): Pcb {
    match e
    case Arrive(seg, env) => Input(p, seg, env)
    case Retry(accepted) => if p.state.Active() then ProcessRefused(p, accepted) else p
    case Recved(len) => if p.state.Closed? then p else RecvedStep(p, len)
    case Transmit => if p.state.Closed? then p else Announce(p)
    case ShutdownTx =>
      if p.state.Established? then p.(state := FinWait1)
      else if p.state.CloseWait? then p.(state := LastAck) else p
  }

  function Run(p: Pcb, es: seq<Event>): Pcb
    decreases |es|
  {
    if es == [] then p else Step(Run(p, es[..|es| - 1]), es[|es| - 1])
  }

  /** The pcb when the connection becomes established: the peer's stream starts at position 0. */
  function Init(tcpWnd: int, mss: int): Pcb {
    Pcb(tcpWnd, mss, Established, 0, tcpWnd, tcpWnd, 0, [], [], false, [], false, [], 0, 0, [], false)
  }
}
