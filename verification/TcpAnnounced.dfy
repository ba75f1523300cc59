/**
 A peer that stays inside the window it was told: sequence numbers then never come near half the sequence space
 apart, and whole runs on 32-bit words are the runs over positions.
 */
module TcpAnnounced {
  import opened Bytes
  import opened MachineWords
  import opened TcpReassembly
  import opened TcpReceiveSpec
  import opened TcpStream
  import opened TcpWindow
  import TcpReceive

  /** Nothing received or queued lies above `edge`. */
  ghost predicate Under(p: Pcb, edge: int) {
    p.rcvNxt <= edge && InsideWindow(p.ooseq, edge)
  }

  // ----- Nothing that ends below an edge takes the connection above it

  lemma EnqueueUnder(q: seq<Segment>, c: Segment, nxt: int, right: int, alloc: bool, stream: seq<byte>, edge: int)
    requires Queueable(q, c, nxt, right, stream) && InsideWindow(q, edge) && c.TcpEnd() <= edge
    ensures InsideWindow(Enqueue(q, c, right, alloc), edge)
  {
    var k := Below(q, c.seqno);
    if alloc && q != [] {
      if k == |q| {
        if !q[k - 1].fin {
          HeadInside(q, k, c.seqno, edge, stream);
          InsideJoin(Head(q, k, c.seqno), [c.FitWindow(right)], edge);
        }
      } else if !Guarded(q, c, alloc) {
        PlacementIsInsertable(q, c, nxt, right, stream);
        InnerInside(q, k, c, edge, stream);
      }
    }
  }

  lemma {:induction false} DrainUnder(p: Pcb, stream: seq<byte>, edge: int)
    requires Collecting(p, stream) && Under(p, edge)
    ensures Under(Drain(p), edge)
    decreases |p.ooseq|
  {
    if p.ooseq != [] && p.ooseq[0].seqno == p.rcvNxt {
      DrainOneKeeps(p, stream);
      var p1 := DrainOne(p);
      assert Drain(p) == Drain(p1) && |p1.ooseq| < |p.ooseq|;
      assert Under(p1, edge);
      hide Drain, DrainOne, Collecting, Under;
      DrainUnder(p1, stream, edge);
    }
  }

  lemma InOrderUnder(p: Pcb, seg: Segment, stream: seq<byte>, edge: int)
    requires NextInSequence(p, seg, stream) && Under(p, edge) && seg.TcpEnd() <= edge
    ensures Under(InOrder(p, seg), edge)
  {
    var c := seg.FitWindow(p.RightEdge());
    assert QueueInv(p.ooseq, p.rcvNxt, stream) && c.TcpEnd() <= edge;
    assert InOrder(p, seg) == Drain(InOrderFirst(p, seg));
    hide Drain, Absorb, Accounted, QueueInv, InOrder, Segment.FitWindow, InsideWindow, Consume, Collecting, NextInSequence;
    FitIsNext(p, seg, stream);
    AbsorbWindow(c, p.ooseq, p.rcvNxt, edge, stream);
    InOrderFirstKeeps(p, seg, stream);
    DrainUnder(InOrderFirst(p, seg), stream, edge);
  }

  lemma ReceiveUnder(p: Pcb, seg: Segment, env: Env, stream: seq<byte>, edge: int)
    requires Inv(p, stream) && Sendable(seg, stream) && (p.refused == [] || seg.TcpLen() == 0)
    requires Under(p, edge) && seg.TcpEnd() <= edge
    ensures Under(Receive(p, seg, env), edge)
  {
    hide Inv, InOrder, Enqueue, Sendable, InsideWindow;
    if seg.TcpLen() > 0 && p.state.Open() {
      var s := TrimFront(seg, p.rcvNxt);
      TrimKeeps(seg, p.rcvNxt, stream);
      if p.rcvNxt <= s.seqno < p.RightEdge() {
        if s.seqno == p.rcvNxt {
          InOrderUnder(p, s, stream, edge);
        } else {
          QueueableHere(p, s, stream);
          EnqueueUnder(p.ooseq, s, p.rcvNxt, p.RightEdge(), env.segAlloc, stream, edge);
        }
      }
    }
  }

  lemma QueueableHere(p: Pcb, seg: Segment, stream: seq<byte>)
    requires Inv(p, stream) && Sendable(seg, stream) && 0 < seg.TcpLen() && p.rcvNxt < seg.seqno < p.RightEdge()
    ensures Queueable(p.ooseq, seg, p.rcvNxt, p.RightEdge(), stream)
  {
    hide Accounted, QueueInv;
  }

  lemma CallbacksUnder(before: State, p: Pcb, allAcked: bool, accepted: bool, edge: int)
    requires Under(p, edge)
    ensures Under(Notify(Transition(before, p, allAcked), accepted), edge)
  {
  }

  lemma InputUnder(p: Pcb, seg: Segment, env: Env, stream: seq<byte>, edge: int)
    requires Inv(p, stream) && Sendable(seg, stream) && Under(p, edge) && seg.TcpEnd() <= edge
    ensures Under(Input(p, seg, env), edge)
  {
    var p1 := ProcessRefused(p, env.retryAccepted);
    ProcessRefusedFrame(p, env.retryAccepted, stream);
    ProcessRefusedKeeps(p, env.retryAccepted, stream);
    hide Inv, ProcessRefused, Receive, Transition, Notify, Sendable, InsideWindow;
    if p.state.Active() && !(p1.refused != [] && seg.TcpLen() > 0) {
      ShortOnes(seg);
      ReceiveUnder(p1, seg, env, stream, edge);
      CallbacksUnder(p1.state, Receive(p1, seg, env), env.allAcked, env.accepted, edge);
    }
  }

  lemma ShortOnes(seg: Segment)
    ensures 0 <= seg.TcpLen()
  {
  }

  lemma StepUnder(p: Pcb, e: Event, stream: seq<byte>, edge: int)
    requires Inv(p, stream) && Allowed(e, stream) && Under(p, edge) && (e.Arrive? ==> e.seg.TcpEnd() <= edge)
    ensures Under(Step(p, e), edge)
  {
    hide Inv, Input, InsideWindow, Sendable, Segment.TcpEnd;
    match e
    case Arrive(seg, env) => InputUnder(p, seg, env, stream, edge);
    case Retry(accepted) =>
    case Recved(len) =>
    case Transmit =>
    case ShutdownTx =>
  }

  // ----- Runs

  /**
   A duplicate is less than a quarter of the sequence space old, and what the peer sends ends inside the announced
   window. The application is polite, and the argument of tcp_recved has 16 bits.
   */
  ghost predicate Heeds(p: Pcb, e: Event) {
    if e.Arrive? then p.rcvNxt - 0x4000_0000 < e.seg.seqno && e.seg.TcpEnd() <= p.annEdge else Polite(p, e) && (e.Recved? ==> e.len <= MAX_WINDOW)
  }

  ghost predicate RunInv(p: Pcb, stream: seq<byte>) {
    WindowInv(p) && Inv(p, stream) && Under(p, p.annEdge)
  }

  lemma HeedsIsPolite(p: Pcb, e: Event)
    requires WindowInv(p) && Heeds(p, e)
    ensures Polite(p, e)
  {
  }

  lemma UnderMore(p: Pcb, a: int, b: int)
    requires Under(p, a) && a <= b
    ensures Under(p, b)
  {
  }

  lemma StepHeeds(p: Pcb, e: Event, stream: seq<byte>)
    requires RunInv(p, stream) && Allowed(e, stream) && Heeds(p, e)
    ensures RunInv(Step(p, e), stream)
  {
    hide WindowInv, Inv, Under, Allowed, Polite, Step;
    HeedsIsPolite(p, e);
    StepKeeps(p, e, stream);
    StepWindow(p, e, stream);
    StepUnder(p, e, stream, p.annEdge);
    UnderMore(Step(p, e), p.annEdge, Step(p, e).annEdge);
  }

  /** With such a peer the comparisons of the receive path never wrap: what every word-level step asks for holds. */
  lemma HeedsIsNear(p: Pcb, e: Event, stream: seq<byte>)
    requires RunInv(p, stream) && Heeds(p, e)
    ensures TcpReceive.Timely(p) && 0 <= p.annEdge - p.rcvNxt <= MAX_WINDOW
    ensures e.Arrive? ==> -0x4000_0000 < e.seg.seqno - p.rcvNxt <= MAX_WINDOW
  {
  }

  ghost predicate HeedingRun(p: Pcb, es: seq<Event>, stream: seq<byte>) {
    forall i :: 0 <= i < |es| ==> Allowed(es[i], stream) && Heeds(Run(p, es[..i]), es[i])
  }

  lemma InitHeeds(tcpWnd: int, mss: int, stream: seq<byte>)
    requires 0 < tcpWnd <= MAX_WINDOW && 0 <= mss
    ensures RunInv(Init(tcpWnd, mss), stream)
  {
    InitInv(tcpWnd, mss, stream);
    hide Inv;
  }

  /** An event as the words of the connection show it. */
  function OnWords(e: Event, base: int): Event {
    if e.Arrive? then Arrive(TcpReceive.Word(e.seg, base), e.env) else e
  }

  /** Any one event on the words of a connection. */
  method Perform(p: TcpReceive.RxPcb, w: Event, ghost e: Event, ghost stream: seq<byte>) returns (handed: seq<byte>)
    requires p.Valid() && RunInv(p.m, stream) && p.mss <= MAX_WINDOW
    requires w == OnWords(e, p.base) && Allowed(e, stream) && Heeds(p.m, e)
    modifies p
    ensures p.Valid() && p.m == Step(old(p.m), e) && RunInv(p.m, stream)
    ensures p.m.delivered == old(p.m).delivered + handed
  {
    hide RunInv, Heeds, U32, Allowed;
    StepHeeds(p.m, e, stream);
    HeedsIsNear(p.m, e, stream);
    RunInvIs(p.m, e, stream);
    handed := [];
    assert p.m.delivered + [] == p.m.delivered;
    match w
    case Arrive(seg, env) =>
      var eofs;
      handed, eofs := p.Input(seg, env, e.seg, stream);
    case Retry(accepted) =>
      if p.state.Active() {
        var eofs;
        handed, eofs := p.ProcessRefused(accepted);
      }
    case Recved(len) => if p.state != Closed { var inflation := p.Recved(len); }
    case Transmit => if p.state != Closed { p.Announce(); }
    case ShutdownTx =>
      if p.state == Established {
        p.SetState(FinWait1);
      } else if p.state == CloseWait {
        p.SetState(LastAck);
      }
  }

  lemma RunInvIs(p: Pcb, e: Event, stream: seq<byte>)
    requires RunInv(p, stream) && Allowed(e, stream) && Heeds(p, e)
    ensures Inv(p, stream) && 0 < p.tcpWnd <= MAX_WINDOW && 0 <= p.mss && 0 <= p.rcvWnd <= MAX_WINDOW
    ensures e.Arrive? ==> Sendable(e.seg, stream)
    ensures e.Recved? ==> 0 <= e.len <= MAX_WINDOW
    ensures e.Recved? ==> RecvedStep(p, e.len).delivered == p.delivered
  {
  }

  /**
   Every run on words, with a peer that heeds the announced window, is the run over positions: the preconditions of
   all steps keep being met, and what is handed over is the peer's stream.
   */
  method Drive(p: TcpReceive.RxPcb, ws: seq<Event>, ghost es: seq<Event>, ghost stream: seq<byte>) returns (handed: seq<byte>)
    requires p.Valid() && p.m == Init(p.tcpWnd, p.mss) && 0 < p.tcpWnd <= MAX_WINDOW && 0 <= p.mss <= MAX_WINDOW
    requires |ws| == |es| && forall i :: 0 <= i < |es| ==> ws[i] == OnWords(es[i], p.base)
    requires HeedingRun(p.m, es, stream)
    modifies p
    ensures p.Valid() && p.m == Run(old(p.m), es) && RunInv(p.m, stream)
    ensures handed == p.m.delivered && handed + p.refused + p.m.purged == stream[..Received(p.m, stream)]
  {
    ghost var m0 := p.m;
    InitHeeds(p.tcpWnd, p.mss, stream);
    hide RunInv, Heeds, U32, Allowed, Step, OnWords;
    handed := [];
    var i := 0;
    assert es[..0] == [];
    while i < |ws|
      invariant 0 <= i <= |ws| && p.Valid() && p.m == Run(m0, es[..i]) && RunInv(p.m, stream) && p.mss <= MAX_WINDOW
      invariant handed == p.m.delivered
    {
      var h := Perform(p, ws[i], es[i], stream);
      RunSnoc(m0, es, i);
      handed := handed + h;
      i := i + 1;
    }
    assert es[..i] == es;
    RunInvMeans(p.m, stream);
  }

  lemma RunSnoc(p: Pcb, es: seq<Event>, i: nat)
    requires i < |es|
    ensures Run(p, es[..i + 1]) == Step(Run(p, es[..i]), es[i])
  {
    var fs := es[..i + 1];
    assert fs[..i] == es[..i] && fs[i] == es[i];
    hide Step;
  }

  lemma RunInvMeans(p: Pcb, stream: seq<byte>)
    requires RunInv(p, stream)
    ensures p.delivered + p.refused + p.purged == stream[..Received(p, stream)]
  {
    InvMeans(p, stream);
  }
}
