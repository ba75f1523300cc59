/**
 The receive window: no octet of window is created or destroyed, and the right edge announced to
 the peer neither retreats nor passes the space that is really there (section 4.2.2.16 of RFC 1122).
 */
module TcpWindow {
  import opened Bytes
  import opened MachineWords
  import opened SeqSpace
  import opened TcpReassembly
  import opened TcpReceiveSpec
  import opened TcpStream

  /** Sequence numbers received but not yet given back to the window. */
  function Outstanding(p: Pcb): int {
    p.unread + |p.recvData| + |p.refused| + |p.purged| + Bit(p.gotFin) + Bit(p.refusedFin) + Bit(p.purgedFin)
  }

  /** A transmission now would announce an edge no lower than before, and no higher than the real one. */
  ghost predicate AnnouncesForward(p: Pcb) {
    0 <= p.annWnd <= p.rcvWnd && p.annEdge <= p.rcvNxt + p.annWnd
  }

  ghost predicate WindowInv(p: Pcb) {
    && 0 < p.tcpWnd <= MAX_WINDOW && 0 <= p.mss && 0 <= p.unread
    && p.rcvWnd + Outstanding(p) == p.tcpWnd
    && AnnouncesForward(p)
    && InsideWindow(p.ooseq, p.RightEdge())
  }

  /**
   The peer stays inside the window, or overruns it where the code trims or drops; the application
   gives back no more than it was handed, plus the FIN after a passive close.
   */
  ghost predicate Polite(p: Pcb, e: Event) {
    match e
    case Arrive(seg, env) =>
      seg.TcpEnd() <= p.RightEdge() || seg.seqno <= p.rcvNxt || Guarded(p.ooseq, seg, env.segAlloc)
    case Recved(len) =>
      0 < len <= p.unread + Bit(p.eofs > 0 && (p.state.CloseWait? || p.state.LastAck?))
    case _ => true
  }

  // ----- Pieces of a step

  lemma UpdateKeeps(p: Pcb)
    requires 0 < p.tcpWnd && 0 <= p.mss && 0 <= p.rcvWnd <= MAX_WINDOW && p.annEdge <= p.RightEdge()
    ensures AnnouncesForward(UpdateAnnWnd(p)) && UpdateAnnWnd(p) == p.(annWnd := UpdateAnnWnd(p).annWnd)
  {
  }

  /** The assertion rcv_wnd >= tcplen holds, and consuming moves window to the application's account. */
  lemma ConsumeWindow(p: Pcb, c: Segment)
    requires WindowInv(p) && !p.gotFin && c.seqno == p.rcvNxt && c.TcpEnd() <= p.RightEdge()
    ensures WindowInv(Consume(p, c)) && c.TcpLen() <= p.rcvWnd
    ensures Consume(p, c).RightEdge() == p.RightEdge() && Consume(p, c).annEdge == p.annEdge
    ensures Consume(p, c).tcpWnd == p.tcpWnd
  {
    var p1 := p.(rcvNxt := p.rcvNxt + c.TcpLen(), rcvWnd := U16(p.rcvWnd - c.TcpLen()),
                 recvData := p.recvData + c.data, gotFin := p.gotFin || c.fin);
    assert p1.rcvWnd == p.rcvWnd - c.TcpLen() && Consume(p, c) == UpdateAnnWnd(p1);
    hide U16, UpdateAnnWnd, Consume;
    UpdateKeeps(p1);
  }

  lemma {:induction false} DrainWindow(p: Pcb, stream: seq<byte>)
    requires WindowInv(p) && Collecting(p, stream)
    ensures WindowInv(Drain(p))
    ensures Drain(p).RightEdge() == p.RightEdge() && Drain(p).annEdge == p.annEdge
    ensures Drain(p).tcpWnd == p.tcpWnd
    decreases |p.ooseq|
  {
    if p.ooseq != [] && p.ooseq[0].seqno == p.rcvNxt {
      DrainOneKeeps(p, stream);
      ConsumeWindow(p.(ooseq := p.ooseq[1..]), p.ooseq[0]);
      DrainWindow(DrainOne(p), stream);
    }
  }

  lemma AbsorbWindow(c: Segment, q: seq<Segment>, nxt: int, edge: int, stream: seq<byte>)
    requires QueueInv(q, nxt, stream) && InsideWindow(q, edge)
    requires c.CutFrom(stream) && c.seqno == nxt && 0 < c.TcpLen() && c.TcpEnd() <= edge
    ensures var (d, r) := Absorb(c, q); d.TcpEnd() <= edge && InsideWindow(r, edge)
  {
    InsertOverruns(c, q, edge, stream);
    var (d, r) := Absorb(c, q);
    assert Insert(c, q) == [d] + r;
    InsideJoin([d], r, edge);
    assert [d][0] == d;
  }

  lemma InOrderWindow(p: Pcb, seg: Segment, stream: seq<byte>)
    requires WindowInv(p) && NextInSequence(p, seg, stream)
    ensures WindowInv(InOrder(p, seg))
    ensures InOrder(p, seg).RightEdge() == p.RightEdge() && InOrder(p, seg).annEdge == p.annEdge
    ensures InOrder(p, seg).tcpWnd == p.tcpWnd
  {
    var c := seg.FitWindow(p.RightEdge());
    assert c.CutFrom(stream) && c.seqno == p.rcvNxt && 0 < c.TcpLen() && c.TcpEnd() <= p.RightEdge();
    AbsorbWindow(c, p.ooseq, p.rcvNxt, p.RightEdge(), stream);
    InOrderFirstKeeps(p, seg, stream);
    var (d, r) := Absorb(c, p.ooseq);
    ConsumeWindow(p.(ooseq := r), d);
    assert InOrder(p, seg) == Drain(InOrderFirst(p, seg));
    DrainWindow(InOrderFirst(p, seg), stream);
  }

  lemma OutOfOrderFields(p: Pcb, seg: Segment, env: Env)
    ensures var r := OutOfOrder(p, seg, env);
            && r == p.(ooseq := Enqueue(p.ooseq, seg, p.RightEdge(), env.segAlloc), annEdge := r.annEdge)
            && (r.annEdge == p.annEdge || r.annEdge == p.rcvNxt + p.annWnd)
  {
    hide Enqueue;
  }

  lemma OutOfOrderWindow(p: Pcb, seg: Segment, env: Env, stream: seq<byte>)
    requires WindowInv(p) && Inv(p, stream) && Sendable(seg, stream) && 0 < seg.TcpLen()
    requires p.rcvNxt < seg.seqno < p.RightEdge()
    ensures WindowInv(OutOfOrder(p, seg, env)) <==>
            seg.TcpEnd() <= p.RightEdge() || Guarded(p.ooseq, seg, env.segAlloc)
    ensures OutOfOrder(p, seg, env).RightEdge() == p.RightEdge()
    ensures p.annEdge <= OutOfOrder(p, seg, env).annEdge
  {
    assert Queueable(p.ooseq, seg, p.rcvNxt, p.RightEdge(), stream) by { hide QueueInv, Segment.CutFrom; }
    hide Inv, OutOfOrder, Enqueue, InsideWindow, Guarded, QueueInv, Segment.TcpLen, Segment.CutFrom;
    OutOfOrderFields(p, seg, env);
    EnqueueInsideWindow(p.ooseq, seg, p.rcvNxt, p.RightEdge(), env.segAlloc, stream);
  }

  // ----- One event

  /** What a step may do to the two edges. */
  ghost predicate Forward(p: Pcb, r: Pcb) {
    WindowInv(r) && p.annEdge <= r.annEdge && p.RightEdge() <= r.RightEdge() && r.tcpWnd == p.tcpWnd
  }

  lemma TrimmedIs(seg: Segment, nxt: int, stream: seq<byte>)
    requires Sendable(seg, stream) && 0 < seg.TcpLen()
    ensures var s := TrimFront(seg, nxt); Sendable(s, stream) && 0 < s.TcpLen() && (s == seg || s.seqno == nxt)
  {
  }

  lemma InOrderForward(p: Pcb, s: Segment, stream: seq<byte>)
    requires WindowInv(p) && Inv(p, stream) && Sendable(s, stream) && 0 < s.TcpLen()
    requires p.state.Open() && p.refused == [] && s.seqno == p.rcvNxt < p.RightEdge()
    ensures Forward(p, InOrder(p, s))
  {
    hide InOrder, Accounted, QueueInv, InsideWindow, Sendable;
    InOrderWindow(p, s, stream);
  }

  lemma AckForward(p: Pcb, alloc: bool)
    requires WindowInv(p)
    ensures Forward(p, SendEmptyAck(p, alloc))
  {
  }

  lemma ForwardSame(p: Pcb)
    requires WindowInv(p)
    ensures Forward(p, p)
  {
  }

  lemma OutOfOrderForward(p: Pcb, s: Segment, env: Env, stream: seq<byte>)
    requires WindowInv(p) && Inv(p, stream) && Sendable(s, stream) && 0 < s.TcpLen()
    requires p.rcvNxt < s.seqno < p.RightEdge() && (s.TcpEnd() <= p.RightEdge() || Guarded(p.ooseq, s, env.segAlloc))
    ensures Forward(p, OutOfOrder(p, s, env))
  {
    hide Inv, OutOfOrder, Enqueue, Guarded, Sendable, WindowInv;
    OutOfOrderWindow(p, s, env, stream);
    OutOfOrderFields(p, s, env);
  }

  lemma ReceiveWindow(p: Pcb, seg: Segment, env: Env, stream: seq<byte>)
    requires WindowInv(p) && Inv(p, stream) && Sendable(seg, stream)
    requires p.refused == [] || seg.TcpLen() == 0
    requires seg.TcpEnd() <= p.RightEdge() || seg.seqno <= p.rcvNxt || Guarded(p.ooseq, seg, env.segAlloc)
    ensures Forward(p, Receive(p, seg, env))
  {
    hide Inv, WindowInv, Forward, InOrder, OutOfOrder, TrimFront, SendEmptyAck, Sendable, Guarded, Segment.TcpLen, Segment.TcpEnd;
    if seg.TcpLen() > 0 && p.state.Open() {
      TrimmedIs(seg, p.rcvNxt, stream);
      var s := TrimFront(seg, p.rcvNxt);
      if s.seqno == p.rcvNxt < p.RightEdge() {
        InOrderForward(p, s, stream);
      } else if p.rcvNxt < s.seqno < p.RightEdge() {
        OutOfOrderForward(p, s, env, stream);
      } else {
        AckForward(p, env.ackAlloc);
      }
    } else {
      ForwardSame(p);
    }
  }

  lemma TransitionWindow(before: State, r: Pcb, allAcked: bool, stream: seq<byte>)
    requires WindowInv(r) && Pending(r, stream) && (r.state.Active() <==> before.Active())
    ensures Forward(r, Transition(before, r, allAcked))
  {
  }

  lemma NotifyWindow(p: Pcb, accepted: bool, stream: seq<byte>)
    requires WindowInv(p) && Pending(p, stream)
    ensures Forward(p, Notify(p, accepted))
  {
  }

  lemma ProcessRefusedWindow(p: Pcb, accepted: bool)
    requires WindowInv(p)
    ensures Forward(p, ProcessRefused(p, accepted))
  {
  }

  /** The window of tcp_recved before it is announced. */
  lemma RecvedGivesBack(p: Pcb, len: int, stream: seq<byte>)
    requires WindowInv(p) && Inv(p, stream) && Polite(p, Recved(len))
    ensures var n := p.rcvWnd + len;
            if len <= p.unread then 0 < n <= p.tcpWnd && U16(n) == n
            else n == p.tcpWnd + 1 && (U16(n) == n || U16(n) == 0) && (p.state.CloseWait? || p.state.LastAck?)
                 && Outstanding(p) == p.unread
  {
  }

  lemma RecvedIs(p: Pcb, len: int, stream: seq<byte>)
    requires WindowInv(p) && Inv(p, stream) && Polite(p, Recved(len))
    ensures var w := if len <= p.unread then p.rcvWnd + len else p.tcpWnd;
            var u := if len <= p.unread then p.unread - len else 0;
            var p1 := p.(rcvWnd := w, unread := u);
            && RecvedStep(p, len) == UpdateAnnWnd(p1) && p1.rcvWnd + Outstanding(p1) == p1.tcpWnd
            && p.rcvWnd <= w <= MAX_WINDOW && 0 <= u
  {
    RecvedGivesBack(p, len, stream);
    hide Inv, UpdateAnnWnd;
  }

  lemma RecvedWindow(p: Pcb, len: int, stream: seq<byte>)
    requires WindowInv(p) && Inv(p, stream) && Polite(p, Recved(len))
    ensures Forward(p, RecvedStep(p, len))
  {
    hide Inv, UpdateAnnWnd, RecvedStep, Polite;
    RecvedIs(p, len, stream);
    var w := if len <= p.unread then p.rcvWnd + len else p.tcpWnd;
    var u := if len <= p.unread then p.unread - len else 0;
    UpdateKeeps(p.(rcvWnd := w, unread := u));
  }

  lemma ProcessWindow(p: Pcb, seg: Segment, env: Env, stream: seq<byte>)
    requires WindowInv(p) && Inv(p, stream) && Sendable(seg, stream) && p.state.Active()
    requires p.refused == [] || seg.TcpLen() == 0
    requires seg.TcpEnd() <= p.RightEdge() || seg.seqno <= p.rcvNxt || Guarded(p.ooseq, seg, env.segAlloc)
    ensures Forward(p, Notify(Process(p, seg, env), env.accepted))
  {
    ReceiveKeeps(p, seg, env, stream);
    ReceiveWindow(p, seg, env, stream);
    ProcessKeeps(p, seg, env, stream);
    hide Receive, Transition, Pending, Notify;
    TransitionWindow(p.state, Receive(p, seg, env), env.allAcked, stream);
    NotifyWindow(Process(p, seg, env), env.accepted, stream);
  }

  lemma InputWindow(p: Pcb, seg: Segment, env: Env, stream: seq<byte>)
    requires WindowInv(p) && Inv(p, stream) && Sendable(seg, stream) && Polite(p, Arrive(seg, env))
    ensures Forward(p, Input(p, seg, env))
  {
    if p.state.Active() {
      var p1 := ProcessRefused(p, env.retryAccepted);
      assert p1.ooseq == p.ooseq && p1.rcvNxt == p.rcvNxt && p1.state == p.state;
      ProcessRefusedKeeps(p, env.retryAccepted, stream);
      ProcessRefusedWindow(p, env.retryAccepted);
      if !(p1.refused != [] && seg.TcpLen() > 0) {
        hide ProcessRefused, Process, Notify, Inv;
        ProcessWindow(p1, seg, env, stream);
      }
    }
  }

  /** Every polite step conserves the window and moves neither edge backwards. */
  lemma StepWindow(p: Pcb, e: Event, stream: seq<byte>)
    requires WindowInv(p) && Inv(p, stream) && Allowed(e, stream) && Polite(p, e)
    ensures Forward(p, Step(p, e))
  {
    match e
    case Arrive(seg, env) => InputWindow(p, seg, env, stream);
    case Retry(accepted) => ProcessRefusedWindow(p, accepted);
    case Recved(len) => RecvedWindow(p, len, stream);
    case Transmit =>
    case ShutdownTx =>
  }

  // ----- Every run

  ghost predicate PoliteRun(p: Pcb, es: seq<Event>, stream: seq<byte>) {
    forall i :: 0 <= i < |es| ==> Allowed(es[i], stream) && Polite(Run(p, es[..i]), es[i])
  }

  lemma {:induction false} RunWindow(p: Pcb, es: seq<Event>, stream: seq<byte>)
    requires WindowInv(p) && Inv(p, stream) && PoliteRun(p, es, stream)
    ensures Inv(Run(p, es), stream) && Forward(p, Run(p, es))
    decreases |es|
  {
    if es != [] {
      hide Inv, WindowInv, Step, Allowed, Polite;
      var n := |es| - 1;
      var fs := es[..n];
      assert forall i :: 0 <= i < n ==> fs[..i] == es[..i] && fs[i] == es[i];
      assert Allowed(es[n], stream) && Polite(Run(p, es[..n]), es[n]);
      RunWindow(p, fs, stream);
      StepKeeps(Run(p, fs), es[n], stream);
      StepWindow(Run(p, fs), es[n], stream);
    }
  }

  lemma RunSplits(p: Pcb, es: seq<Event>, k: nat)
    requires k <= |es|
    ensures Run(p, es) == Run(Run(p, es[..k]), es[k..])
    decreases |es|
  {
    if k < |es| {
      var n := |es| - 1;
      assert es[..n][..k] == es[..k] && es[..n][k..] == es[k..][..n - k];
      RunSplits(p, es[..n], k);
    } else {
      assert es[..k] == es;
    }
  }

  lemma PoliteSplits(p: Pcb, es: seq<Event>, stream: seq<byte>, k: nat)
    requires PoliteRun(p, es, stream) && k <= |es|
    ensures PoliteRun(p, es[..k], stream) && PoliteRun(Run(p, es[..k]), es[k..], stream)
  {
    hide Allowed, Polite, Run;
    assert forall i :: 0 <= i < k ==> es[..k][..i] == es[..i] && es[..k][i] == es[i];
    var m := Run(p, es[..k]);
    forall i | 0 <= i < |es[k..]| ensures Allowed(es[k..][i], stream) && Polite(Run(m, es[k..][..i]), es[k..][i]) {
      assert es[..k + i][..k] == es[..k] && es[..k + i][k..] == es[k..][..i] && es[k..][i] == es[k + i];
      RunSplits(p, es[..k + i], k);
    }
  }

  /**
   Over the life of a connection whose peer and application are polite, the announced right edge
   and the real one only move forward, the announced edge never passes the real one, and the
   window plus all that waits for the application is always TCP_WND.
   */
  lemma WindowNeverRetreats(tcpWnd: int, mss: int, es: seq<Event>, stream: seq<byte>, k: nat)
    requires 0 < tcpWnd <= MAX_WINDOW && 0 <= mss && k <= |es|
    requires PoliteRun(Init(tcpWnd, mss), es, stream)
    ensures var early := Run(Init(tcpWnd, mss), es[..k]);
            var late := Run(Init(tcpWnd, mss), es);
            && early.annEdge <= late.annEdge <= late.RightEdge()
            && early.RightEdge() <= late.RightEdge()
            && late.rcvWnd + Outstanding(late) == tcpWnd
            && AnnouncesForward(late)
  {
    var p := Init(tcpWnd, mss);
    InitInv(tcpWnd, mss, stream);
    PoliteSplits(p, es, stream, k);
    hide Inv, Run, PoliteRun;
    RunWindow(p, es[..k], stream);
    RunWindow(Run(p, es[..k]), es[k..], stream);
    RunSplits(p, es, k);
  }

  // ----- A peer that overruns the window

  const OVERRUN := Segment(2, [3, 4, 5, 6], false)
  const FILLER := Segment(0, [1, 2], false)
  const CALM := Env(true, true, true, true, false)

  lemma OverrunIsPlaced()
    ensures OutOfOrder(Init(4, 1), OVERRUN, CALM) == Init(4, 1).(ooseq := [OVERRUN], annEdge := 4)
  {
    hide Insert, Head, Below;
  }

  lemma OverrunIsQueued()
    ensures Step(Init(4, 1), Arrive(OVERRUN, CALM)) == Init(4, 1).(ooseq := [OVERRUN], annEdge := 4)
  {
    OverrunIsPlaced();
    hide InOrder, OutOfOrder;
    assert TrimFront(OVERRUN, 0) == OVERRUN;
    assert Receive(Init(4, 1), OVERRUN, CALM) == Init(4, 1).(ooseq := [OVERRUN], annEdge := 4);
  }

  lemma OverrunIsDrained()
    ensures var p := Step(Init(4, 1).(ooseq := [OVERRUN], annEdge := 4), Arrive(FILLER, CALM));
            p.rcvNxt == 6 && p.rcvWnd == 0xfffe
  {
    var p := Init(4, 1).(ooseq := [OVERRUN], annEdge := 4);
    assert FILLER.FitWindow(4) == FILLER && Covered([OVERRUN], 2) == 0;
    assert Absorb(FILLER, [OVERRUN]) == (FILLER, [OVERRUN]);
    var p2 := Consume(p, FILLER);
    assert p2.rcvNxt == 2 && p2.rcvWnd == 2 && p2.ooseq == [OVERRUN];
    var p3 := DrainOne(p2);
    assert p3.rcvNxt == 6 && p3.rcvWnd == 0xfffe && p3.ooseq == [];
    assert Drain(p2) == Drain(p3) == p3;
    assert Receive(p, FILLER, CALM) == InOrder(p, FILLER) == p3;
  }

  /** Without the trim or the polite peer the assertion in the drain loop fails: the window wraps below zero. */
  lemma OverrunWraps()
    ensures var stream := [1, 2, 3, 4, 5, 6];
            var es := [Arrive(OVERRUN, CALM), Arrive(FILLER, CALM)];
            var p := Run(Init(4, 1), es);
            && (forall i :: 0 <= i < |es| ==> Allowed(es[i], stream))
            && p.rcvNxt == 6 && p.rcvWnd == 0xfffe
  {
    OverrunIsQueued();
    OverrunIsDrained();
    var es := [Arrive(OVERRUN, CALM), Arrive(FILLER, CALM)];
    hide Step;
    assert es[..1][..0] == [] && es[..1][0] == es[0];
    assert Run(Init(4, 1), es[..1]) == Step(Run(Init(4, 1), []), es[0]);
    assert Run(Init(4, 1), es) == Step(Run(Init(4, 1), es[..1]), es[1]);
  }
}
