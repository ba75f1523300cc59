/**
 What the peer is told about the window: all but less than the threshold of tcp_update_rcv_ann_wnd is offered
 to it, and the offered edge moves by at least that threshold or not at all, so that the peer is not invited
 to send small segments (section 4.2.3.3 of RFC 1122).
 */
module TcpOffer {
  import opened Bytes
  import opened MachineWords
  import opened SeqSpace
  import opened TcpReassembly
  import opened TcpReceiveSpec
  import opened TcpStream
  import opened TcpWindow

  /** How much more window makes an announcement worth while. */
  function Threshold(p: Pcb): int { Min(p.tcpWnd / 2, p.mss) }

  /** The right edge that the next header announces. */
  function Offer(p: Pcb): int { p.rcvNxt + p.annWnd }

  /** Less than the threshold is held back; the FIN's sequence number is given back without an announcement. */
  ghost predicate NearlyAll(p: Pcb) { p.RightEdge() - Offer(p) <= Max(0, Threshold(p) - 1) + Bit(p.eofs > 0) }

  /** The offer stays where the last announcement or rcv_nxt is, or goes up by the threshold at least. */
  ghost predicate Stepwise(p: Pcb) { Offer(p) == Max(p.annEdge, p.rcvNxt) || Offer(p) >= p.annEdge + Threshold(p) }

  ghost predicate Prudent(p: Pcb) { NearlyAll(p) && Stepwise(p) }

  /** The offer follows the window exactly when that gains the threshold. */
  lemma OfferExactly(p: Pcb)
    requires 0 <= p.tcpWnd && 0 <= p.mss && 0 <= p.rcvWnd <= MAX_WINDOW && p.annEdge <= p.RightEdge()
    ensures var r := UpdateAnnWnd(p);
            Offer(r) == if p.RightEdge() - p.annEdge >= Threshold(p) then p.RightEdge() else Max(p.annEdge, p.rcvNxt)
    ensures Prudent(UpdateAnnWnd(p))
  {
  }

  lemma ConsumePrudent(p: Pcb, c: Segment)
    requires WindowInv(p) && !p.gotFin && c.seqno == p.rcvNxt && c.TcpEnd() <= p.RightEdge()
    ensures Prudent(Consume(p, c))
  {
    var p1 := p.(rcvNxt := p.rcvNxt + c.TcpLen(), rcvWnd := U16(p.rcvWnd - c.TcpLen()),
                 recvData := p.recvData + c.data, gotFin := p.gotFin || c.fin);
    assert p1.rcvWnd == p.rcvWnd - c.TcpLen() && Consume(p, c) == UpdateAnnWnd(p1);
    hide U16, UpdateAnnWnd, Consume;
    OfferExactly(p1);
  }

  lemma {:induction false} DrainPrudent(p: Pcb, stream: seq<byte>)
    requires WindowInv(p) && Collecting(p, stream) && Prudent(p)
    ensures Prudent(Drain(p))
    decreases |p.ooseq|
  {
    if p.ooseq != [] && p.ooseq[0].seqno == p.rcvNxt {
      DrainOneKeeps(p, stream);
      ConsumeWindow(p.(ooseq := p.ooseq[1..]), p.ooseq[0]);
      ConsumePrudent(p.(ooseq := p.ooseq[1..]), p.ooseq[0]);
      DrainPrudent(DrainOne(p), stream);
    }
  }

  lemma InOrderPrudent(p: Pcb, seg: Segment, stream: seq<byte>)
    requires WindowInv(p) && NextInSequence(p, seg, stream)
    ensures Prudent(InOrder(p, seg))
  {
    var c := seg.FitWindow(p.RightEdge());
    assert c.CutFrom(stream) && c.seqno == p.rcvNxt && 0 < c.TcpLen() && c.TcpEnd() <= p.RightEdge();
    AbsorbWindow(c, p.ooseq, p.rcvNxt, p.RightEdge(), stream);
    InOrderFirstKeeps(p, seg, stream);
    var (d, r) := Absorb(c, p.ooseq);
    ConsumeWindow(p.(ooseq := r), d);
    ConsumePrudent(p.(ooseq := r), d);
    assert InOrder(p, seg) == Drain(InOrderFirst(p, seg));
    DrainPrudent(InOrderFirst(p, seg), stream);
  }

  lemma AnnouncePrudent(p: Pcb)
    requires Prudent(p) && 0 <= p.annWnd
    ensures Prudent(Announce(p))
  {
  }

  /** `r` differs from `p` only in ways that no announcement depends on. */
  ghost predicate SameOffer(p: Pcb, r: Pcb) {
    && r.tcpWnd == p.tcpWnd && r.mss == p.mss && r.rcvNxt == p.rcvNxt && r.rcvWnd == p.rcvWnd
    && r.annWnd == p.annWnd && r.annEdge == p.annEdge && r.eofs == p.eofs
  }

  lemma SamePrudent(p: Pcb, r: Pcb)
    requires Prudent(p) && SameOffer(p, r)
    ensures Prudent(r)
  {
  }

  lemma ReceivePrudent(p: Pcb, seg: Segment, env: Env, stream: seq<byte>)
    requires Prudent(p) && WindowInv(p) && Inv(p, stream) && Sendable(seg, stream)
    requires p.refused == [] || seg.TcpLen() == 0
    ensures Prudent(Receive(p, seg, env))
  {
    hide Inv, InOrder, Enqueue, TrimFront, Sendable, Prudent, Segment.TcpLen, Announce;
    AnnouncePrudent(p);
    if seg.TcpLen() > 0 && p.state.Open() {
      TrimmedIs(seg, p.rcvNxt, stream);
      var s := TrimFront(seg, p.rcvNxt);
      if s.seqno == p.rcvNxt < p.RightEdge() {
        InOrderPrudent(p, s, stream);
      } else if p.rcvNxt < s.seqno < p.RightEdge() {
        SamePrudent(SendEmptyAck(p, env.ackAlloc), OutOfOrder(p, s, env));
      }
    }
  }

  lemma TransitionPrudent(before: State, r: Pcb, allAcked: bool)
    requires Prudent(r)
    ensures Prudent(Transition(before, r, allAcked))
  {
    assert SameOffer(r, Transition(before, r, allAcked));
  }

  lemma SignalPrudent(p: Pcb)
    requires Prudent(p) && p.eofs == 0 && 0 <= p.rcvWnd <= MAX_WINDOW
    ensures Prudent(SignalEof(p))
  {
  }

  lemma NotifyPrudent(p: Pcb, accepted: bool, stream: seq<byte>)
    requires Prudent(p) && Pending(p, stream)
    ensures Prudent(Notify(p, accepted))
  {
    assert p.gotFin ==> p.eofs == 0;
    var p1 := HandOver(p, accepted);
    SamePrudent(p, p1);
    SamePrudent(p1, p1.(refusedFin := true, gotFin := false));
    SamePrudent(p1, p1.(gotFin := false));
    assert p1.gotFin == p.gotFin && p1.eofs == p.eofs && p1.rcvWnd == p.rcvWnd;
    hide Prudent, Pending, HandOver, SignalEof;
    if p1.gotFin && p1.refused == [] { InPending(p, stream); SignalPrudent(p1.(gotFin := false)); }
  }

  lemma InPending(p: Pcb, stream: seq<byte>)
    requires Pending(p, stream)
    ensures 0 <= p.rcvWnd <= MAX_WINDOW
  {
  }

  lemma RefusedPrudent(p: Pcb, accepted: bool, stream: seq<byte>)
    requires Prudent(p) && Inv(p, stream)
    ensures Prudent(ProcessRefused(p, accepted))
  {
    assert p.refusedFin ==> p.eofs == 0;
    if p.refused != [] && accepted {
      var p1 := p.(delivered := p.delivered + p.refused, unread := p.unread + |p.refused|, refused := [], refusedFin := false);
      SamePrudent(p, p1);
      hide Prudent, SignalEof;
      if p.refusedFin { SignalPrudent(p1); }
    }
  }

  lemma InputPrudent(p: Pcb, seg: Segment, env: Env, stream: seq<byte>)
    requires Prudent(p) && WindowInv(p) && Inv(p, stream) && Sendable(seg, stream)
    ensures Prudent(Input(p, seg, env))
  {
    hide Prudent, ProcessRefused, Receive, Transition, Notify, Inv, Announce, Sendable;
    if p.state.Active() {
      var p1 := ProcessRefused(p, env.retryAccepted);
      RefusedPrudent(p, env.retryAccepted, stream);
      ProcessRefusedKeeps(p, env.retryAccepted, stream);
      ProcessRefusedFrame(p, env.retryAccepted, stream);
      ProcessRefusedWindow(p, env.retryAccepted);
      if p1.refused != [] && seg.TcpLen() > 0 {
        AnnouncePrudent(p1);
      } else {
        ReceivePrudent(p1, seg, env, stream);
        TransitionPrudent(p1.state, Receive(p1, seg, env), env.allAcked);
        ProcessKeeps(p1, seg, env, stream);
        NotifyPrudent(Process(p1, seg, env), env.accepted, stream);
      }
    }
  }

  lemma RecvedPrudent(p: Pcb, len: int, stream: seq<byte>)
    requires WindowInv(p) && Inv(p, stream) && Polite(p, Recved(len))
    ensures Prudent(RecvedStep(p, len))
  {
    hide Inv, UpdateAnnWnd, RecvedStep, Polite;
    RecvedIs(p, len, stream);
    var w := if len <= p.unread then p.rcvWnd + len else p.tcpWnd;
    var u := if len <= p.unread then p.unread - len else 0;
    OfferExactly(p.(rcvWnd := w, unread := u));
  }

  /** tcp_recved gives back what it is told, up to the whole window; when that is all, nearly all of it is offered at once. */
  lemma RecvedReopens(p: Pcb, len: int, stream: seq<byte>)
    requires WindowInv(p) && Inv(p, stream) && Polite(p, Recved(len)) && !p.state.Closed?
    ensures var r := Step(p, Recved(len));
            && r.rcvWnd == Min(p.rcvWnd + len, p.tcpWnd) && r.unread == Max(0, p.unread - len) && r.rcvNxt == p.rcvNxt
            && (len >= p.unread && p.refused == [] && p.purged == [] && p.eofs == Bit(FinSeen(p, stream)) ==>
                  r.rcvWnd == r.tcpWnd && r.rcvNxt + r.tcpWnd - Announce(r).annEdge <= Max(0, Threshold(r) - 1) + Bit(r.eofs > 0))
  {
    RecvedPrudent(p, len, stream);
    assert p.recvData == [] && !p.gotFin;
    assert p.refused == [] ==> !p.refusedFin;
    assert p.eofs == Bit(FinSeen(p, stream)) ==> !p.purgedFin;
    RecvedWindow(p, len, stream);
    RecvedIs(p, len, stream);
    RecvedGivesBack(p, len, stream);
    UpdateIs(p.(rcvWnd := if len <= p.unread then p.rcvWnd + len else p.tcpWnd, unread := if len <= p.unread then p.unread - len else 0));
    hide RecvedStep, UpdateAnnWnd, Inv, Polite;
  }

  lemma UpdateIs(p: Pcb)
    ensures UpdateAnnWnd(p) == p.(annWnd := UpdateAnnWnd(p).annWnd)
  {
  }

  /** A segment with data or FIN that does not bring rcv_nxt forward is answered at once, if an ACK can be allocated. */
  lemma AnsweredAtOnce(p: Pcb, seg: Segment, env: Env)
    requires p.state.Open() && 0 < seg.TcpLen() && !Straddles(p, seg)
    ensures Receive(p, seg, env).annEdge == if env.ackAlloc then Offer(p) else p.annEdge
  {
    hide InOrder, Enqueue;
  }

  /** So is one that is turned away because of refused data, if no window was offered. */
  lemma ProbeIsAnswered(p: Pcb, seg: Segment, env: Env)
    requires p.state.Active() && p.refused != [] && !env.retryAccepted && 0 < seg.TcpLen()
    ensures Input(p, seg, env) == p.(annEdge := if p.annWnd == 0 && env.ackAlloc then p.rcvNxt else p.annEdge)
  {
  }

  lemma StepPrudent(p: Pcb, e: Event, stream: seq<byte>)
    requires Prudent(p) && WindowInv(p) && Inv(p, stream) && Allowed(e, stream) && Polite(p, e)
    ensures Prudent(Step(p, e))
  {
    hide Prudent, Input, ProcessRefused, RecvedStep, Announce, Inv, Polite, Sendable;
    match e
    case Arrive(seg, env) => InputPrudent(p, seg, env, stream);
    case Retry(accepted) => RefusedPrudent(p, accepted, stream);
    case Recved(len) => RecvedPrudent(p, len, stream);
    case Transmit => AnnouncePrudent(p);
    case ShutdownTx => SamePrudent(p, Step(p, e));
  }

  lemma {:induction false} RunPrudent(p: Pcb, es: seq<Event>, stream: seq<byte>)
    requires Prudent(p) && WindowInv(p) && Inv(p, stream) && PoliteRun(p, es, stream)
    ensures Prudent(Run(p, es))
    decreases |es|
  {
    if es != [] {
      hide Inv, WindowInv, Step, Allowed, Polite, Prudent;
      var n := |es| - 1;
      var fs := es[..n];
      assert forall i :: 0 <= i < n ==> fs[..i] == es[..i] && fs[i] == es[i];
      assert Allowed(es[n], stream) && Polite(Run(p, es[..n]), es[n]);
      RunPrudent(p, fs, stream);
      RunWindow(p, fs, stream);
      StepPrudent(Run(p, fs), es[n], stream);
    }
  }

  /**
   Over the life of a connection whose peer and application are polite, a header sent at any time offers the
   peer all the window but less than the threshold, and one octet once the stream has ended; and it either
   repeats the edge that was announced before, or moves it by the threshold at least.
   */
  lemma WindowIsOffered(tcpWnd: int, mss: int, es: seq<Event>, stream: seq<byte>)
    requires 0 < tcpWnd <= MAX_WINDOW && 0 <= mss && PoliteRun(Init(tcpWnd, mss), es, stream)
    ensures var (p, t) := (Run(Init(tcpWnd, mss), es), Min(tcpWnd / 2, mss));
            var sent := Step(p, Transmit).annEdge;
            !p.state.Closed? ==>
              && 0 <= p.RightEdge() - sent <= Max(0, t - 1) + Bit(p.eofs > 0)
              && (sent == Max(p.annEdge, p.rcvNxt) || sent >= p.annEdge + t)
  {
    var p := Init(tcpWnd, mss);
    InitInv(tcpWnd, mss, stream);
    hide Inv, Run, PoliteRun;
    RunPrudent(p, es, stream);
    RunWindow(p, es, stream);
    RunSame(p, es);
    assert Step(Run(p, es), Transmit) == if Run(p, es).state.Closed? then Run(p, es) else Announce(Run(p, es));
  }

  lemma {:induction false} DrainSame(p: Pcb)
    ensures Drain(p).mss == p.mss && Drain(p).tcpWnd == p.tcpWnd
    decreases |p.ooseq|
  {
    if p.ooseq != [] && p.ooseq[0].seqno == p.rcvNxt {
      DrainSame(DrainOne(p));
    }
  }

  lemma ReceiveSame(p: Pcb, seg: Segment, env: Env)
    ensures Receive(p, seg, env).mss == p.mss && Receive(p, seg, env).tcpWnd == p.tcpWnd
  {
    DrainSame(InOrderFirst(p, TrimFront(seg, p.rcvNxt)));
    hide Drain, Enqueue, Absorb;
  }

  lemma InputSame(p: Pcb, seg: Segment, env: Env)
    ensures Input(p, seg, env).mss == p.mss && Input(p, seg, env).tcpWnd == p.tcpWnd
  {
    hide Receive, ProcessRefused, Transition, Notify, SendEmptyAck;
    var p1 := ProcessRefused(p, env.retryAccepted);
    RefusedSame(p, env.retryAccepted);
    ReceiveSame(p1, seg, env);
    RestSame(p1.state, Receive(p1, seg, env), env);
    AckSame(p1, env.ackAlloc);
  }

  lemma AckSame(p: Pcb, alloc: bool)
    ensures SendEmptyAck(p, alloc).mss == p.mss && SendEmptyAck(p, alloc).tcpWnd == p.tcpWnd
  {
  }

  lemma RestSame(before: State, r: Pcb, env: Env)
    ensures var t := Notify(Transition(before, r, env.allAcked), env.accepted); t.mss == r.mss && t.tcpWnd == r.tcpWnd
  {
  }

  lemma RefusedSame(p: Pcb, accepted: bool)
    ensures ProcessRefused(p, accepted).mss == p.mss && ProcessRefused(p, accepted).tcpWnd == p.tcpWnd
  {
  }

  lemma StepSame(p: Pcb, e: Event)
    ensures Step(p, e).mss == p.mss && Step(p, e).tcpWnd == p.tcpWnd
  {
    hide Input;
    if e.Arrive? { InputSame(p, e.seg, e.env); }
  }

  lemma {:induction false} RunSame(p: Pcb, es: seq<Event>)
    ensures Run(p, es).mss == p.mss && Run(p, es).tcpWnd == p.tcpWnd
    decreases |es|
  {
    if es != [] {
      RunSame(p, es[..|es| - 1]);
      StepSame(Run(p, es[..|es| - 1]), es[|es| - 1]);
    }
  }
}
