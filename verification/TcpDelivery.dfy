/**
 What one arriving segment achieves, whatever its overlap with what is received or queued already,
 what the application is handed when it takes what it is offered, and which state the connection is in.
 */
module TcpDelivery {
  import opened Bytes
  import opened SeqSpace
  import opened TcpReassembly
  import opened TcpReceiveSpec
  import opened TcpStream

  // ----- Octets

  /** An element of the queue begins before `seg`, and position `i` is in it, behind `seg` as far as that fits the window. */
  ghost predicate Encloses(q: seq<Segment>, seg: Segment, edge: int, i: int) {
    exists k :: 0 <= k < |q| && q[k].seqno < seg.seqno && Min(seg.End(), edge) <= i && q[k].Has(i)
  }

  lemma KeptIs(q: seq<Segment>, c: Segment, edge: int, i: int)
    requires 0 < c.TcpLen() && c.seqno < edge
    ensures var kept := Kept(q, c, edge);
            && kept.seqno == c.seqno && Min(c.End(), edge) <= kept.End() && (kept.Has(i) ==> c.Has(i))
            && (c.Has(i) && i < edge ==> kept.Has(i))
  {
  }

  lemma OutOfOrderBuffers(p: Pcb, seg: Segment, env: Env, stream: seq<byte>, i: int)
    requires Inv(p, stream) && Sendable(seg, stream) && 0 < seg.TcpLen() && p.rcvNxt < seg.seqno < p.RightEdge()
    ensures var (q, r) := (p.ooseq, OutOfOrder(p, seg, env));
            && (Buffered(r.ooseq, i) ==> seg.Has(i) || Buffered(q, i))
            && (Buffered(q, i) ==> Buffered(r.ooseq, i) || (env.segAlloc && Encloses(q, seg, p.RightEdge(), i)))
            && (env.segAlloc && Brings(p, seg, i) ==> Buffered(r.ooseq, i))
  {
    assert Queueable(p.ooseq, seg, p.rcvNxt, p.RightEdge(), stream) by { hide QueueInv, Accounted, OutOfOrder, Buffered, Encloses; }
    hide Enqueue, Inv, Queueable, Buffered, Encloses, Sendable, Brings;
    if env.segAlloc {
      EnqueuedAre(p.ooseq, seg, p.rcvNxt, p.RightEdge(), stream, i);
      BringsIs(p, seg, i);
    } else {
      NotEnqueued(p.ooseq, seg, p.RightEdge());
    }
  }

  lemma BringsIs(p: Pcb, seg: Segment, i: int)
    ensures Brings(p, seg, i) ==> seg.Has(i) && i < p.RightEdge()
  {
  }

  lemma NotEnqueued(q: seq<Segment>, c: Segment, edge: int)
    ensures Enqueue(q, c, edge, false) == q
  {
  }

  lemma EnqueuedAre(q: seq<Segment>, c: Segment, nxt: int, edge: int, stream: seq<byte>, i: int)
    requires Queueable(q, c, nxt, edge, stream)
    ensures var r := Enqueue(q, c, edge, true);
            && (Buffered(r, i) ==> c.Has(i) || Buffered(q, i)) && (c.Has(i) && i < edge ==> Buffered(r, i))
            && (Buffered(q, i) ==> Buffered(r, i) || Encloses(q, c, edge, i))
  {
    hide Enqueue, Kept, Buffered, CutOff, Encloses, QueueInv, Segment.CutFrom;
    KeptIs(q, c, edge, i);
    EnqueueBuffers(q, c, nxt, edge, stream, i);
    var kept := Kept(q, c, edge);
    if CutOff(q, kept, i) { CutOffEncloses(q, c, kept, edge, i); }
  }

  lemma CutOffEncloses(q: seq<Segment>, c: Segment, kept: Segment, edge: int, i: int)
    requires CutOff(q, kept, i) && kept.seqno == c.seqno && Min(c.End(), edge) <= kept.End()
    ensures Encloses(q, c, edge, i)
  {
  }

  /**
   Every segment, on its own terms. If rcv_nxt is in it, received and queued are afterwards exactly what the
   segment brings and what was queued before. If it starts beyond, inside the window, all it brings is queued
   and nothing comes from elsewhere; what was queued stays but for the end of an element around the segment.
   Any other segment does no more than have an ACK sent.
   */
  lemma ReceiveDelivers(p: Pcb, seg: Segment, env: Env, stream: seq<byte>, i: int)
    requires Inv(p, stream) && p.state.Open() && p.refused == [] && Sendable(seg, stream)
    ensures var r := Receive(p, seg, env);
            if Straddles(p, seg) then
              p.rcvNxt <= i < Received(r, stream) || Buffered(r.ooseq, i) <==> Brings(p, seg, i) || Buffered(p.ooseq, i)
            else if p.rcvNxt < seg.seqno < p.RightEdge() && 0 < seg.TcpLen() then
              && r.rcvNxt == p.rcvNxt && (Buffered(r.ooseq, i) ==> seg.Has(i) || Buffered(p.ooseq, i))
              && (Buffered(p.ooseq, i) ==> Buffered(r.ooseq, i) || (env.segAlloc && Encloses(p.ooseq, seg, p.RightEdge(), i)))
              && (env.segAlloc && Brings(p, seg, i) ==> Buffered(r.ooseq, i))
            else r == p.(annEdge := r.annEdge)
  {
    hide Inv, InOrder, OutOfOrder, Buffered, Brings, Encloses, Segment.FitWindow, Received;
    if Straddles(p, seg) {
      StraddlesIsNext(p, seg, env, stream);
      TrimBrings(p, seg, stream, i);
      InOrderDelivers(p, TrimFront(seg, p.rcvNxt), stream, i);
    } else {
      OtherwiseNotNext(p, seg, env);
      if p.rcvNxt < seg.seqno < p.RightEdge() && 0 < seg.TcpLen() {
        OutOfOrderBuffers(p, seg, env, stream, i);
      }
    }
  }

  /** Position `i` is at hand: the segment brings it or it is queued. */
  ghost predicate AtHand(p: Pcb, seg: Segment, i: int) {
    Brings(p, seg, i) || Buffered(p.ooseq, i)
  }

  /** A segment with rcv_nxt in it moves rcv_nxt to the first octet that is not at hand, and to its own end at least. */
  lemma ReceiveAdvances(p: Pcb, seg: Segment, env: Env, stream: seq<byte>)
    requires Inv(p, stream) && p.state.Open() && p.refused == [] && Sendable(seg, stream) && Straddles(p, seg)
    ensures var n := Received(Receive(p, seg, env), stream);
            && p.rcvNxt <= n && Min(seg.End(), p.RightEdge()) <= n
            && (forall i :: p.rcvNxt <= i < n ==> AtHand(p, seg, i)) && (n < |stream| ==> !AtHand(p, seg, n))
  {
    hide Inv, Receive, Buffered, AtHand, Straddles, Sendable;
    var r := Receive(p, seg, env);
    var n := Received(r, stream);
    StraddlesGrows(p, seg, env, stream);
    forall i | p.rcvNxt <= i < n ensures AtHand(p, seg, i) {
      ReceiveDelivers(p, seg, env, stream, i);
      AtHandIs(p, seg, i);
    }
    if n < |stream| {
      ReceiveDelivers(p, seg, env, stream, n);
      AtHandIs(p, seg, n);
      if Min(seg.End(), p.RightEdge()) > n { BringsUpTo(p, seg, n); }
    }
    EndsInside(seg, stream);
  }

  lemma AtHandIs(p: Pcb, seg: Segment, i: int)
    ensures AtHand(p, seg, i) <==> Brings(p, seg, i) || Buffered(p.ooseq, i)
  {
  }

  lemma BringsUpTo(p: Pcb, seg: Segment, n: int)
    requires Straddles(p, seg) && p.rcvNxt <= n < Min(seg.End(), p.RightEdge())
    ensures Brings(p, seg, n)
  {
  }

  lemma EndsInside(seg: Segment, stream: seq<byte>)
    requires Sendable(seg, stream)
    ensures seg.End() <= |stream|
  {
  }

  lemma StraddlesGrows(p: Pcb, seg: Segment, env: Env, stream: seq<byte>)
    requires Inv(p, stream) && p.state.Open() && p.refused == [] && Sendable(seg, stream) && Straddles(p, seg)
    ensures var r := Receive(p, seg, env);
            && p.rcvNxt <= Received(r, stream) && (Received(r, stream) < |stream| ==> !Buffered(r.ooseq, Received(r, stream)))
  {
    StraddlesIsNext(p, seg, env, stream);
    var s := TrimFront(seg, p.rcvNxt);
    assert p.rcvNxt <= |stream|;
    hide InOrder, Accounted, QueueInv, Receive, Ordered, AllCutFrom, TrimFront;
    InOrderAhead(p, s, stream);
    InOrderKeeps(p, s, stream);
  }

  /** A FIN out of order is passed over: an element that starts at the same place is as long, or the FIN is outside the window at the tail. */
  ghost predicate FinPassedOver(q: seq<Segment>, c: Segment, edge: int) {
    || (exists k :: 0 <= k < |q| && q[k].seqno == c.seqno && |c.data| <= |q[k].data|)
    || (q != [] && (forall k :: 0 <= k < |q| ==> q[k].seqno < c.seqno) && edge < c.TcpEnd())
  }

  lemma HeadNoFin(q: seq<Segment>, k: nat, at: int, r: seq<Segment>)
    requires Ordered(q) && k <= |q| && (k == |q| > 0 ==> !q[k - 1].fin)
    ensures HasFin(Head(q, k, at) + r) <==> HasFin(r)
  {
    var h := Head(q, k, at);
    assert forall i :: 0 <= i < |h| ==> !h[i].fin;
    assert forall i :: 0 <= i < |r| ==> (h + r)[|h| + i] == r[i];
    if HasFin(h + r) {
      var i :| 0 <= i < |h + r| && (h + r)[i].fin;
      assert r[i - |h|].fin;
    }
    if HasFin(r) {
      var i :| 0 <= i < |r| && r[i].fin;
      assert (h + r)[|h| + i].fin;
    }
  }

  lemma InsertFin(c: Segment, q: seq<Segment>)
    requires Ordered(q)
    ensures HasFin(Insert(c, q)) <==> c.fin || HasFin(q)
  {
    AbsorbFin(c, q);
    var (d, r) := Absorb(c, q);
    var s := Insert(c, q);
    assert s == [d] + r;
    assert forall i :: 0 <= i < |r| ==> s[i + 1] == r[i];
    if HasFin(s) {
      var i :| 0 <= i < |s| && s[i].fin;
      if i > 0 { assert r[i - 1].fin; }
    }
    if HasFin(r) {
      var i :| 0 <= i < |r| && r[i].fin;
      assert s[i + 1].fin;
    }
    if d.fin { assert s[0].fin; }
  }

  lemma SuffixFin(q: seq<Segment>, k: nat)
    requires Ordered(q) && k < |q|
    ensures Ordered(q[k..]) && (HasFin(q[k..]) <==> HasFin(q))
  {
    assert forall i :: k <= i < |q| ==> q[k..][i - k] == q[i];
    if HasFin(q) {
      var i :| 0 <= i < |q| && q[i].fin;
      assert q[k..][i - k].fin;
    }
  }

  lemma TailFin(q: seq<Segment>, c: Segment, edge: int)
    requires Ordered(q) && q != [] && !q[|q| - 1].fin
    ensures HasFin(Head(q, |q|, c.seqno) + [c.FitWindow(edge)]) <==> c.fin && c.TcpEnd() <= edge
    ensures !HasFin(q)
  {
    var fit := c.FitWindow(edge);
    assert fit.fin <==> c.fin && c.TcpEnd() <= edge;
    assert !HasFin(q);
    hide Head, Ordered, Segment.FitWindow;
    HeadNoFin(q, |q|, c.seqno, [fit]);
    OneFin(fit);
  }

  lemma OneFin(c: Segment)
    ensures HasFin([c]) <==> c.fin
  {
    if c.fin { assert [c][0].fin; }
  }

  lemma InnerFin(q: seq<Segment>, k: nat, c: Segment)
    requires Ordered(q) && k < |q|
    ensures HasFin(Head(q, k, c.seqno) + Insert(c, q[k..])) <==> c.fin || HasFin(q)
  {
    hide HasFin, Head, Insert, Ordered;
    SuffixFin(q, k);
    InsertFin(c, q[k..]);
    HeadNoFin(q, k, c.seqno, Insert(c, q[k..]));
  }

  /** A FIN that arrives out of order is queued, and the queued one kept, with exactly those exceptions. */
  lemma EnqueueFin(q: seq<Segment>, c: Segment, nxt: int, edge: int, alloc: bool, stream: seq<byte>)
    requires Queueable(q, c, nxt, edge, stream)
    ensures HasFin(Enqueue(q, c, edge, alloc)) <==> HasFin(q) || (alloc && c.fin && !FinPassedOver(q, c, edge))
  {
    hide HasFin, Head, Insert, Ordered, AllCutFrom, Near, Beyond, Segment.CutFrom, Segment.FitWindow;
    var k := Below(q, c.seqno);
    BelowSplits(q, c.seqno);
    OneFin(c);
    if alloc && q == [] {
      NoFin();
    } else if alloc {
      if k == |q| {
        if q[k - 1].fin { LastFin(q); } else { TailFin(q, c, edge); }
      } else if !(q[k].seqno == c.seqno && |c.data| <= |q[k].data|) {
        InnerFin(q, k, c);
        OneStart(q, k, c);
      }
    }
  }

  lemma NoFin()
    ensures !HasFin([])
  {
  }

  lemma LastFin(q: seq<Segment>)
    requires q != [] && q[|q| - 1].fin
    ensures HasFin(q)
  {
  }

  lemma OneStart(q: seq<Segment>, k: nat, c: Segment)
    requires Ordered(q) && k < |q| && c.seqno <= q[k].seqno && (forall j :: 0 <= j < k ==> q[j].seqno < c.seqno)
    requires !(q[k].seqno == c.seqno && |c.data| <= |q[k].data|) && 0 < c.TcpLen()
    ensures forall j :: 0 <= j < |q| ==> !(q[j].seqno == c.seqno && |c.data| <= |q[j].data|)
  {
    forall j | k < j < |q| ensures c.seqno < q[j].seqno { assert q[k].End() <= q[j].seqno && !q[k].fin; }
  }

  // ----- What the application is handed

  /** The application takes all it is offered. */
  predicate Takes(e: Event) {
    match e
    case Arrive(seg, env) => env.accepted && env.retryAccepted
    case Retry(accepted) => accepted
    case _ => false
  }

  /** The application takes nothing. */
  predicate Declines(e: Event) {
    match e
    case Arrive(seg, env) => !env.accepted && !env.retryAccepted
    case Retry(accepted) => !accepted
    case _ => true
  }

  lemma ProcessFrame(p: Pcb, seg: Segment, env: Env, stream: seq<byte>)
    requires Inv(p, stream) && p.state.Active() && Sendable(seg, stream) && (p.refused == [] || seg.TcpLen() == 0)
    ensures var t := Process(p, seg, env); t.delivered == p.delivered && t.eofs == p.eofs
    ensures p.refused == [] ==> Process(p, seg, env).refused == [] && Process(p, seg, env).purged == []
                                && !Process(p, seg, env).purgedFin
  {
    ReceiveFrame(p, seg, env);
    ReceiveKeeps(p, seg, env, stream);
    hide Receive, QueueInv;
  }

  lemma NotifyTakes(p: Pcb, stream: seq<byte>)
    requires Pending(p, stream) && p.refused == [] && p.purged == [] && !p.purgedFin
    ensures var r := Notify(p, true);
            r.delivered == stream[..Received(p, stream)] && r.refused == [] && r.purged == [] && r.eofs == Bit(FinSeen(p, stream))
            && r.rcvNxt == p.rcvNxt
  {
    assert p.delivered + p.refused + p.purged + p.recvData == p.delivered + p.recvData;
    hide QueueInv;
  }

  lemma NotifyDeclines(p: Pcb)
    ensures Notify(p, false).delivered == p.delivered && (p.recvData != [] ==> Notify(p, false).refused == p.recvData)
  {
  }

  lemma RetryTakes(p: Pcb, stream: seq<byte>)
    requires Inv(p, stream) && p.state.Active()
    ensures var r := ProcessRefused(p, true);
            && r.refused == [] && r.delivered == stream[..Received(p, stream)] && r.eofs == Bit(FinSeen(p, stream))
            && r.rcvNxt == p.rcvNxt && r.purged == [] && r.state == p.state
  {
    assert p.purged == [] && p.recvData == [];
    assert p.delivered + p.refused + p.purged + p.recvData == p.delivered + p.refused;
    hide QueueInv;
  }

  /** An application that takes what it is offered has everything received so far, and the end if that was reached. */
  lemma TakenIsDelivered(p: Pcb, e: Event, stream: seq<byte>)
    requires Inv(p, stream) && p.state.Active() && Allowed(e, stream) && Takes(e)
    ensures var r := Step(p, e);
            && 0 <= r.rcvNxt && r.delivered == stream[..Received(r, stream)] && r.refused == [] && r.purged == []
            && r.eofs == Bit(FinSeen(r, stream))
  {
    hide Inv, ProcessRefused, Process, Notify, Pending, Received, FinSeen, Sendable, Segment.TcpLen;
    StepKeeps(p, e, stream);
    InvMeans(Step(p, e), stream);
    RetryTakes(p, stream);
    ProcessRefusedKeeps(p, true, stream);
    SameReceived(p, ProcessRefused(p, true), stream);
    if e.Arrive? {
      var p1 := ProcessRefused(p, true);
      ProcessFrame(p1, e.seg, e.env, stream);
      ProcessKeeps(p1, e.seg, e.env, stream);
      var t := Process(p1, e.seg, e.env);
      NotifyTakes(t, stream);
      SameReceived(t, Notify(t, true), stream);
    }
  }

  lemma SameReceived(p: Pcb, r: Pcb, stream: seq<byte>)
    requires r.rcvNxt == p.rcvNxt
    ensures Received(r, stream) == Received(p, stream) && (FinSeen(r, stream) <==> FinSeen(p, stream))
  {
  }

  /** One that declines is handed nothing. */
  lemma DeclinedIsNot(p: Pcb, e: Event, stream: seq<byte>)
    requires Inv(p, stream) && Allowed(e, stream) && Declines(e)
    ensures Step(p, e).delivered == p.delivered
  {
    if e.Arrive? && p.state.Active() {
      assert ProcessRefused(p, false) == p;
      if !(p.refused != [] && e.seg.TcpLen() > 0) {
        hide Inv, Process, Notify, Sendable;
        ProcessFrame(p, e.seg, e.env, stream);
        NotifyDeclines(Process(p, e.seg, e.env));
      }
    }
  }

  /** In every run: as soon as the application takes what it is offered, it has the whole of what was received. */
  lemma TakenRuns(tcpWnd: int, mss: int, es: seq<Event>, e: Event, stream: seq<byte>)
    requires 0 <= tcpWnd <= MAX_WINDOW && Allowed(e, stream) && Takes(e)
    requires forall i :: 0 <= i < |es| ==> Allowed(es[i], stream)
    requires Run(Init(tcpWnd, mss), es).state.Active()
    ensures var p := Run(Init(tcpWnd, mss), es + [e]);
            0 <= p.rcvNxt && p.delivered == stream[..Received(p, stream)] && p.eofs == Bit(FinSeen(p, stream))
  {
    hide Inv, Step, Init, Received, FinSeen, Allowed, Takes;
    InitInv(tcpWnd, mss, stream);
    RunKeeps(Init(tcpWnd, mss), es, stream);
    TakenIsDelivered(Run(Init(tcpWnd, mss), es), e, stream);
    assert (es + [e])[..|es|] == es;
  }

  // ----- Which state the connection is in

  /**
   What has happened, as an observer sees it: this side has closed; the peer had closed before; everything
   sent has been acknowledged since this side closed.
   */
  datatype Story = Story(shut: bool, peerFirst: bool, acked: bool)

  /** The segment is processed, not turned away because refused data is in the way. */
  predicate GetsThrough(p: Pcb, seg: Segment, env: Env) {
    p.refused == [] || env.retryAccepted || seg.TcpLen() == 0
  }

  ghost function Observe(s: Story, p: Pcb, e: Event, stream: seq<byte>): Story {
    match e
    case ShutdownTx => if s.shut then s else s.(shut := true, peerFirst := FinSeen(p, stream))
    case Arrive(seg, env) => s.(acked := s.acked || (s.shut && env.allAcked && GetsThrough(p, seg, env)))
    case _ => s
  }

  ghost function Watch(p: Pcb, es: seq<Event>, stream: seq<byte>): Story
    decreases |es|
  {
    if es == [] then Story(false, false, false)
    else
      var es' := es[..|es| - 1];
      Observe(Watch(p, es', stream), Run(p, es'), es[|es| - 1], stream)
  }

  /** The state diagram of section 3.2 of RFC 793 from ESTABLISHED on, in terms of what has happened. */
  function StateAfter(s: Story, peerClosed: bool): State {
    if !s.shut then if peerClosed then CloseWait else Established
    else if s.peerFirst then if s.acked then Closed else LastAck
    else if peerClosed then if s.acked then TimeWait else Closing
    else if s.acked then FinWait2 else FinWait1
  }

  ghost predicate Tells(s: Story, p: Pcb, stream: seq<byte>) {
    && p.state == StateAfter(s, FinSeen(p, stream))
    && (!s.shut ==> !s.acked && !s.peerFirst) && (s.peerFirst ==> FinSeen(p, stream))
  }

  lemma ReceiveTells(p: Pcb, seg: Segment, env: Env, stream: seq<byte>)
    requires Inv(p, stream) && p.state.Active() && Sendable(seg, stream) && (p.refused == [] || seg.TcpLen() == 0)
    ensures var r := Receive(p, seg, env);
            && (r.gotFin <==> FinSeen(r, stream) && !FinSeen(p, stream)) && (FinSeen(p, stream) ==> FinSeen(r, stream))
            && (r.gotFin || r.state == p.state)
  {
    ReceiveKeeps(p, seg, env, stream);
    assert !p.state.Open() ==> Receive(p, seg, env) == p;
    hide Receive, Accounted, QueueInv;
  }

  lemma ProcessTells(s: Story, p: Pcb, seg: Segment, env: Env, stream: seq<byte>)
    requires Inv(p, stream) && p.state.Active() && Sendable(seg, stream) && (p.refused == [] || seg.TcpLen() == 0)
    requires Tells(s, p, stream)
    ensures Tells(s.(acked := s.acked || (s.shut && env.allAcked)), Process(p, seg, env), stream)
  {
    ReceiveTells(p, seg, env, stream);
    hide Receive, Inv;
    var (r, t) := (Receive(p, seg, env), Process(p, seg, env));
    assert t.rcvNxt == r.rcvNxt;
  }

  lemma StepTells(s: Story, p: Pcb, e: Event, stream: seq<byte>)
    requires Inv(p, stream) && Allowed(e, stream) && Tells(s, p, stream)
    ensures Tells(Observe(s, p, e, stream), Step(p, e), stream)
  {
    hide ProcessRefused, Process, Inv, Sendable, Segment.TcpLen, Notify, Tells, StateAfter, SendEmptyAck;
    if e.Arrive? && p.state.Active() {
      var p1 := ProcessRefused(p, e.env.retryAccepted);
      ProcessRefusedKeeps(p, e.env.retryAccepted, stream);
      ProcessRefusedFrame(p, e.env.retryAccepted, stream);
      NoLength(e.seg);
      SameTells(s, p, p1, stream);
      if p1.refused != [] && e.seg.TcpLen() > 0 {
        AckStays(p1, e.env.ackAlloc);
        SameTells(s, p1, SendEmptyAck(p1, e.env.ackAlloc), stream);
      } else {
        ProcessTells(s, p1, e.seg, e.env, stream);
        NotifyStays(Process(p1, e.seg, e.env), e.env.accepted);
        SameTells(Observe(s, p, e, stream), Process(p1, e.seg, e.env), Step(p, e), stream);
      }
    } else {
      OthersTell(s, p, e, stream);
    }
  }

  lemma SameTells(s: Story, p: Pcb, r: Pcb, stream: seq<byte>)
    requires Tells(s, p, stream) && r.state == p.state && r.rcvNxt == p.rcvNxt
    ensures Tells(s, r, stream)
  {
  }

  lemma AckStays(p: Pcb, alloc: bool)
    ensures var r := SendEmptyAck(p, alloc); r.state == p.state && r.rcvNxt == p.rcvNxt
  {
  }

  lemma NotifyStays(p: Pcb, accepted: bool)
    ensures var r := Notify(p, accepted); r.state == p.state && r.rcvNxt == p.rcvNxt
  {
  }

  lemma OthersTell(s: Story, p: Pcb, e: Event, stream: seq<byte>)
    requires Tells(s, p, stream) && (e.Arrive? ==> !p.state.Active())
    ensures Tells(Observe(s, p, e, stream), Step(p, e), stream)
  {
  }

  /** After every run the state is the one that the diagram gives for what has happened. */
  lemma {:induction false} StateTells(tcpWnd: int, mss: int, es: seq<Event>, stream: seq<byte>)
    requires 0 <= tcpWnd <= MAX_WINDOW
    requires forall i :: 0 <= i < |es| ==> Allowed(es[i], stream)
    ensures var p := Run(Init(tcpWnd, mss), es);
            Tells(Watch(Init(tcpWnd, mss), es, stream), p, stream)
            && p.state == StateAfter(Watch(Init(tcpWnd, mss), es, stream), p.rcvNxt == |stream| + 1)
    decreases |es|
  {
    var p := Init(tcpWnd, mss);
    if es != [] {
      var es' := es[..|es| - 1];
      StateTells(tcpWnd, mss, es', stream);
      hide Inv, Step, Init, Tells, Observe, Allowed;
      InitInv(tcpWnd, mss, stream);
      RunKeeps(p, es', stream);
      StepTells(Watch(p, es', stream), Run(p, es'), es[|es| - 1], stream);
      TellsMeans(Watch(p, es, stream), Run(p, es), stream);
    }
  }

  lemma TellsMeans(s: Story, p: Pcb, stream: seq<byte>)
    requires Tells(s, p, stream)
    ensures p.state == StateAfter(s, p.rcvNxt == |stream| + 1)
  {
  }
}
