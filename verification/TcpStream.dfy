/**
 Stream integrity: whatever the order, overlap or duplication of the segments, and whatever the
 application accepts or refuses, the application is handed the peer's octets in order and once.
 */
module TcpStream {
  import opened Bytes
  import opened MachineWords
  import opened SeqSpace
  import opened TcpReassembly
  import opened TcpReceiveSpec

  /** The stream position up to which octets have been received in order. */
  ghost function Received(p: Pcb, stream: seq<byte>): int { Min(p.rcvNxt, |stream|) }

  ghost predicate FinSeen(p: Pcb, stream: seq<byte>) { p.rcvNxt == |stream| + 1 }

  /** Every received octet is in exactly one place, in stream order; the end of stream is signalled at most once. */
  ghost predicate Accounted(p: Pcb, stream: seq<byte>) {
    && 0 <= p.rcvNxt <= |stream| + 1
    && p.delivered + p.refused + p.purged + p.recvData == stream[..Received(p, stream)]
    && (p.refused != [] ==> p.purged == [] && p.recvData == [])
    && (p.purged != [] ==> p.recvData == [] && !p.state.Active())
    && p.eofs + Bit(p.refusedFin) + Bit(p.gotFin) + Bit(p.purgedFin) == Bit(FinSeen(p, stream))
    && (p.refusedFin ==> p.refused != [])
    && (p.purgedFin ==> !p.state.Active())
    && (p.eofs > 0 ==> p.refused == [] && p.purged == [] && p.recvData == [])
  }

  ghost predicate Ranges(p: Pcb) {
    0 <= p.tcpWnd <= MAX_WINDOW && 0 <= p.rcvWnd <= MAX_WINDOW
  }

  /** The invariant between two events. */
  ghost predicate Inv(p: Pcb, stream: seq<byte>) {
    && Ranges(p)
    && Accounted(p, stream)
    && QueueInv(p.ooseq, p.rcvNxt, stream)
    && p.recvData == [] && !p.gotFin
    && (p.state.Open() <==> !FinSeen(p, stream))
    && (FinSeen(p, stream) ==> p.ooseq == [])
  }

  /** The invariant while in-sequence elements are being collected: they may start at rcv_nxt. */
  ghost predicate Collecting(p: Pcb, stream: seq<byte>) {
    && Ranges(p)
    && Accounted(p, stream)
    && Ordered(p.ooseq) && AllCutFrom(p.ooseq, stream) && Near(p.ooseq, p.rcvNxt)
    && p.refused == [] && p.purged == [] && !p.refusedFin
    && (p.gotFin <==> FinSeen(p, stream))
    && (FinSeen(p, stream) ==> p.ooseq == [])
    && (p.gotFin || p.state.Open()) && p.state.Active()
  }

  /** A segment the peer may send: any piece of the stream, with or without its end. */
  ghost predicate Sendable(seg: Segment, stream: seq<byte>) {
    seg.CutFrom(stream) && |seg.data| <= MAX_PAYLOAD
  }

  ghost predicate Allowed(e: Event, stream: seq<byte>) {
    e.Arrive? ==> Sendable(e.seg, stream)
  }

  // ----- Collecting in-sequence data

  lemma ConsumeFields(p: Pcb, c: Segment)
    requires Ranges(p)
    ensures var r := Consume(p, c);
            && Ranges(r) && r == p.(rcvNxt := p.rcvNxt + c.TcpLen(), rcvWnd := r.rcvWnd, annWnd := r.annWnd,
                                    recvData := p.recvData + c.data, gotFin := p.gotFin || c.fin)
  {
  }

  lemma ConsumeAccounted(p: Pcb, r: Pcb, c: Segment, stream: seq<byte>)
    requires Accounted(p, stream) && !p.gotFin && p.refused == [] && p.purged == [] && !FinSeen(p, stream)
    requires c.CutFrom(stream) && c.seqno == p.rcvNxt
    requires r == p.(rcvNxt := p.rcvNxt + c.TcpLen(), rcvWnd := r.rcvWnd, annWnd := r.annWnd,
                     recvData := p.recvData + c.data, gotFin := c.fin)
    ensures Accounted(r, stream) && Received(r, stream) == c.End() && (FinSeen(r, stream) <==> c.fin)
  {
    PrefixGrows(stream, c.seqno, c.End());
    assert r.delivered + r.refused + r.purged + r.recvData == (p.delivered + p.refused + p.purged + p.recvData) + c.data;
  }

  lemma ConsumeKeeps(p: Pcb, c: Segment, stream: seq<byte>)
    requires Collecting(p, stream) && !p.gotFin
    requires c.CutFrom(stream) && c.seqno == p.rcvNxt
    requires c.fin ==> p.ooseq == []
    requires forall i :: 0 <= i < |p.ooseq| ==> c.End() <= p.ooseq[i].seqno
    ensures Collecting(Consume(p, c), stream)
  {
    ConsumeFields(p, c);
    ConsumeAccounted(p, Consume(p, c), c, stream);
    hide Consume, Accounted, Ordered, AllCutFrom;
  }

  lemma DrainOneKeeps(p: Pcb, stream: seq<byte>)
    requires Collecting(p, stream) && p.ooseq != [] && p.ooseq[0].seqno == p.rcvNxt
    ensures Collecting(DrainOne(p), stream) && DrainOne(p).ooseq == p.ooseq[1..]
    ensures DrainOne(p).rcvNxt == p.ooseq[0].TcpEnd() && Received(DrainOne(p), stream) == p.ooseq[0].End()
  {
    ConsumeKeeps(p.(ooseq := p.ooseq[1..]), p.ooseq[0], stream);
  }

  lemma DrainKeeps(p: Pcb, stream: seq<byte>)
    requires Collecting(p, stream)
    ensures Collecting(Drain(p), stream) && Beyond(Drain(p).ooseq, Drain(p).rcvNxt)
    ensures p.rcvNxt <= Drain(p).rcvNxt && (Drain(p).gotFin || Drain(p).state == p.state)
    decreases |p.ooseq|
  {
    if p.ooseq != [] && p.ooseq[0].seqno == p.rcvNxt {
      DrainOneKeeps(p, stream);
      DrainKeeps(DrainOne(p), stream);
    }
  }

  /** Draining moves positions from the queue to the received prefix and loses none. */
  lemma DrainMoves(p: Pcb, stream: seq<byte>, i: int)
    requires Collecting(p, stream)
    ensures Buffered(p.ooseq, i) <==> p.rcvNxt <= i < Received(Drain(p), stream) || Buffered(Drain(p).ooseq, i)
    decreases |p.ooseq|
  {
    var q := p.ooseq;
    if q != [] && q[0].seqno == p.rcvNxt {
      DrainOneKeeps(p, stream);
      var p1 := DrainOne(p);
      assert Drain(p) == Drain(p1);
      assert q[0].fin ==> Drain(p1) == p1;
      assert q[0].Has(i) <==> p.rcvNxt <= i < Received(p1, stream);
      assert !q[0].fin ==> Received(p1, stream) == p1.rcvNxt;
      hide *;
      DrainKeeps(p1, stream);
      DrainMoves(p1, stream, i);
      assert q == [q[0]] + q[1..];
      BufferedJoin([q[0]], q[1..], i);
      BufferedOne(q[0], i);
      ReceivedGrows(p1, Drain(p1), stream);
    }
  }

  lemma ReceivedGrows(p: Pcb, r: Pcb, stream: seq<byte>)
    requires p.rcvNxt <= r.rcvNxt
    ensures Received(p, stream) <= Received(r, stream)
  {
  }

  /** What is left of an in-sequence segment and of the queue: disjoint, and together the same positions. */
  lemma AbsorbKeeps(c: Segment, q: seq<Segment>, nxt: int, stream: seq<byte>)
    requires QueueInv(q, nxt, stream)
    requires c.CutFrom(stream) && c.seqno == nxt && 0 < c.TcpLen()
    ensures var (d, r) := Absorb(c, q);
            && d.CutFrom(stream) && d.seqno == nxt && 0 < d.TcpLen()
            && (d.fin ==> r == [])
            && Ordered(r) && AllCutFrom(r, stream) && Near(r, nxt)
            && forall i :: 0 <= i < |r| ==> d.End() <= r[i].seqno
  {
    if !c.fin {
      AbsorbIs(c, q);
      hide Ordered, AllCutFrom, Absorb, Front, Covered, Segment.CutFrom, Segment.End, Segment.TcpLen;
      FrontMeets(c, q, stream);
    }
  }

  lemma AbsorbIs(c: Segment, q: seq<Segment>)
    requires !c.fin
    ensures Absorb(c, q) == (Front(c, q), q[Covered(q, c.End())..])
  {
  }

  lemma FrontMeets(c: Segment, q: seq<Segment>, stream: seq<byte>)
    requires QueueInv(q, c.seqno, stream) && c.CutFrom(stream) && !c.fin && 0 < c.TcpLen()
    ensures var (d, r) := (Front(c, q), q[Covered(q, c.End())..]);
            && d.CutFrom(stream) && d.seqno == c.seqno && 0 < d.TcpLen() && (d.fin ==> r == [])
            && Ordered(r) && AllCutFrom(r, stream) && Near(r, c.seqno)
            && forall i :: 0 <= i < |r| ==> d.End() <= r[i].seqno
  {
    hide Ordered, AllCutFrom, Front, Segment.CutFrom, Near;
    var k := Covered(q, c.End());
    FrontOfQueue(c, q, stream);
    SuffixKeeps(q, k, stream);
    NearSuffix(q, k, c.seqno);
  }

  lemma FrontOfQueue(c: Segment, q: seq<Segment>, stream: seq<byte>)
    requires QueueInv(q, c.seqno, stream) && c.CutFrom(stream) && !c.fin && 0 < c.TcpLen()
    ensures var (d, k) := (Front(c, q), Covered(q, c.End()));
            && d.CutFrom(stream) && d.seqno == c.seqno && 0 < d.TcpLen()
            && (k < |q| ==> !d.fin && d.End() <= q[k].seqno)
  {
    hide Ordered, AllCutFrom, Front, Segment.CutFrom;
    FrontIsCut(c, q, stream);
  }

  lemma NearSuffix(q: seq<Segment>, k: nat, lo: int)
    requires Near(q, lo) && k <= |q|
    ensures Near(q[k..], lo)
  {
  }

  lemma AbsorbMoves(c: Segment, q: seq<Segment>, nxt: int, stream: seq<byte>, i: int)
    requires QueueInv(q, nxt, stream)
    requires c.CutFrom(stream) && c.seqno == nxt && 0 < c.TcpLen()
    ensures var (d, r) := Absorb(c, q);
            d.Has(i) || Buffered(r, i) <==> c.Has(i) || Buffered(q, i)
  {
    var (d, r) := Absorb(c, q);
    InsertBuffers(c, q, stream, i);
    BufferedJoin([d], r, i);
    BufferedOne(d, i);
    assert Insert(c, q) == [d] + r;
  }

  /** The connection just before draining, with what is left of the segment consumed. */
  function InOrderFirst(p: Pcb, seg: Segment): Pcb {
    var (d, r) := Absorb(seg.FitWindow(p.RightEdge()), p.ooseq);
    Consume(p.(ooseq := r), d)
  }

  ghost predicate NextInSequence(p: Pcb, seg: Segment, stream: seq<byte>) {
    && Inv(p, stream) && p.state.Open() && p.refused == [] && 0 < p.rcvWnd
    && Sendable(seg, stream) && seg.seqno == p.rcvNxt && 0 < seg.TcpLen()
  }

  lemma FitIsNext(p: Pcb, seg: Segment, stream: seq<byte>)
    requires NextInSequence(p, seg, stream)
    ensures var c := seg.FitWindow(p.RightEdge()); c.CutFrom(stream) && c.seqno == p.rcvNxt && 0 < c.TcpLen()
  {
    assert p.rcvNxt < p.RightEdge();
    hide Accounted, QueueInv, NextInSequence, Inv;
    FitIsCut(seg, p.RightEdge(), stream);
  }

  lemma FitIsCut(seg: Segment, edge: int, stream: seq<byte>)
    requires seg.CutFrom(stream) && 0 < seg.TcpLen() && seg.seqno < edge
    ensures var c := seg.FitWindow(edge); c.CutFrom(stream) && c.seqno == seg.seqno && 0 < c.TcpLen()
  {
    if seg.TcpEnd() > edge {
      var n := edge - seg.seqno;
      assert 0 < n <= |seg.data|;
      assert seg.data[..n] == stream[seg.seqno..seg.seqno + n];
    }
  }

  lemma InOrderStart(p: Pcb, d: Segment, r: seq<Segment>, stream: seq<byte>)
    requires Inv(p, stream) && p.state.Open() && p.refused == [] && d.CutFrom(stream) && d.seqno == p.rcvNxt
    requires Ordered(r) && AllCutFrom(r, stream) && Near(r, p.rcvNxt) && (d.fin ==> r == [])
    requires forall i :: 0 <= i < |r| ==> d.End() <= r[i].seqno
    ensures Collecting(Consume(p.(ooseq := r), d), stream)
    ensures var p1 := Consume(p.(ooseq := r), d);
            p1.ooseq == r && p1.rcvNxt == d.TcpEnd() && Received(p1, stream) == d.End()
  {
    var p0 := p.(ooseq := r);
    assert Collecting(p0, stream) by { hide Ordered, AllCutFrom, QueueInv, Segment.CutFrom; }
    ConsumeFields(p0, d);
    hide Accounted, Ordered, AllCutFrom, QueueInv, Consume;
    ConsumeKeeps(p0, d, stream);
  }

  lemma InOrderFirstKeeps(p: Pcb, seg: Segment, stream: seq<byte>)
    requires NextInSequence(p, seg, stream)
    ensures Collecting(InOrderFirst(p, seg), stream)
    ensures var (d, r) := Absorb(seg.FitWindow(p.RightEdge()), p.ooseq);
            var p1 := InOrderFirst(p, seg);
            && p1.ooseq == r && d.seqno == p.rcvNxt && p1.rcvNxt == d.TcpEnd() && Received(p1, stream) == d.End()
            && (d.fin ==> r == [])
  {
    hide Accounted, Collecting, Ordered, AllCutFrom, Consume, Absorb, Segment.CutFrom, Segment.FitWindow, Received;
    FitIsNext(p, seg, stream);
    var c := seg.FitWindow(p.RightEdge());
    AbsorbKeeps(c, p.ooseq, p.rcvNxt, stream);
    InOrderStart(p, Absorb(c, p.ooseq).0, Absorb(c, p.ooseq).1, stream);
  }

  lemma InOrderKeeps(p: Pcb, seg: Segment, stream: seq<byte>)
    requires NextInSequence(p, seg, stream)
    ensures Collecting(InOrder(p, seg), stream) && Beyond(InOrder(p, seg).ooseq, InOrder(p, seg).rcvNxt)
    ensures InOrder(p, seg).gotFin || InOrder(p, seg).state == p.state
  {
    InOrderFirstKeeps(p, seg, stream);
    DrainKeeps(InOrderFirst(p, seg), stream);
  }

  /**
   After an in-sequence segment the octets received in order and the octets still queued are
   together exactly those of the segment (up to the window) and those queued before: the
   in-order prefix grows as far as the octets at hand allow, and no octet is lost.
   */
  lemma InOrderDelivers(p: Pcb, seg: Segment, stream: seq<byte>, i: int)
    requires NextInSequence(p, seg, stream)
    ensures var r := InOrder(p, seg);
            p.rcvNxt <= i < Received(r, stream) || Buffered(r.ooseq, i) <==>
            seg.FitWindow(p.RightEdge()).Has(i) || Buffered(p.ooseq, i)
  {
    var c := seg.FitWindow(p.RightEdge());
    assert c.CutFrom(stream) && c.seqno == p.rcvNxt && 0 < c.TcpLen();
    AbsorbMoves(c, p.ooseq, p.rcvNxt, stream, i);
    InOrderFirstKeeps(p, seg, stream);
    var (d, r) := Absorb(c, p.ooseq);
    var p1 := InOrderFirst(p, seg);
    assert InOrder(p, seg) == Drain(p1);
    assert d.fin ==> Drain(p1) == p1;
    assert d.Has(i) <==> p.rcvNxt <= i < Received(p1, stream);
    assert !d.fin ==> Received(p1, stream) == p1.rcvNxt;
    hide *;
    DrainKeeps(p1, stream);
    DrainMoves(p1, stream, i);
    ReceivedGrows(p1, Drain(p1), stream);
  }

  // ----- One segment

  /** The invariant between tcp_receive and the callbacks. */
  ghost predicate Pending(p: Pcb, stream: seq<byte>) {
    && Ranges(p)
    && Accounted(p, stream)
    && QueueInv(p.ooseq, p.rcvNxt, stream)
    && (p.recvData != [] || p.gotFin ==> p.refused == [] && p.purged == [])
    && (p.gotFin || p.state.Open() <==> p.gotFin || !FinSeen(p, stream))
    && (p.gotFin ==> FinSeen(p, stream))
    && (FinSeen(p, stream) ==> p.ooseq == [])
  }

  lemma OutOfOrderKeeps(p: Pcb, seg: Segment, env: Env, stream: seq<byte>)
    requires Inv(p, stream) && p.state.Open() && Sendable(seg, stream)
    requires p.rcvNxt < seg.seqno < p.RightEdge() && 0 < seg.TcpLen()
    ensures Inv(OutOfOrder(p, seg, env), stream)
  {
    assert Queueable(p.ooseq, seg, p.rcvNxt, p.RightEdge(), stream) by { hide Enqueue, Accounted, QueueInv; }
    hide Enqueue, QueueInv, Queueable;
    EnqueueKeeps(p.ooseq, seg, p.rcvNxt, p.RightEdge(), env.segAlloc, stream);
  }

  lemma TrimKeeps(seg: Segment, nxt: int, stream: seq<byte>)
    requires Sendable(seg, stream)
    ensures Sendable(TrimFront(seg, nxt), stream) && (0 < seg.TcpLen() ==> 0 < TrimFront(seg, nxt).TcpLen())
  {
  }

  /** Sequence number rcv_nxt is in the segment and in the window. */
  predicate Straddles(p: Pcb, seg: Segment) {
    seg.seqno <= p.rcvNxt < seg.TcpEnd() && p.rcvNxt < p.RightEdge()
  }

  /** The segment brings the octet at `i`: it is new and inside the window. */
  predicate Brings(p: Pcb, seg: Segment, i: int) {
    p.rcvNxt <= i < p.RightEdge() && seg.Has(i)
  }

  /** What is left of such a segment when both edges have been trimmed. */
  lemma TrimBrings(p: Pcb, seg: Segment, stream: seq<byte>, i: int)
    requires Sendable(seg, stream) && Straddles(p, seg)
    ensures var c := TrimFront(seg, p.rcvNxt).FitWindow(p.RightEdge());
            && (c.Has(i) <==> Brings(p, seg, i))
            && (c.fin <==> seg.fin && seg.TcpEnd() <= p.RightEdge())
  {
  }

  lemma StraddlesIsNext(p: Pcb, seg: Segment, env: Env, stream: seq<byte>)
    requires Inv(p, stream) && p.state.Open() && p.refused == [] && Sendable(seg, stream) && Straddles(p, seg)
    ensures var s := TrimFront(seg, p.rcvNxt); NextInSequence(p, s, stream) && Receive(p, seg, env) == InOrder(p, s)
  {
    hide InOrder, Accounted, QueueInv;
  }

  lemma OtherwiseNotNext(p: Pcb, seg: Segment, env: Env)
    requires !Straddles(p, seg)
    ensures var r := Receive(p, seg, env); r.rcvNxt == p.rcvNxt && r.recvData == p.recvData && r.gotFin == p.gotFin
    ensures var r := Receive(p, seg, env); !(p.rcvNxt < seg.seqno < p.RightEdge() && 0 < seg.TcpLen()) ==> r == p.(annEdge := r.annEdge)
  {
    hide InOrder, Enqueue;
  }

  lemma InvIsPending(p: Pcb, stream: seq<byte>)
    requires Inv(p, stream)
    ensures Pending(p, stream) && !p.gotFin
  {
    hide QueueInv, Accounted;
  }

  lemma InOrderPends(p: Pcb, seg: Segment, stream: seq<byte>)
    requires NextInSequence(p, seg, stream)
    ensures var r := InOrder(p, seg);
            Pending(r, stream) && r.state.Active() && (r.gotFin || r.state == p.state)
  {
    InOrderKeeps(p, seg, stream);
    hide NextInSequence, InOrder, Accounted, Ordered, AllCutFrom, Near, Beyond;
  }

  lemma AckKeepsInv(p: Pcb, alloc: bool, stream: seq<byte>)
    requires Inv(p, stream)
    ensures Inv(SendEmptyAck(p, alloc), stream)
  {
    hide QueueInv;
  }

  lemma ReceiveKeeps(p: Pcb, seg: Segment, env: Env, stream: seq<byte>)
    requires Inv(p, stream) && Sendable(seg, stream)
    requires p.refused == [] || seg.TcpLen() == 0
    ensures Pending(Receive(p, seg, env), stream)
    ensures var r := Receive(p, seg, env);
            && (p.state.Active() ==> r.state.Active())
            && (if r.gotFin then p.state.Open() else r.state == p.state)
  {
    hide Inv, Pending, InOrder, Enqueue, Sendable, TrimFront, Segment.TcpLen;
    InvIsPending(p, stream);
    if seg.TcpLen() > 0 && p.state.Open() {
      var s := TrimFront(seg, p.rcvNxt);
      TrimKeeps(seg, p.rcvNxt, stream);
      if p.rcvNxt <= s.seqno < p.RightEdge() {
        if s.seqno == p.rcvNxt {
          InOrderPends(p, s, stream);
        } else {
          OutOfOrderKeeps(p, s, env, stream);
          InvIsPending(OutOfOrder(p, s, env), stream);
        }
      } else {
        AckKeepsInv(p, env.ackAlloc, stream);
        InvIsPending(SendEmptyAck(p, env.ackAlloc), stream);
      }
    }
  }

  lemma TransitionKeeps(before: State, r: Pcb, allAcked: bool, stream: seq<byte>)
    requires Pending(r, stream) && before.Active() && r.state.Active()
    requires if r.gotFin then before.Open() else r.state == before
    ensures Pending(Transition(before, r, allAcked), stream)
    ensures var t := Transition(before, r, allAcked); t.gotFin ==> !t.state.Open()
  {
    assert r.purged == [] && !r.purgedFin;
    var t := Transition(before, r, allAcked);
    assert t.delivered + t.refused + t.purged + t.recvData == r.delivered + r.refused + r.purged + r.recvData;
  }

  lemma ProcessKeeps(p: Pcb, seg: Segment, env: Env, stream: seq<byte>)
    requires Inv(p, stream) && Sendable(seg, stream) && p.state.Active()
    requires p.refused == [] || seg.TcpLen() == 0
    ensures Pending(Process(p, seg, env), stream)
    ensures Process(p, seg, env).gotFin ==> !Process(p, seg, env).state.Open()
  {
    ReceiveKeeps(p, seg, env, stream);
    hide Receive, Transition, Pending;
    TransitionKeeps(p.state, Receive(p, seg, env), env.allAcked, stream);
  }

  lemma NotifyKeeps(p: Pcb, accepted: bool, stream: seq<byte>)
    requires Pending(p, stream) && (p.gotFin ==> !p.state.Open())
    ensures Inv(Notify(p, accepted), stream)
  {
  }

  lemma ProcessRefusedKeeps(p: Pcb, accepted: bool, stream: seq<byte>)
    requires Inv(p, stream)
    ensures Inv(ProcessRefused(p, accepted), stream)
  {
  }

  lemma InputKeeps(p: Pcb, seg: Segment, env: Env, stream: seq<byte>)
    requires Inv(p, stream) && Sendable(seg, stream)
    ensures Inv(Input(p, seg, env), stream)
  {
    if p.state.Active() {
      ProcessRefusedKeeps(p, env.retryAccepted, stream);
      var p1 := ProcessRefused(p, env.retryAccepted);
      if !(p1.refused != [] && seg.TcpLen() > 0) {
        ProcessKeeps(p1, seg, env, stream);
        NotifyKeeps(Process(p1, seg, env), env.accepted, stream);
      }
    }
  }

  // ----- Every run

  lemma RecvedKeeps(p: Pcb, len: int, stream: seq<byte>)
    requires Inv(p, stream)
    ensures Inv(RecvedStep(p, len), stream)
  {
    hide QueueInv;
  }

  lemma ShutdownKeeps(p: Pcb, stream: seq<byte>)
    requires Inv(p, stream)
    ensures Inv(Step(p, ShutdownTx), stream)
  {
    hide QueueInv, Input, ProcessRefused, RecvedStep;
  }

  lemma AnnounceKeeps(p: Pcb, stream: seq<byte>)
    requires Inv(p, stream)
    ensures Inv(Announce(p), stream)
  {
    hide QueueInv;
  }

  lemma StepKeeps(p: Pcb, e: Event, stream: seq<byte>)
    requires Inv(p, stream) && Allowed(e, stream)
    ensures Inv(Step(p, e), stream)
  {
    hide Inv, Input, ProcessRefused, RecvedStep, Announce, Sendable;
    match e
    case Arrive(seg, env) => InputKeeps(p, seg, env, stream);
    case Retry(accepted) => ProcessRefusedKeeps(p, accepted, stream);
    case Recved(len) => RecvedKeeps(p, len, stream);
    case Transmit => AnnounceKeeps(p, stream);
    case ShutdownTx => ShutdownKeeps(p, stream);
  }

  lemma {:induction false} RunKeeps(p: Pcb, es: seq<Event>, stream: seq<byte>)
    requires Inv(p, stream)
    requires forall i :: 0 <= i < |es| ==> Allowed(es[i], stream)
    ensures Inv(Run(p, es), stream)
    decreases |es|
  {
    if es != [] {
      RunKeeps(p, es[..|es| - 1], stream);
      StepKeeps(Run(p, es[..|es| - 1]), es[|es| - 1], stream);
    }
  }

  lemma InitInv(tcpWnd: int, mss: int, stream: seq<byte>)
    requires 0 <= tcpWnd <= MAX_WINDOW
    ensures Inv(Init(tcpWnd, mss), stream)
  {
    assert stream[..0] == [];
  }

  lemma InvMeans(p: Pcb, stream: seq<byte>)
    requires Inv(p, stream)
    ensures 0 <= p.rcvNxt && p.delivered + p.refused + p.purged == stream[..Received(p, stream)]
    ensures p.eofs <= 1 && (p.eofs == 1 ==> p.delivered == stream)
    ensures QueueInv(p.ooseq, p.rcvNxt, stream)
  {
    assert p.delivered + p.refused + p.purged == p.delivered + p.refused + p.purged + p.recvData;
  }

  /**
   For every run: what the application was handed, followed by what it refused, followed by what
   a purge threw away, is exactly the stream up to rcv_nxt. The end of the stream is signalled at
   most once, and then everything was handed over. The queue is in order and beyond rcv_nxt.
   */
  lemma StreamIntegrity(tcpWnd: int, mss: int, es: seq<Event>, stream: seq<byte>)
    requires 0 <= tcpWnd <= MAX_WINDOW
    requires forall i :: 0 <= i < |es| ==> Allowed(es[i], stream)
    ensures var p := Run(Init(tcpWnd, mss), es);
            && 0 <= p.rcvNxt
            && p.delivered + p.refused + p.purged == stream[..Received(p, stream)]
            && p.eofs <= 1 && (p.eofs == 1 ==> p.delivered == stream)
            && QueueInv(p.ooseq, p.rcvNxt, stream)
  {
    hide *;
    InitInv(tcpWnd, mss, stream);
    RunKeeps(Init(tcpWnd, mss), es, stream);
    InvMeans(Run(Init(tcpWnd, mss), es), stream);
  }

  // ----- When received data is lost

  ghost predicate SameOutside(p: Pcb, r: Pcb) {
    && r.refused == p.refused && r.refusedFin == p.refusedFin && r.purged == p.purged
    && r.delivered == p.delivered && r.eofs == p.eofs
  }

  lemma DrainOneFrame(p: Pcb)
    requires p.ooseq != []
    ensures SameOutside(p, DrainOne(p))
  {
  }

  lemma {:induction false} DrainFrame(p: Pcb)
    ensures SameOutside(p, Drain(p))
    decreases |p.ooseq|
  {
    if p.ooseq != [] && p.ooseq[0].seqno == p.rcvNxt {
      DrainOneFrame(p);
      assert Drain(p) == Drain(DrainOne(p)) && |DrainOne(p).ooseq| < |p.ooseq|;
      hide Drain, DrainOne;
      DrainFrame(DrainOne(p));
    }
  }

  lemma {:induction false} ReceiveFrame(p: Pcb, seg: Segment, env: Env)
    ensures var r := Receive(p, seg, env);
            && r.refused == p.refused && r.refusedFin == p.refusedFin && r.purged == p.purged
            && r.delivered == p.delivered && r.eofs == p.eofs
  {
    var s := TrimFront(seg, p.rcvNxt);
    DrainFrame(InOrderFirst(p, s));
    hide Drain, Enqueue, Absorb;
  }

  /** A segment or a queue that carries the FIN. */
  ghost predicate HasFin(q: seq<Segment>) {
    exists i :: 0 <= i < |q| && q[i].fin
  }

  lemma AbsorbFin(c: Segment, q: seq<Segment>)
    requires Ordered(q)
    ensures var (d, r) := Absorb(c, q); d.fin || HasFin(r) <==> c.fin || HasFin(q)
  {
    if !c.fin {
      var k := Covered(q, c.End());
      var (d, r) := (Front(c, q), q[k..]);
      assert forall i :: 0 <= i < |r| ==> r[i] == q[k + i];
      if HasFin(q) {
        var i :| 0 <= i < |q| && q[i].fin;
        if i >= k { assert r[i - k].fin; }
      }
    }
  }

  lemma DrainOneFin(p: Pcb)
    requires p.ooseq != []
    ensures DrainOne(p).gotFin || HasFin(DrainOne(p).ooseq) <==> p.gotFin || HasFin(p.ooseq)
  {
    var (q, r) := (p.ooseq, p.ooseq[1..]);
    assert forall i :: 0 <= i < |r| ==> r[i] == q[i + 1];
    if HasFin(q) {
      var i :| 0 <= i < |q| && q[i].fin;
      if i > 0 { assert r[i - 1].fin; }
    }
  }

  lemma {:induction false} DrainFin(p: Pcb)
    ensures Drain(p).gotFin || HasFin(Drain(p).ooseq) <==> p.gotFin || HasFin(p.ooseq)
    decreases |p.ooseq|
  {
    if p.ooseq != [] && p.ooseq[0].seqno == p.rcvNxt {
      DrainOneFin(p);
      assert Drain(p) == Drain(DrainOne(p)) && |DrainOne(p).ooseq| < |p.ooseq|;
      hide Drain, DrainOne, HasFin;
      DrainFin(DrainOne(p));
    }
  }

  /** The segment and the queue together hold all that is missing, and the FIN. */
  ghost predicate Completes(p: Pcb, seg: Segment, stream: seq<byte>) {
    && Straddles(p, seg)
    && ((seg.fin && seg.TcpEnd() <= p.RightEdge()) || HasFin(p.ooseq))
    && forall i :: p.rcvNxt <= i < |stream| ==> Brings(p, seg, i) || Buffered(p.ooseq, i)
  }

  lemma InOrderFin(p: Pcb, seg: Segment, stream: seq<byte>)
    requires NextInSequence(p, seg, stream)
    ensures var r := InOrder(p, seg);
            r.gotFin || HasFin(r.ooseq) <==> seg.FitWindow(p.RightEdge()).fin || HasFin(p.ooseq)
  {
    var c := seg.FitWindow(p.RightEdge());
    assert Ordered(p.ooseq) && !p.gotFin;
    assert InOrder(p, seg) == Drain(InOrderFirst(p, seg));
    ConsumeFields(p.(ooseq := Absorb(c, p.ooseq).1), Absorb(c, p.ooseq).0);
    hide Absorb, Drain, HasFin, Consume, NextInSequence, Inv, InOrder, Ordered, Segment.FitWindow;
    AbsorbFin(c, p.ooseq);
    DrainFin(InOrderFirst(p, seg));
  }

  /** A gap before a queued FIN is a position that is neither received nor queued. */
  lemma FinBehindGap(r: Pcb, stream: seq<byte>) returns (i: int)
    requires Collecting(r, stream) && Beyond(r.ooseq, r.rcvNxt) && !r.gotFin && HasFin(r.ooseq)
    ensures i == r.rcvNxt < |stream| && !Buffered(r.ooseq, i) && Received(r, stream) == i
  {
    i := r.rcvNxt;
    var k :| 0 <= k < |r.ooseq| && r.ooseq[k].fin;
    assert r.ooseq[k].CutFrom(stream);
  }

  /** The end of the stream is reached exactly when segment and queue hold all that is missing. */
  lemma InOrderCompletes(p: Pcb, seg: Segment, stream: seq<byte>)
    requires NextInSequence(p, seg, stream)
    ensures var c := seg.FitWindow(p.RightEdge());
            InOrder(p, seg).gotFin <==>
            (c.fin || HasFin(p.ooseq)) && forall i :: p.rcvNxt <= i < |stream| ==> c.Has(i) || Buffered(p.ooseq, i)
  {
    var (c, r) := (seg.FitWindow(p.RightEdge()), InOrder(p, seg));
    InOrderKeeps(p, seg, stream);
    InOrderFin(p, seg, stream);
    assert r.gotFin ==> Received(r, stream) == |stream| && r.ooseq == [];
    InOrderAhead(p, seg, stream);
    hide NextInSequence, Collecting, InOrder, HasFin, Segment.FitWindow, Buffered, Received, Beyond, Segment.Has;
    if r.gotFin {
      forall i | p.rcvNxt <= i < |stream| ensures c.Has(i) || Buffered(p.ooseq, i) { InOrderDelivers(p, seg, stream, i); }
    } else if HasFin(r.ooseq) {
      var i := FinBehindGap(r, stream);
      InOrderDelivers(p, seg, stream, i);
      assert !(c.Has(i) || Buffered(p.ooseq, i));
    }
  }

  lemma InOrderAhead(p: Pcb, seg: Segment, stream: seq<byte>)
    requires NextInSequence(p, seg, stream)
    ensures p.rcvNxt <= InOrder(p, seg).rcvNxt
  {
    InOrderFirstKeeps(p, seg, stream);
    DrainKeeps(InOrderFirst(p, seg), stream);
    var (d, r) := Absorb(seg.FitWindow(p.RightEdge()), p.ooseq);
    assert 0 <= d.TcpLen();
    hide Drain, Absorb, Consume, Collecting, Accounted;
  }

  lemma CompletesExactly(p: Pcb, seg: Segment, env: Env, stream: seq<byte>)
    requires Inv(p, stream) && p.state.Open() && p.refused == [] && Sendable(seg, stream)
    ensures Receive(p, seg, env).gotFin <==> Completes(p, seg, stream)
  {
    hide InOrder, HasFin, Buffered, Inv, Segment.FitWindow, Brings;
    assert !p.gotFin by { NotYet(p, stream); }
    if Straddles(p, seg) {
      StraddlesIsNext(p, seg, env, stream);
      var s := TrimFront(seg, p.rcvNxt);
      InOrderCompletes(p, s, stream);
      TrimBrings(p, seg, stream, 0);
      forall i ensures s.FitWindow(p.RightEdge()).Has(i) <==> Brings(p, seg, i) { TrimBrings(p, seg, stream, i); }
    } else {
      OtherwiseNotNext(p, seg, env);
    }
  }

  lemma NotYet(p: Pcb, stream: seq<byte>)
    requires Inv(p, stream)
    ensures !p.gotFin
  {
  }

  /** What the last segment brings is all that was missing. */
  lemma CompletesWith(p: Pcb, seg: Segment, env: Env, stream: seq<byte>)
    requires Inv(p, stream) && p.state.Active() && p.refused == [] && Sendable(seg, stream) && Receive(p, seg, env).gotFin
    ensures Receive(p, seg, env).recvData != [] <==> p.rcvNxt < |stream|
  {
    ReceiveKeeps(p, seg, env, stream);
    ReceiveFrame(p, seg, env);
    var r := Receive(p, seg, env);
    assert Accounted(p, stream) && p.purged == [] && p.recvData == [];
    assert Accounted(r, stream) && FinSeen(r, stream);
    hide Receive, Inv, Pending, Accounted;
    RestIsReceived(p, r, stream);
  }

  lemma RestIsReceived(p: Pcb, r: Pcb, stream: seq<byte>)
    requires Accounted(p, stream) && p.refused == [] && p.purged == [] && p.recvData == []
    requires Accounted(r, stream) && r.refused == [] && r.purged == [] && r.delivered == p.delivered && FinSeen(r, stream)
    ensures |r.recvData| == |stream| - Received(p, stream)
  {
    assert |p.delivered + p.refused + p.purged + p.recvData| == |p.delivered|;
    assert |r.delivered + r.refused + r.purged + r.recvData| == |r.delivered| + |r.recvData|;
  }

  /** Refused data is still refused when the peer acknowledges this side's FIN, and is freed. */
  predicate ClosesOnRefused(p: Pcb, e: Event) {
    && e.Arrive? && (p.state.Closing? || p.state.LastAck?) && e.env.allAcked
    && p.refused != [] && !e.env.retryAccepted && e.seg.TcpLen() == 0
  }

  /** The last octets and the FIN arrive after this side has closed, and are refused on entry to TIME_WAIT. */
  ghost predicate StrandsLast(p: Pcb, e: Event, stream: seq<byte>) {
    && e.Arrive? && (p.state.FinWait2? || (p.state.FinWait1? && e.env.allAcked)) && !e.env.accepted
    && (p.refused == [] || e.env.retryAccepted)
    && p.rcvNxt < |stream| && Completes(p, e.seg, stream)
  }

  /** Received octets that the application will not be handed any more: freed, or kept by a pcb that nobody looks at. */
  function Lost(p: Pcb): seq<byte> {
    p.purged + if p.state.Active() then [] else p.refused
  }

  lemma ProcessRefusedFrame(p: Pcb, accepted: bool, stream: seq<byte>)
    requires Inv(p, stream)
    ensures var r := ProcessRefused(p, accepted);
            && r.state == p.state && r.rcvNxt == p.rcvNxt && r.ooseq == p.ooseq && r.purged == p.purged
            && (p.state.Open() ==> r.rcvWnd == p.rcvWnd) && r.refused == if accepted then [] else p.refused
  {
  }

  /** What one segment loses, from what tcp_receive makes of it. */
  lemma ProcessLoses(p: Pcb, seg: Segment, env: Env, stream: seq<byte>)
    requires Inv(p, stream) && p.state.Active() && Sendable(seg, stream) && (p.refused == [] || seg.TcpLen() == 0)
    ensures var (r, t) := (Receive(p, seg, env), Notify(Process(p, seg, env), env.accepted));
            Lost(t) != [] <==>
              || ((p.state.Closing? || p.state.LastAck?) && env.allAcked && p.refused != [])
              || ((p.state.FinWait2? || (p.state.FinWait1? && env.allAcked)) && r.gotFin && r.recvData != [] && !env.accepted)
  {
    ReceiveFrame(p, seg, env);
    ReceiveKeeps(p, seg, env, stream);
    assert p.purged == [];
    assert !p.state.Open() ==> Receive(p, seg, env) == p;
    assert p.refused != [] ==> Receive(p, seg, env) == p;
    hide Receive, QueueInv;
  }

  lemma ActiveLosesNothing(p: Pcb, stream: seq<byte>)
    requires Inv(p, stream) && p.state.Active()
    ensures Lost(p) == []
  {
  }

  lemma CompletesSame(p: Pcb, q: Pcb, seg: Segment, stream: seq<byte>)
    requires p.rcvNxt == q.rcvNxt && p.rcvWnd == q.rcvWnd && p.ooseq == q.ooseq
    ensures Completes(p, seg, stream) <==> Completes(q, seg, stream)
    ensures Completes(p, seg, stream) ==> 0 < seg.TcpLen()
  {
  }

  /** The end arrives with data exactly when segment and queue complete a stream of which octets are missing. */
  lemma LastArrives(p: Pcb, seg: Segment, env: Env, stream: seq<byte>)
    requires Inv(p, stream) && p.state.Open() && Sendable(seg, stream) && (p.refused == [] || seg.TcpLen() == 0)
    ensures var r := Receive(p, seg, env);
            r.gotFin && r.recvData != [] <==> p.refused == [] && p.rcvNxt < |stream| && Completes(p, seg, stream)
  {
    assert seg.TcpLen() == 0 ==> Receive(p, seg, env) == p;
    hide Receive, Completes, Accounted, QueueInv, Sendable;
    if p.refused == [] {
      CompletesExactly(p, seg, env, stream);
      if Receive(p, seg, env).gotFin { CompletesWith(p, seg, env, stream); }
    }
  }

  lemma InputLoses(p: Pcb, seg: Segment, env: Env, stream: seq<byte>)
    requires Inv(p, stream) && p.state.Active() && Sendable(seg, stream)
    ensures var e := Arrive(seg, env); Lost(Input(p, seg, env)) != [] <==> ClosesOnRefused(p, e) || StrandsLast(p, e, stream)
  {
    hide Completes, ProcessRefused, Receive, Process, Notify, Inv, Sendable, Lost, SendEmptyAck, Segment.TcpLen;
    var p1 := ProcessRefused(p, env.retryAccepted);
    ProcessRefusedFrame(p, env.retryAccepted, stream);
    ProcessRefusedKeeps(p, env.retryAccepted, stream);
    if p.state.Open() { CompletesSame(p, p1, seg, stream); }
    if p1.refused != [] && seg.TcpLen() > 0 {
      AckKeepsInv(p1, env.ackAlloc, stream);
      ActiveLosesNothing(p1, stream);
      AckStaysActive(p1, env.ackAlloc);
      ActiveLosesNothing(SendEmptyAck(p1, env.ackAlloc), stream);
    } else {
      NoLength(seg);
      ProcessLoses(p1, seg, env, stream);
      if p1.state.Open() { LastArrives(p1, seg, env, stream); }
    }
  }

  lemma NoLength(seg: Segment)
    ensures 0 <= seg.TcpLen()
  {
  }

  lemma AckStaysActive(p: Pcb, alloc: bool)
    ensures SendEmptyAck(p, alloc).state == p.state
  {
  }

  lemma OthersStayActive(p: Pcb, e: Event)
    requires p.state.Active() && !e.Arrive?
    ensures Step(p, e).state.Active() && !ClosesOnRefused(p, e)
  {
    hide Input;
  }

  /** Octets that were received and acknowledged are lost in exactly two situations. */
  lemma LossExactly(p: Pcb, e: Event, stream: seq<byte>)
    requires Inv(p, stream) && Allowed(e, stream)
    ensures Lost(Step(p, e)) != Lost(p) <==> ClosesOnRefused(p, e) || StrandsLast(p, e, stream)
  {
    if !p.state.Active() {
      InactiveStep(p, e);
    } else if e.Arrive? {
      hide Completes, Lost, Inv, Input, ClosesOnRefused, StrandsLast, Sendable;
      ActiveLosesNothing(p, stream);
      InputLoses(p, e.seg, e.env, stream);
    } else {
      hide Completes, Lost, Inv, Step, ClosesOnRefused, Sendable;
      ActiveLosesNothing(p, stream);
      OthersStayActive(p, e);
      StepKeeps(p, e, stream);
      ActiveLosesNothing(Step(p, e), stream);
    }
  }

  lemma InactiveStep(p: Pcb, e: Event)
    requires !p.state.Active()
    ensures var r := Step(p, e);
            && !r.state.Active() && r.delivered == p.delivered && r.eofs == p.eofs
            && r.refused == p.refused && r.refusedFin == p.refusedFin && r.purged == p.purged
  {
  }

  /** What is lost stays lost: in no run from TIME_WAIT or CLOSED is anything handed over, not even the end of stream. */
  lemma {:induction false} LostForGood(p: Pcb, es: seq<Event>)
    requires !p.state.Active()
    ensures var r := Run(p, es); !r.state.Active() && r.delivered == p.delivered && r.eofs == p.eofs && Lost(r) == Lost(p)
    decreases |es|
  {
    if es != [] {
      LostForGood(p, es[..|es| - 1]);
      InactiveStep(Run(p, es[..|es| - 1]), es[|es| - 1]);
    }
  }

  /** A connection whose application refused the last octet and the FIN after closing its own side. */
  function RefusedAtClose(): Pcb {
    Init(100, 10).(state := Closing, rcvNxt := 2, rcvWnd := 98, annWnd := 98, refused := [7], refusedFin := true)
  }

  lemma ReceivesAtClose(env: Env)
    ensures var p := Init(100, 10).(state := FinWait1);
            Receive(p, Segment(0, [7], true), env) ==
            p.(rcvNxt := 2, rcvWnd := 98, annWnd := 98, recvData := [7], gotFin := true)
  {
    var p := Init(100, 10).(state := FinWait1);
    var seg := Segment(0, [7], true);
    var r := Consume(p, seg);
    assert r == p.(rcvNxt := 2, rcvWnd := 98, annWnd := 98, recvData := [7], gotFin := true);
    assert Drain(r) == r;
    hide Consume, Drain, UpdateAnnWnd;
    assert TrimFront(seg, 0) == seg && seg.FitWindow(100) == seg && Absorb(seg, []) == (seg, []);
  }

  lemma RefusesAtClose(env: Env)
    requires !env.accepted && !env.allAcked
    ensures Step(Init(100, 10).(state := FinWait1), Arrive(Segment(0, [7], true), env)) == RefusedAtClose()
  {
    hide Receive;
    ReceivesAtClose(env);
  }

  /** The first situation arises: this side has closed, the peer's last octet and FIN are refused, then its ACK comes. */
  lemma LossHappens()
    ensures var stream := [7];
            var env := Env(false, false, true, true, false);
            var es := [ShutdownTx, Arrive(Segment(0, stream, true), env),
                       Arrive(Segment(1, [], false), env.(allAcked := true))];
            var p := Run(Init(100, 10), es);
            && (forall i :: 0 <= i < |es| ==> Allowed(es[i], stream))
            && p.rcvNxt == 2 && p.purged == stream && p.delivered == [] && p.refused == []
  {
    var stream: seq<byte> := [7];
    var env := Env(false, false, true, true, false);
    var (a, b, c) := (ShutdownTx, Arrive(Segment(0, stream, true), env), Arrive(Segment(1, [], false), env.(allAcked := true)));
    assert Allowed(a, stream) && Allowed(b, stream) && Allowed(c, stream);
    hide *;
    RunThree(Init(100, 10), a, b, c);
    ClosesFirst();
    RefusesAtClose(env);
    LosesAtClose(env.(allAcked := true));
  }

  lemma AcksFin(env: Env)
    requires env.allAcked
    ensures var p := Init(100, 10).(state := FinWait1);
            Step(p, Arrive(Segment(0, [], false), env)) == p.(state := FinWait2)
  {
    var p := Init(100, 10).(state := FinWait1);
    assert Receive(p, Segment(0, [], false), env) == p;
  }

  lemma ReceivesLast(env: Env)
    ensures var p := Init(100, 10).(state := FinWait2);
            Receive(p, Segment(0, [7], true), env) ==
            p.(rcvNxt := 2, rcvWnd := 98, annWnd := 98, recvData := [7], gotFin := true)
  {
    var p := Init(100, 10).(state := FinWait2);
    var seg := Segment(0, [7], true);
    var r := Consume(p, seg);
    assert r == p.(rcvNxt := 2, rcvWnd := 98, annWnd := 98, recvData := [7], gotFin := true);
    assert Drain(r) == r;
    hide Consume, Drain, UpdateAnnWnd;
    assert TrimFront(seg, 0) == seg && seg.FitWindow(100) == seg && Absorb(seg, []) == (seg, []);
  }

  lemma StrandsAtClose(env: Env)
    requires !env.accepted
    ensures var p := Step(Init(100, 10).(state := FinWait2), Arrive(Segment(0, [7], true), env));
            p.state.TimeWait? && p.refused == [7] && p.refusedFin && p.purged == [] && p.delivered == [] && p.eofs == 0
  {
    hide Receive;
    ReceivesLast(env);
  }

  /** So does the other: this side's FIN is acknowledged, then the peer's last octet and FIN are refused. */
  lemma StrandingHappens()
    ensures var stream := [7];
            var env := Env(false, false, true, true, false);
            var es := [ShutdownTx, Arrive(Segment(0, [], false), env.(allAcked := true)), Arrive(Segment(0, stream, true), env)];
            var p := Run(Init(100, 10), es);
            && (forall i :: 0 <= i < |es| ==> Allowed(es[i], stream))
            && p.state.TimeWait? && Lost(p) == stream && p.refusedFin && p.purged == [] && p.delivered == [] && p.eofs == 0
  {
    var stream: seq<byte> := [7];
    var env := Env(false, false, true, true, false);
    var (a, b, c) := (ShutdownTx, Arrive(Segment(0, [], false), env.(allAcked := true)), Arrive(Segment(0, stream, true), env));
    assert Allowed(a, stream) && Allowed(b, stream) && Allowed(c, stream);
    hide Run, Step, Init, Allowed;
    RunThree(Init(100, 10), a, b, c);
    ClosesFirst();
    AcksFin(env.(allAcked := true));
    StrandsAtClose(env);
  }

  lemma RunThree(p: Pcb, a: Event, b: Event, c: Event)
    ensures Run(p, [a, b, c]) == Step(Step(Step(p, a), b), c)
  {
    hide Step;
    assert [a, b, c][..2] == [a, b] && [a, b][..1] == [a] && [a][..0] == [];
    assert Run(p, [a]) == Step(p, a);
    assert Run(p, [a, b]) == Step(Run(p, [a]), b);
  }

  lemma ClosesFirst()
    ensures Step(Init(100, 10), ShutdownTx) == Init(100, 10).(state := FinWait1)
  {
  }

  lemma LosesAtClose(env: Env)
    requires env.allAcked && !env.retryAccepted
    ensures var p := Step(RefusedAtClose(), Arrive(Segment(1, [], false), env));
            p.rcvNxt == 2 && p.purged == [7] && p.delivered == [] && p.refused == []
  {
  }
}
