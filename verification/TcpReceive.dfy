/**
 The receive path as the stack runs it: 32-bit sequence numbers that wrap, 16-bit windows, and
 loops that relink pcb->ooseq. Every method is proved against the step machine of
 TcpReceiveSpec, in which positions never wrap.
 */
module TcpReceive {
  import opened Bytes
  import opened MachineWords
  import opened SeqSpace
  import opened TcpReassembly
  import opened TcpReceiveSpec
  import opened TcpStream

  /** A segment as it stands in memory: position `p` of the stream carries the number base + p. */
  function Word(s: Segment, base: int): Segment { s.(seqno := U32(base + s.seqno)) }

  function Words(q: seq<Segment>, base: int): (w: seq<Segment>)
    ensures |w| == |q| && forall i :: 0 <= i < |q| ==> w[i] == Word(q[i], base)
  {
    seq(|q|, i requires 0 <= i < |q| => Word(q[i], base))
  }

  lemma WordsJoin(a: seq<Segment>, b: seq<Segment>, base: int)
    ensures Words(a + b, base) == Words(a, base) + Words(b, base)
  {
  }

  lemma WordsSplit(q: seq<Segment>, k: nat, base: int)
    requires k <= |q|
    ensures Words(q, base)[..k] == Words(q[..k], base) && Words(q, base)[k..] == Words(q[k..], base)
  {
  }

  lemma Gap(base: int, x: int, y: int)
    requires 0 <= x - y < TWO16
    ensures U16(U32(base + x) - U32(base + y)) == x - y
  {
    Order(base, x, y);
  }

  /** The comparisons between two nearby segments, on numbers and on positions. */
  lemma Compare(base: int, c: Segment, d: Segment)
    requires -TWO16 <= c.seqno - d.seqno <= TWO16 && |c.data| <= MAX_PAYLOAD && |d.data| <= MAX_PAYLOAD
    ensures var (v, w) := (Word(c, base), Word(d, base));
            && (SeqGeq(U32(v.seqno + |v.data|), U32(w.seqno + |w.data|)) <==> c.End() >= d.End())
            && (SeqGt(U32(v.seqno + |v.data|), w.seqno) <==> c.End() > d.seqno)
            && (SeqGt(v.seqno, w.seqno) <==> c.seqno > d.seqno)
            && (SeqLt(v.seqno, w.seqno) <==> c.seqno < d.seqno)
            && (v.seqno == w.seqno <==> c.seqno == d.seqno)
            && (0 <= d.seqno - c.seqno < TWO16 ==> U16(w.seqno - v.seqno) == d.seqno - c.seqno)
  {
    hide U32, U16, SignedDiff;
    Advance(base, c.seqno, |c.data|);
    Advance(base, d.seqno, |d.data|);
    Order(base, d.seqno, d.seqno);
    Order(base, c.End(), d.End());
    Order(base, c.End(), d.seqno);
    Order(base, c.seqno, d.seqno);
    if 0 <= d.seqno - c.seqno < TWO16 { Gap(base, d.seqno, c.seqno); }
  }

  /** What the insertion loop needs of its operands: `c` comes first, FIN comes last, and all is near. */
  ghost predicate Placeable(c: Segment, q: seq<Segment>) {
    && |c.data| <= MAX_PAYLOAD
    && (forall i :: 0 <= i < |q| ==> c.seqno <= q[i].seqno <= c.seqno + TWO16 - 1 && |q[i].data| <= MAX_PAYLOAD)
    && (forall i :: 0 <= i < |q| - 1 ==> !q[i].fin)
  }

  lemma FrontIs(c: Segment, q: seq<Segment>)
    requires Placeable(c, q)
    ensures var k := Covered(q, c.End());
            Front(c, q) == if k < |q| && q[k].seqno < c.End() then c.(data := c.data[..q[k].seqno - c.seqno])
                           else c.(fin := exists i :: 0 <= i < k && q[i].fin)
  {
  }

  lemma InsertWords(c: Segment, q: seq<Segment>, base: int)
    requires Placeable(c, q) && !c.fin
    ensures Words(Insert(c, q), base) == [Word(Front(c, q), base)] + Words(q, base)[Covered(q, c.End())..]
  {
    var k := Covered(q, c.End());
    assert Insert(c, q) == [Front(c, q)] + q[k..];
    hide *;
    WordsJoin([Front(c, q)], q[k..], base);
    WordsSplit(q, k, base);
    assert Words([Front(c, q)], base) == [Word(Front(c, q), base)];
  }

  /** The loop of tcp_oos_insert_segment: step over the elements that `cseg` covers, keeping their FIN. */
  method SkipCovered(cseg0: Segment, next0: seq<Segment>, ghost base: int, ghost c: Segment, ghost q: seq<Segment>)
    returns (cseg: Segment, next: seq<Segment>)
    requires cseg0 == Word(c, base) && next0 == Words(q, base) && Placeable(c, q) && !c.fin
    ensures var k := Covered(q, c.End());
            next == next0[k..] && cseg == cseg0.(fin := exists i :: 0 <= i < k && q[i].fin)
  {
    hide U32, U16, SignedDiff, SeqGeq, SeqGt, Insert, Front;
    cseg, next := cseg0, next0;
    ghost var k := 0;
    while next != [] && SeqGeq(U32(cseg0.seqno + |cseg.data|), U32(next[0].seqno + |next[0].data|))
      invariant 0 <= k <= Covered(q, c.End()) && next == next0[k..]
      invariant cseg == cseg0.(fin := exists i :: 0 <= i < k && q[i].fin)
      decreases |next|
    {
      Compare(base, c, q[k]);
      if next[0].fin {
        cseg := cseg.(fin := true);
      }
      next := next[1..];
      k := k + 1;
    }
    if k < |q| { Compare(base, c, q[k]); }
  }

  /** tcp_oos_insert_segment */
  method OosInsertSegment(cseg0: Segment, next0: seq<Segment>, ghost base: int, ghost c: Segment, ghost q: seq<Segment>)
    returns (r: seq<Segment>)
    requires cseg0 == Word(c, base) && next0 == Words(q, base) && Placeable(c, q)
    ensures r == Words(Insert(c, q), base)
  {
    hide U32, U16, SignedDiff, SeqGeq, SeqGt, Insert, Front;
    var cseg, next := cseg0, next0;
    var seqno := cseg.seqno;
    if cseg.fin {
      next := [];
      assert Words([c], base) == [cseg];
      assert Insert(c, q) == [c] by { InsertIs(c, q); }
    } else {
      cseg, next := SkipCovered(cseg0, next0, base, c, q);
      ghost var k := Covered(q, c.End());
      if k < |q| { Compare(base, c, q[k]); }
      if next != [] && SeqGt(U32(seqno + |cseg.data|), next[0].seqno) {
        var len := U16(next[0].seqno - seqno);
        cseg := cseg.(data := cseg.data[..len]);
      }
      FrontIs(c, q);
      InsertWords(c, q, base);
    }
    r := [cseg] + next;
  }

  /** Trim the second edge of a queued segment to the start of the incoming one. */
  method TrimSecondEdge(prev: Segment, seqno: int, ghost base: int, ghost p: Segment, ghost at: int) returns (r: Segment)
    requires prev == Word(p, base) && seqno == U32(base + at)
    requires p.seqno < at <= p.seqno + MAX_WINDOW && |p.data| <= MAX_PAYLOAD
    ensures r == Word(p.CutAt(at), base)
  {
    hide U32, U16, SignedDiff, SeqGeq;
    Compare(base, p, Segment(at, [], false));
    r := prev;
    if SeqGt(U32(prev.seqno + |prev.data|), seqno) {
      var len := U16(seqno - prev.seqno);
      r := prev.(data := prev.data[..len]);
    }
  }

  /** Trim an appended segment to the window, dropping its FIN with the sequence number it loses. */
  method TrimToWindow(inseg: Segment, rcvNxt: int, rcvWnd: int, ghost base: int, ghost c: Segment, ghost nxt: int)
    returns (r: Segment)
    requires inseg == Word(c, base) && rcvNxt == U32(base + nxt) && 0 <= rcvWnd <= MAX_WINDOW
    requires nxt <= c.seqno < nxt + rcvWnd && |c.data| <= MAX_PAYLOAD
    ensures r == Word(c.FitWindow(nxt + rcvWnd), base)
  {
    hide U32, U16, SignedDiff;
    var tcplen := inseg.TcpLen();
    Advance(base, c.seqno, tcplen);
    Advance(base, nxt, rcvWnd);
    Order(base, c.TcpEnd(), nxt + rcvWnd);
    Gap(base, nxt + rcvWnd, c.seqno);
    r := inseg;
    if SeqGt(U32(tcplen + inseg.seqno), U32(rcvNxt + rcvWnd)) {
      var len := U16(U32(rcvNxt + rcvWnd) - inseg.seqno);
      r := Segment(inseg.seqno, inseg.data[..len], false);
    }
  }

  /** The second case of the walk: what the queue looks like around the place of `c`. */
  ghost predicate Around(q: seq<Segment>, c: Segment, nxt: int) {
    && (forall i :: 0 <= i < |q| ==> nxt < q[i].seqno <= nxt + MAX_WINDOW && |q[i].data| <= MAX_PAYLOAD)
    && (forall i :: 0 <= i < |q| - 1 ==> !q[i].fin)
    && (forall i, j :: 0 <= i < j < |q| ==> q[i].seqno < q[j].seqno && q[i].End() <= q[j].seqno)
    && nxt < c.seqno <= nxt + MAX_WINDOW && |c.data| <= MAX_PAYLOAD
  }

  lemma QueueableIsAround(q: seq<Segment>, c: Segment, nxt: int, edge: int, stream: seq<byte>)
    requires Queueable(q, c, nxt, edge, stream)
    ensures Around(q, c, nxt)
  {
    forall i, j | 0 <= i < j < |q| ensures q[i].seqno < q[j].seqno {
      assert q[i].End() <= q[j].seqno && 0 < q[i].TcpLen() && !q[i].fin;
    }
  }

  lemma HeadWords(q: seq<Segment>, k: nat, at: int, base: int)
    requires 0 < k <= |q|
    ensures Words(Head(q, k, at), base) == Words(q, base)[..k - 1] + [Word(q[k - 1].CutAt(at), base)]
  {
    hide U32;
    WordsJoin(q[..k - 1], [q[k - 1].CutAt(at)], base);
    WordsSplit(q, k - 1, base);
  }

  lemma Between(base: int, c: Segment, p: Segment, d: Segment)
    requires -TWO16 <= c.seqno - p.seqno <= TWO16 && -TWO16 <= c.seqno - d.seqno <= TWO16
    ensures SeqBetween(Word(c, base).seqno, U32(Word(p, base).seqno + 1), U32(Word(d, base).seqno - 1)) <==>
            p.seqno < c.seqno < d.seqno
  {
    hide U32, SignedDiff;
    Advance(base, p.seqno, 1);
    Advance(base, d.seqno, -1);
    Order(base, c.seqno, p.seqno + 1);
    Order(base, c.seqno, d.seqno - 1);
  }

  /** `c` belongs at index `k` of `q`, before an element that does not make it redundant. */
  ghost predicate PlaceAt(q: seq<Segment>, c: Segment, k: nat) {
    && k == Below(q, c.seqno) && k < |q|
    && !(q[k].seqno == c.seqno && |c.data| <= |q[k].data|)
  }

  lemma InnerPlaceable(q: seq<Segment>, c: Segment, nxt: int, k: nat)
    requires Around(q, c, nxt) && PlaceAt(q, c, k)
    ensures Placeable(c, q[k..])
    ensures k > 0 && q[k].seqno == c.seqno ==> q[k - 1].CutAt(c.seqno) == q[k - 1]
  {
  }

  lemma InnerWords(q: seq<Segment>, c: Segment, edge: int, base: int, k: nat)
    requires PlaceAt(q, c, k)
    ensures Words(q, base)[k..] == Words(q[k..], base)
    ensures Words(Enqueue(q, c, edge, true), base) ==
            (if k == 0 then [] else Words(q, base)[..k - 1] + [Word(q[k - 1].CutAt(c.seqno), base)])
            + Words(Insert(c, q[k..]), base)
  {
    assert Enqueue(q, c, edge, true) == Head(q, k, c.seqno) + Insert(c, q[k..]);
    assert k == 0 ==> Head(q, k, c.seqno) == [];
    hide *;
    WordsSplit(q, k, base);
    WordsJoin(Head(q, k, c.seqno), Insert(c, q[k..]), base);
    if k > 0 { HeadWords(q, k, c.seqno, base); }
  }

  lemma TailWords(q: seq<Segment>, c: Segment, edge: int, base: int)
    requires q != [] && Below(q, c.seqno) == |q| && !q[|q| - 1].fin
    ensures Words(Enqueue(q, c, edge, true), base) ==
            Words(q, base)[..|q| - 1] + [Word(q[|q| - 1].CutAt(c.seqno), base)] + [Word(c.FitWindow(edge), base)]
  {
    hide U32, Enqueue, Head, Below, Segment.CutAt, Segment.FitWindow;
    EnqueueLast(q, c, edge);
    WordsJoin(Head(q, |q|, c.seqno), [c.FitWindow(edge)], base);
    HeadWords(q, |q|, c.seqno, base);
  }

  lemma Unplaced(q: seq<Segment>, c: Segment, edge: int, alloc: bool)
    ensures var k := Below(q, c.seqno);
            (|| !alloc
             || (q != [] && k == |q| && q[k - 1].fin)
             || (k < |q| && q[k].seqno == c.seqno && |c.data| <= |q[k].data|)) ==> Enqueue(q, c, edge, alloc) == q
    ensures q == [] && alloc ==> Enqueue(q, c, edge, alloc) == [c]
  {
  }

  lemma AroundAt(q: seq<Segment>, c: Segment, nxt: int, i: nat)
    requires Around(q, c, nxt) && i < |q|
    ensures -MAX_WINDOW <= c.seqno - q[i].seqno <= MAX_WINDOW && |q[i].data| <= MAX_PAYLOAD && |c.data| <= MAX_PAYLOAD
  {
  }

  /** Put a segment at index `i`: in place of the element there, before the first, or between two. */
  method PlaceSegment(ooseq0: seq<Segment>, inseg: Segment, i: nat,
                      ghost base: int, ghost c: Segment, ghost q: seq<Segment>, ghost nxt: int, ghost edge: int)
    returns (ooseq: seq<Segment>)
    requires ooseq0 == Words(q, base) && inseg == Word(c, base) && Around(q, c, nxt) && PlaceAt(q, c, i)
    ensures ooseq == Words(Enqueue(q, c, edge, true), base)
  {
    hide U32, U16, SignedDiff, Around, Placeable, Enqueue, Insert, Segment.CutAt, Below;
    InnerPlaceable(q, c, nxt, i);
    InnerWords(q, c, edge, base, i);
    AroundAt(q, c, nxt, i);
    Compare(base, c, q[i]);
    if i > 0 { AroundAt(q, c, nxt, i - 1); }
    var r := OosInsertSegment(inseg, ooseq0[i..], base, c, q[i..]);
    if i == 0 {
      ooseq := r;
    } else {
      var prev := ooseq0[i - 1];
      if inseg.seqno != ooseq0[i].seqno {
        prev := TrimSecondEdge(prev, inseg.seqno, base, q[i - 1], c.seqno);
      }
      ooseq := ooseq0[..i - 1] + [prev] + r;
    }
  }

  /** Put a segment behind the last element. */
  method AppendSegment(ooseq0: seq<Segment>, inseg: Segment, rcvNxt: int, rcvWnd: int,
                       ghost base: int, ghost c: Segment, ghost q: seq<Segment>, ghost nxt: int)
    returns (ooseq: seq<Segment>)
    requires ooseq0 == Words(q, base) && inseg == Word(c, base) && rcvNxt == U32(base + nxt) && Around(q, c, nxt)
    requires 0 <= rcvWnd <= MAX_WINDOW && nxt < c.seqno < nxt + rcvWnd
    requires q != [] && Below(q, c.seqno) == |q| && !q[|q| - 1].fin
    ensures ooseq == Words(Enqueue(q, c, nxt + rcvWnd, true), base)
  {
    var i := |ooseq0| - 1;
    TailWords(q, c, nxt + rcvWnd, base);
    AroundAt(q, c, nxt, i);
    hide *;
    var last := TrimSecondEdge(ooseq0[i], inseg.seqno, base, q[i], c.seqno);
    var copy := TrimToWindow(inseg, rcvNxt, rcvWnd, base, c, nxt);
    ooseq := ooseq0[..i] + [last] + [copy];
  }

  /** Queue an out-of-sequence segment: walk the queue for its place. */
  method QueueOutOfSequence(ooseq0: seq<Segment>, inseg: Segment, rcvNxt: int, rcvWnd: int, alloc: bool,
                            ghost base: int, ghost c: Segment, ghost q: seq<Segment>, ghost nxt: int)
    returns (ooseq: seq<Segment>)
    requires ooseq0 == Words(q, base) && inseg == Word(c, base) && rcvNxt == U32(base + nxt)
    requires 0 <= rcvWnd <= MAX_WINDOW && nxt < c.seqno < nxt + rcvWnd && Around(q, c, nxt)
    ensures ooseq == Words(Enqueue(q, c, nxt + rcvWnd, alloc), base)
  {
    hide U32, U16, SignedDiff, SeqBetween, SeqLt, SeqGt, Enqueue, Around, Below;
    ghost var edge := nxt + rcvWnd;
    Unplaced(q, c, edge, alloc);
    ooseq := ooseq0;
    if ooseq == [] {
      if alloc { ooseq := [inseg]; }
      return;
    }
    var i := 0;
    while i < |ooseq|
      invariant 0 <= i <= Below(q, c.seqno) && i < |q| && ooseq == ooseq0
    {
      var next := ooseq[i];
      AroundAt(q, c, nxt, i);
      Compare(base, c, q[i]);
      if inseg.seqno == next.seqno {
        if |inseg.data| > |next.data| && alloc {
          ooseq := PlaceSegment(ooseq, inseg, i, base, c, q, nxt, edge);
        }
        return;
      }
      if i == 0 {
        if SeqLt(inseg.seqno, next.seqno) {
          if alloc { ooseq := PlaceSegment(ooseq, inseg, 0, base, c, q, nxt, edge); }
          return;
        }
      } else {
        AroundAt(q, c, nxt, i - 1);
        Between(base, c, q[i - 1], q[i]);
        if SeqBetween(inseg.seqno, U32(ooseq[i - 1].seqno + 1), U32(next.seqno - 1)) {
          if alloc { ooseq := PlaceSegment(ooseq, inseg, i, base, c, q, nxt, edge); }
          return;
        }
      }
      if i == |ooseq| - 1 && SeqGt(inseg.seqno, next.seqno) {
        if !next.fin && alloc {
          ooseq := AppendSegment(ooseq, inseg, rcvNxt, rcvWnd, base, c, q, nxt);
        }
        return;
      }
      i := i + 1;
    }
  }

  /** Resolve an in-sequence segment against the queue, taking over a FIN it reaches. */
  method AbsorbQueue(inseg0: Segment, ooseq0: seq<Segment>, ghost base: int, ghost c: Segment, ghost q: seq<Segment>)
    returns (inseg: Segment, ooseq: seq<Segment>)
    requires inseg0 == Word(c, base) && ooseq0 == Words(q, base) && Placeable(c, q)
    ensures inseg == Word(Absorb(c, q).0, base) && ooseq == Words(Absorb(c, q).1, base)
  {
    hide U32, U16, SignedDiff, SeqGeq, SeqGt, Front;
    inseg, ooseq := inseg0, ooseq0;
    var seqno := inseg.seqno;
    if inseg.fin {
      ooseq := [];
    } else {
      ghost var k := 0;
      var tcplen := inseg.TcpLen();
      while ooseq != [] && SeqGeq(U32(seqno + tcplen), U32(ooseq[0].seqno + |ooseq[0].data|))
        invariant 0 <= k <= Covered(q, c.End()) && ooseq == ooseq0[k..]
        invariant inseg == inseg0.(fin := exists i :: 0 <= i < k && q[i].fin)
        invariant tcplen == inseg.TcpLen() && (inseg.fin ==> ooseq == [])
        decreases |ooseq|
      {
        Compare(base, c, q[k]);
        if ooseq[0].fin {
          inseg := inseg.(fin := true);
          tcplen := inseg.TcpLen();
        }
        ooseq := ooseq[1..];
        k := k + 1;
      }
      if k < |q| { Compare(base, c, q[k]); }
      assert k == Covered(q, c.End());
      if ooseq != [] && SeqGt(U32(seqno + tcplen), ooseq[0].seqno) {
        var len := U16(ooseq[0].seqno - seqno);
        inseg := inseg.(data := inseg.data[..len]);
      }
      FrontIs(c, q);
      WordsSplit(q, k, base);
    }
  }

  /** Positions in play are less than half the sequence space apart. */
  ghost predicate Timely(m: Pcb) {
    -0x4000_0000 < m.annEdge - m.rcvNxt < 0x4000_0000
  }

  /** The receive half of a pcb, with recv_data and TF_GOT_FIN of the call in progress. */
  class RxPcb {
    const tcpWnd: int
    const mss: int
    ghost const base: int
    var state: State
    var rcvNxt: int
    var rcvWnd: int
    var annWnd: int
    var annEdge: int
    var ooseq: seq<Segment>
    var refused: seq<byte>
    var refusedFin: bool
    var recvData: seq<byte>
    var gotFin: bool
    /** The same connection in the step machine. */
    ghost var m: Pcb

    ghost predicate Valid()
      reads this
    {
      && tcpWnd == m.tcpWnd && mss == m.mss && state == m.state
      && rcvNxt == U32(base + m.rcvNxt) && rcvWnd == m.rcvWnd
      && annWnd == m.annWnd && annEdge == U32(base + m.annEdge)
      && ooseq == Words(m.ooseq, base)
      && refused == m.refused && refusedFin == m.refusedFin
      && recvData == m.recvData && gotFin == m.gotFin
    }

    /** A connection whose peer's first octet carries the number `irs` + 1. */
    constructor (tcpWnd: int, mss: int, irs: int)
      requires 0 < tcpWnd <= MAX_WINDOW && 0 <= mss
      ensures Valid() && m == Init(tcpWnd, mss)
    {
      this.tcpWnd, this.mss, this.base := tcpWnd, mss, irs + 1;
      state := Established;
      rcvNxt, annEdge := U32(irs + 1), U32(irs + 1);
      rcvWnd, annWnd := tcpWnd, tcpWnd;
      ooseq, refused, refusedFin, recvData, gotFin := [], [], false, [], false;
      m := Init(tcpWnd, mss);
    }

    /** tcp_update_rcv_ann_wnd; the result is how much window an update would add. */
    method UpdateRcvAnnWnd() returns (inflation: int)
      requires Valid() && 0 < tcpWnd <= MAX_WINDOW && 0 <= mss <= MAX_WINDOW && 0 <= rcvWnd <= MAX_WINDOW
      requires -0x6000_0000 < m.annEdge - m.rcvNxt < 0x6000_0000
      modifies this`annWnd, this`m
      ensures Valid() && m == UpdateAnnWnd(old(m))
      ensures inflation == if m.RightEdge() >= m.annEdge + Min(tcpWnd / 2, mss) then m.RightEdge() - m.annEdge else 0
    {
      hide U32, U16, SignedDiff;
      var threshold := Min(tcpWnd / 2, mss);
      Advance(base, m.rcvNxt, rcvWnd);
      Advance(base, m.annEdge, threshold);
      Order(base, m.RightEdge(), m.annEdge + threshold);
      Order(base, m.rcvNxt, m.annEdge);
      var newRightEdge := U32(rcvNxt + rcvWnd);
      if SeqGeq(newRightEdge, U32(annEdge + threshold)) {
        annWnd := rcvWnd;
        Distance(base, m.RightEdge(), m.annEdge);
        inflation := U32(newRightEdge - annEdge);
      } else {
        if SeqGt(rcvNxt, annEdge) {
          annWnd := 0;
        } else {
          Distance(base, m.annEdge, m.rcvNxt);
          annWnd := U16(U32(annEdge - rcvNxt));
        }
        inflation := 0;
      }
      m := UpdateAnnWnd(m);
    }
  
    /** Every outgoing header carries rcv_ann_wnd and so moves the announced edge. */
    method Announce()
      requires Valid()
      modifies this`annEdge, this`m
      ensures Valid() && m == TcpReceiveSpec.Announce(old(m))
    {
      Advance(base, m.rcvNxt, annWnd);
      annEdge := U32(rcvNxt + annWnd);
      m := TcpReceiveSpec.Announce(m);
    }

    method SendEmptyAck(alloc: bool)
      requires Valid()
      modifies this`annEdge, this`m
      ensures Valid() && m == TcpReceiveSpec.SendEmptyAck(old(m), alloc)
    {
      if alloc { Announce(); }
    }

    /** Advance rcv_nxt over `c` and chain its payload. */
    method Consume(c: Segment, ghost a: Segment)
      requires Valid() && c == Word(a, base) && a.seqno == m.rcvNxt && a.TcpLen() <= TWO16
      requires 0 < tcpWnd <= MAX_WINDOW && 0 <= mss <= MAX_WINDOW && 0 <= rcvWnd <= MAX_WINDOW
      requires -0x5000_0000 < m.annEdge - m.rcvNxt < 0x5000_0000
      modifies this
      ensures Valid() && m == TcpReceiveSpec.Consume(old(m), a)
      ensures ooseq == old(ooseq)
    {
      hide U32, U16, UpdateAnnWnd;
      Advance(base, m.rcvNxt, c.TcpLen());
      rcvNxt := U32(c.seqno + c.TcpLen());
      rcvWnd := U16(rcvWnd - c.TcpLen());
      recvData := recvData + c.data;
      gotFin := gotFin || c.fin;
      m := m.(rcvNxt := m.rcvNxt + a.TcpLen(), rcvWnd := U16(m.rcvWnd - a.TcpLen()),
              recvData := m.recvData + a.data, gotFin := m.gotFin || a.fin);
      var _ := UpdateRcvAnnWnd();
    }

    /** Dequeue the first element, which has become in-sequence. */
    method DequeueFirst(ghost stream: seq<byte>)
      requires Valid() && Collecting(m, stream) && m.ooseq != [] && m.ooseq[0].seqno == m.rcvNxt
      requires 0 < tcpWnd <= MAX_WINDOW && 0 <= mss <= MAX_WINDOW
      requires -0x5000_0000 < m.annEdge - m.rcvNxt < 0x5000_0000
      modifies this
      ensures Valid() && m == DrainOne(old(m))
    {
      hide U32, U16, Accounted, Ordered, AllCutFrom, TcpReceiveSpec.Consume;
      var cseg := ooseq[0];
      ghost var a := m.ooseq[0];
      ooseq := ooseq[1..];
      m := m.(ooseq := m.ooseq[1..]);
      Consume(cseg, a);
      if cseg.fin && state == Established {
        state := CloseWait;
        m := m.(state := CloseWait);
      }
      assert m == DrainOne(old(m)) by { ConsumeState(old(m).(ooseq := old(m).ooseq[1..]), a); }
    }

    /** Dequeue everything that has become in-sequence. */
    method DrainQueue(ghost stream: seq<byte>)
      requires Valid() && Collecting(m, stream)
      requires 0 < tcpWnd <= MAX_WINDOW && 0 <= mss <= MAX_WINDOW
      requires -0x4800_0000 < m.annEdge - m.rcvNxt < 0x4800_0000
      modifies this
      ensures Valid() && m == Drain(old(m))
    {
      ghost var top := m.rcvNxt + 2 * TWO16;
      assert Reaches(m, top);
      hide Collecting, Drain, DrainOne, Accounted, Ordered, AllCutFrom, U32;
      while ooseq != [] && ooseq[0].seqno == rcvNxt
        invariant Valid() && Collecting(m, stream) && Drain(m) == Drain(old(m))
        invariant m.annEdge == old(m).annEdge && old(m).rcvNxt <= m.rcvNxt && Reaches(m, top)
        decreases |ooseq|
      {
        CollectingNear(m, stream);
        FrontMatches(base, m);
        DrainOneKeeps(m, stream);
        DrainOneReaches(m, top);
        DrainStep(m);
        hide *;
        DequeueFirst(stream);
      }
      CollectingNear(m, stream);
      if ooseq != [] { FrontMatches(base, m); }
      DrainEnd(m);
    }

    /** What every entry point may rely on. */
    ghost predicate Ready(stream: seq<byte>)
      reads this
    {
      Valid() && Inv(m, stream) && Timely(m) && 0 < tcpWnd && 0 <= mss <= MAX_WINDOW
    }

    /** An in-sequence segment: trim it to the window, resolve it against the queue, consume, dequeue. */
    method InOrder(inseg0: Segment, ghost a: Segment, ghost stream: seq<byte>)
      requires Ready(stream) && NextInSequence(m, a, stream) && inseg0 == Word(a, base)
      modifies this
      ensures Valid() && m == TcpReceiveSpec.InOrder(old(m), a)
    {
      hide U32, U16, Inv, Absorb, Placeable, Collecting, Drain, TcpReceiveSpec.Consume, TcpReceiveSpec.InOrder;
      InOrderPieces(m, a, stream);
      ghost var c := a.FitWindow(m.RightEdge());
      ghost var (d, r) := Absorb(c, m.ooseq);
      var inseg := inseg0;
      if inseg.TcpLen() > rcvWnd {
        inseg := Segment(inseg.seqno, inseg.data[..rcvWnd], false);
      }
      inseg, ooseq := AbsorbQueue(inseg, ooseq, base, c, m.ooseq);
      m := m.(ooseq := r);
      Consume(inseg, d);
      DrainQueue(stream);
    }

    /** An out-of-sequence segment: acknowledge at once and queue it. */
    method OutOfOrder(inseg: Segment, env: Env, ghost a: Segment, ghost stream: seq<byte>)
      requires Ready(stream) && Sendable(a, stream) && 0 < a.TcpLen() && inseg == Word(a, base)
      requires m.rcvNxt < a.seqno < m.RightEdge()
      modifies this
      ensures Valid() && m == TcpReceiveSpec.OutOfOrder(old(m), a, env)
    {
      hide U32, Enqueue, Around;
      QueueableIsAround(m.ooseq, a, m.rcvNxt, m.RightEdge(), stream);
      SendEmptyAck(env.ackAlloc);
      ooseq := QueueOutOfSequence(ooseq, inseg, rcvNxt, rcvWnd, env.segAlloc, base, a, m.ooseq, m.rcvNxt);
      m := m.(ooseq := Enqueue(m.ooseq, a, m.RightEdge(), env.segAlloc));
    }

    /** Trim the leading edge of a segment that starts below rcv_nxt and reaches above it. */
    method TrimFirstEdge(seg: Segment, ghost a: Segment) returns (inseg: Segment)
      requires Valid() && seg == Word(a, base) && 0 < a.TcpLen() && |a.data| <= MAX_PAYLOAD
      requires -0x4000_0000 < a.seqno - m.rcvNxt < 0x4000_0000
      ensures inseg == Word(TrimFront(a, m.rcvNxt), base)
    {
      hide U32, SignedDiff;
      var tcplen := seg.TcpLen();
      Advance(base, a.seqno, 1);
      Advance(base, a.seqno, tcplen - 1);
      Order(base, m.rcvNxt, a.seqno + 1);
      Order(base, m.rcvNxt, a.seqno + (tcplen - 1));
      Order(base, m.rcvNxt, a.seqno);
      inseg := seg;
      if SeqBetween(rcvNxt, U32(seg.seqno + 1), U32(seg.seqno + (tcplen - 1))) {
        var off := SignedDiff(rcvNxt, seg.seqno);
        inseg := Segment(rcvNxt, seg.data[off..], seg.fin);
      }
    }

    /** The data part of tcp_receive. */
    method Receive(seg: Segment, env: Env, ghost a: Segment, ghost stream: seq<byte>)
      requires Ready(stream) && Sendable(a, stream) && seg == Word(a, base)
      requires -0x4000_0000 < a.seqno - m.rcvNxt < 0x4000_0000
      requires m.refused == [] || a.TcpLen() == 0
      modifies this
      ensures Valid() && m == TcpReceiveSpec.Receive(old(m), a, env)
    {
      if seg.TcpLen() > 0 && state.Open() {
        hide U32, SeqBetween, TcpReceiveSpec.InOrder, TcpReceiveSpec.OutOfOrder, QueueInv, Accounted, TrimFront, Sendable;
        ghost var t := TrimFront(a, m.rcvNxt);
        TrimmedIsSendable(a, m.rcvNxt, stream);
        InWindow(base, t.seqno, m.rcvNxt, rcvWnd);
        var inseg := TrimFirstEdge(seg, a);
        if SeqBetween(inseg.seqno, rcvNxt, U32(rcvNxt + (rcvWnd - 1))) {
          if rcvNxt == inseg.seqno {
            InOrder(inseg, t, stream);
          } else {
            OutOfOrder(inseg, env, t, stream);
          }
        } else {
          SendEmptyAck(env.ackAlloc);
        }
      }
    }

    /** tcp_pcb_purge */
    method Purge()
      requires Valid()
      modifies this
      ensures Valid() && m == TcpReceiveSpec.Purge(old(m))
    {
      refused, refusedFin, ooseq := [], false, [];
      m := TcpReceiveSpec.Purge(m);
    }

    /** The state changes of tcp_process around tcp_receive. */
    method Process(seg: Segment, env: Env, ghost a: Segment, ghost stream: seq<byte>)
      requires Ready(stream) && Sendable(a, stream) && seg == Word(a, base)
      requires -0x4000_0000 < a.seqno - m.rcvNxt < 0x4000_0000
      requires m.refused == [] || a.TcpLen() == 0
      modifies this
      ensures Valid() && m == TcpReceiveSpec.Process(old(m), a, env)
    {
      var before := state;
      Receive(seg, env, a, stream);
      hide TcpReceiveSpec.Receive, U32;
      if before == Established || before == CloseWait {
        if gotFin { SetState(CloseWait); }
      } else if before == FinWait1 {
        if gotFin {
          if env.allAcked { Purge(); SetState(TimeWait); } else { SetState(Closing); }
        } else if env.allAcked {
          SetState(FinWait2);
        }
      } else if before == FinWait2 {
        if gotFin { Purge(); SetState(TimeWait); }
      } else if before == Closing {
        if env.allAcked { Purge(); SetState(TimeWait); }
      } else if before == LastAck {
        if env.allAcked { Purge(); SetState(Closed); }
      }
    }

    method SetState(s: State)
      requires Valid()
      modifies this`state, this`m
      ensures Valid() && m == old(m).(state := s)
    {
      state := s;
      m := m.(state := s);
    }

    /** The FIN's sequence number goes back to the window, since the application will not return it. */
    method SignalEof()
      requires Valid()
      modifies this`rcvWnd, this`m
      ensures Valid() && m == TcpReceiveSpec.SignalEof(old(m))
    {
      if rcvWnd != tcpWnd { rcvWnd := U16(rcvWnd + 1); }
      m := TcpReceiveSpec.SignalEof(m);
    }

    /** tcp_process_refused_data: the octets handed over, and how often the end of stream was signalled. */
    method ProcessRefused(accepted: bool) returns (handed: seq<byte>, eofs: nat)
      requires Valid()
      modifies this
      ensures Valid() && m == TcpReceiveSpec.ProcessRefused(old(m), accepted)
      ensures m.delivered == old(m).delivered + handed && m.eofs == old(m).eofs + eofs
    {
      hide U32;
      handed, eofs := [], 0;
      if refused != [] && accepted {
        handed := refused;
        var fin := refusedFin;
        refused, refusedFin := [], false;
        m := m.(delivered := m.delivered + m.refused, unread := m.unread + |m.refused|,
                refused := [], refusedFin := false);
        if fin { SignalEof(); eofs := 1; }
      }
    }

    /** Hand recv_data to the application, or keep it as refused. */
    method NotifyData(accepted: bool) returns (handed: seq<byte>)
      requires Valid()
      modifies this
      ensures Valid() && m == HandOver(old(m), accepted) && m.delivered == old(m).delivered + handed
    {
      hide U32;
      handed := [];
      if recvData != [] {
        if accepted { handed := recvData; } else { refused := recvData; }
        recvData := [];
        m := HandOver(m, accepted);
      }
    }

    /** The callbacks at the end of tcp_input. */
    method Notify(accepted: bool) returns (handed: seq<byte>, eofs: nat)
      requires Valid()
      modifies this
      ensures Valid() && m == TcpReceiveSpec.Notify(old(m), accepted)
      ensures m.delivered == old(m).delivered + handed && m.eofs == old(m).eofs + eofs
    {
      handed := NotifyData(accepted);
      eofs := 0;
      assert m.eofs == old(m).eofs;
      hide U32, HandOver;
      if gotFin {
        gotFin := false;
        m := m.(gotFin := false);
        if refused != [] {
          refusedFin := true;
          m := m.(refusedFin := true);
        } else {
          SignalEof();
          eofs := 1;
        }
      }
    }

    /** tcp_process and the callbacks that follow it. */
    method ProcessAndNotify(seg: Segment, env: Env, ghost a: Segment, ghost stream: seq<byte>)
      returns (handed: seq<byte>, eofs: nat)
      requires Ready(stream) && Sendable(a, stream) && seg == Word(a, base)
      requires -0x4000_0000 < a.seqno - m.rcvNxt < 0x4000_0000
      requires m.refused == [] || a.TcpLen() == 0
      modifies this
      ensures Valid() && m == TcpReceiveSpec.Notify(TcpReceiveSpec.Process(old(m), a, env), env.accepted)
      ensures m.delivered == old(m).delivered + handed && m.eofs == old(m).eofs + eofs
    {
      ProcessFrame(m, a, env);
      hide *;
      Process(seg, env, a, stream);
      handed, eofs := Notify(env.accepted);
    }

    /**
     tcp_input for a segment of this connection, cut from `stream` at a position less than a quarter of the
     sequence space from rcv_nxt. What is handed over extends what was delivered, exactly by the stream.
     */
    method Input(seg: Segment, env: Env, ghost a: Segment, ghost stream: seq<byte>) returns (handed: seq<byte>, eofs: nat)
      requires Ready(stream) && Sendable(a, stream) && seg == Word(a, base)
      requires -0x4000_0000 < a.seqno - m.rcvNxt < 0x4000_0000
      modifies this
      ensures Valid() && m == Step(old(m), Arrive(a, env)) && Inv(m, stream)
      ensures m.delivered == old(m).delivered + handed && m.eofs == old(m).eofs + eofs
    {
      hide Inv, U32, Step, TcpReceiveSpec.ProcessRefused, TcpReceiveSpec.Process, TcpReceiveSpec.Notify, Sendable;
      StepKeeps(m, Arrive(a, env), stream);
      InputCases(m, a, env, stream);
      handed, eofs := [], 0;
      if !state.Active() { return; }
      var h, e := [], 0;
      if refused != [] {
        h, e := ProcessRefused(env.retryAccepted);
      }
      if refused != [] && seg.TcpLen() > 0 {
        if annWnd == 0 { SendEmptyAck(env.ackAlloc); }
      } else {
        handed, eofs := ProcessAndNotify(seg, env, a, stream);
      }
      handed, eofs := h + handed, e + eofs;
    }

    /** tcp_recved; the result is the window growth that decides whether an update is sent at once. */
    method Recved(len: int) returns (inflation: int)
      requires Valid() && 0 < tcpWnd <= MAX_WINDOW && 0 <= mss <= MAX_WINDOW && 0 <= rcvWnd <= MAX_WINDOW && Timely(m)
      requires 0 <= len <= MAX_WINDOW
      modifies this
      ensures Valid() && m == RecvedStep(old(m), len)
      ensures inflation == if m.RightEdge() >= m.annEdge + Min(tcpWnd / 2, mss) then m.RightEdge() - m.annEdge else 0
    {
      hide U32, UpdateAnnWnd;
      rcvWnd := U16(rcvWnd + len);
      if rcvWnd > tcpWnd {
        rcvWnd := tcpWnd;
      } else if rcvWnd == 0 {
        if state == CloseWait || state == LastAck {
          rcvWnd := tcpWnd;
        }
      }
      m := m.(rcvWnd := rcvWnd, unread := if len <= m.unread then m.unread - len else 0);
      inflation := UpdateRcvAnnWnd();
    }
  }

  /** The three ways through tcp_input, and what each leaves alone. */
  lemma InputCases(m: Pcb, a: Segment, env: Env, stream: seq<byte>)
    requires Inv(m, stream)
    ensures !m.state.Active() ==> Step(m, Arrive(a, env)) == m
    ensures m.refused == [] ==> TcpReceiveSpec.ProcessRefused(m, env.retryAccepted) == m
    ensures var m1 := TcpReceiveSpec.ProcessRefused(m, env.retryAccepted);
            && Inv(m1, stream)
            && m1.rcvNxt == m.rcvNxt && m1.annEdge == m.annEdge && m1.state == m.state
            && m1.tcpWnd == m.tcpWnd && m1.mss == m.mss
            && (m.state.Active() ==>
                  Step(m, Arrive(a, env)) ==
                  if m1.refused != [] && a.TcpLen() > 0 then
                    if m1.annWnd == 0 then TcpReceiveSpec.SendEmptyAck(m1, env.ackAlloc) else m1
                  else TcpReceiveSpec.Notify(TcpReceiveSpec.Process(m1, a, env), env.accepted))
  {
    ProcessRefusedKeeps(m, env.retryAccepted, stream);
    hide TcpReceiveSpec.Process, TcpReceiveSpec.Notify, Inv;
  }

  lemma ProcessFrame(m: Pcb, a: Segment, env: Env)
    ensures TcpReceiveSpec.Process(m, a, env).delivered == m.delivered
    ensures TcpReceiveSpec.Process(m, a, env).eofs == m.eofs
  {
    ReceiveFrame(m, a, env);
    hide TcpReceiveSpec.Receive;
  }

  lemma TrimmedIsSendable(a: Segment, nxt: int, stream: seq<byte>)
    requires Sendable(a, stream) && 0 < a.TcpLen() && -0x4000_0000 < a.seqno - nxt < 0x4000_0000
    ensures Sendable(TrimFront(a, nxt), stream) && 0 < TrimFront(a, nxt).TcpLen() && |a.data| <= MAX_PAYLOAD
    ensures -0x4000_0000 < TrimFront(a, nxt).seqno - nxt < 0x4000_0000
  {
  }

  /** The acceptance test of tcp_receive, on numbers and on positions; a closed window accepts nothing. */
  lemma InWindow(base: int, x: int, nxt: int, wnd: int)
    requires -0x4000_0000 < x - nxt < 0x4000_0000 && 0 <= wnd <= MAX_WINDOW
    ensures SeqBetween(U32(base + x), U32(base + nxt), U32(U32(base + nxt) + (wnd - 1))) <==> nxt <= x < nxt + wnd
    ensures U32(base + nxt) == U32(base + x) <==> x == nxt
  {
    hide U32, SignedDiff;
    Advance(base, nxt, wnd - 1);
    Order(base, x, nxt);
    Order(base, nxt, nxt);
    Order(base, x, nxt + (wnd - 1));
  }

  lemma InOrderPieces(m: Pcb, a: Segment, stream: seq<byte>)
    requires NextInSequence(m, a, stream) && Timely(m)
    ensures 0 < m.rcvWnd <= MAX_WINDOW && m.tcpWnd <= MAX_WINDOW && a.seqno == m.rcvNxt
    ensures Placeable(a.FitWindow(m.RightEdge()), m.ooseq)
    ensures var (d, r) := Absorb(a.FitWindow(m.RightEdge()), m.ooseq);
            var m1 := TcpReceiveSpec.Consume(m.(ooseq := r), d);
            && d.seqno == m.rcvNxt && d.TcpLen() <= TWO16
            && Collecting(m1, stream) && m1.annEdge == m.annEdge && 0 <= m1.rcvNxt - m.rcvNxt <= TWO16
            && TcpReceiveSpec.InOrder(m, a) == Drain(m1)
  {
    InOrderFirstKeeps(m, a, stream);
    FrontIsShort(a.FitWindow(m.RightEdge()), m.ooseq);
  }

  lemma FrontIsShort(c: Segment, q: seq<Segment>)
    requires |c.data| <= MAX_PAYLOAD
    ensures |Absorb(c, q).0.data| <= MAX_PAYLOAD
  {
  }

  /** rcv_nxt and the end of every queued element stay at or below `top`. */
  ghost predicate Reaches(m: Pcb, top: int) {
    m.rcvNxt <= top && forall i :: 0 <= i < |m.ooseq| ==> m.ooseq[i].TcpEnd() <= top
  }

  lemma DrainOneReaches(m: Pcb, top: int)
    requires m.ooseq != [] && m.ooseq[0].seqno == m.rcvNxt && Reaches(m, top)
    ensures Reaches(DrainOne(m), top) && m.rcvNxt <= DrainOne(m).rcvNxt && DrainOne(m).annEdge == m.annEdge
  {
  }

  lemma CollectingNear(m: Pcb, stream: seq<byte>)
    requires Collecting(m, stream)
    ensures Near(m.ooseq, m.rcvNxt)
  {
  }

  lemma DrainStep(m: Pcb)
    requires m.ooseq != [] && m.ooseq[0].seqno == m.rcvNxt
    ensures Drain(m) == Drain(DrainOne(m))
  {
  }

  lemma DrainEnd(m: Pcb)
    requires m.ooseq == [] || m.ooseq[0].seqno != m.rcvNxt
    ensures Drain(m) == m
  {
  }

  lemma ConsumeState(p: Pcb, c: Segment)
    ensures TcpReceiveSpec.Consume(p, c).state == p.state
  {
  }

  lemma FrontMatches(base: int, m: Pcb)
    requires m.ooseq != [] && Near(m.ooseq, m.rcvNxt)
    ensures Words(m.ooseq, base)[0].seqno == U32(base + m.rcvNxt) <==> m.ooseq[0].seqno == m.rcvNxt
  {
    Order(base, m.ooseq[0].seqno, m.rcvNxt);
    Order(base, m.rcvNxt, m.rcvNxt);
  }

  lemma Distance(base: int, x: int, y: int)
    requires 0 <= x - y < TWO32
    ensures U32(U32(base + x) - U32(base + y)) == x - y
  {
    U32Sub(base + x, base + y);
  }
}
