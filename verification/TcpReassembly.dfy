/**
 The out-of-order queue of a TCP connection (pcb->ooseq), over unbounded stream positions.

 A segment's `seqno` is the position of its first octet in the peer's byte stream; the
 module TcpReceive runs the same steps on 32-bit words and is proved against the functions here.
 */
module TcpReassembly {
  import opened Bytes

  /** The longest payload of one segment for which the trimming offset stays below 0x7fff. */
  const MAX_PAYLOAD := 0x7ffe
  /** Receive windows are 16 bits wide. */
  const MAX_WINDOW := 0xffff

  datatype Segment = Segment(seqno: int, data: seq<byte>, fin: bool) {
    function End(): int { seqno + |data| }

    /** TCP_TCPLEN: the FIN takes one sequence number. */
    function TcpLen(): int { |data| + if fin then 1 else 0 }

    function TcpEnd(): int { seqno + TcpLen() }

    predicate Has(i: int) { seqno <= i < End() }

    /** pbuf_realloc to `n` octets together with the matching change of `len`. */
    function Take(n: int): Segment {
      if 0 <= n <= |data| then this.(data := data[..n]) else this
    }

    /** Drop the octets at and above position `at`. */
    function CutAt(at: int): Segment {
      if End() > at then Take(at - seqno) else this
    }

    /** Trim to the right edge of the window; the FIN is the first thing to go. */
    function FitWindow(edge: int): Segment {
      if TcpEnd() > edge then Take(edge - seqno).(fin := false) else this
    }

    /** Trim the leading edge to position `at`. */
    function DropTo(at: int): Segment {
      if 0 <= at - seqno <= |data| then Segment(at, data[at - seqno..], fin) else this
    }

    /** The segment is cut from `stream`, whose FIN follows the last octet. */
    ghost predicate CutFrom(stream: seq<byte>) {
      && 0 <= seqno
      && End() <= |stream|
      && data == stream[seqno..End()]
      && (fin ==> End() == |stream|)
    }
  }

  // ----- The queue invariant

  /** Strictly ascending, disjoint, no empty element, FIN only at the end. */
  ghost predicate Ordered(q: seq<Segment>) {
    && (forall i :: 0 <= i < |q| ==> 0 < q[i].TcpLen())
    && (forall i :: 0 <= i < |q| - 1 ==> !q[i].fin)
    && (forall i, j :: 0 <= i < j < |q| ==> q[i].End() <= q[j].seqno)
  }

  /** Every element starts in [lo, lo + MAX_WINDOW] and has a bounded payload. */
  ghost predicate Near(q: seq<Segment>, lo: int) {
    forall i :: 0 <= i < |q| ==> lo <= q[i].seqno <= lo + MAX_WINDOW && |q[i].data| <= MAX_PAYLOAD
  }

  /** Every element starts strictly above `nxt`. */
  ghost predicate Beyond(q: seq<Segment>, nxt: int) {
    forall i :: 0 <= i < |q| ==> nxt < q[i].seqno
  }

  ghost predicate AllCutFrom(q: seq<Segment>, stream: seq<byte>) {
    forall i :: 0 <= i < |q| ==> q[i].CutFrom(stream)
  }

  /** No element reaches past the right edge of the window. */
  ghost predicate InsideWindow(q: seq<Segment>, edge: int) {
    forall i :: 0 <= i < |q| ==> q[i].TcpEnd() <= edge
  }

  /** The invariant of pcb->ooseq between calls, with rcv_nxt at `nxt`. */
  ghost predicate QueueInv(q: seq<Segment>, nxt: int, stream: seq<byte>) {
    Ordered(q) && AllCutFrom(q, stream) && Near(q, nxt) && Beyond(q, nxt)
  }

  /** Position `i` is buffered. */
  ghost predicate Buffered(q: seq<Segment>, i: int) {
    exists k :: 0 <= k < |q| && q[k].Has(i)
  }

  // ----- Insertion

  /** How many leading elements end at or below `end`. */
  function Covered(q: seq<Segment>, end: int): (k: nat)
    ensures k <= |q|
    ensures forall i :: 0 <= i < k ==> q[i].End() <= end
    ensures k < |q| ==> end < q[k].End()
  {
    if q != [] && q[0].End() <= end then 1 + Covered(q[1..], end) else 0
  }

  /** How many leading elements start below `at`. */
  function Below(q: seq<Segment>, at: int): (k: nat)
    ensures k <= |q|
    ensures forall i :: 0 <= i < k ==> q[i].seqno < at
    ensures k < |q| ==> at <= q[k].seqno
  {
    if q != [] && q[0].seqno < at then 1 + Below(q[1..], at) else 0
  }

  /** A segment without FIN after the elements of `q` that it covers are merged into it. */
  function Front(c: Segment, q: seq<Segment>): Segment {
    var k := Covered(q, c.End());
    if k < |q| && q[k].seqno < c.End() then c.Take(q[k].seqno - c.seqno)
    else c.(fin := exists i :: 0 <= i < k && q[i].fin)
  }

  /** tcp_oos_insert_segment: put `c` before `q`, dropping what it covers. */
  function Insert(c: Segment, q: seq<Segment>): seq<Segment> {
    if c.fin then [c] else [Front(c, q)] + q[Covered(q, c.End())..]
  }

  /** The first `k` elements, the last of them cut off at `at`. */
  function Head(q: seq<Segment>, k: nat, at: int): seq<Segment>
    requires k <= |q|
  {
    if k == 0 then [] else q[..k - 1] + [q[k - 1].CutAt(at)]
  }

  /**
   The placement of an out-of-order segment; `alloc` is the outcome of tcp_seg_copy. A segment
   that starts where an element starts replaces it only when it is longer. Only a segment
   that goes to the very end is trimmed to the window.
   */
  function Enqueue(q: seq<Segment>, c: Segment, edge: int, alloc: bool): seq<Segment> {
    var k := Below(q, c.seqno);
    if !alloc then q
    else if q == [] then [c]
    else if k == |q| then
      if q[k - 1].fin then q else Head(q, k, c.seqno) + [c.FitWindow(edge)]
    else if q[k].seqno == c.seqno && |c.data| <= |q[k].data| then q
    else Head(q, k, c.seqno) + Insert(c, q[k..])
  }

  lemma FrontIsCut(c: Segment, q: seq<Segment>, stream: seq<byte>)
    requires Ordered(q) && AllCutFrom(q, stream)
    requires c.CutFrom(stream) && !c.fin && 0 < |c.data|
    requires forall i :: 0 <= i < |q| ==> c.seqno <= q[i].seqno
    requires q != [] && q[0].seqno == c.seqno ==> |q[0].data| <= |c.data|
    ensures Front(c, q).CutFrom(stream) && 0 < |Front(c, q).data| <= |c.data|
    ensures Front(c, q).seqno == c.seqno
    ensures var k := Covered(q, c.End());
            && (k < |q| ==> !Front(c, q).fin && Front(c, q).End() <= q[k].seqno)
            && Front(c, q).End() == (if k < |q| then Min(c.End(), q[k].seqno) else c.End())
  {
    var k := Covered(q, c.End());
    if k < |q| {
      assert c.seqno < q[k].seqno by {
        if q[k].seqno == c.seqno {
          assert k == 0 || q[0].End() <= q[k].seqno;
          if k > 0 { assert 0 < q[0].TcpLen(); }
        }
      }
      forall i | 0 <= i < k ensures !q[i].fin {}
    }
    if i :| 0 <= i < k && q[i].fin {
      assert q[i].CutFrom(stream);
      assert c.End() == |stream|;
    }
  }

  /** `c` may be put before `q`: it starts no later, and is no shorter than an element it meets at its start. */
  ghost predicate Insertable(c: Segment, q: seq<Segment>, stream: seq<byte>) {
    && Ordered(q) && AllCutFrom(q, stream)
    && c.CutFrom(stream) && 0 < c.TcpLen()
    && (forall i :: 0 <= i < |q| ==> c.seqno <= q[i].seqno)
    && (q != [] && q[0].seqno == c.seqno ==> |q[0].data| <= |c.data|)
  }

  /** Two ordered queues, the first entirely below the second, form one. */
  lemma OrderedJoin(a: seq<Segment>, b: seq<Segment>)
    requires Ordered(a) && Ordered(b)
    requires b != [] ==> forall i :: 0 <= i < |a| ==> !a[i].fin
    requires forall i, j :: 0 <= i < |a| && 0 <= j < |b| ==> a[i].End() <= b[j].seqno
    ensures Ordered(a + b)
  {
    var r := a + b;
    forall i, j | 0 <= i < j < |r| ensures r[i].End() <= r[j].seqno {
      if j < |a| { assert r[i] == a[i] && r[j] == a[j]; }
      else if i < |a| { assert r[i] == a[i] && r[j] == b[j - |a|]; }
      else { assert r[i] == b[i - |a|] && r[j] == b[j - |a|]; }
    }
  }

  /** What follows element `k` starts no lower than it does. */
  lemma SuffixKeeps(q: seq<Segment>, k: nat, stream: seq<byte>)
    requires Ordered(q) && AllCutFrom(q, stream) && k <= |q|
    ensures Ordered(q[k..]) && AllCutFrom(q[k..], stream)
    ensures forall i :: 0 <= i < |q[k..]| ==> q[k].seqno <= q[k..][i].seqno && q[k..][i] in q
  {
    var r := q[k..];
    assert forall i :: 0 <= i < |r| ==> r[i] == q[k + i];
    forall i | 0 <= i < |r| ensures q[k].seqno <= r[i].seqno {
      if i > 0 { assert q[k].End() <= q[k + i].seqno; }
    }
    forall i, j | 0 <= i < j < |r| ensures r[i].End() <= r[j].seqno { assert q[k + i].End() <= q[k + j].seqno; }
  }

  lemma OrderedOne(c: Segment)
    requires 0 < c.TcpLen()
    ensures Ordered([c])
  {
  }

  lemma InsertIs(c: Segment, q: seq<Segment>)
    ensures Insert(c, q) == if c.fin then [c] else [Front(c, q)] + q[Covered(q, c.End())..]
  {
  }

  lemma AllCutJoin(a: seq<Segment>, b: seq<Segment>, stream: seq<byte>)
    requires AllCutFrom(a, stream) && AllCutFrom(b, stream)
    ensures AllCutFrom(a + b, stream)
  {
  }

  lemma AllCutOne(c: Segment, stream: seq<byte>)
    requires c.CutFrom(stream)
    ensures AllCutFrom([c], stream)
  {
  }

  lemma InsertKeepsOrder(c: Segment, q: seq<Segment>, stream: seq<byte>)
    requires Insertable(c, q, stream)
    ensures Ordered(Insert(c, q)) && AllCutFrom(Insert(c, q), stream)
    ensures Insert(c, q) != [] && Insert(c, q)[0].seqno == c.seqno && |Insert(c, q)[0].data| <= |c.data|
    ensures forall i :: 0 < i < |Insert(c, q)| ==> Insert(c, q)[i] in q
  {
    hide Ordered, AllCutFrom, Insert, Front, Segment.CutFrom;
    InsertIs(c, q);
    if c.fin {
      OrderedOne(c);
      AllCutOne(c, stream);
    } else {
      FrontIsCut(c, q, stream);
      var k := Covered(q, c.End());
      var f := Front(c, q);
      OrderedOne(f);
      AllCutOne(f, stream);
      SuffixKeeps(q, k, stream);
      OrderedJoin([f], q[k..]);
      AllCutJoin([f], q[k..], stream);
    }
  }

  lemma BufferedJoin(a: seq<Segment>, b: seq<Segment>, i: int)
    ensures Buffered(a + b, i) <==> Buffered(a, i) || Buffered(b, i)
  {
    if k :| 0 <= k < |a + b| && (a + b)[k].Has(i) {
      if k < |a| { assert a[k].Has(i); } else { assert b[k - |a|].Has(i); }
    }
    if k :| 0 <= k < |a| && a[k].Has(i) { assert (a + b)[k].Has(i); }
    if k :| 0 <= k < |b| && b[k].Has(i) { assert (a + b)[|a| + k].Has(i); }
  }

  lemma BufferedOne(c: Segment, i: int)
    ensures Buffered([c], i) <==> c.Has(i)
  {
    assert [c][0].Has(i) <==> c.Has(i);
  }

  /** The elements that are merged into `c` hold none but its positions. */
  lemma CoveredInside(c: Segment, q: seq<Segment>, k: nat, i: int)
    requires k <= |q| && (forall m :: 0 <= m < k ==> c.seqno <= q[m].seqno && q[m].End() <= c.End()) && Buffered(q[..k], i)
    ensures c.Has(i)
  {
    var m :| 0 <= m < |q[..k]| && q[..k][m].Has(i);
    assert q[..k][m] == q[m];
  }

  /** `f` stands for `c` cut short where element `k` starts, and for the elements before it. */
  lemma FrontBuffers(c: Segment, f: Segment, q: seq<Segment>, k: nat, i: int)
    requires k <= |q| && f.seqno == c.seqno && f.End() == if k < |q| then Min(c.End(), q[k].seqno) else c.End()
    requires (forall m :: 0 <= m < k ==> c.seqno <= q[m].seqno && q[m].End() <= c.End()) && (k < |q| ==> c.End() < q[k].End())
    ensures Buffered([f] + q[k..], i) <==> c.Has(i) || Buffered(q, i)
  {
    hide Buffered;
    BufferedJoin([f], q[k..], i);
    BufferedOne(f, i);
    BufferedJoin(q[..k], q[k..], i);
    Rejoin(q, k);
    if Buffered(q[..k], i) { CoveredInside(c, q, k, i); }
    if c.Has(i) && !f.Has(i) { BufferedAt(q[k..], 0, i); }
  }

  lemma FinBuffers(c: Segment, q: seq<Segment>, stream: seq<byte>, i: int)
    requires Insertable(c, q, stream) && c.fin
    ensures Buffered([c], i) <==> c.Has(i) || Buffered(q, i)
  {
    if k :| 0 <= k < |q| && q[k].Has(i) { assert q[k].CutFrom(stream); }
    BufferedOne(c, i);
  }

  /** After insertion the buffered positions are those of `c` and those of `q`, no more and no fewer. */
  lemma InsertBuffers(c: Segment, q: seq<Segment>, stream: seq<byte>, i: int)
    requires Insertable(c, q, stream)
    ensures Buffered(Insert(c, q), i) <==> c.Has(i) || Buffered(q, i)
  {
    InsertIs(c, q);
    if c.fin {
      FinBuffers(c, q, stream, i);
    } else {
      hide Ordered, AllCutFrom, Insert, Front, Buffered, Segment.CutFrom, Segment.Has;
      FrontIsCut(c, q, stream);
      FrontBuffers(c, Front(c, q), q, Covered(q, c.End()), i);
    }
  }

  lemma BufferedAt(q: seq<Segment>, k: nat, i: int)
    requires k < |q| && q[k].Has(i)
    ensures Buffered(q, i)
  {
  }

  lemma HeadKeeps(q: seq<Segment>, k: nat, at: int, stream: seq<byte>)
    requires Ordered(q) && AllCutFrom(q, stream)
    requires k <= |q| && forall i :: 0 <= i < k ==> q[i].seqno < at
    requires k == |q| && k > 0 ==> !q[k - 1].fin
    ensures Ordered(Head(q, k, at)) && AllCutFrom(Head(q, k, at), stream) && |Head(q, k, at)| == k
    ensures forall i :: 0 <= i < k ==>
              var h := Head(q, k, at)[i];
              && !h.fin && h.End() <= at && h.End() <= q[i].End()
              && h.seqno == q[i].seqno && |h.data| <= |q[i].data|
  {
    if k > 0 {
      var h := q[k - 1].CutAt(at);
      assert h.CutFrom(stream);
      OrderedJoin(q[..k - 1], [h]);
    }
  }

  lemma HeadBuffers(q: seq<Segment>, k: nat, at: int, i: int)
    requires Ordered(q)
    requires k <= |q| && forall j :: 0 <= j < k ==> q[j].seqno < at
    ensures Buffered(Head(q, k, at), i) <==> Buffered(q[..k], i) && i < at
  {
    if k > 0 {
      BufferedJoin(q[..k - 1], [q[k - 1].CutAt(at)], i);
      BufferedJoin(q[..k - 1], [q[k - 1]], i);
      BufferedOne(q[k - 1], i);
      BufferedOne(q[k - 1].CutAt(at), i);
      assert q[..k] == q[..k - 1] + [q[k - 1]];
      var p := q[..k - 1];
      if m :| 0 <= m < |p| && p[m].Has(i) { assert i < q[k - 1].seqno; }
    }
  }

  /** What the receive path guarantees of the queue and of the segment it is about to place. */
  ghost predicate Queueable(q: seq<Segment>, c: Segment, nxt: int, edge: int, stream: seq<byte>) {
    && QueueInv(q, nxt, stream)
    && c.CutFrom(stream) && 0 < c.TcpLen() && |c.data| <= MAX_PAYLOAD
    && nxt < c.seqno < edge <= nxt + MAX_WINDOW
  }

  lemma PlacementIsInsertable(q: seq<Segment>, c: Segment, nxt: int, edge: int, stream: seq<byte>)
    requires Queueable(q, c, nxt, edge, stream)
    ensures var k := Below(q, c.seqno);
            k < |q| && !(q[k].seqno == c.seqno && |c.data| <= |q[k].data|) ==> Insertable(c, q[k..], stream)
  {
    var k := Below(q, c.seqno);
    hide Ordered, AllCutFrom, Segment.CutFrom;
    SuffixKeeps(q, k, stream);
  }

  /** The segment goes behind all elements. */
  lemma EnqueueLast(q: seq<Segment>, c: Segment, edge: int)
    requires q != [] && Below(q, c.seqno) == |q| && !q[|q| - 1].fin
    ensures Enqueue(q, c, edge, true) == Head(q, |q|, c.seqno) + [c.FitWindow(edge)]
  {
    hide Head;
  }

  lemma QueueJoin(a: seq<Segment>, b: seq<Segment>, nxt: int, at: int, stream: seq<byte>)
    requires QueueInv(a, nxt, stream) && QueueInv(b, nxt, stream)
    requires forall i :: 0 <= i < |a| ==> !a[i].fin && a[i].End() <= at
    requires forall j :: 0 <= j < |b| ==> at <= b[j].seqno
    ensures QueueInv(a + b, nxt, stream)
  {
    OrderedJoin(a, b);
  }

  lemma HeadIsQueue(q: seq<Segment>, k: nat, at: int, nxt: int, stream: seq<byte>)
    requires QueueInv(q, nxt, stream)
    requires k <= |q| && forall i :: 0 <= i < k ==> q[i].seqno < at
    requires k == |q| && k > 0 ==> !q[k - 1].fin
    ensures QueueInv(Head(q, k, at), nxt, stream) && |Head(q, k, at)| == k
    ensures forall i :: 0 <= i < k ==> !Head(q, k, at)[i].fin && Head(q, k, at)[i].End() <= at
  {
    HeadKeeps(q, k, at, stream);
    assert forall i :: 0 <= i < k ==> Head(q, k, at)[i].seqno == q[i].seqno;
  }

  lemma InsertIsQueue(q: seq<Segment>, c: Segment, nxt: int, stream: seq<byte>)
    requires QueueInv(q, nxt, stream) && Insertable(c, q, stream)
    requires |c.data| <= MAX_PAYLOAD && nxt < c.seqno <= nxt + MAX_WINDOW
    ensures QueueInv(Insert(c, q), nxt, stream)
    ensures forall j :: 0 <= j < |Insert(c, q)| ==> c.seqno <= Insert(c, q)[j].seqno
  {
    InsertKeepsOrder(c, q, stream);
    var r := Insert(c, q);
    forall j | 0 < j < |r|
      ensures c.seqno <= r[j].seqno && nxt < r[j].seqno <= nxt + MAX_WINDOW && |r[j].data| <= MAX_PAYLOAD
    {
      assert r[j] in q;
    }
  }

  lemma FitWindowIsQueue(c: Segment, nxt: int, edge: int, stream: seq<byte>)
    requires Queueable([], c, nxt, edge, stream)
    ensures QueueInv([c.FitWindow(edge)], nxt, stream) && c.FitWindow(edge).seqno == c.seqno
  {
    assert c.FitWindow(edge).CutFrom(stream);
  }

  lemma TailKeeps(q: seq<Segment>, c: Segment, nxt: int, edge: int, stream: seq<byte>)
    requires QueueInv(q, nxt, stream) && Queueable([], c, nxt, edge, stream)
    requires q != [] && Below(q, c.seqno) == |q| && !q[|q| - 1].fin
    ensures QueueInv(Head(q, |q|, c.seqno) + [c.FitWindow(edge)], nxt, stream)
  {
    hide *;
    HeadIsQueue(q, |q|, c.seqno, nxt, stream);
    FitWindowIsQueue(c, nxt, edge, stream);
    QueueJoin(Head(q, |q|, c.seqno), [c.FitWindow(edge)], nxt, c.seqno, stream);
  }

  lemma InnerKeeps(q: seq<Segment>, k: nat, c: Segment, nxt: int, stream: seq<byte>)
    requires QueueInv(q, nxt, stream) && k < |q| && forall i :: 0 <= i < k ==> q[i].seqno < c.seqno
    requires Insertable(c, q[k..], stream)
    requires |c.data| <= MAX_PAYLOAD && nxt < c.seqno <= nxt + MAX_WINDOW
    ensures QueueInv(Head(q, k, c.seqno) + Insert(c, q[k..]), nxt, stream)
  {
    assert QueueInv(q[k..], nxt, stream);
    hide *;
    HeadIsQueue(q, k, c.seqno, nxt, stream);
    InsertIsQueue(q[k..], c, nxt, stream);
    QueueJoin(Head(q, k, c.seqno), Insert(c, q[k..]), nxt, c.seqno, stream);
  }

  /** Every placement keeps the queue sorted, disjoint, FIN-last, above rcv_nxt and cut from the stream. */
  lemma EnqueueKeeps(q: seq<Segment>, c: Segment, nxt: int, edge: int, alloc: bool, stream: seq<byte>)
    requires Queueable(q, c, nxt, edge, stream)
    ensures QueueInv(Enqueue(q, c, edge, alloc), nxt, stream)
  {
    var k := Below(q, c.seqno);
    if alloc && q != [] {
      if k == |q| {
        if !q[k - 1].fin { TailKeeps(q, c, nxt, edge, stream); }
      } else if !(q[k].seqno == c.seqno && |c.data| <= |q[k].data|) {
        PlacementIsInsertable(q, c, nxt, edge, stream);
        InnerKeeps(q, k, c, nxt, stream);
      }
    }
  }

  /** Octets past the end of `c` in an element that starts below `c` and reaches into it. */
  ghost predicate CutOff(q: seq<Segment>, c: Segment, i: int) {
    exists k :: 0 <= k < |q| && q[k].Has(i) && q[k].seqno < c.seqno < q[k].End() && c.End() <= i && !q[k].fin
  }

  /** The part of `c` that is kept: everything, unless it goes to the end of the queue and overruns the window. */
  function Kept(q: seq<Segment>, c: Segment, edge: int): Segment {
    if q != [] && Below(q, c.seqno) == |q| && !q[|q| - 1].fin then c.FitWindow(edge) else c
  }

  lemma CutOffIsTail(q: seq<Segment>, k: nat, c: Segment, i: int)
    requires Ordered(q) && k <= |q|
    requires forall j :: 0 <= j < k ==> q[j].seqno < c.seqno
    requires forall j :: k <= j < |q| ==> c.seqno <= q[j].seqno
    requires k == |q| && k > 0 ==> !q[k - 1].fin
    ensures CutOff(q, c, i) <==> Buffered(q[..k], i) && c.End() <= i
    ensures CutOff(q, c, i) ==> !Buffered(q[k..], i)
  {
    if m :| 0 <= m < |q| && q[m].Has(i) && q[m].seqno < c.seqno < q[m].End() && c.End() <= i && !q[m].fin {
      assert m < k && q[..k][m].Has(i);
      forall j | 0 <= j < |q[k..]| ensures !q[k..][j].Has(i) {
        assert q[m].End() <= q[k + j].seqno;
      }
    }
    var p := q[..k];
    if m :| 0 <= m < |p| && p[m].Has(i) {
      assert q[m].Has(i);
    }
  }

  lemma SameStart(q: seq<Segment>, k: nat, c: Segment, i: int)
    requires Ordered(q) && k < |q| && q[k].seqno == c.seqno && |c.data| <= |q[k].data|
    ensures !CutOff(q, c, i) && (c.Has(i) ==> Buffered(q, i))
  {
    assert c.Has(i) ==> q[k].Has(i);
  }

  lemma BehindFin(q: seq<Segment>, c: Segment, stream: seq<byte>, i: int)
    requires Ordered(q) && AllCutFrom(q, stream) && c.CutFrom(stream)
    requires q != [] && q[|q| - 1].fin && q[|q| - 1].seqno < c.seqno
    ensures !CutOff(q, c, i) && (c.Has(i) ==> Buffered(q, i))
  {
    var last := q[|q| - 1];
    assert last.CutFrom(stream);
    assert c.Has(i) ==> last.Has(i);
  }

  lemma BelowSplits(q: seq<Segment>, at: int)
    requires Ordered(q)
    ensures var k := Below(q, at); forall j :: k <= j < |q| ==> at <= q[j].seqno
  {
    var k := Below(q, at);
    forall j | k <= j < |q| ensures at <= q[j].seqno {
      assert j > k ==> q[k].End() <= q[j].seqno;
    }
  }

  /**
   Which octets are buffered after a placement: those of the segment, and all those buffered
   before except the tail of an element that enclosed the segment.
   */
  lemma EnqueueBuffers(q: seq<Segment>, c: Segment, nxt: int, edge: int, stream: seq<byte>, i: int)
    requires Queueable(q, c, nxt, edge, stream)
    ensures var kept := Kept(q, c, edge);
            Buffered(Enqueue(q, c, edge, true), i) <==> kept.Has(i) || (Buffered(q, i) && !CutOff(q, kept, i))
  {
    var k := Below(q, c.seqno);
    BelowSplits(q, c.seqno);
    if q == [] {
      BufferedOne(c, i);
    } else if k == |q| {
      if q[k - 1].fin {
        BehindFin(q, c, stream, i);
      } else {
        TailBuffers(q, c, c.FitWindow(edge), i);
      }
    } else if q[k].seqno == c.seqno && |c.data| <= |q[k].data| {
      SameStart(q, k, c, i);
    } else {
      PlacementIsInsertable(q, c, nxt, edge, stream);
      InnerBuffers(q, k, c, stream, i);
    }
  }

  lemma TailBuffers(q: seq<Segment>, c: Segment, kept: Segment, i: int)
    requires Ordered(q) && q != [] && !q[|q| - 1].fin && kept.seqno == c.seqno
    requires forall j :: 0 <= j < |q| ==> q[j].seqno < c.seqno
    ensures Buffered(Head(q, |q|, c.seqno) + [kept], i) <==> kept.Has(i) || (Buffered(q, i) && !CutOff(q, kept, i))
  {
    CutOffIsTail(q, |q|, kept, i);
    HeadBuffers(q, |q|, c.seqno, i);
    assert q[..|q|] == q;
    assert kept.Has(i) <==> !(i < c.seqno) && !(kept.End() <= i);
    hide *;
    BufferedJoin(Head(q, |q|, c.seqno), [kept], i);
    BufferedOne(kept, i);
  }

  lemma HasIs(c: Segment, i: int)
    ensures (c.Has(i) <==> !(i < c.seqno) && !(c.End() <= i)) && c.seqno <= c.End()
  {
  }

  lemma InnerBuffers(q: seq<Segment>, k: nat, c: Segment, stream: seq<byte>, i: int)
    requires Ordered(q) && k < |q| && Insertable(c, q[k..], stream)
    requires forall j :: 0 <= j < k ==> q[j].seqno < c.seqno
    requires forall j :: k <= j < |q| ==> c.seqno <= q[j].seqno
    ensures Buffered(Head(q, k, c.seqno) + Insert(c, q[k..]), i) <==> c.Has(i) || (Buffered(q, i) && !CutOff(q, c, i))
  {
    hide *;
    HasIs(c, i);
    CutOffIsTail(q, k, c, i);
    HeadBuffers(q, k, c.seqno, i);
    InsertBuffers(c, q[k..], stream, i);
    Rejoin(q, k);
    BufferedJoin(q[..k], q[k..], i);
    BufferedJoin(Head(q, k, c.seqno), Insert(c, q[k..]), i);
  }

  // ----- The window

  /** The placements that do not add the segment as it came: it is not copied, or it is trimmed, or it is dropped. */
  ghost predicate Guarded(q: seq<Segment>, c: Segment, alloc: bool) {
    var k := Below(q, c.seqno);
    || !alloc
    || (q != [] && k == |q|)
    || (k < |q| && q[k].seqno == c.seqno && |c.data| <= |q[k].data|)
  }

  lemma InsertOverruns(c: Segment, q: seq<Segment>, edge: int, stream: seq<byte>)
    requires Insertable(c, q, stream) && InsideWindow(q, edge)
    ensures InsideWindow(Insert(c, q), edge) <==> c.TcpEnd() <= edge
  {
    var r := Insert(c, q);
    if c.fin {
      assert r[0] == c;
    } else {
      FrontIsCut(c, q, stream);
      var k := Covered(q, c.End());
      if c.TcpEnd() <= edge {
        if j :| 0 <= j < k && q[j].fin { assert q[j].CutFrom(stream) && q[j].TcpEnd() <= edge; }
      } else {
        assert k == |q|;
        assert r[0] == Front(c, q);
      }
    }
  }

  lemma InsideJoin(a: seq<Segment>, b: seq<Segment>, edge: int)
    ensures InsideWindow(a + b, edge) <==> InsideWindow(a, edge) && InsideWindow(b, edge)
  {
    if InsideWindow(a + b, edge) {
      forall i | 0 <= i < |a| ensures a[i].TcpEnd() <= edge { assert (a + b)[i] == a[i]; }
      forall i | 0 <= i < |b| ensures b[i].TcpEnd() <= edge { assert (a + b)[|a| + i] == b[i]; }
    }
  }

  lemma HeadInside(q: seq<Segment>, k: nat, at: int, edge: int, stream: seq<byte>)
    requires Ordered(q) && AllCutFrom(q, stream) && InsideWindow(q, edge)
    requires k <= |q| && forall i :: 0 <= i < k ==> q[i].seqno < at
    requires k == |q| && k > 0 ==> !q[k - 1].fin
    ensures InsideWindow(Head(q, k, at), edge)
  {
    HeadKeeps(q, k, at, stream);
  }

  lemma InnerInside(q: seq<Segment>, k: nat, c: Segment, edge: int, stream: seq<byte>)
    requires Ordered(q) && AllCutFrom(q, stream) && InsideWindow(q, edge)
    requires k < |q| && Insertable(c, q[k..], stream)
    requires forall j :: 0 <= j < k ==> q[j].seqno < c.seqno
    ensures InsideWindow(Head(q, k, c.seqno) + Insert(c, q[k..]), edge) <==> c.TcpEnd() <= edge
  {
    HeadInside(q, k, c.seqno, edge, stream);
    InsertOverruns(c, q[k..], edge, stream);
    hide *;
    InsideJoin(Head(q, k, c.seqno), Insert(c, q[k..]), edge);
  }

  /** A queue inside the window stays inside it exactly when the segment does or its placement is guarded. */
  lemma EnqueueInsideWindow(q: seq<Segment>, c: Segment, nxt: int, edge: int, alloc: bool, stream: seq<byte>)
    requires Queueable(q, c, nxt, edge, stream) && InsideWindow(q, edge)
    ensures InsideWindow(Enqueue(q, c, edge, alloc), edge) <==> c.TcpEnd() <= edge || Guarded(q, c, alloc)
  {
    var k := Below(q, c.seqno);
    if alloc && q == [] {
      assert Enqueue(q, c, edge, alloc)[0] == c;
    } else if alloc && k == |q| {
      if !q[k - 1].fin {
        HeadInside(q, k, c.seqno, edge, stream);
        InsideJoin(Head(q, k, c.seqno), [c.FitWindow(edge)], edge);
      }
    } else if !Guarded(q, c, alloc) {
      PlacementIsInsertable(q, c, nxt, edge, stream);
      InnerInside(q, k, c, edge, stream);
    }
  }
}
