/** Whole runs of the send path, and the shape its queues have when no fast retransmission is pending. */
module TcpSendRuns {
  import opened Bytes
  import opened TcpSendSpec
  import opened TcpSendQueues

  // ----- Unbroken queues

  ghost predicate Positive(q: seq<Seg>) {
    forall i :: 0 <= i < |q| ==> 0 < q[i].TcpLen()
  }

  lemma HeldPositive(p: Snd, out: seq<byte>)
    requires Held(p, out)
    ensures Positive(p.All())
  {
    forall i | 0 <= i < |p.All()| ensures 0 < p.All()[i].TcpLen() {
      var s := p.All()[i];
      assert s in p.unacked || s in p.unsent;
      assert s in multiset(p.unacked) || s in multiset(p.unsent);
      assert s in p.Bag();
      assert s.CutFrom(out, p.closed);
    }
  }

  lemma ChainedOrder(q: seq<Seg>, i: nat, j: nat)
    requires Chained(q) && Positive(q) && i < j < |q|
    ensures q[i].TcpEnd() <= q[j].seqno
    decreases j
  {
    assert q[j].seqno == q[j - 1].TcpEnd();
    if i < j - 1 {
      ChainedOrder(q, i, j - 1);
    }
  }

  lemma LastEndsLast(q: seq<Seg>, i: nat)
    requires Chained(q) && Positive(q) && i < |q|
    ensures q[i].TcpEnd() <= Last(q).TcpEnd()
  {
    if i < |q| - 1 { ChainedOrder(q, i, |q| - 1); }
  }

  /** An unbroken queue is sorted. */
  lemma ChainedSorted(q: seq<Seg>)
    requires Chained(q) && Positive(q)
    ensures Sorted(q)
  {
    forall i, j | 0 <= i < j < |q| ensures q[i].seqno < q[j].seqno { ChainedOrder(q, i, j); }
  }

  lemma ChainedJoin(a: seq<Seg>, b: seq<Seg>)
    ensures Chained(a + b) <==> Chained(a) && Chained(b) && (a != [] && b != [] ==> b[0].seqno == Last(a).TcpEnd())
  {
    var q := a + b;
    if Chained(q) {
      forall i, j | 0 <= i && j == i + 1 < |a| ensures a[j].seqno == a[i].TcpEnd() {
        assert q[j].seqno == q[i].TcpEnd();
      }
      forall i, j | 0 <= i && j == i + 1 < |b| ensures b[j].seqno == b[i].TcpEnd() {
        assert q[|a| + j].seqno == q[|a| + i].TcpEnd();
      }
      if a != [] && b != [] { assert q[|a|].seqno == q[|a| - 1].TcpEnd(); }
    }
  }

  // ----- What keeps the usual shape

  lemma SentGoesLast(a: seq<Seg>, b: seq<Seg>)
    requires Chained(a + b) && Positive(a + b) && b != []
    ensures ToUnacked(a, b[0]) == a + [b[0]] && a + [b[0]] + b[1..] == a + b
  {
    if a != [] {
      ChainedOrder(a + b, |a| - 1, |a|);
      assert (a + b)[|a| - 1] == Last(a) && (a + b)[|a|] == b[0];
      assert Last(a).seqno < b[0].seqno;
    }
    hide Chained;
    assert [b[0]] + b[1..] == b;
    Regroup(a, [b[0]], b[1..]);
  }

  /** In the usual shape tcp_output just moves the border between the two queues. */
  lemma NormalSend(p: Snd, out: seq<byte>)
    requires Normal(p, out) && Positive(p.All()) && p.unsent != []
    ensures SendOne(p).All() == p.All() && Normal(SendOne(p), out)
  {
    SentGoesLast(p.unacked, p.unsent);
    LastEndsLast(p.All(), |p.unacked|);
    assert p.All()[|p.unacked|] == p.unsent[0];
    assert SendOne(p).unacked == p.unacked + [p.unsent[0]];
    hide Chained, Positive;
  }

  lemma OldestGoesFirst(a: seq<Seg>, b: seq<Seg>)
    requires Chained(a + b) && Positive(a + b) && a != []
    ensures Place(b, a[0].seqno) == 0 && Place(a[1..], a[0].seqno) == 0
    ensures |a| > 1 ==> a[0].seqno < Last(a).seqno
    ensures a[0].TcpEnd() <= Last(a).TcpEnd()
  {
    var q := a + b;
    forall i | 0 < i < |q| ensures a[0].TcpEnd() <= q[i].seqno && a[0].seqno < q[i].seqno { ChainedOrder(q, 0, i); }
    assert b != [] ==> b[0] == q[|a|];
    assert |a| > 1 ==> a[1..][0] == q[1] && Last(a) == q[|a| - 1];
  }

  /** A fast retransmission that goes out is undone: both queues are as before. */
  lemma RexmitUndone(p: Snd, out: seq<byte>)
    requires Normal(p, out) && Positive(p.All()) && p.unacked != []
    ensures SendOne(Rexmit(p)) == p
  {
    var (s, rest) := (p.unacked[0], p.unacked[1..]);
    OldestGoesFirst(p.unacked, p.unsent);
    assert p.All()[0] == s;
    assert s.TcpLen() > 0;
    hide Chained, Positive;
    assert InsertSorted(p.unsent, s) == [s] + p.unsent;
    assert InsertSorted(rest, s) == p.unacked;
    assert rest != [] ==> Last(rest) == Last(p.unacked);
    assert ToUnacked(rest, s) == p.unacked;
    assert ([s] + p.unsent)[1..] == p.unsent;
  }

  lemma NormalRexmitRto(p: Snd, out: seq<byte>)
    requires Normal(p, out)
    ensures Normal(RexmitRto(p), out) && RexmitRto(p).All() == p.All()
  {
    RexmitRtoMoves(p);
    hide *;
    NormalIs(p, out);
    NormalIs(RexmitRto(p), out);
    RtoFields(p);
  }

  lemma RtoFields(p: Snd)
    ensures var q := RexmitRto(p);
            && q.unacked == [] && (q.unsent == [] ==> p.unsent == []) && q.oversize == p.oversize
            && q.lastack == p.lastack && q.nxt == p.nxt && q.closed == p.closed
  {
  }

  lemma ChainedMark(q: seq<Seg>, t: Seg)
    requires q != [] && Chained(q) && t.seqno == Last(q).seqno
    ensures Chained(q[|q| - 1 := t])
  {
  }

  lemma NormalSendFin(p: Snd, out: seq<byte>)
    requires Normal(p, out) && !p.closed && p.lbb == |out| && p.lastack <= |out|
    requires p.unsent != [] ==> !Last(p.unsent).fin
    requires p.All() != [] ==> Last(p.All()).End() == |out|
    ensures Normal(SendFin(p), out)
  {
    var (q, r) := (p.All(), SendFin(p).All());
    if p.unsent != [] {
      var t := Last(p.unsent).(fin := true);
      assert Last(p.unsent) == Last(q);
      assert r == q[|q| - 1 := t];
      ChainedMark(q, t);
    } else {
      var t := Seg(p.lbb, [], true, 1, false);
      assert r == q + [t];
      ChainedJoin(q, [t]);
    }
  }

  lemma FreshChained(news: seq<Seg>, at: int, bytes: seq<byte>, mss: int)
    requires Fresh(news, at, bytes, mss)
    ensures Chained(news)
    ensures news != [] ==> news[0].seqno == at && Last(news).TcpEnd() == at + |bytes| && at < news[0].TcpEnd()
    decreases |bytes|
  {
    if bytes != [] {
      var l := |news[0].data|;
      FreshChained(news[1..], at + l, bytes[l..], mss);
      assert news == [news[0]] + news[1..];
      ChainedJoin([news[0]], news[1..]);
    }
  }

  lemma WriteChained(a: seq<Seg>, front: seq<Seg>, s: Seg, t: Seg, news: seq<Seg>)
    requires Chained(a + (front + [s])) && t.seqno == s.seqno && Chained(news)
    requires news != [] ==> news[0].seqno == t.TcpEnd()
    ensures Chained(a + (front + [t]) + news)
  {
    hide Chained;
    Regroup(a, front, [s]);
    Regroup(a, front, [t]);
    ChainedJoin(a + front, [s]);
    ChainedJoin(a + front, [t]);
    ChainedJoin([s], []);
    ChainedOne(t);
    ChainedJoin(a + front + [t], news);
  }

  lemma ChainedOne(s: Seg)
    ensures Chained([s])
  {
  }

  /** In the usual shape tcp_write and tcp_send_fin go on where the application's stream ends. */
  lemma NormalContinues(p: Snd, out: seq<byte>)
    requires Normal(p, out) && Held(p, out) && !p.closed && p.unsent != []
    ensures Last(p.unsent).End() == |out| && !Last(p.unsent).fin
  {
    NewestInBag(p, out);
    assert Last(p.All()) == Last(p.unsent);
  }

  lemma WrittenLast(p: Snd, q: Snd, arg: seq<byte>, mss: int)
    requires Written(p, q, arg, mss) && p.unsent != []
    ensures var (n, k) := (Filled(p, arg, mss), |p.unsent|);
            && k <= |q.unsent| && q.unsent[..k] == p.unsent[..k - 1] + [q.unsent[k - 1]]
            && Last(p.unsent).seqno == q.unsent[k - 1].seqno && Last(p.unsent).fin == q.unsent[k - 1].fin
            && |q.unsent[k - 1].data| == |Last(p.unsent).data| + n
  {
    WrittenParts(p, q, arg, mss);
    hide Fresh, Written;
  }

  lemma FillsChained(a: seq<Seg>, b: seq<Seg>, t: Seg, news: seq<Seg>)
    requires b != [] && Chained(a + b) && t.seqno == Last(b).seqno && Last(b).TcpEnd() <= t.TcpEnd() && Chained(news)
    requires news != [] ==> news[0].seqno == t.TcpEnd()
    ensures var r := a + (b[..|b| - 1] + [t]) + news;
            && Chained(r) && (a + b)[0].TcpEnd() <= r[0].TcpEnd()
            && Last(r).TcpEnd() == if news == [] then t.TcpEnd() else Last(news).TcpEnd()
  {
    var front := b[..|b| - 1];
    assert b == front + [Last(b)];
    hide Chained;
    WriteChained(a, front, Last(b), t, news);
  }

  lemma NormalFills(p: Snd, q: Snd, arg: seq<byte>, mss: int, out: seq<byte>)
    requires Chained(p.All()) && p.lbb == |out| && Written(p, q, arg, mss) && p.unsent != []
    requires !Last(p.unsent).fin && Last(p.unsent).End() == |out| && p.lastack < p.All()[0].TcpEnd()
    ensures Chained(q.All()) && Last(q.All()).TcpEnd() == |out + arg| && p.lastack < q.All()[0].TcpEnd()
  {
    var (n, k) := (Filled(p, arg, mss), |p.unsent|);
    WrittenParts(p, q, arg, mss);
    WrittenLast(p, q, arg, mss);
    var news := q.unsent[k..];
    hide ExtendsLast, Written, Filled, Chained, Fresh, Snd.Bag;
    FreshChained(news, p.lbb + n, arg[n..], mss);
    assert news == [] ==> arg[n..] == [] by { FreshSums(news, p.lbb + n, arg[n..], mss); }
    FillsChained(p.unacked, p.unsent, q.unsent[k - 1], news);
    Rejoin(q.unsent, k);
    Regroup(p.unacked, q.unsent[..k], news);
  }

  lemma NormalWrite(p: Snd, q: Snd, arg: seq<byte>, mss: int, out: seq<byte>)
    requires Normal(p, out) && Held(p, out) && !p.closed && p.lbb == |out| && Written(p, q, arg, mss)
    requires q.unsent == [] ==> q.oversize == 0
    ensures Normal(q, out + arg)
  {
    if p.unsent != [] {
      NormalContinues(p, out);
      NormalFills(p, q, arg, mss, out);
    } else {
      WrittenParts(p, q, arg, mss);
      var news := q.unsent[0..];
      assert news == q.unsent && arg[0..] == arg;
      FreshChained(news, p.lbb, arg, mss);
      ChainedJoin(p.unacked, news);
      assert p.All() == p.unacked;
    }
  }

  // ----- Acknowledgements in the usual shape

  lemma ChainedTail(a: seq<Seg>, b: seq<Seg>)
    requires Chained(a + b) && Positive(a + b) && a != []
    ensures Chained(a[1..] + b) && Positive(a[1..] + b) && (a + b)[1..] == a[1..] + b && (a + b)[0] == a[0]
  {
    var (q, r) := (a + b, a[1..] + b);
    assert q[1..] == r;
    assert forall i :: 0 <= i < |r| ==> r[i] == q[i + 1];
    forall i, j | 0 <= i && j == i + 1 < |r| ensures r[j].seqno == r[i].TcpEnd() {
      var (k, l) := (i + 1, j + 1);
      assert q[l].seqno == q[k].TcpEnd();
    }
  }

  lemma DropStops(b: seq<Seg>, ackno: int)
    requires b != [] ==> ackno < b[0].TcpEnd()
    ensures DropAcked(b, ackno) == b
  {
  }

  lemma DropOn(b: seq<Seg>, ackno: int)
    requires b != [] && b[0].TcpEnd() <= ackno
    ensures DropAcked(b, ackno) == DropAcked(b[1..], ackno)
  {
  }

  lemma {:induction false} DropAckedJoin(a: seq<Seg>, b: seq<Seg>, ackno: int)
    requires Chained(a + b) && Positive(a + b)
    ensures DropAcked(a + b, ackno) == DropAcked(a, ackno) + DropAcked(b, ackno)
    decreases |a|
  {
    if a == [] {
      assert a + b == b;
    } else if a[0].TcpEnd() <= ackno {
      hide Chained, Positive, DropAcked;
      ChainedTail(a, b);
      DropOn(a, ackno);
      DropOn(a + b, ackno);
      DropAckedJoin(a[1..], b, ackno);
    } else {
      if b != [] {
        ChainedOrder(a + b, 0, |a|);
        assert b[0] == (a + b)[|a|];
        assert a[0] == (a + b)[0];
        assert b[0].TcpLen() > 0;
      }
      hide Chained, Positive, DropAcked;
      DropStops(a, ackno);
      DropStops(b, ackno);
      DropStops(a + b, ackno);
    }
  }

  lemma NormalAckAll(p: Snd, ackno: int, out: seq<byte>)
    requires Normal(p, out) && Positive(p.All())
    ensures Ack(p, ackno).All() == if p.lastack < ackno <= p.nxt then DropAcked(p.All(), ackno) else p.All()
  {
    hide Octets, Pbufs;
    if p.lastack < ackno <= p.nxt {
      DropAckedJoin(p.unacked, p.unsent, ackno);
    } else if ackno <= p.nxt {
      assert DropAcked(p.unsent, ackno) == p.unsent by {
        if p.unsent != [] {
          LastAtLeast(p.All(), |p.unacked|);
          assert p.unsent[0] == p.All()[|p.unacked|];
        }
      }
    }
  }

  lemma LastAtLeast(q: seq<Seg>, i: nat)
    requires Chained(q) && Positive(q) && i < |q|
    ensures q[0].TcpEnd() <= q[i].TcpEnd()
  {
    if i > 0 { ChainedOrder(q, 0, i); }
  }

  lemma DropChained(q: seq<Seg>, ackno: int)
    requires Chained(q)
    ensures Chained(DropAcked(q, ackno))
    ensures DropAcked(q, ackno) != [] ==> Last(DropAcked(q, ackno)) == Last(q)
    ensures DropAcked(q, ackno) != [] ==> DropAcked(q, ackno)[0].TcpEnd() > ackno
  {
    var d := |q| - |DropAcked(q, ackno)|;
    DropAckedIs(q, ackno);
    Rejoin(q, d);
    ChainedJoin(q[..d], q[d..]);
  }

  lemma AckFields(p: Snd, ackno: int)
    ensures var (q, acksNew) := (Ack(p, ackno), p.lastack < ackno <= p.nxt);
            && q.lastack == (if acksNew then ackno else p.lastack) && q.nxt == p.nxt && q.closed == p.closed
            && (q.unsent == [] ==> q.oversize == 0)
            && (q.unacked != [] ==> p.unacked != [] && Last(q.unacked) == Last(p.unacked))
  {
    hide Octets, Pbufs;
  }

  /** What Normal asks of the run that the two queues form. */
  ghost predicate RunTo(q: seq<Seg>, tail: int, lastack: int) {
    Chained(q) && (q != [] ==> Last(q).TcpEnd() == tail && lastack < q[0].TcpEnd())
  }

  lemma DropRunTo(q: seq<Seg>, ackno: int, tail: int, lastack: int)
    requires RunTo(q, tail, lastack)
    ensures RunTo(DropAcked(q, ackno), tail, ackno)
  {
    DropChained(q, ackno);
    hide Chained, DropAcked;
  }

  lemma NormalIs(p: Snd, out: seq<byte>)
    ensures Normal(p, out) <==>
      && RunTo(p.All(), Tail(out, p.closed), p.lastack) && (p.unacked != [] ==> Last(p.unacked).TcpEnd() <= p.nxt)
      && (p.unsent == [] ==> p.oversize == 0) && p.lastack <= p.nxt <= Tail(out, p.closed)
  {
    hide Chained;
  }

  lemma NormalAck(p: Snd, ackno: int, out: seq<byte>)
    requires Normal(p, out) && Positive(p.All())
    ensures Normal(Ack(p, ackno), out)
  {
    hide *;
    NormalIs(p, out);
    NormalIs(Ack(p, ackno), out);
    NormalAckAll(p, ackno, out);
    DropRunTo(p.All(), ackno, Tail(out, p.closed), p.lastack);
    AckFields(p, ackno);
  }

  lemma InTail(q: seq<Seg>, d: nat, ackno: int, s: Seg)
    requires Chained(q) && Positive(q) && d <= |q| && (d < |q| ==> q[d].TcpEnd() > ackno) && s in q[d..]
    ensures s.TcpEnd() > ackno
  {
    var i :| 0 <= i < |q[d..]| && q[d..][i] == s;
    assert q[d + i] == s;
    if i > 0 { ChainedOrder(q, d, d + i); }
  }

  lemma InHead(q: seq<Seg>, d: nat, ackno: int, s: Seg)
    requires d <= |q| && (forall i :: 0 <= i < d ==> q[i].TcpEnd() <= ackno) && s in q[..d]
    ensures s.TcpEnd() <= ackno
  {
  }

  lemma DropExactly(q: seq<Seg>, ackno: int, s: Seg)
    requires Chained(q) && Positive(q)
    ensures s in DropAcked(q, ackno) <==> s in q && s.TcpEnd() > ackno
  {
    var d := |q| - |DropAcked(q, ackno)|;
    DropAckedIs(q, ackno);
    hide DropAcked, Chained, Positive, Seg.TcpEnd;
    assert q == q[..d] + q[d..];
    if s in q[d..] { InTail(q, d, ackno, s); }
    if s in q[..d] { InHead(q, d, ackno, s); }
  }

  /** In the usual shape exactly the segments that an acknowledgement covers leave the queues. */
  lemma NormalAckExactly(p: Snd, ackno: int, out: seq<byte>, s: Seg)
    requires Normal(p, out) && Positive(p.All())
    ensures s in Ack(p, ackno).All() <==> s in p.All() && s.TcpEnd() > Ack(p, ackno).lastack
  {
    NormalAckAll(p, ackno, out);
    DropExactly(p.All(), ackno, s);
    if s in p.All() { AllUnacked(p.All(), s); }
    hide Chained, Positive, DropAcked, Ack, Last, Seg.TcpEnd, Snd.All;
    AckFields(p, ackno);
  }

  lemma AllUnacked(q: seq<Seg>, s: Seg)
    requires Chained(q) && Positive(q) && s in q
    ensures q[0].TcpEnd() <= s.TcpEnd()
  {
    var i :| 0 <= i < |q| && q[i] == s;
    LastAtLeast(q, i);
  }

  // ----- Runs

  /**
   What can happen to the send queues. A failed tcp_write changes nothing in them and is no event; the state
   after a successful one is part of the event, because how octets are held in memory depends on the heap.
   */
  datatype Event =
    | Write(arg: seq<byte>, after: Snd, mss: int)
    | Close
    | Transmit
    | FastRetransmit
    | FastRetransmitSent
    | Timeout
    | Acked(ackno: int)

  function Apply(p: Snd, e: Event): Snd {
    match e
    case Write(_, after, _) => after
    case Close => SendFin(p)
    case Transmit => if p.unsent == [] then p else SendOne(p)
    case FastRetransmit => Rexmit(p)
    case FastRetransmitSent => if Rexmit(p).unsent == [] then p else SendOne(Rexmit(p))
    case Timeout => RexmitRto(p)
    case Acked(ackno) => Ack(p, ackno)
  }

  function Said(e: Event): seq<byte> { if e.Write? then e.arg else [] }

  /** tcp_write and tcp_close are called before the connection is closed, and the event tells what they did. */
  ghost predicate Possible(p: Snd, e: Event) {
    match e
    case Write(arg, after, mss) => !p.closed && Written(p, after, arg, mss) && (after.unsent == [] ==> after.oversize == 0)
    case Close => !p.closed
    case _ => true
  }

  /** The segment that tcp_write or tcp_send_fin adds to, if any, is the newest. */
  ghost predicate Careful(p: Snd, e: Event, out: seq<byte>) {
    match e
    case Write(arg, _, mss) => Continues(p, arg, mss, out)
    case Close => p.unsent != [] ==> Last(p.unsent).End() == |out|
    case _ => true
  }

  lemma SendKeeps(p: Snd, out: seq<byte>, sndBuf: int)
    requires SendInv(p, out, sndBuf) && p.unsent != []
    ensures SendInv(SendOne(p), out, sndBuf)
  {
    assert p.unsent[0] in multiset(p.unsent) && p.unsent[0] in p.Bag();
    SendOneMoves(p);
    MoveKeeps(p, SendOne(p), out, sndBuf);
  }

  /** Every careful step keeps the queues exact and the accounts balanced. */
  lemma StepKeeps(p: Snd, e: Event, out: seq<byte>, sndBuf: int)
    requires SendInv(p, out, sndBuf) && Possible(p, e) && Careful(p, e, out)
    ensures SendInv(Apply(p, e), out + Said(e), sndBuf)
  {
    hide SendInv, Written, Continues, Held, Ack, SendOne, Rexmit, RexmitRto;
    assert !e.Write? ==> out + Said(e) == out;
    match e
    case Write(arg, after, mss) => WriteKeeps(p, after, arg, mss, out, sndBuf);
    case Close => CloseKeeps(p, out, sndBuf);
    case Transmit => if p.unsent != [] { SendKeeps(p, out, sndBuf); }
    case FastRetransmit => RexmitMoves(p); MoveKeeps(p, Rexmit(p), out, sndBuf);
    case FastRetransmitSent =>
      RexmitMoves(p);
      MoveKeeps(p, Rexmit(p), out, sndBuf);
      if Rexmit(p).unsent != [] { SendKeeps(Rexmit(p), out, sndBuf); }
    case Timeout => RexmitRtoMoves(p); MoveKeeps(p, RexmitRto(p), out, sndBuf);
    case Acked(ackno) => AckKeeps(p, ackno, out, sndBuf);
  }

  lemma CloseKeeps(p: Snd, out: seq<byte>, sndBuf: int)
    requires SendInv(p, out, sndBuf) && !p.closed && (p.unsent != [] ==> Last(p.unsent).End() == |out|)
    ensures SendInv(SendFin(p), out, sndBuf)
  {
    SendFinExactly(p, out);
    SendFinAccounts(p, sndBuf);
  }

  /** In the usual shape every possible step is careful, and all but a stuck fast retransmission keep the shape. */
  lemma NormalStep(p: Snd, e: Event, out: seq<byte>, sndBuf: int)
    requires SendInv(p, out, sndBuf) && Normal(p, out) && Possible(p, e)
    ensures Careful(p, e, out)
    ensures !e.FastRetransmit? ==> Normal(Apply(p, e), out + Said(e))
  {
    HeldPositive(p, out);
    assert !e.Write? ==> out + Said(e) == out;
    if !p.closed && p.unsent != [] { NormalContinues(p, out); }
    hide Written, Held, Ack, SendOne, Rexmit, RexmitRto, Normal, Accounted, SendFin;
    match e
    case Write(arg, after, mss) => NormalWrite(p, after, arg, mss, out);
    case Close => NormalClose(p, out, sndBuf);
    case Transmit => if p.unsent != [] { NormalSend(p, out); }
    case FastRetransmit =>
    case FastRetransmitSent => RexmitSent(p, out);
    case Timeout => NormalRexmitRto(p, out);
    case Acked(ackno) => NormalAck(p, ackno, out);
  }

  lemma RexmitSent(p: Snd, out: seq<byte>)
    requires Normal(p, out) && Positive(p.All())
    ensures Normal(Apply(p, FastRetransmitSent), out)
  {
    if p.unacked != [] {
      RexmitUndone(p, out);
    } else if p.unsent != [] {
      NormalSend(p, out);
    }
  }

  lemma NormalClose(p: Snd, out: seq<byte>, sndBuf: int)
    requires SendInv(p, out, sndBuf) && Normal(p, out) && !p.closed
    ensures Normal(SendFin(p), out)
  {
    if p.unsent != [] { NormalContinues(p, out); }
    if p.All() != [] {
      var s := Last(p.All());
      assert s in p.unacked || s in p.unsent;
      assert s in multiset(p.unacked) || s in multiset(p.unsent);
      assert s in p.Bag();
      assert s.CutFrom(out, p.closed);
    }
    NormalSendFin(p, out);
  }

  function Final(p: Snd, es: seq<Event>): Snd
    decreases |es|
  {
    if es == [] then p else Final(Apply(p, es[0]), es[1..])
  }

  function AllSaid(es: seq<Event>): seq<byte> {
    if es == [] then [] else Said(es[0]) + AllSaid(es[1..])
  }

  ghost predicate PossibleRun(p: Snd, es: seq<Event>)
    decreases |es|
  {
    es != [] ==> Possible(p, es[0]) && PossibleRun(Apply(p, es[0]), es[1..])
  }

  ghost predicate CarefulRun(p: Snd, es: seq<Event>, out: seq<byte>)
    decreases |es|
  {
    es != [] ==> Careful(p, es[0], out) && CarefulRun(Apply(p, es[0]), es[1..], out + Said(es[0]))
  }

  /**
   After every careful run each octet that the application wrote and the peer has not acknowledged is
   queued exactly once, at its own position, and snd_buf and snd_queuelen account for the queues.
   */
  lemma {:induction false} NothingForgotten(p: Snd, es: seq<Event>, out: seq<byte>, sndBuf: int)
    requires SendInv(p, out, sndBuf) && PossibleRun(p, es) && CarefulRun(p, es, out)
    ensures SendInv(Final(p, es), out + AllSaid(es), sndBuf)
    decreases |es|
  {
    if es == [] {
      assert out + AllSaid(es) == out;
    } else {
      hide SendInv, Possible, Careful, Apply, Said;
      StepKeeps(p, es[0], out, sndBuf);
      NothingForgotten(Apply(p, es[0]), es[1..], out + Said(es[0]), sndBuf);
      Regroup(out, Said(es[0]), AllSaid(es[1..]));
    }
  }

  /** Without a fast retransmission that gets stuck, every run is careful and ends in the usual shape. */
  lemma {:induction false} UsualRuns(p: Snd, es: seq<Event>, out: seq<byte>, sndBuf: int)
    requires SendInv(p, out, sndBuf) && Normal(p, out) && PossibleRun(p, es)
    requires forall i :: 0 <= i < |es| ==> !es[i].FastRetransmit?
    ensures CarefulRun(p, es, out) && Normal(Final(p, es), out + AllSaid(es))
    ensures SendInv(Final(p, es), out + AllSaid(es), sndBuf)
    decreases |es|
  {
    if es == [] {
      assert out + AllSaid(es) == out;
    } else {
      hide SendInv, Normal, Possible, Careful, Apply, Said;
      NormalStep(p, es[0], out, sndBuf);
      StepKeeps(p, es[0], out, sndBuf);
      UsualRuns(Apply(p, es[0]), es[1..], out + Said(es[0]), sndBuf);
      Regroup(out, Said(es[0]), AllSaid(es[1..]));
    }
  }

  function Transmits(n: nat): seq<Event> {
    if n == 0 then [] else [Transmit] + Transmits(n - 1)
  }

  lemma TransmitFirst(p: Snd, n: nat)
    requires p.unsent != [] && n > 0
    ensures Final(p, Transmits(n)) == Final(SendOne(p), Transmits(n - 1))
  {
    assert Transmits(n)[1..] == Transmits(n - 1);
  }

  // ----- What tcp_write asserts about its queue

  /** No segment is longer than `mss`, and the room behind the last one is room it really has. */
  ghost predicate Fits(p: Snd, mss: int) {
    TailFits(p, mss) && AllShort(p.unsent, mss) && AllShort(p.unacked, mss)
  }

  ghost predicate AllShort(q: seq<Seg>, mss: int) {
    forall i :: 0 <= i < |q| ==> |q[i].data| <= mss
  }

  lemma FreshShort(news: seq<Seg>, at: int, bytes: seq<byte>, mss: int)
    requires Fresh(news, at, bytes, mss)
    ensures AllShort(news, mss)
    decreases |bytes|
  {
    if bytes != [] {
      FreshShort(news[1..], at + |news[0].data|, bytes[|news[0].data|..], mss);
      assert news == [news[0]] + news[1..];
    }
  }

  lemma ExtendShort(a: seq<Seg>, b: seq<Seg>, more: seq<byte>, mss: int)
    requires ExtendsLast(a, b, more) && AllShort(a, mss) && (b != [] ==> |Last(b).data| <= mss)
    ensures AllShort(b, mss)
  {
    forall i | 0 <= i < |b| - 1 ensures b[i] == a[i] {
      assert a[..|a| - 1][i] == b[..|a| - 1][i];
    }
  }

  lemma RoomIsShort(p: Snd, q: Snd, arg: seq<byte>, mss: int)
    requires Fits(p, mss) && Written(p, q, arg, mss)
    ensures |p.unsent| <= |q.unsent| && (p.unsent != [] ==> |Last(q.unsent[..|p.unsent|]).data| <= mss)
  {
    hide Fresh;
  }

  lemma JoinShort(a: seq<Seg>, b: seq<Seg>, mss: int)
    requires AllShort(a, mss) && AllShort(b, mss)
    ensures AllShort(a + b, mss)
  {
  }

  lemma WriteFits(p: Snd, q: Snd, arg: seq<byte>, mss: int)
    requires Fits(p, mss) && Written(p, q, arg, mss) && TailFits(q, mss)
    ensures Fits(q, mss)
  {
    var (n, k) := (Filled(p, arg, mss), |p.unsent|);
    hide Fresh, Written, ExtendsLast, Filled, TailFits, AllShort, Last, Snd.Bag;
    WrittenParts(p, q, arg, mss);
    RoomIsShort(p, q, arg, mss);
    FreshShort(q.unsent[k..], p.lbb + n, arg[n..], mss);
    ExtendShort(p.unsent, q.unsent[..k], arg[..n], mss);
    JoinShort(q.unsent[..k], q.unsent[k..], mss);
    Rejoin(q.unsent, k);
  }

  /** The assertions about lengths and spare room in tcp_write hold in every run with one segment size limit. */
  lemma StepFits(p: Snd, e: Event, mss: int)
    requires 0 < mss && Fits(p, mss) && Possible(p, e)
    requires e.Write? ==> e.mss == mss && TailFits(e.after, mss)
    ensures Fits(Apply(p, e), mss)
  {
    hide Fits, Written, SendOne, Rexmit, RexmitRto, SendFin, Ack;
    match e
    case Write(arg, after, _) => WriteFits(p, after, arg, mss);
    case Close => CloseFits(p, mss);
    case Transmit => if p.unsent != [] { SendFits(p, mss); }
    case FastRetransmit => RexmitFits(p, mss);
    case FastRetransmitSent =>
      RexmitFits(p, mss);
      if Rexmit(p).unsent != [] { SendFits(Rexmit(p), mss); }
    case Timeout => TimeoutFits(p, mss);
    case Acked(ackno) => AckFits(p, ackno, mss);
  }

  lemma CloseFits(p: Snd, mss: int)
    requires 0 < mss && Fits(p, mss)
    ensures Fits(SendFin(p), mss)
  {
  }

  lemma TimeoutFits(p: Snd, mss: int)
    requires Fits(p, mss)
    ensures Fits(RexmitRto(p), mss)
  {
  }

  lemma AckFits(p: Snd, ackno: int, mss: int)
    requires Fits(p, mss)
    ensures Fits(Ack(p, ackno), mss)
  {
    hide Octets, Pbufs;
  }

  lemma InsertShort(q: seq<Seg>, s: Seg, mss: int)
    requires AllShort(q, mss) && |s.data| <= mss
    ensures AllShort(InsertSorted(q, s), mss) && AllShort(q + [s], mss)
  {
    var k := Place(q, s.seqno);
    assert AllShort(q[..k], mss) && AllShort(q[k..], mss) && AllShort([s], mss);
    hide AllShort, Place;
    JoinShort(q[..k], [s], mss);
    JoinShort(q[..k] + [s], q[k..], mss);
    JoinShort(q, [s], mss);
  }

  lemma TailShort(q: seq<Seg>, mss: int)
    requires AllShort(q, mss) && q != []
    ensures AllShort(q[1..], mss) && |q[0].data| <= mss
  {
  }

  lemma SendFits(p: Snd, mss: int)
    requires Fits(p, mss) && p.unsent != []
    ensures Fits(SendOne(p), mss)
  {
    TailShort(p.unsent, mss);
    InsertShort(p.unacked, p.unsent[0], mss);
    hide AllShort, InsertSorted;
  }

  lemma RexmitFits(p: Snd, mss: int)
    requires Fits(p, mss)
    ensures Fits(Rexmit(p), mss)
  {
    if p.unacked != [] {
      TailShort(p.unacked, mss);
      InsertShort(p.unsent, p.unacked[0], mss);
      hide AllShort;
    }
  }

  /** The limit does not shrink as the peer opens its window, unless it starts from a window below two octets. */
  lemma MssLocalGrows(mss: int, a: int, b: int)
    requires 0 < mss && 0 <= a <= b
    ensures MssLocal(mss, a) <= MssLocal(mss, b) <==> a >= 2 || b < 2 || mss <= b / 2
  {
  }

  /** The limit shrinks from 536 to 2 when a peer that offered one octet offers four. */
  lemma MssLocalShrinks()
    ensures MssLocal(536, 1) == 536 && MssLocal(536, 4) == 2
  {
  }
}
