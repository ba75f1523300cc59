/** The order of the send queues over whole runs: what keeps each of them sorted, and what does not. */
module TcpSendOrder {
  import opened Bytes
  import opened TcpSendSpec
  import opened TcpSendQueues
  import opened TcpSendRuns

  /** No segment of one queue starts where one of the other does. */
  ghost predicate Apart(a: seq<Seg>, b: seq<Seg>) {
    forall s, t :: s in a && t in b ==> s.seqno != t.seqno
  }

  /** Every segment starts below `at`. */
  ghost predicate Under(q: seq<Seg>, at: int) {
    forall s :: s in q ==> s.seqno < at
  }

  /** Both queues are sorted, no start is taken twice, and snd_lbb is above all of them. */
  ghost predicate InOrder(p: Snd) {
    Sorted(p.unacked) && Sorted(p.unsent) && Apart(p.unacked, p.unsent) && Under(p.unacked, p.lbb) && Under(p.unsent, p.lbb)
  }

  /** Everything unacked starts before everything unsent. */
  ghost predicate Ahead(p: Snd) {
    forall s, t :: s in p.unacked && t in p.unsent ==> s.seqno < t.seqno
  }

  // ----- Pieces of a step

  lemma InsertMembers(q: seq<Seg>, s: Seg, t: Seg)
    ensures t in InsertSorted(q, s) <==> t in q || t == s
  {
    var k := Place(q, s.seqno);
    assert q == q[..k] + q[k..];
  }

  lemma HeadIsLowest(q: seq<Seg>)
    requires Sorted(q) && q != []
    ensures Sorted(q[1..]) && forall t :: t in q[1..] ==> t in q && q[0].seqno < t.seqno
  {
    forall t | t in q[1..] ensures t in q && q[0].seqno < t.seqno {
      var i :| 0 <= i < |q[1..]| && q[1..][i] == t;
      assert q[i + 1] == t;
    }
  }

  /** The first segment of `b` goes to its place in `a`. */
  lemma HeadMovesSorted(a: seq<Seg>, b: seq<Seg>, at: int)
    requires Sorted(a) && Sorted(b) && Apart(a, b) && b != [] && Under(a, at) && Under(b, at)
    ensures var r := InsertSorted(a, b[0]);
            Sorted(r) && Sorted(b[1..]) && Apart(r, b[1..]) && Under(r, at) && Under(b[1..], at)
  {
    var (s, r) := (b[0], InsertSorted(a, b[0]));
    HeadIsLowest(b);
    forall i | 0 <= i < |a| ensures a[i].seqno != s.seqno { assert a[i] in a && s in b; }
    InsertKeepsSorted(a, s);
    hide Sorted, InsertSorted;
    forall t | t in r ensures t.seqno < at { InsertMembers(a, s, t); }
    forall t, u | t in r && u in b[1..] ensures t.seqno != u.seqno { InsertMembers(a, s, t); }
  }

  lemma ApartSwap(a: seq<Seg>, b: seq<Seg>)
    ensures Apart(a, b) <==> Apart(b, a)
  {
  }

  lemma SendOrder(p: Snd)
    requires InOrder(p) && p.unsent != []
    ensures InOrder(SendOne(p))
  {
    var s := p.unsent[0];
    forall i | 0 <= i < |p.unacked| ensures p.unacked[i].seqno != s.seqno { assert p.unacked[i] in p.unacked && s in p.unsent; }
    HeadIsLowest(p.unsent);
    ToUnackedIsInsertion(p.unacked, s);
    HeadMovesSorted(p.unacked, p.unsent, p.lbb);
    hide Sorted, InsertSorted, ToUnacked;
  }

  lemma RexmitOrder(p: Snd)
    requires InOrder(p)
    ensures InOrder(Rexmit(p))
  {
    if p.unacked != [] {
      hide Sorted, InsertSorted, Apart, Under;
      ApartSwap(p.unacked, p.unsent);
      HeadMovesSorted(p.unsent, p.unacked, p.lbb);
      ApartSwap(p.unacked[1..], InsertSorted(p.unsent, p.unacked[0]));
    }
  }

  lemma JoinSorted(a: seq<Seg>, b: seq<Seg>)
    ensures Sorted(a + b) <==> Sorted(a) && Sorted(b) && forall s, t :: s in a && t in b ==> s.seqno < t.seqno
  {
    var q := a + b;
    if Sorted(q) {
      forall i, j | 0 <= i < j < |a| ensures a[i].seqno < a[j].seqno { assert q[i].seqno < q[j].seqno; }
      forall i, j | 0 <= i < j < |b| ensures b[i].seqno < b[j].seqno { assert q[|a| + i].seqno < q[|a| + j].seqno; }
      forall s, t | s in a && t in b ensures s.seqno < t.seqno {
        var i :| 0 <= i < |a| && a[i] == s;
        var j :| 0 <= j < |b| && b[j] == t;
        assert q[i].seqno < q[|a| + j].seqno;
      }
    }
    if Sorted(a) && Sorted(b) && forall s, t :: s in a && t in b ==> s.seqno < t.seqno {
      forall i, j | 0 <= i < j < |q| ensures q[i].seqno < q[j].seqno {
        if i < |a| <= j { assert q[i] in a && q[j] in b; }
      }
    }
  }

  /** The timeout keeps the order exactly when everything unacked starts before everything unsent. */
  lemma TimeoutOrder(p: Snd)
    requires InOrder(p)
    ensures InOrder(RexmitRto(p)) <==> Ahead(p)
  {
    JoinSorted(p.unacked, p.unsent);
    assert Sorted(RexmitRto(p).unacked);
    hide Sorted;
  }

  lemma SuffixOrder(q: seq<Seg>, k: nat)
    requires k <= |q|
    ensures Sorted(q) ==> Sorted(q[k..])
    ensures forall s :: s in q[k..] ==> s in q
  {
    Rejoin(q, k);
    if Sorted(q) { JoinSorted(q[..k], q[k..]); }
  }

  lemma AckOrder(p: Snd, ackno: int)
    requires InOrder(p)
    ensures InOrder(Ack(p, ackno))
  {
    hide Sorted, DropAcked, Octets, Pbufs;
    SuffixOrder(p.unacked, |p.unacked| - |DropAcked(p.unacked, ackno)|);
    SuffixOrder(p.unsent, |p.unsent| - |DropAcked(p.unsent, ackno)|);
  }

  lemma FreshOrder(news: seq<Seg>, at: int, bytes: seq<byte>, mss: int)
    requires Fresh(news, at, bytes, mss)
    ensures Sorted(news) && forall s :: s in news ==> at <= s.seqno < at + |bytes|
  {
    if news != [] {
      FreshChained(news, at, bytes, mss);
      FreshPositive(news, at, bytes, mss);
      ChainedSorted(news);
      hide Fresh, Sorted;
      forall s | s in news ensures at <= s.seqno < at + |bytes| {
        var i :| 0 <= i < |news| && news[i] == s;
        LastEndsLast(news, i);
        if i > 0 { ChainedOrder(news, 0, i); }
      }
    }
  }

  lemma {:induction false} FreshPositive(news: seq<Seg>, at: int, bytes: seq<byte>, mss: int)
    requires Fresh(news, at, bytes, mss)
    ensures Positive(news)
    decreases |bytes|
  {
    if bytes != [] {
      var l := |news[0].data|;
      FreshPositive(news[1..], at + l, bytes[l..], mss);
      assert forall i :: 0 < i < |news| ==> news[i] == news[1..][i - 1];
    }
  }

  ghost predicate SameStarts(a: seq<Seg>, b: seq<Seg>) {
    |a| == |b| && forall i :: 0 <= i < |a| ==> a[i].seqno == b[i].seqno
  }

  lemma StartsDecide(a: seq<Seg>, b: seq<Seg>)
    requires SameStarts(a, b)
    ensures Sorted(a) ==> Sorted(b)
    ensures forall t :: t in b ==> exists s :: s in a && s.seqno == t.seqno
  {
    forall t | t in b ensures exists s :: s in a && s.seqno == t.seqno {
      var i :| 0 <= i < |b| && b[i] == t;
      assert a[i] in a && a[i].seqno == t.seqno;
    }
  }

  /** Adding to the last segment moves no start. */
  lemma ExtendStarts(a: seq<Seg>, b: seq<Seg>, more: seq<byte>)
    requires ExtendsLast(a, b, more)
    ensures SameStarts(a, b)
  {
    forall i | 0 <= i < |a| ensures a[i].seqno == b[i].seqno {
      if i < |a| - 1 { assert b[i] == b[..|a| - 1][i] == a[..|a| - 1][i]; }
    }
  }

  lemma WrittenParts(p: Snd, q: Snd, arg: seq<byte>, mss: int)
    requires Written(p, q, arg, mss)
    ensures var k := |p.unsent|;
            && k <= |q.unsent| && SameStarts(p.unsent, q.unsent[..k]) && Sorted(q.unsent[k..])
            && (forall s :: s in q.unsent[k..] ==> p.lbb <= s.seqno < q.lbb)
            && q.unacked == p.unacked && p.lbb <= q.lbb
  {
    var (n, k) := (Min(|arg|, Room(p.unsent, mss)), |p.unsent|);
    ExtendStarts(p.unsent, q.unsent[..k], arg[..n]);
    FreshOrder(q.unsent[k..], p.lbb + n, arg[n..], mss);
  }

  lemma StartsUnder(a: seq<Seg>, b: seq<Seg>, c: seq<Seg>, at: int)
    requires SameStarts(a, b) && Sorted(a) && Under(a, at) && Apart(c, a)
    ensures Sorted(b) && Under(b, at) && Apart(c, b)
  {
    StartsDecide(a, b);
    hide Sorted, SameStarts;
    forall t | t in b ensures t.seqno < at { var s :| s in a && s.seqno == t.seqno; }
    forall u, t | u in c && t in b ensures u.seqno != t.seqno { var s :| s in a && s.seqno == t.seqno; }
  }

  /** New segments at and above `at` behind sorted ones below it. */
  lemma AppendOrder(c: seq<Seg>, b: seq<Seg>, news: seq<Seg>, at: int, top: int)
    requires Sorted(b) && Under(b, at) && Apart(c, b) && Under(c, at) && at <= top
    requires Sorted(news) && forall s :: s in news ==> at <= s.seqno < top
    ensures Sorted(b + news) && Under(b + news, top) && Apart(c, b + news) && Under(c, top)
  {
    JoinSorted(b, news);
  }

  lemma WriteOrder(p: Snd, q: Snd, arg: seq<byte>, mss: int)
    requires InOrder(p) && Written(p, q, arg, mss)
    ensures InOrder(q)
  {
    hide Written, Sorted, SameStarts, Apart, Under;
    WrittenParts(p, q, arg, mss);
    var k := |p.unsent|;
    StartsUnder(p.unsent, q.unsent[..k], p.unacked, p.lbb);
    AppendOrder(p.unacked, q.unsent[..k], q.unsent[k..], p.lbb, q.lbb);
    Rejoin(q.unsent, k);
  }

  lemma FinOrder(p: Snd)
    requires InOrder(p)
    ensures InOrder(SendFin(p))
  {
    var q := SendFin(p);
    if p.unsent != [] && !Last(p.unsent).fin {
      assert SameStarts(p.unsent, q.unsent);
      StartsDecide(p.unsent, q.unsent);
    } else {
      var s := Seg(p.lbb, [], true, 1, false);
      assert q.unsent == p.unsent + [s];
      JoinSorted(p.unsent, [s]);
    }
  }

  // ----- Runs

  /** One step keeps both queues sorted exactly unless it is a timeout that finds a segment out of place. */
  lemma StepOrder(p: Snd, e: Event)
    requires InOrder(p) && Possible(p, e)
    ensures InOrder(Apply(p, e)) <==> (e.Timeout? ==> Ahead(p))
  {
    hide InOrder, Ahead, Written, SendFin, SendOne, Rexmit, RexmitRto, Ack;
    match e
    case Write(arg, after, mss) => WriteOrder(p, after, arg, mss);
    case Close => FinOrder(p);
    case Transmit => if p.unsent != [] { SendOrder(p); }
    case FastRetransmit => RexmitOrder(p);
    case FastRetransmitSent =>
      RexmitOrder(p);
      if Rexmit(p).unsent != [] { SendOrder(Rexmit(p)); }
    case Timeout => TimeoutOrder(p);
    case Acked(ackno) => AckOrder(p, ackno);
  }

  /** Every timeout of the run finds everything unacked before everything unsent. */
  ghost predicate TimelyRun(p: Snd, es: seq<Event>)
    decreases |es|
  {
    es != [] ==> (es[0].Timeout? ==> Ahead(p)) && TimelyRun(Apply(p, es[0]), es[1..])
  }

  /**
   Over every possible run both queues stay sorted, careful or not, with fast retransmissions stuck or sent,
   provided that each timeout finds everything unacked before everything unsent.
   */
  lemma {:induction false} QueuesStaySorted(p: Snd, es: seq<Event>)
    requires InOrder(p) && PossibleRun(p, es) && TimelyRun(p, es)
    ensures InOrder(Final(p, es))
    decreases |es|
  {
    if es != [] {
      hide InOrder, Possible, Apply, Ahead;
      StepOrder(p, es[0]);
      QueuesStaySorted(Apply(p, es[0]), es[1..]);
    }
  }

  /** In the usual shape both queues are sorted and a timeout finds them in order. */
  lemma NormalIsSorted(p: Snd, out: seq<byte>, sndBuf: int)
    requires SendInv(p, out, sndBuf) && Normal(p, out)
    ensures Sorted(p.unacked) && Sorted(p.unsent) && Ahead(p)
  {
    HeldPositive(p, out);
    ChainedSorted(p.All());
    hide Sorted, Chained;
    JoinSorted(p.unacked, p.unsent);
  }

  /** Runs in which no fast retransmission gets stuck need no proviso. */
  lemma UsualRunsSorted(p: Snd, es: seq<Event>, out: seq<byte>, sndBuf: int)
    requires SendInv(p, out, sndBuf) && Normal(p, out) && PossibleRun(p, es)
    requires forall i :: 0 <= i < |es| ==> !es[i].FastRetransmit?
    ensures Sorted(Final(p, es).unacked) && Sorted(Final(p, es).unsent) && Ahead(Final(p, es))
  {
    hide *;
    UsualRuns(p, es, out, sndBuf);
    NormalIsSorted(Final(p, es), out + AllSaid(es), sndBuf);
  }

  // ----- Runs in which a stuck fast retransmission does harm

  /** An established connection with a send buffer of `n` octets, before any data. */
  function Begin(n: int): Snd { Snd([], [], 0, 0, 0, 0, n, 0, false) }

  function One(x: byte): Seg { Seg(0, [x], false, 1, false) }
  function Two(y: byte): Seg { Seg(1, [y], false, 1, false) }

  function OneWritten(x: byte, n: int): Snd { Snd([One(x)], [], 0, 1, 0, 0, n - 1, 1, false) }
  function OneSent(x: byte, n: int): Snd { Snd([], [One(x)], 0, 1, 1, 0, n - 1, 1, false) }
  function TwoWritten(x: byte, y: byte, n: int): Snd { Snd([Two(y)], [One(x)], 0, 2, 1, 0, n - 2, 2, false) }
  function BothSent(x: byte, y: byte, n: int): Snd { Snd([], [One(x), Two(y)], 0, 2, 2, 0, n - 2, 2, false) }
  function OneBack(x: byte, y: byte, n: int): Snd { Snd([One(x)], [Two(y)], 0, 2, 2, 0, n - 2, 2, false) }

  /** Two octets are written and sent one by one, then the first is to be retransmitted and cannot be sent. */
  function Stuck(x: byte, y: byte, n: int, mss: int): seq<Event> {
    [Write([x], OneWritten(x, n), mss), Transmit, Write([y], TwoWritten(x, y, n), mss), Transmit, FastRetransmit]
  }

  lemma WriteOne(p: Snd, q: Snd, s: Seg, mss: int)
    requires p.unsent == [] && |s.data| == 1 && s.seqno == p.lbb && !s.fin && s.pbufs == 1 && 0 < mss
    requires q == p.(unsent := [s], queuelen := p.queuelen + 1, lbb := p.lbb + 1, buf := p.buf - 1)
    ensures Written(p, q, s.data, mss)
  {
    var arg := s.data;
    assert q.unsent[..0] == [] && q.unsent[0..] == [s];
    assert arg[0..] == arg && arg[..1] == arg && arg[1..] == [];
    SumsOne(s);
  }

  /** One more step at the end of a run. */
  lemma {:induction false} RunOn(p: Snd, es: seq<Event>, e: Event)
    ensures Final(p, es + [e]) == Apply(Final(p, es), e)
    ensures PossibleRun(p, es + [e]) <==> PossibleRun(p, es) && Possible(Final(p, es), e)
    decreases |es|
  {
    var all := es + [e];
    hide Apply, Possible;
    if es == [] {
      assert all == [e] && all[1..] == [];
    } else {
      assert all[1..] == es[1..] + [e];
      RunOn(Apply(p, es[0]), es[1..], e);
    }
  }

  lemma RunsEmpty(p: Snd)
    ensures Final(p, []) == p && PossibleRun(p, [])
  {
  }

  lemma Reached(p: Snd, es: seq<Event>, q: Snd, e: Event, r: Snd)
    requires PossibleRun(p, es) && Final(p, es) == q && Possible(q, e) && Apply(q, e) == r
    ensures PossibleRun(p, es + [e]) && Final(p, es + [e]) == r
  {
    hide *;
    RunOn(p, es, e);
  }

  lemma StuckSteps(x: byte, y: byte, n: int, mss: int)
    requires 0 < mss
    ensures Possible(Begin(n), Write([x], OneWritten(x, n), mss))
    ensures Possible(OneSent(x, n), Write([y], TwoWritten(x, y, n), mss))
    ensures SendOne(OneWritten(x, n)) == OneSent(x, n) && SendOne(TwoWritten(x, y, n)) == BothSent(x, y, n)
    ensures Rexmit(BothSent(x, y, n)) == OneBack(x, y, n)
  {
    WriteOne(Begin(n), OneWritten(x, n), One(x), mss);
    WriteOne(OneSent(x, n), TwoWritten(x, y, n), Two(y), mss);
    hide Written;
    assert [One(x)] + [Two(y)] == [One(x), Two(y)];
    assert Rexmit(BothSent(x, y, n)).unsent == [One(x)];
  }

  /** The run up to the stuck retransmission. */
  lemma StuckRun(x: byte, y: byte, n: int, mss: int)
    requires 0 < mss
    ensures PossibleRun(Begin(n), Stuck(x, y, n, mss)) && Final(Begin(n), Stuck(x, y, n, mss)) == OneBack(x, y, n)
  {
    StuckSteps(x, y, n, mss);
    var p := Begin(n);
    var (a, b) := (Write([x], OneWritten(x, n), mss), Write([y], TwoWritten(x, y, n), mss));
    assert Stuck(x, y, n, mss) == [] + [a] + [Transmit] + [b] + [Transmit] + [FastRetransmit];
    assert Apply(OneWritten(x, n), Transmit) == OneSent(x, n) && Apply(TwoWritten(x, y, n), Transmit) == BothSent(x, y, n);
    assert forall q: Snd :: Possible(q, Transmit) && Possible(q, FastRetransmit);
    hide *;
    RunsEmpty(p);
    Reached(p, [], p, a, OneWritten(x, n));
    Reached(p, [] + [a], OneWritten(x, n), Transmit, OneSent(x, n));
    Reached(p, [] + [a] + [Transmit], OneSent(x, n), b, TwoWritten(x, y, n));
    Reached(p, [] + [a] + [Transmit] + [b], TwoWritten(x, y, n), Transmit, BothSent(x, y, n));
    Reached(p, [] + [a] + [Transmit] + [b] + [Transmit], BothSent(x, y, n), FastRetransmit, OneBack(x, y, n));
  }

  /** A timeout then puts the second octet before the first. */
  lemma TimeoutMisorders(x: byte, y: byte, n: int, mss: int)
    requires 0 < mss
    ensures var (p, es) := (Begin(n), Stuck(x, y, n, mss) + [Timeout]);
            PossibleRun(p, es) && Final(p, es).unsent == [Two(y), One(x)] && !Sorted(Final(p, es).unsent)
  {
    var (p, q) := (Begin(n), OneBack(x, y, n));
    StuckRun(x, y, n, mss);
    assert Apply(q, Timeout).unsent == [Two(y), One(x)];
    var r := Apply(q, Timeout);
    assert r.unsent[0].seqno > r.unsent[1].seqno;
    hide Final, PossibleRun, Apply;
    Reached(p, Stuck(x, y, n, mss), q, Timeout, r);
  }

  /** The stuck segment with an octet more. */
  function Extended(x: byte, y: byte, z: byte, n: int): Snd {
    Snd([Seg(0, [x, z], false, 2, false)], [Two(y)], 0, 3, 2, 0, n - 3, 3, false)
  }

  lemma ExtendedIsWritten(x: byte, y: byte, z: byte, n: int, mss: int)
    requires 2 <= mss
    ensures Written(OneBack(x, y, n), Extended(x, y, z, n), [z], mss)
  {
    var (p, q) := (OneBack(x, y, n), Extended(x, y, z, n));
    var arg := [z];
    assert q.unsent[..1] == q.unsent && q.unsent[1..] == [];
    assert arg[..1] == arg && arg[1..] == [];
    SumsOne(p.unsent[0]);
    SumsOne(q.unsent[0]);
  }

  lemma Overlap(p: Snd, s: Seg, t: Seg)
    requires p.unsent == [s] && p.unacked == [t] && s.seqno < t.End() && t.seqno < s.End() && s != t
    ensures !Disjoint(p.Bag())
  {
    assert s in multiset(p.unsent) && t in multiset(p.unacked);
    assert s in p.Bag() && t in p.Bag();
  }

  /** tcp_write then puts the third octet on the position of the second. */
  lemma StuckRetransmissionMisplaces(x: byte, y: byte, z: byte, n: int, mss: int)
    requires 2 <= mss
    ensures var (p, es) := (Begin(n), Stuck(x, y, n, mss) + [Write([z], Extended(x, y, z, n), mss)]);
            PossibleRun(p, es) && Final(p, es) == Extended(x, y, z, n) && !Disjoint(Final(p, es).Bag())
  {
    var (p, q, r) := (Begin(n), OneBack(x, y, n), Extended(x, y, z, n));
    var e := Write([z], r, mss);
    StuckRun(x, y, n, mss);
    ExtendedIsWritten(x, y, z, n, mss);
    Overlap(r, r.unsent[0], r.unacked[0]);
    assert Possible(q, e) && Apply(q, e) == r;
    hide Final, PossibleRun, Apply, Possible, Written, Disjoint;
    Reached(p, Stuck(x, y, n, mss), q, e, r);
  }

  lemma FinHidesSecond(s: Seg, p: Snd, out: seq<byte>)
    requires p.unsent == [s] && s.fin && s.End() < |out|
    ensures !Held(p, out)
  {
    assert s in multiset(p.unsent) && s in p.Bag();
  }

  /** tcp_close then puts the FIN on the first octet although there are two. */
  lemma FinMisplaced(x: byte, y: byte, n: int, mss: int)
    requires 0 < mss
    ensures var (p, es) := (Begin(n), Stuck(x, y, n, mss) + [Close]);
            PossibleRun(p, es) && Final(p, es).unsent == [One(x).(fin := true)] && !Held(Final(p, es), [x, y])
  {
    var (p, q) := (Begin(n), OneBack(x, y, n));
    StuckRun(x, y, n, mss);
    var r := Apply(q, Close);
    assert r.unsent == [One(x).(fin := true)] && Possible(q, Close);
    FinHidesSecond(r.unsent[0], r, [x, y]);
    hide Final, PossibleRun, Apply, Held, Possible;
    Reached(p, Stuck(x, y, n, mss), q, Close, r);
  }
}
