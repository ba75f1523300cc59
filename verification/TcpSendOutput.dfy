/**
 What the send path achieves: tcp_output sends as much as the window and the permissions allow, no segment is
 longer than the peer's MSS, an acknowledgement removes all that it covers, and after a timeout everything in
 flight goes out again.
 */
module TcpSendOutput {
  import opened Bytes
  import opened TcpSendSpec
  import opened TcpSendQueues
  import opened TcpSendRuns

  // ----- tcp_output

  /** The first `n` unsent segments all lie in the window. */
  predicate Eligible(p: Snd, wnd: int, n: nat) {
    n <= |p.unsent| && forall i :: 0 <= i < n ==> p.lastack <= p.unsent[i].End() <= p.lastack + wnd
  }

  /** snd_nxt after `q` has been sent. */
  function NextAfter(nxt: int, q: seq<Seg>): (r: int)
    ensures nxt <= r && forall i :: 0 <= i < |q| ==> q[i].TcpEnd() <= r
    ensures r == nxt || exists i :: 0 <= i < |q| && r == q[i].TcpEnd()
    decreases |q|
  {
    if q == [] then nxt
    else
      var r := NextAfter(if nxt < q[0].TcpEnd() then q[0].TcpEnd() else nxt, q[1..]);
      assert forall i :: 0 < i < |q| ==> q[i] == q[1..][i - 1];
      assert forall i :: 0 <= i < |q[1..]| ==> q[1..][i] == q[i + 1];
      r
  }

  lemma EligibleRest(p: Snd, wnd: int, k: nat)
    requires p.unsent != [] && InWindow(p.unsent[0], p.lastack, wnd)
    ensures Eligible(SendOne(p), wnd, k) <==> Eligible(p, wnd, k + 1)
  {
    var (q, r) := (p.unsent, SendOne(p).unsent);
    assert r == q[1..] && SendOne(p).lastack == p.lastack;
    hide SendOne;
    if Eligible(p, wnd, k + 1) {
      forall i | 0 <= i < k ensures p.lastack <= r[i].End() <= p.lastack + wnd { assert r[i] == q[i + 1]; }
    }
    if Eligible(SendOne(p), wnd, k) {
      forall i | 0 < i <= k ensures p.lastack <= q[i].End() <= p.lastack + wnd { assert q[i] == r[i - 1]; }
    }
  }

  /** `r` is `p` with its first `n` unsent segments sent. */
  ghost predicate Sent(p: Snd, r: Snd, n: nat) {
    && n <= |p.unsent| && r.unsent == p.unsent[n..] && r.lastack == p.lastack && r.lbb == p.lbb && r.closed == p.closed
    && r.buf == p.buf && r.queuelen == p.queuelen && r.nxt == NextAfter(p.nxt, p.unsent[..n])
    && multiset(r.unacked) == multiset(p.unacked) + multiset(Nonempty(p.unsent[..n]))
  }

  /** The segments that have a sequence number of their own; the others are freed once they are sent. */
  function Nonempty(q: seq<Seg>): seq<Seg> {
    if q == [] then [] else (if q[0].TcpLen() > 0 then [q[0]] else []) + Nonempty(q[1..])
  }

  lemma SentNone(p: Snd)
    ensures Sent(p, p, 0)
  {
    assert p.unsent[..0] == [] && p.unsent[0..] == p.unsent;
    assert Nonempty(p.unsent[..0]) == [];
  }

  lemma SentMore(p: Snd, r: Snd, k: nat)
    requires p.unsent != [] && Sent(SendOne(p), r, k)
    ensures Sent(p, r, k + 1)
  {
    SendOneIs(p);
    assert k < |p.unsent|;
    SentPrefix(p, k);
    hide SendOne, NextAfter, Nonempty;
    SentBag(p, k);
  }

  lemma SendOneIs(p: Snd)
    requires p.unsent != []
    ensures var q := SendOne(p);
            && q.unsent == p.unsent[1..] && q.lastack == p.lastack && q.lbb == p.lbb && q.closed == p.closed
            && q.buf == p.buf && q.queuelen == p.queuelen
  {
  }

  /**
   tcp_output sends the first `n` unsent segments in order and no others, where `n` is the largest number, up to
   the permissions, for which all of them lie in the window. They move to the unacked queue, and snd_nxt goes to
   the end of the furthest of them.
   */
  lemma {:induction false} OutputTransmits(p: Snd, wnd: int, permitted: nat) returns (n: nat)
    ensures n <= permitted && Eligible(p, wnd, n) && (n < permitted ==> !Eligible(p, wnd, n + 1))
    ensures Output(p, wnd, permitted) == Final(p, Transmits(n)) && Sent(p, Output(p, wnd, permitted), n)
    decreases permitted
  {
    hide Output, SendOne, Eligible, Transmits, Final, Sent;
    if p.unsent != [] && InWindow(p.unsent[0], p.lastack, wnd) && permitted > 0 {
      var k := OutputTransmits(SendOne(p), wnd, permitted - 1);
      n := k + 1;
      OutputStep(p, wnd, permitted);
      EligibleRest(p, wnd, k);
      EligibleRest(p, wnd, k + 1);
      TransmitFirst(p, n);
      SentMore(p, Output(p, wnd, permitted), k);
    } else {
      n := 0;
      OutputStops(p, wnd, permitted);
      SentNone(p);
    }
  }

  lemma OutputStops(p: Snd, wnd: int, permitted: nat)
    requires !(p.unsent != [] && InWindow(p.unsent[0], p.lastack, wnd) && permitted > 0)
    ensures Output(p, wnd, permitted) == p == Final(p, Transmits(0)) && Eligible(p, wnd, 0)
    ensures permitted > 0 ==> !Eligible(p, wnd, 1)
  {
  }

  lemma OutputStep(p: Snd, wnd: int, permitted: nat)
    requires p.unsent != [] && InWindow(p.unsent[0], p.lastack, wnd) && permitted > 0
    ensures Output(p, wnd, permitted) == Output(SendOne(p), wnd, permitted - 1) && SendOne(p).lastack == p.lastack
  {
  }

  lemma SentPrefix(p: Snd, k: nat)
    requires p.unsent != [] && k < |p.unsent|
    ensures var q := SendOne(p);
            && q.unsent == p.unsent[1..] && q.unsent[k..] == p.unsent[k + 1..]
            && p.unsent[..k + 1] == [p.unsent[0]] + q.unsent[..k]
            && NextAfter(p.nxt, p.unsent[..k + 1]) == NextAfter(q.nxt, q.unsent[..k])
  {
    var q := SendOne(p);
    assert q.unsent == p.unsent[1..];
    assert p.unsent[..k + 1][1..] == q.unsent[..k] && p.unsent[..k + 1][0] == p.unsent[0];
  }

  lemma SentBag(p: Snd, k: nat)
    requires p.unsent != [] && k < |p.unsent|
    ensures var q := SendOne(p);
            && q.unsent == p.unsent[1..]
            && multiset(q.unacked) + multiset(Nonempty(q.unsent[..k])) == multiset(p.unacked) + multiset(Nonempty(p.unsent[..k + 1]))
  {
    var (q, s) := (SendOne(p), p.unsent[0]);
    assert q.unsent == p.unsent[1..];
    assert p.unsent[..k + 1] == [s] + q.unsent[..k];
    NonemptyFirst(s, q.unsent[..k]);
    assert q.unacked == if s.TcpLen() > 0 then ToUnacked(p.unacked, s) else p.unacked;
    hide SendOne, ToUnacked, Nonempty;
    ToUnackedSums(p.unacked, s);
  }

  lemma NonemptyFirst(s: Seg, q: seq<Seg>)
    ensures Nonempty([s] + q) == (if s.TcpLen() > 0 then [s] else []) + Nonempty(q)
  {
    assert ([s] + q)[1..] == q;
  }

  // ----- Timeouts

  lemma {:induction false} OutputAll(p: Snd, wnd: int, permitted: nat)
    requires Chained(p.All()) && Positive(p.All()) && |p.unsent| <= permitted && Eligible(p, wnd, |p.unsent|)
    ensures var r := Output(p, wnd, permitted); r.unsent == [] && r.unacked == p.All()
    decreases permitted
  {
    if p.unsent == [] {
      assert p.All() == p.unacked;
    } else {
      assert InWindow(p.unsent[0], p.lastack, wnd);
      OutputStep(p, wnd, permitted);
      EligibleRest(p, wnd, |p.unsent| - 1);
      MovesBorder(p);
      OutputAll(SendOne(p), wnd, permitted - 1);
    }
  }

  lemma MovesBorder(p: Snd)
    requires Chained(p.All()) && Positive(p.All()) && p.unsent != []
    ensures SendOne(p).All() == p.All() && SendOne(p).unsent == p.unsent[1..]
  {
    var s := p.unsent[0];
    assert p.All()[|p.unacked|] == s && s.TcpLen() > 0;
    assert p.unacked != [] ==> p.All()[|p.unacked| - 1] == Last(p.unacked) && Last(p.unacked).TcpEnd() == s.seqno;
    assert p.unacked != [] ==> p.All()[|p.unacked| - 1].TcpLen() > 0;
    assert ToUnacked(p.unacked, s) == p.unacked + [s];
    assert p.unacked + [s] + p.unsent[1..] == p.All();
  }

  /** After a timeout in the usual shape, tcp_output sends everything again, in order, if window and link allow. */
  lemma TimeoutResends(p: Snd, out: seq<byte>, wnd: int, permitted: nat)
    requires Normal(p, out) && Positive(p.All()) && |p.All()| <= permitted
    requires forall i :: 0 <= i < |p.All()| ==> p.lastack <= p.All()[i].End() <= p.lastack + wnd
    ensures var r := Output(RexmitRto(p), wnd, permitted);
            r.unsent == [] && r.unacked == p.All() && r == Final(p, [Timeout] + Transmits(|p.All()|))
  {
    var q := RexmitRto(p);
    assert q.unsent == p.All() && q.All() == p.All() && q.lastack == p.lastack;
    assert Eligible(q, wnd, |q.unsent|) && Chained(q.All());
    assert Apply(p, Timeout) == q;
    hide Output, Normal, Chained, Positive, RexmitRto, InWindow, Apply, Transmits;
    OutputAll(q, wnd, permitted);
    var n := OutputTransmits(q, wnd, permitted);
    assert n == |p.All()| by { SentAll(q, Output(q, wnd, permitted), n); }
    FinalFirst(p, Timeout, Transmits(n));
  }

  lemma SentAll(p: Snd, r: Snd, n: nat)
    requires Sent(p, r, n) && r.unsent == []
    ensures n == |p.unsent|
  {
  }

  lemma FinalFirst(p: Snd, e: Event, es: seq<Event>)
    ensures Final(p, [e] + es) == Final(Apply(p, e), es)
  {
    assert ([e] + es)[1..] == es;
  }

  // ----- Acknowledgements

  lemma {:induction false} DropAckedExactly(q: seq<Seg>, ackno: int)
    ensures var r := DropAcked(q, ackno);
            && (forall i :: 0 <= i < |q| - |r| ==> q[i].TcpEnd() <= ackno) && (r != [] ==> ackno < r[0].TcpEnd())
  {
    if q != [] && q[0].TcpEnd() <= ackno {
      DropAckedExactly(q[1..], ackno);
      var r := DropAcked(q, ackno);
      forall i | 0 < i < |q| - |r| ensures q[i].TcpEnd() <= ackno { assert q[i] == q[1..][i - 1]; }
    }
  }

  /**
   An acknowledgement of something sent and new becomes lastack; from each queue goes the longest prefix that it
   covers. One of something never sent changes nothing.
   */
  lemma AckExactly(p: Snd, ackno: int)
    ensures var (r, isNew) := (Ack(p, ackno), p.lastack < ackno <= p.nxt);
            && r.lastack == (if isNew then ackno else p.lastack) && r.nxt == p.nxt && r.lbb == p.lbb && r.closed == p.closed
            && |r.unacked| <= |p.unacked| && r.unacked == p.unacked[|p.unacked| - |r.unacked|..]
            && |r.unsent| <= |p.unsent| && r.unsent == p.unsent[|p.unsent| - |r.unsent|..]
            && (forall i :: 0 <= i < |p.unacked| - |r.unacked| ==> p.unacked[i].TcpEnd() <= ackno)
            && (isNew && r.unacked != [] ==> ackno < r.unacked[0].TcpEnd()) && (!isNew ==> r.unacked == p.unacked)
            && (forall i :: 0 <= i < |p.unsent| - |r.unsent| ==> p.unsent[i].TcpEnd() <= ackno)
            && (ackno <= p.nxt && r.unsent != [] ==> ackno < r.unsent[0].TcpEnd()) && (ackno > p.nxt ==> r.unsent == p.unsent)
            && (ackno > p.nxt && (p.unsent == [] ==> p.oversize == 0) ==> r == p)
  {
    DropAckedExactly(p.unacked, ackno);
    DropAckedExactly(p.unsent, ackno);
    hide DropAcked, Octets, Pbufs;
  }

  /** In the usual shape what is left is exactly what ends beyond a new acknowledgement, and all of it otherwise. */
  lemma NormalAckRemoves(p: Snd, ackno: int, out: seq<byte>, s: Seg)
    requires Normal(p, out) && Positive(p.All())
    ensures s in Ack(p, ackno).All() <==> s in p.All() && (p.lastack < ackno <= p.nxt ==> ackno < s.TcpEnd())
  {
    NormalAckExactly(p, ackno, out, s);
    AckExactly(p, ackno);
    hide Ack, Normal, Chained;
    if s in p.All() { NormalBeyond(p, out, s); }
  }

  lemma NormalBeyond(p: Snd, out: seq<byte>, s: Seg)
    requires Normal(p, out) && Positive(p.All()) && s in p.All()
    ensures p.lastack < s.TcpEnd()
  {
    AllUnacked(p.All(), s);
  }

  // ----- How tcp_write cuts

  /** What the segments from `at` on hold. */
  lemma {:induction false} FreshCount(news: seq<Seg>, at: int, bytes: seq<byte>, mss: int)
    requires 0 < mss && Fresh(news, at, bytes, mss) && Full(news, mss)
    ensures if bytes == [] then news == [] else news != [] && (|news| - 1) * mss < |bytes| <= |news| * mss
    decreases |bytes|
  {
    if bytes != [] {
      var (l, rest) := (|news[0].data|, news[1..]);
      assert forall i :: 0 <= i < |rest| ==> rest[i] == news[i + 1];
      if bytes[l..] == [] {
        assert rest == [] && |news| == 1;
      } else {
        assert rest != [];
        assert |news[0].data| == mss;
        FreshCount(rest, at + l, bytes[l..], mss);
        assert (|news| - 1) * mss == |rest| * mss && |news| * mss == |rest| * mss + mss && (|rest| - 1) * mss == |rest| * mss - mss;
      }
    }
  }

  /**
   tcp_write makes as few segments as can be: none while the last unsent one has room, which is filled to the limit
   first, and then no more than the limit makes necessary.
   */
  lemma WriteIsFrugal(p: Snd, q: Snd, arg: seq<byte>, mss: int)
    requires Written(p, q, arg, mss) && 0 < mss
    ensures var (n, k, m) := (Filled(p, arg, mss), |p.unsent|, |q.unsent| - |p.unsent|);
            && 0 <= n <= |arg| && 0 <= m && (if n == |arg| then m == 0 else (m - 1) * mss < |arg| - n <= m * mss)
            && (m > 0 && k > 0 && Last(p.unsent).data != [] ==> |q.unsent[k - 1].data| == mss)
  {
    var (n, k) := (Filled(p, arg, mss), |p.unsent|);
    assert Full(q.unsent[k..], mss);
    if |q.unsent| > k > 0 && Last(p.unsent).data != [] { LastIsFull(p, q, arg, mss); }
    hide Fresh, Written, ExtendsLast, Full;
    WrittenParts(p, q, arg, mss);
    FreshCount(q.unsent[k..], p.lbb + n, arg[n..], mss);
  }

  lemma LastIsFull(p: Snd, q: Snd, arg: seq<byte>, mss: int)
    requires Written(p, q, arg, mss) && p.unsent != [] && Last(p.unsent).data != [] && |q.unsent| > |p.unsent|
    ensures |q.unsent[|p.unsent| - 1].data| == mss
  {
    var k := |p.unsent|;
    assert q.unsent[..k][k - 1] == q.unsent[k - 1];
    assert q.unsent[k..] != [];
  }

  // ----- The segment size limit

  /** The limit is the MSS or half the largest window offered, whichever is less, and the MSS while that half is 0. */
  lemma MssLocalIs(mss: int, wndMax: int)
    requires 0 < mss && 0 <= wndMax
    ensures 0 < MssLocal(mss, wndMax) <= mss && (2 <= wndMax ==> MssLocal(mss, wndMax) <= wndMax / 2)
    ensures MssLocal(mss, wndMax) == mss || MssLocal(mss, wndMax) == wndMax / 2
    ensures MssLocal(mss, wndMax) == mss <==> wndMax < 2 || mss <= wndMax / 2
  {
  }

  /** tcp_write under any limit up to the MSS leaves no segment longer than the MSS. */
  lemma WriteShort(p: Snd, q: Snd, arg: seq<byte>, limit: int, mss: int)
    requires Written(p, q, arg, limit) && limit <= mss && AllShort(p.unsent, mss)
    ensures AllShort(q.unsent, mss)
  {
    var (n, k) := (Filled(p, arg, limit), |p.unsent|);
    LastFilled(p, q, arg, limit, mss);
    hide Fresh, Written, ExtendsLast, Filled, AllShort, Last;
    WrittenParts(p, q, arg, limit);
    FreshShort(q.unsent[k..], p.lbb + n, arg[n..], limit);
    ShortUpTo(q.unsent[k..], limit, mss);
    ExtendShort(p.unsent, q.unsent[..k], arg[..n], mss);
    JoinShort(q.unsent[..k], q.unsent[k..], mss);
    Rejoin(q.unsent, k);
  }

  lemma ShortUpTo(q: seq<Seg>, limit: int, mss: int)
    requires AllShort(q, limit) && limit <= mss
    ensures AllShort(q, mss)
  {
  }

  lemma LastFilled(p: Snd, q: Snd, arg: seq<byte>, limit: int, mss: int)
    requires Written(p, q, arg, limit) && limit <= mss && AllShort(p.unsent, mss)
    ensures |p.unsent| <= |q.unsent| && (p.unsent != [] ==> |Last(q.unsent[..|p.unsent|]).data| <= mss)
  {
    hide Fresh;
  }

  lemma WriteWithinMss(p: Snd, q: Snd, arg: seq<byte>, mss: int, wndMax: int)
    requires 0 < mss && 0 <= wndMax && Written(p, q, arg, MssLocal(mss, wndMax)) && AllShort(p.unsent, mss)
    ensures AllShort(q.unsent, mss)
  {
    MssLocalIs(mss, wndMax);
    WriteShort(p, q, arg, MssLocal(mss, wndMax), mss);
  }

  /** tcp_write was called with the limit for some largest window. */
  ghost predicate UsesLimit(e: Event, mss: int) {
    e.Write? ==> exists w :: 0 <= w && e.mss == MssLocal(mss, w)
  }

  ghost predicate Short(p: Snd, mss: int) {
    AllShort(p.unsent, mss) && AllShort(p.unacked, mss)
  }

  lemma StepShort(p: Snd, e: Event, mss: int)
    requires 0 < mss && Short(p, mss) && Possible(p, e) && UsesLimit(e, mss)
    ensures Short(Apply(p, e), mss)
  {
    hide Written, SendOne, Rexmit, RexmitRto, SendFin, Ack, AllShort, MssLocal;
    match e
    case Write(arg, after, limit) =>
      var w :| 0 <= w && limit == MssLocal(mss, w);
      WriteWithinMss(p, after, arg, mss, w);
      WriteUnacked(p, after, arg, limit);
    case Close => CloseShort(p, mss);
    case Transmit => if p.unsent != [] { SendShort(p, mss); }
    case FastRetransmit => RexmitShort(p, mss);
    case FastRetransmitSent =>
      RexmitShort(p, mss);
      if Rexmit(p).unsent != [] { SendShort(Rexmit(p), mss); }
    case Timeout => TimeoutShort(p, mss);
    case Acked(ackno) => AckShort(p, ackno, mss);
  }

  lemma WriteUnacked(p: Snd, q: Snd, arg: seq<byte>, limit: int)
    requires Written(p, q, arg, limit)
    ensures q.unacked == p.unacked
  {
  }

  lemma CloseShort(p: Snd, mss: int)
    requires 0 < mss && Short(p, mss)
    ensures Short(SendFin(p), mss)
  {
  }

  lemma TimeoutShort(p: Snd, mss: int)
    requires Short(p, mss)
    ensures Short(RexmitRto(p), mss)
  {
  }

  lemma AckShort(p: Snd, ackno: int, mss: int)
    requires Short(p, mss)
    ensures Short(Ack(p, ackno), mss)
  {
    hide Octets, Pbufs;
  }

  lemma SendShort(p: Snd, mss: int)
    requires Short(p, mss) && p.unsent != []
    ensures Short(SendOne(p), mss)
  {
    TailShort(p.unsent, mss);
    InsertShort(p.unacked, p.unsent[0], mss);
    hide AllShort, InsertSorted;
  }

  lemma RexmitShort(p: Snd, mss: int)
    requires Short(p, mss)
    ensures Short(Rexmit(p), mss)
  {
    if p.unacked != [] {
      TailShort(p.unacked, mss);
      InsertShort(p.unsent, p.unacked[0], mss);
      hide AllShort;
    }
  }

  /** In every run, whatever windows the peer offers, no segment that is queued or in flight is longer than the MSS. */
  lemma {:induction false} NoSegmentExceedsMss(p: Snd, es: seq<Event>, mss: int)
    requires 0 < mss && Short(p, mss) && PossibleRun(p, es)
    requires forall i :: 0 <= i < |es| ==> UsesLimit(es[i], mss)
    ensures Short(Final(p, es), mss)
    decreases |es|
  {
    if es != [] {
      hide Short, Possible, Apply, UsesLimit;
      assert UsesLimit(es[0], mss);
      StepShort(p, es[0], mss);
      forall i | 0 <= i < |es[1..]| ensures UsesLimit(es[1..][i], mss) { assert es[1..][i] == es[i + 1]; }
      NoSegmentExceedsMss(Apply(p, es[0]), es[1..], mss);
    }
  }
}
