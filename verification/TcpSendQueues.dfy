/** What every step of the send path keeps: nothing is lost, duplicated or misplaced, and the accounts balance. */
module TcpSendQueues {
  import opened Bytes
  import opened TcpSendSpec

  // ----- Sums

  lemma SumsJoin(a: seq<Seg>, b: seq<Seg>)
    ensures Octets(a + b) == Octets(a) + Octets(b) && Pbufs(a + b) == Pbufs(a) + Pbufs(b)
    ensures Stream(a + b) == Stream(a) + Stream(b)
  {
    if a == [] {
      assert a + b == b;
    } else {
      assert (a + b)[1..] == a[1..] + b;
      SumsJoin(a[1..], b);
    }
  }

  lemma SumsSplit(q: seq<Seg>, k: nat)
    requires k <= |q|
    ensures Octets(q) == Octets(q[..k]) + Octets(q[k..]) && Pbufs(q) == Pbufs(q[..k]) + Pbufs(q[k..])
    ensures Stream(q) == Stream(q[..k]) + Stream(q[k..])
  {
    hide Octets, Pbufs, Stream;
    Rejoin(q, k);
    SumsJoin(q[..k], q[k..]);
  }

  lemma BagSplit(q: seq<Seg>, k: nat)
    requires k <= |q|
    ensures multiset(q) == multiset(q[..k]) + multiset(q[k..])
  {
    assert q == q[..k] + q[k..];
  }

  lemma BagCons(bag: multiset<Seg>, q: seq<Seg>)
    requires q != []
    ensures bag + multiset(q) == (bag + multiset{q[0]}) + multiset(q[1..])
  {
    assert q == [q[0]] + q[1..];
  }

  lemma SumsOne(s: Seg)
    ensures Octets([s]) == |s.data| && Pbufs([s]) == s.pbufs && Stream([s]) == s.data
  {
  }

  lemma SumsInsert(q: seq<Seg>, s: Seg)
    ensures Octets(InsertSorted(q, s)) == Octets(q) + |s.data| && Pbufs(InsertSorted(q, s)) == Pbufs(q) + s.pbufs
    ensures multiset(InsertSorted(q, s)) == multiset(q) + multiset{s}
  {
    var k := Place(q, s.seqno);
    SumsJoin(q[..k] + [s], q[k..]);
    SumsJoin(q[..k], [s]);
    SumsSplit(q, k);
    BagSplit(q, k);
    SumsOne(s);
  }

  // ----- Moving segments

  /** Two states that hold the same segments and owe the same amounts. */
  ghost predicate SameHoldings(p: Snd, q: Snd) {
    && p.Bag() == q.Bag() && Octets(p.All()) == Octets(q.All()) && Pbufs(p.All()) == Pbufs(q.All())
    && (p.lbb, p.lastack, p.buf, p.queuelen, p.closed) == (q.lbb, q.lastack, q.buf, q.queuelen, q.closed)
  }

  lemma HeadBag(b: seq<Seg>)
    requires b != []
    ensures multiset(b) == multiset(b[1..]) + multiset{b[0]}
  {
    assert b == [b[0]] + b[1..];
  }

  /** Moving the front of queue `b` into queue `a` changes no bag and no sum. */
  lemma HeadMoves(a: seq<Seg>, a': seq<Seg>, b: seq<Seg>)
    requires b != [] && multiset(a') == multiset(a) + multiset{b[0]}
    requires Octets(a') == Octets(a) + |b[0].data| && Pbufs(a') == Pbufs(a) + b[0].pbufs
    ensures multiset(a') + multiset(b[1..]) == multiset(a) + multiset(b)
    ensures multiset(b[1..]) + multiset(a') == multiset(b) + multiset(a)
    ensures Octets(a') + Octets(b[1..]) == Octets(a) + Octets(b) && Pbufs(a') + Pbufs(b[1..]) == Pbufs(a) + Pbufs(b)
  {
    assert Octets(b) == |b[0].data| + Octets(b[1..]) && Pbufs(b) == b[0].pbufs + Pbufs(b[1..]);
    hide Octets, Pbufs;
    HeadBag(b);
  }

  lemma AllSums(p: Snd)
    ensures Octets(p.All()) == Octets(p.unacked) + Octets(p.unsent) && Pbufs(p.All()) == Pbufs(p.unacked) + Pbufs(p.unsent)
  {
    SumsJoin(p.unacked, p.unsent);
  }

  lemma ToUnackedSums(q: seq<Seg>, s: Seg)
    ensures Octets(ToUnacked(q, s)) == Octets(q) + |s.data| && Pbufs(ToUnacked(q, s)) == Pbufs(q) + s.pbufs
    ensures multiset(ToUnacked(q, s)) == multiset(q) + multiset{s}
  {
    SumsInsert(q, s);
    SumsOne(s);
    hide Octets, Pbufs, Stream, InsertSorted;
    SumsJoin(q, [s]);
  }

  lemma SameOf(p: Snd, q: Snd)
    requires multiset(p.unacked) + multiset(p.unsent) == multiset(q.unacked) + multiset(q.unsent)
    requires Octets(p.unacked) + Octets(p.unsent) == Octets(q.unacked) + Octets(q.unsent)
    requires Pbufs(p.unacked) + Pbufs(p.unsent) == Pbufs(q.unacked) + Pbufs(q.unsent)
    requires (p.lbb, p.lastack, p.buf, p.queuelen, p.closed) == (q.lbb, q.lastack, q.buf, q.queuelen, q.closed)
    ensures SameHoldings(p, q)
  {
    hide Octets, Pbufs, Snd.All;
    AllSums(p);
    AllSums(q);
  }

  lemma SendOneFields(p: Snd)
    requires p.unsent != [] && p.unsent[0].TcpLen() > 0
    ensures var q := SendOne(p);
            && q.unacked == ToUnacked(p.unacked, p.unsent[0]) && q.unsent == p.unsent[1..]
            && (p.lbb, p.lastack, p.buf, p.queuelen, p.closed) == (q.lbb, q.lastack, q.buf, q.queuelen, q.closed)
  {
  }

  lemma SendOneMoves(p: Snd)
    requires p.unsent != [] && p.unsent[0].TcpLen() > 0
    ensures SameHoldings(p, SendOne(p))
  {
    hide *;
    SendOneFields(p);
    ToUnackedSums(p.unacked, p.unsent[0]);
    HeadMoves(p.unacked, ToUnacked(p.unacked, p.unsent[0]), p.unsent);
    SameOf(p, SendOne(p));
  }

  lemma RexmitFields(p: Snd)
    requires p.unacked != []
    ensures var q := Rexmit(p);
            && q.unsent == InsertSorted(p.unsent, p.unacked[0]) && q.unacked == p.unacked[1..]
            && (p.lbb, p.lastack, p.buf, p.queuelen, p.closed) == (q.lbb, q.lastack, q.buf, q.queuelen, q.closed)
  {
  }

  lemma RexmitMoves(p: Snd)
    ensures SameHoldings(p, Rexmit(p))
  {
    if p.unacked != [] {
      hide *;
      RexmitFields(p);
      SumsInsert(p.unsent, p.unacked[0]);
      HeadMoves(p.unsent, InsertSorted(p.unsent, p.unacked[0]), p.unacked);
      SameOf(p, Rexmit(p));
    }
  }

  lemma RexmitRtoMoves(p: Snd)
    ensures SameHoldings(p, RexmitRto(p)) && RexmitRto(p).All() == p.All()
  {
    assert RexmitRto(p).All() == p.All();
  }

  lemma MoveKeeps(p: Snd, q: Snd, out: seq<byte>, sndBuf: int)
    requires SameHoldings(p, q) && SendInv(p, out, sndBuf)
    ensures SendInv(q, out, sndBuf)
  {
  }

  // ----- Order

  lemma InsertKeepsSorted(q: seq<Seg>, s: Seg)
    requires Sorted(q) && forall i :: 0 <= i < |q| ==> q[i].seqno != s.seqno
    ensures Sorted(InsertSorted(q, s))
  {
    var k := Place(q, s.seqno);
    forall i | k <= i < |q| ensures s.seqno < q[i].seqno {
      if k < i { assert q[k].seqno < q[i].seqno; }
    }
  }

  /** On a sorted queue the shortcut for the tail agrees with sorted insertion. */
  lemma ToUnackedIsInsertion(q: seq<Seg>, s: Seg)
    requires Sorted(q) && forall i :: 0 <= i < |q| ==> q[i].seqno != s.seqno
    ensures ToUnacked(q, s) == InsertSorted(q, s)
  {
    assert q != [] && s.seqno > Last(q).seqno ==> Place(q, s.seqno) == |q|;
  }

  /** tcp_rexmit_rto leaves a sorted queue exactly when everything unacked comes before everything unsent. */
  lemma RexmitRtoSorted(p: Snd)
    ensures Sorted(RexmitRto(p).unsent) <==>
      Sorted(p.unacked) && Sorted(p.unsent)
      && forall i, j :: 0 <= i < |p.unacked| && 0 <= j < |p.unsent| ==> p.unacked[i].seqno < p.unsent[j].seqno
  {
    var q := RexmitRto(p).unsent;
    var k := |p.unacked|;
    if Sorted(q) {
      forall i, j | 0 <= i < j < k ensures p.unacked[i].seqno < p.unacked[j].seqno {
        assert q[i].seqno < q[j].seqno;
      }
      forall i, j | 0 <= i < j < |p.unsent| ensures p.unsent[i].seqno < p.unsent[j].seqno {
        assert q[k + i].seqno < q[k + j].seqno;
      }
      forall i, j | 0 <= i < k && 0 <= j < |p.unsent| ensures p.unacked[i].seqno < p.unsent[j].seqno {
        assert q[i].seqno < q[k + j].seqno;
      }
    }
  }

  // ----- Acknowledgements

  lemma {:induction false} DropAckedIs(q: seq<Seg>, ackno: int)
    ensures var d := |q| - |DropAcked(q, ackno)|;
            && (forall i :: 0 <= i < d ==> q[i].TcpEnd() <= ackno)
            && (d < |q| ==> q[d].TcpEnd() > ackno)
  {
    if q != [] && q[0].TcpEnd() <= ackno {
      DropAckedIs(q[1..], ackno);
      var d := |q| - |DropAcked(q, ackno)|;
      hide DropAcked;
      forall i | 0 <= i < d ensures q[i].TcpEnd() <= ackno {
        if i > 0 { assert q[i] == q[1..][i - 1]; }
      }
      assert d < |q| ==> q[d] == q[1..][d - 1];
    }
  }

  lemma DropAckedBag(q: seq<Seg>, ackno: int, s: Seg)
    ensures multiset(DropAcked(q, ackno))[s] <= multiset(q)[s]
    ensures s.TcpEnd() > ackno ==> multiset(DropAcked(q, ackno))[s] == multiset(q)[s]
  {
    var d := |q| - |DropAcked(q, ackno)|;
    DropAckedIs(q, ackno);
    BagSplit(q, d);
    if s in multiset(q[..d]) {
      assert s in q[..d];
    }
  }

  lemma AckBag(p: Snd, ackno: int)
    ensures var q := Ack(p, ackno);
            && (q.unacked == p.unacked || (ackno <= p.nxt && q.unacked == DropAcked(p.unacked, ackno)))
            && (q.unsent == p.unsent || (ackno <= p.nxt && q.unsent == DropAcked(p.unsent, ackno)))
  {
    hide Octets, Pbufs, DropAcked;
  }

  lemma {:induction false} PbufsTell(q: seq<Seg>)
    ensures Pbufs(q) >= |q|
  {
    if q != [] { PbufsTell(q[1..]); }
  }

  /** snd_queuelen is zero exactly when both queues are empty, as tcp_write, tcp_enqueue_flags and tcp_receive assert. */
  lemma QueueLengthTells(p: Snd, sndBuf: int)
    requires Accounted(p, sndBuf)
    ensures 0 <= p.queuelen && (p.queuelen == 0 <==> p.unacked == [] && p.unsent == [])
  {
    PbufsTell(p.All());
  }

  /** A segment leaves the queues only once an acknowledgement covers its end. */
  lemma AckRemovesOnlyAcked(p: Snd, ackno: int, s: Seg)
    ensures Ack(p, ackno).Bag()[s] <= p.Bag()[s]
    ensures Ack(p, ackno).Bag()[s] < p.Bag()[s] ==> s.TcpEnd() <= ackno <= p.nxt
  {
    hide Ack, DropAcked;
    AckBag(p, ackno);
    DropAckedBag(p.unacked, ackno, s);
    DropAckedBag(p.unsent, ackno, s);
  }

  lemma AckAccounts(p: Snd, ackno: int, sndBuf: int)
    requires Accounted(p, sndBuf)
    ensures Accounted(Ack(p, ackno), sndBuf)
  {
    var q := Ack(p, ackno);
    SumsJoin(p.unacked, p.unsent);
    SumsJoin(q.unacked, q.unsent);
  }

  lemma BagShrinks(was: multiset<Seg>, bag: multiset<Seg>, out: seq<byte>, closed: bool)
    requires AllCut(was, out, closed) && Disjoint(was)
    requires forall s :: bag[s] <= was[s]
    ensures AllCut(bag, out, closed) && Disjoint(bag)
  {
    forall s | s in bag ensures s in was && bag[s] == 1 {
      assert 0 < bag[s] <= was[s];
    }
  }

  lemma AckKeepsOctet(p: Snd, ackno: int, out: seq<byte>, i: int)
    requires Held(p, out) && 0 <= i < |out| && Ack(p, ackno).lastack <= i
    ensures Holds(Ack(p, ackno).Bag(), i)
  {
    assert Holds(p.Bag(), i);
    var s :| s in p.Bag() && s.Has(i);
    AckRemovesOnlyAcked(p, ackno, s);
    assert s.TcpEnd() > i;
    assert s in Ack(p, ackno).Bag();
  }

  lemma AckKeeps(p: Snd, ackno: int, out: seq<byte>, sndBuf: int)
    requires SendInv(p, out, sndBuf)
    ensures SendInv(Ack(p, ackno), out, sndBuf)
  {
    var q := Ack(p, ackno);
    AckAccounts(p, ackno, sndBuf);
    forall s ensures q.Bag()[s] <= p.Bag()[s] { AckRemovesOnlyAcked(p, ackno, s); }
    BagShrinks(p.Bag(), q.Bag(), out, p.closed);
    forall i | 0 <= i < |out| && q.lastack <= i ensures Holds(q.Bag(), i) { AckKeepsOctet(p, ackno, out, i); }
  }

  // ----- tcp_write

  lemma FreshSums(news: seq<Seg>, at: int, bytes: seq<byte>, mss: int)
    requires Fresh(news, at, bytes, mss)
    ensures Stream(news) == bytes && Octets(news) == |bytes|
    decreases |bytes|
  {
    if bytes != [] {
      var l := |news[0].data|;
      FreshSums(news[1..], at + l, bytes[l..], mss);
      assert bytes == bytes[..l] + bytes[l..];
    }
  }

  lemma FreshSnoc(news: seq<Seg>, at: int, bytes: seq<byte>, mss: int, s: Seg)
    requires Fresh(news, at, bytes, mss)
    requires 0 < |s.data| <= mss && s.seqno == at + |bytes| && !s.fin
    ensures Fresh(news + [s], at, bytes + s.data, mss)
    decreases |bytes|
  {
    if bytes == [] {
      assert s.data[..|s.data|] == s.data && news + [s] == [s];
    } else {
      var l := |news[0].data|;
      FreshSnoc(news[1..], at + l, bytes[l..], mss, s);
      assert (news + [s])[1..] == news[1..] + [s];
      assert (bytes + s.data)[l..] == bytes[l..] + s.data && (bytes + s.data)[..l] == bytes[..l];
    }
  }

  lemma SumsLast(q: seq<Seg>)
    requires q != []
    ensures Stream(q) == Stream(q[..|q| - 1]) + Last(q).data && Octets(q) == Octets(q[..|q| - 1]) + |Last(q).data|
    ensures Pbufs(q) == Pbufs(q[..|q| - 1]) + Last(q).pbufs
  {
    var k := |q| - 1;
    SumsSplit(q, k);
    assert q[k..] == [q[k]];
    SumsOne(q[k]);
  }

  lemma ExtendSums(a: seq<Seg>, b: seq<Seg>, more: seq<byte>)
    requires ExtendsLast(a, b, more)
    ensures Stream(b) == Stream(a) + more && Octets(b) == Octets(a) + |more|
  {
    if a != [] {
      var front := a[..|a| - 1];
      assert b[..|b| - 1] == front && b != [] && Last(b).data == Last(a).data + more;
      hide *;
      SumsLast(a);
      SumsLast(b);
      Regroup(Stream(front), Last(a).data, more);
    }
  }

  /** On success the unsent octets are the old ones followed by the argument. */
  lemma WriteAppends(p: Snd, q: Snd, arg: seq<byte>, mss: int)
    requires Written(p, q, arg, mss)
    ensures Stream(q.unsent) == Stream(p.unsent) + arg
    ensures Octets(q.unsent) == Octets(p.unsent) + |arg|
  {
    var n, k := Min(|arg|, Room(p.unsent, mss)), |p.unsent|;
    assert 0 <= n <= |arg| && k <= |q.unsent| && ExtendsLast(p.unsent, q.unsent[..k], arg[..n]);
    assert Fresh(q.unsent[k..], p.lbb + n, arg[n..], mss);
    hide *;
    FreshSums(q.unsent[k..], p.lbb + n, arg[n..], mss);
    ExtendSums(p.unsent, q.unsent[..k], arg[..n]);
    SumsSplit(q.unsent, k);
    assert Stream(p.unsent) + arg[..n] + arg[n..] == Stream(p.unsent) + arg;
  }

  // ----- One segment more, one segment longer

  lemma CutGrows(s: Seg, out: seq<byte>, more: seq<byte>)
    requires s.CutFrom(out, false)
    ensures s.CutFrom(out + more, false)
  {
    assert (out + more)[s.seqno..s.End()] == out[s.seqno..s.End()];
  }

  /** A new segment behind everything queued. */
  lemma BagAddsCut(bag: multiset<Seg>, s: Seg, out: seq<byte>)
    requires AllCut(bag, out, false) && s.seqno == |out| && s.data != [] && !s.fin
    ensures AllCut(bag + multiset{s}, out + s.data, false)
  {
    var (bag', out') := (bag + multiset{s}, out + s.data);
    assert s.CutFrom(out', false);
    forall t | t in bag' ensures t.CutFrom(out', false) {
      if t in bag { CutGrows(t, out, s.data); }
    }
  }

  lemma BagAdds(bag: multiset<Seg>, s: Seg, out: seq<byte>)
    requires AllCut(bag, out, false) && Disjoint(bag)
    requires s.seqno == |out| && s.data != [] && !s.fin
    ensures AllCut(bag + multiset{s}, out + s.data, false) && Disjoint(bag + multiset{s})
  {
    var bag' := bag + multiset{s};
    BagAddsCut(bag, s, out);
    forall t | t in bag ensures t != s && t.End() <= s.seqno && bag'[t] == 1 {
      assert t.CutFrom(out, false);
    }
    hide AllCut;
  }

  lemma BagGrows(bag: multiset<Seg>, s: Seg, out: seq<byte>, lastack: int)
    requires Good(bag, out, false, lastack)
    requires s.seqno == |out| && s.data != [] && !s.fin
    ensures Good(bag + multiset{s}, out + s.data, false, lastack)
  {
    var (bag', out') := (bag + multiset{s}, out + s.data);
    BagAdds(bag, s, out);
    hide AllCut, Disjoint;
    forall i | 0 <= i < |out'| && lastack <= i ensures Holds(bag', i) {
      if i < |out| {
        assert Holds(bag, i);
        var t :| t in bag && t.Has(i);
        assert t in bag' && t.Has(i);
      } else {
        assert s in bag' && s.Has(i);
      }
    }
  }

  lemma FreshHead(news: seq<Seg>, at: int, bytes: seq<byte>, mss: int)
    requires Fresh(news, at, bytes, mss) && bytes != []
    ensures news != []
    ensures var s := news[0];
            && 0 < |s.data| <= |bytes| && s.seqno == at && !s.fin && s.data + bytes[|s.data|..] == bytes
            && Fresh(news[1..], at + |s.data|, bytes[|s.data|..], mss)
  {
  }

  lemma FreshKeeps(bag: multiset<Seg>, news: seq<Seg>, at: int, bytes: seq<byte>, mss: int, out: seq<byte>, lastack: int)
    requires Good(bag, out, false, lastack) && at == |out| && Fresh(news, at, bytes, mss)
    ensures Good(bag + multiset(news), out + bytes, false, lastack)
    decreases |bytes|
  {
    if bytes == [] {
      assert out + bytes == out && bag + multiset(news) == bag;
    } else {
      hide *;
      FreshHead(news, at, bytes, mss);
      var s := news[0];
      BagGrows(bag, s, out, lastack);
      FreshKeeps(bag + multiset{s}, news[1..], at + |s.data|, bytes[|s.data|..], mss, out + s.data, lastack);
      BagCons(bag, news);
      Regroup(out, s.data, bytes[|s.data|..]);
    }
  }

  /** `t` takes the place of `s`, the newest segment, with `more` appended. */
  ghost predicate Longer(s: Seg, t: Seg, more: seq<byte>) {
    s.data != [] && t.seqno == s.seqno && t.data == s.data + more && !t.fin
  }

  lemma ExtendsCut(bag: multiset<Seg>, s: Seg, t: Seg, more: seq<byte>, out: seq<byte>)
    requires AllCut(bag, out, false) && s in bag && s.End() == |out| && Longer(s, t, more)
    ensures AllCut(bag - multiset{s} + multiset{t}, out + more, false)
  {
    var (bag', out') := (bag - multiset{s} + multiset{t}, out + more);
    forall u | u in bag' ensures u.CutFrom(out', false) {
      if u != t {
        assert u in bag;
        CutGrows(u, out, more);
      } else {
        assert s.CutFrom(out, false);
        assert out'[s.seqno..] == out[s.seqno..] + more;
      }
    }
  }

  lemma ExtendsDisjoint(bag: multiset<Seg>, s: Seg, t: Seg, more: seq<byte>, out: seq<byte>)
    requires AllCut(bag, out, false) && Disjoint(bag) && s in bag && s.End() == |out| && Longer(s, t, more)
    ensures Disjoint(bag - multiset{s} + multiset{t})
  {
    var bag' := bag - multiset{s} + multiset{t};
    forall u | u in bag' && u != t ensures u in bag && u != s && bag'[u] == 1 && u.End() <= t.seqno {
      assert u in bag;
    }
    assert t in bag ==> t == s;
  }

  lemma ExtendsKept(bag: multiset<Seg>, s: Seg, t: Seg, more: seq<byte>, out: seq<byte>, lastack: int)
    requires Kept(bag, out, lastack) && s.End() == |out| && Longer(s, t, more)
    ensures Kept(bag - multiset{s} + multiset{t}, out + more, lastack)
  {
    var (bag', out') := (bag - multiset{s} + multiset{t}, out + more);
    forall i | 0 <= i < |out'| && lastack <= i ensures Holds(bag', i) {
      if i < |out| && !s.Has(i) {
        assert Holds(bag, i);
        var u :| u in bag && u.Has(i);
        assert u in bag' && u.Has(i);
      } else {
        assert t in bag' && t.Has(i);
      }
    }
  }

  lemma BagExtends(bag: multiset<Seg>, s: Seg, t: Seg, more: seq<byte>, out: seq<byte>, lastack: int)
    requires Good(bag, out, false, lastack) && s in bag && s.End() == |out| && Longer(s, t, more)
    ensures Good(bag - multiset{s} + multiset{t}, out + more, false, lastack)
  {
    hide AllCut, Disjoint, Kept, Longer;
    ExtendsCut(bag, s, t, more, out);
    ExtendsDisjoint(bag, s, t, more, out);
    ExtendsKept(bag, s, t, more, out, lastack);
  }

  lemma ExtendBag(a: seq<Seg>, b: seq<Seg>, more: seq<byte>)
    requires ExtendsLast(a, b, more) && a != []
    ensures multiset(b) == multiset(a) - multiset{Last(a)} + multiset{Last(b)}
  {
    var front := a[..|a| - 1];
    assert a == front + [Last(a)] && b == front + [Last(b)];
  }

  /** The octets that tcp_write puts behind the last unsent segment. */
  function Filled(p: Snd, arg: seq<byte>, mss: int): int { Min(|arg|, Room(p.unsent, mss)) }

  /** Where those octets go is where the application's stream continues. */
  ghost predicate Continues(p: Snd, arg: seq<byte>, mss: int, out: seq<byte>) {
    Filled(p, arg, mss) > 0 ==> Last(p.unsent).End() == |out|
  }

  lemma ExtendNothing(a: seq<Seg>, b: seq<Seg>, bag: multiset<Seg>, out: seq<byte>, lastack: int)
    requires ExtendsLast(a, b, []) && Good(bag + multiset(a), out, false, lastack)
    ensures Good(bag + multiset(b), out, false, lastack)
  {
    if a != [] {
      var (s, t) := (Last(a), Last(b));
      assert t.data == s.data && t.seqno == s.seqno && t.fin == s.fin;
      ExtendBag(a, b, []);
      assert s in multiset(a);
      hide ExtendsLast;
      var was := bag + multiset(a);
      assert bag + multiset(b) == was - multiset{s} + multiset{t};
      SwapSame(was, s, t, out, lastack);
    }
  }

  /** A segment may change how its octets are held in memory. */
  lemma SwapSame(bag: multiset<Seg>, s: Seg, t: Seg, out: seq<byte>, lastack: int)
    requires Good(bag, out, false, lastack) && s in bag && t.data == s.data && t.seqno == s.seqno && t.fin == s.fin
    ensures Good(bag - multiset{s} + multiset{t}, out, false, lastack)
  {
    var bag' := bag - multiset{s} + multiset{t};
    assert AllCut(bag', out, false) by {
      assert s.CutFrom(out, false);
      forall u | u in bag' ensures u.CutFrom(out, false) { assert u in bag || u == t; }
    }
    assert Disjoint(bag') by { SwapDisjoint(bag, s, t, out); }
    hide AllCut, Disjoint;
    forall i | 0 <= i < |out| && lastack <= i ensures Holds(bag', i) {
      assert Holds(bag, i);
      var u :| u in bag && u.Has(i);
      var v := if u == s then t else u;
      assert v in bag' && v.Has(i);
    }
  }

  lemma SwapDisjoint(bag: multiset<Seg>, s: Seg, t: Seg, out: seq<byte>)
    requires AllCut(bag, out, false) && Disjoint(bag) && s in bag && t.data == s.data && t.seqno == s.seqno && t.fin == s.fin
    ensures Disjoint(bag - multiset{s} + multiset{t})
  {
    var bag' := bag - multiset{s} + multiset{t};
    assert s.CutFrom(out, false);
    assert t in bag ==> t == s;
    forall u | u in bag' && u != t
      ensures u in bag && u != s && bag'[u] == 1 && (u.End() <= t.seqno || t.End() <= u.seqno)
    {
      assert u in bag;
    }
  }

  lemma ExtendKeeps(bag: multiset<Seg>, a: seq<Seg>, b: seq<Seg>, more: seq<byte>, out: seq<byte>, lastack: int)
    requires ExtendsLast(a, b, more) && Good(bag + multiset(a), out, false, lastack)
    requires more != [] ==> Last(a).End() == |out| && Last(a).data != []
    ensures Good(bag + multiset(b), out + more, false, lastack)
  {
    if more == [] {
      assert out + more == out;
      ExtendNothing(a, b, bag, out, lastack);
    } else {
      var (s, t) := (Last(a), Last(b));
      var was := bag + multiset(a);
      assert s in multiset(a) && s in was;
      assert s.CutFrom(out, false);
      assert Longer(s, t, more);
      ExtendBag(a, b, more);
      hide *;
      BagExtends(was, s, t, more, out, lastack);
      assert bag + multiset(b) == was - multiset{s} + multiset{t};
    }
  }

  /** tcp_write keeps every queued octet where it belongs. */
  lemma WriteKeeps(p: Snd, q: Snd, arg: seq<byte>, mss: int, out: seq<byte>, sndBuf: int)
    requires SendInv(p, out, sndBuf) && !p.closed && Written(p, q, arg, mss) && Continues(p, arg, mss, out)
    ensures SendInv(q, out + arg, sndBuf)
  {
    WriteAccounts(p, q, arg, mss, sndBuf);
    WriteHeld(p, q, arg, mss, out);
  }

  lemma WriteAccounts(p: Snd, q: Snd, arg: seq<byte>, mss: int, sndBuf: int)
    requires Accounted(p, sndBuf) && Written(p, q, arg, mss)
    ensures Accounted(q, sndBuf)
  {
    hide Fresh, ExtendsLast;
    WriteAppends(p, q, arg, mss);
    SumsJoin(p.unacked, p.unsent);
    SumsJoin(q.unacked, q.unsent);
  }

  lemma WrittenParts(p: Snd, q: Snd, arg: seq<byte>, mss: int)
    requires Written(p, q, arg, mss)
    ensures var (n, k) := (Filled(p, arg, mss), |p.unsent|);
            && 0 <= n <= |arg| && k <= |q.unsent| && ExtendsLast(p.unsent, q.unsent[..k], arg[..n])
            && Fresh(q.unsent[k..], p.lbb + n, arg[n..], mss)
            && (n > 0 ==> p.unsent != [] && Last(p.unsent).data != [])
            && q.closed == p.closed && q.lastack == p.lastack && q.unacked == p.unacked
            && q.Bag() == (multiset(p.unacked) + multiset(q.unsent[..k])) + multiset(q.unsent[k..])
  {
    hide Fresh, ExtendsLast;
    BagSplit(q.unsent, |p.unsent|);
  }

  lemma FillThenAdd(bag: multiset<Seg>, a: seq<Seg>, b: seq<Seg>, news: seq<Seg>, x: seq<byte>, y: seq<byte>, mss: int,
                    out: seq<byte>, lastack: int)
    requires Good(bag + multiset(a), out, false, lastack) && ExtendsLast(a, b, x)
    requires x != [] ==> Last(a).End() == |out| && Last(a).data != []
    requires Fresh(news, |out| + |x|, y, mss)
    ensures Good(bag + multiset(b) + multiset(news), out + (x + y), false, lastack)
  {
    hide *;
    ExtendKeeps(bag, a, b, x, out, lastack);
    FreshKeeps(bag + multiset(b), news, |out| + |x|, y, mss, out + x, lastack);
    Regroup(out, x, y);
  }

  lemma HeldIs(p: Snd, out: seq<byte>)
    ensures Held(p, out) <==> Good(multiset(p.unacked) + multiset(p.unsent), out, p.closed, p.lastack)
  {
    hide Good;
  }

  lemma ContinuesIs(p: Snd, arg: seq<byte>, mss: int, out: seq<byte>)
    requires Continues(p, arg, mss, out) && 0 <= Filled(p, arg, mss) <= |arg|
    requires Filled(p, arg, mss) > 0 ==> p.unsent != [] && Last(p.unsent).data != []
    ensures arg[..Filled(p, arg, mss)] != [] ==> p.unsent != [] && Last(p.unsent).End() == |out| && Last(p.unsent).data != []
  {
  }

  lemma WriteHeld(p: Snd, q: Snd, arg: seq<byte>, mss: int, out: seq<byte>)
    requires Held(p, out) && !p.closed && p.lbb == |out| && Written(p, q, arg, mss) && Continues(p, arg, mss, out)
    ensures Held(q, out + arg)
  {
    hide *;
    WrittenParts(p, q, arg, mss);
    ContinuesIs(p, arg, mss, out);
    var (n, k) := (Filled(p, arg, mss), |p.unsent|);
    HeldIs(p, out);
    FillThenAdd(multiset(p.unacked), p.unsent, q.unsent[..k], q.unsent[k..], arg[..n], arg[n..], mss, out, p.lastack);
    Rejoin(arg, n);
    BagIs(q);
  }

  lemma BagIs(p: Snd)
    ensures p.Bag() == multiset(p.unacked) + multiset(p.unsent)
    ensures forall out :: Held(p, out) <==> Good(p.Bag(), out, p.closed, p.lastack)
  {
    hide Good;
  }

  /** The old last segment is gone or longer; every other queued segment is still there. */
  lemma WriteLeavesOthers(p: Snd, q: Snd, arg: seq<byte>, mss: int, s: Seg)
    requires Written(p, q, arg, mss) && p.unsent != [] && s in p.Bag() && s != Last(p.unsent)
    ensures s in q.Bag()
  {
    var k := |p.unsent|;
    WrittenParts(p, q, arg, mss);
    hide Fresh;
    if s !in p.unacked {
      ExtendBag(p.unsent, q.unsent[..k], arg[..Filled(p, arg, mss)]);
      assert s in multiset(p.unsent);
      assert s in multiset(q.unsent[..k]);
    }
  }

  lemma WriteExtendsLast(p: Snd, q: Snd, arg: seq<byte>, mss: int) returns (t: Seg)
    requires Written(p, q, arg, mss) && p.unsent != []
    ensures t in q.Bag() && t.seqno == Last(p.unsent).seqno && |t.data| == |Last(p.unsent).data| + Filled(p, arg, mss)
  {
    var k := |p.unsent|;
    WrittenParts(p, q, arg, mss);
    hide Fresh;
    t := q.unsent[..k][k - 1];
    assert t in multiset(q.unsent[..k]);
  }

  lemma WriteOverlaps(p: Snd, q: Snd, arg: seq<byte>, mss: int, out: seq<byte>)
    requires Held(p, out) && Written(p, q, arg, mss)
    requires Filled(p, arg, mss) > 0 && p.lastack <= Last(p.unsent).End() < |out|
    ensures !Disjoint(q.Bag())
  {
    var (s, e) := (Last(p.unsent), Last(p.unsent).End());
    NewestInBag(p, out);
    assert Holds(p.Bag(), e);
    var u :| u in p.Bag() && u.Has(e);
    WriteLeavesOthers(p, q, arg, mss, u);
    var t := WriteExtendsLast(p, q, arg, mss);
    assert t.Has(e);
  }

  /**
   tcp_write leaves no stream position queued twice exactly when the segment it fills up ends where the
   application's stream ends, or when it fills up none.
   */
  lemma WriteContiguousExactly(p: Snd, q: Snd, arg: seq<byte>, mss: int, out: seq<byte>)
    requires Held(p, out) && !p.closed && p.lbb == |out| && Written(p, q, arg, mss)
    requires p.unsent != [] ==> p.lastack <= Last(p.unsent).End()
    ensures Disjoint(q.Bag()) <==> Continues(p, arg, mss, out)
  {
    if Continues(p, arg, mss, out) {
      WriteHeld(p, q, arg, mss, out);
    } else {
      NewestInBag(p, out);
      WriteOverlaps(p, q, arg, mss, out);
    }
  }

  // ----- tcp_send_fin

  lemma FinAdds(bag: multiset<Seg>, s: Seg, out: seq<byte>, lastack: int)
    requires Good(bag, out, false, lastack) && s.seqno == |out| && s.data == [] && s.fin
    ensures Good(bag + multiset{s}, out, true, lastack)
  {
    var bag' := bag + multiset{s};
    assert s !in bag;
    forall t | t in bag ensures t.End() <= s.seqno && bag'[t] == 1 { assert t.CutFrom(out, false); }
    forall i | 0 <= i < |out| && lastack <= i ensures Holds(bag', i) {
      assert Holds(bag, i);
      var t :| t in bag && t.Has(i);
      assert t in bag';
    }
  }

  lemma FinMarks(bag: multiset<Seg>, s: Seg, out: seq<byte>, lastack: int)
    requires Good(bag, out, false, lastack) && s in bag
    ensures var bag' := bag - multiset{s} + multiset{s.(fin := true)};
            && Disjoint(bag') && Kept(bag', out, lastack)
            && (AllCut(bag', out, true) <==> s.End() == |out|)
  {
    var t := s.(fin := true);
    var bag' := bag - multiset{s} + multiset{t};
    assert s.CutFrom(out, false);
    assert t !in bag;
    assert t in bag';
    forall u | u in bag' && u != t ensures u in bag && u != s && bag'[u] == 1 { assert u in bag; }
    forall i | 0 <= i < |out| && lastack <= i ensures Holds(bag', i) {
      assert Holds(bag, i);
      var u :| u in bag && u.Has(i);
      var v := if u == s then t else u;
      assert v in bag' && v.Has(i);
    }
  }

  lemma MarkBag(q: seq<Seg>, t: Seg)
    requires q != []
    ensures multiset(q[|q| - 1 := t]) == multiset(q) - multiset{Last(q)} + multiset{t}
  {
    var front := q[..|q| - 1];
    assert q == front + [Last(q)] && q[|q| - 1 := t] == front + [t];
  }

  lemma MarkSums(q: seq<Seg>, t: Seg)
    requires q != [] && t.data == Last(q).data && t.pbufs == Last(q).pbufs
    ensures Octets(q[|q| - 1 := t]) == Octets(q) && Pbufs(q[|q| - 1 := t]) == Pbufs(q)
  {
    var r := q[|q| - 1 := t];
    assert r[..|r| - 1] == q[..|q| - 1];
    hide Stream, Octets, Pbufs;
    SumsLast(q);
    SumsLast(r);
  }

  lemma SendFinSums(p: Snd)
    ensures Octets(SendFin(p).unsent) == Octets(p.unsent)
    ensures Pbufs(SendFin(p).unsent) - Pbufs(p.unsent) == SendFin(p).queuelen - p.queuelen
    ensures SendFin(p).unacked == p.unacked && SendFin(p).buf == p.buf
  {
    hide Octets, Pbufs, Stream;
    if p.unsent != [] && !Last(p.unsent).fin {
      MarkSums(p.unsent, Last(p.unsent).(fin := true));
    } else {
      var s := Seg(p.lbb, [], true, 1, false);
      SumsJoin(p.unsent, [s]);
      SumsOne(s);
    }
  }

  lemma SendFinAccounts(p: Snd, sndBuf: int)
    requires Accounted(p, sndBuf)
    ensures Accounted(SendFin(p), sndBuf)
  {
    hide Octets, Pbufs, Stream, SendFin;
    SendFinSums(p);
    SumsJoin(p.unacked, p.unsent);
    SumsJoin(SendFin(p).unacked, SendFin(p).unsent);
  }

  lemma NewestInBag(p: Snd, out: seq<byte>)
    requires Held(p, out) && p.unsent != []
    ensures Last(p.unsent) in p.Bag() && Last(p.unsent).CutFrom(out, p.closed)
  {
    assert Last(p.unsent) in multiset(p.unsent);
  }

  lemma SendFinBag(p: Snd)
    requires p.unsent != [] && !Last(p.unsent).fin
    ensures SendFin(p).Bag() == p.Bag() - multiset{Last(p.unsent)} + multiset{Last(p.unsent).(fin := true)}
  {
    assert Last(p.unsent) in multiset(p.unsent);
    MarkBag(p.unsent, Last(p.unsent).(fin := true));
  }

  /** The FIN follows the application's last octet exactly when the segment it is put on is the newest. */
  lemma SendFinExactly(p: Snd, out: seq<byte>)
    requires Held(p, out) && !p.closed && p.lbb == |out|
    ensures Held(SendFin(p), out) <==> (p.unsent != [] ==> Last(p.unsent).End() == |out|)
  {
    assert SendFin(p).closed && SendFin(p).lastack == p.lastack;
    if p.unsent == [] {
      var s := Seg(p.lbb, [], true, 1, false);
      assert SendFin(p).Bag() == p.Bag() + multiset{s};
      hide AllCut, Disjoint, Kept, SendFin, Snd.Bag;
      FinAdds(p.Bag(), s, out, p.lastack);
    } else {
      NewestInBag(p, out);
      var s := Last(p.unsent);
      assert !s.fin;
      hide AllCut, Disjoint, Kept, SendFin, Snd.Bag, Last;
      SendFinBag(p);
      FinMarks(p.Bag(), s, out, p.lastack);
    }
  }
}
