/**
 The send path as the stack runs it, with 32-bit sequence numbers that wrap: tcp_write builds its segments in
 locals and commits at the end, and loops relink the unsent and unacked queues. Every method is proved against
 TcpSendSpec, in which positions never wrap.
 */
module TcpSend {
  import opened Bytes
  import opened MachineWords
  import opened SeqSpace
  import opened TcpSendSpec
  import opened TcpSendQueues
  import Runs = TcpSendRuns
  import Sizes = TcpSendOutput

  const OVERFLOW := 0xfffc // TCP_SNDQUEUELEN_OVERFLOW
  const OVERSIZE := 536    // TCP_OVERSIZE

  /** A segment as it stands in memory: position `p` of the stream carries the number base + p. */
  function Word(s: Seg, base: int): Seg { s.(seqno := U32(base + s.seqno)) }

  function Words(q: seq<Seg>, base: int): (w: seq<Seg>)
    ensures |w| == |q| && forall i :: 0 <= i < |q| ==> w[i] == Word(q[i], base)
  {
    seq(|q|, i requires 0 <= i < |q| => Word(q[i], base))
  }

  lemma WordsJoin(a: seq<Seg>, b: seq<Seg>, base: int)
    ensures Words(a + b, base) == Words(a, base) + Words(b, base)
  {
  }

  lemma WordsSplit(q: seq<Seg>, k: nat, base: int)
    requires k <= |q|
    ensures Words(q, base)[..k] == Words(q[..k], base) && Words(q, base)[k..] == Words(q[k..], base)
  {
  }

  // ----- tcp_write

  function Align4(n: int): int { (n + 3) / 4 * 4 }

  /** The size tcp_pbuf_prealloc asks for: some room to spare when more data is likely to follow at once. */
  function Prealloc(length: int, max: int, spare: bool): (alloc: int)
    requires length <= max
    ensures length <= alloc <= max
  {
    if length < max && spare then Min(max, Align4(length + OVERSIZE)) else length
  }

  lemma NewSegment(news: seq<Seg>, at: int, arg: seq<byte>, pos0: nat, pos: nat, seglen: nat, mss: int, s: Seg, base: int)
    requires pos0 <= pos <= pos + seglen <= |arg| && 0 < seglen <= mss && Fresh(news, at + pos0, arg[pos0..pos], mss)
    requires s.seqno == at + pos && s.data == arg[pos..pos + seglen] && !s.fin
    ensures Fresh(news + [s], at + pos0, arg[pos0..pos + seglen], mss)
    ensures Pbufs(news + [s]) == Pbufs(news) + s.pbufs
    ensures Words(news + [s], base) == Words(news, base) + [Word(s, base)]
  {
    FreshSnoc(news, at + pos0, arg[pos0..pos], mss, s);
    assert arg[pos0..pos] + s.data == arg[pos0..pos + seglen];
    hide Fresh;
    SumsJoin(news, [s]);
    SumsOne(s);
    WordsJoin(news, [s], base);
    assert Words([s], base) == [Word(s, base)];
  }

  /** `s` may grow by `oversize` octets in the memory it has. */
  predicate TailRoom(s: Seg, oversize: int, mss: int) {
    0 <= oversize <= mss - |s.data| && (oversize > 0 ==> s.data != [] && !s.rom)
  }

  /** The allocations for one new segment: the pbufs it takes, the room behind it, and the allocations left. */
  method AllocSegment(seglen: int, copy: bool, spare: bool, mss: int, queuelen: int, maxQueue: int, allocs0: nat)
    returns (ok: bool, pbufs: nat, room: int, allocs: nat)
    requires 0 < seglen <= mss
    ensures ok <==> allocs0 >= (if copy then 2 else 3) && queuelen + (if copy then 1 else 2) <= Min(maxQueue, OVERFLOW)
    ensures ok ==> pbufs == (if copy then 1 else 2) && allocs == allocs0 - pbufs - 1
    ensures ok ==> 0 <= room <= mss - seglen && (!copy ==> room == 0)
  {
    ok, pbufs, room, allocs := true, 1, 0, allocs0;
    if copy {
      if allocs < 1 { ok := false; return; }
      allocs := allocs - 1;
      room := Prealloc(seglen, mss, spare) - seglen;
    } else {
      if allocs < 2 { ok := false; return; }
      allocs := allocs - 2;
      pbufs := 2;
    }
    if queuelen + pbufs > maxQueue || queuelen + pbufs > OVERFLOW { ok := false; return; }
    if allocs < 1 { ok := false; return; }
    allocs := allocs - 1;
  }

  /** What phase 3 has built so far from arg[pos0..pos]. */
  ghost predicate Building(news: seq<Seg>, at: int, arg: seq<byte>, pos0: nat, pos: nat, mss: int, base: int, queue: seq<Seg>,
                           oversize0: int, oversize: int)
    requires pos0 <= pos <= |arg|
  {
    && Fresh(news, at + pos0, arg[pos0..pos], mss) && queue == Words(news, base)
    && if news == [] then oversize == oversize0 else TailRoom(Last(news), oversize, mss)
  }

  lemma Builds(news: seq<Seg>, at: int, arg: seq<byte>, pos0: nat, pos: nat, seglen: nat, mss: int, base: int,
               queue: seq<Seg>, oversize0: int, oversize: int, room: int, s: Seg, lbb: int)
    requires pos0 <= pos <= pos + seglen <= |arg| && 0 < seglen <= mss && lbb == U32(base + at)
    requires Building(news, at, arg, pos0, pos, mss, base, queue, oversize0, oversize)
    requires s.seqno == at + pos && s.data == arg[pos..pos + seglen] && !s.fin && 0 <= room <= mss - seglen && (s.rom ==> room == 0)
    ensures Building(news + [s], at, arg, pos0, pos + seglen, mss, base, queue + [s.(seqno := U32(lbb + pos))], oversize0, room)
    ensures Pbufs(news + [s]) == Pbufs(news) + s.pbufs
  {
    hide Fresh, Pbufs, Words, U32;
    Advance(base, at, pos);
    NewSegment(news, at, arg, pos0, pos, seglen, mss, s, base);
  }

  /** Phase 3: new segments for arg[pos0..]; `allocs` bounds how many allocations succeed. */
  method NewSegments(arg: seq<byte>, pos0: nat, copy: bool, more: bool, nodelay: bool, busy: bool, lbb: int, mss: int,
                     maxQueue: int, queuelen0: int, oversize0: int, allocs0: nat, ghost base: int, ghost at: int)
    returns (ok: bool, queue: seq<Seg>, queuelen: int, oversize: int, ghost news: seq<Seg>)
    requires pos0 <= |arg| && 0 < mss && lbb == U32(base + at)
    requires !copy && pos0 < |arg| ==> oversize0 == 0
    ensures ok ==> Fresh(news, at + pos0, arg[pos0..], mss) && Full(news, mss) && queue == Words(news, base)
    ensures ok ==> queuelen == queuelen0 + Pbufs(news) && (news != [] ==> queuelen <= maxQueue)
    ensures ok ==> if news == [] then oversize == oversize0 else TailRoom(Last(news), oversize, mss)
    ensures allocs0 >= 3 * (|arg| - pos0) && queuelen0 + 2 * (|arg| - pos0) <= Min(maxQueue, OVERFLOW) ==> ok
  {
    var pos: nat, allocs: nat := pos0, allocs0;
    ok, queue, queuelen, oversize, news := true, [], queuelen0, oversize0, [];
    assert arg[pos0..pos] == [] && arg[pos0..|arg|] == arg[pos0..];
    assert Pbufs(news) == 0 && Building(news, at, arg, pos0, pos, mss, base, queue, oversize0, oversize);
    hide Fresh, Pbufs, Words, U32, TailRoom, Prealloc, Last;
    while pos < |arg|
      invariant pos0 <= pos <= |arg| && Building(news, at, arg, pos0, pos, mss, base, queue, oversize0, oversize)
      invariant Full(news, mss) && (pos < |arg| && news != [] ==> |news[|news| - 1].data| == mss)
      invariant queuelen == queuelen0 + Pbufs(news) && (news != [] ==> queuelen <= maxQueue)
      invariant allocs0 - allocs <= 3 * (pos - pos0) && queuelen <= queuelen0 + 2 * (pos - pos0)
    {
      var seglen := Min(|arg| - pos, mss);
      var pbufs, room;
      ok, pbufs, room, allocs := AllocSegment(seglen, copy, more || (!nodelay && (queue != [] || busy)), mss, queuelen,
                                              maxQueue, allocs);
      if !ok { return; }
      ghost var s := Seg(at + pos, arg[pos..pos + seglen], false, pbufs, !copy);
      Builds(news, at, arg, pos0, pos, seglen, mss, base, queue, oversize0, oversize, room, s, lbb);
      queue := queue + [Seg(U32(lbb + pos), arg[pos..pos + seglen], false, pbufs, !copy)];
      queuelen, news, oversize := queuelen + pbufs, news + [s], room;
      pos := pos + seglen;
    }
  }

  /** The parts that tcp_write commits: the old queue with its last segment filled up, and new segments. */
  ghost predicate Built(p: Snd, b: seq<Seg>, news: seq<Seg>, arg: seq<byte>, mss: int, queuelen: int) {
    var n := Filled(p, arg, mss);
    && |p.unsent| == |b| && 0 <= n && ExtendsLast(p.unsent, b, arg[..n]) && Fresh(news, p.lbb + n, arg[n..], mss) && Full(news, mss)
    && queuelen == p.queuelen - Pbufs(p.unsent) + Pbufs(b) + Pbufs(news)
  }

  function Committed(p: Snd, q: seq<Seg>, len: int, oversize: int, queuelen: int): Snd {
    p.(unsent := q, oversize := oversize, queuelen := queuelen, lbb := p.lbb + len, buf := p.buf - len)
  }

  lemma Commit(p: Snd, b: seq<Seg>, news: seq<Seg>, arg: seq<byte>, mss: int, oversize: int, queuelen: int)
    requires Built(p, b, news, arg, mss, queuelen)
    ensures Written(p, Committed(p, b + news, |arg|, oversize, queuelen), arg, mss)
  {
    hide Fresh, ExtendsLast, Pbufs;
    SumsJoin(b, news);
    assert (b + news)[..|b|] == b && (b + news)[|b|..] == news;
  }

  lemma ReplaceLast(q: seq<Seg>, t: Seg, more: seq<byte>, base: int)
    requires q != [] && t.seqno == Last(q).seqno && t.fin == Last(q).fin && t.data == Last(q).data + more
    ensures ExtendsLast(q, q[|q| - 1 := t], more)
    ensures Pbufs(q[|q| - 1 := t]) == Pbufs(q) - Last(q).pbufs + t.pbufs
    ensures Words(q, base)[|q| - 1 := Word(t, base)] == Words(q[|q| - 1 := t], base)
  {
    var r := q[|q| - 1 := t];
    assert r[..|r| - 1] == q[..|q| - 1];
    hide Pbufs, Octets, Stream;
    SumsLast(q);
    SumsLast(r);
  }

  lemma CommittedFits(p: Snd, q: seq<Seg>, len: int, oversize: int, queuelen: int, mss: int)
    requires if q == [] then oversize == 0 else TailRoom(Last(q), oversize, mss)
    ensures TailFits(Committed(p, q, len, oversize, queuelen), mss)
  {
  }

  lemma BuiltNew(p: Snd, news: seq<Seg>, arg: seq<byte>, mss: int)
    requires p.unsent == [] && Fresh(news, p.lbb, arg, mss) && Full(news, mss)
    ensures Built(p, [], news, arg, mss, p.queuelen + Pbufs(news))
  {
    assert arg[0..] == arg && arg[..0] == [];
  }

  lemma BuiltOn(p: Snd, t: Seg, news: seq<Seg>, arg: seq<byte>, mss: int, n: nat, base: int)
    requires p.unsent != [] && n == Filled(p, arg, mss) && Fresh(news, p.lbb + n, arg[n..], mss) && Full(news, mss)
    requires t == Last(p.unsent).(data := Last(p.unsent).data + arg[..n], pbufs := t.pbufs, rom := t.rom)
    ensures var b := p.unsent[|p.unsent| - 1 := t];
            && Built(p, b, news, arg, mss, p.queuelen + t.pbufs - Last(p.unsent).pbufs + Pbufs(news))
            && Words(b, base) == Words(p.unsent, base)[|p.unsent| - 1 := Word(t, base)]
  {
    hide Fresh, Pbufs, U32;
    ReplaceLast(p.unsent, t, arg[..n], base);
  }

  // ----- Comparing sequence numbers

  const NEAR := 0x4000_0000

  /** All that is queued lies within a quarter of the sequence space around the last acknowledgement. */
  ghost predicate Near(p: Snd) {
    && (forall i :: 0 <= i < |p.unsent| ==> NearTo(p.unsent[i], p.lastack))
    && (forall i :: 0 <= i < |p.unacked| ==> NearTo(p.unacked[i], p.lastack))
    && -NEAR < p.nxt - p.lastack < NEAR
  }

  predicate NearTo(s: Seg, at: int) { -NEAR < s.seqno - at < NEAR - 0x1_0001 && |s.data| <= 0x1_0000 }

  ghost predicate AllNear(q: seq<Seg>, at: int) {
    forall i :: 0 <= i < |q| ==> NearTo(q[i], at)
  }

  /** The search loops of tcp_output and tcp_rexmit. */
  method FindPlace(q: seq<Seg>, seqno: int, ghost qm: seq<Seg>, ghost at: int, ghost base: int, ghost centre: int) returns (k: nat)
    requires q == Words(qm, base) && seqno == U32(base + at) && AllNear(qm, centre) && -NEAR <= at - centre < NEAR
    ensures k == Place(qm, at)
  {
    hide U32, Words, SignedDiff, Place;
    k := 0;
    while k < |q| && SeqLt(q[k].seqno, seqno)
      invariant k <= |q| && forall i :: 0 <= i < k ==> qm[i].seqno < at
    {
      Order(base, qm[k].seqno, at);
      k := k + 1;
    }
    if k < |q| { Order(base, qm[k].seqno, at); }
  }

  lemma InsertWords(q: seq<Seg>, s: Seg, k: nat, base: int)
    requires k == Place(q, s.seqno)
    ensures Words(InsertSorted(q, s), base) == Words(q, base)[..k] + [Word(s, base)] + Words(q, base)[k..]
  {
    hide Place;
    WordsSplit(q, k, base);
    WordsJoin(q[..k] + [s], q[k..], base);
    WordsJoin(q[..k], [s], base);
    assert Words([s], base) == [Word(s, base)];
  }

  lemma WindowTest(s: Seg, lastack: int, wnd: int, base: int)
    requires NearTo(s, lastack) && 0 <= wnd < NEAR
    ensures U32(Word(s, base).seqno - U32(base + lastack) + |s.data|) <= wnd <==> InWindow(s, lastack, wnd)
  {
    var x := s.End() - lastack;
    assert U32(Word(s, base).seqno - U32(base + lastack) + |s.data|) == U32(x) by {
      hide U32;
      U32Regroup(base + s.seqno, base + lastack, |s.data|);
    }
    assert -TWO31 < x < TWO31;
  }

  lemma U32Regroup(x: int, y: int, n: int)
    ensures U32(U32(x) - U32(y) + n) == U32(x - y + n)
  {
    U32Sub(x, y);
    U32Add(U32(x) - U32(y), n);
    U32Add(x - y, n);
  }

  /** tcp_output puts a segment that it has sent on the unacked queue. */
  method Requeue(unacked: seq<Seg>, seg: Seg, ghost qm: seq<Seg>, ghost s: Seg, ghost base: int, ghost centre: int)
    returns (q: seq<Seg>)
    requires unacked == Words(qm, base) && seg == Word(s, base) && AllNear(qm, centre) && NearTo(s, centre)
    ensures q == Words(ToUnacked(qm, s), base)
  {
    hide U32, Words, SignedDiff, Place;
    WordsJoin(qm, [s], base);
    assert Words([s], base) == [seg];
    if unacked == [] {
      q := [seg];
    } else {
      ghost var last := Last(qm);
      Order(base, s.seqno, last.seqno);
      assert unacked[|unacked| - 1] == Word(last, base);
      if SeqLt(seg.seqno, unacked[|unacked| - 1].seqno) {
        var k := FindPlace(unacked, seg.seqno, qm, s.seqno, base, centre);
        InsertWords(qm, s, k, base);
        q := unacked[..k] + [seg] + unacked[k..];
      } else {
        q := unacked + [seg];
      }
    }
  }

  /** The loops of tcp_receive that free the acknowledged head of a queue. */
  method FreeAcked(q0: seq<Seg>, ackno: int, queuelen0: int, ghost qm: seq<Seg>, ghost a: int, ghost base: int, ghost centre: int)
    returns (q: seq<Seg>, queuelen: int, acked: int)
    requires q0 == Words(qm, base) && ackno == U32(base + a) && AllNear(qm, centre) && -NEAR <= a - centre < NEAR
    requires Pbufs(qm) <= queuelen0
    ensures q == Words(DropAcked(qm, a), base)
    ensures queuelen == queuelen0 - Pbufs(qm) + Pbufs(DropAcked(qm, a)) && acked == Octets(qm) - Octets(DropAcked(qm, a))
  {
    hide U32, Words, SignedDiff, DropAcked, Pbufs, Octets, SeqLeq;
    q, queuelen, acked := q0, queuelen0, 0;
    ghost var r := qm;
    while q != [] && SeqLeq(U32(q[0].seqno + q[0].TcpLen()), ackno)
      invariant q == Words(r, base) && AllNear(r, centre) && DropAcked(r, a) == DropAcked(qm, a)
      invariant queuelen == queuelen0 - Pbufs(qm) + Pbufs(r) && Pbufs(r) <= queuelen && acked == Octets(qm) - Octets(r)
      decreases |q|
    {
      AckedTest(r[0], a, base, centre);
      DropOne(r, a);
      WordsSplit(r, 1, base);
      assert queuelen >= q[0].pbufs;
      queuelen, acked := queuelen - q[0].pbufs, acked + |q[0].data|;
      q, r := q[1..], r[1..];
    }
    if q != [] { AckedTest(r[0], a, base, centre); }
    DropNone(r, a);
  }

  /** Both loops: the unacked queue if the acknowledgement is new, the unsent one if it is not beyond snd_nxt. */
  method FreeBoth(unacked0: seq<Seg>, unsent0: seq<Seg>, ackno: int, ins: bool, ok: bool, queuelen0: int, buf0: int,
                  oversize0: int, lastack0: int, ghost p: Snd, ghost a: int, ghost base: int)
    returns (unacked: seq<Seg>, unsent: seq<Seg>, queuelen: int, buf: int, oversize: int, lastack: int)
    requires unacked0 == Words(p.unacked, base) && unsent0 == Words(p.unsent, base) && ackno == U32(base + a)
    requires queuelen0 == p.queuelen && buf0 == p.buf && oversize0 == p.oversize && lastack0 == U32(base + p.lastack)
    requires (ins <==> p.lastack < a <= p.nxt) && (ok <==> a <= p.nxt)
    requires AllNear(p.unacked, p.lastack) && AllNear(p.unsent, p.lastack) && -NEAR <= a - p.lastack < NEAR
    requires Pbufs(p.unacked) + Pbufs(p.unsent) <= queuelen0
    ensures var r := Ack(p, a);
            && unacked == Words(r.unacked, base) && unsent == Words(r.unsent, base)
            && queuelen == r.queuelen && buf == r.buf && oversize == r.oversize && lastack == U32(base + r.lastack)
  {
    hide *;
    var freed, more := 0, 0;
    AckIs(p, a);
    unacked, unsent, queuelen, lastack := unacked0, unsent0, queuelen0, lastack0;
    if ins {
      lastack := ackno;
      unacked, queuelen, freed := FreeAcked(unacked, ackno, queuelen, p.unacked, a, base, p.lastack);
    }
    if ok {
      unsent, queuelen, more := FreeAcked(unsent, ackno, queuelen, p.unsent, a, base, p.lastack);
    }
    oversize := if unsent == [] then 0 else oversize0;
    buf := buf0 + freed + more;
  }

  lemma DropOne(q: seq<Seg>, a: int)
    requires q != [] && q[0].TcpEnd() <= a
    ensures DropAcked(q, a) == DropAcked(q[1..], a)
    ensures Pbufs(q) == q[0].pbufs + Pbufs(q[1..]) && Octets(q) == |q[0].data| + Octets(q[1..])
  {
  }

  lemma DropNone(q: seq<Seg>, a: int)
    requires q != [] ==> a < q[0].TcpEnd()
    ensures DropAcked(q, a) == q
  {
  }

  lemma AckedTest(s: Seg, a: int, base: int, centre: int)
    requires NearTo(s, centre) && -NEAR <= a - centre < NEAR
    ensures SeqLeq(U32(Word(s, base).seqno + Word(s, base).TcpLen()), U32(base + a)) <==> s.TcpEnd() <= a
  {
    Advance(base, s.seqno, s.TcpLen());
    Order(base, s.TcpEnd(), a);
  }

  datatype Err = Ok | Mem | Conn

  class SndPcb {
    var unsent: seq<Seg>
    var unacked: seq<Seg>
    var unsentOversize: int
    var sndLbb: int
    var sndNxt: int
    var lastack: int
    var sndBuf: int
    var sndQueuelen: int
    var mss: int
    var sndWndMax: int
    var nagleMemErr: bool
    var finFlag: bool
    const maxQueue: int
    const nodelay: bool
    /** The same connection over positions, and the sequence number of position 0. */
    ghost var m: Snd
    ghost const base: int

    ghost predicate Valid()
      reads this
    {
      && unsent == Words(m.unsent, base) && unacked == Words(m.unacked, base)
      && sndLbb == U32(base + m.lbb) && sndNxt == U32(base + m.nxt) && lastack == U32(base + m.lastack)
      && unsentOversize == m.oversize && sndBuf == m.buf && sndQueuelen == m.queuelen && finFlag == m.closed
    }

    function Limit(): int
      reads this
    {
      MssLocal(mss, sndWndMax)
    }

    /** An established connection before any data, with initial sequence number iss. */
    constructor (iss: int, bufSize: int, queueSize: int, mss: int, wnd: int, nodelay: bool)
      ensures Valid() && m == Snd([], [], 0, 0, 0, 0, bufSize, 0, false) && maxQueue == queueSize
      ensures this.mss == mss && sndWndMax == wnd
    {
      base := iss + 1;
      m := Snd([], [], 0, 0, 0, 0, bufSize, 0, false);
      unsent, unacked, unsentOversize := [], [], 0;
      sndLbb, sndNxt, lastack := U32(iss + 1), U32(iss + 1), U32(iss + 1);
      sndBuf, sndQueuelen, finFlag, nagleMemErr := bufSize, 0, false, false;
      this.mss, sndWndMax, maxQueue, this.nodelay := mss, wnd, queueSize, nodelay;
    }

    /** tcp_write_checks */
    method WriteChecks(len: nat, writable: bool) returns (err: Err)
      requires Valid()
      modifies this`nagleMemErr
      ensures err == if !writable then Conn
                     else if len > 0 && (len > sndBuf || sndQueuelen >= maxQueue || sndQueuelen > OVERFLOW) then Mem
                     else Ok
      ensures nagleMemErr == (old(nagleMemErr) || err == Mem)
    {
      if !writable {
        return Conn;
      } else if len == 0 {
        return Ok;
      }
      if len > sndBuf {
        nagleMemErr := true;
        return Mem;
      }
      if sndQueuelen >= maxQueue || sndQueuelen > OVERFLOW {
        nagleMemErr := true;
        return Mem;
      }
      err := Ok;
    }
  
    /** Phases 1 and 2: `t` is the last unsent segment with arg[..pos] behind it. */
    method FillLast(arg: seq<byte>, copy: bool, more: bool, adjacent: bool, allocs0: nat)
      returns (ok: bool, t: Seg, pos: nat, queuelen: int, oversize: int, allocs: nat, ghost tm: Seg)
      requires Valid() && unsent != [] && TailFits(m, Limit())
      ensures ok ==> pos <= |arg| && pos == Filled(m, arg, Limit()) && t == Word(tm, base)
      ensures ok ==> tm == Last(m.unsent).(data := Last(m.unsent).data + arg[..pos], pbufs := tm.pbufs, rom := tm.rom)
      ensures ok ==> queuelen == sndQueuelen + tm.pbufs - Last(m.unsent).pbufs
      ensures ok ==> TailRoom(tm, oversize, Limit())
      ensures ok ==> (pos < |arg| ==> oversize == 0)
      ensures ok ==> 0 <= queuelen - sndQueuelen <= Min(pos, 1) && allocs0 - 1 <= allocs <= allocs0
      ensures ok ==> (pos == 0 ==> allocs == allocs0)
      ensures allocs0 > 0 ==> ok
    {
      var last := unsent[|unsent| - 1];
      tm := Last(m.unsent);
      assert last == Word(tm, base);
      hide Words, U32;
      var space := Limit() - |last.data|;
      ok, allocs, queuelen, oversize := true, allocs0, sndQueuelen, unsentOversize;
      pos := if oversize > 0 then Min(space, Min(oversize, |arg|)) else 0;
      oversize, space := oversize - pos, space - pos;
      assert oversize == 0 || pos == |arg|;
      t := last.(data := last.data + arg[..pos]);
      tm := tm.(data := tm.data + arg[..pos]);
      if pos < |arg| && space > 0 && last.data != [] {
        var seglen := Min(space, |arg| - pos);
        var pbufs, rom := 1, !copy;
        if copy {
          if allocs < 1 { ok := false; return; }
          allocs := allocs - 1;
          oversize := Prealloc(seglen, space, more || !nodelay) - seglen;
        } else if last.rom && adjacent {
          assert pos == 0;
          pbufs := 0;
        } else {
          if allocs < 1 { ok := false; return; }
          allocs := allocs - 1;
        }
        queuelen := queuelen + pbufs;
        t := last.(data := last.data + arg[..pos + seglen], pbufs := last.pbufs + pbufs, rom := rom);
        tm := Last(m.unsent).(data := Last(m.unsent).data + arg[..pos + seglen], pbufs := t.pbufs, rom := rom);
        pos := pos + seglen;
      }
    }
  
    /** Nothing but TF_NAGLEMEMERR has changed. */
    twostate predicate SameQueues()
      reads this
    {
      && m == old(m) && unsent == old(unsent) && unacked == old(unacked) && unsentOversize == old(unsentOversize)
      && sndLbb == old(sndLbb) && sndNxt == old(sndNxt) && lastack == old(lastack) && finFlag == old(finFlag)
      && sndBuf == old(sndBuf) && sndQueuelen == old(sndQueuelen) && mss == old(mss) && sndWndMax == old(sndWndMax)
    }

    /** Commit the segments that tcp_write has built: `b` replaces the old unsent queue, `queue` follows it. */
    method CommitWrite(arg: seq<byte>, b: seq<Seg>, queue: seq<Seg>, queuelen: int, oversize: int,
                       ghost bm: seq<Seg>, ghost news: seq<Seg>)
      requires Valid() && b == Words(bm, base) && queue == Words(news, base)
      requires Built(m, bm, news, arg, Limit(), queuelen)
      modifies this`unsent, this`unsentOversize, this`sndLbb, this`sndBuf, this`sndQueuelen, this`m
      ensures Valid() && Written(old(m), m, arg, Limit())
      ensures m == Committed(old(m), bm + news, |arg|, oversize, queuelen)
    {
      hide Words, U32, Built, Written, MssLocal, Last, Fresh, Pbufs;
      Commit(m, bm, news, arg, Limit(), oversize, queuelen);
      WordsJoin(bm, news, base);
      Advance(base, m.lbb, |arg|);
      m := Committed(m, bm + news, |arg|, oversize, queuelen);
      unsent := b + queue;
      unsentOversize, sndQueuelen := oversize, queuelen;
      sndLbb, sndBuf := U32(sndLbb + |arg|), sndBuf - |arg|;
    }
  
    /** The three phases of tcp_write, on locals only. */
    method Build(arg: seq<byte>, copy: bool, more: bool, adjacent: bool, allocs: nat)
      returns (ok: bool, b: seq<Seg>, queue: seq<Seg>, queuelen: int, oversize: int,
               ghost bm: seq<Seg>, ghost news: seq<Seg>)
      requires Valid() && 0 < Limit() && TailFits(m, Limit())
      ensures ok ==> b == Words(bm, base) && queue == Words(news, base) && Built(m, bm, news, arg, Limit(), queuelen)
      ensures ok ==> if bm + news == [] then oversize == 0 else TailRoom(Last(bm + news), oversize, Limit())
      ensures ok ==> queuelen <= if news == [] then sndQueuelen + 1 else maxQueue
      ensures allocs > 3 * |arg| && sndQueuelen + 2 * |arg| < Min(maxQueue, OVERFLOW) ==> ok
    {
      var busy := unsent != [] || unacked != [];
      if unsent == [] {
        assert arg[0..] == arg;
        hide Fresh, Words, U32, Built, Pbufs, MssLocal;
        b, bm := [], [];
        ok, queue, queuelen, oversize, news := NewSegments(arg, 0, copy, more, nodelay, busy, sndLbb, Limit(), maxQueue,
                                                           sndQueuelen, unsentOversize, allocs, base, m.lbb);
        if ok { BuiltNew(m, news, arg, Limit()); }
      } else {
        hide Fresh, Words, U32, Built, Filled, Pbufs, MssLocal;
        var t, pos, left;
        ghost var tm;
        ok, t, pos, queuelen, oversize, left, tm := FillLast(arg, copy, more, adjacent, allocs);
        b, bm, queue, news := [], [], [], [];
        if ok {
          b, bm := unsent[|unsent| - 1 := t], m.unsent[|m.unsent| - 1 := tm];
          ok, queue, queuelen, oversize, news := NewSegments(arg, pos, copy, more, nodelay, busy, sndLbb, Limit(), maxQueue,
                                                             queuelen, oversize, left, base, m.lbb);
          if ok { BuiltOn(m, tm, news, arg, Limit(), pos, base); }
        }
      }
    }

    method Enqueue(arg: seq<byte>, copy: bool, more: bool, adjacent: bool, allocs: nat) returns (ok: bool)
      requires Valid() && 0 < Limit() && TailFits(m, Limit())
      modifies this`unsent, this`unsentOversize, this`sndLbb, this`sndBuf, this`sndQueuelen, this`m
      ensures Valid() && TailFits(m, Limit())
      ensures ok ==> Written(old(m), m, arg, Limit()) && m.queuelen <= Max(old(sndQueuelen) + 1, maxQueue)
      ensures !ok ==> SameQueues()
      ensures allocs > 3 * |arg| && old(sndQueuelen) + 2 * |arg| < Min(maxQueue, OVERFLOW) ==> ok
    {
      hide Words, U32, Built, Written, MssLocal, TailFits, TailRoom;
      var b, queue, queuelen, oversize;
      ghost var bm, news;
      ok, b, queue, queuelen, oversize, bm, news := Build(arg, copy, more, adjacent, allocs);
      if ok {
        CommittedFits(m, bm + news, |arg|, oversize, queuelen, Limit());
        CommitWrite(arg, b, queue, queuelen, oversize, bm, news);
      }
    }

    /**
     tcp_write. `writable` is the test of the connection state, `adjacent` whether `arg` follows the last
     referenced buffer in memory, and `allocs` how many allocations will succeed.
     */
    method Write(arg: seq<byte>, copy: bool, more: bool, writable: bool, adjacent: bool, allocs: nat) returns (err: Err)
      requires Valid() && 0 < Limit() && TailFits(m, Limit())
      modifies this
      ensures Valid() && Limit() == old(Limit()) && TailFits(m, Limit())
      ensures err == Ok ==> Written(old(m), m, arg, Limit()) && nagleMemErr == old(nagleMemErr)
      ensures mss == old(mss) && sndWndMax == old(sndWndMax)
      ensures 0 < mss && 0 <= sndWndMax && Runs.AllShort(old(m.unsent), mss) ==> Runs.AllShort(m.unsent, mss)
      ensures err == Ok && |arg| > 0 ==> m.queuelen <= maxQueue
      ensures err != Ok ==> SameQueues() && nagleMemErr == (old(nagleMemErr) || err == Mem)
      ensures err == Conn <==> !writable
      ensures (writable && |arg| <= old(sndBuf) && allocs > 3 * |arg| &&
               old(sndQueuelen) + 2 * |arg| < Min(maxQueue, OVERFLOW)) ==> err == Ok
    {
      hide Words, U32, Written, MssLocal, TailFits, Runs.AllShort;
      err := WriteChecks(|arg|, writable);
      if err == Ok {
        var ok := Enqueue(arg, copy, more, adjacent, allocs);
        if !ok {
          nagleMemErr := true;
          err := Mem;
        } else if 0 < mss && 0 <= sndWndMax && Runs.AllShort(old(m.unsent), mss) {
          Sizes.WriteWithinMss(old(m), m, arg, mss, sndWndMax);
        }
      }
    }
  
    /** tcp_output takes the first unsent segment, which the link has accepted, off the unsent queue. */
    method TransmitOne()
      requires Valid() && Near(m) && unsent != []
      modifies this
      ensures Valid() && Near(m) && m == SendOne(old(m))
    {
      hide U32, Words, SignedDiff, Place, ToUnacked;
      var seg := unsent[0];
      ghost var s := m.unsent[0];
      WordsSplit(m.unsent, 1, base);
      Advance(base, s.seqno, s.TcpLen());
      Order(base, m.nxt, s.TcpEnd());
      SendOneNear(m);
      var nxt := U32(seg.seqno + seg.TcpLen());
      if seg.TcpLen() > 0 {
        unacked := Requeue(unacked, seg, m.unacked, s, base, m.lastack);
      }
      if SeqLt(sndNxt, nxt) { sndNxt := nxt; }
      unsent := unsent[1..];
      if unsent == [] { unsentOversize := 0; }
      m := SendOne(m);
    }

    /** tcp_output */
    method Transmit(wnd: int, permitted: nat)
      requires Valid() && Near(m) && 0 <= wnd < NEAR
      modifies this
      ensures Valid() && Near(m) && m == Output(old(m), wnd, permitted)
    {
      hide U32, Words, SendOne, Near;
      var tries := permitted;
      while unsent != [] && U32(unsent[0].seqno - lastack + |unsent[0].data|) <= wnd && tries > 0
        invariant Valid() && Near(m) && Output(m, wnd, tries) == Output(old(m), wnd, permitted)
        decreases tries
      {
        HeadTest(wnd);
        TransmitOne();
        tries := tries - 1;
      }
      if unsent != [] { HeadTest(wnd); }
    }

    lemma HeadTest(wnd: int)
      requires Valid() && Near(m) && 0 <= wnd < NEAR && unsent != []
      ensures U32(unsent[0].seqno - lastack + |unsent[0].data|) <= wnd <==> InWindow(m.unsent[0], m.lastack, wnd)
    {
      WindowTest(m.unsent[0], m.lastack, wnd, base);
    }

    /** tcp_rexmit */
    method FastRetransmit()
      requires Valid() && Near(m)
      modifies this
      ensures Valid() && m == Rexmit(old(m))
    {
      hide U32, Words, SignedDiff, Place;
      if unacked == [] { return; }
      var seg := unacked[0];
      ghost var s := m.unacked[0];
      WordsSplit(m.unacked, 1, base);
      var k := FindPlace(unsent, seg.seqno, m.unsent, s.seqno, base, m.lastack);
      InsertWords(m.unsent, s, k, base);
      m := Rexmit(m);
      unacked := unacked[1..];
      if k == |unsent| { unsentOversize := 0; }
      unsent := unsent[..k] + [seg] + unsent[k..];
    }

    /** tcp_rexmit_rto up to its call of tcp_output */
    method RetransmitAll()
      requires Valid()
      modifies this
      ensures Valid() && m == RexmitRto(old(m))
    {
      hide U32, Words;
      if unacked == [] {
        assert m.unacked + m.unsent == m.unsent;
        return;
      }
      WordsJoin(m.unacked, m.unsent, base);
      m := RexmitRto(m);
      unsent, unacked := unacked + unsent, [];
    }

    /** The send queues in tcp_receive, for a segment that acknowledges `ackno`. */
    method Acked(ackno: int, ghost a: int)
      requires Valid() && Near(m) && ackno == U32(base + a) && -NEAR <= a - m.lastack < NEAR
      requires Pbufs(m.unacked) + Pbufs(m.unsent) <= m.queuelen
      modifies this
      ensures Valid() && m == Ack(old(m), a)
    {
      hide U32, Words, SignedDiff, DropAcked, Octets, Pbufs, SeqLeq, SeqBetween, Ack, Near, AllNear, NearTo, Last;
      var ins, ok := SeqBetween(ackno, U32(lastack + 1), sndNxt), SeqLeq(ackno, sndNxt);
      NearQueues(m);
      AckTests(base, a, m.lastack, m.nxt);
      AckLeaves(m, a);
      unacked, unsent, sndQueuelen, sndBuf, unsentOversize, lastack :=
        FreeBoth(unacked, unsent, ackno, ins, ok, sndQueuelen, sndBuf, unsentOversize, lastack, m, a, base);
      m := Ack(m, a);
    }

    /** tcp_send_fin; `allocs` tells whether the allocations for a segment of its own succeed. */
    method Fin(allocs: bool) returns (err: Err)
      requires Valid() && !finFlag
      modifies this
      ensures Valid() && mss == old(mss) && sndWndMax == old(sndWndMax)
      ensures err == Ok ==> m == SendFin(old(m)) && nagleMemErr == old(nagleMemErr)
      ensures err == Mem ==> SameQueues() && nagleMemErr
      ensures err == if allocs || (old(m.unsent) != [] && !Last(old(m.unsent)).fin) then Ok else Mem
    {
      hide U32, Words;
      if unsent != [] && !unsent[|unsent| - 1].fin {
        ghost var t := Last(m.unsent).(fin := true);
        unsent := unsent[|unsent| - 1 := unsent[|unsent| - 1].(fin := true)];
        assert unsent == Words(m.unsent[|m.unsent| - 1 := t], base);
        finFlag := true;
        m := SendFin(m);
        return Ok;
      }
      if !allocs {
        nagleMemErr := true;
        return Mem;
      }
      ghost var s := Seg(m.lbb, [], true, 1, false);
      WordsJoin(m.unsent, [s], base);
      assert Words([s], base) == [Word(s, base)];
      Advance(base, m.lbb, 1);
      m := SendFin(m);
      unsent := unsent + [Seg(sndLbb, [], true, 1, false)];
      unsentOversize, sndLbb, finFlag, sndQueuelen := 0, U32(sndLbb + 1), true, sndQueuelen + 1;
      err := Ok;
    }
  }

  /** The two tests on an acknowledgement number, on numbers and on positions. */
  lemma AckTests(base: int, a: int, lastack: int, nxt: int)
    requires -NEAR <= a - lastack < NEAR && -NEAR < nxt - lastack < NEAR
    ensures SeqBetween(U32(base + a), U32(U32(base + lastack) + 1), U32(base + nxt)) <==> lastack < a <= nxt
    ensures SeqLeq(U32(base + a), U32(base + nxt)) <==> a <= nxt
  {
    hide U32, SignedDiff;
    Advance(base, lastack, 1);
    Order(base, a, lastack + 1);
    Order(base, a, nxt);
  }

  lemma NearQueues(p: Snd)
    requires Near(p)
    ensures AllNear(p.unsent, p.lastack) && AllNear(p.unacked, p.lastack) && -NEAR < p.nxt - p.lastack < NEAR
  {
  }

  lemma AckLeaves(p: Snd, ackno: int)
    ensures Ack(p, ackno).nxt == p.nxt && Ack(p, ackno).closed == p.closed && Ack(p, ackno).lbb == p.lbb
  {
    hide Octets, Pbufs, DropAcked;
  }

  lemma AckIs(p: Snd, ackno: int)
    ensures var (q, acksNew) := (Ack(p, ackno), p.lastack < ackno <= p.nxt);
            && q.lastack == (if acksNew then ackno else p.lastack)
            && q.unacked == (if acksNew then DropAcked(p.unacked, ackno) else p.unacked)
            && q.unsent == (if ackno <= p.nxt then DropAcked(p.unsent, ackno) else p.unsent)
            && q.oversize == (if q.unsent == [] then 0 else p.oversize)
            && q.buf == p.buf + Octets(p.unacked) - Octets(q.unacked) + Octets(p.unsent) - Octets(q.unsent)
            && q.queuelen == p.queuelen - Pbufs(p.unacked) + Pbufs(q.unacked) - Pbufs(p.unsent) + Pbufs(q.unsent)
  {
    hide Octets, Pbufs, DropAcked;
  }

  lemma SendOneNear(p: Snd)
    requires Near(p) && p.unsent != []
    ensures Near(SendOne(p))
  {
  }

  // ----- In the usual shape everything is near

  /** Only the last segment can carry the FIN, so a chain spans its octets and at most one number more. */
  lemma ChainSpan(q: seq<Seg>)
    requires q != [] && Chained(q) && forall i :: 0 <= i < |q| - 1 ==> !q[i].fin
    ensures Last(q).TcpEnd() - q[0].seqno == Octets(q) + if Last(q).fin then 1 else 0
  {
    if |q| == 1 {
      SumsOne(q[0]);
      assert q == [q[0]];
    } else {
      var r := q[..|q| - 1];
      assert Last(q).seqno == Last(r).TcpEnd();
      ChainSpan(r);
      SumsLast(q);
    }
  }

  lemma InBag(p: Snd, out: seq<byte>, i: nat)
    requires Held(p, out) && i < |p.All()|
    ensures p.All()[i].CutFrom(out, p.closed)
  {
    var s := p.All()[i];
    assert s in p.unacked || s in p.unsent;
    assert s in multiset(p.unacked) || s in multiset(p.unsent);
    assert s in p.Bag();
  }

  lemma OnlyLastFin(p: Snd, out: seq<byte>, i: nat)
    requires Held(p, out) && Normal(p, out) && i < |p.All()| - 1
    ensures !p.All()[i].fin
  {
    var q := p.All();
    Runs.HeldPositive(p, out);
    InBag(p, out, i);
    InBag(p, out, |q| - 1);
    Runs.ChainedOrder(q, i, |q| - 1);
  }

  /** The oldest octet not yet acknowledged is in the first segment, or everything is acknowledged. */
  lemma OldestHoldsLastack(p: Snd, out: seq<byte>)
    requires Held(p, out) && Normal(p, out) && 0 <= p.lastack
    ensures if p.All() == [] then |out| <= p.lastack else p.All()[0].seqno <= p.lastack
  {
    var q := p.All();
    if p.lastack < |out| {
      assert Holds(p.Bag(), p.lastack);
      var s :| s in p.Bag() && s.Has(p.lastack);
      assert s in multiset(p.unacked) || s in multiset(p.unsent);
      assert s in q;
      Runs.HeldPositive(p, out);
      var i :| 0 <= i < |q| && q[i] == s;
      if i > 0 { Runs.ChainedOrder(q, 0, i); }
    } else if q != [] {
      InBag(p, out, 0);
    }
  }

  lemma NormalSpan(p: Snd, out: seq<byte>)
    requires Held(p, out) && Normal(p, out) && Octets(p.All()) < 0x1_0000 && p.All() != []
    ensures Last(p.All()).TcpEnd() - p.All()[0].seqno <= 0x1_0000
  {
    forall i | 0 <= i < |p.All()| - 1 ensures !p.All()[i].fin { OnlyLastFin(p, out, i); }
    hide Held;
    ChainSpan(p.All());
  }

  lemma SpanIsNear(q: seq<Seg>, lastack: int, i: nat)
    requires Chained(q) && Runs.Positive(q) && i < |q| && Last(q).TcpEnd() - q[0].seqno <= 0x1_0000
    requires q[0].seqno <= lastack <= Last(q).TcpEnd()
    ensures NearTo(q[i], lastack)
  {
    Runs.LastEndsLast(q, i);
    if i > 0 { Runs.ChainedOrder(q, 0, i); }
  }

  /** With a 16-bit send buffer the queues of the usual shape are always near, so comparisons never wrap. */
  lemma NormalIsNear(p: Snd, out: seq<byte>, sndBuf: int)
    requires SendInv(p, out, sndBuf) && Normal(p, out) && 0 <= p.buf && sndBuf < 0x1_0000 && 0 <= p.lastack
    ensures Near(p)
  {
    OldestHoldsLastack(p, out);
    if p.All() != [] {
      NormalSpan(p, out);
      Runs.HeldPositive(p, out);
    }
    hide Held, Accounted, Chained, Runs.Positive, NearTo;
    forall i | 0 <= i < |p.All()| ensures NearTo(p.All()[i], p.lastack) { SpanIsNear(p.All(), p.lastack, i); }
    NearOf(p);
  }

  lemma NearOf(p: Snd)
    requires AllNear(p.All(), p.lastack) && -NEAR < p.nxt - p.lastack < NEAR
    ensures Near(p)
  {
    var q := p.All();
    hide NearTo;
    assert forall i :: 0 <= i < |p.unacked| ==> p.unacked[i] == q[i];
    assert forall i :: 0 <= i < |p.unsent| ==> p.unsent[i] == q[|p.unacked| + i];
  }
}
