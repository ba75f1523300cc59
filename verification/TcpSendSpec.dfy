/**
 The send half of an established connection over unbounded stream positions: what tcp_write puts on the
 unsent queue, how tcp_output and the retransmission routines trade segments between the unsent and the
 unacked queue, and what an acknowledgement removes.
 */
module TcpSendSpec {
  import opened Bytes

  /** The length of a pbuf chain: there is at least the pbuf with the header. */
  type ChainLen = n: int | 0 < n witness 1

  /** A queued segment; `pbufs` is the length of its pbuf chain, `rom` that the chain ends in a reference. */
  datatype Seg = Seg(seqno: int, data: seq<byte>, fin: bool, pbufs: ChainLen, rom: bool) {
    function End(): int { seqno + |data| }
    function TcpLen(): int { |data| + if fin then 1 else 0 }
    function TcpEnd(): int { seqno + TcpLen() }
    predicate Has(i: int) { seqno <= i < End() }

    /** The octets are those of the application's stream at this position, and only its end carries a FIN. */
    ghost predicate CutFrom(out: seq<byte>, closed: bool) {
      && 0 < TcpLen() && 0 <= seqno && End() <= |out| && data == out[seqno..End()]
      && (fin ==> closed && End() == |out|)
    }
  }

  /** The pcb fields of the send path; `closed` is TF_FIN. */
  datatype Snd = Snd(unsent: seq<Seg>, unacked: seq<Seg>, oversize: int, lbb: int, nxt: int, lastack: int,
                     buf: int, queuelen: int, closed: bool)
  {
    function All(): seq<Seg> { unacked + unsent }
    ghost function Bag(): multiset<Seg> { multiset(unacked) + multiset(unsent) }
  }

  function Last(q: seq<Seg>): Seg
    requires q != []
  {
    q[|q| - 1]
  }

  // ----- What the queues hold

  function Stream(q: seq<Seg>): seq<byte> {
    if q == [] then [] else q[0].data + Stream(q[1..])
  }

  function Octets(q: seq<Seg>): nat {
    if q == [] then 0 else |q[0].data| + Octets(q[1..])
  }

  function Pbufs(q: seq<Seg>): nat {
    if q == [] then 0 else q[0].pbufs + Pbufs(q[1..])
  }

  /** Every queued segment is a piece of what the application wrote. */
  ghost predicate AllCut(bag: multiset<Seg>, out: seq<byte>, closed: bool) {
    forall s :: s in bag ==> s.CutFrom(out, closed)
  }

  /** No stream position is queued twice. */
  ghost predicate Disjoint(bag: multiset<Seg>) {
    && (forall s :: s in bag ==> bag[s] == 1)
    && (forall s, t :: s in bag && t in bag && s != t ==> s.End() <= t.seqno || t.End() <= s.seqno)
  }

  ghost predicate Holds(bag: multiset<Seg>, i: int) {
    exists s :: s in bag && s.Has(i)
  }

  /** Every octet written and not yet acknowledged is on a queue. */
  ghost predicate Kept(bag: multiset<Seg>, out: seq<byte>, lastack: int) {
    forall i :: 0 <= i < |out| && lastack <= i ==> Holds(bag, i)
  }

  /** snd_buf and snd_queuelen account for what is on the queues. */
  ghost predicate Accounted(p: Snd, sndBuf: int) {
    p.buf + Octets(p.All()) == sndBuf && p.queuelen == Pbufs(p.All())
  }

  /** What is queued is exactly what is owed to the peer. */
  ghost predicate Good(bag: multiset<Seg>, out: seq<byte>, closed: bool, lastack: int) {
    AllCut(bag, out, closed) && Disjoint(bag) && Kept(bag, out, lastack)
  }

  ghost predicate Held(p: Snd, out: seq<byte>) {
    Good(p.Bag(), out, p.closed, p.lastack)
  }

  ghost predicate SendInv(p: Snd, out: seq<byte>, sndBuf: int) {
    Held(p, out) && Accounted(p, sndBuf) && (!p.closed ==> p.lbb == |out|)
  }

  ghost predicate Sorted(q: seq<Seg>) {
    forall i, j :: 0 <= i < j < |q| ==> q[i].seqno < q[j].seqno
  }

  /** Neighbours abut. */
  ghost predicate Chained(q: seq<Seg>) {
    forall i, j :: 0 <= i && j == i + 1 < |q| ==> q[j].seqno == q[i].TcpEnd()
  }

  /** The position after everything the application has queued, its FIN included. */
  function Tail(out: seq<byte>, closed: bool): int { |out| + if closed then 1 else 0 }

  /** The usual shape: unacked then unsent is one unbroken run, from lastack on, to where the application stopped. */
  ghost predicate Normal(p: Snd, out: seq<byte>) {
    && Chained(p.All())
    && (p.All() != [] ==> Last(p.All()).TcpEnd() == Tail(out, p.closed) && p.lastack < p.All()[0].TcpEnd())
    && (p.unacked != [] ==> Last(p.unacked).TcpEnd() <= p.nxt)
    && (p.unsent == [] ==> p.oversize == 0)
    && p.lastack <= p.nxt <= Tail(out, p.closed)
  }

  // ----- Trading segments

  /** Index of the first element that does not start below `seqno`. */
  function Place(q: seq<Seg>, seqno: int): (k: nat)
    ensures k <= |q|
    ensures forall i :: 0 <= i < k ==> q[i].seqno < seqno
    ensures k < |q| ==> q[k].seqno >= seqno
  {
    if q != [] && q[0].seqno < seqno then 1 + Place(q[1..], seqno) else 0
  }

  function InsertSorted(q: seq<Seg>, s: Seg): seq<Seg> {
    var k := Place(q, s.seqno);
    q[..k] + [s] + q[k..]
  }

  /** A sent segment goes to the end of the unacked queue, or into its place when it was retransmitted. */
  function ToUnacked(q: seq<Seg>, s: Seg): seq<Seg> {
    if q != [] && s.seqno < Last(q).seqno then InsertSorted(q, s) else q + [s]
  }

  /** tcp_output sends the first unsent segment. */
  function SendOne(p: Snd): Snd
    requires p.unsent != []
  {
    var s := p.unsent[0];
    p.(unsent := p.unsent[1..],
       unacked := if s.TcpLen() > 0 then ToUnacked(p.unacked, s) else p.unacked,
       nxt := if p.nxt < s.TcpEnd() then s.TcpEnd() else p.nxt,
       oversize := if |p.unsent| == 1 then 0 else p.oversize)
  }

  /** The segment lies within the window that the last acknowledgement opened. */
  predicate InWindow(s: Seg, lastack: int, wnd: int) { lastack <= s.End() <= lastack + wnd }

  /** tcp_output: send while the window allows; `permitted` counts the tries that neither Nagle nor the link stops. */
  function Output(p: Snd, wnd: int, permitted: nat): Snd
    decreases permitted
  {
    if p.unsent != [] && InWindow(p.unsent[0], p.lastack, wnd) && permitted > 0 then
      Output(SendOne(p), wnd, permitted - 1)
    else
      p
  }

  /** tcp_rexmit */
  function Rexmit(p: Snd): Snd {
    if p.unacked == [] then p
    else
      p.(unacked := p.unacked[1..], unsent := InsertSorted(p.unsent, p.unacked[0]),
         oversize := if Place(p.unsent, p.unacked[0].seqno) == |p.unsent| then 0 else p.oversize)
  }

  /** tcp_rexmit_rto, without the tcp_output it ends with */
  function RexmitRto(p: Snd): Snd {
    p.(unsent := p.unacked + p.unsent, unacked := [])
  }

  // ----- Acknowledgements

  function DropAcked(q: seq<Seg>, ackno: int): (r: seq<Seg>)
    ensures |r| <= |q| && r == q[|q| - |r|..]
  {
    if q != [] && q[0].TcpEnd() <= ackno then DropAcked(q[1..], ackno) else q
  }

  /** The queue part of tcp_receive for a segment that carries `ackno`. */
  function Ack(p: Snd, ackno: int): Snd {
    var acksNew := p.lastack < ackno <= p.nxt;
    var unacked := if acksNew then DropAcked(p.unacked, ackno) else p.unacked;
    var unsent := if ackno <= p.nxt then DropAcked(p.unsent, ackno) else p.unsent;
    p.(lastack := if acksNew then ackno else p.lastack, unacked := unacked, unsent := unsent,
       oversize := if unsent == [] then 0 else p.oversize,
       buf := p.buf + Octets(p.unacked) - Octets(unacked) + Octets(p.unsent) - Octets(unsent),
       queuelen := p.queuelen - Pbufs(p.unacked) + Pbufs(unacked) - Pbufs(p.unsent) + Pbufs(unsent))
  }

  // ----- tcp_write and tcp_send_fin

  /** Segment payloads never exceed half the largest window the peer ever offered. */
  function MssLocal(mss: int, wndMax: int): int {
    var m := Min(mss, wndMax / 2);
    if m == 0 then mss else m
  }

  /** The octets that still fit behind the last unsent segment. */
  function Room(q: seq<Seg>, mss: int): int {
    if q == [] || Last(q).data == [] then 0 else mss - |Last(q).data|
  }

  /** New segments: `bytes` in order from position `at`, in pieces of at most `mss`. */
  predicate Fresh(news: seq<Seg>, at: int, bytes: seq<byte>, mss: int)
    decreases |bytes|
  {
    if bytes == [] then news == []
    else
      && news != []
      && var s := news[0];
         && 0 < |s.data| <= Min(mss, |bytes|) && s.data == bytes[..|s.data|] && s.seqno == at && !s.fin
         && Fresh(news[1..], at + |s.data|, bytes[|s.data|..], mss)
  }

  /** All but the last of the new segments have as much as `mss` allows. */
  ghost predicate Full(news: seq<Seg>, mss: int) {
    forall i :: 0 <= i < |news| - 1 ==> |news[i].data| == mss
  }

  /** `b` is `a` with `more` appended to the last segment. */
  ghost predicate ExtendsLast(a: seq<Seg>, b: seq<Seg>, more: seq<byte>) {
    && |a| == |b|
    && (a == [] ==> more == [])
    && (a != [] ==>
          && a[..|a| - 1] == b[..|a| - 1]
          && Last(b) == Last(a).(data := Last(a).data + more, pbufs := Last(b).pbufs, rom := Last(b).rom))
  }

  /** A successful tcp_write: first fill the last unsent segment, then add new ones. */
  ghost predicate Written(p: Snd, q: Snd, arg: seq<byte>, mss: int) {
    var n := Min(|arg|, Room(p.unsent, mss));
    var k := |p.unsent|;
    && 0 <= n && k <= |q.unsent|
    && ExtendsLast(p.unsent, q.unsent[..k], arg[..n])
    && Fresh(q.unsent[k..], p.lbb + n, arg[n..], mss) && Full(q.unsent[k..], mss)
    && q.queuelen == p.queuelen - Pbufs(p.unsent) + Pbufs(q.unsent)
    && q == p.(unsent := q.unsent, oversize := q.oversize, queuelen := q.queuelen,
               lbb := p.lbb + |arg|, buf := p.buf - |arg|)
  }

  /** tcp_send_fin: on the last unsent segment if there is one without FIN, else in a segment of its own. */
  function SendFin(p: Snd): Snd {
    if p.unsent != [] && !Last(p.unsent).fin then
      p.(unsent := p.unsent[|p.unsent| - 1 := Last(p.unsent).(fin := true)], closed := true)
    else
      p.(unsent := p.unsent + [Seg(p.lbb, [], true, 1, false)], closed := true, lbb := p.lbb + 1,
         oversize := 0, queuelen := p.queuelen + 1)
  }

  /** What tcp_write may rely on about the end of the unsent queue. */
  ghost predicate TailFits(p: Snd, mss: int) {
    && 0 <= p.oversize
    && (p.unsent == [] ==> p.oversize == 0)
    && (p.unsent != [] ==>
          var s := Last(p.unsent);
          && |s.data| + p.oversize <= mss
          && (p.oversize > 0 ==> s.data != [] && !s.rom))
  }
}
