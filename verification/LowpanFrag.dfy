/**
 6LoWPAN fragmentation and reassembly (RFC 4944, section 5.3) as lowpan6_frag sends it and
 lowpan6_input takes it back, over a link that loses, repeats and reorders frames.
 */
module LowpanFrag {
  import opened Bytes

  // ----- Fragments

  /** What a frame carries behind the link header. */
  datatype Frame =
    | Whole(data: seq<byte>)
    | Frag1(size: int, tag: int, data: seq<byte>)
    | FragN(size: int, tag: int, offset: int, data: seq<byte>)

  /** A frame of 127 octets has room for this many of the datagram after a link header of `link` octets. */
  function First(link: int): int { (127 - link - 4 - 2) / 8 * 8 }

  function Later(link: int): int { (127 - link - 5 - 2) / 8 * 8 }

  /** A link header has two addresses of two or eight octets. */
  predicate LinkHeader(link: int) { link == 11 || link == 17 || link == 23 }

  /** The datagram size field has eleven bits. */
  const SIZES := 0x800

  /** What the one octet for a position, in units of eight octets, stands for. */
  function Units(at: int): int { at / 8 % 256 * 8 }

  /** The fragments of datagram `d` from position `at` on; positions are sent in units of eight octets, modulo 256. */
  function LaterFrames(d: seq<byte>, tag: int, at: int, link: int): seq<Frame>
    requires 0 <= at && LinkHeader(link)
    decreases |d| - at
  {
    if at >= |d| then []
    else
      [FragN(|d| % SIZES, tag, Units(at), d[at..Min(at + Later(link), |d|)])]
      + LaterFrames(d, tag, at + Later(link), link)
  }

  function Fragments(d: seq<byte>, tag: int, link: int): seq<Frame>
    requires LinkHeader(link) && First(link) <= |d|
  {
    [Frag1(|d| % SIZES, tag, d[..First(link)])] + LaterFrames(d, tag, First(link), link)
  }

  /** Outcome of handing a packet to the link: too long, one frame, or fragments. */
  datatype Sent = TooLong | Sent(frames: seq<Frame>)

  /** The second part of lowpan6_frag: a compressed header and a payload go out in one frame or in several. */
  method Send(header: seq<byte>, payload: seq<byte>, link: int, tag: int) returns (r: Sent)
    requires LinkHeader(link) && |header| <= 48
    ensures var d := header + payload;
            if |payload| > 0x7ff then r == TooLong
            else if |d| <= 124 - link then r == Sent([Whole(d)])
            else First(link) <= |d| && r == Sent(Fragments(d, tag, link))
  {
    ghost var d := header + payload;
    if |payload| > 0x7ff { return TooLong; }
    if |payload| > 127 - link - |header| - 3 {
      var len := First(link);
      assert d[..len] == header + payload[..len - |header|];
      var first := [Frag1((|payload| + |header|) % SIZES, tag, header + payload[..len - |header|])];
      var later := SendLater(header, payload, link, tag, len);
      r := Sent(first + later);
    } else {
      r := Sent([Whole(header + payload)]);
    }
  }

  lemma LaterFramesStep(d: seq<byte>, tag: int, at: int, link: int)
    requires 0 <= at < |d| && LinkHeader(link)
    ensures var len := Min(Later(link), |d| - at);
            && at + len <= |d| && 0 < len
            && LaterFrames(d, tag, at, link) ==
               [FragN(|d| % SIZES, tag, Units(at), d[at..at + len])] + LaterFrames(d, tag, at + len, link)
  {
  }

  /** The loop of lowpan6_frag over the fragments behind the first one. */
  method SendLater(header: seq<byte>, payload: seq<byte>, link: int, tag: int, sent: nat) returns (frames: seq<Frame>)
    requires LinkHeader(link) && |header| <= sent <= |header + payload|
    ensures frames == LaterFrames(header + payload, tag, sent, link)
  {
    hide LaterFrames, Later, Units, LinkHeader;
    ghost var d := header + payload;
    ghost var all := LaterFrames(d, tag, sent, link);
    var size := (|payload| + |header|) % SIZES;
    var offset, remaining := sent, |header| + |payload| - sent;
    frames := [];
    assert frames + all == all;
    while remaining > 0
      invariant sent <= offset && 0 <= remaining == |d| - offset
      invariant frames + LaterFrames(d, tag, offset, link) == all
      decreases remaining
    {
      SendStep(header, payload, tag, offset, link);
      var len := Later(link);
      if len > remaining { len := remaining; }
      var at := |payload| - remaining;
      var f := FragN(size, tag, Units(offset), payload[at..at + len]);
      Regroup(frames, [f], LaterFrames(d, tag, offset + len, link));
      frames := frames + [f];
      remaining := remaining - len;
      offset := offset + len;
    }
    LaterFramesEnd(d, tag, offset, link);
  }

  /** The next fragment, cut from the payload. */
  lemma SendStep(header: seq<byte>, payload: seq<byte>, tag: int, at: nat, link: int)
    requires |header| <= at < |header + payload| && LinkHeader(link)
    ensures var (d, o) := (header + payload, at - |header|);
            var len := Min(Later(link), |d| - at);
            && 0 < len && at + len <= |d|
            && LaterFrames(d, tag, at, link) ==
               [FragN(|d| % SIZES, tag, Units(at), payload[o..o + len])] + LaterFrames(d, tag, at + len, link)
  {
    hide LaterFrames, Later, Units, LinkHeader;
    LaterFramesStep(header + payload, tag, at, link);
    SliceBehind(header, payload, at, Min(Later(link), |header + payload| - at));
  }

  lemma SliceBehind(a: seq<byte>, b: seq<byte>, at: nat, len: nat)
    requires |a| <= at && at + len <= |a + b|
    ensures (a + b)[at..at + len] == b[at - |a|..at - |a| + len]
  {
  }

  lemma LaterFramesEnd(d: seq<byte>, tag: int, at: int, link: int)
    requires |d| <= at && LinkHeader(link)
    ensures LaterFrames(d, tag, at, link) == []
  {
  }

  // ----- Reassembly

  /** struct lowpan6_reass_helper without its sender. */
  datatype Entry = Entry(size: int, tag: int, data: seq<byte>, timer: int)

  /** The datagrams under reassembly, one per sender. */
  type Table = map<seq<byte>, Entry>

  /** A first fragment: a repetition is dropped, anything else replaces what the sender had under way. */
  function OnFrag1(t: Table, from: seq<byte>, size: int, tag: int, data: seq<byte>, alloc: bool): Table {
    if from in t && t[from].tag == tag && t[from].size == size then t
    else if alloc then t[from := Entry(size, tag, data, 2)]
    else t - {from}
  }

  /** A later fragment: one that starts too high is ignored, one that starts too low ends the reassembly. */
  function OnFragN(t: Table, from: seq<byte>, size: int, tag: int, offset: int, data: seq<byte>): (Table, Option<seq<byte>>) {
    if from !in t || t[from].tag != tag || t[from].size != size || |t[from].data| < offset then (t, None)
    else if |t[from].data| > offset then (t - {from}, None)
    else
      var all := t[from].data + data;
      if |all| >= size then (t - {from}, Some(all)) else (t[from := t[from].(data := all)], None)
  }

  /** lowpan6_tmr */
  function OnTimer(t: Table): Table {
    map s | s in t && t[s].timer != 1 :: t[s].(timer := t[s].timer - 1)
  }

  function OnFrame(t: Table, from: seq<byte>, f: Frame, alloc: bool): (Table, Option<seq<byte>>) {
    match f
    case Whole(data) => (t, Some(data))
    case Frag1(size, tag, data) => (OnFrag1(t, from, size, tag, data, alloc), None)
    case FragN(size, tag, offset, data) => OnFragN(t, from, size, tag, offset, data)
  }

  // ----- What can be on its way

  /** `f` is a frame of datagram `d`, of any length that lowpan6_frag accepts. */
  ghost predicate FrameOf(f: Frame, d: seq<byte>, tag: int, link: int) {
    && LinkHeader(link) && |d| <= 0x7ff + 48
    && if |d| <= 124 - link then f == Whole(d) else f in Fragments(d, tag, link)
  }

  lemma Widths(link: int)
    requires LinkHeader(link)
    ensures Later(link) % 8 == 0 && 96 <= Later(link) <= 104 && First(link) % 8 == 0 && 96 <= First(link) <= 104
    ensures First(link) <= 124 - link
  {
  }

  lemma {:induction false} LaterShape(f: Frame, d: seq<byte>, tag: int, at: int, link: int)
    requires 0 <= at && LinkHeader(link) && f in LaterFrames(d, tag, at, link) && at % 8 == 0
    ensures f.FragN? && f.size == |d| % SIZES && f.tag == tag
    ensures exists o :: LaterAt(f, d, o, at, link)
    decreases |d| - at
  {
    Widths(link);
    hide Later;
    var g := FragN(|d| % SIZES, tag, Units(at), d[at..Min(at + Later(link), |d|)]);
    if f == g {
      assert LaterAt(f, d, at, at, link);
    } else {
      LaterShape(f, d, tag, at + Later(link), link);
      var o :| LaterAt(f, d, o, at + Later(link), link);
      assert LaterAt(f, d, o, at, link);
    }
  }

  /** `f` carries the part of `d` that starts at `o`, no lower than `at`. */
  ghost predicate LaterAt(f: Frame, d: seq<byte>, o: int, at: int, link: int) {
    && f.FragN? && 0 <= at <= o < |d| && o % 8 == 0 && f.offset == Units(o)
    && 0 < |f.data| <= Later(link) && o + |f.data| <= |d| && f.data == d[o..o + |f.data|]
  }

  lemma FrameShape(f: Frame, d: seq<byte>, tag: int, link: int)
    requires FrameOf(f, d, tag, link) && |d| > 124 - link
    ensures f == Frag1(|d| % SIZES, tag, d[..First(link)]) ||
            (f.FragN? && f.size == |d| % SIZES && f.tag == tag && exists o :: LaterAt(f, d, o, First(link), link))
  {
    Widths(link);
    if f != Frag1(|d| % SIZES, tag, d[..First(link)]) {
      LaterShape(f, d, tag, First(link), link);
    }
  }

  // ----- Every run

  /** A frame of datagram `d` arrives, or the timer runs. */
  datatype Event = Arrive(from: seq<byte>, f: Frame, d: seq<byte>, tag: int, link: int, alloc: bool) | Tick

  /** The receiver's table, the datagram each entry belongs to, and what has been passed on, with what it belongs to. */
  datatype Net = Net(table: Table, origin: map<seq<byte>, seq<byte>>, passed: seq<(seq<byte>, seq<byte>)>)

  predicate Names(x: Entry, d: seq<byte>, tag: int) { x.tag == tag && x.size == |d| % SIZES }

  /** Tag and size name one datagram of the sender while it is in reassembly. */
  ghost predicate Named(n: Net, e: Event) {
    e.Arrive? ==>
      && FrameOf(e.f, e.d, e.tag, e.link)
      && (!e.f.Whole? && e.from in n.table && e.from in n.origin && Names(n.table[e.from], e.d, e.tag) ==> n.origin[e.from] == e.d)
  }

  function Step(n: Net, e: Event): Net {
    match e
    case Tick => n.(table := OnTimer(n.table))
    case Arrive(from, f, d, tag, link, alloc) =>
      var (t, out) := OnFrame(n.table, from, f, alloc);
      Net(t, if f.Frag1? && t != n.table then n.origin[from := d] else n.origin,
          if out.Some? then n.passed + [(out.value, d)] else n.passed)
  }

  /** The entry holds a prefix of its datagram that is longer than any wrapped size or offset could be. */
  ghost predicate Collects(x: Entry, d: seq<byte>) {
    && x.size == |d| % SIZES && 101 < |d| <= 0x7ff + 48
    && 96 <= |x.data| <= |d| && x.data == d[..|x.data|]
    && (|d| >= SIZES ==> |x.data| <= 104)
  }

  ghost predicate Inv(n: Net) {
    && (forall s :: s in n.table ==> s in n.origin && Collects(n.table[s], n.origin[s]))
    && (forall i :: 0 <= i < |n.passed| ==> Delivered(n.passed[i].0, n.passed[i].1))
  }

  /** What is passed on is a prefix of the datagram, and all of it exactly when its length fits the size field. */
  ghost predicate Delivered(out: seq<byte>, d: seq<byte>) {
    && |out| <= |d| && out == d[..|out|]
    && (out == d <==> |d| < SIZES)
  }

  lemma FragNKeeps(x: Entry, f: Frame, d: seq<byte>, tag: int, link: int)
    requires Collects(x, d) && FrameOf(f, d, tag, link) && f.FragN? && |x.data| == f.offset && |d| > 124 - link
    ensures var all := x.data + f.data;
            && f.size == |d| % SIZES
            && (if |all| >= x.size then Delivered(all, d) else Collects(x.(data := all), d))
  {
    FrameShape(f, d, tag, link);
    var o :| LaterAt(f, d, o, First(link), link);
    assert 0 < |f.data| <= 104 && o + |f.data| <= |d| && f.data == d[o..o + |f.data|] && f.size == |d| % SIZES;
    OffsetIs(o, f.offset);
    hide LaterAt, FrameOf, First, Later;
    PrefixGrows(d, o, o + |f.data|);
    CollectsMore(x, d, o + |f.data|);
  }

  /** An offset of at least 96 has not wrapped. */
  lemma OffsetIs(o: int, offset: int)
    requires 0 <= o < 0x7ff + 48 && o % 8 == 0 && offset == Units(o) && offset >= 96
    ensures offset == o
  {
    assert o == o / 8 * 8;
  }

  lemma CollectsMore(x: Entry, d: seq<byte>, e: nat)
    requires Collects(x, d) && |x.data| < e <= Min(|d|, |x.data| + 104)
    ensures if e >= x.size then Delivered(d[..e], d) else Collects(x.(data := d[..e]), d)
  {
  }

  lemma StepKeeps(n: Net, e: Event)
    requires Inv(n) && Named(n, e)
    ensures Inv(Step(n, e))
  {
    if e.Arrive? {
      var r := Step(n, e);
      if |e.d| > 124 - e.link {
        FrameShape(e.f, e.d, e.tag, e.link);
        Widths(e.link);
        if e.f.FragN? && e.from in n.table && n.table[e.from].tag == e.f.tag && n.table[e.from].size == e.f.size
           && |n.table[e.from].data| == e.f.offset {
          FragNKeeps(n.table[e.from], e.f, e.d, e.tag, e.link);
        }
      }
    }
  }

  function Run(n: Net, es: seq<Event>): Net
    decreases |es|
  {
    if es == [] then n else Step(Run(n, es[..|es| - 1]), es[|es| - 1])
  }

  /**
   Under loss, repetition and reordering every reassembly buffer is a prefix of the sender's datagram, and what is
   passed on is a prefix of one datagram, and all of it exactly when compressed header and payload fit eleven bits.
   */
  lemma {:induction false} ReassemblyIsFaithful(es: seq<Event>)
    requires forall i :: 0 <= i < |es| ==> Named(Run(Net(map[], map[], []), es[..i]), es[i])
    ensures Inv(Run(Net(map[], map[], []), es))
    decreases |es|
  {
    var n := |es| - 1;
    if es != [] {
      var fs := es[..n];
      assert forall i :: 0 <= i < n ==> fs[..i] == es[..i] && fs[i] == es[i];
      ReassemblyIsFaithful(fs);
      StepKeeps(Run(Net(map[], map[], []), fs), es[n]);
    }
  }

  // ----- Nothing is lost on a good link

  function OnFrames(t: Table, from: seq<byte>, fs: seq<Frame>): (Table, seq<seq<byte>>)
    decreases |fs|
  {
    if fs == [] then (t, [])
    else
      var (t1, out) := OnFrame(t, from, fs[0], true);
      var (t2, rest) := OnFrames(t1, from, fs[1..]);
      (t2, (if out.Some? then [out.value] else []) + rest)
  }

  lemma OnFramesStep(t: Table, from: seq<byte>, f: Frame, rest: seq<Frame>, t1: Table, out: Option<seq<byte>>)
    requires OnFrame(t, from, f, true) == (t1, out)
    ensures var (t2, more) := OnFrames(t1, from, rest);
            OnFrames(t, from, [f] + rest) == (t2, if out.Some? then [out.value] + more else more)
  {
    var fs := [f] + rest;
    assert fs[0] == f && fs[1..] == rest;
    hide OnFrame;
    var more := OnFrames(t1, from, rest).1;
    assert [] + more == more;
  }

  lemma NextAppends(t: Table, from: seq<byte>, d: seq<byte>, tag: int, at: int, end: int)
    requires 0 <= at < end <= |d| < SIZES && at % 8 == 0
    requires from in t && t[from].tag == tag && t[from].size == |d| && t[from].data == d[..at]
    ensures OnFrame(t, from, FragN(|d| % SIZES, tag, Units(at), d[at..end]), true) ==
            if end < |d| then (t[from := t[from].(data := d[..end])], None) else (t - {from}, Some(d))
  {
    assert d[..at] + d[at..end] == d[..end];
    assert end == |d| ==> d[..end] == d;
  }

  lemma {:induction false} LaterDeliver(t: Table, from: seq<byte>, d: seq<byte>, tag: int, at: int, link: int)
    requires LinkHeader(link) && 0 <= at < |d| < SIZES && at % 8 == 0
    requires from in t && t[from].tag == tag && t[from].size == |d| && t[from].data == d[..at]
    ensures OnFrames(t, from, LaterFrames(d, tag, at, link)) == (t - {from}, [d])
    decreases |d| - at
  {
    Widths(link);
    LaterFramesStep(d, tag, at, link);
    var end := at + Min(Later(link), |d| - at);
    var (f, rest) := (FragN(|d| % SIZES, tag, Units(at), d[at..end]), LaterFrames(d, tag, end, link));
    assert end < |d| ==> end % 8 == 0;
    hide LaterFrames, OnFrame, OnFrames, Later, LinkHeader;
    NextAppends(t, from, d, tag, at, end);
    if end < |d| {
      var t1 := t[from := t[from].(data := d[..end])];
      OnFramesStep(t, from, f, rest, t1, None);
      LaterDeliver(t1, from, d, tag, end, link);
      assert t1 - {from} == t - {from};
    } else {
      OnFramesStep(t, from, f, rest, t - {from}, Some(d));
      LaterFramesEnd(d, tag, end, link);
      OnNoFrames(t - {from}, from);
      assert [d] + [] == [d];
    }
  }

  lemma OnNoFrames(t: Table, from: seq<byte>)
    ensures OnFrames(t, from, []) == (t, [])
  {
  }

  /** The fragments of a datagram, received in order, yield exactly that datagram once, and leave no entry. */
  lemma FragmentsDeliver(t: Table, from: seq<byte>, d: seq<byte>, tag: int, link: int)
    requires LinkHeader(link) && 124 - link < |d| < SIZES
    requires from in t ==> t[from].tag != tag || t[from].size != |d|
    ensures First(link) <= |d| && OnFrames(t, from, Fragments(d, tag, link)) == (t - {from}, [d])
  {
    Widths(link);
    var fs := Fragments(d, tag, link);
    var f := Frag1(|d| % SIZES, tag, d[..First(link)]);
    assert fs[0] == f && fs[1..] == LaterFrames(d, tag, First(link), link);
    var t1 := t[from := Entry(|d|, tag, d[..First(link)], 2)];
    assert OnFrame(t, from, f, true) == (t1, None);
    LaterDeliver(t1, from, d, tag, First(link), link);
    assert t1 - {from} == t - {from};
    assert [] + [d] == [d];
  }

  /** Without an entry, later fragments of a sender change nothing. */
  lemma {:induction false} RogueFrames(t: Table, from: seq<byte>, d: seq<byte>, tag: int, at: int, link: int)
    requires LinkHeader(link) && 0 <= at && from !in t
    ensures OnFrames(t, from, LaterFrames(d, tag, at, link)) == (t, [])
    decreases |d| - at
  {
    Widths(link);
    hide Later;
    if at < |d| {
      var fs := LaterFrames(d, tag, at, link);
      var f := FragN(|d| % SIZES, tag, Units(at), d[at..Min(at + Later(link), |d|)]);
      var rest := LaterFrames(d, tag, at + Later(link), link);
      assert fs == [f] + rest;
      RogueFrames(t, from, d, tag, at + Later(link), link);
      OnFramesStep(t, from, f, rest, t, None);
    }
  }

  lemma SecondCompletes(t: Table, from: seq<byte>, d: seq<byte>, tag: int, at: int, end: int)
    requires 96 <= at <= end <= |d| && SIZES <= |d| <= 0x7ff + 48
    requires from in t && t[from].tag == tag && t[from].size == |d| % SIZES && t[from].data == d[..at]
    ensures OnFrame(t, from, FragN(|d| % SIZES, tag, at, d[at..end]), true) == (t - {from}, Some(d[..end]))
  {
    assert d[..at] + d[at..end] == d[..end];
  }

  lemma FirstOpens(t: Table, from: seq<byte>, size: int, tag: int, data: seq<byte>)
    requires from in t ==> t[from].tag != tag || t[from].size != size
    ensures OnFrame(t, from, Frag1(size, tag, data), true) == (t[from := Entry(size, tag, data, 2)], None)
  {
  }

  lemma LongFrames(d: seq<byte>, tag: int, link: int)
    requires LinkHeader(link) && SIZES <= |d|
    ensures var (at, end) := (First(link), First(link) + Later(link));
            && end < |d|
            && Fragments(d, tag, link) == [Frag1(|d| % SIZES, tag, d[..at])]
                 + ([FragN(|d| % SIZES, tag, at, d[at..end])] + LaterFrames(d, tag, end, link))
  {
    Widths(link);
  }

  lemma PutOut(t: Table, from: seq<byte>, x: Entry)
    ensures t[from := x] - {from} == t - {from} && from !in t - {from}
  {
  }

  /** A datagram of 2048 octets or more, its fragments received in order, is passed on as its first two fragments. */
  lemma LongIsCut(t: Table, from: seq<byte>, d: seq<byte>, tag: int, link: int)
    requires LinkHeader(link) && SIZES <= |d| <= 0x7ff + 48
    requires from in t ==> t[from].tag != tag || t[from].size != |d| % SIZES
    ensures First(link) + Later(link) < |d|
    ensures OnFrames(t, from, Fragments(d, tag, link)) == (t - {from}, [d[..First(link) + Later(link)]])
  {
    var (size, at, end) := (|d| % SIZES, First(link), First(link) + Later(link));
    hide *;
    Widths(link);
    LongFrames(d, tag, link);
    var (f, g, rest) := (Frag1(size, tag, d[..at]), FragN(size, tag, at, d[at..end]), LaterFrames(d, tag, end, link));
    var t1 := t[from := Entry(size, tag, d[..at], 2)];
    FirstOpens(t, from, size, tag, d[..at]);
    SecondCompletes(t1, from, d, tag, at, end);
    OnFramesStep(t, from, f, [g] + rest, t1, None);
    OnFramesStep(t1, from, g, rest, t1 - {from}, Some(d[..end]));
    PutOut(t, from, t1[from]);
    RogueFrames(t - {from}, from, d, tag, end, link);
    assert [d[..end]] + [] == [d[..end]];
  }

  // ----- The list as it is kept

  datatype Helper = Helper(sender: seq<byte>, entry: Entry)

  ghost predicate HasSender(q: seq<Helper>, s: seq<byte>) {
    exists i :: 0 <= i < |q| && q[i].sender == s
  }

  /** The list holds the entries of `t`, at most one per sender. */
  ghost predicate Holds(q: seq<Helper>, t: Table) {
    && (forall i, j :: 0 <= i < j < |q| ==> q[i].sender != q[j].sender)
    && (forall i :: 0 <= i < |q| ==> q[i].sender in t && t[q[i].sender] == q[i].entry)
    && (forall s :: s in t ==> HasSender(q, s))
  }

  function Without(q: seq<Helper>, i: int): seq<Helper>
    requires 0 <= i < |q|
  {
    q[..i] + q[i + 1..]
  }

  /** dequeue_datagram takes the entry of one sender out of the table. */
  lemma WithoutHolds(q: seq<Helper>, t: Table, i: int)
    requires Holds(q, t) && 0 <= i < |q|
    ensures Holds(Without(q, i), t - {q[i].sender})
  {
    var r := Without(q, i);
    assert forall k :: 0 <= k < |r| ==> r[k] == q[if k < i then k else k + 1];
    forall s | s in t && s != q[i].sender ensures HasSender(r, s) {
      assert HasSender(q, s);
      var k :| 0 <= k < |q| && q[k].sender == s;
      assert r[if k < i then k else k - 1].sender == s;
    }
  }

  lemma FrontHolds(q: seq<Helper>, t: Table, h: Helper)
    requires Holds(q, t) && h.sender !in t
    ensures Holds([h] + q, t[h.sender := h.entry])
  {
    var r := [h] + q;
    forall s | s in t ensures HasSender(r, s) {
      assert HasSender(q, s);
      var k :| 0 <= k < |q| && q[k].sender == s;
      assert r[k + 1].sender == s;
    }
    assert r[0].sender == h.sender;
  }

  lemma UpdateHolds(q: seq<Helper>, t: Table, i: int, x: Entry)
    requires Holds(q, t) && 0 <= i < |q|
    ensures Holds(q[i := q[i].(entry := x)], t[q[i].sender := x])
  {
    var r := q[i := q[i].(entry := x)];
    forall s | s in t ensures HasSender(r, s) {
      assert HasSender(q, s);
      var k :| 0 <= k < |q| && q[k].sender == s;
      assert r[k].sender == s;
    }
  }

  /** The receiving side of lowpan6_input and lowpan6_tmr. */
  class Reassembler {
    var list: seq<Helper>
    ghost var table: Table

    ghost predicate Valid()
      reads this
    {
      Holds(list, table)
    }

    constructor ()
      ensures Valid() && table == map[]
    {
      list, table := [], map[];
    }

    /** A first fragment: look for a repetition, discarding what else the sender had under way. */
    method FirstFragment(from: seq<byte>, size: int, tag: int, data: seq<byte>, alloc: bool)
      requires Valid()
      modifies this
      ensures Valid() && table == OnFrag1(old(table), from, size, tag, data, alloc)
    {
      ghost var t := table;
      var i := 0;
      while i < |list|
        invariant 0 <= i <= |list| && Valid()
        invariant forall k :: 0 <= k < i ==> list[k].sender != from
        invariant table == t || (table == t - {from} && !(from in t && t[from].tag == tag && t[from].size == size))
        decreases |list| - i
      {
        if list[i].sender == from {
          if list[i].entry.tag == tag && list[i].entry.size == size {
            return;
          }
          WithoutHolds(list, table, i);
          list, table := Without(list, i), table - {from};
        } else {
          i := i + 1;
        }
      }
      assert from !in table by { assert from in table ==> HasSender(list, from); }
      if alloc {
        var h := Helper(from, Entry(size, tag, data, 2));
        FrontHolds(list, table, h);
        list, table := [h] + list, table[from := h.entry];
      }
    }

    /** A later fragment: find the datagram it belongs to and append it if it is the next piece. */
    method LaterFragment(from: seq<byte>, size: int, tag: int, offset: int, data: seq<byte>) returns (out: Option<seq<byte>>)
      requires Valid()
      modifies this
      ensures Valid() && (table, out) == OnFragN(old(table), from, size, tag, offset, data)
    {
      out := None;
      var i := 0;
      while i < |list| && !(list[i].sender == from && list[i].entry.tag == tag && list[i].entry.size == size)
        invariant 0 <= i <= |list|
        invariant forall k :: 0 <= k < i ==> !(list[k].sender == from && list[k].entry.tag == tag && list[k].entry.size == size)
      {
        i := i + 1;
      }
      if i == |list| {
        assert from in table ==> HasSender(list, from);
        return;
      }
      var x := list[i].entry;
      if |x.data| < offset { return; }
      if |x.data| > offset {
        WithoutHolds(list, table, i);
        list, table := Without(list, i), table - {from};
        return;
      }
      x := x.(data := x.data + data);
      UpdateHolds(list, table, i, x);
      list, table := list[i := list[i].(entry := x)], table[from := x];
      if |x.data| >= size {
        out := Some(x.data);
        WithoutHolds(list, table, i);
        assert table - {from} == old(table) - {from};
        list, table := Without(list, i), table - {from};
      }
    }

    /** lowpan6_tmr: entries whose timer runs out are discarded. */
    method Timer()
      requires Valid()
      modifies this
      ensures Valid() && table == OnTimer(old(table))
    {
      ghost var t := table;
      var i := 0;
      assert Ageing(list, table, t, 0);
      while i < |list|
        invariant 0 <= i <= |list| && Valid() && Ageing(list, table, t, i)
        decreases |list| - i
      {
        var x := list[i].entry.(timer := list[i].entry.timer - 1);
        if x.timer == 0 {
          AgeingDrops(list, table, t, i);
          WithoutHolds(list, table, i);
          list, table := Without(list, i), table - {list[i].sender};
        } else {
          AgeingKeeps(list, table, t, i, x);
          UpdateHolds(list, table, i, x);
          list, table := list[i := list[i].(entry := x)], table[list[i].sender := x];
          i := i + 1;
        }
      }
      AgeingDone(list, table, t);
    }
  }

  /** lowpan6_tmr has dealt with the first `i` entries that are left. */
  ghost predicate Ageing(q: seq<Helper>, table: Table, t: Table, i: nat) {
    && (forall k :: i <= k < |q| ==> q[k].sender in t && t[q[k].sender] == q[k].entry)
    && (forall k :: 0 <= k < i <= |q| ==> q[k].sender in OnTimer(t) && OnTimer(t)[q[k].sender] == q[k].entry)
    && (forall s :: s in OnTimer(t) ==> s in table)
  }

  lemma AgeingDrops(q: seq<Helper>, table: Table, t: Table, i: nat)
    requires Ageing(q, table, t, i) && i < |q| && q[i].entry.timer == 1
    ensures Ageing(Without(q, i), table - {q[i].sender}, t, i)
  {
  }

  lemma AgeingKeeps(q: seq<Helper>, table: Table, t: Table, i: nat, x: Entry)
    requires Ageing(q, table, t, i) && i < |q| && q[i].entry.timer != 1 && x == q[i].entry.(timer := q[i].entry.timer - 1)
    ensures Ageing(q[i := q[i].(entry := x)], table[q[i].sender := x], t, i + 1)
  {
  }

  lemma AgeingDone(q: seq<Helper>, table: Table, t: Table)
    requires Holds(q, table) && Ageing(q, table, t, |q|)
    ensures table == OnTimer(t)
  {
    forall s | s in table ensures s in OnTimer(t) && OnTimer(t)[s] == table[s] {
      assert HasSender(q, s);
      var k :| 0 <= k < |q| && q[k].sender == s;
    }
  }
}
