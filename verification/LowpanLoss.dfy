/**
 What becomes of a datagram whose fragments are repeated, come early or come too late, how long a reassembly
 lasts, and the octets of the fragment headers (section 5.3 of RFC 4944).
 */
module LowpanLoss {
  import opened Bytes
  import opened LowpanFrag

  // ----- Repeated and early fragments

  /** The table holds the first `at` octets of datagram `d` from this sender. */
  ghost predicate Holding(t: Table, from: seq<byte>, d: seq<byte>, tag: int, at: int) {
    0 <= at <= |d| && from in t && t[from].tag == tag && t[from].size == |d| && t[from].data == d[..at]
  }

  /** `f` is the fragment of `d` that starts at `o`. */
  predicate StartsAt(f: Frame, d: seq<byte>, tag: int, o: int) {
    f.FragN? && f.size == |d| && f.tag == tag && f.offset == o
  }

  /** A fragment that has been received before ends the reassembly: none of the rest is of any use. */
  lemma RepeatLoses(t: Table, from: seq<byte>, d: seq<byte>, tag: int, at: int, link: int, f: Frame, o: int)
    requires LinkHeader(link) && |d| < SIZES && Holding(t, from, d, tag, at) && StartsAt(f, d, tag, o) && o < at
    ensures OnFrames(t, from, [f] + LaterFrames(d, tag, at, link)) == (t - {from}, [])
  {
    assert OnFrame(t, from, f, true) == (t - {from}, None);
    hide OnFrame, OnFrames, LaterFrames;
    RogueFrames(t - {from}, from, d, tag, at, link);
    OnFramesStep(t, from, f, LaterFrames(d, tag, at, link), t - {from}, None);
  }

  /** A fragment that comes early is passed over, and the datagram is complete once all come in order. */
  lemma EarlyIsHarmless(t: Table, from: seq<byte>, d: seq<byte>, tag: int, at: int, link: int, f: Frame, o: int)
    requires LinkHeader(link) && at < |d| < SIZES && at % 8 == 0 && Holding(t, from, d, tag, at)
    requires StartsAt(f, d, tag, o) && at < o
    ensures OnFrames(t, from, [f] + LaterFrames(d, tag, at, link)) == (t - {from}, [d])
  {
    assert OnFrame(t, from, f, true) == (t, None);
    hide OnFrame, OnFrames, LaterFrames;
    LaterDeliver(t, from, d, tag, at, link);
    OnFramesStep(t, from, f, LaterFrames(d, tag, at, link), t, None);
  }

  /** A first fragment that is repeated changes nothing; that of another datagram replaces the one under way. */
  lemma FirstAgain(t: Table, from: seq<byte>, d: seq<byte>, tag: int, at: int, link: int, size: int, other: int, data: seq<byte>)
    requires LinkHeader(link) && at < |d| < SIZES && at % 8 == 0 && Holding(t, from, d, tag, at)
    ensures OnFrames(t, from, [Frag1(|d|, tag, data)] + LaterFrames(d, tag, at, link)) == (t - {from}, [d])
    ensures other != tag ==>
              OnFrames(t, from, [Frag1(size, other, data)] + LaterFrames(d, tag, at, link)) == (t[from := Entry(size, other, data, 2)], [])
  {
    assert OnFrame(t, from, Frag1(|d|, tag, data), true) == (t, None);
    assert other != tag ==> OnFrame(t, from, Frag1(size, other, data), true) == (t[from := Entry(size, other, data, 2)], None);
    hide OnFrame, OnFrames, LaterFrames;
    LaterDeliver(t, from, d, tag, at, link);
    OnFramesStep(t, from, Frag1(|d|, tag, data), LaterFrames(d, tag, at, link), t, None);
    if other != tag {
      var t1 := t[from := Entry(size, other, data, 2)];
      StrangeFrames(t1, from, d, tag, at, link);
      OnFramesStep(t, from, Frag1(size, other, data), LaterFrames(d, tag, at, link), t1, None);
    }
  }

  /** Fragments with another tag than the one under way change nothing. */
  lemma {:induction false} StrangeFrames(t: Table, from: seq<byte>, d: seq<byte>, tag: int, at: int, link: int)
    requires LinkHeader(link) && 0 <= at && from in t && t[from].tag != tag
    ensures OnFrames(t, from, LaterFrames(d, tag, at, link)) == (t, [])
    decreases |d| - at
  {
    if at >= |d| {
      LaterFramesEnd(d, tag, at, link);
      OnNoFrames(t, from);
    } else {
      LaterFramesStep(d, tag, at, link);
      var end := at + Min(Later(link), |d| - at);
      var f := FragN(|d| % SIZES, tag, Units(at), d[at..end]);
      assert OnFrame(t, from, f, true) == (t, None);
      hide OnFrame, OnFrames, LaterFrames, Later, Units;
      StrangeFrames(t, from, d, tag, end, link);
      OnFramesStep(t, from, f, LaterFrames(d, tag, end, link), t, None);
    }
  }

  // ----- How long a reassembly lasts

  /** Timers are 1 or 2. */
  ghost predicate TimersOk(t: Table) {
    forall s :: s in t ==> t[s].timer == 1 || t[s].timer == 2
  }

  lemma FrameTimers(t: Table, from: seq<byte>, f: Frame, alloc: bool)
    requires TimersOk(t)
    ensures TimersOk(OnFrame(t, from, f, alloc).0)
  {
  }

  lemma {:induction false} TimersAlways(es: seq<Event>)
    ensures TimersOk(Run(Net(map[], map[], []), es).table)
    decreases |es|
  {
    if es != [] {
      var n := |es| - 1;
      TimersAlways(es[..n]);
      var e := es[n];
      if e.Arrive? { FrameTimers(Run(Net(map[], map[], []), es[..n]).table, e.from, e.f, e.alloc); }
      hide OnFrame;
    }
  }

  /** In every run a tick discards exactly the entries that have seen one before, so that no entry survives two. */
  lemma TwoTicks(es: seq<Event>, s: seq<byte>)
    ensures var t := Run(Net(map[], map[], []), es).table;
            var u := Run(Net(map[], map[], []), es + [Tick]).table;
            && (s in u <==> s in t && t[s].timer == 2) && (s in u ==> u[s] == t[s].(timer := 1))
            && Run(Net(map[], map[], []), es + [Tick] + [Tick]).table == map[]
  {
    TimersAlways(es);
    RunOne(Net(map[], map[], []), es, Tick);
    RunOne(Net(map[], map[], []), es + [Tick], Tick);
    hide Run;
    TickTwice(Run(Net(map[], map[], []), es).table, s);
  }

  lemma RunOne(n: Net, es: seq<Event>, e: Event)
    ensures Run(n, es + [e]) == Step(Run(n, es), e)
  {
    assert (es + [e])[..|es|] == es;
  }

  // ----- A whole datagram in a run

  /** The frames of a datagram arrive one after the other. */
  function Arrivals(from: seq<byte>, fs: seq<Frame>, d: seq<byte>, tag: int, link: int): (es: seq<Event>)
    ensures |es| == |fs| && forall i :: 0 <= i < |fs| ==> es[i] == Arrive(from, fs[i], d, tag, link, true)
  {
    seq(|fs|, i requires 0 <= i < |fs| => Arrive(from, fs[i], d, tag, link, true))
  }

  function Tagged(out: seq<seq<byte>>, d: seq<byte>): seq<(seq<byte>, seq<byte>)> {
    if out == [] then [] else [(out[0], d)] + Tagged(out[1..], d)
  }

  lemma RunNone(n: Net)
    ensures Run(n, []) == n
  {
  }

  lemma {:induction false} RunFirst(n: Net, e: Event, es: seq<Event>)
    ensures Run(n, [e] + es) == Run(Step(n, e), es)
    decreases |es|
  {
    hide Run, Step;
    if es == [] {
      assert [e] + es == [] + [e];
      RunOne(n, [], e);
      RunNone(n);
      RunNone(Step(n, e));
    } else {
      var (fs, x) := (es[..|es| - 1], es[|es| - 1]);
      assert es == fs + [x] && [e] + es == ([e] + fs) + [x];
      RunOne(n, [e] + fs, x);
      RunOne(Step(n, e), fs, x);
      RunFirst(n, e, fs);
    }
  }

  /** Arrivals of one sender do to the table and to what is passed on what the frames do. */
  lemma {:induction false} ArrivalsRun(n: Net, from: seq<byte>, fs: seq<Frame>, d: seq<byte>, tag: int, link: int)
    ensures var (r, o) := (Run(n, Arrivals(from, fs, d, tag, link)), OnFrames(n.table, from, fs));
            r.table == o.0 && r.passed == n.passed + Tagged(o.1, d)
    decreases |fs|
  {
    hide OnFrame, Step, Run, OnFrames, Arrivals, Tagged;
    if fs == [] {
      NoArrivals(n, from, d, tag, link);
    } else {
      var (f, rest) := (fs[0], fs[1..]);
      var e := Arrive(from, f, d, tag, link, true);
      var n1 := Step(n, e);
      var o1 := OnFrame(n.table, from, f, true);
      assert fs == [f] + rest;
      ArrivalsFirst(from, f, rest, d, tag, link);
      ArriveStep(n, from, f, d, tag, link);
      RunFirst(n, e, Arrivals(from, rest, d, tag, link));
      ArrivalsRun(n1, from, rest, d, tag, link);
      OnFramesStep(n.table, from, f, rest, o1.0, o1.1);
      TaggedMore(n.passed, o1.1, OnFrames(o1.0, from, rest).1, d);
    }
  }

  lemma NoArrivals(n: Net, from: seq<byte>, d: seq<byte>, tag: int, link: int)
    ensures Run(n, Arrivals(from, [], d, tag, link)) == n && OnFrames(n.table, from, []) == (n.table, [])
    ensures n.passed + Tagged([], d) == n.passed
  {
    assert Arrivals(from, [], d, tag, link) == [];
  }

  lemma ArrivalsFirst(from: seq<byte>, f: Frame, rest: seq<Frame>, d: seq<byte>, tag: int, link: int)
    ensures Arrivals(from, [f] + rest, d, tag, link) == [Arrive(from, f, d, tag, link, true)] + Arrivals(from, rest, d, tag, link)
  {
  }

  lemma ArriveStep(n: Net, from: seq<byte>, f: Frame, d: seq<byte>, tag: int, link: int)
    ensures var (r, o) := (Step(n, Arrive(from, f, d, tag, link, true)), OnFrame(n.table, from, f, true));
            r.table == o.0 && r.passed == if o.1.Some? then n.passed + [(o.1.value, d)] else n.passed
  {
    hide OnFrame;
  }

  lemma TaggedMore(p: seq<(seq<byte>, seq<byte>)>, out: Option<seq<byte>>, more: seq<seq<byte>>, d: seq<byte>)
    ensures (if out.Some? then p + [(out.value, d)] else p) + Tagged(more, d) ==
            p + Tagged(if out.Some? then [out.value] + more else more, d)
  {
    if out.Some? { assert ([out.value] + more)[1..] == more; }
  }

  /** On a link that loses nothing, a datagram below 2048 octets is passed on, whole and once, whatever went before. */
  lemma GoodRunDelivers(n: Net, from: seq<byte>, d: seq<byte>, tag: int, link: int)
    requires LinkHeader(link) && 124 - link < |d| < SIZES
    requires from in n.table ==> n.table[from].tag != tag || n.table[from].size != |d|
    ensures First(link) <= |d|
    ensures var r := Run(n, Arrivals(from, Fragments(d, tag, link), d, tag, link));
            r.table == n.table - {from} && r.passed == n.passed + [(d, d)]
  {
    FragmentsDeliver(n.table, from, d, tag, link);
    hide Run, OnFrames, Arrivals, Fragments, First;
    ArrivalsRun(n, from, Fragments(d, tag, link), d, tag, link);
    assert Tagged([d], d) == [(d, d)];
  }

  lemma TickTwice(t: Table, s: seq<byte>)
    requires TimersOk(t)
    ensures s in OnTimer(t) <==> s in t && t[s].timer == 2
    ensures s in OnTimer(t) ==> OnTimer(t)[s] == t[s].(timer := 1)
    ensures OnTimer(OnTimer(t)) == map[]
  {
  }

  /** A later fragment does not prolong the reassembly. */
  lemma NoRenewal(t: Table, from: seq<byte>, size: int, tag: int, offset: int, data: seq<byte>, s: seq<byte>)
    requires s in OnFragN(t, from, size, tag, offset, data).0
    ensures s in t && OnFragN(t, from, size, tag, offset, data).0[s].timer == t[s].timer
  {
  }

  // ----- Frames

  /** The octets of a frame behind the link header that are not the datagram's. */
  function HeaderSize(f: Frame): int { if f.Whole? then 0 else if f.Frag1? then 4 else 5 }

  predicate FitsFrame(f: Frame, link: int) { link + HeaderSize(f) + |f.data| + 2 <= 127 }

  /** Every frame fits the 127 octets of the link, and all fragments but the last are as long as multiples of eight allow. */
  lemma FramesFit(f: Frame, d: seq<byte>, tag: int, link: int)
    requires FrameOf(f, d, tag, link)
    ensures FitsFrame(f, link)
  {
    Widths(link);
    if |d| > 124 - link {
      FrameShape(f, d, tag, link);
    }
  }

  lemma FragmentsAreFull(link: int)
    requires LinkHeader(link)
    ensures First(link) % 8 == 0 && link + 4 + First(link) + 2 <= 127 < link + 4 + (First(link) + 8) + 2
    ensures Later(link) % 8 == 0 && link + 5 + Later(link) + 2 <= 127 < link + 5 + (Later(link) + 8) + 2
  {
  }

  // ----- The octets of a fragment header

  /** As lowpan6_frag writes it: the tag's lower octet first. */
  function Octets(f: Frame): seq<byte>
    requires !f.Whole? && 0 <= f.size < SIZES && 0 <= f.tag < 0x1_0000
  {
    match f
    case Frag1(size, tag, data) => [0xc0 + size / 256, size % 256, tag % 256, tag / 256] + data
    case FragN(size, tag, offset, data) => [0xe0 + size / 256, size % 256, tag % 256, tag / 256, offset / 8 % 256] + data
  }

  /** As lowpan6_input reads it: the tag's higher octet first. */
  function Parse(r: seq<byte>): Frame {
    if |r| >= 4 && r[0] / 8 == 0x18 then Frag1((r[0] as int) % 8 * 256 + (r[1] as int), (r[2] as int) * 256 + (r[3] as int), r[4..])
    else if |r| >= 5 && r[0] / 8 == 0x1c then
      FragN((r[0] as int) % 8 * 256 + (r[1] as int), (r[2] as int) * 256 + (r[3] as int), (r[4] as int) * 8, r[5..])
    else Whole(r)
  }

  function Swapped(tag: int): int { tag % 256 * 256 + tag / 256 }

  /** A fragment arrives as it was sent, but with the octets of its tag exchanged; swapped tags tell datagrams apart as well. */
  lemma HeaderRound(f: Frame)
    requires !f.Whole? && 0 <= f.size < SIZES && 0 <= f.tag < 0x1_0000 && (f.FragN? ==> f.offset == Units(f.offset))
    ensures Parse(Octets(f)) == f.(tag := Swapped(f.tag)) && 0 <= Swapped(f.tag) < 0x1_0000 && Swapped(Swapped(f.tag)) == f.tag
  {
    var r := Octets(f);
    var h: int := r[0];
    assert f.Frag1? ==> h == 0xc0 + f.size / 256 && h / 8 == 0x18 && h % 8 == f.size / 256;
    assert f.FragN? ==> h == 0xe0 + f.size / 256 && h / 8 == 0x1c && h % 8 == f.size / 256;
    assert f.size / 256 * 256 + f.size % 256 == f.size;
    if f.Frag1? {
      assert r[4..] == f.data;
    } else {
      assert r[5..] == f.data;
    }
  }

  lemma UnitsFit(at: int)
    ensures Units(Units(at)) == Units(at)
  {
    var u := at / 8 % 256;
    assert u * 8 / 8 == u;
  }

  /** So every fragment that lowpan6_frag sends is read as it was meant, up to the order of the tag's octets. */
  lemma FragmentsAreRead(f: Frame, d: seq<byte>, tag: int, link: int)
    requires FrameOf(f, d, tag, link) && |d| > 124 - link && 0 <= tag < 0x1_0000
    ensures !f.Whole? && 0 <= f.size < SIZES && f.tag == tag && Parse(Octets(f)) == f.(tag := Swapped(tag))
  {
    FrameShape(f, d, tag, link);
    if f.FragN? {
      var o :| LaterAt(f, d, o, First(link), link);
      UnitsFit(o);
    }
    hide FrameOf, LaterAt, Units, Octets, Parse, Swapped;
    HeaderRound(f);
  }
}
