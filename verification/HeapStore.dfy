/**
 Headers inside the heap's octets. A header at offset p holds the offsets of its neighbours as
 16-bit little-endian words and a flag. Every write of the allocator is a write into one header,
 and leaves all other headers and all other octets alone.
 */
module HeapStore {
  import opened Bytes
  import opened HeapLayout

  /** Octets of a header that carry information. */
  const LIVE := 5

  type Store = seq<byte>

  type Word = n: int | 0 <= n < 0x1_0000

  datatype Header = Header(next: Word, prev: Word, used: byte)

  predicate Fits(s: Store, p: int) { 0 <= p && p + LIVE <= |s| }

  function Hdr(s: Store, p: int): Header
    requires Fits(s, p)
  {
    Header((s[p] as int) + 256 * (s[p + 1] as int), (s[p + 2] as int) + 256 * (s[p + 3] as int), s[p + 4])
  }

  predicate Far(p: int, q: int) { p + LIVE <= q || q + LIVE <= p }

  function Put(s: Store, p: int, h: Header): (t: Store)
    requires Fits(s, p)
    ensures |t| == |s|
  {
    s[p := h.next % 256][p + 1 := h.next / 256][p + 2 := h.prev % 256][p + 3 := h.prev / 256][p + 4 := h.used]
  }

  /** Octets differ at most inside the three headers. */
  ghost predicate OnlyIn(s: Store, t: Store, p: int, q: int, r: int) {
    && |t| == |s|
    && forall x :: 0 <= x < |s| && !(p <= x < p + LIVE) && !(q <= x < q + LIVE) && !(r <= x < r + LIVE) ==> t[x] == s[x]
  }

  lemma PutHere(s: Store, p: int, h: Header)
    requires Fits(s, p)
    ensures Hdr(Put(s, p, h), p) == h
  {
  }

  lemma PutThere(s: Store, p: int, h: Header, q: int)
    requires Fits(s, p) && Fits(s, q) && Far(p, q)
    ensures Hdr(Put(s, p, h), q) == Hdr(s, q)
  {
  }

  lemma PutTwice(s: Store, p: int, h: Header, h': Header)
    requires Fits(s, p)
    ensures Put(Put(s, p, h), p, h') == Put(s, p, h')
  {
  }

  /** The header that block `i` of a layout must have. */
  function Expected(b: seq<Block>, i: int, top: int): Header
    requires Tiled(b, top) && 0 <= i < |b| && top <= 64000
  {
    Header(End(b, i, top), if i == 0 then 0 else b[i - 1].start, if b[i].used then 1 else 0)
  }

  ghost predicate Sized(s: Store, top: int) {
    |s| == top + 2 * HDR && HDR + MIN <= top <= 64000
  }

  /** The headers in `s` describe the layout `b`, and the end marker stands behind it. */
  ghost predicate Describes(s: Store, b: seq<Block>, top: int) {
    && Sized(s, top) && Tiled(b, top)
    && (forall i :: 0 <= i < |b| ==> Hdr(s, b[i].start) == Expected(b, i, top))
    && Hdr(s, top).next == top && Hdr(s, top).used == 1
  }

  lemma HdrIs(s: Store, b: seq<Block>, top: int, i: int)
    requires Describes(s, b, top) && 0 <= i < |b|
    ensures Fits(s, b[i].start) && b[i].start < top && Hdr(s, b[i].start) == Expected(b, i, top) && Fits(s, End(b, i, top))
  {
  }

  // ----- Insertion and removal of a header

  /**
   The store after block `k` has been cut at `at`: the remainder gets a free header, and the
   successor, unless it is the end marker, points back to it. `used` is the flag block `k` gets.
   */
  function CutStore(s: Store, p: int, at: int, used: byte, top: int): (t: Store)
    requires Sized(s, top) && Fits(s, p) && Fits(s, at) && p < top && at < top && Hdr(s, p).next <= top
    ensures |t| == |s| && OnlyIn(s, t, p, at, Hdr(s, p).next)
  {
    var end := Hdr(s, p).next;
    var s1 := Put(s, at, Header(end, p, 0));
    var s2 := Put(s1, p, Header(at, Hdr(s, p).prev, used));
    if end != top then Put(s2, end, Hdr(s, end).(prev := at)) else s2
  }

  lemma CutHeaders(s: Store, p: int, at: int, used: byte, top: int, q: int)
    requires Sized(s, top) && Fits(s, p) && Fits(s, at) && p + LIVE <= at && at + LIVE <= Hdr(s, p).next <= top
    requires Fits(s, q) && (q == p || Far(p, q)) && (q == at || Far(at, q))
    requires Hdr(s, p).next < top ==> q == Hdr(s, p).next || Far(Hdr(s, p).next, q)
    ensures var end := Hdr(s, p).next;
            Hdr(CutStore(s, p, at, used, top), q) ==
            if q == p then Header(at, Hdr(s, p).prev, used)
            else if q == at then Header(end, p, 0)
            else if q == end && end < top then Hdr(s, q).(prev := at)
            else Hdr(s, q)
  {
    hide Hdr, Put;
    var end := Hdr(s, p).next;
    var h1, h2 := Header(end, p, 0), Header(at, Hdr(s, p).prev, used);
    var s1 := Put(s, at, h1);
    var s2 := Put(s1, p, h2);
    if q == at { PutHere(s, at, h1); } else { PutThere(s, at, h1, q); }
    if q == p { PutHere(s1, p, h2); } else { PutThere(s1, p, h2, q); }
    if end != top {
      var h3 := Hdr(s, end).(prev := at);
      if q == end { PutHere(s2, end, h3); } else { PutThere(s2, end, h3, q); }
    }
  }

  /** A layout with block `k` cut at `at`. */
  function Cut(b: seq<Block>, k: int, at: int, used: bool): seq<Block>
    requires 0 <= k < |b|
  {
    b[..k] + [Block(b[k].start, used), Block(at, false)] + b[k + 1..]
  }

  ghost predicate Cuttable(b: seq<Block>, k: int, at: int, top: int) {
    && Tiled(b, top) && 0 <= k < |b| && at % ALIGN == 0
    && b[k].start + HDR + MIN <= at && at + HDR + MIN <= End(b, k, top)
  }

  lemma CutTiled(b: seq<Block>, k: int, at: int, used: bool, top: int)
    requires Cuttable(b, k, at, top)
    ensures Tiled(Cut(b, k, at, used), top)
  {
  }

  function Flag(u: bool): byte { if u then 1 else 0 }

  /** Starts of blocks, and the end marker, are far apart. */
  lemma FarApart(b: seq<Block>, top: int, i: int, j: int)
    requires Tiled(b, top) && 0 <= i < |b| && 0 <= j < |b| && i != j
    ensures Far(b[i].start, b[j].start)
  {
  }

  lemma CutExpected(b: seq<Block>, k: int, at: int, used: bool, top: int, i: int)
    requires Cuttable(b, k, at, top) && top <= 64000 && 0 <= i <= |b|
    ensures var c := Cut(b, k, at, used);
            && Tiled(c, top) && |c| == |b| + 1
            && c[i].start == (if i <= k then b[i].start else if i == k + 1 then at else b[i - 1].start)
            && Expected(c, i, top) ==
               if i < k then Expected(b, i, top)
               else if i == k then Header(at, Expected(b, k, top).prev, Flag(used))
               else if i == k + 1 then Header(End(b, k, top), b[k].start, 0)
               else if i == k + 2 then Expected(b, k + 1, top).(prev := at)
               else Expected(b, i - 1, top)
  {
    CutTiled(b, k, at, used, top);
    var c := Cut(b, k, at, used);
    assert forall j :: 0 <= j < k ==> c[j] == b[j];
    assert forall j :: k + 1 < j < |c| ==> c[j] == b[j - 1];
  }

  lemma CutPlaces(b: seq<Block>, k: int, at: int, top: int, i: int)
    requires Cuttable(b, k, at, top) && 0 <= i < |b|
    ensures i != k ==> Far(b[k].start, b[i].start)
    ensures Far(at, b[i].start) && b[k].start + LIVE <= at && at + LIVE <= End(b, k, top) <= top
    ensures i != k + 1 && End(b, k, top) < top ==> Far(End(b, k, top), b[i].start)
    ensures i == k + 1 ==> b[i].start == End(b, k, top) < top
  {
  }

  lemma CutDescribesAt(s: Store, b: seq<Block>, k: int, at: int, used: bool, top: int, i: int)
    requires Describes(s, b, top) && Cuttable(b, k, at, top) && 0 <= i <= |b|
    ensures var c := Cut(b, k, at, used);
            && Tiled(c, top) && |c| == |b| + 1
            && Hdr(CutStore(s, b[k].start, at, Flag(used), top), c[i].start) == Expected(c, i, top)
  {
    hide Hdr, Put, CutStore, Cut, Tiled;
    CutExpected(b, k, at, used, top, i);
    var n := if i <= k then i else i - 1;
    CutPlaces(b, k, at, top, n);
    HdrIs(s, b, top, k);
    HdrIs(s, b, top, n);
    var c := Cut(b, k, at, used);
    CutPlaces(b, k, at, top, k);
    CutHeaders(s, b[k].start, at, Flag(used), top, c[i].start);
  }

  lemma CutDescribes(s: Store, b: seq<Block>, k: int, at: int, used: bool, top: int)
    requires Describes(s, b, top) && Cuttable(b, k, at, top)
    ensures Describes(CutStore(s, b[k].start, at, Flag(used), top), Cut(b, k, at, used), top)
  {
    hide Hdr, Put, CutStore, Cut;
    var c := Cut(b, k, at, used);
    var t := CutStore(s, b[k].start, at, Flag(used), top);
    CutDescribesAt(s, b, k, at, used, top, 0);
    forall i | 0 <= i < |c| ensures Hdr(t, c[i].start) == Expected(c, i, top) {
      CutDescribesAt(s, b, k, at, used, top, i);
    }
    CutPlaces(b, k, at, top, k);
    HdrIs(s, b, top, k);
    CutHeaders(s, b[k].start, at, Flag(used), top, top);
  }

  // ----- A flag, a merge, a move

  lemma FlagExpected(b: seq<Block>, k: int, u: bool, top: int, i: int)
    requires Tiled(b, top) && top <= 64000 && 0 <= k < |b| && 0 <= i < |b|
    ensures var c := b[k := b[k].(used := u)];
            && Tiled(c, top) && c[i].start == b[i].start
            && Expected(c, i, top) == if i == k then Expected(b, i, top).(used := Flag(u)) else Expected(b, i, top)
  {
  }

  lemma FlagDescribesAt(s: Store, b: seq<Block>, k: int, u: bool, top: int, i: int)
    requires Describes(s, b, top) && 0 <= k < |b| && 0 <= i < |b|
    ensures var c := b[k := b[k].(used := u)];
            Tiled(c, top) && Hdr(Put(s, b[k].start, Hdr(s, b[k].start).(used := Flag(u))), c[i].start) == Expected(c, i, top)
  {
    hide Hdr, Put, Tiled, Expected;
    FlagExpected(b, k, u, top, i);
    HdrIs(s, b, top, i);
    HdrIs(s, b, top, k);
    var h := Hdr(s, b[k].start).(used := Flag(u));
    if i == k { PutHere(s, b[k].start, h); } else { FarApart(b, top, k, i); PutThere(s, b[k].start, h, b[i].start); }
  }

  lemma FlagDescribes(s: Store, b: seq<Block>, k: int, u: bool, top: int)
    requires Describes(s, b, top) && 0 <= k < |b|
    ensures Describes(Put(s, b[k].start, Hdr(s, b[k].start).(used := Flag(u))), b[k := b[k].(used := u)], top)
  {
    hide Hdr, Put, Expected;
    var h := Hdr(s, b[k].start).(used := Flag(u));
    var t := Put(s, b[k].start, h);
    var c := b[k := b[k].(used := u)];
    FlagDescribesAt(s, b, k, u, top, k);
    forall i | 0 <= i < |c| ensures Hdr(t, c[i].start) == Expected(c, i, top) {
      FlagDescribesAt(s, b, k, u, top, i);
    }
    PutThere(s, b[k].start, h, top);
  }

  /** The header at `q` is taken out from between `p` and its successor. */
  function MergeStore(s: Store, p: int, q: int): (t: Store)
    requires Fits(s, p) && Fits(s, q) && p < 0x1_0000 && Fits(s, Hdr(s, q).next)
    ensures |t| == |s| && OnlyIn(s, t, p, p, Hdr(s, q).next)
  {
    var end := Hdr(s, q).next;
    var s1 := Put(s, p, Hdr(s, p).(next := end));
    Put(s1, end, Hdr(s1, end).(prev := p))
  }

  lemma MergeHeaders(s: Store, p: int, q: int, x: int)
    requires Fits(s, p) && Fits(s, q) && p < 0x1_0000 && Fits(s, Hdr(s, q).next) && Far(p, Hdr(s, q).next)
    requires Fits(s, x) && (x == p || Far(p, x)) && (x == Hdr(s, q).next || Far(Hdr(s, q).next, x))
    ensures var end := Hdr(s, q).next;
            Hdr(MergeStore(s, p, q), x) ==
            if x == p then Hdr(s, p).(next := end) else if x == end then Hdr(s, end).(prev := p) else Hdr(s, x)
  {
    hide Hdr, Put;
    var end := Hdr(s, q).next;
    var h1 := Hdr(s, p).(next := end);
    var s1 := Put(s, p, h1);
    PutHere(s, p, h1);
    PutThere(s, p, h1, end);
    if x != p { PutThere(s, p, h1, x); }
    var h2 := Hdr(s1, end).(prev := p);
    if x == end { PutHere(s1, end, h2); } else { PutThere(s1, end, h2, x); }
  }

  lemma MergeExpected(b: seq<Block>, i: int, top: int, j: int)
    requires Tiled(b, top) && top <= 64000 && 0 < i < |b| && 0 <= j < |b| - 1
    ensures var c := Merge(b, i);
            && Tiled(c, top) && |c| == |b| - 1
            && c[j].start == (if j < i then b[j].start else b[j + 1].start)
            && Expected(c, j, top) ==
               if j < i - 1 then Expected(b, j, top)
               else if j == i - 1 then Expected(b, j, top).(next := End(b, i, top))
               else if j == i then Expected(b, j + 1, top).(prev := b[i - 1].start)
               else Expected(b, j + 1, top)
  {
    MergeTiled(b, i, top);
    var c := Merge(b, i);
    assert forall n :: 0 <= n < i ==> c[n] == b[n];
    assert forall n :: i <= n < |c| ==> c[n] == b[n + 1];
  }

  lemma MergePlaces(b: seq<Block>, i: int, top: int, n: int)
    requires Tiled(b, top) && 0 < i < |b| && 0 <= n < |b|
    ensures n != i - 1 ==> Far(b[i - 1].start, b[n].start)
    ensures Far(b[i - 1].start, End(b, i, top)) && End(b, i, top) <= top
    ensures if n == i + 1 then b[n].start == End(b, i, top) else Far(End(b, i, top), b[n].start)
  {
  }

  lemma MergeDescribesAt(s: Store, b: seq<Block>, i: int, top: int, j: int)
    requires Describes(s, b, top) && 0 < i < |b| && 0 <= j < |b| - 1
    ensures var c := Merge(b, i);
            && Tiled(c, top) && |c| == |b| - 1
            && Fits(s, Hdr(s, b[i].start).next)
            && Hdr(MergeStore(s, b[i - 1].start, b[i].start), c[j].start) == Expected(c, j, top)
  {
    hide Hdr, Put, MergeStore, Merge, Tiled;
    MergeExpected(b, i, top, j);
    var n := if j < i then j else j + 1;
    MergePlaces(b, i, top, n);
    HdrIs(s, b, top, i - 1);
    HdrIs(s, b, top, i);
    HdrIs(s, b, top, n);
    MergeHeaders(s, b[i - 1].start, b[i].start, b[n].start);
  }

  lemma MergeDescribes(s: Store, b: seq<Block>, i: int, top: int)
    requires Describes(s, b, top) && 0 < i < |b|
    ensures Fits(s, Hdr(s, b[i].start).next)
    ensures Describes(MergeStore(s, b[i - 1].start, b[i].start), Merge(b, i), top)
  {
    hide Hdr, Put, MergeStore, Merge;
    MergeDescribesAt(s, b, i, top, 0);
    var c := Merge(b, i);
    var t := MergeStore(s, b[i - 1].start, b[i].start);
    forall j | 0 <= j < |c| ensures Hdr(t, c[j].start) == Expected(c, j, top) {
      MergeDescribesAt(s, b, i, top, j);
    }
    HdrIs(s, b, top, i);
    MergePlaces(b, i, top, i);
    MergeHeaders(s, b[i - 1].start, b[i].start, top);
  }

  /** The free header behind `p` moves down to `at`. */
  function MoveStore(s: Store, p: int, at: int, top: int): (t: Store)
    requires Sized(s, top) && Fits(s, p) && Fits(s, at) && p < top && at < top
    requires Hdr(s, p).next <= top && Hdr(s, Hdr(s, p).next).next <= top
    ensures |t| == |s| && OnlyIn(s, t, p, at, Hdr(s, Hdr(s, p).next).next)
  {
    var end := Hdr(s, Hdr(s, p).next).next;
    var s1 := Put(s, at, Header(end, p, 0));
    var s2 := Put(s1, p, Hdr(s, p).(next := at));
    if end != top then Put(s2, end, Hdr(s, end).(prev := at)) else s2
  }

  lemma MoveHeaders(s: Store, p: int, at: int, top: int, q: int)
    requires Sized(s, top) && Fits(s, p) && Fits(s, at) && p + LIVE <= at && at < top && Hdr(s, p).next <= top
    requires at + LIVE <= Hdr(s, Hdr(s, p).next).next <= top
    requires Fits(s, q) && (q == p || Far(p, q)) && (q == at || Far(at, q))
    requires var end := Hdr(s, Hdr(s, p).next).next; end < top ==> q == end || Far(end, q)
    ensures var end := Hdr(s, Hdr(s, p).next).next;
            Hdr(MoveStore(s, p, at, top), q) ==
            if q == p then Hdr(s, p).(next := at)
            else if q == at then Header(end, p, 0)
            else if q == end && end < top then Hdr(s, q).(prev := at)
            else Hdr(s, q)
  {
    hide Hdr, Put;
    var end := Hdr(s, Hdr(s, p).next).next;
    var h1, h2 := Header(end, p, 0), Hdr(s, p).(next := at);
    var s1 := Put(s, at, h1);
    var s2 := Put(s1, p, h2);
    if q == at { PutHere(s, at, h1); } else { PutThere(s, at, h1, q); }
    if q == p { PutHere(s1, p, h2); } else { PutThere(s1, p, h2, q); }
    if end != top {
      var h3 := Hdr(s, end).(prev := at);
      if q == end { PutHere(s2, end, h3); } else { PutThere(s2, end, h3, q); }
    }
  }

  /** A layout with the block behind `k` starting at `at` instead. */
  function Move(b: seq<Block>, k: int, at: int): seq<Block>
    requires 0 <= k && k + 1 < |b|
  {
    b[k + 1 := Block(at, false)]
  }

  ghost predicate Movable(b: seq<Block>, k: int, at: int, top: int) {
    && Tiled(b, top) && 0 <= k && k + 1 < |b| && at % ALIGN == 0 && b[k].used && !b[k + 1].used
    && b[k].start + HDR + MIN <= at < b[k + 1].start
  }

  lemma MoveExpected(b: seq<Block>, k: int, at: int, top: int, i: int)
    requires Movable(b, k, at, top) && top <= 64000 && 0 <= i < |b|
    ensures var c := Move(b, k, at);
            && Tiled(c, top) && |c| == |b|
            && c[i].start == (if i == k + 1 then at else b[i].start)
            && Expected(c, i, top) ==
               if i == k then Expected(b, k, top).(next := at)
               else if i == k + 1 then Header(End(b, k + 1, top), b[k].start, 0)
               else if i == k + 2 then Expected(b, i, top).(prev := at)
               else Expected(b, i, top)
  {
  }

  lemma MovePlaces(b: seq<Block>, k: int, at: int, top: int, i: int)
    requires Movable(b, k, at, top) && 0 <= i < |b| && i != k + 1
    ensures i != k ==> Far(b[k].start, b[i].start)
    ensures Far(at, b[i].start) && b[k].start + LIVE <= at && at + LIVE <= End(b, k + 1, top) <= top
    ensures i != k + 2 && End(b, k + 1, top) < top ==> Far(End(b, k + 1, top), b[i].start)
    ensures i == k + 2 ==> b[i].start == End(b, k + 1, top) < top
  {
  }

  lemma MoveDescribesAt(s: Store, b: seq<Block>, k: int, at: int, top: int, i: int)
    requires Describes(s, b, top) && Movable(b, k, at, top) && 0 <= i < |b|
    ensures var c := Move(b, k, at);
            && Tiled(c, top) && |c| == |b|
            && Hdr(s, b[k].start).next == b[k + 1].start && Hdr(s, b[k + 1].start).next == End(b, k + 1, top) <= top
            && Hdr(MoveStore(s, b[k].start, at, top), c[i].start) == Expected(c, i, top)
  {
    hide Hdr, Put, MoveStore, Move, Tiled;
    MoveExpected(b, k, at, top, i);
    MovePlaces(b, k, at, top, if i == k + 1 then k else i);
    HdrIs(s, b, top, k);
    HdrIs(s, b, top, k + 1);
    HdrIs(s, b, top, i);
    var c := Move(b, k, at);
    MoveHeaders(s, b[k].start, at, top, c[i].start);
  }

  lemma MoveDescribes(s: Store, b: seq<Block>, k: int, at: int, top: int)
    requires Describes(s, b, top) && Movable(b, k, at, top)
    ensures Hdr(s, b[k].start).next == b[k + 1].start && Hdr(s, b[k + 1].start).next == End(b, k + 1, top) <= top
    ensures Describes(MoveStore(s, b[k].start, at, top), Move(b, k, at), top)
  {
    hide Hdr, Put, MoveStore, Move;
    MoveDescribesAt(s, b, k, at, top, 0);
    var c := Move(b, k, at);
    var t := MoveStore(s, b[k].start, at, top);
    forall i | 0 <= i < |c| ensures Hdr(t, c[i].start) == Expected(c, i, top) {
      MoveDescribesAt(s, b, k, at, top, i);
    }
    MovePlaces(b, k, at, top, k);
    MoveHeaders(s, b[k].start, at, top, top);
  }

  // ----- Payloads

  /** The octets of block `i` from its payload's start up to `end` are the same. */
  ghost predicate Kept(s: Store, t: Store, b: seq<Block>, i: int, end: int)
    requires 0 <= i < |b|
  {
    |t| == |s| && forall x :: b[i].start + HDR <= x < end && 0 <= x < |s| ==> t[x] == s[x]
  }

  /** The payloads of all used blocks but `k` are the same. */
  ghost predicate OthersKept(s: Store, t: Store, b: seq<Block>, k: int, top: int) {
    forall i :: 0 <= i < |b| && i != k && b[i].used ==> Kept(s, t, b, i, End(b, i, top))
  }

  /** A header of this layout, or an offset inside block `k`, lies in no other block's payload. */
  lemma HeadersMissPayloads(s: Store, t: Store, b: seq<Block>, k: int, top: int, p: int, q: int, r: int)
    requires Tiled(b, top) && 0 <= k < |b| && OnlyIn(s, t, p, q, r)
    requires forall y :: y in {p, q, r} ==> Place(b, k, top, y)
    ensures OthersKept(s, t, b, k, top)
  {
    forall i | 0 <= i < |b| && i != k && b[i].used ensures Kept(s, t, b, i, End(b, i, top)) {
      PlaceMisses(b, k, top, p, i);
      PlaceMisses(b, k, top, q, i);
      PlaceMisses(b, k, top, r, i);
    }
  }

  ghost predicate Place(b: seq<Block>, k: int, top: int, y: int)
    requires 0 <= k < |b|
  {
    y == top || b[k].start <= y <= End(b, k, top) || exists j :: 0 <= j < |b| && b[j].start == y
  }

  lemma PlaceMisses(b: seq<Block>, k: int, top: int, y: int, i: int)
    requires Tiled(b, top) && 0 <= k < |b| && 0 <= i < |b| && i != k && Place(b, k, top, y)
    ensures y + LIVE <= b[i].start + HDR || End(b, i, top) <= y
  {
  }
}
