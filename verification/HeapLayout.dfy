/**
 The layout of the heap: the ordered list of blocks that the headers describe. Blocks follow one
 another without gaps, from offset 0 to the end marker at offset `top` (MEM_SIZE_ALIGNED).
 */
module HeapLayout {
  /** SIZEOF_STRUCT_MEM: two 16-bit offsets and a flag, aligned. */
  const HDR := 8
  /** MIN_SIZE_ALIGNED */
  const MIN := 12
  /** MEM_ALIGNMENT */
  const ALIGN := 4

  datatype Block = Block(start: int, used: bool)

  /** Where block `i` ends: at the next block or at the end marker. */
  function End(bs: seq<Block>, i: int, top: int): int
    requires 0 <= i < |bs|
  {
    if i + 1 < |bs| then bs[i + 1].start else top
  }

  function Payload(bs: seq<Block>, i: int, top: int): int
    requires 0 <= i < |bs|
  {
    End(bs, i, top) - bs[i].start - HDR
  }

  /** The blocks tile [0, top): aligned, in order, each with a header and at least MIN octets. */
  ghost predicate Tiled(bs: seq<Block>, top: int) {
    && |bs| > 0 && bs[0].start == 0 && top % ALIGN == 0
    && (forall i :: 0 <= i < |bs| ==> bs[i].start % ALIGN == 0 && bs[i].start + HDR + MIN <= top)
    && (forall i, j :: 0 <= i < j < |bs| ==> bs[i].start + HDR + MIN <= bs[j].start)
  }

  /** No two neighbours are both free. */
  ghost predicate Coalesced(bs: seq<Block>) {
    forall i, j :: 0 <= i < j < |bs| && j == i + 1 ==> bs[i].used || bs[j].used
  }

  ghost predicate Layout(bs: seq<Block>, top: int) {
    Tiled(bs, top) && Coalesced(bs)
  }

  /** The lowest free block, or the end marker. */
  function LowestFree(bs: seq<Block>, top: int): int {
    if bs == [] then top else if !bs[0].used then bs[0].start else LowestFree(bs[1..], top)
  }

  /** The octets, headers included, of all used blocks. */
  function UsedSum(bs: seq<Block>, top: int): int {
    if bs == [] then 0
    else (if bs[0].used then End(bs, 0, top) - bs[0].start else 0) + UsedSum(bs[1..], top)
  }

  // ----- The three operations

  /** Block `k` becomes used; what it does not need becomes a free block if it is large enough. */
  function AllocAt(bs: seq<Block>, k: int, size: int, top: int): seq<Block>
    requires 0 <= k < |bs|
  {
    var b := bs[k];
    bs[..k] + [Block(b.start, true)]
    + (if Payload(bs, k, top) >= size + HDR + MIN then [Block(b.start + HDR + size, false)] else [])
    + bs[k + 1..]
  }

  /** Block `i` is swallowed by its predecessor. */
  function Merge(bs: seq<Block>, i: int): seq<Block>
    requires 0 < i < |bs|
  {
    bs[..i] + bs[i + 1..]
  }

  /** The first half of plug_holes: join block `k` with a free successor. */
  function PlugForward(bs: seq<Block>, k: int): seq<Block>
    requires 0 <= k < |bs|
  {
    if k + 1 < |bs| && !bs[k + 1].used then Merge(bs, k + 1) else bs
  }

  /** The second half: join block `k` with a free predecessor. */
  function PlugBackward(bs: seq<Block>, k: int): seq<Block>
    requires 0 <= k < |bs|
  {
    if k > 0 && !bs[k - 1].used then Merge(bs, k) else bs
  }

  /** Block `k` becomes free and is joined with free neighbours. */
  function FreeAt(bs: seq<Block>, k: int): seq<Block>
    requires 0 <= k < |bs|
  {
    PlugBackward(PlugForward(bs[k := bs[k].(used := false)], k), k)
  }

  /** Block `k` shrinks to `size` octets; the free block behind it grows, or one is created if it is large enough. */
  function TrimAt(bs: seq<Block>, k: int, size: int, top: int): seq<Block>
    requires 0 <= k < |bs|
  {
    var at := bs[k].start + HDR + size;
    if size >= Payload(bs, k, top) then bs
    else if k + 1 < |bs| && !bs[k + 1].used then bs[..k + 1] + [Block(at, false)] + bs[k + 2..]
    else if size + HDR + MIN <= Payload(bs, k, top) then bs[..k + 1] + [Block(at, false)] + bs[k + 1..]
    else bs
  }

  /** LWIP_MEM_ALIGN_SIZE in 16-bit arithmetic, then the minimum: no smaller than asked for unless the sum wraps. */
  function RequestSize(size: int): (r: int)
    requires 0 <= size < 0x1_0000
    ensures r % ALIGN == 0 && MIN <= r
    ensures size <= r <==> size <= 0xfffc
  {
    var a := ((size + ALIGN - 1) / ALIGN * ALIGN) % 0x1_0000;
    if a < MIN then MIN else a
  }

  /** The first block, lowest first, that is free and can hold `size` octets; |bs| if there is none. */
  function FirstFit(bs: seq<Block>, size: int, top: int): (k: nat)
    ensures k <= |bs|
    ensures k < |bs| ==> !bs[k].used && Payload(bs, k, top) >= size
    ensures forall i :: 0 <= i < k ==> bs[i].used || Payload(bs, i, top) < size
  {
    if bs == [] then 0
    else if !bs[0].used && Payload(bs, 0, top) >= size then 0
    else
      var k := FirstFit(bs[1..], size, top);
      assert forall i :: 0 <= i < |bs| - 1 ==> Payload(bs[1..], i, top) == Payload(bs, i + 1, top);
      1 + k
  }

  // ----- Each keeps the layout

  /** A block put between two neighbours. */
  function Inserted(bs: seq<Block>, p: nat, b: Block): seq<Block>
    requires p <= |bs|
  {
    bs[..p] + [b] + bs[p..]
  }

  lemma InsertTiled(bs: seq<Block>, p: nat, b: Block, top: int)
    requires Tiled(bs, top) && 0 < p <= |bs| && b.start % ALIGN == 0 && bs[p - 1].start + HDR + MIN <= b.start
    requires b.start + HDR + MIN <= if p < |bs| then bs[p].start else top
    ensures Tiled(Inserted(bs, p, b), top)
  {
    var r := Inserted(bs, p, b);
    assert forall i :: 0 <= i < p ==> r[i] == bs[i];
    assert forall i :: p < i < |r| ==> r[i] == bs[i - 1];
    forall i, j | 0 <= i < j < |r| ensures r[i].start + HDR + MIN <= r[j].start {
      if i < p - 1 && j == p { assert bs[i].start + HDR + MIN <= bs[p - 1].start; }
      if i == p && j > p + 1 { assert bs[p].start + HDR + MIN <= bs[j - 1].start; }
    }
  }

  lemma InsertCoalesced(bs: seq<Block>, p: nat, b: Block)
    requires Coalesced(bs) && 0 < p <= |bs| && (b.used || (bs[p - 1].used && (p < |bs| ==> bs[p].used)))
    ensures Coalesced(Inserted(bs, p, b))
  {
    var r := Inserted(bs, p, b);
    assert forall i :: 0 <= i < p ==> r[i] == bs[i];
    assert forall i :: p < i < |r| ==> r[i] == bs[i - 1];
  }

  lemma MarkTiled(bs: seq<Block>, k: nat, b: Block, top: int)
    requires Tiled(bs, top) && k < |bs| && b.start == bs[k].start
    ensures Tiled(bs[k := b], top)
  {
  }

  /** The start of block `k` may move up if what is left stays large enough. */
  lemma MoveTiled(bs: seq<Block>, k: nat, b: Block, top: int)
    requires Tiled(bs, top) && 0 < k < |bs| && b.start % ALIGN == 0 && bs[k - 1].start + HDR + MIN <= b.start <= bs[k].start
    ensures Tiled(bs[k := b], top)
  {
    var r := bs[k := b];
    forall i | 0 <= i < k ensures r[i].start + HDR + MIN <= b.start {
      if i < k - 1 { assert bs[i].start + HDR + MIN <= bs[k - 1].start; }
    }
  }

  lemma AllocKeeps(bs: seq<Block>, k: int, size: int, top: int)
    requires Layout(bs, top) && 0 <= k < |bs| && !bs[k].used
    requires MIN <= size <= Payload(bs, k, top) && size % ALIGN == 0
    ensures Layout(AllocAt(bs, k, size, top), top)
  {
    var u := bs[k := Block(bs[k].start, true)];
    assert k + 1 < |bs| ==> bs[k + 1].used;
    assert Coalesced(u);
    MarkTiled(bs, k, u[k], top);
    if Payload(bs, k, top) >= size + HDR + MIN {
      var b := Block(bs[k].start + HDR + size, false);
      assert AllocAt(bs, k, size, top) == Inserted(u, k + 1, b);
      assert bs[k].start % ALIGN == 0;
      hide Tiled, Coalesced, AllocAt, Inserted;
      AlignSum(bs[k].start, size);
      InsertTiled(u, k + 1, b, top);
      InsertCoalesced(u, k + 1, b);
    } else {
      assert AllocAt(bs, k, size, top) == u;
    }
  }

  lemma AlignSum(x: int, size: int)
    requires x % ALIGN == 0 && size % ALIGN == 0
    ensures (x + HDR + size) % ALIGN == 0
  {
  }

  lemma MergeTiled(bs: seq<Block>, i: int, top: int)
    requires Tiled(bs, top) && 0 < i < |bs|
    ensures Tiled(Merge(bs, i), top)
  {
    var r := Merge(bs, i);
    assert forall j :: 0 <= j < |r| ==> r[j] == bs[if j < i then j else j + 1];
  }

  lemma FreeTiled(bs: seq<Block>, k: int, top: int)
    requires Tiled(bs, top) && 0 <= k < |bs|
    ensures Tiled(FreeAt(bs, k), top)
  {
    var b := bs[k := bs[k].(used := false)];
    if k + 1 < |b| && !b[k + 1].used { MergeTiled(b, k + 1, top); }
    var b' := PlugForward(b, k);
    if k > 0 && !b'[k - 1].used { MergeTiled(b', k, top); }
  }

  /** Coalesced, except perhaps around block `k`. */
  ghost predicate CoalescedBut(bs: seq<Block>, k: int) {
    forall i, j :: 0 <= i < j < |bs| && j == i + 1 && i != k && j != k ==> bs[i].used || bs[j].used
  }

  lemma PlugForwardCoalesces(bs: seq<Block>, k: int)
    requires CoalescedBut(bs, k) && 0 <= k < |bs|
    requires k + 2 < |bs| && !bs[k + 1].used ==> bs[k + 2].used
    ensures var f := PlugForward(bs, k);
            CoalescedBut(f, k) && f[..k + 1] == bs[..k + 1] && (k + 1 < |f| ==> f[k + 1].used)
  {
    if k + 1 < |bs| && !bs[k + 1].used {
      var f := Merge(bs, k + 1);
      assert forall i :: 0 <= i <= k ==> f[i] == bs[i];
      assert forall i :: k < i < |f| ==> f[i] == bs[i + 1];
      forall i, j | 0 <= i < j < |f| && j == i + 1 && i != k && j != k ensures f[i].used || f[j].used {
        if i > k {
          var (a, b) := (i + 1, j + 1);
          assert bs[a].used || bs[b].used;
        }
      }
    }
  }

  lemma PlugBackwardCoalesces(bs: seq<Block>, k: int)
    requires CoalescedBut(bs, k) && 0 <= k < |bs| && !bs[k].used
    requires k + 1 < |bs| ==> bs[k + 1].used
    ensures Coalesced(PlugBackward(bs, k))
  {
    var r := PlugBackward(bs, k);
    assert forall i :: 0 <= i < |r| ==> r[i] == bs[if i < k then i else i + |bs| - |r|];
    forall i, j | 0 <= i < j < |r| && j == i + 1 ensures r[i].used || r[j].used {
      if j >= k && |r| < |bs| { assert bs[j + 1].used || bs[i + 1].used || j == k; }
    }
  }

  lemma FreeKeeps(bs: seq<Block>, k: int, top: int)
    requires Layout(bs, top) && 0 <= k < |bs| && bs[k].used
    ensures Layout(FreeAt(bs, k), top)
  {
    FreeTiled(bs, k, top);
    var b := bs[k := bs[k].(used := false)];
    assert k + 2 < |bs| ==> bs[k + 1].used || bs[k + 2].used;
    PlugForwardCoalesces(b, k);
    assert PlugForward(b, k)[k] == PlugForward(b, k)[..k + 1][k];
    hide *;
    PlugBackwardCoalesces(PlugForward(b, k), k);
  }

  lemma TrimKeeps(bs: seq<Block>, k: int, size: int, top: int)
    requires Layout(bs, top) && 0 <= k < |bs| && bs[k].used && MIN <= size && size % ALIGN == 0
    ensures Layout(TrimAt(bs, k, size, top), top)
  {
    var b := Block(bs[k].start + HDR + size, false);
    assert bs[k].start % ALIGN == 0;
    AlignSum(bs[k].start, size);
    if size >= Payload(bs, k, top) {
    } else if k + 1 < |bs| && !bs[k + 1].used {
      assert TrimAt(bs, k, size, top) == bs[k + 1 := b];
      MoveTiled(bs, k + 1, b, top);
      assert Coalesced(bs[k + 1 := b]);
    } else if size + HDR + MIN <= Payload(bs, k, top) {
      assert TrimAt(bs, k, size, top) == Inserted(bs, k + 1, b);
      hide Tiled, Coalesced, TrimAt, Inserted;
      InsertTiled(bs, k + 1, b, top);
      InsertCoalesced(bs, k + 1, b);
    }
  }

  /** Freeing what was just allocated restores the layout. */
  lemma FreeUndoesAlloc(bs: seq<Block>, k: int, size: int, top: int)
    requires Layout(bs, top) && 0 <= k < |bs| && !bs[k].used
    ensures FreeAt(AllocAt(bs, k, size, top), k) == bs
  {
    var a := AllocAt(bs, k, size, top);
    var b := a[k := a[k].(used := false)];
    assert k > 0 ==> bs[k - 1].used;
    assert PlugForward(b, k) == bs;
  }

  /** With everything freed, the heap is one block again. */
  lemma AllFreeIsOneBlock(bs: seq<Block>, top: int)
    requires Layout(bs, top)
    ensures (forall i :: 0 <= i < |bs| ==> !bs[i].used) <==> bs == [Block(0, false)]
  {
    if |bs| > 1 { assert bs[0].used || bs[1].used; }
  }

  // ----- The lowest free block

  lemma LowestJoin(a: seq<Block>, b: seq<Block>, top: int)
    ensures LowestFree(a + b, top) == LowestFree(a, LowestFree(b, top))
  {
    if a == [] { assert a + b == b; } else { assert (a + b)[1..] == a[1..] + b; LowestJoin(a[1..], b, top); }
  }

  lemma LowestUsed(a: seq<Block>, top: int)
    requires forall i :: 0 <= i < |a| ==> a[i].used
    ensures LowestFree(a, top) == top
  {
  }

  /** The lowest free block is the first free one. */
  lemma LowestAt(bs: seq<Block>, i: int, top: int)
    requires 0 <= i <= |bs| && (forall j :: 0 <= j < i ==> bs[j].used) && (i < |bs| ==> !bs[i].used)
    ensures LowestFree(bs, top) == if i < |bs| then bs[i].start else top
  {
    LowestJoin(bs[..i], bs[i..], top);
    LowestUsed(bs[..i], LowestFree(bs[i..], top));
    assert bs == bs[..i] + bs[i..];
  }

  /** The index of the lowest free block. */
  function FirstFree(bs: seq<Block>): (i: nat)
    ensures i <= |bs| && (forall j :: 0 <= j < i ==> bs[j].used) && (i < |bs| ==> !bs[i].used)
  {
    if bs == [] || !bs[0].used then 0 else 1 + FirstFree(bs[1..])
  }

  lemma LowestIsFirst(bs: seq<Block>, top: int)
    ensures var i := FirstFree(bs); LowestFree(bs, top) == if i < |bs| then bs[i].start else top
  {
    LowestAt(bs, FirstFree(bs), top);
  }

  /** Two layouts that agree up to and including the first free block have the same lowest free block. */
  lemma SameLowest(bs: seq<Block>, r: seq<Block>, k: int, top: int)
    requires 0 <= k <= |bs| && k <= |r| && r[..k] == bs[..k] && FirstFree(bs) < k
    ensures LowestFree(r, top) == LowestFree(bs, top)
  {
    var i := FirstFree(bs);
    assert forall j :: 0 <= j < k ==> r[j] == r[..k][j] == bs[j];
    LowestAt(bs, i, top);
    LowestAt(r, i, top);
  }

  lemma AllocLowest(bs: seq<Block>, k: int, size: int, top: int)
    requires Tiled(bs, top) && 0 <= k < |bs| && !bs[k].used && LowestFree(bs, top) != bs[k].start
    ensures LowestFree(AllocAt(bs, k, size, top), top) == LowestFree(bs, top) && FirstFree(bs) < k
  {
    LowestIsFirst(bs, top);
    SameLowest(bs, AllocAt(bs, k, size, top), k, top);
  }

  lemma FreePrefix(bs: seq<Block>, k: int)
    requires 0 <= k < |bs|
    ensures var r := FreeAt(bs, k); k <= |r| && r[..k] == bs[..k]
    ensures var r := FreeAt(bs, k); (k == 0 || bs[k - 1].used) ==> k < |r| && r[k] == Block(bs[k].start, false)
  {
  }

  lemma FreeLowest(bs: seq<Block>, k: int, top: int)
    requires Tiled(bs, top) && 0 <= k < |bs| && bs[k].used
    ensures var l := LowestFree(bs, top);
            LowestFree(FreeAt(bs, k), top) == if bs[k].start < l then bs[k].start else l
    ensures k > 0 && !bs[k - 1].used ==> LowestFree(bs, top) < bs[k].start
    ensures k + 1 < |bs| && !bs[k + 1].used ==> LowestFree(bs, top) <= bs[k + 1].start
  {
    hide FreeAt, LowestFree;
    LowestIsFirst(bs, top);
    FreePrefix(bs, k);
    var r := FreeAt(bs, k);
    if FirstFree(bs) < k {
      SameLowest(bs, r, k, top);
    } else {
      assert forall j :: 0 <= j < k ==> r[j] == r[..k][j] == bs[j];
      LowestAt(r, k, top);
    }
  }

  lemma TrimLowest(bs: seq<Block>, k: int, size: int, top: int)
    requires Tiled(bs, top) && 0 <= k < |bs| && bs[k].used && MIN <= size
    ensures var l := LowestFree(bs, top);
            var r := TrimAt(bs, k, size, top);
            var at := bs[k].start + HDR + size;
            LowestFree(r, top) == if r != bs && bs[k].start < l then at else l
    ensures k + 1 < |bs| && !bs[k + 1].used ==>
              (LowestFree(bs, top) == bs[k + 1].start <==> bs[k].start < LowestFree(bs, top))
  {
    LowestIsFirst(bs, top);
    var r := TrimAt(bs, k, size, top);
    if r != bs {
      assert r[..k + 1] == bs[..k + 1];
      if FirstFree(bs) < k {
        SameLowest(bs, r, k + 1, top);
      } else {
        assert forall j :: 0 <= j <= k ==> r[j] == r[..k + 1][j] == bs[j];
        LowestAt(r, k + 1, top);
      }
    }
  }

  // ----- The used octets

  lemma SumJoin(a: seq<Block>, b: seq<Block>, top: int)
    ensures UsedSum(a + b, top) == UsedSum(a, if b == [] then top else b[0].start) + UsedSum(b, top)
  {
    if a == [] {
      assert a + b == b;
    } else {
      assert (a + b)[1..] == a[1..] + b;
      SumJoin(a[1..], b, top);
    }
  }

  lemma SumOne(b: Block, top: int)
    ensures UsedSum([b], top) == if b.used then top - b.start else 0
  {
    assert [b][1..] == [];
  }

  /** The sum around one block. */
  lemma SumAround(a: seq<Block>, b: Block, c: seq<Block>, top: int)
    ensures var end := if c == [] then top else c[0].start;
            UsedSum(a + [b] + c, top) == UsedSum(a, b.start) + (if b.used then end - b.start else 0) + UsedSum(c, top)
  {
    SumJoin(a + [b], c, top);
    SumJoin(a, [b], if c == [] then top else c[0].start);
    SumOne(b, if c == [] then top else c[0].start);
  }

  lemma SumSplit(bs: seq<Block>, k: int, top: int)
    requires 0 <= k < |bs|
    ensures UsedSum(bs, top) ==
            UsedSum(bs[..k], bs[k].start) + (if bs[k].used then End(bs, k, top) - bs[k].start else 0) + UsedSum(bs[k + 1..], top)
  {
    SumAround(bs[..k], bs[k], bs[k + 1..], top);
    assert bs == bs[..k] + [bs[k]] + bs[k + 1..];
  }

  lemma AllocSum(bs: seq<Block>, k: int, size: int, top: int)
    requires 0 <= k < |bs| && !bs[k].used
    ensures UsedSum(AllocAt(bs, k, size, top), top) == UsedSum(bs, top) +
            if Payload(bs, k, top) >= size + HDR + MIN then size + HDR else End(bs, k, top) - bs[k].start
  {
    SumSplit(bs, k, top);
    var b := Block(bs[k].start, true);
    if Payload(bs, k, top) >= size + HDR + MIN {
      var rest := [Block(b.start + HDR + size, false)] + bs[k + 1..];
      assert AllocAt(bs, k, size, top) == bs[..k] + [b] + rest;
      SumAround(bs[..k], b, rest, top);
      assert rest[1..] == bs[k + 1..];
    } else {
      assert AllocAt(bs, k, size, top) == bs[..k] + [b] + bs[k + 1..];
      SumAround(bs[..k], b, bs[k + 1..], top);
    }
  }

  /** Swallowing a free block by a free one does not change what is used. */
  lemma MergeSum(bs: seq<Block>, i: int, top: int)
    requires 0 < i < |bs| && !bs[i - 1].used && !bs[i].used
    ensures UsedSum(Merge(bs, i), top) == UsedSum(bs, top)
  {
    SumSplit(bs, i - 1, top);
    SumSplit(bs[i..], 0, top);
    assert bs[i - 1 + 1..] == bs[i..] && bs[i..][1..] == bs[i + 1..] && bs[i..][..0] == [];
    var r := Merge(bs, i);
    SumSplit(r, i - 1, top);
    assert r[..i - 1] == bs[..i - 1] && r[i..] == bs[i + 1..];
  }

  lemma FreeSum(bs: seq<Block>, k: int, top: int)
    requires 0 <= k < |bs| && bs[k].used
    ensures UsedSum(FreeAt(bs, k), top) == UsedSum(bs, top) - (End(bs, k, top) - bs[k].start)
  {
    var b := bs[k := bs[k].(used := false)];
    SumSplit(bs, k, top);
    SumSplit(b, k, top);
    assert b[..k] == bs[..k] && b[k + 1..] == bs[k + 1..];
    if k + 1 < |b| && !b[k + 1].used { MergeSum(b, k + 1, top); }
    var f := PlugForward(b, k);
    assert !f[k].used;
    if k > 0 && !f[k - 1].used { MergeSum(f, k, top); }
  }

  lemma TrimSum(bs: seq<Block>, k: int, size: int, top: int)
    requires 0 <= k < |bs| && bs[k].used
    ensures UsedSum(TrimAt(bs, k, size, top), top) ==
            UsedSum(bs, top) - if TrimAt(bs, k, size, top) == bs then 0 else Payload(bs, k, top) - size
  {
    var r := TrimAt(bs, k, size, top);
    if r != bs {
      SumSplit(bs, k, top);
      SumSplit(r, k, top);
      assert r[..k] == bs[..k] && r[k] == bs[k];
      var t := r[k + 1..];
      SumSplit(t, 0, top);
      assert t[..0] == [];
      if k + 1 < |bs| && !bs[k + 1].used {
        SumSplit(bs[k + 1..], 0, top);
        assert bs[k + 1..][..0] == [] && bs[k + 1..][1..] == bs[k + 2..] && t[1..] == bs[k + 2..];
      } else {
        assert t[1..] == bs[k + 1..];
      }
    }
  }

  // ----- Any sequence of calls

  /** A call on the heap: a request, or an operation on the used block with index `k`. */
  datatype Call = Malloc(n: int) | Free(k: int) | Trim(k: int, n: int)

  /** Requests are 16-bit numbers, and pointers are live. */
  predicate Legal(bs: seq<Block>, c: Call) {
    match c
    case Malloc(n) => 0 <= n < 0x1_0000
    case Free(k) => 0 <= k < |bs| && bs[k].used
    case Trim(k, n) => 0 <= k < |bs| && bs[k].used && 0 <= n < 0x1_0000
  }

  function Apply(bs: seq<Block>, c: Call, top: int): seq<Block>
    requires Legal(bs, c)
  {
    match c
    case Malloc(n) =>
      var size := RequestSize(n);
      var k := FirstFit(bs, size, top);
      if n == 0 || size > top || k == |bs| then bs else AllocAt(bs, k, size, top)
    case Free(k) => FreeAt(bs, k)
    case Trim(k, n) => if RequestSize(n) > top then bs else TrimAt(bs, k, RequestSize(n), top)
  }

  /** The call is legal and takes the one layout to the other. */
  ghost predicate Performs(bs: seq<Block>, c: Call, top: int, after: seq<Block>) {
    Legal(bs, c) && after == Apply(bs, c, top)
  }

  ghost predicate LegalRun(bs: seq<Block>, cs: seq<Call>, top: int)
    decreases |cs|
  {
    cs != [] ==> Legal(bs, cs[0]) && LegalRun(Apply(bs, cs[0], top), cs[1..], top)
  }

  ghost function RunCalls(bs: seq<Block>, cs: seq<Call>, top: int): seq<Block>
    requires LegalRun(bs, cs, top)
    decreases |cs|
  {
    if cs == [] then bs else RunCalls(Apply(bs, cs[0], top), cs[1..], top)
  }

  lemma ApplyKeeps(bs: seq<Block>, c: Call, top: int)
    requires Layout(bs, top) && Legal(bs, c)
    ensures Layout(Apply(bs, c, top), top)
  {
    hide Tiled, Coalesced, AllocAt, FreeAt, TrimAt;
    match c
    case Malloc(n) =>
      var k := FirstFit(bs, RequestSize(n), top);
      if k < |bs| { AllocKeeps(bs, k, RequestSize(n), top); }
    case Free(k) => FreeKeeps(bs, k, top);
    case Trim(k, n) => TrimKeeps(bs, k, RequestSize(n), top);
  }

  /** After any sequence of calls on live pointers the blocks tile the heap and no two free blocks touch. */
  lemma {:induction false} RunKeepsLayout(bs: seq<Block>, cs: seq<Call>, top: int)
    requires Layout(bs, top) && LegalRun(bs, cs, top)
    ensures Layout(RunCalls(bs, cs, top), top)
    decreases |cs|
  {
    if cs != [] {
      ApplyKeeps(bs, cs[0], top);
      RunKeepsLayout(Apply(bs, cs[0], top), cs[1..], top);
    }
  }

  /** A block that is handed out holds what was asked for exactly when the alignment of the request does not wrap. */
  lemma HandedOutIsEnough(bs: seq<Block>, n: int, top: int)
    requires Layout(bs, top) && top <= 64000 && 0 < n < 0x1_0000
    ensures var size := RequestSize(n);
            var k := FirstFit(bs, size, top);
            k < |bs| ==> (n <= Payload(AllocAt(bs, k, size, top), k, top) <==> n <= 0xfffc)
  {
    var size := RequestSize(n);
    var k := FirstFit(bs, size, top);
    if k < |bs| {
      var a := AllocAt(bs, k, size, top);
      assert a[k].start == bs[k].start;
      assert Payload(a, k, top) == if Payload(bs, k, top) >= size + HDR + MIN then size else Payload(bs, k, top);
    }
  }

  /** On a fresh heap a request of more than 0xfffc octets is met with a block of 12. */
  lemma LargeRequestWraps(n: int, top: int)
    requires 0xfffc < n < 0x1_0000 && top >= 2 * (HDR + MIN)
    ensures var (bs, size) := ([Block(0, false)], RequestSize(n));
            && FirstFit(bs, size, top) == 0
            && AllocAt(bs, 0, size, top) == [Block(0, true), Block(HDR + MIN, false)]
            && Payload(AllocAt(bs, 0, size, top), 0, top) == MIN
  {
    assert RequestSize(n) == MIN;
  }

  /** A size larger than the block is recognized as such exactly when its alignment does not wrap. */
  lemma LargerIsSeenExactly(bs: seq<Block>, k: int, n: int, top: int)
    requires Tiled(bs, top) && 0 <= k < |bs| && Payload(bs, k, top) < n < 0x1_0000
    ensures RequestSize(n) > Payload(bs, k, top) <==> n <= 0xfffc
    ensures n > 0xfffc ==> RequestSize(n) == MIN
  {
    assert k + 1 < |bs| ==> bs[k].start + HDR + MIN <= bs[k + 1].start;
  }

  /** A block of 100 octets that mem_malloc has just handed out is cut to 12 by a request to trim it to more than 0xfffc. */
  lemma LargeTrimCuts(n: int, top: int)
    requires 0xfffc < n < 0x1_0000 && top >= 200
    ensures var bs := AllocAt([Block(0, false)], 0, RequestSize(100), top);
            Payload(bs, 0, top) == 100 && Payload(TrimAt(bs, 0, RequestSize(n), top), 0, top) == MIN
  {
    assert RequestSize(n) == MIN && RequestSize(100) == 100;
    var bs := AllocAt([Block(0, false)], 0, 100, top);
    assert bs == [Block(0, true), Block(108, false)];
    assert TrimAt(bs, 0, MIN, top) == [Block(0, true), Block(HDR + MIN, false)];
  }
}
