/**
 The heap allocator as it runs: headers are octets inside one array, linked by 16-bit offsets
 (mem.c without LWIP_ALLOW_MEM_FREE_FROM_OTHER_CONTEXT, MEM_SIZE at most 64000 and an alignment of 4).
 Pointers are offsets into the array; NULL is -1.
 */
module Heap {
  import opened Bytes
  import opened HeapLayout
  import opened HeapStore

  const NULL := -1

  class Mem {
    const ram: array<byte>
    const top: int
    var lfree: int
    var used: int
    var illegal: int
    /** The blocks that the headers describe. */
    ghost var bs: seq<Block>

    /** The headers tile the heap, no two free blocks touch, and the hint and the statistic are exact. */
    ghost predicate Valid()
      reads this, ram
    {
      && Describes(ram[..], bs, top) && Coalesced(bs)
      && lfree == LowestFree(bs, top)
      && used == UsedSum(bs, top)
    }

    /** `rmem` was returned by Malloc for what is now block `k`, and has not been freed. */
    ghost predicate Live(rmem: int, k: int)
      reads this
    {
      0 <= k < |bs| && bs[k].used && rmem == bs[k].start + HDR
    }

    /** mem_init */
    constructor (memSize: int)
      requires HDR + MIN <= memSize <= 64000 && memSize % ALIGN == 0
      ensures Valid() && top == memSize && bs == [Block(0, false)] && fresh(ram)
    {
      top := memSize;
      ram := new byte[memSize + 2 * HDR](i => 0);
      lfree, used, illegal := 0, 0, 0;
      bs := [Block(0, false)];
      new;
      ghost var s := ram[..];
      PutHeader(0, Header(top, 0, 0));
      PutHeader(top, Header(top, top, 1));
      PutThere(Put(s, 0, Header(top, 0, 0)), top, Header(top, top, 1), 0);
      PutHere(s, 0, Header(top, 0, 0));
      PutHere(Put(s, 0, Header(top, 0, 0)), top, Header(top, top, 1));
      SumOne(bs[0], top);
    }

    method GetHeader(p: int) returns (h: Header)
      requires Fits(ram[..], p)
      ensures h == Hdr(ram[..], p)
    {
      h := Header((ram[p] as int) + 256 * (ram[p + 1] as int), (ram[p + 2] as int) + 256 * (ram[p + 3] as int), ram[p + 4]);
    }

    method PutHeader(p: int, h: Header)
      requires Fits(ram[..], p)
      modifies ram
      ensures ram[..] == Put(old(ram[..]), p, h)
    {
      ram[p], ram[p + 1] := h.next % 256, h.next / 256;
      ram[p + 2], ram[p + 3] := h.prev % 256, h.prev / 256;
      ram[p + 4] := h.used;
    }

    method SetNext(p: int, n: Word)
      requires Fits(ram[..], p)
      modifies ram
      ensures ram[..] == Put(old(ram[..]), p, Hdr(old(ram[..]), p).(next := n))
    {
      ram[p], ram[p + 1] := n % 256, n / 256;
    }

    method SetPrev(p: int, n: Word)
      requires Fits(ram[..], p)
      modifies ram
      ensures ram[..] == Put(old(ram[..]), p, Hdr(old(ram[..]), p).(prev := n))
    {
      ram[p + 2], ram[p + 3] := n % 256, n / 256;
    }

    method SetUsed(p: int, u: bool)
      requires Fits(ram[..], p)
      modifies ram
      ensures ram[..] == Put(old(ram[..]), p, Hdr(old(ram[..]), p).(used := Flag(u)))
    {
      ram[p + 4] := Flag(u);
    }
  
    /** A free header for the remainder of a block, in the field order of the source. */
    method PutFree(p: int, next: Word, prev: Word)
      requires Fits(ram[..], p)
      modifies ram
      ensures ram[..] == Put(old(ram[..]), p, Header(next, prev, 0))
    {
      hide Put, Hdr;
      ghost var s := ram[..];
      ghost var h := Hdr(s, p);
      SetUsed(p, false);
      PutHere(s, p, h.(used := 0));
      SetNext(p, next);
      PutTwice(s, p, h.(used := 0), h.(used := 0, next := next));
      PutHere(s, p, h.(used := 0, next := next));
      SetPrev(p, prev);
      PutTwice(s, p, h.(used := 0, next := next), Header(next, prev, 0));
    }

    /** Cut a block at `ptr2`: the remainder becomes a free block between it and its successor. */
    method CutBlock(ptr: int, ptr2: int, ghost b: seq<Block>, ghost k: int)
      requires Describes(ram[..], b, top) && Cuttable(b, k, ptr2, top) && ptr == b[k].start
      modifies ram
      ensures Describes(ram[..], Cut(b, k, ptr2, b[k].used), top)
      ensures OnlyIn(old(ram[..]), ram[..], ptr, ptr2, End(b, k, top))
    {
      hide Put, Hdr, Describes, Tiled, Cut;
      ghost var s := ram[..];
      Placed(s, b, k, ptr2, top);
      HdrIs(s, b, top, k);
      CutDescribes(s, b, k, ptr2, b[k].used, top);
      var h := GetHeader(ptr);
      PutFree(ptr2, h.next, ptr);
      ghost var s1 := ram[..];
      PutThere(s, ptr2, Header(h.next, ptr, 0), ptr);
      SetNext(ptr, ptr2);
      ghost var s2 := ram[..];
      assert s2 == Put(s1, ptr, Header(ptr2, h.prev, Flag(b[k].used)));
      if h.next != top {
        PutThere(s, ptr2, Header(h.next, ptr, 0), h.next);
        PutThere(s1, ptr, Header(ptr2, h.prev, Flag(b[k].used)), h.next);
        SetPrev(h.next, ptr2);
      }
    }
  
    /** Block `k` at `ptr` becomes used, and is split if the remainder can stand on its own. */
    method TakeBlock(ptr: int, size: int, ghost k: int)
      requires Valid() && 0 <= k < |bs| && ptr == bs[k].start && !bs[k].used
      requires MIN <= size <= Payload(bs, k, top) && size % ALIGN == 0
      modifies ram, this`used, this`bs
      ensures bs == AllocAt(old(bs), k, size, top) && Describes(ram[..], bs, top) && Coalesced(bs)
      ensures used == UsedSum(bs, top)
      ensures OnlyIn(old(ram[..]), ram[..], ptr, ptr + HDR + size, End(old(bs), k, top))
    {
      hide Put, Hdr, Describes, Tiled, Cut, AllocAt, UsedSum, Coalesced, OnlyIn;
      ghost var s := ram[..];
      ghost var b := bs;
      AllocFacts(s, b, k, size, top);
      var h := GetHeader(ptr);
      bs := AllocAt(b, k, size, top);
      if h.next - (ptr + HDR) >= size + HDR + MIN {
        var ptr2 := ptr + HDR + size;
        CutBlock(ptr, ptr2, b, k);
        FlagDescribes(ram[..], Cut(b, k, ptr2, false), k, true, top);
        ghost var s1 := ram[..];
        SetUsed(ptr, true);
        OnlyAfter(s, s1, ptr, ptr2, h.next, Hdr(s1, ptr).(used := 1));
        used := used + (size + HDR);
      } else {
        SetUsed(ptr, true);
        OnlyAfter(s, s, ptr, ptr + HDR + size, h.next, h.(used := 1));
        used := used + (h.next - ptr);
      }
    }
  
    /** Find the next free block from `ptr`, which is block `k`, or the end marker. */
    method AdvanceLowest(ptr: int, ghost k: int)
      requires Describes(ram[..], bs, top) && 0 <= k < |bs| && ptr == bs[k].start && k <= FirstFree(bs)
      modifies this`lfree
      ensures lfree == LowestFree(bs, top)
    {
      hide Hdr, Describes, FirstFree, LowestFree, Tiled;
      var cur := ptr;
      ghost var i := k;
      HdrIs(ram[..], bs, top, k);
      var h := GetHeader(cur);
      while h.used != 0 && cur != top
        invariant 0 <= i <= |bs| && i <= FirstFree(bs) && Fits(ram[..], cur) && h == Hdr(ram[..], cur)
        invariant cur == if i < |bs| then bs[i].start else top
        decreases |bs| - i
      {
        HdrIs(ram[..], bs, top, i);
        cur := h.next;
        i := i + 1;
        if i < |bs| { HdrIs(ram[..], bs, top, i); }
        h := GetHeader(cur);
      }
      if i < |bs| { HdrIs(ram[..], bs, top, i); }
      LowestIsFirst(bs, top);
      lfree := cur;
    }

    /**
     mem_malloc: first fit. NULL is returned exactly when the request is empty or too large for the heap, or no
     free block can hold it; otherwise the lowest block that can is used, and no live payload is written.
     */
    method Malloc(size0: Word) returns (r: int)
      requires Valid()
      modifies this, ram
      ensures Valid()
      ensures var size := RequestSize(size0);
              var k := FirstFit(old(bs), size, top);
              if size0 == 0 || size > top || k == |old(bs)| then
                r == NULL && bs == old(bs) && ram[..] == old(ram[..])
              else
                && r == old(bs)[k].start + HDR && bs == AllocAt(old(bs), k, size, top)
                && OthersKept(old(ram[..]), ram[..], old(bs), k, top)
      ensures Performs(old(bs), Call.Malloc(size0), top, bs)
    {
      r := NULL;
      if size0 == 0 { return; }
      var size := RequestSize(size0);
      if size > top { return; }
      hide Put, Hdr, Describes, AllocAt, UsedSum, Coalesced, LowestFree, OthersKept;
      var ptr, found;
      ghost var k;
      ptr, found, k := FindFit(size);
      if found {
        r := AllocateAt(ptr, size, k);
      }
    }

    lemma HeaderIs(k: int)
      requires Valid() && 0 <= k < |bs|
      ensures Fits(ram[..], bs[k].start) && bs[k].start < top
      ensures var h := Hdr(ram[..], bs[k].start);
              && (h.used == 0 <==> !bs[k].used) && h.next - bs[k].start - HDR == Payload(bs, k, top)
              && h.next == if k + 1 < |bs| then bs[k + 1].start else top
    {
      HdrIs(ram[..], bs, top, k);
      hide Hdr, Describes;
    }

    /** The search loop of mem_malloc, from the lowest free block up. */
    method FindFit(size: int) returns (ptr: int, found: bool, ghost k: int)
      requires Valid() && MIN <= size <= top
      ensures FirstFit(bs, size, top) == if found then k else |bs|
      ensures found ==> 0 <= k < |bs| && ptr == bs[k].start
    {
      ptr, found := lfree, false;
      k := FirstFree(bs);
      LowestIsFirst(bs, top);
      assert Tiled(bs, top);
      assert NoFitBelow(bs, k, size, top);
      hide *;
      while ptr < top - size
        invariant 0 <= k <= |bs| && ptr == if k < |bs| then bs[k].start else top
        invariant NoFitBelow(bs, k, size, top)
        decreases |bs| - k
      {
        HeaderIs(k);
        NoFitNext(bs, k, size, top);
        var h := GetHeader(ptr);
        if h.used == 0 && h.next - (ptr + HDR) >= size {
          FirstFitIs(bs, k, size, top);
          found := true;
          return;
        }
        ptr := h.next;
        k := k + 1;
      }
      NoneFits(bs, k, size, top);
    }

    /** Allocate from block `k` at `ptr`, and move the hint on if it pointed there. */
    method AllocateAt(ptr: int, size: int, ghost k: int) returns (r: int)
      requires Valid() && 0 <= k < |bs| && ptr == bs[k].start && !bs[k].used
      requires MIN <= size <= Payload(bs, k, top) && size % ALIGN == 0
      modifies this, ram
      ensures Valid() && r == ptr + HDR && bs == AllocAt(old(bs), k, size, top)
      ensures OthersKept(old(ram[..]), ram[..], old(bs), k, top)
    {
      ghost var b := bs;
      TakeBlock(ptr, size, k);
      AllocPlaces(old(ram[..]), ram[..], b, k, size, top);
      if ptr == lfree {
        FirstFreeAfter(b, k, size, top);
        AdvanceLowest(ptr, k);
      } else {
        AllocLowest(b, k, size, top);
      }
      r := ptr + HDR;
    }
  
    /** Take the header at `q`, block `i`, out from between `p` and its successor. */
    method MergeBlock(p: int, q: int, ghost b: seq<Block>, ghost i: int)
      requires Describes(ram[..], b, top) && 0 < i < |b| && p == b[i - 1].start && q == b[i].start
      modifies ram
      ensures Describes(ram[..], Merge(b, i), top)
      ensures OnlyIn(old(ram[..]), ram[..], p, p, End(b, i, top))
    {
      hide Put, Hdr, Describes, Tiled, Merge;
      ghost var s := ram[..];
      HdrIs(s, b, top, i - 1);
      HdrIs(s, b, top, i);
      MergeDescribes(s, b, i, top);
      var h := GetHeader(q);
      SetNext(p, h.next);
      SetPrev(h.next, p);
    }

    /**
     plug_holes: join the free block `k` at `ptr` with its free neighbours. The hint is already at or below the
     block, so neither of the two corrections of the hint ever takes effect.
     */
    method PlugHoles(ptr: int, ghost b: seq<Block>, ghost k: int)
      requires Describes(ram[..], b, top) && 0 <= k < |b| && ptr == b[k].start && !b[k].used
      requires lfree <= ptr && (k > 0 && !b[k - 1].used ==> lfree < ptr)
      modifies ram, this`lfree
      ensures Describes(ram[..], PlugBackward(PlugForward(b, k), k), top) && lfree == old(lfree)
      ensures OthersKept(old(ram[..]), ram[..], b, k, top)
    {
      hide Put, Hdr, Describes, OnlyIn, OthersKept, Tiled;
      ghost var s := ram[..];
      PlugFacts(s, b, k, top);
      var h := GetHeader(ptr);
      var nmem := h.next;
      var n := GetHeader(nmem);
      KeptSame(s, b, k, top);
      if ptr != nmem && n.used == 0 && nmem != top {
        lfree := if lfree == nmem then ptr else lfree;
        MergeBlock(ptr, nmem, b, k + 1);
        ForwardKept(s, ram[..], b, k, top);
      }
      ghost var f := PlugForward(b, k);
      ghost var s1 := ram[..];
      ForwardFacts(s1, b, k, top);
      h := GetHeader(ptr);
      var pmem := h.prev;
      var p := GetHeader(pmem);
      if pmem != ptr && p.used == 0 {
        lfree := if lfree == ptr then pmem else lfree;
        MergeBlock(pmem, ptr, f, k);
        BackwardKept(s1, ram[..], b, k, top);
        KeptTrans(s, s1, ram[..], b, k, top);
      }
    }
  
    /** mem_free: NULL and foreign pointers are ignored; otherwise the block becomes free and is joined with its neighbours. */
    method Free(rmem: int, ghost k: int)
      requires Valid()
      requires 0 <= rmem < top ==> Live(rmem, k)
      modifies this, ram
      ensures Valid()
      ensures rmem == NULL ==> illegal == old(illegal)
      ensures rmem != NULL && !(0 <= rmem < top) ==> illegal == old(illegal) + 1
      ensures !(0 <= rmem < top) ==> bs == old(bs) && ram[..] == old(ram[..])
      ensures 0 <= rmem < top ==>
                && bs == FreeAt(old(bs), k) && Performs(old(bs), Call.Free(k), top, bs) && illegal == old(illegal)
                && OthersKept(old(ram[..]), ram[..], old(bs), k, top)
    {
      if rmem == NULL { return; }
      if rmem < 0 || rmem >= top {
        illegal := illegal + 1;
        return;
      }
      FreeBlock(rmem - HDR, k);
    }

    /** The used block `k` at `mem` becomes free and is joined with its neighbours. */
    method FreeBlock(mem: int, ghost k: int)
      requires Valid() && 0 <= k < |bs| && bs[k].used && mem == bs[k].start
      modifies ram, this`bs, this`lfree, this`used
      ensures Valid() && bs == FreeAt(old(bs), k)
      ensures OthersKept(old(ram[..]), ram[..], old(bs), k, top)
    {
      hide Put, Hdr, Describes, Tiled, Coalesced, UsedSum, LowestFree, FreeAt, OthersKept, PlugForward, PlugBackward, OnlyIn;
      ghost var s := ram[..];
      ghost var b := bs;
      FreeFacts(s, b, k, top);
      var h := GetHeader(mem);
      SetUsed(mem, false);
      ghost var s1 := ram[..];
      if mem < lfree { lfree := mem; }
      used := used - (h.next - mem);
      PlugHoles(mem, b[k := b[k].(used := false)], k);
      bs := FreeAt(b, k);
      KeptAcross(s, s1, ram[..], b, k, top);
    }
  
    /** Move the free header behind block `k` down to `ptr2`. */
    method MoveBlock(ptr: int, ptr2: int, ghost b: seq<Block>, ghost k: int)
      requires Describes(ram[..], b, top) && Movable(b, k, ptr2, top) && ptr == b[k].start
      modifies ram
      ensures Describes(ram[..], Move(b, k, ptr2), top)
      ensures OnlyIn(old(ram[..]), ram[..], ptr, ptr2, End(b, k + 1, top))
    {
      hide Put, Hdr, Describes, Tiled, Move;
      ghost var s := ram[..];
      MovePlaced(s, b, k, ptr2, top);
      MoveDescribes(s, b, k, ptr2, top);
      var h := GetHeader(ptr);
      var h2 := GetHeader(h.next);
      var next := h2.next;
      PutFree(ptr2, next, ptr);
      ghost var s1 := ram[..];
      PutThere(s, ptr2, Header(next, ptr, 0), ptr);
      SetNext(ptr, ptr2);
      if next != top {
        PutThere(s, ptr2, Header(next, ptr, 0), next);
        PutThere(s1, ptr, h.(next := ptr2), next);
        SetPrev(next, ptr2);
      }
    }

    /**
     mem_trim: shrink in place. A size larger than the block yields NULL exactly when its alignment does not wrap;
     otherwise the block shrinks to what is left of the size.
     */
    method Trim(rmem: int, newsize0: Word, ghost k: int) returns (r: int)
      requires Valid()
      requires 0 <= rmem < top ==> Live(rmem, k)
      modifies this, ram
      ensures Valid()
      ensures 0 <= rmem < top ==> Performs(old(bs), Call.Trim(k, newsize0), top, bs)
      ensures var size := RequestSize(newsize0);
              if size > top then r == NULL && bs == old(bs) && ram[..] == old(ram[..]) && illegal == old(illegal)
              else if !(0 <= rmem < top) then r == rmem && bs == old(bs) && ram[..] == old(ram[..]) && illegal == old(illegal) + 1
              else
                && r == (if size > Payload(old(bs), k, top) then NULL else rmem)
                && bs == TrimAt(old(bs), k, size, top) && illegal == old(illegal)
                && OthersKept(old(ram[..]), ram[..], old(bs), k, top)
                && Kept(old(ram[..]), ram[..], old(bs), k,
                        if size < Payload(old(bs), k, top) then rmem + size else End(old(bs), k, top))
      ensures 0 <= rmem < top && newsize0 > Payload(old(bs), k, top) ==> (r == NULL <==> newsize0 <= 0xfffc)
    {
      hide Put, Hdr, Describes, Tiled, Coalesced, UsedSum, LowestFree, TrimAt, OthersKept, Kept, RequestSize;
      var newsize := RequestSize(newsize0);
      if 0 <= rmem < top && newsize0 > Payload(bs, k, top) { LargerIsSeen(ram[..], bs, k, newsize0, top); }
      if newsize > top { return NULL; }
      if rmem < 0 || rmem >= top {
        illegal := illegal + 1;
        return rmem;
      }
      var ptr := rmem - HDR;
      HdrIs(ram[..], bs, top, k);
      var h := GetHeader(ptr);
      var size := h.next - ptr - HDR;
      if newsize >= size { TrimSame(ram[..], bs, k, newsize, top); }
      if newsize > size { return NULL; }
      if newsize == size { return rmem; }
      TrimBlock(ptr, newsize, k);
      r := rmem;
    }

    /** Shrink the used block `k` at `ptr` to `newsize`, which is less than it has. */
    method TrimBlock(ptr: int, newsize: int, ghost k: int)
      requires Valid() && 0 <= k < |bs| && bs[k].used && ptr == bs[k].start
      requires MIN <= newsize < Payload(bs, k, top) && newsize % ALIGN == 0
      modifies ram, this`bs, this`lfree, this`used
      ensures Valid() && bs == TrimAt(old(bs), k, newsize, top)
      ensures OthersKept(old(ram[..]), ram[..], old(bs), k, top)
      ensures Kept(old(ram[..]), ram[..], old(bs), k, ptr + HDR + newsize)
    {
      hide Put, Hdr, Describes, Tiled, Coalesced, UsedSum, LowestFree, TrimAt, OthersKept, Kept, OnlyIn, Move, Cut;
      ghost var s := ram[..];
      ghost var b := bs;
      TrimFacts(s, b, k, newsize, top);
      var ptr2 := ptr + HDR + newsize;
      var h := GetHeader(ptr);
      var size := h.next - ptr - HDR;
      var h2 := GetHeader(h.next);
      KeptAtAll(s, b, k, top, ptr2);
      if h2.used == 0 {
        if lfree == h.next { lfree := ptr2; }
        MoveBlock(ptr, ptr2, b, k);
        used := used - (size - newsize);
        TrimKept(s, ram[..], b, k, top, ptr2, End(b, k + 1, top));
      } else if newsize + HDR + MIN <= size {
        if ptr2 < lfree { lfree := ptr2; }
        CutBlock(ptr, ptr2, b, k);
        used := used - (size - newsize);
        TrimKept(s, ram[..], b, k, top, ptr2, End(b, k, top));
      }
      bs := TrimAt(b, k, newsize, top);
    }
  }

  lemma LargerIsSeen(s: Store, bs: seq<Block>, k: int, n: Word, top: int)
    requires Describes(s, bs, top) && 0 <= k < |bs| && Payload(bs, k, top) < n
    ensures RequestSize(n) > Payload(bs, k, top) <==> n <= 0xfffc
    ensures n > 0xfffc ==> RequestSize(n) <= top
  {
    LargerIsSeenExactly(bs, k, n, top);
  }

  lemma MovePlaced(s: Store, b: seq<Block>, k: int, at: int, top: int)
    requires Describes(s, b, top) && Movable(b, k, at, top)
    ensures Sized(s, top) && 0 <= b[k].start && b[k].start + LIVE <= at && at + LIVE <= End(b, k + 1, top) <= top
    ensures Hdr(s, b[k].start).next == b[k + 1].start < top && 0 <= b[k + 1].start && Hdr(s, b[k + 1].start).next == End(b, k + 1, top)
  {
    hide Hdr;
    HdrIs(s, b, top, k);
    HdrIs(s, b, top, k + 1);
  }

  lemma KeptAtAll(s: Store, b: seq<Block>, k: int, top: int, end: int)
    requires 0 <= k < |b|
    ensures OthersKept(s, s, b, k, top) && Kept(s, s, b, k, end)
  {
  }

  lemma TrimKept(s: Store, t: Store, b: seq<Block>, k: int, top: int, at: int, end: int)
    requires Tiled(b, top) && 0 <= k < |b| && b[k].start + HDR + MIN <= at < End(b, k, top) && OnlyIn(s, t, b[k].start, at, end)
    requires end == End(b, k, top) || (k + 1 < |b| && end == End(b, k + 1, top))
    ensures OthersKept(s, t, b, k, top) && Kept(s, t, b, k, at)
  {
    assert k + 1 < |b| && k + 2 < |b| ==> b[k + 2].start == End(b, k + 1, top);
    HeadersMissPayloads(s, t, b, k, top, b[k].start, at, end);
  }

  lemma TrimFacts(s: Store, b: seq<Block>, k: int, size: int, top: int)
    requires Describes(s, b, top) && Coalesced(b) && 0 <= k < |b| && b[k].used
    requires MIN <= size < Payload(b, k, top) && size % ALIGN == 0
    ensures Tiled(b, top) && Fits(s, b[k].start) && Hdr(s, b[k].start).next == End(b, k, top) && Fits(s, End(b, k, top))
    ensures Hdr(s, End(b, k, top)).used == Flag(k + 1 == |b| || b[k + 1].used)
    ensures var r := TrimAt(b, k, size, top);
            var at := b[k].start + HDR + size;
            && Coalesced(r)
            && UsedSum(r, top) == UsedSum(b, top) - (if r == b then 0 else Payload(b, k, top) - size)
            && LowestFree(r, top) == (if r != b && b[k].start < LowestFree(b, top) then at else LowestFree(b, top))
            && (if k + 1 < |b| && !b[k + 1].used then
                  Movable(b, k, at, top) && r == Move(b, k, at) && r != b
                  && (LowestFree(b, top) == b[k + 1].start <==> b[k].start < LowestFree(b, top))
                else if size + HDR + MIN <= Payload(b, k, top) then
                  Cuttable(b, k, at, top) && r == Cut(b, k, at, true) && r != b
                  && (at < LowestFree(b, top) <==> b[k].start < LowestFree(b, top))
                else r == b)
  {
    hide Hdr;
    TrimKeeps(b, k, size, top);
    TrimSum(b, k, size, top);
    TrimLowest(b, k, size, top);
    TrimShape(b, k, size, top);
    HdrIs(s, b, top, k);
    if k + 1 < |b| { HdrIs(s, b, top, k + 1); }
    LowestIsFirst(b, top);
  }

  lemma TrimShape(b: seq<Block>, k: int, size: int, top: int)
    requires Tiled(b, top) && 0 <= k < |b| && b[k].used
    requires MIN <= size < Payload(b, k, top) && size % ALIGN == 0
    ensures var r := TrimAt(b, k, size, top);
            var at := b[k].start + HDR + size;
            if k + 1 < |b| && !b[k + 1].used then Movable(b, k, at, top) && r == Move(b, k, at) && r != b
            else if size + HDR + MIN <= Payload(b, k, top) then Cuttable(b, k, at, top) && r == Cut(b, k, at, true) && r != b
            else r == b
  {
    var r := TrimAt(b, k, size, top);
    var at := b[k].start + HDR + size;
    if k + 1 < |b| && !b[k + 1].used {
      assert r[k + 1].start == at != b[k + 1].start;
    } else if size + HDR + MIN <= Payload(b, k, top) {
      assert r == Cut(b, k, at, true);
    }
  }

  lemma FreeFacts(s: Store, b: seq<Block>, k: int, top: int)
    requires Describes(s, b, top) && Coalesced(b) && 0 <= k < |b| && b[k].used
    ensures Tiled(b, top) && Fits(s, b[k].start) && Hdr(s, b[k].start).next == End(b, k, top)
    ensures var b1 := b[k := b[k].(used := false)];
            var h := Hdr(s, b[k].start).(used := Flag(false));
            && FreeAt(b, k) == PlugBackward(PlugForward(b1, k), k)
            && Describes(Put(s, b[k].start, h), b1, top)
            && OnlyIn(s, Put(s, b[k].start, h), b[k].start, b[k].start, b[k].start)
    ensures Coalesced(FreeAt(b, k))
    ensures UsedSum(FreeAt(b, k), top) == UsedSum(b, top) - (End(b, k, top) - b[k].start)
    ensures var l := LowestFree(b, top);
            && LowestFree(FreeAt(b, k), top) == (if b[k].start < l then b[k].start else l)
            && (k > 0 && !b[k - 1].used ==> l < b[k].start)
  {
    FreeKeeps(b, k, top);
    FreeSum(b, k, top);
    FreeLowest(b, k, top);
    HdrIs(s, b, top, k);
    OnlyAfter(s, s, b[k].start, b[k].start, b[k].start, Hdr(s, b[k].start).(used := Flag(false)));
    hide Put, Hdr, Describes, UsedSum, LowestFree, PlugForward, PlugBackward;
    FlagDescribes(s, b, k, false, top);
  }

  lemma KeptAcross(s: Store, t: Store, u: Store, b: seq<Block>, k: int, top: int)
    requires Tiled(b, top) && 0 <= k < |b|
    requires OnlyIn(s, t, b[k].start, b[k].start, b[k].start)
    requires OthersKept(t, u, b[k := b[k].(used := false)], k, top)
    ensures OthersKept(s, u, b, k, top)
  {
    HeadersMissPayloads(s, t, b, k, top, b[k].start, b[k].start, b[k].start);
    var b1 := b[k := b[k].(used := false)];
    forall i | 0 <= i < |b| && i != k && b[i].used ensures Kept(s, u, b, i, End(b, i, top)) {
      assert Kept(s, t, b, i, End(b, i, top)) && Kept(t, u, b1, i, End(b1, i, top));
    }
  }

  /** What plug_holes reads behind the block. */
  lemma PlugFacts(s: Store, b: seq<Block>, k: int, top: int)
    requires Describes(s, b, top) && 0 <= k < |b|
    ensures Tiled(b, top) && Fits(s, b[k].start)
    ensures var h := Hdr(s, b[k].start);
            && b[k].start < h.next == End(b, k, top) <= top && Fits(s, h.next)
            && (k + 1 < |b| ==> h.next == b[k + 1].start < top && Hdr(s, h.next).used == Flag(b[k + 1].used))
            && (k + 1 == |b| ==> h.next == top)
  {
    hide Hdr;
    HdrIs(s, b, top, k);
    if k + 1 < |b| { HdrIs(s, b, top, k + 1); }
  }

  /** What plug_holes reads before the block, after the forward half. */
  lemma ForwardFacts(s: Store, b: seq<Block>, k: int, top: int)
    requires 0 <= k < |b| && Describes(s, PlugForward(b, k), top)
    ensures var f := PlugForward(b, k);
            && k < |f| && f[k] == b[k] && (k > 0 ==> f[k - 1] == b[k - 1])
            && Fits(s, b[k].start) && Fits(s, Hdr(s, b[k].start).prev)
            && (if k == 0 then Hdr(s, b[k].start).prev == b[k].start
                else Hdr(s, b[k].start).prev == b[k - 1].start < b[k].start
                     && Hdr(s, b[k - 1].start).used == Flag(b[k - 1].used))
  {
    hide Hdr;
    var f := PlugForward(b, k);
    HdrIs(s, f, top, k);
    if k > 0 { HdrIs(s, f, top, k - 1); }
  }

  lemma KeptSame(s: Store, b: seq<Block>, k: int, top: int)
    ensures OthersKept(s, s, b, k, top)
  {
  }

  lemma KeptTrans(s: Store, t: Store, u: Store, b: seq<Block>, k: int, top: int)
    requires OthersKept(s, t, b, k, top) && OthersKept(t, u, b, k, top)
    ensures OthersKept(s, u, b, k, top)
  {
    forall i | 0 <= i < |b| && i != k && b[i].used ensures Kept(s, u, b, i, End(b, i, top)) {
      assert Kept(s, t, b, i, End(b, i, top)) && Kept(t, u, b, i, End(b, i, top));
    }
  }

  lemma ForwardKept(s: Store, t: Store, b: seq<Block>, k: int, top: int)
    requires Tiled(b, top) && 0 <= k && k + 1 < |b| && OnlyIn(s, t, b[k].start, b[k].start, End(b, k + 1, top))
    ensures OthersKept(s, t, b, k, top)
  {
    assert k + 2 < |b| ==> b[k + 2].start == End(b, k + 1, top);
    HeadersMissPayloads(s, t, b, k, top, b[k].start, b[k].start, End(b, k + 1, top));
  }

  lemma BackwardKept(s: Store, t: Store, b: seq<Block>, k: int, top: int)
    requires Tiled(b, top) && 0 < k < |b|
    requires OnlyIn(s, t, b[k - 1].start, b[k - 1].start, End(PlugForward(b, k), k, top))
    ensures OthersKept(s, t, b, k, top)
  {
    var f := PlugForward(b, k);
    assert k + 1 < |f| ==> f[k + 1] == b[k + 1 + |b| - |f|];
    HeadersMissPayloads(s, t, b, k, top, b[k - 1].start, b[k - 1].start, End(f, k, top));
  }

  /** Past the last offset where `size` could fit there is nothing to find. */
  lemma TrimSame(s: Store, b: seq<Block>, k: int, size: int, top: int)
    requires 0 <= k < |b| && size >= Payload(b, k, top)
    ensures TrimAt(b, k, size, top) == b && OthersKept(s, s, b, k, top) && Kept(s, s, b, k, End(b, k, top))
  {
  }

  /** No block below `k` is free and large enough. */
  ghost predicate NoFitBelow(b: seq<Block>, k: int, size: int, top: int) {
    0 <= k <= |b| && forall i :: 0 <= i < k ==> b[i].used || Payload(b, i, top) < size
  }

  lemma NoFitNext(b: seq<Block>, k: int, size: int, top: int)
    requires NoFitBelow(b, k, size, top) && k < |b|
    ensures b[k].used || Payload(b, k, top) < size ==> NoFitBelow(b, k + 1, size, top)
  {
    hide Payload;
  }

  lemma FirstFitIs(b: seq<Block>, k: int, size: int, top: int)
    requires NoFitBelow(b, k, size, top) && k < |b| && !b[k].used && Payload(b, k, top) >= size
    ensures FirstFit(b, size, top) == k
  {
    hide Payload;
  }

  lemma NoneFits(b: seq<Block>, k: int, size: int, top: int)
    requires Tiled(b, top) && 0 <= k <= |b| && (k < |b| ==> b[k].start >= top - size)
    requires NoFitBelow(b, k, size, top)
    ensures FirstFit(b, size, top) == |b|
  {
  }

  lemma AllocPlaces(s: Store, t: Store, b: seq<Block>, k: int, size: int, top: int)
    requires Tiled(b, top) && 0 <= k < |b| && MIN <= size <= Payload(b, k, top)
    requires OnlyIn(s, t, b[k].start, b[k].start + HDR + size, End(b, k, top))
    ensures OthersKept(s, t, b, k, top)
  {
    HeadersMissPayloads(s, t, b, k, top, b[k].start, b[k].start + HDR + size, End(b, k, top));
  }

  lemma FirstFreeAfter(b: seq<Block>, k: int, size: int, top: int)
    requires Tiled(b, top) && 0 <= k < |b| && !b[k].used && LowestFree(b, top) == b[k].start
    ensures var a := AllocAt(b, k, size, top); k < |a| && a[k].start == b[k].start && k <= FirstFree(a)
  {
    LowestIsFirst(b, top);
    var a := AllocAt(b, k, size, top);
    assert forall i :: 0 <= i < k ==> a[i] == b[i];
  }

  /** A further write into the first header stays inside the three. */
  lemma OnlyAfter(s: Store, t: Store, p: int, q: int, r: int, h: Header)
    requires Fits(s, p) && (t == s || OnlyIn(s, t, p, q, r))
    ensures Fits(t, p) && OnlyIn(s, Put(t, p, h), p, q, r)
  {
  }

  lemma AllocFacts(s: Store, b: seq<Block>, k: int, size: int, top: int)
    requires Describes(s, b, top) && Coalesced(b) && 0 <= k < |b| && !b[k].used
    requires MIN <= size <= Payload(b, k, top) && size % ALIGN == 0
    ensures Fits(s, b[k].start) && Hdr(s, b[k].start).next == End(b, k, top)
    ensures Coalesced(AllocAt(b, k, size, top))
    ensures UsedSum(AllocAt(b, k, size, top), top) == UsedSum(b, top) +
            if Payload(b, k, top) >= size + HDR + MIN then size + HDR else End(b, k, top) - b[k].start
    ensures if Payload(b, k, top) >= size + HDR + MIN then
              var c := Cut(b, k, b[k].start + HDR + size, false);
              && Cuttable(b, k, b[k].start + HDR + size, top)
              && |c| > k && c[k] == b[k] && AllocAt(b, k, size, top) == c[k := b[k].(used := true)]
            else Describes(Put(s, b[k].start, Hdr(s, b[k].start).(used := Flag(true))), AllocAt(b, k, size, top), top)
  {
    AllocKeeps(b, k, size, top);
    AllocSum(b, k, size, top);
    HdrIs(s, b, top, k);
    AllocIsCut(b, k, size, top);
    hide Put, Hdr, Describes, Cut, AllocAt, UsedSum;
    FlagDescribes(s, b, k, true, top);
  }

  lemma AllocIsCut(b: seq<Block>, k: int, size: int, top: int)
    requires Tiled(b, top) && 0 <= k < |b| && !b[k].used && MIN <= size && size % ALIGN == 0
    ensures var at := b[k].start + HDR + size;
            if Payload(b, k, top) >= size + HDR + MIN then
              && Cuttable(b, k, at, top)
              && |Cut(b, k, at, false)| > k && Cut(b, k, at, false)[k] == b[k]
              && AllocAt(b, k, size, top) == Cut(b, k, at, false)[k := b[k].(used := true)]
            else AllocAt(b, k, size, top) == b[k := b[k].(used := true)]
  {
  }

  lemma Placed(s: Store, b: seq<Block>, k: int, at: int, top: int)
    requires Describes(s, b, top) && Cuttable(b, k, at, top)
    ensures Sized(s, top) && 0 <= b[k].start && b[k].start + LIVE <= at && at + LIVE <= End(b, k, top) <= top
  {
  }
}
