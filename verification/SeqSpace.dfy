/** TCP sequence numbers: unsigned 32-bit words compared by the sign of their difference. */
module SeqSpace {
  import opened MachineWords

  /** (s32_t)((u32_t)a - (u32_t)b) */
  function SignedDiff(a: int, b: int): (r: int)
    ensures -TWO31 <= r < TWO31
  {
    var d := U32(a - b);
    if d < TWO31 then d else d - TWO32
  }

  predicate SeqLt(a: int, b: int) { SignedDiff(a, b) < 0 }
  predicate SeqLeq(a: int, b: int) { SignedDiff(a, b) <= 0 }
  predicate SeqGt(a: int, b: int) { SignedDiff(a, b) > 0 }
  predicate SeqGeq(a: int, b: int) { SignedDiff(a, b) >= 0 }
  predicate SeqBetween(a: int, b: int, c: int) { SeqGeq(a, b) && SeqLeq(a, c) }

  lemma U32Add(x: int, n: int)
    ensures U32(U32(x) + n) == U32(x + n)
  {
  }

  lemma U32Sub(x: int, y: int)
    ensures U32(U32(x) - U32(y)) == U32(x - y)
  {
  }

  /** Words that stand for positions less than half the space apart compare as the positions do. */
  lemma SeqDistance(x: int, y: int)
    requires -TWO31 <= x - y < TWO31
    ensures SignedDiff(U32(x), U32(y)) == x - y
  {
    U32Sub(x, y);
  }

  /** Numbers of positions less than half the space apart are ordered as the positions are. */
  lemma Order(base: int, x: int, y: int)
    requires -TWO31 < x - y < TWO31
    ensures SignedDiff(U32(base + x), U32(base + y)) == x - y
  {
    SeqDistance(base + x, base + y);
  }

  lemma Advance(base: int, x: int, n: int)
    ensures U32(U32(base + x) + n) == U32(base + (x + n))
  {
    U32Add(base + x, n);
  }
}
