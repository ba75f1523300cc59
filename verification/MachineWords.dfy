/** Unsigned machine words: expressions are truncated to their width. */
module MachineWords {
  const TWO16 := 0x1_0000
  const TWO31 := 0x8000_0000
  const TWO32 := 0x1_0000_0000

  /** Truncation to 32 bits, as every u32_t expression is truncated. */
  function U32(x: int): (r: int)
    ensures 0 <= r < TWO32
  {
    x % TWO32
  }

  /** Truncation to 16 bits. */
  function U16(x: int): (r: int)
    ensures 0 <= r < TWO16
  {
    x % TWO16
  }
}
