/** The 64-bit rounding helpers of src/lib.c, wrap-around included. */
module Align {

  const TWO64: nat := 0x1_0000_0000_0000_0000
  const PAGE_SIZE: nat := 4096

  type U64 = n: nat | n < TWO64

  /** Unsigned 64-bit addition. */
  function Add64(a: U64, b: U64): U64 {
    (a + b) % TWO64
  }

  /** `align_up_u64(v, 4096)`: the addition wraps before the mask is applied. */
  function AlignUp(v: U64): U64 {
    Add64(v, PAGE_SIZE - 1) / PAGE_SIZE * PAGE_SIZE
  }

  /** `align_down_u64(v, 4096)`. */
  function AlignDown(v: U64): U64 {
    v / PAGE_SIZE * PAGE_SIZE
  }

  /** Rounding up gives the least page boundary at or above `v` exactly when that boundary
      still fits in 64 bits; otherwise the result wraps to zero. */
  lemma AlignUpIsLeast(v: U64)
    ensures AlignUp(v) % PAGE_SIZE == 0
    ensures v <= TWO64 - PAGE_SIZE <==> v <= AlignUp(v)
    ensures v <= TWO64 - PAGE_SIZE ==> AlignUp(v) < v + PAGE_SIZE
    ensures v > TWO64 - PAGE_SIZE ==> AlignUp(v) == 0
  {
  }
}
