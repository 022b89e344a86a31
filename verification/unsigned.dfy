/** Wrap-around of the unsigned index arithmetic used by the erase-and-rewind
    loops (`unsigned int` indices, `size_t` sizes). */
module Unsigned {

  const U32: int := 0x1_0000_0000
  const U64: int := 0x1_0000_0000_0000_0000

  /** Reduction into `unsigned int`. */
  function Wrap32(n: int): (r: int)
    ensures 0 <= r < U32
  {
    n % U32
  }

  /** Reduction into `size_t` (64-bit platform). */
  function Wrap64(n: int): (r: int)
    ensures 0 <= r < U64
  {
    n % U64
  }

  /** `idx--` followed by the loop's `++idx` leaves an in-range unsigned
      index where it was, also at 0 where the decrement wraps to 2^32 - 1. */
  lemma RewindThenAdvance(idx: int)
    requires 0 <= idx < U32
    ensures Wrap32(Wrap32(idx - 1) + 1) == idx
  {
    if idx == 0 {
      assert Wrap32(-1) == U32 - 1;
    } else {
      assert Wrap32(idx - 1) == idx - 1;
    }
  }
}
