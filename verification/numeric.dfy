/** Fixed-width integers of the source, as subsets of Dafny's unbounded `int`. */
module Numeric {

  const TWO_TO_THE_64: int := 0x1_0000_0000_0000_0000
  const I64_MIN: int := -0x8000_0000_0000_0000
  const I64_MAX: int := 0x7FFF_FFFF_FFFF_FFFF

  /** Rust's `u64`: the scores in `user_times` and the diff. */
  type U64 = x: int | 0 <= x < TWO_TO_THE_64

  /** Rust's `i64`: millisecond timestamps and the parsed rate-limit date. */
  type I64 = x: int | I64_MIN <= x <= I64_MAX

  /** Two's-complement wrap-around of an `i64` addition, as a release build computes it. */
  function WrapI64(x: int): (r: I64)
    ensures I64_MIN <= x <= I64_MAX ==> r == x
    ensures (r - x) % TWO_TO_THE_64 == 0
  {
    (x - I64_MIN) % TWO_TO_THE_64 + I64_MIN
  }
}
