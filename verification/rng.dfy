/** The ranged draws of `nanorand::tls_rng()`, each made from one raw draw passed in by the caller. */
module Rng {

  /** `generate_range(lo..=hi)`. How nanorand maps raw bits into the range is not modelled. */
  function GenerateRange(raw: nat, lo: int, hi: int): (r: int)
    requires lo <= hi
    ensures lo <= r <= hi
  {
    lo + raw % (hi - lo + 1)
  }

  /** `generate_range(lo..hi)`, the half-open form. */
  function GenerateRangeBelow(raw: nat, lo: int, hi: int): (r: int)
    requires lo < hi
    ensures lo <= r < hi
  {
    GenerateRange(raw, lo, hi - 1)
  }

  /** Every value of the range is the outcome of some raw draw. */
  lemma GenerateRangeReaches(lo: int, hi: int, v: int)
    requires lo <= v <= hi
    ensures GenerateRange(v - lo, lo, hi) == v
  {
    assert (v - lo) % (hi - lo + 1) == v - lo;
  }
}
