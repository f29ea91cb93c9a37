/** Arithmetic on reals that the proofs on delays and percentiles share. */
module Reals {

  function Ceiling(x: real): int {
    -((-x).Floor)
  }

  /** Products are named by the caller, so that it need not reason about them. */
  lemma Weighted(a: real, b: real, w: real, aw: real, bw: real)
    requires a <= b && 0.0 <= w && aw == a * w && bw == b * w
    ensures aw <= bw
  {
  }

  /** A product below t is a factor below the quotient. */
  lemma QuotientAbove(k: real, d: real, t: real, q: real)
    requires d > 0.0 && k * d < t && q * d == t
    ensures k < q
  {
    if q <= k { Weighted(q, k, d, q * d, k * d); }
  }
}
