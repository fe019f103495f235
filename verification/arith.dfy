/** Small arithmetic shared by the scoring and the overlap merger. */
module Arith {

  /** Python's `min` and Rust's `usize::min` on two lengths. */
  function Min(a: nat, b: nat): (m: nat)
    ensures m <= a && m <= b
    ensures m == a || m == b
  {
    if a <= b then a else b
  }
}
