/** Small functions that several components use. */
module Basics {
  function Min(a: int, b: int): int { if a < b then a else b }

  /** The bit of x with the given weight is set. */
  predicate Bit(x: int, weight: nat)
    requires 0 < weight
  {
    x / weight % 2 == 1
  }
}
