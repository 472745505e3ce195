/**
 Division facts the solver does not find on its own.
 */
module Arith {

  lemma MulMonotone(a: nat, b: nat, d: nat)
    requires a <= b
    ensures a * d <= b * d
  {
  }

  /** k * d + r is the only way to split a number into a multiple of d and a remainder below d. */
  lemma DivMod(n: int, k: int, d: int, r: int)
    requires 0 <= r < d && n == k * d + r
    ensures n / d == k && n % d == r
  {
    var (q, s) := (n / d, n % d);
    assert n == q * d + s;
    assert (q - k) * d == r - s;
    if q > k {
      MulMonotone(1, q - k, d);
    } else if q < k {
      MulMonotone(1, k - q, d);
    }
  }

  lemma DivMonotone(a: nat, b: nat, d: nat)
    requires a <= b && d > 0
    ensures a / d <= b / d
  {
    if a / d > b / d {
      MulMonotone(b / d + 1, a / d, d);
    }
  }
}
