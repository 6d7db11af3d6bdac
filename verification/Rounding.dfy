/** Rounding of reals to whole numbers of steps. */
module Rounding {

  /** The nearest integer, halves up. */
  function Round(x: real): int {
    (x + 0.5).Floor
  }

  lemma RoundNear(q: real)
    ensures -0.5 <= Round(q) as real - q <= 0.5
  {
  }

  lemma Between(q: real, n: real, a: real)
    requires a > 0.0 && -0.5 <= n - q <= 0.5
    ensures -a / 2.0 <= n * a - q * a <= a / 2.0
  {
    var d := n - q;
    Product(0.5 - d, a);
    Product(d + 0.5, a);
    assert d * a == n * a - q * a;
  }

  lemma Product(x: real, y: real)
    requires x >= 0.0 && y >= 0.0
    ensures x * y >= 0.0
  {
  }

  lemma ProductPositive(x: real, y: real)
    requires x > 0.0 && y > 0.0
    ensures x * y > 0.0
  {
  }

  lemma QuotientOfQuotient(x: real, a: real, b: real)
    requires a > 0.0 && b > 0.0
    ensures a * b > 0.0 && x / a / b == x / (a * b)
  {
    var q := x / a / b;
    assert q * b == x / a;
    assert q * b * a == x;
    assert q * (a * b) == x;
  }
}
