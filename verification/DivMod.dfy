/** Quotients and remainders by a variable divisor. */
module DivMod {

  lemma MultiplesAreFar(d: int, n: nat)
    ensures d >= 1 ==> d * n >= n
    ensures d <= -1 ==> d * n + n <= 0
  {
    if d >= 1 {
      assert (d - 1) * n >= 0;
    } else if d <= -1 {
      assert (-1 - d) * n >= 0;
    }
  }

  lemma ProductIsMonotone(a: int, b: int, n: nat)
    requires a <= b
    ensures a * n <= b * n
  {
    assert (b - a) * n >= 0;
    assert (b - a) * n == b * n - a * n;
  }

  lemma QuotientIs(a: int, quotient: int, r: int, n: nat)
    requires 0 <= r < n && a == quotient * n + r
    ensures a % n == r && a / n == quotient
  {
    var d := a / n - quotient;
    assert d * n == a / n * n - quotient * n;
    assert a % n - r == -(d * n);
    MultiplesAreFar(d, n);
  }
}
