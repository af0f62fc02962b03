/** Small facts about Euclidean division that the index arithmetic of the
    carriers needs (row-major positions, channel interleaving). */
module Arith {

  function Min(a: int, b: int): (r: int)
    ensures r <= a && r <= b
    ensures r == a || r == b
  {
    if a <= b then a else b
  }

  /** Division by a positive divisor recovers quotient and remainder. */
  lemma DivModOfSum(q: int, d: int, rem: int)
    requires d > 0
    requires 0 <= rem < d
    ensures (q * d + rem) / d == q
    ensures (q * d + rem) % d == rem
  {
    var n := q * d + rem;
    var q' := n / d;
    var r' := n % d;
    assert n == q' * d + r';
    assert (q - q') * d == r' - rem;
    if q > q' {
      assert (q - q') * d >= d by { MulMonotone(1, q - q', d); }
    } else if q < q' {
      assert (q' - q) * d >= d by { MulMonotone(1, q' - q, d); }
    }
  }

  lemma MulMonotone(a: int, b: int, d: int)
    requires a <= b
    requires d >= 0
    ensures a * d <= b * d
  {
  }

  /** A quotient by a positive divisor stays below the bound of a product. */
  lemma QuotientBound(n: int, d: int, rows: int)
    requires d > 0
    requires 0 <= n < rows * d
    ensures 0 <= n / d < rows
  {
    assert n / d * d <= n;
    if n / d >= rows {
      MulMonotone(rows, n / d, d);
    }
  }

  /** Division by a positive divisor is monotone. */
  lemma DivMonotone(a: int, b: int, d: int)
    requires d > 0
    requires 0 <= a <= b
    ensures a / d <= b / d
  {
    assert a / d * d <= a;
    if a / d > b / d {
      MulMonotone(b / d + 1, a / d, d);
    }
  }

  /** Quotient and remainder by a positive divisor determine the number. */
  lemma DivModInjective(a: int, b: int, d: int)
    requires d > 0
    requires a / d == b / d && a % d == b % d
    ensures a == b
  {
    assert a == a / d * d + a % d;
    assert b == b / d * d + b % d;
  }
}
