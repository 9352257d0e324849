/** Order facts about products and quotients of real numbers. */
module RealArithmetic {

  function Min(x: real, y: real): real {
    if x <= y then x else y
  }

  function Max(x: real, y: real): real {
    if x >= y then x else y
  }

  function Total(xs: seq<real>): real {
    if xs == [] then 0.0 else Total(xs[..|xs| - 1]) + xs[|xs| - 1]
  }

  lemma MulLe(x: real, y: real, n: real)
    requires x <= y && n >= 0.0
    ensures x * n <= y * n
  {
    assert (y - x) * n >= 0.0;
  }

  lemma MulLt(x: real, y: real, n: real)
    requires n > 0.0
    ensures x < y ==> x * n < y * n
  {
    if x < y {
      assert (y - x) * n > 0.0;
    }
  }

  lemma DivLe(x: real, y: real, n: real)
    requires x <= y && n > 0.0
    ensures x / n <= y / n
  {
    assert x / n * n == x && y / n * n == y;
    MulLt(y / n, x / n, n);
  }

  /** A larger positive divisor gives a smaller quotient. */
  lemma DivAntitone(x: real, m: real, n: real)
    requires x >= 0.0 && 0.0 < m <= n
    ensures x / n <= x / m
  {
    var q := x / n;
    assert q * n == x && x / m * m == x;
    MulLt(q, 0.0, n);
    MulLe(m, n, q);
    assert m * q == q * m && n * q == q * n;
    MulLt(x / m, q, m);
  }

  lemma ProductNonNegative(x: real, y: real)
    requires 0.0 <= x && 0.0 <= y
    ensures 0.0 <= x * y
  {
  }

  lemma ProductSign(x: real, y: real)
    requires y > 0.0
    ensures x * y > 0.0 <==> x > 0.0
  {
  }

  lemma ProductInUnit(x: real, y: real)
    requires 0.0 <= x <= 1.0 && 0.0 <= y <= 1.0
    ensures 0.0 <= x * y <= 1.0
  {
    ProductNonNegative(x, y);
    ProductNonNegative(1.0 - x, y);
    assert (1.0 - x) * y == y - x * y;
  }

  lemma ProductMonotone(x: real, x': real, y: real, y': real)
    requires 0.0 <= x <= x' && 0.0 <= y <= y'
    ensures x * y <= x' * y'
  {
    MulLe(x, x', y);
    MulLe(y, y', x');
    assert y * x' == x' * y && y' * x' == x' * y';
  }
}
