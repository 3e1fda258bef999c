/** Facts about products of reals. */
module RealArith {

  function Abs(x: real): real
  {
    if x < 0.0 then -x else x
  }

  lemma ProductPositive(a: real, b: real, s: real)
    requires s == a * b && a > 0.0 && b > 0.0
    ensures s > 0.0
  {
  }

  lemma MulLe(c: real, x: real, y: real)
    requires c >= 0.0 && x <= y
    ensures c * x <= c * y
  {
  }

  lemma ProductNonNegative(a: real, b: real, s: real)
    requires s == a * b && ((a >= 0.0 && b >= 0.0) || (a <= 0.0 && b <= 0.0))
    ensures s >= 0.0
  {
  }

  lemma SquareMono(x: real, y: real)
    requires 0.0 <= x <= y
    ensures x * x <= y * y
  {
    assert x * x <= x * y by { MulLe(x, x, y); }
    assert x * y <= y * y by { MulLe(y, x, y); }
  }

  lemma SquareSign(x: real, s: real)
    requires s == x * x
    ensures s >= 0.0 && (s > 0.0 || x == 0.0)
  {
    if x > 0.0 {
      ProductPositive(x, x, s);
    } else if x < 0.0 {
      ProductPositive(-x, -x, s);
    }
  }

  lemma Cancel(x: real, y: real, m: real)
    requires m > 0.0 && x * m == y * m
    ensures x == y
  {
  }

  lemma AbsProduct(a: real, b: real, p: real, q: real)
    requires p == a * b && q == Abs(a) * Abs(b)
    ensures q == Abs(p)
  {
    if a >= 0.0 && b >= 0.0 {
      ProductNonNegative(a, b, p);
    } else if a < 0.0 && b < 0.0 {
      ProductNonNegative(a, b, p);
    } else if a < 0.0 {
      ProductNonNegative(-a, b, -p);
    } else {
      ProductNonNegative(a, -b, -p);
    }
  }
}
