/** Non-linear integer facts that the solver should not have to rediscover. */
module Arith {

  lemma MulMono(a: int, b: int, c: int)
    requires a <= b && 0 <= c
    ensures a * c <= b * c
  {
  }

  lemma MulAssoc(a: int, b: int, c: int)
    ensures (a * b) * c == a * (b * c)
  {
  }

  lemma DivModUnique(v: int, m: int, q: int, r: int)
    requires 0 <= r < m && v == q * m + r
    ensures v / m == q && v % m == r
  {
    assert v == (v / m) * m + v % m;
    if v / m > q {
      MulMono(q + 1, v / m, m);
    } else if v / m < q {
      MulMono(v / m + 1, q, m);
    }
  }

  lemma MulDist(q: int, m: int, p: int)
    ensures (q + m) * p == q * p + m * p
    ensures (q - m) * p == q * p - m * p
  {
  }

  lemma ModAddMultiple(d: int, m: int, p: int)
    requires p > 0
    ensures (d + m * p) % p == d % p
  {
    MulDist(d / p, m, p);
    DivModUnique(d + m * p, p, d / p + m, d % p);
  }

  lemma MulStep(q: int, p: int)
    ensures (q + 1) * p == q * p + p && (q - 1) * p == q * p - p
  {
  }

  lemma SmallMod(v: int, m: int)
    requires 0 <= v < m
    ensures v % m == v
  {
  }
}
