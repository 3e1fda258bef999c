/** Points of any dimension, their norms, and the inequalities the flattener rests on.
    Math.hpp computes norms with `sqrt`, which is a parameter here. */
module Euclid {
  import opened RealArith
  import opened RealSum

  type Point = seq<real>

  /** The roots of <cmath>, taken as exact. */
  datatype Roots = Roots(sqrt: real -> real, cbrt: real -> real)
  {
    ghost predicate Exact() {
      && (forall x: real :: x >= 0.0 ==> sqrt(x) >= 0.0 && sqrt(x) * sqrt(x) == x)
      && (forall x: real :: x >= 0.0 ==> cbrt(x) >= 0.0 && cbrt(x) * cbrt(x) * cbrt(x) == x)
    }
  }

  function At(v: Point): int -> real
  {
    i => if 0 <= i < |v| then v[i] else 0.0
  }

  function Times(f: int -> real, g: int -> real): int -> real
  {
    i => f(i) * g(i)
  }

  function Inner(v: Point, w: Point): real
  {
    Sum(|v|, Times(At(v), At(w)))
  }

  function SquaredNorm(v: Point): real
  {
    Inner(v, v)
  }

  function Norm(m: Roots, v: Point): real
  {
    m.sqrt(SquaredNorm(v))
  }

  lemma SquaredNormNonNegative(v: Point)
    ensures SquaredNorm(v) >= 0.0
  {
    forall i | 0 <= i < |v|
      ensures Times(At(v), At(v))(i) >= 0.0
    {
      SquareSign(At(v)(i), Times(At(v), At(v))(i));
    }
    SumNonNegative(|v|, Times(At(v), At(v)));
  }

  /** alpha * v + beta * w */
  function Combine(alpha: real, v: Point, beta: real, w: Point): (r: Point)
    requires |v| == |w|
    ensures |r| == |v|
  {
    seq(|v|, i requires 0 <= i < |v| => alpha * v[i] + beta * w[i])
  }

  function Scaled(c: real, f: int -> real): int -> real
  {
    i => c * f(i)
  }

  function Added(f: int -> real, g: int -> real): int -> real
  {
    i => f(i) + g(i)
  }

  lemma TermSquare(alpha: real, a: real, beta: real, b: real, e: real)
    requires e == alpha * a + beta * b
    ensures e * e == alpha * alpha * (a * a) + 2.0 * alpha * beta * (a * b) + beta * beta * (b * b)
  {
  }

  lemma SquaredNormCombine(alpha: real, v: Point, beta: real, w: Point)
    requires |v| == |w|
    ensures SquaredNorm(Combine(alpha, v, beta, w))
         == alpha * alpha * SquaredNorm(v) + 2.0 * alpha * beta * Inner(v, w) + beta * beta * SquaredNorm(w)
  {
    hide Sum, Combine, Times, At;
    var n, e := |v|, Combine(alpha, v, beta, w);
    var vv, vw, ww := Times(At(v), At(v)), Times(At(v), At(w)), Times(At(w), At(w));
    var f, g, h := Scaled(alpha * alpha, vv), Scaled(2.0 * alpha * beta, vw), Scaled(beta * beta, ww);
    SumScale(n, alpha * alpha, vv, f);
    SumScale(n, 2.0 * alpha * beta, vw, g);
    SumScale(n, beta * beta, ww, h);
    SumAdd(n, f, g, Added(f, g));
    forall i | 0 <= i < n
      ensures Times(At(e), At(e))(i) == Added(f, g)(i) + h(i)
    {
      CombineTerm(alpha, v, beta, w, i);
    }
    SumAdd(n, Added(f, g), h, Times(At(e), At(e)));
  }

  lemma TimesAt(v: Point, w: Point, i: nat)
    requires i < |v| && i < |w|
    ensures Times(At(v), At(w))(i) == v[i] * w[i]
  {
  }

  lemma CombineTerm(alpha: real, v: Point, beta: real, w: Point, i: nat)
    requires i < |v| == |w|
    ensures var e := Combine(alpha, v, beta, w);
            Times(At(e), At(e))(i)
            == Added(Scaled(alpha * alpha, Times(At(v), At(v))), Scaled(2.0 * alpha * beta, Times(At(v), At(w))))(i)
               + Scaled(beta * beta, Times(At(w), At(w)))(i)
  {
    var e := Combine(alpha, v, beta, w);
    TimesAt(e, e, i);
    TimesAt(v, v, i);
    TimesAt(v, w, i);
    TimesAt(w, w, i);
    hide Times, At;
    TermSquare(alpha, v[i], beta, w[i], e[i]);
  }

  lemma SumVanishes(n: nat, f: int -> real)
    requires (forall i :: 0 <= i < n ==> f(i) >= 0.0) && Sum(n, f) == 0.0
    ensures forall i :: 0 <= i < n ==> f(i) == 0.0
  {
    SumNonNegative(n, f);
  }

  lemma SquareZero(a: real, s: real)
    requires s == a * a && s == 0.0
    ensures a == 0.0
  {
    if a > 0.0 {
      ProductPositive(a, a, s);
    } else if a < 0.0 {
      ProductPositive(-a, -a, s);
    }
  }

  lemma NormZero(v: Point)
    requires SquaredNorm(v) == 0.0
    ensures forall i :: 0 <= i < |v| ==> v[i] == 0.0
  {
    var f := Times(At(v), At(v));
    forall i | 0 <= i < |v|
      ensures f(i) >= 0.0
    {
      SquareSign(v[i], f(i));
    }
    SumVanishes(|v|, f);
    forall i | 0 <= i < |v|
      ensures v[i] == 0.0
    {
      SquareZero(v[i], f(i));
    }
  }

  lemma InnerZero(v: Point, w: Point)
    requires |v| == |w| && (SquaredNorm(v) == 0.0 || SquaredNorm(w) == 0.0)
    ensures Inner(v, w) == 0.0
  {
    if SquaredNorm(v) == 0.0 {
      NormZero(v);
    } else {
      NormZero(w);
    }
    SumZero(|v|, Times(At(v), At(w)));
  }

  lemma CauchyArithmetic(p: real, i: real, q: real)
    requires p > 0.0 && q == p * (p + i) && q >= 0.0
    ensures i >= -p
  {
    if p + i < 0.0 {
      ProductPositive(p, -(p + i), -q);
    }
  }

  lemma CauchyTerm(nv: real, nw: real, v: real, w: real, i: real)
    requires v == nv * nv && w == nw * nw
    ensures nw * nw * v + 2.0 * nw * nv * i + nv * nv * w == 2.0 * (nv * nw * (nv * nw + i))
    ensures nw * nw * v + 2.0 * nw * -nv * i + -nv * -nv * w == 2.0 * (nv * nw * (nv * nw + -i))
  {
  }

  /** Cauchy and Schwarz. */
  lemma CauchySchwarz(v: Point, w: Point, nv: real, nw: real)
    requires |v| == |w| && nv >= 0.0 && nw >= 0.0
    requires nv * nv == SquaredNorm(v) && nw * nw == SquaredNorm(w)
    ensures -(nv * nw) <= Inner(v, w) <= nv * nw
  {
    hide SquaredNorm, Inner, Combine;
    if nv == 0.0 || nw == 0.0 {
      InnerZero(v, w);
    } else {
      var i, p := Inner(v, w), nv * nw;
      ProductPositive(nv, nw, p);
      SquaredNormCombine(nw, v, nv, w);
      SquaredNormCombine(nw, v, -nv, w);
      SquaredNormNonNegative(Combine(nw, v, nv, w));
      SquaredNormNonNegative(Combine(nw, v, -nv, w));
      CauchyTerm(nv, nw, SquaredNorm(v), SquaredNorm(w), i);
      CauchyArithmetic(p, i, p * (p + i));
      CauchyArithmetic(p, -i, p * (p + -i));
    }
  }

  /** Two error vectors of bounded length add up to one of bounded length. */
  lemma ErrorBudget(alpha: real, v: Point, beta: real, w: Point, nv: real, nw: real, r: real, s: real)
    requires |v| == |w| && nv >= 0.0 && nw >= 0.0
    requires nv * nv == SquaredNorm(v) && nw * nw == SquaredNorm(w)
    requires Abs(alpha) * nv <= r && Abs(beta) * nw <= s
    ensures SquaredNorm(Combine(alpha, v, beta, w)) <= (r + s) * (r + s)
  {
    hide SquaredNorm, Inner, Combine;
    var a, b := Abs(alpha) * nv, Abs(beta) * nw;
    SquaredNormCombine(alpha, v, beta, w);
    CauchySchwarz(v, w, nv, nw);
    BudgetArithmetic(alpha, beta, nv, nw, SquaredNorm(v), SquaredNorm(w), Inner(v, w), a, b);
    ProductNonNegative(Abs(alpha), nv, a);
    ProductNonNegative(Abs(beta), nw, b);
    SquareMono(a + b, r + s);
  }

  lemma SquareAbs(alpha: real, nv: real, a: real)
    requires a == Abs(alpha) * nv
    ensures a * a == alpha * alpha * (nv * nv)
  {
    if alpha >= 0.0 {
      assert a == alpha * nv;
    } else {
      assert a == -alpha * nv;
    }
  }

  lemma SignedBound(p: real, i: real, c: real)
    requires -c <= i <= c
    ensures p * i <= Abs(p) * c
  {
    if p >= 0.0 {
      MulLe(p, i, c);
    } else {
      MulLe(-p, -i, c);
    }
  }

  lemma CrossTerm(alpha: real, beta: real, nv: real, nw: real, i: real, a: real, b: real)
    requires a == Abs(alpha) * nv && b == Abs(beta) * nw && -(nv * nw) <= i <= nv * nw
    ensures alpha * beta * i <= a * b
  {
    var p, q := alpha * beta, Abs(alpha) * Abs(beta);
    AbsProduct(alpha, beta, p, q);
    SignedBound(p, i, nv * nw);
    assert a * b == q * (nv * nw);
  }

  lemma BudgetArithmetic(alpha: real, beta: real, nv: real, nw: real, v: real, w: real, i: real, a: real, b: real)
    requires v == nv * nv && w == nw * nw && -(nv * nw) <= i <= nv * nw
    requires a == Abs(alpha) * nv && b == Abs(beta) * nw
    ensures alpha * alpha * v + 2.0 * alpha * beta * i + beta * beta * w <= (a + b) * (a + b)
  {
    SquareAbs(alpha, nv, a);
    SquareAbs(beta, nw, b);
    CrossTerm(alpha, beta, nv, nw, i, a, b);
    SumSquare(a, b, alpha * alpha * v, beta * beta * w, alpha * beta * i);
  }

  lemma SumSquare(a: real, b: real, x: real, y: real, z: real)
    requires x == a * a && y == b * b && z <= a * b
    ensures x + 2.0 * z + y <= (a + b) * (a + b)
  {
  }
}
