/** CubicBezier.hpp and the quadratic flattener of Utils.hpp, in any dimension. */
module Flattening {
  import opened RealArith
  import opened Euclid
  import opened BezierAlgebra

  datatype Cubic = Cubic(p0: Point, p1: Point, p2: Point, p3: Point)
  {
    predicate Valid() {
      |p0| == |p1| == |p2| == |p3|
    }
  }

  datatype Quad = Quad(a: Point, b: Point, c: Point)
  {
    predicate Valid() {
      |a| == |b| == |c|
    }
  }

  /** CubicBezier::get */
  function Get(c: Cubic, t: real): (r: Point)
    requires c.Valid()
    ensures |r| == |c.p0|
  {
    seq(|c.p0|, i requires 0 <= i < |c.p0| => Bernstein3(c.p0[i], c.p1[i], c.p2[i], c.p3[i], t))
  }

  // ---------- coefficients ----------

  /** get_coefficients: the powers of t. */
  function GetCoefficients(c: Cubic): (r: Cubic)
    requires c.Valid()
    ensures r.Valid() && |r.p0| == |c.p0|
  {
    var n := |c.p0|;
    Cubic(c.p0,
          seq(n, i requires 0 <= i < n => 3.0 * c.p1[i] - 3.0 * c.p0[i]),
          seq(n, i requires 0 <= i < n => 3.0 * c.p2[i] - 6.0 * c.p1[i] + 3.0 * c.p0[i]),
          seq(n, i requires 0 <= i < n => Lead(c.p0[i], c.p1[i], c.p2[i], c.p3[i])))
  }

  /** get_control_points */
  function GetControlPoints(k: Cubic): (r: Cubic)
    requires k.Valid()
    ensures r.Valid() && |r.p0| == |k.p0|
  {
    var n := |k.p0|;
    var p1 := seq(n, i requires 0 <= i < n => k.p1[i] / 3.0 + k.p0[i]);
    var p2 := seq(n, i requires 0 <= i < n => k.p2[i] / 3.0 + 2.0 * p1[i] - k.p0[i]);
    Cubic(k.p0, p1, p2, seq(n, i requires 0 <= i < n => k.p3[i] + 3.0 * p2[i] - 3.0 * p1[i] + k.p0[i]))
  }

  /** The two conversions are mutually inverse. */
  lemma CoefficientsRoundTrip(c: Cubic)
    requires c.Valid()
    ensures GetControlPoints(GetCoefficients(c)) == c
    ensures GetCoefficients(GetControlPoints(c)) == c
  {
  }

  /** The coefficients are those of the curve as a polynomial. */
  lemma CoefficientsEvaluate(c: Cubic, t: real, i: nat)
    requires c.Valid() && i < |c.p0|
    ensures var k := GetCoefficients(c);
            Get(c, t)[i] == Poly3(k.p0[i], k.p1[i], k.p2[i], k.p3[i], t)
  {
    Bernstein3Poly(c.p0[i], c.p1[i], c.p2[i], c.p3[i], t);
  }

  /** One coordinate of get_grad. */
  function Slope(b: real, c: real, d: real, t: real): real
  {
    b + 2.0 * c * t + 3.0 * d * t * t
  }

  function Curvature(c: real, d: real, t: real, h: real): real
  {
    c + 3.0 * d * t + d * h
  }

  /** get_grad */
  function GetGrad(c: Cubic, t: real): (r: Point)
    requires c.Valid()
    ensures |r| == |c.p0|
  {
    var k := GetCoefficients(c);
    seq(|c.p0|, i requires 0 <= i < |c.p0| => Slope(k.p1[i], k.p2[i], k.p3[i], t))
  }

  /** The gradient is the derivative: over a step h the curve moves by h times the gradient,
      up to a remainder of second order. */
  lemma GradIsDerivative(c: Cubic, t: real, h: real, i: nat)
    requires c.Valid() && i < |c.p0|
    ensures var k := GetCoefficients(c);
            Get(c, t + h)[i] == Get(c, t)[i] + h * GetGrad(c, t)[i] + h * h * Curvature(k.p2[i], k.p3[i], t, h)
  {
    CoefficientsEvaluate(c, t, i);
    CoefficientsEvaluate(c, t + h, i);
    var k := GetCoefficients(c);
    hide Get, GetCoefficients, Poly3, Slope, Curvature;
    PolyStep(k.p0[i], k.p1[i], k.p2[i], k.p3[i], t, h, t + h, Get(c, t)[i], Get(c, t + h)[i], GetGrad(c, t)[i], Curvature(k.p2[i], k.p3[i], t, h));
  }

  lemma PolyStep(a: real, b: real, c: real, d: real, t: real, h: real, u: real, p: real, q: real, g: real, r: real)
    requires u == t + h && p == Poly3(a, b, c, d, t) && q == Poly3(a, b, c, d, u) && g == Slope(b, c, d, t) && r == Curvature(c, d, t, h)
    ensures q == p + h * g + h * h * r
  {
    assert u * u == t * t + 2.0 * t * h + h * h;
    assert u * u * u == t * t * t + 3.0 * t * t * h + 3.0 * t * h * h + h * h * h;
  }

  // ---------- subcurves ----------

  function BlossomPoint(c: Cubic, t1: real, t2: real, t3: real): (r: Point)
    requires c.Valid()
    ensures |r| == |c.p0|
  {
    seq(|c.p0|, i requires 0 <= i < |c.p0| => Blossom(t1, t2, t3, c.p0[i], c.p1[i], c.p2[i], c.p3[i]))
  }

  /** get_subcurve */
  function GetSubcurve(c: Cubic, t0: real, t1: real): (s: Cubic)
    requires c.Valid()
    ensures s.Valid() && |s.p0| == |c.p0|
  {
    Cubic(BlossomPoint(c, t0, t0, t0), BlossomPoint(c, t0, t0, t1), BlossomPoint(c, t0, t1, t1), BlossomPoint(c, t1, t1, t1))
  }

  /** The subcurve is the curve between the two parameters. */
  lemma SubcurveIsCurve(c: Cubic, t0: real, t1: real, u: real, t: real)
    requires c.Valid() && t == t0 + u * (t1 - t0)
    ensures Get(GetSubcurve(c, t0, t1), u) == Get(c, t)
  {
    hide Bernstein3, Blossom;
    var s := GetSubcurve(c, t0, t1);
    forall i | 0 <= i < |c.p0|
      ensures Get(s, u)[i] == Get(c, t)[i]
    {
      Subcurve(t0, t1, c.p0[i], c.p1[i], c.p2[i], c.p3[i], u, t, s.p0[i], s.p1[i], s.p2[i], s.p3[i]);
    }
  }

  function Cube(h: real): real
  {
    h * h * h
  }

  function Scale(k: real, v: Point): (r: Point)
    ensures |r| == |v|
  {
    seq(|v|, i requires 0 <= i < |v| => k * v[i])
  }

  lemma SubcurveLeadVector(c: Cubic, t0: real, t1: real)
    requires c.Valid()
    ensures GetCoefficients(GetSubcurve(c, t0, t1)).p3 == Scale(Cube(t1 - t0), GetCoefficients(c).p3)
  {
    hide Blossom, Lead;
    var s := GetSubcurve(c, t0, t1);
    forall i | 0 <= i < |c.p0|
      ensures GetCoefficients(s).p3[i] == Scale(Cube(t1 - t0), GetCoefficients(c).p3)[i]
    {
      SubcurveLead(t0, t1, c.p0[i], c.p1[i], c.p2[i], c.p3[i], s.p0[i], s.p1[i], s.p2[i], s.p3[i]);
    }
  }

  lemma SquaredNormScale(k: real, v: Point)
    ensures SquaredNorm(Scale(k, v)) == k * k * SquaredNorm(v)
  {
    hide SquaredNorm;
    SquaredNormCombine(k, v, 0.0, v);
    assert Scale(k, v) == Combine(k, v, 0.0, v);
  }

  // ---------- how far the curve is from a chord ----------

  function Lerp(x: Point, y: Point, u: real): (r: Point)
    requires |x| == |y|
    ensures |r| == |x|
  {
    seq(|x|, i requires 0 <= i < |x| => Lerp1(x[i], y[i], u))
  }

  function Minus(x: Point, y: Point): (r: Point)
    requires |x| == |y|
    ensures |r| == |x|
  {
    seq(|x|, i requires 0 <= i < |x| => x[i] - y[i])
  }

  /** At fraction u of [a, b], the curve less the chord from its value at a to that at b. */
  function Deviation(c: Cubic, a: real, b: real, u: real): (r: Point)
    requires c.Valid()
    ensures |r| == |c.p0|
  {
    Minus(Get(c, a + u * (b - a)), Lerp(Get(c, a), Get(c, b), u))
  }

  lemma DeviationAt(c: Cubic, a: real, b: real, u: real, t: real)
    requires c.Valid() && t == a + u * (b - a)
    ensures Deviation(c, a, b, u) == Minus(Get(c, t), Lerp(Get(c, a), Get(c, b), u))
  {
    hide Get;
  }

  /** The chord between the parameters a and b stays within eps of the curve. */
  ghost predicate ChordWithin(c: Cubic, a: real, b: real, eps: real)
    requires c.Valid()
  {
    forall u: real :: 0.0 <= u <= 1.0 ==> SquaredNorm(Deviation(c, a, b, u)) <= eps * eps
  }

  /** The second difference of a quadratic: `param_c` of approximate_linear_quad_bezier. */
  function Second(q: Quad): (r: Point)
    requires q.Valid()
    ensures |r| == |q.a|
  {
    seq(|q.a|, i requires 0 <= i < |q.a| => q.a[i] - 2.0 * q.b[i] + q.c[i])
  }

  function Mix(k: real, x: Point, l: real, y: Point): (r: Point)
    requires |x| == |y|
    ensures |r| == |x|
  {
    seq(|x|, i requires 0 <= i < |x| => k * x[i] + l * y[i])
  }

  /** The quadratic for the first half of a cubic. */
  function FirstQuad(s: Cubic): (q: Quad)
    requires s.Valid()
    ensures q.Valid() && |q.a| == |s.p0|
  {
    var b0, b1 := Mix(0.25, s.p0, 0.75, s.p1), Mix(0.25, s.p3, 0.75, s.p2);
    Quad(s.p0, b0, Mix(0.5, b0, 0.5, b1))
  }

  /** The quadratic for the second half of a cubic. */
  function SecondQuad(s: Cubic): (q: Quad)
    requires s.Valid()
    ensures q.Valid() && |q.a| == |s.p0|
  {
    var b0, b1 := Mix(0.25, s.p0, 0.75, s.p1), Mix(0.25, s.p3, 0.75, s.p2);
    Quad(Mix(0.5, b0, 0.5, b1), b1, s.p3)
  }

  /** A point of the first half of [t0, t1]. */
  function InFirst(t0: real, t1: real, p: real): real
  {
    t0 + p * (t1 - t0) * 0.5
  }

  function InSecond(t0: real, t1: real, p: real): real
  {
    t0 + (t1 - t0) * 0.5 + p * (t1 - t0) * 0.5
  }

  lemma FirstOnSubcurve(c: Cubic, t0: real, t1: real, p: real, t: real)
    requires c.Valid() && t == InFirst(t0, t1, p)
    ensures Get(c, t) == Get(GetSubcurve(c, t0, t1), p * 0.5)
  {
    hide Get, GetSubcurve;
    SubcurveIsCurve(c, t0, t1, p * 0.5, t);
  }

  lemma SecondOnSubcurve(c: Cubic, t0: real, t1: real, p: real, t: real)
    requires c.Valid() && t == InSecond(t0, t1, p)
    ensures Get(c, t) == Get(GetSubcurve(c, t0, t1), 0.5 + p * 0.5)
  {
    hide Get, GetSubcurve;
    SubcurveIsCurve(c, t0, t1, 0.5 + p * 0.5, t);
  }

  lemma FirstAffine(t0: real, t1: real, p: real, r: real, u: real, a: real, b: real, x: real, t: real)
    requires a == InFirst(t0, t1, p) && b == InFirst(t0, t1, r) && x == p + u * (r - p) && t == a + u * (b - a)
    ensures t == InFirst(t0, t1, x)
  {
    var h := t1 - t0;
    assert b - a == (r - p) * h * 0.5;
  }

  lemma SecondAffine(t0: real, t1: real, p: real, r: real, u: real, a: real, b: real, x: real, t: real)
    requires a == InSecond(t0, t1, p) && b == InSecond(t0, t1, r) && x == p + u * (r - p) && t == a + u * (b - a)
    ensures t == InSecond(t0, t1, x)
  {
    var h := t1 - t0;
    assert b - a == (r - p) * h * 0.5;
  }

  /** The deviation of a subcurve over a step inside its first half, as a combination
      of the second difference of the quadratic and the leading coefficient. */
  lemma FirstCombination(s: Cubic, p: real, r: real, g: real, u: real, x: real)
    requires s.Valid() && OnChord(p, r, g, u, x)
    ensures Minus(Get(s, x * 0.5), Lerp(Get(s, p * 0.5), Get(s, r * 0.5), u))
         == Combine(-Parabola(u, g), Second(FirstQuad(s)), Bump(x) - Lerp1(Bump(p), Bump(r), u), GetCoefficients(s).p3)
  {
    hide Bernstein3, Bump, Parabola, Lerp1, OnChord, Lead;
    var q := FirstQuad(s);
    var d := Minus(Get(s, x * 0.5), Lerp(Get(s, p * 0.5), Get(s, r * 0.5), u));
    var e := Combine(-Parabola(u, g), Second(q), Bump(x) - Lerp1(Bump(p), Bump(r), u), GetCoefficients(s).p3);
    forall i | 0 <= i < |d|
      ensures d[i] == e[i]
    {
      FirstHalfChord(s.p0[i], s.p1[i], s.p2[i], s.p3[i], q.b[i], q.c[i], 2.0 * q.b[i] - 2.0 * q.a[i], Second(q)[i],
                     p, r, g, u, x);
    }
  }

  lemma SecondCombination(s: Cubic, p: real, r: real, g: real, u: real, x: real, w0: real, w1: real, w2: real)
    requires s.Valid() && OnChord(p, r, g, u, x)
    requires w0 == -Bump(1.0 - x) && w1 == -Bump(1.0 - p) && w2 == -Bump(1.0 - r)
    ensures Minus(Get(s, 0.5 + x * 0.5), Lerp(Get(s, 0.5 + p * 0.5), Get(s, 0.5 + r * 0.5), u))
         == Combine(-Parabola(u, g), Second(SecondQuad(s)), w0 - Lerp1(w1, w2, u), GetCoefficients(s).p3)
  {
    hide Bernstein3, Bump, Parabola, Lerp1, OnChord, Lead;
    var q := SecondQuad(s);
    var d := Minus(Get(s, 0.5 + x * 0.5), Lerp(Get(s, 0.5 + p * 0.5), Get(s, 0.5 + r * 0.5), u));
    var e := Combine(-Parabola(u, g), Second(q), w0 - Lerp1(w1, w2, u), GetCoefficients(s).p3);
    forall i | 0 <= i < |d|
      ensures d[i] == e[i]
    {
      SecondHalfChord(s.p0[i], s.p1[i], s.p2[i], s.p3[i], q.b[i], q.a[i], 2.0 * q.b[i] - 2.0 * q.a[i], Second(q)[i],
                      p, r, g, u, x, w0, w1, w2);
    }
  }

  /** `n` is the norm of `v`. */
  ghost predicate IsNorm(n: real, v: Point)
  {
    n >= 0.0 && n * n == SquaredNorm(v)
  }

  lemma NormScale(k: real, v: Point, n: real, m: real)
    requires IsNorm(n, v) && k >= 0.0 && m == k * n
    ensures IsNorm(m, Scale(k, v))
  {
    hide SquaredNorm, Scale;
    SquaredNormScale(k, v);
    ProductNonNegative(k, n, m);
    SquareProduct(k, n, m, SquaredNorm(v));
  }

  lemma SquareProduct(k: real, n: real, m: real, s: real)
    requires m == k * n && n * n == s
    ensures m * m == k * k * s
  {
  }

  lemma CubeNonNegative(h: real)
    requires h >= 0.0
    ensures Cube(h) >= 0.0
  {
    ProductNonNegative(h, h, h * h);
    ProductNonNegative(h * h, h, h * h * h);
  }

  /** Half of the budget goes to the quadratic, half to the chord. */
  lemma PieceBudget(v: Point, w: Point, nv: real, nw: real, s: real, beta: real, g: real, eps: real, d: Point)
    requires |v| == |w| && IsNorm(nv, v) && IsNorm(nw, w) && eps > 0.0
    requires 0.0 <= s <= g * g / 4.0 && g * g * nv <= 2.0 * eps
    requires -1.0 / 54.0 <= beta <= 1.0 / 54.0 && nw <= 27.0 * eps
    requires d == Combine(-s, v, beta, w)
    ensures SquaredNorm(d) <= eps * eps
  {
    hide SquaredNorm, Combine;
    QuarterStep(nv, s, g * g, eps);
    FiftyFourth(nw, Abs(beta), eps);
    ErrorBudget(-s, v, beta, w, nv, nw, eps / 2.0, eps / 2.0);
    assert (eps / 2.0 + eps / 2.0) == eps;
  }

  lemma QuarterStep(n: real, s: real, q: real, eps: real)
    requires n >= 0.0 && 0.0 <= s <= q / 4.0 && q * n <= 2.0 * eps
    ensures Abs(-s) * n <= eps / 2.0
  {
    MulLe(n, s, q / 4.0);
  }

  lemma FiftyFourth(n: real, b: real, eps: real)
    requires n >= 0.0 && b <= 1.0 / 54.0 && n <= 27.0 * eps
    ensures b * n <= eps / 2.0
  {
    MulLe(n, b, 1.0 / 54.0);
  }

  lemma UnitShare(u: real, g: real, k: real)
    requires 0.0 <= u <= 1.0 && g >= 0.0 && k == u * g
    ensures 0.0 <= k <= g
  {
    ProductNonNegative(u, g, k);
    MulLe(g, u, 1.0);
  }

  lemma BetweenUnit(p: real, r: real, u: real, x: real)
    requires 0.0 <= p <= r <= 1.0 && 0.0 <= u <= 1.0 && x == p + u * (r - p)
    ensures 0.0 <= x <= 1.0
  {
    UnitShare(u, r - p, u * (r - p));
  }

  /** What the step sizes of approximate_linear guarantee for a piece [t0, t1] of the
      curve and a step g over one of its quadratics. */
  ghost predicate StepFits(c: Cubic, t0: real, t1: real, q: Quad, g: real, nv: real, nd: real, eps: real)
    requires c.Valid() && q.Valid()
  {
    && eps > 0.0 && t0 <= t1
    && IsNorm(nv, Second(q)) && g * g * nv <= 2.0 * eps
    && IsNorm(nd, GetCoefficients(c).p3) && Cube(t1 - t0) * nd <= 27.0 * eps
  }

  lemma FirstChord(c: Cubic, t0: real, t1: real, s: Cubic, p: real, r: real, nv: real, nd: real, eps: real, a: real, b: real)
    requires c.Valid() && s == GetSubcurve(c, t0, t1) && StepFits(c, t0, t1, FirstQuad(s), r - p, nv, nd, eps)
    requires 0.0 <= p <= r <= 1.0 && a == InFirst(t0, t1, p) && b == InFirst(t0, t1, r)
    ensures ChordWithin(c, a, b, eps)
  {
    hide Get, GetSubcurve, InFirst, SquaredNorm, Bump, Parabola, Lerp1, Second, FirstQuad, GetCoefficients, Combine, Lerp, Minus, Cube, Scale, Deviation;
    var v, w, nw := Second(FirstQuad(s)), GetCoefficients(s).p3, Cube(t1 - t0) * nd;
    SubcurveLeadVector(c, t0, t1);
    CubeNonNegative(t1 - t0);
    NormScale(Cube(t1 - t0), GetCoefficients(c).p3, nd, nw);
    forall u: real | 0.0 <= u <= 1.0
      ensures SquaredNorm(Deviation(c, a, b, u)) <= eps * eps
    {
      var x, t := p + u * (r - p), a + u * (b - a);
      BetweenUnit(p, r, u, x);
      FirstAffine(t0, t1, p, r, u, a, b, x, t);
      FirstOnSubcurve(c, t0, t1, x, t);
      FirstOnSubcurve(c, t0, t1, p, a);
      FirstOnSubcurve(c, t0, t1, r, b);
      FirstCombination(s, p, r, r - p, u, x);
      ParabolaBound(u, r - p, Parabola(u, r - p));
      BumpChord(x, p, r, u);
      DeviationAt(c, a, b, u, t);
      PieceBudget(v, w, nv, nw, Parabola(u, r - p), Bump(x) - Lerp1(Bump(p), Bump(r), u), r - p, eps, Deviation(c, a, b, u));
    }
  }

  lemma SecondChord(c: Cubic, t0: real, t1: real, s: Cubic, p: real, r: real, nv: real, nd: real, eps: real, a: real, b: real)
    requires c.Valid() && s == GetSubcurve(c, t0, t1) && StepFits(c, t0, t1, SecondQuad(s), r - p, nv, nd, eps)
    requires 0.0 <= p <= r <= 1.0 && a == InSecond(t0, t1, p) && b == InSecond(t0, t1, r)
    ensures ChordWithin(c, a, b, eps)
  {
    hide Get, GetSubcurve, InSecond, SquaredNorm, Bump, Parabola, Lerp1, Second, SecondQuad, GetCoefficients, Combine, Lerp, Minus, Cube, Scale, Deviation;
    var v, w, nw := Second(SecondQuad(s)), GetCoefficients(s).p3, Cube(t1 - t0) * nd;
    SubcurveLeadVector(c, t0, t1);
    CubeNonNegative(t1 - t0);
    NormScale(Cube(t1 - t0), GetCoefficients(c).p3, nd, nw);
    forall u: real | 0.0 <= u <= 1.0
      ensures SquaredNorm(Deviation(c, a, b, u)) <= eps * eps
    {
      var x, t := p + u * (r - p), a + u * (b - a);
      BetweenUnit(p, r, u, x);
      SecondAffine(t0, t1, p, r, u, a, b, x, t);
      SecondOnSubcurve(c, t0, t1, x, t);
      SecondOnSubcurve(c, t0, t1, p, a);
      SecondOnSubcurve(c, t0, t1, r, b);
      SecondCombination(s, p, r, r - p, u, x, -Bump(1.0 - x), -Bump(1.0 - p), -Bump(1.0 - r));
      ParabolaBound(u, r - p, Parabola(u, r - p));
      BumpChord(1.0 - x, 1.0 - p, 1.0 - r, u);
      DeviationAt(c, a, b, u, t);
      PieceBudget(v, w, nv, nw, Parabola(u, r - p), (-Bump(1.0 - x)) - Lerp1(-Bump(1.0 - p), -Bump(1.0 - r), u), r - p, eps,
                  Deviation(c, a, b, u));
    }
  }

  // ---------- step sizes ----------

  lemma NonZeroPositive(r: real)
    requires r >= 0.0 && r != 0.0
    ensures r > 0.0
  {
  }

  lemma ZeroSquare(r: real, s: real)
    requires r == 0.0 && r * r == s
    ensures s == 0.0
  {
  }

  lemma ZeroCube(r: real, s: real)
    requires r == 0.0 && r * r * r == s
    ensures s == 0.0
  {
  }

  lemma RootPositive(r: real, s: real)
    requires r >= 0.0 && r * r == s && s > 0.0
    ensures r > 0.0
  {
    if r == 0.0 {
      ZeroSquare(r, s);
    }
    NonZeroPositive(r);
  }

  lemma CubeRootPositive(r: real, s: real)
    requires r >= 0.0 && r * r * r == s && s > 0.0
    ensures r > 0.0
  {
    if r == 0.0 {
      ZeroCube(r, s);
    }
    NonZeroPositive(r);
  }

  lemma QuotientTimes(e: real, n: real, x: real)
    requires n > 0.0 && x == e / n
    ensures x * n == e
  {
  }

  lemma QuotientPositive(x: real, n: real, e: real)
    requires n > 0.0 && e > 0.0 && x * n == e
    ensures x > 0.0
  {
    if x <= 0.0 {
      MulLe(n, x, 0.0);
    }
  }

  /** The step over a quadratic whose second difference has norm n.  A zero norm makes
      the square root infinite, and the minimum 1. */
  function QuadStep(m: Roots, n: real, eps: real): real
  {
    if n == 0.0 then 1.0
    else
      var root := m.sqrt(4.0 * eps / n);
      if root < 1.0 then root else 1.0
  }

  lemma RootStep(root: real, x: real, n: real, e: real, step: real)
    requires n >= 0.0 && e > 0.0 && x * n == e && x > 0.0 && root >= 0.0 && root * root == x
    requires step == if root < 1.0 then root else 1.0
    ensures 0.0 < step <= 1.0 && step * step * n <= e
  {
    RootPositive(root, x);
    if root >= 1.0 {
      SquareMono(1.0, root);
      MulLe(n, 1.0, x);
    }
  }

  lemma QuadStepFits(m: Roots, n: real, eps: real, step: real)
    requires m.Exact() && n >= 0.0 && eps > 0.0 && step == QuadStep(m, n, eps)
    ensures 0.0 < step <= 1.0 && step * step * n <= 4.0 * eps
  {
    if n > 0.0 {
      var x := 4.0 * eps / n;
      QuotientTimes(4.0 * eps, n, x);
      QuotientPositive(x, n, 4.0 * eps);
      RootStep(m.sqrt(x), x, n, 4.0 * eps, step);
    }
  }

  /** The step is exactly the one whose error is the bound, unless that is longer than 1. */
  lemma QuadStepExact(m: Roots, n: real, eps: real, step: real)
    requires m.Exact() && n >= 0.0 && eps > 0.0 && step == QuadStep(m, n, eps)
    ensures n > 4.0 * eps ==> step < 1.0 && step * step * n == 4.0 * eps
    ensures n <= 4.0 * eps ==> step == 1.0
  {
    if n > 0.0 {
      var x := 4.0 * eps / n;
      QuotientTimes(4.0 * eps, n, x);
      QuotientPositive(x, n, 4.0 * eps);
      RootStepExact(m.sqrt(x), x, n, 4.0 * eps, step);
    }
  }

  lemma RootStepExact(root: real, x: real, n: real, e: real, step: real)
    requires n > 0.0 && e > 0.0 && x * n == e && x > 0.0 && root >= 0.0 && root * root == x
    requires step == if root < 1.0 then root else 1.0
    ensures n > e ==> step < 1.0 && step * step * n == e
    ensures n <= e ==> step == 1.0
  {
    if root < 1.0 {
      SquareBelow(root);
      ProductPositive(1.0 - x, n, n - x * n);
    } else {
      SquareMono(1.0, root);
      MulLe(n, 1.0, x);
    }
  }

  lemma SquareBelow(root: real)
    requires 0.0 <= root < 1.0
    ensures root * root < 1.0
  {
    MulLe(root, root, 1.0);
  }

  /** The step over the curve: a zero leading coefficient makes it infinite, which the
      minimum with 1 in the loop turns into a single step. */
  function SegStep(m: Roots, n: real, eps: real): real
  {
    if n == 0.0 then 1.0 else m.cbrt(0.5 * eps / (1.0 / 54.0 * n))
  }

  lemma CubeStep(step: real, x: real, n: real, e: real)
    requires x * n == e && step * step * step == x
    ensures Cube(step) * n == e
  {
  }

  /** The error of the step is exactly the bound, unless the curve has no third order. */
  lemma SegStepFits(m: Roots, n: real, eps: real, step: real)
    requires m.Exact() && n >= 0.0 && eps > 0.0 && step == SegStep(m, n, eps)
    ensures step > 0.0 && Cube(step) * n <= 27.0 * eps
    ensures if n == 0.0 then step == 1.0 else Cube(step) * n == 27.0 * eps
  {
    if n > 0.0 {
      var d := 1.0 / 54.0 * n;
      var x := 0.5 * eps / d;
      QuotientTimes(0.5 * eps, d, x);
      FiftyFourTimes(x, n, d, eps);
      QuotientPositive(x, n, 27.0 * eps);
      CubeRootPositive(step, x);
      CubeStep(step, x, n, 27.0 * eps);
    }
  }

  lemma FiftyFourTimes(x: real, n: real, d: real, eps: real)
    requires d == 1.0 / 54.0 * n && x * d == 0.5 * eps
    ensures x * n == 27.0 * eps
  {
    assert n == 54.0 * d;
    assert x * n == 54.0 * (x * d);
  }

  lemma CubeMono(h: real, k: real, n: real)
    requires 0.0 <= h <= k && n >= 0.0
    ensures Cube(h) * n <= Cube(k) * n
  {
    SquareMono(h, k);
    ProductNonNegative(h, h, h * h);
    MulLe(h * h, h, k);
    MulLe(k, h * h, k * k);
    CubeOf(h, k);
    MulLe(n, Cube(h), Cube(k));
  }

  lemma CubeOf(h: real, k: real)
    requires h * h * h <= h * h * k && k * (h * h) <= k * (k * k)
    ensures Cube(h) <= Cube(k)
  {
  }

  // ---------- the loops ----------

  /** Loops that advance by a positive step reach 1. */
  lemma StepsLeft(k: nat, step: real, p: real, bound: int)
    requires step > 0.0 && p == k as real * step && p < 1.0 && bound == (1.0 / step).Floor + 1
    ensures k < bound
  {
    var r := 1.0 / step;
    QuotientTimes(1.0, step, r);
    if k as real >= r {
      MulLe(step, r, k as real);
    }
  }

  lemma NextStep(k: nat, step: real, p: real)
    requires p == k as real * step && step > 0.0
    ensures p + step == (k + 1) as real * step && p >= 0.0
  {
    ProductNonNegative(k as real, step, p);
  }

  /** Parameters from 0 upwards, with no gap longer than `step`. */
  ghost predicate Steps(ps: seq<real>, step: real)
  {
    && |ps| >= 1 && ps[0] == 0.0
    && (forall k :: 0 <= k < |ps| - 1 ==> ps[k] < ps[k + 1] <= ps[k] + step)
    && (forall k :: 0 <= k < |ps| ==> 0.0 <= ps[k] <= 1.0)
  }

  function Last(ps: seq<real>): real
    requires |ps| >= 1
  {
    ps[|ps| - 1]
  }

  lemma AppendStep(ps: seq<real>, step: real, p: real)
    requires Steps(ps, step) && Last(ps) < p <= Last(ps) + step && p <= 1.0
    ensures Steps(ps + [p], step) && Last(ps + [p]) == p
  {
  }

  /** All parameters from 0 to 1. */
  ghost predicate Increments(ps: seq<real>, step: real)
  {
    |ps| >= 2 && Steps(ps, step) && Last(ps) == 1.0
  }

  lemma TwoIncrements(ps: seq<real>, step: real)
    requires Steps(ps, step) && Last(ps) == 1.0
    ensures Increments(ps, step)
  {
  }

  /** `p` is k steps from 0. */
  ghost predicate AtStep(p: real, k: int, step: real)
  {
    p == k as real * step
  }

  /** n is the number of multiples of the step below 1. */
  ghost predicate StepsBelow(n: int, step: real)
  {
    (n - 1) as real * step < 1.0 <= n as real * step
  }

  /** Exactly the multiples of the step below 1, and 1. */
  ghost predicate EvenSteps(ps: seq<real>, step: real)
  {
    && |ps| >= 2 && Last(ps) == 1.0 && StepsBelow(|ps| - 1, step)
    && forall k :: 0 <= k < |ps| - 1 ==> AtStep(ps[k], k, step)
  }

  lemma StepsBelowIs(n: nat, step: real, last: real, p: real)
    requires AtStep(last, n - 1, step) && p == n as real * step && last < 1.0 <= p
    ensures StepsBelow(n, step)
  {
  }

  lemma EvenStepsEnd(ps: seq<real>, step: real, p: real)
    requires |ps| >= 1 && (forall k :: 0 <= k < |ps| ==> AtStep(ps[k], k, step)) && p == |ps| as real * step
    requires Last(ps) < 1.0 <= p
    ensures EvenSteps(ps + [1.0], step)
  {
    hide AtStep, StepsBelow;
    StepsBelowIs(|ps|, step, ps[|ps| - 1], p);
  }

  /** approximate_linear_quad_bezier */
  method ApproximateLinearQuadBezier(q: Quad, eps: real, m: Roots) returns (ps: seq<real>)
    requires q.Valid() && eps > 0.0 && m.Exact()
    ensures Increments(ps, QuadStep(m, Norm(m, Second(q)), eps)) && EvenSteps(ps, QuadStep(m, Norm(m, Second(q)), eps))
  {
    hide SquaredNorm, Second, QuadStep, Steps, EvenSteps;
    var n := Norm(m, Second(q));
    SquaredNormNonNegative(Second(q));
    var step := QuadStep(m, n, eps);
    QuadStepFits(m, n, eps, step);
    ps := StepThrough(step);
  }

  /** The loop of approximate_linear_quad_bezier. */
  method StepThrough(step: real) returns (ps: seq<real>)
    requires 0.0 < step <= 1.0
    ensures Increments(ps, step) && EvenSteps(ps, step)
  {
    hide Steps, EvenSteps, AtStep;
    ps := [];
    var p := 0.0;
    ghost var bound := (1.0 / step).Floor + 1;
    while p < 1.0
      invariant p == |ps| as real * step && p >= 0.0
      invariant |ps| == 0 ==> p == 0.0
      invariant |ps| > 0 ==> Steps(ps, step) && p == Last(ps) + step && Last(ps) < 1.0
      invariant forall k :: 0 <= k < |ps| ==> AtStep(ps[k], k, step)
      decreases bound - |ps|
    {
      AtStepIs(p, |ps|, step);
      StepsLeft(|ps|, step, p, bound);
      NextStep(|ps|, step, p);
      if |ps| > 0 {
        AppendStep(ps, step, p);
      } else {
        FirstStep(p, step);
      }
      ps := ps + [p];
      p := p + step;
    }
    EvenStepsEnd(ps, step, p);
    if ps[|ps| - 1] != 1.0 {
      AppendStep(ps, step, 1.0);
      ps := ps + [1.0];
    }
    TwoIncrements(ps, step);
  }

  lemma AtStepIs(p: real, k: nat, step: real)
    requires p == k as real * step
    ensures AtStep(p, k, step)
  {
  }

  lemma FirstStep(p: real, step: real)
    requires p == 0.0
    ensures Steps([] + [p], step) && Last([] + [p]) == p
  {
  }

  /** The pieces of the parameter range, in order, none longer than `step`. */
  ghost predicate Pieces(ss: seq<(real, real)>, step: real)
  {
    && |ss| >= 1 && ss[0].0 == 0.0
    && (forall k :: 0 <= k < |ss| ==> 0.0 <= ss[k].0 < ss[k].1 <= 1.0 && ss[k].1 <= ss[k].0 + step)
    && (forall k :: 0 <= k < |ss| - 1 ==> ss[k].1 == ss[k + 1].0)
  }

  lemma AppendPiece(ss: seq<(real, real)>, step: real, t: real, e: real)
    requires |ss| > 0 ==> Pieces(ss, step) && ss[|ss| - 1].1 == t
    requires |ss| == 0 ==> t == 0.0
    requires 0.0 <= t < e <= 1.0 && e <= t + step
    ensures Pieces(ss + [(t, e)], step)
  {
    var r := ss + [(t, e)];
    forall k | 0 <= k < |r| - 1
      ensures r[k].1 == r[k + 1].0
    {
      assert r[k] == ss[k];
    }
  }

  /** Piece k runs from k steps to one step more, or to 1. */
  ghost predicate AtPiece(e: (real, real), k: int, step: real)
  {
    e.0 == k as real * step && e.1 == if (k + 1) as real * step < 1.0 then (k + 1) as real * step else 1.0
  }

  /** Exactly the pieces that begin below 1. */
  ghost predicate EvenPieces(ss: seq<(real, real)>, step: real)
  {
    && |ss| >= 1 && StepsBelow(|ss|, step)
    && forall k :: 0 <= k < |ss| ==> AtPiece(ss[k], k, step)
  }

  lemma PieceStart(e: (real, real), k: nat, step: real)
    requires AtPiece(e, k, step)
    ensures AtStep(e.0, k, step)
  {
  }

  lemma EvenPiecesEnd(ss: seq<(real, real)>, step: real, t: real)
    requires |ss| >= 1 && (forall k :: 0 <= k < |ss| ==> AtPiece(ss[k], k, step)) && t == |ss| as real * step && ss[|ss| - 1].0 < 1.0 <= t
    ensures EvenPieces(ss, step)
  {
    hide AtPiece, AtStep, StepsBelow;
    PieceStart(ss[|ss| - 1], |ss| - 1, step);
    StepsBelowIs(|ss|, step, ss[|ss| - 1].0, t);
  }

  /** The first loop of approximate_linear, with the repair of the last piece. */
  method SegIntervals(step: real) returns (ss: seq<(real, real)>)
    requires step > 0.0
    ensures |ss| >= 1 && Pieces(ss, step) && ss[|ss| - 1].1 == 1.0 && EvenPieces(ss, step)
  {
    hide Pieces, AtPiece, EvenPieces;
    ss := [];
    var t := 0.0;
    ghost var bound := (1.0 / step).Floor + 1;
    while t < 1.0
      invariant t == |ss| as real * step && t >= 0.0
      invariant |ss| == 0 ==> t == 0.0
      invariant |ss| > 0 ==> Pieces(ss, step) && ss[|ss| - 1].1 == if t < 1.0 then t else 1.0
      invariant |ss| > 0 ==> ss[|ss| - 1].0 < 1.0
      invariant forall k :: 0 <= k < |ss| ==> AtPiece(ss[k], k, step)
      decreases bound - |ss|
    {
      AtPieceIs(|ss|, step, t);
      StepsLeft(|ss|, step, t, bound);
      NextStep(|ss|, step, t);
      AppendPiece(ss, step, t, if t + step < 1.0 then t + step else 1.0);
      ss := ss + [(t, if t + step < 1.0 then t + step else 1.0)];
      t := t + step;
    }
    EvenPiecesEnd(ss, step, t);
    var last := ss[|ss| - 1];
    if 1.0 - last.1 < 0.000001 {
      assert last == (last.0, 1.0) && ss[|ss| - 1 := last] == ss;
      ss := ss[|ss| - 1 := (last.0, 1.0)];
    } else {
      ss := ss + [(last.1, 1.0)];
    }
  }

  lemma AtPieceIs(k: nat, step: real, t: real)
    requires t == k as real * step
    ensures AtPiece((t, if t + step < 1.0 then t + step else 1.0), k, step)
  {
    assert (k + 1) as real * step == t + step;
  }

  // ---------- the flattening ----------

  /** Parameters in increasing order, each chord between neighbours within eps. */
  ghost predicate Chain(c: Cubic, eps: real, ts: seq<real>)
    requires c.Valid()
  {
    forall k :: 0 <= k < |ts| - 1 ==> ts[k] < ts[k + 1] && ChordWithin(c, ts[k], ts[k + 1], eps)
  }

  lemma JoinChain(c: Cubic, eps: real, a: seq<real>, b: seq<real>)
    requires c.Valid() && |a| >= 1 && |b| >= 1 && Chain(c, eps, a) && Chain(c, eps, b) && Last(a) == b[0]
    ensures Chain(c, eps, a[..|a| - 1] + b)
  {
    hide ChordWithin;
    var r := a[..|a| - 1] + b;
    forall k | 0 <= k < |r| - 1
      ensures r[k] < r[k + 1] && ChordWithin(c, r[k], r[k + 1], eps)
    {
      if k < |a| - 1 {
        assert r[k] == a[k] && r[k + 1] == a[k + 1];
      } else {
        assert r[k] == b[k - |a| + 1] && r[k + 1] == b[k - |a| + 2];
      }
    }
  }

  function MapFirst(t0: real, t1: real, ps: seq<real>): (r: seq<real>)
    ensures |r| == |ps|
  {
    seq(|ps|, i requires 0 <= i < |ps| => InFirst(t0, t1, ps[i]))
  }

  function MapSecond(t0: real, t1: real, ps: seq<real>): (r: seq<real>)
    ensures |r| == |ps|
  {
    seq(|ps|, i requires 0 <= i < |ps| => InSecond(t0, t1, ps[i]))
  }

  lemma GapFits(g: real, step: real, nv: real, eps: real)
    requires 0.0 <= g <= step && nv >= 0.0 && step * step * nv <= 2.0 * eps
    ensures g * g * nv <= 2.0 * eps
  {
    SquareMono(g, step);
    MulLe(nv, g * g, step * step);
  }

  /** A step sequence that suits both the quadratic and the piece. */
  ghost predicate Suits(c: Cubic, t0: real, t1: real, q: Quad, ps: seq<real>, step: real, nv: real, nd: real, eps: real)
    requires c.Valid() && q.Valid()
  {
    && eps > 0.0 && t0 < t1 && Increments(ps, step)
    && IsNorm(nv, Second(q)) && step * step * nv <= 2.0 * eps
    && IsNorm(nd, GetCoefficients(c).p3) && Cube(t1 - t0) * nd <= 27.0 * eps
  }

  lemma SuitsStep(c: Cubic, t0: real, t1: real, q: Quad, ps: seq<real>, step: real, nv: real, nd: real, eps: real, k: nat)
    requires c.Valid() && q.Valid() && Suits(c, t0, t1, q, ps, step, nv, nd, eps) && k + 1 < |ps|
    ensures StepFits(c, t0, t1, q, ps[k + 1] - ps[k], nv, nd, eps)
    ensures 0.0 <= ps[k] < ps[k + 1] <= 1.0
  {
    hide Second, GetCoefficients, Cube, SquaredNorm;
    GapFits(ps[k + 1] - ps[k], step, nv, eps);
  }

  lemma FirstMonotone(t0: real, t1: real, p: real, r: real)
    requires t0 < t1 && p < r
    ensures InFirst(t0, t1, p) < InFirst(t0, t1, r)
    ensures InSecond(t0, t1, p) < InSecond(t0, t1, r)
  {
    ProductPositive(t1 - t0, r - p, (t1 - t0) * (r - p));
    assert InFirst(t0, t1, r) == InFirst(t0, t1, p) + (t1 - t0) * (r - p) * 0.5;
    assert InSecond(t0, t1, r) == InSecond(t0, t1, p) + (t1 - t0) * (r - p) * 0.5;
  }

  lemma FirstChain(c: Cubic, t0: real, t1: real, s: Cubic, ps: seq<real>, step: real, nv: real, nd: real, eps: real)
    requires c.Valid() && s == GetSubcurve(c, t0, t1) && Suits(c, t0, t1, FirstQuad(s), ps, step, nv, nd, eps)
    ensures Chain(c, eps, MapFirst(t0, t1, ps))
  {
    hide InFirst, InSecond, GetSubcurve, FirstQuad, Suits, StepFits, ChordWithin;
    var ts := MapFirst(t0, t1, ps);
    forall k | 0 <= k < |ts| - 1
      ensures ts[k] < ts[k + 1] && ChordWithin(c, ts[k], ts[k + 1], eps)
    {
      SuitsStep(c, t0, t1, FirstQuad(s), ps, step, nv, nd, eps, k);
      SuitsOrder(c, t0, t1, FirstQuad(s), ps, step, nv, nd, eps);
      FirstMonotone(t0, t1, ps[k], ps[k + 1]);
      FirstChord(c, t0, t1, s, ps[k], ps[k + 1], nv, nd, eps, ts[k], ts[k + 1]);
    }
  }

  lemma SuitsOrder(c: Cubic, t0: real, t1: real, q: Quad, ps: seq<real>, step: real, nv: real, nd: real, eps: real)
    requires c.Valid() && q.Valid() && Suits(c, t0, t1, q, ps, step, nv, nd, eps)
    ensures t0 < t1 && |ps| >= 2 && ps[0] == 0.0 && Last(ps) == 1.0
  {
  }

  lemma SecondChain(c: Cubic, t0: real, t1: real, s: Cubic, ps: seq<real>, step: real, nv: real, nd: real, eps: real)
    requires c.Valid() && s == GetSubcurve(c, t0, t1) && Suits(c, t0, t1, SecondQuad(s), ps, step, nv, nd, eps)
    ensures Chain(c, eps, MapSecond(t0, t1, ps))
  {
    hide InFirst, InSecond, GetSubcurve, SecondQuad, Suits, StepFits, ChordWithin;
    var ts := MapSecond(t0, t1, ps);
    forall k | 0 <= k < |ts| - 1
      ensures ts[k] < ts[k + 1] && ChordWithin(c, ts[k], ts[k + 1], eps)
    {
      SuitsStep(c, t0, t1, SecondQuad(s), ps, step, nv, nd, eps, k);
      SuitsOrder(c, t0, t1, SecondQuad(s), ps, step, nv, nd, eps);
      FirstMonotone(t0, t1, ps[k], ps[k + 1]);
      SecondChord(c, t0, t1, s, ps[k], ps[k + 1], nv, nd, eps, ts[k], ts[k + 1]);
    }
  }

  lemma SuitsFromStep(c: Cubic, t0: real, t1: real, q: Quad, ps: seq<real>, m: Roots, nd: real, seg: real, eps: real)
    requires c.Valid() && q.Valid() && m.Exact() && eps > 0.0 && t0 < t1 <= t0 + seg
    requires Increments(ps, QuadStep(m, Norm(m, Second(q)), 0.5 * eps))
    requires IsNorm(nd, GetCoefficients(c).p3) && Cube(seg) * nd <= 27.0 * eps
    ensures Suits(c, t0, t1, q, ps, QuadStep(m, Norm(m, Second(q)), 0.5 * eps), Norm(m, Second(q)), nd, eps)
  {
    hide Increments, Second, GetCoefficients, Cube, SquaredNorm, QuadStep;
    var nv := Norm(m, Second(q));
    SquaredNormNonNegative(Second(q));
    QuadStepFits(m, nv, 0.5 * eps, QuadStep(m, nv, 0.5 * eps));
    CubeMono(t1 - t0, seg, nd);
  }

  lemma Ends(t0: real, t1: real)
    ensures InFirst(t0, t1, 0.0) == t0 && InFirst(t0, t1, 1.0) == InSecond(t0, t1, 0.0) && InSecond(t0, t1, 1.0) == t1
    ensures InFirst(t0, t1, 1.0) == (t0 + t1) / 2.0
  {
  }

  /** What one piece adds: both halves, sharing the middle parameter. */
  function PieceValues(t0: real, t1: real, ps: seq<real>, qs: seq<real>): seq<real>
    requires |ps| >= 1
  {
    MapFirst(t0, t1, ps)[..|ps| - 1] + MapSecond(t0, t1, qs)
  }

  /** No chord crosses the ends or the middle of a piece. */
  ghost predicate KeepsCuts(ts: seq<real>, ss: seq<(real, real)>, n: nat)
    requires n <= |ss|
  {
    forall k :: 0 <= k < n ==> ss[k].0 in ts && (ss[k].0 + ss[k].1) / 2.0 in ts
  }

  lemma PieceChain(c: Cubic, t0: real, t1: real, s: Cubic, ps: seq<real>, qs: seq<real>, m: Roots, nd: real, seg: real, eps: real)
    requires c.Valid() && s == GetSubcurve(c, t0, t1) && m.Exact() && eps > 0.0 && t0 < t1 <= t0 + seg
    requires Increments(ps, QuadStep(m, Norm(m, Second(FirstQuad(s))), 0.5 * eps))
    requires Increments(qs, QuadStep(m, Norm(m, Second(SecondQuad(s))), 0.5 * eps))
    requires IsNorm(nd, GetCoefficients(c).p3) && Cube(seg) * nd <= 27.0 * eps
    ensures |ps| >= 2 && |qs| >= 2
    ensures var r := PieceValues(t0, t1, ps, qs);
            |r| >= 2 && Chain(c, eps, r) && r[0] == t0 && Last(r) == t1 && (t0 + t1) / 2.0 in r[..|r| - 1]
  {
    hide GetSubcurve, FirstQuad, SecondQuad, Second, Norm, QuadStep, Cube, IsNorm, GetCoefficients, Increments, Suits, Chain, InFirst, InSecond;
    SuitsFromStep(c, t0, t1, FirstQuad(s), ps, m, nd, seg, eps);
    SuitsFromStep(c, t0, t1, SecondQuad(s), qs, m, nd, seg, eps);
    var n1, n2 := Norm(m, Second(FirstQuad(s))), Norm(m, Second(SecondQuad(s)));
    FirstChain(c, t0, t1, s, ps, QuadStep(m, n1, 0.5 * eps), n1, nd, eps);
    SecondChain(c, t0, t1, s, qs, QuadStep(m, n2, 0.5 * eps), n2, nd, eps);
    SuitsOrder(c, t0, t1, FirstQuad(s), ps, QuadStep(m, n1, 0.5 * eps), n1, nd, eps);
    SuitsOrder(c, t0, t1, SecondQuad(s), qs, QuadStep(m, n2, 0.5 * eps), n2, nd, eps);
    Ends(t0, t1);
    JoinChain(c, eps, MapFirst(t0, t1, ps), MapSecond(t0, t1, qs));
    var r := PieceValues(t0, t1, ps, qs);
    assert r[|ps| - 1] == MapSecond(t0, t1, qs)[0];
    assert r[..|r| - 1][|ps| - 1] == (t0 + t1) / 2.0;
  }

  /** Values so far, ending with the start of the next piece. */
  ghost predicate Covers(c: Cubic, eps: real, ts: seq<real>, end: real)
    requires c.Valid()
  {
    |ts| >= 1 && ts[0] == 0.0 && Last(ts) == end && Chain(c, eps, ts)
  }

  lemma ExtendCover(c: Cubic, eps: real, ts: seq<real>, r: seq<real>, t0: real, t1: real)
    requires c.Valid() && Covers(c, eps, ts, t0) && |r| >= 2 && Chain(c, eps, r) && r[0] == t0 && Last(r) == t1
    ensures Covers(c, eps, ts[..|ts| - 1] + r, t1)
  {
    hide Chain;
    JoinChain(c, eps, ts, r);
    assert (ts[..|ts| - 1] + r)[0] == 0.0;
  }

  lemma ExtendCuts(ts: seq<real>, ss: seq<(real, real)>, n: nat, r: seq<real>)
    requires n < |ss| && KeepsCuts(ts, ss, n) && |r| >= 2
    requires r[0] == ss[n].0 && (ss[n].0 + ss[n].1) / 2.0 in r[..|r| - 1]
    ensures KeepsCuts(ts + r[..|r| - 1], ss, n + 1)
  {
    var b := r[..|r| - 1];
    assert b[0] == r[0];
  }

  lemma PieceAt(ss: seq<(real, real)>, step: real, k: nat)
    requires Pieces(ss, step) && k < |ss|
    ensures ss[k].0 < ss[k].1 <= ss[k].0 + step
    ensures k + 1 < |ss| ==> ss[k + 1].0 == ss[k].1
    ensures k == 0 ==> ss[k].0 == 0.0
  {
  }

  lemma LastOff(body: seq<real>, r: seq<real>, t1: real)
    requires |r| >= 2 && Last(r) == t1
    ensures body + r == body + r[..|r| - 1] + [t1]
  {
  }

  lemma LeadNorm(c: Cubic, m: Roots, n: real)
    requires c.Valid() && m.Exact() && n == Norm(m, GetCoefficients(c).p3)
    ensures IsNorm(n, GetCoefficients(c).p3)
  {
    SquaredNormNonNegative(GetCoefficients(c).p3);
  }

  lemma StartCover(c: Cubic, eps: real, ss: seq<(real, real)>)
    requires c.Valid()
    ensures Covers(c, eps, [] + [0.0], 0.0) && KeepsCuts([], ss, 0)
  {
  }

  lemma Listed(tVals: seq<real>, ts: seq<real>)
    requires |tVals| >= 2 && tVals[0] == tVals[1] && ts == tVals[1..]
    ensures (set t <- tVals) == (set t <- ts)
  {
    forall t | t in tVals
      ensures t in ts
    {
      var i :| 0 <= i < |tVals| && tVals[i] == t;
      assert ts[if i == 0 then 0 else i - 1] == t;
    }
  }

  lemma ListNone(c: Cubic, eps: real, m: Roots, ss: seq<(real, real)>)
    requires c.Valid()
    ensures Listing(c, eps, m, ss, [], 0) && Joined([]) == []
  {
  }

  lemma WholeCover(c: Cubic, eps: real, body: seq<real>, ss: seq<(real, real)>)
    requires c.Valid() && |body| > 0 && Covers(c, eps, body + [1.0], 1.0) && KeepsCuts(body, ss, |ss|)
    ensures Chain(c, eps, body + [1.0]) && KeepsCuts(body + [1.0], ss, |ss|)
    ensures (body + [1.0])[0] == 0.0 == body[0]
  {
    hide Chain;
  }

  /** The values that piece [t0, t1] adds: both halves in even steps, each without its end. */
  ghost predicate PieceListed(c: Cubic, eps: real, m: Roots, t0: real, t1: real, values: seq<real>)
    requires c.Valid()
  {
    var s := GetSubcurve(c, t0, t1);
    exists ps, qs ::
      && EvenSteps(ps, QuadStep(m, Norm(m, Second(FirstQuad(s))), 0.5 * eps))
      && EvenSteps(qs, QuadStep(m, Norm(m, Second(SecondQuad(s))), 0.5 * eps))
      && values == MapFirst(t0, t1, ps)[..|ps| - 1] + MapSecond(t0, t1, qs)[..|qs| - 1]
  }

  function Joined(parts: seq<seq<real>>): seq<real>
  {
    if |parts| == 0 then [] else Joined(parts[..|parts| - 1]) + parts[|parts| - 1]
  }

  /** The values are those of the first n pieces, in order. */
  ghost predicate Listing(c: Cubic, eps: real, m: Roots, ss: seq<(real, real)>, parts: seq<seq<real>>, n: nat)
    requires c.Valid()
  {
    |parts| == n <= |ss| && forall k :: 0 <= k < n ==> PieceListed(c, eps, m, ss[k].0, ss[k].1, parts[k])
  }

  lemma ListNext(c: Cubic, eps: real, m: Roots, ss: seq<(real, real)>, parts: seq<seq<real>>, n: nat, values: seq<real>)
    requires c.Valid() && Listing(c, eps, m, ss, parts, n) && n < |ss| && PieceListed(c, eps, m, ss[n].0, ss[n].1, values)
    ensures Listing(c, eps, m, ss, parts + [values], n + 1) && Joined(parts + [values]) == Joined(parts) + values
  {
    hide PieceListed;
    assert (parts + [values])[..|parts|] == parts;
  }

  lemma MakePieceListed(c: Cubic, eps: real, m: Roots, t0: real, t1: real, s: Cubic, ps: seq<real>, qs: seq<real>)
    requires c.Valid() && s == GetSubcurve(c, t0, t1)
    requires EvenSteps(ps, QuadStep(m, Norm(m, Second(FirstQuad(s))), 0.5 * eps))
    requires EvenSteps(qs, QuadStep(m, Norm(m, Second(SecondQuad(s))), 0.5 * eps))
    ensures |ps| >= 2 && |qs| >= 2
    ensures PieceListed(c, eps, m, t0, t1, PieceValues(t0, t1, ps, qs)[..|PieceValues(t0, t1, ps, qs)| - 1])
  {
    assert |ps| >= 2 && |qs| >= 2;
    hide GetSubcurve, FirstQuad, SecondQuad, Second, Norm, QuadStep, MapFirst, MapSecond, EvenSteps;
    var r := PieceValues(t0, t1, ps, qs);
    assert r[..|r| - 1] == MapFirst(t0, t1, ps)[..|ps| - 1] + MapSecond(t0, t1, qs)[..|qs| - 1];
  }

  /** The body of the second loop of approximate_linear: one piece's values are pushed,
      the last value of each half being popped again. */
  method PushPiece(c: Cubic, t0: real, t1: real, eps: real, m: Roots, ghost nd: real, ghost seg: real, before: seq<real>)
    returns (tVals: seq<real>, ghost r: seq<real>)
    requires c.Valid() && m.Exact() && eps > 0.0 && t0 < t1 <= t0 + seg
    requires IsNorm(nd, GetCoefficients(c).p3) && Cube(seg) * nd <= 27.0 * eps
    ensures |r| >= 2 && Chain(c, eps, r) && r[0] == t0 && Last(r) == t1 && (t0 + t1) / 2.0 in r[..|r| - 1]
    ensures tVals == before + r[..|r| - 1] && PieceListed(c, eps, m, t0, t1, r[..|r| - 1])
  {
    hide GetCoefficients, GetSubcurve, FirstQuad, SecondQuad, Second, Norm, SquaredNorm, QuadStep, Cube, IsNorm,
         Increments, Chain, InFirst, InSecond, PieceListed, EvenSteps;
    var sub := GetSubcurve(c, t0, t1);
    var ps := ApproximateLinearQuadBezier(FirstQuad(sub), 0.5 * eps, m);
    var qs := ApproximateLinearQuadBezier(SecondQuad(sub), 0.5 * eps, m);
    PieceChain(c, t0, t1, sub, ps, qs, m, nd, seg, eps);
    r := PieceValues(t0, t1, ps, qs);
    MakePieceListed(c, eps, m, t0, t1, sub, ps, qs);
    tVals := before + MapFirst(t0, t1, ps);
    tVals := tVals[..|tVals| - 1];
    assert tVals == before + MapFirst(t0, t1, ps)[..|ps| - 1];
    tVals := tVals + MapSecond(t0, t1, qs);
    tVals := tVals[..|tVals| - 1];
  }

  /** approximate_linear.  `ts` lists the set that the function returns in its order: the
      value 0 that t_vals starts with is pushed a second time by the first piece.

      The curve stays within eps of every chord between neighbouring values, the ends and
      middles of the pieces are among the values, and there are no values but those of the
      pieces in even steps and 1. */
  method ApproximateLinear(c: Cubic, eps: real, m: Roots) returns (ts: seq<real>, ss: seq<(real, real)>, ghost parts: seq<seq<real>>)
    requires c.Valid() && eps > 0.0 && m.Exact()
    ensures |ts| >= 2 && ts[0] == 0.0 && Last(ts) == 1.0
    ensures Chain(c, eps, ts)
    ensures Pieces(ss, SegStep(m, Norm(m, GetCoefficients(c).p3), eps)) && ss[|ss| - 1].1 == 1.0
    ensures EvenPieces(ss, SegStep(m, Norm(m, GetCoefficients(c).p3), eps))
    ensures Listing(c, eps, m, ss, parts, |ss|) && ts == Joined(parts) + [1.0]
    ensures KeepsCuts(ts, ss, |ss|)
  {
    hide GetCoefficients, GetSubcurve, FirstQuad, SecondQuad, Second, Norm, SquaredNorm, QuadStep, SegStep, Cube,
         Increments, Pieces, EvenPieces, Chain, KeepsCuts, InFirst, InSecond, Listing, PieceListed, Joined;
    var n := Norm(m, GetCoefficients(c).p3);
    LeadNorm(c, m, n);
    var seg := SegStep(m, n, eps);
    SegStepFits(m, n, eps, seg);
    ss := SegIntervals(seg);
    PieceAt(ss, seg, 0);
    var tVals := [0.0];
    ghost var body := [];
    parts := [];
    StartCover(c, eps, ss);
    ListNone(c, eps, m, ss);
    var k := 0;
    while k < |ss|
      invariant 0 <= k <= |ss|
      invariant tVals == [0.0] + body && Listing(c, eps, m, ss, parts, k) && body == Joined(parts)
      invariant Covers(c, eps, body + [if k < |ss| then ss[k].0 else 1.0], if k < |ss| then ss[k].0 else 1.0)
      invariant k > 0 ==> |body| > 0
      invariant KeepsCuts(body, ss, k)
    {
      PieceAt(ss, seg, k);
      var t0, t1 := ss[k].0, ss[k].1;
      ghost var r;
      tVals, r := PushPiece(c, t0, t1, eps, m, n, seg, tVals);
      ExtendCover(c, eps, body + [t0], r, t0, t1);
      ExtendCuts(body, ss, k, r);
      assert (body + [t0])[..|body|] == body;
      LastOff(body, r, t1);
      ListNext(c, eps, m, ss, parts, k, r[..|r| - 1]);
      parts := parts + [r[..|r| - 1]];
      body := body + r[..|r| - 1];
      assert tVals == [0.0] + body;
      k := k + 1;
    }
    tVals := tVals + [1.0];
    ts := tVals[1..];
    assert ts == body + [1.0];
    Listed(tVals, ts);
    WholeCover(c, eps, body, ss);
  }

  lemma {:induction false} Straddle(ts: seq<real>, t: real) returns (k: nat)
    requires |ts| >= 2 && ts[0] <= t <= Last(ts)
    ensures k + 1 < |ts| && ts[k] <= t <= ts[k + 1]
  {
    k := 0;
    while k + 2 < |ts| && ts[k + 1] < t
      invariant k + 1 < |ts| && ts[k] <= t
    {
      k := k + 1;
    }
  }

  lemma ShareOf(a: real, b: real, t: real) returns (u: real)
    requires a <= t <= b && a < b
    ensures 0.0 <= u <= 1.0 && t == a + u * (b - a)
  {
    u := (t - a) / (b - a);
    QuotientTimes(t - a, b - a, u);
    if u < 0.0 {
      ProductPositive(-u, b - a, a - t);
    }
    if u > 1.0 {
      ProductPositive(u - 1.0, b - a, (u - 1.0) * (b - a));
    }
  }

  /** The whole curve lies within eps of the polyline through the returned parameters. */
  lemma EveryParameter(c: Cubic, eps: real, ts: seq<real>, t: real) returns (k: nat, u: real)
    requires c.Valid() && |ts| >= 2 && ts[0] == 0.0 && Last(ts) == 1.0 && Chain(c, eps, ts)
    requires 0.0 <= t <= 1.0
    ensures k + 1 < |ts| && 0.0 <= u <= 1.0
    ensures SquaredNorm(Minus(Get(c, t), Lerp(Get(c, ts[k]), Get(c, ts[k + 1]), u))) <= eps * eps
  {
    hide SquaredNorm, Get, Lerp, Minus, Deviation;
    k := Straddle(ts, t);
    u := ShareOf(ts[k], ts[k + 1], t);
    DeviationAt(c, ts[k], ts[k + 1], u, t);
  }
}
