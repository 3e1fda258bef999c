/** The polynomial identities behind CubicBezier.hpp, one coordinate at a time. */
module BezierAlgebra {
  import opened RealArith

  /** One coordinate of CubicBezier::get. */
  function Bernstein3(a: real, b: real, c: real, d: real, t: real): real
  {
    (1.0 - t) * (1.0 - t) * (1.0 - t) * a + 3.0 * t * (1.0 - t) * (1.0 - t) * b + 3.0 * t * t * (1.0 - t) * c + t * t * t * d
  }

  /** One coordinate of a quadratic Bezier curve. */
  function Bernstein2(a: real, b: real, c: real, t: real): real
  {
    (1.0 - t) * (1.0 - t) * a + 2.0 * t * (1.0 - t) * b + t * t * c
  }

  function Poly3(k0: real, k1: real, k2: real, k3: real, t: real): real
  {
    k0 + k1 * t + k2 * t * t + k3 * t * t * t
  }

  /** One coordinate of f_cubic_t123 in get_subcurve. */
  function Blossom(t1: real, t2: real, t3: real, p0: real, p1: real, p2: real, p3: real): real
  {
    (1.0 - t3) * ((1.0 - t2) * ((1.0 - t1) * p0 + t1 * p1) + t2 * ((1.0 - t1) * p1 + t1 * p2))
    + t3 * ((1.0 - t2) * ((1.0 - t1) * p1 + t1 * p2) + t2 * ((1.0 - t1) * p2 + t1 * p3))
  }

  /** The coefficient of t^3 in get_coefficients. */
  function Lead(p0: real, p1: real, p2: real, p3: real): real
  {
    p3 - 3.0 * p2 + 3.0 * p1 - p0
  }

  lemma Bernstein3Poly(a: real, b: real, c: real, d: real, t: real)
    ensures Bernstein3(a, b, c, d, t)
         == Poly3(a, 3.0 * b - 3.0 * a, 3.0 * c - 6.0 * b + 3.0 * a, Lead(a, b, c, d), t)
  {
  }

  lemma BlossomPoly(t1: real, t2: real, t3: real, p0: real, p1: real, p2: real, p3: real)
    ensures Blossom(t1, t2, t3, p0, p1, p2, p3)
         == p0 + (p1 - p0) * (t1 + t2 + t3) + (p2 - 2.0 * p1 + p0) * (t1 * t2 + t1 * t3 + t2 * t3)
            + Lead(p0, p1, p2, p3) * (t1 * t2 * t3)
  {
  }

  lemma BasisOne(t0: real, t1: real, u: real, t: real)
    requires t == t0 + u * (t1 - t0)
    ensures Bernstein3(3.0 * t0, 2.0 * t0 + t1, t0 + 2.0 * t1, 3.0 * t1, u) == 3.0 * t
  {
  }

  lemma BasisTwo(t0: real, t1: real, u: real, t: real)
    requires t == t0 + u * (t1 - t0)
    ensures Bernstein3(3.0 * t0 * t0, t0 * t0 + 2.0 * t0 * t1, 2.0 * t0 * t1 + t1 * t1, 3.0 * t1 * t1, u) == 3.0 * t * t
  {
  }

  lemma BasisThree(t0: real, t1: real, u: real, t: real)
    requires t == t0 + u * (t1 - t0)
    ensures Bernstein3(t0 * t0 * t0, t0 * t0 * t1, t0 * t1 * t1, t1 * t1 * t1, u) == t * t * t
  {
  }

  lemma Bernstein3Add(a0: real, a1: real, a2: real, a3: real, b0: real, b1: real, b2: real, b3: real, u: real)
    ensures Bernstein3(a0 + b0, a1 + b1, a2 + b2, a3 + b3, u) == Bernstein3(a0, a1, a2, a3, u) + Bernstein3(b0, b1, b2, b3, u)
  {
  }

  lemma Bernstein3Scale(k: real, a0: real, a1: real, a2: real, a3: real, u: real)
    ensures Bernstein3(k * a0, k * a1, k * a2, k * a3, u) == k * Bernstein3(a0, a1, a2, a3, u)
  {
  }

  lemma Bernstein3Const(k: real, u: real)
    ensures Bernstein3(k, k, k, k, u) == k
  {
  }

  /** A combination of control values gives the same combination of curve values. */
  lemma BernsteinLinear(k0: real, k1: real, k2: real, k3: real,
                        a0: real, a1: real, a2: real, a3: real, x1: real,
                        b0: real, b1: real, b2: real, b3: real, x2: real,
                        c0: real, c1: real, c2: real, c3: real, x3: real,
                        s0: real, s1: real, s2: real, s3: real, u: real)
    requires x1 == Bernstein3(a0, a1, a2, a3, u) && x2 == Bernstein3(b0, b1, b2, b3, u) && x3 == Bernstein3(c0, c1, c2, c3, u)
    requires s0 == k0 + k1 * a0 + k2 * b0 + k3 * c0 && s1 == k0 + k1 * a1 + k2 * b1 + k3 * c1
    requires s2 == k0 + k1 * a2 + k2 * b2 + k3 * c2 && s3 == k0 + k1 * a3 + k2 * b3 + k3 * c3
    ensures Bernstein3(s0, s1, s2, s3, u) == k0 + k1 * x1 + k2 * x2 + k3 * x3
  {
    hide Bernstein3;
    Bernstein3Const(k0, u);
    Bernstein3Scale(k1, a0, a1, a2, a3, u);
    Bernstein3Scale(k2, b0, b1, b2, b3, u);
    Bernstein3Scale(k3, c0, c1, c2, c3, u);
    Bernstein3Add(k0, k0, k0, k0, k1 * a0, k1 * a1, k1 * a2, k1 * a3, u);
    Bernstein3Add(k0 + k1 * a0, k0 + k1 * a1, k0 + k1 * a2, k0 + k1 * a3, k2 * b0, k2 * b1, k2 * b2, k2 * b3, u);
    Bernstein3Add(k0 + k1 * a0 + k2 * b0, k0 + k1 * a1 + k2 * b1, k0 + k1 * a2 + k2 * b2, k0 + k1 * a3 + k2 * b3,
                  k3 * c0, k3 * c1, k3 * c2, k3 * c3, u);
  }

  /** The control points of get_subcurve carry the curve between its two parameters. */
  lemma Subcurve(t0: real, t1: real, p0: real, p1: real, p2: real, p3: real, u: real, t: real,
                 s0: real, s1: real, s2: real, s3: real)
    requires t == t0 + u * (t1 - t0)
    requires s0 == Blossom(t0, t0, t0, p0, p1, p2, p3) && s1 == Blossom(t0, t0, t1, p0, p1, p2, p3)
    requires s2 == Blossom(t0, t1, t1, p0, p1, p2, p3) && s3 == Blossom(t1, t1, t1, p0, p1, p2, p3)
    ensures Bernstein3(s0, s1, s2, s3, u) == Bernstein3(p0, p1, p2, p3, t)
  {
    var k1, k2, k3 := p1 - p0, p2 - 2.0 * p1 + p0, Lead(p0, p1, p2, p3);
    SubcurvePoints(t0, t1, p0, p1, p2, p3, k1, k2, k3);
    Bernstein3Powers(p0, p1, p2, p3, t, k1, k2, k3);
    hide Bernstein3, Blossom, Lead;
    SubcurvePowers(t0, t1, u, t, p0, k1, k2, k3, s0, s1, s2, s3);
  }

  lemma SubcurvePowers(t0: real, t1: real, u: real, t: real, k0: real, k1: real, k2: real, k3: real,
                       s0: real, s1: real, s2: real, s3: real)
    requires t == t0 + u * (t1 - t0)
    requires s0 == k0 + k1 * (3.0 * t0) + k2 * (3.0 * t0 * t0) + k3 * (t0 * t0 * t0)
    requires s1 == k0 + k1 * (2.0 * t0 + t1) + k2 * (t0 * t0 + 2.0 * t0 * t1) + k3 * (t0 * t0 * t1)
    requires s2 == k0 + k1 * (t0 + 2.0 * t1) + k2 * (2.0 * t0 * t1 + t1 * t1) + k3 * (t0 * t1 * t1)
    requires s3 == k0 + k1 * (3.0 * t1) + k2 * (3.0 * t1 * t1) + k3 * (t1 * t1 * t1)
    ensures Bernstein3(s0, s1, s2, s3, u) == k0 + k1 * (3.0 * t) + k2 * (3.0 * t * t) + k3 * (t * t * t)
  {
    hide Bernstein3;
    BasisOne(t0, t1, u, t);
    BasisTwo(t0, t1, u, t);
    BasisThree(t0, t1, u, t);
    BernsteinLinear(k0, k1, k2, k3, 3.0 * t0, 2.0 * t0 + t1, t0 + 2.0 * t1, 3.0 * t1, 3.0 * t,
                    3.0 * t0 * t0, t0 * t0 + 2.0 * t0 * t1, 2.0 * t0 * t1 + t1 * t1, 3.0 * t1 * t1, 3.0 * t * t,
                    t0 * t0 * t0, t0 * t0 * t1, t0 * t1 * t1, t1 * t1 * t1, t * t * t, s0, s1, s2, s3, u);
  }

  lemma SubcurvePoints(t0: real, t1: real, p0: real, p1: real, p2: real, p3: real, k1: real, k2: real, k3: real)
    requires k1 == p1 - p0 && k2 == p2 - 2.0 * p1 + p0 && k3 == Lead(p0, p1, p2, p3)
    ensures Blossom(t0, t0, t0, p0, p1, p2, p3) == p0 + k1 * (3.0 * t0) + k2 * (3.0 * t0 * t0) + k3 * (t0 * t0 * t0)
    ensures Blossom(t0, t0, t1, p0, p1, p2, p3) == p0 + k1 * (2.0 * t0 + t1) + k2 * (t0 * t0 + 2.0 * t0 * t1) + k3 * (t0 * t0 * t1)
    ensures Blossom(t0, t1, t1, p0, p1, p2, p3) == p0 + k1 * (t0 + 2.0 * t1) + k2 * (2.0 * t0 * t1 + t1 * t1) + k3 * (t0 * t1 * t1)
    ensures Blossom(t1, t1, t1, p0, p1, p2, p3) == p0 + k1 * (3.0 * t1) + k2 * (3.0 * t1 * t1) + k3 * (t1 * t1 * t1)
  {
    hide Blossom, Lead;
    BlossomPoly(t0, t0, t0, p0, p1, p2, p3);
    BlossomPoly(t0, t0, t1, p0, p1, p2, p3);
    BlossomPoly(t0, t1, t1, p0, p1, p2, p3);
    BlossomPoly(t1, t1, t1, p0, p1, p2, p3);
  }

  lemma Bernstein3Powers(p0: real, p1: real, p2: real, p3: real, t: real, k1: real, k2: real, k3: real)
    requires k1 == p1 - p0 && k2 == p2 - 2.0 * p1 + p0 && k3 == Lead(p0, p1, p2, p3)
    ensures Bernstein3(p0, p1, p2, p3, t) == p0 + k1 * (3.0 * t) + k2 * (3.0 * t * t) + k3 * (t * t * t)
  {
    Bernstein3Poly(p0, p1, p2, p3, t);
    hide Bernstein3, Lead;
  }

  /** The leading coefficient shrinks with the cube of the parameter interval. */
  lemma SubcurveLead(t0: real, t1: real, p0: real, p1: real, p2: real, p3: real, s0: real, s1: real, s2: real, s3: real)
    requires s0 == Blossom(t0, t0, t0, p0, p1, p2, p3) && s1 == Blossom(t0, t0, t1, p0, p1, p2, p3)
    requires s2 == Blossom(t0, t1, t1, p0, p1, p2, p3) && s3 == Blossom(t1, t1, t1, p0, p1, p2, p3)
    ensures Lead(s0, s1, s2, s3) == Lead(p0, p1, p2, p3) * ((t1 - t0) * (t1 - t0) * (t1 - t0))
  {
    var k1, k2, k3 := p1 - p0, p2 - 2.0 * p1 + p0, Lead(p0, p1, p2, p3);
    SubcurvePoints(t0, t1, p0, p1, p2, p3, k1, k2, k3);
    hide Blossom, Lead;
    LeadLinear(t0, t1, p0, k1, k2, k3, s0, s1, s2, s3);
  }

  lemma LeadLinear(t0: real, t1: real, k0: real, k1: real, k2: real, k3: real, s0: real, s1: real, s2: real, s3: real)
    requires s0 == k0 + k1 * (3.0 * t0) + k2 * (3.0 * t0 * t0) + k3 * (t0 * t0 * t0)
    requires s1 == k0 + k1 * (2.0 * t0 + t1) + k2 * (t0 * t0 + 2.0 * t0 * t1) + k3 * (t0 * t0 * t1)
    requires s2 == k0 + k1 * (t0 + 2.0 * t1) + k2 * (2.0 * t0 * t1 + t1 * t1) + k3 * (t0 * t1 * t1)
    requires s3 == k0 + k1 * (3.0 * t1) + k2 * (3.0 * t1 * t1) + k3 * (t1 * t1 * t1)
    ensures Lead(s0, s1, s2, s3) == k3 * ((t1 - t0) * (t1 - t0) * (t1 - t0))
  {
  }

  /** The coefficients of t and t^2 of a quadratic Bezier curve. */
  predicate Coefficients2(a: real, b: real, c: real, q1: real, q2: real)
  {
    q1 == 2.0 * b - 2.0 * a && q2 == a - 2.0 * b + c
  }

  lemma Bernstein2Poly(a: real, b: real, c: real, t: real, q1: real, q2: real)
    requires Coefficients2(a, b, c, q1, q2)
    ensures Bernstein2(a, b, c, t) == a + q1 * t + q2 * t * t
  {
  }

  /** The first half of a cubic against the quadratic that stands in for it. */
  lemma FirstHalf(s0: real, s1: real, s2: real, s3: real, p: real, w: real)
    requires w == p * p * (p - 1.0) / 8.0
    ensures var b0, b1 := 0.25 * s0 + 0.75 * s1, 0.25 * s3 + 0.75 * s2;
            var m := 0.5 * b0 + 0.5 * b1;
            Bernstein3(s0, s1, s2, s3, p * 0.5) - Bernstein2(s0, b0, m, p) == Lead(s0, s1, s2, s3) * w
  {
    hide Bernstein3, Bernstein2;
    var b0, b1 := 0.25 * s0 + 0.75 * s1, 0.25 * s3 + 0.75 * s2;
    var m := 0.5 * b0 + 0.5 * b1;
    var k3 := Lead(s0, s1, s2, s3);
    var k1, k2 := 3.0 * s1 - 3.0 * s0, 3.0 * s2 - 6.0 * s1 + 3.0 * s0;
    Bernstein3Poly(s0, s1, s2, s3, p * 0.5);
    Bernstein2Poly(s0, b0, m, p, k1 * 0.5, k2 * 0.25 + k3 * 0.125);
    hide Lead, Poly3;
    HalfPowers(s0, k1, k2, k3, p, w);
  }

  lemma HalfPowers(k0: real, k1: real, k2: real, k3: real, p: real, w: real)
    requires w == p * p * (p - 1.0) / 8.0
    ensures Poly3(k0, k1, k2, k3, p * 0.5) - (k0 + k1 * 0.5 * p + (k2 * 0.25 + k3 * 0.125) * p * p) == k3 * w
  {
  }

  lemma Reverse3(a: real, b: real, c: real, d: real, t: real, r: real)
    requires r == 1.0 - t
    ensures Bernstein3(a, b, c, d, t) == Bernstein3(d, c, b, a, r)
    ensures Lead(a, b, c, d) == -Lead(d, c, b, a)
  {
  }

  lemma Reverse2(a: real, b: real, c: real, t: real, r: real)
    requires r == 1.0 - t
    ensures Bernstein2(a, b, c, t) == Bernstein2(c, b, a, r)
  {
  }

  /** The second half, by symmetry. */
  lemma SecondHalf(s0: real, s1: real, s2: real, s3: real, p: real, q: real, w: real)
    requires q == 1.0 - p && w == q * q * (q - 1.0) / 8.0
    ensures var b0, b1 := 0.25 * s0 + 0.75 * s1, 0.25 * s3 + 0.75 * s2;
            var m := 0.5 * b0 + 0.5 * b1;
            Bernstein3(s0, s1, s2, s3, 0.5 + p * 0.5) - Bernstein2(m, b1, s3, p) == Lead(s0, s1, s2, s3) * -w
  {
    hide Bernstein3, Bernstein2, Lead;
    var b0, b1 := 0.25 * s0 + 0.75 * s1, 0.25 * s3 + 0.75 * s2;
    var m := 0.5 * b0 + 0.5 * b1;
    FirstHalf(s3, s2, s1, s0, q, w);
    Reverse3(s0, s1, s2, s3, 0.5 + p * 0.5, q * 0.5);
    Reverse2(m, b1, s3, p, q);
    assert 0.5 * b1 + 0.5 * b0 == m;
  }

  /** The deviation of a quadratic from a chord over [p, p + g], at fraction u. */
  lemma QuadChord(a: real, b: real, c: real, p: real, g: real, u: real, q: real, r: real, q1: real, q2: real)
    requires q == p + u * g && r == p + g && Coefficients2(a, b, c, q1, q2)
    ensures Bernstein2(a, b, c, q) - ((1.0 - u) * Bernstein2(a, b, c, p) + u * Bernstein2(a, b, c, r))
         == -(u * (1.0 - u) * g * g) * q2
  {
    hide Bernstein2, Coefficients2;
    Bernstein2Poly(a, b, c, q, q1, q2);
    Bernstein2Poly(a, b, c, p, q1, q2);
    Bernstein2Poly(a, b, c, r, q1, q2);
    QuadraticChord(a, q1, q2, p, g, u, q, r, Bernstein2(a, b, c, q), Bernstein2(a, b, c, p), Bernstein2(a, b, c, r));
  }

  lemma QuadraticChord(k0: real, k1: real, k2: real, p: real, g: real, u: real, q: real, r: real, x: real, y: real, z: real)
    requires q == p + u * g && r == p + g && x == k0 + k1 * q + k2 * q * q
    requires y == k0 + k1 * p + k2 * p * p && z == k0 + k1 * r + k2 * r * r
    ensures x - ((1.0 - u) * y + u * z) == -(u * (1.0 - u) * g * g) * k2
  {
  }

  lemma ProductSign(a: real, b: real, s: real)
    requires s == a * b && a >= 0.0 && b >= 0.0
    ensures s >= 0.0
  {
  }

  /** p^2 (p - 1) / 8 lies between -1/54 and 0 on the unit interval. */
  lemma BumpBound(p: real, w: real)
    requires 0.0 <= p <= 1.0 && w == p * p * (p - 1.0) / 8.0
    ensures -1.0 / 54.0 <= w <= 0.0
  {
    var s := p * p;
    SquareSign(p, s);
    ProductSign(s, 1.0 - p, s * (1.0 - p));
    assert w == -(s * (1.0 - p)) / 8.0;
    var d := p - 2.0 / 3.0;
    SquareSign(d, d * d);
    ProductSign(d * d, p + 1.0 / 3.0, d * d * (p + 1.0 / 3.0));
    assert d * d * (p + 1.0 / 3.0) == p * p * p - p * p + 4.0 / 27.0;
  }

  // ---------- the deviation of a half piece from a chord ----------

  function Bump(p: real): real
  {
    p * p * (p - 1.0) / 8.0
  }

  function Lerp1(y: real, z: real, u: real): real
  {
    (1.0 - u) * y + u * z
  }

  /** x is at fraction u of the step from p to r = p + g. */
  predicate OnChord(p: real, r: real, g: real, u: real, x: real)
  {
    r == p + g && x == p + u * g
  }

  function Parabola(u: real, g: real): real
  {
    u * (1.0 - u) * g * g
  }

  /** b and m complete the quadratic that stands in for the first half of a cubic. */
  predicate FirstQuadOf(s0: real, s1: real, s2: real, s3: real, b: real, m: real)
  {
    b == 0.25 * s0 + 0.75 * s1 && m == 0.5 * b + 0.5 * (0.25 * s3 + 0.75 * s2)
  }

  predicate SecondQuadOf(s0: real, s1: real, s2: real, s3: real, b: real, m: real)
  {
    b == 0.25 * s3 + 0.75 * s2 && m == 0.5 * (0.25 * s0 + 0.75 * s1) + 0.5 * b
  }

  lemma FirstHalfBump(s0: real, s1: real, s2: real, s3: real, b: real, m: real, p: real)
    requires FirstQuadOf(s0, s1, s2, s3, b, m)
    ensures Bernstein3(s0, s1, s2, s3, p * 0.5) == Bernstein2(s0, b, m, p) + Lead(s0, s1, s2, s3) * Bump(p)
  {
    hide Bernstein3, Bernstein2, Lead;
    FirstHalf(s0, s1, s2, s3, p, Bump(p));
  }

  lemma SecondHalfBump(s0: real, s1: real, s2: real, s3: real, b: real, m: real, p: real, w: real)
    requires SecondQuadOf(s0, s1, s2, s3, b, m) && w == -Bump(1.0 - p)
    ensures Bernstein3(s0, s1, s2, s3, 0.5 + p * 0.5) == Bernstein2(m, b, s3, p) + Lead(s0, s1, s2, s3) * w
  {
    hide Bernstein3, Bernstein2, Lead;
    SecondHalf(s0, s1, s2, s3, p, 1.0 - p, Bump(1.0 - p));
  }

  lemma ParabolaChord(a: real, b: real, c: real, p: real, g: real, u: real, x: real, r: real, q1: real, q2: real)
    requires OnChord(p, r, g, u, x) && Coefficients2(a, b, c, q1, q2)
    ensures Bernstein2(a, b, c, x) - Lerp1(Bernstein2(a, b, c, p), Bernstein2(a, b, c, r), u) == -Parabola(u, g) * q2
  {
    hide Bernstein2, Coefficients2;
    QuadChord(a, b, c, p, g, u, x, r, q1, q2);
  }

  lemma LerpSum(b0: real, b1: real, b2: real, x: real, y: real, z: real, l: real, w0: real, w1: real, w2: real, u: real)
    requires b0 == x + l * w0 && b1 == y + l * w1 && b2 == z + l * w2
    ensures b0 - Lerp1(b1, b2, u) == x - Lerp1(y, z, u) + (w0 - Lerp1(w1, w2, u)) * l
  {
  }

  /** On the first half, the deviation of the cubic from a chord is a multiple of the
      second difference of the quadratic plus a multiple of the leading coefficient. */
  lemma FirstHalfChord(s0: real, s1: real, s2: real, s3: real, b: real, m: real, q1: real, q2: real,
                       p: real, r: real, g: real, u: real, x: real)
    requires FirstQuadOf(s0, s1, s2, s3, b, m) && Coefficients2(s0, b, m, q1, q2) && OnChord(p, r, g, u, x)
    ensures Bernstein3(s0, s1, s2, s3, x * 0.5)
            - Lerp1(Bernstein3(s0, s1, s2, s3, p * 0.5), Bernstein3(s0, s1, s2, s3, r * 0.5), u)
         == -Parabola(u, g) * q2 + (Bump(x) - Lerp1(Bump(p), Bump(r), u)) * Lead(s0, s1, s2, s3)
  {
    hide Bernstein3, Bernstein2, Bump, Lead, Coefficients2, FirstQuadOf, OnChord, Lerp1, Parabola;
    FirstHalfBump(s0, s1, s2, s3, b, m, x);
    FirstHalfBump(s0, s1, s2, s3, b, m, p);
    FirstHalfBump(s0, s1, s2, s3, b, m, r);
    ParabolaChord(s0, b, m, p, g, u, x, r, q1, q2);
    LerpSum(Bernstein3(s0, s1, s2, s3, x * 0.5), Bernstein3(s0, s1, s2, s3, p * 0.5), Bernstein3(s0, s1, s2, s3, r * 0.5),
            Bernstein2(s0, b, m, x), Bernstein2(s0, b, m, p), Bernstein2(s0, b, m, r), Lead(s0, s1, s2, s3),
            Bump(x), Bump(p), Bump(r), u);
  }

  /** The same on the second half. */
  lemma SecondHalfChord(s0: real, s1: real, s2: real, s3: real, b: real, m: real, q1: real, q2: real,
                        p: real, r: real, g: real, u: real, x: real, w0: real, w1: real, w2: real)
    requires SecondQuadOf(s0, s1, s2, s3, b, m) && Coefficients2(m, b, s3, q1, q2) && OnChord(p, r, g, u, x)
    requires w0 == -Bump(1.0 - x) && w1 == -Bump(1.0 - p) && w2 == -Bump(1.0 - r)
    ensures Bernstein3(s0, s1, s2, s3, 0.5 + x * 0.5)
            - Lerp1(Bernstein3(s0, s1, s2, s3, 0.5 + p * 0.5), Bernstein3(s0, s1, s2, s3, 0.5 + r * 0.5), u)
         == -Parabola(u, g) * q2 + (w0 - Lerp1(w1, w2, u)) * Lead(s0, s1, s2, s3)
  {
    hide Bernstein3, Bernstein2, Bump, Lead, Coefficients2, SecondQuadOf, OnChord, Lerp1, Parabola;
    SecondHalfBump(s0, s1, s2, s3, b, m, x, w0);
    SecondHalfBump(s0, s1, s2, s3, b, m, p, w1);
    SecondHalfBump(s0, s1, s2, s3, b, m, r, w2);
    ParabolaChord(m, b, s3, p, g, u, x, r, q1, q2);
    LerpSum(Bernstein3(s0, s1, s2, s3, 0.5 + x * 0.5), Bernstein3(s0, s1, s2, s3, 0.5 + p * 0.5),
            Bernstein3(s0, s1, s2, s3, 0.5 + r * 0.5), Bernstein2(m, b, s3, x), Bernstein2(m, b, s3, p),
            Bernstein2(m, b, s3, r), Lead(s0, s1, s2, s3), w0, w1, w2, u);
  }

  lemma LerpRange(x: real, y: real, z: real, u: real, lo: real, hi: real)
    requires lo <= x <= hi && lo <= y <= hi && lo <= z <= hi && 0.0 <= u <= 1.0
    ensures lo - hi <= x - Lerp1(y, z, u) <= hi - lo
  {
    ProductSign(1.0 - u, y - lo, (1.0 - u) * (y - lo));
    ProductSign(u, z - lo, u * (z - lo));
    ProductSign(1.0 - u, hi - y, (1.0 - u) * (hi - y));
    ProductSign(u, hi - z, u * (hi - z));
  }

  lemma BumpRange(p: real)
    requires 0.0 <= p <= 1.0
    ensures -1.0 / 54.0 <= Bump(p) <= 0.0
  {
    BumpBound(p, Bump(p));
  }

  /** The bump and its chord differ by at most its height. */
  lemma BumpChord(x: real, y: real, z: real, u: real)
    requires 0.0 <= x <= 1.0 && 0.0 <= y <= 1.0 && 0.0 <= z <= 1.0 && 0.0 <= u <= 1.0
    ensures -1.0 / 54.0 <= Bump(x) - Lerp1(Bump(y), Bump(z), u) <= 1.0 / 54.0
    ensures -1.0 / 54.0 <= (-Bump(x)) - Lerp1(-Bump(y), -Bump(z), u) <= 1.0 / 54.0
  {
    hide Bump, Lerp1;
    BumpRange(x);
    BumpRange(y);
    BumpRange(z);
    LerpRange(Bump(x), Bump(y), Bump(z), u, -1.0 / 54.0, 0.0);
    LerpRange(-Bump(x), -Bump(y), -Bump(z), u, 0.0, 1.0 / 54.0);
  }

  /** u (1 - u) g^2 is at most a quarter of the squared step. */
  lemma ParabolaBound(u: real, g: real, s: real)
    requires 0.0 <= u <= 1.0 && 0.0 <= g && s == Parabola(u, g)
    ensures 0.0 <= s <= g * g / 4.0
  {
    var v, q := u * (1.0 - u), g * g;
    SquareSign(g, q);
    ProductSign(u, 1.0 - u, v);
    SquareSign(u - 0.5, (u - 0.5) * (u - 0.5));
    assert v <= 0.25;
    ProductSign(v, q, v * q);
    ProductSign(0.25 - v, q, (0.25 - v) * q);
    assert s == v * q;
  }
}
