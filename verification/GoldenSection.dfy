/** golden_section_search of Utils.hpp. */
module GoldenSection {
  import opened RealArith

  function Power(x: real, n: nat): real
  {
    if n == 0 then 1.0 else Power(x, n - 1) * x
  }

  /** f falls strictly up to x and rises strictly from there. */
  ghost predicate Unimodal(f: real -> real, a: real, b: real, x: real)
  {
    && a <= x <= b
    && (forall s: real, t: real :: a <= s < t <= x ==> f(s) > f(t))
    && (forall s: real, t: real :: x <= s < t <= b ==> f(s) < f(t))
  }

  /** `phi` is the inverse golden ratio, (sqrt(5) - 1) / 2. */
  ghost predicate Golden(phi: real)
  {
    phi > 0.0 && phi * phi + phi == 1.0
  }

  /** `n` is the number of steps: the least with h * phi^n <= tol, as the ceiling of the logarithm gives. */
  ghost predicate Steps(phi: real, h: real, tol: real, n: nat)
  {
    n >= 1 && h * Power(phi, n) <= tol && h * Power(phi, n - 1) > tol
  }

  /** The probes divide [a, a + h] in the golden ratio. */
  ghost predicate Probes(phi: real, a: real, b: real, c: real, d: real, h: real)
  {
    h > 0.0 && b == a + h && c == a + (1.0 - phi) * h && d == a + phi * h
  }

  lemma PhiRange(phi: real)
    requires Golden(phi)
    ensures 0.5 < phi < 1.0
  {
    SquareSign(phi, phi * phi);
    ProductPositive(phi, phi, phi * phi);
    if phi <= 0.5 {
      SquareMono(phi, 0.5);
    }
  }

  lemma ProbesOrder(phi: real, a: real, b: real, c: real, d: real, h: real)
    requires Golden(phi) && Probes(phi, a, b, c, d, h)
    ensures a < c < d < b && d - a == phi * h && b - c == phi * h
  {
    PhiRange(phi);
    ProductPositive(1.0 - phi, h, (1.0 - phi) * h);
    ProductPositive(phi - 0.5, h, (phi - 0.5) * h);
  }

  /** Keeping the left part: the left probe becomes the right one. */
  lemma KeepLeft(phi: real, a: real, b: real, c: real, d: real, h: real, g: real, e: real)
    requires Golden(phi) && Probes(phi, a, b, c, d, h) && g == phi * h && e == a + (1.0 - phi) * g
    ensures Probes(phi, a, d, e, c, g)
  {
    ProductPositive(phi, h, g);
    assert phi * g == phi * phi * h;
    assert phi * phi == 1.0 - phi;
  }

  /** Keeping the right part: the right probe becomes the left one. */
  lemma KeepRight(phi: real, a: real, b: real, c: real, d: real, h: real, g: real, e: real)
    requires Golden(phi) && Probes(phi, a, b, c, d, h) && g == phi * h && e == c + phi * g
    ensures Probes(phi, c, b, d, e, g)
  {
    ProductPositive(phi, h, g);
    assert phi * g == phi * phi * h;
    assert phi * phi == 1.0 - phi;
  }

  /** The part with the smaller probe has the minimiser. */
  lemma Narrows(f: real -> real, a0: real, b0: real, x: real, a: real, b: real, c: real, d: real)
    requires Unimodal(f, a0, b0, x) && a0 <= a <= x <= b <= b0 && a < c < d < b
    ensures if f(c) < f(d) then x <= d else c <= x
  {
    assert x > d ==> f(c) > f(d);
    assert x < c ==> f(c) < f(d);
  }

  /** golden_section_search */
  method GoldenSectionSearch(f: real -> real, a0: real, b0: real, tol: real, phi: real, n: nat) returns (r: real)
    requires Golden(phi) && tol > 0.0 && (b0 - a0 > tol ==> Steps(phi, b0 - a0, tol, n))
    ensures b0 - a0 <= tol ==> r == (a0 + b0) / 2.0
    ensures forall x: real :: Unimodal(f, a0, b0, x) ==> -tol / 2.0 <= r - x <= tol / 2.0
  {
    hide Unimodal, Golden, Probes, Power, Holds, Steps, Length;
    var a, b := a0, b0;
    var h := b - a;
    MinimiserInside(f, a0, b0);
    if h <= tol {
      Middle(f, a0, b0, a, b, tol);
      return 0.5 * (a + b);
    }
    StepsPositive(phi, h, tol, n);
    var c, d := a + (1.0 - phi) * h, a + phi * h;
    var yc, yd := f(c), f(d);
    FirstProbes(phi, a, b, c, d, h);
    var k := 0;
    while k < n - 1
      invariant 0 <= k <= n - 1 && Probes(phi, a, b, c, d, h) && yc == f(c) && yd == f(d)
      invariant a0 <= a && b <= b0 && Length(b0 - a0, phi, k, h) && Holds(f, a0, b0, a, b)
    {
      a, b, c, d, yc, yd, h := Narrow(f, a0, b0, phi, a, b, c, d, yc, yd, h, b0 - a0, k);
      k := k + 1;
    }
    NarrowsAll(f, a0, b0, phi, a, b, c, d, h);
    LastLength(phi, b0 - a0, tol, n, h, d - a, b - c);
    if yc < yd {
      Middle(f, a0, b0, a, d, tol);
      return 0.5 * (a + d);
    }
    Middle(f, a0, b0, c, b, tol);
    return 0.5 * (c + b);
  }

  /** The body of the loop. */
  method Narrow(f: real -> real, ghost a0: real, ghost b0: real, phi: real, a: real, b: real, c: real, d: real, yc: real, yd: real, h: real,
                ghost h0: real, ghost k: nat)
    returns (a': real, b': real, c': real, d': real, yc': real, yd': real, h': real)
    requires Golden(phi) && Probes(phi, a, b, c, d, h) && yc == f(c) && yd == f(d) && a0 <= a && b <= b0 && Holds(f, a0, b0, a, b)
    requires Length(h0, phi, k, h)
    ensures Probes(phi, a', b', c', d', h') && yc' == f(c') && yd' == f(d') && a0 <= a' && b' <= b0 && Holds(f, a0, b0, a', b')
    ensures Length(h0, phi, k + 1, h')
  {
    hide Unimodal, Golden, Probes, Power, Holds, Length;
    NarrowsAll(f, a0, b0, phi, a, b, c, d, h);
    h' := phi * h;
    PowerStep(h0, phi, k, h, h');
    if yc < yd {
      a', b', d', yd' := a, d, c, yc;
      c' := a' + (1.0 - phi) * h';
      KeepLeft(phi, a, b, c, d, h, h', c');
      yc' := f(c');
    } else {
      a', b', c', yc' := c, b, d, yd;
      d' := a' + phi * h';
      KeepRight(phi, a, b, c, d, h, h', d');
      yd' := f(d');
    }
  }

  /** The length after k steps. */
  ghost predicate Length(h0: real, phi: real, k: nat, h: real)
  {
    h == h0 * Power(phi, k)
  }

  /** The minimiser is in [a, b]. */
  ghost predicate Holds(f: real -> real, a0: real, b0: real, a: real, b: real)
  {
    forall x: real :: Unimodal(f, a0, b0, x) ==> a <= x <= b
  }

  lemma Middle(f: real -> real, a0: real, b0: real, a: real, b: real, tol: real)
    requires Holds(f, a0, b0, a, b) && b - a <= tol
    ensures 0.5 * (a + b) == (a + b) / 2.0
    ensures forall x: real :: Unimodal(f, a0, b0, x) ==> -tol / 2.0 <= 0.5 * (a + b) - x <= tol / 2.0
  {
    hide Unimodal;
  }

  lemma StepsPositive(phi: real, h: real, tol: real, n: nat)
    requires Steps(phi, h, tol, n)
    ensures n >= 1 && Length(h, phi, 0, h)
  {
  }

  lemma LastLength(phi: real, h: real, tol: real, n: nat, g: real, left: real, right: real)
    requires Steps(phi, h, tol, n) && Length(h, phi, n - 1, g) && left == phi * g && right == phi * g
    ensures left <= tol && right <= tol
  {
    PowerStep(h, phi, n - 1, g, left);
  }

  lemma FirstProbes(phi: real, a: real, b: real, c: real, d: real, h: real)
    requires h > 0.0 && h == b - a && c == a + (1.0 - phi) * h && d == a + phi * h
    ensures Probes(phi, a, b, c, d, h)
  {
  }

  lemma MinimiserInside(f: real -> real, a0: real, b0: real)
    ensures Holds(f, a0, b0, a0, b0)
  {
  }

  lemma PowerStep(h0: real, phi: real, k: nat, h: real, g: real)
    requires Length(h0, phi, k, h) && g == phi * h
    ensures Length(h0, phi, k + 1, g)
  {
    Reassociate(h0, Power(phi, k), phi, h);
  }

  lemma Reassociate(a: real, b: real, c: real, h: real)
    requires h == a * b
    ensures c * h == a * (b * c)
  {
  }

  lemma NarrowsAll(f: real -> real, a0: real, b0: real, phi: real, a: real, b: real, c: real, d: real, h: real)
    requires Golden(phi) && Probes(phi, a, b, c, d, h) && a0 <= a && b <= b0
    requires Holds(f, a0, b0, a, b)
    ensures if f(c) < f(d) then Holds(f, a0, b0, a, d) else Holds(f, a0, b0, c, b)
    ensures a < c < d < b && d - a == phi * h && b - c == phi * h
  {
    hide Unimodal;
    ProbesOrder(phi, a, b, c, d, h);
    forall x: real | Unimodal(f, a0, b0, x)
      ensures if f(c) < f(d) then a <= x <= d else c <= x <= b
    {
      Narrows(f, a0, b0, x, a, b, c, d);
    }
  }
}
