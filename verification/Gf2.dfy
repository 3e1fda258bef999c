/** Polynomials over GF(2) as bit strings, highest power first: products, division
    by a monic generator with a shift register, and the span of a multiple. */
module Gf2 {

  function Zeros(n: nat): (z: seq<bool>)
    ensures |z| == n && forall i :: 0 <= i < n ==> !z[i]
  {
    seq(n, _ => false)
  }

  function Xor(a: seq<bool>, b: seq<bool>): (c: seq<bool>)
    requires |a| == |b|
    ensures |c| == |a| && forall i :: 0 <= i < |a| ==> c[i] == (a[i] != b[i])
  {
    seq(|a|, i requires 0 <= i < |a| => a[i] != b[i])
  }

  /** The product of two polynomials, by Horner's rule on the first. */
  function Times(q: seq<bool>, g: seq<bool>): (p: seq<bool>)
    requires |g| > 0
    ensures |p| == |q| + |g| - 1
  {
    if |q| == 0 then Zeros(|g| - 1)
    else
      var n := |q| - 1;
      Xor(Times(q[..n], g) + [false], if q[n] then Zeros(n) + g else Zeros(n + |g|))
  }

  /** `r`, of lower degree than `g`, is what remains of `p` after division by `g`. */
  ghost predicate IsRemainder(p: seq<bool>, g: seq<bool>, r: seq<bool>)
    requires |g| > 0
  {
    && |r| == |g| - 1 <= |p|
    && exists q: seq<bool> {:trigger Times(q, g)} ::
         |q| + |r| == |p| && p == Xor(Times(q, g), Zeros(|q|) + r)
  }

  ghost predicate IsMultiple(p: seq<bool>, g: seq<bool>)
    requires |g| > 0
  {
    exists q: seq<bool> :: p == Times(q, g)
  }

  // ---------- the shift register ----------

  /** x * r + b * x^d modulo g, for a register r of d bits. */
  function Step(r: seq<bool>, b: bool, g: seq<bool>): (r': seq<bool>)
    requires |r| > 0 && |g| == |r| + 1
    ensures |r'| == |r|
  {
    if r[0] == b then r[1..] + [false] else Xor(r[1..] + [false], g[1..])
  }

  /** The register after a string of bits has entered it. */
  function StepAll(r: seq<bool>, bits: seq<bool>, g: seq<bool>): (r': seq<bool>)
    requires |r| > 0 && |g| == |r| + 1
    ensures |r'| == |r|
  {
    if |bits| == 0 then r else Step(StepAll(r, bits[..|bits| - 1], g), bits[|bits| - 1], g)
  }

  function Register(bits: seq<bool>, g: seq<bool>): (r: seq<bool>)
    requires |g| > 1
    ensures |r| == |g| - 1
  {
    StepAll(Zeros(|g| - 1), bits, g)
  }

  function Quotient(bits: seq<bool>, g: seq<bool>): (q: seq<bool>)
    requires |g| > 1
    ensures |q| == |bits|
  {
    if |bits| == 0 then []
    else Quotient(bits[..|bits| - 1], g) + [Register(bits[..|bits| - 1], g)[0] != bits[|bits| - 1]]
  }

  lemma {:induction false} StepAllConcat(r: seq<bool>, a: seq<bool>, b: seq<bool>, g: seq<bool>)
    requires |r| > 0 && |g| == |r| + 1
    ensures StepAll(r, a + b, g) == StepAll(StepAll(r, a, g), b, g)
  {
    if |b| == 0 {
      assert a + b == a;
    } else {
      StepAllConcat(r, a, b[..|b| - 1], g);
      assert (a + b)[..|a + b| - 1] == a + b[..|b| - 1];
    }
  }

  lemma TimesAppend(q: seq<bool>, t: bool, g: seq<bool>)
    requires |g| > 0
    ensures Times(q + [t], g)
         == Xor(Times(q, g) + [false], if t then Zeros(|q|) + g else Zeros(|q| + |g|))
  {
    assert (q + [t])[..|q|] == q;
  }

  /** One step of long division: the register shifted left, plus the new bit at
      x^d, is the next register plus the generator when the top bits differ. */
  lemma LongDivision(r: seq<bool>, b: bool, g: seq<bool>)
    requires |r| > 0 && |g| == |r| + 1 && g[0]
    ensures Xor(r + [false], [b] + Zeros(|r|))
         == Xor(if r[0] != b then g else Zeros(|g|), [false] + Step(r, b, g))
  {
    hide Xor, Zeros;
    var l, z := Xor(r + [false], [b] + Zeros(|r|)), Xor(if r[0] != b then g else Zeros(|g|), [false] + Step(r, b, g));
    forall i | 0 <= i < |l|
      ensures l[i] == z[i]
    {
    }
  }

  lemma DivisionStep(m: seq<bool>, b: bool, p: seq<bool>, r: seq<bool>, g: seq<bool>, p': seq<bool>)
    requires |r| > 0 && |g| == |r| + 1 && g[0] && |p| == |m| + |r|
    requires m + Zeros(|r|) == Xor(p, Zeros(|m|) + r)
    requires p' == Xor(p + [false], if r[0] != b then Zeros(|m|) + g else Zeros(|m| + |g|))
    ensures m + [b] + Zeros(|r|) == Xor(p', Zeros(|m| + 1) + Step(r, b, g))
  {
    LongDivision(r, b, g);
    var st, c := Step(r, b, g), r[0] != b;
    assert SoFar(m, p, r) && NextQuotient(p, |m|, g, c, p') && NextRegister(r, b, g, c, st);
    hide Xor, Zeros, Step, SoFar, NextQuotient, NextRegister;
    var l := m + [b] + Zeros(|r|);
    var z := Xor(p', Zeros(|m| + 1) + st);
    forall i | 0 <= i < |l|
      ensures l[i] == z[i]
    {
      DivisionBit(m, b, p, r, g, p', c, st, i);
    }
  }

  /** The division so far: message, product and remainder. */
  ghost predicate SoFar(m: seq<bool>, p: seq<bool>, r: seq<bool>)
  {
    |p| == |m| + |r| && m + Zeros(|r|) == Xor(p, Zeros(|m|) + r)
  }

  /** One more bit of the quotient. */
  ghost predicate NextQuotient(p: seq<bool>, m: nat, g: seq<bool>, c: bool, p': seq<bool>)
  {
    |p| + 1 == m + |g| && p' == Xor(p + [false], if c then Zeros(m) + g else Zeros(m + |g|))
  }

  /** One step of the register. */
  ghost predicate NextRegister(r: seq<bool>, b: bool, g: seq<bool>, c: bool, st: seq<bool>)
  {
    |st| == |r| && |g| == |r| + 1 && Xor(r + [false], [b] + Zeros(|r|)) == Xor(if c then g else Zeros(|g|), [false] + st)
  }

  lemma SoFarBit(m: seq<bool>, p: seq<bool>, r: seq<bool>, i: nat)
    requires SoFar(m, p, r) && i < |p| && |p| == |m| + |r|
    ensures p[i] == if i < |m| then m[i] else r[i - |m|]
  {
    hide Xor, Zeros;
    assert (m + Zeros(|r|))[i] == Xor(p, Zeros(|m|) + r)[i];
  }

  lemma QuotientBit(p: seq<bool>, m: nat, g: seq<bool>, c: bool, p': seq<bool>, i: nat)
    requires NextQuotient(p, m, g, c, p') && i < m + |g| && |p| + 1 == m + |g|
    ensures |p'| == |p| + 1 && p'[i] == ((i < |p| && p[i]) != (c && i >= m && g[i - m]))
  {
    hide Xor, Zeros;
  }

  lemma RegisterBit(r: seq<bool>, b: bool, g: seq<bool>, c: bool, st: seq<bool>, k: nat)
    requires NextRegister(r, b, g, c, st) && k <= |r| && |st| == |r| && |g| == |r| + 1
    ensures ((k < |r| && r[k]) != (k == 0 && b)) == ((c && g[k]) != (k > 0 && st[k - 1]))
  {
    hide Xor, Zeros;
    var u, v := Xor(r + [false], [b] + Zeros(|r|)), Xor(if c then g else Zeros(|g|), [false] + st);
    assert u[k] == v[k];
  }

  lemma MessageBit(m: seq<bool>, b: bool, n: nat, i: nat)
    requires i < |m| + 1 + n
    ensures (m + [b] + Zeros(n))[i] == if i < |m| then m[i] else i == |m| && b
  {
    hide Zeros;
  }

  lemma SumBit(p': seq<bool>, m: nat, st: seq<bool>, i: nat)
    requires |p'| == m + 1 + |st| && i < |p'|
    ensures Xor(p', Zeros(m + 1) + st)[i] == (p'[i] != (i > m && st[i - m - 1]))
  {
    hide Xor, Zeros;
  }

  lemma DivisionBit(m: seq<bool>, b: bool, p: seq<bool>, r: seq<bool>, g: seq<bool>, p': seq<bool>, c: bool, st: seq<bool>, i: nat)
    requires SoFar(m, p, r) && NextQuotient(p, |m|, g, c, p') && NextRegister(r, b, g, c, st)
    requires |p| == |m| + |r| && |st| == |r| && |g| == |r| + 1 && |p'| == |p| + 1 && i < |p'|
    ensures (m + [b] + Zeros(|r|))[i] == Xor(p', Zeros(|m| + 1) + st)[i]
  {
    hide Xor, Zeros, SoFar, NextQuotient, NextRegister;
    if i < |p| {
      SoFarBit(m, p, r, i);
    }
    QuotientBit(p, |m|, g, c, p', i);
    if i >= |m| {
      RegisterBit(r, b, g, c, st, i - |m|);
    }
    MessageBit(m, b, |r|, i);
    SumBit(p', |m|, st, i);
  }

  /** The register holds the remainder of the message times x^d. */
  ghost predicate Divides(m: seq<bool>, q: seq<bool>, r: seq<bool>, g: seq<bool>)
    requires |r| > 0 && |g| == |r| + 1 && |q| == |m|
  {
    m + Zeros(|r|) == Xor(Times(q, g), Zeros(|m|) + r)
  }

  lemma DividesStep(m: seq<bool>, b: bool, q: seq<bool>, r: seq<bool>, g: seq<bool>)
    requires |r| > 0 && |g| == |r| + 1 && g[0] && |q| == |m|
    requires Divides(m, q, r, g)
    ensures Divides(m + [b], q + [r[0] != b], Step(r, b, g), g)
  {
    TimesAppend(q, r[0] != b, g);
    hide Times, Xor, Zeros, Step;
    DivisionStep(m, b, Times(q, g), r, g, Times(q + [r[0] != b], g));
  }

  lemma {:induction false} RegisterDivides(bits: seq<bool>, g: seq<bool>)
    requires |g| > 1 && g[0]
    ensures Divides(bits, Quotient(bits, g), Register(bits, g), g)
  {
    var n := |bits| - 1;
    if n >= 0 {
      RegisterDivides(bits[..n], g);
      DividesSnoc(bits, g, n);
    } else {
      DividesNone(bits, g);
    }
  }

  lemma DividesNone(bits: seq<bool>, g: seq<bool>)
    requires |g| > 1 && |bits| == 0
    ensures Divides(bits, Quotient(bits, g), Register(bits, g), g)
  {
  }

  lemma DividesSnoc(bits: seq<bool>, g: seq<bool>, n: nat)
    requires |g| > 1 && g[0] && |bits| == n + 1 && Divides(bits[..n], Quotient(bits[..n], g), Register(bits[..n], g), g)
    ensures Divides(bits, Quotient(bits, g), Register(bits, g), g)
  {
    hide Divides, Step, Xor, Zeros;
    var q, r := Quotient(bits[..n], g), Register(bits[..n], g);
    assert Quotient(bits, g) == q + [r[0] != bits[n]] && Register(bits, g) == Step(r, bits[n], g);
    hide Quotient, Register;
    DividesStep(bits[..n], bits[n], q, r, g);
    assert bits == bits[..n] + [bits[n]];
  }

  // ---------- several bits at once ----------

  lemma StepFirst(r: seq<bool>, b: bool, y: seq<bool>, g: seq<bool>)
    requires |r| > 0 && |g| == |r| + 1
    ensures StepAll(r, [b] + y, g) == StepAll(Step(r, b, g), y, g)
  {
    StepAllConcat(r, [b], y, g);
    assert StepAll(r, [b][..0], g) == r;
  }

  lemma StepMasked(r: seq<bool>, b: bool, y: seq<bool>, g: seq<bool>)
    requires |r| > 0 && |g| == |r| + 1 && |y| < |r|
    ensures Step(Xor(r, [b] + y + Zeros(|r| - 1 - |y|)), false, g) == Xor(Step(r, b, g), y + Zeros(|r| - |y|))
  {
    hide Xor, Zeros;
    assert Step(Xor(r, [b] + y + Zeros(|r| - 1 - |y|)), false, g)[..] == Xor(Step(r, b, g), y + Zeros(|r| - |y|));
  }

  /** Bits that enter one by one can be added to the top of the register at once. */
  lemma MaskedNone(r: seq<bool>, y: seq<bool>, g: seq<bool>)
    requires |r| > 0 && |g| == |r| + 1 && |y| == 0
    ensures StepAll(r, y, g) == StepAll(Xor(r, y + Zeros(|r|)), Zeros(0), g)
  {
    assert Xor(r, y + Zeros(|r|)) == r;
  }

  lemma {:induction false} StepAllMasked(r: seq<bool>, y: seq<bool>, g: seq<bool>)
    requires |r| > 0 && |g| == |r| + 1 && |y| <= |r|
    ensures StepAll(r, y, g) == StepAll(Xor(r, y + Zeros(|r| - |y|)), Zeros(|y|), g)
    decreases |y|
  {
    hide Xor, Zeros;
    if |y| == 0 {
      MaskedNone(r, y, g);
    } else {
      hide StepAll, Step;
      var b, t := y[0], y[1..];
      var x := Xor(r, y + Zeros(|r| - |y|));
      StepFirst(r, b, t, g);
      StepAllMasked(Step(r, b, g), t, g);
      StepMasked(r, b, t, g);
      assert [b] + t == y && [b] + t + Zeros(|r| - 1 - |t|) == y + Zeros(|r| - |y|);
      StepFirst(x, false, Zeros(|t|), g);
      assert [false] + Zeros(|t|) == Zeros(|y|);
    }
  }

  lemma StepXor(a: seq<bool>, b: seq<bool>, g: seq<bool>)
    requires |a| == |b| > 0 && |g| == |a| + 1
    ensures Step(Xor(a, b), false, g) == Xor(Step(a, false, g), Step(b, false, g))
  {
    hide Xor, Zeros;
    assert Step(Xor(a, b), false, g)[..] == Xor(Step(a, false, g), Step(b, false, g));
  }

  lemma {:induction false} StepAllXor(a: seq<bool>, b: seq<bool>, n: nat, g: seq<bool>)
    requires |a| == |b| > 0 && |g| == |a| + 1
    ensures StepAll(Xor(a, b), Zeros(n), g) == Xor(StepAll(a, Zeros(n), g), StepAll(b, Zeros(n), g))
    decreases n
  {
    hide Xor, Zeros;
    if n > 0 {
      StepFirst(Xor(a, b), false, Zeros(n - 1), g);
      StepFirst(a, false, Zeros(n - 1), g);
      StepFirst(b, false, Zeros(n - 1), g);
      StepXor(a, b, g);
      StepAllXor(Step(a, false, g), Step(b, false, g), n - 1, g);
      assert [false] + Zeros(n - 1) == Zeros(n);
    }
  }

  /** Leading zeros are shifted out. */
  lemma {:induction false} StepAllZeros(low: seq<bool>, n: nat, g: seq<bool>)
    requires n + |low| > 0 && |g| == n + |low| + 1
    ensures StepAll(Zeros(n) + low, Zeros(n), g) == low + Zeros(n)
    decreases n
  {
    hide Xor, Zeros;
    if n == 0 {
      assert Zeros(0) + low == low;
    } else {
      StepFirst(Zeros(n) + low, false, Zeros(n - 1), g);
      assert [false] + Zeros(n - 1) == Zeros(n);
      assert Step(Zeros(n) + low, false, g) == Zeros(n - 1) + (low + [false]);
      StepAllZeros(low + [false], n - 1, g);
      assert low + [false] + Zeros(n - 1) == low + Zeros(n);
    }
  }

  /** Entering n bits at once: the low part moves up, and the top part plus the
      new bits is reduced on its own. */
  lemma StepAllSplit(r: seq<bool>, y: seq<bool>, g: seq<bool>, high: seq<bool>)
    requires |r| > 0 && |g| == |r| + 1 && |y| <= |r|
    requires high == Xor(r[..|y|], y) + Zeros(|r| - |y|)
    ensures StepAll(r, y, g) == Xor(r[|y|..] + Zeros(|y|), StepAll(high, Zeros(|y|), g))
  {
    hide Xor, Zeros;
    var low, x := Zeros(|y|) + r[|y|..], Xor(r, y + Zeros(|r| - |y|));
    assert StepAll(low, Zeros(|y|), g) == r[|y|..] + Zeros(|y|) by {
      StepAllZeros(r[|y|..], |y|, g);
    }
    assert x == Xor(low, high) by {
      SplitXor(r, y);
    }
    assert StepAll(r, y, g) == StepAll(x, Zeros(|y|), g) by {
      StepAllMasked(r, y, g);
    }
    StepAllSum(x, low, high, |y|, g);
  }

  lemma StepAllSum(x: seq<bool>, a: seq<bool>, b: seq<bool>, n: nat, g: seq<bool>)
    requires |a| == |b| > 0 && |g| == |a| + 1 && x == Xor(a, b)
    ensures StepAll(x, Zeros(n), g) == Xor(StepAll(a, Zeros(n), g), StepAll(b, Zeros(n), g))
  {
    StepAllXor(a, b, n, g);
  }

  lemma SplitXor(r: seq<bool>, y: seq<bool>)
    requires |y| <= |r|
    ensures Xor(r, y + Zeros(|r| - |y|)) == Xor(Zeros(|y|) + r[|y|..], Xor(r[..|y|], y) + Zeros(|r| - |y|))
  {
  }

  // ---------- multiples of the generator ----------

  ghost predicate TimesAdds(a: seq<bool>, b: seq<bool>, g: seq<bool>)
    requires |a| == |b| && |g| > 0
  {
    Times(Xor(a, b), g) == Xor(Times(a, g), Times(b, g))
  }

  lemma {:induction false} TimesXor(a: seq<bool>, b: seq<bool>, g: seq<bool>)
    requires |a| == |b| && |g| > 0
    ensures TimesAdds(a, b, g)
  {
    hide Times, TimesAdds;
    var n := |a| - 1;
    if n >= 0 {
      TimesXor(a[..n], b[..n], g);
      TimesXorStep(a[..n], b[..n], a[n], b[n], g);
      assert a == a[..n] + [a[n]] && b == b[..n] + [b[n]];
    } else {
      TimesXorEmpty(a, b, g);
    }
  }

  lemma TimesXorEmpty(a: seq<bool>, b: seq<bool>, g: seq<bool>)
    requires |a| == |b| == 0 && |g| > 0
    ensures TimesAdds(a, b, g)
  {
    assert Xor(Zeros(|g| - 1), Zeros(|g| - 1)) == Zeros(|g| - 1);
  }

  lemma TimesXorStep(a: seq<bool>, b: seq<bool>, x: bool, y: bool, g: seq<bool>)
    requires |a| == |b| && |g| > 0 && TimesAdds(a, b, g)
    ensures TimesAdds(a + [x], b + [y], g)
  {
    hide Xor, Zeros, Times;
    var n := |a|;
    assert Xor(a + [x], b + [y]) == Xor(a, b) + [x != y];
    TimesAppend(a, x, g);
    TimesAppend(b, y, g);
    TimesAppend(Xor(a, b), x != y, g);
    TermXor(n, g, x, y);
    XorAppend(Times(a, g), Times(b, g), if x then Zeros(n) + g else Zeros(n + |g|), if y then Zeros(n) + g else Zeros(n + |g|));
  }

  lemma TermXor(n: nat, g: seq<bool>, x: bool, y: bool)
    ensures Xor(if x then Zeros(n) + g else Zeros(n + |g|), if y then Zeros(n) + g else Zeros(n + |g|))
         == if x != y then Zeros(n) + g else Zeros(n + |g|)
  {
    hide Xor, Zeros;
    if x {
      if y {} else {}
    }
  }

  lemma XorAppend(p: seq<bool>, q: seq<bool>, t: seq<bool>, u: seq<bool>)
    requires |p| == |q| && |t| == |u| == |p| + 1
    ensures Xor(Xor(p, q) + [false], Xor(t, u)) == Xor(Xor(p + [false], t), Xor(q + [false], u))
  {
    hide Xor;
  }

  /** The highest power of a product with a monic polynomial. */
  lemma {:induction false} TimesLeading(q: seq<bool>, g: seq<bool>, i: nat)
    requires i < |q| && q[i] && (forall k :: 0 <= k < i ==> !q[k])
    requires |g| > 0 && g[0]
    ensures Times(q, g)[i] && forall k :: 0 <= k < i ==> !Times(q, g)[k]
  {
    hide Xor, Zeros;
    var n := |q| - 1;
    if i < n {
      TimesLeading(q[..n], g, i);
    } else {
      TimesZero(q[..n], g);
    }
  }

  lemma {:induction false} TimesZero(q: seq<bool>, g: seq<bool>)
    requires |g| > 0 && forall k :: 0 <= k < |q| ==> !q[k]
    ensures Times(q, g) == Zeros(|q| + |g| - 1)
  {
    if |q| > 0 {
      TimesZero(q[..|q| - 1], g);
    }
  }

  /** The lowest power of a product with a polynomial that has a constant term. */
  lemma {:induction false} TimesTrailing(q: seq<bool>, g: seq<bool>, j: nat)
    requires j < |q| && q[j]
    requires |g| > 0 && g[|g| - 1]
    ensures exists k :: j + |g| - 1 <= k < |q| + |g| - 1 && Times(q, g)[k]
  {
    var n := |q| - 1;
    if q[n] {
      assert Times(q, g)[n + |g| - 1];
    } else {
      TimesTrailing(q[..n], g, j);
      var k :| j + |g| - 1 <= k < n + |g| - 1 && Times(q[..n], g)[k];
      assert Times(q, g)[k];
    }
  }

  lemma {:induction false} FirstTrue(q: seq<bool>) returns (i: nat)
    ensures i <= |q| && (i < |q| ==> q[i]) && forall k :: 0 <= k < i ==> !q[k]
  {
    if |q| == 0 || q[0] {
      i := 0;
    } else {
      var j := FirstTrue(q[1..]);
      i := j + 1;
    }
  }

  /** Division leaves one remainder. */
  lemma RemainderUnique(p: seq<bool>, g: seq<bool>, r: seq<bool>, s: seq<bool>)
    requires |g| > 0 && g[0] && IsRemainder(p, g, r) && IsRemainder(p, g, s)
    ensures r == s
  {
    hide Xor, Zeros;
    var a :| |a| + |r| == |p| && p == Xor(Times(a, g), Zeros(|a|) + r);
    var b :| |b| + |s| == |p| && p == Xor(Times(b, g), Zeros(|b|) + s);
    TimesXor(a, b, g);
    RemainderDifference(Times(a, g), Times(b, g), |a|, r, s);
    var d := Xor(a, b);
    var i := FirstTrue(d);
    if i < |d| {
      TimesLeading(d, g, i);
    } else {
      TimesZero(d, g);
      forall k | 0 <= k < |r|
        ensures r[k] == s[k]
      {
        assert !Times(d, g)[|a| + k];
      }
    }
  }

  lemma RemainderDifference(p: seq<bool>, q: seq<bool>, n: nat, r: seq<bool>, s: seq<bool>)
    requires |r| == |s| && |p| == |q| == n + |r|
    requires Xor(p, Zeros(n) + r) == Xor(q, Zeros(n) + s)
    ensures forall k :: 0 <= k < n ==> !Xor(p, q)[k]
    ensures forall k :: 0 <= k < |r| ==> Xor(p, q)[n + k] == (r[k] != s[k])
  {
    forall k | 0 <= k < n + |r|
      ensures Xor(p, q)[k] == (k >= n && r[k - n] != s[k - n])
    {
      assert Xor(p, Zeros(n) + r)[k] == Xor(q, Zeros(n) + s)[k];
    }
  }

  /** A nonzero multiple of a generator with a constant term spans more than its degree. */
  lemma MultipleSpan(p: seq<bool>, g: seq<bool>, start: nat, len: nat)
    requires |g| > 0 && g[0] && g[|g| - 1] && IsMultiple(p, g)
    requires start + len <= |p| && len < |g|
    requires forall k :: 0 <= k < |p| && p[k] ==> start <= k < start + len
    ensures p == Zeros(|p|)
  {
    var q :| p == Times(q, g);
    var i := FirstTrue(q);
    if i < |q| {
      TimesLeading(q, g, i);
      TimesTrailing(q, g, i);
    } else {
      TimesZero(q, g);
    }
  }

  lemma MultipleXor(a: seq<bool>, b: seq<bool>, g: seq<bool>)
    requires |a| == |b| && |g| > 0 && IsMultiple(a, g) && IsMultiple(b, g)
    ensures IsMultiple(Xor(a, b), g)
  {
    var p :| a == Times(p, g);
    var q :| b == Times(q, g);
    TimesXor(p, q, g);
  }

  /** A message followed by its remainder is a multiple of the generator, and nothing
      else of that form is. */
  lemma CodewordMultiple(m: seq<bool>, r: seq<bool>, g: seq<bool>)
    requires |g| > 1 && g[0] && |r| == |g| - 1
    ensures IsMultiple(m + r, g) <==> r == Register(m, g)
  {
    hide Xor, Zeros;
    var s, t := Register(m, g), Quotient(m, g);
    RegisterDivides(m, g);
    assert IsRemainder(m + Zeros(|r|), g, s);
    forall q: seq<bool> | |q| == |m|
      ensures m + r == Times(q, g) <==> m + Zeros(|r|) == Xor(Times(q, g), Zeros(|m|) + r)
    {
      XorTail(m, r, Times(q, g));
    }
    if r == s {
      assert m + r == Times(t, g);
    }
    if IsMultiple(m + r, g) {
      var q :| m + r == Times(q, g);
      assert |q| == |m|;
      assert IsRemainder(m + Zeros(|r|), g, r);
      RemainderUnique(m + Zeros(|r|), g, r, s);
    }
  }

  lemma XorTail(m: seq<bool>, r: seq<bool>, p: seq<bool>)
    requires |p| == |m| + |r|
    ensures m + r == p <==> m + Zeros(|r|) == Xor(p, Zeros(|m|) + r)
  {
    var l, z := m + Zeros(|r|), Xor(p, Zeros(|m|) + r);
    if m + r == p {
      assert l == z;
    }
    if l == z {
      forall k | 0 <= k < |p|
        ensures p[k] == (m + r)[k]
      {
        assert l[k] == z[k];
      }
    }
  }

  /** Remainders add up. */
  lemma RegisterXor(a: seq<bool>, b: seq<bool>, g: seq<bool>)
    requires |a| == |b| && |g| > 1 && g[0]
    ensures Register(Xor(a, b), g) == Xor(Register(a, g), Register(b, g))
  {
    CodewordXor(a, b, Register(a, g), Register(b, g), g);
    CodewordMultiple(Xor(a, b), Xor(Register(a, g), Register(b, g)), g);
  }

  lemma CodewordXor(a: seq<bool>, b: seq<bool>, r: seq<bool>, s: seq<bool>, g: seq<bool>)
    requires |a| == |b| && |g| > 1 && g[0] && r == Register(a, g) && s == Register(b, g)
    ensures IsMultiple(Xor(a, b) + Xor(r, s), g)
  {
    CodewordMultiple(a, r, g);
    CodewordMultiple(b, s, g);
    MultipleXor(a + r, b + s, g);
    XorConcat(a, b, r, s);
  }

  lemma XorConcat(a: seq<bool>, b: seq<bool>, r: seq<bool>, s: seq<bool>)
    requires |a| == |b| && |r| == |s|
    ensures Xor(a + r, b + s) == Xor(a, b) + Xor(r, s)
  {
  }
}
