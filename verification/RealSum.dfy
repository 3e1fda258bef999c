/** Finite sums of reals. */
module RealSum {

  /** f(0) + ... + f(n - 1) */
  function Sum(n: nat, f: int -> real): real
  {
    if n == 0 then 0.0 else Sum(n - 1, f) + f(n - 1)
  }

  lemma {:induction false} SumEq(n: nat, f: int -> real, g: int -> real)
    requires forall i :: 0 <= i < n ==> f(i) == g(i)
    ensures Sum(n, f) == Sum(n, g)
  {
    if n > 0 {
      SumEq(n - 1, f, g);
    }
  }

  lemma {:induction false} SumAdd(n: nat, f: int -> real, g: int -> real, h: int -> real)
    requires forall i :: 0 <= i < n ==> h(i) == f(i) + g(i)
    ensures Sum(n, h) == Sum(n, f) + Sum(n, g)
  {
    if n > 0 {
      SumAdd(n - 1, f, g, h);
    }
  }

  lemma {:induction false} SumScale(n: nat, c: real, f: int -> real, h: int -> real)
    requires forall i :: 0 <= i < n ==> h(i) == c * f(i)
    ensures Sum(n, h) == c * Sum(n, f)
  {
    if n > 0 {
      SumScale(n - 1, c, f, h);
      Distribute(c, Sum(n - 1, f), f(n - 1));
    }
  }

  lemma Distribute(c: real, x: real, y: real)
    ensures c * (x + y) == c * x + c * y
  {
  }

  /** Terms from m on are zero. */
  lemma {:induction false} SumShort(n: nat, m: nat, f: int -> real)
    requires m <= n && forall i :: m <= i < n ==> f(i) == 0.0
    ensures Sum(n, f) == Sum(m, f)
  {
    if m < n {
      SumShort(n - 1, m, f);
    }
  }

  lemma SumZero(n: nat, f: int -> real)
    requires forall i :: 0 <= i < n ==> f(i) == 0.0
    ensures Sum(n, f) == 0.0
  {
    SumShort(n, 0, f);
  }

  /** All terms but one are zero. */
  lemma {:induction false} SumOne(n: nat, k: nat, f: int -> real)
    requires k < n && forall i :: 0 <= i < n && i != k ==> f(i) == 0.0
    ensures Sum(n, f) == f(k)
  {
    SumShort(n, k + 1, f);
    SumZero(k, f);
  }

  lemma {:induction false} SumNonNegative(n: nat, f: int -> real)
    requires forall i :: 0 <= i < n ==> f(i) >= 0.0
    ensures Sum(n, f) >= 0.0
    ensures forall i :: 0 <= i < n ==> f(i) <= Sum(n, f)
  {
    if n > 0 {
      SumNonNegative(n - 1, f);
    }
  }

  /** The first term apart. */
  lemma {:induction false} SumFirst(n: nat, f: int -> real, g: int -> real)
    requires forall i :: 0 <= i < n ==> g(i) == f(i + 1)
    ensures Sum(n + 1, f) == f(0) + Sum(n, g)
  {
    if n > 0 {
      SumFirst(n - 1, f, g);
    }
  }

  function RowSums(n: nat, f: (int, int) -> real): int -> real
  {
    i => Sum(n, j => f(i, j))
  }

  function ColumnSums(n: nat, f: (int, int) -> real): int -> real
  {
    j => Sum(n, i => f(i, j))
  }

  /** The two orders of a double sum agree. */
  lemma {:induction false} SumSwap(n: nat, m: nat, f: (int, int) -> real)
    ensures Sum(n, RowSums(m, f)) == Sum(m, ColumnSums(n, f))
  {
    if n == 0 {
      SumZero(m, ColumnSums(0, f));
    } else {
      SumSwap(n - 1, m, f);
      var g := j => f(n - 1, j);
      assert RowSums(m, f)(n - 1) == Sum(m, g);
      forall j | 0 <= j < m
        ensures ColumnSums(n, f)(j) == ColumnSums(n - 1, f)(j) + g(j)
      {
        ColumnStep(n, f, j);
      }
      SumAdd(m, ColumnSums(n - 1, f), g, ColumnSums(n, f));
    }
  }

  lemma ColumnStep(n: nat, f: (int, int) -> real, j: int)
    requires n > 0
    ensures ColumnSums(n, f)(j) == ColumnSums(n - 1, f)(j) + f(n - 1, j)
  {
    var h := i => f(i, j);
    assert ColumnSums(n, f)(j) == Sum(n, h);
    assert ColumnSums(n - 1, f)(j) == Sum(n - 1, h);
  }
}
