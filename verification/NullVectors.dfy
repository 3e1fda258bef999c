/** Null vectors of real matrices: what it means for a matrix to be singular, and
    that a matrix with more columns than rows always has one. */
module NullVectors {
  import opened Matrix
  import opened RealSum

  ghost predicate NonZero(x: seq<real>)
  {
    exists k :: 0 <= k < |x| && x[k] != 0.0
  }

  /** The first `rows` rows of `a`, over n columns, send x to zero. */
  ghost predicate Annihilates(a: Mat, rows: nat, n: nat, x: seq<real>)
  {
    |x| == n && forall i :: 0 <= i < rows ==> Dot(a, Column(x), n, i, 0) == 0.0
  }

  /** Some nonzero vector is sent to zero. */
  ghost predicate Singular(a: Mat, rows: nat, n: nat)
  {
    exists x: seq<real> :: NonZero(x) && Annihilates(a, rows, n, x)
  }

  lemma DotUpdate(a: Mat, n: nat, y: seq<real>, c: nat, v: real, i: int)
    requires c < n && |y| == n && y[c] == 0.0
    ensures Dot(a, Column(y[c := v]), n, i, 0) == Dot(a, Column(y), n, i, 0) + a(i, c) * v
  {
    var x := y[c := v];
    var d := k => if k == c then a(i, c) * v else 0.0;
    SumOne(n, c, d);
    SumAdd(n, Term(a, Column(y), i, 0), d, Term(a, Column(x), i, 0));
  }

  /** Row i of `a` less a multiple of the pivot row. */
  function Eliminate(a: Mat, pivot: int, c: int): Mat
    requires a(pivot, c) != 0.0
  {
    (i, k) => if a(pivot, c) == 0.0 then 0.0 else a(i, k) - a(i, c) / a(pivot, c) * a(pivot, k)
  }

  function Scaled(q: real, f: int -> real): int -> real
  {
    k => q * f(k)
  }

  lemma DotEliminate(a: Mat, pivot: int, c: int, n: nat, y: Mat, i: int)
    requires a(pivot, c) != 0.0
    ensures Dot(Eliminate(a, pivot, c), y, n, i, 0)
         == Dot(a, y, n, i, 0) - a(i, c) / a(pivot, c) * Dot(a, y, n, pivot, 0)
  {
    DotCombine(Eliminate(a, pivot, c), a, n, y, i, pivot, a(i, c) / a(pivot, c));
  }

  lemma DotCombine(e: Mat, a: Mat, n: nat, y: Mat, i: int, r: int, q: real)
    requires forall k :: 0 <= k < n ==> e(i, k) == a(i, k) - q * a(r, k)
    ensures Dot(e, y, n, i, 0) == Dot(a, y, n, i, 0) - q * Dot(a, y, n, r, 0)
  {
    hide Sum;
    var f, g, h := Term(a, y, i, 0), Term(a, y, r, 0), Scaled(-q, Term(a, y, r, 0));
    SumScale(n, -q, g, h);
    forall k | 0 <= k < n
      ensures Term(e, y, i, 0)(k) == f(k) + h(k)
    {
      EliminateTerm(a(i, k), q, a(r, k), y(k, 0));
    }
    SumAdd(n, f, h, Term(e, y, i, 0));
  }

  lemma EliminateTerm(u: real, q: real, v: real, y: real)
    ensures (u - q * v) * y == u * y + -q * (v * y)
  {
  }

  ghost predicate Distinct(s: seq<int>, n: int)
  {
    && (forall i :: 0 <= i < |s| ==> 0 <= s[i] < n)
    && (forall i, j :: 0 <= i < j < |s| ==> s[i] != s[j])
  }

  /** With more free columns than rows there is a null vector on those columns. */
  lemma {:induction false} NullOn(a: Mat, rows: nat, n: nat, free: seq<int>) returns (x: seq<real>)
    requires Distinct(free, n) && |free| > rows
    ensures NonZero(x) && Annihilates(a, rows, n, x)
    ensures forall k :: 0 <= k < n && k !in free ==> x[k] == 0.0
    decreases rows
  {
    if rows == 0 {
      var c := free[0];
      x := seq(n, k => if k == c then 1.0 else 0.0);
      assert x[c] != 0.0;
    } else {
      var r := rows - 1;
      if t :| 0 <= t < |free| && a(r, free[t]) != 0.0 {
        var c, rest := free[t], free[..t] + free[t + 1..];
        var y := NullOn(Eliminate(a, r, c), r, n, rest);
        x := NullExtend(a, r, n, c, y);
        assert forall k :: k in rest ==> k in free;
        assert c in free;
      } else {
        x := NullOn(a, r, n, free);
        ZeroTerms(a, r, n, free, x);
      }
    }
  }

  lemma ZeroTerms(a: Mat, r: nat, n: nat, free: seq<int>, x: seq<real>)
    requires |x| == n && (forall k :: 0 <= k < n && k !in free ==> x[k] == 0.0)
    requires forall t :: 0 <= t < |free| ==> a(r, free[t]) == 0.0
    ensures Dot(a, Column(x), n, r, 0) == 0.0
  {
    SumZero(n, Term(a, Column(x), r, 0));
  }

  lemma NullExtend(a: Mat, r: nat, n: nat, c: nat, y: seq<real>) returns (x: seq<real>)
    requires c < n && a(r, c) != 0.0 && |y| == n && y[c] == 0.0
    requires NonZero(y) && Annihilates(Eliminate(a, r, c), r, n, y)
    ensures NonZero(x) && Annihilates(a, r + 1, n, x)
    ensures forall k :: 0 <= k < n && k != c ==> x[k] == y[k]
  {
    var d := Dot(a, Column(y), n, r, 0);
    var v := -(d / a(r, c));
    x := y[c := v];
    var w :| 0 <= w < n && y[w] != 0.0;
    assert x[w] != 0.0;
    forall i | 0 <= i < r + 1
      ensures Dot(a, Column(x), n, i, 0) == 0.0
    {
      DotUpdate(a, n, y, c, v, i);
      if i < r {
        DotEliminate(a, r, c, n, Column(y), i);
        QuotientSwap(a(i, c), a(r, c), d);
      }
    }
  }

  lemma QuotientSwap(u: real, p: real, d: real)
    requires p != 0.0
    ensures u / p * d == u * (d / p)
  {
  }

  function UpTo(n: nat): (s: seq<int>)
    ensures |s| == n && Distinct(s, n)
  {
    seq(n, i => i)
  }

  /** A matrix with more columns than rows is singular. */
  lemma WideSingular(a: Mat, rows: nat, n: nat)
    requires rows < n
    ensures Singular(a, rows, n)
  {
    var x := NullOn(a, rows, n, UpTo(n));
  }

  function DropRow(a: Mat, z: int): Mat
  {
    (i, j) => if i < z then a(i, j) else a(i + 1, j)
  }

  lemma DropRowDot(a: Mat, z: int, y: Mat, n: nat, i: int)
    ensures Dot(a, y, n, if i < z then i else i + 1, 0) == Dot(DropRow(a, z), y, n, i, 0)
  {
    SumEq(n, Term(a, y, if i < z then i else i + 1, 0), Term(DropRow(a, z), y, i, 0));
  }

  /** A square matrix with a row of zeros is singular. */
  lemma ZeroRowSingular(a: Mat, n: nat, z: nat)
    requires z < n && forall j :: 0 <= j < n ==> a(z, j) == 0.0
    ensures Singular(a, n, n)
  {
    hide Dot, DropRow, NonZero;
    var x := NullOn(DropRow(a, z), n - 1, n, UpTo(n));
    forall i | 0 <= i < n
      ensures Dot(a, Column(x), n, i, 0) == 0.0
    {
      DropRowNull(a, n, z, x, i);
    }
  }

  lemma DropRowNull(a: Mat, n: nat, z: nat, x: seq<real>, i: nat)
    requires z < n && i < n && (forall j :: 0 <= j < n ==> a(z, j) == 0.0)
    requires Annihilates(DropRow(a, z), n - 1, n, x)
    ensures Dot(a, Column(x), n, i, 0) == 0.0
  {
    hide Dot, DropRow;
    if i == z {
      ZeroRowDot(a, n, z, Column(x));
    } else {
      var k := if i < z then i else i - 1;
      DropRowDot(a, z, Column(x), n, k);
      assert Dot(DropRow(a, z), Column(x), n, k, 0) == 0.0;
    }
  }

  lemma ZeroRowDot(a: Mat, n: nat, z: nat, y: Mat)
    requires forall j :: 0 <= j < n ==> a(z, j) == 0.0
    ensures Dot(a, y, n, z, 0) == 0.0
  {
    SumZero(n, Term(a, y, z, 0));
  }

  // ---------- permutations ----------

  function Below(n: nat): (s: set<int>)
    ensures forall i :: i in s <==> 0 <= i < n
    ensures |s| == n
  {
    if n == 0 then {} else Below(n - 1) + {n - 1}
  }

  lemma SubsetSize(a: set<int>, b: set<int>)
    requires a <= b
    ensures |a| <= |b|
  {
    assert a + (b - a) == b;
  }

  lemma {:induction false} PrefixValues(p: seq<int>, k: nat) returns (s: set<int>)
    requires k <= |p| && forall i, j :: 0 <= i < j < |p| ==> p[i] != p[j]
    ensures |s| == k
    ensures forall i :: 0 <= i < k ==> p[i] in s
    ensures forall v :: v in s ==> v in p[..k]
  {
    if k == 0 {
      s := {};
    } else {
      var t := PrefixValues(p, k - 1);
      s := t + {p[k - 1]};
      forall v | v in s
        ensures v in p[..k]
      {
        if v in t {
          var i :| 0 <= i < k - 1 && p[..k - 1][i] == v;
          assert p[..k][i] == v;
        } else {
          assert p[..k][k - 1] == v;
        }
      }
      assert p[k - 1] !in t;
    }
  }

  /** An injective list of n values below n takes every value. */
  lemma PermOnto(p: seq<int>, n: nat, v: nat) returns (i: nat)
    requires |p| == n && v < n
    requires forall i :: 0 <= i < n ==> 0 <= p[i] < n
    requires forall i, j :: 0 <= i < j < n ==> p[i] != p[j]
    ensures i < n && p[i] == v
  {
    var s := PrefixValues(p, n);
    assert p[..n] == p;
    if v !in s {
      assert s <= Below(n) - {v};
      SubsetSize(s, Below(n) - {v});
    }
    i :| 0 <= i < n && p[i] == v;
  }
}
