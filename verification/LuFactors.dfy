/** The state of Crout's factorisation with row exchanges, and how each step of
    ludcmp (rtkcmn.c) moves it on. */
module LuFactors {
  import opened Matrix
  import opened NullVectors
  import opened RealSum

  // ---------- row permutations ----------

  ghost predicate IsPerm(p: seq<int>, n: nat)
  {
    && |p| == n
    && (forall i :: 0 <= i < n ==> 0 <= p[i] < n)
    && (forall i, j :: 0 <= i < j < n ==> p[i] != p[j])
  }

  function Swapped<T>(p: seq<T>, i: nat, j: nat): (q: seq<T>)
    requires i < |p| && j < |p|
    ensures |q| == |p|
  {
    p[i := p[j]][j := p[i]]
  }

  lemma SwappedPerm(p: seq<int>, n: nat, i: nat, j: nat)
    requires IsPerm(p, n) && i < n && j < n
    ensures IsPerm(Swapped(p, i, j), n)
  {
  }

  /** The row that stands at place i after i and j have been exchanged. */
  function Other(i: int, j: int, k: int): int
  {
    if k == i then j else if k == j then i else k
  }

  // ---------- the state ----------

  /** sum over k < m of A(i, k) * A(k, j), on the array that holds L and U together. */
  function Part(a: seq<real>, n: nat, m: nat, i: int, j: int): real
  {
    Dot(View(a, n), View(a, n), m, i, j)
  }

  function Min(i: int, j: int): int
  {
    if i <= j then i else j
  }

  /** Column c of the array already holds the factors of column c of the permuted matrix. */
  ghost predicate Factored(a: seq<real>, a0: seq<real>, n: nat, p: seq<int>, i: nat, c: nat)
    requires i < |p|
  {
    E(a0, n, p[i], c)
    == if i <= c then Part(a, n, i, i, c) + E(a, n, i, c) else Part(a, n, c, i, c) + E(a, n, i, c) * E(a, n, c, c)
  }

  /** Column j has been reduced in row i but not yet divided by the pivot. */
  ghost predicate Reduced(a: seq<real>, a0: seq<real>, n: nat, p: seq<int>, i: nat, j: nat)
    requires i < |p|
  {
    E(a0, n, p[i], j) == Part(a, n, Min(i, j), i, j) + E(a, n, i, j)
  }

  /** j columns are factored and t rows of column j are reduced. */
  ghost predicate LuState(a: seq<real>, a0: seq<real>, n: nat, p: seq<int>, j: nat, t: nat)
  {
    && |a| == |a0| == n * n && IsPerm(p, n) && j <= n && t <= n
    && (forall i, c :: 0 <= i < n && 0 <= c < j ==> Factored(a, a0, n, p, i, c))
    && (forall c :: 0 <= c < j ==> E(a, n, c, c) != 0.0)
    && (forall i :: 0 <= i < t ==> Reduced(a, a0, n, p, i, j))
    && (forall i, c :: 0 <= i < n && j <= c < n && (c == j ==> t <= i) ==> E(a, n, i, c) == E(a0, n, p[i], c))
  }

  lemma PartSame(a: seq<real>, b: seq<real>, n: nat, m: nat, i: int, j: int)
    requires forall k :: 0 <= k < m ==> E(a, n, i, k) == E(b, n, i, k) && E(a, n, k, j) == E(b, n, k, j)
    ensures Part(a, n, m, i, j) == Part(b, n, m, i, j)
  {
    DotSame(View(a, n), View(a, n), View(b, n), View(b, n), m, i, j);
  }

  lemma StateStart(a: seq<real>, n: nat, p: seq<int>)
    requires |a| == n * n && |p| == n && forall i :: 0 <= i < n ==> p[i] == i
    ensures LuState(a, a, n, p, 0, 0)
  {
  }

  /** Reducing entry (t, j) by the part of the product that is already known. */
  lemma StateReduce(a: seq<real>, b: seq<real>, a0: seq<real>, n: nat, p: seq<int>, j: nat, t: nat)
    requires j < n && t < n && LuState(a, a0, n, p, j, t) && |b| == n * n
    requires forall i, c :: 0 <= i < n && 0 <= c < n ==>
               E(b, n, i, c) == if i == t && c == j then E(a, n, t, j) - Part(a, n, Min(t, j), t, j) else E(a, n, i, c)
    ensures LuState(b, a0, n, p, j, t + 1)
  {
    hide E, Part;
    forall i, c | 0 <= i < n && 0 <= c < j
      ensures Factored(b, a0, n, p, i, c)
    {
      PartSame(a, b, n, Min(i, c), i, c);
      assert Factored(a, a0, n, p, i, c);
    }
    forall i | 0 <= i < t + 1
      ensures Reduced(b, a0, n, p, i, j)
    {
      PartSame(a, b, n, Min(i, j), i, j);
      if i < t {
        assert Reduced(a, a0, n, p, i, j);
      }
    }
  }

  /** Exchanging rows j and m of the whole array exchanges them in the permutation. */
  lemma StateSwap(a: seq<real>, b: seq<real>, a0: seq<real>, n: nat, p: seq<int>, j: nat, m: nat)
    requires j <= m < n && LuState(a, a0, n, p, j, n) && |b| == n * n
    requires forall i, c :: 0 <= i < n && 0 <= c < n ==> E(b, n, i, c) == E(a, n, Other(j, m, i), c)
    ensures LuState(b, a0, n, Swapped(p, j, m), j, n)
  {
    hide E, Part;
    var q := Swapped(p, j, m);
    SwappedPerm(p, n, j, m);
    forall i, c | 0 <= i < n && 0 <= c < j
      ensures Factored(b, a0, n, q, i, c)
    {
      var o := Other(j, m, i);
      assert Factored(a, a0, n, p, o, c);
      PartMoved(a, b, n, Min(i, c), i, o, c);
    }
    forall i | 0 <= i < n
      ensures Reduced(b, a0, n, q, i, j)
    {
      var o := Other(j, m, i);
      assert Reduced(a, a0, n, p, o, j);
      PartMoved(a, b, n, Min(i, j), i, o, j);
    }
  }

  lemma PartMoved(a: seq<real>, b: seq<real>, n: nat, m: nat, i: int, o: int, j: int)
    requires forall k :: 0 <= k < m ==> E(b, n, i, k) == E(a, n, o, k) && E(b, n, k, j) == E(a, n, k, j)
    ensures Part(b, n, m, i, j) == Part(a, n, m, o, j)
  {
    hide E, Sum;
    var f, g := Term(View(b, n), View(b, n), i, j), Term(View(a, n), View(a, n), o, j);
    forall k | 0 <= k < m
      ensures f(k) == g(k)
    {
      SameFactors(E(b, n, i, k), E(b, n, k, j), E(a, n, o, k), E(a, n, k, j));
    }
    SumEq(m, f, g);
  }

  lemma SameFactors(x: real, y: real, u: real, v: real)
    requires x == u && y == v
    ensures x * y == u * v
  {
  }

  /** Dividing the rows below a nonzero pivot finishes the column. */
  lemma StateDivide(a: seq<real>, b: seq<real>, a0: seq<real>, n: nat, p: seq<int>, j: nat)
    requires j < n && LuState(a, a0, n, p, j, n) && |b| == n * n && E(a, n, j, j) != 0.0
    requires forall i, c :: 0 <= i < n && 0 <= c < n ==>
               E(b, n, i, c) == if c == j && i > j then E(a, n, i, j) * (1.0 / E(a, n, j, j)) else E(a, n, i, c)
    ensures LuState(b, a0, n, p, j + 1, 0)
  {
    hide E, Part;
    forall i, c | 0 <= i < n && 0 <= c < j + 1
      ensures Factored(b, a0, n, p, i, c)
    {
      PartSame(a, b, n, Min(i, c), i, c);
      if c == j {
        assert Reduced(a, a0, n, p, i, j);
        if i > j {
          DivideBack(E(a, n, i, j), E(a, n, j, j));
        }
      } else {
        assert Factored(a, a0, n, p, i, c);
      }
    }
  }

  lemma DivideBack(x: real, y: real)
    requires y != 0.0
    ensures x * (1.0 / y) * y == x
  {
  }

  // ---------- the factors ----------

  function Lower(a: seq<real>, n: nat): Mat
  {
    (i, j) => if i == j then 1.0 else if j < i then E(a, n, i, j) else 0.0
  }

  function Upper(a: seq<real>, n: nat): Mat
  {
    (i, j) => if i <= j then E(a, n, i, j) else 0.0
  }

  /** The array holds factors of the row-permuted matrix, with a nonzero diagonal. */
  ghost predicate IsLu(a: seq<real>, a0: seq<real>, n: nat, p: seq<int>)
  {
    && |a| == |a0| == n * n && IsPerm(p, n)
    && (forall i :: 0 <= i < n ==> E(a, n, i, i) != 0.0)
    && (forall i, j :: 0 <= i < n && 0 <= j < n ==> E(a0, n, p[i], j) == Dot(Lower(a, n), Upper(a, n), n, i, j))
  }

  lemma StateEnd(a: seq<real>, a0: seq<real>, n: nat, p: seq<int>)
    requires LuState(a, a0, n, p, n, 0)
    ensures IsLu(a, a0, n, p)
  {
    hide E, Part;
    forall i, j | 0 <= i < n && 0 <= j < n
      ensures E(a0, n, p[i], j) == Dot(Lower(a, n), Upper(a, n), n, i, j)
    {
      assert Factored(a, a0, n, p, i, j);
      LuDot(a, n, n, i, j);
    }
  }

  /** Only the terms up to the smaller index of a product of triangles remain. */
  lemma LuDot(a: seq<real>, n: nat, m: nat, i: nat, j: nat)
    requires i < n && j < n && Min(i, j) < m
    ensures Dot(Lower(a, n), Upper(a, n), m, i, j)
         == if i <= j then Part(a, n, i, i, j) + E(a, n, i, j) else Part(a, n, j, i, j) + E(a, n, i, j) * E(a, n, j, j)
  {
    hide E;
    var t, u := Term(Lower(a, n), Upper(a, n), i, j), Term(View(a, n), View(a, n), i, j);
    var k := Min(i, j);
    assert Dot(Lower(a, n), Upper(a, n), m, i, j) == Sum(k, t) + t(k) by {
      SumShort(m, k + 1, t);
    }
    assert Sum(k, t) == Sum(k, u) by {
      SumEq(k, t, u);
    }
  }

  // ---------- when a pivot is zero ----------

  /** Columns up to j are products of the factors found so far when nothing is left
      of column j from the diagonal down. */
  lemma StuckColumn(a: seq<real>, a0: seq<real>, n: nat, p: seq<int>, j: nat, i: nat, c: nat)
    requires j < n && i < n && c <= j && LuState(a, a0, n, p, j, n)
    requires forall i :: j <= i < n ==> E(a, n, i, j) == 0.0
    ensures E(a0, n, p[i], c) == Dot(Lower(a, n), Upper(a, n), j, i, c)
  {
    hide E;
    if c < j {
      assert Factored(a, a0, n, p, i, c);
      LuDot(a, n, j, i, c);
    } else {
      assert Reduced(a, a0, n, p, i, j);
      if i < j {
        LuDot(a, n, j, i, j);
      } else {
        SumEq(j, Term(Lower(a, n), Upper(a, n), i, j), Term(View(a, n), View(a, n), i, j));
      }
    }
  }

  lemma ProductZero(l: Mat, u: Mat, x: seq<real>, m: nat, n: nat, i: int)
    requires Annihilates(u, m, n, x)
    ensures Dot(Product(l, u, m), Column(x), n, i, 0) == 0.0
  {
    ProductAssoc(l, u, Column(x), m, n, i, 0);
    var v := Product(u, Column(x), n);
    forall k | 0 <= k < m
      ensures Term(l, v, i, 0)(k) == 0.0
    {
      assert v(k, 0) == Dot(u, Column(x), n, k, 0);
    }
    SumZero(m, Term(l, v, i, 0));
  }

  lemma StuckRow(a: seq<real>, a0: seq<real>, n: nat, p: seq<int>, j: nat, x: seq<real>, i: nat)
    requires j < n && i < n && LuState(a, a0, n, p, j, n)
    requires forall i :: j <= i < n ==> E(a, n, i, j) == 0.0
    requires Annihilates(Upper(a, n), j, n, x) && forall k :: j < k < n ==> x[k] == 0.0
    ensures Dot(View(a0, n), Column(x), n, p[i], 0) == 0.0
  {
    hide E;
    var b := Product(Lower(a, n), Upper(a, n), j);
    forall k | 0 <= k < n
      ensures Term(View(a0, n), Column(x), p[i], 0)(k) == Term(b, Column(x), i, 0)(k)
    {
      if k <= j {
        StuckColumn(a, a0, n, p, j, i, k);
      }
    }
    SumEq(n, Term(View(a0, n), Column(x), p[i], 0), Term(b, Column(x), i, 0));
    ProductZero(Lower(a, n), Upper(a, n), x, j, n, i);
  }

  /** A column without a pivot means that the matrix is singular. */
  lemma ZeroPivotSingular(a: seq<real>, a0: seq<real>, n: nat, p: seq<int>, j: nat)
    requires j < n && LuState(a, a0, n, p, j, n)
    requires forall i :: j <= i < n ==> E(a, n, i, j) == 0.0
    ensures Singular(View(a0, n), n, n)
  {
    var x := NullOn(Upper(a, n), j, n, UpTo(j + 1));
    assert IsPerm(p, n);
    hide LuState, Dot, NonZero, Upper;
    forall r | 0 <= r < n
      ensures Dot(View(a0, n), Column(x), n, r, 0) == 0.0
    {
      var i := PermOnto(p, n, r);
      StuckRow(a, a0, n, p, j, x, i);
    }
  }

  // ---------- a finished factorisation ----------

  lemma LowerZero(a: seq<real>, n: nat, y: Mat, i: nat)
    requires i < n && (forall k :: 0 <= k < i ==> y(k, 0) == 0.0)
    ensures Dot(Lower(a, n), y, n, i, 0) == y(i, 0)
  {
    SumOne(n, i, Term(Lower(a, n), y, i, 0));
  }

  lemma UpperZero(a: seq<real>, n: nat, x: Mat, i: nat)
    requires i < n && (forall k :: i < k < n ==> x(k, 0) == 0.0)
    ensures Dot(Upper(a, n), x, n, i, 0) == E(a, n, i, i) * x(i, 0)
  {
    SumOne(n, i, Term(Upper(a, n), x, i, 0));
  }

  /** The unit lower triangle sends only zero to zero. */
  lemma {:induction false} LowerInjective(a: seq<real>, n: nat, y: Mat, m: nat)
    requires m <= n && forall i :: 0 <= i < n ==> Dot(Lower(a, n), y, n, i, 0) == 0.0
    ensures forall i :: 0 <= i < m ==> y(i, 0) == 0.0
  {
    hide Dot, Lower;
    if m > 0 {
      LowerInjective(a, n, y, m - 1);
      LowerZero(a, n, y, m - 1);
    }
  }

  /** An upper triangle with a nonzero diagonal sends only zero to zero. */
  lemma {:induction false} UpperInjective(a: seq<real>, n: nat, x: Mat, m: nat)
    requires m <= n && forall i :: 0 <= i < n ==> E(a, n, i, i) != 0.0
    requires forall i :: 0 <= i < n ==> Dot(Upper(a, n), x, n, i, 0) == 0.0
    ensures forall i :: m <= i < n ==> x(i, 0) == 0.0
    decreases n - m
  {
    hide Dot, Upper, E;
    if m < n {
      UpperInjective(a, n, x, m + 1);
      UpperZero(a, n, x, m);
    }
  }

  lemma LuRow(a: seq<real>, a0: seq<real>, n: nat, p: seq<int>, y: Mat, i: nat)
    requires i < n && IsLu(a, a0, n, p)
    ensures Dot(View(a0, n), y, n, p[i], 0) == Dot(Lower(a, n), Product(Upper(a, n), y, n), n, i, 0)
  {
    hide E;
    var b := Product(Lower(a, n), Upper(a, n), n);
    SumEq(n, Term(View(a0, n), y, p[i], 0), Term(b, y, i, 0));
    ProductAssoc(Lower(a, n), Upper(a, n), y, n, n, i, 0);
  }

  /** A matrix that has been factored is not singular. */
  lemma LuRegular(a: seq<real>, a0: seq<real>, n: nat, p: seq<int>)
    requires IsLu(a, a0, n, p)
    ensures !Singular(View(a0, n), n, n)
  {
    forall x: seq<real> | Annihilates(View(a0, n), n, n, x)
      ensures !NonZero(x)
    {
      LuOnlyZero(a, a0, n, p, x);
    }
  }

  lemma LuOnlyZero(a: seq<real>, a0: seq<real>, n: nat, p: seq<int>, x: seq<real>)
    requires IsLu(a, a0, n, p) && Annihilates(View(a0, n), n, n, x)
    ensures forall k :: 0 <= k < n ==> x[k] == 0.0
  {
    var y := Product(Upper(a, n), Column(x), n);
    forall i | 0 <= i < n
      ensures Dot(Lower(a, n), y, n, i, 0) == 0.0
    {
      LuRow(a, a0, n, p, Column(x), i);
    }
    LowerInjective(a, n, y, n);
    forall i | 0 <= i < n
      ensures Dot(Upper(a, n), Column(x), n, i, 0) == 0.0
    {
      assert y(i, 0) == Dot(Upper(a, n), Column(x), n, i, 0);
    }
    UpperInjective(a, n, Column(x), 0);
    forall k | 0 <= k < n
      ensures x[k] == 0.0
    {
      assert Column(x)(k, 0) == x[k];
    }
  }
}
