/** matmul, solve and lsq of rtkcmn.c, over exact reals. */
module LeastSquares {
  import opened RealArith
  import opened RealSum
  import opened Matrix
  import opened NullVectors
  import opened LinearSolve

  // ---------- matmul ----------

  /** The matrix that a flag makes of an array: as stored, or transposed. */
  function Operand(flag: char, a: seq<real>, rows: nat, columns: nat): Mat
  {
    if flag == 'N' then View(a, rows) else Transpose(View(a, columns))
  }

  /** `A[i + x * n]` or `A[x + i * m]` */
  method Fetch(flag: char, A: array<real>, rows: nat, columns: nat, i: nat, x: nat) returns (v: real)
    requires A.Length == rows * columns && i < rows && x < columns
    ensures v == Operand(flag, A[..], rows, columns)(i, x)
  {
    if flag == 'N' {
      IndexBounds(rows, columns, i, x);
      v := A[i + x * rows];
    } else {
      IndexBounds(columns, rows, x, i);
      v := A[x + i * columns];
    }
  }

  /** The inner sum of matmul. */
  method InnerProduct(tr: string, A: array<real>, B: array<real>, n: nat, k: nat, m: nat, i: nat, j: nat) returns (d: real)
    requires |tr| >= 2 && A.Length == n * m && B.Length == m * k && i < n && j < k
    ensures d == Dot(Operand(tr[0], A[..], n, m), Operand(tr[1], B[..], m, k), m, i, j)
  {
    hide Operand;
    ghost var a, b := Operand(tr[0], A[..], n, m), Operand(tr[1], B[..], m, k);
    d := 0.0;
    var x := 0;
    while x < m
      invariant 0 <= x <= m && d == Dot(a, b, x, i, j)
    {
      var u := Fetch(tr[0], A, n, m, i, x);
      var v := Fetch(tr[1], B, m, k, x, j);
      d := d + u * v;
      x := x + 1;
    }
  }

  /** The entry that matmul stores: alpha * op(A) * op(B) + beta * C. */
  function Combined(alpha: real, ab: real, beta: real, c: real): real
  {
    if beta == 0.0 then alpha * ab else alpha * ab + beta * c
  }

  method Matmul(tr: string, n: nat, k: nat, m: nat, alpha: real, A: array<real>, B: array<real>, beta: real, C: array<real>)
    requires |tr| >= 2 && A.Length == n * m && B.Length == m * k && C.Length == n * k && C != A && C != B
    modifies C
    ensures forall i, j :: 0 <= i < n && 0 <= j < k ==>
              E(C[..], n, i, j)
              == Combined(alpha, Dot(Operand(tr[0], A[..], n, m), Operand(tr[1], B[..], m, k), m, i, j), beta, E(old(C[..]), n, i, j))
  {
    hide E, Operand, Dot, Combined;
    ghost var a, b, c := Operand(tr[0], A[..], n, m), Operand(tr[1], B[..], m, k), C[..];
    var i := 0;
    while i < n
      invariant 0 <= i <= n
      invariant forall p, q :: 0 <= p < n && 0 <= q < k ==>
                  E(C[..], n, p, q) == if p < i then Combined(alpha, Dot(a, b, m, p, q), beta, E(c, n, p, q)) else E(c, n, p, q)
    {
      var j := 0;
      while j < k
        invariant 0 <= j <= k
        invariant forall p, q :: 0 <= p < n && 0 <= q < k ==>
                    E(C[..], n, p, q)
                    == if p < i || (p == i && q < j) then Combined(alpha, Dot(a, b, m, p, q), beta, E(c, n, p, q)) else E(c, n, p, q)
      {
        var d := InnerProduct(tr, A, B, n, k, m, i, j);
        StoreCombined(C, n, k, i, j, alpha, d, beta);
        j := j + 1;
      }
      i := i + 1;
    }
  }

  method StoreCombined(C: array<real>, n: nat, k: nat, i: nat, j: nat, alpha: real, d: real, beta: real)
    requires C.Length == n * k && i < n && j < k
    modifies C
    ensures forall p, q :: 0 <= p < n && 0 <= q < k ==>
              E(C[..], n, p, q)
              == if p == i && q == j then Combined(alpha, d, beta, E(old(C[..]), n, i, j)) else E(old(C[..]), n, p, q)
  {
    hide E;
    IndexBounds(n, k, i, j);
    ghost var c := C[..];
    var at := i + j * n;
    EntryIs(c, n, i, j, at);
    if beta == 0.0 {
      C[at] := alpha * d;
    } else {
      C[at] := alpha * d + beta * C[at];
    }
    assert C[..] == c[at := C[at]] && C[at] == Combined(alpha, d, beta, c[at]);
    StoreEntry(c, C[..], n, k, C.Length, i, j, at, C[at]);
  }

  // ---------- the normal equations ----------

  function Square(x: real): (s: real)
    ensures s >= 0.0
    ensures s > 0.0 || x == 0.0
  {
    SquareSign(x, x * x);
    x * x
  }

  lemma ScaledTerm(a: real, b: real, c: real, t: real, u: real, r: real)
    requires t == b * c && u == a * b && r == a * t
    ensures r == c * u
  {
  }

  /** Column i of a matrix. */
  function Slice(h: Mat, i: int): int -> real
  {
    k => h(k, i)
  }

  /** Component k of y - H * z, for a design matrix H of n columns. */
  function Error(h: Mat, y: seq<real>, n: nat, z: seq<real>): int -> real
  {
    k => Column(y)(k, 0) - Dot(h, Column(z), n, k, 0)
  }

  function SquareOf(f: int -> real): int -> real
  {
    k => Square(f(k))
  }

  function Times(f: int -> real, g: int -> real): int -> real
  {
    k => f(k) * g(k)
  }

  /** The squared residual that lsq minimises. */
  function Residual(h: Mat, y: seq<real>, n: nat, m: nat, z: seq<real>): real
  {
    Sum(m, SquareOf(Error(h, y, n, z)))
  }

  /** The error is orthogonal to every column of the design matrix. */
  ghost predicate Normal(h: Mat, y: seq<real>, n: nat, m: nat, x: seq<real>)
  {
    |x| == n && forall i :: 0 <= i < n ==> Sum(m, Times(Error(h, y, n, x), Slice(h, i))) == 0.0
  }

  function Image(h: Mat, n: nat, d: seq<real>): int -> real
  {
    k => Dot(h, Column(d), n, k, 0)
  }

  function Weighted(e: int -> real, h: Mat, d: seq<real>): (int, int) -> real
  {
    (k, i) => e(k) * Term(h, Column(d), k, 0)(i)
  }

  /** An error orthogonal to the columns is orthogonal to everything they span. */
  lemma Orthogonal(h: Mat, e: int -> real, n: nat, m: nat, d: seq<real>)
    requires |d| == n && forall i :: 0 <= i < n ==> Sum(m, Times(e, Slice(h, i))) == 0.0
    ensures Sum(m, Times(e, Image(h, n, d))) == 0.0
  {
    var w := Weighted(e, h, d);
    forall k | 0 <= k < m
      ensures Times(e, Image(h, n, d))(k) == RowSums(n, w)(k)
    {
      OrthogonalRow(h, e, n, d, k);
    }
    SumEq(m, Times(e, Image(h, n, d)), RowSums(n, w));
    SumSwap(m, n, w);
    forall i | 0 <= i < n
      ensures ColumnSums(m, w)(i) == 0.0
    {
      OrthogonalColumn(h, e, m, d, i);
    }
    SumZero(n, ColumnSums(m, w));
  }

  lemma WeightedAt(e: int -> real, h: Mat, d: seq<real>, k: int, i: int)
    ensures Weighted(e, h, d)(k, i) == e(k) * Term(h, Column(d), k, 0)(i)
    ensures Weighted(e, h, d)(k, i) == Column(d)(i, 0) * Times(e, Slice(h, i))(k)
  {
    var c := Column(d)(i, 0);
    var t := Term(h, Column(d), k, 0)(i);
    assert t == h(k, i) * c;
    assert Times(e, Slice(h, i))(k) == e(k) * h(k, i);
    ScaledTerm(e(k), h(k, i), c, t, Times(e, Slice(h, i))(k), e(k) * t);
  }

  lemma OrthogonalRow(h: Mat, e: int -> real, n: nat, d: seq<real>, k: int)
    ensures e(k) * Dot(h, Column(d), n, k, 0) == RowSums(n, Weighted(e, h, d))(k)
  {
    hide Weighted, Times;
    var w := Weighted(e, h, d);
    var r := i => w(k, i);
    forall i | 0 <= i < n
      ensures r(i) == e(k) * Term(h, Column(d), k, 0)(i)
    {
      WeightedAt(e, h, d, k, i);
    }
    SumScale(n, e(k), Term(h, Column(d), k, 0), r);
  }

  lemma OrthogonalColumn(h: Mat, e: int -> real, m: nat, d: seq<real>, i: int)
    requires Sum(m, Times(e, Slice(h, i))) == 0.0
    ensures ColumnSums(m, Weighted(e, h, d))(i) == 0.0
  {
    hide Weighted, Times;
    var w := Weighted(e, h, d);
    var r := k => w(k, i);
    forall k | 0 <= k < m
      ensures r(k) == Column(d)(i, 0) * Times(e, Slice(h, i))(k)
    {
      WeightedAt(e, h, d, k, i);
    }
    SumScale(m, Column(d)(i, 0), Times(e, Slice(h, i)), r);
  }

  lemma SumSquares(m: nat, e: int -> real, w: int -> real, f: int -> real)
    requires forall k :: 0 <= k < m ==> f(k) == e(k) + w(k)
    requires Sum(m, Times(e, w)) == 0.0
    ensures Sum(m, SquareOf(f)) == Sum(m, SquareOf(e)) + Sum(m, SquareOf(w))
  {
    hide Sum, Times, Square;
    var c := Doubled(Times(e, w));
    SumScale(m, 2.0, Times(e, w), c);
    var g := Added(SquareOf(e), SquareOf(w));
    SumAdd(m, SquareOf(e), SquareOf(w), g);
    forall k | 0 <= k < m
      ensures SquareOf(f)(k) == g(k) + c(k)
    {
      SquareTerm(e, w, f, k);
    }
    SumAdd(m, g, c, SquareOf(f));
  }

  function Doubled(f: int -> real): int -> real
  {
    k => 2.0 * f(k)
  }

  function Added(f: int -> real, g: int -> real): int -> real
  {
    k => f(k) + g(k)
  }

  lemma SquareTerm(e: int -> real, w: int -> real, f: int -> real, k: int)
    requires f(k) == e(k) + w(k)
    ensures SquareOf(f)(k) == Added(SquareOf(e), SquareOf(w))(k) + Doubled(Times(e, w))(k)
  {
    SquareSum(e(k), w(k));
  }

  lemma SquareSum(a: real, b: real)
    ensures Square(a + b) == Square(a) + Square(b) + 2.0 * (a * b)
  {
  }

  /** Splitting the error at z: the residual at x plus the squared distance of the images. */
  lemma ResidualSplit(h: Mat, y: seq<real>, n: nat, m: nat, x: seq<real>, z: seq<real>)
    requires Normal(h, y, n, m, x) && |z| == n
    ensures var d := seq(n, i requires 0 <= i < n => x[i] - z[i]);
            Residual(h, y, n, m, z) == Residual(h, y, n, m, x) + Sum(m, SquareOf(Image(h, n, d)))
  {
    var d := seq(n, i requires 0 <= i < n => x[i] - z[i]);
    Orthogonal(h, Error(h, y, n, x), n, m, d);
    forall k | 0 <= k < m
      ensures Error(h, y, n, z)(k) == Error(h, y, n, x)(k) + Image(h, n, d)(k)
    {
      ImageDifference(h, n, x, z, d, k);
    }
    SumSquares(m, Error(h, y, n, x), Image(h, n, d), Error(h, y, n, z));
  }

  lemma ImageDifference(h: Mat, n: nat, x: seq<real>, z: seq<real>, d: seq<real>, k: int)
    requires |x| == |z| == |d| == n && forall i :: 0 <= i < n ==> d[i] == x[i] - z[i]
    ensures Dot(h, Column(d), n, k, 0) == Dot(h, Column(x), n, k, 0) - Dot(h, Column(z), n, k, 0)
  {
    forall i | 0 <= i < n
      ensures Term(h, Column(x), k, 0)(i) == Term(h, Column(d), k, 0)(i) + Term(h, Column(z), k, 0)(i)
    {
      Distribute(h(k, i), d[i], z[i]);
    }
    SumAdd(n, Term(h, Column(d), k, 0), Term(h, Column(z), k, 0), Term(h, Column(x), k, 0));
  }

  /** `x` is the one minimiser of the squared residual. */
  ghost predicate Minimiser(h: Mat, y: seq<real>, n: nat, m: nat, x: seq<real>)
  {
    && |x| == n
    && (forall z: seq<real> :: |z| == n ==> Residual(h, y, n, m, x) <= Residual(h, y, n, m, z))
    && (forall z: seq<real> :: |z| == n && Residual(h, y, n, m, z) == Residual(h, y, n, m, x) ==> z == x)
  }

  lemma NormalMinimises(h: Mat, y: seq<real>, n: nat, m: nat, x: seq<real>)
    requires Normal(h, y, n, m, x) && !Singular(h, m, n)
    ensures Minimiser(h, y, n, m, x)
  {
    hide Residual, Normal;
    assert |x| == n by { NormalLength(h, y, n, m, x); }
    forall z: seq<real> | |z| == n
      ensures Residual(h, y, n, m, x) <= Residual(h, y, n, m, z)
      ensures Residual(h, y, n, m, z) == Residual(h, y, n, m, x) ==> z == x
    {
      NormalCompare(h, y, n, m, x, z);
    }
  }

  lemma NormalLength(h: Mat, y: seq<real>, n: nat, m: nat, x: seq<real>)
    requires Normal(h, y, n, m, x)
    ensures |x| == n
  {
  }

  lemma NormalCompare(h: Mat, y: seq<real>, n: nat, m: nat, x: seq<real>, z: seq<real>)
    requires Normal(h, y, n, m, x) && !Singular(h, m, n) && |z| == |x| == n
    ensures Residual(h, y, n, m, x) <= Residual(h, y, n, m, z)
    ensures Residual(h, y, n, m, z) == Residual(h, y, n, m, x) ==> z == x
  {
    hide Residual, Normal;
    var d := seq(n, i requires 0 <= i < n => x[i] - z[i]);
    ResidualSplit(h, y, n, m, x, z);
    SumNonNegative(m, SquareOf(Image(h, n, d)));
    if Residual(h, y, n, m, z) == Residual(h, y, n, m, x) {
      ImageZero(h, m, n, d);
      forall i | 0 <= i < n
        ensures z[i] == x[i]
      {
        assert d[i] == x[i] - z[i];
      }
    }
  }

  /** With independent columns only zero has a zero image. */
  lemma ImageZero(h: Mat, m: nat, n: nat, d: seq<real>)
    requires |d| == n && !Singular(h, m, n) && Sum(m, SquareOf(Image(h, n, d))) == 0.0
    ensures forall i :: 0 <= i < n ==> d[i] == 0.0
  {
    hide Dot, Sum;
    forall k | 0 <= k < m
      ensures SquareOf(Image(h, n, d))(k) >= 0.0
    {
      assert SquareOf(Image(h, n, d))(k) == Square(Dot(h, Column(d), n, k, 0));
    }
    SumNonNegative(m, SquareOf(Image(h, n, d)));
    forall k | 0 <= k < m
      ensures Dot(h, Column(d), n, k, 0) == 0.0
    {
      assert SquareOf(Image(h, n, d))(k) == Square(Dot(h, Column(d), n, k, 0));
    }
    assert Annihilates(h, m, n, d);
    assert !NonZero(d);
  }

  // ---------- the normal matrix ----------

  function Gram(h: Mat, m: nat): Mat
  {
    Product(Transpose(h), h, m)
  }

  /** Row i of the normal matrix times z is column i of the design against its image. */
  lemma GramRow(h: Mat, n: nat, m: nat, z: seq<real>, i: int)
    ensures Dot(Gram(h, m), Column(z), n, i, 0) == Sum(m, Times(Image(h, n, z), Slice(h, i)))
  {
    ProductAssoc(Transpose(h), h, Column(z), m, n, i, 0);
    var f, g := Term(Transpose(h), Product(h, Column(z), n), i, 0), Times(Image(h, n, z), Slice(h, i));
    forall k | 0 <= k < m
      ensures f(k) == g(k)
    {
      assert f(k) == h(k, i) * Dot(h, Column(z), n, k, 0);
      assert g(k) == Dot(h, Column(z), n, k, 0) * h(k, i);
    }
    SumEq(m, f, g);
  }

  /** The normal matrix is singular exactly when the columns of the design are dependent. */
  lemma GramSingular(h: Mat, n: nat, m: nat)
    ensures Singular(Gram(h, m), n, n) <==> Singular(h, m, n)
  {
    hide Gram, NonZero;
    forall z: seq<real> | |z| == n
      ensures Annihilates(Gram(h, m), n, n, z) <==> Annihilates(h, m, n, z)
    {
      GramNull(h, n, m, z);
    }
  }

  lemma GramNull(h: Mat, n: nat, m: nat, z: seq<real>)
    requires |z| == n
    ensures Annihilates(Gram(h, m), n, n, z) <==> Annihilates(h, m, n, z)
  {
    hide Gram, Dot, Sum;
    var e := Image(h, n, z);
    forall i | 0 <= i < n
      ensures Dot(Gram(h, m), Column(z), n, i, 0) == Sum(m, Times(e, Slice(h, i)))
    {
      GramRow(h, n, m, z, i);
    }
    if Annihilates(h, m, n, z) {
      forall i | 0 <= i < n
        ensures Sum(m, Times(e, Slice(h, i))) == 0.0
      {
        ImageAnnihilated(h, n, m, z, i);
      }
    }
    if Annihilates(Gram(h, m), n, n, z) {
      Orthogonal(h, e, n, m, z);
      SquaresVanish(e, m);
      forall k | 0 <= k < m
        ensures Dot(h, Column(z), n, k, 0) == 0.0
      {
        assert e(k) == 0.0;
      }
    }
  }

  lemma ImageAnnihilated(h: Mat, n: nat, m: nat, z: seq<real>, i: int)
    requires Annihilates(h, m, n, z)
    ensures Sum(m, Times(Image(h, n, z), Slice(h, i))) == 0.0
  {
    hide Dot;
    forall k | 0 <= k < m
      ensures Times(Image(h, n, z), Slice(h, i))(k) == 0.0
    {
      assert Image(h, n, z)(k) == 0.0;
    }
    SumZero(m, Times(Image(h, n, z), Slice(h, i)));
  }

  lemma SquaresVanish(e: int -> real, m: nat)
    requires Sum(m, Times(e, e)) == 0.0
    ensures forall k :: 0 <= k < m ==> e(k) == 0.0
  {
    hide Sum;
    forall k | 0 <= k < m
      ensures Times(e, e)(k) >= 0.0 && (Times(e, e)(k) > 0.0 || e(k) == 0.0)
    {
      SquareSign(e(k), Times(e, e)(k));
    }
    SumNonNegative(m, Times(e, e));
  }

  /** A solution of the normal equations leaves an orthogonal error. */
  lemma NormalEquations(h: Mat, y: seq<real>, n: nat, m: nat, x: seq<real>)
    requires |x| == n
    requires forall i :: 0 <= i < n ==>
               Dot(Gram(h, m), Column(x), n, i, 0) == Dot(Transpose(h), Column(y), m, i, 0)
    ensures Normal(h, y, n, m, x)
  {
    hide Dot, Gram;
    forall i | 0 <= i < n
      ensures Sum(m, Times(Error(h, y, n, x), Slice(h, i))) == 0.0
    {
      GramRow(h, n, m, x, i);
      NormalRow(h, y, n, m, x, i);
    }
  }

  lemma NormalRow(h: Mat, y: seq<real>, n: nat, m: nat, x: seq<real>, i: int)
    ensures Dot(Transpose(h), Column(y), m, i, 0)
         == Sum(m, Times(Error(h, y, n, x), Slice(h, i))) + Sum(m, Times(Image(h, n, x), Slice(h, i)))
  {
    var f, g, t := Times(Error(h, y, n, x), Slice(h, i)), Times(Image(h, n, x), Slice(h, i)), Term(Transpose(h), Column(y), i, 0);
    forall k | 0 <= k < m
      ensures t(k) == f(k) + g(k)
    {
      var v, d := Column(y)(k, 0), Dot(h, Column(x), n, k, 0);
      assert t(k) == h(k, i) * v && f(k) == (v - d) * h(k, i) && g(k) == d * h(k, i);
      SplitTerm(h(k, i), v, d, t(k), f(k), g(k));
    }
    SumAdd(m, f, g, t);
  }

  lemma SplitTerm(h: real, v: real, d: real, t: real, f: real, g: real)
    requires t == h * v && f == (v - d) * h && g == d * h
    ensures t == f + g
  {
  }

  // ---------- solve ----------

  /** A matrix times its inverse times anything is that thing. */
  lemma InverseApplied(a: Mat, b: Mat, y: Mat, x: Mat, n: nat, i: nat, j: int)
    requires i < n && forall i, k :: 0 <= i < n && 0 <= k < n ==> Dot(a, b, n, i, k) == Identity()(i, k)
    requires forall k :: 0 <= k < n ==> x(k, j) == Dot(b, y, n, k, j)
    ensures Dot(a, x, n, i, j) == y(i, j)
  {
    DotSame(a, x, a, Product(b, y, n), n, i, j);
    ProductAssoc(a, b, y, n, n, i, j);
    DotSame(Product(a, b, n), y, Identity(), y, n, i, j);
    IdentityDot(y, n, i, j);
  }

  lemma DotTranspose(a: Mat, b: Mat, n: nat, i: int, j: int)
    ensures Dot(Transpose(a), Transpose(b), n, i, j) == Dot(b, a, n, j, i)
  {
    SumEq(n, Term(Transpose(a), Transpose(b), i, j), Term(b, a, j, i));
  }

  lemma OperandInverse(flag: char, a: seq<real>, b: seq<real>, n: nat)
    requires Inverse(View(a, n), View(b, n), n)
    ensures forall i, j :: 0 <= i < n && 0 <= j < n ==>
              Dot(Operand(flag, a, n, n), Operand(flag, b, n, n), n, i, j) == Identity()(i, j)
  {
    hide E, Dot;
    if flag != 'N' {
      forall i, j | 0 <= i < n && 0 <= j < n
        ensures Dot(Operand(flag, a, n, n), Operand(flag, b, n, n), n, i, j) == Identity()(i, j)
      {
        DotTranspose(View(a, n), View(b, n), n, i, j);
        assert Dot(View(b, n), View(a, n), n, j, i) == Identity()(j, i);
      }
    }
  }

  /** solve: op(A) * X = Y, unless the matrix is singular. */
  method Solve(tr: string, A: array<real>, Y: array<real>, n: nat, m: nat, X: array<real>) returns (info: int)
    requires |tr| >= 1 && A.Length == n * n && Y.Length == n * m && X.Length == n * m && X != A && X != Y
    modifies X
    ensures info == 0 || info == -1
    ensures info == -1 <==> Singular(View(A[..], n), n, n)
    ensures info == -1 ==> X[..] == old(X[..])
    ensures info == 0 ==> forall i, j :: 0 <= i < n && 0 <= j < m ==>
              Dot(Operand(tr[0], A[..], n, n), View(X[..], n), n, i, j) == E(Y[..], n, i, j)
  {
    hide E, Dot, Operand, Singular, Inverse;
    var B := new real[n * n];
    forall i | 0 <= i < n * n {
      B[i] := A[i];
    }
    assert B[..] == A[..];
    info := Matinv(B, n);
    if info == 0 {
      Matmul(if tr[0] == 'N' then "NN" else "TN", n, m, n, 1.0, B, Y, 0.0, X);
      SolveCorrect(tr[0], A[..], B[..], Y[..], X[..], n, m);
    }
  }

  lemma SolveCorrect(flag: char, a: seq<real>, b: seq<real>, y: seq<real>, x: seq<real>, n: nat, m: nat)
    requires Inverse(View(a, n), View(b, n), n)
    requires forall i, j :: 0 <= i < n && 0 <= j < m ==>
               E(x, n, i, j) == Combined(1.0, Dot(Operand(if flag == 'N' then 'N' else 'T', b, n, n), Operand('N', y, n, m), n, i, j), 0.0, 0.0)
    ensures forall i, j :: 0 <= i < n && 0 <= j < m ==>
              Dot(Operand(flag, a, n, n), View(x, n), n, i, j) == E(y, n, i, j)
  {
    hide E, Dot;
    OperandInverse(flag, a, b, n);
    forall i, j | 0 <= i < n && 0 <= j < m
      ensures Dot(Operand(flag, a, n, n), View(x, n), n, i, j) == E(y, n, i, j)
    {
      InverseApplied(Operand(flag, a, n, n), Operand(flag, b, n, n), View(y, n), View(x, n), n, i, j);
    }
  }

  // ---------- lsq ----------

  /** The design matrix of lsq, which is passed transposed. */
  function Design(a: seq<real>, n: nat): Mat
  {
    Transpose(View(a, n))
  }

  lemma SingularSame(a: Mat, b: Mat, r: nat, n: nat)
    requires Same(a, b, r, n)
    ensures Singular(a, r, n) <==> Singular(b, r, n)
  {
    hide Dot, NonZero;
    forall x: seq<real> | |x| == n
      ensures Annihilates(a, r, n, x) <==> Annihilates(b, r, n, x)
    {
      forall i | 0 <= i < r
        ensures Dot(a, Column(x), n, i, 0) == Dot(b, Column(x), n, i, 0)
      {
        DotSame(a, Column(x), b, Column(x), n, i, 0);
      }
    }
  }

  /** lsq.  It fails exactly when the columns of the design matrix are dependent, which
      includes fewer measurements than parameters; otherwise `x` is the one vector with
      the least squared residual and `Q` the inverse of the normal matrix. */
  method Lsq(A: array<real>, y: array<real>, n: nat, m: nat, x: array<real>, Q: array<real>) returns (info: int)
    requires A.Length == n * m && y.Length == m && x.Length == n && Q.Length == n * n
    requires x != A && x != y && x != Q && Q != A && Q != y
    modifies x, Q
    ensures info == 0 || info == -1
    ensures info == -1 <==> Singular(Design(A[..], n), m, n)
    ensures info == -1 ==> x[..] == old(x[..])
    ensures info == 0 ==> Minimiser(Design(A[..], n), y[..], n, m, x[..])
    ensures info == 0 ==> Inverse(Gram(Design(A[..], n), m), View(Q[..], n), n)
  {
    hide E, Dot, Singular, Inverse, Minimiser, Gram, View;
    if m < n {
      WideSingular(Design(A[..], n), m, n);
      return -1;
    }
    var Ay := new real[n * 1];
    Matmul("NN", n, 1, m, 1.0, A, y, 0.0, Ay);
    Matmul("NT", n, n, m, 1.0, A, A, 0.0, Q);
    ghost var q := Q[..];
    GramStored(A[..], q, n, m);
    SingularSame(View(q, n), Gram(Design(A[..], n), m), n, n);
    GramSingular(Design(A[..], n), n, m);
    info := Matinv(Q, n);
    if info == 0 {
      Matmul("NN", n, 1, n, 1.0, Q, Ay, 0.0, x);
      LsqCorrect(A[..], y[..], Ay[..], q, Q[..], x[..], n, m);
    }
  }

  lemma GramStored(a: seq<real>, q: seq<real>, n: nat, m: nat)
    requires forall i, j :: 0 <= i < n && 0 <= j < n ==>
               E(q, n, i, j) == Combined(1.0, Dot(Operand('N', a, n, m), Operand('T', a, m, n), m, i, j), 0.0, 0.0)
    ensures Same(View(q, n), Gram(Design(a, n), m), n, n)
  {
    hide E, Dot;
    forall i, j | 0 <= i < n && 0 <= j < n
      ensures View(q, n)(i, j) == Gram(Design(a, n), m)(i, j)
    {
      DotSame(View(a, n), Design(a, n), Transpose(Design(a, n)), Design(a, n), m, i, j);
    }
  }

  lemma InverseSame(a: Mat, b: Mat, c: Mat, n: nat)
    requires Inverse(a, c, n) && Same(a, b, n, n)
    ensures Inverse(b, c, n)
  {
    hide Dot;
    forall i, j | 0 <= i < n && 0 <= j < n
      ensures Dot(a, c, n, i, j) == Dot(b, c, n, i, j) && Dot(c, a, n, i, j) == Dot(c, b, n, i, j)
    {
      DotSame(a, c, b, c, n, i, j);
      DotSame(c, a, c, b, n, i, j);
    }
  }

  lemma LsqCorrect(a: seq<real>, y: seq<real>, ay: seq<real>, q: seq<real>, r: seq<real>, x: seq<real>, n: nat, m: nat)
    requires |y| == m && |x| == |ay| == n && Inverse(View(q, n), View(r, n), n)
    requires Same(View(q, n), Gram(Design(a, n), m), n, n) && !Singular(Design(a, n), m, n)
    requires forall i, j :: 0 <= i < n && 0 <= j < 1 ==>
               E(ay, n, i, j) == Combined(1.0, Dot(Operand('N', a, n, m), Operand('N', y, m, 1), m, i, j), 0.0, 0.0)
    requires forall i, j :: 0 <= i < n && 0 <= j < 1 ==>
               E(x, n, i, j) == Combined(1.0, Dot(Operand('N', r, n, n), Operand('N', ay, n, 1), n, i, j), 0.0, 0.0)
    ensures Minimiser(Design(a, n), y, n, m, x)
    ensures Inverse(Gram(Design(a, n), m), View(r, n), n)
  {
    hide Dot, Minimiser, Singular;
    var h := Design(a, n);
    InverseSame(View(q, n), Gram(h, m), View(r, n), n);
    forall i | 0 <= i < n
      ensures Dot(Gram(h, m), Column(x), n, i, 0) == Dot(Transpose(h), Column(y), m, i, 0)
    {
      LsqRow(a, y, ay, r, x, n, m, i);
    }
    hide Gram, Inverse;
    NormalEquations(h, y, n, m, x);
    NormalMinimises(h, y, n, m, x);
  }

  lemma LsqRow(a: seq<real>, y: seq<real>, ay: seq<real>, r: seq<real>, x: seq<real>, n: nat, m: nat, i: nat)
    requires |y| == m && |x| == |ay| == n && i < n && Inverse(Gram(Design(a, n), m), View(r, n), n)
    requires forall i, j :: 0 <= i < n && 0 <= j < 1 ==>
               E(ay, n, i, j) == Combined(1.0, Dot(Operand('N', a, n, m), Operand('N', y, m, 1), m, i, j), 0.0, 0.0)
    requires forall i, j :: 0 <= i < n && 0 <= j < 1 ==>
               E(x, n, i, j) == Combined(1.0, Dot(Operand('N', r, n, n), Operand('N', ay, n, 1), n, i, j), 0.0, 0.0)
    ensures Dot(Gram(Design(a, n), m), Column(x), n, i, 0) == Dot(Transpose(Design(a, n)), Column(y), m, i, 0)
  {
    hide Dot, Gram;
    var h := Design(a, n);
    forall k | 0 <= k < n
      ensures Column(x)(k, 0) == Dot(View(r, n), Column(ay), n, k, 0)
    {
      assert Column(x)(k, 0) == E(x, n, k, 0);
      VectorView(View(r, n), ay, n, n, k);
    }
    InverseApplied(Gram(h, m), View(r, n), Column(ay), Column(x), n, i, 0);
    assert Column(ay)(i, 0) == E(ay, n, i, 0);
    VectorView(View(a, n), y, m, m, i);
    DotSame(View(a, n), Column(y), Transpose(h), Column(y), m, i, 0);
  }

  /** A vector stored as an array is a matrix of one column. */
  lemma VectorView(a: Mat, y: seq<real>, rows: nat, m: nat, i: int)
    requires |y| == rows == m
    ensures Dot(a, View(y, rows), m, i, 0) == Dot(a, Column(y), m, i, 0)
  {
    DotSame(a, View(y, rows), a, Column(y), m, i, 0);
  }
}
