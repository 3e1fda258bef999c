/** lubksb and matinv of rtkcmn.c, over exact reals. */
module LinearSolve {
  import opened Arith
  import opened RealSum
  import opened Matrix
  import opened NullVectors
  import opened LuFactors
  import opened LuDecomposition

  // ---------- forward substitution ----------

  /** The first i unknowns solve the lower triangle; the rest wait, permuted. */
  ghost predicate Forwarded(a: seq<real>, n: nat, c: seq<real>, b0: seq<real>, q: seq<int>, i: int)
  {
    && |c| == |b0| == n && IsPerm(q, n) && 0 <= i <= n
    && (forall k :: 0 <= k < i ==> Dot(View(a, n), Column(c), k, k, 0) + c[k] == b0[q[k]])
    && (forall k :: i <= k < n ==> c[k] == b0[q[k]])
  }

  lemma DotPrefix(a: Mat, c: seq<real>, d: seq<real>, m: nat, i: int)
    requires m <= |c| && m <= |d| && forall k :: 0 <= k < m ==> c[k] == d[k]
    ensures Dot(a, Column(c), m, i, 0) == Dot(a, Column(d), m, i, 0)
  {
    DotSame(a, Column(c), a, Column(d), m, i, 0);
  }

  lemma ForwardStep(a: seq<real>, n: nat, c: seq<real>, d: seq<real>, b0: seq<real>, q: seq<int>, i: nat, ip: nat)
    requires i < n && i <= ip < n && Forwarded(a, n, c, b0, q, i)
    requires |d| == n && d == c[ip := c[i]][i := c[ip] - Dot(View(a, n), Column(c), i, i, 0)]
    ensures IsPerm(q, n) && Forwarded(a, n, d, b0, Swapped(q, i, ip), i + 1)
  {
    hide Dot;
    SwappedPerm(q, n, i, ip);
    forall k | 0 <= k < i + 1
      ensures Dot(View(a, n), Column(d), k, k, 0) == Dot(View(a, n), Column(c), k, k, 0)
    {
      DotPrefix(View(a, n), c, d, k, k);
    }
  }

  /** Leading zeros contribute nothing to the sum that lubksb skips. */
  lemma SkippedZeros(a: Mat, c: seq<real>, m: nat, i: int)
    requires m <= |c| && forall k :: 0 <= k < m ==> c[k] == 0.0
    ensures Dot(a, Column(c), m, i, 0) == 0.0
  {
    SumZero(m, Term(a, Column(c), i, 0));
  }

  ghost predicate ZeroTo(c: seq<real>, m: int)
  {
    m <= |c| && forall k :: 0 <= k < m ==> c[k] == 0.0
  }

  /** The inner loop of the forward substitution, from the first nonzero entry on. */
  method SubtractKnown(A: array<real>, n: nat, b: array<real>, off: nat, i: nat, ii: nat, s0: real, ghost c: seq<real>)
    returns (s: real)
    requires A.Length == n * n && off + n <= b.Length && ii <= i < n && |c| == n
    requires (forall k :: 0 <= k < i ==> b[off + k] == c[k]) && ZeroTo(c, ii)
    ensures s == s0 - Dot(View(A[..], n), Column(c), i, i, 0)
  {
    hide E, Dot;
    s := s0;
    var j := ii;
    SkippedZeros(View(A[..], n), c, ii, i);
    while j < i
      invariant ii <= j <= i
      invariant s == s0 - Dot(View(A[..], n), Column(c), j, i, 0)
    {
      var l := Entry(A, n, i, j);
      DotStep(View(A[..], n), c, j, i);
      s := s - l * b[off + j];
      j := j + 1;
    }
  }

  /** One round of the first loop of lubksb. */
  method ForwardRow(A: array<real>, n: nat, b: array<real>, off: nat, i: nat, ip: nat, ii: int) returns (ii': int)
    requires A.Length == n * n && A != b && off + n <= b.Length && i <= ip < n && -1 <= ii < i
    requires ZeroTo(b[off..off + n], if ii >= 0 then ii else i)
    modifies b
    ensures var c := old(b[off..off + n]);
            b[off..off + n] == c[ip := c[i]][i := c[ip] - Dot(View(A[..], n), Column(c), i, i, 0)]
    ensures b[..off] == old(b[..off]) && b[off + n..] == old(b[off + n..])
    ensures -1 <= ii' <= i && ZeroTo(b[off..off + n], if ii' >= 0 then ii' else i + 1)
  {
    hide E, Dot;
    ghost var c := b[off..off + n];
    var s := b[off + ip];
    b[off + ip] := b[off + i];
    ii' := ii;
    if ii >= 0 {
      s := SubtractKnown(A, n, b, off, i, ii, s, c);
    } else {
      SkippedZeros(View(A[..], n), c, i, i);
      if s != 0.0 {
        ii' := i;
      }
    }
    b[off + i] := s;
  }

  /** The first loop of lubksb on b[off .. off + n]. */
  method Forward(A: array<real>, n: nat, indx: array<int>, b: array<real>, off: nat)
    requires A.Length == n * n && A != b && off + n <= b.Length
    requires indx.Length == n && Pivots(indx[..], n, n)
    modifies b
    ensures Forwarded(A[..], n, b[off..off + n], old(b[off..off + n]), PivotPerm(indx[..], n, n), n)
    ensures b[..off] == old(b[..off]) && b[off + n..] == old(b[off + n..])
  {
    hide E, Dot, Forwarded, PivotPerm, Swapped;
    ghost var b0, before, after := b[off..off + n], b[..off], b[off + n..];
    var ii := -1;
    var i := 0;
    ForwardStart(A[..], n, b0, PivotPerm(indx[..], n, 0));
    while i < n
      invariant 0 <= i <= n && -1 <= ii < i
      invariant Forwarded(A[..], n, b[off..off + n], b0, PivotPerm(indx[..], n, i), i)
      invariant ZeroTo(b[off..off + n], if ii >= 0 then ii else i)
      invariant b[..off] == before && b[off + n..] == after
    {
      ghost var c := b[off..off + n];
      ii := ForwardRow(A, n, b, off, i, indx[i], ii);
      ForwardStep(A[..], n, c, b[off..off + n], b0, PivotPerm(indx[..], n, i), i, indx[i]);
      PivotPermStep(indx[..], n, i);
      i := i + 1;
    }
  }

  lemma ForwardStart(a: seq<real>, n: nat, b0: seq<real>, q: seq<int>)
    requires |b0| == n && IsPerm(q, n) && forall k :: 0 <= k < n ==> q[k] == k
    ensures Forwarded(a, n, b0, b0, q, 0)
  {
  }

  lemma DotStep(a: Mat, c: seq<real>, m: nat, i: int)
    requires m < |c|
    ensures Dot(a, Column(c), m + 1, i, 0) == Dot(a, Column(c), m, i, 0) + a(i, m) * c[m]
  {
  }

  lemma PivotPermStep(ix: seq<int>, n: nat, i: nat)
    requires i < n && Pivots(ix, n, n)
    ensures PivotPerm(ix, n, i + 1) == Swapped(PivotPerm(ix, n, i), i, ix[i])
  {
  }

  // ---------- back substitution ----------

  function Tail(a: seq<real>, n: nat, c: seq<real>, i: int): int -> real
  {
    k => if k > i then E(a, n, i, k) * Column(c)(k, 0) else 0.0
  }

  lemma UpperDot(a: seq<real>, n: nat, c: seq<real>, i: nat)
    requires i < n == |c|
    ensures Dot(Upper(a, n), Column(c), n, i, 0) == E(a, n, i, i) * c[i] + Sum(n, Tail(a, n, c, i))
  {
    hide E;
    var d := k => if k == i then E(a, n, i, i) * c[i] else 0.0;
    SumOne(n, i, d);
    SumAdd(n, d, Tail(a, n, c, i), Term(Upper(a, n), Column(c), i, 0));
  }

  /** The unknowns from i on solve the upper triangle; the others are still right-hand sides. */
  ghost predicate Backed(a: seq<real>, n: nat, c: seq<real>, y: seq<real>, i: int)
  {
    && |c| == |y| == n && 0 <= i <= n
    && (forall k :: i <= k < n ==> Dot(Upper(a, n), Column(c), n, k, 0) == y[k])
    && (forall k :: 0 <= k < i ==> c[k] == y[k])
  }

  lemma BackStep(a: seq<real>, n: nat, c: seq<real>, d: seq<real>, y: seq<real>, i: nat)
    requires i < n && Backed(a, n, c, y, i + 1) && E(a, n, i, i) != 0.0
    requires d == c[i := (c[i] - Sum(n, Tail(a, n, c, i))) / E(a, n, i, i)]
    ensures Backed(a, n, d, y, i)
  {
    hide E, Sum, Dot, Tail;
    forall k | i <= k < n
      ensures Dot(Upper(a, n), Column(d), n, k, 0) == y[k]
    {
      SameTail(a, n, c, d, i, k);
      UpperDot(a, n, d, k);
      if k == i {
        Divided(c[i], Sum(n, Tail(a, n, c, i)), E(a, n, i, i), d[i]);
      } else {
        UpperDot(a, n, c, k);
      }
    }
  }

  lemma SameTail(a: seq<real>, n: nat, c: seq<real>, d: seq<real>, i: nat, k: nat)
    requires i < n == |c| == |d| && i <= k && forall j :: 0 <= j < n && j != i ==> d[j] == c[j]
    ensures Sum(n, Tail(a, n, d, k)) == Sum(n, Tail(a, n, c, k))
  {
    hide E, Sum;
    forall j | 0 <= j < n
      ensures Tail(a, n, d, k)(j) == Tail(a, n, c, k)(j)
    {
      assert j > k ==> Column(d)(j, 0) == Column(c)(j, 0);
    }
    SumEq(n, Tail(a, n, d, k), Tail(a, n, c, k));
  }

  lemma Divided(x: real, s: real, e: real, q: real)
    requires e != 0.0 && q == (x - s) / e
    ensures e * q + s == x
  {
  }

  lemma TailStart(a: seq<real>, n: nat, c: seq<real>, i: nat)
    ensures Sum(i + 1, Tail(a, n, c, i)) == 0.0
  {
    SumZero(i + 1, Tail(a, n, c, i));
  }

  /** The second loop of lubksb on b[off .. off + n]. */
  method Backward(A: array<real>, n: nat, b: array<real>, off: nat)
    requires A.Length == n * n && A != b && off + n <= b.Length
    requires forall i :: 0 <= i < n ==> E(A[..], n, i, i) != 0.0
    modifies b
    ensures Backed(A[..], n, b[off..off + n], old(b[off..off + n]), 0)
    ensures b[..off] == old(b[..off]) && b[off + n..] == old(b[off + n..])
  {
    hide E, Backed, Sum, Tail;
    ghost var y, before, after := b[off..off + n], b[..off], b[off + n..];
    BackStart(A[..], n, y);
    var i := n;
    while i > 0
      invariant 0 <= i <= n && Backed(A[..], n, b[off..off + n], y, i)
      invariant b[..off] == before && b[off + n..] == after
    {
      i := i - 1;
      ghost var c := b[off..off + n];
      var s := SubtractTail(A, n, b, off, i, c);
      var pivot := Entry(A, n, i, i);
      b[off + i] := s / pivot;
      assert b[off..off + n] == c[i := s / pivot];
      BackStep(A[..], n, c, b[off..off + n], y, i);
    }
  }

  lemma BackStart(a: seq<real>, n: nat, y: seq<real>)
    requires |y| == n
    ensures Backed(a, n, y, y, n)
  {
  }

  method SubtractTail(A: array<real>, n: nat, b: array<real>, off: nat, i: nat, ghost c: seq<real>) returns (s: real)
    requires A.Length == n * n && off + n <= b.Length && i < n && c == b[off..off + n]
    ensures s == c[i] - Sum(n, Tail(A[..], n, c, i))
  {
    hide E;
    s := b[off + i];
    TailStart(A[..], n, c, i);
    var j := i + 1;
    while j < n
      invariant i < j <= n
      invariant s == c[i] - Sum(j, Tail(A[..], n, c, i))
    {
      var u := Entry(A, n, i, j);
      assert Column(c)(j, 0) == c[j] == b[off + j];
      assert Tail(A[..], n, c, i)(j) == u * Column(c)(j, 0);
      s := s - u * b[off + j];
      j := j + 1;
    }
  }

  // ---------- lubksb ----------

  lemma LowerDot(a: seq<real>, n: nat, y: seq<real>, i: nat)
    requires i < n == |y|
    ensures Dot(Lower(a, n), Column(y), n, i, 0) == Dot(View(a, n), Column(y), i, i, 0) + y[i]
  {
    hide E;
    SumShort(n, i + 1, Term(Lower(a, n), Column(y), i, 0));
    SumEq(i, Term(Lower(a, n), Column(y), i, 0), Term(View(a, n), Column(y), i, 0));
  }

  lemma SolvedRow(a: seq<real>, a0: seq<real>, n: nat, p: seq<int>, b0: seq<real>, y: seq<real>, x: seq<real>, i: nat)
    requires i < n && IsLu(a, a0, n, p)
    requires Forwarded(a, n, y, b0, p, n) && Backed(a, n, x, y, 0)
    ensures Dot(View(a0, n), Column(x), n, p[i], 0) == b0[p[i]]
  {
    LuRow(a, a0, n, p, Column(x), i);
    LowerDot(a, n, y, i);
    hide E;
    DotSame(Lower(a, n), Product(Upper(a, n), Column(x), n), Lower(a, n), Column(y), n, i, 0);
  }

  ghost predicate Solves(a: Mat, n: nat, x: seq<real>, b: seq<real>)
  {
    |x| == |b| == n && forall r :: 0 <= r < n ==> Dot(a, Column(x), n, r, 0) == b[r]
  }

  lemma SolvedAll(a: seq<real>, a0: seq<real>, n: nat, p: seq<int>, b0: seq<real>, y: seq<real>, x: seq<real>)
    requires IsLu(a, a0, n, p) && Forwarded(a, n, y, b0, p, n) && Backed(a, n, x, y, 0)
    ensures Solves(View(a0, n), n, x, b0)
  {
    assert |x| == |b0| == n && IsPerm(p, n);
    hide IsLu, Forwarded, Backed, Dot;
    forall r | 0 <= r < n
      ensures Dot(View(a0, n), Column(x), n, r, 0) == b0[r]
    {
      var i := PermOnto(p, n, r);
      SolvedRow(a, a0, n, p, b0, y, x, i);
    }
  }

  /** lubksb: from the factors of a0 to the solution of a0 * x = b, in place at offset `off`. */
  method Lubksb(A: array<real>, n: nat, indx: array<int>, b: array<real>, off: nat, ghost a0: seq<real>)
    requires A.Length == n * n && indx.Length == n && A != b && off + n <= b.Length
    requires Pivots(indx[..], n, n) && IsLu(A[..], a0, n, PivotPerm(indx[..], n, n))
    modifies b
    ensures Solves(View(a0, n), n, b[off..off + n], old(b[off..off + n]))
    ensures b[..off] == old(b[..off]) && b[off + n..] == old(b[off + n..])
  {
    hide E, Forwarded, Backed, Solves, PivotPerm;
    ghost var b0 := b[off..off + n];
    Forward(A, n, indx, b, off);
    ghost var y := b[off..off + n];
    Backward(A, n, b, off);
    SolvedAll(A[..], a0, n, PivotPerm(indx[..], n, n), b0, y, b[off..off + n]);
  }

  // ---------- matinv ----------

  /** `b` is the two-sided inverse of `a`. */
  ghost predicate Inverse(a: Mat, b: Mat, n: nat)
  {
    && (forall i, j :: 0 <= i < n && 0 <= j < n ==> Dot(a, b, n, i, j) == Identity()(i, j))
    && (forall i, j :: 0 <= i < n && 0 <= j < n ==> Dot(b, a, n, i, j) == Identity()(i, j))
  }

  /** The first `m` columns of `b` are those of a right inverse. */
  ghost predicate RightInverse(a: Mat, b: Mat, n: nat, m: int)
  {
    forall i, j :: 0 <= i < n && 0 <= j < m ==> Dot(a, b, n, i, j) == Identity()(i, j)
  }

  /** A right inverse of a regular matrix is also a left inverse. */
  lemma LeftInverse(a: Mat, b: Mat, n: nat, k: nat, j: nat)
    requires RightInverse(a, b, n, n) && !Singular(a, n, n) && k < n && j < n
    ensures Dot(b, a, n, k, j) == Identity()(k, j)
  {
    var x := seq(n, k => Dot(b, a, n, k, j) - Identity()(k, j));
    forall i | 0 <= i < n
      ensures Dot(a, Column(x), n, i, 0) == 0.0
    {
      InverseDefect(a, b, n, i, j, x);
    }
    if x[k] != 0.0 {
      assert NonZero(x) && Annihilates(a, n, n, x);
    }
  }

  lemma InverseDefect(a: Mat, b: Mat, n: nat, i: nat, j: nat, x: seq<real>)
    requires RightInverse(a, b, n, n) && i < n && j < n && |x| == n
    requires forall k :: 0 <= k < n ==> x[k] == Dot(b, a, n, k, j) - Identity()(k, j)
    ensures Dot(a, Column(x), n, i, 0) == 0.0
  {
    var f, g, h := Term(a, Product(b, a, n), i, j), Term(a, Identity(), i, j), Term(a, Column(x), i, 0);
    forall k | 0 <= k < n
      ensures f(k) == h(k) + g(k)
    {
      Distribute(a(i, k), x[k], Identity()(k, j));
    }
    SumAdd(n, h, g, f);
    DotIdentity(a, n, i, j);
    ProductAssoc(a, b, a, n, n, i, j);
    DotSame(Product(a, b, n), a, Identity(), a, n, i, j);
    IdentityDot(a, n, i, j);
  }

  /** Entries of a column, read from the slice of the array that holds it. */
  lemma ColumnSlice(a: seq<real>, n: nat, j: nat, k: nat)
    requires |a| == n * n && j < n && k < n
    ensures 0 <= j * n && j * n + n <= |a|
    ensures E(a, n, k, j) == a[j * n..j * n + n][k]
  {
    IndexBounds(n, n, k, j);
    IndexBounds(n, n, 0, j);
    IndexBounds(n, n, n - 1, j);
  }

  lemma EarlierColumn(a: seq<real>, b: seq<real>, n: nat, j: nat, k: nat, c: nat)
    requires |a| == |b| == n * n && c < j < n && k < n
    requires 0 <= j * n <= |a| && a[..j * n] == b[..j * n]
    ensures E(a, n, k, c) == E(b, n, k, c)
  {
    IndexBounds(n, n, k, c);
    MulMono(c + 1, j, n);
    MulStep(c, n);
    assert a[k + c * n] == a[..j * n][k + c * n];
    assert b[k + c * n] == b[..j * n][k + c * n];
  }

  /** Solving for one more unit vector gives one more column of the inverse. */
  lemma InverseColumn(a0: seq<real>, a: seq<real>, b: seq<real>, n: nat, j: nat, e: seq<real>)
    requires |a| == |b| == n * n && j < n && RightInverse(View(a0, n), View(a, n), n, j)
    requires 0 <= j * n && j * n + n <= |a| && b[..j * n] == a[..j * n]
    requires |e| == n && forall k :: 0 <= k < n ==> e[k] == Identity()(k, j)
    requires Solves(View(a0, n), n, b[j * n..j * n + n], e)
    ensures RightInverse(View(a0, n), View(b, n), n, j + 1)
  {
    hide E;
    var x := b[j * n..j * n + n];
    forall i, c | 0 <= i < n && 0 <= c < j + 1
      ensures Dot(View(a0, n), View(b, n), n, i, c) == Identity()(i, c)
    {
      if c == j {
        forall k | 0 <= k < n
          ensures View(b, n)(k, j) == Column(x)(k, 0)
        {
          ColumnSlice(b, n, j, k);
        }
        SumEq(n, Term(View(a0, n), View(b, n), i, j), Term(View(a0, n), Column(x), i, 0));
      } else {
        forall k | 0 <= k < n
          ensures View(b, n)(k, c) == View(a, n)(k, c)
        {
          EarlierColumn(b, a, n, j, k, c);
        }
        DotSame(View(a0, n), View(b, n), View(a0, n), View(a, n), n, i, c);
      }
    }
  }

  lemma RightIsTwoSided(a: seq<real>, n: nat, b: Mat)
    requires RightInverse(View(a, n), b, n, n) && !Singular(View(a, n), n, n)
    ensures Inverse(View(a, n), b, n)
  {
    forall i, j | 0 <= i < n && 0 <= j < n
      ensures Dot(b, View(a, n), n, i, j) == Identity()(i, j)
    {
      LeftInverse(View(a, n), b, n, i, j);
    }
  }

  /** One column of matinv: a unit vector is written and solved for in place. */
  method SolveUnit(A: array<real>, n: nat, B: array<real>, indx: array<int>, j: nat, ghost a0: seq<real>)
    requires A.Length == B.Length == n * n && indx.Length == n && A != B && j < n
    requires Pivots(indx[..], n, n) && IsLu(B[..], a0, n, PivotPerm(indx[..], n, n))
    requires RightInverse(View(a0, n), View(A[..], n), n, j)
    modifies A
    ensures RightInverse(View(a0, n), View(A[..], n), n, j + 1)
  {
    hide E, IsLu, PivotPerm, RightInverse, Solves;
    IndexBounds(n, n, 0, j);
    IndexBounds(n, n, n - 1, j);
    ghost var a := A[..];
    ghost var e := WriteUnit(A, n, j, j * n);
    Lubksb(B, n, indx, A, j * n, a0);
    InverseColumn(a0, a, A[..], n, j, e);
  }

  /** The loop of matinv that writes a unit vector into column j. */
  method WriteUnit(A: array<real>, n: nat, j: nat, off: nat) returns (ghost e: seq<real>)
    requires j < n && off + n <= A.Length
    modifies A
    ensures e == A[off..off + n] && forall k :: 0 <= k < n ==> e[k] == Identity()(k, j)
    ensures A[..off] == old(A[..off]) && A[off + n..] == old(A[off + n..])
  {
    var i := 0;
    while i < n
      invariant 0 <= i <= n
      invariant forall k :: 0 <= k < off ==> A[k] == old(A[k])
      invariant forall k :: off <= k < off + i ==> A[k] == 0.0
      invariant forall k :: off + n <= k < A.Length ==> A[k] == old(A[k])
    {
      A[i + off] := 0.0;
      i := i + 1;
    }
    A[j + off] := 1.0;
    e := A[off..off + n];
  }

  /** matinv.  Zero means that `A` holds the inverse; -1 means that it is singular,
      and leaves it as it was. */
  method Matinv(A: array<real>, n: nat) returns (status: int)
    requires A.Length == n * n
    modifies A
    ensures status == 0 || status == -1
    ensures status == 0 ==> Inverse(View(old(A[..]), n), View(A[..], n), n)
    ensures status == -1 ==> A[..] == old(A[..])
    ensures status == -1 <==> Singular(View(old(A[..]), n), n, n)
  {
    hide E, IsLu, PivotPerm, RightInverse, Singular, Inverse;
    ghost var a0 := A[..];
    var indx := new int[n];
    var B := new real[n * n];
    forall i | 0 <= i < n * n {
      B[i] := A[i];
    }
    assert B[..] == a0;
    var info, d := Ludcmp(B, n, indx);
    if info != 0 {
      return -1;
    }
    RightInverseNone(View(a0, n), View(A[..], n), n);
    var j := 0;
    while j < n
      invariant 0 <= j <= n && RightInverse(View(a0, n), View(A[..], n), n, j)
      invariant Pivots(indx[..], n, n) && IsLu(B[..], a0, n, PivotPerm(indx[..], n, n))
    {
      SolveUnit(A, n, B, indx, j, a0);
      j := j + 1;
    }
    RightIsTwoSided(a0, n, View(A[..], n));
    return 0;
  }

  lemma RightInverseNone(a: Mat, b: Mat, n: nat)
    ensures RightInverse(a, b, n, 0)
  {
  }
}
