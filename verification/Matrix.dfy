/** Column-major matrices of rtkcmn.c: entries, products, inverses, null vectors. */
module Matrix {
  import opened Arith
  import opened RealSum

  type Mat = (int, int) -> real

  /** Entry (i, j) of a column-major matrix with `rows` rows stored in `a`. */
  function E(a: seq<real>, rows: int, i: int, j: int): real
  {
    if 0 <= i < rows && 0 <= j && 0 <= i + j * rows < |a| then a[i + j * rows] else 0.0
  }

  function View(a: seq<real>, rows: int): Mat
  {
    (i, j) => E(a, rows, i, j)
  }

  lemma IndexBounds(rows: nat, columns: nat, i: nat, j: nat)
    requires i < rows && j < columns
    ensures 0 <= i + j * rows < rows * columns
  {
    MulMono(0, j, rows);
    MulMono(j, columns - 1, rows);
    MulStep(columns, rows);
  }

  lemma IndexInjective(rows: nat, i: nat, j: nat, p: nat, q: nat)
    requires i < rows && p < rows && i + j * rows == p + q * rows
    ensures i == p && j == q
  {
    DivModUnique(i + j * rows, rows, j, i);
    DivModUnique(p + q * rows, rows, q, p);
  }

  lemma EntryIs(a: seq<real>, rows: int, i: int, j: int, at: int)
    requires at == i + j * rows && 0 <= i < rows && 0 <= j && 0 <= at < |a|
    ensures E(a, rows, i, j) == a[at]
  {
  }

  /** Storing one entry changes that entry only. */
  lemma StoreEntry(a: seq<real>, b: seq<real>, rows: nat, columns: nat, size: nat, i: nat, j: nat, at: nat, v: real)
    requires i < rows && j < columns && |a| == size == rows * columns
    requires at == i + j * rows && at < |a| && b == a[at := v]
    ensures forall p, q :: 0 <= p < rows && 0 <= q < columns ==>
              E(b, rows, p, q) == if p == i && q == j then v else E(a, rows, p, q)
  {
    hide E;
    forall p, q | 0 <= p < rows && 0 <= q < columns
      ensures E(b, rows, p, q) == if p == i && q == j then v else E(a, rows, p, q)
    {
      IndexBounds(rows, columns, p, q);
      StoredAt(a, b, rows, i, j, at, p, q, p + q * rows, v);
    }
  }

  lemma StoredAt(a: seq<real>, b: seq<real>, rows: nat, i: nat, j: nat, at: nat, p: nat, q: nat, pos: nat, v: real)
    requires i < rows && p < rows && at == i + j * rows && pos == p + q * rows && at < |a| && pos < |a| && b == a[at := v]
    ensures E(b, rows, p, q) == if p == i && q == j then v else E(a, rows, p, q)
  {
    EntryIs(a, rows, p, q, pos);
    EntryIs(b, rows, p, q, pos);
    hide E;
    if at == pos {
      IndexInjective(rows, i, j, p, q);
    }
  }

  // ---------- products ----------

  function Term(a: Mat, b: Mat, i: int, j: int): int -> real
  {
    k => a(i, k) * b(k, j)
  }

  /** Entry (i, j) of the product over an inner dimension m. */
  function Dot(a: Mat, b: Mat, m: nat, i: int, j: int): real
  {
    Sum(m, Term(a, b, i, j))
  }

  function Product(a: Mat, b: Mat, m: nat): Mat
  {
    (i, j) => Dot(a, b, m, i, j)
  }

  /** A vector as a matrix of one column. */
  function Column(x: seq<real>): Mat
  {
    (i, _) => if 0 <= i < |x| then x[i] else 0.0
  }

  function Identity(): Mat
  {
    (i, j) => if i == j then 1.0 else 0.0
  }

  function Transpose(a: Mat): Mat
  {
    (i, j) => a(j, i)
  }

  ghost predicate Same(a: Mat, b: Mat, n: nat, m: nat)
  {
    forall i, j :: 0 <= i < n && 0 <= j < m ==> a(i, j) == b(i, j)
  }

  lemma DotSame(a: Mat, b: Mat, c: Mat, d: Mat, m: nat, i: int, j: int)
    requires forall k :: 0 <= k < m ==> a(i, k) == c(i, k)
    requires forall k :: 0 <= k < m ==> b(k, j) == d(k, j)
    ensures Dot(a, b, m, i, j) == Dot(c, d, m, i, j)
  {
    SumEq(m, Term(a, b, i, j), Term(c, d, i, j));
  }

  function Triple(a: Mat, b: Mat, c: Mat, i: int, j: int): (int, int) -> real
  {
    (k, l) => a(i, k) * b(k, l) * c(l, j)
  }

  lemma RowTerm(a: Mat, b: Mat, c: Mat, n: nat, i: int, j: int, k: int)
    ensures Term(a, Product(b, c, n), i, j)(k) == RowSums(n, Triple(a, b, c, i, j))(k)
  {
    hide Sum;
    var t := Triple(a, b, c, i, j);
    var r := l => t(k, l);
    SumScale(n, a(i, k), Term(b, c, k, j), r);
  }

  lemma ColumnTerm(a: Mat, b: Mat, c: Mat, m: nat, i: int, j: int, l: int)
    ensures ColumnSums(m, Triple(a, b, c, i, j))(l) == Term(Product(a, b, m), c, i, j)(l)
  {
    hide Sum;
    var t := Triple(a, b, c, i, j);
    var r := k => t(k, l);
    SumScale(m, c(l, j), Term(a, b, i, l), r);
  }

  lemma ProductAssoc(a: Mat, b: Mat, c: Mat, m: nat, n: nat, i: int, j: int)
    ensures Dot(a, Product(b, c, n), m, i, j) == Dot(Product(a, b, m), c, n, i, j)
  {
    hide Sum, Term, Product, Triple, RowSums, ColumnSums;
    var t := Triple(a, b, c, i, j);
    forall k | 0 <= k < m
      ensures Term(a, Product(b, c, n), i, j)(k) == RowSums(n, t)(k)
    {
      RowTerm(a, b, c, n, i, j, k);
    }
    SumEq(m, Term(a, Product(b, c, n), i, j), RowSums(n, t));
    SumSwap(m, n, t);
    forall l | 0 <= l < n
      ensures ColumnSums(m, t)(l) == Term(Product(a, b, m), c, i, j)(l)
    {
      ColumnTerm(a, b, c, m, i, j, l);
    }
    SumEq(n, ColumnSums(m, t), Term(Product(a, b, m), c, i, j));
  }

  lemma DotIdentity(a: Mat, m: nat, i: int, j: nat)
    requires j < m
    ensures Dot(a, Identity(), m, i, j) == a(i, j)
  {
    SumOne(m, j, Term(a, Identity(), i, j));
  }

  lemma IdentityDot(a: Mat, m: nat, i: nat, j: int)
    requires i < m
    ensures Dot(Identity(), a, m, i, j) == a(i, j)
  {
    SumOne(m, i, Term(Identity(), a, i, j));
  }
}
