/** ludcmp of rtkcmn.c: in-place LU factorisation with partial pivoting. */
module LuDecomposition {
  import opened Matrix
  import opened NullVectors
  import opened RealArith
  import opened LuFactors

  /** The row exchanges recorded in `indx`, applied to the first m rows in order. */
  ghost function PivotPerm(indx: seq<int>, n: nat, m: nat): (p: seq<int>)
    requires m <= n <= |indx| && forall k :: 0 <= k < m ==> k <= indx[k] < n
    ensures IsPerm(p, n)
    ensures m == 0 ==> forall i :: 0 <= i < n ==> p[i] == i
  {
    if m == 0 then seq(n, i => i)
    else
      var p := PivotPerm(indx, n, m - 1);
      SwappedPerm(p, n, m - 1, indx[m - 1]);
      Swapped(p, m - 1, indx[m - 1])
  }

  /** The sign of the row permutation: -1 for every true exchange. */
  function Sign(indx: seq<int>, m: nat): real
    requires m <= |indx|
  {
    if m == 0 then 1.0 else if indx[m - 1] != m - 1 then -Sign(indx, m - 1) else Sign(indx, m - 1)
  }

  /** The inner loop of ludcmp: entry (i, j) less the first m products. */
  method Reduce(A: array<real>, n: nat, i: nat, j: nat, m: nat) returns (s: real)
    requires A.Length == n * n && i < n && j < n && m <= n
    ensures s == E(A[..], n, i, j) - Part(A[..], n, m, i, j)
  {
    hide E, Part;
    s := Entry(A, n, i, j);
    PartStep(A[..], n, 0, i, j);
    var k := 0;
    while k < m
      invariant 0 <= k <= m
      invariant s == E(A[..], n, i, j) - Part(A[..], n, k, i, j)
    {
      var l := Entry(A, n, i, k);
      var u := Entry(A, n, k, j);
      PartStep(A[..], n, k, i, j);
      s := s - l * u;
      k := k + 1;
    }
  }

  lemma PartStep(a: seq<real>, n: nat, m: nat, i: int, j: int)
    ensures Part(a, n, 0, i, j) == 0.0
    ensures Part(a, n, m + 1, i, j) == Part(a, n, m, i, j) + E(a, n, i, m) * E(a, n, m, j)
  {
    hide E;
  }

  /** `A[i + j * n] = v` */
  method Store(A: array<real>, n: nat, i: nat, j: nat, v: real)
    requires A.Length == n * n && i < n && j < n
    modifies A
    ensures forall p, q :: 0 <= p < n && 0 <= q < n ==>
              E(A[..], n, p, q) == if p == i && q == j then v else E(old(A[..]), n, p, q)
  {
    hide E;
    IndexBounds(n, n, i, j);
    ghost var a := A[..];
    var at := i + j * n;
    A[at] := v;
    StoreEntry(a, A[..], n, n, A.Length, i, j, at, v);
  }

  /** The row exchange of ludcmp. */
  method SwapRows(A: array<real>, n: nat, r: nat, s: nat)
    requires A.Length == n * n && r < n && s < n
    modifies A
    ensures forall i, c :: 0 <= i < n && 0 <= c < n ==> E(A[..], n, i, c) == E(old(A[..]), n, Other(r, s, i), c)
  {
    ghost var a := A[..];
    var k := 0;
    while k < n
      invariant 0 <= k <= n
      invariant forall i, c :: 0 <= i < n && 0 <= c < n ==>
                  E(A[..], n, i, c) == if c < k then E(a, n, Other(r, s, i), c) else E(a, n, i, c)
    {
      hide E;
      var tmp := Entry(A, n, s, k);
      var v := Entry(A, n, r, k);
      Store(A, n, s, k, v);
      Store(A, n, r, k, tmp);
      k := k + 1;
    }
  }

  /** `A[i + j * n]` */
  method Entry(A: array<real>, n: nat, i: nat, j: nat) returns (v: real)
    requires A.Length == n * n && i < n && j < n
    ensures v == E(A[..], n, i, j)
  {
    hide E;
    IndexBounds(n, n, i, j);
    var at := i + j * n;
    EntryIs(A[..], n, i, j, at);
    v := A[at];
  }

  /** The division of the rows below the pivot. */
  method ScaleBelow(A: array<real>, n: nat, j: nat, tmp: real)
    requires A.Length == n * n && j < n
    modifies A
    ensures forall i, c :: 0 <= i < n && 0 <= c < n ==>
              E(A[..], n, i, c) == if c == j && i > j then E(old(A[..]), n, i, j) * tmp else E(old(A[..]), n, i, c)
  {
    hide E;
    ghost var a := A[..];
    var i := j + 1;
    while i < n
      invariant j < i <= n
      invariant forall r, c :: 0 <= r < n && 0 <= c < n ==>
                  E(A[..], n, r, c) == if c == j && j < r < i then E(a, n, r, j) * tmp else E(a, n, r, c)
    {
      var v := Entry(A, n, i, j);
      Store(A, n, i, j, v * tmp);
      i := i + 1;
    }
  }

  // ---------- which row is the pivot ----------

  /** The largest absolute value among the first m entries of row i. */
  ghost function RowMax(a: seq<real>, n: nat, i: int, m: nat): (r: real)
    ensures r >= 0.0
  {
    if m == 0 then 0.0
    else if Abs(E(a, n, i, m - 1)) > RowMax(a, n, i, m - 1) then Abs(E(a, n, i, m - 1))
    else RowMax(a, n, i, m - 1)
  }

  lemma {:induction false} RowMaxIs(a: seq<real>, n: nat, i: int, m: nat)
    ensures forall k :: 0 <= k < m ==> Abs(E(a, n, i, k)) <= RowMax(a, n, i, m)
    ensures m > 0 ==> exists k :: 0 <= k < m && Abs(E(a, n, i, k)) == RowMax(a, n, i, m)
  {
    hide E;
    if m > 0 {
      RowMaxIs(a, n, i, m - 1);
      assert m - 1 > 0 || Abs(E(a, n, i, m - 1)) == RowMax(a, n, i, m);
    }
  }

  /** `v` is the reciprocal of the largest entry of row i. */
  ghost predicate IsScale(a: seq<real>, n: nat, i: int, v: real)
  {
    v > 0.0 && v * RowMax(a, n, i, n) == 1.0
  }

  /** From position j on, vv holds the scales of the rows of the given matrix. */
  ghost predicate Scales(vv: seq<real>, a0: seq<real>, n: nat, p: seq<int>, j: nat)
  {
    |vv| == |p| == n && forall i :: j <= i < n ==> IsScale(a0, n, p[i], vv[i])
  }

  /** Factor e is at most the ratio of mx to my. */
  ghost predicate AtMost(e: real, mx: real, my: real)
  {
    Abs(e) * my <= mx
  }

  ghost predicate LessThan(e: real, mx: real, my: real)
  {
    Abs(e) * my < mx
  }

  /** Row l was no better a pivot of column c than row c: its factor is at most the ratio of
      the largest entries of the two rows of the given matrix. */
  ghost predicate NoBetter(a: seq<real>, a0: seq<real>, n: nat, p: seq<int>, c: nat, l: nat)
    requires c < |p| && l < |p|
  {
    AtMost(E(a, n, l, c), RowMax(a0, n, p[l], n), RowMax(a0, n, p[c], n))
  }

  ghost predicate Worse(a: seq<real>, a0: seq<real>, n: nat, p: seq<int>, c: nat, l: nat)
    requires c < |p| && l < |p|
  {
    LessThan(E(a, n, l, c), RowMax(a0, n, p[l], n), RowMax(a0, n, p[c], n))
  }

  /** In the first m columns the pivot is the largest entry relative to its row, and of
      several the last, by the order of the rows when its column was reached. */
  ghost predicate BestPivots(a: seq<real>, a0: seq<real>, n: nat, p: seq<int>, indx: seq<int>, m: nat)
  {
    && Pivots(indx, n, m) && |p| == n
    && (forall c, l :: 0 <= c < m && c < l < n ==> NoBetter(a, a0, n, p, c, l))
    && (forall c, l, i :: 0 <= c < m && c < l < n && indx[c] < i < n && p[l] == PivotPerm(indx, n, c)[i] ==> Worse(a, a0, n, p, c, l))
  }

  lemma BestStart(a: seq<real>, a0: seq<real>, n: nat, p: seq<int>, indx: seq<int>)
    requires |p| == n <= |indx|
    ensures BestPivots(a, a0, n, p, indx, 0)
  {
  }

  /** Columns from j on do not matter. */
  lemma BestSame(a: seq<real>, b: seq<real>, a0: seq<real>, n: nat, p: seq<int>, indx: seq<int>, j: nat)
    requires BestPivots(a, a0, n, p, indx, j)
    requires forall i, c :: 0 <= i < n && 0 <= c < j ==> E(b, n, i, c) == E(a, n, i, c)
    ensures BestPivots(b, a0, n, p, indx, j)
  {
    hide E, RowMax, PivotPerm;
    forall c, l | 0 <= c < j && c < l < n
      ensures NoBetter(b, a0, n, p, c, l) && (Worse(a, a0, n, p, c, l) ==> Worse(b, a0, n, p, c, l))
    {
      assert NoBetter(a, a0, n, p, c, l);
    }
  }

  /** Exchanging rows j and m, both past the first j columns' pivots, does not matter. */
  lemma BestSwap(a: seq<real>, b: seq<real>, a0: seq<real>, n: nat, p: seq<int>, indx: seq<int>, j: nat, m: nat)
    requires j <= m < n && BestPivots(a, a0, n, p, indx, j)
    requires forall i, c :: 0 <= i < n && 0 <= c < n ==> E(b, n, i, c) == E(a, n, Other(j, m, i), c)
    ensures BestPivots(b, a0, n, Swapped(p, j, m), indx, j)
  {
    hide E, RowMax, PivotPerm;
    var q := Swapped(p, j, m);
    forall c, l | 0 <= c < j && c < l < n
      ensures NoBetter(b, a0, n, q, c, l) && (Worse(a, a0, n, p, c, Other(j, m, l)) ==> Worse(b, a0, n, q, c, l))
    {
      assert NoBetter(a, a0, n, p, c, Other(j, m, l));
    }
    forall c, l, i | 0 <= c < j && c < l < n && indx[c] < i < n && q[l] == PivotPerm(indx, n, c)[i]
      ensures Worse(b, a0, n, q, c, l)
    {
      assert q[l] == p[Other(j, m, l)];
    }
  }

  /** Recording the next exchange does not matter. */
  lemma BestRecorded(a: seq<real>, a0: seq<real>, n: nat, p: seq<int>, indx: seq<int>, ix: seq<int>, j: nat)
    requires BestPivots(a, a0, n, p, indx, j) && |ix| == |indx| && forall k :: 0 <= k < j ==> ix[k] == indx[k]
    ensures BestPivots(a, a0, n, p, ix, j)
  {
    hide NoBetter, Worse, PivotPerm;
    assert Pivots(ix, n, j);
    forall c | 0 <= c < j
      ensures PivotPerm(ix, n, c) == PivotPerm(indx, n, c)
    {
      PivotPermPrefix(indx, ix, n, c);
    }
  }

  lemma Cleared(v: real, m: real, x: real, l: real)
    requires v * m == 1.0 && l == v * x
    ensures l * m == x
  {
    assert l * m == v * m * x;
  }

  lemma CrossMultiplied(l: real, r: real, mx: real, my: real, x: real, y: real)
    requires mx > 0.0 && my > 0.0 && x == l * mx && y == r * my
    ensures l <= r ==> x * my <= y * mx
    ensures l < r ==> x * my < y * mx
  {
    var k := mx * my;
    ProductPositive(mx, my, k);
    assert x * my == l * k && y * mx == r * k;
    if l <= r {
      MulLe(k, l, r);
    }
    if l < r {
      ProductPositive(k, r - l, k * (r - l));
    }
  }

  lemma Divided(y: real, p: real, q: real)
    requires y > 0.0
    ensures y * p <= y * q ==> p <= q
    ensures y * p < y * q ==> p < q
  {
    if p > q {
      ProductPositive(y, p - q, y * (p - q));
    }
  }

  /** From the comparison of weights to that of a factor with the ratio of row maxima. */
  lemma RatioBound(v: real, w: real, x: real, y: real, e: real, mx: real, my: real)
    requires v * mx == 1.0 && w * my == 1.0 && mx >= 0.0 && my >= 0.0 && y != 0.0 && e == x * (1.0 / y)
    ensures Scaled(v, x) <= Scaled(w, y) ==> AtMost(e, mx, my)
    ensures Scaled(v, x) < Scaled(w, y) ==> LessThan(e, mx, my)
  {
    assert mx > 0.0 && my > 0.0;
    DivideBack(x, y);
    AbsProduct(e, y, x, Abs(e) * Abs(y));
    var g, ax, ay := Abs(e), Abs(x), Abs(y);
    assert g * ay == ax && ay > 0.0;
    hide *;
    Cleared(v, mx, ax, v * ax);
    Cleared(w, my, ay, w * ay);
    CrossMultiplied(v * ax, w * ay, mx, my, ax, ay);
    assert ax * my == ay * (g * my);
    Divided(ay, g * my, mx);
  }

  /** The column just divided obeys the rule: its pivot came from row imax. */
  lemma BestNext(a: seq<real>, b: seq<real>, a0: seq<real>, n: nat, p: seq<int>, vv: seq<real>, j: nat, imax: nat, l: nat)
    requires j <= imax < n && j < l < n && |p| == n && |vv| == n && Largest(a, n, vv, j, n, imax) && Scales(vv, a0, n, p, j)
    requires E(a, n, imax, j) != 0.0 && E(b, n, l, j) == E(a, n, Other(imax, j, l), j) * (1.0 / E(a, n, imax, j))
    ensures NoBetter(b, a0, n, Swapped(p, j, imax), j, l)
    ensures Other(imax, j, l) > imax ==> Worse(b, a0, n, Swapped(p, j, imax), j, l)
  {
    hide E, RowMax;
    var o := Other(imax, j, l);
    hide IsScale, Scaled, AtMost, LessThan;
    assert Weight(a, n, vv, o, j) <= Weight(a, n, vv, imax, j) && (o > imax ==> Weight(a, n, vv, o, j) < Weight(a, n, vv, imax, j));
    NoBetterRow(vv[o], vv[imax], E(a, n, o, j), E(a, n, imax, j), E(b, n, l, j), a0, n, p[o], p[imax]);
  }

  lemma NoBetterRow(v: real, w: real, x: real, y: real, e: real, a0: seq<real>, n: nat, r: int, s: int)
    requires IsScale(a0, n, r, v) && IsScale(a0, n, s, w) && y != 0.0 && e == x * (1.0 / y)
    ensures Scaled(v, x) <= Scaled(w, y) ==> AtMost(e, RowMax(a0, n, r, n), RowMax(a0, n, s, n))
    ensures Scaled(v, x) < Scaled(w, y) ==> LessThan(e, RowMax(a0, n, r, n), RowMax(a0, n, s, n))
  {
    hide RowMax, Scaled, AtMost, LessThan;
    RatioBound(v, w, x, y, e, RowMax(a0, n, r, n), RowMax(a0, n, s, n));
  }

  /** With it the rule holds for one more column. */
  lemma BestExtended(a: seq<real>, b: seq<real>, a0: seq<real>, n: nat, p: seq<int>, ix: seq<int>, vv: seq<real>, j: nat, imax: nat)
    requires j <= imax < n && IsPerm(p, n) && BestPivots(b, a0, n, Swapped(p, j, imax), ix, j) && ix[j] == imax && p == PivotPerm(ix, n, j)
    requires |vv| == n && Largest(a, n, vv, j, n, imax) && Scales(vv, a0, n, p, j) && E(a, n, imax, j) != 0.0
    requires forall l :: j < l < n ==> E(b, n, l, j) == E(a, n, Other(imax, j, l), j) * (1.0 / E(a, n, imax, j))
    ensures BestPivots(b, a0, n, Swapped(p, j, imax), ix, j + 1)
  {
    hide E, RowMax, PivotPerm, NoBetter, Worse, Largest, Scales;
    var q := Swapped(p, j, imax);
    forall l | j < l < n
      ensures NoBetter(b, a0, n, q, j, l) && q[l] == p[Other(imax, j, l)]
      ensures Other(imax, j, l) > imax ==> Worse(b, a0, n, q, j, l)
    {
      BestNext(a, b, a0, n, p, vv, j, imax, l);
    }
    forall l, i | j < l < n && imax < i < n && q[l] == p[i]
      ensures Worse(b, a0, n, q, j, l)
    {
      assert p[Other(imax, j, l)] == p[i];
    }
  }

  /** The inner loop of the scaling: the largest entry of a row. */
  method LargestInRow(A: array<real>, n: nat, i: nat) returns (big: real)
    requires A.Length == n * n && i < n
    ensures big == RowMax(A[..], n, i, n)
  {
    hide E;
    big := 0.0;
    var j := 0;
    while j < n
      invariant 0 <= j <= n && big == RowMax(A[..], n, i, j)
    {
      var tmp := Entry(A, n, i, j);
      if Abs(tmp) > big {
        big := Abs(tmp);
      }
      j := j + 1;
    }
  }

  /** The scaling loop of ludcmp: the reciprocal of the largest entry of each row, or a row
      of zeros. */
  method RowScales(A: array<real>, n: nat, vv: array<real>) returns (zero: int)
    requires A.Length == n * n && vv.Length == n && A != vv
    modifies vv
    ensures A[..] == old(A[..])
    ensures -1 <= zero < n
    ensures zero == -1 ==> forall i :: 0 <= i < n ==> IsScale(A[..], n, i, vv[i])
    ensures zero >= 0 ==> forall j :: 0 <= j < n ==> E(A[..], n, zero, j) == 0.0
  {
    hide E, RowMax, IsScale;
    var i := 0;
    while i < n
      invariant 0 <= i <= n && A[..] == old(A[..])
      invariant forall k :: 0 <= k < i ==> IsScale(A[..], n, k, vv[k])
    {
      var big := LargestInRow(A, n, i);
      if big > 0.0 {
        ScaleIs(A[..], n, i, big);
        vv[i] := 1.0 / big;
      } else {
        RowMaxIs(A[..], n, i, n);
        return i;
      }
      i := i + 1;
    }
    return -1;
  }

  lemma ScaleIs(a: seq<real>, n: nat, i: nat, big: real)
    requires big == RowMax(a, n, i, n) && big > 0.0
    ensures IsScale(a, n, i, 1.0 / big)
  {
    hide RowMax;
    ReciprocalPositive(big);
  }

  lemma ReciprocalPositive(x: real)
    requires x > 0.0
    ensures 1.0 / x > 0.0 && 1.0 / x * x == 1.0
  {
    assert 1.0 / x * x == 1.0;
  }

  /** The columns before j are the same. */
  ghost predicate SameFront(a: seq<real>, b: seq<real>, n: nat, j: nat)
  {
    forall i, c :: 0 <= i < n && 0 <= c < j ==> E(b, n, i, c) == E(a, n, i, c)
  }

  /** The first row loop of ludcmp for column j: rows above the diagonal. */
  method ReduceAbove(A: array<real>, n: nat, j: nat, ghost a0: seq<real>, ghost p: seq<int>)
    requires A.Length == n * n && j < n && LuState(A[..], a0, n, p, j, 0)
    modifies A
    ensures LuState(A[..], a0, n, p, j, j) && SameFront(old(A[..]), A[..], n, j)
  {
    hide E, Part, LuState;
    var i := 0;
    while i < j
      invariant 0 <= i <= j && LuState(A[..], a0, n, p, j, i) && SameFront(old(A[..]), A[..], n, j)
    {
      ghost var a := A[..];
      var s := Reduce(A, n, i, j, i);
      Store(A, n, i, j, s);
      StateReduce(a, A[..], a0, n, p, j, i);
      i := i + 1;
    }
  }

  /** Row `imax` holds the largest scaled entry of column j among rows j to end - 1, the last
      of several. */
  ghost predicate Largest(a: seq<real>, n: nat, vv: seq<real>, j: nat, end: int, imax: int)
  {
    && j <= imax < end <= n && |vv| == n
    && forall i :: j <= i < end ==>
         && Weight(a, n, vv, i, j) <= Weight(a, n, vv, imax, j)
         && (i > imax ==> Weight(a, n, vv, i, j) < Weight(a, n, vv, imax, j))
  }

  function Scaled(v: real, s: real): real
  {
    v * Abs(s)
  }

  function Weight(a: seq<real>, n: nat, vv: seq<real>, i: nat, j: nat): real
    requires i < |vv|
  {
    Scaled(vv[i], E(a, n, i, j))
  }

  /** The second row loop of ludcmp for column j: the rest of the column and the pivot. */
  method ReduceBelow(A: array<real>, n: nat, j: nat, vv: array<real>, imax0: int, ghost a0: seq<real>, ghost p: seq<int>)
    returns (imax: int)
    requires A.Length == n * n && j < n && vv.Length == n && vv != A && LuState(A[..], a0, n, p, j, j)
    requires forall i :: j <= i < n ==> vv[i] > 0.0
    modifies A
    ensures LuState(A[..], a0, n, p, j, n)
    ensures j <= imax < n && Largest(A[..], n, vv[..], j, n, imax) && vv[..] == old(vv[..])
    ensures SameFront(old(A[..]), A[..], n, j)
  {
    hide E, Part, LuState, Largest, Weight;
    imax := imax0;
    var big := 0.0;
    var i := j;
    while i < n
      invariant j <= i <= n && LuState(A[..], a0, n, p, j, i)
      invariant i == j ==> big == 0.0
      invariant i > j ==> j <= imax < i
      invariant i > j ==> Largest(A[..], n, vv[..], j, i, imax) && big == Weight(A[..], n, vv[..], imax, j)
      invariant vv[..] == old(vv[..]) && SameFront(old(A[..]), A[..], n, j)
    {
      ghost var a := A[..];
      var s := Reduce(A, n, i, j, j);
      Store(A, n, i, j, s);
      StateReduce(a, A[..], a0, n, p, j, i);
      LargestNext(a, A[..], n, vv[..], j, i, imax, big);
      if vv[i] * Abs(s) >= big {
        big := vv[i] * Abs(s);
        imax := i;
      }
      i := i + 1;
    }
  }

  lemma LargestNext(a: seq<real>, b: seq<real>, n: nat, vv: seq<real>, j: nat, i: nat, imax: int, big: real)
    requires |vv| == n && j <= i < n && vv[i] > 0.0
    requires if i == j then big == 0.0 else Largest(a, n, vv, j, i, imax) && big == Weight(a, n, vv, imax, j)
    requires forall k :: j <= k < i ==> E(b, n, k, j) == E(a, n, k, j)
    ensures var w := vv[i] * Abs(E(b, n, i, j));
            var m := if w >= big then i else imax;
            Largest(b, n, vv, j, i + 1, m) && Weight(b, n, vv, m, j) == if w >= big then w else big
  {
    hide E;
    WeightNonNegative(vv[i], E(b, n, i, j));
    forall k | j <= k < i
      ensures Weight(b, n, vv, k, j) == Weight(a, n, vv, k, j)
    {
    }
  }

  lemma WeightNonNegative(v: real, s: real)
    requires v > 0.0
    ensures v * Abs(s) >= 0.0
    ensures v * Abs(s) == 0.0 ==> s == 0.0
  {
  }

  /** Without a nonzero pivot the column is zero from the diagonal down. */
  lemma NoPivot(a: seq<real>, n: nat, vv: seq<real>, j: nat, imax: int)
    requires Largest(a, n, vv, j, n, imax)
    requires (forall i :: j <= i < n ==> vv[i] > 0.0) && E(a, n, imax, j) == 0.0
    ensures forall i :: j <= i < n ==> E(a, n, i, j) == 0.0
  {
    hide E;
    forall i | j <= i < n
      ensures E(a, n, i, j) == 0.0
    {
      assert Weight(a, n, vv, i, j) <= Weight(a, n, vv, imax, j) == 0.0;
      WeightNonNegative(vv[i], E(a, n, i, j));
    }
  }

  ghost predicate Pivots(indx: seq<int>, n: nat, m: nat)
  {
    m <= n <= |indx| && forall k :: 0 <= k < m ==> k <= indx[k] < n
  }

  lemma PivotPermPrefix(a: seq<int>, b: seq<int>, n: nat, m: nat)
    requires Pivots(a, n, m) && |b| == |a| && forall k :: 0 <= k < m ==> a[k] == b[k]
    ensures PivotPerm(a, n, m) == PivotPerm(b, n, m) && Sign(a, m) == Sign(b, m)
  {
  }

  /** The exchange of ludcmp: the pivot row moves to row j. */
  method ExchangePivot(A: array<real>, n: nat, j: nat, imax: nat, vv: array<real>, ghost a0: seq<real>, ghost p: seq<int>)
    requires A.Length == n * n && vv.Length == n && vv != A
    requires j <= imax < n && LuState(A[..], a0, n, p, j, n)
    modifies A, vv
    ensures IsPerm(p, n) && LuState(A[..], a0, n, Swapped(p, j, imax), j, n)
    ensures forall i, c :: 0 <= i < n && 0 <= c < n ==> E(A[..], n, i, c) == E(old(A[..]), n, Other(imax, j, i), c)
    ensures vv[..] == if j != imax then old(vv[..])[imax := old(vv[j])] else old(vv[..])
  {
    assert IsPerm(p, n);
    hide E, LuState;
    ghost var a := A[..];
    if j != imax {
      SwapRows(A, n, imax, j);
      vv[imax] := vv[j];
    }
    StateSwap(a, A[..], a0, n, p, j, imax);
  }

  /** The division of ludcmp, which is skipped in the last column. */
  method DividePivot(A: array<real>, n: nat, j: nat, pivot: real, ghost a0: seq<real>, ghost p: seq<int>)
    requires A.Length == n * n && j < n && LuState(A[..], a0, n, p, j, n)
    requires pivot == E(A[..], n, j, j) && pivot != 0.0
    modifies A
    ensures LuState(A[..], a0, n, p, j + 1, 0)
    ensures forall i, c :: 0 <= i < n && 0 <= c < n ==>
              E(A[..], n, i, c) == if c == j && i > j then E(old(A[..]), n, i, j) * (1.0 / pivot) else E(old(A[..]), n, i, c)
  {
    hide E, LuState;
    ghost var a := A[..];
    if j != n - 1 {
      var tmp := 1.0 / pivot;
      ScaleBelow(A, n, j, tmp);
    }
    StateDivide(a, A[..], a0, n, p, j);
  }

  lemma ScalesNext(vv: seq<real>, v: seq<real>, a0: seq<real>, n: nat, p: seq<int>, j: nat, imax: nat)
    requires j <= imax < n && Scales(vv, a0, n, p, j) && v == if j != imax then vv[imax := vv[j]] else vv
    ensures Scales(v, a0, n, Swapped(p, j, imax), j + 1)
  {
    hide IsScale;
  }

  lemma ScalesStart(vv: seq<real>, a0: seq<real>, n: nat, p: seq<int>)
    requires |vv| == |p| == n && (forall i :: 0 <= i < n ==> p[i] == i && IsScale(a0, n, i, vv[i]))
    ensures Scales(vv, a0, n, p, 0)
  {
    hide IsScale;
  }

  lemma ScalesPositive(vv: seq<real>, a0: seq<real>, n: nat, p: seq<int>, j: nat)
    requires Scales(vv, a0, n, p, j)
    ensures |vv| == n && forall i :: j <= i < n ==> vv[i] > 0.0
  {
    hide RowMax;
  }

  /** One column of ludcmp, from the reduced array `a` through the exchange `b` to the
      divided array `c`. */
  lemma BestStep(a: seq<real>, b: seq<real>, c: seq<real>, a0: seq<real>, n: nat, p: seq<int>, indx: seq<int>, ix: seq<int>, vv: seq<real>,
                 j: nat, imax: nat)
    requires j <= imax < n && IsPerm(p, n) && BestPivots(a, a0, n, p, indx, j) && |indx| == n && ix == indx[j := imax]
    requires p == PivotPerm(indx, n, j) && |vv| == n && Largest(a, n, vv, j, n, imax) && Scales(vv, a0, n, p, j)
    requires forall i, k :: 0 <= i < n && 0 <= k < n ==> E(b, n, i, k) == E(a, n, Other(imax, j, i), k)
    requires E(b, n, j, j) != 0.0
    requires forall i, k :: 0 <= i < n && 0 <= k < n ==>
               E(c, n, i, k) == if k == j && i > j then E(b, n, i, j) * (1.0 / E(b, n, j, j)) else E(b, n, i, k)
    ensures BestPivots(c, a0, n, Swapped(p, j, imax), ix, j + 1)
  {
    hide E, BestPivots, Largest, Scales, PivotPerm;
    OtherSame(imax, j);
    BestSwap(a, b, a0, n, p, indx, j, imax);
    var q := Swapped(p, j, imax);
    BestSame(b, c, a0, n, q, indx, j);
    BestRecorded(c, a0, n, q, indx, ix, j);
    PivotsOf(a, a0, n, p, indx, j);
    PivotPermPrefix(indx, ix, n, j);
    BestExtended(a, c, a0, n, p, ix, vv, j, imax);
  }

  lemma BestReduced(a: seq<real>, b: seq<real>, c: seq<real>, a0: seq<real>, n: nat, p: seq<int>, indx: seq<int>, j: nat)
    requires BestPivots(a, a0, n, p, indx, j) && SameFront(a, b, n, j) && SameFront(b, c, n, j)
    ensures BestPivots(c, a0, n, p, indx, j)
  {
    hide BestPivots, E;
    BestSame(a, b, a0, n, p, indx, j);
    BestSame(b, c, a0, n, p, indx, j);
  }

  lemma OtherSame(r: int, s: int)
    ensures forall i :: Other(r, s, i) == Other(s, r, i)
    ensures Other(r, s, s) == r
  {
  }

  lemma PivotsOf(a: seq<real>, a0: seq<real>, n: nat, p: seq<int>, indx: seq<int>, j: nat)
    requires BestPivots(a, a0, n, p, indx, j)
    ensures Pivots(indx, n, j)
  {
  }

  lemma ExchangeRecorded(ix: seq<int>, n: nat, j: nat, imax: nat)
    requires j <= imax < n == |ix| && Pivots(ix, n, j)
    ensures var ix' := ix[j := imax];
            && Pivots(ix', n, j + 1)
            && PivotPerm(ix', n, j + 1) == Swapped(PivotPerm(ix, n, j), j, imax)
            && Sign(ix', j + 1) == if j != imax then -Sign(ix, j) else Sign(ix, j)
  {
    PivotPermPrefix(ix, ix[j := imax], n, j);
  }

  lemma StuckSingular(a: seq<real>, a0: seq<real>, n: nat, p: seq<int>, j: nat, vv: seq<real>, imax: int)
    requires j < n && LuState(a, a0, n, p, j, n) && Largest(a, n, vv, j, n, imax)
    requires (forall i :: j <= i < n ==> vv[i] > 0.0) && E(a, n, imax, j) == 0.0
    ensures Singular(View(a0, n), n, n)
  {
    NoPivot(a, n, vv, j, imax);
    ZeroPivotSingular(a, a0, n, p, j);
  }

  /** The first j columns are factored, with the exchanges in `indx` and the best pivots. */
  ghost predicate ColumnState(a: seq<real>, a0: seq<real>, n: nat, p: seq<int>, indx: seq<int>, vv: seq<real>, j: nat)
  {
    && |indx| == |vv| == n && Pivots(indx, n, j) && p == PivotPerm(indx, n, j) && LuState(a, a0, n, p, j, 0)
    && Scales(vv, a0, n, p, j) && BestPivots(a, a0, n, p, indx, j)
  }

  lemma StartState(a0: seq<real>, n: nat, p: seq<int>, indx: seq<int>, vv: seq<real>)
    requires |a0| == n * n && |indx| == |vv| == n && p == PivotPerm(indx, n, 0) && forall i :: 0 <= i < n ==> IsScale(a0, n, i, vv[i])
    ensures ColumnState(a0, a0, n, p, indx, vv, 0)
  {
    hide LuState, Scales, BestPivots, IsScale;
    StateStart(a0, n, p);
    ScalesStart(vv, a0, n, p);
    BestStart(a0, a0, n, p, indx);
  }

  lemma FinalState(a: seq<real>, a0: seq<real>, n: nat, p: seq<int>, indx: seq<int>, vv: seq<real>)
    requires ColumnState(a, a0, n, p, indx, vv, n)
    ensures Pivots(indx, n, n) && p == PivotPerm(indx, n, n)
    ensures IsLu(a, a0, n, p) && BestPivots(a, a0, n, p, indx, n) && !Singular(View(a0, n), n, n)
  {
    hide LuState, IsLu, Scales, BestPivots, PivotPerm, Singular;
    StateEnd(a, a0, n, p);
    LuRegular(a, a0, n, p);
  }

  /** Column j of ludcmp; `ok` is false when there is no pivot. */
  method FactorColumn(A: array<real>, n: nat, indx: array<int>, vv: array<real>, j: nat, imax0: int, ghost a0: seq<real>, ghost p0: seq<int>)
    returns (ok: bool, imax: int, ghost p: seq<int>)
    requires A.Length == n * n && indx.Length == vv.Length == n && vv != A && j < n
    requires ColumnState(A[..], a0, n, p0, indx[..], vv[..], j)
    modifies A, indx, vv
    ensures j <= imax < n && indx[..] == old(indx[..])[j := imax] && Sign(indx[..], j + 1) == if j != imax then -Sign(old(indx[..]), j) else Sign(old(indx[..]), j)
    ensures if ok then ColumnState(A[..], a0, n, p, indx[..], vv[..], j + 1) else Singular(View(a0, n), n, n)
  {
    hide E, Part, LuState, Singular, PivotPerm, Swapped, Largest, RowMax, Scales, BestPivots, SameFront, IsScale;
    ghost var a1, v, ix := A[..], vv[..], indx[..];
    ScalesPositive(v, a0, n, p0, j);
    ReduceAbove(A, n, j, a0, p0);
    ghost var a2 := A[..];
    imax := ReduceBelow(A, n, j, vv, imax0, a0, p0);
    ghost var a := A[..];
    BestReduced(a1, a2, a, a0, n, p0, ix, j);
    ExchangePivot(A, n, j, imax, vv, a0, p0);
    ghost var b := A[..];
    indx[j] := imax;
    ExchangeRecorded(ix, n, j, imax);
    assert indx[..] == ix[j := imax];
    p := Swapped(p0, j, imax);
    var pivot := Entry(A, n, j, j);
    ok := pivot != 0.0;
    if ok {
      DividePivot(A, n, j, pivot, a0, p);
      BestStep(a, b, A[..], a0, n, p0, ix, indx[..], v, j, imax);
      ScalesNext(v, vv[..], a0, n, p0, j, imax);
    } else {
      StuckSingular(a, a0, n, p0, j, v, imax);
    }
  }

  /** ludcmp.  Zero means that `A` holds the factors of the matrix whose rows were
      exchanged as `indx` records; -1 means exactly that the matrix is singular. */
  method Ludcmp(A: array<real>, n: nat, indx: array<int>) returns (status: int, d: real)
    requires A.Length == n * n && indx.Length == n
    modifies A, indx
    ensures status == 0 || status == -1
    ensures status == 0 ==> Pivots(indx[..], n, n)
    ensures status == 0 ==> IsLu(A[..], old(A[..]), n, PivotPerm(indx[..], n, n)) && d == Sign(indx[..], n)
    ensures status == 0 ==> BestPivots(A[..], old(A[..]), n, PivotPerm(indx[..], n, n), indx[..], n)
    ensures status == -1 <==> Singular(View(old(A[..]), n), n, n)
  {
    hide E, Part, LuState, Singular, IsLu, PivotPerm, RowMax, Scales, BestPivots, IsScale, ColumnState;
    ghost var a0 := A[..];
    d := 1.0;
    var vv := new real[n];
    var zero := RowScales(A, n, vv);
    if zero >= 0 {
      ZeroRowSingular(View(a0, n), n, zero);
      return -1, d;
    }
    var imax := 0;
    ghost var p := PivotPerm(indx[..], n, 0);
    StartState(a0, n, p, indx[..], vv[..]);
    var j := 0;
    while j < n
      invariant 0 <= j <= n && ColumnState(A[..], a0, n, p, indx[..], vv[..], j) && d == Sign(indx[..], j)
    {
      var ok;
      ok, imax, p := FactorColumn(A, n, indx, vv, j, imax, a0, p);
      if j != imax {
        d := -d;
      }
      if !ok {
        return -1, d;
      }
      j := j + 1;
    }
    FinalState(A[..], a0, n, p, indx[..], vv[..]);
    return 0, d;
  }
}
