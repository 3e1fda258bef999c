/** The bit layout of multi-signal messages, and the column loops that read it: all
    satellites' values of one field stand together, then all cells' values of the next. */
module MsmBits {
  import opened Arith
  import opened Bits
  import opened BitCodec

  // ---------- columns ----------

  /** One field: getbits or getbitu of `width` bits. */
  datatype Column = Column(width: nat, signed: bool)

  predicate Usable(c: Column)
  {
    1 <= c.width <= 32
  }

  /** The values the field can hold. */
  predicate InColumn(c: Column, v: int)
    requires Usable(c)
  {
    if c.signed then 0 - Pow2(c.width - 1) <= v < Pow2(c.width - 1) else 0 <= v < Pow2(c.width)
  }

  predicate AllIn(c: Column, vs: seq<int>)
    requires Usable(c)
  {
    forall k :: 0 <= k < |vs| ==> InColumn(c, vs[k])
  }

  /** The bits of a column of values. */
  ghost function ColumnBits(c: Column, vs: seq<int>): (bits: seq<bool>)
    ensures |bits| == |vs| * c.width
  {
    if |vs| == 0 then []
    else
      MulStep(|vs|, c.width);
      ColumnBits(c, vs[..|vs| - 1]) + SBitsOf(vs[|vs| - 1], c.width)
  }

  lemma BitsInjective(c: Column, v: int, w: int)
    requires Usable(c) && InColumn(c, v) && InColumn(c, w) && SBitsOf(v, c.width) == SBitsOf(w, c.width)
    ensures v == w
  {
    if c.signed {
      SValSBitsOf(v, c.width);
      SValSBitsOf(w, c.width);
    } else {
      SmallMod(v, Pow2(c.width));
      SmallMod(w, Pow2(c.width));
      ValBitsOf(v, c.width);
      ValBitsOf(w, c.width);
    }
  }

  lemma ConcatEqual(a: seq<bool>, b: seq<bool>, c: seq<bool>, d: seq<bool>)
    requires a + b == c + d && |b| == |d|
    ensures a == c && b == d
  {
    assert a == (a + b)[..|a|] && c == (c + d)[..|c|];
    assert b == (a + b)[|a|..] && d == (c + d)[|c|..];
  }

  /** A column of values is determined by its bits. */
  lemma {:induction false} ColumnInjective(c: Column, vs: seq<int>, ws: seq<int>)
    requires Usable(c) && |vs| == |ws| && AllIn(c, vs) && AllIn(c, ws) && ColumnBits(c, vs) == ColumnBits(c, ws)
    ensures vs == ws
  {
    hide InColumn, SBitsOf;
    if |vs| > 0 {
      var n := |vs| - 1;
      assert InColumn(c, vs[n]) && InColumn(c, ws[n]);
      ConcatEqual(ColumnBits(c, vs[..n]), SBitsOf(vs[n], c.width), ColumnBits(c, ws[..n]), SBitsOf(ws[n], c.width));
      BitsInjective(c, vs[n], ws[n]);
      ColumnInjective(c, vs[..n], ws[..n]);
    }
  }

  /** Reading a field inverts writing it. */
  lemma FieldValue(buff: seq<bv8>, pos: nat, c: Column, v: int)
    requires Usable(c) && pos + c.width <= 8 * |buff|
    requires v == if c.signed then Signed(buff, pos, c.width) else Unsigned(buff, pos, c.width)
    ensures InColumn(c, v) && SBitsOf(v, c.width) == Field(buff, pos, c.width)
  {
    hide InColumn, SVal, Val, SBitsOf, Field;
    BitsValue(Field(buff, pos, c.width), c, v);
  }

  lemma BitsValue(f: seq<bool>, c: Column, v: int)
    requires Usable(c) && |f| == c.width && v == if c.signed then SVal(f) else Val(f)
    ensures InColumn(c, v) && SBitsOf(v, c.width) == f
  {
    var p := Pow2(c.width);
    BitsOfVal(f);
    TopBit(f);
    SValModulo(f, p);
    hide Val, BitsOf;
    assert p == 2 * Pow2(c.width - 1);
  }

  lemma SValModulo(f: seq<bool>, p: nat)
    requires p == Pow2(|f|)
    ensures Val(f) % p == Val(f) && SVal(f) % p == Val(f)
  {
    hide Val, Pow2;
    SmallMod(Val(f), p);
    DivModUnique(Val(f) - p, p, -1, Val(f));
  }

  /** The column loops of the decoders: `for (j = 0; j < n; ++j) { v[j] = getbit..(buff, i,
      width); i += width; }`. */
  method ReadColumn(buff: seq<bv8>, pos: nat, n: nat, c: Column) returns (vs: seq<int>, next: nat)
    requires Usable(c) && pos + n * c.width <= 8 * |buff|
    ensures next == pos + n * c.width && |vs| == n && AllIn(c, vs)
    ensures Field(buff, pos, n * c.width) == ColumnBits(c, vs)
  {
    hide InColumn, SBitsOf, Signed, Unsigned;
    vs, next := [], pos;
    var j := 0;
    while j < n
      invariant 0 <= j == |vs| <= n && next == pos + j * c.width && AllIn(c, vs) && next <= 8 * |buff|
      invariant Field(buff, pos, j * c.width) == ColumnBits(c, vs)
    {
      MulStep(j, c.width);
      MulMono(j + 1, n, c.width);
      var v: int;
      if c.signed {
        v := Getbits(buff, next, c.width);
        SignedRead(buff, next, c.width);
      } else {
        v := Getbitu(buff, next, c.width);
      }
      FieldValue(buff, next, c, v);
      FieldSplit(buff, pos, j * c.width, c.width);
      ColumnSnoc(c, vs, v);
      vs, next, j := vs + [v], next + c.width, j + 1;
    }
  }

  lemma SignedRead(buff: seq<bv8>, pos: nat, len: nat)
    requires 1 <= len <= 32 && pos + len <= 8 * |buff|
    ensures SBits(buff, pos, len) == Signed(buff, pos, len)
  {
  }

  lemma ColumnSnoc(c: Column, vs: seq<int>, v: int)
    ensures ColumnBits(c, vs + [v]) == ColumnBits(c, vs) + SBitsOf(v, c.width)
  {
    assert (vs + [v])[..|vs + [v]| - 1] == vs;
  }

  // ---------- tables ----------

  /** Columns one after the other. */
  function Width(cols: seq<Column>): nat
  {
    if |cols| == 0 then 0 else Width(cols[..|cols| - 1]) + cols[|cols| - 1].width
  }

  ghost predicate TableFits(cols: seq<Column>, n: nat, data: seq<seq<int>>)
  {
    && |data| == |cols|
    && forall k :: 0 <= k < |cols| ==> Usable(cols[k]) && |data[k]| == n && AllIn(cols[k], data[k])
  }

  ghost function TableBits(cols: seq<Column>, data: seq<seq<int>>): seq<bool>
    requires |data| == |cols|
  {
    if |cols| == 0 then []
    else TableBits(cols[..|cols| - 1], data[..|cols| - 1]) + ColumnBits(cols[|cols| - 1], data[|cols| - 1])
  }

  lemma {:induction false} TableLength(cols: seq<Column>, n: nat, data: seq<seq<int>>)
    requires TableFits(cols, n, data)
    ensures |TableBits(cols, data)| == n * Width(cols)
  {
    hide AllIn, ColumnBits;
    if |cols| > 0 {
      var m := |cols| - 1;
      TableLength(cols[..m], n, data[..m]);
      MulSum(n, Width(cols[..m]), cols[m].width);
    }
  }

  lemma MulSum(n: nat, a: nat, b: nat)
    ensures n * (a + b) == n * a + n * b
  {
  }

  lemma {:induction false} TableInjective(cols: seq<Column>, n: nat, data: seq<seq<int>>, other: seq<seq<int>>)
    requires TableFits(cols, n, data) && TableFits(cols, n, other) && TableBits(cols, data) == TableBits(cols, other)
    ensures data == other
  {
    hide AllIn, ColumnBits;
    if |cols| > 0 {
      var m := |cols| - 1;
      ConcatEqual(TableBits(cols[..m], data[..m]), ColumnBits(cols[m], data[m]), TableBits(cols[..m], other[..m]), ColumnBits(cols[m], other[m]));
      ColumnInjective(cols[m], data[m], other[m]);
      TableInjective(cols[..m], n, data[..m], other[..m]);
    }
  }

  lemma {:induction false} WidthPrefix(cols: seq<Column>, k: nat)
    requires k <= |cols|
    ensures Width(cols[..k]) <= Width(cols)
    ensures k < |cols| ==> Width(cols[..k]) + cols[k].width == Width(cols[..k + 1]) <= Width(cols)
    decreases |cols| - k
  {
    if k < |cols| {
      assert cols[..k + 1][..k] == cols[..k];
      WidthPrefix(cols, k + 1);
    } else {
      assert cols[..k] == cols;
    }
  }

  /** The first k columns read: `bits` bits from `pos` on. */
  ghost predicate Gathered(buff: seq<bv8>, pos: nat, n: nat, cols: seq<Column>, k: nat, data: seq<seq<int>>, bits: nat)
  {
    && k <= |cols| && TableFits(cols[..k], n, data) && bits == n * Width(cols[..k]) && pos + bits <= 8 * |buff|
    && Field(buff, pos, bits) == TableBits(cols[..k], data)
  }

  lemma GatherNone(buff: seq<bv8>, pos: nat, n: nat, cols: seq<Column>)
    requires pos <= 8 * |buff|
    ensures Gathered(buff, pos, n, cols, 0, [], 0)
  {
  }

  lemma GatherNext(buff: seq<bv8>, pos: nat, n: nat, cols: seq<Column>, k: nat, data: seq<seq<int>>, bits: nat, vs: seq<int>, w: nat)
    requires Gathered(buff, pos, n, cols, k, data, bits) && k < |cols| && Usable(cols[k]) && |vs| == n && AllIn(cols[k], vs)
    requires w == n * cols[k].width && pos + bits + w <= 8 * |buff| && Field(buff, pos + bits, w) == ColumnBits(cols[k], vs)
    ensures Gathered(buff, pos, n, cols, k + 1, data + [vs], bits + w)
  {
    hide AllIn, ColumnBits, Field, Usable;
    FieldSplit(buff, pos, bits, w);
    WidthPrefix(cols, k);
    var front := cols[..k + 1];
    assert front[..k] == cols[..k] && (data + [vs])[..k] == data;
    MulSum(n, Width(cols[..k]), cols[k].width);
    assert TableBits(front, data + [vs]) == TableBits(cols[..k], data) + ColumnBits(cols[k], vs);
  }

  lemma GatherAll(buff: seq<bv8>, pos: nat, n: nat, cols: seq<Column>, data: seq<seq<int>>, bits: nat)
    requires Gathered(buff, pos, n, cols, |cols|, data, bits)
    ensures bits == n * Width(cols) && TableFits(cols, n, data) && Field(buff, pos, bits) == TableBits(cols, data)
  {
    assert cols[..|cols|] == cols;
  }

  lemma RoomLeft(buff: seq<bv8>, pos: nat, n: nat, cols: seq<Column>, k: nat, data: seq<seq<int>>, bits: nat)
    requires k < |cols| && Gathered(buff, pos, n, cols, k, data, bits)
    ensures 0 <= n * cols[k].width && bits + n * cols[k].width <= n * Width(cols)
  {
    hide TableFits, TableBits, Field, Width;
    WidthPrefix(cols, k);
    Room(n, Width(cols[..k]), cols[k].width, Width(cols), bits);
  }

  lemma Room(n: nat, a: nat, b: nat, w: nat, bits: nat)
    requires a + b <= w && bits == n * a
    ensures 0 <= n * b && bits + n * b <= n * w
  {
    MulSum(n, a, b);
    MulMono(a + b, w, n);
  }

  /** Columns of n values each, in order. */
  method ReadTable(buff: seq<bv8>, pos: nat, n: nat, cols: seq<Column>) returns (data: seq<seq<int>>, next: nat)
    requires (forall k :: 0 <= k < |cols| ==> Usable(cols[k])) && pos + n * Width(cols) <= 8 * |buff|
    ensures next == pos + n * Width(cols) && TableFits(cols, n, data)
    ensures Field(buff, pos, n * Width(cols)) == TableBits(cols, data)
  {
    hide AllIn, ColumnBits, Field, TableFits, TableBits, Gathered, Width;
    data, next := [], pos;
    ghost var bits: nat := 0;
    GatherNone(buff, pos, n, cols);
    var k := 0;
    while k < |cols|
      invariant 0 <= k <= |cols| && next == pos + bits && Gathered(buff, pos, n, cols, k, data, bits)
    {
      RoomLeft(buff, pos, n, cols, k, data, bits);
      var vs;
      vs, next := ReadColumn(buff, next, n, cols[k]);
      ghost var w: nat := next - pos - bits;
      GatherNext(buff, pos, n, cols, k, data, bits, vs, w);
      bits, data, k := bits + w, data + [vs], k + 1;
    }
    GatherAll(buff, pos, n, cols, data, bits);
  }

  // ---------- where a value stands ----------

  /** `v` is the number in the `width` bits from `pos` on. */
  ghost predicate HoldsUnsigned(buff: seq<bv8>, pos: nat, width: nat, v: int)
  {
    pos + width <= 8 * |buff| && v == Unsigned(buff, pos, width)
  }

  /** The same in two's complement. */
  ghost predicate HoldsSigned(buff: seq<bv8>, pos: nat, width: nat, v: int)
  {
    pos + width <= 8 * |buff| && v == Signed(buff, pos, width)
  }

  ghost predicate HoldsField(buff: seq<bv8>, pos: nat, c: Column, v: int)
  {
    if c.signed then HoldsSigned(buff, pos, c.width, v) else HoldsUnsigned(buff, pos, c.width, v)
  }

  lemma ValueRead(buff: seq<bv8>, pos: nat, c: Column, v: int)
    requires Usable(c) && InColumn(c, v) && pos + c.width <= 8 * |buff| && Field(buff, pos, c.width) == SBitsOf(v, c.width)
    ensures HoldsField(buff, pos, c, v)
  {
    hide InColumn, SBitsOf, Field, Signed, Unsigned;
    var w := if c.signed then Signed(buff, pos, c.width) else Unsigned(buff, pos, c.width);
    FieldValue(buff, pos, c, w);
    BitsInjective(c, v, w);
  }

  /** A column of values from `pos` on, `size` bits in all. */
  ghost predicate ColumnAt(buff: seq<bv8>, pos: nat, c: Column, vs: seq<int>, size: nat)
  {
    Usable(c) && AllIn(c, vs) && size == |vs| * c.width && pos + size <= 8 * |buff| && Field(buff, pos, size) == ColumnBits(c, vs)
  }

  lemma ColumnFront(buff: seq<bv8>, pos: nat, c: Column, vs: seq<int>, size: nat)
    requires ColumnAt(buff, pos, c, vs, size) && |vs| > 0
    ensures size >= c.width && ColumnAt(buff, pos, c, vs[..|vs| - 1], size - c.width)
    ensures HoldsField(buff, pos + size - c.width, c, vs[|vs| - 1])
  {
    hide InColumn, SBitsOf, Field, HoldsField;
    var n := |vs| - 1;
    MulStep(n, c.width);
    FieldSplit(buff, pos, size - c.width, c.width);
    ConcatEqual(Field(buff, pos, size - c.width), Field(buff, pos + size - c.width, c.width), ColumnBits(c, vs[..n]), SBitsOf(vs[n], c.width));
    assert InColumn(c, vs[n]);
    ValueRead(buff, pos + size - c.width, c, vs[n]);
  }

  /** Value i of a column is the field i widths into it. */
  lemma {:induction false} ValueInColumn(buff: seq<bv8>, pos: nat, c: Column, vs: seq<int>, size: nat, i: nat, at: nat)
    requires ColumnAt(buff, pos, c, vs, size) && i < |vs| && at == pos + i * c.width
    ensures HoldsField(buff, at, c, vs[i])
    decreases |vs|
  {
    ColumnFront(buff, pos, c, vs, size);
    if i == |vs| - 1 {
      MulStep(i, c.width);
    } else {
      hide ColumnAt, HoldsField;
      ValueInColumn(buff, pos, c, vs[..|vs| - 1], size - c.width, i, at);
    }
  }

  /** A table of n rows from `pos` on, `size` bits in all. */
  ghost predicate TableAt(buff: seq<bv8>, pos: nat, n: nat, cols: seq<Column>, data: seq<seq<int>>, size: nat)
  {
    TableFits(cols, n, data) && size == n * Width(cols) && pos + size <= 8 * |buff| && Field(buff, pos, size) == TableBits(cols, data)
  }

  lemma TableFront(buff: seq<bv8>, pos: nat, n: nat, cols: seq<Column>, data: seq<seq<int>>, size: nat, m: nat, w: nat)
    requires TableAt(buff, pos, n, cols, data, size) && |cols| == m + 1 && w == n * cols[m].width
    ensures |data| == |cols| && size >= w && size - w == n * Width(cols[..m])
    ensures TableAt(buff, pos, n, cols[..m], data[..m], size - w) && ColumnAt(buff, pos + size - w, cols[m], data[m], w)
  {
    hide AllIn, ColumnBits, Field;
    var front, rows := cols[..m], data[..m];
    assert TableFits(front, n, rows);
    TableLength(front, n, rows);
    MulSum(n, Width(front), cols[m].width);
    FieldSplit(buff, pos, size - w, w);
    ConcatEqual(Field(buff, pos, size - w), Field(buff, pos + size - w, w), TableBits(front, rows), ColumnBits(cols[m], data[m]));
  }

  /** Column k of a table begins where the columns before it end. */
  lemma {:induction false} ColumnInTable(buff: seq<bv8>, pos: nat, n: nat, cols: seq<Column>, data: seq<seq<int>>, size: nat, k: nat,
                                         start: nat, w: nat)
    requires TableAt(buff, pos, n, cols, data, size) && k < |cols| && start == n * Width(cols[..k]) && w == n * cols[k].width
    ensures |data| == |cols| && ColumnAt(buff, pos + start, cols[k], data[k], w)
    decreases |cols|
  {
    hide TableAt, ColumnAt, Width;
    var m := |cols| - 1;
    var v := n * cols[m].width;
    MulNonNegative(n, cols[m].width, v);
    TableFront(buff, pos, n, cols, data, size, m, v);
    if k < m {
      assert cols[..m][..k] == cols[..k];
      ColumnInTable(buff, pos, n, cols[..m], data[..m], size - v, k, start, w);
    }
  }

  lemma MulNonNegative(n: nat, a: nat, v: int)
    requires v == n * a
    ensures v >= 0
  {
  }

  /** `ends` are the running totals of the widths. */
  ghost predicate RunningTotals(cols: seq<Column>, ends: seq<nat>)
  {
    |ends| == |cols| + 1 && ends[0] == 0 && forall k :: 0 <= k < |cols| ==> ends[k + 1] == ends[k] + cols[k].width
  }

  lemma {:induction false} RunningWidth(cols: seq<Column>, ends: seq<nat>, k: nat)
    requires RunningTotals(cols, ends) && k <= |cols|
    ensures Width(cols[..k]) == ends[k]
  {
    if k > 0 {
      RunningWidth(cols, ends, k - 1);
      assert cols[..k][..k - 1] == cols[..k - 1];
    }
  }

  /** Value i of column k, where the columns before take `before` bits a row. */
  lemma ValueInTable(buff: seq<bv8>, pos: nat, n: nat, cols: seq<Column>, data: seq<seq<int>>, size: nat, k: nat, before: nat, i: nat, at: nat)
    requires TableAt(buff, pos, n, cols, data, size) && k < |cols| && i < n
    requires before == Width(cols[..k]) && at == pos + n * before + i * cols[k].width
    ensures |data| == |cols| && |data[k]| == n && HoldsField(buff, at, cols[k], data[k][i])
  {
    assert |data| == |cols| && |data[k]| == n;
    hide TableAt, ColumnAt, Width, HoldsField;
    var start, w := n * before, n * cols[k].width;
    MulNonNegative(n, before, start);
    MulNonNegative(n, cols[k].width, w);
    ColumnInTable(buff, pos, n, cols, data, size, k, start, w);
    ValueInColumn(buff, pos + start, cols[k], data[k], w, i, at);
  }

  // ---------- writing ----------

  lemma WrittenConcat(a: seq<bv8>, b: seq<bv8>, c: seq<bv8>, pos: nat, x: seq<bool>, y: seq<bool>)
    requires pos + |x| + |y| <= 8 * |a| && Written(a, b, pos, x) && |b| == |a| && Written(b, c, pos + |x|, y)
    ensures Written(a, c, pos, x + y)
  {
  }

  lemma WrittenNone(a: seq<bv8>, pos: nat)
    requires pos <= 8 * |a|
    ensures Written(a, a, pos, [])
  {
  }

  lemma ValueBits(c: Column, v: int)
    requires Usable(c) && InColumn(c, v)
    ensures c.signed ==> -0x8000_0000 <= v < 0x8000_0000 && Clipped(v, c.width) == v
    ensures !c.signed ==> 0 <= v < TWO32 && BitsOf(v, c.width) == SBitsOf(v, c.width)
  {
    Pow2Int(c.width);
    Pow2Int(c.width - 1);
    if c.signed {
      ClippedExact(v, c.width);
    } else {
      SmallMod(v, Pow2(c.width));
    }
  }

  /** One value, by setbits or setbitu. */
  method WriteValue(buff: array<bv8>, pos: nat, c: Column, v: int)
    requires Usable(c) && InColumn(c, v) && pos + c.width <= 8 * buff.Length
    modifies buff
    ensures Written(old(buff[..]), buff[..], pos, SBitsOf(v, c.width))
  {
    hide InColumn, Written, SBitsOf;
    ValueBits(c, v);
    if c.signed {
      Setbits(buff, pos, c.width, v);
    } else {
      Setbitu(buff, pos, c.width, v);
    }
  }

  /** The encoder's loop over one column. */
  method WriteColumn(buff: array<bv8>, pos: nat, c: Column, vs: seq<int>) returns (next: nat)
    requires Usable(c) && AllIn(c, vs) && pos + |vs| * c.width <= 8 * buff.Length
    modifies buff
    ensures next == pos + |vs| * c.width && Written(old(buff[..]), buff[..], pos, ColumnBits(c, vs))
  {
    hide InColumn, Written, SBitsOf;
    next := pos;
    var j := 0;
    WrittenNone(buff[..], pos);
    ghost var was := buff[..];
    while j < |vs|
      invariant 0 <= j <= |vs| && next == pos + j * c.width <= 8 * |was| && |was| == buff.Length
      invariant was == old(buff[..]) && Written(was, buff[..], pos, ColumnBits(c, vs[..j]))
    {
      MulStep(j, c.width);
      MulMono(j + 1, |vs|, c.width);
      ghost var before := buff[..];
      WriteValue(buff, next, c, vs[j]);
      WrittenConcat(was, before, buff[..], pos, ColumnBits(c, vs[..j]), SBitsOf(vs[j], c.width));
      ColumnSnoc(c, vs[..j], vs[j]);
      assert vs[..j + 1] == vs[..j] + [vs[j]];
      next, j := next + c.width, j + 1;
    }
    assert vs[..|vs|] == vs;
  }

  lemma TableSnoc(cols: seq<Column>, data: seq<seq<int>>, k: nat)
    requires k < |cols| == |data|
    ensures TableBits(cols[..k + 1], data[..k + 1]) == TableBits(cols[..k], data[..k]) + ColumnBits(cols[k], data[k])
  {
    assert cols[..k + 1][..k] == cols[..k] && data[..k + 1][..k] == data[..k];
  }

  /** How much of a table the first k columns take. */
  lemma TableRoom(cols: seq<Column>, n: nat, data: seq<seq<int>>, k: nat)
    requires TableFits(cols, n, data) && k < |cols|
    ensures |TableBits(cols[..k], data[..k])| + |data[k]| * cols[k].width <= n * Width(cols)
  {
    hide AllIn, ColumnBits;
    WidthPrefix(cols, k);
    var front, rows := cols[..k], data[..k];
    TableLength(front, n, rows);
    MulSum(n, Width(front), cols[k].width);
    MulMono(Width(cols[..k + 1]), Width(cols), n);
  }

  /** Columns one after the other: the encoder that matches ReadTable. */
  method WriteTable(buff: array<bv8>, pos: nat, n: nat, cols: seq<Column>, data: seq<seq<int>>) returns (next: nat)
    requires TableFits(cols, n, data) && pos + n * Width(cols) <= 8 * buff.Length
    modifies buff
    ensures next == pos + n * Width(cols) && |TableBits(cols, data)| == n * Width(cols)
    ensures Written(old(buff[..]), buff[..], pos, TableBits(cols, data))
  {
    hide AllIn, Written, ColumnBits, TableBits;
    next := pos;
    var k := 0;
    ghost var was := buff[..];
    WrittenNone(was, pos);
    TableStart(cols, data);
    while k < |cols|
      invariant 0 <= k <= |cols| && next == pos + |TableBits(cols[..k], data[..k])| <= 8 * |was| && |was| == buff.Length
      invariant was == old(buff[..]) && Written(was, buff[..], pos, TableBits(cols[..k], data[..k]))
    {
      TableRoom(cols, n, data, k);
      TableSnoc(cols, data, k);
      ghost var before := buff[..];
      next := WriteColumn(buff, next, cols[k], data[k]);
      WrittenConcat(was, before, buff[..], pos, TableBits(cols[..k], data[..k]), ColumnBits(cols[k], data[k]));
      k := k + 1;
    }
    assert cols[..|cols|] == cols && data[..|cols|] == data;
    TableLength(cols, n, data);
  }

  lemma TableStart(cols: seq<Column>, data: seq<seq<int>>)
    requires |data| == |cols|
    ensures TableBits(cols[..0], data[..0]) == []
  {
  }

  // ---------- masks ----------

  /** The ids, counted from 1, of the set bits of a mask. */
  ghost predicate Ids(ids: seq<nat>, n: nat)
  {
    && (forall i :: 0 <= i < |ids| ==> 1 <= ids[i] <= n)
    && (forall i, j :: 0 <= i < j < |ids| ==> ids[i] < ids[j])
  }

  ghost function MaskBits(ids: seq<nat>, n: nat): (bits: seq<bool>)
    ensures |bits| == n
  {
    seq(n, k requires 0 <= k < n => k + 1 in ids)
  }

  /** The mask loops of decode_msm_head. */
  method ReadMask(buff: seq<bv8>, pos: nat, n: nat) returns (ids: seq<nat>)
    requires pos + n <= 8 * |buff|
    ensures Ids(ids, n) && Field(buff, pos, n) == MaskBits(ids, n)
  {
    hide Ids, MaskBits, Field;
    ids := [];
    MaskNone(buff, pos);
    var j := 1;
    while j <= n
      invariant 1 <= j <= n + 1 && Ids(ids, j - 1) && Field(buff, pos, j - 1) == MaskBits(ids, j - 1)
    {
      var mask := Getbitu(buff, pos + j - 1, 1);
      FirstBit(buff, pos + j - 1);
      MaskSnoc(buff, pos, ids, j - 1);
      if mask != 0 {
        ids := ids + [j];
      }
      j := j + 1;
    }
  }

  lemma MaskNone(buff: seq<bv8>, pos: nat)
    requires pos <= 8 * |buff|
    ensures Ids([], 0) && Field(buff, pos, 0) == MaskBits([], 0)
  {
  }

  lemma MaskSnoc(buff: seq<bv8>, pos: nat, ids: seq<nat>, n: nat)
    requires Ids(ids, n) && pos + n < 8 * |buff| && Field(buff, pos, n) == MaskBits(ids, n)
    ensures var after := if BitAt(buff, pos + n) then ids + [n + 1] else ids;
            Ids(after, n + 1) && Field(buff, pos, n + 1) == MaskBits(after, n + 1)
  {
    var after := if BitAt(buff, pos + n) then ids + [n + 1] else ids;
    var l, r := Field(buff, pos, n + 1), MaskBits(after, n + 1);
    forall k | 0 <= k < |l|
      ensures l[k] == r[k]
    {
      if k < n {
        assert l[k] == Field(buff, pos, n)[k] == MaskBits(ids, n)[k];
      }
    }
  }

  /** A mask determines its ids, and so their number. */
  lemma {:induction false} IdsUnique(a: seq<nat>, b: seq<nat>, n: nat)
    requires Ids(a, n) && Ids(b, n) && MaskBits(a, n) == MaskBits(b, n)
    ensures a == b
    decreases |a|
  {
    SameIds(a, b, n);
    SameIds(b, a, n);
    if |a| > 0 && |b| > 0 {
      var x, y := a[|a| - 1], b[|b| - 1];
      assert x in b && y in a;
      assert x == y;
      var m := x - 1;
      assert Ids(a[..|a| - 1], m) && Ids(b[..|b| - 1], m);
      FrontMask(a, n, m);
      FrontMask(b, n, m);
      IdsUnique(a[..|a| - 1], b[..|b| - 1], m);
    }
  }

  lemma SameIds(a: seq<nat>, b: seq<nat>, n: nat)
    requires Ids(a, n) && Ids(b, n) && MaskBits(a, n) == MaskBits(b, n)
    ensures (forall x :: x in a ==> x in b) && (|a| > 0 ==> |b| > 0)
  {
    if |a| > 0 {
      assert MaskBits(a, n)[a[0] - 1] && MaskBits(b, n)[a[0] - 1];
    }
    forall x | x in a
      ensures x in b
    {
      assert MaskBits(a, n)[x - 1] && MaskBits(b, n)[x - 1];
    }
  }

  lemma FrontMask(a: seq<nat>, n: nat, m: nat)
    requires |a| > 0 && Ids(a, n) && m == a[|a| - 1] - 1
    ensures MaskBits(a[..|a| - 1], m) == MaskBits(a, n)[..m]
  {
    var front := a[..|a| - 1];
    var l, r := MaskBits(front, m), MaskBits(a, n)[..m];
    forall k | 0 <= k < |l|
      ensures l[k] == r[k]
    {
      if k + 1 in a {
        var i :| 0 <= i < |a| && a[i] == k + 1;
        assert front[i] == k + 1;
      }
    }
  }
}
