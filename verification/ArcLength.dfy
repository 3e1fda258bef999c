/** The arc-length table of CubicBezier.hpp: the constructor and get_t. */
module ArcLength {
  import opened RealArith
  import opened Euclid
  import opened Flattening

  /** `arclen_t`, a std::map: entries by increasing arc length. */
  type Table = seq<(real, real)>

  /** Arc lengths from 0 and parameters, both strictly increasing. */
  ghost predicate ValidTable(table: Table)
  {
    && |table| >= 1 && table[0].0 == 0.0
    && (forall i, j :: 0 <= i < j < |table| ==> table[i].0 < table[j].0 && table[i].1 < table[j].1)
  }

  /** `arclen_t[arclen] = t` for an arc length that is not below those present. */
  function Put(table: Table, arclen: real, t: real): Table
  {
    if |table| > 0 && table[|table| - 1].0 == arclen then table[..|table| - 1] + [(arclen, t)] else table + [(arclen, t)]
  }

  /** The length of the polyline through the first k + 1 parameters. */
  function Travelled(c: Cubic, ts: seq<real>, m: Roots, k: nat): real
    requires c.Valid() && k < |ts|
  {
    if k == 0 then 0.0 else Travelled(c, ts, m, k - 1) + Norm(m, Minus(Get(c, ts[k]), Get(c, ts[k - 1])))
  }

  /** The length grows after parameter k. */
  ghost predicate LastAt(c: Cubic, ts: seq<real>, m: Roots, n: nat, k: nat)
    requires c.Valid() && k <= n < |ts|
  {
    forall l :: k < l <= n ==> Travelled(c, ts, m, k) < Travelled(c, ts, m, l)
  }

  /** An entry: one of the first n + 1 parameters with the length up to it, of those with the
      same length the last. */
  ghost predicate EntryOf(c: Cubic, ts: seq<real>, m: Roots, n: nat, e: (real, real))
    requires c.Valid() && n < |ts|
  {
    exists k :: 0 <= k <= n && e == (Travelled(c, ts, m, k), ts[k]) && LastAt(c, ts, m, n, k)
  }

  ghost predicate HasLength(table: Table, s: real)
  {
    exists i :: 0 <= i < |table| && table[i].0 == s
  }

  /** Every entry is a parameter with the length up to it, and no length is lost. */
  ghost predicate Measures(c: Cubic, ts: seq<real>, m: Roots, n: nat, table: Table)
    requires c.Valid() && n < |ts|
  {
    && |table| >= 1 && ValidTable(table)
    && table[|table| - 1] == (Travelled(c, ts, m, n), ts[n])
    && AllEntries(c, ts, m, n, table) && AllLengths(c, ts, m, n, table)
  }

  lemma EntryLater(c: Cubic, ts: seq<real>, m: Roots, n: nat, e: (real, real))
    requires c.Valid() && n + 1 < |ts| && EntryOf(c, ts, m, n, e) && e.0 < Travelled(c, ts, m, n + 1)
    ensures EntryOf(c, ts, m, n + 1, e)
  {
    hide Travelled;
    var k :| 0 <= k <= n && e == (Travelled(c, ts, m, k), ts[k]) && LastAt(c, ts, m, n, k);
    assert LastAt(c, ts, m, n + 1, k);
  }

  lemma PutLength(table: Table, s: real, t: real, x: real)
    requires HasLength(table, x) || x == s
    ensures HasLength(Put(table, s, t), x)
  {
    var r := Put(table, s, t);
    if x == s {
      assert r[|r| - 1].0 == s;
    } else {
      var i :| 0 <= i < |table| && table[i].0 == x;
      assert r[i] == table[i];
    }
  }

  lemma PutValid(table: Table, s: real, t: real)
    requires ValidTable(table) && table[|table| - 1].0 <= s && table[|table| - 1].1 < t
    ensures ValidTable(Put(table, s, t))
  {
  }

  ghost predicate AllEntries(c: Cubic, ts: seq<real>, m: Roots, n: nat, table: Table)
    requires c.Valid() && n < |ts|
  {
    forall i :: 0 <= i < |table| ==> EntryOf(c, ts, m, n, table[i])
  }

  ghost predicate AllLengths(c: Cubic, ts: seq<real>, m: Roots, n: nat, table: Table)
    requires c.Valid() && n < |ts|
  {
    forall k :: 0 <= k <= n ==> HasLength(table, Travelled(c, ts, m, k))
  }

  lemma PutEntries(c: Cubic, ts: seq<real>, m: Roots, n: nat, table: Table, s: real, t: real)
    requires c.Valid() && n + 1 < |ts| && AllEntries(c, ts, m, n, table) && EntryOf(c, ts, m, n + 1, (s, t))
    requires ValidTable(Put(table, s, t)) && s == Travelled(c, ts, m, n + 1)
    ensures AllEntries(c, ts, m, n + 1, Put(table, s, t))
  {
    hide EntryOf, Travelled;
    var r := Put(table, s, t);
    forall i | 0 <= i < |r|
      ensures EntryOf(c, ts, m, n + 1, r[i])
    {
      if i < |r| - 1 {
        assert r[i] == table[i] && r[|r| - 1] == (s, t) && r[i].0 < r[|r| - 1].0;
        EntryLater(c, ts, m, n, table[i]);
      }
    }
  }

  lemma PutLengths(c: Cubic, ts: seq<real>, m: Roots, n: nat, table: Table, s: real, t: real)
    requires c.Valid() && n + 1 < |ts| && AllLengths(c, ts, m, n, table) && s == Travelled(c, ts, m, n + 1)
    ensures AllLengths(c, ts, m, n + 1, Put(table, s, t))
  {
    hide HasLength, Travelled, Put;
    forall k | 0 <= k <= n + 1
      ensures HasLength(Put(table, s, t), Travelled(c, ts, m, k))
    {
      PutLength(table, s, t, Travelled(c, ts, m, k));
    }
  }

  lemma PutLast(table: Table, s: real, t: real)
    ensures |Put(table, s, t)| >= 1 && Put(table, s, t)[|Put(table, s, t)| - 1] == (s, t)
  {
  }

  lemma PutMeasures(c: Cubic, ts: seq<real>, m: Roots, n: nat, table: Table, s: real, t: real)
    requires c.Valid() && m.Exact() && n + 1 < |ts| && ts[n] < ts[n + 1] && Measures(c, ts, m, n, table)
    requires s == Travelled(c, ts, m, n + 1) && t == ts[n + 1]
    ensures Measures(c, ts, m, n + 1, Put(table, s, t))
  {
    hide Travelled, AllEntries, AllLengths, EntryOf, Put, ValidTable;
    Forward(c, ts, m, n);
    NewEntry(c, ts, m, n + 1, (s, t));
    PutValid(table, s, t);
    PutEntries(c, ts, m, n, table, s, t);
    PutLengths(c, ts, m, n, table, s, t);
    PutLast(table, s, t);
  }

  lemma NewEntry(c: Cubic, ts: seq<real>, m: Roots, n: nat, e: (real, real))
    requires c.Valid() && n < |ts| && e == (Travelled(c, ts, m, n), ts[n])
    ensures EntryOf(c, ts, m, n, e)
  {
    hide Travelled;
  }

  lemma Forward(c: Cubic, ts: seq<real>, m: Roots, n: nat)
    requires c.Valid() && m.Exact() && n + 1 < |ts|
    ensures Travelled(c, ts, m, n) <= Travelled(c, ts, m, n + 1)
  {
    hide SquaredNorm, Get, Minus;
    SquaredNormNonNegative(Minus(Get(c, ts[n + 1]), Get(c, ts[n])));
  }

  lemma FirstMeasures(c: Cubic, ts: seq<real>, m: Roots)
    requires c.Valid() && |ts| >= 1 && ts[0] == 0.0
    ensures Measures(c, ts, m, 0, [(0.0, 0.0)])
  {
    var table := [(0.0, 0.0)];
    NewEntry(c, ts, m, 0, table[0]);
    assert table[0].0 == Travelled(c, ts, m, 0);
  }

  /** The constructor: its table, for the parameters of approximate_linear. */
  method BuildTable(c: Cubic, tolerance: real, m: Roots) returns (table: Table, ts: seq<real>)
    requires c.Valid() && m.Exact() && tolerance > 0.0
    ensures |ts| >= 2 && Chain(c, tolerance, ts) && ts[0] == 0.0 && ts[|ts| - 1] == 1.0
    ensures Measures(c, ts, m, |ts| - 1, table)
  {
    hide Get, Minus, SquaredNorm, Norm, Measures, ChordWithin, Travelled, Pieces, KeepsCuts, EvenPieces, Listing, Joined, SegStep;
    var ss;
    ghost var parts;
    ts, ss, parts := ApproximateLinear(c, tolerance, m);
    table := [(0.0, 0.0)];
    var arclen := 0.0;
    FirstMeasures(c, ts, m);
    FirstTravelled(c, ts, m);
    var k := 1;
    while k < |ts|
      invariant 1 <= k <= |ts| && arclen == Travelled(c, ts, m, k - 1) && Measures(c, ts, m, k - 1, table)
    {
      assert ts[k - 1] < ts[(k - 1) + 1];
      arclen := arclen + Norm(m, Minus(Get(c, ts[k]), Get(c, ts[k - 1])));
      NextTravelled(c, ts, m, k);
      PutMeasures(c, ts, m, k - 1, table, arclen, ts[k]);
      table := Put(table, arclen, ts[k]);
      k := k + 1;
    }
  }

  lemma FirstTravelled(c: Cubic, ts: seq<real>, m: Roots)
    requires c.Valid() && |ts| >= 1
    ensures Travelled(c, ts, m, 0) == 0.0
  {
  }

  lemma NextTravelled(c: Cubic, ts: seq<real>, m: Roots, k: nat)
    requires c.Valid() && 1 <= k < |ts|
    ensures Travelled(c, ts, m, k) == Travelled(c, ts, m, k - 1) + Norm(m, Minus(Get(c, ts[k]), Get(c, ts[k - 1])))
  {
  }

  // ---------- get_t ----------

  datatype Result = Ok(t: real) | OutOfRange

  function ValidLength(table: Table): real
    requires |table| >= 1
  {
    table[|table| - 1].0
  }

  /** The entry before upper_bound: the last one whose arc length is not above s. */
  function Below(table: Table, s: real, i: nat): (r: nat)
    requires i < |table|
    ensures r <= i
  {
    if i == 0 || table[i].0 <= s then i else Below(table, s, i - 1)
  }

  function Interpolated(table: Table, s: real, i: nat): real
    requires ValidTable(table) && i < |table| && (s != table[i].0 ==> i + 1 < |table|)
  {
    if s == table[i].0 then table[i].1
    else table[i].1 + (s - table[i].0) / (table[i + 1].0 - table[i].0) * (table[i + 1].1 - table[i].1)
  }

  lemma {:induction false} BelowIs(table: Table, s: real, i: nat)
    requires ValidTable(table) && i < |table| && 0.0 <= s && (i + 1 < |table| ==> s < table[i + 1].0)
    ensures var r := Below(table, s, i);
            table[r].0 <= s && (r + 1 < |table| ==> s < table[r + 1].0)
  {
    if i > 0 && table[i].0 > s {
      BelowIs(table, s, i - 1);
    }
  }

  /** get_t within the valid range. */
  function Parameter(table: Table, s: real): real
    requires ValidTable(table) && 0.0 <= s <= ValidLength(table)
  {
    BelowIs(table, s, |table| - 1);
    Interpolated(table, s, Below(table, s, |table| - 1))
  }

  /** get_t */
  method GetT(table: Table, tolerance: real, arclen: real) returns (r: Result)
    requires ValidTable(table)
    ensures r == if arclen - ValidLength(table) > tolerance || arclen < 0.0 then OutOfRange
                 else Ok(Parameter(table, if arclen < ValidLength(table) then arclen else ValidLength(table)))
  {
    if arclen - ValidLength(table) > tolerance || arclen < 0.0 {
      return OutOfRange;
    }
    NonNegativeLength(table);
    var adj := if arclen < ValidLength(table) then arclen else ValidLength(table);
    var i := |table|;
    while i > 0 && table[i - 1].0 > adj
      invariant 0 < i <= |table| && Below(table, adj, |table| - 1) == Below(table, adj, i - 1)
      invariant i < |table| ==> adj < table[i].0
    {
      i := i - 1;
    }
    BelowIs(table, adj, |table| - 1);
    return Ok(Interpolated(table, adj, i - 1));
  }

  lemma NonNegativeLength(table: Table)
    requires ValidTable(table)
    ensures ValidLength(table) >= 0.0
  {
  }

  lemma EntriesApart(table: Table, i: nat, j: nat)
    requires ValidTable(table) && i < |table| && j < |table|
    ensures i < j ==> i + 1 < |table| && table[i + 1].0 <= table[j].0 && table[i + 1].1 <= table[j].1
  {
  }

  lemma BelowUnique(table: Table, s: real, r: nat)
    requires ValidTable(table) && 0.0 <= s && r < |table| && table[r].0 <= s && (r + 1 < |table| ==> s < table[r + 1].0)
    ensures Below(table, s, |table| - 1) == r
  {
    BelowIs(table, s, |table| - 1);
    var b := Below(table, s, |table| - 1);
    EntriesApart(table, b, r);
    EntriesApart(table, r, b);
  }

  /** At the tabulated lengths the tabulated parameters come back. */
  lemma AtEntry(table: Table, i: nat)
    requires ValidTable(table) && i < |table|
    ensures 0.0 <= table[i].0 <= ValidLength(table) && Parameter(table, table[i].0) == table[i].1
  {
    BelowUnique(table, table[i].0, i);
  }

  /** (s, r) lies on the straight line through entries a and b. */
  ghost predicate OnChord(a: (real, real), b: (real, real), s: real, r: real)
  {
    (r - a.1) * (b.0 - a.0) == (s - a.0) * (b.1 - a.1)
  }

  lemma OnChordInside(table: Table, s: real, i: nat)
    requires ValidTable(table) && i + 1 < |table| && table[i].0 < s < table[i + 1].0
    ensures OnChord(table[i], table[i + 1], s, Interpolated(table, s, i))
  {
    var a, b := table[i], table[i + 1];
    var q := (s - a.0) / (b.0 - a.0);
    Proportional(a.0, b.0, a.1, b.1, s, q, a.1 + q * (b.1 - a.1));
  }

  lemma OnChordEnds(a: (real, real), b: (real, real))
    ensures OnChord(a, b, a.0, a.1) && OnChord(a, b, b.0, b.1)
  {
  }

  /** Between neighbouring entries the parameter is proportional to the arc length. */
  lemma ParameterProportional(table: Table, s: real, i: nat)
    requires ValidTable(table) && i + 1 < |table| && table[i].0 <= s <= table[i + 1].0
    ensures 0.0 <= s <= ValidLength(table) && OnChord(table[i], table[i + 1], s, Parameter(table, s))
  {
    AtEntry(table, i);
    AtEntry(table, i + 1);
    OnChordEnds(table[i], table[i + 1]);
    hide OnChord, Interpolated;
    if table[i].0 < s < table[i + 1].0 {
      BelowUnique(table, s, i);
      ParameterIs(table, s, i);
      OnChordInside(table, s, i);
    }
  }

  lemma Proportional(a: real, b: real, x: real, y: real, s: real, q: real, r: real)
    requires a < b && q == (s - a) / (b - a) && r == x + q * (y - x)
    ensures (r - x) * (b - a) == (s - a) * (y - x)
  {
    QuotientTimes(s - a, b - a, q);
    Exchange(q, y - x, b - a, s - a, r - x);
  }

  lemma Exchange(q: real, d: real, e: real, f: real, g: real)
    requires q * e == f && g == q * d
    ensures g * e == f * d
  {
    assert g * e == q * e * d;
  }

  lemma Proportion(a: real, b: real, s: real, q: real, x: real, y: real, r: real)
    requires a < s < b && x < y && q == (s - a) / (b - a) && r == x + q * (y - x)
    ensures 0.0 < q < 1.0 && x < r < y
  {
    QuotientTimes(s - a, b - a, q);
    if q <= 0.0 {
      MulLe(b - a, q, 0.0);
    }
    if q >= 1.0 {
      MulLe(b - a, 1.0, q);
    }
    ProductPositive(q, y - x, q * (y - x));
    ProductPositive(1.0 - q, y - x, (1.0 - q) * (y - x));
  }

  lemma Rising(a: real, b: real, s: real, u: real, p: real, q: real)
    requires a < b && s < u && p == (s - a) / (b - a) && q == (u - a) / (b - a)
    ensures p < q
  {
    QuotientTimes(s - a, b - a, p);
    QuotientTimes(u - a, b - a, q);
    if q <= p {
      MulLe(b - a, q, p);
    }
  }

  lemma ParameterIs(table: Table, s: real, i: nat)
    requires ValidTable(table) && 0.0 <= s <= ValidLength(table) && i == Below(table, s, |table| - 1)
    ensures table[i].0 <= s && (s > table[i].0 ==> i + 1 < |table|) && (i + 1 < |table| ==> s < table[i + 1].0)
    ensures i + 1 < |table| ==> table[i].0 < table[i + 1].0 && table[i].1 < table[i + 1].1
    ensures Parameter(table, s) == Interpolated(table, s, i)
  {
    BelowIs(table, s, |table| - 1);
    hide Interpolated, Below;
  }

  /** Where Parameter lies. */
  lemma ParameterRange(table: Table, s: real, i: nat)
    requires ValidTable(table) && 0.0 <= s <= ValidLength(table) && i == Below(table, s, |table| - 1)
    ensures table[i].0 <= s && (i + 1 < |table| ==> s < table[i + 1].0)
    ensures table[i].1 <= Parameter(table, s) && (i + 1 < |table| ==> Parameter(table, s) < table[i + 1].1)
    ensures s == table[i].0 ==> Parameter(table, s) == table[i].1
    ensures s > table[i].0 ==> i + 1 < |table| && Parameter(table, s) > table[i].1
  {
    ParameterIs(table, s, i);
    hide Parameter, Below;
    if s > table[i].0 {
      var a, b := table[i], table[i + 1];
      var q := (s - a.0) / (b.0 - a.0);
      hide ValidTable;
      Proportion(a.0, b.0, s, q, a.1, b.1, Interpolated(table, s, i));
    }
  }

  /** get_t rises strictly with the arc length. */
  lemma ParameterRises(table: Table, s: real, u: real)
    requires ValidTable(table) && 0.0 <= s < u <= ValidLength(table)
    ensures Parameter(table, s) < Parameter(table, u)
  {
    var i, j := Below(table, s, |table| - 1), Below(table, u, |table| - 1);
    ParameterRange(table, s, i);
    ParameterRange(table, u, j);
    hide Parameter;
    EntriesApart(table, i, j);
    EntriesApart(table, j, i);
    if i == j && s > table[i].0 {
      ParameterIs(table, s, i);
      ParameterIs(table, u, i);
      hide Below, ValidTable;
      RisesWithin(table[i], table[i + 1], s, u, Parameter(table, s), Parameter(table, u));
    }
  }

  lemma RisesWithin(a: (real, real), b: (real, real), s: real, u: real, ps: real, pu: real)
    requires a.0 < b.0 && a.1 < b.1 && s < u
    requires ps == a.1 + (s - a.0) / (b.0 - a.0) * (b.1 - a.1) && pu == a.1 + (u - a.0) / (b.0 - a.0) * (b.1 - a.1)
    ensures ps < pu
  {
    RisingWithin(a.0, b.0, a.1, b.1, s, u, (s - a.0) / (b.0 - a.0), (u - a.0) / (b.0 - a.0), ps, pu);
  }

  lemma RisingWithin(a: real, b: real, x: real, y: real, s: real, u: real, p: real, q: real, ps: real, pu: real)
    requires a < b && x < y && s < u && p == (s - a) / (b - a) && q == (u - a) / (b - a)
    requires ps == x + p * (y - x) && pu == x + q * (y - x)
    ensures ps < pu
  {
    Rising(a, b, s, u, p, q);
    Steeper(x, y, p, q, ps, pu);
  }

  lemma Steeper(x: real, y: real, p: real, q: real, ps: real, pu: real)
    requires x < y && p < q && ps == x + p * (y - x) && pu == x + q * (y - x)
    ensures ps < pu
  {
    ProductPositive(q - p, y - x, (q - p) * (y - x));
  }

  lemma {:induction false} EntryBelow(table: Table, t: real, i: nat) returns (r: nat)
    requires ValidTable(table) && i < |table| && table[0].1 <= t && (i + 1 < |table| ==> t < table[i + 1].1)
    ensures r < |table| && table[r].1 <= t && (r + 1 < |table| ==> t < table[r + 1].1)
  {
    if table[i].1 <= t {
      r := i;
    } else {
      r := EntryBelow(table, t, i - 1);
    }
  }

  /** get_t takes every parameter from its first to its last value. */
  lemma ParameterOnto(table: Table, t: real) returns (s: real)
    requires ValidTable(table) && table[0].1 <= t <= table[|table| - 1].1
    ensures 0.0 <= s <= ValidLength(table) && Parameter(table, s) == t
  {
    var i := EntryBelow(table, t, |table| - 1);
    if t == table[i].1 {
      s := table[i].0;
      AtEntry(table, i);
    } else {
      var a, b := table[i], table[i + 1];
      var q := (t - a.1) / (b.1 - a.1);
      s := a.0 + q * (b.0 - a.0);
      Proportion(a.1, b.1, t, q, a.0, b.0, s);
      assert b.0 <= ValidLength(table) && 0.0 <= a.0;
      BelowUnique(table, s, i);
      ParameterIs(table, s, i);
      Invert(a.0, b.0, a.1, b.1, t, q, s, (s - a.0) / (b.0 - a.0));
    }
  }

  lemma Invert(a: real, b: real, x: real, y: real, t: real, q: real, s: real, p: real)
    requires a < b && x < y && q == (t - x) / (y - x) && s == a + q * (b - a) && p == (s - a) / (b - a)
    ensures x + p * (y - x) == t
  {
    QuotientTimes(t - x, y - x, q);
    QuotientTimes(s - a, b - a, p);
    Cancel(p, q, b - a);
  }
}
