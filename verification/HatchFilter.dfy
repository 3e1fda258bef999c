/** csmooth of rtkcmn.c: carrier smoothing of pseudoranges by the Hatch filter. */
module HatchFilter {
  import opened RealArith
  import opened RealSum

  const NFREQ: nat := 3

  /** One observation record. */
  datatype Record = Record(sat: int, rcv: int, P: seq<real>, L: seq<real>, LLI: seq<int>)
  {
    predicate Valid() {
      |P| == |L| == |LLI| == NFREQ
    }
  }

  /** A receiver, a satellite and a frequency. */
  datatype Channel = Channel(rcv: int, sat: int, freq: nat)

  /** n, Ps and Lp of a channel. */
  datatype Filter = Filter(n: nat, ps: real, lp: real)

  /** Whether csmooth looks at frequency j of a record. */
  predicate Used(p: Record, j: nat, maxSat: int)
    requires p.Valid() && j < NFREQ
  {
    0 < p.sat <= maxSat && 0 < p.rcv <= 2 && p.P[j] != 0.0 && p.L[j] != 0.0
  }

  /** The body of csmooth for one value. */
  function Update(s: Filter, P: real, L: real, slip: bool, ns: int, lam: real): Filter
    requires ns >= 1
  {
    var n := if slip then 0 else s.n;
    var dcp := lam * (L - s.lp);
    Filter(n + 1, if n == 0 then P else P / ns as real + (s.ps + dcp) * (ns - 1) as real / ns as real, L)
  }

  ghost predicate AllValid(data: seq<Record>)
  {
    forall i :: 0 <= i < |data| ==> data[i].Valid()
  }

  /** Record p is of this channel, and is used. */
  predicate Of(p: Record, ch: Channel, maxSat: int)
    requires p.Valid()
  {
    ch.freq < NFREQ && p.rcv == ch.rcv && p.sat == ch.sat && Used(p, ch.freq, maxSat)
  }

  /** A channel after the first i records. */
  function FilterAt(data: seq<Record>, i: nat, ch: Channel, ns: int, maxSat: int, lam: nat -> real): Filter
    requires AllValid(data) && i <= |data| && ns >= 1
  {
    if i == 0 then Filter(0, 0.0, 0.0)
    else
      var s, p := FilterAt(data, i - 1, ch, ns, maxSat, lam), data[i - 1];
      if Of(p, ch, maxSat) then Update(s, p.P[ch.freq], p.L[ch.freq], p.LLI[ch.freq] != 0, ns, lam(ch.freq)) else s
  }

  /** The pseudorange that csmooth leaves in record i. */
  function SmoothedP(data: seq<Record>, i: nat, j: nat, ns: int, maxSat: int, lam: nat -> real): real
    requires AllValid(data) && i < |data| && j < NFREQ && ns >= 1
  {
    var p := data[i];
    if !Used(p, j, maxSat) then p.P[j]
    else
      var s := FilterAt(data, i + 1, Channel(p.rcv, p.sat, j), ns, maxSat, lam);
      if s.n < ns then 0.0 else s.ps
  }

  /** Record i with its first j frequencies smoothed. */
  ghost predicate SmoothedTo(data: seq<Record>, i: nat, j: nat, ns: int, maxSat: int, lam: nat -> real, q: Record)
    requires AllValid(data) && i < |data| && j <= NFREQ && ns >= 1
  {
    && q == data[i].(P := q.P) && |q.P| == NFREQ
    && (forall f :: 0 <= f < NFREQ ==> q.P[f] == if f < j then SmoothedP(data, i, f, ns, maxSat, lam) else data[i].P[f])
  }

  type Filters = map<Channel, Filter>

  /** The arrays start as zero. */
  function FilterOf(filters: Filters, ch: Channel): Filter
  {
    if ch in filters then filters[ch] else Filter(0, 0.0, 0.0)
  }

  /** The filters in the middle of record i. */
  ghost predicate FiltersTo(data: seq<Record>, i: nat, j: nat, ns: int, maxSat: int, lam: nat -> real, filters: Filters)
    requires AllValid(data) && i < |data| && j <= NFREQ && ns >= 1
  {
    forall ch: Channel :: FilterOf(filters, ch)
      == if ch.rcv == data[i].rcv && ch.sat == data[i].sat && ch.freq < j then FilterAt(data, i + 1, ch, ns, maxSat, lam)
         else FilterAt(data, i, ch, ns, maxSat, lam)
  }

  ghost predicate FiltersAt(data: seq<Record>, i: nat, ns: int, maxSat: int, lam: nat -> real, filters: Filters)
    requires AllValid(data) && i <= |data| && ns >= 1
  {
    forall ch: Channel :: FilterOf(filters, ch) == FilterAt(data, i, ch, ns, maxSat, lam)
  }

  /** csmooth: only pseudoranges change, each to the value of its channel's filter. */
  method Csmooth(data: array<Record>, ns: int, maxSat: int, lam: nat -> real)
    requires ns >= 1 && AllValid(data[..])
    modifies data
    ensures forall i :: 0 <= i < data.Length ==> SmoothedTo(old(data[..]), i, NFREQ, ns, maxSat, lam, data[i])
  {
    hide SmoothedTo, FiltersAt, FiltersTo, FilterAt;
    ghost var was := data[..];
    var filters: Filters := map[];
    FiltersStart(was, ns, maxSat, lam);
    var i := 0;
    while i < data.Length
      invariant 0 <= i <= data.Length && AllValid(was) && |was| == data.Length && was == old(data[..])
      invariant forall k :: 0 <= k < i ==> SmoothedTo(was, k, NFREQ, ns, maxSat, lam, data[k])
      invariant forall k :: i <= k < data.Length ==> data[k] == was[k]
      invariant FiltersAt(was, i, ns, maxSat, lam, filters)
    {
      var p;
      p, filters := SmoothRecord(was, i, data[i], filters, ns, maxSat, lam);
      data[i] := p;
      i := i + 1;
    }
  }

  /** The loop over the frequencies of a record. */
  method SmoothRecord(ghost was: seq<Record>, ghost i: nat, p0: Record, filters0: Filters, ns: int, maxSat: int, lam: nat -> real)
    returns (p: Record, filters: Filters)
    requires AllValid(was) && i < |was| && p0 == was[i] && ns >= 1 && FiltersAt(was, i, ns, maxSat, lam, filters0)
    ensures SmoothedTo(was, i, NFREQ, ns, maxSat, lam, p) && FiltersAt(was, i + 1, ns, maxSat, lam, filters)
  {
    hide SmoothedTo, FiltersAt, FiltersTo, FilterAt, Update;
    p, filters := p0, filters0;
    RecordStart(was, i, ns, maxSat, lam, filters);
    var j := 0;
    while j < NFREQ
      invariant 0 <= j <= NFREQ && SmoothedTo(was, i, j, ns, maxSat, lam, p) && FiltersTo(was, i, j, ns, maxSat, lam, filters)
    {
      Untouched(was, i, j, ns, maxSat, lam, p);
      var ch := Channel(p.rcv, p.sat, j);
      NextFrequency(was, i, j, ns, maxSat, lam, p, filters);
      if Used(p, j, maxSat) {
        var s := Update(FilterOf(filters, ch), p.P[j], p.L[j], p.LLI[j] != 0, ns, lam(j));
        filters := filters[ch := s];
        p := p.(P := p.P[j := if s.n < ns then 0.0 else s.ps]);
      }
      j := j + 1;
    }
    RecordEnd(was, i, ns, maxSat, lam, filters);
  }

  lemma FiltersStart(data: seq<Record>, ns: int, maxSat: int, lam: nat -> real)
    requires AllValid(data) && ns >= 1
    ensures FiltersAt(data, 0, ns, maxSat, lam, map[])
  {
  }

  lemma RecordStart(data: seq<Record>, i: nat, ns: int, maxSat: int, lam: nat -> real, filters: Filters)
    requires AllValid(data) && i < |data| && ns >= 1 && FiltersAt(data, i, ns, maxSat, lam, filters)
    ensures SmoothedTo(data, i, 0, ns, maxSat, lam, data[i]) && FiltersTo(data, i, 0, ns, maxSat, lam, filters)
  {
    hide FilterAt;
  }

  lemma Untouched(data: seq<Record>, i: nat, j: nat, ns: int, maxSat: int, lam: nat -> real, p: Record)
    requires AllValid(data) && i < |data| && ns >= 1 && j < NFREQ && SmoothedTo(data, i, j, ns, maxSat, lam, p)
    ensures p.Valid() && p.rcv == data[i].rcv && p.sat == data[i].sat && p.L == data[i].L && p.LLI == data[i].LLI && p.P[j] == data[i].P[j]
  {
  }

  lemma NextFrequency(data: seq<Record>, i: nat, j: nat, ns: int, maxSat: int, lam: nat -> real, p: Record, filters: Filters)
    requires AllValid(data) && i < |data| && ns >= 1 && j < NFREQ
    requires SmoothedTo(data, i, j, ns, maxSat, lam, p) && FiltersTo(data, i, j, ns, maxSat, lam, filters) && p.Valid()
    ensures if Used(p, j, maxSat) then
              var ch := Channel(p.rcv, p.sat, j);
              var s := Update(FilterOf(filters, ch), p.P[j], p.L[j], p.LLI[j] != 0, ns, lam(j));
              SmoothedTo(data, i, j + 1, ns, maxSat, lam, p.(P := p.P[j := if s.n < ns then 0.0 else s.ps]))
              && FiltersTo(data, i, j + 1, ns, maxSat, lam, filters[ch := s])
            else SmoothedTo(data, i, j + 1, ns, maxSat, lam, p) && FiltersTo(data, i, j + 1, ns, maxSat, lam, filters)
  {
    hide Update;
    var ch := Channel(p.rcv, p.sat, j);
    assert FilterOf(filters, ch) == FilterAt(data, i, ch, ns, maxSat, lam);
    assert Of(data[i], ch, maxSat) == Used(p, j, maxSat);
  }

  lemma RecordEnd(data: seq<Record>, i: nat, ns: int, maxSat: int, lam: nat -> real, filters: Filters)
    requires AllValid(data) && i < |data| && ns >= 1 && FiltersTo(data, i, NFREQ, ns, maxSat, lam, filters)
    ensures FiltersAt(data, i + 1, ns, maxSat, lam, filters)
  {
    hide Update;
  }

  // ---------- what the filter does ----------

  /** Record p is of this channel, used or not. */
  predicate InChannel(p: Record, ch: Channel, maxSat: int)
    requires p.Valid()
  {
    ch.freq < NFREQ && p.rcv == ch.rcv && p.sat == ch.sat && 0 < p.sat <= maxSat && 0 < p.rcv <= 2
  }

  /** Record p flags a slip of this channel. */
  predicate Flags(p: Record, ch: Channel, maxSat: int)
    requires p.Valid()
  {
    InChannel(p, ch, maxSat) && p.LLI[ch.freq] != 0
  }

  /** Code minus scaled carrier. */
  function Raw(p: Record, ch: Channel, lam: nat -> real): real
    requires p.Valid() && ch.freq < NFREQ
  {
    p.P[ch.freq] - lam(ch.freq) * p.L[ch.freq]
  }

  /** The raw values of a channel since its last flagged slip, among the first i records. */
  function SinceSlip(data: seq<Record>, i: nat, ch: Channel, maxSat: int, lam: nat -> real): seq<real>
    requires AllValid(data) && i <= |data|
  {
    if i == 0 then []
    else
      var r, p := SinceSlip(data, i - 1, ch, maxSat, lam), data[i - 1];
      (if Flags(p, ch, maxSat) then [] else r) + (if Of(p, ch, maxSat) then [Raw(p, ch, lam)] else [])
  }

  /** A slip of the channel among the first i records goes unnoticed: a record without code
      or carrier flags it, after a used record and with no slip noticed since. */
  ghost predicate MissesSlip(data: seq<Record>, i: nat, ch: Channel, maxSat: int)
    requires AllValid(data) && i <= |data|
  {
    exists j, k :: 0 <= j < k < i && Of(data[j], ch, maxSat) && Flags(data[k], ch, maxSat) && !Of(data[k], ch, maxSat)
      && NoneNoticed(data, j, i, ch, maxSat)
  }

  /** None of the records after j up to i flags a slip that csmooth notices. */
  ghost predicate NoneNoticed(data: seq<Record>, j: nat, i: nat, ch: Channel, maxSat: int)
    requires AllValid(data) && i <= |data|
  {
    forall l :: j < l < i ==> !(Of(data[l], ch, maxSat) && Flags(data[l], ch, maxSat))
  }

  /** The raw values since the last slip that csmooth notices, one flagged on a record with
      code and carrier. */
  function Raws(data: seq<Record>, i: nat, ch: Channel, maxSat: int, lam: nat -> real): seq<real>
    requires AllValid(data) && i <= |data|
  {
    if i == 0 then []
    else
      var r, p := Raws(data, i - 1, ch, maxSat, lam), data[i - 1];
      if !Of(p, ch, maxSat) then r
      else (if p.LLI[ch.freq] != 0 then [] else r) + [Raw(p, ch, lam)]
  }

  /** Raw values are there once a record is used, and the last used one began or joined them. */
  lemma {:induction false} RawsFromUsed(data: seq<Record>, i: nat, ch: Channel, maxSat: int, lam: nat -> real)
    requires AllValid(data) && i <= |data|
    ensures |Raws(data, i, ch, maxSat, lam)| > 0 <==> exists j :: 0 <= j < i && Of(data[j], ch, maxSat) && NoneNoticed(data, j, i, ch, maxSat)
  {
    if i > 0 {
      RawsFromUsed(data, i - 1, ch, maxSat, lam);
      RawsStep(data, i, ch, maxSat, lam);
      NewestNoticed(data, i, ch, maxSat);
      hide Raws, Raw, Of, Flags, NoneNoticed;
      if !Of(data[i - 1], ch, maxSat) {
        forall j | 0 <= j < i - 1
          ensures NoneNoticed(data, j, i, ch, maxSat) <==> NoneNoticed(data, j, i - 1, ch, maxSat)
        {
          NoticedNext(data, j, i, ch, maxSat);
        }
      }
    }
  }

  lemma NewestNoticed(data: seq<Record>, i: nat, ch: Channel, maxSat: int)
    requires AllValid(data) && 0 < i <= |data|
    ensures NoneNoticed(data, i - 1, i, ch, maxSat)
  {
  }

  /** How one more record changes what is missed. */
  lemma MissesNext(data: seq<Record>, i: nat, ch: Channel, maxSat: int, lam: nat -> real)
    requires AllValid(data) && 0 < i <= |data|
    ensures var p := data[i - 1];
            MissesSlip(data, i, ch, maxSat) <==>
              if Of(p, ch, maxSat) then !Flags(p, ch, maxSat) && MissesSlip(data, i - 1, ch, maxSat)
              else MissesSlip(data, i - 1, ch, maxSat) || (Flags(p, ch, maxSat) && |Raws(data, i - 1, ch, maxSat, lam)| > 0)
  {
    var p := data[i - 1];
    RawsFromUsed(data, i - 1, ch, maxSat, lam);
    if Of(p, ch, maxSat) && Flags(p, ch, maxSat) {
      forall j | 0 <= j < i - 1
        ensures !NoneNoticed(data, j, i, ch, maxSat)
      {
      }
    } else {
      forall j | 0 <= j < i - 1
        ensures NoneNoticed(data, j, i, ch, maxSat) <==> NoneNoticed(data, j, i - 1, ch, maxSat)
      {
        NoticedNext(data, j, i, ch, maxSat);
      }
    }
  }

  lemma NoticedNext(data: seq<Record>, j: nat, i: nat, ch: Channel, maxSat: int)
    requires AllValid(data) && j < i <= |data| && !(Of(data[i - 1], ch, maxSat) && Flags(data[i - 1], ch, maxSat))
    ensures NoneNoticed(data, j, i, ch, maxSat) <==> NoneNoticed(data, j, i - 1, ch, maxSat)
  {
  }

  /** n counts the values since the last flagged slip if and only if no slip is missed. */
  lemma {:induction false} CountExact(data: seq<Record>, i: nat, ch: Channel, maxSat: int, lam: nat -> real)
    requires AllValid(data) && i <= |data|
    ensures |SinceSlip(data, i, ch, maxSat, lam)| <= |Raws(data, i, ch, maxSat, lam)|
    ensures MissesSlip(data, i, ch, maxSat) <==> |SinceSlip(data, i, ch, maxSat, lam)| < |Raws(data, i, ch, maxSat, lam)|
    ensures !MissesSlip(data, i, ch, maxSat) ==> SinceSlip(data, i, ch, maxSat, lam) == Raws(data, i, ch, maxSat, lam)
  {
    if i > 0 {
      CountExact(data, i - 1, ch, maxSat, lam);
      MissesNext(data, i, ch, maxSat, lam);
      hide MissesSlip, Raw;
    }
  }

  /** All raw values lie between lo and hi. */
  predicate Between(lo: real, hi: real, raws: seq<real>)
  {
    forall k :: 0 <= k < |raws| ==> lo <= raws[k] <= hi
  }

  /** The smoothed code minus scaled carrier is an average of the new raw value and the old one. */
  lemma UpdateAverages(s: Filter, P: real, L: real, ns: int, lam: real, a: real, b: real, w: real, lo: real, hi: real)
    requires ns >= 1 && s.n > 0 && a == P - lam * L && b == s.ps - lam * s.lp && lo <= a <= hi && lo <= b <= hi
    requires w == 1.0 / ns as real
    ensures lo <= Update(s, P, L, false, ns, lam).ps - lam * L <= hi
  {
    UpdateWeighs(s, P, L, ns, lam, a, b, w, 1.0 - w);
    WeightRange(ns, w);
    Convex(a, b, w, lo, hi);
  }

  lemma SplitDifference(lam: real, x: real, y: real, d: real)
    requires d == lam * (x - y)
    ensures d == lam * x - lam * y
  {
  }

  lemma WeightRange(ns: int, w: real)
    requires ns >= 1 && w == 1.0 / ns as real
    ensures 0.0 < w <= 1.0 && w * ns as real == 1.0
  {
    var m := ns as real;
    assert m >= 1.0;
    Reciprocal(m, w);
  }

  lemma Reciprocal(m: real, w: real)
    requires m >= 1.0 && w == 1.0 / m
    ensures 0.0 < w <= 1.0 && w * m == 1.0
  {
  }

  lemma Weighted(P: real, x: real, c: real, a: real, b: real, ns: int, w: real)
    requires ns >= 1 && a == P - c && b == x - c && w == 1.0 / ns as real && w * ns as real == 1.0
    ensures P / ns as real + x * (ns - 1) as real / ns as real - c == w * a + (1.0 - w) * b
  {
    var m := ns as real;
    assert (ns - 1) as real == m - 1.0;
    Quotient(P, m, w);
    Quotient(x * (m - 1.0), m, w);
    WeightedReal(P, x, c, a, b, m, w);
  }

  lemma Quotient(x: real, m: real, w: real)
    requires m > 0.0 && w * m == 1.0
    ensures x / m == x * w
  {
    assert x / m * m == x;
    assert x * w * m == x * (w * m);
    Cancel(x / m, x * w, m);
  }

  lemma WeightedReal(P: real, x: real, c: real, a: real, b: real, m: real, w: real)
    requires a == P - c && b == x - c && w * m == 1.0
    ensures P * w + x * (m - 1.0) * w - c == w * a + (1.0 - w) * b
  {
    assert x * (m - 1.0) * w == x * (w * m) - x * w;
  }

  lemma Convex(a: real, b: real, w: real, lo: real, hi: real)
    requires 0.0 <= w <= 1.0 && lo <= a <= hi && lo <= b <= hi
    ensures lo <= w * a + (1.0 - w) * b <= hi
  {
    Whole(w, 1.0 - w, lo);
    Whole(w, 1.0 - w, hi);
    ConvexTwo(a, b, w, 1.0 - w, lo, hi);
  }

  lemma ConvexTwo(a: real, b: real, w: real, v: real, lo: real, hi: real)
    requires 0.0 <= w && 0.0 <= v && lo <= a <= hi && lo <= b <= hi && w * lo + v * lo == lo && w * hi + v * hi == hi
    ensures lo <= w * a + v * b <= hi
  {
    var x, y := w * a, v * b;
    Monotone(w, lo, a, w * lo, x);
    Monotone(w, a, hi, x, w * hi);
    Monotone(v, lo, b, v * lo, y);
    Monotone(v, b, hi, y, v * hi);
    assert lo <= x + y <= hi;
  }

  lemma Whole(w: real, v: real, x: real)
    requires w + v == 1.0
    ensures w * x + v * x == x
  {
    assert w * x + v * x == (w + v) * x;
  }

  lemma Monotone(w: real, x: real, y: real, p: real, q: real)
    requires w >= 0.0 && x <= y && p == w * x && q == w * y
    ensures p <= q
  {
    Gap(w, y - x, q - p);
  }

  lemma Gap(w: real, d: real, e: real)
    requires w >= 0.0 && d >= 0.0 && e == w * d
    ensures e >= 0.0
  {
  }

  lemma BetweenFront(lo: real, hi: real, r: seq<real>, a: real, t: seq<real>)
    requires t == r + [a] && Between(lo, hi, t)
    ensures Between(lo, hi, r)
  {
    forall k | 0 <= k < |r|
      ensures lo <= r[k] <= hi
    {
      assert t[k] == r[k];
    }
  }

  /** Code minus scaled carrier of the filter is within the bounds. */
  ghost predicate Holds(s: Filter, lam: real, lo: real, hi: real)
  {
    s.n > 0 ==> lo <= s.ps - lam * s.lp <= hi
  }

  lemma FilterStep(data: seq<Record>, i: nat, ch: Channel, ns: int, maxSat: int, lam: nat -> real)
    requires AllValid(data) && 0 < i <= |data| && ns >= 1
    ensures var s, p := FilterAt(data, i - 1, ch, ns, maxSat, lam), data[i - 1];
            FilterAt(data, i, ch, ns, maxSat, lam)
            == if Of(p, ch, maxSat) then Update(s, p.P[ch.freq], p.L[ch.freq], p.LLI[ch.freq] != 0, ns, lam(ch.freq)) else s
  {
  }

  lemma RawsStep(data: seq<Record>, i: nat, ch: Channel, maxSat: int, lam: nat -> real)
    requires AllValid(data) && 0 < i <= |data|
    ensures var r, p := Raws(data, i - 1, ch, maxSat, lam), data[i - 1];
            Raws(data, i, ch, maxSat, lam)
            == if !Of(p, ch, maxSat) then r else (if p.LLI[ch.freq] != 0 then [] else r) + [Raw(p, ch, lam)]
  {
    hide Raw;
  }

  /** In every state, n counts the records since the last slip that was noticed, and the
      smoothed code minus scaled carrier lies within the raw values of those records. */
  lemma {:induction false} FilterBounded(data: seq<Record>, i: nat, ch: Channel, ns: int, maxSat: int, lam: nat -> real, lo: real, hi: real)
    requires AllValid(data) && i <= |data| && ns >= 1 && Between(lo, hi, Raws(data, i, ch, maxSat, lam))
    ensures var s := FilterAt(data, i, ch, ns, maxSat, lam);
            s.n == |Raws(data, i, ch, maxSat, lam)| && Holds(s, lam(ch.freq), lo, hi)
  {
    if i > 0 {
      hide Update, FilterAt, Raws, Raw, Between, Holds;
      FilterStep(data, i, ch, ns, maxSat, lam);
      RawsStep(data, i, ch, maxSat, lam);
      var s, p := FilterAt(data, i - 1, ch, ns, maxSat, lam), data[i - 1];
      var r, t := Raws(data, i - 1, ch, maxSat, lam), Raws(data, i, ch, maxSat, lam);
      if Of(p, ch, maxSat) {
        var f, a := ch.freq, Raw(p, ch, lam);
        if p.LLI[f] == 0 {
          BetweenFront(lo, hi, r, a, t);
          FilterBounded(data, i - 1, ch, ns, maxSat, lam, lo, hi);
        } else {
          CountOnly(data, i - 1, ch, ns, maxSat, lam);
        }
        BetweenLast(lo, hi, t, a);
        RawIs(p, ch, lam, a);
        UpdateBounded(s, p.P[f], p.L[f], p.LLI[f] != 0, ns, lam(f), a, lo, hi);
      } else {
        FilterBounded(data, i - 1, ch, ns, maxSat, lam, lo, hi);
      }
    }
  }

  lemma BetweenLast(lo: real, hi: real, t: seq<real>, a: real)
    requires |t| > 0 && t[|t| - 1] == a && Between(lo, hi, t)
    ensures lo <= a <= hi
  {
  }

  lemma RawIs(p: Record, ch: Channel, lam: nat -> real, a: real)
    requires p.Valid() && ch.freq < NFREQ && a == Raw(p, ch, lam)
    ensures a == p.P[ch.freq] - lam(ch.freq) * p.L[ch.freq]
  {
  }

  lemma {:induction false} CountOnly(data: seq<Record>, i: nat, ch: Channel, ns: int, maxSat: int, lam: nat -> real)
    requires AllValid(data) && i <= |data| && ns >= 1
    ensures FilterAt(data, i, ch, ns, maxSat, lam).n == |Raws(data, i, ch, maxSat, lam)|
  {
    if i > 0 {
      CountOnly(data, i - 1, ch, ns, maxSat, lam);
    }
  }

  lemma UpdateBounded(s: Filter, P: real, L: real, slip: bool, ns: int, lam: real, a: real, lo: real, hi: real)
    requires ns >= 1 && a == P - lam * L && lo <= a <= hi
    requires !slip ==> Holds(s, lam, lo, hi)
    ensures var t := Update(s, P, L, slip, ns, lam);
            t.n == (if slip then 1 else s.n + 1) && t.lp == L && Holds(t, lam, lo, hi)
  {
    var t := Update(s, P, L, slip, ns, lam);
    var g := t.ps - lam * L;
    if !slip && s.n > 0 {
      UpdateAverages(s, P, L, ns, lam, a, s.ps - lam * s.lp, 1.0 / ns as real, lo, hi);
    } else {
      assert t.ps == P;
    }
    assert lo <= g <= hi;
    SameGap(t, lam, L, g);
  }

  lemma SameGap(t: Filter, lam: real, L: real, g: real)
    requires t.lp == L && g == t.ps - lam * L
    ensures g == t.ps - lam * t.lp
  {
  }

  /** If no slip is missed, the same holds since the last flagged slip; and n is right only
      then. */
  lemma FilterExact(data: seq<Record>, i: nat, ch: Channel, ns: int, maxSat: int, lam: nat -> real, lo: real, hi: real)
    requires AllValid(data) && i <= |data| && ns >= 1
    ensures var s, raws := FilterAt(data, i, ch, ns, maxSat, lam), SinceSlip(data, i, ch, maxSat, lam);
            && (s.n == |raws| <==> !MissesSlip(data, i, ch, maxSat))
            && (!MissesSlip(data, i, ch, maxSat) && s.n > 0 && Between(lo, hi, raws) ==> lo <= s.ps - lam(ch.freq) * s.lp <= hi)
  {
    hide FilterAt, Raws, SinceSlip, MissesSlip;
    CountOnly(data, i, ch, ns, maxSat, lam);
    CountExact(data, i, ch, maxSat, lam);
    if Between(lo, hi, Raws(data, i, ch, maxSat, lam)) {
      FilterBounded(data, i, ch, ns, maxSat, lam, lo, hi);
    }
  }

  /** If no slip is missed, a nonzero smoothed value comes only after ns records without a
      flagged slip, and is within the raw values of those records, moved by the carrier. */
  lemma SmoothedValue(data: seq<Record>, i: nat, j: nat, ns: int, maxSat: int, lam: nat -> real, lo: real, hi: real)
    requires AllValid(data) && i < |data| && j < NFREQ && ns >= 1 && Used(data[i], j, maxSat)
    requires !MissesSlip(data, i + 1, Channel(data[i].rcv, data[i].sat, j), maxSat)
    requires Between(lo, hi, SinceSlip(data, i + 1, Channel(data[i].rcv, data[i].sat, j), maxSat, lam))
    ensures var P := SmoothedP(data, i, j, ns, maxSat, lam);
            P != 0.0 ==> |SinceSlip(data, i + 1, Channel(data[i].rcv, data[i].sat, j), maxSat, lam)| >= ns
                         && lo <= P - lam(j) * data[i].L[j] <= hi
  {
    var ch := Channel(data[i].rcv, data[i].sat, j);
    FilterExact(data, i + 1, ch, ns, maxSat, lam, lo, hi);
    assert Of(data[i], ch, maxSat);
    assert FilterAt(data, i + 1, ch, ns, maxSat, lam).lp == data[i].L[j];
  }

  // ---------- the smoothed value ----------

  function Power(x: real, k: nat): real
  {
    if k == 0 then 1.0 else x * Power(x, k - 1)
  }

  /** The weight of the k-th newest of n raw values, with w for the newest: w (1 - w)^k, and
      what is left for the oldest. */
  function Weight(w: real, n: nat, k: nat): real
  {
    if k + 1 == n then Power(1.0 - w, k) else w * Power(1.0 - w, k)
  }

  /** The k-th newest value with its weight. */
  function WeightedRaw(w: real, raws: seq<real>): int -> real
  {
    k => if 0 <= k < |raws| then Weight(w, |raws|, k) * raws[|raws| - 1 - k] else 0.0
  }

  function Mean(w: real, raws: seq<real>): real
  {
    Sum(|raws|, WeightedRaw(w, raws))
  }

  lemma WeightNext(w: real, u: real, n: nat, k: nat)
    requires k < n && u == 1.0 - w
    ensures Weight(w, n + 1, k + 1) == u * Weight(w, n, k)
  {
    Reassociate(w, u, Power(u, k));
  }

  lemma Reassociate(a: real, b: real, c: real)
    ensures a * (b * c) == b * (a * c)
  {
  }

  function Times(u: real, f: int -> real): int -> real
  {
    k => u * f(k)
  }

  lemma RawNext(w: real, u: real, raws: seq<real>, a: real, k: nat)
    requires k < |raws| && u == 1.0 - w
    ensures WeightedRaw(w, raws + [a])(k + 1) == Times(u, WeightedRaw(w, raws))(k)
  {
    hide Weight;
    WeightNext(w, u, |raws|, k);
    assert (raws + [a])[|raws| - (k + 1)] == raws[|raws| - 1 - k];
    Product3(u, Weight(w, |raws|, k), raws[|raws| - 1 - k], WeightedRaw(w, raws + [a])(k + 1));
  }

  lemma Product3(u: real, x: real, y: real, z: real)
    requires z == u * x * y
    ensures z == u * (x * y)
  {
  }

  lemma RawFirst(w: real, raws: seq<real>, a: real)
    ensures |raws| == 0 ==> WeightedRaw(w, raws + [a])(0) == a
    ensures |raws| > 0 ==> WeightedRaw(w, raws + [a])(0) == w * a
  {
    assert Power(1.0 - w, 0) == 1.0;
  }

  lemma MeanParts(w: real, u: real, raws: seq<real>, a: real)
    requires u == 1.0 - w
    ensures Mean(w, raws + [a]) == WeightedRaw(w, raws + [a])(0) + Sum(|raws|, Times(u, WeightedRaw(w, raws)))
  {
    hide WeightedRaw, Times, Sum;
    var n, f, h := |raws|, WeightedRaw(w, raws + [a]), Times(u, WeightedRaw(w, raws));
    forall k: nat | k < n
      ensures h(k) == f(k + 1)
    {
      RawNext(w, u, raws, a, k);
    }
    assert |raws + [a]| == n + 1;
    SumFirst(n, f, h);
  }

  lemma SumTimes(n: nat, u: real, f: int -> real)
    ensures Sum(n, Times(u, f)) == u * Sum(n, f)
  {
    SumScale(n, u, f, Times(u, f));
  }

  /** One more value: the sum before keeps 1 - w of its weight. */
  lemma MeanNext(w: real, u: real, raws: seq<real>, a: real)
    requires u == 1.0 - w
    ensures |raws| == 0 ==> Mean(w, raws + [a]) == a
    ensures |raws| > 0 ==> Mean(w, raws + [a]) == w * a + u * Mean(w, raws)
  {
    RawFirst(w, raws, a);
    MeanParts(w, u, raws, a);
    hide WeightedRaw, Sum, Times;
    SumTimes(|raws|, u, WeightedRaw(w, raws));
    SumEmpty(Times(u, WeightedRaw(w, raws)));
  }

  lemma SumEmpty(f: int -> real)
    ensures Sum(0, f) == 0.0
  {
  }

  /** The filter's code minus scaled carrier. */
  function Smoothed(s: Filter, lam: real): real
  {
    s.ps - lam * s.lp
  }

  /** A record that joins others. */
  lemma UpdateWeighs(s: Filter, P: real, L: real, ns: int, lam: real, a: real, b: real, w: real, u: real)
    requires ns >= 1 && s.n > 0 && a == P - lam * L && b == Smoothed(s, lam) && w == 1.0 / ns as real && u == 1.0 - w
    ensures Smoothed(Update(s, P, L, false, ns, lam), lam) == w * a + u * b
  {
    var dcp := lam * (L - s.lp);
    var x := s.ps + dcp;
    assert x - lam * L == b by {
      SplitDifference(lam, L, s.lp, dcp);
    }
    WeightRange(ns, w);
    Weighted(P, x, lam * L, a, b, ns, w);
  }

  lemma UpdateStarts(s: Filter, P: real, L: real, slip: bool, ns: int, lam: real)
    requires ns >= 1 && (slip || s.n == 0)
    ensures Smoothed(Update(s, P, L, slip, ns, lam), lam) == P - lam * L
  {
  }

  /** The filter counts these raw values and is their weighted sum. */
  ghost predicate Weighs(s: Filter, lam: real, w: real, raws: seq<real>)
  {
    s.n == |raws| && (s.n > 0 ==> Smoothed(s, lam) == Mean(w, raws))
  }

  lemma WeighsNext(s: Filter, P: real, L: real, slip: bool, ns: int, lam: real, a: real, w: real, raws: seq<real>)
    requires ns >= 1 && w == 1.0 / ns as real && a == P - lam * L && Weighs(s, lam, w, raws)
    ensures Weighs(Update(s, P, L, slip, ns, lam), lam, w, (if slip then [] else raws) + [a])
  {
    var t, u := Update(s, P, L, slip, ns, lam), 1.0 - w;
    assert t.n == |if slip then [] else raws| + 1;
    hide Update, Smoothed, Mean;
    if slip || s.n == 0 {
      UpdateStarts(s, P, L, slip, ns, lam);
      MeanNext(w, u, [], a);
      assert (if slip then [] else raws) == [];
    } else {
      UpdateWeighs(s, P, L, ns, lam, a, Smoothed(s, lam), w, u);
      MeanNext(w, u, raws, a);
    }
  }

  /** In every state the filter is the weighted sum of the raw values since the last slip
      that was noticed. */
  lemma {:induction false} FilterWeighs(data: seq<Record>, i: nat, ch: Channel, ns: int, maxSat: int, lam: nat -> real, w: real)
    requires AllValid(data) && i <= |data| && ns >= 1 && w == 1.0 / ns as real
    ensures Weighs(FilterAt(data, i, ch, ns, maxSat, lam), lam(ch.freq), w, Raws(data, i, ch, maxSat, lam))
  {
    if i > 0 {
      hide Update, FilterAt, Raws, Raw, Weighs;
      FilterWeighs(data, i - 1, ch, ns, maxSat, lam, w);
      FilterStep(data, i, ch, ns, maxSat, lam);
      RawsStep(data, i, ch, maxSat, lam);
      var s, p := FilterAt(data, i - 1, ch, ns, maxSat, lam), data[i - 1];
      if Of(p, ch, maxSat) {
        var f, a := ch.freq, Raw(p, ch, lam);
        RawIs(p, ch, lam, a);
        WeighsNext(s, p.P[f], p.L[f], p.LLI[f] != 0, ns, lam(f), a, w, Raws(data, i - 1, ch, maxSat, lam));
      }
    }
  }

  lemma LastCarrier(data: seq<Record>, i: nat, j: nat, ns: int, maxSat: int, lam: nat -> real)
    requires AllValid(data) && i < |data| && j < NFREQ && ns >= 1 && Used(data[i], j, maxSat)
    ensures FilterAt(data, i + 1, Channel(data[i].rcv, data[i].sat, j), ns, maxSat, lam).lp == data[i].L[j]
  {
    FilterStep(data, i + 1, Channel(data[i].rcv, data[i].sat, j), ns, maxSat, lam);
    hide FilterAt;
  }

  /** What csmooth leaves in a record: the code itself if satellite or receiver is out of
      range or code or carrier is missing, 0 for the first ns - 1 values since the last slip
      that was noticed, and then the weighted sum of all values since, moved by the carrier. */
  lemma Emitted(data: seq<Record>, i: nat, j: nat, ns: int, maxSat: int, lam: nat -> real)
    requires AllValid(data) && i < |data| && j < NFREQ && ns >= 1
    ensures var p := data[i];
            var raws := Raws(data, i + 1, Channel(p.rcv, p.sat, j), maxSat, lam);
            SmoothedP(data, i, j, ns, maxSat, lam) ==
              if p.sat <= 0 || maxSat < p.sat || p.rcv <= 0 || 2 < p.rcv || p.P[j] == 0.0 || p.L[j] == 0.0 then p.P[j]
              else if |raws| < ns then 0.0
              else lam(j) * p.L[j] + Mean(1.0 / ns as real, raws)
  {
    hide FilterAt, Raws, Mean;
    var p, ch, w := data[i], Channel(data[i].rcv, data[i].sat, j), 1.0 / ns as real;
    FilterWeighs(data, i + 1, ch, ns, maxSat, lam, w);
    if Used(p, j, maxSat) {
      LastCarrier(data, i, j, ns, maxSat, lam);
    }
  }

  /** A used record, one without code that flags a slip, and a used record after it. */
  function MissedExample(): seq<Record>
  {
    [Record(1, 1, [100.0, 0.0, 0.0], [1.0, 0.0, 0.0], [0, 0, 0]),
     Record(1, 1, [0.0, 0.0, 0.0], [501.0, 0.0, 0.0], [1, 0, 0]),
     Record(1, 1, [100.0, 0.0, 0.0], [501.0, 0.0, 0.0], [0, 0, 0])]
  }

  /** With a window of 2 and wave length 1 the third record is emitted as 350, that is 350 -
      501 = -151, although the only raw value since the slip is -401. */
  lemma MissedSlip()
    ensures var data, ch, lam := MissedExample(), Channel(1, 1, 0), (f: nat) => 1.0;
            && AllValid(data) && MissesSlip(data, 3, ch, 32)
            && SinceSlip(data, 3, ch, 32, lam) == [-401.0]
            && SmoothedP(data, 2, 0, 2, 32, lam) == 350.0
  {
    var data, ch, lam := MissedExample(), Channel(1, 1, 0), (f: nat) => 1.0;
    assert Of(data[0], ch, 32) && Flags(data[1], ch, 32) && !Of(data[1], ch, 32) && Of(data[2], ch, 32);
    assert NoneNoticed(data, 0, 3, ch, 32);
    assert SinceSlip(data, 2, ch, 32, lam) == [];
    assert FilterAt(data, 0, ch, 2, 32, lam) == Filter(0, 0.0, 0.0);
    assert FilterAt(data, 1, ch, 2, 32, lam) == Filter(1, 100.0, 1.0);
    assert FilterAt(data, 2, ch, 2, 32, lam) == Filter(1, 100.0, 1.0);
    assert FilterAt(data, 3, ch, 2, 32, lam) == Filter(2, 350.0, 501.0);
  }

  /** Records of other channels, or unused ones, do not matter to a channel. */
  lemma {:induction false} ChannelsIndependent(data: seq<Record>, other: seq<Record>, i: nat, ch: Channel, ns: int, maxSat: int, lam: nat -> real)
    requires AllValid(data) && AllValid(other) && i <= |data| == |other| && ns >= 1
    requires forall k :: 0 <= k < i ==> Of(data[k], ch, maxSat) == Of(other[k], ch, maxSat)
    requires forall k :: 0 <= k < i && Of(data[k], ch, maxSat) ==>
               data[k].P[ch.freq] == other[k].P[ch.freq] && data[k].L[ch.freq] == other[k].L[ch.freq] && data[k].LLI[ch.freq] == other[k].LLI[ch.freq]
    ensures FilterAt(data, i, ch, ns, maxSat, lam) == FilterAt(other, i, ch, ns, maxSat, lam)
  {
    hide Update;
    if i > 0 {
      ChannelsIndependent(data, other, i - 1, ch, ns, maxSat, lam);
    }
  }
}
