/** rdp of Utils.hpp: the Ramer-Douglas-Peucker simplification of a polyline. */
module LineSimplification {
  import opened Arith
  import opened RealArith
  import opened Euclid

  /** How far point i is from the line through points a and b. */
  type Metric = (nat, nat, nat) -> real

  // ---------- which points are kept ----------

  /** i is a grid point strictly between a and b. */
  predicate Inner(a: nat, step: nat, b: nat, i: nat)
    requires step > 0
  {
    a < i < b && (i - a) % step == 0
  }

  /** The first inner grid point at the greatest distance, which is positive. */
  ghost predicate Farthest(d: Metric, a: nat, step: nat, b: nat, i: nat)
    requires step > 0
  {
    && Inner(a, step, b, i) && d(a, b, i) > 0.0
    && forall j: nat :: Inner(a, step, b, j) ==> d(a, b, j) <= d(a, b, i) && (j < i ==> d(a, b, j) < d(a, b, i))
  }

  /** The scan of rdp from grid point `idx` on. */
  function Scan(d: Metric, a: nat, step: nat, b: nat, idx: nat, dMax: real, dMaxIdx: nat): (real, nat)
    requires step > 0
    decreases if idx < b then b - idx else 0
  {
    if idx >= b then (dMax, dMaxIdx)
    else if d(a, b, idx) > dMax then Scan(d, a, step, b, idx + step, d(a, b, idx), idx)
    else Scan(d, a, step, b, idx + step, dMax, dMaxIdx)
  }

  /** What the scan has found before grid point `idx`. */
  ghost predicate Found(d: Metric, a: nat, step: nat, b: nat, idx: nat, dMax: real, dMaxIdx: nat)
    requires step > 0
  {
    && dMax >= 0.0
    && (dMax > 0.0 ==> Inner(a, step, b, dMaxIdx) && dMaxIdx < idx && d(a, b, dMaxIdx) == dMax)
    && (forall j: nat :: Inner(a, step, b, j) && j < idx ==> d(a, b, j) <= dMax && (dMax > 0.0 && j < dMaxIdx ==> d(a, b, j) < dMax))
  }

  lemma NextInner(a: nat, step: nat, b: nat, idx: nat, j: nat)
    requires step > 0 && idx >= a && (idx - a) % step == 0 && Inner(a, step, b, j) && idx < j
    ensures idx + step <= j && (idx + step - a) % step == 0
  {
    GridGap(idx - a, j - a, step);
  }

  lemma GridGap(x: nat, y: nat, s: nat)
    requires s > 0 && x % s == 0 && y % s == 0 && x < y
    ensures x + s <= y && (x + s) % s == 0
  {
    var p, q := x / s, y / s;
    assert x == p * s && y == q * s;
    if q <= p {
      Multiples(q, p, s);
    } else {
      Multiples(p + 1, q, s);
    }
    assert x + s == (p + 1) * s;
    MultipleMod(p + 1, s);
  }

  lemma Multiples(p: int, q: int, s: nat)
    requires p <= q
    ensures p * s <= q * s
  {
  }

  lemma MultipleMod(p: nat, s: nat)
    requires s > 0
    ensures p * s % s == 0
  {
    DivModUnique(p * s, s, p, 0);
  }

  lemma AddMod(x: nat, s: nat)
    requires s > 0
    ensures (x + s) % s == x % s
  {
    var q, r := x / s, x % s;
    assert x == q * s + r;
    MulStep(q, s);
    DivModUnique(x + s, s, q + 1, r);
  }

  lemma FoundNext(d: Metric, a: nat, step: nat, b: nat, idx: nat, dMax: real, dMaxIdx: nat)
    requires step > 0 && Inner(a, step, b, idx) && Found(d, a, step, b, idx, dMax, dMaxIdx)
    ensures (idx + step - a) % step == 0
    ensures if d(a, b, idx) > dMax then Found(d, a, step, b, idx + step, d(a, b, idx), idx)
            else Found(d, a, step, b, idx + step, dMax, dMaxIdx)
  {
    AddMod(idx - a, step);
    assert idx + step - a == idx - a + step;
    forall j: nat | Inner(a, step, b, j) && j < idx + step
      ensures j <= idx
    {
      if j > idx {
        NextInner(a, step, b, idx, j);
      }
    }
  }

  lemma {:induction false} ScanFinds(d: Metric, a: nat, step: nat, b: nat, idx: nat, dMax: real, dMaxIdx: nat)
    requires step > 0 && a < idx && (idx - a) % step == 0 && Found(d, a, step, b, idx, dMax, dMaxIdx)
    ensures var (dm, i) := Scan(d, a, step, b, idx, dMax, dMaxIdx);
            dm >= 0.0 && (if dm > 0.0 then Farthest(d, a, step, b, i) && d(a, b, i) == dm
                          else forall j: nat :: Inner(a, step, b, j) ==> d(a, b, j) <= 0.0)
    decreases if idx < b then b - idx else 0
  {
    if idx < b {
      FoundNext(d, a, step, b, idx, dMax, dMaxIdx);
      if d(a, b, idx) > dMax {
        ScanFinds(d, a, step, b, idx + step, d(a, b, idx), idx);
      } else {
        ScanFinds(d, a, step, b, idx + step, dMax, dMaxIdx);
      }
    }
  }

  /** The scan from the first inner grid point. */
  function Peak(d: Metric, a: nat, step: nat, b: nat): (real, nat)
    requires step > 0
  {
    Scan(d, a, step, b, a + step, 0.0, 0)
  }

  lemma PeakFinds(d: Metric, a: nat, step: nat, b: nat)
    requires step > 0
    ensures var (dm, i) := Peak(d, a, step, b);
            dm >= 0.0 && (if dm > 0.0 then Farthest(d, a, step, b, i) && d(a, b, i) == dm
                          else forall j: nat :: Inner(a, step, b, j) ==> d(a, b, j) <= 0.0)
  {
    MultipleMod(1, step);
    forall j: nat | Inner(a, step, b, j)
      ensures j >= a + step
    {
      NextInner(a, step, b, a, j);
    }
    ScanFinds(d, a, step, b, a + step, 0.0, 0);
  }

  /** The farthest point is the one the scan finds. */
  lemma FarthestIsPeak(d: Metric, a: nat, step: nat, b: nat, i: nat)
    requires step > 0 && Farthest(d, a, step, b, i)
    ensures Peak(d, a, step, b) == (d(a, b, i), i)
  {
    PeakFinds(d, a, step, b);
    var (dm, k) := Peak(d, a, step, b);
    assert d(a, b, i) <= dm;
    assert d(a, b, k) <= d(a, b, i);
  }

  /** The indices of the points kept between a and b. */
  function Kept(d: Metric, eps: real, a: nat, step: nat, b: nat): (r: seq<nat>)
    requires step > 0 && eps >= 0.0 && a < b
    ensures |r| >= 2
    decreases b - a
  {
    var (dMax, i) := Peak(d, a, step, b);
    PeakFinds(d, a, step, b);
    if dMax > eps then
      var front := Kept(d, eps, a, step, i);
      front[..|front| - 1] + Kept(d, eps, i, step, b)
    else [a, b]
  }

  /** Increasing grid points from a to b. */
  ghost predicate Selection(a: nat, step: nat, b: nat, r: seq<nat>)
    requires step > 0
  {
    && |r| >= 2 && r[0] == a && r[|r| - 1] == b
    && (forall k :: 0 <= k < |r| - 1 ==> r[k] < r[k + 1])
    && (forall k :: 0 <= k < |r| ==> a <= r[k] <= b && (r[k] - a) % step == 0)
  }

  lemma SubGrid(x: nat, y: nat, s: nat)
    requires s > 0 && x % s == 0 && y % s == 0
    ensures (x + y) % s == 0 && (x >= y ==> (x - y) % s == 0)
  {
    var p, q := x / s, y / s;
    assert x == p * s && y == q * s;
    assert x + y == (p + q) * s;
    MultipleMod(p + q, s);
    if x >= y {
      if p < q {
        Multiples(p + 1, q, s);
      }
      assert x - y == (p - q) * s;
      MultipleMod(p - q, s);
    }
  }

  lemma JoinSelections(a: nat, step: nat, i: nat, b: nat, r: seq<nat>, t: seq<nat>)
    requires step > 0 && a < i < b && (i - a) % step == 0 && Selection(a, step, i, r) && Selection(i, step, b, t)
    ensures Selection(a, step, b, r[..|r| - 1] + t)
  {
    var s := r[..|r| - 1] + t;
    forall k | 0 <= k < |s|
      ensures a <= s[k] <= b && (s[k] - a) % step == 0
    {
      if k >= |r| - 1 {
        SubGrid(t[k - |r| + 1] - i, i - a, step);
      }
    }
  }

  /** Both ends stay, and the points kept are grid points in order. */
  lemma {:induction false} KeptSelection(d: Metric, eps: real, a: nat, step: nat, b: nat)
    requires step > 0 && eps >= 0.0 && a < b && (b - a) % step == 0
    ensures Selection(a, step, b, Kept(d, eps, a, step, b))
    decreases b - a
  {
    hide Scan, Selection, Farthest;
    var (dMax, i) := Peak(d, a, step, b);
    PeakFinds(d, a, step, b);
    if dMax > eps {
      FarthestInner(d, a, step, b, i);
      KeptSelection(d, eps, a, step, i);
      KeptSelection(d, eps, i, step, b);
      JoinSelections(a, step, i, b, Kept(d, eps, a, step, i), Kept(d, eps, i, step, b));
    } else {
      MultipleMod(0, step);
      TwoSelected(a, step, b);
    }
  }

  lemma TwoSelected(a: nat, step: nat, b: nat)
    requires step > 0 && a < b && (b - a) % step == 0 && 0 % step == 0
    ensures Selection(a, step, b, [a, b])
  {
  }

  lemma FarthestInner(d: Metric, a: nat, step: nat, b: nat, i: nat)
    requires step > 0 && Farthest(d, a, step, b, i) && (b - a) % step == 0
    ensures a < i < b && (i - a) % step == 0 && (b - i) % step == 0 && d(a, b, i) > 0.0
  {
    SubGrid(b - a, i - a, step);
    assert b - a - (i - a) == b - i;
  }

  /** Every grid point between a and b is within eps of their line. */
  ghost predicate Near(d: Metric, eps: real, step: nat, a: nat, b: nat)
    requires step > 0
  {
    forall j: nat :: Inner(a, step, b, j) ==> d(a, b, j) <= eps
  }

  /** Every grid point is within eps of the line of its neighbours that are kept. */
  ghost predicate Covers(d: Metric, eps: real, step: nat, r: seq<nat>)
    requires step > 0
  {
    forall k :: 0 <= k < |r| - 1 ==> Near(d, eps, step, r[k], r[k + 1])
  }

  lemma JoinCovers(d: Metric, eps: real, step: nat, r: seq<nat>, t: seq<nat>)
    requires step > 0 && |r| >= 1 && |t| >= 1 && r[|r| - 1] == t[0] && Covers(d, eps, step, r) && Covers(d, eps, step, t)
    ensures Covers(d, eps, step, r[..|r| - 1] + t)
  {
    var s := r[..|r| - 1] + t;
    hide Near;
    forall k | 0 <= k < |s| - 1
      ensures Near(d, eps, step, s[k], s[k + 1])
    {
      if k < |r| - 1 {
        assert s[k] == r[k] && s[k + 1] == r[k + 1];
      } else {
        assert s[k] == t[k - |r| + 1] && s[k + 1] == t[k - |r| + 2];
      }
    }
  }

  lemma {:induction false} KeptCovers(d: Metric, eps: real, a: nat, step: nat, b: nat)
    requires step > 0 && eps >= 0.0 && a < b && (b - a) % step == 0
    ensures Covers(d, eps, step, Kept(d, eps, a, step, b))
    decreases b - a
  {
    hide Scan, Covers, Farthest;
    var (dMax, i) := Peak(d, a, step, b);
    PeakFinds(d, a, step, b);
    if dMax > eps {
      FarthestInner(d, a, step, b, i);
      KeptCovers(d, eps, a, step, i);
      KeptCovers(d, eps, i, step, b);
      KeptEnds(d, eps, a, step, i);
      KeptEnds(d, eps, i, step, b);
      JoinCovers(d, eps, step, Kept(d, eps, a, step, i), Kept(d, eps, i, step, b));
    } else {
      TwoCovered(d, eps, a, step, b, dMax, i);
    }
  }

  lemma KeptEnds(d: Metric, eps: real, a: nat, step: nat, b: nat)
    requires step > 0 && eps >= 0.0 && a < b && (b - a) % step == 0
    ensures var r := Kept(d, eps, a, step, b); r[0] == a && r[|r| - 1] == b
  {
    KeptSelection(d, eps, a, step, b);
  }

  lemma TwoCovered(d: Metric, eps: real, a: nat, step: nat, b: nat, dMax: real, i: nat)
    requires step > 0 && 0.0 <= dMax <= eps
    requires if dMax > 0.0 then Farthest(d, a, step, b, i) && d(a, b, i) == dMax else forall j: nat :: Inner(a, step, b, j) ==> d(a, b, j) <= 0.0
    ensures Covers(d, eps, step, [a, b])
  {
  }

  // ---------- nothing is kept needlessly ----------

  /** Point k of the result was split at: it is the farthest, and farther than eps, from the
      line of two points kept on either side of it. */
  ghost predicate Needed(d: Metric, eps: real, step: nat, r: seq<nat>, k: nat)
    requires step > 0
  {
    exists l, h :: 0 <= l < k < h < |r| && Farthest(d, r[l], step, r[h], r[k]) && d(r[l], r[h], r[k]) > eps
  }

  /** All but the ends were split at. */
  ghost predicate AllNeeded(d: Metric, eps: real, step: nat, r: seq<nat>)
    requires step > 0
  {
    forall k: nat :: 0 < k < |r| - 1 ==> Needed(d, eps, step, r, k)
  }

  /** A part of a list is needed in the list. */
  lemma NeededInWindow(d: Metric, eps: real, step: nat, r: seq<nat>, s: seq<nat>, lo: nat, k: nat)
    requires step > 0 && lo + |r| <= |s| && s[lo..lo + |r|] == r && Needed(d, eps, step, r, k)
    ensures Needed(d, eps, step, s, lo + k)
  {
    hide Farthest;
    var l, h :| 0 <= l < k < h < |r| && Farthest(d, r[l], step, r[h], r[k]) && d(r[l], r[h], r[k]) > eps;
    assert s[lo + l] == r[l] && s[lo + h] == r[h] && s[lo + k] == r[k];
  }

  lemma JoinNeeded(d: Metric, eps: real, step: nat, r: seq<nat>, f: seq<nat>, t: seq<nat>)
    requires step > 0 && |f| >= 2 && |t| >= 2 && r == f[..|f| - 1] + t && f[|f| - 1] == t[0]
    requires AllNeeded(d, eps, step, f) && AllNeeded(d, eps, step, t)
    requires Farthest(d, r[0], step, r[|r| - 1], r[|f| - 1]) && d(r[0], r[|r| - 1], r[|f| - 1]) > eps
    ensures AllNeeded(d, eps, step, r)
  {
    hide Farthest;
    var n := |f| - 1;
    assert r[0..0 + |f|] == f && r[n..n + |t|] == t;
    forall k: nat | 0 < k < |r| - 1
      ensures Needed(d, eps, step, r, k)
    {
      if k < n {
        NeededInWindow(d, eps, step, f, r, 0, k);
      } else if k > n {
        NeededInWindow(d, eps, step, t, r, n, k - n);
      }
    }
  }

  lemma {:induction false} KeptNeeded(d: Metric, eps: real, a: nat, step: nat, b: nat)
    requires step > 0 && eps >= 0.0 && a < b && (b - a) % step == 0
    ensures AllNeeded(d, eps, step, Kept(d, eps, a, step, b))
    decreases b - a
  {
    hide Scan, AllNeeded, Farthest, Peak;
    var r := Kept(d, eps, a, step, b);
    var (dMax, i) := Peak(d, a, step, b);
    PeakFinds(d, a, step, b);
    if dMax > eps {
      FarthestInner(d, a, step, b, i);
      var f, t := Kept(d, eps, a, step, i), Kept(d, eps, i, step, b);
      KeptNeeded(d, eps, a, step, i);
      KeptNeeded(d, eps, i, step, b);
      KeptEnds(d, eps, a, step, i);
      KeptEnds(d, eps, i, step, b);
      KeptEnds(d, eps, a, step, b);
      JoinNeeded(d, eps, step, r, f, t);
    } else {
      TwoNeeded(d, eps, step, r);
    }
  }

  lemma TwoNeeded(d: Metric, eps: real, step: nat, r: seq<nat>)
    requires step > 0 && |r| == 2
    ensures AllNeeded(d, eps, step, r)
  {
  }

  /** Only the ends stay exactly when every grid point is within eps of their line, and
      otherwise the farthest grid point stays. */
  lemma KeptEndsOnly(d: Metric, eps: real, a: nat, step: nat, b: nat)
    requires step > 0 && eps >= 0.0 && a < b && (b - a) % step == 0
    ensures |Kept(d, eps, a, step, b)| == 2 <==> Near(d, eps, step, a, b)
    ensures forall i: nat :: Farthest(d, a, step, b, i) && d(a, b, i) > eps ==> i in Kept(d, eps, a, step, b)
  {
    var (dMax, i) := Peak(d, a, step, b);
    PeakFinds(d, a, step, b);
    forall k: nat | Farthest(d, a, step, b, k)
      ensures i == k && dMax == d(a, b, k)
    {
      FarthestIsPeak(d, a, step, b, k);
    }
    hide Scan;
    if dMax > eps {
      FarthestInner(d, a, step, b, i);
      var f, t := Kept(d, eps, a, step, i), Kept(d, eps, i, step, b);
      KeptEnds(d, eps, i, step, b);
      assert Kept(d, eps, a, step, b)[|f| - 1] == t[0];
    }
  }

  // ---------- running it again ----------

  /** The metric on the points that `s` lists. */
  function Selected(d: Metric, s: seq<nat>): Metric
  {
    (a: nat, b: nat, i: nat) => if a < |s| && b < |s| && i < |s| then d(s[a], s[b], s[i]) else 0.0
  }

  function Range(a: nat, b: nat): (r: seq<nat>)
    requires a <= b
    ensures |r| == b - a + 1
  {
    seq(b - a + 1, k requires 0 <= k < b - a + 1 => a + k)
  }

  lemma {:induction false} SelectionOrder(a: nat, step: nat, b: nat, r: seq<nat>, k: nat, l: nat)
    requires step > 0 && Selection(a, step, b, r) && k < l < |r|
    ensures r[k] < r[l]
    decreases l
  {
    if k < l - 1 {
      SelectionOrder(a, step, b, r, k, l - 1);
    }
  }

  /** A farthest point that is kept is the farthest of the points kept. */
  lemma FarthestKept(d: Metric, a: nat, step: nat, b: nat, r: seq<nat>, s: seq<nat>, lo: nat, p: nat)
    requires step > 0 && Selection(a, step, b, r) && 0 < p < |r| - 1 && Farthest(d, a, step, b, r[p])
    requires lo + |r| <= |s| && s[lo..lo + |r|] == r
    ensures Farthest(Selected(d, s), lo, 1, lo + |r| - 1, lo + p)
  {
    var e, hi := Selected(d, s), lo + |r| - 1;
    assert s[lo] == r[0] && s[hi] == r[|r| - 1] && s[lo + p] == r[p];
    assert e(lo, hi, lo + p) == d(a, b, r[p]);
    forall j: nat | Inner(lo, 1, hi, j)
      ensures e(lo, hi, j) <= e(lo, hi, lo + p) && (j < lo + p ==> e(lo, hi, j) < e(lo, hi, lo + p))
    {
      var q := j - lo;
      assert s[j] == r[q];
      SelectionOrder(a, step, b, r, 0, q);
      SelectionOrder(a, step, b, r, q, |r| - 1);
      if q < p {
        SelectionOrder(a, step, b, r, q, p);
      }
      assert Inner(a, step, b, r[q]);
    }
  }

  lemma RangeJoin(a: nat, i: nat, b: nat)
    requires a < i < b
    ensures Range(a, i)[..i - a] + Range(i, b) == Range(a, b)
  {
  }

  /** Running the simplification on its own output, with step 1, keeps everything. */
  lemma {:induction false} KeptAgain(d: Metric, eps: real, a: nat, step: nat, b: nat, s: seq<nat>, lo: nat)
    requires step > 0 && eps >= 0.0 && a < b && (b - a) % step == 0
    requires var r := Kept(d, eps, a, step, b); lo + |r| <= |s| && s[lo..lo + |r|] == r
    ensures var hi := lo + |Kept(d, eps, a, step, b)| - 1; Kept(Selected(d, s), eps, lo, 1, hi) == Range(lo, hi)
    decreases b - a
  {
    hide Scan, Farthest, Selection, Selected, Range, Peak;
    var r := Kept(d, eps, a, step, b);
    var (dMax, i) := Peak(d, a, step, b);
    PeakFinds(d, a, step, b);
    if dMax > eps {
      FarthestInner(d, a, step, b, i);
      var f, t := Kept(d, eps, a, step, i), Kept(d, eps, i, step, b);
      KeptEnds(d, eps, a, step, i);
      KeptEnds(d, eps, i, step, b);
      Windows(s, lo, r, f, t);
      KeptAgain(d, eps, a, step, i, s, lo);
      KeptAgain(d, eps, i, step, b, s, lo + |f| - 1);
      KeptSelection(d, eps, a, step, b);
      SplitAgain(d, eps, a, step, b, r, s, lo, |f| - 1, dMax);
    } else {
      TwoAgain(Selected(d, s), eps, lo);
    }
  }

  /** The split is found again, if both parts are. */
  lemma SplitAgain(d: Metric, eps: real, a: nat, step: nat, b: nat, r: seq<nat>, s: seq<nat>, lo: nat, p: nat, dMax: real)
    requires step > 0 && eps >= 0.0 && Selection(a, step, b, r) && 0 < p < |r| - 1
    requires Farthest(d, a, step, b, r[p]) && d(a, b, r[p]) == dMax && dMax > eps
    requires lo + |r| <= |s| && s[lo..lo + |r|] == r
    requires Kept(Selected(d, s), eps, lo, 1, lo + p) == Range(lo, lo + p)
    requires Kept(Selected(d, s), eps, lo + p, 1, lo + |r| - 1) == Range(lo + p, lo + |r| - 1)
    ensures Kept(Selected(d, s), eps, lo, 1, lo + |r| - 1) == Range(lo, lo + |r| - 1)
  {
    hide Scan, Farthest, Selected, Range, Kept;
    assert r[0] == a && r[|r| - 1] == b;
    hide Selection;
    FarthestKept(d, a, step, b, r, s, lo, p);
    FarthestIsPeak(Selected(d, s), lo, 1, lo + |r| - 1, lo + p);
    PeakValue(d, a, b, r, s, lo, p);
    KeptAll(Selected(d, s), eps, lo, lo + p, lo + |r| - 1, dMax);
  }

  lemma KeptAll(e: Metric, eps: real, lo: nat, mid: nat, hi: nat, dMax: real)
    requires eps >= 0.0 && lo < mid < hi && Peak(e, lo, 1, hi) == (dMax, mid) && dMax > eps
    requires Kept(e, eps, lo, 1, mid) == Range(lo, mid) && Kept(e, eps, mid, 1, hi) == Range(mid, hi)
    ensures Kept(e, eps, lo, 1, hi) == Range(lo, hi)
  {
    hide Peak, Range;
    RangeJoin(lo, mid, hi);
  }

  lemma Windows(s: seq<nat>, lo: nat, r: seq<nat>, f: seq<nat>, t: seq<nat>)
    requires lo + |r| <= |s| && s[lo..lo + |r|] == r && |f| >= 1 && |t| >= 1 && r == f[..|f| - 1] + t && f[|f| - 1] == t[0]
    ensures s[lo..lo + |f|] == f && s[lo + |f| - 1..lo + |f| - 1 + |t|] == t
  {
    var n := |f|;
    assert r[..n] == f && r[n - 1..] == t;
    assert s[lo..lo + |r|][..n] == s[lo..lo + n];
    assert s[lo..lo + |r|][n - 1..] == s[lo + n - 1..lo + |r|];
  }

  lemma PeakValue(d: Metric, a: nat, b: nat, r: seq<nat>, s: seq<nat>, lo: nat, p: nat)
    requires lo + |r| <= |s| && s[lo..lo + |r|] == r && p < |r| && r[0] == a && r[|r| - 1] == b
    ensures Selected(d, s)(lo, lo + |r| - 1, lo + p) == d(a, b, r[p])
  {
    assert s[lo] == r[0] && s[lo + |r| - 1] == r[|r| - 1] && s[lo + p] == r[p];
  }

  lemma TwoAgain(e: Metric, eps: real, lo: nat)
    requires eps >= 0.0
    ensures Kept(e, eps, lo, 1, lo + 1) == Range(lo, lo + 1)
  {
    NoneBetween(e, lo);
    assert Range(lo, lo + 1) == [lo, lo + 1];
  }

  lemma NoneBetween(e: Metric, lo: nat)
    ensures Peak(e, lo, 1, lo + 1) == (0.0, 0)
  {
  }

  // ---------- rdp ----------

  const SIZE: nat := 0x1_0000_0000_0000_0000

  /** size_t arithmetic. */
  function Wrapped(x: int): nat
  {
    x % SIZE
  }

  function Delta(p: Point, q: Point): (r: Point)
    requires |p| == |q|
    ensures |r| == |p|
  {
    seq(|p|, k requires 0 <= k < |p| => q[k] - p[k])
  }

  function ScaleBy(c: real, v: Point): (r: Point)
    ensures |r| == |v|
  {
    seq(|v|, k requires 0 <= k < |v| => c * v[k])
  }

  /** The direction from p to q, of norm 1; the null vector when they coincide. */
  function Direction(m: Roots, p: Point, q: Point): (r: Point)
    requires |p| == |q|
    ensures |r| == |p|
  {
    var delta := Delta(p, q);
    var mag := Norm(m, delta);
    if mag > 0.0 then seq(|delta|, k requires 0 <= k < |delta| => delta[k] / mag) else delta
  }

  /** What is left of x - p without its part along the line from p to q. */
  function Offset(m: Roots, p: Point, q: Point, x: Point): (r: Point)
    requires |p| == |q| == |x|
    ensures |r| == |p|
  {
    var u, pv := Direction(m, p, q), Delta(p, x);
    Delta(ScaleBy(Euclid.Inner(u, pv), u), pv)
  }

  /** `d` of the scan. */
  function Distance(m: Roots, p: Point, q: Point, x: Point): real
    requires |p| == |q| == |x|
  {
    Norm(m, Offset(m, p, q, x))
  }

  ghost predicate SameDimension(points: seq<Point>)
  {
    forall i, j :: 0 <= i < |points| && 0 <= j < |points| ==> |points[i]| == |points[j]|
  }

  function MetricOf(m: Roots, points: seq<Point>): Metric
  {
    (a: nat, b: nat, i: nat) =>
      if a < |points| && b < |points| && i < |points| && |points[a]| == |points[b]| == |points[i]|
      then Distance(m, points[a], points[b], points[i]) else 0.0
  }

  /** A point of the line through p and q within eps of x; p itself when p and q coincide. */
  lemma WithinLine(m: Roots, p: Point, q: Point, x: Point, eps: real) returns (t: real)
    requires m.Exact() && |p| == |q| == |x| && eps >= 0.0 && Distance(m, p, q, x) <= eps
    ensures SquaredNorm(Delta(ScaleBy(t, Delta(p, q)), Delta(p, x))) <= eps * eps
    ensures p == q ==> SquaredNorm(Delta(p, x)) <= eps * eps
  {
    hide SquaredNorm, Euclid.Inner;
    var delta, pv, u := Delta(p, q), Delta(p, x), Direction(m, p, q);
    var mag, c := Norm(m, delta), Euclid.Inner(u, pv);
    t := if mag > 0.0 then c / mag else c;
    var l, r := ScaleBy(t, delta), ScaleBy(c, u);
    forall k | 0 <= k < |l|
      ensures l[k] == r[k]
    {
      if mag > 0.0 {
        Quotients(c, mag, delta[k]);
      }
    }
    assert l == r;
    var o := Offset(m, p, q, x);
    SquaredNormNonNegative(o);
    SquareMono(m.sqrt(SquaredNorm(o)), eps);
    if p == q {
      forall k | 0 <= k < |delta|
        ensures delta[k] == 0.0
      {
      }
      assert Delta(ScaleBy(t, delta), pv) == pv;
    }
  }

  /** The squared distance of x to the point of the line at parameter t. */
  function ToLinePoint(p: Point, q: Point, x: Point, t: real): real
    requires |p| == |q| == |x|
  {
    SquaredNorm(Delta(ScaleBy(t, Delta(p, q)), Delta(p, x)))
  }

  /** The direction is the difference of the points over its norm, and has norm 1, or null. */
  lemma DirectionUnit(m: Roots, p: Point, q: Point, mag: real)
    requires m.Exact() && |p| == |q| && mag == Norm(m, Delta(p, q))
    ensures mag >= 0.0 && forall k :: 0 <= k < |p| ==> Delta(p, q)[k] == mag * Direction(m, p, q)[k]
    ensures SquaredNorm(Direction(m, p, q)) == if mag > 0.0 then 1.0 else 0.0
  {
    var delta, u := Delta(p, q), Direction(m, p, q);
    SquaredNormNonNegative(delta);
    hide SquaredNorm;
    if mag > 0.0 {
      var e := 1.0 / mag;
      var c := Combine(e, delta, 0.0, delta);
      forall k | 0 <= k < |u|
        ensures c[k] == u[k] && delta[k] == mag * u[k]
      {
        Quotients(1.0, mag, delta[k]);
        Whole(mag, delta[k], u[k]);
      }
      assert c == u;
      SquaredNormCombine(e, delta, 0.0, delta);
      UnitSquare(mag, e, SquaredNorm(delta));
    } else {
      NormZero(delta);
    }
  }

  lemma Whole(mag: real, x: real, y: real)
    requires mag > 0.0 && y == x / mag
    ensures x == mag * y
  {
  }

  lemma UnitSquare(mag: real, e: real, s: real)
    requires mag > 0.0 && e == 1.0 / mag && s == mag * mag
    ensures e * e * s == 1.0
  {
    assert e * mag == 1.0;
    assert e * e * s == (e * mag) * (e * mag);
  }

  /** The squared norm of x - p less s times the direction. */
  lemma AlongDirection(u: Point, pv: Point, s: real, n: real)
    requires |u| == |pv| && SquaredNorm(u) == n
    ensures SquaredNorm(Delta(ScaleBy(s, u), pv)) == SquaredNorm(pv) - 2.0 * s * Euclid.Inner(u, pv) + s * s * n
  {
    var l, r := Delta(ScaleBy(s, u), pv), Combine(-s, u, 1.0, pv);
    forall k | 0 <= k < |l|
      ensures l[k] == r[k]
    {
    }
    assert l == r;
    hide SquaredNorm, Euclid.Inner, Combine, Delta, ScaleBy;
    SquaredNormCombine(-s, u, 1.0, pv);
  }

  lemma Parabola(c: real, s: real, n: real)
    requires n == 1.0 || (n == 0.0 && c == 0.0)
    ensures -2.0 * c * c + c * c * n <= -2.0 * s * c + s * s * n
  {
    var d := s - c;
    SquareSign(d, d * d);
    assert d * d == s * s - 2.0 * s * c + c * c;
  }

  lemma ScaledDirection(delta: Point, u: Point, t: real, mag: real)
    requires |delta| == |u| && forall k :: 0 <= k < |u| ==> delta[k] == mag * u[k]
    ensures ScaleBy(t, delta) == ScaleBy(t * mag, u)
  {
    var l, r := ScaleBy(t, delta), ScaleBy(t * mag, u);
    forall k | 0 <= k < |l|
      ensures l[k] == r[k]
    {
      Associate(t, mag, u[k], delta[k]);
    }
  }

  lemma DistanceSquared(m: Roots, p: Point, q: Point, x: Point)
    requires m.Exact() && |p| == |q| == |x|
    ensures Distance(m, p, q, x) >= 0.0
    ensures var u, pv := Direction(m, p, q), Delta(p, x);
            Distance(m, p, q, x) * Distance(m, p, q, x) == SquaredNorm(Delta(ScaleBy(Euclid.Inner(u, pv), u), pv))
  {
    SquaredNormNonNegative(Offset(m, p, q, x));
    hide SquaredNorm, Euclid.Inner, Direction, Delta, ScaleBy;
  }

  /** Among the multiples of a vector of norm 1, or the null vector, the one by the inner
      product is nearest. */
  lemma ProjectionLeast(u: Point, pv: Point, s: real)
    requires |u| == |pv| && (SquaredNorm(u) == 1.0 || SquaredNorm(u) == 0.0)
    ensures SquaredNorm(Delta(ScaleBy(Euclid.Inner(u, pv), u), pv)) <= SquaredNorm(Delta(ScaleBy(s, u), pv))
  {
    var c, n := Euclid.Inner(u, pv), SquaredNorm(u);
    if n == 0.0 {
      InnerZero(u, pv);
    }
    hide SquaredNorm, Euclid.Inner, Delta, ScaleBy;
    AlongDirection(u, pv, s, n);
    AlongDirection(u, pv, c, n);
    Parabola(c, s, n);
  }

  /** No point of the line is nearer than the distance that rdp computes. */
  lemma DistanceLeast(m: Roots, p: Point, q: Point, x: Point, t: real)
    requires m.Exact() && |p| == |q| == |x|
    ensures Distance(m, p, q, x) >= 0.0 && Distance(m, p, q, x) * Distance(m, p, q, x) <= ToLinePoint(p, q, x, t)
  {
    hide SquaredNorm, Euclid.Inner, Direction, Distance, Delta, ScaleBy, Norm;
    var delta, pv, u := Delta(p, q), Delta(p, x), Direction(m, p, q);
    var mag := Norm(m, delta);
    DirectionUnit(m, p, q, mag);
    DistanceSquared(m, p, q, x);
    ScaledDirection(delta, u, t, mag);
    ProjectionLeast(u, pv, t * mag);
  }

  lemma Associate(t: real, mag: real, x: real, y: real)
    requires y == mag * x
    ensures t * y == t * mag * x
  {
  }

  /** The distance is at most eps exactly when some point of the line through p and q is
      within eps of x. */
  lemma DistanceExact(m: Roots, p: Point, q: Point, x: Point, eps: real)
    requires m.Exact() && |p| == |q| == |x| && eps >= 0.0
    ensures Distance(m, p, q, x) <= eps <==> exists t: real :: ToLinePoint(p, q, x, t) <= eps * eps
  {
    hide SquaredNorm, Distance;
    if Distance(m, p, q, x) <= eps {
      var t := WithinLine(m, p, q, x, eps);
      assert ToLinePoint(p, q, x, t) <= eps * eps;
    }
    if t: real :| ToLinePoint(p, q, x, t) <= eps * eps {
      DistanceLeast(m, p, q, x, t);
      hide ToLinePoint;
      NotBeyond(Distance(m, p, q, x), eps);
    }
  }

  lemma NotBeyond(d: real, eps: real)
    requires d >= 0.0 && eps >= 0.0 && d * d <= eps * eps
    ensures d <= eps
  {
    if d > eps {
      SquareMono(eps, d);
      var g := d - eps;
      ProductPositive(g, d + eps, d * d - eps * eps);
    }
  }

  lemma Quotients(c: real, mag: real, x: real)
    requires mag > 0.0
    ensures c / mag * x == c * (x / mag)
  {
  }

  datatype Result<T> = Ok(value: T) | OutOfRange

  function Pick(points: seq<Point>, idxs: seq<nat>): (r: seq<Point>)
    requires forall k :: 0 <= k < |idxs| ==> idxs[k] < |points|
    ensures |r| == |idxs|
  {
    seq(|idxs|, k requires 0 <= k < |idxs| => points[idxs[k]])
  }

  /** The last grid point of a call, computed with size_t. */
  function LastIdx(n: nat, start: nat, step: nat, endIdx: int): nat
    requires step > 0
  {
    var end := if endIdx > 0 then endIdx else n;
    Wrapped(Wrapped(end - start - 1) / step * step + start)
  }

  lemma WrappedIs(x: int)
    ensures 0 <= x < SIZE ==> Wrapped(x) == x
    ensures SIZE <= x < 2 * SIZE ==> Wrapped(x) == x - SIZE
    ensures 0 - SIZE <= x < 0 ==> Wrapped(x) == x + SIZE
  {
  }

  lemma FloorTo(x: nat, s: nat, k: nat)
    requires s > 0 && k == x / s
    ensures k * s <= x < k * s + s && k * s % s == 0
  {
    assert x == k * s + x % s;
    MultipleMod(k, s);
  }

  /** Past the start, the last grid point is on the grid and was not wrapped. */
  lemma LastOnGrid(start: nat, step: nat, x: nat, k: nat, last: nat)
    requires step > 0 && start < SIZE && x < SIZE && k == x / step && last == Wrapped(k * step + start) && last > start
    ensures last == k * step + start && (last - start) % step == 0
  {
    FloorTo(x, step, k);
    WrappedIs(k * step + start);
    assert last - start == k * step;
  }

  /** Plain calls: the last grid point below the end. */
  lemma LastPlain(n: nat, start: nat, step: nat, endIdx: int)
    requires step > 0 && start < (if endIdx > 0 then endIdx else n) < SIZE
    ensures var end := if endIdx > 0 then endIdx else n;
            var last := LastIdx(n, start, step, endIdx);
            start <= last < end && end <= last + step && (last - start) % step == 0
  {
    var end := if endIdx > 0 then endIdx else n;
    var x := end - start - 1;
    WrappedIs(x);
    assert LastIdx(n, start, step, endIdx) == Wrapped(x / step * step + start);
    hide LastIdx, Wrapped;
    FloorTo(x, step, x / step);
    var w := x / step * step;
    WrappedIs(w + start);
    assert w + start - start == w;
  }

  /** Splitting at grid point i, the second part has the same last grid point. */
  lemma SplitEnds(n: nat, start: nat, step: nat, end: nat, x: nat, k: nat, last: nat, i: nat)
    requires GridPoint(start, step, x, k, last) && start < SIZE && 0 < end < SIZE && x == Wrapped(end - start - 1)
    requires Inner(start, step, last, i) && last < SIZE
    ensures LastIdx(n, i, step, end) == last && Wrapped(end - i - 1) < x
    ensures LastIdx(n, start, step, i + 1) == i && Wrapped(i + 1 - start - 1) < x
  {
    var w := i - start;
    var j := w / step;
    FloorTo(w, step, j);
    FloorTo(x, step, k);
    Shifted(x, k, j, step, w);
    WrappedIs(end - start - 1);
    WrappedIs(end - i - 1);
    assert Wrapped(end - i - 1) == x - w;
    hide Wrapped;
    LastIdxIs(n, i, step, end, x - w);
    LastIdxIs(n, start, step, i + 1, Wrapped(w));
    hide LastIdx;
    WrappedIs(w);
    assert i + 1 - start - 1 == w;
    SplitIs(x, k, step, start, last, i, w);
  }

  lemma LastIdxIs(n: nat, start: nat, step: nat, end: nat, x: nat)
    requires step > 0 && end > 0 && x == Wrapped(end - start - 1)
    ensures LastIdx(n, start, step, end) == Wrapped(x / step * step + start)
  {
  }

  lemma SplitIs(x: nat, k: nat, step: nat, start: nat, last: nat, i: nat, w: nat)
    requires step > 0 && last == k * step + start && last < SIZE && w == i - start && w % step == 0 && w <= x && i <= last
    requires (x - w) / step * step + w == k * step
    ensures Wrapped((x - w) / step * step + i) == last && Wrapped(w / step * step + start) == i
  {
    WrappedIs(last);
    WrappedIs(i);
    FloorTo(w, step, w / step);
    assert w == w / step * step;
  }

  lemma Shifted(x: nat, k: nat, j: nat, s: nat, w: nat)
    requires s > 0 && k * s <= x < k * s + s && j * s <= w < j * s + s && w % s == 0 && w <= k * s && j == w / s
    ensures w == j * s && x - w >= 0 && (x - w) / s * s + w == k * s
  {
    assert w == j * s;
    Difference(k, j, s);
    DivModUnique(x - w, s, k - j, x - k * s);
  }

  lemma Difference(k: int, j: int, s: int)
    ensures (k - j) * s == k * s - j * s
  {
  }

  /** What rdp leaves in `out`. */
  ghost predicate Simplified(m: Roots, points: seq<Point>, eps: real, before: seq<Point>, start: nat, step: nat, last: nat, r: Result<seq<Point>>)
    requires step > 0 && eps >= 0.0
  {
    if Wrapped(last + 1 - start) < 2 then r == Ok(before)
    else if start >= |points| || last >= |points| then r == OutOfRange
    else if last < start then r == Ok([points[start], points[last]])
    else if last == start then false
    else
      var idxs := Kept(MetricOf(m, points), eps, start, step, last);
      (forall k :: 0 <= k < |idxs| ==> idxs[k] < |points|) && r == Ok(Pick(points, idxs))
  }

  /** rdp; `before` is the vector passed as `out`, `endIdx` the parameter `_end_idx`. */
  method Rdp(points: seq<Point>, eps: real, m: Roots, before: seq<Point>, start: nat, step: nat, endIdx: int) returns (r: Result<seq<Point>>)
    requires m.Exact() && SameDimension(points) && eps >= 0.0 && step > 0
    requires |points| < SIZE && endIdx < SIZE && start + step < SIZE
    ensures Simplified(m, points, eps, before, start, step, LastIdx(|points|, start, step, endIdx), r)
    decreases Wrapped((if endIdx > 0 then endIdx else |points|) - start - 1)
  {
    hide Distance, Kept, Simplified, Farthest, Scan, LastIdx, Wrapped, MetricOf, Peak;
    var end := if endIdx > 0 then endIdx else |points|;
    var last := LastIdx(|points|, start, step, endIdx);
    if Wrapped(last + 1 - start) < 2 {
      ReturnsBefore(m, points, eps, before, start, step, last);
      return Ok(before);
    }
    var ok, dMax, dMaxIdx := FindPeak(points, m, start, step, last);
    if !ok || start >= |points| || last >= |points| {
      ReturnsOut(m, points, eps, before, start, step, last);
      return OutOfRange;
    }
    NotSame(start, last);
    if dMax > eps {
      PeakInner(MetricOf(m, points), start, step, last, dMax, dMaxIdx);
      SplitFits(|points|, start, step, endIdx, end, last, dMaxIdx);
      var r1 := Rdp(points, eps, m, [], start, step, dMaxIdx + 1);
      var r2 := Rdp(points, eps, m, [], dMaxIdx, step, end);
      JoinSimplified(m, points, eps, before, start, step, last, dMaxIdx, r1, r2);
      r := Ok(r1.value[..|r1.value| - 1] + r2.value);
    } else {
      ReturnsTwo(m, points, eps, before, start, step, last, dMax, dMaxIdx);
      r := Ok([points[start], points[last]]);
    }
  }

  lemma PeakInner(d: Metric, start: nat, step: nat, last: nat, dMax: real, i: nat)
    requires step > 0 && Peak(d, start, step, last) == (dMax, i) && dMax > 0.0
    ensures Inner(start, step, last, i)
  {
    PeakFinds(d, start, step, last);
  }

  lemma SplitFits(n: nat, start: nat, step: nat, endIdx: int, end: int, last: nat, i: nat)
    requires step > 0 && start + step < SIZE && end == (if endIdx > 0 then endIdx else n) && 0 < end < SIZE
    requires last == LastIdx(n, start, step, endIdx) && Inner(start, step, last, i) && last < n < SIZE
    ensures LastIdx(n, i, step, end) == last && LastIdx(n, start, step, i + 1) == i && i + step < SIZE
    ensures Wrapped(end - i - 1) < Wrapped(end - start - 1) && Wrapped(i + 1 - start - 1) < Wrapped(end - start - 1)
  {
    InnerBetween(start, step, last, i);
    hide LastIdx, Wrapped, Inner, GridPoint;
    var x := Wrapped(end - start - 1);
    var k := LastOnGridOf(n, start, step, endIdx, end, x, last);
    StepInside(start, step, x, k, last, i);
    SplitEnds(n, start, step, end, x, k, last, i);
  }

  /** `last` is start + k * step for the largest multiple of step up to x. */
  ghost predicate GridPoint(start: nat, step: nat, x: nat, k: nat, last: nat)
  {
    step > 0 && k == x / step && last == k * step + start && (last - start) % step == 0
  }

  lemma LastOnGridOf(n: nat, start: nat, step: nat, endIdx: int, end: int, x: nat, last: nat) returns (k: nat)
    requires step > 0 && start < SIZE && end == (if endIdx > 0 then endIdx else n) && x == Wrapped(end - start - 1)
    requires last == LastIdx(n, start, step, endIdx) && last > start
    ensures GridPoint(start, step, x, k, last)
  {
    k := x / step;
    assert last == Wrapped(k * step + start);
    LastOnGrid(start, step, x, k, last);
  }

  lemma InnerBetween(start: nat, step: nat, last: nat, i: nat)
    requires step > 0 && Inner(start, step, last, i)
    ensures start < i < last
  {
  }

  lemma StepInside(start: nat, step: nat, x: nat, k: nat, last: nat, i: nat)
    requires GridPoint(start, step, x, k, last) && Inner(start, step, last, i)
    ensures i + step <= last
  {
    GridGap(i - start, last - start, step);
  }

  /** The scan of rdp; false when it reads outside the points. */
  method FindPeak(points: seq<Point>, m: Roots, start: nat, step: nat, last: nat) returns (ok: bool, dMax: real, dMaxIdx: nat)
    requires m.Exact() && SameDimension(points) && step > 0
    ensures !ok ==> start >= |points| || last >= |points|
    ensures ok && start < |points| && last < |points| ==> Peak(MetricOf(m, points), start, step, last) == (dMax, dMaxIdx)
  {
    hide Distance, Scan;
    ghost var d := MetricOf(m, points);
    dMax, dMaxIdx := 0.0, 0;
    var idx := start + step;
    while idx < last
      invariant idx > start + step ==> start < |points| && last < |points|
      invariant idx >= start + step && Scan(d, start, step, last, idx, dMax, dMaxIdx) == Peak(d, start, step, last)
      decreases last - idx
    {
      if start >= |points| || last >= |points| {
        return false, dMax, dMaxIdx;
      }
      var dist := Distance(m, points[start], points[last], points[idx]);
      ScanStep(d, start, step, last, idx, dMax, dMaxIdx);
      if dist > dMax {
        dMax, dMaxIdx := dist, idx;
      }
      idx := idx + step;
    }
    ScanEnd(d, start, step, last, idx, dMax, dMaxIdx);
    ok := true;
  }

  lemma ReturnsBefore(m: Roots, points: seq<Point>, eps: real, before: seq<Point>, start: nat, step: nat, last: nat)
    requires step > 0 && eps >= 0.0 && Wrapped(last + 1 - start) < 2
    ensures Simplified(m, points, eps, before, start, step, last, Ok(before))
  {
  }

  lemma ReturnsOut(m: Roots, points: seq<Point>, eps: real, before: seq<Point>, start: nat, step: nat, last: nat)
    requires step > 0 && eps >= 0.0 && Wrapped(last + 1 - start) >= 2 && (start >= |points| || last >= |points|)
    ensures Simplified(m, points, eps, before, start, step, last, OutOfRange)
  {
  }

  lemma NotSame(start: nat, last: nat)
    ensures Wrapped(last + 1 - start) >= 2 ==> last != start
  {
  }

  lemma ScanStep(d: Metric, a: nat, step: nat, b: nat, idx: nat, dMax: real, dMaxIdx: nat)
    requires step > 0 && idx < b
    ensures Scan(d, a, step, b, idx, dMax, dMaxIdx)
         == if d(a, b, idx) > dMax then Scan(d, a, step, b, idx + step, d(a, b, idx), idx) else Scan(d, a, step, b, idx + step, dMax, dMaxIdx)
  {
  }

  lemma ScanEnd(d: Metric, a: nat, step: nat, b: nat, idx: nat, dMax: real, dMaxIdx: nat)
    requires step > 0 && idx >= b
    ensures Scan(d, a, step, b, idx, dMax, dMaxIdx) == (dMax, dMaxIdx)
  {
  }

  lemma ReturnsTwo(m: Roots, points: seq<Point>, eps: real, before: seq<Point>, start: nat, step: nat, last: nat, dMax: real, i: nat)
    requires step > 0 && eps >= 0.0 && Wrapped(last + 1 - start) >= 2 && start < |points| && last < |points| && last != start
    requires Peak(MetricOf(m, points), start, step, last) == (dMax, i) && dMax <= eps
    ensures Simplified(m, points, eps, before, start, step, last, Ok([points[start], points[last]]))
  {
    hide Peak, MetricOf;
    if start < last {
      var idxs := Kept(MetricOf(m, points), eps, start, step, last);
      assert idxs == [start, last];
      assert Pick(points, idxs) == [points[start], points[last]];
    }
  }

  lemma JoinSimplified(m: Roots, points: seq<Point>, eps: real, before: seq<Point>, start: nat, step: nat, last: nat, i: nat,
                       r1: Result<seq<Point>>, r2: Result<seq<Point>>)
    requires step > 0 && eps >= 0.0 && start < i < last < |points| < SIZE
    requires Peak(MetricOf(m, points), start, step, last).1 == i && Peak(MetricOf(m, points), start, step, last).0 > eps
    requires Simplified(m, points, eps, [], start, step, i, r1) && Simplified(m, points, eps, [], i, step, last, r2)
    ensures r1.Ok? && r2.Ok? && |r1.value| >= 1
    ensures Simplified(m, points, eps, before, start, step, last, Ok(r1.value[..|r1.value| - 1] + r2.value))
  {
    hide Peak, MetricOf;
    WrappedIs(i + 1 - start);
    WrappedIs(last + 1 - i);
    WrappedIs(last + 1 - start);
    var d := MetricOf(m, points);
    var f, t := Kept(d, eps, start, step, i), Kept(d, eps, i, step, last);
    var all := Kept(d, eps, start, step, last);
    assert all == f[..|f| - 1] + t;
    assert Pick(points, all) == Pick(points, f)[..|f| - 1] + Pick(points, t);
  }

  // ---------- what the result means ----------

  /** For a plain call: the output takes increasing grid points including both ends, and
      every grid point dropped is within eps of the line through its two neighbours. */
  lemma RdpResult(m: Roots, points: seq<Point>, eps: real, before: seq<Point>, start: nat, step: nat, last: nat, r: Result<seq<Point>>)
    returns (idxs: seq<nat>)
    requires m.Exact() && SameDimension(points) && step > 0 && eps >= 0.0 && start < last < |points| < SIZE && (last - start) % step == 0
    requires Simplified(m, points, eps, before, start, step, last, r)
    ensures Selection(start, step, last, idxs) && (forall k :: 0 <= k < |idxs| ==> idxs[k] < |points|) && r == Ok(Pick(points, idxs))
    ensures forall k, j: nat {:trigger Inner(idxs[k], step, idxs[k + 1], j)} ::
              0 <= k < |idxs| - 1 && Inner(idxs[k], step, idxs[k + 1], j) ==>
              Distance(m, points[idxs[k]], points[idxs[k + 1]], points[j]) <= eps
    ensures AllNeeded(MetricOf(m, points), eps, step, idxs)
    ensures |idxs| == 2 <==> forall j: nat :: Inner(start, step, last, j) ==> Distance(m, points[start], points[last], points[j]) <= eps
  {
    hide Distance, Kept, AllNeeded, Farthest;
    WrappedIs(last + 1 - start);
    var d := MetricOf(m, points);
    idxs := Kept(d, eps, start, step, last);
    KeptSelection(d, eps, start, step, last);
    KeptCovers(d, eps, start, step, last);
    KeptNeeded(d, eps, start, step, last);
    KeptEndsOnly(d, eps, start, step, last);
    forall k, j: nat | 0 <= k < |idxs| - 1 && Inner(idxs[k], step, idxs[k + 1], j)
      ensures Distance(m, points[idxs[k]], points[idxs[k + 1]], points[j]) <= eps
    {
      assert Near(d, eps, step, idxs[k], idxs[k + 1]);
    }
  }

  /** Running rdp on its own output changes nothing. */
  lemma RdpAgain(m: Roots, points: seq<Point>, eps: real, before: seq<Point>, start: nat, step: nat, last: nat, out: seq<Point>,
                 r: Result<seq<Point>>)
    requires m.Exact() && SameDimension(points) && step > 0 && eps >= 0.0 && start < last < |points| < SIZE && (last - start) % step == 0
    requires Simplified(m, points, eps, before, start, step, last, Ok(out)) && |out| < SIZE
    requires Simplified(m, out, eps, before, 0, 1, LastIdx(|out|, 0, 1, -1), r)
    ensures r == Ok(out)
  {
    hide Distance, Kept, Scan, MetricOf, Selected, LastIdx, Wrapped;
    WrappedIs(last + 1 - start);
    var d := MetricOf(m, points);
    var idxs := Kept(d, eps, start, step, last);
    var n := |idxs| - 1;
    LastPlain(|out|, 0, 1, -1);
    WrappedIs(n + 1);
    KeptAgain(d, eps, start, step, last, idxs, 0);
    assert idxs[0..|idxs|] == idxs;
    SameMetric(m, points, idxs, n);
    SameKept(Selected(d, idxs), MetricOf(m, out), eps, 0, n, n);
    assert Pick(out, Range(0, n)) == out;
  }

  lemma SameMetric(m: Roots, points: seq<Point>, idxs: seq<nat>, n: nat)
    requires (forall k :: 0 <= k < |idxs| ==> idxs[k] < |points|) && n < |idxs|
    ensures forall a: nat, b: nat, i: nat :: a <= n && b <= n && i <= n ==>
              MetricOf(m, Pick(points, idxs))(a, b, i) == Selected(MetricOf(m, points), idxs)(a, b, i)
  {
    hide Distance;
  }

  /** The points kept depend on the distances between the points of the range only. */
  lemma {:induction false} SameKept(d: Metric, e: Metric, eps: real, a: nat, b: nat, n: nat)
    requires eps >= 0.0 && a < b <= n
    requires forall a: nat, b: nat, i: nat :: a <= n && b <= n && i <= n ==> d(a, b, i) == e(a, b, i)
    ensures Kept(d, eps, a, 1, b) == Kept(e, eps, a, 1, b)
    decreases b - a
  {
    hide Scan;
    SamePeak(d, e, a, b, a + 1, 0.0, 0, n);
    PeakFinds(d, a, 1, b);
    var (dMax, i) := Peak(d, a, 1, b);
    if dMax > eps {
      SameKept(d, e, eps, a, i, n);
      SameKept(d, e, eps, i, b, n);
    }
  }

  lemma {:induction false} SamePeak(d: Metric, e: Metric, a: nat, b: nat, idx: nat, dMax: real, dMaxIdx: nat, n: nat)
    requires a < b <= n && forall a: nat, b: nat, i: nat :: a <= n && b <= n && i <= n ==> d(a, b, i) == e(a, b, i)
    ensures Scan(d, a, 1, b, idx, dMax, dMaxIdx) == Scan(e, a, 1, b, idx, dMax, dMaxIdx)
    decreases if idx < b then b - idx else 0
  {
    if idx < b {
      SamePeak(d, e, a, b, idx + 1, d(a, b, idx), idx, n);
      SamePeak(d, e, a, b, idx + 1, dMax, dMaxIdx, n);
    }
  }
}
