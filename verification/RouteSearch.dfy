/** The search of RoutingGraph.cpp as mathematics: walks, the state of shortest_path, what
    its steps keep, and what its predecessors spell. */
module RouteSearch {

  datatype LaneKey = LaneKey(roadId: string, laneSectionS0: real, laneId: int)

  datatype RoutingGraphEdge = RoutingGraphEdge(from: LaneKey, to: LaneKey, weight: real)

  datatype WeightedLaneKey = WeightedLaneKey(lane: LaneKey, weight: real)

  /** A distance label; `Max` stands for numeric_limits<double>::max(). */
  datatype Label = Finite(value: real) | Max
  {
    predicate Leq(other: Label) {
      match (this, other)
      case (_, Max) => true
      case (Max, Finite(_)) => false
      case (Finite(a), Finite(b)) => a <= b
    }
  }

  // ---------- walks ----------

  /** `es` leads from `from` to `to` along stored edges. */
  ghost predicate IsWalk(edges: set<RoutingGraphEdge>, from: LaneKey, to: LaneKey, es: seq<RoutingGraphEdge>)
    decreases |es|
  {
    if |es| == 0 then from == to
    else
      var last := es[|es| - 1];
      last in edges && last.to == to && IsWalk(edges, from, last.from, es[..|es| - 1])
  }

  ghost function Total(es: seq<RoutingGraphEdge>): real
  {
    if |es| == 0 then 0.0 else Total(es[..|es| - 1]) + es[|es| - 1].weight
  }

  ghost predicate Reachable(edges: set<RoutingGraphEdge>, from: LaneKey, to: LaneKey)
  {
    exists es :: IsWalk(edges, from, to, es)
  }

  ghost predicate HasWalk(edges: set<RoutingGraphEdge>, from: LaneKey, to: LaneKey, d: real)
  {
    exists es :: IsWalk(edges, from, to, es) && Total(es) == d
  }

  /** `d` is the least total weight of a walk. */
  ghost predicate Least(edges: set<RoutingGraphEdge>, from: LaneKey, to: LaneKey, d: real)
  {
    && HasWalk(edges, from, to, d)
    && (forall es :: IsWalk(edges, from, to, es) ==> d <= Total(es))
  }

  ghost predicate NonNegative(edges: set<RoutingGraphEdge>)
  {
    forall e :: e in edges ==> e.weight >= 0.0
  }

  ghost predicate HasEdge(edges: set<RoutingGraphEdge>, u: LaneKey, v: LaneKey)
  {
    exists e :: e in edges && e.from == u && e.to == v
  }

  lemma SnocWalk(edges: set<RoutingGraphEdge>, from: LaneKey, es: seq<RoutingGraphEdge>, e: RoutingGraphEdge)
    requires IsWalk(edges, from, e.from, es) && e in edges
    ensures IsWalk(edges, from, e.to, es + [e]) && Total(es + [e]) == Total(es) + e.weight
  {
    assert (es + [e])[..|es + [e]| - 1] == es;
  }

  lemma ExtendWalk(edges: set<RoutingGraphEdge>, from: LaneKey, d: real, e: RoutingGraphEdge)
    requires HasWalk(edges, from, e.from, d) && e in edges
    ensures HasWalk(edges, from, e.to, d + e.weight)
  {
    var es :| IsWalk(edges, from, e.from, es) && Total(es) == d;
    SnocWalk(edges, from, es, e);
  }

  lemma EmptyWalk(edges: set<RoutingGraphEdge>, from: LaneKey)
    ensures HasWalk(edges, from, from, 0.0)
  {
    assert IsWalk(edges, from, from, []) && Total([]) == 0.0;
  }

  lemma LeastUnique(edges: set<RoutingGraphEdge>, from: LaneKey, to: LaneKey, c: real, d: real)
    requires Least(edges, from, to, c) && Least(edges, from, to, d)
    ensures c == d
  {
  }

  // ---------- the state of a search ----------

  /** The labels and predecessors of shortest_path.  `latest` holds the predecessor that
      set the current label, which is what `previous` would hold if line 100 overwrote.
      `rank` numbers the lanes in the order in which they were expanded. */
  datatype Search = Search(weights: map<LaneKey, Label>, previous: map<LaneKey, LaneKey>,
                           latest: map<LaneKey, LaneKey>, rank: map<LaneKey, nat>)

  /** Every finite label is the total of some walk. */
  ghost predicate Labelled(edges: set<RoutingGraphEdge>, vertices: set<LaneKey>, from: LaneKey, s: Search)
  {
    && s.weights.Keys == vertices && from in vertices && s.weights[from] == Finite(0.0)
    && (forall v :: v in vertices && s.weights[v].Finite? ==> HasWalk(edges, from, v, s.weights[v].value))
  }

  /** Expanded lanes have the smallest labels. */
  ghost predicate Ordered(vertices: set<LaneKey>, s: Search)
  {
    && s.weights.Keys == vertices && s.rank.Keys <= vertices
    && (forall u :: u in s.rank ==> s.weights[u].Finite? && s.weights[u].value >= 0.0)
    && (forall u, v :: u in s.rank && v in vertices && v !in s.rank ==> s.weights[u].Leq(s.weights[v]))
  }

  /** Edge `e` has been looked at. */
  ghost predicate Seen(s: Search, from: LaneKey, e: RoutingGraphEdge)
    requires e.from in s.weights && s.weights[e.from].Finite?
  {
    && e.to in s.weights
    && s.weights[e.to].Leq(Finite(s.weights[e.from].value + e.weight))
    && (e.to == from
        || (e.to in s.previous && s.previous[e.to] in s.weights && s.weights[s.previous[e.to]].Leq(s.weights[e.from])))
  }

  /** All edges out of expanded lanes have been looked at, but for those from `x` in `rest`. */
  ghost predicate Relaxed(edges: set<RoutingGraphEdge>, from: LaneKey, s: Search, x: LaneKey, rest: set<WeightedLaneKey>)
  {
    forall e :: e in edges && e.from in s.rank && !(e.from == x && WeightedLaneKey(e.to, e.weight) in rest) ==>
      e.from in s.weights && s.weights[e.from].Finite? && Seen(s, from, e)
  }

  /** `previous` leads back along edges to lanes expanded earlier. */
  ghost predicate Tree(edges: set<RoutingGraphEdge>, from: LaneKey, s: Search, previous: map<LaneKey, LaneKey>)
  {
    && (forall v :: v in previous <==> v in s.weights && s.weights[v].Finite? && v != from)
    && (forall v :: v in previous ==> previous[v] in s.rank && HasEdge(edges, previous[v], v))
    && (forall v :: v in previous && v in s.rank ==> s.rank[previous[v]] < s.rank[v])
    && (forall v :: v in s.rank ==> s.rank[v] < |s.rank|)
  }

  /** An edge from u to v accounts for the label of v. */
  ghost predicate TightHop(edges: set<RoutingGraphEdge>, s: Search, u: LaneKey, v: LaneKey)
    requires u in s.weights && v in s.weights && s.weights[u].Finite? && s.weights[v].Finite?
  {
    RoutingGraphEdge(u, v, s.weights[v].value - s.weights[u].value) in edges
  }

  ghost predicate Tight(edges: set<RoutingGraphEdge>, s: Search)
  {
    forall v :: v in s.latest ==>
      && s.latest[v] in s.weights && v in s.weights && s.weights[s.latest[v]].Finite? && s.weights[v].Finite?
      && TightHop(edges, s, s.latest[v], v)
  }

  ghost predicate Invariant(edges: set<RoutingGraphEdge>, vertices: set<LaneKey>, from: LaneKey, s: Search, x: LaneKey, rest: set<WeightedLaneKey>)
  {
    && Labelled(edges, vertices, from, s) && Ordered(vertices, s) && Relaxed(edges, from, s, x, rest)
    && Tree(edges, from, s, s.previous) && Tree(edges, from, s, s.latest) && Tight(edges, s)
  }

  // ---------- labels are exact ----------

  /** Each walk weighs at least the label of its end, or the least label still open. */
  lemma {:induction false} WalkBound(edges: set<RoutingGraphEdge>, vertices: set<LaneKey>, from: LaneKey, s: Search, x: LaneKey,
                                     low: Label, es: seq<RoutingGraphEdge>, v: LaneKey)
    requires NonNegative(edges) && Labelled(edges, vertices, from, s) && Ordered(vertices, s) && Relaxed(edges, from, s, x, {})
    requires forall u :: u in vertices && u !in s.rank ==> low.Leq(s.weights[u])
    requires forall u :: u in s.rank ==> s.weights[u].Leq(low)
    requires IsWalk(edges, from, v, es)
    ensures if v in s.rank then s.weights[v].Leq(Finite(Total(es))) else low.Leq(Finite(Total(es)))
    decreases |es|
  {
    if |es| > 0 {
      var e := es[|es| - 1];
      WalkBound(edges, vertices, from, s, x, low, es[..|es| - 1], e.from);
      assert e in edges && e.weight >= 0.0;
      if e.from in s.rank {
        assert Seen(s, from, e);
      }
    }
  }

  /** The label of the next lane popped is its least walk weight, and no walk leads to a
      lane popped with an infinite label. */
  lemma PopExact(edges: set<RoutingGraphEdge>, vertices: set<LaneKey>, from: LaneKey, s: Search, x: LaneKey, y: LaneKey)
    requires NonNegative(edges) && Invariant(edges, vertices, from, s, y, {}) && x in vertices && x !in s.rank
    requires forall u :: u in vertices && u !in s.rank ==> s.weights[x].Leq(s.weights[u])
    ensures s.weights[x].Finite? ==> Least(edges, from, x, s.weights[x].value)
    ensures s.weights[x].Max? ==> forall v :: v in vertices && v !in s.rank ==> !Reachable(edges, from, v)
  {
    hide IsWalk, Total, HasWalk, Tree, Tight, Relaxed;
    forall v, es | v in vertices && v !in s.rank && IsWalk(edges, from, v, es)
      ensures s.weights[x].Leq(Finite(Total(es)))
    {
      WalkBound(edges, vertices, from, s, y, s.weights[x], es, v);
    }
  }

  /** Labels of expanded lanes stay exact. */
  lemma ExpandedExact(edges: set<RoutingGraphEdge>, vertices: set<LaneKey>, from: LaneKey, s: Search, x: LaneKey, y: LaneKey, v: LaneKey)
    requires NonNegative(edges) && Invariant(edges, vertices, from, s, y, {}) && v in s.rank && x in vertices && x !in s.rank
    requires forall u :: u in vertices && u !in s.rank ==> s.weights[x].Leq(s.weights[u])
    ensures Least(edges, from, v, s.weights[v].value)
  {
    hide IsWalk, Total, HasWalk, Tree, Tight, Relaxed;
    forall es | IsWalk(edges, from, v, es)
      ensures s.weights[v].Leq(Finite(Total(es)))
    {
      WalkBound(edges, vertices, from, s, y, s.weights[x], es, v);
    }
  }

  // ---------- the steps keep the invariant ----------

  lemma Start(edges: set<RoutingGraphEdge>, vertices: set<LaneKey>, from: LaneKey, weights: map<LaneKey, Label>, x: LaneKey)
    requires from in vertices && weights.Keys == vertices
    requires forall v :: v in vertices ==> weights[v] == if v == from then Finite(0.0) else Max
    ensures Invariant(edges, vertices, from, Search(weights, map[], map[], map[]), x, {})
  {
    EmptyWalk(edges, from);
  }

  /** Popping a lane with the least label. */
  lemma PopKeeps(edges: set<RoutingGraphEdge>, vertices: set<LaneKey>, from: LaneKey, s: Search, y: LaneKey, x: LaneKey, rest: set<WeightedLaneKey>, t: Search)
    requires NonNegative(edges) && Invariant(edges, vertices, from, s, y, {}) && x in vertices && x !in s.rank
    requires s.weights[x].Finite? && s.weights[x].value >= 0.0
    requires forall u :: u in vertices && u !in s.rank ==> s.weights[x].Leq(s.weights[u])
    requires forall e :: e in edges && e.from == x ==> WeightedLaneKey(e.to, e.weight) in rest
    requires t == s.(rank := s.rank[x := |s.rank|])
    ensures Invariant(edges, vertices, from, t, x, rest)
  {
    hide HasWalk, HasEdge, IsWalk, Total, Tree, Relaxed, Tight, Ordered;
    PopRanks(s.rank, x, t.rank);
    PopOrdered(vertices, s, x, t);
    PopTight(edges, s, t);
    PopRelaxed(edges, from, s, y, x, rest, t);
    PopTree(edges, from, s, x, t, s.previous);
    PopTree(edges, from, s, x, t, s.latest);
  }

  lemma PopOrdered(vertices: set<LaneKey>, s: Search, x: LaneKey, t: Search)
    requires Ordered(vertices, s) && x in vertices && s.weights[x].Finite? && s.weights[x].value >= 0.0
    requires forall u :: u in vertices && u !in s.rank ==> s.weights[x].Leq(s.weights[u])
    requires t == s.(rank := s.rank[x := |s.rank|])
    ensures Ordered(vertices, t)
  {
  }

  lemma PopTight(edges: set<RoutingGraphEdge>, s: Search, t: Search)
    requires Tight(edges, s) && t.weights == s.weights && t.latest == s.latest
    ensures Tight(edges, t)
  {
    forall v | v in t.latest
      ensures TightHop(edges, t, t.latest[v], v)
    {
      assert TightHop(edges, s, s.latest[v], v);
    }
  }

  lemma PopRanks(rank: map<LaneKey, nat>, x: LaneKey, after: map<LaneKey, nat>)
    requires x !in rank && after == rank[x := |rank|]
    ensures |after| == |rank| + 1
  {
    assert after.Keys == rank.Keys + {x};
  }

  lemma PopRelaxed(edges: set<RoutingGraphEdge>, from: LaneKey, s: Search, y: LaneKey, x: LaneKey, rest: set<WeightedLaneKey>, t: Search)
    requires Relaxed(edges, from, s, y, {}) && x !in s.rank && t == s.(rank := s.rank[x := |s.rank|])
    requires forall e :: e in edges && e.from == x ==> WeightedLaneKey(e.to, e.weight) in rest
    ensures Relaxed(edges, from, t, x, rest)
  {
    forall e | e in edges && e.from in t.rank && !(e.from == x && WeightedLaneKey(e.to, e.weight) in rest)
      ensures e.from in t.weights && t.weights[e.from].Finite? && Seen(t, from, e)
    {
      assert e.from in s.rank;
      assert Seen(s, from, e);
    }
  }

  lemma PopTree(edges: set<RoutingGraphEdge>, from: LaneKey, s: Search, x: LaneKey, t: Search, previous: map<LaneKey, LaneKey>)
    requires Tree(edges, from, s, previous) && x !in s.rank && t == s.(rank := s.rank[x := |s.rank|])
    requires |t.rank| == |s.rank| + 1
    ensures Tree(edges, from, t, previous)
  {
    hide HasEdge;
  }

  /** The update of shortest_path for one successor. */
  function Relax(s: Search, x: LaneKey, w: WeightedLaneKey): Search
    requires x in s.weights && s.weights[x].Finite? && w.lane in s.weights
  {
    var alt := s.weights[x].value + w.weight;
    if s.weights[w.lane].Leq(Finite(alt)) then s
    else Search(s.weights[w.lane := Finite(alt)],
                if w.lane in s.previous then s.previous else s.previous[w.lane := x],
                s.latest[w.lane := x], s.rank)
  }

  /** Looking at one successor of the lane `x` popped last. */
  lemma RelaxKeeps(edges: set<RoutingGraphEdge>, vertices: set<LaneKey>, from: LaneKey, s: Search, x: LaneKey, rest: set<WeightedLaneKey>, w: WeightedLaneKey)
    requires NonNegative(edges) && Invariant(edges, vertices, from, s, x, rest) && x in s.rank && w in rest
    requires forall u :: u in s.rank ==> s.weights[u].Leq(s.weights[x])
    requires RoutingGraphEdge(x, w.lane, w.weight) in edges && w.lane in vertices
    ensures Invariant(edges, vertices, from, Relax(s, x, w), x, rest - {w})
    ensures forall u :: u in s.rank ==> Relax(s, x, w).weights[u] == s.weights[u]
  {
    hide HasWalk, HasEdge, IsWalk, Total, Tree, Tight, Relaxed;
    var t, e := Relax(s, x, w), RoutingGraphEdge(x, w.lane, w.weight);
    assert e.weight >= 0.0;
    if t != s {
      assert w.lane !in s.rank;
      ExtendWalk(edges, from, s.weights[x].value, e);
      SourceStays(edges, vertices, from, s, x, w);
      RelaxTree(edges, from, s, x, w);
      RelaxTight(edges, from, s, x, w);
      RelaxSeen(edges, vertices, from, s, x, rest, w);
    } else {
      RelaxSkips(edges, vertices, from, s, x, rest, w);
    }
  }

  lemma SourceStays(edges: set<RoutingGraphEdge>, vertices: set<LaneKey>, from: LaneKey, s: Search, x: LaneKey, w: WeightedLaneKey)
    requires Labelled(edges, vertices, from, s) && Ordered(vertices, s) && x in s.rank && w.lane in vertices && w.weight >= 0.0
    requires !s.weights[w.lane].Leq(Finite(s.weights[x].value + w.weight))
    ensures w.lane != from
  {
  }

  lemma TreeInsert(edges: set<RoutingGraphEdge>, from: LaneKey, s: Search, t: Search, previous: map<LaneKey, LaneKey>, x: LaneKey, v: LaneKey, alt: real)
    requires Tree(edges, from, s, previous) && x in s.rank && v !in s.rank && v != from && HasEdge(edges, x, v)
    requires t.weights == s.weights[v := Finite(alt)] && t.rank == s.rank
    ensures Tree(edges, from, t, previous[v := x])
  {
    hide HasEdge;
  }

  lemma TreeStays(edges: set<RoutingGraphEdge>, from: LaneKey, s: Search, t: Search, previous: map<LaneKey, LaneKey>, v: LaneKey, alt: real)
    requires Tree(edges, from, s, previous) && v in previous && t.weights == s.weights[v := Finite(alt)] && t.rank == s.rank
    ensures Tree(edges, from, t, previous)
  {
    hide HasEdge;
  }

  lemma RelaxTree(edges: set<RoutingGraphEdge>, from: LaneKey, s: Search, x: LaneKey, w: WeightedLaneKey)
    requires Tree(edges, from, s, s.previous) && Tree(edges, from, s, s.latest) && x in s.rank && x in s.weights && s.weights[x].Finite?
    requires w.lane in s.weights && w.lane !in s.rank && w.lane != from && RoutingGraphEdge(x, w.lane, w.weight) in edges
    requires !s.weights[w.lane].Leq(Finite(s.weights[x].value + w.weight))
    ensures Tree(edges, from, Relax(s, x, w), Relax(s, x, w).previous) && Tree(edges, from, Relax(s, x, w), Relax(s, x, w).latest)
  {
    var e := RoutingGraphEdge(x, w.lane, w.weight);
    assert HasEdge(edges, x, w.lane) by { assert e in edges && e.from == x && e.to == w.lane; }
    hide HasEdge, Tree;
    var t, alt := Relax(s, x, w), s.weights[x].value + w.weight;
    TreeInsert(edges, from, s, t, s.latest, x, w.lane, alt);
    if w.lane in s.previous {
      TreeStays(edges, from, s, t, s.previous, w.lane, alt);
    } else {
      TreeInsert(edges, from, s, t, s.previous, x, w.lane, alt);
    }
  }

  /** The hop into v, with everything it needs. */
  ghost predicate TightInto(edges: set<RoutingGraphEdge>, s: Search, v: LaneKey)
  {
    && v in s.latest && s.latest[v] in s.weights && v in s.weights && s.weights[s.latest[v]].Finite? && s.weights[v].Finite?
    && TightHop(edges, s, s.latest[v], v)
  }

  lemma TightStays(edges: set<RoutingGraphEdge>, s: Search, t: Search, v: LaneKey)
    requires TightInto(edges, s, v) && v in t.latest && t.latest[v] == s.latest[v] && v in t.weights && t.weights[v] == s.weights[v]
    requires s.latest[v] in t.weights && t.weights[s.latest[v]] == s.weights[s.latest[v]]
    ensures TightInto(edges, t, v)
  {
  }

  lemma RelaxTight(edges: set<RoutingGraphEdge>, from: LaneKey, s: Search, x: LaneKey, w: WeightedLaneKey)
    requires Tight(edges, s) && Tree(edges, from, s, s.latest) && x in s.rank && x in s.weights && s.weights[x].Finite?
    requires w.lane in s.weights && w.lane !in s.rank && RoutingGraphEdge(x, w.lane, w.weight) in edges
    ensures Tight(edges, Relax(s, x, w))
  {
    hide HasEdge, Tree, TightHop;
    var t := Relax(s, x, w);
    forall v | v in t.latest
      ensures TightInto(edges, t, v)
    {
      if v == w.lane && t != s {
        NewHop(edges, s, t, x, w);
      } else {
        LatestRanked(edges, from, s, v);
        assert TightInto(edges, s, v);
        TightStays(edges, s, t, v);
      }
    }
  }

  lemma NewHop(edges: set<RoutingGraphEdge>, s: Search, t: Search, x: LaneKey, w: WeightedLaneKey)
    requires x in s.weights && s.weights[x].Finite? && w.lane in s.weights && x != w.lane && t == Relax(s, x, w) && t != s
    requires RoutingGraphEdge(x, w.lane, w.weight) in edges
    ensures TightInto(edges, t, w.lane)
  {
    assert t.weights[w.lane].value - t.weights[x].value == w.weight;
  }

  lemma LatestRanked(edges: set<RoutingGraphEdge>, from: LaneKey, s: Search, v: LaneKey)
    requires Tree(edges, from, s, s.latest) && v in s.latest
    ensures s.latest[v] in s.rank
  {
  }

  lemma RelaxSeen(edges: set<RoutingGraphEdge>, vertices: set<LaneKey>, from: LaneKey, s: Search, x: LaneKey, rest: set<WeightedLaneKey>, w: WeightedLaneKey)
    requires Invariant(edges, vertices, from, s, x, rest) && x in s.rank && w in rest && w.lane in vertices
    requires forall u :: u in s.rank ==> s.weights[u].Leq(s.weights[x])
    requires w.lane !in s.rank && w.lane != from && !s.weights[w.lane].Leq(Finite(s.weights[x].value + w.weight))
    ensures Relaxed(edges, from, Relax(s, x, w), x, rest - {w})
  {
    RelaxFacts(edges, vertices, from, s, x, rest);
    hide Invariant, Relaxed, Relax, Seen;
    var t := Relax(s, x, w);
    forall e | e in edges && e.from in s.rank && !(e.from == x && WeightedLaneKey(e.to, e.weight) in rest - {w})
      ensures e.from in t.weights && t.weights[e.from].Finite? && Seen(t, from, e)
    {
      EdgeSeen(edges, from, s, x, rest, w, e);
    }
    AllSeen(edges, from, s, x, rest, w);
  }

  lemma EdgeSeen(edges: set<RoutingGraphEdge>, from: LaneKey, s: Search, x: LaneKey, rest: set<WeightedLaneKey>, w: WeightedLaneKey,
                 e: RoutingGraphEdge)
    requires Relaxed(edges, from, s, x, rest) && x in s.rank && x in s.weights && s.weights[x].Finite? && w.lane in s.weights
    requires forall u :: u in s.rank ==> u in s.weights && s.weights[u].Finite? && s.weights[u].Leq(s.weights[x])
    requires forall v :: v in s.previous ==> s.previous[v] in s.rank
    requires w.lane !in s.rank && w.lane != from && !s.weights[w.lane].Leq(Finite(s.weights[x].value + w.weight))
    requires e in edges && e.from in s.rank && !(e.from == x && WeightedLaneKey(e.to, e.weight) in rest - {w})
    ensures var t := Relax(s, x, w); e.from in t.weights && t.weights[e.from].Finite? && Seen(t, from, e)
  {
    hide Seen;
    if e.from == x && WeightedLaneKey(e.to, e.weight) == w {
      SeenNow(s, from, x, w, e);
    } else {
      SeenStays(s, from, x, w, e);
    }
  }

  lemma AllSeen(edges: set<RoutingGraphEdge>, from: LaneKey, s: Search, x: LaneKey, rest: set<WeightedLaneKey>, w: WeightedLaneKey)
    requires x in s.weights && s.weights[x].Finite? && w.lane in s.weights
    requires var t := Relax(s, x, w);
             forall e :: e in edges && e.from in s.rank && !(e.from == x && WeightedLaneKey(e.to, e.weight) in rest - {w}) ==>
               e.from in t.weights && t.weights[e.from].Finite? && Seen(t, from, e)
    ensures Relaxed(edges, from, Relax(s, x, w), x, rest - {w})
  {
    assert Relax(s, x, w).rank == s.rank;
    hide Seen, Relax;
  }

  lemma RelaxFacts(edges: set<RoutingGraphEdge>, vertices: set<LaneKey>, from: LaneKey, s: Search, x: LaneKey, rest: set<WeightedLaneKey>)
    requires Invariant(edges, vertices, from, s, x, rest)
    ensures s.weights.Keys == vertices && forall u :: u in s.rank ==> u in s.weights && s.weights[u].Finite?
    ensures forall v :: v in s.previous ==> s.previous[v] in s.rank
  {
    hide Labelled, Relaxed, Tight, HasEdge;
  }

  lemma SeenStays(s: Search, from: LaneKey, x: LaneKey, w: WeightedLaneKey, e: RoutingGraphEdge)
    requires x in s.weights && s.weights[x].Finite? && w.lane in s.weights && w.lane !in s.rank && w.lane != from
    requires e.from in s.rank && e.from in s.weights && s.weights[e.from].Finite? && Seen(s, from, e)
    requires forall v :: v in s.previous ==> s.previous[v] in s.rank
    ensures Seen(Relax(s, x, w), from, e)
  {
  }

  lemma SeenNow(s: Search, from: LaneKey, x: LaneKey, w: WeightedLaneKey, e: RoutingGraphEdge)
    requires x in s.weights && s.weights[x].Finite? && w.lane in s.weights && w.lane !in s.rank && w.lane != from && x in s.rank
    requires e == RoutingGraphEdge(x, w.lane, w.weight) && !s.weights[w.lane].Leq(Finite(s.weights[x].value + w.weight))
    requires forall v :: v in s.previous ==> s.previous[v] in s.rank && s.previous[v] in s.weights && s.weights[s.previous[v]].Leq(s.weights[x])
    ensures Seen(Relax(s, x, w), from, e)
  {
  }

  lemma RelaxSkips(edges: set<RoutingGraphEdge>, vertices: set<LaneKey>, from: LaneKey, s: Search, x: LaneKey, rest: set<WeightedLaneKey>, w: WeightedLaneKey)
    requires Invariant(edges, vertices, from, s, x, rest) && x in s.rank && w in rest && w.lane in vertices
    requires forall u :: u in s.rank ==> s.weights[u].Leq(s.weights[x])
    requires s.weights[w.lane].Leq(Finite(s.weights[x].value + w.weight))
    ensures Relaxed(edges, from, s, x, rest - {w})
  {
    hide Labelled, Tight, HasEdge;
    forall e | e in edges && e.from in s.rank && !(e.from == x && WeightedLaneKey(e.to, e.weight) in rest - {w})
      ensures e.from in s.weights && s.weights[e.from].Finite? && Seen(s, from, e)
    {
      if e.from == x && WeightedLaneKey(e.to, e.weight) == w {
        assert e.to in s.previous || e.to == from;
      } else {
        assert Seen(s, from, e);
      }
    }
  }

  // ---------- what the predecessors spell ----------

  /** `path` runs from `from` to `to`, each lane found from the one before it. */
  ghost predicate Follows(previous: map<LaneKey, LaneKey>, from: LaneKey, to: LaneKey, path: seq<LaneKey>)
  {
    && |path| >= 1 && path[0] == from && path[|path| - 1] == to && from !in previous
    && (forall i :: 0 < i < |path| ==> path[i] in previous && previous[path[i]] == path[i - 1])
  }

  /** `es` takes the lanes of `path` in order. */
  ghost predicate Along(edges: set<RoutingGraphEdge>, path: seq<LaneKey>, es: seq<RoutingGraphEdge>)
  {
    && |path| == |es| + 1
    && (forall i :: 0 <= i < |es| ==> es[i] in edges && es[i].from == path[i] && es[i].to == path[i + 1])
  }

  /** No walk is lighter than one along `path`. */
  ghost predicate Shortest(edges: set<RoutingGraphEdge>, from: LaneKey, to: LaneKey, path: seq<LaneKey>)
  {
    exists es :: Along(edges, path, es) && Least(edges, from, to, Total(es))
  }

  lemma {:induction false} AlongIsWalk(edges: set<RoutingGraphEdge>, path: seq<LaneKey>, es: seq<RoutingGraphEdge>)
    requires Along(edges, path, es)
    ensures IsWalk(edges, path[0], path[|path| - 1], es)
    decreases |es|
  {
    if |es| > 0 {
      var n := |es| - 1;
      AlongIsWalk(edges, path[..n + 1], es[..n]);
    }
  }

  /** An edge from u to v accounts for the difference of their least walk weights. */
  ghost predicate TightEdge(edges: set<RoutingGraphEdge>, from: LaneKey, u: LaneKey, v: LaneKey)
  {
    forall c, d :: Least(edges, from, u, c) && Least(edges, from, v, d) ==> RoutingGraphEdge(u, v, d - c) in edges
  }

  ghost predicate TightPath(edges: set<RoutingGraphEdge>, from: LaneKey, path: seq<LaneKey>)
  {
    forall i :: 0 < i < |path| ==> TightEdge(edges, from, path[i - 1], path[i])
  }

  ghost predicate HasLeast(edges: set<RoutingGraphEdge>, from: LaneKey, v: LaneKey)
  {
    exists d :: Least(edges, from, v, d)
  }

  ghost predicate AllLeast(edges: set<RoutingGraphEdge>, from: LaneKey, path: seq<LaneKey>)
  {
    forall i :: 0 <= i < |path| ==> HasLeast(edges, from, path[i])
  }

  lemma LeastPrefix(edges: set<RoutingGraphEdge>, from: LaneKey, path: seq<LaneKey>, n: nat)
    requires AllLeast(edges, from, path) && n <= |path|
    ensures AllLeast(edges, from, path[..n])
  {
    hide HasLeast;
    var front := path[..n];
    forall i | 0 <= i < |front|
      ensures HasLeast(edges, from, front[i])
    {
      assert front[i] == path[i];
    }
  }

  lemma TightPrefix(edges: set<RoutingGraphEdge>, from: LaneKey, path: seq<LaneKey>, n: nat)
    requires TightPath(edges, from, path) && n <= |path|
    ensures TightPath(edges, from, path[..n])
  {
    hide TightEdge;
    var front := path[..n];
    forall i | 0 < i < |front|
      ensures TightEdge(edges, from, front[i - 1], front[i])
    {
      assert front[i - 1] == path[i - 1] && front[i] == path[i];
    }
  }

  lemma TightSnoc(edges: set<RoutingGraphEdge>, from: LaneKey, path: seq<LaneKey>)
    requires |path| >= 2 && TightPath(edges, from, path[..|path| - 1]) && TightEdge(edges, from, path[|path| - 2], path[|path| - 1])
    ensures TightPath(edges, from, path)
  {
    hide TightEdge;
    var front := path[..|path| - 1];
    forall i | 0 < i < |path|
      ensures TightEdge(edges, from, path[i - 1], path[i])
    {
      if i < |path| - 1 {
        assert front[i - 1] == path[i - 1] && front[i] == path[i];
      }
    }
  }

  lemma LeastHere(edges: set<RoutingGraphEdge>, from: LaneKey)
    requires NonNegative(edges)
    ensures Least(edges, from, from, 0.0)
  {
    EmptyWalk(edges, from);
    forall es | IsWalk(edges, from, from, es)
      ensures 0.0 <= Total(es)
    {
      TotalNonNegative(edges, from, from, es);
    }
  }

  lemma {:induction false} TotalNonNegative(edges: set<RoutingGraphEdge>, from: LaneKey, to: LaneKey, es: seq<RoutingGraphEdge>)
    requires NonNegative(edges) && IsWalk(edges, from, to, es)
    ensures Total(es) >= 0.0
    decreases |es|
  {
    if |es| > 0 {
      TotalNonNegative(edges, from, es[|es| - 1].from, es[..|es| - 1]);
    }
  }

  lemma LeastExtends(edges: set<RoutingGraphEdge>, from: LaneKey, c: real, d: real, e: RoutingGraphEdge)
    requires Least(edges, from, e.from, c) && Least(edges, from, e.to, d) && e in edges
    ensures d <= c + e.weight
  {
    hide IsWalk, Total;
    ExtendWalk(edges, from, c, e);
  }

  /** Along a tight path the weights add up to the least. */
  lemma {:induction false} TightAddsUp(edges: set<RoutingGraphEdge>, from: LaneKey, path: seq<LaneKey>, d: real) returns (es: seq<RoutingGraphEdge>)
    requires NonNegative(edges) && |path| >= 1 && path[0] == from && AllLeast(edges, from, path) && TightPath(edges, from, path)
    requires Least(edges, from, path[|path| - 1], d)
    ensures Along(edges, path, es) && Total(es) == d
    decreases |path|
  {
    hide Least, IsWalk;
    if |path| == 1 {
      es := [];
      LeastHere(edges, from);
      LeastUnique(edges, from, from, 0.0, d);
    } else {
      var n := |path| - 1;
      LeastPrefix(edges, from, path, n);
      TightPrefix(edges, from, path, n);
      assert HasLeast(edges, from, path[n - 1]) && TightEdge(edges, from, path[n - 1], path[n]);
      var c :| Least(edges, from, path[n - 1], c);
      var front := TightAddsUp(edges, from, path[..n], c);
      var e := RoutingGraphEdge(path[n - 1], path[n], d - c);
      es := front + [e];
      assert es[..|es| - 1] == front;
      AlongSnoc(edges, path, front, e);
    }
  }

  lemma AlongSnoc(edges: set<RoutingGraphEdge>, path: seq<LaneKey>, front: seq<RoutingGraphEdge>, e: RoutingGraphEdge)
    requires |path| >= 2 && Along(edges, path[..|path| - 1], front) && e in edges
    requires e.from == path[|path| - 2] && e.to == path[|path| - 1]
    ensures Along(edges, path, front + [e])
  {
  }

  /** Along any path the weights are at least the least, and equal to it only if each hop
      is tight. */
  lemma {:induction false} AddsUpTight(edges: set<RoutingGraphEdge>, from: LaneKey, path: seq<LaneKey>, es: seq<RoutingGraphEdge>, d: real)
    requires NonNegative(edges) && Along(edges, path, es) && path[0] == from && AllLeast(edges, from, path)
    requires Least(edges, from, path[|path| - 1], d)
    ensures d <= Total(es)
    ensures Total(es) == d ==> TightPath(edges, from, path)
    decreases |es|
  {
    hide Least, IsWalk;
    if |es| == 0 {
      LeastHere(edges, from);
      LeastUnique(edges, from, from, 0.0, d);
    } else {
      var n := |es| - 1;
      assert HasLeast(edges, from, path[n]);
      var c :| Least(edges, from, path[n], c);
      LeastPrefix(edges, from, path, n + 1);
      AddsUpTight(edges, from, path[..n + 1], es[..n], c);
      LeastExtends(edges, from, c, d, es[n]);
      if Total(es) == d {
        assert es[n] == RoutingGraphEdge(path[n], path[n + 1], d - c);
        var u, v := path[n], path[n + 1];
        forall a, b | Least(edges, from, u, a) && Least(edges, from, v, b)
          ensures RoutingGraphEdge(u, v, b - a) in edges
        {
          LeastUnique(edges, from, u, a, c);
          LeastUnique(edges, from, v, b, d);
        }
        TightSnoc(edges, from, path);
      }
    }
  }

  /** A path is shortest if and only if each of its hops is tight. */
  lemma ShortestIffTight(edges: set<RoutingGraphEdge>, from: LaneKey, path: seq<LaneKey>, to: LaneKey)
    requires NonNegative(edges) && |path| >= 1 && path[0] == from && path[|path| - 1] == to && AllLeast(edges, from, path)
    ensures Shortest(edges, from, to, path) <==> TightPath(edges, from, path)
  {
    hide Least, IsWalk, TightPath, Total;
    assert HasLeast(edges, from, path[|path| - 1]);
    var d :| Least(edges, from, path[|path| - 1], d);
    if TightPath(edges, from, path) {
      var es := TightAddsUp(edges, from, path, d);
    }
    if Shortest(edges, from, to, path) {
      var es :| Along(edges, path, es) && Least(edges, from, to, Total(es));
      AddsUpTight(edges, from, path, es, Total(es));
    }
  }

  // ---------- what shortest_path returns ----------

  /** Among the lanes with an edge to v, none is nearer to `from` than u. */
  ghost predicate NearestPredecessor(edges: set<RoutingGraphEdge>, from: LaneKey, u: LaneKey, v: LaneKey)
  {
    && v != from && HasEdge(edges, u, v) && HasLeast(edges, from, u)
    && (forall e, c, d :: e in edges && e.to == v && Least(edges, from, u, c) && Least(edges, from, e.from, d) ==> c <= d)
  }

  /** A path that reaches each lane from a nearest predecessor. */
  ghost predicate NearestPath(edges: set<RoutingGraphEdge>, from: LaneKey, to: LaneKey, path: seq<LaneKey>)
  {
    && |path| >= 1 && path[0] == from && path[|path| - 1] == to
    && (forall i :: 0 < i < |path| ==> NearestPredecessor(edges, from, path[i - 1], path[i]))
    && HasLeast(edges, from, to)
  }

  ghost predicate Distinct(path: seq<LaneKey>)
  {
    forall i, j :: 0 <= i < j < |path| ==> path[i] != path[j]
  }

  lemma NearestLeast(edges: set<RoutingGraphEdge>, from: LaneKey, to: LaneKey, path: seq<LaneKey>)
    requires NearestPath(edges, from, to, path)
    ensures AllLeast(edges, from, path)
  {
    hide HasLeast, HasEdge;
    forall i | 0 <= i < |path|
      ensures HasLeast(edges, from, path[i])
    {
      if i < |path| - 1 {
        assert NearestPredecessor(edges, from, path[(i + 1) - 1], path[i + 1]);
      }
    }
  }

  /** Nearest predecessors are also best ones. */
  ghost predicate NearestIsBest(edges: set<RoutingGraphEdge>, from: LaneKey)
  {
    forall u, v :: NearestPredecessor(edges, from, u, v) ==> TightEdge(edges, from, u, v)
  }

  // ---------- following the predecessors back ----------

  /** A list of lanes from `to` backwards, each found from the next. */
  ghost predicate Trail(previous: map<LaneKey, LaneKey>, to: LaneKey, trail: seq<LaneKey>)
  {
    && |trail| >= 1 && trail[0] == to
    && (forall i :: 0 <= i < |trail| - 1 ==> trail[i] in previous && previous[trail[i]] == trail[i + 1])
  }

  function Reversed(s: seq<LaneKey>): (r: seq<LaneKey>)
    ensures |r| == |s|
  {
    seq(|s|, i requires 0 <= i < |s| => s[|s| - 1 - i])
  }

  lemma TrailFollows(previous: map<LaneKey, LaneKey>, from: LaneKey, to: LaneKey, trail: seq<LaneKey>)
    requires Trail(previous, to, trail) && trail[|trail| - 1] == from && from !in previous
    ensures Follows(previous, from, to, Reversed(trail))
  {
    var path := Reversed(trail);
    forall i | 0 < i < |path|
      ensures path[i] in previous && previous[path[i]] == path[i - 1]
    {
      var k := |trail| - 1 - i;
      assert path[i] == trail[k] && path[i - 1] == trail[k + 1];
    }
  }

  lemma TrailSnoc(previous: map<LaneKey, LaneKey>, to: LaneKey, trail: seq<LaneKey>)
    requires Trail(previous, to, trail) && trail[|trail| - 1] in previous
    ensures Trail(previous, to, trail + [previous[trail[|trail| - 1]]])
  {
    var r := trail + [previous[trail[|trail| - 1]]];
    forall i | 0 <= i < |r| - 1
      ensures r[i] in previous && previous[r[i]] == r[i + 1]
    {
      assert r[i] == trail[i];
    }
  }

  /** How far back a lane can still lead. */
  ghost function Height(rank: map<LaneKey, nat>, v: LaneKey): nat
  {
    if v in rank then rank[v] else |rank|
  }

  lemma StepBack(edges: set<RoutingGraphEdge>, from: LaneKey, s: Search, previous: map<LaneKey, LaneKey>, v: LaneKey)
    requires Tree(edges, from, s, previous) && v in previous
    ensures previous[v] in s.rank && Height(s.rank, previous[v]) < Height(s.rank, v)
    ensures previous[v] in s.weights && s.weights[previous[v]].Finite? && previous[v] !in previous ==> previous[v] == from
  {
    hide HasEdge;
  }

  /** Distinct lanes, because each was expanded before the one after it. */
  lemma FollowsDistinct(edges: set<RoutingGraphEdge>, from: LaneKey, s: Search, previous: map<LaneKey, LaneKey>, to: LaneKey, path: seq<LaneKey>)
    requires Tree(edges, from, s, previous) && Follows(previous, from, to, path)
    ensures Distinct(path)
  {
    forall i, j | 0 <= i < j < |path|
      ensures path[i] != path[j]
    {
      HeightsRise(edges, from, s, previous, to, path, i, j);
    }
  }

  lemma {:induction false} HeightsRise(edges: set<RoutingGraphEdge>, from: LaneKey, s: Search, previous: map<LaneKey, LaneKey>,
                                       to: LaneKey, path: seq<LaneKey>, i: nat, j: nat)
    requires Tree(edges, from, s, previous) && Follows(previous, from, to, path) && i < j < |path|
    ensures Height(s.rank, path[i]) < Height(s.rank, path[j])
    decreases j
  {
    hide HasEdge, Tree;
    StepBack(edges, from, s, previous, path[j]);
    if i < j - 1 {
      HeightsRise(edges, from, s, previous, to, path, i, j - 1);
    }
  }

  /** The search has come to `to`, the nearest of the open lanes. */
  ghost predicate Arrived(edges: set<RoutingGraphEdge>, vertices: set<LaneKey>, from: LaneKey, s: Search, to: LaneKey)
  {
    && NonNegative(edges) && Invariant(edges, vertices, from, s, from, {}) && to in vertices && to !in s.rank
    && s.weights[to].Finite?
    && (forall u :: u in vertices && u !in s.rank ==> s.weights[to].Leq(s.weights[u]))
  }

  lemma ArrivedLeast(edges: set<RoutingGraphEdge>, vertices: set<LaneKey>, from: LaneKey, s: Search, to: LaneKey, v: LaneKey)
    requires Arrived(edges, vertices, from, s, to) && (v in s.rank || v == to)
    ensures v in s.weights && s.weights[v].Finite? && Least(edges, from, v, s.weights[v].value)
  {
    hide Labelled, Relaxed, Tree, Tight, Least;
    if v in s.rank {
      ExpandedExact(edges, vertices, from, s, to, from, v);
    } else {
      PopExact(edges, vertices, from, s, to, from);
    }
  }

  /** No lane has a nearer predecessor than the first one it was found from. */
  lemma FirstIsNearest(edges: set<RoutingGraphEdge>, vertices: set<LaneKey>, from: LaneKey, s: Search, to: LaneKey, v: LaneKey)
    requires Arrived(edges, vertices, from, s, to) && v in s.previous
    ensures NearestPredecessor(edges, from, s.previous[v], v)
  {
    hide Least, HasEdge, Tight, Labelled, Relaxed, Ordered;
    var u := s.previous[v];
    ArrivedLeast(edges, vertices, from, s, to, u);
    PreviousNotFrom(edges, from, s, v);
    assert HasEdge(edges, u, v) && u in s.rank && HasLeast(edges, from, u);
    hide Tree, HasLeast;
    hide Invariant, Seen;
    forall e, c, d | e in edges && e.to == v && Least(edges, from, u, c) && Least(edges, from, e.from, d)
      ensures c <= d
    {
      NotNearer(edges, vertices, from, s, to, u, e, c, d);
    }
  }

  lemma NotNearer(edges: set<RoutingGraphEdge>, vertices: set<LaneKey>, from: LaneKey, s: Search, to: LaneKey,
                  u: LaneKey, e: RoutingGraphEdge, c: real, d: real)
    requires Arrived(edges, vertices, from, s, to) && e.to in s.previous && u == s.previous[e.to] && u in s.rank
    requires e in edges && Least(edges, from, u, c) && Least(edges, from, e.from, d)
    ensures c <= d
  {
    hide Least, HasEdge, Tight, Labelled, Tree;
    ArrivedLeast(edges, vertices, from, s, to, u);
    LeastUnique(edges, from, u, c, s.weights[u].value);
    if e.from in s.rank {
      PreviousNotFrom(edges, from, s, e.to);
      assert Seen(s, from, e);
      ArrivedLeast(edges, vertices, from, s, to, e.from);
      LeastUnique(edges, from, e.from, d, s.weights[e.from].value);
    } else {
      OpenBound(edges, vertices, from, s, to, e.from, d);
    }
  }

  lemma PreviousNotFrom(edges: set<RoutingGraphEdge>, from: LaneKey, s: Search, v: LaneKey)
    requires Tree(edges, from, s, s.previous) && v in s.previous
    ensures v != from
  {
  }

  lemma OpenBound(edges: set<RoutingGraphEdge>, vertices: set<LaneKey>, from: LaneKey, s: Search, to: LaneKey, v: LaneKey, d: real)
    requires Arrived(edges, vertices, from, s, to) && v !in s.rank && Least(edges, from, v, d)
    ensures s.weights[to].value <= d
  {
    var es: seq<RoutingGraphEdge> :| IsWalk(edges, from, v, es) && Total(es) == d;
    WalkBound(edges, vertices, from, s, from, s.weights[to], es, v);
  }

  lemma FollowsNearest(edges: set<RoutingGraphEdge>, vertices: set<LaneKey>, from: LaneKey, s: Search, to: LaneKey, path: seq<LaneKey>)
    requires Arrived(edges, vertices, from, s, to) && Follows(s.previous, from, to, path)
    ensures NearestPath(edges, from, to, path) && Distinct(path)
  {
    hide NearestPredecessor, Labelled, Ordered, Relaxed, Tree, Tight, Least;
    ArrivedLeast(edges, vertices, from, s, to, to);
    forall i | 0 < i < |path|
      ensures NearestPredecessor(edges, from, path[i - 1], path[i])
    {
      FirstIsNearest(edges, vertices, from, s, to, path[i]);
    }
    FollowsDistinct(edges, from, s, s.previous, to, path);
  }

  /** Were line 100 to overwrite, the lanes would spell a shortest path. */
  lemma LatestShortest(edges: set<RoutingGraphEdge>, vertices: set<LaneKey>, from: LaneKey, s: Search, to: LaneKey, path: seq<LaneKey>)
    requires Arrived(edges, vertices, from, s, to) && Follows(s.latest, from, to, path)
    ensures Shortest(edges, from, to, path) && Distinct(path)
  {
    hide Labelled, Ordered, Relaxed, Tree, Least, Follows, Along, TightEdge, IsWalk, HasWalk;
    FollowsDistinct(edges, from, s, s.latest, to, path);
    FollowsShape(edges, from, s, to, path);
    forall i | 0 <= i < |path|
      ensures HasLeast(edges, from, path[i])
    {
      ArrivedLeast(edges, vertices, from, s, to, path[i]);
    }
    forall i | 0 < i < |path|
      ensures TightEdge(edges, from, path[i - 1], path[i])
    {
      ArrivedLeast(edges, vertices, from, s, to, path[i - 1]);
      ArrivedLeast(edges, vertices, from, s, to, path[i]);
      assert TightHop(edges, s, path[i - 1], path[i]);
      TightFromLabels(edges, from, s, path[i - 1], path[i]);
    }
    ShortestIffTight(edges, from, path, to);
  }

  lemma TightFromLabels(edges: set<RoutingGraphEdge>, from: LaneKey, s: Search, u: LaneKey, v: LaneKey)
    requires u in s.weights && v in s.weights && s.weights[u].Finite? && s.weights[v].Finite? && TightHop(edges, s, u, v)
    requires Least(edges, from, u, s.weights[u].value) && Least(edges, from, v, s.weights[v].value)
    ensures TightEdge(edges, from, u, v)
  {
    hide Least;
    forall c, d | Least(edges, from, u, c) && Least(edges, from, v, d)
      ensures RoutingGraphEdge(u, v, d - c) in edges
    {
      LeastUnique(edges, from, u, c, s.weights[u].value);
      LeastUnique(edges, from, v, d, s.weights[v].value);
    }
  }

  lemma {:induction false} FollowsRanked(edges: set<RoutingGraphEdge>, from: LaneKey, s: Search, to: LaneKey, path: seq<LaneKey>, i: nat)
    requires Tree(edges, from, s, s.latest) && Follows(s.latest, from, to, path) && i + 1 < |path|
    ensures path[i] in s.rank
  {
    StepBack(edges, from, s, s.latest, path[i + 1]);
  }

  lemma FollowsShape(edges: set<RoutingGraphEdge>, from: LaneKey, s: Search, to: LaneKey, path: seq<LaneKey>)
    requires Tree(edges, from, s, s.latest) && Follows(s.latest, from, to, path)
    ensures |path| >= 1 && path[0] == from && path[|path| - 1] == to
    ensures forall i :: 0 <= i < |path| ==> path[i] in s.rank || path[i] == to
    ensures forall i :: 0 < i < |path| ==> path[i] in s.latest && s.latest[path[i]] == path[i - 1]
  {
    hide Tree;
    forall i | 0 <= i < |path|
      ensures path[i] in s.rank || path[i] == to
    {
      if i + 1 < |path| {
        FollowsRanked(edges, from, s, to, path, i);
      }
    }
  }

  /** What shortest_path returns for two lanes of the graph. */
  ghost predicate PathFound(edges: set<RoutingGraphEdge>, from: LaneKey, to: LaneKey, path: seq<LaneKey>)
  {
    if Reachable(edges, from, to) then NearestPath(edges, from, to, path) && Distinct(path) else path == [from]
  }

  lemma TreeRoot(edges: set<RoutingGraphEdge>, from: LaneKey, s: Search, previous: map<LaneKey, LaneKey>, v: LaneKey)
    requires Tree(edges, from, s, previous) && v in s.weights
    ensures v in previous <==> v != from && s.weights[v].Finite?
    ensures from !in previous
  {
  }

  // ---------- what the result means ----------

  lemma DistinctEnds(path: seq<LaneKey>)
    requires |path| >= 1 && Distinct(path)
    ensures path[0] == path[|path| - 1] ==> |path| == 1
    ensures |path| > 2 ==> path[0] != path[|path| - 2]
  {
  }

  /** For two different lanes, the list ends in `to` exactly when `to` can be reached, and
      then consecutive lanes are joined by stored edges. */
  lemma FoundEnds(edges: set<RoutingGraphEdge>, from: LaneKey, to: LaneKey, path: seq<LaneKey>)
    requires PathFound(edges, from, to, path)
    ensures |path| >= 1 && path[0] == from
    ensures from == to ==> path == [from]
    ensures from != to ==> (path[|path| - 1] == to <==> Reachable(edges, from, to))
    ensures forall i :: 0 < i < |path| ==> HasEdge(edges, path[i - 1], path[i])
  {
    hide HasEdge, Least, HasLeast;
    if from == to {
      EmptyWalk(edges, from);
      assert Reachable(edges, from, to);
      DistinctEnds(path);
    }
    forall i | 0 < i < |path|
      ensures HasEdge(edges, path[i - 1], path[i])
    {
      assert NearestPredecessor(edges, from, path[i - 1], path[i]);
    }
  }

  /** The list is a shortest path if and only if each of its hops, which are from nearest
      predecessors, is tight. */
  lemma FoundShortest(edges: set<RoutingGraphEdge>, from: LaneKey, to: LaneKey, path: seq<LaneKey>)
    requires NonNegative(edges) && PathFound(edges, from, to, path) && Reachable(edges, from, to)
    ensures Shortest(edges, from, to, path) <==> TightPath(edges, from, path)
  {
    hide NearestPredecessor, HasLeast, TightEdge, Shortest, Reachable;
    NearestLeast(edges, from, to, path);
    ShortestIffTight(edges, from, path, to);
  }

  /** If the weight of an edge depends only on the lane it leads to, keeping the first
      predecessor does no harm. */
  lemma UniformIsBest(edges: set<RoutingGraphEdge>, from: LaneKey)
    requires NonNegative(edges) && forall e, f :: e in edges && f in edges && e.to == f.to ==> e.weight == f.weight
    ensures NearestIsBest(edges, from)
  {
    hide Least, HasLeast;
    forall u, v | NearestPredecessor(edges, from, u, v)
      ensures TightEdge(edges, from, u, v)
    {
      forall c, d | Least(edges, from, u, c) && Least(edges, from, v, d)
        ensures RoutingGraphEdge(u, v, d - c) in edges
      {
        UniformHop(edges, from, u, v, c, d);
      }
    }
  }

  lemma UniformHop(edges: set<RoutingGraphEdge>, from: LaneKey, u: LaneKey, v: LaneKey, c: real, d: real)
    requires NonNegative(edges) && forall e, f :: e in edges && f in edges && e.to == f.to ==> e.weight == f.weight
    requires NearestPredecessor(edges, from, u, v) && Least(edges, from, u, c) && Least(edges, from, v, d)
    ensures RoutingGraphEdge(u, v, d - c) in edges
  {
    hide HasLeast;
    var e :| e in edges && e.from == u && e.to == v;
    LeastExtends(edges, from, c, d, e);
    var es: seq<RoutingGraphEdge> :| IsWalk(edges, from, v, es) && Total(es) == d;
    var last := es[|es| - 1];
    var b := Total(es[..|es| - 1]);
    LastHopLeast(edges, from, es, v, d, b);
    assert last.weight == e.weight;
    assert c <= b;
    assert RoutingGraphEdge(u, v, d - c) == e;
  }

  /** A least walk is least up to its last edge. */
  lemma LastHopLeast(edges: set<RoutingGraphEdge>, from: LaneKey, es: seq<RoutingGraphEdge>, v: LaneKey, d: real, b: real)
    requires IsWalk(edges, from, v, es) && Total(es) == d && Least(edges, from, v, d) && v != from
    requires b == Total(es[..|es| - 1])
    ensures es[|es| - 1] in edges && es[|es| - 1].to == v && d == b + es[|es| - 1].weight
    ensures Least(edges, from, es[|es| - 1].from, b)
  {
    var last := es[|es| - 1];
    forall fs | IsWalk(edges, from, last.from, fs)
      ensures b <= Total(fs)
    {
      SnocWalk(edges, from, fs, last);
    }
    assert HasWalk(edges, from, last.from, b);
  }

  // ---------- the walk returned can be longer than the label ----------

  function StartLane(): LaneKey { LaneKey("f", 0.0, 1) }

  function ViaLane(): LaneKey { LaneKey("a", 0.0, 1) }

  function EndLane(): LaneKey { LaneKey("b", 0.0, 1) }

  function Detour(): set<RoutingGraphEdge>
  {
    {RoutingGraphEdge(StartLane(), ViaLane(), 1.0), RoutingGraphEdge(StartLane(), EndLane(), 10.0), RoutingGraphEdge(ViaLane(), EndLane(), 1.0)}
  }

  lemma {:induction false} DetourTotals(es: seq<RoutingGraphEdge>, v: LaneKey)
    requires IsWalk(Detour(), StartLane(), v, es)
    ensures (v == StartLane() && Total(es) == 0.0) || (v == ViaLane() && Total(es) == 1.0) || (v == EndLane() && (Total(es) == 10.0 || Total(es) == 2.0))
    decreases |es|
  {
    if |es| > 0 {
      DetourTotals(es[..|es| - 1], es[|es| - 1].from);
    }
  }

  lemma DetourLeast()
    ensures Least(Detour(), StartLane(), StartLane(), 0.0) && Least(Detour(), StartLane(), ViaLane(), 1.0) && Least(Detour(), StartLane(), EndLane(), 2.0)
  {
    EmptyWalk(Detour(), StartLane());
    ExtendWalk(Detour(), StartLane(), 0.0, RoutingGraphEdge(StartLane(), ViaLane(), 1.0));
    ExtendWalk(Detour(), StartLane(), 1.0, RoutingGraphEdge(ViaLane(), EndLane(), 1.0));
    forall es, v | IsWalk(Detour(), StartLane(), v, es)
      ensures Total(es) >= if v == StartLane() then 0.0 else if v == ViaLane() then 1.0 else 2.0
    {
      DetourTotals(es, v);
    }
  }

  lemma DetourNotTight()
    ensures !TightEdge(Detour(), StartLane(), StartLane(), EndLane())
    ensures !NearestPredecessor(Detour(), StartLane(), ViaLane(), EndLane())
  {
    DetourLeast();
    hide Least, HasLeast;
    assert RoutingGraphEdge(StartLane(), EndLane(), 2.0 - 0.0) !in Detour();
    var e := RoutingGraphEdge(StartLane(), EndLane(), 10.0);
    assert e in Detour() && e.to == EndLane() && Least(Detour(), StartLane(), ViaLane(), 1.0) && Least(Detour(), StartLane(), e.from, 0.0);
  }

  /** Keeping the first predecessor makes the search return f, b, which weighs 10, although
      the label of b is 2. */
  lemma DetourReturned(path: seq<LaneKey>)
    requires PathFound(Detour(), StartLane(), EndLane(), path)
    ensures path == [StartLane(), EndLane()] && !Shortest(Detour(), StartLane(), EndLane(), path)
  {
    hide IsWalk, Total, Shortest;
    DetourLeast();
    WalkReaches(Detour(), StartLane(), EndLane(), 2.0);
    DetourNotTight();
    hide Least, Reachable, HasLeast, TightEdge;
    var n := |path|;
    DistinctEnds(path);
    assert n >= 2;
    assert NearestPredecessor(Detour(), StartLane(), path[n - 2], path[n - 1]);
    assert path[n - 2] == StartLane();
    assert path == [StartLane(), EndLane()];
    FoundShortest(Detour(), StartLane(), EndLane(), path);
  }

  // ---------- between the steps ----------

  /** The lanes that some edge starts or ends at. */
  ghost function Vertices(edges: set<RoutingGraphEdge>): set<LaneKey>
  {
    (set e | e in edges :: e.from) + (set e | e in edges :: e.to)
  }

  lemma LabelsAt(edges: set<RoutingGraphEdge>, vertices: set<LaneKey>, from: LaneKey, s: Search, x: LaneKey, rest: set<WeightedLaneKey>, v: LaneKey)
    requires Invariant(edges, vertices, from, s, x, rest)
    ensures s.weights.Keys == vertices && from in vertices && from !in s.previous
    ensures v in s.rank ==> v in vertices && s.weights[v].Finite? && s.weights[v].value >= 0.0
    ensures forall u :: u in s.rank ==> u in vertices && s.weights[u].Finite?
  {
  }

  lemma AnyLane(edges: set<RoutingGraphEdge>, vertices: set<LaneKey>, from: LaneKey, s: Search, x: LaneKey)
    requires Invariant(edges, vertices, from, s, x, {})
    ensures Invariant(edges, vertices, from, s, from, {})
  {
    hide Labelled, Ordered, Tree, Tight, Seen;
  }

  /** The elements of `all`, each once. */
  ghost predicate ListsOnce(list: seq<WeightedLaneKey>, all: set<WeightedLaneKey>)
  {
    && (forall w :: w in list <==> w in all)
    && (forall i, j :: 0 <= i < j < |list| ==> list[i] != list[j])
  }

  /** A lane of least label among the open ones. */
  ghost predicate Nearest(vertices: set<LaneKey>, s: Search, x: LaneKey)
  {
    && x in vertices && x !in s.rank && vertices == s.weights.Keys
    && (forall u :: u in vertices && u !in s.rank ==> s.weights[x].Leq(s.weights[u]))
  }

  lemma ReadyToExpand(edges: set<RoutingGraphEdge>, vertices: set<LaneKey>, from: LaneKey, s: Search, x: LaneKey, ends: set<WeightedLaneKey>, t: Search)
    requires NonNegative(edges) && Invariant(edges, vertices, from, s, from, {}) && Nearest(vertices, s, x) && s.weights[x].Finite?
    requires forall e :: e in edges && e.from == x ==> WeightedLaneKey(e.to, e.weight) in ends
    requires t == s.(rank := s.rank[x := |s.rank|])
    ensures Invariant(edges, vertices, from, t, x, ends) && x in t.rank
    ensures forall u :: u in t.rank ==> u in t.weights && t.weights[u].Leq(t.weights[x])
  {
    hide Relaxed, Tree, Tight, HasWalk;
    LabelNonNegative(edges, vertices, from, s, x);
    PopKeeps(edges, vertices, from, s, from, x, ends, t);
  }

  lemma LabelNonNegative(edges: set<RoutingGraphEdge>, vertices: set<LaneKey>, from: LaneKey, s: Search, x: LaneKey)
    requires NonNegative(edges) && Labelled(edges, vertices, from, s) && x in vertices && s.weights[x].Finite?
    ensures s.weights[x].value >= 0.0
  {
    var es :| IsWalk(edges, from, x, es) && Total(es) == s.weights[x].value;
    TotalNonNegative(edges, from, x, es);
  }

  lemma {:induction false} TreeTrail(edges: set<RoutingGraphEdge>, from: LaneKey, s: Search, previous: map<LaneKey, LaneKey>, v: LaneKey)
    returns (path: seq<LaneKey>)
    requires Tree(edges, from, s, previous) && v in s.weights && s.weights[v].Finite?
    requires forall u :: u in s.rank ==> u in s.weights && s.weights[u].Finite?
    ensures Follows(previous, from, v, path)
    decreases Height(s.rank, v)
  {
    TreeRoot(edges, from, s, previous, v);
    if v == from {
      path := [from];
    } else {
      StepBack(edges, from, s, previous, v);
      path := TreeTrail(edges, from, s, previous, previous[v]);
      FollowsSnoc(previous, from, v, path);
      path := path + [v];
    }
  }

  lemma FollowsSnoc(previous: map<LaneKey, LaneKey>, from: LaneKey, v: LaneKey, path: seq<LaneKey>)
    requires v in previous && Follows(previous, from, previous[v], path)
    ensures Follows(previous, from, v, path + [v])
  {
    var r := path + [v];
    forall i | 0 < i < |r|
      ensures r[i] in previous && previous[r[i]] == r[i - 1]
    {
      if i < |path| {
        assert r[i] == path[i] && r[i - 1] == path[i - 1];
      }
    }
  }

  lemma WalkReaches(edges: set<RoutingGraphEdge>, from: LaneKey, to: LaneKey, d: real)
    requires Least(edges, from, to, d)
    ensures Reachable(edges, from, to)
  {
  }

  lemma TargetExact(edges: set<RoutingGraphEdge>, vertices: set<LaneKey>, from: LaneKey, s: Search, to: LaneKey)
    requires NonNegative(edges) && Invariant(edges, vertices, from, s, from, {}) && Nearest(vertices, s, to)
    ensures if s.weights[to].Finite? then Least(edges, from, to, s.weights[to].value) else !Reachable(edges, from, to)
  {
    hide Labelled, Ordered, Relaxed, Tree, Tight, Least, Reachable, NonNegative;
    PopExact(edges, vertices, from, s, to, from);
  }
}
