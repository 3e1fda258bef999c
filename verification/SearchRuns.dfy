/** All runs of shortest_path: the order in which the heap hands out lanes of equal label,
    and the order of the hash sets, are left open.  When is every list that a run can return
    a shortest path? */
module SearchRuns {
  import opened RouteSearch

  // ---------- runs ----------

  /** One turn of the loop: the lane popped, and its successors in the order looked at. */
  datatype Choice = Choice(lane: LaneKey, ends: seq<WeightedLaneKey>)

  ghost function EndsFrom(edges: set<RoutingGraphEdge>, x: LaneKey): set<WeightedLaneKey>
  {
    set e | e in edges && e.from == x :: WeightedLaneKey(e.to, e.weight)
  }

  ghost function Initial(vertices: set<LaneKey>, from: LaneKey): Search
  {
    Search(map v | v in vertices :: if v == from then Finite(0.0) else Max, map[], map[], map[])
  }

  function Ranked(s: Search, x: LaneKey): Search
  {
    s.(rank := s.rank[x := |s.rank|])
  }

  function RelaxIn(s: Search, x: LaneKey, w: WeightedLaneKey): Search
  {
    if x in s.weights && s.weights[x].Finite? && w.lane in s.weights then Relax(s, x, w) else s
  }

  /** The inner loop. */
  function RelaxAll(s: Search, x: LaneKey, ends: seq<WeightedLaneKey>): Search
  {
    if |ends| == 0 then s else RelaxIn(RelaxAll(s, x, ends[..|ends| - 1]), x, ends[|ends| - 1])
  }

  ghost function After(vertices: set<LaneKey>, from: LaneKey, choices: seq<Choice>): Search
  {
    if |choices| == 0 then Initial(vertices, from)
    else
      var c := choices[|choices| - 1];
      RelaxAll(Ranked(After(vertices, from, choices[..|choices| - 1]), c.lane), c.lane, c.ends)
  }

  /** A lane that the loop can expand next. */
  ghost predicate CanExpand(edges: set<RoutingGraphEdge>, vertices: set<LaneKey>, s: Search, c: Choice)
  {
    Nearest(vertices, s, c.lane) && s.weights[c.lane].Finite? && ListsOnce(c.ends, EndsFrom(edges, c.lane))
  }

  /** The turns of a run that has not come to its end. */
  ghost predicate Run(edges: set<RoutingGraphEdge>, vertices: set<LaneKey>, from: LaneKey, choices: seq<Choice>)
    decreases |choices|
  {
    |choices| == 0 ||
    (Run(edges, vertices, from, choices[..|choices| - 1])
     && CanExpand(edges, vertices, After(vertices, from, choices[..|choices| - 1]), choices[|choices| - 1]))
  }

  /** A run whose next lane is `to`, and the list it returns. */
  ghost predicate RunReturns(edges: set<RoutingGraphEdge>, from: LaneKey, to: LaneKey, choices: seq<Choice>, path: seq<LaneKey>)
  {
    var vertices := Vertices(edges);
    && Run(edges, vertices, from, choices) && Arrived(edges, vertices, from, After(vertices, from, choices), to)
    && Follows(After(vertices, from, choices).previous, from, to, path)
  }

  /** Some run returns `path`. */
  ghost predicate Returned(edges: set<RoutingGraphEdge>, from: LaneKey, to: LaneKey, path: seq<LaneKey>)
  {
    exists choices :: RunReturns(edges, from, to, choices, path)
  }

  // ---------- what one turn does ----------

  /** Expanding x only adds predecessors, all of them x. */
  ghost predicate Grows(s: Search, x: LaneKey, t: Search)
  {
    && t.rank == s.rank
    && (forall v :: v in s.previous ==> v in t.previous && t.previous[v] == s.previous[v])
    && (forall v :: v in t.previous && v !in s.previous ==> t.previous[v] == x)
  }

  lemma {:induction false} RelaxAllGrows(s: Search, x: LaneKey, ends: seq<WeightedLaneKey>)
    ensures Grows(s, x, RelaxAll(s, x, ends))
  {
    if |ends| > 0 {
      RelaxAllGrows(s, x, ends[..|ends| - 1]);
    }
  }

  lemma RelaxAllSnoc(s: Search, x: LaneKey, ends: seq<WeightedLaneKey>, w: WeightedLaneKey)
    ensures RelaxAll(s, x, ends + [w]) == RelaxIn(RelaxAll(s, x, ends), x, w)
  {
    assert (ends + [w])[..|ends + [w]| - 1] == ends;
  }

  /** The ends from the k-th on. */
  ghost function Later(ends: seq<WeightedLaneKey>, k: nat): set<WeightedLaneKey>
    requires k <= |ends|
  {
    set w | w in ends[k..]
  }

  lemma LaterStep(ends: seq<WeightedLaneKey>, k: nat)
    requires k < |ends| && forall i, j :: 0 <= i < j < |ends| ==> ends[i] != ends[j]
    ensures ends[k] in Later(ends, k) && Later(ends, k + 1) == Later(ends, k) - {ends[k]}
  {
    assert ends[k..] == [ends[k]] + ends[k + 1..];
  }

  /** The inner loop keeps the invariant. */
  lemma {:induction false} RelaxAllKeeps(edges: set<RoutingGraphEdge>, vertices: set<LaneKey>, from: LaneKey, s: Search, x: LaneKey,
                                         ends: seq<WeightedLaneKey>, k: nat)
    requires NonNegative(edges) && Invariant(edges, vertices, from, s, x, Later(ends, 0)) && x in s.rank && k <= |ends|
    requires forall i, j :: 0 <= i < j < |ends| ==> ends[i] != ends[j]
    requires forall w :: w in ends ==> RoutingGraphEdge(x, w.lane, w.weight) in edges && w.lane in vertices
    requires forall u :: u in s.rank ==> u in s.weights && s.weights[u].Leq(s.weights[x])
    ensures var t := RelaxAll(s, x, ends[..k]);
            && Invariant(edges, vertices, from, t, x, Later(ends, k)) && t.rank == s.rank
            && forall u :: u in s.rank ==> u in s.weights && u in t.weights && t.weights[u] == s.weights[u]
    decreases k
  {
    hide Invariant, NonNegative, Later;
    if k > 0 {
      RelaxAllKeeps(edges, vertices, from, s, x, ends, k - 1);
      LaterStep(ends, k - 1);
      var t := RelaxAll(s, x, ends[..k - 1]);
      assert ends[..k] == ends[..k - 1] + [ends[k - 1]];
      RelaxAllSnoc(s, x, ends[..k - 1], ends[k - 1]);
      hide RelaxAll;
      LabelsAt(edges, vertices, from, t, x, Later(ends, k - 1), x);
      RelaxKeeps(edges, vertices, from, t, x, Later(ends, k - 1), ends[k - 1]);
    } else {
      assert ends[..0] == [];
    }
  }

  lemma EndsKnown(edges: set<RoutingGraphEdge>, x: LaneKey, ends: seq<WeightedLaneKey>)
    requires ListsOnce(ends, EndsFrom(edges, x))
    ensures forall w :: w in ends ==> RoutingGraphEdge(x, w.lane, w.weight) in edges && w.lane in Vertices(edges)
    ensures forall e :: e in edges && e.from == x ==> WeightedLaneKey(e.to, e.weight) in Later(ends, 0)
    ensures Later(ends, |ends|) == {}
  {
    assert ends[0..] == ends && ends[|ends|..] == [];
    forall w | w in ends
      ensures RoutingGraphEdge(x, w.lane, w.weight) in edges && w.lane in Vertices(edges)
    {
      assert w in EndsFrom(edges, x);
      var e :| e in edges && e.from == x && w == WeightedLaneKey(e.to, e.weight);
    }
  }

  /** One turn of the loop. */
  lemma Turn(edges: set<RoutingGraphEdge>, from: LaneKey, s: Search, c: Choice, t: Search)
    requires NonNegative(edges) && Invariant(edges, Vertices(edges), from, s, from, {}) && CanExpand(edges, Vertices(edges), s, c)
    requires t == RelaxAll(Ranked(s, c.lane), c.lane, c.ends)
    ensures Invariant(edges, Vertices(edges), from, t, from, {}) && t.rank == s.rank[c.lane := |s.rank|] && Grows(Ranked(s, c.lane), c.lane, t)
    ensures forall u :: u in t.rank ==> u in s.weights && u in t.weights && t.weights[u] == s.weights[u]
  {
    hide Invariant, NonNegative, Vertices, EndsFrom, Later;
    EndsKnown(edges, c.lane, c.ends);
    ReadyToExpand(edges, Vertices(edges), from, s, c.lane, Later(c.ends, 0), Ranked(s, c.lane));
    RelaxAllKeeps(edges, Vertices(edges), from, Ranked(s, c.lane), c.lane, c.ends, |c.ends|);
    assert c.ends[..|c.ends|] == c.ends;
    RelaxAllGrows(Ranked(s, c.lane), c.lane, c.ends);
    AnyLane(edges, Vertices(edges), from, t, c.lane);
  }

  lemma AfterSnoc(vertices: set<LaneKey>, from: LaneKey, choices: seq<Choice>, c: Choice)
    ensures After(vertices, from, choices + [c]) == RelaxAll(Ranked(After(vertices, from, choices), c.lane), c.lane, c.ends)
  {
    assert (choices + [c])[..|choices + [c]| - 1] == choices;
  }

  lemma RunSnoc(edges: set<RoutingGraphEdge>, vertices: set<LaneKey>, from: LaneKey, choices: seq<Choice>, c: Choice)
    requires Run(edges, vertices, from, choices) && CanExpand(edges, vertices, After(vertices, from, choices), c)
    ensures Run(edges, vertices, from, choices + [c])
  {
    assert (choices + [c])[..|choices + [c]| - 1] == choices;
  }

  /** A predecessor is the first expanded of the lanes with an edge. */
  ghost predicate FirstFound(edges: set<RoutingGraphEdge>, s: Search)
  {
    forall v, w :: v in s.previous && w in s.rank && HasEdge(edges, w, v) ==> s.previous[v] in s.rank && s.rank[s.previous[v]] <= s.rank[w]
  }

  /** In every state of every run. */
  lemma {:induction false} RunKeeps(edges: set<RoutingGraphEdge>, from: LaneKey, choices: seq<Choice>)
    requires NonNegative(edges) && from in Vertices(edges) && Run(edges, Vertices(edges), from, choices)
    ensures Invariant(edges, Vertices(edges), from, After(Vertices(edges), from, choices), from, {})
    ensures FirstFound(edges, After(Vertices(edges), from, choices))
    decreases |choices|
  {
    hide NonNegative, Vertices, Invariant, FirstFound;
    var vertices := Vertices(edges);
    if |choices| == 0 {
      Start(edges, vertices, from, Initial(vertices, from).weights, from);
      NothingFound(edges, Initial(vertices, from));
    } else {
      var front, c := choices[..|choices| - 1], choices[|choices| - 1];
      RunKeeps(edges, from, front);
      Turn(edges, from, After(vertices, from, front), c, After(vertices, from, choices));
      TreeRanks(edges, vertices, from, After(vertices, from, choices), from);
      TurnFinds(edges, from, After(vertices, from, front), c, After(vertices, from, choices));
    }
  }

  lemma NothingFound(edges: set<RoutingGraphEdge>, s: Search)
    requires s.previous == map[]
    ensures FirstFound(edges, s)
  {
  }

  lemma HadPredecessor(edges: set<RoutingGraphEdge>, vertices: set<LaneKey>, from: LaneKey, s: Search, w: LaneKey, v: LaneKey)
    requires Invariant(edges, vertices, from, s, from, {}) && w in s.rank && HasEdge(edges, w, v)
    ensures v == from || v in s.previous
  {
    hide Labelled, Ordered, Tree, Tight;
    var e :| e in edges && e.from == w && e.to == v;
    assert Seen(s, from, e);
  }

  lemma TreeRanks(edges: set<RoutingGraphEdge>, vertices: set<LaneKey>, from: LaneKey, s: Search, v: LaneKey)
    requires Invariant(edges, vertices, from, s, from, {})
    ensures from !in s.previous
    ensures v in s.previous ==> s.previous[v] in s.rank && HasEdge(edges, s.previous[v], v)
    ensures v in s.rank ==> s.rank[v] < |s.rank| && (v == from || v in s.previous)
    ensures v in s.previous ==> v in vertices && v in s.weights && s.weights[v].Finite?
  {
    hide Labelled, Relaxed, Tight, HasEdge;
  }

  lemma TurnFinds(edges: set<RoutingGraphEdge>, from: LaneKey, s: Search, c: Choice, t: Search)
    requires Invariant(edges, Vertices(edges), from, s, from, {}) && FirstFound(edges, s) && c.lane !in s.rank
    requires t.rank == s.rank[c.lane := |s.rank|] && Grows(Ranked(s, c.lane), c.lane, t) && from !in t.previous
    ensures FirstFound(edges, t)
  {
    hide Invariant, HasEdge, Vertices;
    forall v, w | v in t.previous && w in t.rank && HasEdge(edges, w, v)
      ensures t.previous[v] in t.rank && t.rank[t.previous[v]] <= t.rank[w]
    {
      TreeRanks(edges, Vertices(edges), from, s, v);
      if v in s.previous {
        TreeRanks(edges, Vertices(edges), from, s, s.previous[v]);
      } else if w in s.rank {
        HadPredecessor(edges, Vertices(edges), from, s, w, v);
      }
    }
  }

  // ---------- which predecessor can be the first ----------

  /** No lane that `es` leaves has an edge to v. */
  ghost predicate Avoids(edges: set<RoutingGraphEdge>, es: seq<RoutingGraphEdge>, v: LaneKey)
  {
    forall e :: e in es ==> !HasEdge(edges, e.from, v)
  }

  /** A least walk to u that leaves no other lane with an edge to v. */
  ghost predicate ReachedFirst(edges: set<RoutingGraphEdge>, from: LaneKey, u: LaneKey, v: LaneKey, es: seq<RoutingGraphEdge>)
  {
    IsWalk(edges, from, u, es) && Least(edges, from, u, Total(es)) && Avoids(edges, es, v)
  }

  /** No lane with an edge to v is nearer than u, and u can be reached before the others.
      This speaks of the graph and its distances only. */
  ghost predicate CanBeFirst(edges: set<RoutingGraphEdge>, from: LaneKey, u: LaneKey, v: LaneKey)
  {
    NearestPredecessor(edges, from, u, v) && exists es :: ReachedFirst(edges, from, u, v, es)
  }

  /** Every lane that can be the first is also a best one. */
  ghost predicate FirstIsBest(edges: set<RoutingGraphEdge>, from: LaneKey)
  {
    forall u, v :: CanBeFirst(edges, from, u, v) ==> TightEdge(edges, from, u, v)
  }

  /** A lane's label is reached along lanes expanded before it. */
  lemma {:induction false} EarlierWalk(edges: set<RoutingGraphEdge>, vertices: set<LaneKey>, from: LaneKey, s: Search, u: LaneKey)
    returns (es: seq<RoutingGraphEdge>)
    requires Invariant(edges, vertices, from, s, from, {}) && u in s.rank
    ensures IsWalk(edges, from, u, es) && u in s.weights && s.weights[u] == Finite(Total(es))
    ensures forall e :: e in es ==> e.from in s.rank && s.rank[e.from] < s.rank[u]
    decreases s.rank[u]
  {
    hide Invariant, IsWalk, Total;
    if u == from {
      es := [];
      SourceLabel(edges, vertices, from, s);
    } else {
      var p, e := LabelFrom(edges, vertices, from, s, u);
      var front := EarlierWalk(edges, vertices, from, s, p);
      SnocWalk(edges, from, front, e);
      es := front + [e];
    }
  }

  /** The edge that accounts for a label. */
  lemma LabelFrom(edges: set<RoutingGraphEdge>, vertices: set<LaneKey>, from: LaneKey, s: Search, u: LaneKey)
    returns (p: LaneKey, e: RoutingGraphEdge)
    requires Invariant(edges, vertices, from, s, from, {}) && u in s.rank && u != from
    ensures p in s.rank && s.rank[p] < s.rank[u] && u in s.weights && s.weights[u].Finite? && p in s.weights && s.weights[p].Finite?
    ensures e in edges && e.from == p && e.to == u && e.weight == s.weights[u].value - s.weights[p].value
  {
    hide Labelled, Relaxed;
    p := s.latest[u];
    StepBack(edges, from, s, s.latest, u);
    assert TightHop(edges, s, p, u);
    e := RoutingGraphEdge(p, u, s.weights[u].value - s.weights[p].value);
  }

  lemma SourceLabel(edges: set<RoutingGraphEdge>, vertices: set<LaneKey>, from: LaneKey, s: Search)
    requires Invariant(edges, vertices, from, s, from, {})
    ensures from in s.weights && s.weights[from] == Finite(0.0) && s.weights.Keys == vertices
    ensures IsWalk(edges, from, from, []) && Total([]) == 0.0
  {
  }

  /** In a run, a predecessor is one that can be the first. */
  lemma PreviousCanBeFirst(edges: set<RoutingGraphEdge>, from: LaneKey, to: LaneKey, choices: seq<Choice>, path: seq<LaneKey>, v: LaneKey)
    requires RunReturns(edges, from, to, choices, path) && v in After(Vertices(edges), from, choices).previous
    ensures CanBeFirst(edges, from, After(Vertices(edges), from, choices).previous[v], v)
  {
    hide Invariant, NonNegative, Vertices, NearestPredecessor, After, Run, Follows, FirstFound;
    var vertices := Vertices(edges);
    var s := After(vertices, from, choices);
    ArrivedSource(edges, vertices, from, s, to);
    RunKeeps(edges, from, choices);
    FirstIsNearest(edges, vertices, from, s, to, v);
    TreeRanks(edges, vertices, from, s, v);
    var u := s.previous[v];
    var es := EarlierWalk(edges, vertices, from, s, u);
    ArrivedLeast(edges, vertices, from, s, to, u);
    EarlierAvoids(edges, s, u, v, es);
    assert ReachedFirst(edges, from, u, v, es);
  }

  lemma ArrivedSource(edges: set<RoutingGraphEdge>, vertices: set<LaneKey>, from: LaneKey, s: Search, to: LaneKey)
    requires Arrived(edges, vertices, from, s, to)
    ensures from in vertices && NonNegative(edges) && Invariant(edges, vertices, from, s, from, {})
  {
  }

  lemma EarlierAvoids(edges: set<RoutingGraphEdge>, s: Search, u: LaneKey, v: LaneKey, es: seq<RoutingGraphEdge>)
    requires FirstFound(edges, s) && v in s.previous && s.previous[v] == u && u in s.rank
    requires forall e :: e in es ==> e.from in s.rank && s.rank[e.from] < s.rank[u]
    ensures Avoids(edges, es, v)
  {
    hide HasEdge;
  }

  /** If the lanes that can be first are best, every list returned is a shortest path. */
  lemma ReturnedShortest(edges: set<RoutingGraphEdge>, from: LaneKey, to: LaneKey, path: seq<LaneKey>)
    requires FirstIsBest(edges, from) && Returned(edges, from, to, path)
    ensures Shortest(edges, from, to, path)
  {
    hide Vertices, Run, After, Follows, CanBeFirst, TightEdge, Shortest, Invariant, NonNegative, Arrived;
    var choices :| RunReturns(edges, from, to, choices, path);
    var vertices := Vertices(edges);
    var s := After(vertices, from, choices);
    ReturnedLeast(edges, vertices, from, s, to, path);
    FollowsHops(s.previous, from, to, path);
    forall i | 0 < i < |path|
      ensures TightEdge(edges, from, path[i - 1], path[i])
    {
      PreviousCanBeFirst(edges, from, to, choices, path, path[i]);
    }
    ShortestIffTight(edges, from, path, to);
  }

  lemma FollowsHops(previous: map<LaneKey, LaneKey>, from: LaneKey, to: LaneKey, path: seq<LaneKey>)
    requires Follows(previous, from, to, path)
    ensures |path| >= 1 && path[0] == from && path[|path| - 1] == to
    ensures forall i :: 0 < i < |path| ==> path[i] in previous && previous[path[i]] == path[i - 1]
  {
  }

  lemma ReturnedLeast(edges: set<RoutingGraphEdge>, vertices: set<LaneKey>, from: LaneKey, s: Search, to: LaneKey, path: seq<LaneKey>)
    requires Arrived(edges, vertices, from, s, to) && Follows(s.previous, from, to, path)
    ensures NonNegative(edges) && AllLeast(edges, from, path)
  {
    FollowsNearest(edges, vertices, from, s, to, path);
    NearestLeast(edges, from, to, path);
  }

  /** A list returned is a path of nearest predecessors without repeated lanes. */
  lemma ReturnedIsFound(edges: set<RoutingGraphEdge>, from: LaneKey, to: LaneKey, path: seq<LaneKey>)
    requires Returned(edges, from, to, path)
    ensures Reachable(edges, from, to) && PathFound(edges, from, to, path)
  {
    hide Vertices, Run, After, Follows, Invariant, NonNegative, NearestPath, Least, Reachable;
    var choices :| RunReturns(edges, from, to, choices, path);
    var s := After(Vertices(edges), from, choices);
    FollowsNearest(edges, Vertices(edges), from, s, to, path);
    ArrivedLeast(edges, Vertices(edges), from, s, to, to);
    WalkReaches(edges, from, to, s.weights[to].value);
  }

  // ---------- every lane that can be first is first in some run ----------

  lemma {:induction false} ListAll(all: set<WeightedLaneKey>) returns (list: seq<WeightedLaneKey>)
    ensures ListsOnce(list, all)
  {
    if all == {} {
      list := [];
    } else {
      var w :| w in all;
      var front := ListAll(all - {w});
      list := front + [w];
    }
  }

  lemma {:induction false} LeastLabel(lanes: set<LaneKey>, weights: map<LaneKey, Label>) returns (x: LaneKey)
    requires lanes != {} && lanes <= weights.Keys
    ensures x in lanes && forall u :: u in lanes ==> weights[x].Leq(weights[u])
  {
    var y :| y in lanes;
    if lanes == {y} {
      x := y;
    } else {
      var z := LeastLabel(lanes - {y}, weights);
      x := if weights[y].Leq(weights[z]) then y else z;
      forall u | u in lanes
        ensures weights[x].Leq(weights[u])
      {
        if u != y {
          assert u in lanes - {y};
        }
      }
    }
  }

  /** While a lane is open, a nearest one is there. */
  lemma SomeNearest(edges: set<RoutingGraphEdge>, vertices: set<LaneKey>, from: LaneKey, s: Search, v: LaneKey) returns (x: LaneKey)
    requires Invariant(edges, vertices, from, s, from, {}) && v in vertices && v !in s.rank
    ensures Nearest(vertices, s, x) && s.weights[x].Leq(s.weights[v])
  {
    hide Relaxed, Tree, Tight, Labelled;
    var open := set u | u in vertices && u !in s.rank;
    assert v in open;
    x := LeastLabel(open, s.weights);
    assert x in open;
    forall u | u in vertices && u !in s.rank
      ensures s.weights[x].Leq(s.weights[u])
    {
      assert u in open;
    }
  }

  /** One more turn, with lane x. */
  lemma Extend(edges: set<RoutingGraphEdge>, from: LaneKey, choices: seq<Choice>, x: LaneKey) returns (longer: seq<Choice>)
    requires NonNegative(edges) && from in Vertices(edges) && Run(edges, Vertices(edges), from, choices)
    requires Nearest(Vertices(edges), After(Vertices(edges), from, choices), x)
    requires After(Vertices(edges), from, choices).weights[x].Finite?
    ensures Run(edges, Vertices(edges), from, longer)
    ensures var s, t := After(Vertices(edges), from, choices), After(Vertices(edges), from, longer);
            && t.rank == s.rank[x := |s.rank|] && Grows(Ranked(s, x), x, t) && |longer| == |choices| + 1
  {
    hide Vertices, NonNegative, EndsFrom, Invariant, FirstFound;
    var ends := ListAll(EndsFrom(edges, x));
    var c := Choice(x, ends);
    longer := choices + [c];
    RunSnoc(edges, Vertices(edges), from, choices, c);
    AfterSnoc(Vertices(edges), from, choices, c);
    RunKeeps(edges, from, choices);
    hide Run, After, Nearest;
    assert CanExpand(edges, Vertices(edges), After(Vertices(edges), from, choices), c);
    Turn(edges, from, After(Vertices(edges), from, choices), c, After(Vertices(edges), from, longer));
  }

  /** How many lanes are still open. */
  ghost function OpenCount(edges: set<RoutingGraphEdge>, from: LaneKey, choices: seq<Choice>): int
  {
    |Vertices(edges)| - |After(Vertices(edges), from, choices).rank|
  }

  lemma OpenFewer(edges: set<RoutingGraphEdge>, from: LaneKey, choices: seq<Choice>, x: LaneKey, longer: seq<Choice>)
    requires NonNegative(edges) && from in Vertices(edges) && Run(edges, Vertices(edges), from, longer)
    requires x !in After(Vertices(edges), from, choices).rank
    requires var s, t := After(Vertices(edges), from, choices), After(Vertices(edges), from, longer); t.rank == s.rank[x := |s.rank|]
    ensures 0 <= OpenCount(edges, from, longer) < OpenCount(edges, from, choices)
  {
    RunKeeps(edges, from, longer);
    hide Run, After, Vertices, NonNegative, Relaxed, Tree, Tight, Labelled;
    var s, t := After(Vertices(edges), from, choices), After(Vertices(edges), from, longer);
    PopRanks(s.rank, x, t.rank);
    KeysFit(t.rank, Vertices(edges));
  }

  lemma KeysFit(rank: map<LaneKey, nat>, vertices: set<LaneKey>)
    requires rank.Keys <= vertices
    ensures |rank| <= |vertices|
  {
    Fits(rank.Keys, vertices);
  }

  lemma {:induction false} Fits(a: set<LaneKey>, b: set<LaneKey>)
    requires a <= b
    ensures |a| <= |b|
  {
    assert a + (b - a) == b;
  }

  /** A run can go on until `v` is next, if v has a label. */
  lemma {:induction false} GoOn(edges: set<RoutingGraphEdge>, from: LaneKey, choices: seq<Choice>, v: LaneKey) returns (longer: seq<Choice>)
    requires NonNegative(edges) && from in Vertices(edges) && Run(edges, Vertices(edges), from, choices)
    requires v !in After(Vertices(edges), from, choices).rank && v in After(Vertices(edges), from, choices).previous
    ensures Run(edges, Vertices(edges), from, longer) && Arrived(edges, Vertices(edges), from, After(Vertices(edges), from, longer), v)
    ensures v in After(Vertices(edges), from, longer).previous
    ensures After(Vertices(edges), from, longer).previous[v] == After(Vertices(edges), from, choices).previous[v]
    decreases OpenCount(edges, from, choices)
  {
    hide Run, After, Vertices, NonNegative, Invariant, FirstFound, OpenCount;
    var vertices, s := Vertices(edges), After(Vertices(edges), from, choices);
    RunKeeps(edges, from, choices);
    TreeRanks(edges, vertices, from, s, v);
    var x := SomeNearest(edges, vertices, from, s, v);
    if s.weights[v].Leq(s.weights[x]) {
      longer := choices;
      Equally(vertices, s, x, v);
    } else {
      var next := Extend(edges, from, choices, x);
      OpenFewer(edges, from, choices, x, next);
      longer := GoOn(edges, from, next, v);
    }
  }

  lemma Equally(vertices: set<LaneKey>, s: Search, x: LaneKey, v: LaneKey)
    requires Nearest(vertices, s, x) && v in vertices && v !in s.rank && s.weights[v].Leq(s.weights[x])
    ensures Nearest(vertices, s, v)
  {
  }

  /** On a walk to an open lane some lane is open whose label is no more than the walk. */
  lemma {:induction false} OpenOnWalk(edges: set<RoutingGraphEdge>, from: LaneKey, s: Search, es: seq<RoutingGraphEdge>, u: LaneKey)
    returns (y: LaneKey)
    requires NonNegative(edges) && Invariant(edges, Vertices(edges), from, s, from, {}) && IsWalk(edges, from, u, es) && u !in s.rank
    ensures y in Vertices(edges) && y !in s.rank && y in s.weights && s.weights[y].Leq(Finite(Total(es)))
    ensures y == u || exists e :: e in es && e.from == y
    decreases |es|
  {
    hide Invariant, Vertices;
    SourceLabel(edges, Vertices(edges), from, s);
    if |es| == 0 {
      y := u;
    } else {
      var e, front := es[|es| - 1], es[..|es| - 1];
      assert e in es && e.weight >= 0.0;
      if e.from !in s.rank {
        y := OpenOnWalk(edges, from, s, front, e.from);
      } else {
        y := u;
        EndKnown(edges, e);
        RankedLabel(edges, from, s, front, e.from, u);
        LabelAfter(edges, Vertices(edges), from, s, e);
      }
    }
  }

  lemma EndKnown(edges: set<RoutingGraphEdge>, e: RoutingGraphEdge)
    requires e in edges
    ensures e.to in Vertices(edges)
  {
  }

  lemma RankedLabel(edges: set<RoutingGraphEdge>, from: LaneKey, s: Search, es: seq<RoutingGraphEdge>, w: LaneKey, u: LaneKey)
    requires NonNegative(edges) && Invariant(edges, Vertices(edges), from, s, from, {}) && IsWalk(edges, from, w, es)
    requires w in s.rank && u in Vertices(edges) && u !in s.rank
    ensures w in s.weights && s.weights[w].Finite? && s.weights[w].value <= Total(es)
  {
    hide Vertices, IsWalk, Total;
    var x := SomeNearest(edges, Vertices(edges), from, s, u);
    WalkBound(edges, Vertices(edges), from, s, from, s.weights[x], es, w);
  }

  lemma LabelAfter(edges: set<RoutingGraphEdge>, vertices: set<LaneKey>, from: LaneKey, s: Search, e: RoutingGraphEdge)
    requires Invariant(edges, vertices, from, s, from, {}) && e in edges && e.from in s.rank
    ensures e.from in s.weights && s.weights[e.from].Finite? && e.to in s.weights
    ensures s.weights[e.to].Leq(Finite(s.weights[e.from].value + e.weight))
  {
    hide Labelled, Ordered, Tree, Tight;
    assert Seen(s, from, e);
  }

  /** No lane with an edge to v has been expanded. */
  ghost predicate NoneYet(edges: set<RoutingGraphEdge>, s: Search, v: LaneKey)
  {
    forall w :: w in s.rank ==> !HasEdge(edges, w, v)
  }

  /** A run can come to u before any other lane with an edge to v. */
  lemma {:induction false} Approach(edges: set<RoutingGraphEdge>, from: LaneKey, u: LaneKey, v: LaneKey, es: seq<RoutingGraphEdge>, choices: seq<Choice>)
    returns (longer: seq<Choice>)
    requires NonNegative(edges) && from in Vertices(edges) && Run(edges, Vertices(edges), from, choices)
    requires NearestPredecessor(edges, from, u, v) && ReachedFirst(edges, from, u, v, es)
    requires u !in After(Vertices(edges), from, choices).rank && NoneYet(edges, After(Vertices(edges), from, choices), v)
    ensures Run(edges, Vertices(edges), from, longer) && NoneYet(edges, After(Vertices(edges), from, longer), v)
    ensures Nearest(Vertices(edges), After(Vertices(edges), from, longer), u) && After(Vertices(edges), from, longer).weights[u].Finite?
    decreases OpenCount(edges, from, choices)
  {
    hide Run, After, Vertices, NonNegative, Invariant, FirstFound, OpenCount, NearestPredecessor, HasEdge, IsWalk, Total, Least;
    var s := After(Vertices(edges), from, choices);
    RunKeeps(edges, from, choices);
    var y := OpenOnWalk(edges, from, s, es, u);
    var x := SomeNearest(edges, Vertices(edges), from, s, y);
    if s.weights[y].Leq(s.weights[x]) {
      Equally(Vertices(edges), s, x, y);
      if y == u {
        longer := choices;
      } else {
        var next := Extend(edges, from, choices, y);
        OpenFewer(edges, from, choices, y, next);
        longer := Approach(edges, from, u, v, es, next);
      }
    } else {
      NearerIsOther(edges, from, s, u, v, es, x);
      var next := Extend(edges, from, choices, x);
      OpenFewer(edges, from, choices, x, next);
      longer := Approach(edges, from, u, v, es, next);
    }
  }

  lemma NearerIsOther(edges: set<RoutingGraphEdge>, from: LaneKey, s: Search, u: LaneKey, v: LaneKey, es: seq<RoutingGraphEdge>, x: LaneKey)
    requires NonNegative(edges) && Invariant(edges, Vertices(edges), from, s, from, {})
    requires NearestPredecessor(edges, from, u, v) && ReachedFirst(edges, from, u, v, es)
    requires Nearest(Vertices(edges), s, x) && s.weights[x].Finite? && s.weights[x].value < Total(es)
    ensures x != u && !HasEdge(edges, x, v)
  {
    hide Vertices, Invariant, IsWalk, Total, Least, HasLeast;
    TargetExact(edges, Vertices(edges), from, s, x);
    if x == u {
      LeastUnique(edges, from, u, s.weights[x].value, Total(es));
    }
    NearerHasNoEdge(edges, from, u, v, x, Total(es), s.weights[x].value);
  }

  lemma NearerHasNoEdge(edges: set<RoutingGraphEdge>, from: LaneKey, u: LaneKey, v: LaneKey, w: LaneKey, c: real, d: real)
    requires NearestPredecessor(edges, from, u, v) && Least(edges, from, u, c) && Least(edges, from, w, d) && d < c
    ensures !HasEdge(edges, w, v)
  {
    hide Least, HasLeast;
  }

  lemma NotItself(edges: set<RoutingGraphEdge>, from: LaneKey, u: LaneKey, v: LaneKey, es: seq<RoutingGraphEdge>)
    requires ReachedFirst(edges, from, u, v, es) && v != from
    ensures u != v
  {
    if u == v {
      var e := es[|es| - 1];
      assert e in es && HasEdge(edges, e.from, v);
    }
  }

  /** Expanding u makes it the predecessor of v. */
  lemma BecomesPrevious(edges: set<RoutingGraphEdge>, from: LaneKey, s: Search, t: Search, u: LaneKey, v: LaneKey)
    requires Invariant(edges, Vertices(edges), from, s, from, {}) && Invariant(edges, Vertices(edges), from, t, from, {})
    requires NoneYet(edges, s, v) && HasEdge(edges, u, v) && v != from && u != v && u !in s.rank
    requires t.rank == s.rank[u := |s.rank|] && Grows(Ranked(s, u), u, t)
    ensures v in t.previous && t.previous[v] == u && v !in t.rank
  {
    hide Invariant, HasEdge, Vertices;
    TreeRanks(edges, Vertices(edges), from, s, v);
    HadPredecessor(edges, Vertices(edges), from, t, u, v);
  }

  /** Some run returns a list to v whose last hop is from u. */
  lemma FirstInSomeRun(edges: set<RoutingGraphEdge>, from: LaneKey, u: LaneKey, v: LaneKey) returns (path: seq<LaneKey>)
    requires NonNegative(edges) && from in Vertices(edges) && CanBeFirst(edges, from, u, v)
    ensures Returned(edges, from, v, path) && |path| >= 2 && path[|path| - 1] == v && path[|path| - 2] == u
  {
    hide Run, After, Vertices, NonNegative, Invariant, FirstFound, HasEdge, IsWalk, Total, Least, HasLeast, ReachedFirst, Nearest;
    var es :| ReachedFirst(edges, from, u, v, es);
    NothingRanked(edges, from, v);
    var near := Approach(edges, from, u, v, es, []);
    NearestOpen(Vertices(edges), After(Vertices(edges), from, near), u);
    var next := Extend(edges, from, near, u);
    RunKeeps(edges, from, near);
    RunKeeps(edges, from, next);
    NotItself(edges, from, u, v, es);
    BecomesPrevious(edges, from, After(Vertices(edges), from, near), After(Vertices(edges), from, next), u, v);
    var last := GoOn(edges, from, next, v);
    var s := After(Vertices(edges), from, last);
    ArrivedPrevious(edges, Vertices(edges), from, s, v);
    path := TreeTrail(edges, from, s, s.previous, v);
    hide Arrived;
    assert RunReturns(edges, from, v, last, path);
    LastHop(s.previous, from, v, path);
  }

  lemma NothingRanked(edges: set<RoutingGraphEdge>, from: LaneKey, v: LaneKey)
    ensures Run(edges, Vertices(edges), from, []) && After(Vertices(edges), from, []).rank == map[]
    ensures NoneYet(edges, After(Vertices(edges), from, []), v)
  {
  }

  lemma NearestOpen(vertices: set<LaneKey>, s: Search, x: LaneKey)
    requires Nearest(vertices, s, x)
    ensures x !in s.rank
  {
  }

  lemma ArrivedPrevious(edges: set<RoutingGraphEdge>, vertices: set<LaneKey>, from: LaneKey, s: Search, to: LaneKey)
    requires Arrived(edges, vertices, from, s, to)
    ensures Tree(edges, from, s, s.previous) && to in s.weights && s.weights[to].Finite?
    ensures forall u :: u in s.rank ==> u in s.weights && s.weights[u].Finite?
  {
  }

  lemma LastHop(previous: map<LaneKey, LaneKey>, from: LaneKey, to: LaneKey, path: seq<LaneKey>)
    requires Follows(previous, from, to, path) && to in previous
    ensures |path| >= 2 && path[|path| - 2] == previous[to]
  {
  }

  // ---------- when keeping the first predecessor is harmless ----------

  /** For non-negative weights: whatever the ties and the order of the hash sets, every list
      returned is a shortest path, if and only if every lane that can be the first
      predecessor of another is a best one. */
  lemma ShortestIffFirstIsBest(edges: set<RoutingGraphEdge>, from: LaneKey)
    requires NonNegative(edges)
    ensures (forall to, path :: Returned(edges, from, to, path) ==> Shortest(edges, from, to, path)) <==> FirstIsBest(edges, from)
  {
    hide Returned, Shortest, CanBeFirst, TightEdge, NonNegative, Vertices;
    if FirstIsBest(edges, from) {
      forall to, path | Returned(edges, from, to, path)
        ensures Shortest(edges, from, to, path)
      {
        ReturnedShortest(edges, from, to, path);
      }
    }
    if forall to, path :: Returned(edges, from, to, path) ==> Shortest(edges, from, to, path) {
      forall u, v | CanBeFirst(edges, from, u, v)
        ensures TightEdge(edges, from, u, v)
      {
        SourceKnown(edges, from, u, v);
        var path := FirstInSomeRun(edges, from, u, v);
        LastIsTight(edges, from, v, path);
      }
    }
  }

  lemma LastIsTight(edges: set<RoutingGraphEdge>, from: LaneKey, to: LaneKey, path: seq<LaneKey>)
    requires Returned(edges, from, to, path) && Shortest(edges, from, to, path) && |path| >= 2
    ensures TightEdge(edges, from, path[|path| - 2], path[|path| - 1])
  {
    hide Vertices, Run, After, Follows, TightEdge, Shortest, Invariant, NonNegative, Arrived;
    var choices :| RunReturns(edges, from, to, choices, path);
    var s := After(Vertices(edges), from, choices);
    ReturnedLeast(edges, Vertices(edges), from, s, to, path);
    FollowsHops(s.previous, from, to, path);
    ShortestIffTight(edges, from, path, to);
    assert path[(|path| - 1) - 1] == path[|path| - 2];
  }

  lemma SourceKnown(edges: set<RoutingGraphEdge>, from: LaneKey, u: LaneKey, v: LaneKey)
    requires CanBeFirst(edges, from, u, v)
    ensures from in Vertices(edges)
  {
    hide Least, HasLeast;
    var es :| ReachedFirst(edges, from, u, v, es);
    var e :| e in edges && e.from == u && e.to == v;
    WalkStarts(edges, from, u, es);
  }

  lemma {:induction false} WalkStarts(edges: set<RoutingGraphEdge>, from: LaneKey, u: LaneKey, es: seq<RoutingGraphEdge>)
    requires IsWalk(edges, from, u, es) && u in Vertices(edges)
    ensures from in Vertices(edges)
    decreases |es|
  {
    if |es| > 0 {
      var e := es[|es| - 1];
      assert e.from in Vertices(edges);
      WalkStarts(edges, from, e.from, es[..|es| - 1]);
    }
  }

  // ---------- positive weights ----------

  ghost predicate Positive(edges: set<RoutingGraphEdge>)
  {
    forall e :: e in edges ==> e.weight > 0.0
  }

  /** The lanes on a least walk are nearer than its end. */
  lemma {:induction false} NearerOnWalk(edges: set<RoutingGraphEdge>, from: LaneKey, u: LaneKey, es: seq<RoutingGraphEdge>, e: RoutingGraphEdge)
    returns (c: real)
    requires Positive(edges) && IsWalk(edges, from, u, es) && Least(edges, from, u, Total(es)) && e in es
    ensures Least(edges, from, e.from, c) && c < Total(es)
    decreases |es|
  {
    var last, front := es[|es| - 1], es[..|es| - 1];
    FrontLeast(edges, from, u, es);
    if e == last {
      c := Total(front);
    } else {
      c := NearerOnWalk(edges, from, last.from, front, e);
    }
  }

  lemma FrontLeast(edges: set<RoutingGraphEdge>, from: LaneKey, u: LaneKey, es: seq<RoutingGraphEdge>)
    requires IsWalk(edges, from, u, es) && Least(edges, from, u, Total(es)) && |es| > 0
    ensures Least(edges, from, es[|es| - 1].from, Total(es[..|es| - 1]))
  {
    var last, front := es[|es| - 1], es[..|es| - 1];
    assert HasWalk(edges, from, last.from, Total(front));
    forall fs | IsWalk(edges, from, last.from, fs)
      ensures Total(front) <= Total(fs)
    {
      SnocWalk(edges, from, fs, last);
    }
  }

  /** With positive weights every nearest predecessor can be the first. */
  lemma NearestCanBeFirst(edges: set<RoutingGraphEdge>, from: LaneKey, u: LaneKey, v: LaneKey)
    requires Positive(edges) && NearestPredecessor(edges, from, u, v)
    ensures CanBeFirst(edges, from, u, v)
  {
    hide Least;
    var d :| Least(edges, from, u, d);
    var es := LeastWalk(edges, from, u, d);
    forall e | e in es
      ensures !HasEdge(edges, e.from, v)
    {
      var c := NearerOnWalk(edges, from, u, es, e);
      NearerHasNoEdge(edges, from, u, v, e.from, d, c);
    }
    assert ReachedFirst(edges, from, u, v, es);
  }

  lemma LeastWalk(edges: set<RoutingGraphEdge>, from: LaneKey, u: LaneKey, d: real) returns (es: seq<RoutingGraphEdge>)
    requires Least(edges, from, u, d)
    ensures IsWalk(edges, from, u, es) && Total(es) == d
  {
    es :| IsWalk(edges, from, u, es) && Total(es) == d;
  }

  /** For positive weights: every list returned is a shortest path if and only if nearest
      predecessors are best ones. */
  lemma ShortestIffNearestIsBest(edges: set<RoutingGraphEdge>, from: LaneKey)
    requires Positive(edges)
    ensures (forall to, path :: Returned(edges, from, to, path) ==> Shortest(edges, from, to, path)) <==> NearestIsBest(edges, from)
  {
    hide Returned, Shortest, NearestPredecessor, TightEdge;
    ShortestIffFirstIsBest(edges, from);
    forall u, v | NearestPredecessor(edges, from, u, v)
      ensures CanBeFirst(edges, from, u, v)
    {
      NearestCanBeFirst(edges, from, u, v);
    }
  }
}
