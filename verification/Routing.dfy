/** RoutingGraph.cpp: the edge set with its two indexes, and the search over it. */
module Routing {
  import opened RouteSearch
  import opened SearchRuns

  // ---------- the class ----------

  /** An index holds, per lane, the far ends of its edges. */
  ghost predicate Successors(edges: set<RoutingGraphEdge>, index: map<LaneKey, set<WeightedLaneKey>>)
  {
    && (forall e :: e in edges ==> e.from in index && WeightedLaneKey(e.to, e.weight) in index[e.from])
    && (forall k :: k in index ==> index[k] != {})
    && (forall k, w :: k in index && w in index[k] ==> RoutingGraphEdge(k, w.lane, w.weight) in edges)
  }

  ghost predicate Predecessors(edges: set<RoutingGraphEdge>, index: map<LaneKey, set<WeightedLaneKey>>)
  {
    && (forall e :: e in edges ==> e.to in index && WeightedLaneKey(e.from, e.weight) in index[e.to])
    && (forall k :: k in index ==> index[k] != {})
    && (forall k, w :: k in index && w in index[k] ==> RoutingGraphEdge(w.lane, k, w.weight) in edges)
  }

  function Insert(index: map<LaneKey, set<WeightedLaneKey>>, k: LaneKey, w: WeightedLaneKey): map<LaneKey, set<WeightedLaneKey>>
  {
    index[k := (if k in index then index[k] else {}) + {w}]
  }

  lemma InsertSuccessor(edges: set<RoutingGraphEdge>, index: map<LaneKey, set<WeightedLaneKey>>, e: RoutingGraphEdge)
    requires Successors(edges, index)
    ensures Successors(edges + {e}, Insert(index, e.from, WeightedLaneKey(e.to, e.weight)))
  {
  }

  lemma InsertPredecessor(edges: set<RoutingGraphEdge>, index: map<LaneKey, set<WeightedLaneKey>>, e: RoutingGraphEdge)
    requires Predecessors(edges, index)
    ensures Predecessors(edges + {e}, Insert(index, e.to, WeightedLaneKey(e.from, e.weight)))
  {
  }

  /** The open lanes, each once. */
  ghost predicate Open(nodes: seq<LaneKey>, vertices: set<LaneKey>, rank: map<LaneKey, nat>)
  {
    Distinct(nodes) && (forall v :: v in nodes <==> v in vertices && v !in rank)
  }

  /** pop_heap and pop_back: some lane with the least label leaves the heap.  Which one of
      several is left open, as is the order of the rest. */
  method PopHeap(nodes: seq<LaneKey>, weights: map<LaneKey, Label>) returns (smallest: LaneKey, rest: seq<LaneKey>)
    requires |nodes| > 0 && (forall v :: v in nodes ==> v in weights) && Distinct(nodes)
    ensures smallest in nodes && |rest| == |nodes| - 1 && Distinct(rest)
    ensures forall v :: v in rest <==> v in nodes && v != smallest
    ensures forall v :: v in nodes ==> weights[smallest].Leq(weights[v])
  {
    var least, k := 0, 1;
    while k < |nodes|
      invariant 0 <= least < k <= |nodes|
      invariant forall j :: 0 <= j < k ==> weights[nodes[least]].Leq(weights[nodes[j]])
    {
      if !weights[nodes[least]].Leq(weights[nodes[k]]) {
        least := k;
      }
      k := k + 1;
    }
    smallest := nodes[least];
    rest := nodes[..least] + nodes[least + 1..];
    Without(nodes, least, rest);
  }

  lemma Without(nodes: seq<LaneKey>, k: nat, rest: seq<LaneKey>)
    requires k < |nodes| && Distinct(nodes) && rest == nodes[..k] + nodes[k + 1..]
    ensures Distinct(rest) && (forall v :: v in rest <==> v in nodes && v != nodes[k])
  {
    forall i, j | 0 <= i < j < |rest|
      ensures rest[i] != rest[j]
    {
      var a, b := if i < k then i else i + 1, if j < k then j else j + 1;
      assert rest[i] == nodes[a] && rest[j] == nodes[b];
    }
    forall v | v in nodes && v != nodes[k]
      ensures v in rest
    {
      var i :| 0 <= i < |nodes| && nodes[i] == v;
      assert rest[if i < k then i else i - 1] == v;
    }
    forall v | v in rest
      ensures v in nodes && v != nodes[k]
    {
      var i :| 0 <= i < |rest| && rest[i] == v;
      assert nodes[if i < k then i else i + 1] == v;
    }
  }

  /** Lines 79 to 83: the lanes from `to` back to the first without a predecessor, which
      is left out. */
  method WalkBack(previous: map<LaneKey, LaneKey>, to: LaneKey, ghost edges: set<RoutingGraphEdge>, ghost from: LaneKey, ghost s: Search)
    returns (path: seq<LaneKey>)
    requires Tree(edges, from, s, previous) && to in s.weights
    requires forall u :: u in s.rank ==> u in s.weights && s.weights[u].Finite?
    ensures if s.weights[to].Finite? then Trail(previous, to, path + [from]) else path == []
  {
    hide Tree, Trail;
    path := [];
    var smallest := to;
    TrailOne(previous, to);
    TreeRoot(edges, from, s, previous, to);
    while smallest in previous
      invariant Trail(previous, to, path + [smallest])
      invariant smallest !in previous && s.weights[to].Finite? ==> smallest == from
      invariant s.weights[to].Max? ==> path == [] && smallest !in previous
      decreases Height(s.rank, smallest)
    {
      StepBack(edges, from, s, previous, smallest);
      TrailSnoc(previous, to, path + [smallest]);
      path := path + [smallest];
      smallest := previous[smallest];
    }
  }

  lemma TrailOne(previous: map<LaneKey, LaneKey>, to: LaneKey)
    ensures Trail(previous, to, [] + [to])
  {
  }

  /** Lines 92 to 103: the edges out of the lane popped last. */
  method Expand(smallest: LaneKey, ends: set<WeightedLaneKey>, weights0: map<LaneKey, Label>, previous0: map<LaneKey, LaneKey>,
                ghost edges: set<RoutingGraphEdge>, ghost vertices: set<LaneKey>, ghost from: LaneKey, ghost s0: Search)
    returns (weights: map<LaneKey, Label>, previous: map<LaneKey, LaneKey>, ghost s: Search, ghost order: seq<WeightedLaneKey>)
    requires NonNegative(edges) && Invariant(edges, vertices, from, s0, smallest, ends) && smallest in s0.rank
    requires s0.weights == weights0 && s0.previous == previous0
    requires forall w :: w in ends ==> RoutingGraphEdge(smallest, w.lane, w.weight) in edges && w.lane in vertices
    requires forall u :: u in s0.rank ==> u in s0.weights && s0.weights[u].Leq(s0.weights[smallest])
    ensures Invariant(edges, vertices, from, s, from, {}) && s.weights == weights && s.previous == previous && s.rank == s0.rank
    ensures forall u :: u in s0.rank ==> u in s0.weights && u in weights && weights[u] == s0.weights[u]
    ensures ListsOnce(order, ends) && s == RelaxAll(s0, smallest, order)
  {
    hide Labelled, Ordered, Relaxed, Tree, Tight, RelaxAll;
    weights, previous, s, order := weights0, previous0, s0, [];
    var rest := ends;
    NoneLooked(s0, smallest);
    while rest != {}
      invariant rest <= ends && ListsOnce(order, ends - rest) && s == RelaxAll(s0, smallest, order)
      invariant Invariant(edges, vertices, from, s, smallest, rest) && s.weights == weights && s.previous == previous && s.rank == s0.rank
      invariant forall u :: u in s0.rank ==> u in s0.weights && u in weights && weights[u] == s0.weights[u]
    {
      var successor :| successor in rest;
      LabelsAt(edges, vertices, from, s, smallest, rest, smallest);
      RelaxKeeps(edges, vertices, from, s, smallest, rest, successor);
      var alt := weights[smallest].value + successor.weight;
      RelaxAllSnoc(s0, smallest, order, successor);
      s, order := Relax(s, smallest, successor), order + [successor];
      if !weights[successor.lane].Leq(Finite(alt)) {
        weights := weights[successor.lane := Finite(alt)];
        previous := if successor.lane in previous then previous else previous[successor.lane := smallest];
      }
      rest := rest - {successor};
    }
    AnyLane(edges, vertices, from, s, smallest);
    assert ends - rest == ends;
  }

  lemma NoneLooked(s: Search, x: LaneKey)
    ensures RelaxAll(s, x, []) == s
  {
  }

  /** The lanes popped, in order, with the labels they had. */
  ghost predicate Popped(edges: set<RoutingGraphEdge>, vertices: set<LaneKey>, from: LaneKey, pops: seq<(LaneKey, Label)>)
  {
    && (forall i :: 0 <= i < |pops| ==> pops[i].0 in vertices)
    && (forall i, j :: 0 <= i < j < |pops| ==> pops[i].0 != pops[j].0 && pops[i].1.Leq(pops[j].1))
    && (forall i :: 0 <= i < |pops| && pops[i].1.Finite? ==> Least(edges, from, pops[i].0, pops[i].1.value))
    && (forall i :: 0 <= i < |pops| && pops[i].1.Max? ==> !Reachable(edges, from, pops[i].0))
  }

  /** The lanes popped before are the ones expanded. */
  ghost predicate PopsExpanded(pops: seq<(LaneKey, Label)>, s: Search)
  {
    && (forall i :: 0 <= i < |pops| ==> pops[i].0 in s.rank && pops[i].0 in s.weights && pops[i].1 == s.weights[pops[i].0])
  }

  lemma PopNext(edges: set<RoutingGraphEdge>, vertices: set<LaneKey>, from: LaneKey, s: Search, pops: seq<(LaneKey, Label)>, x: LaneKey)
    requires NonNegative(edges) && Invariant(edges, vertices, from, s, from, {}) && Popped(edges, vertices, from, pops) && PopsExpanded(pops, s)
    requires x in vertices && x !in s.rank
    requires forall u :: u in vertices && u !in s.rank ==> s.weights[x].Leq(s.weights[u])
    ensures Popped(edges, vertices, from, pops + [(x, s.weights[x])])
  {
    hide Labelled, Relaxed, Tree, Tight, Least, Reachable, NonNegative;
    PopExact(edges, vertices, from, s, x, from);
    hide Invariant;
    forall i | 0 <= i < |pops|
      ensures pops[i].0 != x && pops[i].1.Leq(s.weights[x])
    {
      PopsNearer(edges, vertices, from, s, pops[i].0, x);
    }
    PopsSnoc(edges, vertices, from, pops, (x, s.weights[x]));
  }

  lemma PopsNearer(edges: set<RoutingGraphEdge>, vertices: set<LaneKey>, from: LaneKey, s: Search, u: LaneKey, x: LaneKey)
    requires Invariant(edges, vertices, from, s, from, {}) && u in s.rank && x in vertices && x !in s.rank
    ensures u in s.weights && x in s.weights && s.weights[u].Leq(s.weights[x])
  {
  }

  lemma PopsSnoc(edges: set<RoutingGraphEdge>, vertices: set<LaneKey>, from: LaneKey, pops: seq<(LaneKey, Label)>, p: (LaneKey, Label))
    requires Popped(edges, vertices, from, pops) && p.0 in vertices
    requires forall i :: 0 <= i < |pops| ==> pops[i].0 != p.0 && pops[i].1.Leq(p.1)
    requires if p.1.Finite? then Least(edges, from, p.0, p.1.value) else !Reachable(edges, from, p.0)
    ensures Popped(edges, vertices, from, pops + [p])
  {
    hide Least, Reachable;
    var r := pops + [p];
    assert forall i :: 0 <= i < |pops| ==> r[i] == pops[i];
  }

  lemma FoundReachable(edges: set<RoutingGraphEdge>, vertices: set<LaneKey>, from: LaneKey, s: Search, to: LaneKey, trail: seq<LaneKey>)
    requires Arrived(edges, vertices, from, s, to) && Trail(s.previous, to, trail) && trail[|trail| - 1] == from
    ensures Reachable(edges, from, to) && PathFound(edges, from, to, Reversed(trail))
    ensures Follows(s.previous, from, to, Reversed(trail))
  {
    hide Trail, Reversed, Invariant;
    ArrivedLeast(edges, vertices, from, s, to, to);
    ArrivedNoLoop(edges, vertices, from, s, to);
    TrailFollows(s.previous, from, to, trail);
    FollowsNearest(edges, vertices, from, s, to, Reversed(trail));
  }

  lemma ArrivedNoLoop(edges: set<RoutingGraphEdge>, vertices: set<LaneKey>, from: LaneKey, s: Search, to: LaneKey)
    requires Arrived(edges, vertices, from, s, to)
    ensures from !in s.previous
  {
  }

  /** The lanes of a set of ends, in some order. */
  method LanesOf(all: set<WeightedLaneKey>) returns (lanes: seq<LaneKey>, ghost ends: seq<WeightedLaneKey>)
    ensures ListsOnce(ends, all) && |lanes| == |ends| && forall i :: 0 <= i < |lanes| ==> lanes[i] == ends[i].lane
  {
    lanes, ends := [], [];
    var rest := all;
    while rest != {}
      invariant rest <= all && ListsOnce(ends, all - rest)
      invariant |lanes| == |ends| && forall i :: 0 <= i < |lanes| ==> lanes[i] == ends[i].lane
    {
      var w :| w in rest;
      lanes, ends, rest := lanes + [w.lane], ends + [w], rest - {w};
    }
    assert all - rest == all;
  }

  /** The edges determine the index. */
  lemma SuccessorEnds(edges: set<RoutingGraphEdge>, index: map<LaneKey, set<WeightedLaneKey>>, k: LaneKey)
    requires Successors(edges, index)
    ensures (if k in index then index[k] else {}) == set e | e in edges && e.from == k :: WeightedLaneKey(e.to, e.weight)
  {
    var ends := set e | e in edges && e.from == k :: WeightedLaneKey(e.to, e.weight);
    if k in index {
      forall w | w in index[k]
        ensures w in ends
      {
        assert RoutingGraphEdge(k, w.lane, w.weight) in edges;
      }
    }
  }

  lemma PredecessorEnds(edges: set<RoutingGraphEdge>, index: map<LaneKey, set<WeightedLaneKey>>, k: LaneKey)
    requires Predecessors(edges, index)
    ensures (if k in index then index[k] else {}) == set e | e in edges && e.to == k :: WeightedLaneKey(e.from, e.weight)
  {
    var ends := set e | e in edges && e.to == k :: WeightedLaneKey(e.from, e.weight);
    if k in index {
      forall w | w in index[k]
        ensures w in ends
      {
        assert RoutingGraphEdge(w.lane, k, w.weight) in edges;
      }
    }
  }

  lemma ListedSuccessors(edges: set<RoutingGraphEdge>, k: LaneKey, lanes: seq<LaneKey>, ends: seq<WeightedLaneKey>)
    requires ListsOnce(ends, set e | e in edges && e.from == k :: WeightedLaneKey(e.to, e.weight))
    requires |lanes| == |ends| && forall i :: 0 <= i < |lanes| ==> lanes[i] == ends[i].lane
    ensures forall v :: v in lanes <==> HasEdge(edges, k, v)
  {
    forall v | HasEdge(edges, k, v)
      ensures v in lanes
    {
      var e :| e in edges && e.from == k && e.to == v;
      assert WeightedLaneKey(e.to, e.weight) in ends;
      var i :| 0 <= i < |ends| && ends[i] == WeightedLaneKey(e.to, e.weight);
      assert lanes[i] == v;
    }
    forall v | v in lanes
      ensures HasEdge(edges, k, v)
    {
      var i :| 0 <= i < |lanes| && lanes[i] == v;
      assert ends[i] in ends;
    }
  }

  lemma ListedPredecessors(edges: set<RoutingGraphEdge>, k: LaneKey, lanes: seq<LaneKey>, ends: seq<WeightedLaneKey>)
    requires ListsOnce(ends, set e | e in edges && e.to == k :: WeightedLaneKey(e.from, e.weight))
    requires |lanes| == |ends| && forall i :: 0 <= i < |lanes| ==> lanes[i] == ends[i].lane
    ensures forall v :: v in lanes <==> HasEdge(edges, v, k)
  {
    forall v | HasEdge(edges, v, k)
      ensures v in lanes
    {
      var e :| e in edges && e.from == v && e.to == k;
      assert WeightedLaneKey(e.from, e.weight) in ends;
      var i :| 0 <= i < |ends| && ends[i] == WeightedLaneKey(e.from, e.weight);
      assert lanes[i] == v;
    }
    forall v | v in lanes
      ensures HasEdge(edges, v, k)
    {
      var i :| 0 <= i < |lanes| && lanes[i] == v;
      assert ends[i] in ends;
    }
  }

  class RoutingGraph {
    var edges: set<RoutingGraphEdge>
    var laneKeyToSuccessors: map<LaneKey, set<WeightedLaneKey>>
    var laneKeyToPredecessors: map<LaneKey, set<WeightedLaneKey>>

    /** Both indexes list exactly the stored edges. */
    ghost predicate Valid()
      reads this
    {
      Successors(edges, laneKeyToSuccessors) && Predecessors(edges, laneKeyToPredecessors)
    }

    constructor ()
      ensures Valid() && edges == {}
    {
      edges, laneKeyToSuccessors, laneKeyToPredecessors := {}, map[], map[];
    }

    /** add_edge */
    method AddEdge(edge: RoutingGraphEdge)
      requires Valid()
      modifies this
      ensures Valid() && edges == old(edges) + {edge}
    {
      InsertSuccessor(edges, laneKeyToSuccessors, edge);
      InsertPredecessor(edges, laneKeyToPredecessors, edge);
      edges := edges + {edge};
      laneKeyToSuccessors := Insert(laneKeyToSuccessors, edge.from, WeightedLaneKey(edge.to, edge.weight));
      laneKeyToPredecessors := Insert(laneKeyToPredecessors, edge.to, WeightedLaneKey(edge.from, edge.weight));
    }

    /** get_lane_successors: one entry per edge out of the lane, in no particular order. */
    method GetLaneSuccessors(laneKey: LaneKey) returns (lanes: seq<LaneKey>, ghost ends: seq<WeightedLaneKey>)
      requires Valid()
      ensures forall v :: v in lanes <==> HasEdge(edges, laneKey, v)
      ensures ListsOnce(ends, set e | e in edges && e.from == laneKey :: WeightedLaneKey(e.to, e.weight))
      ensures |lanes| == |ends| && forall i :: 0 <= i < |lanes| ==> lanes[i] == ends[i].lane
    {
      lanes, ends := LanesOf(if laneKey in laneKeyToSuccessors then laneKeyToSuccessors[laneKey] else {});
      SuccessorEnds(edges, laneKeyToSuccessors, laneKey);
      ListedSuccessors(edges, laneKey, lanes, ends);
    }

    /** get_lane_predecessors */
    method GetLanePredecessors(laneKey: LaneKey) returns (lanes: seq<LaneKey>, ghost ends: seq<WeightedLaneKey>)
      requires Valid()
      ensures forall v :: v in lanes <==> HasEdge(edges, v, laneKey)
      ensures ListsOnce(ends, set e | e in edges && e.to == laneKey :: WeightedLaneKey(e.from, e.weight))
      ensures |lanes| == |ends| && forall i :: 0 <= i < |lanes| ==> lanes[i] == ends[i].lane
    {
      lanes, ends := LanesOf(if laneKey in laneKeyToPredecessors then laneKeyToPredecessors[laneKey] else {});
      PredecessorEnds(edges, laneKeyToPredecessors, laneKey);
      ListedPredecessors(edges, laneKey, lanes, ends);
    }

    /** The first loop of shortest_path. */
    method CollectVertices() returns (vertices: set<LaneKey>)
      requires Valid()
      ensures vertices == Vertices(edges)
    {
      vertices := {};
      var rest := laneKeyToSuccessors.Keys;
      while rest != {}
        invariant rest <= laneKeyToSuccessors.Keys
        invariant vertices <= Vertices(edges)
        invariant forall e :: e in edges && e.from !in rest ==> e.from in vertices && e.to in vertices
      {
        var k :| k in rest;
        var ends := laneKeyToSuccessors[k];
        IndexedEnds(edges, laneKeyToSuccessors, k);
        vertices := vertices + {k} + (set w | w in ends :: w.lane);
        rest := rest - {k};
      }
    }

    /** shortest_path.  The labels of the lanes popped never decrease and are the least
        walk weights.  The list returned ends in `to` exactly when a walk leads there, and
        then takes each lane from a nearest predecessor; it is [from] otherwise.  `s` is
        the state at the end: had line 100 overwritten, the list would be a shortest path. */
    method ShortestPath(from: LaneKey, to: LaneKey) returns (path: seq<LaneKey>, ghost pops: seq<(LaneKey, Label)>, ghost s: Search)
      requires Valid() && NonNegative(edges)
      ensures from !in laneKeyToSuccessors || to !in Vertices(edges) ==> path == []
      ensures from in laneKeyToSuccessors && to in Vertices(edges) ==> PathFound(edges, from, to, path)
      ensures Popped(edges, Vertices(edges), from, pops)
      ensures path != [] && Reachable(edges, from, to) ==>
                Returned(edges, from, to, path) && Follows(s.previous, from, to, path) && Repaired(edges, from, to, s.latest)
    {
      hide Returned, Run, After, Successors, Predecessors, PathFound, Popped, Reachable, Repaired, Ended, Vertices, NonNegative, Follows;
      path, pops, s := [], [], Search(map[], map[], map[], map[]);
      NothingPopped(edges, Vertices(edges), from);
      if from !in laneKeyToSuccessors {
        return;
      }
      var vertices := CollectVertices();
      if to !in vertices {
        return;
      }
      IndexedEnds(edges, laneKeyToSuccessors, from);
      ghost var choices;
      path, pops, s, choices := Dijkstra(from, to, vertices);
      FoundFollows(edges, vertices, from, to, path, s);
      FoundReturned(edges, from, to, path, choices);
      path := Reversed(path);
    }

    /** Lines 56 to 105. */
    method Dijkstra(from: LaneKey, to: LaneKey, vertices: set<LaneKey>)
      returns (path: seq<LaneKey>, ghost pops: seq<(LaneKey, Label)>, ghost s: Search, ghost choices: seq<Choice>)
      requires Valid() && NonNegative(edges) && vertices == Vertices(edges) && from in vertices && to in vertices
      ensures Popped(edges, vertices, from, pops) && Ended(edges, vertices, from, to, s, path)
      ensures Run(edges, vertices, from, choices) && s == After(vertices, from, choices)
    {
      hide Invariant, NonNegative, Vertices, Open, Ended, Popped, PopsExpanded, Distinct, PathFound, Reachable, Arrived, Trail, Nearest, Tree,
           Successors, Predecessors, Run, After, RelaxAll, EndsFrom;
      path := [];
      var previous := map[];
      var nodes, weights := Queue(from, vertices);
      s, pops := Search(weights, previous, map[], map[]), [];
      LoopStarts(edges, vertices, from, to, weights, nodes);
      choices := [];
      RunStarts(edges, vertices, from, s);
      while nodes != []
        invariant Looping(edges, vertices, from, to, s, nodes, pops) && s.weights == weights && s.previous == previous
        invariant path == [] && nodes != [] && Run(edges, vertices, from, choices) && s == After(vertices, from, choices)
        decreases |nodes|
      {
        LoopingNodes(edges, vertices, from, to, s, nodes, pops);
        var smallest, others := PopHeap(nodes, weights);
        LoopingPop(edges, vertices, from, to, s, nodes, pops, smallest, others);
        pops := pops + [(smallest, weights[smallest])];
        nodes := others;
        if smallest == to {
          LoopingTree(edges, vertices, from, to, s);
          path := WalkBack(previous, to, edges, from, s);
          EndAtTarget(edges, vertices, from, to, s, path);
          break;
        }
        if weights[smallest].Max? {
          EndAtMax(edges, vertices, from, to, s, smallest);
          break;
        }
        var ends := if smallest in laneKeyToSuccessors then laneKeyToSuccessors[smallest] else {};
        EndsOf(edges, laneKeyToSuccessors, smallest, ends);
        ghost var s1 := s.(rank := s.rank[smallest := |s.rank|]);
        ReadyToExpand(edges, vertices, from, s, smallest, ends, s1);
        ghost var was := s;
        ghost var order;
        weights, previous, s, order := Expand(smallest, ends, weights, previous, edges, vertices, from, s1);
        TurnTaken(edges, vertices, from, choices, was, smallest, ends, order, s);
        choices := choices + [Choice(smallest, order)];
        LoopGoesOn(edges, vertices, from, to, was, s, nodes, pops, smallest);
      }
      path := path + [from];
    }
  }

  lemma RunStarts(edges: set<RoutingGraphEdge>, vertices: set<LaneKey>, from: LaneKey, s: Search)
    requires s.previous == map[] && s.latest == map[] && s.rank == map[] && s.weights.Keys == vertices
    requires forall v :: v in vertices ==> s.weights[v] == if v == from then Finite(0.0) else Max
    ensures Run(edges, vertices, from, []) && s == After(vertices, from, [])
  {
  }

  lemma TurnTaken(edges: set<RoutingGraphEdge>, vertices: set<LaneKey>, from: LaneKey, choices: seq<Choice>, s: Search, x: LaneKey,
                  ends: set<WeightedLaneKey>, order: seq<WeightedLaneKey>, t: Search)
    requires Run(edges, vertices, from, choices) && s == After(vertices, from, choices) && Nearest(vertices, s, x) && s.weights[x].Finite?
    requires forall w :: w in ends ==> RoutingGraphEdge(x, w.lane, w.weight) in edges
    requires forall e :: e in edges && e.from == x ==> WeightedLaneKey(e.to, e.weight) in ends
    requires ListsOnce(order, ends) && t == RelaxAll(s.(rank := s.rank[x := |s.rank|]), x, order)
    ensures Run(edges, vertices, from, choices + [Choice(x, order)]) && t == After(vertices, from, choices + [Choice(x, order)])
  {
    assert ends == EndsFrom(edges, x) by {
      forall w | w in ends
        ensures w in EndsFrom(edges, x)
      {
        var e := RoutingGraphEdge(x, w.lane, w.weight);
        assert e in edges && e.from == x && WeightedLaneKey(e.to, e.weight) == w;
      }
    }
    hide Run, After, EndsFrom;
    RunSnoc(edges, vertices, from, choices, Choice(x, order));
    AfterSnoc(vertices, from, choices, Choice(x, order));
  }

  /** The state at the head of the loop. */
  ghost predicate Looping(edges: set<RoutingGraphEdge>, vertices: set<LaneKey>, from: LaneKey, to: LaneKey, s: Search,
                          nodes: seq<LaneKey>, pops: seq<(LaneKey, Label)>)
  {
    && NonNegative(edges) && Invariant(edges, vertices, from, s, from, {}) && Open(nodes, vertices, s.rank)
    && Popped(edges, vertices, from, pops) && PopsExpanded(pops, s) && to in vertices && to !in s.rank
  }

  /** How the loop ends, `path` being the lanes backwards. */
  ghost predicate Ended(edges: set<RoutingGraphEdge>, vertices: set<LaneKey>, from: LaneKey, to: LaneKey, s: Search, path: seq<LaneKey>)
  {
    if Reachable(edges, from, to)
    then Arrived(edges, vertices, from, s, to) && Trail(s.previous, to, path) && path[|path| - 1] == from
    else path == [from]
  }

  lemma LoopStarts(edges: set<RoutingGraphEdge>, vertices: set<LaneKey>, from: LaneKey, to: LaneKey, weights: map<LaneKey, Label>, nodes: seq<LaneKey>)
    requires NonNegative(edges) && from in vertices && to in vertices && weights.Keys == vertices && Open(nodes, vertices, map[])
    requires forall v :: v in vertices ==> weights[v] == if v == from then Finite(0.0) else Max
    ensures Looping(edges, vertices, from, to, Search(weights, map[], map[], map[]), nodes, []) && nodes != []
  {
    Start(edges, vertices, from, weights, from);
    hide Invariant, NonNegative;
  }

  lemma LoopingNodes(edges: set<RoutingGraphEdge>, vertices: set<LaneKey>, from: LaneKey, to: LaneKey, s: Search,
                     nodes: seq<LaneKey>, pops: seq<(LaneKey, Label)>)
    requires Looping(edges, vertices, from, to, s, nodes, pops)
    ensures Distinct(nodes) && forall v :: v in nodes ==> v in s.weights
  {
  }

  /** One lane popped. */
  lemma LoopingPop(edges: set<RoutingGraphEdge>, vertices: set<LaneKey>, from: LaneKey, to: LaneKey, s: Search,
                   nodes: seq<LaneKey>, pops: seq<(LaneKey, Label)>, x: LaneKey, others: seq<LaneKey>)
    requires Looping(edges, vertices, from, to, s, nodes, pops) && x in nodes && x in s.weights && Distinct(others)
    requires forall v :: v in nodes ==> v in s.weights && s.weights[x].Leq(s.weights[v])
    requires forall v :: v in others <==> v in nodes && v != x
    ensures Nearest(vertices, s, x)
    ensures Popped(edges, vertices, from, pops + [(x, s.weights[x])])
    ensures Open(others, vertices, s.rank[x := |s.rank|])
    ensures NonNegative(edges) && Invariant(edges, vertices, from, s, from, {}) && to in vertices && to !in s.rank && PopsExpanded(pops, s)
    ensures to != x ==> to in others
  {
    hide Relaxed, Tree, Tight, Popped, PopsExpanded, NonNegative;
    PopNext(edges, vertices, from, s, pops, x);
  }

  lemma LoopingTree(edges: set<RoutingGraphEdge>, vertices: set<LaneKey>, from: LaneKey, to: LaneKey, s: Search)
    requires Invariant(edges, vertices, from, s, from, {}) && to in vertices
    ensures Tree(edges, from, s, s.previous) && to in s.weights
    ensures forall u :: u in s.rank ==> u in s.weights && s.weights[u].Finite?
  {
  }

  lemma EndAtTarget(edges: set<RoutingGraphEdge>, vertices: set<LaneKey>, from: LaneKey, to: LaneKey, s: Search, path: seq<LaneKey>)
    requires NonNegative(edges) && Invariant(edges, vertices, from, s, from, {}) && Nearest(vertices, s, to)
    requires if s.weights[to].Finite? then Trail(s.previous, to, path + [from]) else path == []
    ensures Ended(edges, vertices, from, to, s, path + [from])
  {
    hide Invariant, Trail, Reachable, Least, NonNegative;
    TargetExact(edges, vertices, from, s, to);
    if s.weights[to].Finite? {
      WalkReaches(edges, from, to, s.weights[to].value);
    }
  }

  lemma EndAtMax(edges: set<RoutingGraphEdge>, vertices: set<LaneKey>, from: LaneKey, to: LaneKey, s: Search, x: LaneKey)
    requires NonNegative(edges) && Invariant(edges, vertices, from, s, from, {}) && Nearest(vertices, s, x)
    requires s.weights[x].Max? && to in vertices && to !in s.rank
    ensures Ended(edges, vertices, from, to, s, [] + [from])
  {
    PopExact(edges, vertices, from, s, x, from);
  }

  lemma EndsOf(edges: set<RoutingGraphEdge>, index: map<LaneKey, set<WeightedLaneKey>>, k: LaneKey, ends: set<WeightedLaneKey>)
    requires Successors(edges, index) && ends == if k in index then index[k] else {}
    ensures forall w :: w in ends ==> w.lane in Vertices(edges) && RoutingGraphEdge(k, w.lane, w.weight) in edges
    ensures forall e :: e in edges && e.from == k ==> WeightedLaneKey(e.to, e.weight) in ends
  {
    if k in index {
      IndexedEnds(edges, index, k);
    }
  }

  lemma LoopGoesOn(edges: set<RoutingGraphEdge>, vertices: set<LaneKey>, from: LaneKey, to: LaneKey, was: Search, s: Search,
                   nodes: seq<LaneKey>, pops: seq<(LaneKey, Label)>, x: LaneKey)
    requires NonNegative(edges) && Invariant(edges, vertices, from, s, from, {}) && s.rank == was.rank[x := |was.rank|]
    requires x in was.weights && x in s.weights && x != to && to in vertices && to !in was.rank && to in nodes
    requires forall u :: u in s.rank ==> u in was.weights && u in s.weights && s.weights[u] == was.weights[u]
    requires Open(nodes, vertices, s.rank) && |pops| > 0 && Popped(edges, vertices, from, pops)
    requires pops[|pops| - 1] == (x, was.weights[x]) && PopsExpanded(pops[..|pops| - 1], was)
    ensures Looping(edges, vertices, from, to, s, nodes, pops) && nodes != []
  {
    hide Invariant, NonNegative, Popped;
    var front := pops[..|pops| - 1];
    forall i | 0 <= i < |pops|
      ensures pops[i].0 in s.rank && pops[i].0 in s.weights && pops[i].1 == s.weights[pops[i].0]
    {
      if i < |pops| - 1 {
        assert pops[i] == front[i];
      }
    }
  }

  lemma FoundFollows(edges: set<RoutingGraphEdge>, vertices: set<LaneKey>, from: LaneKey, to: LaneKey, path: seq<LaneKey>, s: Search)
    requires Ended(edges, vertices, from, to, s, path)
    ensures PathFound(edges, from, to, Reversed(path))
    ensures Reachable(edges, from, to) ==> Follows(s.previous, from, to, Reversed(path)) && Repaired(edges, from, to, s.latest)
  {
    hide Trail, Invariant, PathFound, Follows, Shortest;
    if Reachable(edges, from, to) {
      FoundReachable(edges, vertices, from, s, to, path);
      ArrivedTree(edges, vertices, from, s, to);
      var p := TreeTrail(edges, from, s, s.latest, to);
      forall p | Follows(s.latest, from, to, p)
        ensures Shortest(edges, from, to, p)
      {
        LatestShortest(edges, vertices, from, s, to, p);
      }
    } else {
      assert Reversed(path) == [from];
      OnlySource(edges, from, to);
    }
  }

  lemma OnlySource(edges: set<RoutingGraphEdge>, from: LaneKey, to: LaneKey)
    requires !Reachable(edges, from, to)
    ensures PathFound(edges, from, to, [from])
  {
  }

  lemma ArrivedTree(edges: set<RoutingGraphEdge>, vertices: set<LaneKey>, from: LaneKey, s: Search, to: LaneKey)
    requires Arrived(edges, vertices, from, s, to)
    ensures Tree(edges, from, s, s.latest) && to in s.weights && s.weights[to].Finite?
    ensures forall u :: u in s.rank ==> u in s.weights && s.weights[u].Finite?
  {
  }

  lemma FoundReturned(edges: set<RoutingGraphEdge>, from: LaneKey, to: LaneKey, path: seq<LaneKey>, choices: seq<Choice>)
    requires Run(edges, Vertices(edges), from, choices) && Ended(edges, Vertices(edges), from, to, After(Vertices(edges), from, choices), path)
    ensures Reachable(edges, from, to) ==> Returned(edges, from, to, Reversed(path))
  {
    hide Trail, Invariant, PathFound, Follows, Run, After, Vertices, Reachable;
    if Reachable(edges, from, to) {
      FoundReachable(edges, Vertices(edges), from, After(Vertices(edges), from, choices), to, path);
      assert RunReturns(edges, from, to, choices, Reversed(path));
    }
  }

  /** Predecessors that spell a shortest path, and nothing else. */
  ghost predicate Repaired(edges: set<RoutingGraphEdge>, from: LaneKey, to: LaneKey, latest: map<LaneKey, LaneKey>)
  {
    && (exists p :: Follows(latest, from, to, p))
    && (forall p :: Follows(latest, from, to, p) ==> Shortest(edges, from, to, p))
  }

  lemma NothingPopped(edges: set<RoutingGraphEdge>, vertices: set<LaneKey>, from: LaneKey)
    ensures Popped(edges, vertices, from, [])
  {
  }

  lemma IndexedEnds(edges: set<RoutingGraphEdge>, index: map<LaneKey, set<WeightedLaneKey>>, k: LaneKey)
    requires Successors(edges, index) && k in index
    ensures k in Vertices(edges)
    ensures forall w :: w in index[k] ==> w.lane in Vertices(edges) && RoutingGraphEdge(k, w.lane, w.weight) in edges
    ensures forall e :: e in edges && e.from == k ==> WeightedLaneKey(e.to, e.weight) in index[k]
  {
    forall w | w in index[k]
      ensures k in Vertices(edges) && w.lane in Vertices(edges)
    {
      var e := RoutingGraphEdge(k, w.lane, w.weight);
      assert e in edges && e.from == k && e.to == w.lane;
    }
    var w :| w in index[k];
  }

  /** Lines 62 to 70. */
  method Queue(from: LaneKey, vertices: set<LaneKey>) returns (nodes: seq<LaneKey>, weights: map<LaneKey, Label>)
    ensures Open(nodes, vertices, map[]) && weights.Keys == vertices
    ensures forall v :: v in vertices ==> weights[v] == if v == from then Finite(0.0) else Max
  {
    nodes, weights := [], map[];
    var rest := vertices;
    while rest != {}
      invariant rest <= vertices && weights.Keys == vertices - rest && Distinct(nodes)
      invariant forall v :: v in nodes <==> v in vertices && v !in rest
      invariant forall v :: v in weights ==> weights[v] == if v == from then Finite(0.0) else Max
    {
      var laneKey :| laneKey in rest;
      weights := weights[laneKey := if laneKey == from then Finite(0.0) else Max];
      nodes := nodes + [laneKey];
      rest := rest - {laneKey};
    }
  }
}
