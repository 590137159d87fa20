/** A* search from a source to a target node: the endpoint check, the search
    loop over the open set with its g_score and came_from maps, the expansion
    of one node and the rebuild of the path from came_from. */
module AStar {
  import opened Wrappers
  import opened Graphs
  import opened Frontier
  import opened SearchState

  /** NetworkX's NodeNotFound and NetworkXNoPath. */
  datatype SearchError = NodeNotFound | NoPathFound

  /** list(reversed(s)). */
  function Reversed(s: seq<Node>): (r: seq<Node>)
    ensures |r| == |s|
    ensures forall i :: 0 <= i < |s| ==> r[i] == s[|s| - 1 - i]
    decreases |s|
  {
    if s == [] then [] else [s[|s| - 1]] + Reversed(s[..|s| - 1])
  }

  /** Rebuilds the path once the target is popped: follow came_from from the
      target until a node without a predecessor, append the source, reverse.
      The walk ends because (g_score, stamp) falls along every came_from link;
      the result is a path of the graph from source to target costing no more
      than g_score[target]. */
  method Reconstruct(G: Graph, weight: string, source: Node, target: Node,
                     g: Scores, cameFrom: Predecessors, ghost stamp: map<Node, nat>)
    returns (path: seq<Node>)
    requires WellFormed(G)
    requires Rooted(source, g, cameFrom) && InGraph(G, g) && PredecessorOk(G, weight, g, cameFrom, stamp)
    requires forall n :: n in g ==> n in stamp
    requires target in g
    ensures IsPath(G, path) && path[0] == source && path[|path| - 1] == target
    ensures PathCost(G, path, weight) <= g[target]
    ensures source == target ==> path == [source]
  {
    var current := target;
    var rev: seq<Node> := [];
    ghost var walked: seq<Node> := [target];
    while current in cameFrom
      invariant current in g && current in stamp
      invariant walked == Reversed(rev + [current])
      invariant IsPath(G, walked) && walked[0] == current && walked[|walked| - 1] == target
      invariant PathCost(G, walked, weight) + g[current] <= g[target]
      invariant rev == [] ==> current == target
      invariant source == target ==> rev == []
      decreases g[current], stamp[current]
    {
      var previous := cameFrom[current];
      PrependEdge(G, weight, previous, walked);
      assert Reversed(rev + [current] + [previous]) == [previous] + Reversed(rev + [current]);
      rev := rev + [current];
      walked := [previous] + walked;
      current := previous;
    }
    assert current == source;
    rev := rev + [source];
    path := Reversed(rev);
  }

  /** Expands `current`: for every neighbour, the tentative cost through
      `current` (with the parallel-edge minimum) replaces the neighbour's
      g_score only when it has none or the new one is strictly smaller; then
      came_from is set to `current` and (tentative + h, neighbour) is pushed.
      Scores never rise, only improved neighbours change, and afterwards every
      edge out of `current` is relaxed. */
  method Expand(G: Graph, h: Node -> nat, weight: string, ghost source: Node, ghost target: Node,
                current: Node, open: multiset<Entry>, g: Scores, cameFrom: Predecessors,
                ghost stamp: map<Node, nat>, ghost clock: nat, ghost done: set<Node>)
    returns (open': multiset<Entry>, g': Scores, cameFrom': Predecessors,
             ghost stamp': map<Node, nat>, ghost clock': nat)
    requires WellFormed(G) && current in g
    requires SearchInv(G, h, weight, source, target, open, g, cameFrom, stamp, clock, done, {current})
    ensures SearchInv(G, h, weight, source, target, open', g', cameFrom', stamp', clock', done, {current})
    ensures ExpansionFrame(G, h, weight, current, open, g, cameFrom, open', g', cameFrom', {})
    ensures Relaxed(G, weight, g', current)
  {
    open', g', cameFrom', stamp', clock' := open, g, cameFrom, stamp, clock;
    var neighbors := G[current].Keys;
    ExpansionFrameStart(G, h, weight, current, open, g, cameFrom);
    while neighbors != {}
      invariant neighbors <= G[current].Keys
      invariant SearchInv(G, h, weight, source, target, open', g', cameFrom', stamp', clock', done, {current})
      invariant ExpansionFrame(G, h, weight, current, open, g, cameFrom, open', g', cameFrom', neighbors)
      decreases neighbors
    {
      NonEmptyHasMember(neighbors);
      var neighbor :| neighbor in neighbors;
      var cost := ParallelEdgeCost(G[current][neighbor], weight);
      var tentative := g'[current] + cost;
      assert tentative == g'[current] + Cost(G, current, neighbor, weight);
      if neighbor !in g' || tentative < g'[neighbor] {
        RelaxPreserves(G, h, weight, source, target, open', g', cameFrom', stamp', clock', done, current, neighbor, tentative);
        ExpansionFrameWrite(G, h, weight, current, open, g, cameFrom, open', g', cameFrom', neighbors, neighbor, tentative);
        g' := g'[neighbor := tentative];
        cameFrom' := cameFrom'[neighbor := current];
        open' := open' + multiset{(tentative + h(neighbor), neighbor)};
        stamp' := stamp'[neighbor := clock'];
        clock' := clock' + 1;
      } else {
        ExpansionFrameSkip(G, h, weight, current, open, g, cameFrom, open', g', cameFrom', neighbors, neighbor);
      }
      neighbors := neighbors - {neighbor};
    }
    FrameCompleteIsRelaxed(G, h, weight, current, open, g, cameFrom, open', g', cameFrom');
  }

  /** astar_path: A* from `source` to `target`, with edge costs read from the
      `weight` attribute and the heuristic h (its estimate for each node of the
      cost still to go). Fails with NodeNotFound exactly when an endpoint is
      not a node, with NoPathFound exactly when the target is unreachable, and
      otherwise returns a path of the graph from source to target; with an
      admissible heuristic no path from source to target costs less. */
  method AStarPath(G: Graph, h: Node -> nat, source: Node, target: Node, weight: string)
    returns (r: Result<seq<Node>, SearchError>)
    requires WellFormed(G)
    ensures r == Err(NodeNotFound) <==> source !in G || target !in G
    ensures r == Err(NoPathFound) <==> source in G && target in G && !Reachable(G, source, target)
    ensures r.Ok? ==> IsPath(G, r.value) && r.value[0] == source && r.value[|r.value| - 1] == target
    ensures r.Ok? && source == target ==> r.value == [source]
    ensures r.Ok? && Admissible(G, h, target, weight) ==>
      forall p :: IsPath(G, p) && p[0] == source && p[|p| - 1] == target ==>
        PathCost(G, r.value, weight) <= PathCost(G, p, weight)
  {
    if source !in G || target !in G {
      return Err(NodeNotFound);
    }
    var open: multiset<Entry> := multiset{(0, source)};
    var g: Scores := map[source := 0];
    var cameFrom: Predecessors := map[];
    ghost var stamp: map<Node, nat> := map[source := 0];
    ghost var clock: nat := 1;
    ghost var done: set<Node> := {};
    InitialState(G, h, weight, source, target);
    while open != multiset{}
      invariant SearchInv(G, h, weight, source, target, open, g, cameFrom, stamp, clock, done, {})
      decreases |G.Keys - g.Keys|, ScoreSet(g), |open|
    {
      var e, rest := PopMin(open);
      var current := e.1;
      PopPreserves(G, h, weight, source, target, open, g, cameFrom, stamp, clock, done, e, rest);
      if current == target {
        var path := Reconstruct(G, weight, source, target, g, cameFrom, stamp);
        assert Reachable(G, source, target) by {
          assert IsPath(G, path) && path[0] == source && path[|path| - 1] == target;
        }
        if Admissible(G, h, target, weight) {
          PoppedTargetIsShortest(G, h, weight, source, target, open, g, cameFrom, stamp, clock, done, e);
        }
        return Ok(path);
      }
      ghost var g0, open0 := g, open;
      open, g, cameFrom, stamp, clock := Expand(G, h, weight, source, target, current, rest, g, cameFrom,
                                                stamp, clock, done);
      ExpansionPreserves(G, h, weight, source, target, open, g, cameFrom, stamp, clock, done, current);
      done := done + {current};
      SearchMeasureFalls(G, g0, open0, rest, g, open);
    }
    ExhaustedMeansUnreachable(G, h, weight, source, target, g, cameFrom, stamp, clock, done);
    return Err(NoPathFound);
  }
}
