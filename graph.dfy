/** The graph as the search sees it: a NetworkX-style adjacency map whose
    entries hold the parallel edges between two nodes, the edge-cost adapter
    that reduces those parallel edges to one cost, and paths with their costs. */
module Graphs {
  import opened Wrappers

  /** Node identifiers (OSMnx uses integer ids). */
  type Node = int

  /** The attribute dictionary of one edge; costs are natural numbers. */
  type Attrs = map<string, nat>

  /** node -> neighbour -> the attribute dictionaries of the parallel edges
      from node to neighbour (ParallelEdges of what get_edge_data returns).
      A simple graph has exactly one edge per neighbour. */
  type Graph = map<Node, map<Node, seq<Attrs>>>

  /** What a NetworkX graph guarantees: every neighbour is itself a node, and a
      neighbour entry exists only when at least one edge does. */
  ghost predicate WellFormed(G: Graph) {
    forall u :: u in G ==> forall v :: v in G[u] ==> v in G && |G[u][v]| > 0
  }

  predicate Adjacent(G: Graph, u: Node, v: Node) {
    u in G && v in G[u]
  }

  /** The cost of one edge: its `weight` attribute, or 1 when it has none. */
  function AttrCost(a: Attrs, weight: string): nat {
    if weight in a then a[weight] else 1
  }

  function Min(a: nat, b: nat): nat {
    if a <= b then a else b
  }

  /** The effective cost of a bundle of parallel edges, folded left to right
      as the adapter does. */
  function MinCost(edges: seq<Attrs>, weight: string): nat
    requires |edges| > 0
    decreases |edges|
  {
    if |edges| == 1 then AttrCost(edges[0], weight)
    else Min(MinCost(edges[..|edges| - 1], weight), AttrCost(edges[|edges| - 1], weight))
  }

  /** The folded cost is the least cost of any of the parallel edges, and it
      is the cost of one of them. */
  lemma {:induction false} MinCostIsLeast(edges: seq<Attrs>, weight: string)
    requires |edges| > 0
    ensures forall i :: 0 <= i < |edges| ==> MinCost(edges, weight) <= AttrCost(edges[i], weight)
    ensures exists i :: 0 <= i < |edges| && MinCost(edges, weight) == AttrCost(edges[i], weight)
    decreases |edges|
  {
    if |edges| > 1 {
      var init := edges[..|edges| - 1];
      MinCostIsLeast(init, weight);
      assert forall i :: 0 <= i < |init| ==> init[i] == edges[i];
      var j :| 0 <= j < |init| && MinCost(init, weight) == AttrCost(init[j], weight);
      if MinCost(init, weight) <= AttrCost(edges[|edges| - 1], weight) {
        assert MinCost(edges, weight) == AttrCost(edges[j], weight);
      } else {
        assert MinCost(edges, weight) == AttrCost(edges[|edges| - 1], weight);
      }
    } else {
      assert MinCost(edges, weight) == AttrCost(edges[0], weight);
    }
  }

  /** The edge-cost adapter: the minimum over the parallel edges, starting
      from an infinite cost (None) as the source does. */
  method ParallelEdgeCost(edges: seq<Attrs>, weight: string) returns (cost: nat)
    requires |edges| > 0
    ensures cost == MinCost(edges, weight)
  {
    var best: Option<nat> := None;
    var i := 0;
    while i < |edges|
      invariant 0 <= i <= |edges|
      invariant best.None? <==> i == 0
      invariant best.Some? ==> best.value == MinCost(edges[..i], weight)
    {
      var c := AttrCost(edges[i], weight);
      best := Some(if best.None? then c else Min(best.value, c));
      assert edges[..i + 1][..i] == edges[..i];
      i := i + 1;
    }
    assert edges[..i] == edges;
    cost := best.value;
  }

  /** What G.get_edge_data(u, v) returns: the attribute dictionary of the one
      edge of a simple graph, or, in a multigraph, a dictionary from edge key
      to attribute dictionary (listed here in insertion order). */
  datatype EdgeData = Single(attrs: Attrs) | Keyed(entries: seq<(int, Attrs)>)

  predicate ValidEdgeData(d: EdgeData) {
    d.Keyed? ==> |d.entries| > 0
  }

  /** The attribute dictionaries of the parallel edges, in order. */
  function ParallelEdges(d: EdgeData): (edges: seq<Attrs>)
    ensures d.Single? ==> edges == [d.attrs]
    ensures d.Keyed? ==> |edges| == |d.entries| && forall i :: 0 <= i < |edges| ==> edges[i] == d.entries[i].1
  {
    match d
    case Single(a) => [a]
    case Keyed(es) => seq(|es|, i requires 0 <= i < |es| => es[i].1)
  }

  predicate HasKeyZero(d: EdgeData) {
    d.Keyed? && exists i :: 0 <= i < |d.entries| && d.entries[i].0 == 0
  }

  /** The adapter as written: the parallel-edge minimum is taken only when
      the edge data has a key 0. Otherwise `.get(weight, 1)` is applied to the
      whole dictionary, and for a multigraph, whose keys are integers, that
      yields 1 whatever the edges weigh. The model's attribute dictionaries
      are keyed by strings, so a simple edge never takes the multigraph
      branch here; a NetworkX attribute dictionary holding the key 0 would. */
  function AdapterCostAsWritten(d: EdgeData, weight: string): nat
    requires ValidEdgeData(d)
  {
    if HasKeyZero(d) then MinCost(ParallelEdges(d), weight)
    else if d.Single? then AttrCost(d.attrs, weight)
    else 1
  }

  /** A multigraph bundle without key 0 (one whose edge 0 was removed) is
      charged 1 by the adapter as written, not its length. */
  lemma AdapterMissesBundleWithoutKeyZero()
    ensures var d := Keyed([(1, map["length" := 5])]);
      && ValidEdgeData(d)
      && AdapterCostAsWritten(d, "length") == 1
      && MinCost(ParallelEdges(d), "length") == 5
  {
    var d := Keyed([(1, map["length" := 5])]);
    assert ParallelEdges(d) == [map["length" := 5]];
  }

  /** The adapter as intended: the least cost over every parallel edge. This
      is the cost the model charges (Cost below reads the parallel edges). */
  function EdgeCost(d: EdgeData, weight: string): (c: nat)
    requires ValidEdgeData(d)
    ensures c == MinCost(ParallelEdges(d), weight)
  {
    match d
    case Single(a) => AttrCost(a, weight)
    case Keyed(_) => MinCost(ParallelEdges(d), weight)
  }

  /** The intended adapter charges the cheapest parallel edge; the adapter as
      written agrees with it on simple graphs and on bundles with key 0. */
  lemma EdgeCostIsCheapestEdge(d: EdgeData, weight: string)
    requires ValidEdgeData(d)
    ensures forall a :: a in ParallelEdges(d) ==> EdgeCost(d, weight) <= AttrCost(a, weight)
    ensures exists a :: a in ParallelEdges(d) && EdgeCost(d, weight) == AttrCost(a, weight)
    ensures d.Single? || HasKeyZero(d) ==> AdapterCostAsWritten(d, weight) == EdgeCost(d, weight)
  {
    var edges := ParallelEdges(d);
    MinCostIsLeast(edges, weight);
    var j :| 0 <= j < |edges| && MinCost(edges, weight) == AttrCost(edges[j], weight);
    assert edges[j] in edges;
  }

  /** The graph holds the parallel edges of each edge bundle, so the cost the
      search charges for a step is the intended adapter's cost of that bundle. */
  lemma CostIsEdgeCost(G: Graph, u: Node, v: Node, d: EdgeData, weight: string)
    requires WellFormed(G) && Adjacent(G, u, v) && ValidEdgeData(d) && G[u][v] == ParallelEdges(d)
    ensures Cost(G, u, v, weight) == EdgeCost(d, weight)
  {
  }

  /** The cost the search charges for stepping from u to v. */
  function Cost(G: Graph, u: Node, v: Node, weight: string): nat
    requires WellFormed(G) && Adjacent(G, u, v)
  {
    MinCost(G[u][v], weight)
  }

  /** A non-empty walk along edges of G. */
  ghost predicate IsPath(G: Graph, p: seq<Node>) {
    && |p| > 0
    && (forall i :: 0 <= i < |p| ==> p[i] in G)
    && (forall i :: 0 <= i < |p| - 1 ==> Adjacent(G, p[i], p[i + 1]))
  }

  ghost function PathCost(G: Graph, p: seq<Node>, weight: string): nat
    requires WellFormed(G) && IsPath(G, p)
    decreases |p|
  {
    if |p| == 1 then 0
    else
      assert IsPath(G, p[1..]) by {
        assert forall i :: 0 <= i < |p| - 1 ==> p[1..][i] == p[i + 1];
      }
      Cost(G, p[0], p[1], weight) + PathCost(G, p[1..], weight)
  }

  ghost predicate Reachable(G: Graph, s: Node, t: Node) {
    exists p :: IsPath(G, p) && p[0] == s && p[|p| - 1] == t
  }

  /** The heuristic never overestimates the cost of reaching `target`. */
  ghost predicate Admissible(G: Graph, h: Node -> nat, target: Node, weight: string)
    requires WellFormed(G)
  {
    forall p :: IsPath(G, p) && p[|p| - 1] == target ==> h(p[0]) <= PathCost(G, p, weight)
  }

  /** The heuristic obeys the triangle inequality along every edge. */
  ghost predicate Consistent(G: Graph, h: Node -> nat, weight: string)
    requires WellFormed(G)
  {
    forall u, v :: Adjacent(G, u, v) ==> h(u) <= Cost(G, u, v, weight) + h(v)
  }

  /** Every non-empty stretch of a path is a path. */
  lemma SlicePath(G: Graph, p: seq<Node>, i: nat, j: nat)
    requires IsPath(G, p) && i < j <= |p|
    ensures IsPath(G, p[i..j])
  {
    var q := p[i..j];
    assert forall k :: 0 <= k < |q| ==> q[k] == p[i + k];
  }

  /** Cutting a path at position i splits its cost into the cost of the prefix
      ending at p[i] and of the suffix starting there. */
  lemma {:induction false} PathCostSplit(G: Graph, p: seq<Node>, i: nat, weight: string)
    requires WellFormed(G) && IsPath(G, p) && i < |p|
    ensures IsPath(G, p[..i + 1]) && IsPath(G, p[i..])
    ensures PathCost(G, p, weight) == PathCost(G, p[..i + 1], weight) + PathCost(G, p[i..], weight)
    decreases i
  {
    SlicePath(G, p, 0, i + 1);
    SlicePath(G, p, i, |p|);
    assert p[0..i + 1] == p[..i + 1] && p[i..|p|] == p[i..];
    if i == 0 {
      assert p[0..] == p;
    } else {
      var q := p[1..];
      SlicePath(G, p, 1, |p|);
      assert p[1..|p|] == q;
      PathCostSplit(G, q, i - 1, weight);
      assert q[i - 1..] == p[i..];
      var pre := p[..i + 1];
      assert pre[1..] == q[..i];
      assert pre[0] == p[0] && pre[1] == p[1];
      assert PathCost(G, pre, weight) == Cost(G, p[0], p[1], weight) + PathCost(G, q[..i], weight);
      assert PathCost(G, p, weight) == Cost(G, p[0], p[1], weight) + PathCost(G, q, weight);
    }
  }

  /** Extending a path by one edge at its front adds that edge's cost. */
  lemma PrependEdge(G: Graph, weight: string, u: Node, p: seq<Node>)
    requires WellFormed(G) && IsPath(G, p) && Adjacent(G, u, p[0])
    ensures IsPath(G, [u] + p)
    ensures PathCost(G, [u] + p, weight) == Cost(G, u, p[0], weight) + PathCost(G, p, weight)
  {
    var q := [u] + p;
    assert q[1..] == p;
    assert forall i :: 0 <= i < |p| ==> q[i + 1] == p[i];
  }

  /** A non-empty set of nodes has a member (the neighbour loop picks one). */
  lemma NonEmptyHasMember(s: set<Node>)
    requires s != {}
    ensures exists x :: x in s
  {
    assert (forall y :: y !in s) ==> s == {};
  }

  /** A consistent heuristic that is zero at the target is admissible. */
  lemma {:induction false} ConsistentIsAdmissible(G: Graph, h: Node -> nat, target: Node, weight: string)
    requires WellFormed(G) && Consistent(G, h, weight) && h(target) == 0
    ensures Admissible(G, h, target, weight)
  {
    forall p | IsPath(G, p) && p[|p| - 1] == target
      ensures h(p[0]) <= PathCost(G, p, weight)
    {
      ConsistentBound(G, h, target, weight, p);
    }
  }

  lemma {:induction false} ConsistentBound(G: Graph, h: Node -> nat, target: Node, weight: string, p: seq<Node>)
    requires WellFormed(G) && Consistent(G, h, weight) && h(target) == 0
    requires IsPath(G, p) && p[|p| - 1] == target
    ensures h(p[0]) <= PathCost(G, p, weight)
    decreases |p|
  {
    if |p| > 1 {
      var q := p[1..];
      assert forall k :: 0 <= k < |q| ==> q[k] == p[k + 1];
      assert IsPath(G, q);
      ConsistentBound(G, h, target, weight, q);
      assert Adjacent(G, p[0], p[1]);
    }
  }
}
