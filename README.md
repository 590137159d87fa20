# A* routing on a NetworkX graph, modelled in Dafny

This project models `astar_path` from `astar.py`, an A* shortest-path search
over a NetworkX (OSMnx) graph, and proves what it promises.

The search works as follows:

- It first checks that both endpoints are nodes of the graph, and raises
  `NodeNotFound` if either is missing.
- It keeps an open set: a binary heap of `(f, node)` entries that starts as
  `[(0, source)]`. It also keeps two dictionaries: `g_score` (the best known
  cost from the source) and `came_from` (each node's predecessor).
- It repeatedly pops an entry of least `f`. When the popped node is the
  target, it follows `came_from` back to the source and returns the reversed
  walk.
- Otherwise it looks at every neighbour of the popped node. The cost of the
  step is the cheapest of the parallel edges (for a multigraph bundle only
  when it has key 0; see Findings), and an edge without the weight
  attribute costs 1. When the tentative cost is the neighbour's first score or
  is strictly lower than its score, it writes `g_score` and `came_from` and
  pushes `(tentative + h(neighbour), neighbour)`.
- Stale heap entries are never removed and there is no closed set, so a node
  may be expanded more than once.
- When the heap is empty it raises `NetworkXNoPath`.

Modules:

- `Wrappers` (`wrappers.dfy`): `Option` and `Result`.
- `Graphs` (`graph.dfy`): the graph as an adjacency map whose entries hold
  the parallel edges between two nodes. It also holds the edge-cost adapter
  (as written and as intended), paths, path costs, reachability, and
  admissible and consistent heuristics.
- `Frontier` (`frontier.dfy`): the open set, seen as a multiset of `(f, node)`
  entries, and extraction of a least entry.
- `SearchState` (`search_state.dfy`): the search invariants and the lemmas
  that show each step keeps them. It also holds what the invariants give when
  the search stops: optimality, unreachability, and acyclic predecessor
  chains.
- `AStar` (`astar.dfy`): the search itself. `AStarPath` holds the main loop,
  `Expand` the neighbour loop, and `Reconstruct` the path rebuild.

The heuristic is a parameter `h: Node -> nat`. Optimality is proved for any
admissible `h`, which is one that never overestimates the remaining cost.
`ConsistentIsAdmissible` shows that a consistent `h` that is 0 at the target
is admissible; the zero heuristic is one of these. The code starts the heap with
`(0, source)`, not with `(h(source), source)`, and the model follows the
code. The invariants therefore exempt the source's entry from the
`f >= g + h` bound.

## Model

| member | source | states |
|---|---|---|
| `Graphs.MinCostIsLeast` | astar.py:93-95 | the folded parallel-edge cost is at most the cost of every parallel edge (a missing weight attribute counts 1) and equals the cost of one of them |
| `Graphs.ParallelEdgeCost` | astar.py:93-95 | the loop that starts from an infinite cost and takes `min` with each parallel edge computes exactly that least cost |
| `Graphs.EdgeCostIsCheapestEdge` | astar.py:89-97 | the intended adapter charges the cheapest parallel edge (it is at most every edge's cost and is one edge's cost); the adapter as written agrees with it on simple graphs and on multigraph bundles that have key 0 |
| `Graphs.CostIsEdgeCost` | astar.py:89-99 | the cost the search adds to `g_score` for a step is the intended adapter's cost of the edge bundle between the two nodes |
| `Graphs.AdapterMissesBundleWithoutKeyZero` | astar.py:91-97 | a multigraph bundle whose only edge has key 1 and length 5 is charged 1 by the adapter as written, while its cheapest edge costs 5 |
| `Graphs.ConsistentIsAdmissible` | astar.py:105-107 | a heuristic obeying the triangle inequality on every edge and 0 at the target never overestimates the cost of any path to the target |
| `Frontier.PopMin` | astar.py:71-72 | popping a non-empty open set returns one of its entries whose f is least, and leaves exactly the other entries |
| `SearchState.InitialState` | astar.py:59-66 | the state `open = [(0, source)]`, `g_score = {source: 0}`, `came_from = {}` satisfies every search invariant |
| `SearchState.PopPreserves` | astar.py:70-72 | popping any entry keeps every invariant; only the popped node may lose its pending entry |
| `SearchState.RelaxPreserves` | astar.py:99-109 | writing `g_score[v]`, `came_from[v] = cur` and pushing `(t + h(v), v)` when t strictly improves v keeps every invariant; v is never the source, so the source never gets a predecessor |
| `SearchState.RelaxKeepsPredecessors` | astar.py:101-103 | after such a write, every `came_from[n] = m` is still an edge `m -> n` with `g_score[n] >= g_score[m] + cost(m, n)`, and on equality m's score was written first |
| `SearchState.ExpansionFrameSkip` | astar.py:101 | a neighbour that the tentative cost does not improve is left as it is, and it counts as relaxed |
| `SearchState.ExpansionFrameWrite` | astar.py:99-109 | a neighbour that is improved gets exactly the cost through the current node, with that node as its predecessor and exactly its one entry pushed; no other score or predecessor changes, and scores never rise |
| `SearchState.FrameCompleteIsRelaxed` | astar.py:87-109 | after every neighbour is visited, every edge out of the current node is relaxed at its score |
| `SearchState.ExpansionPreserves` | astar.py:87-109 | an expanded, relaxed node other than the target joins the expanded set with every invariant kept |
| `SearchState.FrontierCut` | astar.py:70-72 | every path from the source to the target has a node with an entry in the open set; with an admissible heuristic that entry's f is at most the path's cost |
| `SearchState.PoppedTargetIsShortest` | astar.py:74 | when the target is popped with least f under an admissible heuristic, its `g_score` is at most the cost of every path from the source to the target |
| `SearchState.ExhaustedMeansUnreachable` | astar.py:70 | when the open set is empty, no path leads from the source to the target |
| `SearchState.PredecessorChainsAreAcyclic` | astar.py:77-79 | along any chain of `came_from` links, (g_score, write time) falls strictly, so no chain returns to its start |
| `SearchState.SearchMeasureFalls` | astar.py:70-109 | each round of the main loop lowers (unscored nodes, scores, open-set size) lexicographically, so the search ends on a finite graph |
| `AStar.Reversed` | astar.py:81 | the result has the input's length and holds its elements in opposite order |
| `AStar.Reconstruct` | astar.py:74-81 | following `came_from` from the target ends, and the reversed walk is a path of the graph from the source to the target costing at most `g_score[target]`; it is `[source]` when source and target coincide |
| `AStar.Expand` | astar.py:87-109 | the neighbour loop keeps every search invariant and relaxes every edge out of the current node; scores only fall, each written score is the cost through the current node with that node as predecessor, the open set gains exactly one entry `(g_score + h, node)` per written score, nothing else changes, and the state gains a node, lowers a score or stays the same |
| `AStar.AStarPath` | astar.py:40-111 | fails with NodeNotFound exactly when an endpoint is not a node, with NoPathFound exactly when the target is unreachable; otherwise it returns a path of the graph from the source to the target (`[source]` when they coincide), and no path from the source to the target is cheaper when the heuristic is admissible |

## Left out

- `haversine_distance` (astar.py:10-37) is floating-point trigonometry. The heuristic is an abstract `nat`-valued parameter.
- Costs, scores and f values are natural numbers, not floats. The adapter's starting `float('inf')` is modelled as `None` in `ParallelEdgeCost`.
- Negative weights are not modelled: `Attrs` maps attribute names to natural numbers. With a negative cycle reachable from the source, the loop at astar.py:70-109 can keep finding a lower `tentative_g` and never end, so the termination measure and the optimality argument rest on non-negative costs.
- A simple graph whose attribute dictionary holds the key 0 is not modelled: `Attrs` is keyed by strings. In the source such a dictionary passes the `0 in edge_data` test at astar.py:91 and the minimum at astar.py:95 then iterates over attribute values instead of edge dictionaries, failing or charging a wrong cost.
- NetworkX's API (`G.neighbors`, `G.get_edge_data`, `G.nodes`) is replaced by the adjacency map, which holds the attribute dictionaries of the parallel edges. `WellFormed` states what NetworkX guarantees of it: every neighbour is a node, and every neighbour entry has at least one edge.
- The `isinstance(edge_data, dict)` test is not modelled, because `get_edge_data` returns a dictionary in both cases. The `0 in edge_data` test is modelled only in `AdapterCostAsWritten`. The search charges the intended cost instead (see Findings).
- `heapq` is modelled as a multiset with extraction of any least entry. The heap layout and Python's tie-break on node ids are not modelled, so every tie-break is covered.
- The order in which `G.neighbors` lists neighbours is not modelled. `Expand` visits them in an arbitrary order.
- The error messages carried by the exceptions are not modelled.
- `update_notebook.py` reads and writes a notebook file and holds plotting code. It is not part of this model.
- AStar.Reconstruct: states that the path costs at most `g_score[target]`, not exactly that. The invariant the model keeps (`PredecessorOk`) gives only `g_score[n] >= g_score[m] + cost(m, n)` along each `came_from` link. Equality along the chain once the target is popped rests on an argument about the order in which the heap releases entries, which the model does not carry. With an admissible heuristic the two are equal, through the optimality of `AStarPath`.
- AStar.AStarPath: states optimality only for an admissible heuristic. With any other heuristic the code returns a path of the graph that need not be shortest, and the model states only that.

## Findings

| source | as written | input that shows it | evidently intended | confidence | as-written member | corrected member |
|---|---|---|---|---|---|---|
| astar.py:91-97 | The parallel-edge minimum is taken only when the edge data has key 0. Otherwise `edge_data.get(weight, 1)` runs on the key-to-attributes dictionary of a multigraph, and that always gives 1. | A multigraph bundle `{1: {"length": 5}}`, for example after edge 0 between the two nodes was removed, is charged 1 instead of 5. | The cost of the cheapest parallel edge, whatever the edge keys are. | medium; not executed | `Graphs.AdapterMissesBundleWithoutKeyZero` | `Graphs.EdgeCostIsCheapestEdge` |
