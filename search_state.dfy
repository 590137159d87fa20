/** The bookkeeping of one A* call (g_score, came_from, the open set) and the
    invariants the search keeps over it, with the lemmas that show each step
    of the search preserves them and what they imply when the search stops. */
module SearchState {
  import opened Graphs
  import opened Frontier

  type Scores = map<Node, nat>
  type Predecessors = map<Node, Node>

  /** The source holds cost 0 and has no predecessor; every other scored node has one. */
  ghost predicate Rooted(source: Node, g: Scores, cameFrom: Predecessors) {
    && source in g && g[source] == 0 && source !in cameFrom
    && (forall n :: n in g && n != source ==> n in cameFrom)
  }

  ghost predicate InGraph(G: Graph, g: Scores) {
    forall n :: n in g ==> n in G
  }

  /** Ghost time stamps: stamp[n] is the step at which g_score[n] was last written. */
  ghost predicate Stamped(g: Scores, stamp: map<Node, nat>, clock: nat) {
    forall n :: n in g ==> n in stamp && stamp[n] < clock
  }

  /** came_from[n] = m only along an edge m -> n, with g_score[n] at least
      g_score[m] plus that edge's cost; when it is exactly that, m's score was
      written before n's (this only matters for zero-cost edges). */
  ghost predicate PredecessorOk(G: Graph, weight: string, g: Scores, cameFrom: Predecessors, stamp: map<Node, nat>)
    requires WellFormed(G)
  {
    forall n :: n in cameFrom ==>
      && n in g && n in stamp
      && cameFrom[n] in g && cameFrom[n] in stamp
      && Adjacent(G, cameFrom[n], n)
      && g[cameFrom[n]] + Cost(G, cameFrom[n], n, weight) <= g[n]
      && (g[cameFrom[n]] + Cost(G, cameFrom[n], n, weight) == g[n] ==> stamp[cameFrom[n]] < stamp[n])
  }

  /** Every open entry names a scored node, and an entry pushed for n is never
      below g_score[n] + h(n); the initial (0, source) entry is the exception. */
  ghost predicate EntriesSound(h: Node -> nat, source: Node, open: multiset<Entry>, g: Scores) {
    forall e :: e in open ==> e.1 in g && (e.1 != source ==> g[e.1] + h(e.1) <= e.0)
  }

  /** Every edge out of u has been relaxed at u's current score. */
  ghost predicate Relaxed(G: Graph, weight: string, g: Scores, u: Node)
    requires WellFormed(G)
  {
    u in g && u in G && forall v :: v in G[u] ==> v in g && g[v] <= g[u] + Cost(G, u, v, weight)
  }

  /** The open entry that stands for u's current score. */
  ghost function Pending(h: Node -> nat, source: Node, g: Scores, u: Node): Entry
    requires u in g
  {
    (if u == source then 0 else g[u] + h(u), u)
  }

  /** Every scored node outside `skip` either was expanded at its current
      score (it is in `done` and relaxed) or still has its entry in the open set. */
  ghost predicate Covered(G: Graph, weight: string, h: Node -> nat, source: Node, open: multiset<Entry>,
                          g: Scores, done: set<Node>, skip: set<Node>)
    requires WellFormed(G)
  {
    forall u :: u in g && u !in skip ==> (u in done && Relaxed(G, weight, g, u)) || Pending(h, source, g, u) in open
  }

  /** All invariants of the search loop. The target is never expanded, since
      popping it ends the search. */
  ghost predicate SearchInv(G: Graph, h: Node -> nat, weight: string, source: Node, target: Node,
                            open: multiset<Entry>, g: Scores, cameFrom: Predecessors,
                            stamp: map<Node, nat>, clock: nat, done: set<Node>, skip: set<Node>)
    requires WellFormed(G)
  {
    && Rooted(source, g, cameFrom)
    && InGraph(G, g)
    && Stamped(g, stamp, clock)
    && PredecessorOk(G, weight, g, cameFrom, stamp)
    && EntriesSound(h, source, open, g)
    && Covered(G, weight, h, source, open, g, done, skip)
    && target !in done
  }

  /** The state right after the endpoint check. */
  lemma InitialState(G: Graph, h: Node -> nat, weight: string, source: Node, target: Node)
    requires WellFormed(G) && source in G
    ensures SearchInv(G, h, weight, source, target, multiset{(0, source)}, map[source := 0], map[],
                      map[source := 0], 1, {}, {})
  {
    assert Pending(h, source, map[source := 0], source) == (0, source);
  }

  /** Popping an entry for node `cur` keeps every invariant, except that
      `cur` may have lost its pending entry. */
  lemma PopPreserves(G: Graph, h: Node -> nat, weight: string, source: Node, target: Node,
                     open: multiset<Entry>, g: Scores, cameFrom: Predecessors,
                     stamp: map<Node, nat>, clock: nat, done: set<Node>, e: Entry, rest: multiset<Entry>)
    requires WellFormed(G)
    requires SearchInv(G, h, weight, source, target, open, g, cameFrom, stamp, clock, done, {})
    requires rest + multiset{e} == open
    ensures e.1 in g
    ensures SearchInv(G, h, weight, source, target, rest, g, cameFrom, stamp, clock, done, {e.1})
  {
    forall u | u in g && u != e.1 && !(u in done && Relaxed(G, weight, g, u))
      ensures Pending(h, source, g, u) in rest
    {
      assert Pending(h, source, g, u) in open;
      assert Pending(h, source, g, u) != e;
    }
  }

  /** Writing g_score[v] := g_score[cur] + cost(cur, v), came_from[v] := cur and
      pushing v's entry, when that strictly improves v's score, keeps every
      invariant. In particular the source never gets a predecessor. */
  lemma RelaxPreserves(G: Graph, h: Node -> nat, weight: string, source: Node, target: Node,
                       open: multiset<Entry>, g: Scores, cameFrom: Predecessors,
                       stamp: map<Node, nat>, clock: nat, done: set<Node>, cur: Node, v: Node, t: nat)
    requires WellFormed(G)
    requires SearchInv(G, h, weight, source, target, open, g, cameFrom, stamp, clock, done, {cur})
    requires cur in g && Adjacent(G, cur, v)
    requires t == g[cur] + Cost(G, cur, v, weight)
    requires v !in g || t < g[v]
    ensures v != cur && v != source && v in G
    ensures SearchInv(G, h, weight, source, target, open + multiset{(t + h(v), v)}, g[v := t], cameFrom[v := cur],
                      stamp[v := clock], clock + 1, done, {cur})
  {
    assert v != cur && v != source;
    RelaxKeepsBookkeeping(G, h, source, open, g, cameFrom, stamp, clock, cur, v, t);
    RelaxKeepsPredecessors(G, weight, g, cameFrom, stamp, clock, cur, v, t);
    RelaxKeepsCovered(G, h, weight, source, open, g, done, cur, v, t);
  }

  lemma RelaxKeepsBookkeeping(G: Graph, h: Node -> nat, source: Node, open: multiset<Entry>, g: Scores,
                              cameFrom: Predecessors, stamp: map<Node, nat>, clock: nat, cur: Node, v: Node, t: nat)
    requires Rooted(source, g, cameFrom) && InGraph(G, g) && Stamped(g, stamp, clock)
    requires EntriesSound(h, source, open, g)
    requires v in G && v != source && (v !in g || t < g[v])
    ensures Rooted(source, g[v := t], cameFrom[v := cur])
    ensures InGraph(G, g[v := t])
    ensures Stamped(g[v := t], stamp[v := clock], clock + 1)
    ensures EntriesSound(h, source, open + multiset{(t + h(v), v)}, g[v := t])
  {
  }

  lemma RelaxKeepsPredecessors(G: Graph, weight: string, g: Scores, cameFrom: Predecessors,
                               stamp: map<Node, nat>, clock: nat, cur: Node, v: Node, t: nat)
    requires WellFormed(G)
    requires PredecessorOk(G, weight, g, cameFrom, stamp) && Stamped(g, stamp, clock)
    requires cur in g && cur != v && Adjacent(G, cur, v)
    requires t == g[cur] + Cost(G, cur, v, weight)
    requires v !in g || t < g[v]
    ensures PredecessorOk(G, weight, g[v := t], cameFrom[v := cur], stamp[v := clock])
  {
    var g', cameFrom', stamp' := g[v := t], cameFrom[v := cur], stamp[v := clock];
    forall n | n in cameFrom'
      ensures n in g' && n in stamp' && cameFrom'[n] in g' && cameFrom'[n] in stamp'
      ensures Adjacent(G, cameFrom'[n], n)
      ensures g'[cameFrom'[n]] + Cost(G, cameFrom'[n], n, weight) <= g'[n]
      ensures g'[cameFrom'[n]] + Cost(G, cameFrom'[n], n, weight) == g'[n] ==> stamp'[cameFrom'[n]] < stamp'[n]
    {
      if n == v {
        assert cameFrom'[n] == cur && g'[cur] == g[cur] && stamp'[cur] == stamp[cur];
      } else {
        var m := cameFrom[n];
        assert cameFrom'[n] == m && g'[n] == g[n] && stamp'[n] == stamp[n];
        if m == v {
          assert g'[m] < g[m];
        } else {
          assert g'[m] == g[m] && stamp'[m] == stamp[m];
        }
      }
    }
  }

  lemma RelaxKeepsCovered(G: Graph, h: Node -> nat, weight: string, source: Node,
                          open: multiset<Entry>, g: Scores, done: set<Node>, cur: Node, v: Node, t: nat)
    requires WellFormed(G)
    requires Covered(G, weight, h, source, open, g, done, {cur})
    requires cur in g && v != source && Adjacent(G, cur, v)
    requires t == g[cur] + Cost(G, cur, v, weight)
    requires v !in g || t < g[v]
    ensures Covered(G, weight, h, source, open + multiset{(t + h(v), v)}, g[v := t], done, {cur})
  {
    var open', g' := open + multiset{(t + h(v), v)}, g[v := t];
    forall u | u in g' && u !in {cur}
      ensures (u in done && Relaxed(G, weight, g', u)) || Pending(h, source, g', u) in open'
    {
      if u == v {
        assert Pending(h, source, g', u) == (t + h(v), v);
      } else {
        assert Pending(h, source, g', u) == Pending(h, source, g, u);
        if u in done && Relaxed(G, weight, g, u) {
          assert Relaxed(G, weight, g', u);
        }
      }
    }
  }

  /** n's score was written during the current expansion. */
  ghost predicate Improved(g: Scores, g': Scores, n: Node) {
    n in g' && (n !in g || g'[n] < g[n])
  }

  /** What expanding `cur` has done so far, from (open, g, cameFrom) to
      (open', g', cameFrom'), with the neighbours in `pending` still to visit. */
  ghost predicate ExpansionFrame(G: Graph, h: Node -> nat, weight: string, cur: Node,
                                 open: multiset<Entry>, g: Scores, cameFrom: Predecessors,
                                 open': multiset<Entry>, g': Scores, cameFrom': Predecessors,
                                 pending: set<Node>)
    requires WellFormed(G) && cur in g && cur in G
  {
    && ScoresFrame(G, weight, cur, g, g', pending)
    && WritesFrame(G, h, weight, cur, open, g, cameFrom, open', g', cameFrom', pending)
    && Progress(open, g, open', g')
  }

  /** cur's score is untouched, every visited neighbour is relaxed, and scores
      only fall. */
  ghost predicate ScoresFrame(G: Graph, weight: string, cur: Node, g: Scores, g': Scores, pending: set<Node>)
    requires WellFormed(G) && cur in g && cur in G
  {
    && cur in g' && g'[cur] == g[cur]
    && (forall v :: v in G[cur] && v !in pending ==> v in g' && g'[v] <= g[cur] + Cost(G, cur, v, weight))
    && (forall n :: n in g ==> n in g' && g'[n] <= g[n])
  }

  /** Each written score is the cost through cur, with cur as predecessor and
      the matching entry pushed; every other predecessor is kept, and the only
      new entries are those of written scores. */
  ghost predicate WritesFrame(G: Graph, h: Node -> nat, weight: string, cur: Node,
                              open: multiset<Entry>, g: Scores, cameFrom: Predecessors,
                              open': multiset<Entry>, g': Scores, cameFrom': Predecessors,
                              pending: set<Node>)
    requires WellFormed(G) && cur in g && cur in G
  {
    && WrittenThroughCur(G, h, weight, cur, g, open', g', cameFrom', pending)
    && KeptPredecessors(g, cameFrom, g', cameFrom')
    && PushedOnlyWritten(h, open, g, open', g', pending)
  }

  ghost predicate WrittenThroughCur(G: Graph, h: Node -> nat, weight: string, cur: Node, g: Scores,
                                    open': multiset<Entry>, g': Scores, cameFrom': Predecessors,
                                    pending: set<Node>)
    requires WellFormed(G) && cur in g && cur in G
  {
    forall n :: Improved(g, g', n) ==>
      && Adjacent(G, cur, n) && n !in pending && g'[n] == g[cur] + Cost(G, cur, n, weight)
      && n in cameFrom' && cameFrom'[n] == cur && (g'[n] + h(n), n) in open'
  }

  ghost predicate KeptPredecessors(g: Scores, cameFrom: Predecessors, g': Scores, cameFrom': Predecessors) {
    forall n :: n in g && n in g' && g'[n] == g[n] ==>
      (n in cameFrom' <==> n in cameFrom) && (n in cameFrom ==> cameFrom'[n] == cameFrom[n])
  }

  /** The entries pushed for the scores written so far: one per written node. */
  ghost function PushedEntries(h: Node -> nat, g: Scores, g': Scores): set<Entry> {
    set n | n in g' && Improved(g, g', n) :: (g'[n] + h(n), n)
  }

  /** The open set has gained exactly one entry per written score, and only
      visited neighbours have been written. */
  ghost predicate PushedOnlyWritten(h: Node -> nat, open: multiset<Entry>, g: Scores,
                                    open': multiset<Entry>, g': Scores, pending: set<Node>) {
    && open' == open + multiset(PushedEntries(h, g, g'))
    && (forall n :: Improved(g, g', n) ==> n !in pending)
  }

  /** The state has gained a node, lowered a score, or not changed at all. */
  ghost predicate Progress(open: multiset<Entry>, g: Scores, open': multiset<Entry>, g': Scores) {
    && g.Keys <= g'.Keys
    && (g'.Keys == g.Keys ==> ScoreSet(g') < ScoreSet(g) || (g' == g && open' == open))
  }

  /** Once every neighbour has been visited, cur is relaxed. */
  lemma FrameCompleteIsRelaxed(G: Graph, h: Node -> nat, weight: string, cur: Node,
                               open: multiset<Entry>, g: Scores, cameFrom: Predecessors,
                               open': multiset<Entry>, g': Scores, cameFrom': Predecessors)
    requires WellFormed(G) && cur in g && cur in G
    requires ExpansionFrame(G, h, weight, cur, open, g, cameFrom, open', g', cameFrom', {})
    ensures Relaxed(G, weight, g', cur)
  {
    assert cur in g' && g'[cur] == g[cur];
  }

  lemma ExpansionFrameStart(G: Graph, h: Node -> nat, weight: string, cur: Node,
                            open: multiset<Entry>, g: Scores, cameFrom: Predecessors)
    requires WellFormed(G) && cur in g && cur in G
    ensures ExpansionFrame(G, h, weight, cur, open, g, cameFrom, open, g, cameFrom, G[cur].Keys)
  {
    assert forall n :: !Improved(g, g, n);
    assert PushedEntries(h, g, g) == {};
  }

  /** Visiting a neighbour whose score the tentative cost does not improve. */
  lemma ExpansionFrameSkip(G: Graph, h: Node -> nat, weight: string, cur: Node,
                           open: multiset<Entry>, g: Scores, cameFrom: Predecessors,
                           open': multiset<Entry>, g': Scores, cameFrom': Predecessors,
                           pending: set<Node>, v: Node)
    requires WellFormed(G) && cur in g && cur in G && v in pending && Adjacent(G, cur, v)
    requires ExpansionFrame(G, h, weight, cur, open, g, cameFrom, open', g', cameFrom', pending)
    requires v in g' && g'[v] <= g'[cur] + Cost(G, cur, v, weight)
    ensures ExpansionFrame(G, h, weight, cur, open, g, cameFrom, open', g', cameFrom', pending - {v})
  {
  }

  /** Visiting a neighbour whose score the tentative cost t improves. */
  lemma ExpansionFrameWrite(G: Graph, h: Node -> nat, weight: string, cur: Node,
                            open: multiset<Entry>, g: Scores, cameFrom: Predecessors,
                            open': multiset<Entry>, g': Scores, cameFrom': Predecessors,
                            pending: set<Node>, v: Node, t: nat)
    requires WellFormed(G) && cur in g && cur in G && v in pending && Adjacent(G, cur, v)
    requires ExpansionFrame(G, h, weight, cur, open, g, cameFrom, open', g', cameFrom', pending)
    requires cur in g' && t == g'[cur] + Cost(G, cur, v, weight)
    requires v !in g' || t < g'[v]
    ensures ExpansionFrame(G, h, weight, cur, open, g, cameFrom,
                           open' + multiset{(t + h(v), v)}, g'[v := t], cameFrom'[v := cur], pending - {v})
  {
    assert v != cur;
    assert g'[cur] == g[cur];
    ScoresFrameWrite(G, weight, cur, g, g', pending, v, t);
    WritesFrameWrite(G, h, weight, cur, open, g, cameFrom, open', g', cameFrom', pending, v, t);
    ProgressWrite(open, g, open', g', v, t, t + h(v));
  }

  lemma ScoresFrameWrite(G: Graph, weight: string, cur: Node, g: Scores, g': Scores, pending: set<Node>,
                         v: Node, t: nat)
    requires WellFormed(G) && cur in g && cur in G && v in pending && Adjacent(G, cur, v) && v != cur
    requires ScoresFrame(G, weight, cur, g, g', pending)
    requires t == g'[cur] + Cost(G, cur, v, weight)
    requires v !in g' || t < g'[v]
    ensures ScoresFrame(G, weight, cur, g, g'[v := t], pending - {v})
  {
  }

  lemma WritesFrameWrite(G: Graph, h: Node -> nat, weight: string, cur: Node,
                         open: multiset<Entry>, g: Scores, cameFrom: Predecessors,
                         open': multiset<Entry>, g': Scores, cameFrom': Predecessors,
                         pending: set<Node>, v: Node, t: nat)
    requires WellFormed(G) && cur in g && cur in G && v in pending && Adjacent(G, cur, v) && v != cur
    requires WritesFrame(G, h, weight, cur, open, g, cameFrom, open', g', cameFrom', pending)
    requires forall n :: n in g ==> n in g' && g'[n] <= g[n]
    requires t == g[cur] + Cost(G, cur, v, weight)
    requires v !in g' || t < g'[v]
    ensures WritesFrame(G, h, weight, cur, open, g, cameFrom,
                        open' + multiset{(t + h(v), v)}, g'[v := t], cameFrom'[v := cur], pending - {v})
  {
    WrittenThroughCurWrite(G, h, weight, cur, g, open', g', cameFrom', pending, v, t);
    KeptPredecessorsWrite(g, cameFrom, g', cameFrom', v, t, cur);
    PushedOnlyWrittenWrite(h, open, g, open', g', pending, v, t);
  }

  lemma WrittenThroughCurWrite(G: Graph, h: Node -> nat, weight: string, cur: Node, g: Scores,
                               open': multiset<Entry>, g': Scores, cameFrom': Predecessors,
                               pending: set<Node>, v: Node, t: nat)
    requires WellFormed(G) && cur in g && cur in G && v in pending && Adjacent(G, cur, v)
    requires WrittenThroughCur(G, h, weight, cur, g, open', g', cameFrom', pending)
    requires t == g[cur] + Cost(G, cur, v, weight)
    ensures WrittenThroughCur(G, h, weight, cur, g, open' + multiset{(t + h(v), v)}, g'[v := t],
                              cameFrom'[v := cur], pending - {v})
  {
    var open'', g'', cameFrom'' := open' + multiset{(t + h(v), v)}, g'[v := t], cameFrom'[v := cur];
    forall n | Improved(g, g'', n)
      ensures && Adjacent(G, cur, n) && n !in pending - {v} && g''[n] == g[cur] + Cost(G, cur, n, weight)
              && n in cameFrom'' && cameFrom''[n] == cur && (g''[n] + h(n), n) in open''
    {
      if n == v {
        assert g''[n] == t && cameFrom''[n] == cur && (t + h(v), v) in open'';
      } else {
        assert g''[n] == g'[n] && cameFrom''[n] == cameFrom'[n];
        assert Improved(g, g', n);
        assert (g'[n] + h(n), n) in open';
      }
    }
  }

  lemma KeptPredecessorsWrite(g: Scores, cameFrom: Predecessors, g': Scores, cameFrom': Predecessors,
                              v: Node, t: nat, cur: Node)
    requires KeptPredecessors(g, cameFrom, g', cameFrom')
    requires forall n :: n in g ==> n in g' && g'[n] <= g[n]
    requires v !in g' || t < g'[v]
    ensures KeptPredecessors(g, cameFrom, g'[v := t], cameFrom'[v := cur])
  {
    var g'', cameFrom'' := g'[v := t], cameFrom'[v := cur];
    forall n | n in g && n in g'' && g''[n] == g[n]
      ensures (n in cameFrom'' <==> n in cameFrom) && (n in cameFrom ==> cameFrom''[n] == cameFrom[n])
    {
      assert n != v;
      assert g'[n] == g[n];
    }
  }

  lemma PushedOnlyWrittenWrite(h: Node -> nat, open: multiset<Entry>, g: Scores,
                               open': multiset<Entry>, g': Scores, pending: set<Node>, v: Node, t: nat)
    requires PushedOnlyWritten(h, open, g, open', g', pending) && v in pending
    requires forall n :: n in g ==> n in g' && g'[n] <= g[n]
    requires v !in g' || t < g'[v]
    ensures PushedOnlyWritten(h, open, g, open' + multiset{(t + h(v), v)}, g'[v := t], pending - {v})
  {
    var x := (t + h(v), v);
    var before, after := PushedEntries(h, g, g'), PushedEntries(h, g, g'[v := t]);
    PushedEntriesGrow(h, g, g', pending, v, t);
    assert multiset(after) == multiset(before) + multiset{x};
    WrittenStayVisited(g, g', pending, v, t);
  }

  /** Writing v's score adds exactly v's entry to the pushed entries. */
  lemma PushedEntriesGrow(h: Node -> nat, g: Scores, g': Scores, pending: set<Node>, v: Node, t: nat)
    requires forall n :: Improved(g, g', n) ==> n !in pending
    requires v in pending
    requires forall n :: n in g ==> n in g' && g'[n] <= g[n]
    requires v !in g' || t < g'[v]
    ensures var x := (t + h(v), v);
      PushedEntries(h, g, g'[v := t]) == PushedEntries(h, g, g') + {x} && x !in PushedEntries(h, g, g')
  {
    var g'' := g'[v := t];
    var x := (t + h(v), v);
    var before, after := PushedEntries(h, g, g'), PushedEntries(h, g, g'');
    assert Improved(g, g'', v);
    forall y | y in after
      ensures y in before + {x}
    {
      if y.1 != v {
        assert Improved(g, g', y.1);
      }
    }
    forall y | y in before
      ensures y in after && y != x
    {
      assert Improved(g, g', y.1) && y.1 != v;
      assert Improved(g, g'', y.1);
    }
  }

  lemma WrittenStayVisited(g: Scores, g': Scores, pending: set<Node>, v: Node, t: nat)
    requires forall n :: Improved(g, g', n) ==> n !in pending
    ensures forall n :: Improved(g, g'[v := t], n) ==> n !in pending - {v}
  {
    forall n | Improved(g, g'[v := t], n)
      ensures n !in pending - {v}
    {
      if n != v {
        assert Improved(g, g', n);
      }
    }
  }

  lemma ProgressWrite(open: multiset<Entry>, g: Scores, open': multiset<Entry>, g': Scores,
                      v: Node, t: nat, f: nat)
    requires Progress(open, g, open', g')
    requires forall n :: n in g ==> n in g' && g'[n] <= g[n]
    requires v !in g' || t < g'[v]
    ensures Progress(open, g, open' + multiset{(f, v)}, g'[v := t])
  {
    var g'' := g'[v := t];
    assert g'.Keys <= g''.Keys;
    if g''.Keys == g.Keys {
      assert v in g && v in g';
      ScoreSetLowered(g', v, t);
      assert g'.Keys == g.Keys;
    }
  }

  /** Once cur has been relaxed, it joins the expanded nodes. */
  lemma ExpansionPreserves(G: Graph, h: Node -> nat, weight: string, source: Node, target: Node,
                           open: multiset<Entry>, g: Scores, cameFrom: Predecessors,
                           stamp: map<Node, nat>, clock: nat, done: set<Node>, cur: Node)
    requires WellFormed(G)
    requires SearchInv(G, h, weight, source, target, open, g, cameFrom, stamp, clock, done, {cur})
    requires Relaxed(G, weight, g, cur) && cur != target
    ensures SearchInv(G, h, weight, source, target, open, g, cameFrom, stamp, clock, done + {cur}, {})
  {
  }

  /** The heart of the optimality and completeness arguments. Along any path
      p from the source to the target, take the first node that has not been
      expanded at its current score: it is scored no higher than p's prefix
      up to it (the nodes before it are relaxed), and its pending entry is in
      the open set. With an admissible heuristic that entry's f is at most
      the cost of p. */
  lemma {:induction false} FrontierCutFrom(G: Graph, h: Node -> nat, weight: string, source: Node, target: Node,
                                           open: multiset<Entry>, g: Scores, done: set<Node>,
                                           p: seq<Node>, i: nat) returns (x: Entry)
    requires WellFormed(G) && IsPath(G, p) && p[|p| - 1] == target
    requires Covered(G, weight, h, source, open, g, done, {}) && target !in done
    requires source in g && g[source] == 0
    requires i < |p| && p[i] in g
    requires IsPath(G, p[..i + 1]) && g[p[i]] <= PathCost(G, p[..i + 1], weight)
    ensures x in open && exists k :: i <= k < |p| && x.1 == p[k]
    ensures Admissible(G, h, target, weight) ==> x.0 <= PathCost(G, p, weight)
    decreases |p| - i
  {
    PathCostSplit(G, p, i, weight);
    var u := p[i];
    if Pending(h, source, g, u) in open {
      x := Pending(h, source, g, u);
      if Admissible(G, h, target, weight) {
        assert p[i..][0] == u && p[i..][|p[i..]| - 1] == target;
        assert h(u) <= PathCost(G, p[i..], weight);
      }
    } else {
      assert u in done && Relaxed(G, weight, g, u);
      assert i < |p| - 1;
      ExtendPrefix(G, weight, p, i);
      x := FrontierCutFrom(G, h, weight, source, target, open, g, done, p, i + 1);
    }
  }

  /** Extending a prefix of a path by its next edge adds that edge's cost. */
  lemma ExtendPrefix(G: Graph, weight: string, p: seq<Node>, i: nat)
    requires WellFormed(G) && IsPath(G, p) && i < |p| - 1
    ensures IsPath(G, p[..i + 1]) && IsPath(G, p[..i + 2]) && Adjacent(G, p[i], p[i + 1])
    ensures PathCost(G, p[..i + 2], weight) == PathCost(G, p[..i + 1], weight) + Cost(G, p[i], p[i + 1], weight)
  {
    var q := p[..i + 2];
    SlicePath(G, p, 0, i + 2);
    assert p[0..i + 2] == q;
    PathCostSplit(G, q, i, weight);
    assert q[..i + 1] == p[..i + 1];
    var last := q[i..];
    assert last == [p[i], p[i + 1]];
    assert PathCost(G, last, weight) == Cost(G, p[i], p[i + 1], weight) + PathCost(G, last[1..], weight);
  }

  /** Every path from the source to the target has a node with an entry in
      the open set (so an empty open set means no such path); with an
      admissible heuristic that entry's f is at most the path's cost. */
  lemma FrontierCut(G: Graph, h: Node -> nat, weight: string, source: Node, target: Node,
                    open: multiset<Entry>, g: Scores, done: set<Node>, p: seq<Node>) returns (x: Entry)
    requires WellFormed(G) && IsPath(G, p) && p[0] == source && p[|p| - 1] == target
    requires Covered(G, weight, h, source, open, g, done, {}) && target !in done
    requires source in g && g[source] == 0
    ensures x in open && exists k :: 0 <= k < |p| && x.1 == p[k]
    ensures Admissible(G, h, target, weight) ==> x.0 <= PathCost(G, p, weight)
  {
    assert forall k :: 0 <= k < 1 ==> p[..1][k] == p[k];
    assert IsPath(G, p[..1]);
    x := FrontierCutFrom(G, h, weight, source, target, open, g, done, p, 0);
  }

  /** When the target is popped with least f, its score is no more than the
      cost of any path from the source to it, provided the heuristic is admissible. */
  lemma PoppedTargetIsShortest(G: Graph, h: Node -> nat, weight: string, source: Node, target: Node,
                               open: multiset<Entry>, g: Scores, cameFrom: Predecessors,
                               stamp: map<Node, nat>, clock: nat, done: set<Node>, e: Entry)
    requires WellFormed(G) && Admissible(G, h, target, weight)
    requires SearchInv(G, h, weight, source, target, open, g, cameFrom, stamp, clock, done, {})
    requires IsMinEntry(e, open) && e.1 == target
    ensures target in g
    ensures forall p :: IsPath(G, p) && p[0] == source && p[|p| - 1] == target ==> g[target] <= PathCost(G, p, weight)
  {
    forall p | IsPath(G, p) && p[0] == source && p[|p| - 1] == target
      ensures g[target] <= PathCost(G, p, weight)
    {
      var x := FrontierCut(G, h, weight, source, target, open, g, done, p);
      assert e.0 <= x.0;
    }
  }

  /** When the open set is empty, the target is unreachable from the source. */
  lemma ExhaustedMeansUnreachable(G: Graph, h: Node -> nat, weight: string, source: Node, target: Node,
                                  g: Scores, cameFrom: Predecessors,
                                  stamp: map<Node, nat>, clock: nat, done: set<Node>)
    requires WellFormed(G)
    requires SearchInv(G, h, weight, source, target, multiset{}, g, cameFrom, stamp, clock, done, {})
    ensures !Reachable(G, source, target)
  {
    if Reachable(G, source, target) {
      var p :| IsPath(G, p) && p[0] == source && p[|p| - 1] == target;
      var x := FrontierCut(G, h, weight, source, target, multiset{}, g, done, p);
      assert false;
    }
  }

  /** (g_score, stamp) drops strictly, lexicographically, along every came_from
      link: the order the path rebuild walks in. */
  ghost predicate RankBelow(g: Scores, stamp: map<Node, nat>, a: Node, b: Node)
    requires a in g && b in g && a in stamp && b in stamp
  {
    g[a] < g[b] || (g[a] == g[b] && stamp[a] < stamp[b])
  }

  /** Following came_from links never returns to the start: the predecessor
      relation is acyclic. */
  lemma {:induction false} PredecessorChainsAreAcyclic(G: Graph, weight: string, g: Scores, cameFrom: Predecessors,
                                                       stamp: map<Node, nat>, chain: seq<Node>)
    requires WellFormed(G) && PredecessorOk(G, weight, g, cameFrom, stamp)
    requires |chain| >= 2
    requires forall k :: 0 <= k < |chain| - 1 ==> chain[k] in cameFrom && cameFrom[chain[k]] == chain[k + 1]
    ensures chain[0] in g && chain[0] in stamp && chain[|chain| - 1] in g && chain[|chain| - 1] in stamp
    ensures RankBelow(g, stamp, chain[|chain| - 1], chain[0])
    ensures chain[|chain| - 1] != chain[0]
    decreases |chain|
  {
    var n := chain[0];
    assert n in cameFrom && cameFrom[n] == chain[1];
    if |chain| > 2 {
      var rest := chain[1..];
      assert forall k :: 0 <= k < |rest| ==> rest[k] == chain[k + 1];
      PredecessorChainsAreAcyclic(G, weight, g, cameFrom, stamp, rest);
    }
  }

  /** The recorded scores as a set of (node, k) pairs, k below the node's
      score: it shrinks whenever a score is lowered. */
  ghost function ScoreSet(g: Scores): set<(Node, int)> {
    set n, k | n in g && 0 <= k < g[n] :: (n, k)
  }

  /** Lowering one score strictly shrinks the score set. */
  lemma ScoreSetLowered(g: Scores, v: Node, t: nat)
    requires v in g && t < g[v]
    ensures ScoreSet(g[v := t]) < ScoreSet(g)
  {
    assert (v, t) in ScoreSet(g);
    assert (v, t) !in ScoreSet(g[v := t]);
  }

  /** One round of the search loop lowers (unscored nodes, ScoreSet, open-set
      size) lexicographically: an expansion that made progress lowers one of
      the first two, and one that changed nothing leaves the open set with the
      popped entry gone. */
  lemma SearchMeasureFalls(G: Graph, g0: Scores, open0: multiset<Entry>, rest: multiset<Entry>,
                           g: Scores, open: multiset<Entry>)
    requires InGraph(G, g) && Progress(rest, g0, open, g) && |rest| < |open0|
    ensures || |G.Keys - g.Keys| < |G.Keys - g0.Keys|
            || (&& |G.Keys - g.Keys| == |G.Keys - g0.Keys|
                && (ScoreSet(g) < ScoreSet(g0) || (ScoreSet(g) == ScoreSet(g0) && |open| < |open0|)))
  {
    if g.Keys != g0.Keys {
      UnscoredShrinks(G, g0, g);
    }
  }

  /** Scoring a new node shrinks the set of unscored nodes of the graph. */
  lemma UnscoredShrinks(G: Graph, g0: Scores, g: Scores)
    requires InGraph(G, g) && g0.Keys <= g.Keys && g0.Keys != g.Keys
    ensures |G.Keys - g.Keys| < |G.Keys - g0.Keys|
  {
    forall n | n in g.Keys
      ensures n in G.Keys
    {
      assert n in g;
    }
    var d := g.Keys - g0.Keys;
    assert G.Keys - g0.Keys == (G.Keys - g.Keys) + d;
    assert (G.Keys - g.Keys) !! d;
    assert d != {};
  }
}
