/** The open set: a heap of (f, node) entries, seen abstractly as a multiset.
    Duplicate and stale entries are allowed; extraction returns an entry of
    least f, with ties broken either way. */
module Frontier {
  import opened Graphs

  type Entry = (nat, Node)

  predicate IsMinEntry(e: Entry, open: multiset<Entry>) {
    e in open && forall x :: x in open ==> e.0 <= x.0
  }

  /** Every non-empty open set has an entry of least f. */
  lemma {:induction false} MinEntryExists(open: multiset<Entry>)
    requires open != multiset{}
    ensures exists e: Entry :: IsMinEntry(e, open)
    decreases |open|
  {
    var x: Entry :| x in open;
    var rest := open - multiset{x};
    assert open == rest + multiset{x};
    if rest == multiset{} {
      assert IsMinEntry(x, open);
    } else {
      MinEntryExists(rest);
      var m: Entry :| IsMinEntry(m, rest);
      if m.0 <= x.0 {
        assert IsMinEntry(m, open);
      } else {
        assert IsMinEntry(x, open);
      }
    }
  }

  /** heapq.heappop: remove and return an entry of least f. */
  method PopMin(open: multiset<Entry>) returns (e: Entry, rest: multiset<Entry>)
    requires open != multiset{}
    ensures IsMinEntry(e, open)
    ensures rest + multiset{e} == open
    ensures |rest| == |open| - 1
  {
    MinEntryExists(open);
    e :| IsMinEntry(e, open);
    rest := open - multiset{e};
    assert rest + multiset{e} == open;
  }
}
