/**
  The sort at the start of Kruskal's algorithm: the edge list is reordered
  by weight alone. The library sort it stands for leaves the order of
  equal-weight edges unspecified; this model fixes one such order (an
  insertion sort), and everything proved about Kruskal's scan holds for any
  order of its input.
 */
module EdgeSort {
  import opened Graphs

  /** Non-decreasing by weight. */
  predicate SortedByWeight(es: seq<Edge>)
  {
    forall i, j :: 0 <= i < j < |es| ==> es[i].weight <= es[j].weight
  }

  /** Places `e` before the first edge of `es` that is not lighter. */
  function InsertByWeight(e: Edge, es: seq<Edge>): (r: seq<Edge>)
    requires SortedByWeight(es)
    ensures SortedByWeight(r)
    ensures multiset(r) == multiset(es) + multiset{e}
    decreases |es|
  {
    if |es| == 0 then [e]
    else if e.weight <= es[0].weight then [e] + es
    else
      var rest := InsertByWeight(e, es[1..]);
      assert es == [es[0]] + es[1..];
      HeadBelowRest(es[0], e, es[1..], rest);
      [es[0]] + rest
  }

  /** A bound below every element of a bag is below every element of any
      sequence with that bag. */
  lemma HeadBelowRest(h: Edge, e: Edge, tail: seq<Edge>, rest: seq<Edge>)
    requires h.weight <= e.weight
    requires forall k :: 0 <= k < |tail| ==> h.weight <= tail[k].weight
    requires multiset(rest) == multiset(tail) + multiset{e}
    ensures forall k :: 0 <= k < |rest| ==> h.weight <= rest[k].weight
  {
    forall k | 0 <= k < |rest|
      ensures h.weight <= rest[k].weight
    {
      assert rest[k] in multiset(rest);
      if rest[k] != e {
        assert rest[k] in multiset(tail);
        var j :| 0 <= j < |tail| && tail[j] == rest[k];
      }
    }
  }

  /** The edges of `es` rearranged into non-decreasing weight order. */
  function SortByWeight(es: seq<Edge>): (r: seq<Edge>)
    ensures SortedByWeight(r)
    ensures multiset(r) == multiset(es)
    decreases |es|
  {
    if |es| == 0 then []
    else
      assert es == [es[0]] + es[1..];
      InsertByWeight(es[0], SortByWeight(es[1..]))
  }

  /** Sorting only reorders, so endpoint validity carries over. */
  lemma SortKeepsEndpoints(es: seq<Edge>, V: int)
    requires EndpointsIn(es, V)
    ensures EndpointsIn(SortByWeight(es), V)
  {
    var r := SortByWeight(es);
    forall j | 0 <= j < |r|
      ensures 0 <= r[j].src < V && 0 <= r[j].dest < V
    {
      assert r[j] in multiset(r);
      assert r[j] in multiset(es);
      var k :| 0 <= k < |es| && es[k] == r[j];
    }
  }
}
