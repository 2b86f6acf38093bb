/**
  The Prim loop with the relaxation the source's comment describes
  ("vertices adjacent to u"): an edge is looked at only when it touches the
  popped vertex `u`, and then its OTHER endpoint is relaxed. With that
  guard every printed pair `(parent[v], v)` with a parent is an edge of the
  graph, which the loop as written does not guarantee (see
  `AsWrittenCounterexample`).
 */
module PrimAdjacent {
  import opened Graphs
  import opened Prim

  predicate Touches(e: Edge, u: int)
  {
    e.src == u || e.dest == u
  }

  /** The endpoint of `e` across from `u`. */
  function Other(e: Edge, u: int): int
  {
    if e.src == u then e.dest else e.src
  }

  /** Edge `e` could still lower the key of its destination (`toDest`) or
      of its source. */
  predicate Open(key: seq<int>, e: Edge, toDest: bool)
    requires 0 <= e.src < |key| && 0 <= e.dest < |key|
  {
    e.weight < key[if toDest then e.dest else e.src]
  }

  /** How many of the first `n` edges are open towards the chosen side. */
  function CountOpen(key: seq<int>, es: seq<Edge>, n: int, toDest: bool): nat
    requires EndpointsIn(es, |key|) && 0 <= n <= |es|
    decreases n
  {
    if n == 0 then 0
    else CountOpen(key, es, n - 1, toDest) + (if Open(key, es[n - 1], toDest) then 1 else 0)
  }

  /** The termination measure: how many (edge, endpoint) relaxations the
      keys still allow. Every relaxation uses one up for good. */
  function Potential(key: seq<int>, es: seq<Edge>): nat
    requires EndpointsIn(es, |key|)
  {
    CountOpen(key, es, |es|, true) + CountOpen(key, es, |es|, false)
  }

  /** Lower keys leave no more edges open, and strictly fewer when an edge
      among the first `n` is closed by them. */
  lemma {:induction false} CountOpenMonotone(key: seq<int>, key': seq<int>, es: seq<Edge>, n: int, toDest: bool)
    requires |key'| == |key| && EndpointsIn(es, |key|) && 0 <= n <= |es|
    requires forall x :: 0 <= x < |key| ==> key'[x] <= key[x]
    ensures CountOpen(key', es, n, toDest) <= CountOpen(key, es, n, toDest)
    ensures (exists j :: 0 <= j < n && Open(key, es[j], toDest) && !Open(key', es[j], toDest))
            ==> CountOpen(key', es, n, toDest) < CountOpen(key, es, n, toDest)
    decreases n
  {
    if n > 0 {
      CountOpenMonotone(key, key', es, n - 1, toDest);
    }
  }

  /** Lowering the key of an endpoint `v` of `es[j]` to that edge's weight
      uses up the relaxation along `es[j]` towards `v`. */
  lemma RelaxationUsesUp(key: seq<int>, key': seq<int>, es: seq<Edge>, j: int, v: int)
    requires |key'| == |key| && EndpointsIn(es, |key|)
    requires forall x :: 0 <= x < |key| ==> key'[x] <= key[x]
    requires 0 <= j < |es| && (v == es[j].dest || v == es[j].src)
    requires es[j].weight < key[v] && key'[v] == es[j].weight
    ensures Potential(key', es) < Potential(key, es)
  {
    var toDest := v == es[j].dest;
    assert Open(key, es[j], toDest) && !Open(key', es[j], toDest);
    CountOpenMonotone(key, key', es, |es|, true);
    CountOpenMonotone(key, key', es, |es|, false);
  }

  /** Every vertex with a parent is joined to it by an edge of `es`. */
  predicate ParentsAreEdges(s: PrimState, es: seq<Edge>)
    requires Shaped(s)
  {
    forall v :: 0 <= v < |s.key| && s.parent[v] != NoParent ==> HasEdge(es, s.parent[v], v)
  }

  /** The inner loop body for edge `es[j]` with the adjacency guard. */
  function RelaxAdjacent(s: PrimState, u: int, es: seq<Edge>, j: int): (r: PrimState)
    requires Shaped(s) && EndpointsIn(es, |s.key|) && 0 <= j < |es|
    ensures Shaped(r) && |r.key| == |s.key| && r.inMST == s.inMST
    ensures Improves(s, r)
    ensures r == s || Potential(r.key, es) < Potential(s.key, es)
    ensures ParentsAreEdges(s, es) ==> ParentsAreEdges(r, es)
  {
    var e := es[j];
    if Touches(e, u) then
      var v := Other(e, u);
      if !s.inMST[v] && e.weight < s.key[v] then
        var r := s.(key := s.key[v := e.weight], parent := s.parent[v := u], pq := s.pq + [(e.weight, v)]);
        RelaxationUsesUp(s.key, r.key, es, j, v);
        assert Joins(es[j], u, v);
        r
      else
        s
    else
      s
  }

  /** The inner `for` loop over the first `n` edges. */
  function RelaxAllAdjacent(s: PrimState, u: int, es: seq<Edge>, n: int): (r: PrimState)
    requires Shaped(s) && EndpointsIn(es, |s.key|) && 0 <= n <= |es|
    ensures Shaped(r) && |r.key| == |s.key| && r.inMST == s.inMST
    ensures Improves(s, r)
    ensures r == s || Potential(r.key, es) < Potential(s.key, es)
    ensures ParentsAreEdges(s, es) ==> ParentsAreEdges(r, es)
    decreases n
  {
    if n == 0 then s
    else
      var mid := RelaxAllAdjacent(s, u, es, n - 1);
      var r := RelaxAdjacent(mid, u, es, n - 1);
      ImprovesTransitive(s, mid, r);
      r
  }

  /** One iteration of the `while` loop with the adjacency guard: either
      some key drops, or nothing but the queue and the marks change. */
  function IterateAdjacent(s: PrimState, es: seq<Edge>): (r: PrimState)
    requires Shaped(s) && |s.pq| > 0 && EndpointsIn(es, |s.key|)
    ensures Shaped(r) && |r.key| == |s.key|
    ensures Improves(s, r)
    ensures Potential(r.key, es) < Potential(s.key, es)
            || (r.key == s.key && |r.pq| == |s.pq| - 1)
    ensures ParentsAreEdges(s, es) ==> ParentsAreEdges(r, es)
  {
    var popped := PopMin(s.pq);
    var u := popped.0.1;
    var marked := s.(inMST := s.inMST[u := true], pq := popped.1);
    var r := RelaxAllAdjacent(marked, u, es, |es|);
    ImprovesTransitive(s, marked, r);
    r
  }

  /** `primMST` with the adjacency guard. It terminates, and every printed
      pair `(parent[i], i)` either has no parent or is an edge of the graph. */
  method PrimAdjacentMST(g: Graph) returns (tree: seq<Pair>)
    requires WellFormed(g)
    ensures |tree| == g.V - 1
    ensures forall k :: 0 <= k < |tree| ==> tree[k].1 == k + 1
    ensures forall k :: 0 <= k < |tree| ==> tree[k].0 == NoParent || HasEdge(g.edges, tree[k].0, k + 1)
  {
    var s := Start(g.V);
    while |s.pq| > 0
      invariant Shaped(s) && |s.key| == g.V
      invariant ParentsAreEdges(s, g.edges)
      decreases Potential(s.key, g.edges), |s.pq|
    {
      s := IterateAdjacent(s, g.edges);
    }
    tree := seq(g.V - 1, i requires 0 <= i < g.V - 1 => (s.parent[i + 1], i + 1));
  }

  /** The three-vertex path 0 - 1 - 2, built as the program builds a graph:
      the constructor, then `addEdge(0, 1, 1)` and `addEdge(1, 2, 2)`. */
  function PathGraph(): (g: Graph)
    ensures WellFormed(g) && !HasEdge(g.edges, 0, 2)
    ensures g.edges == [Edge(0, 1, 1), Edge(1, 2, 2)]
  {
    var g := AddEdge(AddEdge(NewGraph(3, 2), 0, 1, 1), 1, 2, 2);
    assert g.edges == [Edge(0, 1, 1), Edge(1, 2, 2)];
    assert !Joins(g.edges[0], 0, 2) && !Joins(g.edges[1], 0, 2);
    g
  }

  /** On the path 0 - 1 - 2 the loop as written prints "0 - 2", a pair that
      is not an edge, while the guarded loop does not. */
  method AsWrittenCounterexample() returns (asWritten: seq<Pair>, adjacent: seq<Pair>)
    ensures asWritten == [(0, 1), (0, 2)]
    ensures !HasEdge(PathGraph().edges, asWritten[1].0, asWritten[1].1)
    ensures |adjacent| == 2 && adjacent[1] != (0, 2)
  {
    var g := PathGraph();
    ghost var final;
    asWritten, final := PrimMST(g);
    assert g.edges[0].dest == 1 && g.edges[1].dest == 2;
    assert asWritten[0].0 == 0 && asWritten[1].0 == 0;
    adjacent := PrimAdjacentMST(g);
  }
}
