/**
  The graph data holder: a vertex count, a declared edge count and the
  ordered list of weighted edges, exactly as the source's `Graph` class
  stores them.
 */
module Graphs {

  /** One edge as read from the input: endpoints are vertex indices, the
      weight is a signed integer. */
  datatype Edge = Edge(src: int, dest: int, weight: int)

  /** `V` vertices, a declared edge count `E` that nothing keeps in step
      with `edges`, and the edges in insertion order. */
  datatype Graph = Graph(V: int, E: int, edges: seq<Edge>)

  /** Both endpoints of every edge are vertex indices of a V-vertex graph. */
  predicate EndpointsIn(es: seq<Edge>, V: int)
  {
    forall j :: 0 <= j < |es| ==> 0 <= es[j].src < V && 0 <= es[j].dest < V
  }

  /** The inputs on which the algorithms are defined: at least one vertex
      and no edge pointing outside the vertex range. */
  predicate WellFormed(g: Graph)
  {
    g.V >= 1 && EndpointsIn(g.edges, g.V)
  }

  /** Two vertex indices, as an edge's endpoints are printed: `(u, v)` for
      `"u - v"`. */
  type Pair = (int, int)

  /** The endpoints of `e`, source first. */
  function Ends(e: Edge): Pair
  {
    (e.src, e.dest)
  }

  /** The endpoint pair `pr` joins `a` and `b`, in either direction. This is
      the one notion of "is an edge between" the other modules build on. */
  predicate Links(pr: Pair, a: int, b: int)
  {
    pr == (a, b) || pr == (b, a)
  }

  /** `e` joins `a` and `b`, in either direction. */
  predicate Joins(e: Edge, a: int, b: int)
  {
    Links(Ends(e), a, b)
  }

  /** Some edge of `es` joins `a` and `b`. */
  predicate HasEdge(es: seq<Edge>, a: int, b: int)
  {
    exists j :: 0 <= j < |es| && Joins(es[j], a, b)
  }

  /** The constructor: it records V and E and starts with no edges. */
  function NewGraph(V: int, E: int): (g: Graph)
    ensures g.V == V && g.E == E && |g.edges| == 0
  {
    Graph(V, E, [])
  }

  /** Appends one edge at the end of the edge list; V and E are untouched. */
  function AddEdge(g: Graph, src: int, dest: int, weight: int): (g': Graph)
    ensures g'.V == g.V && g'.E == g.E
    ensures |g'.edges| == |g.edges| + 1
    ensures g'.edges[..|g.edges|] == g.edges
    ensures g'.edges[|g.edges|].src == src && g'.edges[|g.edges|].dest == dest
    ensures g'.edges[|g.edges|].weight == weight
  {
    g.(edges := g.edges + [Edge(src, dest, weight)])
  }

  /** A sequence of `AddEdge` calls, one per element of `es`, in order. */
  function AddEdges(g: Graph, es: seq<Edge>): (g': Graph)
    decreases |es|
  {
    if |es| == 0 then g
    else AddEdges(AddEdge(g, es[0].src, es[0].dest, es[0].weight), es[1..])
  }

  /** Repeated additions keep the input order, never touch V and never bring
      the declared count E up to date. */
  lemma {:induction false} AddEdgesAppends(g: Graph, es: seq<Edge>)
    ensures AddEdges(g, es).edges == g.edges + es
    ensures AddEdges(g, es).V == g.V && AddEdges(g, es).E == g.E
    decreases |es|
  {
    if |es| > 0 {
      var g1 := AddEdge(g, es[0].src, es[0].dest, es[0].weight);
      AddEdgesAppends(g1, es[1..]);
      assert g1.edges == g.edges + [es[0]];
      assert es == [es[0]] + es[1..];
    }
  }

  /** Adding an edge keeps the graph well formed exactly when the new
      endpoints are vertex indices. */
  lemma AddEdgeWellFormed(g: Graph, src: int, dest: int, weight: int)
    requires WellFormed(g)
    ensures WellFormed(AddEdge(g, src, dest, weight)) <==> 0 <= src < g.V && 0 <= dest < g.V
  {
    var g' := AddEdge(g, src, dest, weight);
    assert g'.edges[|g.edges|] == Edge(src, dest, weight);
    assert forall j :: 0 <= j < |g.edges| ==> g'.edges[j] == g.edges[j];
  }
}
