/**
  The "Prim" loop exactly as the source writes it. Vertex 0 starts with key
  0; a min-priority queue of `(key, vertex)` pairs drives the loop; each
  popped vertex `u` is marked as in the tree and then EVERY edge of the
  graph is scanned, relaxing its `dest` endpoint with no check that the edge
  touches `u`. The consequence proved here: all relaxation happens while
  vertex 0 is processed, after which `key[v]` is the least weight of the
  edges into `v` (or INT_MAX) and `parent[v]` is 0 or -1.
 */
module Prim {
  import opened Graphs

  /** INT_MAX of a 32-bit `int`, the initial key ("infinity"). */
  const IntMax: int := 0x7fff_ffff

  /** The initial `parent` entry, printed for vertices never relaxed. */
  const NoParent: int := -1

  /** A queue entry `(key, vertex)`. */
  type Entry = (int, int)

  /** The order of `std::pair`: by key, then by vertex. */
  predicate EntryLeq(a: Entry, b: Entry)
  {
    a.0 < b.0 || (a.0 == b.0 && a.1 <= b.1)
  }

  /** Position of a least entry of a non-empty queue. */
  function MinIndex(q: seq<Entry>): (k: nat)
    requires |q| > 0
    ensures k < |q|
    ensures forall j :: 0 <= j < |q| ==> EntryLeq(q[k], q[j])
    decreases |q|
  {
    if |q| == 1 then 0
    else
      var k := MinIndex(q[1..]);
      assert forall j :: 1 <= j < |q| ==> q[j] == q[1..][j - 1];
      if EntryLeq(q[0], q[1 + k]) then 0 else 1 + k
  }

  /** `top` followed by `pop` on the min-heap: a least entry and the queue
      without it. The heap's contents are a bag, so only the multiset of the
      remaining entries matters. */
  function PopMin(q: seq<Entry>): (r: (Entry, seq<Entry>))
    requires |q| > 0
    ensures r.0 in q
    ensures forall x :: x in q ==> EntryLeq(r.0, x)
    ensures multiset(r.1) + multiset{r.0} == multiset(q)
    ensures |r.1| == |q| - 1
    ensures forall x :: x in r.1 ==> x in q
  {
    var k := MinIndex(q);
    assert q == q[..k] + [q[k]] + q[k + 1..];
    var rest := q[..k] + q[k + 1..];
    assert forall x :: x in rest ==> x in multiset(q);
    (q[k], rest)
  }

  /** The local state of `primMST`: the three arrays and the queue. */
  datatype PrimState = PrimState(key: seq<int>, parent: seq<int>, inMST: seq<bool>, pq: seq<Entry>)

  /** The arrays have one entry per vertex and the queue names only vertices. */
  predicate Shaped(s: PrimState)
  {
    |s.parent| == |s.key| && |s.inMST| == |s.key|
    && forall x :: x in s.pq ==> 0 <= x.1 < |s.key|
  }

  /** The state before the loop: key 0 for vertex 0 and INT_MAX for the
      rest, no parents, nothing in the tree, `(0, 0)` queued. */
  function Start(V: int): (s: PrimState)
    requires V >= 1
    ensures Shaped(s) && |s.key| == V
    ensures s.key[0] == 0 && !s.inMST[0] && s.pq == [(0, 0)]
    ensures forall v :: 1 <= v < V ==> s.key[v] == IntMax && !s.inMST[v]
    ensures forall v :: 0 <= v < V ==> s.parent[v] == NoParent
  {
    PrimState(seq(V, v => if v == 0 then 0 else IntMax), seq(V, v => NoParent), seq(V, v => false), [(0, 0)])
  }

  /** The relaxation test `!inMST[v] && weight < key[v]` with `v` the
      edge's `dest`: `dest` is outside the tree and the edge is lighter than
      its current key. */
  predicate Relaxable(s: PrimState, e: Edge)
    requires Shaped(s) && 0 <= e.dest < |s.key|
  {
    !s.inMST[e.dest] && e.weight < s.key[e.dest]
  }

  /** No edge of `es` passes the relaxation test. */
  predicate Settled(s: PrimState, es: seq<Edge>)
    requires Shaped(s) && EndpointsIn(es, |s.key|)
  {
    forall j :: 0 <= j < |es| ==> !Relaxable(s, es[j])
  }

  /** `r` is a possible later state of `s`: keys never grow, a parent
      changes only together with a strict key decrease, and a vertex in the
      tree stays there. */
  predicate Improves(s: PrimState, r: PrimState)
    requires Shaped(s) && Shaped(r) && |r.key| == |s.key|
  {
    forall v :: 0 <= v < |s.key| ==>
      r.key[v] <= s.key[v]
      && (r.parent[v] != s.parent[v] ==> r.key[v] < s.key[v])
      && (s.inMST[v] ==> r.inMST[v])
  }

  lemma ImprovesTransitive(s: PrimState, m: PrimState, r: PrimState)
    requires Shaped(s) && Shaped(m) && Shaped(r) && |m.key| == |s.key| && |r.key| == |s.key|
    requires Improves(s, m) && Improves(m, r)
    ensures Improves(s, r)
  {
    forall v | 0 <= v < |s.key|
      ensures r.key[v] <= s.key[v]
      ensures r.parent[v] != s.parent[v] ==> r.key[v] < s.key[v]
      ensures s.inMST[v] ==> r.inMST[v]
    {
      assert m.key[v] <= s.key[v] && r.key[v] <= m.key[v];
    }
  }

  /** One pass of the body of `for (auto& edge : edges)` for edge `e` while
      processing `u`: if the test passes, `dest` gets the edge's weight as
      key and `u` as parent and is queued; otherwise nothing changes. */
  function RelaxEdge(s: PrimState, u: int, e: Edge): (r: PrimState)
    requires Shaped(s) && 0 <= e.dest < |s.key|
    ensures Shaped(r) && |r.key| == |s.key| && r.inMST == s.inMST
    ensures Improves(s, r)
    ensures !Relaxable(r, e)
    ensures !Relaxable(s, e) ==> r == s
    ensures Relaxable(s, e) ==>
      r.key[e.dest] == e.weight && r.parent[e.dest] == u && r.pq == s.pq + [(e.weight, e.dest)]
    ensures forall v :: 0 <= v < |s.key| && v != e.dest ==> r.key[v] == s.key[v] && r.parent[v] == s.parent[v]
  {
    var v := e.dest;
    if !s.inMST[v] && e.weight < s.key[v] then
      s.(key := s.key[v := e.weight], parent := s.parent[v := u], pq := s.pq + [(e.weight, v)])
    else
      s
  }

  /** The whole inner `for` loop: the edges of `es` relaxed in order. Since
      the test ignores `u`, the result is settled for every edge of `es`,
      and a state that is already settled is left as it is. */
  function RelaxAll(s: PrimState, u: int, es: seq<Edge>): (r: PrimState)
    requires Shaped(s) && EndpointsIn(es, |s.key|)
    ensures Shaped(r) && |r.key| == |s.key| && r.inMST == s.inMST
    ensures Improves(s, r)
    ensures Settled(r, es)
    ensures Settled(s, es) ==> r == s
    decreases |es|
  {
    if |es| == 0 then s
    else
      var n := |es| - 1;
      var front := es[..n];
      assert forall j :: 0 <= j < n ==> front[j] == es[j];
      var mid := RelaxAll(s, u, front);
      var r := RelaxEdge(mid, u, es[n]);
      ImprovesTransitive(s, mid, r);
      SettledStays(mid, r, front);
      r
  }

  /** One unfolding of `RelaxAll`: the last edge is relaxed after all the
      others. */
  lemma RelaxAllStep(s: PrimState, u: int, es: seq<Edge>)
    requires Shaped(s) && EndpointsIn(es, |s.key|) && |es| > 0
    ensures RelaxAll(s, u, es) == RelaxEdge(RelaxAll(s, u, es[..|es| - 1]), u, es[|es| - 1])
  {
  }

  /** Lower keys with the same tree marks leave a settled edge settled. */
  lemma SettledStays(s: PrimState, r: PrimState, es: seq<Edge>)
    requires Shaped(s) && Shaped(r) && |r.key| == |s.key| && r.inMST == s.inMST
    requires EndpointsIn(es, |s.key|) && Improves(s, r) && Settled(s, es)
    ensures Settled(r, es)
  {
    forall j | 0 <= j < |es|
      ensures !Relaxable(r, es[j])
    {
      assert !Relaxable(s, es[j]);
    }
  }

  /** One iteration of `while (!pq.empty())`: pop a least entry,
      mark its vertex as in the tree, relax over all edges. */
  function Iterate(s: PrimState, es: seq<Edge>): (r: PrimState)
    requires Shaped(s) && |s.pq| > 0 && EndpointsIn(es, |s.key|)
    ensures Shaped(r) && |r.key| == |s.key|
    ensures Improves(s, r)
    ensures r.inMST[PopMin(s.pq).0.1]
    ensures Settled(r, es)
    ensures Settled(s, es) ==> r.key == s.key && r.parent == s.parent && |r.pq| == |s.pq| - 1
  {
    var popped := PopMin(s.pq);
    var u := popped.0.1;
    var marked := s.(inMST := s.inMST[u := true], pq := popped.1);
    assert Settled(s, es) ==> Settled(marked, es);
    var r := RelaxAll(marked, u, es);
    ImprovesTransitive(s, marked, r);
    r
  }

  /** The least weight of an edge of `es` into `v`, or INT_MAX when that
      least weight is not below INT_MAX. */
  function KeyBound(es: seq<Edge>, v: int): int
    decreases |es|
  {
    if |es| == 0 then IntMax
    else
      var b := KeyBound(es[..|es| - 1], v);
      var last := es[|es| - 1];
      if last.dest == v && last.weight < b then last.weight else b
  }

  /** `KeyBound` is the minimum it is meant to be: at most INT_MAX, at most
      every weight into `v`, and either INT_MAX or attained by an edge into
      `v`. */
  lemma {:induction false} KeyBoundIsMin(es: seq<Edge>, v: int)
    ensures KeyBound(es, v) <= IntMax
    ensures forall j :: 0 <= j < |es| && es[j].dest == v ==> KeyBound(es, v) <= es[j].weight
    ensures KeyBound(es, v) == IntMax
            || exists j :: 0 <= j < |es| && es[j].dest == v && es[j].weight == KeyBound(es, v)
    decreases |es|
  {
    if |es| > 0 {
      var n := |es| - 1;
      var front := es[..n];
      KeyBoundIsMin(front, v);
      assert forall j :: 0 <= j < n ==> front[j] == es[j];
      if KeyBound(front, v) != IntMax && KeyBound(es, v) == KeyBound(front, v) {
        var j :| 0 <= j < n && front[j].dest == v && front[j].weight == KeyBound(front, v);
        assert es[j].dest == v && es[j].weight == KeyBound(es, v);
      }
    }
  }

  /** Some edge into `v` is lighter than INT_MAX exactly when `KeyBound` is. */
  lemma KeyBoundBelowMax(es: seq<Edge>, v: int)
    ensures KeyBound(es, v) < IntMax <==> exists j :: 0 <= j < |es| && es[j].dest == v && es[j].weight < IntMax
  {
    KeyBoundIsMin(es, v);
  }

  /** The state the loop reaches after its first iteration and keeps from
      then on: nothing can be relaxed, vertex 0 is in the tree with key 0 and
      no parent, and every other vertex has `KeyBound` as key and parent 0
      exactly when that key is below INT_MAX. */
  predicate Frozen(s: PrimState, es: seq<Edge>)
  {
    Shaped(s) && |s.key| >= 1 && EndpointsIn(es, |s.key|) && Settled(s, es)
    && s.inMST[0] && s.key[0] == 0 && s.parent[0] == NoParent
    && forall v :: 1 <= v < |s.key| ==>
         s.key[v] == KeyBound(es, v) && s.parent[v] == (if KeyBound(es, v) < IntMax then 0 else NoParent)
  }

  /** Relaxing while processing vertex 0, from the state just after vertex 0
      is marked: every other vertex ends with `KeyBound` as key and parent 0
      or -1, and vertex 0 keeps key 0 and no parent. */
  lemma {:induction false} RelaxFromRoot(s: PrimState, es: seq<Edge>)
    requires Shaped(s) && |s.key| >= 1 && EndpointsIn(es, |s.key|)
    requires s.inMST[0] && s.key[0] == 0 && s.parent[0] == NoParent
    requires forall v :: 1 <= v < |s.key| ==> !s.inMST[v] && s.key[v] == IntMax && s.parent[v] == NoParent
    ensures RelaxAll(s, 0, es).key[0] == 0 && RelaxAll(s, 0, es).parent[0] == NoParent
    ensures forall v :: 1 <= v < |s.key| ==>
      RelaxAll(s, 0, es).key[v] == KeyBound(es, v)
      && RelaxAll(s, 0, es).parent[v] == (if KeyBound(es, v) < IntMax then 0 else NoParent)
    decreases |es|
  {
    if |es| > 0 {
      var n := |es| - 1;
      var front := es[..n];
      assert es == front + [es[n]];
      RelaxFromRoot(s, front);
      RelaxAllStep(s, 0, es);
      RootStep(RelaxAll(s, 0, front), front, es[n]);
    }
  }

  /** Relaxing one more edge `e` while processing vertex 0 extends the
      `KeyBound` keys and the 0-or-(-1) parents from `front` to
      `front + [e]`. */
  lemma RootStep(mid: PrimState, front: seq<Edge>, e: Edge)
    requires Shaped(mid) && |mid.key| >= 1 && EndpointsIn(front, |mid.key|)
    requires 0 <= e.src < |mid.key| && 0 <= e.dest < |mid.key|
    requires mid.inMST[0] && mid.key[0] == 0 && mid.parent[0] == NoParent
    requires forall v :: 1 <= v < |mid.key| ==>
      !mid.inMST[v] && mid.key[v] == KeyBound(front, v)
      && mid.parent[v] == (if KeyBound(front, v) < IntMax then 0 else NoParent)
    ensures RelaxEdge(mid, 0, e).key[0] == 0 && RelaxEdge(mid, 0, e).parent[0] == NoParent
    ensures forall v :: 1 <= v < |mid.key| ==>
      RelaxEdge(mid, 0, e).key[v] == KeyBound(front + [e], v)
      && RelaxEdge(mid, 0, e).parent[v] == (if KeyBound(front + [e], v) < IntMax then 0 else NoParent)
  {
    var r := RelaxEdge(mid, 0, e);
    assert (front + [e])[..|front|] == front;
    forall v | 1 <= v < |mid.key|
      ensures r.key[v] == KeyBound(front + [e], v)
      ensures r.parent[v] == (if KeyBound(front + [e], v) < IntMax then 0 else NoParent)
    {
      KeyBoundIsMin(front, v);
      assert KeyBound(front + [e], v)
          == if e.dest == v && e.weight < KeyBound(front, v) then e.weight else KeyBound(front, v);
    }
  }

  /** The first iteration pops `(0, 0)`, marks vertex 0 and leaves the loop
      in the `Frozen` state. */
  lemma FirstIteration(V: int, es: seq<Edge>)
    requires V >= 1 && EndpointsIn(es, V)
    ensures Frozen(Iterate(Start(V), es), es)
  {
    var s := Start(V);
    assert MinIndex(s.pq) == 0;
    assert PopMin(s.pq) == ((0, 0), []);
    var marked := s.(inMST := s.inMST[0 := true], pq := []);
    RelaxFromRoot(marked, es);
    assert Iterate(s, es) == RelaxAll(marked, 0, es);
  }

  /** Every later iteration only pops and marks: keys and parents stay put. */
  lemma FrozenStep(s: PrimState, es: seq<Edge>)
    requires Frozen(s, es) && |s.pq| > 0
    ensures Frozen(Iterate(s, es), es)
    ensures |Iterate(s, es).pq| == |s.pq| - 1
  {
  }

  /** `primMST`: the `while (!pq.empty())` loop followed by the output loop
      that prints `parent[i] - i`, one pair `(parent[i], i)` per vertex `i`
      from 1 to V-1. The
      printed parent is 0 exactly when some edge into `i` weighs less than
      INT_MAX, and -1 otherwise; `final` is the state the loop ends in. */
  method PrimMST(g: Graph) returns (tree: seq<Pair>, ghost final: PrimState)
    requires WellFormed(g)
    ensures |tree| == g.V - 1
    ensures forall k :: 0 <= k < |tree| ==> tree[k].1 == k + 1
    ensures forall k :: 0 <= k < |tree| ==> tree[k].0 == 0 || tree[k].0 == NoParent
    ensures forall k :: 0 <= k < |tree| ==>
      (tree[k].0 == 0 <==> exists j :: 0 <= j < |g.edges| && g.edges[j].dest == k + 1 && g.edges[j].weight < IntMax)
    ensures Shaped(final) && |final.key| == g.V && |final.pq| == 0
    ensures final.key[0] == 0 && final.parent[0] == NoParent
    ensures forall k :: 0 <= k < |tree| ==> tree[k].0 == final.parent[k + 1]
    ensures forall v :: 1 <= v < g.V ==> final.key[v] == KeyBound(g.edges, v)
    ensures forall v :: 1 <= v < g.V ==> final.key[v] <= IntMax
    ensures forall v, j :: 1 <= v < g.V && 0 <= j < |g.edges| && g.edges[j].dest == v ==> final.key[v] <= g.edges[j].weight
    ensures forall v :: 1 <= v < g.V && final.key[v] != IntMax ==>
      exists j :: 0 <= j < |g.edges| && g.edges[j].dest == v && g.edges[j].weight == final.key[v]
  {
    var s := Start(g.V);
    while |s.pq| > 0
      invariant Shaped(s) && |s.key| == g.V
      invariant s == Start(g.V) || Frozen(s, g.edges)
      decreases if s == Start(g.V) then 1 else 0, |s.pq|
    {
      if s == Start(g.V) {
        FirstIteration(g.V, g.edges);
      } else {
        FrozenStep(s, g.edges);
      }
      s := Iterate(s, g.edges);
    }
    tree := seq(g.V - 1, i requires 0 <= i < g.V - 1 => (s.parent[i + 1], i + 1));
    final := s;
    FrozenResult(s, g.edges);
  }

  /** What a `Frozen` state says about each vertex `v >= 1`: its key is the
      least weight into `v` (at most INT_MAX, at most every weight into `v`,
      attained unless INT_MAX), and its parent is 0 exactly when an edge
      into `v` weighs less than INT_MAX, -1 otherwise. */
  lemma FrozenResult(s: PrimState, es: seq<Edge>)
    requires Frozen(s, es)
    ensures forall v :: 1 <= v < |s.key| ==> s.parent[v] == 0 || s.parent[v] == NoParent
    ensures forall v :: 1 <= v < |s.key| ==>
      (s.parent[v] == 0 <==> exists j :: 0 <= j < |es| && es[j].dest == v && es[j].weight < IntMax)
    ensures forall v :: 1 <= v < |s.key| ==> s.key[v] <= IntMax
    ensures forall v, j :: 1 <= v < |s.key| && 0 <= j < |es| && es[j].dest == v ==> s.key[v] <= es[j].weight
    ensures forall v :: 1 <= v < |s.key| && s.key[v] != IntMax ==>
      exists j :: 0 <= j < |es| && es[j].dest == v && es[j].weight == s.key[v]
  {
    forall v | 1 <= v < |s.key|
      ensures s.parent[v] == 0 <==> exists j :: 0 <= j < |es| && es[j].dest == v && es[j].weight < IntMax
      ensures s.key[v] <= IntMax
      ensures forall j :: 0 <= j < |es| && es[j].dest == v ==> s.key[v] <= es[j].weight
      ensures s.key[v] != IntMax ==> exists j :: 0 <= j < |es| && es[j].dest == v && es[j].weight == s.key[v]
    {
      KeyBoundBelowMax(es, v);
      KeyBoundIsMin(es, v);
    }
  }
}
