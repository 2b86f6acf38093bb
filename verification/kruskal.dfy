/**
  Kruskal's algorithm as the source writes it: sort the graph's own edge
  list by weight (in place), start from singleton sets, and accept every
  edge whose endpoints have different representatives, merging with
  `parent[setU] = setV`. Accepted edges are returned as `(src, dest)`
  pairs in the order they would be printed.
 */
module Kruskal {
  import opened Graphs
  import opened DisjointSet
  import opened EdgeSort

  /** One iteration of the scan over the sorted edges: the edge is accepted
      exactly when its endpoints lie in different sets; a rejected edge
      leaves the parent array as it was, an accepted one merges the two sets
      and nothing else. */
  function Consider(p: seq<int>, e: Edge): (r: (seq<int>, bool))
    requires Acyclic(p) && 0 <= e.src < |p| && 0 <= e.dest < |p|
    ensures |r.0| == |p| && Acyclic(r.0)
    ensures r.1 <==> Find(p, e.src) != Find(p, e.dest)
    ensures !r.1 ==> r.0 == p
    ensures e.src == e.dest ==> !r.1
    ensures |Roots(r.0)| + (if r.1 then 1 else 0) == |Roots(p)|
    ensures forall x :: 0 <= x < |p| ==>
      Find(r.0, x) == if r.1 && Find(p, x) == Find(p, e.src) then Find(p, e.dest) else Find(p, x)
    ensures Find(r.0, e.src) == Find(r.0, e.dest)
  {
    var setU := Find(p, e.src);
    var setV := Find(p, e.dest);
    if setU != setV then (Union(p, setU, setV), true) else (p, false)
  }

  /** `pr` is the pair of endpoints of some edge of `es`. */
  ghost predicate IsEdgeOf(pr: Pair, es: seq<Edge>)
  {
    exists j :: 0 <= j < |es| && pr == Ends(es[j])
  }

  /** The rest of the scan, from position `i` of `es` with parent array `p`
      and the edges `t` emitted so far: the final parent array and all
      emitted edges. Each accepted edge removes one representative, and the
      scan emits nothing but endpoints of input edges. */
  function KruskalFrom(p: seq<int>, es: seq<Edge>, i: int, t: seq<Pair>): (r: (seq<int>, seq<Pair>))
    requires Acyclic(p) && EndpointsIn(es, |p|) && 0 <= i <= |es|
    ensures |r.0| == |p| && Acyclic(r.0)
    ensures |Roots(r.0)| + |r.1| == |Roots(p)| + |t|
    ensures (forall k :: 0 <= k < |t| ==> IsEdgeOf(t[k], es))
            ==> forall k :: 0 <= k < |r.1| ==> IsEdgeOf(r.1[k], es)
    decreases |es| - i
  {
    if i == |es| then (p, t)
    else
      var step := Consider(p, es[i]);
      var t' := if step.1 then t + [Ends(es[i])] else t;
      assert (forall k :: 0 <= k < |t| ==> IsEdgeOf(t[k], es))
             ==> forall k :: 0 <= k < |t'| ==> IsEdgeOf(t'[k], es) by {
        assert IsEdgeOf(Ends(es[i]), es);
      }
      KruskalFrom(step.0, es, i + 1, t')
  }

  /** `a` and `b` are the two ends of some edge of `t`, in either order. */
  ghost predicate Linked(t: seq<Pair>, a: int, b: int)
  {
    exists k :: 0 <= k < |t| && Links(t[k], a, b)
  }

  /** A walk along the (undirected) edges of `t`. */
  ghost predicate IsPath(t: seq<Pair>, path: seq<int>)
  {
    |path| >= 1 && forall k :: 0 <= k < |path| - 1 ==> Linked(t, path[k], path[k + 1])
  }

  ghost predicate Connected(t: seq<Pair>, a: int, b: int)
  {
    exists path :: IsPath(t, path) && path[0] == a && path[|path| - 1] == b
  }

  /** No edge of `t` closes a cycle: each one joins two vertices that the
      edges before it did not connect. */
  ghost predicate Forest(t: seq<Pair>)
  {
    forall k :: 0 <= k < |t| ==> !Connected(t[..k], t[k].0, t[k].1)
  }

  /** Every edge of `t` lies inside one set of `p`. */
  ghost predicate WithinSets(p: seq<int>, t: seq<Pair>)
    requires Acyclic(p)
  {
    forall k :: 0 <= k < |t| ==>
      0 <= t[k].0 < |p| && 0 <= t[k].1 < |p| && Find(p, t[k].0) == Find(p, t[k].1)
  }

  /** A walk along edges that stay inside sets never leaves its set. */
  lemma {:induction false} PathKeepsRoot(p: seq<int>, t: seq<Pair>, path: seq<int>)
    requires Acyclic(p) && WithinSets(p, t)
    requires IsPath(t, path) && 0 <= path[0] < |p|
    ensures 0 <= path[|path| - 1] < |p|
    ensures Find(p, path[0]) == Find(p, path[|path| - 1])
    decreases |path|
  {
    var n := |path|;
    if n > 1 {
      var prefix := path[..n - 1];
      assert IsPath(t, prefix) by {
        forall k | 0 <= k < |prefix| - 1
          ensures Linked(t, prefix[k], prefix[k + 1])
        {
          assert prefix[k] == path[k] && prefix[k + 1] == path[k + 1];
        }
      }
      PathKeepsRoot(p, t, prefix);
      assert Linked(t, path[n - 2], path[n - 1]);
      var k :| 0 <= k < |t| && Links(t[k], path[n - 2], path[n - 1]);
    }
  }

  /** Two vertices in different sets are not connected by edges that stay
      inside sets. */
  lemma SeparateNotConnected(p: seq<int>, t: seq<Pair>, a: int, b: int)
    requires Acyclic(p) && WithinSets(p, t)
    requires 0 <= a < |p| && 0 <= b < |p| && Find(p, a) != Find(p, b)
    ensures !Connected(t, a, b)
  {
    if Connected(t, a, b) {
      var path :| IsPath(t, path) && path[0] == a && path[|path| - 1] == b;
      PathKeepsRoot(p, t, path);
    }
  }

  /** Appending an edge between unconnected vertices keeps a forest a forest. */
  lemma ForestExtend(t: seq<Pair>, a: int, b: int)
    requires Forest(t) && !Connected(t, a, b)
    ensures Forest(t + [(a, b)])
  {
    var t' := t + [(a, b)];
    forall k | 0 <= k < |t'|
      ensures !Connected(t'[..k], t'[k].0, t'[k].1)
    {
      if k < |t| {
        assert t'[..k] == t[..k];
      } else {
        assert t'[..k] == t;
      }
    }
  }

  /** Every vertex is connected to itself by the one-vertex walk. */
  lemma ConnectedRefl(t: seq<Pair>, a: int)
    ensures Connected(t, a, a)
  {
    assert IsPath(t, [a]);
  }

  /** Links are undirected, so walks can be reversed. */
  lemma ConnectedSym(t: seq<Pair>, a: int, b: int)
    requires Connected(t, a, b)
    ensures Connected(t, b, a)
  {
    var path :| IsPath(t, path) && path[0] == a && path[|path| - 1] == b;
    var n := |path|;
    var back := seq(n, i requires 0 <= i < n => path[n - 1 - i]);
    forall k | 0 <= k < n - 1
      ensures Linked(t, back[k], back[k + 1])
    {
      var m := n - 2 - k;
      assert Linked(t, path[m], path[m + 1]);
      var j :| 0 <= j < |t| && Links(t[j], path[m], path[m + 1]);
      assert Links(t[j], back[k], back[k + 1]);
    }
    assert IsPath(t, back);
  }

  /** Walks compose. */
  lemma ConnectedTrans(t: seq<Pair>, a: int, b: int, c: int)
    requires Connected(t, a, b) && Connected(t, b, c)
    ensures Connected(t, a, c)
  {
    var p1 :| IsPath(t, p1) && p1[0] == a && p1[|p1| - 1] == b;
    var p2 :| IsPath(t, p2) && p2[0] == b && p2[|p2| - 1] == c;
    var path := p1 + p2[1..];
    forall k | 0 <= k < |path| - 1
      ensures Linked(t, path[k], path[k + 1])
    {
      if k < |p1| - 1 {
        assert path[k] == p1[k] && path[k + 1] == p1[k + 1];
      } else {
        var m := k - |p1| + 1;
        assert path[k] == p2[m] && path[k + 1] == p2[m + 1];
      }
    }
    assert IsPath(t, path);
  }

  /** A walk along links of `t` is a walk along `t'` when every link of `t`
      is one of `t'`. */
  lemma ConnectedMono(t: seq<Pair>, t': seq<Pair>, a: int, b: int)
    requires forall k :: 0 <= k < |t| ==> t[k] in t'
    requires Connected(t, a, b)
    ensures Connected(t', a, b)
  {
    var path :| IsPath(t, path) && path[0] == a && path[|path| - 1] == b;
    forall k | 0 <= k < |path| - 1
      ensures Linked(t', path[k], path[k + 1])
    {
      assert Linked(t, path[k], path[k + 1]);
      var j :| 0 <= j < |t| && Links(t[j], path[k], path[k + 1]);
      assert t[j] in t';
      var j' :| 0 <= j' < |t'| && t'[j'] == t[j];
    }
    assert IsPath(t', path);
  }

  /** The converse of `WithinSets`: two vertices in the same set are
      connected by the edges emitted so far. */
  ghost predicate SetsConnected(p: seq<int>, t: seq<Pair>)
    requires Acyclic(p)
  {
    forall a, b :: 0 <= a < |p| && 0 <= b < |p| && Find(p, a) == Find(p, b) ==> Connected(t, a, b)
  }

  /** One scan step keeps `SetsConnected`: a merge joins `u`'s set to `v`'s
      through the emitted edge `(u, v)`. */
  lemma ConsiderKeepsSetsConnected(p: seq<int>, t: seq<Pair>, e: Edge)
    requires Acyclic(p) && SetsConnected(p, t)
    requires 0 <= e.src < |p| && 0 <= e.dest < |p|
    ensures SetsConnected(Consider(p, e).0, if Consider(p, e).1 then t + [Ends(e)] else t)
  {
    var step := Consider(p, e);
    if step.1 {
      var q := step.0;
      var t' := t + [Ends(e)];
      var ru, rv := Find(p, e.src), Find(p, e.dest);
      assert forall k :: 0 <= k < |t| ==> t[k] in t' by {
        forall k | 0 <= k < |t|
          ensures t[k] in t'
        {
          assert t'[k] == t[k];
        }
      }
      assert Connected(t', e.src, e.dest) by {
        assert Linked(t', e.src, e.dest) by {
          assert Links(t'[|t|], e.src, e.dest);
        }
        assert IsPath(t', [e.src, e.dest]);
      }
      forall a, b | 0 <= a < |q| && 0 <= b < |q| && Find(q, a) == Find(q, b)
        ensures Connected(t', a, b)
      {
        var fa, fb := Find(p, a), Find(p, b);
        if fa == fb {
          ConnectedMono(t, t', a, b);
        } else {
          assert (fa == ru && fb == rv) || (fa == rv && fb == ru);
          var x, y := if fa == ru then a else b, if fa == ru then b else a;
          ConnectedRefl(t, e.src);
          ConnectedRefl(t, e.dest);
          assert Connected(t, x, e.src);
          assert Connected(t, e.dest, y);
          ConnectedMono(t, t', x, e.src);
          ConnectedMono(t, t', e.dest, y);
          ConnectedTrans(t', x, e.src, e.dest);
          ConnectedTrans(t', x, e.dest, y);
          if x != a {
            ConnectedSym(t', x, y);
          }
        }
      }
    }
  }

  /** From singletons, sets are connected trivially: each holds one vertex. */
  lemma IdentitySetsConnected(V: nat)
    ensures SetsConnected(Identity(V), [])
  {
    forall a, b | 0 <= a < V && 0 <= b < V && Find(Identity(V), a) == Find(Identity(V), b)
      ensures Connected([], a, b)
    {
      ConnectedRefl([], a);
    }
  }

  /** When a single set is left, the emitted edges connect vertex 0 to every
      vertex, and so do the input edges they were taken from. */
  lemma OneSetSpans(p: seq<int>, t: seq<Pair>, es: seq<Edge>)
    requires Acyclic(p) && |p| >= 1 && SetsConnected(p, t) && |Roots(p)| == 1
    requires forall k :: 0 <= k < |t| ==> IsEdgeOf(t[k], es)
    ensures forall v :: 0 <= v < |p| ==> Connected(t, 0, v) && Connected(AllEnds(es), 0, v)
  {
    var root := Find(p, 0);
    assert |Roots(p) - {root}| == 0;
    forall v | 0 <= v < |p|
      ensures Connected(t, 0, v)
    {
      assert Find(p, v) in Roots(p);
    }
    SpanningInput(t, es, |p|);
  }

  /** The rest of the scan keeps `SetsConnected`. */
  lemma {:induction false} FromKeepsSetsConnected(p: seq<int>, es: seq<Edge>, i: int, t: seq<Pair>)
    requires Acyclic(p) && EndpointsIn(es, |p|) && 0 <= i <= |es|
    requires SetsConnected(p, t)
    ensures SetsConnected(KruskalFrom(p, es, i, t).0, KruskalFrom(p, es, i, t).1)
    decreases |es| - i
  {
    if i < |es| {
      var step := Consider(p, es[i]);
      var t' := if step.1 then t + [Ends(es[i])] else t;
      ConsiderKeepsSetsConnected(p, t, es[i]);
      FromKeepsSetsConnected(step.0, es, i + 1, t');
      assert KruskalFrom(p, es, i, t) == KruskalFrom(step.0, es, i + 1, t');
    }
  }

  /** A scan from singletons that emits V - 1 edges leaves one set, so its
      edges, and the input edges they come from, connect every vertex to 0. */
  lemma ScanSpans(V: nat, es: seq<Edge>)
    requires V >= 1 && EndpointsIn(es, V)
    requires |KruskalFrom(Identity(V), es, 0, []).1| == V - 1
    ensures forall v :: 0 <= v < V ==>
      Connected(KruskalFrom(Identity(V), es, 0, []).1, 0, v) && Connected(AllEnds(es), 0, v)
  {
    var r := KruskalFrom(Identity(V), es, 0, []);
    IdentitySetsConnected(V);
    FromKeepsSetsConnected(Identity(V), es, 0, []);
    RootsNonEmpty(r.0);
    OneSetSpans(r.0, r.1, es);
  }

  /** Everything the scan keeps true about its parent array and the edges
      it has emitted so far. */
  ghost predicate ScanState(p: seq<int>, t: seq<Pair>)
  {
    Acyclic(p) && WithinSets(p, t) && Forest(t)
    && (forall k :: 0 <= k < |t| ==> t[k].0 != t[k].1)
  }

  /** One scan step keeps `ScanState` and trades one representative for
      one emitted edge when it accepts. */
  lemma ConsiderKeepsScanState(p: seq<int>, t: seq<Pair>, e: Edge)
    requires ScanState(p, t)
    requires 0 <= e.src < |p| && 0 <= e.dest < |p|
    ensures ScanState(Consider(p, e).0, if Consider(p, e).1 then t + [Ends(e)] else t)
    ensures |Roots(Consider(p, e).0)| + |if Consider(p, e).1 then t + [Ends(e)] else t|
            == |Roots(p)| + |t|
  {
    ConsiderKeepsWithinSets(p, t, e);
    if Consider(p, e).1 {
      SeparateNotConnected(p, t, e.src, e.dest);
      ForestExtend(t, e.src, e.dest);
    }
  }

  /** One scan step keeps every emitted edge inside one set and free of
      self-loops. */
  lemma ConsiderKeepsWithinSets(p: seq<int>, t: seq<Pair>, e: Edge)
    requires Acyclic(p) && WithinSets(p, t) && forall k :: 0 <= k < |t| ==> t[k].0 != t[k].1
    requires 0 <= e.src < |p| && 0 <= e.dest < |p|
    ensures WithinSets(Consider(p, e).0, if Consider(p, e).1 then t + [Ends(e)] else t)
    ensures var t' := if Consider(p, e).1 then t + [Ends(e)] else t;
      forall k :: 0 <= k < |t'| ==> t'[k].0 != t'[k].1
  {
    var q := Consider(p, e).0;
    var t' := if Consider(p, e).1 then t + [Ends(e)] else t;
    forall k | 0 <= k < |t'|
      ensures 0 <= t'[k].0 < |q| && 0 <= t'[k].1 < |q| && Find(q, t'[k].0) == Find(q, t'[k].1)
      ensures t'[k].0 != t'[k].1
    {
      if k < |t| {
        assert t'[k] == t[k];
      }
    }
  }

  /** The endpoint pairs of all of `es`, as undirected links. */
  function AllEnds(es: seq<Edge>): (t: seq<Pair>)
    ensures |t| == |es| && forall j :: 0 <= j < |es| ==> t[j] == Ends(es[j])
  {
    seq(|es|, j requires 0 <= j < |es| => Ends(es[j]))
  }

  /** The first `n` edges of `es` each lie inside one set of `p`. */
  ghost predicate InSets(p: seq<int>, es: seq<Edge>, n: int)
    requires Acyclic(p) && EndpointsIn(es, |p|) && 0 <= n <= |es|
  {
    forall j :: 0 <= j < n ==> Find(p, es[j].src) == Find(p, es[j].dest)
  }

  /** One scan step at `es[i]` keeps every earlier edge inside one set (a
      merge only joins sets) and leaves `es[i]` itself inside one set. */
  lemma ConsiderKeepsSameSet(p: seq<int>, es: seq<Edge>, i: int)
    requires Acyclic(p) && EndpointsIn(es, |p|) && 0 <= i < |es|
    requires InSets(p, es, i)
    ensures InSets(Consider(p, es[i]).0, es, i + 1)
  {
    var q := Consider(p, es[i]).0;
    forall j | 0 <= j < i
      ensures Find(q, es[j].src) == Find(q, es[j].dest)
    {
      assert Find(p, es[j].src) == Find(p, es[j].dest);
    }
  }

  /** Once scanned, an edge stays inside one set: the rest of the scan only
      merges sets, and each scanned edge is inside one set right after its
      own step (accepted or not). */
  lemma {:induction false} FromKeepsScanned(p: seq<int>, es: seq<Edge>, i: int, t: seq<Pair>)
    requires Acyclic(p) && EndpointsIn(es, |p|) && 0 <= i <= |es|
    requires InSets(p, es, i)
    ensures InSets(KruskalFrom(p, es, i, t).0, es, |es|)
    decreases |es| - i
  {
    if i == |es| {
      assert KruskalFrom(p, es, i, t) == (p, t);
    } else {
      var step := Consider(p, es[i]);
      var t' := if step.1 then t + [Ends(es[i])] else t;
      ConsiderKeepsSameSet(p, es, i);
      FromKeepsScanned(step.0, es, i + 1, t');
      var r := KruskalFrom(step.0, es, i + 1, t');
      FromStep(p, es, i, t);
      assert KruskalFrom(p, es, i, t) == r;
      assert InSets(r.0, es, |es|);
    }
  }

  /** One unfolding of `KruskalFrom`. */
  lemma FromStep(p: seq<int>, es: seq<Edge>, i: int, t: seq<Pair>)
    requires Acyclic(p) && EndpointsIn(es, |p|) && 0 <= i < |es|
    ensures KruskalFrom(p, es, i, t)
         == KruskalFrom(Consider(p, es[i]).0, es, i + 1,
                        if Consider(p, es[i]).1 then t + [Ends(es[i])] else t)
  {
  }

  /** On an input whose edges connect vertex 0 to every vertex, the scan
      from singletons ends with one set, so it accepts exactly V - 1 edges.
      Connectivity may be stated over any list of links that are all edges
      of `es` (the caller's unsorted list, say). */
  lemma ConnectedGivesSpanning(V: nat, es: seq<Edge>, links: seq<Pair>)
    requires V >= 1 && EndpointsIn(es, V)
    requires forall k :: 0 <= k < |links| ==> IsEdgeOf(links[k], es)
    requires forall v :: 0 <= v < V ==> Connected(links, 0, v)
    ensures |KruskalFrom(Identity(V), es, 0, []).1| == V - 1
  {
    var p := Identity(V);
    var r := KruskalFrom(p, es, 0, []);
    FromKeepsScanned(p, es, 0, []);
    assert WithinSets(r.0, links) by {
      forall k | 0 <= k < |links|
        ensures 0 <= links[k].0 < V && 0 <= links[k].1 < V
        ensures Find(r.0, links[k].0) == Find(r.0, links[k].1)
      {
        var j :| 0 <= j < |es| && links[k] == Ends(es[j]);
      }
    }
    var root := Find(r.0, 0);
    forall x | x in Roots(r.0)
      ensures x == root
    {
      assert Connected(links, 0, x);
      var path :| IsPath(links, path) && path[0] == 0 && path[|path| - 1] == x;
      PathKeepsRoot(r.0, links, path);
      FindOfRoot(r.0, x);
    }
    assert Roots(r.0) <= {root};
    RootsNonEmpty(r.0);
    assert Roots(r.0) == {root};
  }

  /** The edge count of a scan from singletons: exactly V - 1 edges if and
      only if the input connects vertex 0 to every vertex, and then the
      emitted edges connect them too. */
  lemma ScanCount(V: nat, es: seq<Edge>)
    requires V >= 1 && EndpointsIn(es, V)
    ensures var tree := KruskalFrom(Identity(V), es, 0, []).1;
      |tree| == V - 1 ==> forall v :: 0 <= v < V ==> Connected(tree, 0, v)
    ensures var tree := KruskalFrom(Identity(V), es, 0, []).1;
      |tree| == V - 1 <==> forall v :: 0 <= v < V ==> Connected(AllEnds(es), 0, v)
  {
    var tree := KruskalFrom(Identity(V), es, 0, []).1;
    if |tree| == V - 1 {
      ScanSpans(V, es);
    }
    if forall v :: 0 <= v < V ==> Connected(AllEnds(es), 0, v) {
      AllEndsAreEdges(es);
      ConnectedGivesSpanning(V, es, AllEnds(es));
    }
  }

  /** The sets a scan from singletons ends with are exactly the connected
      components of the input: two vertices share a root if and only if the
      input edges connect them. With `KruskalFrom`'s count, the scan emits
      V minus the number of components edges. */
  lemma ScanComponents(V: nat, es: seq<Edge>)
    requires EndpointsIn(es, V)
    ensures var r := KruskalFrom(Identity(V), es, 0, []);
      forall a, b :: 0 <= a < V && 0 <= b < V ==>
        (Find(r.0, a) == Find(r.0, b) <==> Connected(AllEnds(es), a, b))
  {
    var r := KruskalFrom(Identity(V), es, 0, []);
    IdentitySetsConnected(V);
    FromKeepsSetsConnected(Identity(V), es, 0, []);
    FromKeepsScanned(Identity(V), es, 0, []);
    forall k | 0 <= k < |r.1|
      ensures r.1[k] in AllEnds(es)
    {
      var j :| 0 <= j < |es| && r.1[k] == Ends(es[j]);
      assert AllEnds(es)[j] == r.1[k];
    }
    assert WithinSets(r.0, AllEnds(es));
    forall a, b | 0 <= a < V && 0 <= b < V
      ensures Find(r.0, a) == Find(r.0, b) <==> Connected(AllEnds(es), a, b)
    {
      if Find(r.0, a) == Find(r.0, b) {
        ConnectedMono(r.1, AllEnds(es), a, b);
      }
      if Connected(AllEnds(es), a, b) {
        var path :| IsPath(AllEnds(es), path) && path[0] == a && path[|path| - 1] == b;
        PathKeepsRoot(r.0, AllEnds(es), path);
      }
    }
  }

  /** The scan over `es` as the source's loop, starting from singletons.
      It emits what `KruskalFrom` emits from the start, the emitted edges form a forest, and
      there are at most V - 1 of them. */
  method KruskalScan(V: nat, es: seq<Edge>) returns (tree: seq<Pair>)
    requires EndpointsIn(es, V)
    ensures tree == KruskalFrom(Identity(V), es, 0, []).1
    ensures Forest(tree)
    ensures |tree| + 1 <= V || |tree| == 0
    ensures forall k :: 0 <= k < |tree| ==> tree[k].0 != tree[k].1
    ensures forall k :: 0 <= k < |tree| ==> IsEdgeOf(tree[k], es)
    ensures V >= 1 && |tree| == V - 1 ==> forall v :: 0 <= v < V ==> Connected(tree, 0, v)
    ensures V >= 1 ==> (|tree| == V - 1 <==> forall v :: 0 <= v < V ==> Connected(AllEnds(es), 0, v))
  {
    var parent := Identity(V);
    tree := [];
    var i := 0;
    ScanInvStart(V, es);
    while i < |es|
      invariant ScanInv(V, es, i, parent, tree)
    {
      parent, tree := ScanEdge(V, es, i, parent, tree);
      i := i + 1;
    }
    ScanInvDone(V, es, parent, tree);
    if V > 0 {
      ScanCount(V, es);
    }
  }

  /** The loop body for edge `es[i]`: find both roots, and if they differ
      emit the edge and merge the sets. It is the step `Consider` takes. */
  method ScanEdge(V: nat, es: seq<Edge>, i: int, parent: seq<int>, tree: seq<Pair>)
    returns (parent': seq<int>, tree': seq<Pair>)
    requires ScanInv(V, es, i, parent, tree) && i < |es|
    ensures parent' == Consider(parent, es[i]).0
    ensures tree' == if Consider(parent, es[i]).1 then tree + [Ends(es[i])] else tree
    ensures ScanInv(V, es, i + 1, parent', tree')
  {
    var e := es[i];
    var setU := FindIter(parent, e.src);
    var setV := FindIter(parent, e.dest);
    ScanInvStep(V, es, i, parent, tree);
    parent', tree' := parent, tree;
    if setU != setV {
      tree' := tree + [(e.src, e.dest)];
      parent' := Union(parent, setU, setV);
    }
  }

  /** What the scan loop keeps: the parent array is acyclic over `V`
      vertices, the rest of the scan yields the whole scan's result, roots
      plus emitted edges stay `V`, and `ScanState` holds. */
  ghost predicate ScanInv(V: nat, es: seq<Edge>, i: int, p: seq<int>, t: seq<Pair>)
  {
    0 <= i <= |es| && EndpointsIn(es, V) && |p| == V && ScanState(p, t)
    && KruskalFrom(p, es, i, t) == KruskalFrom(Identity(V), es, 0, [])
    && |Roots(p)| + |t| == V
  }

  lemma ScanInvStart(V: nat, es: seq<Edge>)
    requires EndpointsIn(es, V)
    ensures ScanInv(V, es, 0, Identity(V), [])
  {
  }

  /** One iteration of the scan loop keeps `ScanInv`. */
  lemma ScanInvStep(V: nat, es: seq<Edge>, i: int, p: seq<int>, t: seq<Pair>)
    requires ScanInv(V, es, i, p, t) && i < |es|
    ensures ScanInv(V, es, i + 1, Consider(p, es[i]).0,
                    if Consider(p, es[i]).1 then t + [Ends(es[i])] else t)
  {
    ConsiderKeepsScanState(p, t, es[i]);
    FromStep(p, es, i, t);
  }

  /** At the end of the loop, the emitted edges are the scan's result: a
      self-loop-free forest of at most V - 1 input edges. */
  lemma ScanInvDone(V: nat, es: seq<Edge>, p: seq<int>, t: seq<Pair>)
    requires ScanInv(V, es, |es|, p, t)
    ensures t == KruskalFrom(Identity(V), es, 0, []).1
    ensures Forest(t)
    ensures |t| + 1 <= V || |t| == 0
    ensures forall k :: 0 <= k < |t| ==> t[k].0 != t[k].1
    ensures forall k :: 0 <= k < |t| ==> IsEdgeOf(t[k], es)
  {
    assert KruskalFrom(p, es, |es|, t) == (p, t);
    if V > 0 {
      RootsNonEmpty(p);
    }
  }

  /** Every link of `AllEnds(es)` is an edge of `es`. */
  lemma AllEndsAreEdges(es: seq<Edge>)
    ensures forall k :: 0 <= k < |AllEnds(es)| ==> IsEdgeOf(AllEnds(es)[k], es)
  {
    forall k | 0 <= k < |es|
      ensures IsEdgeOf(AllEnds(es)[k], es)
    {
      assert AllEnds(es)[k] == Ends(es[k]);
    }
  }

  /** Being an edge of a list depends only on its contents, not its order:
      the sorted list and the original have the same edges. */
  lemma EdgesOfPermutation(a: seq<Edge>, b: seq<Edge>, t: seq<Pair>)
    requires multiset(a) == multiset(b)
    requires forall k :: 0 <= k < |t| ==> IsEdgeOf(t[k], a)
    ensures forall k :: 0 <= k < |t| ==> IsEdgeOf(t[k], b)
  {
    forall k | 0 <= k < |t|
      ensures IsEdgeOf(t[k], b)
    {
      assert IsEdgeOf(t[k], a);
      var j :| 0 <= j < |a| && t[k] == Ends(a[j]);
      assert a[j] in multiset(b);
      var j' :| 0 <= j' < |b| && b[j'] == a[j];
    }
  }

  /** Edges of `es` that connect vertex 0 to every vertex show that the
      input edges do. */
  lemma SpanningInput(t: seq<Pair>, es: seq<Edge>, V: int)
    requires forall k :: 0 <= k < |t| ==> IsEdgeOf(t[k], es)
    requires forall v :: 0 <= v < V ==> Connected(t, 0, v)
    ensures forall v :: 0 <= v < V ==> Connected(AllEnds(es), 0, v)
  {
    forall k | 0 <= k < |t|
      ensures t[k] in AllEnds(es)
    {
      var j :| 0 <= j < |es| && t[k] == Ends(es[j]);
      assert AllEnds(es)[j] == t[k];
    }
    forall v | 0 <= v < V
      ensures Connected(AllEnds(es), 0, v)
    {
      ConnectedMono(t, AllEnds(es), 0, v);
    }
  }

  /** `kruskalMST`: sorts the graph's edge list in place (the returned graph
      carries the sorted list) and scans it. */
  method KruskalMST(g: Graph) returns (g': Graph, tree: seq<Pair>)
    requires WellFormed(g)
    ensures g'.V == g.V && g'.E == g.E
    ensures multiset(g'.edges) == multiset(g.edges) && SortedByWeight(g'.edges)
    ensures EndpointsIn(g'.edges, g.V)
    ensures tree == KruskalFrom(Identity(g.V), g'.edges, 0, []).1
    ensures Forest(tree) && |tree| <= g.V - 1
    ensures forall k :: 0 <= k < |tree| ==> IsEdgeOf(tree[k], g.edges)
    ensures |tree| == g.V - 1 ==> forall v :: 0 <= v < g.V ==> Connected(tree, 0, v)
    ensures |tree| == g.V - 1 <==> forall v :: 0 <= v < g.V ==> Connected(AllEnds(g.edges), 0, v)
  {
    var sorted := SortByWeight(g.edges);
    SortKeepsEndpoints(g.edges, g.V);
    g' := g.(edges := sorted);
    tree := KruskalScan(g.V, sorted);
    EdgesOfPermutation(sorted, g.edges, tree);
    if forall v :: 0 <= v < g.V ==> Connected(AllEnds(g.edges), 0, v) {
      AllEndsAreEdges(g.edges);
      EdgesOfPermutation(g.edges, sorted, AllEnds(g.edges));
      ConnectedGivesSpanning(g.V, sorted, AllEnds(g.edges));
    }
    if |tree| == g.V - 1 {
      SpanningInput(tree, g.edges, g.V);
    }
  }
}
