# Prim and Kruskal on an edge-list graph — a Dafny model

This project models the `Graph` class of `2SAOD_lab5/2SAOD_lab5.cpp`. The
class is a small teaching program that computes spanning trees of a weighted
graph. A `Graph` holds a vertex count `V`, a declared edge count `E` and a
`vector<Edge>` of `{src, dest, weight}` triples. It has four operations:

* `addEdge` appends an edge;
* `find` follows disjoint-set parent pointers, with no path compression;
* `kruskalMST` sorts the edge list in place by weight, then accepts every
  edge whose endpoints have different `find` roots, merging with
  `parent[setU] = setV`;
* `primMST` runs a priority-queue loop over `key`, `parent` and `inMST`
  arrays and then prints `parent[i] - i` for `i = 1 .. V-1`.

Printed output is modelled as returned sequences of pairs, in print order.

Modules, one per component:

| file | module | contents |
|---|---|---|
| `graph.dfy` | `Graphs` | `Edge`, `Graph`, the constructor, `addEdge`, well-formedness |
| `disjoint_set.dfy` | `DisjointSet` | acyclic parent arrays, `Find` (recursive and iterative), the merge |
| `edge_sort.dfy` | `EdgeSort` | the by-weight sort, as a sorted permutation |
| `kruskal.dfy` | `Kruskal` | the scan step, the scan as a function and as the source's loop, `kruskalMST` |
| `prim.dfy` | `Prim` | the queue loop exactly as written, and the characterisation of its result |
| `prim_adjacent.dfy` | `PrimAdjacent` | the loop with the adjacency test its comment describes (see Findings) |

Design points:

* Parent arrays are values (`seq<int>`). `Find` therefore cannot change the
  array, even though the source takes it by reference.
* `Acyclic(p)` says that from every vertex the parent chain reaches a
  self-parented vertex. `Find` terminates on the ghost `Depth` of that chain.
* The Prim loop is modelled exactly as written. The scan on lines 51-58
  relaxes `edge.dest` of every edge and never checks that the edge touches
  the popped vertex `u`. The model proves the consequence: after the first
  iteration, which processes vertex 0, no edge can relax any more. So on exit
  `key[v]` is the least weight of the edges into `v` (INT_MAX if none is
  lighter), and `parent[v]` is 0 exactly when such an edge exists, -1
  otherwise. The termination measure is "still in the initial state", then
  the queue length.
* The comment on line 50 says the loop updates the vertices adjacent to
  `u`, but lines 51-58 relax `edge.dest` of every edge (see Findings). The
  model follows the code.
* Lines 76-78 sort the member `edges` in place, so `KruskalMST` returns the
  graph with its sorted edge list. `std::sort` leaves the order of equal
  weights unspecified. The model fixes one such order, and `KruskalScan`
  proves every Kruskal property for input in any order.
* "Is an edge between `a` and `b`" is defined once, as `Graphs.Links` on an
  endpoint pair. Edges (`Joins`, `HasEdge`) and the printed Kruskal pairs
  (`Kruskal.Linked`) both use it.

## Model

| member | source | states |
|---|---|---|
| Graphs.NewGraph | 2SAOD_lab5/2SAOD_lab5.cpp:20-23 | the constructor records `V` and `E` and starts with an empty edge list |
| Graphs.AddEdge | 2SAOD_lab5/2SAOD_lab5.cpp:26-28 | exactly one edge `{src, dest, weight}` is appended at the end; earlier edges, `V` and `E` are unchanged |
| Graphs.AddEdgesAppends | 2SAOD_lab5/2SAOD_lab5.cpp:26-28 | any number of additions keeps the input order; `V` and `E` never change, so `E` is not kept equal to the list length |
| Graphs.AddEdgeWellFormed | 2SAOD_lab5/2SAOD_lab5.cpp:26-28 | adding an edge keeps every endpoint in `[0, V)` if and only if the new endpoints are in range |
| DisjointSet.Find | 2SAOD_lab5/2SAOD_lab5.cpp:95-99 | on an acyclic parent array `find` terminates and returns a self-parented vertex; that vertex is the end of `i`'s parent chain (`Depth(p, i)` steps from `i`) |
| DisjointSet.FindOfRoot | 2SAOD_lab5/2SAOD_lab5.cpp:96-97 | a self-parented vertex is returned as it is |
| DisjointSet.FindIdempotent | 2SAOD_lab5/2SAOD_lab5.cpp:95-99 | `find(p, find(p, i)) == find(p, i)` |
| DisjointSet.FindParent | 2SAOD_lab5/2SAOD_lab5.cpp:98 | a vertex and its parent have the same root |
| DisjointSet.FindIter | 2SAOD_lab5/2SAOD_lab5.cpp:95-99 | an iterative walk up the parent chain returns the same root as the recursive `find` |
| DisjointSet.Identity | 2SAOD_lab5/2SAOD_lab5.cpp:71-73 | the initial array `parent[i] = i` is acyclic, has `V` roots, and every vertex is its own root |
| DisjointSet.UnionAcyclic | 2SAOD_lab5/2SAOD_lab5.cpp:89 | pointing one root at a different root keeps the array acyclic |
| DisjointSet.UnionFind | 2SAOD_lab5/2SAOD_lab5.cpp:89 | after `parent[ru] = rv`, vertices whose root was `ru` have root `rv`; all other roots are unchanged |
| DisjointSet.Union | 2SAOD_lab5/2SAOD_lab5.cpp:89 | the merge keeps the array acyclic, removes exactly the root `ru`, so the root count drops by one, and redirects only `ru`'s set |
| DisjointSet.RootsNonEmpty | 2SAOD_lab5/2SAOD_lab5.cpp:71-73 | an acyclic array over at least one vertex has at least one root |
| EdgeSort.InsertByWeight | 2SAOD_lab5/2SAOD_lab5.cpp:76-78 | inserting into a by-weight sorted list keeps it sorted and adds exactly that edge to its contents |
| EdgeSort.SortByWeight | 2SAOD_lab5/2SAOD_lab5.cpp:76-78 | the sorted list is a permutation of the input (same multiset) and is non-decreasing by weight |
| EdgeSort.SortKeepsEndpoints | 2SAOD_lab5/2SAOD_lab5.cpp:76-78 | sorting keeps every endpoint in range |
| Kruskal.Consider | 2SAOD_lab5/2SAOD_lab5.cpp:83-90 | an edge is accepted if and only if `find(u) != find(v)`; a rejected edge leaves `parent` unchanged; a self-loop is never accepted; an accepted edge lowers the root count by one and merges only the two sets |
| Kruskal.KruskalFrom | 2SAOD_lab5/2SAOD_lab5.cpp:82-91 | over the rest of the scan, final roots plus emitted edges equal the current roots plus the edges emitted so far; only endpoints of input edges are emitted |
| Kruskal.PathKeepsRoot | 2SAOD_lab5/2SAOD_lab5.cpp:85-89 | a walk along edges that each stay inside one set starts and ends in the same set |
| Kruskal.SeparateNotConnected | 2SAOD_lab5/2SAOD_lab5.cpp:85-87 | when `find(u) != find(v)`, the edges accepted so far do not connect `u` and `v`, so accepting the edge closes no cycle |
| Kruskal.ForestExtend | 2SAOD_lab5/2SAOD_lab5.cpp:87-89 | appending an edge between vertices that are not yet connected keeps the accepted edges a forest |
| Kruskal.ConsiderKeepsScanState | 2SAOD_lab5/2SAOD_lab5.cpp:82-91 | one loop step keeps the parent array acyclic, every accepted edge inside one set, the accepted edges a forest without self-loops, and roots plus accepted edges constant |
| Kruskal.ConsiderKeepsWithinSets | 2SAOD_lab5/2SAOD_lab5.cpp:85-89 | one loop step keeps every printed edge inside one set and free of self-loops |
| Kruskal.ConnectedSym | 2SAOD_lab5/2SAOD_lab5.cpp:88 | printed edges are undirected: a walk from `a` to `b` gives one from `b` to `a` |
| Kruskal.ConnectedTrans | 2SAOD_lab5/2SAOD_lab5.cpp:88 | walks along printed edges compose |
| Kruskal.ConnectedMono | 2SAOD_lab5/2SAOD_lab5.cpp:88 | a walk along some of the edges is a walk along all of them |
| Kruskal.ConsiderKeepsSetsConnected | 2SAOD_lab5/2SAOD_lab5.cpp:85-89 | one loop step keeps "two vertices with the same root are connected by the printed edges"; a merge links the two sets through the printed edge `u - v` |
| Kruskal.FromKeepsSetsConnected | 2SAOD_lab5/2SAOD_lab5.cpp:82-91 | the rest of the scan keeps "same root implies connected by printed edges" |
| Kruskal.IdentitySetsConnected | 2SAOD_lab5/2SAOD_lab5.cpp:71-73 | from `parent[i] = i`, vertices with the same root are equal, so they are connected with no edges |
| Kruskal.FromKeepsScanned | 2SAOD_lab5/2SAOD_lab5.cpp:82-91 | after the scan, both endpoints of every input edge have the same root, whether the edge was printed or skipped |
| Kruskal.ConsiderKeepsSameSet | 2SAOD_lab5/2SAOD_lab5.cpp:85-89 | one loop step keeps every earlier edge inside one set, because a merge only joins sets, and leaves the current edge inside one set |
| Kruskal.ScanComponents | 2SAOD_lab5/2SAOD_lab5.cpp:71-91 | after the scan from `parent[i] = i`, two vertices share a root if and only if the input edges connect them. The final sets are the connected components, so the number of printed edges is `V` minus the number of components |
| Kruskal.ScanCount | 2SAOD_lab5/2SAOD_lab5.cpp:71-91 | a scan from `parent[i] = i` prints exactly `V-1` edges if and only if the input connects every vertex to 0, and then the printed edges do too |
| Kruskal.ConnectedGivesSpanning | 2SAOD_lab5/2SAOD_lab5.cpp:71-91 | if the input edges connect vertex 0 to every vertex, the scan from `parent[i] = i` prints exactly `V-1` edges |
| Kruskal.OneSetSpans | 2SAOD_lab5/2SAOD_lab5.cpp:82-91 | when one set is left, the printed edges and the input edges both connect vertex 0 to every vertex |
| Kruskal.ScanSpans | 2SAOD_lab5/2SAOD_lab5.cpp:71-91 | a scan from `parent[i] = i` that prints `V-1` edges prints a spanning tree, and its input is connected |
| Kruskal.ScanEdge | 2SAOD_lab5/2SAOD_lab5.cpp:83-90 | the loop body finds both roots with the iterative `find`, prints and merges exactly when they differ, and takes the step `Consider` describes, keeping the loop invariant |
| Kruskal.ScanInvStep | 2SAOD_lab5/2SAOD_lab5.cpp:82-91 | one iteration keeps the loop invariant: acyclic parents, the remaining scan yielding the whole scan's result, roots plus printed edges equal to `V`, and a self-loop-free forest inside the sets |
| Kruskal.ScanInvDone | 2SAOD_lab5/2SAOD_lab5.cpp:82-91 | when the loop ends, the printed edges are the scan's result: a self-loop-free forest of at most `V-1` input edges |
| Kruskal.EdgesOfPermutation | 2SAOD_lab5/2SAOD_lab5.cpp:76-78 | sorting changes no edge's membership: a pair that is an edge of the list before sorting is an edge of it after, and the reverse |
| Kruskal.SpanningInput | 2SAOD_lab5/2SAOD_lab5.cpp:88 | printed edges that connect vertex 0 to every vertex show that the graph's own edges do |
| Kruskal.KruskalScan | 2SAOD_lab5/2SAOD_lab5.cpp:71-91 | the loop from `parent[i] = i` over edges in any order prints what `KruskalFrom` does. Its output is a forest of at most `V-1` input edges, with no self-loop. It has exactly `V-1` edges if and only if the input connects every vertex to 0, and then it spans all vertices |
| Kruskal.KruskalMST | 2SAOD_lab5/2SAOD_lab5.cpp:69-92 | the member edge list becomes a weight-sorted permutation of itself, with `V` and `E` unchanged. The printed edges form a forest of at most `V-1` input edges. There are exactly `V-1` of them if and only if the graph is connected, and then they span it |
| Prim.MinIndex | 2SAOD_lab5/2SAOD_lab5.cpp:45 | the chosen queue entry is least in the `(key, vertex)` order |
| Prim.PopMin | 2SAOD_lab5/2SAOD_lab5.cpp:45-46 | `top`/`pop` returns a least entry, and the remaining queue holds exactly the other entries as a multiset |
| Prim.Start | 2SAOD_lab5/2SAOD_lab5.cpp:32-41 | before the loop, key is 0 for vertex 0 and INT_MAX for the others, every parent is -1, nothing is in the tree, and `(0, 0)` is queued |
| Prim.ImprovesTransitive | 2SAOD_lab5/2SAOD_lab5.cpp:44-60 | "keys only decrease, a parent changes only with a strict key decrease, `inMST` never reverts" composes over steps |
| Prim.RelaxEdge | 2SAOD_lab5/2SAOD_lab5.cpp:52-58 | one relaxation lowers only `key[dest]`, sets `parent[dest] = u` together with it, queues the new pair, and leaves the edge no longer relaxable; a failing test changes nothing |
| Prim.RelaxAll | 2SAOD_lab5/2SAOD_lab5.cpp:51-59 | the scan over all edges only lowers keys and leaves `inMST` unchanged; because `u` is ignored, afterwards no edge passes the test, and an already settled state is unchanged |
| Prim.SettledStays | 2SAOD_lab5/2SAOD_lab5.cpp:54 | lowering keys without changing `inMST` never makes a settled edge pass the relaxation test again |
| Prim.Iterate | 2SAOD_lab5/2SAOD_lab5.cpp:45-59 | one loop iteration marks the popped vertex and keeps the monotone relation; afterwards nothing is relaxable; from a settled state only the queue shrinks by one |
| Prim.KeyBoundIsMin | 2SAOD_lab5/2SAOD_lab5.cpp:51-58 | the reference key is at most INT_MAX and at most every weight of an edge into `v`; it is either INT_MAX or the weight of such an edge |
| Prim.KeyBoundBelowMax | 2SAOD_lab5/2SAOD_lab5.cpp:54-56 | the reference key is below INT_MAX if and only if some edge into `v` weighs less than INT_MAX |
| Prim.RelaxFromRoot | 2SAOD_lab5/2SAOD_lab5.cpp:48-59 | processing vertex 0 gives every other vertex the least incoming weight as key, with parent 0 when that is below INT_MAX and -1 otherwise; vertex 0 keeps key 0 and parent -1 |
| Prim.RootStep | 2SAOD_lab5/2SAOD_lab5.cpp:51-58 | while vertex 0 is processed, relaxing one more edge extends "key is the least incoming weight, parent 0 or -1" from the edges seen so far to one edge more |
| Prim.FirstIteration | 2SAOD_lab5/2SAOD_lab5.cpp:40-59 | the first iteration pops `(0, 0)` and reaches the final keys and parents, with nothing left to relax |
| Prim.FrozenStep | 2SAOD_lab5/2SAOD_lab5.cpp:44-60 | every later iteration changes no key or parent and shrinks the queue by one, so the loop terminates |
| Prim.PrimMST | 2SAOD_lab5/2SAOD_lab5.cpp:31-66 | prints `(parent[i], i)` for `i = 1 .. V-1`; the parent is 0 exactly when an edge into `i` weighs less than INT_MAX, and -1 otherwise; final keys are the least incoming weights; `parent[0]` stays -1 and `key[0]` stays 0 |
| Prim.FrozenResult | 2SAOD_lab5/2SAOD_lab5.cpp:44-65 | in the state the loop ends in, each vertex `v >= 1` has as key the least weight into `v`: at most INT_MAX, at most every such weight, and attained unless INT_MAX. Its printed parent is 0 exactly when some edge into `v` weighs less than INT_MAX, and -1 otherwise |
| PrimAdjacent.CountOpenMonotone | 2SAOD_lab5/2SAOD_lab5.cpp:54-55 | lower keys leave no more edges able to relax, and strictly fewer when one is used up |
| PrimAdjacent.RelaxationUsesUp | 2SAOD_lab5/2SAOD_lab5.cpp:54-57 | a relaxation along an edge strictly lowers the number of relaxations still possible |
| PrimAdjacent.RelaxAdjacent | 2SAOD_lab5/2SAOD_lab5.cpp:51-58 | relaxing only across edges that touch `u` keeps the monotone relation, makes progress whenever it changes anything, and gives each new parent an edge to its child |
| PrimAdjacent.RelaxAllAdjacent | 2SAOD_lab5/2SAOD_lab5.cpp:51-59 | the same over the whole edge list |
| PrimAdjacent.IterateAdjacent | 2SAOD_lab5/2SAOD_lab5.cpp:44-60 | each iteration either lowers some key (uses up a relaxation) or only pops the queue |
| PrimAdjacent.PrimAdjacentMST | 2SAOD_lab5/2SAOD_lab5.cpp:31-66 | with the adjacency test, the loop terminates and each printed `(parent[i], i)` with a parent is an edge of the graph |
| PrimAdjacent.PathGraph | 2SAOD_lab5/2SAOD_lab5.cpp:20-28 | the constructor followed by `addEdge(0, 1, 1)` and `addEdge(1, 2, 2)` gives a well-formed graph with exactly those two edges and no edge between 0 and 2 |
| PrimAdjacent.AsWrittenCounterexample | 2SAOD_lab5/2SAOD_lab5.cpp:51-58 | on that path the loop as written prints `0 - 1` and `0 - 2`, and `0 - 2` is not an edge; the adjacency-tested loop does not print `0 - 2` |

## Findings

| source | as written | input that shows it | evidently intended | confidence | as-written member | corrected member |
|---|---|---|---|---|---|---|
| 2SAOD_lab5/2SAOD_lab5.cpp:51-58 | the scan relaxes `edge.dest` of every edge and never checks that the edge touches the popped vertex `u`, so all relaxation happens while vertex 0 is processed and every printed parent is 0 or -1 | `V = 3`, edges `(0, 1, 1)`, `(1, 2, 2)`: prints `0 - 1` and `0 - 2`, but there is no edge between 0 and 2 | relax only the endpoint across from `u` of edges that touch `u`, as the comment on line 50 ("vertices adjacent to u") says; then every printed pair with a parent is an edge | high; not executed | PrimAdjacent.AsWrittenCounterexample | PrimAdjacent.PrimAdjacentMST |

The as-written loop is `Prim.PrimMST`. `AsWrittenCounterexample` calls
`Prim.PrimMST` and `PrimAdjacent.PrimAdjacentMST` on the same graph.

## Left out

- `main` (lines 102-125) is left out: console input through `cin`, the `system("chcp 1251")` call, the prompts and the header lines. The printed `"a - b"` lines are returned as pairs.
- `std::priority_queue` internals are left out. The queue is a sequence of `(key, vertex)` pairs from which a least pair is removed. Equal pairs are equal values, so it does not matter which copy goes.
- `std::sort` internals are left out. The sort is an insertion sort by weight, which is one of the orders `std::sort` may produce. The Kruskal properties are proved for input in any order.
- Invalid input is left out. `WellFormed` excludes `V <= 0` and endpoints outside `[0, V)`. A negative `V` makes the `vector` constructors on lines 32 and 71 throw. With `V == 0`, only `primMST` misbehaves (`key[0] = 0` on line 40 writes into an empty vector). `kruskalMST` on an empty graph prints only its header, but the model excludes that case too, so its edge-count results can speak of `V-1`. `E` is carried unchanged and never checked, because the `Graph` class never reads it.
- INT_MAX is left out as a machine limit. It is the constant `IntMax` used as the initial key, weights are unbounded integers, and no overflow is modelled.
- Minimum total weight is left out for both algorithms (the cut property). Prim as written does not produce a spanning tree in general.
