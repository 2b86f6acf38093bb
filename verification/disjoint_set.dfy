/**
  The disjoint-set helper used by Kruskal's algorithm: a parent-pointer
  array in which a self-parented vertex is the representative of its set.
  `Find` follows parent pointers with no path compression, and a merge
  points one representative at another.

  The array is a value (`seq<int>`), so `Find` cannot alter it even though
  the source passes it by reference.
 */
module DisjointSet {

  /** Every parent pointer is itself a vertex index. */
  predicate InRange(p: seq<int>)
  {
    forall i :: 0 <= i < |p| ==> 0 <= p[i] < |p|
  }

  /** Following at most `n` parent pointers from `i` reaches a self-parented vertex. */
  predicate ReachesRootWithin(p: seq<int>, i: int, n: nat)
    requires InRange(p) && 0 <= i < |p|
    decreases n
  {
    p[i] == i || (n > 0 && ReachesRootWithin(p, p[i], n - 1))
  }

  ghost predicate ReachesRoot(p: seq<int>, i: int)
    requires InRange(p) && 0 <= i < |p|
  {
    exists n: nat :: ReachesRootWithin(p, i, n)
  }

  /** The parent pointers contain no cycle: from every vertex the chain of
      parents ends at a self-parented vertex. */
  ghost predicate Acyclic(p: seq<int>)
  {
    InRange(p) && forall i :: 0 <= i < |p| ==> ReachesRoot(p, i)
  }

  /** The self-parented vertices, i.e. the representatives of the sets. */
  function Roots(p: seq<int>): set<int>
  {
    set i | 0 <= i < |p| && p[i] == i
  }

  /** Number of parent steps from `i` to its root, given a fuel that suffices. */
  function Steps(p: seq<int>, i: int, n: nat): nat
    requires InRange(p) && 0 <= i < |p| && ReachesRootWithin(p, i, n)
    decreases n
  {
    if p[i] == i then 0 else 1 + Steps(p, p[i], n - 1)
  }

  lemma {:induction false} StepsFuelIndependent(p: seq<int>, i: int, n: nat, m: nat)
    requires InRange(p) && 0 <= i < |p|
    requires ReachesRootWithin(p, i, n) && ReachesRootWithin(p, i, m)
    ensures Steps(p, i, n) == Steps(p, i, m)
    decreases n
  {
    if p[i] != i {
      StepsFuelIndependent(p, p[i], n - 1, m - 1);
    }
  }

  /** Distance from `i` to its root along parent pointers. */
  ghost function Depth(p: seq<int>, i: int): nat
    requires Acyclic(p) && 0 <= i < |p|
  {
    assert ReachesRoot(p, i);
    var n: nat :| ReachesRootWithin(p, i, n);
    Steps(p, i, n)
  }

  lemma DepthIsSteps(p: seq<int>, i: int, n: nat)
    requires Acyclic(p) && 0 <= i < |p| && ReachesRootWithin(p, i, n)
    ensures Depth(p, i) == Steps(p, i, n)
  {
    forall m: nat | ReachesRootWithin(p, i, m)
      ensures Steps(p, i, m) == Steps(p, i, n)
    {
      StepsFuelIndependent(p, i, m, n);
    }
  }

  /** A non-root is exactly one step further from its root than its parent. */
  lemma DepthStep(p: seq<int>, i: int)
    requires Acyclic(p) && 0 <= i < |p| && p[i] != i
    ensures Depth(p, p[i]) + 1 == Depth(p, i)
  {
    assert ReachesRoot(p, i);
    var n: nat :| ReachesRootWithin(p, i, n);
    DepthIsSteps(p, i, n);
    DepthIsSteps(p, p[i], n - 1);
  }

  /** The vertex reached from `i` after `k` parent steps. */
  function Climb(p: seq<int>, i: int, k: nat): (a: int)
    requires InRange(p) && 0 <= i < |p|
    ensures 0 <= a < |p|
    decreases k
  {
    if k == 0 then i else Climb(p, p[i], k - 1)
  }

  /** The representative of `i`'s set: the self-parented vertex at the end
      of `i`'s parent chain. */
  function Find(p: seq<int>, i: int): (r: int)
    requires Acyclic(p) && 0 <= i < |p|
    ensures 0 <= r < |p| && p[r] == r
    ensures Climb(p, i, Depth(p, i)) == r
    decreases Depth(p, i)
  {
    if p[i] == i then
      assert Depth(p, i) == 0 by { DepthIsSteps(p, i, 0); }
      i
    else
      DepthStep(p, i);
      Find(p, p[i])
  }

  /** A representative is its own representative. */
  lemma FindOfRoot(p: seq<int>, i: int)
    requires Acyclic(p) && 0 <= i < |p| && p[i] == i
    ensures Find(p, i) == i
  {
  }

  /** Finding twice is finding once. */
  lemma FindIdempotent(p: seq<int>, i: int)
    requires Acyclic(p) && 0 <= i < |p|
    ensures Find(p, Find(p, i)) == Find(p, i)
  {
    FindOfRoot(p, Find(p, i));
  }

  /** A vertex and its parent have the same representative. */
  lemma FindParent(p: seq<int>, i: int)
    requires Acyclic(p) && 0 <= i < |p|
    ensures Find(p, p[i]) == Find(p, i)
  {
  }

  /** `Find` written as a loop over parent pointers instead of recursion. */
  method FindIter(p: seq<int>, i: int) returns (r: int)
    requires Acyclic(p) && 0 <= i < |p|
    ensures r == Find(p, i)
  {
    r := i;
    while p[r] != r
      invariant 0 <= r < |p| && Find(p, r) == Find(p, i)
      decreases Depth(p, r)
    {
      DepthStep(p, r);
      FindParent(p, r);
      r := p[r];
    }
  }

  /** The initial partition: every vertex is alone in its own set. */
  function Identity(n: nat): (p: seq<int>)
    ensures |p| == n && Acyclic(p)
    ensures |Roots(p)| == n
    ensures forall i :: 0 <= i < n ==> Find(p, i) == i
  {
    IdentityProperties(n);
    seq(n, i => i)
  }

  lemma {:induction false} IdentityRoots(n: nat)
    ensures |Roots(seq(n, i => i))| == n
  {
    if n > 0 {
      IdentityRoots(n - 1);
      var p, p' := seq(n, i => i), seq(n - 1, i => i);
      assert Roots(p) == Roots(p') + {n - 1};
    }
  }

  lemma IdentityProperties(n: nat)
    ensures Acyclic(seq(n, i => i))
    ensures |Roots(seq(n, i => i))| == n
  {
    var p := seq(n, i => i);
    forall i | 0 <= i < n
      ensures ReachesRoot(p, i)
    {
      assert ReachesRootWithin(p, i, 0);
    }
    IdentityRoots(n);
  }

  /** An acyclic non-empty array has at least one representative. */
  lemma RootsNonEmpty(p: seq<int>)
    requires Acyclic(p) && |p| > 0
    ensures |Roots(p)| >= 1
  {
    assert Find(p, 0) in Roots(p);
  }

  /** After a merge every old chain still ends at a root, one step later
      at most. */
  lemma {:induction false} UnionReaches(p: seq<int>, ru: int, rv: int, x: int)
    requires Acyclic(p) && 0 <= ru < |p| && 0 <= rv < |p|
    requires p[ru] == ru && p[rv] == rv && ru != rv
    requires 0 <= x < |p|
    ensures InRange(p[ru := rv])
    ensures ReachesRootWithin(p[ru := rv], x, Depth(p, x) + 1)
    decreases Depth(p, x)
  {
    var q := p[ru := rv];
    if p[x] == x {
      if x == ru {
        assert ReachesRootWithin(q, rv, 0);
      }
    } else {
      DepthStep(p, x);
      UnionReaches(p, ru, rv, p[x]);
      assert q[x] == p[x];
    }
  }

  lemma UnionAcyclic(p: seq<int>, ru: int, rv: int)
    requires Acyclic(p) && 0 <= ru < |p| && 0 <= rv < |p|
    requires p[ru] == ru && p[rv] == rv && ru != rv
    ensures Acyclic(p[ru := rv])
  {
    var q := p[ru := rv];
    UnionReaches(p, ru, rv, 0);
    forall x | 0 <= x < |q|
      ensures ReachesRoot(q, x)
    {
      UnionReaches(p, ru, rv, x);
    }
  }

  /** After a merge the old representative `ru` is replaced by `rv`; every
      other representative is unchanged. */
  lemma {:induction false} UnionFind(p: seq<int>, ru: int, rv: int, x: int)
    requires Acyclic(p) && 0 <= ru < |p| && 0 <= rv < |p|
    requires p[ru] == ru && p[rv] == rv && ru != rv
    requires 0 <= x < |p|
    requires Acyclic(p[ru := rv])
    ensures Find(p[ru := rv], x) == if Find(p, x) == ru then rv else Find(p, x)
    decreases Depth(p, x)
  {
    var q := p[ru := rv];
    if p[x] == x {
      if x == ru {
        FindParent(q, x);
        FindOfRoot(q, rv);
      } else {
        FindOfRoot(q, x);
      }
    } else {
      DepthStep(p, x);
      UnionFind(p, ru, rv, p[x]);
      FindParent(q, x);
      FindParent(p, x);
    }
  }

  lemma UnionFindAll(p: seq<int>, ru: int, rv: int)
    requires Acyclic(p) && 0 <= ru < |p| && 0 <= rv < |p|
    requires p[ru] == ru && p[rv] == rv && ru != rv
    ensures Acyclic(p[ru := rv])
    ensures forall x :: 0 <= x < |p| ==> Find(p[ru := rv], x) == if Find(p, x) == ru then rv else Find(p, x)
  {
    UnionAcyclic(p, ru, rv);
    forall x | 0 <= x < |p|
      ensures Find(p[ru := rv], x) == if Find(p, x) == ru then rv else Find(p, x)
    {
      UnionFind(p, ru, rv, x);
    }
  }

  /** The merge `parent[ru] = rv` of two distinct representatives: the
      result stays acyclic, loses exactly the representative `ru`, and
      sends every member of `ru`'s set to `rv`. */
  function Union(p: seq<int>, ru: int, rv: int): (q: seq<int>)
    requires Acyclic(p) && 0 <= ru < |p| && 0 <= rv < |p|
    requires p[ru] == ru && p[rv] == rv && ru != rv
    ensures |q| == |p| && Acyclic(q)
    ensures Roots(q) == Roots(p) - {ru}
    ensures |Roots(q)| == |Roots(p)| - 1
    ensures forall x :: 0 <= x < |p| ==> Find(q, x) == if Find(p, x) == ru then rv else Find(p, x)
  {
    UnionFindAll(p, ru, rv);
    assert Roots(p[ru := rv]) == Roots(p) - {ru};
    p[ru := rv]
  }
}
