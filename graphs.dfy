/** Graphs as the traversals see them: vertex x in [0, n) has the set g[x] of neighbours.

    Reachability and distance are defined by breadth layers: `Within(g, s, k)` is the set of
    vertices at most k edges away from s. `Walks` relates the layers to the usual notion of a
    walk along edges. */
module Graphs {

  type Graph = seq<set<int>>

  /** Every neighbour is a vertex of the graph. */
  ghost predicate WellFormed(g: Graph)
  {
    forall x, y :: 0 <= x < |g| && y in g[x] ==> 0 <= y < |g|
  }

  /** Every edge goes both ways. */
  ghost predicate Undirected(g: Graph)
  {
    forall x, y :: 0 <= x < |g| && 0 <= y < |g| ==> (y in g[x] <==> x in g[y])
  }

  /** The graph with the undirected edge {u, v} added. */
  function AddUndirected(g: Graph, u: nat, v: nat): (r: Graph)
    requires u < |g| && v < |g|
    ensures |r| == |g|
    ensures forall x, y :: 0 <= x < |g| ==>
      (y in r[x] <==> y in g[x] || (x == u && y == v) || (x == v && y == u))
    ensures WellFormed(g) ==> WellFormed(r)
    ensures Undirected(g) ==> Undirected(r)
  {
    var g1 := g[u := g[u] + {v}];
    g1[v := g1[v] + {u}]
  }

  // ---------------------------------------------------------------------------------------
  // Breadth layers

  /** The vertices one edge away from some vertex of `S`. */
  ghost function Step(g: Graph, S: set<int>): set<int>
  {
    set x, y | x in S && 0 <= x < |g| && y in g[x] :: y
  }

  /** The vertices at most k edges away from s. */
  ghost function Within(g: Graph, s: int, k: nat): set<int>
  {
    if k == 0 then {s} else Within(g, s, k - 1) + Step(g, Within(g, s, k - 1))
  }

  ghost predicate Reachable(g: Graph, s: int, v: int)
  {
    exists k: nat :: v in Within(g, s, k)
  }

  /** d is the length of a shortest path from s to v. */
  ghost predicate ShortestDist(g: Graph, s: int, v: int, d: nat)
  {
    v in Within(g, s, d) && (d == 0 || v !in Within(g, s, d - 1))
  }

  lemma {:induction false} WithinMonotone(g: Graph, s: int, j: nat, k: nat)
    requires j <= k
    ensures Within(g, s, j) <= Within(g, s, k)
  {
    if j < k {
      WithinMonotone(g, s, j, k - 1);
    }
  }

  lemma WithinStep(g: Graph, s: int, k: nat, x: int, y: int)
    requires x in Within(g, s, k) && 0 <= x < |g| && y in g[x]
    ensures y in Within(g, s, k + 1)
  {
    assert y in Step(g, Within(g, s, k));
  }

  lemma {:induction false} WithinInRange(g: Graph, s: int, k: nat)
    requires WellFormed(g) && 0 <= s < |g|
    ensures forall v :: v in Within(g, s, k) ==> 0 <= v < |g|
  {
    if k > 0 {
      WithinInRange(g, s, k - 1);
    }
  }

  /** Shortest distances are unique. */
  lemma ShortestUnique(g: Graph, s: int, v: int, a: nat, b: nat)
    requires ShortestDist(g, s, v, a) && ShortestDist(g, s, v, b)
    ensures a == b
  {
    if a < b {
      WithinMonotone(g, s, a, b - 1);
    } else if b < a {
      WithinMonotone(g, s, b, a - 1);
    }
  }

  /** A vertex at shortest distance d > 0 has a neighbour-predecessor at distance d - 1. */
  lemma ShortestPredecessor(g: Graph, s: int, v: int, d: nat)
    requires ShortestDist(g, s, v, d) && d > 0
    ensures exists x :: 0 <= x < |g| && v in g[x] && ShortestDist(g, s, x, d - 1)
  {
    var x, y :| x in Within(g, s, d - 1) && 0 <= x < |g| && y in g[x] && y == v;
    assert ShortestDist(g, s, x, d - 1);
  }

  /** A set that holds s and every neighbour of its members holds every vertex reachable
      from s. */
  lemma ClosedHoldsReachable(g: Graph, s: int, S: set<int>)
    requires s in S
    requires forall x, y :: x in S && 0 <= x < |g| && y in g[x] ==> y in S
    ensures forall v :: Reachable(g, s, v) ==> v in S
  {
    forall k: nat
      ensures Within(g, s, k) <= S
    {
      ClosedHoldsWithin(g, s, S, k);
    }
  }

  lemma {:induction false} ClosedHoldsWithin(g: Graph, s: int, S: set<int>, k: nat)
    requires s in S
    requires forall x, y :: x in S && 0 <= x < |g| && y in g[x] ==> y in S
    ensures Within(g, s, k) <= S
  {
    if k > 0 {
      ClosedHoldsWithin(g, s, S, k - 1);
    }
  }

  /** A vertex with a reachable in-neighbour is reachable. */
  lemma ReachableStep(g: Graph, s: int, x: int, y: int)
    requires Reachable(g, s, x) && 0 <= x < |g| && y in g[x]
    ensures Reachable(g, s, y)
  {
    var k: nat :| x in Within(g, s, k);
    WithinStep(g, s, k, x, y);
  }

  // ---------------------------------------------------------------------------------------
  // Walks

  /** p is a walk: consecutive vertices are joined by an edge. */
  ghost predicate IsWalk(g: Graph, p: seq<int>)
  {
    |p| >= 1 && forall i :: 0 <= i < |p| - 1 ==> 0 <= p[i] < |g| && p[i + 1] in g[p[i]]
  }

  /** `Within` agrees with walks: v is at most k edges from s exactly when some walk of at
      most k edges leads from s to v. */
  lemma {:induction false} Walks(g: Graph, s: int, v: int, k: nat)
    ensures v in Within(g, s, k) <==>
      exists p :: IsWalk(g, p) && |p| <= k + 1 && p[0] == s && p[|p| - 1] == v
  {
    if v in Within(g, s, k) {
      var p := WalkTo(g, s, v, k);
    }
    if p :| IsWalk(g, p) && |p| <= k + 1 && p[0] == s && p[|p| - 1] == v {
      WalkWithin(g, s, p, k);
    }
  }

  lemma {:induction false} WalkTo(g: Graph, s: int, v: int, k: nat) returns (p: seq<int>)
    requires v in Within(g, s, k)
    ensures IsWalk(g, p) && |p| <= k + 1 && p[0] == s && p[|p| - 1] == v
    decreases k
  {
    if k == 0 {
      p := [s];
    } else if v in Within(g, s, k - 1) {
      p := WalkTo(g, s, v, k - 1);
    } else {
      var x, y :| x in Within(g, s, k - 1) && 0 <= x < |g| && y in g[x] && y == v;
      var q := WalkTo(g, s, x, k - 1);
      p := q + [v];
      assert forall i :: 0 <= i < |q| ==> p[i] == q[i];
    }
  }

  lemma {:induction false} WalkWithin(g: Graph, s: int, p: seq<int>, k: nat)
    requires IsWalk(g, p) && |p| <= k + 1 && p[0] == s
    ensures p[|p| - 1] in Within(g, s, k)
    decreases |p|
  {
    if |p| == 1 {
      WithinMonotone(g, s, 0, k);
    } else {
      var q := p[..|p| - 1];
      assert IsWalk(g, q) by {
        assert forall i :: 0 <= i < |q| ==> q[i] == p[i];
      }
      WalkWithin(g, s, q, k - 1);
      WithinStep(g, s, k - 1, p[|p| - 2], p[|p| - 1]);
    }
  }

  // ---------------------------------------------------------------------------------------
  // Counting

  ghost predicate Distinct(q: seq<int>)
  {
    forall i, j :: 0 <= i < j < |q| ==> q[i] != q[j]
  }

  /** A sequence of distinct vertices of an n-vertex graph has at most n entries. */
  lemma DistinctBound(q: seq<int>, n: nat)
    requires Distinct(q)
    requires forall i :: 0 <= i < |q| ==> 0 <= q[i] < n
    ensures |q| <= n
  {
    DistinctCard(q);
    SubsetCard((set x | x in q), Range(n));
  }

  lemma {:induction false} SubsetCard(a: set<int>, b: set<int>)
    requires a <= b
    ensures |a| <= |b|
    decreases |a|
  {
    if a != {} {
      assert exists x :: x in a by {
        if forall x :: x !in a {
          assert false;
        }
      }
      var x :| x in a;
      SubsetCard(a - {x}, b - {x});
    }
  }

  lemma {:induction false} DistinctCard(q: seq<int>)
    requires Distinct(q)
    ensures |set x | x in q| == |q|
  {
    if |q| > 0 {
      var t := q[..|q| - 1];
      assert Distinct(t);
      DistinctCard(t);
      assert (set x | x in q) == (set x | x in t) + {q[|q| - 1]};
    }
  }

  /** The vertices 0 .. n - 1. */
  function Range(n: nat): (r: set<int>)
    ensures forall x :: x in r <==> 0 <= x < n
    ensures |r| == n
  {
    if n == 0 then {} else Range(n - 1) + {n - 1}
  }
}
