/** Adjacency lists (`vector<vector<int>>` in the C++ classes, a list of lists in the
    validator): entry x lists the neighbours of vertex x, one entry per edge end, so an edge
    read twice appears twice and a self-loop {x, x} puts x into list x twice. */
module AdjLists {
  import opened Graphs

  type AdjList = seq<seq<int>>

  /** Every listed neighbour is a vertex. */
  predicate InRange(adj: AdjList)
  {
    forall x, k :: 0 <= x < |adj| && 0 <= k < |adj[x]| ==> 0 <= adj[x][k] < |adj|
  }

  /** y appears in list x as often as x appears in list y. */
  ghost predicate Symmetric(adj: AdjList)
  {
    forall x, y :: 0 <= x < |adj| && 0 <= y < |adj| ==> multiset(adj[x])[y] == multiset(adj[y])[x]
  }

  /** `adjList[u].push_back(v); adjList[v].push_back(u);` */
  function AddEdge(adj: AdjList, u: nat, v: nat): (r: AdjList)
    requires u < |adj| && v < |adj|
    ensures |r| == |adj|
    ensures forall x :: 0 <= x < |adj| && x != u && x != v ==> r[x] == adj[x]
    ensures forall x, y :: 0 <= x < |adj| ==>
      multiset(r[x])[y] == multiset(adj[x])[y] + (if x == u && y == v then 1 else 0) + (if x == v && y == u then 1 else 0)
    ensures u != v ==> r[u] == adj[u] + [v] && r[v] == adj[v] + [u]
    ensures u == v ==> r[u] == adj[u] + [u, u]
  {
    var a1 := adj[u := adj[u] + [v]];
    a1[v := a1[v] + [u]]
  }

  /** Adding an edge between two vertices keeps every entry a vertex. */
  lemma AddEdgeInRange(adj: AdjList, u: nat, v: nat)
    requires u < |adj| && v < |adj| && InRange(adj)
    ensures InRange(AddEdge(adj, u, v))
  {
    var r := AddEdge(adj, u, v);
    forall x, k | 0 <= x < |r| && 0 <= k < |r[x]|
      ensures 0 <= r[x][k] < |r|
    {
      if k < |adj[x]| {
        assert r[x][k] == adj[x][k];
      }
    }
  }

  /** Adding an edge keeps the lists symmetric. */
  lemma AddEdgeSymmetric(adj: AdjList, u: nat, v: nat)
    requires u < |adj| && v < |adj| && Symmetric(adj)
    ensures Symmetric(AddEdge(adj, u, v))
  {
  }

  /** `adjList.resize(n)`: the first n lists are kept and missing ones are empty. */
  function Resize(adj: AdjList, n: nat): (r: AdjList)
    ensures |r| == n
    ensures forall x :: 0 <= x < n ==> r[x] == if x < |adj| then adj[x] else []
  {
    if n <= |adj| then adj[..n] else adj + seq(n - |adj|, _ => [])
  }

  /** Growing in-range lists keeps them in range and symmetric. */
  lemma ResizeKeeps(adj: AdjList, n: nat)
    requires |adj| <= n && InRange(adj)
    ensures InRange(Resize(adj, n))
    ensures Symmetric(adj) ==> Symmetric(Resize(adj, n))
  {
    var r := Resize(adj, n);
    forall x, y | 0 <= x < n && 0 <= y < n && (x >= |adj| || y >= |adj|)
      ensures multiset(r[x])[y] == 0
    {
      if x < |adj| {
        assert y !in adj[x];
      }
    }
  }

  /** The graph the lists stand for: the neighbour set of x is the set of entries of list x. */
  ghost function ListGraph(adj: AdjList): (g: Graph)
    ensures |g| == |adj|
    ensures forall x, y :: 0 <= x < |adj| ==> (y in g[x] <==> y in adj[x])
    ensures InRange(adj) ==> WellFormed(g)
    ensures Symmetric(adj) ==> Undirected(g)
  {
    var g := seq(|adj|, x requires 0 <= x < |adj| => set y | y in adj[x]);
    assert Symmetric(adj) ==> Undirected(g) by {
      if Symmetric(adj) {
        forall x, y | 0 <= x < |g| && 0 <= y < |g|
          ensures y in g[x] <==> x in g[y]
        {
          assert y in adj[x] <==> multiset(adj[x])[y] > 0;
          assert x in adj[y] <==> multiset(adj[y])[x] > 0;
        }
      }
    }
    assert InRange(adj) ==> WellFormed(g) by {
      if InRange(adj) {
        forall x, y | 0 <= x < |g| && y in g[x]
          ensures 0 <= y < |g|
        {
          var k :| 0 <= k < |adj[x]| && adj[x][k] == y;
        }
      }
    }
    g
  }

  /** Adding an edge to the lists adds exactly that undirected edge to their graph. */
  lemma AddEdgeGraph(adj: AdjList, u: nat, v: nat)
    requires u < |adj| && v < |adj|
    ensures ListGraph(AddEdge(adj, u, v)) == AddUndirected(ListGraph(adj), u, v)
  {
    var g, h := ListGraph(AddEdge(adj, u, v)), AddUndirected(ListGraph(adj), u, v);
    forall x | 0 <= x < |adj|
      ensures g[x] == h[x]
    {
      forall y
        ensures y in g[x] <==> y in h[x]
      {
        assert y in AddEdge(adj, u, v)[x] <==> multiset(AddEdge(adj, u, v)[x])[y] > 0;
        assert y in adj[x] <==> multiset(adj[x])[y] > 0;
      }
    }
  }
}
