/** `BFSCstm`: breadth-first search over adjacency lists. The graph is built from the header
    line (`resize`) and the edge lines (two `push_back`s per edge); `bfs(start)` returns the
    distance of every vertex from `start`, or -1 for the vertices it cannot reach. */
module BfsList {
  import opened Graphs
  import opened AdjLists
  import opened BfsTheory
  import Words

  class BfsCstm {
    var numNodes: int
    var edgeCount: int
    var adjList: AdjList

    /** The lists match the vertex count, name only vertices, and record every edge at both
        of its ends. */
    ghost predicate Valid()
      reads this
    {
      0 <= numNodes <= Words.INT_MAX && |adjList| == numNodes && InRange(adjList) && Symmetric(adjList)
    }

    /** `BFSCstm()`: no vertices, no edges. */
    constructor ()
      ensures Valid() && numNodes == 0 && edgeCount == 0 && adjList == []
    {
      numNodes := 0;
      edgeCount := 0;
      adjList := [];
    }

    /** The header line `p <name> <num_nodes> <edge_count>`: records the counts and resizes
        the lists. A header that grows the graph keeps it valid. */
    method ReadHeader(nodes: int, edges: int)
      requires 0 <= nodes <= Words.INT_MAX
      requires Valid() && numNodes <= nodes
      modifies this
      ensures Valid()
      ensures numNodes == nodes && edgeCount == edges
      ensures adjList == Resize(old(adjList), nodes)
    {
      ResizeKeeps(adjList, nodes);
      numNodes := nodes;
      edgeCount := edges;
      adjList := Resize(adjList, nodes);
    }

    /** The edge line `a <u> <v>` with 1-based vertex ids: both ends are stored 0-based, each
        in the other's list. */
    method ReadArc(u: int, v: int)
      requires Valid() && 1 <= u <= numNodes && 1 <= v <= numNodes
      modifies this
      ensures Valid()
      ensures numNodes == old(numNodes) && edgeCount == old(edgeCount)
      ensures adjList == AddEdge(old(adjList), u - 1, v - 1)
      ensures ListGraph(adjList) == AddUndirected(ListGraph(old(adjList)), u - 1, v - 1)
    {
      var u0, v0 := u - 1, v - 1;
      AddEdgeInRange(adjList, u0, v0);
      AddEdgeSymmetric(adjList, u0, v0);
      AddEdgeGraph(adjList, u0, v0);
      adjList := AddEdge(adjList, u0, v0);
    }

    /** `bfs(start)`: the shortest distance of every vertex from `start` (-1 when there is no
        path). `pushed` is the queue `q` at the end: it starts with `start`, holds every
        discovered vertex once, and is ordered by distance. */
    method Bfs(start: int) returns (dist: seq<int>, ghost pushed: seq<int>)
      requires Valid() && 0 <= start < numNodes
      ensures |dist| == numNodes && dist[start] == 0
      ensures forall v :: 0 <= v < numNodes ==> (dist[v] == -1 <==> !Reachable(ListGraph(adjList), start, v))
      ensures forall v :: 0 <= v < numNodes && dist[v] != -1 ==>
        dist[v] >= 0 && ShortestDist(ListGraph(adjList), start, v, dist[v])
      ensures forall v :: 0 <= v < numNodes && dist[v] > 0 ==>
        exists x :: 0 <= x < numNodes && v in adjList[x] && dist[x] == dist[v] - 1
      ensures Distinct(pushed) && forall v :: 0 <= v < numNodes ==> (v in pushed <==> dist[v] != -1)
      ensures |pushed| >= 1 && pushed[0] == start
      ensures forall i :: 0 <= i < |pushed| ==> 0 <= pushed[i] < numNodes
      ensures forall i, j :: 0 <= i <= j < |pushed| ==> dist[pushed[i]] <= dist[pushed[j]]
    {
      var adj := adjList;
      ghost var g := ListGraph(adj);
      dist := seq(numNodes, _ => -1);
      dist := dist[start := 0];
      var q := [start];
      var head := 0;
      BfsStart(g, start);
      while head < |q|
        invariant BfsInv(g, start, dist, q, head)
        decreases numNodes - head
      {
        QueueBound(g, start, dist, q);
        var node := q[head];
        ghost var seen: set<int>;
        dist, q, seen := ScanList(g, start, head, node, adj[node], dist, q);
        ScanFinish(g, start, dist, q, head, seen);
        head := head + 1;
      }
      BfsDone(g, start, dist, q);
      pushed := q;
    }
  }

  /** The `for` loop of `bfs` over the neighbour list of `node` = q[head]: each neighbour
      without a distance gets dist[node] + 1 and is pushed. Afterwards every neighbour has
      been examined. */
  method ScanList(ghost g: Graph, start: int, ghost head: int, node: int, neighbours: seq<int>,
                  dist0: seq<int>, q0: seq<int>)
      returns (dist: seq<int>, q: seq<int>, ghost seen: set<int>)
    requires Scanning(g, start, dist0, q0, head, {}) && q0[head] == node
    requires forall y :: y in g[node] ==> y in neighbours
    requires forall i :: 0 <= i < |neighbours| ==> neighbours[i] in g[node]
    ensures Scanning(g, start, dist, q, head, seen) && q[head] == node && g[node] <= seen
  {
    dist, q, seen := dist0, q0, {};
    var k := 0;
    while k < |neighbours|
      invariant 0 <= k <= |neighbours|
      invariant Scanning(g, start, dist, q, head, seen) && q[head] == node
      invariant forall i :: 0 <= i < k ==> neighbours[i] in seen
    {
      var neighbor := neighbours[k];
      ScanVisit(g, start, dist, q, head, seen, neighbor);
      if dist[neighbor] == -1 {
        dist := dist[neighbor := dist[node] + 1];
        q := q + [neighbor];
      }
      SeenStep(neighbours, k, seen);
      seen := seen + {neighbor};
      k := k + 1;
    }
    forall y | y in g[node]
      ensures y in seen
    {
      var i :| 0 <= i < |neighbours| && neighbours[i] == y;
    }
  }

  /** Examining the k-th neighbour extends the examined prefix of the list by one. */
  lemma SeenStep(ns: seq<int>, k: int, seen: set<int>)
    requires 0 <= k < |ns| && forall i :: 0 <= i < k ==> ns[i] in seen
    ensures forall i :: 0 <= i < k + 1 ==> ns[i] in seen + {ns[k]}
  {
  }
}
