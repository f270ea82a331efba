/** `BFSBtwTemp`: breadth-first search over a bitwise adjacency matrix. Row x of the matrix
    holds TOTAL_BLOCK_NUM(n) 64-bit words with bit y set when x and y are adjacent; `bfs_matrix`
    expands a vertex by walking the words of its row and, inside each word, the set bits from
    the lowest up (`__builtin_ctzll`, then `bits &= bits - 1`). */
module BfsBitset {
  import opened Words
  import opened Graphs
  import opened Bitwise
  import opened BfsTheory

  class BfsBtwTemp {
    var numNodes: int
    var edgeCount: int
    var edges: array2<Word>

    /** Either nothing has been read yet, or `edges` is a symmetric bitwise matrix for
        `numNodes` vertices whose padding bits are clear. */
    ghost predicate Valid()
      reads this, edges
    {
      0 <= numNodes <= INT_MAX && edges.Length0 == numNodes &&
      (numNodes == 0 ||
       (IsMatrix(Rows(edges), numNodes) && Symmetric(Rows(edges), numNodes) && PaddingClear(Rows(edges), numNodes)))
    }

    /** The graph the matrix stands for. */
    ghost function Graph(): (g: Graphs.Graph)
      reads this, edges
      requires Valid() && numNodes >= 1
      ensures |g| == numNodes && WellFormed(g) && Undirected(g)
      ensures forall x, y :: 0 <= x < numNodes && 0 <= y < numNodes ==> (y in g[x] <==> IsSet(Rows(edges)[x], y))
    {
      BitGraph(Rows(edges), numNodes)
    }

    /** `BFSBtwTemp()`: no vertices, an empty matrix. */
    constructor ()
      ensures Valid() && numNodes == 0 && edgeCount == 0 && edges.Length0 == 0
    {
      numNodes := 0;
      edgeCount := 0;
      edges := new Word[0, 0];
    }

    /** The header line `p <name> <num_nodes> <edge_count>`: the empty matrix is resized to
        `num_nodes` rows of TOTAL_BLOCK_NUM(num_nodes) zero words. */
    method ReadHeader(nodes: int, edgeNum: int)
      requires Valid() && numNodes == 0
      requires 1 <= nodes <= INT_MAX
      modifies this
      ensures Valid() && fresh(edges)
      ensures numNodes == nodes && edgeCount == edgeNum
      ensures Rows(edges) == ZeroMatrix(nodes)
      ensures forall x, y :: 0 <= x < nodes && 0 <= y < nodes ==> y !in Graph()[x]
    {
      numNodes := nodes;
      edgeCount := edgeNum;
      edges := new Word[nodes, TotalBlockNum(nodes)]((x, k) => 0);
      assert forall x | 0 <= x < nodes :: Rows(edges)[x] == ZeroMatrix(nodes)[x];
    }

    /** The edge line `a <u> <v>` with 1-based vertex ids: `SET_EDGE(u - 1, v - 1, edges)`. */
    method ReadArc(u: int, v: int)
      requires Valid() && 1 <= u <= numNodes && 1 <= v <= numNodes
      modifies edges
      ensures Valid()
      ensures Rows(edges) == AddEdge(old(Rows(edges)), u - 1, v - 1)
      ensures Graph() == AddUndirected(old(Graph()), u - 1, v - 1)
    {
      var u0, v0 := u - 1, v - 1;
      ghost var rows := Rows(edges);
      AddEdgeKeepsMatrix(rows, numNodes, u0, v0);
      AddEdgeGraph(rows, numNodes, u0, v0);
      SetEdge(edges, u0, v0);
    }

    /** `bfs_matrix(start)`: the shortest distance of every vertex from `start` (-1 when there
        is no path). `pushed` is the queue `q` at the end: it starts with `start`, holds every
        discovered vertex once, and is ordered by distance. */
    method BfsMatrix(start: int) returns (dist: seq<int>, ghost pushed: seq<int>)
      requires Valid() && 0 <= start < numNodes
      ensures |dist| == numNodes && dist[start] == 0
      ensures forall v :: 0 <= v < numNodes ==> (dist[v] == -1 <==> !Reachable(Graph(), start, v))
      ensures forall v :: 0 <= v < numNodes && dist[v] != -1 ==>
        dist[v] >= 0 && ShortestDist(Graph(), start, v, dist[v])
      ensures forall v :: 0 <= v < numNodes && dist[v] > 0 ==>
        exists x :: 0 <= x < numNodes && IsSet(Rows(edges)[x], v) && dist[x] == dist[v] - 1
      ensures Distinct(pushed) && forall v :: 0 <= v < numNodes ==> (v in pushed <==> dist[v] != -1)
      ensures |pushed| >= 1 && pushed[0] == start
      ensures forall i :: 0 <= i < |pushed| ==> 0 <= pushed[i] < numNodes
      ensures forall i, j :: 0 <= i <= j < |pushed| ==> dist[pushed[i]] <= dist[pushed[j]]
    {
      ghost var g := Graph();
      ghost var rows := Rows(edges);
      dist := seq(numNodes, _ => -1);
      dist := dist[start := 0];
      var q := [start];
      var head := 0;
      BfsStart(g, start);
      while head < |q|
        invariant BfsInv(g, start, dist, q, head)
        decreases numNodes - head
      {
        QueueBound(g, start, dist, q);
        var node := q[head];
        ghost var seen: set<int> := {};
        var blockIndex := 0;
        while blockIndex < edges.Length1
          invariant 0 <= blockIndex <= edges.Length1
          invariant Scanning(g, start, dist, q, head, seen) && q[head] == node
          invariant forall y: nat :: y in g[node] && BlockIndex(y) < blockIndex ==> y in seen
        {
          ghost var seen0 := seen;
          dist, q, seen := ScanWord(g, rows, numNodes, start, head, node, blockIndex, edges[node, blockIndex], dist, q, seen);
          BlockDone(g, node, blockIndex, seen0, seen);
          blockIndex := blockIndex + 1;
        }
        RowSeen(g, numNodes, node, seen);
        ScanFinish(g, start, dist, q, head, seen);
        head := head + 1;
      }
      BfsDone(g, start, dist, q);
      pushed := q;
    }
  }

  /** The `while (bits)` loop of `bfs_matrix` over word b of the row of `node`: every set bit,
      lowest first, names a neighbour v, which is given distance dist[node] + 1 and pushed
      if it has none; the first bit at or past the vertex count ends the loop. Afterwards
      every neighbour in block b has been examined. */
  method ScanWord(ghost g: Graph, ghost rows: seq<seq<Word>>, n: int, start: int, ghost head: int,
                  node: int, b: nat, w: Word, dist0: seq<int>, q0: seq<int>, ghost seen0: set<int>)
      returns (dist: seq<int>, q: seq<int>, ghost seen: set<int>)
    requires IsMatrix(rows, n) && g == BitGraph(rows, n) && 0 <= node < n && b < TotalBlockNum(n)
    requires w == rows[node][b]
    requires Scanning(g, start, dist0, q0, head, seen0) && q0[head] == node
    ensures Scanning(g, start, dist, q, head, seen) && q[head] == node && seen0 <= seen
    ensures forall y: nat :: y in g[node] && BlockIndex(y) == b ==> y in seen
  {
    dist, q, seen := dist0, q0, seen0;
    var bits: Word := w;
    while bits != 0
      invariant Scanning(g, start, dist, q, head, seen) && q[head] == node && seen0 <= seen
      invariant forall j: nat :: Bit(bits, j) ==> Bit(w, j)
      invariant RowPartSeen(g, node, b, w, bits, seen)
      decreases bits
    {
      var offset := Ctz(bits);
      WordBit(bits, offset);
      var v := b * 64 + offset;
      if v >= n {
        BlockTail(g, node, b, w, bits, seen, n);
        break;
      }
      ScanBit(g, rows, n, start, head, node, b, w, bits, dist, q, seen, v);
      if dist[v] == -1 {
        dist := dist[v := dist[node] + 1];
        q := q + [v];
      }
      seen := seen + {v};
      bits := And(bits, bits - 1);
    }
    BlockSeen(g, rows, n, node, b, w, bits, seen);
  }

  /** Examining the neighbour v of the lowest set bit of `bits`, then clearing that bit. */
  lemma ScanBit(g: Graph, rows: seq<seq<Word>>, n: int, start: int, head: int, node: int, b: nat,
                w: Word, bits: Word, dist: seq<int>, q: seq<int>, seen: set<int>, v: int)
    requires IsMatrix(rows, n) && g == BitGraph(rows, n) && 0 <= node < n && b < TotalBlockNum(n)
    requires w == rows[node][b]
    requires Scanning(g, start, dist, q, head, seen) && q[head] == node
    requires bits != 0 && (forall j: nat :: Bit(bits, j) ==> Bit(w, j)) && RowPartSeen(g, node, b, w, bits, seen)
    requires v == b * BLOCK_BITS + Ctz(bits) && v < n
    ensures 0 <= v < |dist| && 0 <= head < |q|
    ensures dist[v] == -1 ==> Scanning(g, start, dist[v := dist[node] + 1], q + [v], head, seen + {v})
    ensures dist[v] != -1 ==> Scanning(g, start, dist, q, head, seen + {v})
    ensures And(bits, bits - 1) < TWO_64
    ensures forall j: nat :: Bit(And(bits, bits - 1), j) ==> Bit(w, j)
    ensures RowPartSeen(g, node, b, w, And(bits, bits - 1), seen + {v})
  {
    WordBit(bits, Ctz(bits));
    BitInRow(rows, n, node, b, w, v);
    ScanVisit(g, start, dist, q, head, seen, v);
    BitCleared(g, node, b, w, bits, seen, v);
  }

  /** The examined neighbours only grow, so the blocks already walked stay examined. */
  lemma BlockDone(g: Graph, node: int, b: nat, seen0: set<int>, seen: set<int>)
    requires 0 <= node < |g| && seen0 <= seen
    requires forall y: nat :: y in g[node] && BlockIndex(y) < b ==> y in seen0
    requires forall y: nat :: y in g[node] && BlockIndex(y) == b ==> y in seen
    ensures forall y: nat :: y in g[node] && BlockIndex(y) < b + 1 ==> y in seen
  {
  }

  /** Inside block b of a row: every neighbour whose bit has already been cleared from `bits`
      has been examined. */
  ghost predicate RowPartSeen(g: Graph, node: int, b: nat, w: Word, bits: Word, seen: set<int>)
  {
    0 <= node < |g| &&
    forall j: nat :: j < BLOCK_BITS && Bit(w, j) && !Bit(bits, j) && b * BLOCK_BITS + j in g[node] ==>
      b * BLOCK_BITS + j in seen
  }

  /** `bits &= bits - 1` after examining the neighbour of the lowest set bit. */
  lemma BitCleared(g: Graph, node: int, b: nat, w: Word, bits: Word, seen: set<int>, v: int)
    requires bits != 0 && v == b * BLOCK_BITS + Ctz(bits)
    requires forall j: nat :: Bit(bits, j) ==> Bit(w, j)
    requires RowPartSeen(g, node, b, w, bits, seen)
    ensures And(bits, bits - 1) < TWO_64
    ensures forall j: nat :: Bit(And(bits, bits - 1), j) ==> Bit(w, j)
    ensures RowPartSeen(g, node, b, w, And(bits, bits - 1), seen + {v})
  {
    ClearLowestAll(bits);
  }

  /** A set bit at position `offset` of word b of row x, below the vertex count, is the
      neighbour `b * 64 + offset` of x. */
  lemma BitInRow(rows: seq<seq<Word>>, n: int, x: int, b: nat, w: Word, v: nat)
    requires IsMatrix(rows, n) && 0 <= x < n && b < TotalBlockNum(n) && w == rows[x][b]
    requires b * BLOCK_BITS <= v < b * BLOCK_BITS + BLOCK_BITS && Bit(w, v - b * BLOCK_BITS)
    requires v < n
    ensures v in BitGraph(rows, n)[x]
  {
    assert BlockIndex(v) == b && MaskIndex(v) == v - b * BLOCK_BITS;
  }

  /** The source's `break`: once the lowest remaining bit is past the last vertex, so are all
      the others, and the block's neighbours have all been examined. */
  lemma BlockTail(g: Graph, node: int, b: nat, w: Word, bits: Word, seen: set<int>, n: int)
    requires bits != 0 && b * BLOCK_BITS + Ctz(bits) >= n && |g| == n && WellFormed(g) && 0 <= node < n
    requires RowPartSeen(g, node, b, w, bits, seen)
    ensures RowPartSeen(g, node, b, w, 0, seen)
  {
    BitZeroAll();
    forall j: nat | j < BLOCK_BITS && Bit(w, j) && b * BLOCK_BITS + j in g[node]
      ensures b * BLOCK_BITS + j in seen
    {
    }
  }

  /** After the bit loop, every neighbour in block b has been examined. */
  lemma BlockSeen(g: Graph, rows: seq<seq<Word>>, n: int, node: int, b: nat, w: Word, bits: Word, seen: set<int>)
    requires IsMatrix(rows, n) && g == BitGraph(rows, n) && 0 <= node < n && b < TotalBlockNum(n)
    requires w == rows[node][b]
    requires bits == 0 || RowPartSeen(g, node, b, w, 0, seen)
    requires RowPartSeen(g, node, b, w, bits, seen)
    ensures forall y: nat :: y in g[node] && BlockIndex(y) == b ==> y in seen
  {
    BitZeroAll();
    forall y: nat | y in g[node] && BlockIndex(y) == b
      ensures y in seen
    {
      var j := MaskIndex(y);
      assert y == b * BLOCK_BITS + j;
    }
  }

  /** When every block has been walked, every neighbour has been examined. */
  lemma RowSeen(g: Graph, n: int, node: int, seen: set<int>)
    requires 1 <= n <= INT_MAX && |g| == n && WellFormed(g) && 0 <= node < n
    requires forall y: nat :: y in g[node] && BlockIndex(y) < TotalBlockNum(n) ==> y in seen
    ensures g[node] <= seen
  {
    forall y | y in g[node]
      ensures y in seen
    {
      BlocksCover(n, y);
    }
  }
}
