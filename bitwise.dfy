/** The bitset macros shared by the bitwise BFS and DFS: a bit index is split into a block
    (which 64-bit word) and a position inside that block, and an adjacency matrix keeps one
    row of words per vertex, with bit y of row x set when x and y are adjacent.

    The macros work on a `vector<block_t>` (a row, or the DFS's visited set) and on a
    `vector<vector<block_t>>` (the matrix). On values these are `seq<Word>` and
    `seq<seq<Word>>`; the methods `SetTrue` and `SetEdge` perform the same updates in place on
    an `array<Word>` and an `array2<Word>`. */
module Bitwise {
  import opened Words
  import opened Graphs

  /** `sizeof(block_t) * 8` */
  const BLOCK_BITS: nat := 64


  /** `BLOCK_INDEX(bit_index)`: the word that holds the bit. */
  function BlockIndex(bitIndex: nat): (r: nat)
    ensures BLOCK_BITS * r <= bitIndex < BLOCK_BITS * r + BLOCK_BITS
  {
    bitIndex / BLOCK_BITS
  }

  /** `MASK_INDEX(bit_index)`: the position of the bit inside its word. */
  function MaskIndex(bitIndex: nat): (r: nat)
    ensures r < BLOCK_BITS
    ensures bitIndex == BLOCK_BITS * BlockIndex(bitIndex) + r
  {
    bitIndex % BLOCK_BITS
  }

  /** `TOTAL_BLOCK_NUM(vertex_num)`, i.e. `BLOCK_INDEX(vertex_num - 1) + 1`. Since dividing by
      a `size_t` converts `vertex_num - 1` to an unsigned 64-bit value, a vertex count of 0
      wraps to 2^64 - 1 and gives 2^58 blocks; for a positive count it is the number of
      64-bit words needed to hold that many bits. */
  function TotalBlockNum(vertexNum: int): (r: nat)
    ensures 1 <= vertexNum < TWO_64 ==>
      BLOCK_BITS * (r - 1) < vertexNum <= BLOCK_BITS * r
    ensures vertexNum == 0 ==> r == 0x400_0000_0000_0000
  {
    BlockIndex((vertexNum - 1) % TWO_64) + 1
  }

  /** Every bit index below a positive vertex count falls into one of its blocks. */
  lemma BlocksCover(n: int, v: nat)
    requires 1 <= n < TWO_64 && v < n
    ensures BlockIndex(v) < TotalBlockNum(n)
  {
  }

  /** `MASK(bit_index)`: a word whose only set bit is the bit's position. */
  function Mask(bitIndex: nat): (r: Word)
    ensures forall j: nat :: Bit(r, j) == (j == MaskIndex(bitIndex))
  {
    BitOne();
    Shl(1, MaskIndex(bitIndex))
  }

  /** Whether bit `bitIndex` of a bitset is set. */
  predicate IsSet(arr: seq<Word>, bitIndex: nat)
    requires BlockIndex(bitIndex) < |arr|
  {
    Bit(arr[BlockIndex(bitIndex)], MaskIndex(bitIndex))
  }

  /** `CHECK_BIT(arr, index)`: nonzero exactly when the bit is set, and then it is the
      bit's mask. */
  function CheckBit(arr: seq<Word>, index: nat): (r: Word)
    requires BlockIndex(index) < |arr|
    ensures r != 0 <==> IsSet(arr, index)
    ensures r == 0 || r == Mask(index)
  {
    var r := And(arr[BlockIndex(index)], Mask(index));
    BitZeroAll();
    if IsSet(arr, index) then
      assert Bit(r, MaskIndex(index));
      WordExt(r, Mask(index));
      r
    else
      WordExt(r, 0);
      r
  }

  /** `SET_TRUE(arr, index)` on a value: the same bitset with bit `index` set, every other
      bit as before, and every other word untouched. */
  function WithBit(arr: seq<Word>, index: nat): (r: seq<Word>)
    requires BlockIndex(index) < |arr|
    ensures |r| == |arr|
    ensures forall k :: 0 <= k < |arr| && k != BlockIndex(index) ==> r[k] == arr[k]
    ensures forall i: nat :: BlockIndex(i) < |arr| ==> (IsSet(r, i) <==> IsSet(arr, i) || i == index)
  {
    var b := BlockIndex(index);
    arr[b := OrWord(arr[b], Mask(index))]
  }

  /** `SET_TRUE(arr, index)` in place. */
  method SetTrue(arr: array<Word>, index: nat)
    requires BlockIndex(index) < arr.Length
    modifies arr
    ensures arr[..] == WithBit(old(arr[..]), index)
  {
    var b := BlockIndex(index);
    arr[b] := OrWord(arr[b], Mask(index));
  }

  // ---------------------------------------------------------------------------------------
  // Adjacency matrices

  /** The rows of a matrix. */
  ghost function Rows(m: array2<Word>): (r: seq<seq<Word>>)
    reads m
    ensures |r| == m.Length0
    ensures forall x :: 0 <= x < |r| ==> |r[x]| == m.Length1
    ensures forall x, k :: 0 <= x < m.Length0 && 0 <= k < m.Length1 ==> r[x][k] == m[x, k]
  {
    seq(m.Length0, x requires 0 <= x < m.Length0 reads m =>
      seq(m.Length1, k requires 0 <= k < m.Length1 reads m => m[x, k]))
  }

  /** `SET_EDGE(u, v, edges)` on a value: sets bit v of row u and bit u of row v, and nothing
      else. */
  function AddEdge(rows: seq<seq<Word>>, u: nat, v: nat): (r: seq<seq<Word>>)
    requires u < |rows| && v < |rows|
    requires BlockIndex(v) < |rows[u]| && BlockIndex(u) < |rows[v]|
    ensures |r| == |rows|
    ensures forall x :: 0 <= x < |rows| ==> |r[x]| == |rows[x]|
    ensures forall x: nat, y: nat :: x < |rows| && BlockIndex(y) < |rows[x]| ==>
      (IsSet(r[x], y) <==> IsSet(rows[x], y) || (x == u && y == v) || (x == v && y == u))
  {
    var r1 := rows[u := WithBit(rows[u], v)];
    r1[v := WithBit(r1[v], u)]
  }

  /** `SET_EDGE(u, v, edges)` in place. */
  method SetEdge(edges: array2<Word>, u: nat, v: nat)
    requires u < edges.Length0 && v < edges.Length0
    requires BlockIndex(u) < edges.Length1 && BlockIndex(v) < edges.Length1
    modifies edges
    ensures Rows(edges) == AddEdge(old(Rows(edges)), u, v)
  {
    ghost var rows := Rows(edges);
    var bv := BlockIndex(v);
    edges[u, bv] := OrWord(edges[u, bv], Mask(v));
    ghost var r1 := rows[u := WithBit(rows[u], v)];
    assert Rows(edges) == r1 by {
      assert forall x | 0 <= x < edges.Length0 :: Rows(edges)[x] == r1[x];
    }
    var bu := BlockIndex(u);
    edges[v, bu] := OrWord(edges[v, bu], Mask(u));
    assert Rows(edges) == r1[v := WithBit(r1[v], u)] by {
      assert forall x | 0 <= x < edges.Length0 :: Rows(edges)[x] == r1[v := WithBit(r1[v], u)][x];
    }
  }

  /** A bitwise adjacency matrix for n vertices: n rows of TOTAL_BLOCK_NUM(n) words. */
  predicate IsMatrix(rows: seq<seq<Word>>, n: int)
  {
    1 <= n <= INT_MAX && |rows| == n &&
    forall x :: 0 <= x < n ==> |rows[x]| == TotalBlockNum(n)
  }

  /** Bit y of row x is set exactly when bit x of row y is. */
  predicate Symmetric(rows: seq<seq<Word>>, n: int)
    requires IsMatrix(rows, n)
  {
    forall x: nat, y: nat :: x < n && y < n ==> (IsSet(rows[x], y) <==> IsSet(rows[y], x))
  }

  /** The bits of the last word of each row past the vertex count stay clear. */
  predicate PaddingClear(rows: seq<seq<Word>>, n: int)
    requires IsMatrix(rows, n)
  {
    forall x: nat, y: nat :: x < n && n <= y < BLOCK_BITS * TotalBlockNum(n) ==> !IsSet(rows[x], y)
  }

  /** The graph a matrix stands for: the neighbours of x are the vertices y < n whose bit is
      set in row x. */
  ghost function BitGraph(rows: seq<seq<Word>>, n: int): (g: Graph)
    requires IsMatrix(rows, n)
    ensures |g| == n && WellFormed(g)
    ensures forall x, y :: 0 <= x < n && 0 <= y < n ==> (y in g[x] <==> IsSet(rows[x], y))
  {
    seq(n, x requires 0 <= x < n => set y: nat | y < n && IsSet(rows[x], y))
  }

  /** The freshly allocated matrix: every word zero. */
  function ZeroMatrix(n: int): (rows: seq<seq<Word>>)
    requires 1 <= n <= INT_MAX
    ensures IsMatrix(rows, n) && Symmetric(rows, n) && PaddingClear(rows, n)
    ensures forall x: nat, y: nat :: x < n && BlockIndex(y) < TotalBlockNum(n) ==> !IsSet(rows[x], y)
  {
    BitZeroAll();
    seq(n, x => seq(TotalBlockNum(n), k => 0))
  }

  /** Adding an edge between two vertices keeps the matrix symmetric and its padding clear,
      and adds exactly that undirected edge to the graph. */
  lemma AddEdgeKeepsMatrix(rows: seq<seq<Word>>, n: int, u: nat, v: nat)
    requires IsMatrix(rows, n) && u < n && v < n
    ensures BlockIndex(v) < |rows[u]| && BlockIndex(u) < |rows[v]|
    ensures IsMatrix(AddEdge(rows, u, v), n)
    ensures Symmetric(rows, n) ==> Symmetric(AddEdge(rows, u, v), n)
    ensures PaddingClear(rows, n) ==> PaddingClear(AddEdge(rows, u, v), n)
  {
    BlocksCover(n, u);
    BlocksCover(n, v);
  }

  /** Adding an edge to the matrix adds exactly that undirected edge to its graph. */
  lemma AddEdgeGraph(rows: seq<seq<Word>>, n: int, u: nat, v: nat)
    requires IsMatrix(rows, n) && u < n && v < n
    requires BlockIndex(v) < |rows[u]| && BlockIndex(u) < |rows[v]|
    requires IsMatrix(AddEdge(rows, u, v), n)
    ensures BitGraph(AddEdge(rows, u, v), n) == AddUndirected(BitGraph(rows, n), u, v)
  {
    var r := AddEdge(rows, u, v);
    var g, h := BitGraph(r, n), AddUndirected(BitGraph(rows, n), u, v);
    forall x | 0 <= x < n
      ensures g[x] == h[x]
    {
      forall y | y in g[x]
        ensures y in h[x]
      {
      }
      forall y | y in h[x]
        ensures y in g[x]
      {
        BlocksCover(n, y);
      }
    }
  }

  // ---------------------------------------------------------------------------------------
  // Scanning a row

  /** `(block_index << 6) + offset` for each offset of `offsets`. */
  function Shifted(blockIndex: nat, offsets: seq<nat>): (r: seq<int>)
    ensures |r| == |offsets|
    ensures forall i :: 0 <= i < |r| ==> r[i] == BLOCK_BITS * blockIndex + offsets[i]
  {
    seq(|offsets|, i requires 0 <= i < |offsets| => BLOCK_BITS * blockIndex + offsets[i])
  }

  /** The bit indices a scan of a row yields: block by block, and inside each block the set
      bits from the lowest up (`ctz`, then `bits &= bits - 1`). */
  function RowIds(row: seq<Word>): (r: seq<int>)
  {
    if |row| == 0 then []
    else RowIds(row[..|row| - 1]) + Shifted(|row| - 1, ScanOrder(row[|row| - 1]))
  }

  /** The scan yields exactly the set bits of the row, each once, in ascending order. */
  lemma {:induction false} RowIdsSpec(row: seq<Word>)
    ensures forall i :: 0 <= i < |RowIds(row)| ==> 0 <= RowIds(row)[i] < BLOCK_BITS * |row|
    ensures forall y: nat :: y in RowIds(row) <==> BlockIndex(y) < |row| && IsSet(row, y)
    ensures forall i, j :: 0 <= i < j < |RowIds(row)| ==> RowIds(row)[i] < RowIds(row)[j]
  {
    if |row| > 0 {
      var pre, b := row[..|row| - 1], |row| - 1;
      var w := row[b];
      RowIdsSpec(pre);
      var a, c := RowIds(pre), Shifted(b, ScanOrder(w));
      ScanOrderSpec(w);
      assert RowIds(row) == a + c;
      forall i | 0 <= i < |c|
        ensures BLOCK_BITS * b <= c[i] < BLOCK_BITS * b + BLOCK_BITS
      {
        assert ScanOrder(w)[i] in ScanOrder(w);
        WordBit(w, ScanOrder(w)[i]);
      }
      forall y: nat
        ensures y in a + c <==> BlockIndex(y) < |row| && IsSet(row, y)
      {
        if BlockIndex(y) < b {
          assert IsSet(row, y) == IsSet(pre, y);
          assert y !in c;
        } else if BlockIndex(y) == b {
          var p := MaskIndex(y);
          assert y !in a;
          assert y in c <==> p in ScanOrder(w) by {
            if y in c {
              var i :| 0 <= i < |c| && c[i] == y;
              assert ScanOrder(w)[i] == p;
            }
            if p in ScanOrder(w) {
              var i :| 0 <= i < |ScanOrder(w)| && ScanOrder(w)[i] == p;
              assert c[i] == y;
            }
          }
        } else {
          assert y !in a && y !in c;
        }
      }
    }
  }
}
