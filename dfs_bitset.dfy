/** `DFSBtwTemp`: iterative depth-first search over a bitwise adjacency matrix, as run by
    `compute`. The matrix is built exactly as in `BFSBtwTemp`. One DFS pass starts from vertex
    0 with a fresh `visited` bitset; a popped vertex whose bit is set is skipped, otherwise it
    is marked (`SET_TRUE`), ranked, and every set bit of its row is pushed, block by block and
    lowest bit first. `nodePos` is allocated once for all passes of `compute`, so a pass only
    fills entries that are still -1. */
module DfsBitset {
  import opened Words
  import opened Graphs
  import opened Bitwise
  import opened DfsTheory

  /** The push guard `~CHECK_BIT(visited, v)`: a bitwise complement of a word that is either 0
      or a single bit, so it is never 0 and every neighbour is pushed, visited or not. */
  function PushGuard(visited: seq<Word>, v: nat): (r: Word)
    requires BlockIndex(v) < |visited|
    ensures r != 0
  {
    var c := CheckBit(visited, v);
    assert Bit(Not(c), (MaskIndex(v) + 1) % BLOCK_BITS) by {
      BitZeroAll();
    }
    Not(c)
  }

  /** The push loops over the row of `node`: every set bit of the row goes on top of the
      stack, in the order of a row scan. */
  method PushRow(stack: seq<int>, m: array2<Word>, node: int, visited: seq<Word>, n: int)
      returns (r: seq<int>)
    requires 1 <= n && 0 <= node < m.Length0
    requires m.Length1 == TotalBlockNum(n) && |visited| == TotalBlockNum(n)
    ensures r == stack + RowIds(Rows(m)[node])
  {
    ghost var row := Rows(m)[node];
    r := stack;
    var blockIndex := 0;
    while blockIndex < TotalBlockNum(n)
      invariant 0 <= blockIndex <= TotalBlockNum(n)
      invariant r == stack + RowIds(row[..blockIndex])
    {
      var bits: Word := m[node, blockIndex];
      ghost var before := r;
      r := PushBlock(r, blockIndex, bits, visited);
      RowIdsStep(stack, before, row, blockIndex, bits);
      blockIndex := blockIndex + 1;
    }
    assert row[..blockIndex] == row;
  }

  /** The `while (bits)` loop over word `blockIndex` of the row: each set bit, lowest first,
      is pushed as the id `(block_index << 6) + offset`. */
  method PushBlock(stack: seq<int>, blockIndex: nat, bits0: Word, visited: seq<Word>)
      returns (r: seq<int>)
    requires blockIndex < |visited|
    ensures r == stack + Shifted(blockIndex, ScanOrder(bits0))
  {
    r := stack;
    var bits: Word := bits0;
    ghost var target := r + Shifted(blockIndex, ScanOrder(bits));
    while bits != 0
      invariant r + Shifted(blockIndex, ScanOrder(bits)) == target
      decreases bits
    {
      var offset := Ctz(bits);
      WordBit(bits, offset);
      var v := blockIndex * 64 + offset;
      OffsetBlock(blockIndex, offset);
      ScanStep(blockIndex, bits, r, target);
      if PushGuard(visited, v) != 0 {
        r := r + [v];
      }
      bits := And(bits, bits - 1);
    }
    assert Shifted(blockIndex, ScanOrder(bits)) == [];
  }

  /** One pass of the bit loop: the lowest set bit comes first in the scan of the word, so
      pushing it and clearing it keeps the pushes on course for the whole word. */
  lemma ScanStep(b: nat, bits: Word, r: seq<int>, target: seq<int>)
    requires bits != 0 && r + Shifted(b, ScanOrder(bits)) == target
    ensures (r + [b * 64 + Ctz(bits)]) + Shifted(b, ScanOrder(And(bits, bits - 1))) == target
  {
    ScanOrderStep(bits);
    PushShifted(r, b, Ctz(bits), ScanOrder(And(bits, bits - 1)), target);
  }

  lemma ScanOrderStep(bits: Word)
    requires bits != 0
    ensures ScanOrder(bits) == [Ctz(bits)] + ScanOrder(And(bits, bits - 1))
  {
  }

  /** Moving the first shifted offset onto the stack. */
  lemma PushShifted(r: seq<int>, b: nat, p: nat, ps: seq<nat>, target: seq<int>)
    requires r + Shifted(b, [p] + ps) == target
    ensures (r + [b * 64 + p]) + Shifted(b, ps) == target
  {
    assert Shifted(b, [p] + ps) == [b * 64 + p] + Shifted(b, ps);
    AppendAssoc(r, [b * 64 + p], Shifted(b, ps));
  }

  lemma AppendAssoc(a: seq<int>, b: seq<int>, c: seq<int>)
    ensures (a + b) + c == a + (b + c)
  {
  }

  /** The id `b * 64 + offset` of a bit of word b lies in block b. */
  lemma OffsetBlock(b: nat, offset: nat)
    requires offset < BLOCK_BITS
    ensures BlockIndex(b * 64 + offset) == b
  {
  }

  /** The scan of a row prefix grows by the scan of the next word. */
  lemma RowIdsStep(stack: seq<int>, r: seq<int>, row: seq<Word>, b: nat, w: Word)
    requires b < |row| && w == row[b] && r == stack + RowIds(row[..b])
    ensures r + Shifted(b, ScanOrder(w)) == stack + RowIds(row[..b + 1])
  {
    RowIdsPrefix(row, b);
    AppendAssoc(stack, RowIds(row[..b]), Shifted(b, ScanOrder(w)));
  }

  lemma RowIdsPrefix(row: seq<Word>, b: nat)
    requires b < |row|
    ensures RowIds(row[..b + 1]) == RowIds(row[..b]) + Shifted(b, ScanOrder(row[b]))
  {
    var p := row[..b + 1];
    assert p[..b] == row[..b] && p[b] == row[b];
  }

  /** The visited bitset marks exactly the vertices of `order`. */
  ghost predicate Marks(vis: seq<Word>, order: seq<int>, n: int)
  {
    1 <= n <= INT_MAX && |vis| == TotalBlockNum(n) &&
    forall v: nat :: v < n ==> BlockIndex(v) < |vis| && (IsSet(vis, v) <==> v in order)
  }

  /** The fresh bitset of a pass marks nothing. */
  lemma MarksStart(n: int)
    requires 1 <= n <= INT_MAX
    ensures Marks(seq(TotalBlockNum(n), _ => 0), [], n)
  {
    BitZeroAll();
    forall v: nat | v < n
      ensures BlockIndex(v) < TotalBlockNum(n)
    {
      BlocksCover(n, v);
    }
  }

  /** Popping a vertex whose bit is set (`continue`). */
  lemma SkipStep(g: Graph, n: int, order: seq<int>, before: seq<int>, vis: seq<Word>)
    requires DfsInv(g, order, before) && |g| == n && Marks(vis, order, n) && |before| > 0
    requires BlockIndex(before[|before| - 1]) < |vis| && CheckBit(vis, before[|before| - 1]) != 0
    ensures DfsInv(g, order, before[..|before| - 1])
  {
    DfsSkip(g, order, before);
  }

  /** Popping a vertex u whose bit is clear: `SET_TRUE` marks it, it is ranked, and its row
      is pushed. Every invariant of the loop holds again afterwards. */
  lemma VisitStep(g: Graph, rows: seq<seq<Word>>, n: int, order: seq<int>, before: seq<int>,
                  vis: seq<Word>, nodePos0: seq<int>, nodePos: seq<int>, u: int)
    requires IsMatrix(rows, n) && PaddingClear(rows, n) && g == BitGraph(rows, n)
    requires DfsInv(g, order, before) && Marks(vis, order, n)
    requires |nodePos0| == n && RanksOver(nodePos0, nodePos, order)
    requires |before| > 0 && u == before[|before| - 1]
    requires BlockIndex(u) < |vis| && CheckBit(vis, u) == 0
    ensures |order| < n && 0 <= u < n && BlockIndex(u) < |vis|
    ensures DfsInv(g, order + [u], before[..|before| - 1] + RowIds(rows[u]))
    ensures Marks(WithBit(vis, u), order + [u], n)
    ensures RanksOver(nodePos0, if nodePos[u] == -1 then nodePos[u := |order| + 1] else nodePos, order + [u])
  {
    VisitBound(g, order, before);
    RanksOverStep(nodePos0, nodePos, order, u);
    RowNeighbours(rows, n, u);
    DfsVisit(g, order, before, RowIds(rows[u]));
  }

  /** In a matrix with clear padding, the row scan of x yields exactly the neighbours of x,
      so every pushed id is a vertex even though the loop does not test it. */
  lemma RowNeighbours(rows: seq<seq<Word>>, n: int, x: int)
    requires IsMatrix(rows, n) && PaddingClear(rows, n) && 0 <= x < n
    ensures forall i :: 0 <= i < |RowIds(rows[x])| ==> RowIds(rows[x])[i] in BitGraph(rows, n)[x]
    ensures forall y :: y in BitGraph(rows, n)[x] ==> y in RowIds(rows[x])
  {
    var ids := RowIds(rows[x]);
    RowIdsSpec(rows[x]);
    forall i | 0 <= i < |ids|
      ensures ids[i] in BitGraph(rows, n)[x]
    {
      var y: nat := ids[i];
      assert y in ids;
    }
    forall y | y in BitGraph(rows, n)[x]
      ensures y in ids
    {
      BlocksCover(n, y);
    }
  }

  /** One pass of the loop body on stack `st` under flags `vis`: the top u is popped, and when
      u was not visited every id of its row scan is pushed, visited or not. */
  ghost function NextStack(rows: seq<seq<Word>>, vis: seq<bool>, st: seq<int>): seq<int>
    requires |vis| == |rows| && |st| > 0 && 0 <= st[|st| - 1] < |rows|
  {
    var u := st[|st| - 1];
    var popped := st[..|st| - 1];
    if vis[u] then popped else popped + RowIds(rows[u])
  }

  /** Loop check i of a run: the stack is not empty, its top is a vertex, and the stack at the
      next check is what the loop body makes of it. */
  ghost predicate RunStep(rows: seq<seq<Word>>, stacks: seq<seq<int>>, i: int)
  {
    0 <= i < |stacks| - 1 && |stacks[i]| > 0 && 0 <= stacks[i][|stacks[i]| - 1] < |rows| &&
    stacks[i + 1] == NextStack(rows, PoppedFlags(stacks[..i], |rows|), stacks[i])
  }

  /** `stacks` lists the stack at every check of `while (!s.empty())` in one pass: it starts
      as [0], each check follows from the one before, and the loop stops at the first empty
      stack. */
  ghost predicate DfsRun(rows: seq<seq<Word>>, stacks: seq<seq<int>>)
  {
    |stacks| >= 1 && stacks[0] == [START] && stacks[|stacks| - 1] == [] &&
    forall i :: 0 <= i < |stacks| - 1 ==> RunStep(rows, stacks, i)
  }

  /** Two runs over the same matrix agree on every check both reach. */
  lemma {:induction false} RunsAgree(rows: seq<seq<Word>>, a: seq<seq<int>>, b: seq<seq<int>>, k: nat)
    requires DfsRun(rows, a) && DfsRun(rows, b) && k < |a| && k < |b|
    ensures a[..k + 1] == b[..k + 1]
    decreases k
  {
    if k > 0 {
      RunsAgree(rows, a, b, k - 1);
      assert a[..k - 1] == a[..k][..k - 1] && b[..k - 1] == b[..k][..k - 1];
      assert a[k - 1] == a[..k][k - 1] && b[k - 1] == b[..k][k - 1];
      assert RunStep(rows, a, k - 1) && RunStep(rows, b, k - 1);
      assert a[..k + 1] == a[..k] + [a[k]] && b[..k + 1] == b[..k] + [b[k]];
    }
  }

  /** A pass has exactly one run: the stacks it goes through, and so the order in which it
      finalizes vertices, are determined by the matrix. */
  lemma RunUnique(rows: seq<seq<Word>>, a: seq<seq<int>>, b: seq<seq<int>>)
    requires DfsRun(rows, a) && DfsRun(rows, b)
    ensures a == b
  {
    var k := if |a| < |b| then |a| - 1 else |b| - 1;
    RunsAgree(rows, a, b, k);
    assert a[k] == a[..k + 1][k] && b[k] == b[..k + 1][k];
    assert k < |a| - 1 ==> RunStep(rows, a, k);
    assert k < |b| - 1 ==> RunStep(rows, b, k);
    assert a == a[..k + 1] && b == b[..k + 1];
  }

  /** Appending a stack keeps the steps already taken. */
  lemma StepsKept(rows: seq<seq<Word>>, stacks: seq<seq<int>>, next: seq<int>)
    requires forall i :: 0 <= i < |stacks| - 1 ==> RunStep(rows, stacks, i)
    ensures forall i :: 0 <= i < |stacks| - 1 ==> RunStep(rows, stacks + [next], i)
  {
    var s2 := stacks + [next];
    forall i | 0 <= i < |stacks| - 1
      ensures RunStep(rows, s2, i)
    {
      assert RunStep(rows, stacks, i);
      assert s2[..i] == stacks[..i] && s2[i] == stacks[i] && s2[i + 1] == stacks[i + 1];
    }
  }

  /** The trace of a pass so far: `stacks` ends with the current stack `s`, every step so far
      is the loop body's, `flags` marks the tops popped and `order` lists the vertices
      finalized. */
  ghost predicate Traced(rows: seq<seq<Word>>, stacks: seq<seq<int>>, s: seq<int>,
                         flags: seq<bool>, order: seq<int>)
  {
    |stacks| >= 1 && stacks[0] == [START] && stacks[|stacks| - 1] == s &&
    (forall i :: 0 <= i < |stacks| - 1 ==> RunStep(rows, stacks, i)) &&
    flags == PoppedFlags(stacks[..|stacks| - 1], |rows|) &&
    order == PopOrder(stacks[..|stacks| - 1], |rows|)
  }

  /** The bitset `visited` and the flags of the trace agree on every vertex. */
  lemma FlagsAgree(rows: seq<seq<Word>>, stacks: seq<seq<int>>, s: seq<int>, flags: seq<bool>,
                   order: seq<int>, vis: seq<Word>, u: int)
    requires Traced(rows, stacks, s, flags, order) && Marks(vis, order, |rows|) && 0 <= u < |rows|
    ensures BlockIndex(u) < |vis| && |flags| == |rows| && (CheckBit(vis, u) != 0 <==> flags[u])
  {
    PopOrderFlags(stacks[..|stacks| - 1], |rows|);
  }

  /** One pass of the loop body extends the trace by the stack it leaves. */
  lemma TraceStep(rows: seq<seq<Word>>, stacks: seq<seq<int>>, s: seq<int>, flags: seq<bool>,
                  order: seq<int>)
    requires Traced(rows, stacks, s, flags, order)
    requires |s| > 0 && 0 <= s[|s| - 1] < |rows|
    ensures |flags| == |rows|
    ensures Traced(rows, stacks + [NextStack(rows, flags, s)], NextStack(rows, flags, s),
                   flags[s[|s| - 1] := true],
                   if flags[s[|s| - 1]] then order else order + [s[|s| - 1]])
  {
    var next := NextStack(rows, flags, s);
    var s2 := stacks + [next];
    StepsKept(rows, stacks, next);
    assert s2[..|stacks| - 1] == stacks[..|stacks| - 1];
    assert RunStep(rows, s2, |stacks| - 1);
    FlagsGrow(stacks, |rows|);
    assert s2[..|s2| - 1] == stacks;
  }

  /** When the stack is empty the trace is a whole run and the vertices finalized are its pop
      order. */
  lemma TraceDone(rows: seq<seq<Word>>, stacks: seq<seq<int>>, flags: seq<bool>, order: seq<int>)
    requires Traced(rows, stacks, [], flags, order)
    ensures DfsRun(rows, stacks) && order == PopOrder(stacks, |rows|)
  {
  }

  class DfsBtwTemp {
    var adjMatrix: array2<Word>
    var numNodes: int
    var edgeCount: int

    /** Either nothing has been read yet, or `adjMatrix` is a symmetric bitwise matrix for
        `numNodes` vertices whose padding bits are clear. */
    ghost predicate Valid()
      reads this, adjMatrix
    {
      0 <= numNodes <= INT_MAX && adjMatrix.Length0 == numNodes &&
      (numNodes == 0 ||
       (IsMatrix(Rows(adjMatrix), numNodes) && Symmetric(Rows(adjMatrix), numNodes) &&
        PaddingClear(Rows(adjMatrix), numNodes)))
    }

    /** The graph the matrix stands for. */
    ghost function Graph(): (g: Graphs.Graph)
      reads this, adjMatrix
      requires Valid() && numNodes >= 1
      ensures |g| == numNodes && WellFormed(g) && Undirected(g)
      ensures forall x, y :: 0 <= x < numNodes && 0 <= y < numNodes ==> (y in g[x] <==> IsSet(Rows(adjMatrix)[x], y))
    {
      BitGraph(Rows(adjMatrix), numNodes)
    }

    /** `DFSBtwTemp()`: no vertices, an empty matrix. */
    constructor ()
      ensures Valid() && numNodes == 0 && edgeCount == 0 && adjMatrix.Length0 == 0
    {
      adjMatrix := new Word[0, 0];
      numNodes := 0;
      edgeCount := 0;
    }

    /** The header line: the empty matrix is resized to `num_nodes` rows of
        TOTAL_BLOCK_NUM(num_nodes) zero words. */
    method ReadHeader(nodes: int, edgeNum: int)
      requires Valid() && numNodes == 0
      requires 1 <= nodes <= INT_MAX
      modifies this
      ensures Valid() && fresh(adjMatrix)
      ensures numNodes == nodes && edgeCount == edgeNum
      ensures Rows(adjMatrix) == ZeroMatrix(nodes)
      ensures forall x, y :: 0 <= x < nodes && 0 <= y < nodes ==> y !in Graph()[x]
    {
      numNodes := nodes;
      edgeCount := edgeNum;
      adjMatrix := new Word[nodes, TotalBlockNum(nodes)]((x, k) => 0);
      assert forall x | 0 <= x < nodes :: Rows(adjMatrix)[x] == ZeroMatrix(nodes)[x];
    }

    /** The edge line `a <u> <v>` with 1-based ids: `SET_EDGE(u - 1, v - 1, adjMatrix)`. */
    method ReadArc(u: int, v: int)
      requires Valid() && 1 <= u <= numNodes && 1 <= v <= numNodes
      modifies adjMatrix
      ensures Valid()
      ensures Rows(adjMatrix) == AddEdge(old(Rows(adjMatrix)), u - 1, v - 1)
      ensures Graph() == AddUndirected(old(Graph()), u - 1, v - 1)
    {
      var u0, v0 := u - 1, v - 1;
      ghost var rows := Rows(adjMatrix);
      AddEdgeKeepsMatrix(rows, numNodes, u0, v0);
      AddEdgeGraph(rows, numNodes, u0, v0);
      SetEdge(adjMatrix, u0, v0);
    }

    /** One pass of the DFS in `compute`, over the ranks `nodePos0` left by earlier passes.
        `stacks` is the stack at each check of the loop, as the loop body produces it (the one
        run of the matrix, by `RunUnique`). The vertices finalized are its pop order `order`:
        exactly those reachable from vertex 0, starting with 0, each once. A vertex keeps a
        rank it already had and otherwise gets its position in `order` plus one. */
    method Dfs(nodePos0: seq<int>) returns (nodePos: seq<int>, counter: int, ghost order: seq<int>,
                                            ghost stacks: seq<seq<int>>)
      requires Valid() && numNodes >= 1 && |nodePos0| == numNodes
      ensures DfsRun(Rows(adjMatrix), stacks) && order == PopOrder(stacks, numNodes)
      ensures RanksOver(nodePos0, nodePos, order) && counter == |order|
      ensures |order| >= 1 && order[0] == START
      ensures forall v :: 0 <= v < numNodes ==> (v in order <==> Reachable(Graph(), START, v))
      ensures |nodePos| == numNodes && 1 <= counter <= numNodes
      ensures nodePos0[START] == -1 ==> nodePos[START] == 1
      ensures forall v :: 0 <= v < numNodes && nodePos0[v] != -1 ==> nodePos[v] == nodePos0[v]
      ensures forall v :: 0 <= v < numNodes && !Reachable(Graph(), START, v) ==> nodePos[v] == nodePos0[v]
    {
      ghost var g := Graph();
      ghost var rows := Rows(adjMatrix);
      var visited: seq<Word> := seq(TotalBlockNum(numNodes), _ => 0);
      MarksStart(numNodes);
      nodePos := nodePos0;
      counter := 0;
      var s := [START];
      order, stacks := [], [[START]];
      ghost var flags := seq(numNodes, _ => false);
      assert stacks[..0] == [];
      DfsStart(g);
      assert |rows[START]| == adjMatrix.Length1;
      while |s| > 0
        invariant DfsInv(g, order, s)
        invariant Marks(visited, order, numNodes)
        invariant RanksOver(nodePos0, nodePos, order) && counter == |order|
        invariant Traced(rows, stacks, s, flags, order)
        decreases numNodes - |order|, |s|
      {
        var topElement := s[|s| - 1];
        ghost var before, flags0, order0, stacks0 := s, flags, order, stacks;
        FlagsAgree(rows, stacks, s, flags, order, visited, topElement);
        s := s[..|s| - 1];
        if CheckBit(visited, topElement) != 0 {
          SkipStep(g, numNodes, order, before, visited);
          assert s == NextStack(rows, flags0, before);
          TraceStep(rows, stacks0, before, flags0, order0);
          assert flags0[topElement := true] == flags0;
          stacks := stacks0 + [s];
          continue;
        }
        VisitStep(g, rows, numNodes, order, before, visited, nodePos0, nodePos, topElement);
        ghost var next := if nodePos[topElement] == -1 then nodePos[topElement := |order| + 1] else nodePos;
        visited := WithBit(visited, topElement);
        counter := counter + 1;
        if nodePos[topElement] == -1 {
          nodePos := nodePos[topElement := counter];
        }
        assert nodePos == next;
        s := PushRow(s, adjMatrix, topElement, visited, numNodes);
        order := order + [topElement];
        assert s == NextStack(rows, flags0, before);
        TraceStep(rows, stacks0, before, flags0, order0);
        stacks := stacks0 + [s];
        flags := flags0[topElement := true];
      }
      TraceDone(rows, stacks, flags, order);
      DfsDone(g, order);
      RanksOverSpec(nodePos0, nodePos, order);
      DistinctBound(order, numNodes);
    }
  }
}
