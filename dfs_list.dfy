/** `DFSCstm`: iterative depth-first search over adjacency lists, as run by `compute`. The
    graph is built exactly as in `BFSCstm`; one DFS pass starts from vertex 0, gives every
    vertex it finalizes the next rank (`nodePos`, from 1), pushes the neighbours that are not
    yet visited, and records the largest stack size seen (`maxsize`, carried across the
    passes of `compute`). */
module DfsList {
  import opened Graphs
  import opened AdjLists
  import opened DfsTheory
  import Words

  /** The neighbours in `ns` that are not visited, in the order of `ns`. */
  function Unvisited(ns: seq<int>, visited: seq<bool>): (r: seq<int>)
    requires forall i :: 0 <= i < |ns| ==> 0 <= ns[i] < |visited|
    ensures |r| <= |ns|
    ensures forall i :: 0 <= i < |r| ==> 0 <= r[i] < |visited|
    ensures forall y :: y in r <==> y in ns && !visited[y]
  {
    if |ns| == 0 then []
    else
      var rest := Unvisited(ns[..|ns| - 1], visited);
      var y := ns[|ns| - 1];
      assert forall z :: z in ns <==> z in ns[..|ns| - 1] || z == y;
      if visited[y] then rest else rest + [y]
  }

  /** The push loop `for (v ...) if (!visited[neighbor]) s.push(neighbor);`: the unvisited
      neighbours go on top of the stack in list order. */
  method PushUnvisited(stack: seq<int>, ns: seq<int>, visited: seq<bool>) returns (r: seq<int>)
    requires forall i :: 0 <= i < |ns| ==> 0 <= ns[i] < |visited|
    ensures r == stack + Unvisited(ns, visited)
  {
    r := stack;
    var k := 0;
    while k < |ns|
      invariant 0 <= k <= |ns|
      invariant r == stack + Unvisited(ns[..k], visited)
    {
      var neighbor := ns[k];
      assert ns[..k + 1][..k] == ns[..k];
      if !visited[neighbor] {
        r := r + [neighbor];
      }
      k := k + 1;
    }
    assert ns[..k] == ns;
  }

  /** The largest of m and the entries of xs. */
  function MaxOf(m: int, xs: seq<int>): (r: int)
    ensures r >= m && forall i :: 0 <= i < |xs| ==> r >= xs[i]
    ensures r == m || r in xs
  {
    if |xs| == 0 then m
    else
      var r0 := MaxOf(m, xs[..|xs| - 1]);
      var x := xs[|xs| - 1];
      assert forall i :: 0 <= i < |xs| - 1 ==> xs[i] == xs[..|xs| - 1][i];
      if x > r0 then x else r0
  }

  /** The visited flags mark exactly the vertices of `order`. */
  ghost predicate Marked(visited: seq<bool>, order: seq<int>)
  {
    forall v :: 0 <= v < |visited| ==> (visited[v] <==> v in order)
  }

  /** Popping a vertex whose flag is set (`continue`). */
  lemma SkipStep(g: Graph, order: seq<int>, before: seq<int>, visited: seq<bool>)
    requires DfsInv(g, order, before) && |visited| == |g| && Marked(visited, order) && |before| > 0
    requires 0 <= before[|before| - 1] < |visited| && visited[before[|before| - 1]]
    ensures DfsInv(g, order, before[..|before| - 1])
  {
    DfsSkip(g, order, before);
  }

  /** Popping a vertex u whose flag is clear: it is marked, ranked, and its unvisited
      neighbours are pushed. Every invariant of the loop holds again afterwards. */
  lemma VisitStep(g: Graph, adj: AdjList, order: seq<int>, before: seq<int>, visited: seq<bool>,
                  nodePos: seq<int>, u: int)
    requires InRange(adj) && g == ListGraph(adj)
    requires DfsInv(g, order, before) && |visited| == |g| && Marked(visited, order)
    requires |nodePos| == |g| && RanksOf(nodePos, order)
    requires |before| > 0 && u == before[|before| - 1] && !visited[u]
    ensures |order| < |g| && 0 <= u < |g| && nodePos[u] == -1
    ensures DfsInv(g, order + [u], before[..|before| - 1] + Unvisited(adj[u], visited[u := true]))
    ensures Marked(visited[u := true], order + [u])
    ensures RanksOf(nodePos[u := |order| + 1], order + [u])
  {
    VisitBound(g, order, before);
    RanksOfStep(nodePos, order, u);
    DfsVisit(g, order, before, Unvisited(adj[u], visited[u := true]));
  }

  /** One pass of the loop body on stack `st` under flags `vis`: the top u is popped, and when
      u was not visited its unvisited neighbours are pushed. */
  ghost function NextStack(adj: AdjList, vis: seq<bool>, st: seq<int>): seq<int>
    requires InRange(adj) && |vis| == |adj| && |st| > 0 && 0 <= st[|st| - 1] < |adj|
  {
    var u := st[|st| - 1];
    var popped := st[..|st| - 1];
    if vis[u] then popped else popped + Unvisited(adj[u], vis[u := true])
  }

  /** Loop check i of a run: the stack is not empty, its top is a vertex, and the stack at the
      next check is what the loop body makes of it. */
  ghost predicate RunStep(adj: AdjList, stacks: seq<seq<int>>, i: int)
  {
    InRange(adj) && 0 <= i < |stacks| - 1 && |stacks[i]| > 0 &&
    0 <= stacks[i][|stacks[i]| - 1] < |adj| &&
    stacks[i + 1] == NextStack(adj, PoppedFlags(stacks[..i], |adj|), stacks[i])
  }

  /** `stacks` lists the stack at every check of `while (!s.empty())` in one pass: it starts
      as [0], each check follows from the one before, and the loop stops at the first empty
      stack. */
  ghost predicate DfsRun(adj: AdjList, stacks: seq<seq<int>>)
  {
    |stacks| >= 1 && stacks[0] == [START] && stacks[|stacks| - 1] == [] &&
    forall i :: 0 <= i < |stacks| - 1 ==> RunStep(adj, stacks, i)
  }

  /** Two runs over the same lists agree on every check both reach. */
  lemma {:induction false} RunsAgree(adj: AdjList, a: seq<seq<int>>, b: seq<seq<int>>, k: nat)
    requires DfsRun(adj, a) && DfsRun(adj, b) && k < |a| && k < |b|
    ensures a[..k + 1] == b[..k + 1]
    decreases k
  {
    if k > 0 {
      RunsAgree(adj, a, b, k - 1);
      assert a[..k - 1] == a[..k][..k - 1] && b[..k - 1] == b[..k][..k - 1];
      assert a[k - 1] == a[..k][k - 1] && b[k - 1] == b[..k][k - 1];
      assert RunStep(adj, a, k - 1) && RunStep(adj, b, k - 1);
      assert a[..k + 1] == a[..k] + [a[k]] && b[..k + 1] == b[..k] + [b[k]];
    }
  }

  /** A pass has exactly one run: the stacks it goes through, and so their sizes, are
      determined by the lists. */
  lemma RunUnique(adj: AdjList, a: seq<seq<int>>, b: seq<seq<int>>)
    requires DfsRun(adj, a) && DfsRun(adj, b)
    ensures a == b
  {
    var k := if |a| < |b| then |a| - 1 else |b| - 1;
    RunsAgree(adj, a, b, k);
    assert a[k] == a[..k + 1][k] && b[k] == b[..k + 1][k];
    assert k < |a| - 1 ==> RunStep(adj, a, k);
    assert k < |b| - 1 ==> RunStep(adj, b, k);
    assert a == a[..k + 1] && b == b[..k + 1];
  }

  /** Appending a stack keeps the steps already taken. */
  lemma StepsKept(adj: AdjList, stacks: seq<seq<int>>, next: seq<int>)
    requires forall i :: 0 <= i < |stacks| - 1 ==> RunStep(adj, stacks, i)
    ensures forall i :: 0 <= i < |stacks| - 1 ==> RunStep(adj, stacks + [next], i)
  {
    var s2 := stacks + [next];
    forall i | 0 <= i < |stacks| - 1
      ensures RunStep(adj, s2, i)
    {
      assert RunStep(adj, stacks, i);
      assert s2[..i] == stacks[..i] && s2[i] == stacks[i] && s2[i + 1] == stacks[i + 1];
    }
  }

  /** The trace of a pass so far: `stacks` ends with the current stack `s`, its sizes are
      `sizes`, every step so far is the loop body's, `visited` marks the tops popped and
      `order` lists the vertices finalized. */
  ghost predicate Traced(adj: AdjList, stacks: seq<seq<int>>, sizes: seq<int>, s: seq<int>,
                         visited: seq<bool>, order: seq<int>)
  {
    |stacks| == |sizes| + 1 && stacks[0] == [START] && stacks[|stacks| - 1] == s &&
    (forall i :: 0 <= i < |stacks| - 1 ==> RunStep(adj, stacks, i)) &&
    (forall i :: 0 <= i < |sizes| ==> sizes[i] == |stacks[i]|) &&
    visited == PoppedFlags(stacks[..|stacks| - 1], |adj|) &&
    order == PopOrder(stacks[..|stacks| - 1], |adj|)
  }

  /** One pass of the loop body extends the trace by the stack it leaves. */
  lemma TraceStep(adj: AdjList, stacks: seq<seq<int>>, sizes: seq<int>, s: seq<int>,
                  visited: seq<bool>, order: seq<int>)
    requires InRange(adj) && Traced(adj, stacks, sizes, s, visited, order)
    requires |s| > 0 && 0 <= s[|s| - 1] < |adj|
    ensures |visited| == |adj|
    ensures Traced(adj, stacks + [NextStack(adj, visited, s)], sizes + [|s|], NextStack(adj, visited, s),
                   visited[s[|s| - 1] := true],
                   if visited[s[|s| - 1]] then order else order + [s[|s| - 1]])
  {
    var next := NextStack(adj, visited, s);
    var s2 := stacks + [next];
    StepsKept(adj, stacks, next);
    assert s2[..|stacks| - 1] == stacks[..|stacks| - 1];
    assert RunStep(adj, s2, |stacks| - 1);
    FlagsGrow(stacks, |adj|);
    assert s2[..|s2| - 1] == stacks;
    var sizes2 := sizes + [|s|];
    assert forall i :: 0 <= i < |sizes2| ==> sizes2[i] == |s2[i]|;
  }

  /** When the stack is empty the trace is a whole run, the vertices finalized are its pop
      order, and the running maximum bounds the stack at every check. */
  lemma TraceDone(adj: AdjList, stacks: seq<seq<int>>, sizes: seq<int>, visited: seq<bool>,
                  order: seq<int>, m: int)
    requires Traced(adj, stacks, sizes, [], visited, order)
    ensures DfsRun(adj, stacks) && |sizes| == |stacks| - 1 && order == PopOrder(stacks, |adj|)
    ensures forall i :: 0 <= i < |sizes| ==> sizes[i] == |stacks[i]|
    ensures forall i :: 0 <= i < |stacks| - 1 ==> |stacks[i]| <= MaxOf(m, sizes)
  {
  }

  /** The state of a pass at a check of the loop: the search invariant, the ranks, the
      flags, the running maximum and the trace. */
  ghost predicate PassState(adj: AdjList, m: int, s: seq<int>, visited: seq<bool>,
                            nodePos: seq<int>, counter: int, maxsize: int, order: seq<int>,
                            sizes: seq<int>, stacks: seq<seq<int>>)
  {
    InRange(adj) && DfsInv(ListGraph(adj), order, s) &&
    |nodePos| == |adj| && RanksOf(nodePos, order) &&
    |visited| == |adj| && Marked(visited, order) && counter == |order| &&
    maxsize == MaxOf(m, sizes) && Traced(adj, stacks, sizes, s, visited, order)
  }

  /** A check with a visited top: the pop and `continue`. */
  lemma PassSkip(adj: AdjList, m: int, s: seq<int>, visited: seq<bool>, nodePos: seq<int>,
                 counter: int, maxsize: int, order: seq<int>, sizes: seq<int>, stacks: seq<seq<int>>)
    requires PassState(adj, m, s, visited, nodePos, counter, maxsize, order, sizes, stacks)
    requires |s| > 0 && 0 <= s[|s| - 1] < |visited| && visited[s[|s| - 1]]
    ensures PassState(adj, m, s[..|s| - 1], visited, nodePos, counter,
                      if |s| > maxsize then |s| else maxsize, order, sizes + [|s|],
                      stacks + [s[..|s| - 1]])
  {
    var u := s[|s| - 1];
    SkipStep(ListGraph(adj), order, s, visited);
    TraceStep(adj, stacks, sizes, s, visited, order);
    assert visited[u := true] == visited;
    assert (sizes + [|s|])[..|sizes|] == sizes;
  }

  /** A check with an unvisited top u: the pop, the mark, the rank and the pushes. */
  lemma PassVisit(adj: AdjList, m: int, s: seq<int>, visited: seq<bool>, nodePos: seq<int>,
                  counter: int, maxsize: int, order: seq<int>, sizes: seq<int>, stacks: seq<seq<int>>)
    requires PassState(adj, m, s, visited, nodePos, counter, maxsize, order, sizes, stacks)
    requires |s| > 0 && 0 <= s[|s| - 1] < |visited| && !visited[s[|s| - 1]]
    ensures |order| < |adj| && nodePos[s[|s| - 1]] == -1
    ensures PassState(adj, m, s[..|s| - 1] + Unvisited(adj[s[|s| - 1]], visited[s[|s| - 1] := true]),
                      visited[s[|s| - 1] := true], nodePos[s[|s| - 1] := counter + 1], counter + 1,
                      if |s| > maxsize then |s| else maxsize, order + [s[|s| - 1]], sizes + [|s|],
                      stacks + [s[..|s| - 1] + Unvisited(adj[s[|s| - 1]], visited[s[|s| - 1] := true])])
  {
    var u := s[|s| - 1];
    VisitStep(ListGraph(adj), adj, order, s, visited, nodePos, u);
    TraceStep(adj, stacks, sizes, s, visited, order);
    assert (sizes + [|s|])[..|sizes|] == sizes;
  }

  /** The lists of the path 0 - 1 - 2. */
  const PATH: AdjList := [[1], [0, 2], [1]]

  /** The flags after each stack of the pass over PATH. */
  lemma PathFlags()
    ensures PoppedFlags([], 3) == [false, false, false]
    ensures PoppedFlags([[0]], 3) == [true, false, false]
    ensures PoppedFlags([[0], [1]], 3) == [true, true, false]
    ensures PoppedFlags([[0], [1], [2]], 3) == [true, true, true]
  {
    assert [[0]][..0] == [];
    assert [[0], [1]][..1] == [[0]];
    assert [[0], [1], [2]][..2] == [[0], [1]];
  }

  lemma PathInRange()
    ensures InRange(PATH)
  {
  }

  /** The first pass of the loop body over PATH pops 0 and pushes 1. */
  lemma PathStep0()
    ensures RunStep(PATH, [[0], [1], [2], []], 0)
  {
    PathInRange();
    var run := [[0], [1], [2], []];
    assert run[..0] == [] && PoppedFlags([], 3) == [false, false, false];
    assert [false, false, false][0 := true] == [true, false, false];
    assert NextStack(PATH, [false, false, false], [0]) == [1];
  }

  /** The neighbours of 1 not yet visited once 0 and 1 are: only 2. */
  lemma PathPush1()
    ensures Unvisited(PATH[1], [true, true, false]) == [2]
  {
    assert PATH[1] == [0, 2] && [0, 2][..1] == [0] && [0][..0] == [];
    assert Unvisited([0], [true, true, false]) == [];
  }

  /** The second pops 1 and pushes 2, as 0 is visited. */
  lemma PathStep1()
    ensures RunStep(PATH, [[0], [1], [2], []], 1)
  {
    PathInRange();
    var run := [[0], [1], [2], []];
    PathFlags();
    assert run[..1] == [[0]];
    assert [true, false, false][1 := true] == [true, true, false];
    PathPush1();
    assert NextStack(PATH, [true, false, false], [1]) == [2];
  }

  /** The third pops 2 and pushes nothing, as 1 is visited. */
  lemma PathStep2()
    ensures RunStep(PATH, [[0], [1], [2], []], 2)
  {
    PathInRange();
    var run := [[0], [1], [2], []];
    PathFlags();
    assert run[..2] == [[0], [1]];
    assert [true, true, false][2 := true] == [true, true, true];
    assert NextStack(PATH, [true, true, false], [2]) == [];
  }

  /** The stacks of the pass over PATH: [0], [1], [2], then empty. */
  lemma PathRun()
    ensures DfsRun(PATH, [[0], [1], [2], []])
  {
    var run := [[0], [1], [2], []];
    forall i | 0 <= i < |run| - 1
      ensures RunStep(PATH, run, i)
    {
      if i == 0 {
        PathStep0();
      } else if i == 1 {
        PathStep1();
      } else {
        PathStep2();
      }
    }
  }

  /** The pass over PATH pops 0, 1, 2 in turn. */
  lemma PathOrder()
    ensures PopOrder([[0], [1], [2], []], 3) == [0, 1, 2]
  {
    PathFlags();
    assert [[0]][..0] == [];
    assert [[0], [1]][..1] == [[0]];
    assert [[0], [1], [2]][..2] == [[0], [1]];
    assert [[0], [1], [2], []][..3] == [[0], [1], [2]];
    assert PopOrder([[0]], 3) == [0];
    assert PopOrder([[0], [1]], 3) == [0, 1];
    assert PopOrder([[0], [1], [2]], 3) == [0, 1, 2];
  }

  /** On the path 0 - 1 - 2 a pass goes through the stacks [0], [1], [2], [] and so ranks the
      vertices 1, 2, 3: no other order is possible. */
  lemma PathRanks(stacks: seq<seq<int>>, nodePos: seq<int>)
    requires DfsRun(PATH, stacks)
    requires |nodePos| == 3 && RanksOf(nodePos, PopOrder(stacks, 3))
    ensures stacks == [[0], [1], [2], []]
    ensures nodePos == [1, 2, 3]
  {
    PathRun();
    RunUnique(PATH, stacks, [[0], [1], [2], []]);
    PathOrder();
    var o := PopOrder(stacks, 3);
    assert o[0] == 0 && o[1] == 1 && o[2] == 2;
    assert nodePos[o[0]] == 1 && nodePos[o[1]] == 2 && nodePos[o[2]] == 3;
  }

  class DfsCstm {
    var adjList: AdjList
    var numNodes: int
    var edgeCount: int

    /** The lists match the vertex count and name only vertices. */
    ghost predicate Valid()
      reads this
    {
      0 <= numNodes <= Words.INT_MAX && |adjList| == numNodes && InRange(adjList) && Symmetric(adjList)
    }

    /** `DFSCstm()`: no vertices, no edges. */
    constructor ()
      ensures Valid() && numNodes == 0 && edgeCount == 0 && adjList == []
    {
      adjList := [];
      numNodes := 0;
      edgeCount := 0;
    }

    /** The header line: records the counts and resizes the lists. */
    method ReadHeader(nodes: int, edges: int)
      requires 0 <= nodes <= Words.INT_MAX
      requires Valid() && numNodes <= nodes
      modifies this
      ensures Valid()
      ensures numNodes == nodes && edgeCount == edges
      ensures adjList == Resize(old(adjList), nodes)
    {
      ResizeKeeps(adjList, nodes);
      numNodes := nodes;
      edgeCount := edges;
      adjList := Resize(adjList, nodes);
    }

    /** The edge line `a <u> <v>` with 1-based ids: each end is appended to the other's list. */
    method ReadArc(u: int, v: int)
      requires Valid() && 1 <= u <= numNodes && 1 <= v <= numNodes
      modifies this
      ensures Valid()
      ensures numNodes == old(numNodes) && edgeCount == old(edgeCount)
      ensures adjList == AddEdge(old(adjList), u - 1, v - 1)
      ensures ListGraph(adjList) == AddUndirected(ListGraph(old(adjList)), u - 1, v - 1)
    {
      var u0, v0 := u - 1, v - 1;
      AddEdgeInRange(adjList, u0, v0);
      AddEdgeSymmetric(adjList, u0, v0);
      AddEdgeGraph(adjList, u0, v0);
      adjList := AddEdge(adjList, u0, v0);
    }

    /** One pass of the DFS in `compute`, with `maxsize` carried in from the earlier passes.
        `stacks` is the stack at each check of the loop, as the loop body produces it (the one
        run of the lists, by `RunUnique`). The vertices finalized are its pop order `order`:
        exactly those reachable from vertex 0, starting with 0; `nodePos` gives `order[i]` the
        rank i + 1 and leaves the rest at -1. `maxsize` is the largest of the stack sizes
        (`sizes`) and the value carried in. */
    method Dfs(maxsize0: int) returns (nodePos: seq<int>, counter: int, maxsize: int,
                                       ghost order: seq<int>, ghost sizes: seq<int>,
                                       ghost stacks: seq<seq<int>>)
      requires Valid() && numNodes >= 1 && maxsize0 >= 0
      ensures |nodePos| == numNodes && RanksOf(nodePos, order) && counter == |order|
      ensures |order| >= 1 && order[0] == START && nodePos[START] == 1
      ensures forall v :: 0 <= v < numNodes ==> (v in order <==> Reachable(ListGraph(adjList), START, v))
      ensures DfsRun(adjList, stacks) && order == PopOrder(stacks, numNodes) && |sizes| == |stacks| - 1
      ensures forall i :: 0 <= i < |sizes| ==> sizes[i] == |stacks[i]|
      ensures maxsize == MaxOf(maxsize0, sizes)
      ensures forall i :: 0 <= i < |stacks| - 1 ==> |stacks[i]| <= maxsize
    {
      var adj := adjList;
      maxsize := maxsize0;
      nodePos := seq(numNodes, _ => -1);
      var visited := seq(numNodes, _ => false);
      counter := 0;
      var s := [START];
      order, sizes, stacks := [], [], [[START]];
      assert stacks[..0] == [];
      DfsStart(ListGraph(adj));
      while |s| > 0
        invariant PassState(adj, maxsize0, s, visited, nodePos, counter, maxsize, order, sizes, stacks)
        decreases numNodes - |order|, |s|
      {
        var u := s[|s| - 1];
        ghost var s0, sizes0, stacks0, maxsize1 := s, sizes, stacks, maxsize;
        sizes := sizes + [|s|];
        if |s| > maxsize {
          maxsize := |s|;
        }
        s := s[..|s| - 1];
        if visited[u] {
          PassSkip(adj, maxsize0, s0, visited, nodePos, counter, maxsize1, order, sizes0, stacks0);
          stacks := stacks0 + [s];
          continue;
        }
        PassVisit(adj, maxsize0, s0, visited, nodePos, counter, maxsize1, order, sizes0, stacks0);
        counter := counter + 1;
        visited := visited[u := true];
        if nodePos[u] == -1 {
          nodePos := nodePos[u := counter];
        }
        s := PushUnvisited(s, adj[u], visited);
        stacks := stacks0 + [s];
        order := order + [u];
      }
      DfsDone(ListGraph(adj), order);
      TraceDone(adj, stacks, sizes, visited, order, maxsize0);
    }
  }
}
