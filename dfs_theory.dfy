/** Why the iterative depth-first searches visit exactly the vertices reachable from vertex 0,
    and why their discovery ranks are a permutation of 1 .. counter.

    Both DFS implementations keep an explicit stack (the top is the last element here) and a
    visited set. `order` is the ghost sequence of visited vertices in the order they were
    finalized; a vertex's rank (`nodePos`) is its position in `order` plus one. */
module DfsTheory {
  import opened Graphs

  /** The vertex every search starts from (`s.push(0)`). */
  const START: int := 0

  /** Every neighbour of u, if u has been visited, is visited or still on the stack. */
  ghost predicate Covered(g: Graph, order: seq<int>, stack: seq<int>, u: int)
  {
    u in order && 0 <= u < |g| ==> forall y :: y in g[u] ==> y in order || y in stack
  }

  ghost predicate DfsInv(g: Graph, order: seq<int>, stack: seq<int>)
  {
    WellFormed(g) && |g| >= 1 && Distinct(order) &&
    (forall i :: 0 <= i < |order| ==> 0 <= order[i] < |g|) &&
    (forall i :: 0 <= i < |stack| ==> 0 <= stack[i] < |g|) &&
    (forall i {:trigger Reachable(g, START, order[i])} :: 0 <= i < |order| ==> Reachable(g, START, order[i])) &&
    (forall i {:trigger Reachable(g, START, stack[i])} :: 0 <= i < |stack| ==> Reachable(g, START, stack[i])) &&
    // the start vertex is the first one popped
    (|order| == 0 ==> stack == [START]) &&
    (|order| > 0 ==> order[0] == START) &&
    // every neighbour of a visited vertex is visited or still on the stack
    (forall u {:trigger Covered(g, order, stack, u)} :: Covered(g, order, stack, u))
  }

  /** The state after `s.push(0)`. */
  lemma DfsStart(g: Graph)
    requires WellFormed(g) && |g| >= 1
    ensures DfsInv(g, [], [START])
  {
    assert START in Within(g, START, 0);
  }

  /** Popping a vertex that has already been visited (`continue`) keeps the invariant. */
  lemma DfsSkip(g: Graph, order: seq<int>, stack: seq<int>)
    requires DfsInv(g, order, stack) && |stack| > 0 && stack[|stack| - 1] in order
    ensures DfsInv(g, order, stack[..|stack| - 1])
  {
    var rest := stack[..|stack| - 1];
    assert forall i :: 0 <= i < |rest| ==> rest[i] == stack[i];
    forall x
      ensures Covered(g, order, rest, x)
    {
      assert Covered(g, order, stack, x);
      assert forall y :: y in stack ==> y in rest || y == stack[|stack| - 1];
    }
  }

  /** The visited vertices are distinct vertices, so there are at most |g| of them. */
  lemma VisitBound(g: Graph, order: seq<int>, stack: seq<int>)
    requires DfsInv(g, order, stack) && |stack| > 0 && stack[|stack| - 1] !in order
    ensures |order| < |g|
  {
    var u := stack[|stack| - 1];
    var o := order + [u];
    assert forall i :: 0 <= i < |order| ==> o[i] == order[i];
    DistinctBound(o, |g|);
  }

  /** Popping an unvisited vertex u, visiting it, and pushing `pushed`: neighbours of u that
      together with the visited vertices cover all its neighbours. */
  lemma DfsVisit(g: Graph, order: seq<int>, stack: seq<int>, pushed: seq<int>)
    requires DfsInv(g, order, stack) && |stack| > 0 && stack[|stack| - 1] !in order
    requires forall i :: 0 <= i < |pushed| ==> pushed[i] in g[stack[|stack| - 1]]
    requires forall y :: y in g[stack[|stack| - 1]] ==> y in order + [stack[|stack| - 1]] || y in pushed
    ensures DfsInv(g, order + [stack[|stack| - 1]], stack[..|stack| - 1] + pushed)
  {
    var u := stack[|stack| - 1];
    var rest := stack[..|stack| - 1];
    var o, s := order + [u], rest + pushed;
    assert Reachable(g, START, stack[|stack| - 1]);
    assert forall i :: 0 <= i < |order| ==> o[i] == order[i];
    assert forall i :: 0 <= i < |rest| ==> s[i] == stack[i];
    assert forall i :: 0 <= i < |pushed| ==> s[|rest| + i] == pushed[i];
    forall i | 0 <= i < |o|
      ensures Reachable(g, START, o[i])
    {
      if i < |order| {
        assert Reachable(g, START, order[i]);
      }
    }
    forall i | 0 <= i < |s|
      ensures 0 <= s[i] < |g| && Reachable(g, START, s[i])
    {
      if i < |rest| {
        assert Reachable(g, START, stack[i]);
      } else {
        assert s[i] == pushed[i - |rest|];
        ReachableStep(g, START, u, s[i]);
      }
    }
    forall x
      ensures Covered(g, o, s, x)
    {
      if x != u {
        assert Covered(g, order, stack, x);
        assert forall z :: z in stack ==> z in rest || z == u;
      }
    }
  }

  /** When the stack is empty, the visited vertices are exactly those reachable from vertex 0,
      and vertex 0 was visited first. */
  lemma DfsDone(g: Graph, order: seq<int>)
    requires DfsInv(g, order, [])
    ensures |order| >= 1 && order[0] == START
    ensures forall v :: 0 <= v < |g| ==> (v in order <==> Reachable(g, START, v))
  {
    var S := set x | x in order;
    forall x | x in S
      ensures Covered(g, order, [], x)
    {
    }
    ClosedHoldsReachable(g, START, S);
    forall v | v in order
      ensures Reachable(g, START, v)
    {
      var i :| 0 <= i < |order| && order[i] == v;
      assert Reachable(g, START, order[i]);
    }
  }

  // ---------------------------------------------------------------------------------------
  // Ranks

  /** `nodePos` gives the vertex `order[i]` the rank i + 1 and every unvisited vertex -1. */
  ghost predicate RanksOf(nodePos: seq<int>, order: seq<int>)
  {
    Distinct(order) &&
    (forall i :: 0 <= i < |order| ==> 0 <= order[i] < |nodePos| && nodePos[order[i]] == i + 1) &&
    (forall v :: 0 <= v < |nodePos| && v !in order ==> nodePos[v] == -1)
  }

  /** The ranks of the visited vertices are pairwise distinct and are exactly 1 .. |order|. */
  lemma RanksArePermutation(nodePos: seq<int>, order: seq<int>)
    requires RanksOf(nodePos, order)
    ensures forall v :: 0 <= v < |nodePos| ==> (nodePos[v] != -1 <==> v in order)
    ensures forall v :: 0 <= v < |nodePos| && v in order ==> 1 <= nodePos[v] <= |order|
    ensures forall v, w :: 0 <= v < |nodePos| && 0 <= w < |nodePos| && nodePos[v] != -1 && nodePos[v] == nodePos[w] ==> v == w
    ensures forall r :: r in Range(|order|) ==> exists v :: 0 <= v < |nodePos| && nodePos[v] == r + 1
  {
    forall v | 0 <= v < |nodePos| && v in order
      ensures 1 <= nodePos[v] <= |order| && order[nodePos[v] - 1] == v
    {
      var i :| 0 <= i < |order| && order[i] == v;
    }
    forall r | r in Range(|order|)
      ensures exists v :: 0 <= v < |nodePos| && nodePos[v] == r + 1
    {
      assert nodePos[order[r]] == r + 1;
    }
  }

  /** Finalizing one more vertex u in a pass started from all -1 entries: u had no rank yet and
      gets rank |order| + 1. */
  lemma RanksOfStep(nodePos: seq<int>, order: seq<int>, u: int)
    requires RanksOf(nodePos, order) && 0 <= u < |nodePos| && u !in order
    ensures nodePos[u] == -1
    ensures RanksOf(nodePos[u := |order| + 1], order + [u])
  {
    var o := order + [u];
    assert forall i :: 0 <= i < |order| ==> o[i] == order[i];
  }

  /** A pass that starts from the ranks `nodePos0` of earlier passes: `order[i]` keeps the rank it
      already had and otherwise gets i + 1; every other vertex keeps its old entry. */
  ghost predicate RanksOver(nodePos0: seq<int>, nodePos: seq<int>, order: seq<int>)
  {
    |nodePos| == |nodePos0| && Distinct(order) &&
    (forall i :: 0 <= i < |order| ==>
       0 <= order[i] < |nodePos| && nodePos[order[i]] == if nodePos0[order[i]] == -1 then i + 1 else nodePos0[order[i]]) &&
    (forall v :: 0 <= v < |nodePos| && v !in order ==> nodePos[v] == nodePos0[v])
  }

  /** Ranks already assigned are never changed; a first pass over all -1 entries assigns the
      ranks 1 .. |order| as `RanksOf` describes. */
  lemma RanksOverSpec(nodePos0: seq<int>, nodePos: seq<int>, order: seq<int>)
    requires RanksOver(nodePos0, nodePos, order)
    ensures forall v :: 0 <= v < |nodePos0| && nodePos0[v] != -1 ==> nodePos[v] == nodePos0[v]
    ensures (forall v :: 0 <= v < |nodePos0| ==> nodePos0[v] == -1) ==> RanksOf(nodePos, order)
  {
    forall v | 0 <= v < |nodePos0| && nodePos0[v] != -1
      ensures nodePos[v] == nodePos0[v]
    {
      if v in order {
        var i :| 0 <= i < |order| && order[i] == v;
      }
    }
  }

  /** Finalizing one more vertex u: it keeps the rank it had, or gets rank |order| + 1. */
  lemma RanksOverStep(nodePos0: seq<int>, nodePos: seq<int>, order: seq<int>, u: int)
    requires RanksOver(nodePos0, nodePos, order) && 0 <= u < |nodePos| && u !in order
    ensures RanksOver(nodePos0, if nodePos[u] == -1 then nodePos[u := |order| + 1] else nodePos, order + [u])
  {
    var o := order + [u];
    assert forall i :: 0 <= i < |order| ==> o[i] == order[i];
  }

  // ---------------------------------------------------------------------------------------
  // Runs

  /* A run of a pass is the sequence of stacks at the checks of `while (!s.empty())`; the
     top of each stack is the vertex popped by the next pass of the loop body. */

  /** The visited flags after the tops of `stacks` have been popped in turn, from all clear. */
  ghost function PoppedFlags(stacks: seq<seq<int>>, n: nat): (r: seq<bool>)
    ensures |r| == n
    decreases |stacks|
  {
    if |stacks| == 0 then seq(n, _ => false)
    else
      var prev := PoppedFlags(stacks[..|stacks| - 1], n);
      var st := stacks[|stacks| - 1];
      if |st| > 0 && 0 <= st[|st| - 1] < n then prev[st[|st| - 1] := true] else prev
  }

  /** The vertices a pass finalizes, in order, when its stack goes through `stacks`: the top of
      each stack, unless the top of an earlier one was the same vertex. */
  ghost function PopOrder(stacks: seq<seq<int>>, n: nat): (r: seq<int>)
    ensures forall i :: 0 <= i < |r| ==> 0 <= r[i] < n
    decreases |stacks|
  {
    if |stacks| == 0 then []
    else
      var prev := PopOrder(stacks[..|stacks| - 1], n);
      var st := stacks[|stacks| - 1];
      if |st| > 0 && 0 <= st[|st| - 1] < n && !PoppedFlags(stacks[..|stacks| - 1], n)[st[|st| - 1]]
      then prev + [st[|st| - 1]]
      else prev
  }

  /** Popping one more top marks it in the flags. */
  lemma FlagsGrow(stacks: seq<seq<int>>, n: nat)
    requires |stacks| >= 1 && |stacks[|stacks| - 1]| > 0
    requires 0 <= stacks[|stacks| - 1][|stacks[|stacks| - 1]| - 1] < n
    ensures PoppedFlags(stacks, n) ==
      PoppedFlags(stacks[..|stacks| - 1], n)[stacks[|stacks| - 1][|stacks[|stacks| - 1]| - 1] := true]
  {
  }

  /** The flags set are exactly the vertices finalized, and no vertex is finalized twice. */
  lemma {:induction false} PopOrderFlags(stacks: seq<seq<int>>, n: nat)
    ensures Distinct(PopOrder(stacks, n))
    ensures forall v :: 0 <= v < n ==> (PoppedFlags(stacks, n)[v] <==> v in PopOrder(stacks, n))
    decreases |stacks|
  {
    if |stacks| > 0 {
      var init := stacks[..|stacks| - 1];
      PopOrderFlags(init, n);
      var prev := PopOrder(init, n);
      var st := stacks[|stacks| - 1];
      if |st| > 0 && 0 <= st[|st| - 1] < n {
        var u := st[|st| - 1];
        var o := prev + [u];
        assert forall i :: 0 <= i < |prev| ==> o[i] == prev[i];
        assert forall v :: v in o <==> v in prev || v == u;
      }
    }
  }
}
