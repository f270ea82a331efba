/** Why breadth-first search computes shortest distances.

    Both BFS implementations keep the same state: `dist` (-1 for an undiscovered vertex) and a
    FIFO queue. Here the queue is the sequence `q` of every vertex ever pushed, in push order,
    with `q[head..]` still waiting; the vertices `q[..head]` have been expanded. The lemmas
    below carry the invariant `BfsInv` through the start, the discovery of one neighbour, the
    end of one expansion, and the end of the search. */
module BfsTheory {
  import opened Graphs

  /** v has been given its shortest distance from s. */
  ghost predicate HasShortest(g: Graph, s: int, dist: seq<int>, v: int)
  {
    0 <= v < |dist| && dist[v] >= 0 && ShortestDist(g, s, v, dist[v])
  }

  /** The part of the invariant that does not depend on how far the search has got. */
  ghost predicate QueueOk(g: Graph, s: int, dist: seq<int>, q: seq<int>)
  {
    WellFormed(g) && 0 <= s < |g| && |dist| == |g| &&
    |q| >= 1 && q[0] == s && Distinct(q) &&
    (forall i :: 0 <= i < |q| ==> 0 <= q[i] < |g| && dist[q[i]] >= 0) &&
    // a vertex has a distance exactly when it has been pushed
    (forall v :: 0 <= v < |g| ==> (dist[v] != -1 <==> v in q)) &&
    // every pushed vertex has its shortest distance
    (forall i {:trigger HasShortest(g, s, dist, q[i])} :: 0 <= i < |q| ==> HasShortest(g, s, dist, q[i])) &&
    // the queue is ordered by distance
    (forall i, j :: 0 <= i <= j < |q| ==> dist[q[i]] <= dist[q[j]])
  }

  ghost predicate BfsInv(g: Graph, s: int, dist: seq<int>, q: seq<int>, head: int)
  {
    QueueOk(g, s, dist, q) && 0 <= head <= |q| &&
    // the waiting vertices span at most two consecutive distances
    (head < |q| ==> forall j :: head <= j < |q| ==> dist[q[j]] <= dist[q[head]] + 1) &&
    // every neighbour of an expanded vertex has been pushed
    (forall i, y :: 0 <= i < head && y in g[q[i]] ==> y in q)
  }

  /** The state at the start: only s is discovered, at distance 0. */
  lemma BfsStart(g: Graph, s: int)
    requires WellFormed(g) && 0 <= s < |g|
    ensures BfsInv(g, s, seq(|g|, _ => -1)[s := 0], [s], 0)
  {
  }

  /** A vertex within distance k has shortest distance at most k. */
  lemma DistAtMost(g: Graph, s: int, x: int, d: nat, k: nat)
    requires ShortestDist(g, s, x, d) && x in Within(g, s, k)
    ensures d <= k
  {
    if d > k {
      WithinMonotone(g, s, k, d - 1);
    }
  }

  /** While q[h] is being expanded, every vertex within its distance has been pushed. */
  lemma {:induction false} WithinPushed(g: Graph, s: int, dist: seq<int>, q: seq<int>, h: int, k: nat)
    requires BfsInv(g, s, dist, q, h) && h < |q|
    requires k <= dist[q[h]]
    ensures forall v :: v in Within(g, s, k) ==> v in q
  {
    if k > 0 {
      WithinPushed(g, s, dist, q, h, k - 1);
      forall v | v in Within(g, s, k)
        ensures v in q
      {
        if v !in Within(g, s, k - 1) {
          var x, y :| x in Within(g, s, k - 1) && 0 <= x < |g| && y in g[x] && y == v;
          var i :| 0 <= i < |q| && q[i] == x;
          assert HasShortest(g, s, dist, q[i]);
          DistAtMost(g, s, x, dist[x], k - 1);
        }
      }
    }
  }

  /** Looking at a neighbour y of q[h]: if y is undiscovered it gets distance dist[q[h]] + 1
      and is pushed, and the invariant still holds. */
  lemma BfsDiscover(g: Graph, s: int, dist: seq<int>, q: seq<int>, h: int, y: int)
    requires BfsInv(g, s, dist, q, h) && h < |q|
    requires y in g[q[h]] && dist[y] == -1
    ensures ShortestDist(g, s, y, dist[q[h]] + 1)
    ensures BfsInv(g, s, dist[y := dist[q[h]] + 1], q + [y], h)
  {
    var d := dist[q[h]];
    NextLayer(g, s, dist, q, h, y);
    BelowNextLayer(g, s, dist, q, h);
    PushKeepsQueueOk(g, s, dist, q, y, d + 1);
    PushKeepsProgress(g, s, dist, q, h, y, d + 1);
  }

  lemma PushKeepsProgress(g: Graph, s: int, dist: seq<int>, q: seq<int>, h: int, y: int, d: int)
    requires |dist| == |g| && 0 <= y < |g| && forall i :: 0 <= i < |q| ==> 0 <= q[i] < |g|
    requires QueueOk(g, s, dist[y := d], q + [y])
    requires 0 <= h < |q| && y !in q && d == dist[q[h]] + 1
    requires forall j :: h <= j < |q| ==> dist[q[j]] <= dist[q[h]] + 1
    requires forall i, z :: 0 <= i < h && z in g[q[i]] ==> z in q
    ensures BfsInv(g, s, dist[y := d], q + [y], h)
  {
    var dist', q' := dist[y := d], q + [y];
    assert forall i :: 0 <= i < |q| ==> q'[i] == q[i] && dist'[q[i]] == dist[q[i]];
  }

  /** An undiscovered neighbour of q[h] is one layer further out than q[h]. */
  lemma NextLayer(g: Graph, s: int, dist: seq<int>, q: seq<int>, h: int, y: int)
    requires BfsInv(g, s, dist, q, h) && h < |q|
    requires y in g[q[h]] && dist[y] == -1
    ensures ShortestDist(g, s, y, dist[q[h]] + 1)
  {
    assert HasShortest(g, s, dist, q[h]);
    WithinPushed(g, s, dist, q, h, dist[q[h]]);
    WithinStep(g, s, dist[q[h]], q[h], y);
  }

  /** No pushed vertex is further out than one layer past q[h]. */
  lemma BelowNextLayer(g: Graph, s: int, dist: seq<int>, q: seq<int>, h: int)
    requires BfsInv(g, s, dist, q, h) && h < |q|
    ensures forall i :: 0 <= i < |q| ==> dist[q[i]] <= dist[q[h]] + 1
  {
    forall i | 0 <= i < |q|
      ensures dist[q[i]] <= dist[q[h]] + 1
    {
      if i < h {
        assert dist[q[i]] <= dist[q[h]];
      }
    }
  }

  /** Pushing an undiscovered vertex with its shortest distance, no smaller than any pushed
      before, keeps `QueueOk`. */
  lemma PushKeepsQueueOk(g: Graph, s: int, dist: seq<int>, q: seq<int>, y: int, d: nat)
    requires QueueOk(g, s, dist, q)
    requires 0 <= y < |g| && dist[y] == -1 && ShortestDist(g, s, y, d)
    requires forall i :: 0 <= i < |q| ==> dist[q[i]] <= d
    ensures QueueOk(g, s, dist[y := d], q + [y])
  {
    var dist', q' := dist[y := d], q + [y];
    assert forall i :: 0 <= i < |q| ==> q'[i] == q[i] && q[i] != y && dist'[q[i]] == dist[q[i]];
    forall i | 0 <= i < |q'|
      ensures HasShortest(g, s, dist', q'[i])
    {
      if i < |q| {
        assert HasShortest(g, s, dist, q[i]);
      }
    }
  }

  /** While q[h] is being expanded: the neighbours examined so far (`seen`) have all been
      pushed. */
  ghost predicate Scanning(g: Graph, s: int, dist: seq<int>, q: seq<int>, h: int, seen: set<int>)
  {
    BfsInv(g, s, dist, q, h) && h < |q| && forall y :: y in seen ==> y in q
  }

  /** Examining one more neighbour y of q[h]: the source's `if (dist[y] == -1)` branch
      assigns dist[q[h]] + 1 and pushes y; otherwise nothing changes. */
  lemma ScanVisit(g: Graph, s: int, dist: seq<int>, q: seq<int>, h: int, seen: set<int>, y: int)
    requires Scanning(g, s, dist, q, h, seen) && y in g[q[h]]
    ensures 0 <= y < |dist|
    ensures dist[y] == -1 ==> Scanning(g, s, dist[y := dist[q[h]] + 1], q + [y], h, seen + {y})
    ensures dist[y] != -1 ==> Scanning(g, s, dist, q, h, seen + {y})
  {
    if dist[y] == -1 {
      BfsDiscover(g, s, dist, q, h, y);
    }
  }

  /** When every neighbour of q[h] has been examined, q[h] counts as expanded. */
  lemma ScanFinish(g: Graph, s: int, dist: seq<int>, q: seq<int>, h: int, seen: set<int>)
    requires Scanning(g, s, dist, q, h, seen) && g[q[h]] <= seen
    ensures BfsInv(g, s, dist, q, h + 1)
  {
    if h + 1 < |q| {
      assert dist[q[h]] <= dist[q[h + 1]];
    }
  }

  /** The queue holds distinct vertices, so it never grows past the number of vertices. */
  lemma QueueBound(g: Graph, s: int, dist: seq<int>, q: seq<int>)
    requires QueueOk(g, s, dist, q)
    ensures |q| <= |g|
  {
    DistinctBound(q, |g|);
  }

  /** When the queue is empty, `dist` holds exactly the shortest distances: -1 for the
      unreachable vertices, and every other vertex has a neighbour-predecessor one closer. */
  lemma BfsDone(g: Graph, s: int, dist: seq<int>, q: seq<int>)
    requires BfsInv(g, s, dist, q, |q|)
    ensures dist[s] == 0
    ensures forall v :: 0 <= v < |g| ==> (dist[v] == -1 <==> !Reachable(g, s, v))
    ensures forall v :: 0 <= v < |g| && dist[v] != -1 ==> dist[v] >= 0 && ShortestDist(g, s, v, dist[v])
    ensures forall v :: 0 <= v < |g| && dist[v] > 0 ==>
      exists x :: 0 <= x < |g| && v in g[x] && dist[x] == dist[v] - 1
  {
    DoneStart(g, s, dist, q);
    DoneShortest(g, s, dist, q);
    DoneReachable(g, s, dist, q);
    forall v | 0 <= v < |g| && dist[v] > 0
      ensures exists x :: 0 <= x < |g| && v in g[x] && dist[x] == dist[v] - 1
    {
      DonePredecessor(g, s, dist, q, v);
    }
  }

  lemma DoneStart(g: Graph, s: int, dist: seq<int>, q: seq<int>)
    requires QueueOk(g, s, dist, q)
    ensures dist[s] == 0
  {
    assert HasShortest(g, s, dist, q[0]);
    if dist[s] > 0 {
      WithinMonotone(g, s, 0, dist[s] - 1);
    }
  }

  lemma DoneShortest(g: Graph, s: int, dist: seq<int>, q: seq<int>)
    requires QueueOk(g, s, dist, q)
    ensures forall v :: 0 <= v < |g| && dist[v] != -1 ==> dist[v] >= 0 && ShortestDist(g, s, v, dist[v]) && Reachable(g, s, v)
  {
    forall v | 0 <= v < |g| && dist[v] != -1
      ensures dist[v] >= 0 && ShortestDist(g, s, v, dist[v]) && Reachable(g, s, v)
    {
      var i :| 0 <= i < |q| && q[i] == v;
      assert HasShortest(g, s, dist, q[i]);
    }
  }

  lemma DoneReachable(g: Graph, s: int, dist: seq<int>, q: seq<int>)
    requires BfsInv(g, s, dist, q, |q|)
    ensures forall v :: 0 <= v < |g| && Reachable(g, s, v) ==> dist[v] != -1
  {
    var S := set x | x in q;
    ClosedHoldsReachable(g, s, S);
  }

  lemma DonePredecessor(g: Graph, s: int, dist: seq<int>, q: seq<int>, v: int)
    requires BfsInv(g, s, dist, q, |q|) && 0 <= v < |g| && dist[v] > 0
    ensures exists x :: 0 <= x < |g| && v in g[x] && dist[x] == dist[v] - 1
  {
    var i :| 0 <= i < |q| && q[i] == v;
    assert HasShortest(g, s, dist, q[i]);
    ShortestPredecessor(g, s, v, dist[v]);
    var x :| 0 <= x < |g| && v in g[x] && ShortestDist(g, s, x, dist[v] - 1);
    DoneReachable(g, s, dist, q);
    assert Reachable(g, s, x);
    var j :| 0 <= j < |q| && q[j] == x;
    assert HasShortest(g, s, dist, q[j]);
    ShortestUnique(g, s, x, dist[x], dist[v] - 1);
  }
}
