/** Walks in a commit graph and breadth-first search with its optimality. */
module Walks {
  import opened Bytes

  /** The neighbours of every stored commit: its parents, in order. */
  type Graph = map<Hash, seq<Hash>>

  function Next(g: Graph, x: Hash): seq<Hash> {
    if x in g then g[x] else []
  }

  /** `y` is reached from `x` in exactly `n` hops. */
  ghost predicate Walk(g: Graph, x: Hash, n: nat, y: Hash)
    decreases n
  {
    if n == 0 then x == y else exists z :: Walk(g, x, n - 1, z) && y in Next(g, z)
  }

  ghost predicate Reach(g: Graph, x: Hash, y: Hash) {
    exists n :: Walk(g, x, n, y)
  }

  lemma WalkStep(g: Graph, x: Hash, n: nat, z: Hash, y: Hash)
    requires Walk(g, x, n, z) && y in Next(g, z)
    ensures Walk(g, x, n + 1, y) && Reach(g, x, y)
  {}

  lemma WalkBefore(g: Graph, x: Hash, n: nat, y: Hash) returns (z: Hash)
    requires Walk(g, x, n + 1, y)
    ensures Walk(g, x, n, z) && y in Next(g, z)
  {
    z :| Walk(g, x, n, z) && y in Next(g, z);
  }

  lemma ReachSelf(g: Graph, x: Hash)
    ensures Reach(g, x, x)
  {
    assert Walk(g, x, 0, x);
  }

  lemma {:induction false} WalkAppend(g: Graph, x: Hash, m: nat, y: Hash, n: nat, z: Hash)
    requires Walk(g, x, m, y) && Walk(g, y, n, z)
    ensures Walk(g, x, m + n, z)
    decreases n
  {
    if n > 0 {
      var w := WalkBefore(g, y, n - 1, z);
      WalkAppend(g, x, m, y, n - 1, w);
      WalkStep(g, x, m + n - 1, w, z);
    }
  }

  lemma {:induction false} WalkFirst(g: Graph, x: Hash, n: nat, y: Hash)
    requires Walk(g, x, n + 1, y)
    ensures exists p :: p in Next(g, x) && Walk(g, p, n, y)
    decreases n
  {
    var z :| Walk(g, x, n, z) && y in Next(g, z);
    if n == 0 {
      assert x == z && Walk(g, y, 0, y);
    } else {
      WalkFirst(g, x, n - 1, z);
      var p :| p in Next(g, x) && Walk(g, p, n - 1, z);
      WalkStep(g, p, n - 1, z, y);
    }
  }

  lemma ReachTransitive(g: Graph, x: Hash, y: Hash, z: Hash)
    requires Reach(g, x, y) && Reach(g, y, z)
    ensures Reach(g, x, z)
  {
    var m :| Walk(g, x, m, y);
    var n :| Walk(g, y, n, z);
    WalkAppend(g, x, m, y, n, z);
  }

  /** A set that holds the start and the neighbours of its members holds everything reachable. */
  lemma {:induction false} ClosedHolds(g: Graph, s: set<Hash>, x: Hash, n: nat, y: Hash)
    requires x in s && Walk(g, x, n, y) && Closing(g, s, [])
    ensures y in s
    decreases n
  {
    if n > 0 {
      var z :| Walk(g, x, n - 1, z) && y in Next(g, z);
      ClosedHolds(g, s, x, n - 1, z);
    }
  }

  /** Every neighbour of a seen commit is seen or waiting. */
  ghost predicate Closing(g: Graph, seen: set<Hash>, queue: seq<Hash>) {
    forall x, y :: x in seen && y in Next(g, x) ==> y in seen || y in queue
  }

  lemma CloseOne(g: Graph, seen: set<Hash>, queue: seq<Hash>)
    requires queue != [] && Closing(g, seen, queue)
    ensures queue[0] in seen ==> Closing(g, seen, queue[1..])
    ensures Closing(g, seen + {queue[0]}, queue[1..] + Next(g, queue[0]))
  {
    assert queue == [queue[0]] + queue[1..];
  }

  lemma ReachNeighbours(g: Graph, x: Hash, z: Hash)
    requires Reach(g, x, z)
    ensures forall y :: y in Next(g, z) ==> Reach(g, x, y)
  {
    forall y | y in Next(g, z)
      ensures Reach(g, x, y)
    {
      var n :| Walk(g, x, n, z);
      WalkStep(g, x, n, z, y);
    }
  }

  lemma ClosedReach(g: Graph, s: set<Hash>, x: Hash)
    requires x in s && Closing(g, s, [])
    ensures forall y :: Reach(g, x, y) ==> y in s
  {
    forall y | Reach(g, x, y)
      ensures y in s
    {
      var n :| Walk(g, x, n, y);
      ClosedHolds(g, s, x, n, y);
    }
  }

  /** Every hash the graph mentions. */
  ghost function Nodes(g: Graph, start: Hash): set<Hash> {
    {start} + g.Keys + set x, i | x in g && 0 <= i < |g[x]| :: g[x][i]
  }

  // Breadth-first search: `order` lists every hash ever queued, with its depth; those before `head` are done.

  ghost predicate Covered(order: seq<Hash>, depth: seq<nat>, y: Hash, most: nat)
    requires |order| == |depth|
  {
    exists j :: 0 <= j < |order| && order[j] == y && depth[j] <= most
  }

  ghost predicate Search(g: Graph, start: Hash, order: seq<Hash>, depth: seq<nat>, head: nat) {
    && |order| == |depth| && 0 < |order| && head <= |order|
    && order[0] == start && depth[0] == 0
    && InOrder(order, depth)
    && (head < |order| ==> forall i :: 0 <= i < |order| ==> depth[i] <= depth[head] + 1)
    && Sound(g, start, order, depth)
    && Closed(g, order, depth, head)
  }

  /** Nothing is listed twice, and depths never decrease. */
  ghost predicate InOrder(order: seq<Hash>, depth: seq<nat>)
    requires |order| == |depth|
  {
    && (forall i, j :: 0 <= i < j < |order| ==> order[i] != order[j])
    && (forall i, j :: 0 <= i < j < |depth| ==> depth[i] <= depth[j])
  }

  ghost predicate Sound(g: Graph, start: Hash, order: seq<Hash>, depth: seq<nat>)
    requires |order| == |depth|
  {
    forall i {:trigger Walk(g, start, depth[i], order[i])} :: 0 <= i < |order| ==> Walk(g, start, depth[i], order[i])
  }

  /** The neighbours of what is done are listed at most one hop deeper. */
  ghost predicate Closed(g: Graph, order: seq<Hash>, depth: seq<nat>, head: nat)
    requires |order| == |depth| && head <= |order|
  {
    forall i, y :: 0 <= i < head && y in Next(g, order[i]) ==> Covered(order, depth, y, depth[i] + 1)
  }

  /** A walk ends at a hash already listed no deeper than its length, or is longer than the next depth. */
  lemma {:induction false} SearchComplete(
    g: Graph, start: Hash, order: seq<Hash>, depth: seq<nat>, head: nat, n: nat, y: Hash)
    requires Search(g, start, order, depth, head) && Walk(g, start, n, y)
    ensures Covered(order, depth, y, n) || (head < |order| && depth[head] < n)
    decreases n
  {
    if n > 0 {
      var z :| Walk(g, start, n - 1, z) && y in Next(g, z);
      SearchComplete(g, start, order, depth, head, n - 1, z);
      if Covered(order, depth, z, n - 1) {
        var i :| 0 <= i < |order| && order[i] == z && depth[i] <= n - 1;
        if i < head {
          assert Covered(order, depth, y, depth[i] + 1);
        }
      }
    }
  }

  lemma SearchFinished(g: Graph, start: Hash, order: seq<Hash>, depth: seq<nat>, y: Hash)
    requires Search(g, start, order, depth, |order|)
    ensures y in order <==> Reach(g, start, y)
  {
    if n :| Walk(g, start, n, y) {
      SearchComplete(g, start, order, depth, |order|, n, y);
    }
    if y in order {
      var i :| 0 <= i < |order| && order[i] == y;
      assert Walk(g, start, depth[i], y);
    }
  }

  /** Within the neighbours of the hash at `head`: those before `k` have been queued. */
  ghost predicate Expanding(g: Graph, start: Hash, order: seq<Hash>, depth: seq<nat>, head: nat, k: nat) {
    && Search(g, start, order, depth, head) && head < |order|
    && k <= |Next(g, order[head])|
    && forall j :: 0 <= j < k ==> Covered(order, depth, Next(g, order[head])[j], depth[head] + 1)
  }

  lemma CoveredGrows(order: seq<Hash>, depth: seq<nat>, y: Hash, d: nat, z: Hash, most: nat)
    requires |order| == |depth|
    ensures Covered(order, depth, z, most) ==> Covered(order + [y], depth + [d], z, most)
    ensures Covered(order + [y], depth + [d], y, d)
  {
    var order', depth' := order + [y], depth + [d];
    assert order'[|order|] == y && depth'[|order|] == d;
    if j :| 0 <= j < |order| && order[j] == z && depth[j] <= most {
      assert order'[j] == z && depth'[j] <= most;
    }
  }

  lemma Enqueue(g: Graph, start: Hash, order: seq<Hash>, depth: seq<nat>, head: nat, y: Hash)
    requires Search(g, start, order, depth, head) && head < |order| && y in Next(g, order[head]) && y !in order
    ensures Search(g, start, order + [y], depth + [depth[head] + 1], head)
  {
    var d := depth[head] + 1;
    assert Walk(g, start, d, y) by {
      WalkStep(g, start, depth[head], order[head], y);
    }
    SoundGrows(g, start, order, depth, y, d);
    ClosedGrows(g, order, depth, head, y, d);
    InOrderGrows(order, depth, y, d);
  }

  lemma InOrderGrows(order: seq<Hash>, depth: seq<nat>, y: Hash, d: nat)
    requires |order| == |depth| && InOrder(order, depth) && y !in order
    requires forall i :: 0 <= i < |depth| ==> depth[i] <= d
    ensures InOrder(order + [y], depth + [d])
  {}

  lemma SoundGrows(g: Graph, start: Hash, order: seq<Hash>, depth: seq<nat>, y: Hash, d: nat)
    requires |order| == |depth| && Sound(g, start, order, depth) && Walk(g, start, d, y)
    ensures Sound(g, start, order + [y], depth + [d])
  {
    var order', depth' := order + [y], depth + [d];
    forall i | 0 <= i < |order'|
      ensures Walk(g, start, depth'[i], order'[i])
    {
      if i < |order| {
        assert Walk(g, start, depth[i], order[i]);
      }
    }
  }

  lemma ClosedGrows(g: Graph, order: seq<Hash>, depth: seq<nat>, head: nat, y: Hash, d: nat)
    requires |order| == |depth| && head <= |order| && Closed(g, order, depth, head)
    ensures Closed(g, order + [y], depth + [d], head)
  {
    var order', depth' := order + [y], depth + [d];
    forall i, z | 0 <= i < head && z in Next(g, order'[i])
      ensures Covered(order', depth', z, depth'[i] + 1)
    {
      assert z in Next(g, order[i]);
      CoveredGrows(order, depth, y, d, z, depth[i] + 1);
    }
  }

  /** Passing over a neighbour that is listed. */
  lemma ExpandOld(g: Graph, start: Hash, order: seq<Hash>, depth: seq<nat>, head: nat, k: nat, y: Hash)
    requires Expanding(g, start, order, depth, head, k) && k < |Next(g, order[head])|
    requires y == Next(g, order[head])[k] && y in order
    ensures Expanding(g, start, order, depth, head, k + 1)
  {
    var i :| 0 <= i < |order| && order[i] == y;
    assert Covered(order, depth, y, depth[head] + 1);
  }

  /** Queueing a new neighbour. */
  lemma ExpandNew(g: Graph, start: Hash, order: seq<Hash>, depth: seq<nat>, head: nat, k: nat, y: Hash, d: nat)
    requires Expanding(g, start, order, depth, head, k) && k < |Next(g, order[head])|
    requires y == Next(g, order[head])[k] && y !in order && d == depth[head] + 1
    ensures Expanding(g, start, order + [y], depth + [d], head, k + 1)
  {
    var next := Next(g, order[head]);
    Enqueue(g, start, order, depth, head, y);
    forall j | 0 <= j < k + 1
      ensures Covered(order + [y], depth + [d], next[j], d)
    {
      CoveredGrows(order, depth, y, d, next[j], d);
    }
  }

  lemma ExpandDone(g: Graph, start: Hash, order: seq<Hash>, depth: seq<nat>, head: nat)
    requires head < |order| && Expanding(g, start, order, depth, head, |Next(g, order[head])|)
    ensures Search(g, start, order, depth, head + 1)
  {
    forall i, y | 0 <= i < head + 1 && y in Next(g, order[i])
      ensures Covered(order, depth, y, depth[i] + 1)
    {
      if i == head {
        var j :| 0 <= j < |Next(g, order[head])| && Next(g, order[head])[j] == y;
      }
    }
  }

  lemma {:induction false} WalkStays(g: Graph, start: Hash, n: nat, y: Hash)
    requires Walk(g, start, n, y)
    ensures y in Nodes(g, start)
    decreases n
  {
    if n > 0 {
      var z :| Walk(g, start, n - 1, z) && y in Next(g, z);
      var i :| 0 <= i < |g[z]| && g[z][i] == y;
    }
  }

  lemma {:induction false} DistinctBound<T>(s: seq<T>, all: set<T>)
    requires forall i, j :: 0 <= i < j < |s| ==> s[i] != s[j]
    requires forall i :: 0 <= i < |s| ==> s[i] in all
    ensures |s| <= |all|
  {
    if s != [] {
      var last := s[|s| - 1];
      DistinctBound(s[..|s| - 1], all - {last});
    }
  }

  /** The listing is never longer than the number of hashes in the graph. */
  lemma SearchBounded(g: Graph, start: Hash, order: seq<Hash>, depth: seq<nat>, head: nat)
    requires Search(g, start, order, depth, head)
    ensures |order| <= |Nodes(g, start)|
  {
    forall i | 0 <= i < |order|
      ensures order[i] in Nodes(g, start)
    {
      assert Walk(g, start, depth[i], order[i]);
      WalkStays(g, start, depth[i], order[i]);
    }
    DistinctBound(order, Nodes(g, start));
  }

  lemma SearchBegins(g: Graph, start: Hash)
    ensures Search(g, start, [start], [0], 0)
  {
    assert Walk(g, start, 0, start);
  }

  /** `d` is the number of hops of a shortest walk from `x` to `y`. */
  ghost predicate Distance(g: Graph, x: Hash, d: nat, y: Hash) {
    Walk(g, x, d, y) && forall n :: Walk(g, x, n, y) ==> d <= n
  }

  /** A listed hash no deeper than the next one to be done carries its distance. */
  lemma SearchDistance(g: Graph, start: Hash, order: seq<Hash>, depth: seq<nat>, head: nat, i: nat)
    requires Search(g, start, order, depth, head) && i < |order|
    ensures Distance(g, start, depth[i], order[i])
  {
    assert Walk(g, start, depth[i], order[i]);
    forall n | Walk(g, start, n, order[i])
      ensures depth[i] <= n
    {
      SearchComplete(g, start, order, depth, head, n, order[i]);
    }
  }
}
