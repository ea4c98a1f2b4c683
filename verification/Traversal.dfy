/** Graph traversals of the query executor. */
module Traversal {
  import opened Bytes
  import opened Walks
  import opened Dag

  // Commits reachable from the branches, and their children.

  ghost predicate FromTips(g: Graph, tips: seq<Hash>, y: Hash) {
    exists i :: 0 <= i < |tips| && Reach(g, tips[i], y)
  }

  /** Adds everything reachable from `tip` to a set that is already closed under parents. */
  method Collect(g: Graph, tip: Hash, all: set<Hash>) returns (r: Result<set<Hash>>)
    requires all <= g.Keys
    requires Closing(g, all, [])
    ensures r.Ok? ==> r.value <= g.Keys && forall y :: y in r.value <==> y in all || Reach(g, tip, y)
    ensures r.Err? <==> !Complete(g, tip)
  {
    var seen := all;
    var queue := [tip];
    ReachSelf(g, tip);
    while queue != []
      invariant all <= seen <= g.Keys && (tip in seen || tip in queue)
      invariant forall y :: y in seen || y in queue ==> y in all || Reach(g, tip, y)
      invariant Closing(g, seen, queue)
      decreases g.Keys - seen, |queue|
    {
      var current := queue[0];
      CloseOne(g, seen, queue);
      assert queue == [current] + queue[1..];
      queue := queue[1..];
      if current in seen {
        continue;
      }
      if current !in g {
        return Err(NotFound(current));
      }
      seen := seen + {current};
      ReachNeighbours(g, tip, current);
      queue := queue + g[current];
    }
    ClosedReach(g, seen, tip);
    return Ok(seen);
  }

  lemma ClosedUnion(g: Graph, all: set<Hash>, tip: Hash, more: set<Hash>)
    requires Closing(g, all, [])
    requires forall y :: y in more <==> y in all || Reach(g, tip, y)
    ensures Closing(g, more, [])
  {
    forall x, y | x in more && y in Next(g, x)
      ensures y in more
    {
      if x !in all {
        ReachNeighbours(g, tip, x);
      }
    }
  }

  /** All commits reachable from the tips of the branches. */
  method ReachableCommits(g: Graph, tips: seq<Hash>) returns (r: Result<set<Hash>>)
    ensures r.Ok? ==> r.value <= g.Keys && forall y :: y in r.value <==> FromTips(g, tips, y)
    ensures r.Ok? <==> forall i :: 0 <= i < |tips| ==> Complete(g, tips[i])
  {
    var all: set<Hash> := {};
    for i := 0 to |tips|
      invariant all <= g.Keys
      invariant Closing(g, all, [])
      invariant forall y :: y in all <==> FromTips(g, tips[..i], y)
      invariant forall j :: 0 <= j < i ==> Complete(g, tips[j])
    {
      ghost var before := all;
      all :- Collect(g, tips[i], all);
      ClosedUnion(g, before, tips[i], all);
      forall y
        ensures FromTips(g, tips[..i + 1], y) <==> FromTips(g, tips[..i], y) || Reach(g, tips[i], y)
      {
        OneMoreTip(g, tips, i, y);
      }
    }
    assert tips[..|tips|] == tips;
    return Ok(all);
  }

  lemma OneMoreTip(g: Graph, tips: seq<Hash>, i: nat, y: Hash)
    requires i < |tips|
    ensures FromTips(g, tips[..i + 1], y) <==> FromTips(g, tips[..i], y) || Reach(g, tips[i], y)
  {
    if FromTips(g, tips[..i], y) {
      var j :| 0 <= j < |tips[..i]| && Reach(g, tips[..i][j], y);
      assert tips[..i + 1][j] == tips[..i][j];
    }
    if Reach(g, tips[i], y) {
      assert tips[..i + 1][i] == tips[i];
    }
    if FromTips(g, tips[..i + 1], y) {
      var j :| 0 <= j < |tips[..i + 1]| && Reach(g, tips[..i + 1][j], y);
      if j < i {
        assert tips[..i][j] == tips[..i + 1][j];
      }
    }
  }

  /** Parent to children, over a set of commits. */
  ghost predicate ChildrenOf(g: Graph, commits: set<Hash>, children: Graph) {
    forall p, c :: c in Next(children, p) <==> c in commits && p in Next(g, c)
  }

  function AddChild(children: Graph, parent: Hash, child: Hash): Graph {
    children[parent := Next(children, parent) + [child]]
  }

  method ChildrenMap(g: Graph, commits: set<Hash>) returns (children: Graph)
    requires commits <= g.Keys
    ensures ChildrenOf(g, commits, children)
  {
    children := map[];
    var todo := commits;
    while todo != {}
      invariant todo <= commits
      invariant forall p, c :: c in Next(children, p) <==> c in commits - todo && p in Next(g, c)
      decreases todo
    {
      var hash :| hash in todo;
      ghost var before := children;
      for i := 0 to |g[hash]|
        invariant forall p, c :: c in Next(children, p) <==>
                    c in Next(before, p) || (c == hash && p in g[hash][..i])
      {
        assert g[hash][..i + 1] == g[hash][..i] + [g[hash][i]];
        children := AddChild(children, g[hash][i], hash);
      }
      assert g[hash][..|g[hash]|] == g[hash];
      todo := todo - {hash};
    }
    assert commits - todo == commits;
  }

  /** A walk over children, in a set of commits closed under parents, is a walk over parents the other way round. */
  lemma ChildWalk(g: Graph, commits: set<Hash>, children: Graph, x: Hash, n: nat, y: Hash)
    requires ChildrenOf(g, commits, children) && Closing(g, commits, [])
    ensures Walk(children, x, n, y) <==> if n == 0 then x == y else y in commits && Walk(g, y, n, x)
  {
    if n > 0 && Walk(children, x, n, y) {
      ChildWalkBack(g, commits, children, x, n, y);
    }
    if n > 0 && y in commits && Walk(g, y, n, x) {
      ParentWalkBack(g, commits, children, x, n, y);
    }
  }

  lemma {:induction false} ChildWalkBack(g: Graph, commits: set<Hash>, children: Graph, x: Hash, n: nat, y: Hash)
    requires ChildrenOf(g, commits, children) && n > 0 && Walk(children, x, n, y)
    ensures y in commits && Walk(g, y, n, x)
    decreases n
  {
    var z :| Walk(children, x, n - 1, z) && y in Next(children, z);
    if n == 1 {
      ParentFirst(g, y, x, 0, x);
    } else {
      ChildWalkBack(g, commits, children, x, n - 1, z);
      ParentFirst(g, y, z, n - 1, x);
    }
  }

  lemma {:induction false} ParentWalkBack(g: Graph, commits: set<Hash>, children: Graph, x: Hash, n: nat, y: Hash)
    requires ChildrenOf(g, commits, children) && Closing(g, commits, []) && n > 0 && y in commits && Walk(g, y, n, x)
    ensures Walk(children, x, n, y)
    decreases n
  {
    var z := ChildLast(g, commits, children, x, n, y);
    if n > 1 {
      ParentWalkBack(g, commits, children, x, n - 1, z);
    }
    WalkStep(children, x, n - 1, z, y);
  }

  lemma ChildLast(g: Graph, commits: set<Hash>, children: Graph, x: Hash, n: nat, y: Hash) returns (z: Hash)
    requires ChildrenOf(g, commits, children) && Closing(g, commits, []) && n > 0 && y in commits && Walk(g, y, n, x)
    ensures z in commits && y in Next(children, z) && Walk(g, z, n - 1, x) && (n == 1 ==> z == x)
  {
    WalkFirst(g, y, n - 1, x);
    z :| z in Next(g, y) && Walk(g, z, n - 1, x);
  }

  lemma ParentFirst(g: Graph, y: Hash, z: Hash, n: nat, x: Hash)
    requires z in Next(g, y) && Walk(g, z, n, x)
    ensures Walk(g, y, n + 1, x)
  {
    assert Walk(g, y, 0, y);
    WalkStep(g, y, 0, y, z);
    WalkAppend(g, y, 1, z, n, x);
  }

  // Hop ranges.

  datatype EdgeType = Parent | Child | Ancestor | Descendant

  datatype HopMultiplier = Any | Exact(n: nat) | Range(min: Option<nat>, max: Option<nat>)

  datatype Edge = Edge(edgeType: EdgeType, multiplier: Option<HopMultiplier>)

  function HopBounds(edge: Edge): (nat, nat) {
    var defaultMax := if edge.edgeType.Parent? || edge.edgeType.Child? then 1 else 64;
    match edge.multiplier
    case None => (1, defaultMax)
    case Some(Any) => (1, 64)
    case Some(Exact(n)) => (n, n)
    case Some(Range(min, max)) =>
      (if min.Some? then min.value else 1, if max.Some? then max.value else 64)
  }

  predicate TowardRoot(edge: Edge) {
    edge.edgeType.Parent? || edge.edgeType.Ancestor?
  }

  function EdgeGraph(edge: Edge, g: Graph, children: Graph): Graph {
    if TowardRoot(edge) then g else children
  }

  /** The meaning of an edge: another commit joined by a walk whose length is in the hop range. */
  ghost predicate Hop(edge: Edge, g: Graph, children: Graph, x: Hash, y: Hash) {
    y != x && exists n: nat :: HopBounds(edge).0 <= n <= HopBounds(edge).1 && Walk(EdgeGraph(edge, g, children), x, n, y)
  }

  /** Over the children of a set of commits closed under parents, an edge away from the root leads to a descendant. */
  lemma ChildHop(edge: Edge, g: Graph, commits: set<Hash>, children: Graph, x: Hash, y: Hash)
    requires !TowardRoot(edge) && ChildrenOf(g, commits, children) && Closing(g, commits, [])
    ensures Hop(edge, g, children, x, y) <==>
              && y != x && y in commits
              && exists n: nat :: HopBounds(edge).0 <= n <= HopBounds(edge).1 && Walk(g, y, n, x)
  {
    if Hop(edge, g, children, x, y) {
      var n: nat :| HopBounds(edge).0 <= n <= HopBounds(edge).1 && Walk(EdgeGraph(edge, g, children), x, n, y);
      ChildWalk(g, commits, children, x, n, y);
      assert Walk(g, y, n, x);
    } else if y != x && y in commits {
      forall n: nat | HopBounds(edge).0 <= n <= HopBounds(edge).1
        ensures !Walk(g, y, n, x)
      {
        ChildWalk(g, commits, children, x, n, y);
        assert !Walk(EdgeGraph(edge, g, children), x, n, y);
      }
    }
  }

  /** The state of the hop search: pairs of a commit and a number of hops. */
  ghost predicate Hopping(G: Graph, from: Hash, most: nat, queue: seq<(Hash, nat)>,
                          visited: set<(Hash, nat)>, popped: set<(Hash, nat)>)
  {
    HopWalks(G, from, most, visited) && HopQueue(queue, visited, popped) && HopClosed(G, most, visited, popped)
  }

  /** What is visited is reached in as many hops as noted. */
  ghost predicate HopWalks(G: Graph, from: Hash, most: nat, visited: set<(Hash, nat)>) {
    (from, 0) in visited && forall p :: p in visited ==> p.1 <= most && Walk(G, from, p.1, p.0)
  }

  /** What is visited is done or waits, once. */
  ghost predicate HopQueue(queue: seq<(Hash, nat)>, visited: set<(Hash, nat)>, popped: set<(Hash, nat)>) {
    && (forall p :: p in visited <==> p in popped || p in queue)
    && (forall i :: 0 <= i < |queue| ==> queue[i] !in popped)
    && (forall i, j :: 0 <= i < j < |queue| ==> queue[i] != queue[j])
  }

  /** The neighbours of what is done are visited. */
  ghost predicate HopClosed(G: Graph, most: nat, visited: set<(Hash, nat)>, popped: set<(Hash, nat)>) {
    forall p, y :: p in popped && p.1 < most && y in Next(G, p.0) ==> (y, p.1 + 1) in visited
  }

  lemma {:induction false} HoppingComplete(G: Graph, from: Hash, most: nat, visited: set<(Hash, nat)>, n: nat, y: Hash)
    requires Hopping(G, from, most, [], visited, visited) && Walk(G, from, n, y) && n <= most
    ensures (y, n) in visited
    decreases n
  {
    if n > 0 {
      var z :| Walk(G, from, n - 1, z) && y in Next(G, z);
      HoppingComplete(G, from, most, visited, n - 1, z);
    }
  }

  ghost function AllHops(G: Graph, from: Hash, most: nat): set<(Hash, nat)> {
    set x, d | x in Nodes(G, from) && 0 <= d <= most :: (x, d)
  }

  /** Every commit that the search has to expand can be loaded; only the parent direction can fail. */
  ghost predicate Expandable(edge: Edge, g: Graph, from: Hash) {
    TowardRoot(edge) ==> CompleteWithin(g, from, HopBounds(edge).1)
  }

  /** The commits joined to `from` by a walk of a permitted length, other than `from`. */
  method ExpandEdge(edge: Edge, g: Graph, children: Graph, from: Hash) returns (r: Result<set<Hash>>)
    ensures r.Ok? ==> forall y :: y in r.value <==> Hop(edge, g, children, from, y)
    ensures r.Ok? <==> Expandable(edge, g, from)
  {
    ghost var G := EdgeGraph(edge, g, children);
    var (least, most) := HopBounds(edge);
    var results: set<Hash> := {};
    var queue, visited := [(from, 0)], {(from, 0)};
    ghost var popped: set<(Hash, nat)> := {};
    assert Walk(G, from, 0, from);
    while queue != []
      invariant Hopping(G, from, most, queue, visited, popped)
      invariant forall y :: y in results <==> y != from && exists d :: least <= d <= most && (y, d) in popped
      invariant TowardRoot(edge) ==> forall p :: p in popped && p.1 < most ==> p.0 in g
      decreases AllHops(G, from, most) - popped
    {
      var (current, depth) := queue[0];
      HopTermination(G, from, most, queue, visited, popped);
      if least <= depth <= most && current != from {
        results := results + {current};
      }
      if depth >= most {
        HopSkip(G, from, most, queue, visited, popped);
        popped := popped + {queue[0]};
        queue := queue[1..];
        continue;
      }
      if TowardRoot(edge) && current !in g {
        assert Walk(G, from, depth, current);
        return Err(NotFound(current));
      }
      var next := if TowardRoot(edge) then g[current] else Next(children, current);
      queue, visited := PushHops(G, from, most, next, depth, queue, visited, popped);
      popped := popped + {(current, depth)};
    }
    HopsFound(edge, g, children, from, visited, popped, results);
    return Ok(results);
  }

  lemma HopTermination(G: Graph, from: Hash, most: nat, queue: seq<(Hash, nat)>,
                       visited: set<(Hash, nat)>, popped: set<(Hash, nat)>)
    requires Hopping(G, from, most, queue, visited, popped) && queue != []
    ensures queue[0] in AllHops(G, from, most) && queue[0] !in popped
    ensures popped <= AllHops(G, from, most)
  {
    forall p | p in visited
      ensures p in AllHops(G, from, most)
    {
      WalkStays(G, from, p.1, p.0);
      assert p == (p.0, p.1);
    }
  }

  lemma HopSkip(G: Graph, from: Hash, most: nat, queue: seq<(Hash, nat)>,
                visited: set<(Hash, nat)>, popped: set<(Hash, nat)>)
    requires Hopping(G, from, most, queue, visited, popped) && queue != [] && queue[0].1 >= most
    ensures Hopping(G, from, most, queue[1..], visited, popped + {queue[0]})
  {
    QueueOneLess(queue, visited, popped);
  }

  method PushHops(ghost G: Graph, ghost from: Hash, ghost most: nat, next: seq<Hash>, depth: nat,
                  queue: seq<(Hash, nat)>, visited: set<(Hash, nat)>, ghost popped: set<(Hash, nat)>)
    returns (queue': seq<(Hash, nat)>, visited': set<(Hash, nat)>)
    requires Hopping(G, from, most, queue, visited, popped) && queue != []
    requires depth == queue[0].1 < most && next == Next(G, queue[0].0)
    ensures Hopping(G, from, most, queue', visited', popped + {queue[0]})
  {
    queue', visited' := queue[1..], visited;
    QueueOneLess(queue, visited, popped);
    for k := 0 to |next|
      invariant PushingHops(G, from, most, queue', visited', popped, queue[0], k)
    {
      PushHop(G, from, most, queue', visited', popped, queue[0], k);
      if (next[k], depth + 1) !in visited' {
        visited' := visited' + {(next[k], depth + 1)};
        queue' := queue' + [(next[k], depth + 1)];
      }
    }
    PushedAll(G, from, most, queue', visited', popped, queue[0]);
  }

  lemma PushedAll(G: Graph, from: Hash, most: nat, queue: seq<(Hash, nat)>,
                  visited: set<(Hash, nat)>, popped: set<(Hash, nat)>, p: (Hash, nat))
    requires PushingHops(G, from, most, queue, visited, popped, p, |Next(G, p.0)|)
    ensures Hopping(G, from, most, queue, visited, popped + {p})
  {
    ClosedOneMore(G, most, visited, popped, p);
  }

  lemma ClosedOneMore(G: Graph, most: nat, visited: set<(Hash, nat)>, popped: set<(Hash, nat)>, p: (Hash, nat))
    requires HopClosed(G, most, visited, popped)
    requires forall i :: 0 <= i < |Next(G, p.0)| ==> (Next(G, p.0)[i], p.1 + 1) in visited
    ensures HopClosed(G, most, visited, popped + {p})
  {
    forall y | y in Next(G, p.0)
      ensures (y, p.1 + 1) in visited
    {
      var i :| 0 <= i < |Next(G, p.0)| && Next(G, p.0)[i] == y;
    }
  }

  /** While the neighbours of `p` are being pushed: the first `k` of them are visited. */
  ghost predicate PushingHops(G: Graph, from: Hash, most: nat, queue: seq<(Hash, nat)>,
                              visited: set<(Hash, nat)>, popped: set<(Hash, nat)>, p: (Hash, nat), k: nat)
  {
    && p in visited && p.1 < most
    && HopWalks(G, from, most, visited) && HopQueue(queue, visited, popped + {p}) && HopClosed(G, most, visited, popped)
    && k <= |Next(G, p.0)|
    && (forall i :: 0 <= i < k ==> (Next(G, p.0)[i], p.1 + 1) in visited)
  }

  lemma PushHop(G: Graph, from: Hash, most: nat, queue: seq<(Hash, nat)>,
                visited: set<(Hash, nat)>, popped: set<(Hash, nat)>, p: (Hash, nat), k: nat)
    requires PushingHops(G, from, most, queue, visited, popped, p, k) && k < |Next(G, p.0)|
    ensures var q := (Next(G, p.0)[k], p.1 + 1);
            && (q in visited ==> PushingHops(G, from, most, queue, visited, popped, p, k + 1))
            && (q !in visited ==> PushingHops(G, from, most, queue + [q], visited + {q}, popped, p, k + 1))
  {
    var q := (Next(G, p.0)[k], p.1 + 1);
    assert Walk(G, from, q.1, q.0) by {
      WalkStep(G, from, p.1, p.0, q.0);
    }
    if q !in visited {
      QueueOneMore(queue, visited, popped + {p}, q);
    }
  }

  lemma QueueOneMore(queue: seq<(Hash, nat)>, visited: set<(Hash, nat)>, popped: set<(Hash, nat)>, q: (Hash, nat))
    requires HopQueue(queue, visited, popped) && q !in visited
    ensures HopQueue(queue + [q], visited + {q}, popped)
  {}

  lemma QueueOneLess(queue: seq<(Hash, nat)>, visited: set<(Hash, nat)>, popped: set<(Hash, nat)>)
    requires HopQueue(queue, visited, popped) && queue != []
    ensures HopQueue(queue[1..], visited, popped + {queue[0]})
  {
    assert queue == [queue[0]] + queue[1..];
  }

  lemma HopsFound(edge: Edge, g: Graph, children: Graph, from: Hash,
                  visited: set<(Hash, nat)>, popped: set<(Hash, nat)>, results: set<Hash>)
    requires var G := EdgeGraph(edge, g, children);
             var (least, most) := HopBounds(edge);
             && Hopping(G, from, most, [], visited, popped)
             && (forall y :: y in results <==> y != from && exists d :: least <= d <= most && (y, d) in popped)
             && (TowardRoot(edge) ==> forall p :: p in popped && p.1 < most ==> p.0 in g)
    ensures forall y :: y in results <==> Hop(edge, g, children, from, y)
    ensures Expandable(edge, g, from)
  {
    var G := EdgeGraph(edge, g, children);
    var (least, most) := HopBounds(edge);
    assert visited == popped;
    forall n: nat, y | n <= most && Walk(G, from, n, y)
      ensures (y, n) in popped
    {
      HoppingComplete(G, from, most, visited, n, y);
    }
    forall y
      ensures y in results <==> Hop(edge, g, children, from, y)
    {
      if y in results {
        var d: nat :| least <= d <= most && (y, d) in popped;
        assert Walk(G, from, d, y);
      }
    }
  }

  // Shortest paths.

  /** Parents and children together: the undirected commit graph. */
  function Both(g: Graph, children: Graph): Graph {
    map x | x in g :: g[x] + Next(children, x)
  }

  ghost predicate IsPath(g: Graph, path: seq<Hash>, x: Hash, y: Hash) {
    && path != [] && path[0] == x && path[|path| - 1] == y
    && forall i :: 0 <= i < |path| - 1 ==> path[i + 1] in Next(g, path[i])
  }

  lemma {:induction false} PathIsWalk(g: Graph, path: seq<Hash>, x: Hash, y: Hash)
    requires IsPath(g, path, x, y)
    ensures Walk(g, x, |path| - 1, y)
    decreases |path|
  {
    if |path| > 1 {
      var front := path[..|path| - 1];
      var z := front[|front| - 1];
      assert y in Next(g, z);
      PathIsWalk(g, front, x, z);
      WalkStep(g, x, |front| - 1, z, y);
    }
  }

  /** The queue holds the listed hashes from `head` on, each with a path as long as its depth. */
  ghost predicate Paths(G: Graph, from: Hash, queue: seq<(Hash, seq<Hash>)>, visited: set<Hash>,
                        order: seq<Hash>, depth: seq<nat>, head: nat)
  {
    && |order| == |depth| && head <= |order| && |queue| == |order| - head
    && (forall i :: 0 <= i < |queue| ==>
          && queue[i].0 == order[head + i]
          && |queue[i].1| == depth[head + i] + 1
          && IsPath(G, queue[i].1, from, queue[i].0))
    && forall y :: y in visited <==> y in order
  }

  lemma PathsBegin(G: Graph, from: Hash)
    ensures Paths(G, from, [(from, [from])], {from}, [from], [0], 0)
  {}

  lemma PathsPush(G: Graph, from: Hash, queue: seq<(Hash, seq<Hash>)>, visited: set<Hash>,
                  order: seq<Hash>, depth: seq<nat>, head: nat, x: Hash, path: seq<Hash>, y: Hash)
    requires Paths(G, from, queue, visited, order, depth, head)
    requires IsPath(G, path, from, x) && y in Next(G, x)
    ensures Paths(G, from, queue + [(y, path + [y])], visited + {y}, order + [y], depth + [|path|], head)
  {
    assert IsPath(G, path + [y], from, y);
  }

  lemma PathsPop(G: Graph, from: Hash, queue: seq<(Hash, seq<Hash>)>, visited: set<Hash>,
                 order: seq<Hash>, depth: seq<nat>, head: nat)
    requires Paths(G, from, queue, visited, order, depth, head) && queue != []
    ensures head < |order| && queue[0].0 == order[head] && |queue[0].1| == depth[head] + 1
    ensures IsPath(G, queue[0].1, from, order[head])
    ensures Paths(G, from, queue[1..], visited, order, depth, head + 1)
  {}

  ghost predicate Shortest(G: Graph, path: seq<Hash>, x: Hash, y: Hash) {
    IsPath(G, path, x, y) && forall p :: IsPath(G, p, x, y) ==> |path| <= |p|
  }

  /** Two commits next to each other: one is a parent of the other, a child counting only if a branch reaches it. */
  ghost predicate Linked(g: Graph, tips: seq<Hash>, x: Hash, y: Hash) {
    y in Next(g, x) || (FromTips(g, tips, y) && x in Next(g, y))
  }

  ghost predicate LinkedPath(g: Graph, tips: seq<Hash>, path: seq<Hash>, x: Hash, y: Hash) {
    && path != [] && path[0] == x && path[|path| - 1] == y
    && forall i :: 0 <= i < |path| - 1 ==> Linked(g, tips, path[i], path[i + 1])
  }

  /**
   * A path of fewest commits between two commits. When all histories are complete, an error means exactly that
   * there is no path; an incomplete branch is always an error.
   */
  method ShortestCommitPath(g: Graph, tips: seq<Hash>, from: Hash, to: Hash) returns (r: Result<seq<Hash>>)
    ensures r.Ok? ==> LinkedPath(g, tips, r.value, from, to)
    ensures r.Ok? ==> forall p :: LinkedPath(g, tips, p, from, to) ==> |r.value| <= |p|
    ensures r.Ok? ==> AllComplete(g, tips)
    ensures AllComplete(g, tips) && Complete(g, from) ==>
              (r.Err? <==> forall p :: !LinkedPath(g, tips, p, from, to))
  {
    var commits :- ReachableCommits(g, tips);
    var children := ChildrenMap(g, commits);
    r := SearchPath(g, children, from, to);
    TipsClosed(g, tips, commits);
    if Complete(g, from) {
      BothComplete(g, commits, children, from);
    }
    forall p
      ensures IsPath(Both(g, children), p, from, to) <==> LinkedPath(g, tips, p, from, to)
    {
      PathIsLinked(g, tips, commits, children, p, from, to);
    }
    if AllComplete(g, tips) && Complete(g, from) && r.Err? {
      NoPath(Both(g, children), from, to);
    }
  }

  ghost predicate AllComplete(g: Graph, tips: seq<Hash>) {
    forall i :: 0 <= i < |tips| ==> Complete(g, tips[i])
  }

  lemma TipsClosed(g: Graph, tips: seq<Hash>, commits: set<Hash>)
    requires forall y :: y in commits <==> FromTips(g, tips, y)
    ensures Closing(g, commits, [])
  {
    forall x, y | x in commits && y in Next(g, x)
      ensures y in commits
    {
      var i :| 0 <= i < |tips| && Reach(g, tips[i], x);
      ReachNeighbours(g, tips[i], x);
    }
  }

  lemma PathIsLinked(g: Graph, tips: seq<Hash>, commits: set<Hash>, children: Graph, p: seq<Hash>, x: Hash, y: Hash)
    requires ChildrenOf(g, commits, children) && commits <= g.Keys && Closing(g, commits, [])
    requires forall c :: c in commits <==> FromTips(g, tips, c)
    ensures IsPath(Both(g, children), p, x, y) <==> LinkedPath(g, tips, p, x, y)
  {
    forall i | 0 <= i < |p| - 1
      ensures p[i + 1] in Next(Both(g, children), p[i]) <==> Linked(g, tips, p[i], p[i + 1])
    {
      NextIsLinked(g, tips, commits, children, p[i], p[i + 1]);
    }
  }

  lemma NextIsLinked(g: Graph, tips: seq<Hash>, commits: set<Hash>, children: Graph, x: Hash, y: Hash)
    requires ChildrenOf(g, commits, children) && commits <= g.Keys && Closing(g, commits, [])
    requires forall c :: c in commits <==> FromTips(g, tips, c)
    ensures y in Next(Both(g, children), x) <==> Linked(g, tips, x, y)
  {
    if y in commits && x in Next(g, y) {
      assert x in commits;
    }
  }

  /** With a complete history, everything reached over parents and children is stored. */
  lemma BothComplete(g: Graph, commits: set<Hash>, children: Graph, from: Hash)
    requires ChildrenOf(g, commits, children) && commits <= g.Keys && Closing(g, commits, []) && Complete(g, from)
    ensures Complete(Both(g, children), from)
  {
    forall y | Reach(Both(g, children), from, y)
      ensures y in g
    {
      var n: nat :| Walk(Both(g, children), from, n, y);
      BothStays(g, commits, children, from, n, y);
    }
  }

  lemma {:induction false} BothStays(g: Graph, commits: set<Hash>, children: Graph, from: Hash, n: nat, y: Hash)
    requires ChildrenOf(g, commits, children) && commits <= g.Keys && Closing(g, commits, []) && Complete(g, from)
    requires Walk(Both(g, children), from, n, y)
    ensures y in g && (y in commits || Reach(g, from, y))
    decreases n
  {
    if n == 0 {
      ReachSelf(g, from);
    } else {
      var z :| Walk(Both(g, children), from, n - 1, z) && y in Next(Both(g, children), z);
      BothStays(g, commits, children, from, n - 1, z);
      BothStep(g, commits, children, from, z, y);
    }
  }

  lemma BothStep(g: Graph, commits: set<Hash>, children: Graph, from: Hash, z: Hash, y: Hash)
    requires ChildrenOf(g, commits, children) && commits <= g.Keys && Closing(g, commits, []) && Complete(g, from)
    requires (z in commits || Reach(g, from, z)) && y in Next(Both(g, children), z)
    ensures y in g && (y in commits || Reach(g, from, y))
  {
    if z !in commits {
      ReachNeighbours(g, from, z);
    }
    assert y in Next(g, z) || y in Next(children, z);
  }

  lemma NoPath(G: Graph, from: Hash, to: Hash)
    requires !Reach(G, from, to)
    ensures forall p :: !IsPath(G, p, from, to)
  {
    forall p | IsPath(G, p, from, to)
      ensures false
    {
      PathIsWalk(G, p, from, to);
    }
  }

  /** The search over parents and children. */
  method SearchPath(g: Graph, children: Graph, from: Hash, to: Hash) returns (r: Result<seq<Hash>>)
    ensures r.Ok? ==> Shortest(Both(g, children), r.value, from, to)
    ensures r.Err? ==> !Reach(Both(g, children), from, to) || !Complete(Both(g, children), from)
  {
    ghost var G := Both(g, children);
    var queue, visited := [(from, [from])], {from};
    ghost var order: seq<Hash>, depth: seq<nat>, head := [from], [0], 0;
    SearchBegins(G, from);
    PathsBegin(G, from);
    while queue != []
      invariant Search(G, from, order, depth, head)
      invariant Paths(G, from, queue, visited, order, depth, head)
      invariant forall i :: 0 <= i < head ==> order[i] != to
      decreases |Nodes(G, from)| - head
    {
      SearchBounded(G, from, order, depth, head);
      PathsPop(G, from, queue, visited, order, depth, head);
      var (current, path) := queue[0];
      if current == to {
        FirstPathShortest(G, from, to, order, depth, head, path);
        return Ok(path);
      }
      queue := queue[1..];
      if current !in g {
        MissingCommit(G, from, order, depth, head);
        return Err(NotFound(current));
      }
      var neighbours := g[current] + Next(children, current);
      queue, visited, order, depth := PushPaths(G, from, neighbours, path, queue, visited, order, depth, head);
      head := head + 1;
    }
    NothingFound(G, from, to, queue, visited, order, depth, head);
    return Err(ExecError);
  }

  lemma NothingFound(G: Graph, from: Hash, to: Hash, queue: seq<(Hash, seq<Hash>)>, visited: set<Hash>,
                     order: seq<Hash>, depth: seq<nat>, head: nat)
    requires Search(G, from, order, depth, head) && Paths(G, from, queue, visited, order, depth, head) && queue == []
    requires forall i :: 0 <= i < head ==> order[i] != to
    ensures !Reach(G, from, to)
  {
    assert head == |order| && to !in order;
    SearchFinished(G, from, order, depth, to);
  }

  lemma MissingCommit(G: Graph, from: Hash, order: seq<Hash>, depth: seq<nat>, head: nat)
    requires Search(G, from, order, depth, head) && head < |order| && order[head] !in G
    ensures !Complete(G, from)
  {
    assert Walk(G, from, depth[head], order[head]);
    assert Reach(G, from, order[head]);
  }

  lemma FirstPathShortest(G: Graph, from: Hash, to: Hash, order: seq<Hash>, depth: seq<nat>, head: nat, path: seq<Hash>)
    requires Search(G, from, order, depth, head) && head < |order| && order[head] == to
    requires IsPath(G, path, from, to) && |path| == depth[head] + 1
    ensures Shortest(G, path, from, to)
  {
    SearchDistance(G, from, order, depth, head, head);
    forall p | IsPath(G, p, from, to)
      ensures |path| <= |p|
    {
      PathIsWalk(G, p, from, to);
    }
  }

  method PushPaths(ghost G: Graph, ghost from: Hash, next: seq<Hash>, path: seq<Hash>,
                   queue: seq<(Hash, seq<Hash>)>, visited: set<Hash>,
                   ghost order: seq<Hash>, ghost depth: seq<nat>, ghost head: nat)
    returns (queue': seq<(Hash, seq<Hash>)>, visited': set<Hash>, ghost order': seq<Hash>, ghost depth': seq<nat>)
    requires Search(G, from, order, depth, head) && head < |order| && next == Next(G, order[head])
    requires IsPath(G, path, from, order[head]) && |path| == depth[head] + 1
    requires Paths(G, from, queue, visited, order, depth, head + 1)
    ensures Search(G, from, order', depth', head + 1)
    ensures Paths(G, from, queue', visited', order', depth', head + 1)
    ensures order <= order'
  {
    queue', visited', order', depth' := queue, visited, order, depth;
    for k := 0 to |next|
      invariant order <= order' && depth <= depth'
      invariant Expanding(G, from, order', depth', head, k)
      invariant Paths(G, from, queue', visited', order', depth', head + 1)
    {
      if next[k] !in visited' {
        ExpandNew(G, from, order', depth', head, k, next[k], depth'[head] + 1);
        PathsPush(G, from, queue', visited', order', depth', head + 1, order[head], path, next[k]);
        visited' := visited' + {next[k]};
        queue' := queue' + [(next[k], path + [next[k]])];
        order', depth' := order' + [next[k]], depth' + [depth'[head] + 1];
      } else {
        ExpandOld(G, from, order', depth', head, k, next[k]);
      }
    }
    ExpandDone(G, from, order', depth', head);
  }
}
