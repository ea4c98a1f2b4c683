/** Searches over the commit graph. */
module Dag {
  import opened Bytes
  import opened Walks
  import opened PathOrder

  /** Everything reachable from `x` is stored. */
  ghost predicate Complete(g: Graph, x: Hash) {
    forall y :: Reach(g, x, y) ==> y in g
  }

  /** What a search has seen and queued is reachable, and it has not forgotten the start or a neighbour. */
  ghost predicate Gathering(g: Graph, start: Hash, seen: set<Hash>, queue: seq<Hash>) {
    && seen <= g.Keys && Closing(g, seen, queue)
    && (start in seen || start in queue)
    && forall y :: y in seen || y in queue ==> Reach(g, start, y)
  }

  lemma GatherBegins(g: Graph, start: Hash)
    ensures Gathering(g, start, {}, [start])
  {
    ReachSelf(g, start);
  }

  lemma GatherOne(g: Graph, start: Hash, seen: set<Hash>, queue: seq<Hash>)
    requires Gathering(g, start, seen, queue) && queue != []
    ensures queue[0] in seen ==> Gathering(g, start, seen, queue[1..])
    ensures queue[0] in g ==> Gathering(g, start, seen + {queue[0]}, queue[1..] + g[queue[0]])
    ensures queue[0] !in g ==> !Complete(g, start)
  {
    CloseOne(g, seen, queue);
    ReachNeighbours(g, start, queue[0]);
    assert queue == [queue[0]] + queue[1..];
  }

  lemma GatherEnds(g: Graph, start: Hash, seen: set<Hash>)
    requires Gathering(g, start, seen, [])
    ensures Complete(g, start) && forall y :: y in seen <==> Reach(g, start, y)
  {
    ClosedReach(g, seen, start);
  }

  /** The ancestors of a commit, itself included. */
  method CollectAncestors(g: Graph, start: Hash) returns (r: Result<set<Hash>>)
    ensures r.Ok? <==> Complete(g, start)
    ensures r.Ok? ==> forall y :: y in r.value <==> Reach(g, start, y)
  {
    var ancestors: set<Hash> := {};
    var queue := [start];
    GatherBegins(g, start);
    while queue != []
      invariant ancestors <= g.Keys && Gathering(g, start, ancestors, queue)
      decreases g.Keys - ancestors, |queue|
    {
      var current := queue[0];
      GatherOne(g, start, ancestors, queue);
      queue := queue[1..];
      if current in ancestors {
        continue;
      }
      if current !in g {
        return Err(NotFound(current));
      }
      ancestors := ancestors + {current};
      queue := queue + g[current];
    }
    GatherEnds(g, start, ancestors);
    return Ok(ancestors);
  }

  method IsAncestor(g: Graph, ancestor: Hash, descendant: Hash) returns (r: Result<bool>)
    ensures r.Ok? <==> ancestor == descendant || Complete(g, descendant)
    ensures r.Ok? ==> (r.value <==> Reach(g, descendant, ancestor))
  {
    if ancestor == descendant {
      ReachSelf(g, descendant);
      return Ok(true);
    }
    var ancestors :- CollectAncestors(g, descendant);
    return Ok(ancestor in ancestors);
  }

  /** A common ancestor of `a` and `b` with the fewest hops from `b`. */
  ghost predicate NearestCommon(g: Graph, a: Hash, b: Hash, m: Hash) {
    Reach(g, a, m) && exists n :: Walk(g, b, n, m) && NoneNearer(g, a, b, n)
  }

  /** No common ancestor is fewer than `n` hops from `b`. */
  ghost predicate NoneNearer(g: Graph, a: Hash, b: Hash, n: nat) {
    forall k: nat, x :: Walk(g, b, k, x) && Reach(g, a, x) ==> n <= k
  }

  /** No path before `p` leads from `b` to an ancestor of `a`. */
  ghost predicate NoneBefore(g: Graph, a: Hash, b: Hash, p: Turns) {
    forall q, x :: Before(q, p) && Follow(g, b, q) == Some(x) ==> !Reach(g, a, x)
  }

  /** The common ancestor that a breadth-first search from `b` meets first. */
  ghost predicate FirstCommon(g: Graph, a: Hash, b: Hash, m: Hash) {
    Reach(g, a, m) && exists p :: Follow(g, b, p) == Some(m) && NoneBefore(g, a, b, p)
  }

  /** The search meets a commit that is not stored before any common ancestor. */
  ghost predicate MissingFirst(g: Graph, a: Hash, b: Hash) {
    exists p, x :: Follow(g, b, p) == Some(x) && x !in g && NoneBefore(g, a, b, p)
  }

  /** The real queue and visited set of a search, against the listing of everything queued. */
  ghost predicate Tracks(queue: seq<Hash>, visited: set<Hash>, order: seq<Hash>, head: nat) {
    && head <= |order|
    && queue == order[head..]
    && forall y :: y in visited <==> y in order
  }

  lemma Popped(queue: seq<Hash>, visited: set<Hash>, order: seq<Hash>, head: nat)
    requires Tracks(queue, visited, order, head) && queue != []
    ensures head < |order| && queue[0] == order[head] && queue[1..] == order[head + 1..]
  {}

  lemma TrackNew(g: Graph, start: Hash, queue: seq<Hash>, visited: set<Hash>, order: seq<Hash>, depth: seq<nat>,
                 head: nat, k: nat, y: Hash, d: nat)
    requires Expanding(g, start, order, depth, head, k) && k < |Next(g, order[head])|
    requires Tracks(queue, visited, order, head + 1)
    requires y == Next(g, order[head])[k] && y !in visited && d == depth[head] + 1
    ensures Expanding(g, start, order + [y], depth + [d], head, k + 1)
    ensures Tracks(queue + [y], visited + {y}, order + [y], head + 1)
  {
    ExpandNew(g, start, order, depth, head, k, y, d);
  }

  /** The inner loop of every search: push the neighbours that are new. */
  method PushNeighbours(g: Graph, ghost start: Hash, next: seq<Hash>, queue: seq<Hash>, visited: set<Hash>,
                        ghost order: seq<Hash>, ghost depth: seq<nat>, ghost head: nat)
    returns (queue': seq<Hash>, visited': set<Hash>, ghost order': seq<Hash>, ghost depth': seq<nat>)
    requires Search(g, start, order, depth, head) && head < |order| && next == Next(g, order[head])
    requires Tracks(queue, visited, order, head + 1)
    ensures Search(g, start, order', depth', head + 1) && Tracks(queue', visited', order', head + 1)
    ensures order' == Pushed(order, next) && depth <= depth'
  {
    queue', visited', order', depth' := queue, visited, order, depth;
    for k := 0 to |next|
      invariant order' == Pushed(order, next[..k]) && depth <= depth'
      invariant Expanding(g, start, order', depth', head, k) && Tracks(queue', visited', order', head + 1)
    {
      PushedStep(order, next, k);
      if next[k] !in visited' {
        TrackNew(g, start, queue', visited', order', depth', head, k, next[k], depth'[head] + 1);
        visited' := visited' + {next[k]};
        queue' := queue' + [next[k]];
        order', depth' := order' + [next[k]], depth' + [depth'[head] + 1];
      } else {
        ExpandOld(g, start, order', depth', head, k, next[k]);
      }
    }
    assert next[..|next|] == next;
    ExpandDone(g, start, order', depth', head);
  }

  /**
   * The common ancestor that the search from `b` meets first. It fails exactly when the history of `a` is incomplete or
   * the search meets a missing commit before that.
   */
  method MergeBase(g: Graph, a: Hash, b: Hash) returns (r: Result<Option<Hash>>)
    ensures r.Ok? && r.value.Some? ==> FirstCommon(g, a, b, r.value.value)
    ensures r.Ok? && r.value.None? ==> forall x :: !(Reach(g, a, x) && Reach(g, b, x))
    ensures r.Err? <==> a != b && (!Complete(g, a) || MissingFirst(g, a, b))
  {
    if a == b {
      SelfIsFirst(g, a);
      return Ok(Some(a));
    }
    var ancestors :- CollectAncestors(g, a);
    var queue, visited := [b], {b};
    ghost var order, depth, head := [b], [0], 0;
    ghost var paths: seq<Turns> := [[]];
    SearchBegins(g, b);
    MappedBegins(g, b);
    while queue != []
      invariant Search(g, b, order, depth, head) && Tracks(queue, visited, order, head)
      invariant Mapped(g, b, order, paths, head) && InTime(paths, head, 0)
      invariant PassedBy(g, ancestors, order, head)
      decreases |Nodes(g, b)| - head
    {
      Popped(queue, visited, order, head);
      SearchBounded(g, b, order, depth, head);
      var current := queue[0];
      queue := queue[1..];
      FirstSoFar(g, a, b, ancestors, order, paths, head);
      if current in ancestors {
        return Ok(Some(current));
      }
      if current !in g {
        return Err(NotFound(current));
      }
      paths := PathsOn(g, b, order, paths, head);
      queue, visited, order, depth := PushNeighbours(g, b, g[current], queue, visited, order, depth, head);
      head := head + 1;
    }
    NoneCommon(g, a, b, ancestors, order, depth);
    return Ok(None);
  }

  lemma PathsOn(g: Graph, b: Hash, order: seq<Hash>, paths: seq<Turns>, head: nat) returns (paths': seq<Turns>)
    requires Mapped(g, b, order, paths, head) && InTime(paths, head, 0) && head < |order|
    ensures Mapped(g, b, Pushed(order, Next(g, order[head])), paths', head + 1) && InTime(paths', head + 1, 0)
  {
    var next := Next(g, order[head]);
    paths' := TurnAll(g, b, order, paths, head, next, |next|);
    assert next[..|next|] == next;
    assert Pushed(order, next)[head] == order[head];
    TurnsDone(g, b, Pushed(order, next), paths', head);
  }

  /** What a search has passed by is stored and not among the ancestors. */
  ghost predicate PassedBy(g: Graph, ancestors: set<Hash>, order: seq<Hash>, head: nat) {
    head <= |order| && forall i :: 0 <= i < head ==> order[i] !in ancestors && order[i] in g
  }

  lemma SelfIsFirst(g: Graph, a: Hash)
    ensures FirstCommon(g, a, a, a)
  {
    ReachSelf(g, a);
    assert Follow(g, a, []) == Some(a) && NoneBefore(g, a, a, []);
  }

  /** The next commit, if it is a common ancestor or missing, is the first of that kind. */
  lemma FirstSoFar(g: Graph, a: Hash, b: Hash, ancestors: set<Hash>, order: seq<Hash>, paths: seq<Turns>, head: nat)
    requires Mapped(g, b, order, paths, head) && head < |order| && PassedBy(g, ancestors, order, head)
    requires Complete(g, a) && forall y :: y in ancestors <==> Reach(g, a, y)
    ensures order[head] in ancestors ==> FirstCommon(g, a, b, order[head]) && !MissingFirst(g, a, b)
    ensures order[head] !in g ==> MissingFirst(g, a, b)
  {
    var p := paths[head];
    forall q, x | Before(q, p) && Follow(g, b, q) == Some(x)
      ensures x !in ancestors && x in g
    {
      BeforeIsExpanded(g, b, order, paths, head, q, x);
    }
    assert Follow(g, b, p) == Some(order[head]) && NoneBefore(g, a, b, p);
    if order[head] in ancestors {
      forall q, x | Follow(g, b, q) == Some(x) && x !in g
        ensures !NoneBefore(g, a, b, q)
      {
        BeforeTotal(q, p);
      }
    }
  }

  lemma NoneCommon(g: Graph, a: Hash, b: Hash, ancestors: set<Hash>, order: seq<Hash>, depth: seq<nat>)
    requires Search(g, b, order, depth, |order|) && PassedBy(g, ancestors, order, |order|)
    requires forall y :: y in ancestors <==> Reach(g, a, y)
    ensures forall x :: !(Reach(g, a, x) && Reach(g, b, x))
    ensures !MissingFirst(g, a, b)
  {
    forall x | Reach(g, b, x)
      ensures x !in ancestors && x in g
    {
      SearchFinished(g, b, order, depth, x);
    }
    forall p, x | Follow(g, b, p) == Some(x)
      ensures x in g
    {
      FollowWalk(g, b, p, x);
      assert Reach(g, b, x);
    }
  }

  /** There is only one first common ancestor, and it has the fewest hops from `b`. */
  lemma FirstIsNearest(g: Graph, a: Hash, b: Hash, m: Hash)
    requires FirstCommon(g, a, b, m)
    ensures NearestCommon(g, a, b, m) && forall m' :: FirstCommon(g, a, b, m') ==> m' == m
  {
    var p :| Follow(g, b, p) == Some(m) && NoneBefore(g, a, b, p);
    FollowWalk(g, b, p, m);
    forall k: nat, x | Walk(g, b, k, x) && Reach(g, a, x)
      ensures |p| <= k
    {
      var q := WalkFollow(g, b, k, x);
      assert !Before(q, p);
    }
    forall m' | FirstCommon(g, a, b, m')
      ensures m' == m
    {
      var q :| Follow(g, b, q) == Some(m') && NoneBefore(g, a, b, q);
      BeforeTotal(p, q);
    }
  }

  // What the nearest common ancestor is worth.

  /** It is `b` itself exactly when `b` is an ancestor of `a`. */
  lemma NearestIsSelf(g: Graph, a: Hash, b: Hash, m: Hash)
    requires NearestCommon(g, a, b, m)
    ensures m == b <==> Reach(g, a, b)
  {
    if Reach(g, a, b) {
      var n :| Walk(g, b, n, m) && NoneNearer(g, a, b, n);
      assert Walk(g, b, 0, b);
    }
  }

  ghost predicate SingleParent(g: Graph) {
    forall x :: x in g ==> |g[x]| <= 1
  }

  ghost predicate Acyclic(g: Graph) {
    forall x, n :: Walk(g, x, n, x) ==> n == 0
  }

  lemma {:induction false} SingleWalk(g: Graph, b: Hash, n: nat, m: Hash, k: nat, x: Hash)
    requires SingleParent(g) && Walk(g, b, n, m) && Walk(g, b, k, x) && n <= k
    ensures Walk(g, m, k - n, x)
    decreases k
  {
    if n == k {
      SingleEnd(g, b, n, m);
      SingleEnd(g, b, n, x);
    } else {
      var z := WalkBefore(g, b, k - 1, x);
      SingleWalk(g, b, n, m, k - 1, z);
      WalkStep(g, m, k - 1 - n, z, x);
    }
  }

  /** The ancestor that many first parents up. */
  ghost function Upwards(g: Graph, b: Hash, n: nat): Option<Hash> {
    if n == 0 then Some(b) else
      match Upwards(g, b, n - 1)
      case None => None
      case Some(z) => if Next(g, z) == [] then None else Some(Next(g, z)[0])
  }

  lemma {:induction false} SingleEnd(g: Graph, b: Hash, n: nat, x: Hash)
    requires SingleParent(g) && Walk(g, b, n, x)
    ensures Upwards(g, b, n) == Some(x)
    decreases n
  {
    if n > 0 {
      var z := WalkBefore(g, b, n - 1, x);
      SingleEnd(g, b, n - 1, z);
    }
  }

  /** In a history of single parents every common ancestor is an ancestor of the nearest one. */
  lemma NearestIsLowest(g: Graph, a: Hash, b: Hash, m: Hash, x: Hash)
    requires SingleParent(g) && NearestCommon(g, a, b, m) && Reach(g, a, x) && Reach(g, b, x)
    ensures Reach(g, m, x)
  {
    var n :| Walk(g, b, n, m) && NoneNearer(g, a, b, n);
    var k :| Walk(g, b, k, x);
    SingleWalk(g, b, n, m, k, x);
  }

  /** There, if the history has no cycle, the order of the arguments does not matter. */
  lemma NearestSymmetric(g: Graph, a: Hash, b: Hash, m: Hash, m': Hash)
    requires SingleParent(g) && Acyclic(g) && NearestCommon(g, a, b, m) && NearestCommon(g, b, a, m')
    ensures m == m'
  {
    CommonOfBoth(g, a, b, m);
    CommonOfBoth(g, b, a, m');
    NearestIsLowest(g, a, b, m, m');
    NearestIsLowest(g, b, a, m', m);
    var p :| Walk(g, m, p, m');
    var q :| Walk(g, m', q, m);
    WalkAppend(g, m, p, m', q, m);
  }

  lemma CommonOfBoth(g: Graph, a: Hash, b: Hash, m: Hash)
    requires NearestCommon(g, a, b, m)
    ensures Reach(g, a, m) && Reach(g, b, m)
  {
    var n :| Walk(g, b, n, m) && NoneNearer(g, a, b, n);
  }

  /** With merges in the history the order of the arguments does matter: no commit is nearest for both orders. */
  lemma OrderMatters(a: Hash, b: Hash, w: Hash, z: Hash, x: Hash, y: Hash)
    requires a !in {b, w, z, x, y} && b !in {w, z, x, y} && w !in {z, x, y} && z !in {x, y} && x != y
    ensures var g: Graph := map[a := [y, w], w := [x], b := [x, z], z := [y], x := [], y := []];
            && NearestCommon(g, a, b, x) && NearestCommon(g, b, a, y)
            && forall m :: !(NearestCommon(g, a, b, m) && NearestCommon(g, b, a, m))
  {
    var g: Graph := map[a := [y, w], w := [x], b := [x, z], z := [y], x := [], y := []];
    NearestOfTwo(g, a, b, w, x, {a, y, w, x});
    NearestOfTwo(g, b, a, z, y, {b, x, z, y});
    forall m
      ensures !(NearestCommon(g, a, b, m) && NearestCommon(g, b, a, m))
    {
      NeverBoth(g, a, b, x, y, m);
    }
  }

  lemma NeverBoth(g: Graph, a: Hash, b: Hash, x: Hash, y: Hash, m: Hash)
    requires NearestCommon(g, a, b, x) && x in Next(g, b) && NearestCommon(g, b, a, y) && y in Next(g, a)
    requires a != b && a !in Next(g, b) && b !in Next(g, a) && forall p :: p in Next(g, a) ==> p !in Next(g, b)
    ensures !(NearestCommon(g, a, b, m) && NearestCommon(g, b, a, m))
  {
    CommonOfBoth(g, a, b, x);
    CommonOfBoth(g, b, a, y);
    if NearestCommon(g, a, b, m) && NearestCommon(g, b, a, m) {
      NearestIsParent(g, a, b, x, m);
      NearestIsParent(g, b, a, y, m);
    }
  }

  /** Once a parent of `b` is common, nothing farther than a parent is nearest. */
  lemma NearestIsParent(g: Graph, a: Hash, b: Hash, p: Hash, m: Hash)
    requires p in Next(g, b) && Reach(g, a, p) && NearestCommon(g, a, b, m)
    ensures m == b || m in Next(g, b)
  {
    var n :| Walk(g, b, n, m) && NoneNearer(g, a, b, n);
    assert Walk(g, b, 0, b);
    WalkStep(g, b, 0, b, p);
    if n == 1 {
      var u :| Walk(g, b, 0, u) && m in Next(g, u);
    }
  }

  lemma NearestOfTwo(g: Graph, a: Hash, b: Hash, w: Hash, x: Hash, below: set<Hash>)
    requires w in Next(g, a) && x in Next(g, w) && x in Next(g, b)
    requires a in below && b !in below && Closing(g, below, [])
    ensures NearestCommon(g, a, b, x)
  {
    assert Walk(g, a, 0, a) && Walk(g, b, 0, b);
    WalkStep(g, a, 0, a, w);
    WalkStep(g, a, 1, w, x);
    WalkStep(g, b, 0, b, x);
    forall k: nat, v | Walk(g, b, k, v) && Reach(g, a, v)
      ensures 1 <= k
    {
      var n :| Walk(g, a, n, v);
      ClosedHolds(g, below, a, n, v);
    }
    assert NoneNearer(g, a, b, 1);
  }

  // Ancestors up to a depth.

  /** Every commit fewer than `most` hops away is stored. */
  ghost predicate CompleteWithin(g: Graph, start: Hash, most: nat) {
    forall d: nat, y :: d < most && Walk(g, start, d, y) ==> y in g
  }

  /** The listing gives the commits at distance 1 to `most`, each once, nearer ones first. */
  ghost predicate ListsWithin(g: Graph, start: Hash, most: nat, list: seq<Hash>) {
    && (forall i, j :: 0 <= i < j < |list| ==> list[i] != list[j])
    && (forall y :: y in list <==> exists d: nat :: 1 <= d <= most && Distance(g, start, d, y))
    && (forall i, j, d: nat, e: nat :: 0 <= i < j < |list| && Distance(g, start, d, list[i]) && Distance(g, start, e, list[j])
          ==> d <= e)
  }

  /** The queue holds the listed hashes from `p` on, with their depths; all listed hashes are visited. */
  ghost predicate Queued(queue: seq<(Hash, nat)>, visited: set<Hash>, order: seq<Hash>, depth: seq<nat>, p: nat) {
    && |order| == |depth| && p <= |order| && |queue| == |order| - p
    && (forall i :: 0 <= i < |queue| ==> queue[i] == (order[p + i], depth[p + i]))
    && forall y :: y in visited <==> y in order
  }

  lemma QueuedPop(queue: seq<(Hash, nat)>, visited: set<Hash>, order: seq<Hash>, depth: seq<nat>, p: nat)
    requires Queued(queue, visited, order, depth, p) && queue != []
    ensures queue[0] == (order[p], depth[p]) && Queued(queue[1..], visited, order, depth, p + 1)
  {}

  lemma QueuedPush(queue: seq<(Hash, nat)>, visited: set<Hash>, order: seq<Hash>, depth: seq<nat>, p: nat,
                   y: Hash, d: nat)
    requires Queued(queue, visited, order, depth, p)
    ensures Queued(queue + [(y, d)], visited + {y}, order + [y], depth + [d], p)
  {}

  /**
   * The search with depths: commits at the last depth are listed but not expanded, so expansion stops
   * at `head` while `p` commits have been taken from the queue.
   */
  ghost predicate Bounded(g: Graph, start: Hash, most: nat, order: seq<Hash>, depth: seq<nat>, head: nat, p: nat) {
    && Search(g, start, order, depth, head)
    && head <= p <= |order|
    && (head < p ==> depth[head] == most)
    && Shallow(g, most, order, depth, head)
  }

  /** What has been listed once `p` commits have left the queue: all but the start. */
  function Listed(order: seq<Hash>, p: nat): seq<Hash>
    requires p <= |order|
  {
    if p == 0 then [] else order[1..p]
  }

  /** The state of the search: `p` commits have left the queue for the listing. */
  ghost predicate Listing(g: Graph, start: Hash, most: nat, queue: seq<(Hash, nat)>, visited: set<Hash>,
                          result: seq<Hash>, order: seq<Hash>, depth: seq<nat>, head: nat, p: nat)
  {
    && Bounded(g, start, most, order, depth, head, p)
    && Queued(queue, visited, order, depth, p)
    && result == Listed(order, p)
  }

  method AncestorsWithinDepth(g: Graph, start: Hash, most: nat) returns (r: Result<seq<Hash>>)
    ensures r.Ok? <==> CompleteWithin(g, start, most)
    ensures r.Ok? ==> ListsWithin(g, start, most, r.value)
  {
    if most == 0 {
      NothingWithin(g, start);
      return Ok([]);
    }
    ghost var order, depth, head;
    r, order, depth, head := ListLoop(g, start, most);
    if r.Ok? {
      BoundedComplete(g, start, most, order, depth, head);
      BoundedLists(g, start, most, order, depth, head);
    } else {
      MissingWithin(g, start, most, order, depth, head);
    }
  }

  method ListLoop(g: Graph, start: Hash, most: nat)
    returns (r: Result<seq<Hash>>, ghost order: seq<Hash>, ghost depth: seq<nat>, ghost head: nat)
    requires most > 0
    ensures r.Ok? ==> Bounded(g, start, most, order, depth, head, |order|) && r.value == order[1..]
    ensures r.Err? ==> Search(g, start, order, depth, head)
    ensures r.Err? ==> head < |order| && depth[head] < most && order[head] !in g
  {
    var result: seq<Hash> := [];
    var queue, visited := [(start, 0)], {start};
    ghost var p;
    order, depth, head, p := [start], [0], 0, 0;
    ListingBegins(g, start, most);
    while queue != []
      invariant Listing(g, start, most, queue, visited, result, order, depth, head, p)
      decreases |Nodes(g, start)| - p
    {
      var (current, d) := queue[0];
      Taken(g, start, most, queue, visited, result, order, depth, head, p);
      queue := queue[1..];
      result := if d > 0 then result + [current] else result;
      p := p + 1;
      if d >= most {
        continue;
      }
      assert p == head + 1 && current == order[head] && d == depth[head];
      if current !in g {
        return Err(CommitNotFound(current)), order, depth, head;
      }
      queue, visited, order, depth :=
        PushDeeper(g, start, most, g[current], d, queue, visited, result, order, depth, head);
      head := head + 1;
    }
    AllTaken(g, start, most, queue, visited, order, depth, head, p, result);
    return Ok(result), order, depth, head;
  }

  lemma ListingBegins(g: Graph, start: Hash, most: nat)
    ensures Listing(g, start, most, [(start, 0)], {start}, [], [start], [0], 0, 0)
  {
    SearchBegins(g, start);
  }

  lemma Taken(g: Graph, start: Hash, most: nat, queue: seq<(Hash, nat)>, visited: set<Hash>,
              result: seq<Hash>, order: seq<Hash>, depth: seq<nat>, head: nat, p: nat)
    requires Listing(g, start, most, queue, visited, result, order, depth, head, p) && queue != []
    ensures p < |order| && queue[0] == (order[p], depth[p]) && p < |Nodes(g, start)|
    ensures var result' := if queue[0].1 > 0 then result + [queue[0].0] else result;
            if queue[0].1 >= most then
              Listing(g, start, most, queue[1..], visited, result', order, depth, head, p + 1)
            else
              head == p && Queued(queue[1..], visited, order, depth, p + 1) && result' == Listed(order, p + 1)
  {
    SearchBounded(g, start, order, depth, head);
    QueuedPop(queue, visited, order, depth, p);
    ListOne(g, start, order, depth, head, p);
    TakeOne(g, start, most, order, depth, head, p);
  }

  lemma NothingWithin(g: Graph, start: Hash)
    ensures CompleteWithin(g, start, 0) && ListsWithin(g, start, 0, [])
  {}

  lemma AllTaken(g: Graph, start: Hash, most: nat, queue: seq<(Hash, nat)>, visited: set<Hash>,
                 order: seq<Hash>, depth: seq<nat>, head: nat, p: nat, result: seq<Hash>)
    requires Listing(g, start, most, queue, visited, result, order, depth, head, p) && queue == []
    ensures Bounded(g, start, most, order, depth, head, |order|) && result == order[1..]
  {}

  /** Once a commit at the last depth is taken, only such commits follow. */
  lemma TakeOne(g: Graph, start: Hash, most: nat, order: seq<Hash>, depth: seq<nat>, head: nat, p: nat)
    requires Bounded(g, start, most, order, depth, head, p) && p < |order|
    ensures depth[p] >= most ==> Bounded(g, start, most, order, depth, head, p + 1)
    ensures depth[p] < most ==> head == p
  {}

  lemma ListOne(g: Graph, start: Hash, order: seq<Hash>, depth: seq<nat>, head: nat, p: nat)
    requires Search(g, start, order, depth, head) && p < |order|
    ensures Listed(order, p + 1) == if depth[p] > 0 then Listed(order, p) + [order[p]] else Listed(order, p)
  {
    OnlyStartIsFirst(g, start, order, depth, head, p);
  }

  lemma MissingWithin(g: Graph, start: Hash, most: nat, order: seq<Hash>, depth: seq<nat>, head: nat)
    requires Search(g, start, order, depth, head) && head < |order| && depth[head] < most && order[head] !in g
    ensures !CompleteWithin(g, start, most)
  {
    assert Walk(g, start, depth[head], order[head]);
  }

  lemma OnlyStartIsFirst(g: Graph, start: Hash, order: seq<Hash>, depth: seq<nat>, head: nat, p: nat)
    requires Search(g, start, order, depth, head) && p < |order|
    ensures depth[p] > 0 <==> p > 0
  {
    assert Walk(g, start, depth[p], order[p]);
    assert p > 0 ==> order[p] != order[0];
  }

  method PushDeeper(g: Graph, ghost start: Hash, ghost most: nat, next: seq<Hash>, d: nat,
                    queue: seq<(Hash, nat)>, visited: set<Hash>, ghost result: seq<Hash>,
                    ghost order: seq<Hash>, ghost depth: seq<nat>, ghost head: nat)
    returns (queue': seq<(Hash, nat)>, visited': set<Hash>, ghost order': seq<Hash>, ghost depth': seq<nat>)
    requires Bounded(g, start, most, order, depth, head, head) && head < |order|
    requires order[head] in g && next == g[order[head]] && d == depth[head] < most
    requires Queued(queue, visited, order, depth, head + 1) && result == Listed(order, head + 1)
    ensures Listing(g, start, most, queue', visited', result, order', depth', head + 1, head + 1)
  {
    queue', visited', order', depth' := queue, visited, order, depth;
    for k := 0 to |next|
      invariant order <= order' && depth <= depth'
      invariant Pushing(g, start, most, queue', visited', order', depth', head, k)
    {
      assert order'[head] == order[head] && depth'[head] == d;
      if next[k] !in visited' {
        PushNew(g, start, most, queue', visited', order', depth', head, k, next[k], d);
        visited' := visited' + {next[k]};
        queue' := queue' + [(next[k], d + 1)];
        order', depth' := order' + [next[k]], depth' + [d + 1];
      } else {
        PushOld(g, start, most, queue', visited', order', depth', head, k, next[k]);
      }
    }
    PushedDeeper(g, start, most, queue', visited', order', depth', head);
    ListedPrefix(order, order', head + 1);
  }

  lemma PushedDeeper(g: Graph, start: Hash, most: nat, queue: seq<(Hash, nat)>, visited: set<Hash>,
                     order: seq<Hash>, depth: seq<nat>, head: nat)
    requires head < |order| && Pushing(g, start, most, queue, visited, order, depth, head, |Next(g, order[head])|)
    ensures Bounded(g, start, most, order, depth, head + 1, head + 1)
    ensures Queued(queue, visited, order, depth, head + 1)
  {
    ExpandDone(g, start, order, depth, head);
  }

  lemma ListedPrefix(order: seq<Hash>, order': seq<Hash>, p: nat)
    requires p <= |order| && order <= order'
    ensures Listed(order', p) == Listed(order, p)
  {}

  ghost predicate Pushing(g: Graph, start: Hash, most: nat, queue: seq<(Hash, nat)>, visited: set<Hash>,
                          order: seq<Hash>, depth: seq<nat>, head: nat, k: nat)
  {
    && Expanding(g, start, order, depth, head, k)
    && Shallow(g, most, order, depth, head + 1)
    && Queued(queue, visited, order, depth, head + 1)
  }

  /** No depth exceeds the bound, and what is expanded lies above it. */
  ghost predicate Shallow(g: Graph, most: nat, order: seq<Hash>, depth: seq<nat>, n: nat)
    requires n <= |order| == |depth|
  {
    && (forall i :: 0 <= i < |depth| ==> depth[i] <= most)
    && (forall i :: 0 <= i < n ==> depth[i] < most && order[i] in g)
  }

  lemma ShallowGrows(g: Graph, most: nat, order: seq<Hash>, depth: seq<nat>, n: nat, y: Hash, d: nat)
    requires n <= |order| == |depth| && Shallow(g, most, order, depth, n) && d <= most
    ensures Shallow(g, most, order + [y], depth + [d], n)
  {}

  lemma PushOld(g: Graph, start: Hash, most: nat, queue: seq<(Hash, nat)>, visited: set<Hash>,
                order: seq<Hash>, depth: seq<nat>, head: nat, k: nat, y: Hash)
    requires Pushing(g, start, most, queue, visited, order, depth, head, k) && k < |Next(g, order[head])|
    requires y == Next(g, order[head])[k] && y in visited
    ensures Pushing(g, start, most, queue, visited, order, depth, head, k + 1)
  {
    ExpandOld(g, start, order, depth, head, k, y);
  }

  lemma PushNew(g: Graph, start: Hash, most: nat, queue: seq<(Hash, nat)>, visited: set<Hash>,
                order: seq<Hash>, depth: seq<nat>, head: nat, k: nat, y: Hash, d: nat)
    requires Pushing(g, start, most, queue, visited, order, depth, head, k) && k < |Next(g, order[head])|
    requires y == Next(g, order[head])[k] && y !in visited && d == depth[head]
    ensures Pushing(g, start, most, queue + [(y, d + 1)], visited + {y}, order + [y], depth + [d + 1], head, k + 1)
  {
    ExpandNew(g, start, order, depth, head, k, y, d + 1);
    ShallowGrows(g, most, order, depth, head + 1, y, d + 1);
    QueuedPush(queue, visited, order, depth, head + 1, y, d + 1);
  }

  lemma BoundedComplete(g: Graph, start: Hash, most: nat, order: seq<Hash>, depth: seq<nat>, head: nat)
    requires Bounded(g, start, most, order, depth, head, |order|)
    ensures CompleteWithin(g, start, most)
  {
    forall d: nat, y | d < most && Walk(g, start, d, y)
      ensures y in g
    {
      SearchComplete(g, start, order, depth, head, d, y);
      var i :| 0 <= i < |order| && order[i] == y && depth[i] <= d;
    }
  }

  lemma BoundedMember(g: Graph, start: Hash, most: nat, order: seq<Hash>, depth: seq<nat>, head: nat, y: Hash)
    requires Bounded(g, start, most, order, depth, head, |order|)
    ensures y in order[1..] <==> exists d: nat :: 1 <= d <= most && Distance(g, start, d, y)
  {
    var list := order[1..];
    if y in list {
      var i :| 0 <= i < |list| && list[i] == y;
      SearchDistance(g, start, order, depth, head, i + 1);
      OnlyStartIsFirst(g, start, order, depth, head, i + 1);
      assert 1 <= depth[i + 1] <= most && Distance(g, start, depth[i + 1], y);
    }
    if d: nat :| 1 <= d <= most && Distance(g, start, d, y) {
      SearchComplete(g, start, order, depth, head, d, y);
      var i :| 0 <= i < |order| && order[i] == y && depth[i] <= d;
      NotSelf(g, start, d, y);
      assert list[i - 1] == y;
    }
  }

  lemma NotSelf(g: Graph, start: Hash, d: nat, y: Hash)
    requires Distance(g, start, d, y) && d >= 1
    ensures y != start
  {
    assert Walk(g, start, 0, start);
  }

  lemma BoundedLists(g: Graph, start: Hash, most: nat, order: seq<Hash>, depth: seq<nat>, head: nat)
    requires Bounded(g, start, most, order, depth, head, |order|)
    ensures ListsWithin(g, start, most, order[1..])
  {
    var list := order[1..];
    forall y
      ensures y in list <==> exists d: nat :: 1 <= d <= most && Distance(g, start, d, y)
    {
      BoundedMember(g, start, most, order, depth, head, y);
    }
    forall i, j, d: nat, e: nat |
      0 <= i < j < |list| && Distance(g, start, d, list[i]) && Distance(g, start, e, list[j])
      ensures d <= e
    {
      SearchDistance(g, start, order, depth, head, i + 1);
      SearchDistance(g, start, order, depth, head, j + 1);
    }
  }
}
