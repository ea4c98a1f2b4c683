/** A MATCH clause, from the branch tips and the context commit to the rows of all its patterns. */
module MatchClauses {
  import opened Bytes
  import opened Walks
  import opened Dag
  import opened Traversal
  import opened Patterns

  // The clause in terms of the parent graph alone.

  /** The commits a pattern may start at: ancestors of the context, and what the branches reach. */
  ghost predicate InUniverse(g: Graph, tips: seq<Hash>, context: Hash, x: Hash) {
    Reach(g, context, x) || FromTips(g, tips, x)
  }

  /** An edge of `n` hops: toward the root over parents, away from it to a descendant that a branch reaches. */
  ghost predicate Joins(edge: Edge, g: Graph, tips: seq<Hash>, x: Hash, n: nat, y: Hash) {
    && HopBounds(edge).0 <= n <= HopBounds(edge).1
    && if TowardRoot(edge) then Walk(g, x, n, y) else FromTips(g, tips, y) && Walk(g, y, n, x)
  }

  ghost predicate Related(edge: Edge, g: Graph, tips: seq<Hash>, x: Hash, y: Hash) {
    y != x && exists n: nat :: Joins(edge, g, tips, x, n, y)
  }

  ghost predicate AllRelated(g: Graph, tips: seq<Hash>, elements: seq<Element>, k: nat, chain: seq<Hash>)
    requires Alternates(elements, k) && |chain| == k + 1
  {
    forall j :: 0 <= j < k ==> Related(EdgeAt(elements, j), g, tips, chain[j], chain[j + 1])
  }

  ghost predicate Matched(g: Graph, tips: seq<Hash>, context: Hash, elements: seq<Element>, k: nat, chain: seq<Hash>) {
    && Alternates(elements, k) && |chain| == k + 1
    && InUniverse(g, tips, context, chain[0])
    && Passes(elements, k, chain) && AllRelated(g, tips, elements, k, chain) && Agrees(elements, chain)
  }

  /** No filter fails on a commit that it is asked about. */
  ghost predicate Evaluates(g: Graph, tips: seq<Hash>, context: Hash, elements: seq<Element>, k: nat)
    requires Alternates(elements, k)
  {
    && (forall y :: InUniverse(g, tips, context, y) ==> NodeAt(elements, 0).accepts(y).Ok?)
    && (forall j, chain :: 0 <= j < k && Matched(g, tips, context, elements, j, chain) ==>
          forall y :: Related(EdgeAt(elements, j), g, tips, chain[j], y) ==> NodeAt(elements, j + 1).accepts(y).Ok?)
  }

  ghost predicate Sensible(g: Graph, tips: seq<Hash>, context: Hash, elements: seq<Element>) {
    elements != [] ==>
      var k := (|elements| - 1) / 2;
      Alternates(elements, k) && Evaluates(g, tips, context, elements, k)
  }

  /** The rows are the bindings of the matching chains, one for one. */
  ghost predicate RowsMatched(g: Graph, tips: seq<Hash>, context: Hash, elements: seq<Element>, rows: seq<Row>,
                              chains: seq<seq<Hash>>)
  {
    && RowsOf(elements, rows, chains) && Distinct(rows)
    && forall c :: c in chains <==> elements != [] && Matched(g, tips, context, elements, (|elements| - 1) / 2, c)
  }

  function Concat(parts: seq<seq<Row>>): seq<Row> {
    if parts == [] then [] else Concat(parts[..|parts| - 1]) + parts[|parts| - 1]
  }

  // The graphs the program builds say the same.

  /** Parents, children over the commits of the branches, and the universe. */
  ghost predicate Built(g: Graph, tips: seq<Hash>, context: Hash, commits: set<Hash>, gs: Graphs, universe: set<Hash>) {
    && gs.parents == g && ChildrenOf(g, commits, gs.children) && commits <= g.Keys
    && (forall y :: y in commits <==> FromTips(g, tips, y))
    && (forall y :: y in universe <==> InUniverse(g, tips, context, y))
    && Complete(g, context)
  }

  lemma HopIsRelated(g: Graph, tips: seq<Hash>, context: Hash, commits: set<Hash>, gs: Graphs, universe: set<Hash>,
                     edge: Edge, x: Hash, y: Hash)
    requires Built(g, tips, context, commits, gs, universe)
    ensures Hop(edge, gs.parents, gs.children, x, y) <==> Related(edge, g, tips, x, y)
  {
    if TowardRoot(edge) {
      assert forall n: nat :: Joins(edge, g, tips, x, n, y) <==>
        HopBounds(edge).0 <= n <= HopBounds(edge).1 && Walk(EdgeGraph(edge, gs.parents, gs.children), x, n, y);
    } else {
      TipsClosed(g, tips, commits);
      ChildHop(edge, g, commits, gs.children, x, y);
      if Hop(edge, gs.parents, gs.children, x, y) {
        var n: nat :| HopBounds(edge).0 <= n <= HopBounds(edge).1 && Walk(g, y, n, x);
        assert Joins(edge, g, tips, x, n, y);
      } else if Related(edge, g, tips, x, y) {
        var n: nat :| Joins(edge, g, tips, x, n, y);
        assert y in commits && Walk(g, y, n, x);
        assert false;
      }
    }
  }

  lemma ChainIsMatched(g: Graph, tips: seq<Hash>, context: Hash, commits: set<Hash>, gs: Graphs, universe: set<Hash>,
                       elements: seq<Element>, k: nat, chain: seq<Hash>)
    requires Built(g, tips, context, commits, gs, universe)
    ensures IsChain(gs, elements, universe, k, chain) <==> Matched(g, tips, context, elements, k, chain)
  {
    if Alternates(elements, k) && |chain| == k + 1 {
      forall j | 0 <= j < k
        ensures Hop(EdgeAt(elements, j), gs.parents, gs.children, chain[j], chain[j + 1])
                <==> Related(EdgeAt(elements, j), g, tips, chain[j], chain[j + 1])
      {
        HopIsRelated(g, tips, context, commits, gs, universe, EdgeAt(elements, j), chain[j], chain[j + 1]);
      }
    }
  }

  lemma BuiltCovers(g: Graph, tips: seq<Hash>, context: Hash, commits: set<Hash>, gs: Graphs, universe: set<Hash>)
    requires Built(g, tips, context, commits, gs, universe)
    ensures Covers(gs, universe)
  {
    TipsClosed(g, tips, commits);
    forall x, y | x in universe && y in Next(g, x)
      ensures y in universe
    {
      if x !in commits {
        ReachNeighbours(g, context, x);
      }
    }
  }

  lemma StuckIsFailing(g: Graph, tips: seq<Hash>, context: Hash, commits: set<Hash>, gs: Graphs, universe: set<Hash>,
                       elements: seq<Element>, k: nat, x: Hash)
    requires Built(g, tips, context, commits, gs, universe) && Alternates(elements, k + 1) && x in universe
    ensures Stuck(gs, elements, k, x) <==>
              exists y :: Related(EdgeAt(elements, k), g, tips, x, y) && NodeAt(elements, k + 1).accepts(y).Err?
  {
    BuiltCovers(g, tips, context, commits, gs, universe);
    HopStays(gs, universe, EdgeAt(elements, k), x);
    forall y
      ensures Hop(EdgeAt(elements, k), gs.parents, gs.children, x, y) <==> Related(EdgeAt(elements, k), g, tips, x, y)
    {
      HopIsRelated(g, tips, context, commits, gs, universe, EdgeAt(elements, k), x, y);
    }
  }

  lemma AnswerableIsEvaluates(g: Graph, tips: seq<Hash>, context: Hash, commits: set<Hash>, gs: Graphs,
                              universe: set<Hash>, elements: seq<Element>, k: nat)
    requires Built(g, tips, context, commits, gs, universe) && Alternates(elements, k)
    ensures Answerable(gs, elements, universe, k) <==> Evaluates(g, tips, context, elements, k)
  {
    BuiltCovers(g, tips, context, commits, gs, universe);
    forall j, chain | 0 <= j < k
      ensures IsChain(gs, elements, universe, j, chain) <==> Matched(g, tips, context, elements, j, chain)
      ensures IsChain(gs, elements, universe, j, chain) ==>
                (Stuck(gs, elements, j, chain[j]) <==>
                 exists y :: Related(EdgeAt(elements, j), g, tips, chain[j], y) && NodeAt(elements, j + 1).accepts(y).Err?)
    {
      ChainIsMatched(g, tips, context, commits, gs, universe, elements, j, chain);
      if IsChain(gs, elements, universe, j, chain) {
        ChainStays(gs, elements, universe, j, chain, j);
        StuckIsFailing(g, tips, context, commits, gs, universe, elements, j, chain[j]);
      }
    }
  }

  // The executor.

  /** One pattern, over the graphs built for the clause. */
  method MatchOne(g: Graph, gs: Graphs, universe: set<Hash>, elements: seq<Element>,
                  ghost tips: seq<Hash>, ghost context: Hash, ghost commits: set<Hash>)
    returns (r: Result<seq<Row>>, ghost chains: seq<seq<Hash>>)
    requires Built(g, tips, context, commits, gs, universe)
    ensures r.Ok? <==> Sensible(g, tips, context, elements)
    ensures r.Ok? ==> RowsMatched(g, tips, context, elements, r.value, chains)
  {
    r, chains := MatchPattern(gs, elements, universe);
    if elements != [] {
      ghost var k := (|elements| - 1) / 2;
      if Alternates(elements, k) {
        AnswerableIsEvaluates(g, tips, context, commits, gs, universe, elements, k);
      }
      forall c
        ensures IsChain(gs, elements, universe, k, c) <==> Matched(g, tips, context, elements, k, c)
      {
        ChainIsMatched(g, tips, context, commits, gs, universe, elements, k, c);
      }
    }
  }

  /** The rows of the patterns, one pattern after the other. */
  ghost predicate AllMatched(g: Graph, tips: seq<Hash>, context: Hash, patterns: seq<seq<Element>>, rows: seq<Row>,
                             parts: seq<seq<Row>>, chains: seq<seq<seq<Hash>>>)
  {
    && rows == Concat(parts) && |parts| == |chains| == |patterns|
    && forall i :: 0 <= i < |patterns| ==> RowsMatched(g, tips, context, patterns[i], parts[i], chains[i])
  }

  method MatchAll(g: Graph, gs: Graphs, universe: set<Hash>, patterns: seq<seq<Element>>,
                  ghost tips: seq<Hash>, ghost context: Hash, ghost commits: set<Hash>)
    returns (r: Result<seq<Row>>, ghost parts: seq<seq<Row>>, ghost chains: seq<seq<seq<Hash>>>)
    requires Built(g, tips, context, commits, gs, universe)
    ensures r.Ok? <==> forall i :: 0 <= i < |patterns| ==> Sensible(g, tips, context, patterns[i])
    ensures r.Ok? ==> AllMatched(g, tips, context, patterns, r.value, parts, chains)
  {
    var rows: seq<Row> := [];
    parts, chains := [], [];
    for i := 0 to |patterns|
      invariant forall j :: 0 <= j < i ==> Sensible(g, tips, context, patterns[j])
      invariant AllMatched(g, tips, context, patterns[..i], rows, parts, chains)
    {
      var some;
      ghost var found;
      some, found := MatchOne(g, gs, universe, patterns[i], tips, context, commits);
      if some.Err? {
        return Err(some.error), parts, chains;
      }
      rows := rows + some.value;
      assert (parts + [some.value])[..i] == parts;
      parts, chains := parts + [some.value], chains + [found];
    }
    assert patterns[..|patterns|] == patterns;
    return Ok(rows), parts, chains;
  }

  /** It succeeds exactly on complete histories and sensible patterns. */
  method ExecMatch(g: Graph, tips: seq<Hash>, context: Hash, patterns: seq<seq<Element>>)
    returns (r: Result<seq<Row>>, ghost parts: seq<seq<Row>>, ghost chains: seq<seq<seq<Hash>>>)
    ensures r.Ok? <==>
              && Complete(g, context) && AllComplete(g, tips)
              && forall i :: 0 <= i < |patterns| ==> Sensible(g, tips, context, patterns[i])
    ensures r.Ok? ==> AllMatched(g, tips, context, patterns, r.value, parts, chains)
  {
    var ancestors := CollectAncestors(g, context);
    if ancestors.Err? {
      return Err(ancestors.error), [], [];
    }
    var commits := ReachableCommits(g, tips);
    if commits.Err? {
      return Err(commits.error), [], [];
    }
    var children := ChildrenMap(g, commits.value);
    r, parts, chains :=
      MatchAll(g, Graphs(g, children), ancestors.value + commits.value, patterns, tips, context, commits.value);
  }

  /** Filters that work on every commit of the universe are never asked in vain. */
  lemma WorkingFilters(g: Graph, tips: seq<Hash>, context: Hash, elements: seq<Element>, k: nat)
    requires Alternates(elements, k)
    requires forall j, y :: 0 <= j <= k && InUniverse(g, tips, context, y) ==> NodeAt(elements, j).accepts(y).Ok?
    ensures Evaluates(g, tips, context, elements, k)
  {
    forall j, chain, y | 0 <= j < k && Matched(g, tips, context, elements, j, chain)
      && Related(EdgeAt(elements, j), g, tips, chain[j], y)
      ensures NodeAt(elements, j + 1).accepts(y).Ok?
    {
      MatchedStays(g, tips, context, elements, j, chain, j);
      RelatedStays(g, tips, context, EdgeAt(elements, j), chain[j], y);
    }
  }

  lemma RelatedStays(g: Graph, tips: seq<Hash>, context: Hash, edge: Edge, x: Hash, y: Hash)
    requires InUniverse(g, tips, context, x) && Related(edge, g, tips, x, y)
    ensures InUniverse(g, tips, context, y)
  {
    if TowardRoot(edge) {
      var n: nat :| Joins(edge, g, tips, x, n, y);
      assert Reach(g, x, y);
      if Reach(g, context, x) {
        ReachTransitive(g, context, x, y);
      } else {
        var i :| 0 <= i < |tips| && Reach(g, tips[i], x);
        ReachTransitive(g, tips[i], x, y);
      }
    }
  }

  lemma {:induction false} RelatedChain(g: Graph, tips: seq<Hash>, context: Hash, elements: seq<Element>, k: nat,
                                        chain: seq<Hash>, j: nat)
    requires Alternates(elements, k) && |chain| == k + 1 && AllRelated(g, tips, elements, k, chain) && j <= k
    requires InUniverse(g, tips, context, chain[0])
    ensures InUniverse(g, tips, context, chain[j])
  {
    if j > 0 {
      RelatedChain(g, tips, context, elements, k, chain, j - 1);
      assert Related(EdgeAt(elements, j - 1), g, tips, chain[j - 1], chain[j - 1 + 1]);
      RelatedStays(g, tips, context, EdgeAt(elements, j - 1), chain[j - 1], chain[j]);
    }
  }

  lemma MatchedStays(g: Graph, tips: seq<Hash>, context: Hash, elements: seq<Element>, k: nat, chain: seq<Hash>, j: nat)
    requires Matched(g, tips, context, elements, k, chain) && j <= k
    ensures InUniverse(g, tips, context, chain[j])
  {
    RelatedChain(g, tips, context, elements, k, chain, j);
  }

  /** Without a clash of names, a match is what the pattern says. */
  lemma MatchMeaning(g: Graph, tips: seq<Hash>, context: Hash, elements: seq<Element>, k: nat, chain: seq<Hash>)
    requires Alternates(elements, k) && NoClash(elements, k)
    ensures Matched(g, tips, context, elements, k, chain) <==>
              && |chain| == k + 1 && InUniverse(g, tips, context, chain[0])
              && Passes(elements, k, chain) && AllRelated(g, tips, elements, k, chain)
              && VariablesAgree(elements, k, chain)
  {
    if |chain| == k + 1 {
      ClearAgrees(elements, k, chain);
    }
  }

  // What the edges of a pattern mean.

  /** A walk over parents of `lo` to `hi` hops. */
  ghost predicate WalkWithin(g: Graph, x: Hash, lo: nat, hi: nat, y: Hash) {
    exists n: nat :: lo <= n <= hi && Walk(g, x, n, y)
  }

  /** Upwards: to another commit over parents. */
  ghost predicate Up(g: Graph, x: Hash, lo: nat, hi: nat, y: Hash) {
    y != x && WalkWithin(g, x, lo, hi, y)
  }

  /** Downwards: to another commit on a branch that leads back over parents. */
  ghost predicate Down(g: Graph, tips: seq<Hash>, x: Hash, lo: nat, hi: nat, y: Hash) {
    y != x && FromTips(g, tips, y) && WalkWithin(g, y, lo, hi, x)
  }

  lemma UpIsRelated(edge: Edge, g: Graph, tips: seq<Hash>, x: Hash, lo: nat, hi: nat, y: Hash)
    requires TowardRoot(edge) && HopBounds(edge) == (lo, hi)
    ensures Related(edge, g, tips, x, y) <==> Up(g, x, lo, hi, y)
  {
    if n: nat :| Joins(edge, g, tips, x, n, y) {
      assert Walk(g, x, n, y);
    }
    if n: nat :| lo <= n <= hi && Walk(g, x, n, y) {
      assert Joins(edge, g, tips, x, n, y);
    }
  }

  lemma DownIsRelated(edge: Edge, g: Graph, tips: seq<Hash>, x: Hash, lo: nat, hi: nat, y: Hash)
    requires !TowardRoot(edge) && HopBounds(edge) == (lo, hi)
    ensures Related(edge, g, tips, x, y) <==> Down(g, tips, x, lo, hi, y)
  {
    if n: nat :| Joins(edge, g, tips, x, n, y) {
      assert Walk(g, y, n, x);
    }
    if n: nat :| FromTips(g, tips, y) && lo <= n <= hi && Walk(g, y, n, x) {
      assert Joins(edge, g, tips, x, n, y);
    }
  }

  lemma OneHop(g: Graph, x: Hash, y: Hash)
    ensures WalkWithin(g, x, 1, 1, y) <==> y in Next(g, x)
  {
    if y in Next(g, x) {
      assert Walk(g, x, 0, x);
      WalkStep(g, x, 0, x, y);
    }
    if n: nat :| 1 <= n <= 1 && Walk(g, x, n, y) {
      var z := WalkBefore(g, x, 0, y);
    }
  }

  /** Edges without a multiplier: a parent, a child, an ancestor or a descendant up to 64 hops away. */
  lemma PlainEdges(g: Graph, tips: seq<Hash>, x: Hash, y: Hash)
    ensures Related(Edge(Parent, None), g, tips, x, y) <==> y != x && y in Next(g, x)
    ensures Related(Edge(Child, None), g, tips, x, y) <==> y != x && FromTips(g, tips, y) && x in Next(g, y)
    ensures Related(Edge(Ancestor, None), g, tips, x, y) <==> Up(g, x, 1, 64, y)
    ensures Related(Edge(Descendant, None), g, tips, x, y) <==> Down(g, tips, x, 1, 64, y)
  {
    OneHop(g, x, y);
    OneHop(g, y, x);
    UpIsRelated(Edge(Parent, None), g, tips, x, 1, 1, y);
    DownIsRelated(Edge(Child, None), g, tips, x, 1, 1, y);
    UpIsRelated(Edge(Ancestor, None), g, tips, x, 1, 64, y);
    DownIsRelated(Edge(Descendant, None), g, tips, x, 1, 64, y);
  }

  /** Multipliers of edges to parents and ancestors. */
  lemma UpwardEdges(up: EdgeType, g: Graph, tips: seq<Hash>, x: Hash, a: nat, b: nat, y: Hash)
    requires up == Parent || up == Ancestor
    ensures Related(Edge(up, Some(Any)), g, tips, x, y) <==> Up(g, x, 1, 64, y)
    ensures Related(Edge(up, Some(Exact(a))), g, tips, x, y) <==> Up(g, x, a, a, y)
    ensures Related(Edge(up, Some(Range(Some(a), Some(b)))), g, tips, x, y) <==> Up(g, x, a, b, y)
    ensures Related(Edge(up, Some(Range(None, Some(b)))), g, tips, x, y) <==> Up(g, x, 1, b, y)
    ensures Related(Edge(up, Some(Range(Some(a), None))), g, tips, x, y) <==> Up(g, x, a, 64, y)
    ensures Related(Edge(up, Some(Range(None, None))), g, tips, x, y) <==> Up(g, x, 1, 64, y)
  {
    UpIsRelated(Edge(up, Some(Any)), g, tips, x, 1, 64, y);
    UpIsRelated(Edge(up, Some(Exact(a))), g, tips, x, a, a, y);
    UpIsRelated(Edge(up, Some(Range(Some(a), Some(b)))), g, tips, x, a, b, y);
    UpIsRelated(Edge(up, Some(Range(None, Some(b)))), g, tips, x, 1, b, y);
    UpIsRelated(Edge(up, Some(Range(Some(a), None))), g, tips, x, a, 64, y);
    UpIsRelated(Edge(up, Some(Range(None, None))), g, tips, x, 1, 64, y);
  }

  /** Multipliers of edges to children and descendants. */
  lemma DownwardEdges(down: EdgeType, g: Graph, tips: seq<Hash>, x: Hash, a: nat, b: nat, y: Hash)
    requires down == Child || down == Descendant
    ensures Related(Edge(down, Some(Any)), g, tips, x, y) <==> Down(g, tips, x, 1, 64, y)
    ensures Related(Edge(down, Some(Exact(a))), g, tips, x, y) <==> Down(g, tips, x, a, a, y)
    ensures Related(Edge(down, Some(Range(Some(a), Some(b)))), g, tips, x, y) <==> Down(g, tips, x, a, b, y)
    ensures Related(Edge(down, Some(Range(None, Some(b)))), g, tips, x, y) <==> Down(g, tips, x, 1, b, y)
    ensures Related(Edge(down, Some(Range(Some(a), None))), g, tips, x, y) <==> Down(g, tips, x, a, 64, y)
    ensures Related(Edge(down, Some(Range(None, None))), g, tips, x, y) <==> Down(g, tips, x, 1, 64, y)
  {
    DownIsRelated(Edge(down, Some(Any)), g, tips, x, 1, 64, y);
    DownIsRelated(Edge(down, Some(Exact(a))), g, tips, x, a, a, y);
    DownIsRelated(Edge(down, Some(Range(Some(a), Some(b)))), g, tips, x, a, b, y);
    DownIsRelated(Edge(down, Some(Range(None, Some(b)))), g, tips, x, 1, b, y);
    DownIsRelated(Edge(down, Some(Range(Some(a), None))), g, tips, x, a, 64, y);
    DownIsRelated(Edge(down, Some(Range(None, None))), g, tips, x, 1, 64, y);
  }
}
