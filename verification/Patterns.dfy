/** MATCH patterns: the row-building executor against the chains of commits a pattern describes. */
module Patterns {
  import opened Bytes
  import opened Walks
  import opened Dag
  import opened Traversal

  /** A node pattern; `accepts` is its property filter evaluated on a commit. */
  datatype NodePattern = NodePattern(variable: Option<string>, accepts: Hash -> Result<bool>)

  datatype Element = Node(node: NodePattern) | Link(edge: Edge)

  /** Variables bound to commits. */
  type Row = map<string, Hash>

  datatype Graphs = Graphs(parents: Graph, children: Graph)

  function Digits(n: nat): string {
    if n < 10 then [('0' as int + n) as char] else Digits(n / 10) + [('0' as int + n % 10) as char]
  }

  /** The name a node is bound to: its variable, or a name generated from its place. */
  function NameOf(elements: seq<Element>, i: nat): string {
    if i < |elements| && elements[i].Node? && elements[i].node.variable.Some?
    then elements[i].node.variable.value
    else "_" + Digits(i)
  }

  /** Nodes and edges alternate, starting with a node, up to and including node number `k`. */
  predicate Alternates(elements: seq<Element>, k: nat) {
    2 * k < |elements| && forall i :: 0 <= i <= 2 * k ==> (elements[i].Node? <==> i % 2 == 0)
  }

  function NodeAt(elements: seq<Element>, j: nat): NodePattern
    requires 2 * j < |elements| && elements[2 * j].Node?
  {
    elements[2 * j].node
  }

  function EdgeAt(elements: seq<Element>, j: nat): Edge
    requires 2 * j + 1 < |elements| && elements[2 * j + 1].Link?
  {
    elements[2 * j + 1].edge
  }

  /** No two positions with the same name hold different commits. */
  ghost predicate Agrees(elements: seq<Element>, chain: seq<Hash>) {
    forall i, j :: 0 <= i < j < |chain| && NameOf(elements, 2 * i) == NameOf(elements, 2 * j) ==> chain[i] == chain[j]
  }

  ghost predicate Passes(elements: seq<Element>, k: nat, chain: seq<Hash>)
    requires Alternates(elements, k) && |chain| == k + 1
  {
    forall j :: 0 <= j <= k ==> NodeAt(elements, j).accepts(chain[j]) == Ok(true)
  }

  ghost predicate Links(gs: Graphs, elements: seq<Element>, k: nat, chain: seq<Hash>)
    requires Alternates(elements, k) && |chain| == k + 1
  {
    forall j :: 0 <= j < k ==> Hop(EdgeAt(elements, j), gs.parents, gs.children, chain[j], chain[j + 1])
  }

  /**
   * What the first `k + 1` nodes of a pattern describe: commits that pass the filters, consecutive ones
   * joined by a permitted walk, the same commit wherever a name is repeated.
   */
  ghost predicate IsChain(gs: Graphs, elements: seq<Element>, universe: set<Hash>, k: nat, chain: seq<Hash>) {
    && Alternates(elements, k) && |chain| == k + 1
    && chain[0] in universe
    && Passes(elements, k, chain) && Links(gs, elements, k, chain) && Agrees(elements, chain)
  }

  /** The bindings of a chain. */
  function RowOf(elements: seq<Element>, chain: seq<Hash>): Row {
    if chain == [] then map[] else
      var last := |chain| - 1;
      RowOf(elements, chain[..last])[NameOf(elements, 2 * last) := chain[last]]
  }

  lemma {:induction false} RowLookup(elements: seq<Element>, chain: seq<Hash>, j: nat)
    requires Agrees(elements, chain) && j < |chain|
    ensures NameOf(elements, 2 * j) in RowOf(elements, chain)
    ensures RowOf(elements, chain)[NameOf(elements, 2 * j)] == chain[j]
    decreases |chain|
  {
    var last := |chain| - 1;
    if j < last {
      RowLookup(elements, chain[..last], j);
    }
  }

  lemma {:induction false} RowNames(elements: seq<Element>, chain: seq<Hash>, name: string)
    requires name in RowOf(elements, chain)
    ensures exists j :: 0 <= j < |chain| && NameOf(elements, 2 * j) == name
    decreases |chain|
  {
    var last := |chain| - 1;
    if NameOf(elements, 2 * last) != name {
      RowNames(elements, chain[..last], name);
      var j :| 0 <= j < |chain[..last]| && NameOf(elements, 2 * j) == name;
    }
  }

  /** A row determines its chain. */
  lemma RowInjective(elements: seq<Element>, c: seq<Hash>, d: seq<Hash>)
    requires Agrees(elements, c) && Agrees(elements, d) && |c| == |d|
    requires RowOf(elements, c) == RowOf(elements, d)
    ensures c == d
  {
    forall j | 0 <= j < |c|
      ensures c[j] == d[j]
    {
      RowLookup(elements, c, j);
      RowLookup(elements, d, j);
    }
  }

  /** The new commit does not conflict with an earlier binding of its name. */
  predicate Fits(elements: seq<Element>, chain: seq<Hash>, y: Hash) {
    var row, name := RowOf(elements, chain), NameOf(elements, 2 * |chain|);
    name in row ==> row[name] == y
  }

  /** The commits that extend a chain of `k + 1` commits by the next edge and node. */
  ghost predicate Extension(gs: Graphs, elements: seq<Element>, k: nat, chain: seq<Hash>, y: Hash)
    requires Alternates(elements, k + 1) && |chain| == k + 1
  {
    && Hop(EdgeAt(elements, k), gs.parents, gs.children, chain[k], y)
    && NodeAt(elements, k + 1).accepts(y) == Ok(true)
    && Fits(elements, chain, y)
  }

  /** Extending a chain by one edge and one node. */
  lemma ChainStep(gs: Graphs, elements: seq<Element>, universe: set<Hash>, k: nat, chain: seq<Hash>, y: Hash)
    requires Alternates(elements, k + 1) && |chain| == k + 1
    ensures IsChain(gs, elements, universe, k + 1, chain + [y]) <==>
              IsChain(gs, elements, universe, k, chain) && Extension(gs, elements, k, chain, y)
  {
    if IsChain(gs, elements, universe, k + 1, chain + [y]) {
      ChainSplit(gs, elements, universe, k, chain, y);
    }
    if IsChain(gs, elements, universe, k, chain) && Extension(gs, elements, k, chain, y) {
      ChainJoin(gs, elements, universe, k, chain, y);
    }
  }

  lemma ChainSplit(gs: Graphs, elements: seq<Element>, universe: set<Hash>, k: nat, chain: seq<Hash>, y: Hash)
    requires Alternates(elements, k + 1) && |chain| == k + 1
    requires IsChain(gs, elements, universe, k + 1, chain + [y])
    ensures IsChain(gs, elements, universe, k, chain) && Extension(gs, elements, k, chain, y)
  {
    PassesPrefix(elements, k, chain, y);
    LinksPrefix(gs, elements, k, chain, y);
    AgreesPrefix(elements, chain, y);
    FitsIff(elements, chain, y);
  }

  lemma ChainJoin(gs: Graphs, elements: seq<Element>, universe: set<Hash>, k: nat, chain: seq<Hash>, y: Hash)
    requires Alternates(elements, k + 1) && IsChain(gs, elements, universe, k, chain)
    requires Extension(gs, elements, k, chain, y)
    ensures IsChain(gs, elements, universe, k + 1, chain + [y])
  {
    PassesPrefix(elements, k, chain, y);
    LinksPrefix(gs, elements, k, chain, y);
    FitsIff(elements, chain, y);
  }

  lemma PassesPrefix(elements: seq<Element>, k: nat, chain: seq<Hash>, y: Hash)
    requires Alternates(elements, k + 1) && |chain| == k + 1
    ensures Passes(elements, k + 1, chain + [y]) <==>
              Passes(elements, k, chain) && NodeAt(elements, k + 1).accepts(y) == Ok(true)
  {
    var longer := chain + [y];
    assert longer[k + 1] == y;
    if Passes(elements, k + 1, longer) {
      forall j | 0 <= j <= k
        ensures NodeAt(elements, j).accepts(chain[j]) == Ok(true)
      {
        assert longer[j] == chain[j];
      }
    }
  }

  lemma LinksPrefix(gs: Graphs, elements: seq<Element>, k: nat, chain: seq<Hash>, y: Hash)
    requires Alternates(elements, k + 1) && |chain| == k + 1
    ensures Links(gs, elements, k + 1, chain + [y]) <==>
              Links(gs, elements, k, chain) && Hop(EdgeAt(elements, k), gs.parents, gs.children, chain[k], y)
  {
    var longer := chain + [y];
    assert longer[k] == chain[k] && longer[k + 1] == y;
    if Links(gs, elements, k + 1, longer) {
      forall j | 0 <= j < k
        ensures Hop(EdgeAt(elements, j), gs.parents, gs.children, chain[j], chain[j + 1])
      {
        assert longer[j] == chain[j] && longer[j + 1] == chain[j + 1];
      }
    }
  }

  lemma AgreesPrefix(elements: seq<Element>, chain: seq<Hash>, y: Hash)
    requires Agrees(elements, chain + [y])
    ensures Agrees(elements, chain)
  {
    var longer := chain + [y];
    forall i, j | 0 <= i < j < |chain| && NameOf(elements, 2 * i) == NameOf(elements, 2 * j)
      ensures chain[i] == chain[j]
    {
      assert longer[i] == chain[i] && longer[j] == chain[j];
    }
  }

  lemma FitsIff(elements: seq<Element>, chain: seq<Hash>, y: Hash)
    requires Agrees(elements, chain)
    ensures Fits(elements, chain, y) <==> Agrees(elements, chain + [y])
  {
    var row, name, longer := RowOf(elements, chain), NameOf(elements, 2 * |chain|), chain + [y];
    assert forall j :: 0 <= j < |chain| ==> longer[j] == chain[j];
    assert longer[|chain|] == y;
    if name in row {
      RowNames(elements, chain, name);
      var j :| 0 <= j < |chain| && NameOf(elements, 2 * j) == name;
      RowLookup(elements, chain, j);
    }
    forall j | 0 <= j < |chain| && NameOf(elements, 2 * j) == name
      ensures name in row && row[name] == chain[j]
    {
      RowLookup(elements, chain, j);
    }
  }

  // The executor.

  /** The rows are the bindings of the chains, one for one. */
  ghost predicate RowsOf(elements: seq<Element>, rows: seq<Row>, chains: seq<seq<Hash>>) {
    && |rows| == |chains| && Distinct(chains)
    && forall i :: 0 <= i < |rows| ==> rows[i] == RowOf(elements, chains[i])
  }

  /** The commit cannot be loaded, or the filter of the node fails on it. */
  predicate Fails(gs: Graphs, node: NodePattern, h: Hash) {
    h !in gs.parents || node.accepts(h).Err?
  }

  /** From `x`, the edge and node after node `k` need a commit that is missing or fails. */
  ghost predicate Stuck(gs: Graphs, elements: seq<Element>, k: nat, x: Hash)
    requires Alternates(elements, k + 1)
  {
    || !Expandable(EdgeAt(elements, k), gs.parents, x)
    || exists y :: Hop(EdgeAt(elements, k), gs.parents, gs.children, x, y) && Fails(gs, NodeAt(elements, k + 1), y)
  }

  /** No commit that the first `k + 1` nodes have to look at is missing or fails. */
  ghost predicate Answerable(gs: Graphs, elements: seq<Element>, universe: set<Hash>, k: nat)
    requires Alternates(elements, k)
  {
    && (forall y :: y in universe ==> !Fails(gs, NodeAt(elements, 0), y))
    && (forall j, chain :: 0 <= j < k && IsChain(gs, elements, universe, j, chain) ==> !Stuck(gs, elements, j, chain[j]))
  }

  /** Loading a commit and running the filter of a node pattern on it. */
  method TryBind(gs: Graphs, node: NodePattern, h: Hash) returns (r: Result<bool>)
    ensures r.Ok? ==> node.accepts(h) == r
    ensures r.Err? <==> Fails(gs, node, h)
  {
    if h !in gs.parents {
      return Err(NotFound(h));
    }
    return node.accepts(h);
  }

  /** Rows for the first node: one for every commit of the universe that passes its filter. */
  method BindFirst(gs: Graphs, elements: seq<Element>, universe: set<Hash>)
    returns (r: Result<seq<Row>>, ghost chains: seq<seq<Hash>>)
    requires Alternates(elements, 0)
    ensures r.Ok? ==> RowsOf(elements, r.value, chains)
    ensures r.Ok? ==> forall c :: c in chains <==> IsChain(gs, elements, universe, 0, c)
    ensures r.Ok? <==> Answerable(gs, elements, universe, 0)
  {
    chains := [];
    var hs := Accepted(gs, elements[0].node, universe);
    if hs.Err? {
      r := hs.PropagateFailure();
      return;
    }
    var rows: seq<Row> := [];
    for i := 0 to |hs.value|
      invariant |rows| == i && forall j :: 0 <= j < i ==> rows[j] == RowOf(elements, [hs.value[j]])
    {
      FirstRow(elements, hs.value[i]);
      rows := rows + [map[NameOf(elements, 0) := hs.value[i]]];
    }
    r := Ok(rows);
    chains := seq(|hs.value|, i requires 0 <= i < |hs.value| => [hs.value[i]]);
    forall c
      ensures c in chains <==> IsChain(gs, elements, universe, 0, c)
    {
      if IsChain(gs, elements, universe, 0, c) {
        var i :| 0 <= i < |hs.value| && hs.value[i] == c[0];
        assert chains[i] == c;
      }
    }
    assert Distinct(chains) by {
      assert forall i, j :: 0 <= i < j < |chains| ==> chains[i][0] != chains[j][0];
    }
  }

  /** The commits of a set that pass the filter of a node pattern, each once. */
  method Accepted(gs: Graphs, node: NodePattern, candidates: set<Hash>) returns (r: Result<seq<Hash>>)
    ensures r.Ok? ==> Distinct(r.value)
    ensures r.Ok? ==> forall y :: y in r.value <==> y in candidates && node.accepts(y) == Ok(true)
    ensures r.Err? <==> exists y :: y in candidates && Fails(gs, node, y)
  {
    var found: seq<Hash> := [];
    var todo := candidates;
    while todo != {}
      invariant todo <= candidates && Distinct(found)
      invariant forall y :: y in found <==> y in candidates - todo && node.accepts(y) == Ok(true)
      invariant forall y :: y in candidates - todo ==> !Fails(gs, node, y)
      decreases todo
    {
      var y :| y in todo;
      var ok := TryBind(gs, node, y);
      if ok.Err? {
        return ok.PropagateFailure();
      }
      if ok.value {
        found := found + [y];
      }
      todo := todo - {y};
    }
    return Ok(found);
  }

  lemma FirstRow(elements: seq<Element>, h: Hash)
    ensures RowOf(elements, [h]) == map[NameOf(elements, 0) := h]
  {
    assert [h][..0] == [];
  }

  method ExtendRow(gs: Graphs, elements: seq<Element>, k: nat, row: Row,
                   ghost universe: set<Hash>, ghost chain: seq<Hash>)
    returns (r: Result<seq<Row>>, ghost ys: seq<Hash>)
    requires Alternates(elements, k + 1) && IsChain(gs, elements, universe, k, chain)
    requires row == RowOf(elements, chain)
    ensures r.Ok? ==> |r.value| == |ys| && Distinct(ys)
    ensures r.Ok? ==> forall i :: 0 <= i < |ys| ==> r.value[i] == RowOf(elements, chain + [ys[i]])
    ensures r.Ok? ==> forall y :: y in ys <==> Extension(gs, elements, k, chain, y)
    ensures r.Err? <==> Stuck(gs, elements, k, chain[k])
  {
    RowLookup(elements, chain, k);
    var src := row[NameOf(elements, 2 * k)];
    var candidates := ExpandEdge(EdgeAt(elements, k), gs.parents, gs.children, src);
    ys := [];
    if candidates.Err? {
      r := candidates.PropagateFailure();
      return;
    }
    var node, name := NodeAt(elements, k + 1), NameOf(elements, 2 * (k + 1));
    var found := Accepted(gs, node, candidates.value);
    if found.Err? {
      r := found.PropagateFailure();
      return;
    }
    var rows: seq<Row> := [];
    for i := 0 to |found.value|
      invariant |rows| == |ys| && Distinct(ys)
      invariant forall j :: 0 <= j < |ys| ==> rows[j] == row[name := ys[j]]
      invariant forall y :: y in ys <==> y in found.value[..i] && (name in row ==> row[name] == y)
    {
      var y := found.value[i];
      assert found.value[..i + 1] == found.value[..i] + [y];
      assert y !in found.value[..i];
      if name in row {
        if row[name] != y {
          continue;
        }
      }
      rows := rows + [row[name := y]];
      ys := ys + [y];
    }
    assert found.value[..|found.value|] == found.value;
    forall j | 0 <= j < |ys|
      ensures rows[j] == RowOf(elements, chain + [ys[j]])
    {
      assert (chain + [ys[j]])[..k + 1] == chain;
    }
    r := Ok(rows);
  }

  /** One more edge and node for every row. */
  method ExtendAll(gs: Graphs, elements: seq<Element>, k: nat, rows: seq<Row>,
                   ghost universe: set<Hash>, ghost chains: seq<seq<Hash>>)
    returns (r: Result<seq<Row>>, ghost chains': seq<seq<Hash>>)
    requires Alternates(elements, k + 1) && RowsOf(elements, rows, chains)
    requires forall c :: c in chains <==> IsChain(gs, elements, universe, k, c)
    ensures r.Ok? ==> RowsOf(elements, r.value, chains')
    ensures r.Ok? ==> forall c :: c in chains' <==> IsChain(gs, elements, universe, k + 1, c)
    ensures r.Ok? <==> forall c :: IsChain(gs, elements, universe, k, c) ==> !Stuck(gs, elements, k, c[k])
  {
    var out: seq<Row> := [];
    chains' := [];
    for n := 0 to |rows|
      invariant RowsOf(elements, out, chains')
      invariant forall c :: c in chains' <==>
                  && |c| == k + 2 && c[..k + 1] in chains[..n]
                  && Extension(gs, elements, k, c[..k + 1], c[k + 1])
      invariant forall i :: 0 <= i < n ==> |chains[i]| == k + 1 && !Stuck(gs, elements, k, chains[i][k])
    {
      ghost var chain := chains[n];
      assert chain in chains;
      var more;
      ghost var ys;
      more, ys := ExtendRow(gs, elements, k, rows[n], universe, chain);
      if more.Err? {
        r := more.PropagateFailure();
        return;
      }
      ghost var longer := Longer(chain, ys);
      AppendRows(gs, elements, k, out, chains', chains, n, more.value, ys, longer);
      out := out + more.value;
      chains' := chains' + longer;
    }
    assert chains[..|rows|] == chains;
    forall c
      ensures c in chains' <==> IsChain(gs, elements, universe, k + 1, c)
    {
      LastStep(gs, elements, universe, k, chains, c);
    }
    r := Ok(out);
  }

  ghost function Longer(chain: seq<Hash>, ys: seq<Hash>): seq<seq<Hash>> {
    seq(|ys|, i requires 0 <= i < |ys| => chain + [ys[i]])
  }

  lemma LastStep(gs: Graphs, elements: seq<Element>, universe: set<Hash>, k: nat, chains: seq<seq<Hash>>, c: seq<Hash>)
    requires Alternates(elements, k + 1)
    requires forall c :: c in chains <==> IsChain(gs, elements, universe, k, c)
    ensures (|c| == k + 2 && c[..k + 1] in chains && Extension(gs, elements, k, c[..k + 1], c[k + 1]))
       <==> IsChain(gs, elements, universe, k + 1, c)
  {
    if |c| == k + 2 {
      assert c == c[..k + 1] + [c[k + 1]];
      ChainStep(gs, elements, universe, k, c[..k + 1], c[k + 1]);
    }
  }

  lemma InLonger(chain: seq<Hash>, ys: seq<Hash>, c: seq<Hash>)
    ensures c in Longer(chain, ys) <==> |c| == |chain| + 1 && c[..|chain|] == chain && c[|chain|] in ys
  {
    if c in Longer(chain, ys) {
      var i :| 0 <= i < |ys| && Longer(chain, ys)[i] == c;
      assert c == chain + [ys[i]];
    }
    if |c| == |chain| + 1 && c[..|chain|] == chain && c[|chain|] in ys {
      var i :| 0 <= i < |ys| && ys[i] == c[|chain|];
      assert c == chain + [ys[i]];
      assert Longer(chain, ys)[i] == c;
    }
  }

  lemma TakeOne<T>(s: seq<T>, n: nat)
    requires n < |s|
    ensures s[..n + 1] == s[..n] + [s[n]]
  {}

  lemma AppendRows(gs: Graphs, elements: seq<Element>, k: nat, out: seq<Row>, done: seq<seq<Hash>>,
                   chains: seq<seq<Hash>>, n: nat, more: seq<Row>, ys: seq<Hash>, longer: seq<seq<Hash>>)
    requires Alternates(elements, k + 1) && n < |chains| && |chains[n]| == k + 1 && Distinct(chains)
    requires RowsOf(elements, out, done)
    requires forall c :: c in done <==>
               && |c| == k + 2 && c[..k + 1] in chains[..n]
               && Extension(gs, elements, k, c[..k + 1], c[k + 1])
    requires |more| == |ys| && Distinct(ys) && longer == Longer(chains[n], ys)
    requires forall i :: 0 <= i < |ys| ==> more[i] == RowOf(elements, chains[n] + [ys[i]])
    requires forall y :: y in ys <==> Extension(gs, elements, k, chains[n], y)
    ensures RowsOf(elements, out + more, done + longer)
    ensures forall c :: c in done + longer <==>
              && |c| == k + 2 && c[..k + 1] in chains[..n + 1]
              && Extension(gs, elements, k, c[..k + 1], c[k + 1])
  {
    TakeOne(chains, n);
    assert chains[n] !in chains[..n];
    forall c
      ensures c in longer <==> |c| == k + 2 && c[..k + 1] == chains[n] && c[k + 1] in ys
    {
      InLonger(chains[n], ys, c);
    }
    AppendRowsOf(elements, out, done, chains[n], more, ys);
  }

  lemma AppendRowsOf(elements: seq<Element>, out: seq<Row>, done: seq<seq<Hash>>, chain: seq<Hash>,
                     more: seq<Row>, ys: seq<Hash>)
    requires RowsOf(elements, out, done) && |more| == |ys| && Distinct(ys)
    requires forall i :: 0 <= i < |ys| ==> more[i] == RowOf(elements, chain + [ys[i]])
    requires forall c :: c in done ==> c !in Longer(chain, ys)
    ensures RowsOf(elements, out + more, done + Longer(chain, ys))
  {
    var longer := Longer(chain, ys);
    LongerDistinct(chain, ys);
    DistinctAppend(done, longer);
    forall i | 0 <= i < |out + more|
      ensures (out + more)[i] == RowOf(elements, (done + longer)[i])
    {
      if i >= |out| {
        assert (done + longer)[i] == chain + [ys[i - |out|]];
      }
    }
  }

  lemma LongerDistinct(chain: seq<Hash>, ys: seq<Hash>)
    requires Distinct(ys)
    ensures Distinct(Longer(chain, ys))
  {
    var l := Longer(chain, ys);
    assert forall i :: 0 <= i < |l| ==> l[i][|chain|] == ys[i];
  }

  lemma DistinctAppend<T>(s: seq<T>, t: seq<T>)
    requires Distinct(s) && Distinct(t) && forall x :: x in s ==> x !in t
    ensures Distinct(s + t)
  {
    forall i, j | 0 <= i < j < |s + t|
      ensures (s + t)[i] != (s + t)[j]
    {
      if i < |s| <= j {
        assert (s + t)[i] in s && (s + t)[j] in t;
      }
    }
  }

  /** A pattern is well formed, and nothing it has to look at is missing or fails. */
  ghost predicate Matchable(gs: Graphs, elements: seq<Element>, universe: set<Hash>)
    requires elements != []
  {
    var k := (|elements| - 1) / 2;
    Alternates(elements, k) && Answerable(gs, elements, universe, k)
  }

  lemma AnswerableStep(gs: Graphs, elements: seq<Element>, universe: set<Hash>, j: nat, k: nat)
    requires j < k && Alternates(elements, j + 1) && Answerable(gs, elements, universe, j)
    ensures (forall c :: IsChain(gs, elements, universe, j, c) ==> !Stuck(gs, elements, j, c[j])) <==>
              Answerable(gs, elements, universe, j + 1)
    ensures Alternates(elements, k) && Answerable(gs, elements, universe, k) ==>
              Answerable(gs, elements, universe, j + 1)
  {}

  lemma AlternatesStep(elements: seq<Element>, j: nat)
    requires Alternates(elements, j) && 2 * j + 2 < |elements|
    ensures elements[2 * j + 1].Link? && elements[2 * j + 2].Node? <==> Alternates(elements, j + 1)
    ensures forall k :: j < k && Alternates(elements, k) ==> Alternates(elements, j + 1)
  {}

  /** The rows and chains of the first `j + 1` nodes. */
  ghost predicate Bound(gs: Graphs, elements: seq<Element>, universe: set<Hash>, j: nat,
                        rows: seq<Row>, chains: seq<seq<Hash>>)
  {
    && Alternates(elements, j) && Answerable(gs, elements, universe, j)
    && RowsOf(elements, rows, chains)
    && forall c :: c in chains <==> IsChain(gs, elements, universe, j, c)
  }

  /**
   * The rows of a pattern are the bindings of the chains it describes: every chain has its row, every row
   * has its chain, and no two rows come from one chain.
   */
  method MatchPattern(gs: Graphs, elements: seq<Element>, universe: set<Hash>)
    returns (r: Result<seq<Row>>, ghost chains: seq<seq<Hash>>)
    ensures r.Ok? ==> RowsOf(elements, r.value, chains)
    ensures r.Ok? ==> forall c :: c in chains <==> elements != [] && IsChain(gs, elements, universe, (|elements| - 1) / 2, c)
    ensures r.Ok? ==> Distinct(r.value)
    ensures r.Ok? <==> elements == [] || Matchable(gs, elements, universe)
  {
    chains := [];
    if elements == [] {
      return Ok([]), [];
    }
    if !elements[0].Node? {
      return Err(ExecError), [];
    }
    r, chains := BindAll(gs, elements, universe, (|elements| - 1) / 2);
    if r.Ok? {
      RowsDistinct(gs, elements, universe, (|elements| - 1) / 2, r.value, chains);
    }
  }

  /** The first node, and then edge after edge. */
  method BindAll(gs: Graphs, elements: seq<Element>, universe: set<Hash>, ghost k: nat)
    returns (r: Result<seq<Row>>, ghost chains: seq<seq<Hash>>)
    requires Alternates(elements, 0) && k == (|elements| - 1) / 2
    ensures r.Ok? ==> Bound(gs, elements, universe, k, r.value, chains)
    ensures r.Err? ==> !(Alternates(elements, k) && Answerable(gs, elements, universe, k))
  {
    r, chains := BindFirst(gs, elements, universe);
    if r.Err? {
      return;
    }
    var rows := r.value;
    var i := 1;
    ghost var j := 0;
    while i + 1 < |elements|
      invariant i == 2 * j + 1 && j <= k && Bound(gs, elements, universe, j, rows, chains)
    {
      AlternatesStep(elements, j);
      if !elements[i].Link? || !elements[i + 1].Node? {
        return Err(ExecError), chains;
      }
      r, chains := BindNext(gs, elements, i, rows, universe, chains, j, k);
      if r.Err? {
        return;
      }
      rows := r.value;
      i, j := i + 2, j + 1;
    }
    return Ok(rows), chains;
  }

  method BindNext(gs: Graphs, elements: seq<Element>, i: nat, rows: seq<Row>, ghost universe: set<Hash>,
                  ghost chains: seq<seq<Hash>>, ghost j: nat, ghost k: nat)
    returns (r: Result<seq<Row>>, ghost chains': seq<seq<Hash>>)
    requires i == 2 * j + 1 && j < k && Alternates(elements, j + 1)
    requires Bound(gs, elements, universe, j, rows, chains)
    ensures r.Ok? ==> Bound(gs, elements, universe, j + 1, r.value, chains')
    ensures r.Err? ==> !(Alternates(elements, k) && Answerable(gs, elements, universe, k))
  {
    r, chains' := ExtendAll(gs, elements, i / 2, rows, universe, chains);
    AnswerableStep(gs, elements, universe, j, k);
  }

  lemma RowsDistinct(gs: Graphs, elements: seq<Element>, universe: set<Hash>, k: nat, rows: seq<Row>, chains: seq<seq<Hash>>)
    requires RowsOf(elements, rows, chains)
    requires forall c :: c in chains ==> IsChain(gs, elements, universe, k, c)
    ensures Distinct(rows)
  {
    forall i, j | 0 <= i < j < |rows|
      ensures rows[i] != rows[j]
    {
      assert chains[i] in chains && chains[j] in chains;
      if rows[i] == rows[j] {
        RowInjective(elements, chains[i], chains[j]);
      }
    }
  }

  // Histories that are complete.

  /** A set of stored commits that no edge leaves. */
  ghost predicate Covers(gs: Graphs, universe: set<Hash>) {
    universe <= gs.parents.Keys && Closing(gs.parents, universe, []) && Closing(gs.children, universe, [])
  }

  lemma HopStays(gs: Graphs, universe: set<Hash>, edge: Edge, x: Hash)
    requires Covers(gs, universe) && x in universe
    ensures Expandable(edge, gs.parents, x)
    ensures forall y :: Hop(edge, gs.parents, gs.children, x, y) ==> y in universe
  {
    forall n: nat, y | Walk(gs.parents, x, n, y)
      ensures y in gs.parents
    {
      ClosedHolds(gs.parents, universe, x, n, y);
    }
    var G := EdgeGraph(edge, gs.parents, gs.children);
    forall y | Hop(edge, gs.parents, gs.children, x, y)
      ensures y in universe
    {
      var n :| HopBounds(edge).0 <= n <= HopBounds(edge).1 && Walk(G, x, n, y);
      ClosedHolds(G, universe, x, n, y);
    }
  }

  lemma {:induction false} ChainStays(gs: Graphs, elements: seq<Element>, universe: set<Hash>, k: nat,
                                      chain: seq<Hash>, j: nat)
    requires Covers(gs, universe) && IsChain(gs, elements, universe, k, chain) && j <= k
    ensures chain[j] in universe
  {
    if j > 0 {
      ChainStays(gs, elements, universe, k, chain, j - 1);
      HopStays(gs, universe, EdgeAt(elements, j - 1), chain[j - 1]);
      assert Hop(EdgeAt(elements, j - 1), gs.parents, gs.children, chain[j - 1], chain[j - 1 + 1]);
    }
  }

  /** The filters do not fail on the commits of a set. */
  ghost predicate FiltersWork(elements: seq<Element>, universe: set<Hash>, k: nat)
    requires Alternates(elements, k)
  {
    forall j, h :: 0 <= j <= k && h in universe ==> NodeAt(elements, j).accepts(h).Ok?
  }

  lemma CoveredAnswerable(gs: Graphs, elements: seq<Element>, universe: set<Hash>, k: nat)
    requires Alternates(elements, k) && Covers(gs, universe) && FiltersWork(elements, universe, k)
    ensures Answerable(gs, elements, universe, k)
  {
    forall j, chain | 0 <= j < k && IsChain(gs, elements, universe, j, chain)
      ensures !Stuck(gs, elements, j, chain[j])
    {
      ChainStays(gs, elements, universe, j, chain, j);
      HopStays(gs, universe, EdgeAt(elements, j), chain[j]);
    }
  }

  // Generated names.

  function Value(s: string): int {
    if s == [] then 0 else 10 * Value(s[..|s| - 1]) + (s[|s| - 1] as int - '0' as int)
  }

  lemma {:induction false} DigitsBack(n: nat)
    ensures Value(Digits(n)) == n
  {
    var s := Digits(n);
    if n >= 10 {
      DigitsBack(n / 10);
      assert s[..|s| - 1] == Digits(n / 10);
    } else {
      assert s[..0] == [];
    }
  }

  lemma GeneratedApart(m: nat, n: nat)
    requires "_" + Digits(m) == "_" + Digits(n)
    ensures m == n
  {
    assert Digits(m) == ("_" + Digits(m))[1..] && Digits(n) == ("_" + Digits(n))[1..];
    DigitsBack(m);
    DigitsBack(n);
  }

  /** No variable is spelled like the name generated for another node. */
  predicate NoClash(elements: seq<Element>, k: nat)
    requires Alternates(elements, k)
  {
    forall i, j :: 0 <= i <= k && 0 <= j <= k && NodeAt(elements, j).variable.None? ==>
      NodeAt(elements, i).variable != Some("_" + Digits(2 * j))
  }

  predicate SameVariable(a: NodePattern, b: NodePattern) {
    a.variable.Some? && a.variable == b.variable
  }

  /** Then equal names mean one place or one variable. */
  lemma NamesApart(elements: seq<Element>, k: nat, i: nat, j: nat)
    requires Alternates(elements, k) && i <= k && j <= k && NoClash(elements, k)
    ensures NameOf(elements, 2 * i) == NameOf(elements, 2 * j) <==>
              i == j || SameVariable(NodeAt(elements, i), NodeAt(elements, j))
  {
    var v, w := NodeAt(elements, i).variable, NodeAt(elements, j).variable;
    if v.None? && w.None? && NameOf(elements, 2 * i) == NameOf(elements, 2 * j) {
      GeneratedApart(2 * i, 2 * j);
    }
  }

  /** The same commit wherever a variable is repeated; nodes without a variable are free. */
  ghost predicate VariablesAgree(elements: seq<Element>, k: nat, chain: seq<Hash>)
    requires Alternates(elements, k) && |chain| == k + 1
  {
    forall i, j :: 0 <= i < j <= k && SameVariable(NodeAt(elements, i), NodeAt(elements, j)) ==> chain[i] == chain[j]
  }

  /** The chain that has `x` everywhere but at one place. */
  function Odd(k: nat, at: nat, x: Hash, y: Hash): seq<Hash> {
    seq(k + 1, i => if i == at then y else x)
  }

  /** A clash makes the executor demand an agreement that no variable asks for. */
  lemma ClashDisagrees(elements: seq<Element>, k: nat, i: nat, j: nat, x: Hash, y: Hash)
    requires Alternates(elements, k) && i <= k && j <= k && x != y && NodeAt(elements, j).variable.None?
    requires NodeAt(elements, i).variable == Some("_" + Digits(2 * j))
    ensures VariablesAgree(elements, k, Odd(k, j, x, y)) && !Agrees(elements, Odd(k, j, x, y))
  {
    var chain := Odd(k, j, x, y);
    assert NameOf(elements, 2 * i) == NameOf(elements, 2 * j) && chain[i] == x && chain[j] == y;
  }

  /** Equal names ask for the same as equal variables exactly when nothing clashes. */
  lemma AgreementIff(elements: seq<Element>, k: nat)
    requires Alternates(elements, k)
    ensures (forall chain: seq<Hash> | |chain| == k + 1 :: Agrees(elements, chain) <==> VariablesAgree(elements, k, chain))
       <==> NoClash(elements, k)
  {
    if NoClash(elements, k) {
      forall chain: seq<Hash> | |chain| == k + 1
        ensures Agrees(elements, chain) <==> VariablesAgree(elements, k, chain)
      {
        ClearAgrees(elements, k, chain);
      }
    } else {
      var i, j :| 0 <= i <= k && 0 <= j <= k && NodeAt(elements, j).variable.None?
        && NodeAt(elements, i).variable == Some("_" + Digits(2 * j));
      var one: Hash := ZERO[0 := 1];
      assert one[0] != ZERO[0];
      ClashDisagrees(elements, k, i, j, ZERO, one);
      assert |Odd(k, j, ZERO, one)| == k + 1;
    }
  }

  lemma ClearAgrees(elements: seq<Element>, k: nat, chain: seq<Hash>)
    requires Alternates(elements, k) && |chain| == k + 1 && NoClash(elements, k)
    ensures Agrees(elements, chain) <==> VariablesAgree(elements, k, chain)
  {
    if Agrees(elements, chain) {
      forall i, j | 0 <= i < j <= k && SameVariable(NodeAt(elements, i), NodeAt(elements, j))
        ensures chain[i] == chain[j]
      {
        NamesApart(elements, k, i, j);
      }
    }
    if VariablesAgree(elements, k, chain) {
      forall i, j | 0 <= i < j < |chain| && NameOf(elements, 2 * i) == NameOf(elements, 2 * j)
        ensures chain[i] == chain[j]
      {
        NamesApart(elements, k, i, j);
      }
    }
  }

  /** What a pattern says: filters, edges, and agreement on repeated variables. */
  ghost predicate Means(gs: Graphs, elements: seq<Element>, universe: set<Hash>, k: nat, chain: seq<Hash>) {
    && Alternates(elements, k) && |chain| == k + 1
    && chain[0] in universe
    && Passes(elements, k, chain) && Links(gs, elements, k, chain) && VariablesAgree(elements, k, chain)
  }

  /** When nothing clashes, the chains are what the pattern says. */
  lemma ChainMeaning(gs: Graphs, elements: seq<Element>, universe: set<Hash>, k: nat, chain: seq<Hash>)
    requires Alternates(elements, k) && NoClash(elements, k)
    ensures IsChain(gs, elements, universe, k, chain) <==> Means(gs, elements, universe, k, chain)
  {
    if |chain| == k + 1 {
      ClearAgrees(elements, k, chain);
    }
  }

  /** Two nodes with the same filter, the first with the variable `_2`, the second without. */
  function Clashing(edge: Edge, accepts: Hash -> Result<bool>): seq<Element> {
    [Node(NodePattern(Some("_2"), accepts)), Link(edge), Node(NodePattern(None, accepts))]
  }

  /** That pattern has no chain in any history, since its two commits would have to be one. */
  lemma ClashingNever(gs: Graphs, universe: set<Hash>, edge: Edge, accepts: Hash -> Result<bool>, chain: seq<Hash>)
    ensures !IsChain(gs, Clashing(edge, accepts), universe, 1, chain)
  {
    var elements := Clashing(edge, accepts);
    assert Digits(2) == "2";
    assert NameOf(elements, 2 * 0) == NameOf(elements, 2 * 1);
    if Alternates(elements, 1) && |chain| == 2 && Links(gs, elements, 1, chain) {
      assert Hop(EdgeAt(elements, 0), gs.parents, gs.children, chain[0], chain[0 + 1]);
      assert !Agrees(elements, chain);
    }
  }

  lemma ParentHop(gs: Graphs, x: Hash, y: Hash)
    requires y in Next(gs.parents, x) && x != y
    ensures Hop(Edge(Parent, None), gs.parents, gs.children, x, y)
  {
    assert Walk(gs.parents, x, 0, x);
    WalkStep(gs.parents, x, 0, x, y);
    assert Walk(EdgeGraph(Edge(Parent, None), gs.parents, gs.children), x, 1, y);
  }

  /** A commit `x` and its parent `y`, and a pattern that they match but the executor does not find. */
  lemma GeneratedClash(x: Hash, y: Hash, accepts: Hash -> Result<bool>)
    requires x != y && accepts(x) == accepts(y) == Ok(true)
    ensures var gs := Graphs(map[x := [y], y := []], map[y := [x]]);
            var elements := Clashing(Edge(Parent, None), accepts);
            && Matchable(gs, elements, {x, y}) && Means(gs, elements, {x, y}, 1, [x, y])
            && forall chain :: !IsChain(gs, elements, {x, y}, 1, chain)
  {
    var gs := Graphs(map[x := [y], y := []], map[y := [x]]);
    var elements := Clashing(Edge(Parent, None), accepts);
    ParentHop(gs, x, y);
    CoveredAnswerable(gs, elements, {x, y}, 1);
    forall chain
      ensures !IsChain(gs, elements, {x, y}, 1, chain)
    {
      ClashingNever(gs, {x, y}, Edge(Parent, None), accepts, chain);
    }
  }
}
