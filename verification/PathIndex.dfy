/** Secondary path indexes, maintained on every commit. */
module PathIndex {
  import opened Bytes
  import opened HamtNode
  import opened MemCas
  import opened Documents
  import Tries
  import TrieMaps
  import Hamt

  type Schema = map<seq<byte>, Collection>

  type IndexRoots = map<seq<byte>, Hash>

  /** What a schema built by statements looks like: names follow from collections and paths, none is used twice. */
  ghost predicate WellNamed(schema: Schema) {
    forall c :: c in schema ==> schema[c].name == c && NamedIndexes(c, schema[c].indexes)
  }

  ghost predicate NamedIndexes(c: seq<byte>, indexes: seq<IndexDef>) {
    && (forall i :: 0 <= i < |indexes| ==> indexes[i].name == IndexName(c, indexes[i].path))
    && (forall i, j :: 0 <= i < j < |indexes| ==> indexes[i].name != indexes[j].name)
  }

  /** An index name belongs to one index of one collection. */
  lemma DeclaredOnce(schema: Schema, c: seq<byte>, i: nat, d: seq<byte>, j: nat)
    requires WellNamed(schema) && c in schema && d in schema
    requires i < |schema[c].indexes| && j < |schema[d].indexes|
    requires schema[c].indexes[i].name == schema[d].indexes[j].name
    ensures c == d && i == j
  {
    IndexNameInjective(c, schema[c].indexes[i].path, d, schema[d].indexes[j].path);
  }

  // Schema statements.

  datatype Statement =
    | CreateCollection(name: seq<byte>, keys: seq<FieldDef>)
    | CreateIndex(collection: seq<byte>, path: seq<byte>, ty: FieldType)
    | DropIndex(collection: seq<byte>, path: seq<byte>)

  function Without(indexes: seq<IndexDef>, name: seq<byte>, path: seq<byte>): seq<IndexDef> {
    if indexes == [] then [] else
      var rest, last := Without(indexes[..|indexes| - 1], name, path), indexes[|indexes| - 1];
      if last.name != name && last.path != path then rest + [last] else rest
  }

  predicate HasName(indexes: seq<IndexDef>, name: seq<byte>) {
    exists i :: 0 <= i < |indexes| && indexes[i].name == name
  }

  function Apply(schema: Schema, stmt: Statement): Result<Schema> {
    match stmt
    case CreateCollection(name, keys) =>
      if name in schema then Err(ExecError) else Ok(schema[name := Collection(name, keys, [])])
    case CreateIndex(c, path, ty) =>
      if c !in schema then Err(ExecError) else
        var name := IndexName(c, path);
        if HasName(schema[c].indexes, name) then Err(ExecError)
        else Ok(schema[c := schema[c].(indexes := schema[c].indexes + [IndexDef(name, path, ty)])])
    case DropIndex(c, path) =>
      if c !in schema then Err(ExecError) else
        var kept := Without(schema[c].indexes, IndexName(c, path), path);
        if |kept| == |schema[c].indexes| then Err(ExecError)
        else Ok(schema[c := schema[c].(indexes := kept)])
  }

  lemma {:induction false} WithoutNamed(c: seq<byte>, indexes: seq<IndexDef>, name: seq<byte>, path: seq<byte>)
    requires NamedIndexes(c, indexes)
    ensures NamedIndexes(c, Without(indexes, name, path))
    ensures forall d :: d in Without(indexes, name, path) <==> d in indexes && d.name != name && d.path != path
  {
    if indexes != [] {
      var rest, last := indexes[..|indexes| - 1], indexes[|indexes| - 1];
      assert indexes == rest + [last];
      WithoutNamed(c, rest, name, path);
      forall d | d in rest
        ensures d.name != last.name
      {
        var i :| 0 <= i < |rest| && rest[i] == d;
        assert indexes[i] == d;
      }
    }
  }

  lemma ApplyNamed(schema: Schema, stmt: Statement)
    requires WellNamed(schema)
    ensures var r := Apply(schema, stmt); r.Ok? ==> WellNamed(r.value)
  {
    if stmt.DropIndex? && stmt.collection in schema {
      WithoutNamed(stmt.collection, schema[stmt.collection].indexes, IndexName(stmt.collection, stmt.path), stmt.path);
    }
  }

  function ApplyAll(schema: Schema, stmts: seq<Statement>): Result<Schema> {
    if stmts == [] then Ok(schema) else
      var s :- ApplyAll(schema, stmts[..|stmts| - 1]);
      Apply(s, stmts[|stmts| - 1])
  }

  lemma {:induction false} ApplyStops(schema: Schema, stmts: seq<Statement>, i: nat)
    requires i <= |stmts| && ApplyAll(schema, stmts[..i]).Err?
    ensures ApplyAll(schema, stmts) == ApplyAll(schema, stmts[..i])
    decreases |stmts|
  {
    if i < |stmts| {
      assert stmts[..|stmts| - 1][..i] == stmts[..i];
      ApplyStops(schema, stmts[..|stmts| - 1], i);
    } else {
      assert stmts[..i] == stmts;
    }
  }

  /** Statements keep a schema well named. */
  method ApplyStatements(schema: Schema, stmts: seq<Statement>) returns (r: Result<Schema>)
    ensures r == ApplyAll(schema, stmts)
    ensures WellNamed(schema) && r.Ok? ==> WellNamed(r.value)
  {
    var current := schema;
    for i := 0 to |stmts|
      invariant ApplyAll(schema, stmts[..i]) == Ok(current)
      invariant WellNamed(schema) ==> WellNamed(current)
    {
      assert stmts[..i + 1][..i] == stmts[..i];
      var next := Apply(current, stmts[i]);
      if next.Err? {
        ApplyStops(schema, stmts, i + 1);
        return next;
      }
      if WellNamed(current) {
        ApplyNamed(current, stmts[i]);
      }
      current := next.value;
    }
    assert stmts[..|stmts|] == stmts;
    return Ok(current);
  }

  // What an index holds.

  /** The one pair that an index in step with a document holds. */
  function Pair(coll: Collection, idx: IndexDef, doc: Doc): Option<(seq<byte>, seq<byte>)> {
    match (KeyAt(doc, idx.path), PrimaryKey(coll, doc))
    case (Some(k), Some(p)) => Some((k, p))
    case _ => None
  }

  /** The primary key used for a commit: that of the new document, or else that of the old one. */
  function KeyUsed(coll: Collection, before: Doc, after: Doc): Option<seq<byte>> {
    if PrimaryKey(coll, after).Some? then PrimaryKey(coll, after) else PrimaryKey(coll, before)
  }

  function PairAfter(coll: Collection, idx: IndexDef, before: Doc, after: Doc): Option<(seq<byte>, seq<byte>)> {
    match (KeyAt(after, idx.path), KeyUsed(coll, before, after))
    case (Some(k), Some(p)) => Some((k, p))
    case _ => None
  }

  function TrieOf(pair: Option<(seq<byte>, seq<byte>)>): Option<Tries.Trie> {
    match pair
    case None => None
    case Some((k, p)) => Some(Tries.Entry(k, p))
  }

  /** The root under `name` is that of the index holding exactly `pair`; an empty index has no root. */
  ghost predicate Holds(H: Hasher, objects: Objects, roots: IndexRoots, name: seq<byte>,
                        pair: Option<(seq<byte>, seq<byte>)>)
  {
    Hamt.RootIs(H, objects, if name in roots then Some(roots[name]) else None, TrieOf(pair))
  }

  /** Before a commit an index may be missing, or it is in step with the old document. */
  ghost predicate InStepOrMissing(H: Hasher, objects: Objects, roots: IndexRoots, coll: Collection, idx: IndexDef,
                                  doc: Doc)
  {
    idx.name !in roots || Holds(H, objects, roots, idx.name, Pair(coll, idx, doc))
  }

  /** After a commit the index is in step, unless the primary key of the old document had to stand in. */
  lemma InStepAfter(coll: Collection, idx: IndexDef, before: Doc, after: Doc)
    ensures PairAfter(coll, idx, before, after) == Pair(coll, idx, after)
        <==> !(KeyAt(after, idx.path).Some? && PrimaryKey(coll, after).None? && PrimaryKey(coll, before).Some?)
  {}

  /** Documents of commits hold strings and only grow, so the indexes of commits are always in step. */
  lemma CommitsInStep(coll: Collection, idx: IndexDef, before: Doc, after: Doc)
    requires Strings(before) && Strings(after) && before.Keys <= after.Keys
    ensures PairAfter(coll, idx, before, after) == Pair(coll, idx, after)
  {
    PrimaryKeyStays(coll, before, after);
  }

  lemma PartsOfId()
    ensures Parts(ID) == [ID]
  {
    var i, d: seq<byte> := [105], [100];
    assert ID == i + d && ID[1..] == d && d[1..] == [] && [] + [ID[0]] == i && i + [d[0]] == ID;
    assert PartsFrom([], ID) == PartsFrom(i, d) == PartsFrom(ID, []);
  }

  /** A document losing its key field while the indexed one stays: the index keeps the old primary key. */
  lemma OutOfStepExample()
    ensures var coll := Collection([97], [], [IndexDef(IndexName([97], [98]), [98], StringType)]);
            var before, after: Doc := map[ID := Str([49]), [98] := Str([50])], map[[98] := Str([51])];
            && Pair(coll, coll.indexes[0], after) == None
            && PairAfter(coll, coll.indexes[0], before, after) == Some(([51], [49]))
  {
    PartsOfId();
  }

  // Maintenance.

  /** The records an update may write are among those of the run, fit their fields and do not hash to zero. */
  ghost predicate MayWrite(H: Hasher, U: iset<Record>, pair: Option<(seq<byte>, seq<byte>)>) {
    pair.Some? ==>
      && Hamt.EntryFits(pair.value.0, pair.value.1)
      && Hamt.RecordOf(H, Tries.Entry(pair.value.0, pair.value.1)) in U
  }

  ghost predicate NoZero(H: Hasher, U: iset<Record>) {
    forall r :: r in U ==> H(r.payload) != ZERO
  }

  ghost predicate SameElsewhere(a: IndexRoots, b: IndexRoots, name: seq<byte>) {
    forall n :: n != name ==> (n in a <==> n in b) && (n in a ==> a[n] == b[n])
  }

  function RootOf(roots: IndexRoots, name: seq<byte>): Option<Hash> {
    if name in roots && roots[name] != ZERO then Some(roots[name]) else None
  }

  lemma RootFound(H: Hasher, objects: Objects, roots: IndexRoots, name: seq<byte>,
                  pair: Option<(seq<byte>, seq<byte>)>, U: iset<Record>)
    requires Holds(H, objects, roots, name, pair) && Within(H, objects, U) && NoZero(H, U)
    ensures Hamt.RootIs(H, objects, RootOf(roots, name), TrieOf(pair))
  {
    if pair.Some? {
      var t := Tries.Entry(pair.value.0, pair.value.1);
      assert objects[Hamt.TrieHash(H, t)] in U;
    }
  }

  /** Taking the old key out of an index of one pair, when the value has changed. */
  method DropOld(cas: Cas, roots: IndexRoots, name: seq<byte>, key: seq<byte>,
                 ghost pair: Option<(seq<byte>, seq<byte>)>, ghost U: iset<Record>)
    returns (roots': IndexRoots)
    requires Hamt.Ready(cas, U) && NoZero(cas.H, U) && Holds(cas.H, cas.objects, roots, name, pair)
    requires pair.Some? ==> pair.value.0 == key
    modifies cas
    ensures Hamt.Ready(cas, U) && Extends(old(cas.objects), cas.objects)
    ensures name !in roots' && SameElsewhere(roots, roots', name)
  {
    RootFound(cas.H, cas.objects, roots, name, pair, U);
    var next := Hamt.Remove(cas, RootOf(roots, name), key, TrieOf(pair), U);
    roots' := match next.value case Some(h) => roots[name := h] case None => roots - {name};
  }

  /** One index: take the old pair out if the value changed, put the new one in. */
  method UpdateIndex(cas: Cas, coll: Collection, idx: IndexDef, before: Doc, after: Doc, pk: Option<seq<byte>>,
                     roots: IndexRoots, ghost U: iset<Record>)
    returns (roots': IndexRoots)
    requires Hamt.Ready(cas, U) && NoZero(cas.H, U) && pk == KeyUsed(coll, before, after)
    requires InStepOrMissing(cas.H, cas.objects, roots, coll, idx, before)
    requires MayWrite(cas.H, U, PairAfter(coll, idx, before, after))
    modifies cas
    ensures Hamt.Ready(cas, U) && Extends(old(cas.objects), cas.objects)
    ensures Holds(cas.H, cas.objects, roots', idx.name, PairAfter(coll, idx, before, after))
    ensures SameElsewhere(roots, roots', idx.name)
  {
    var oldVal := ExtractPath(before, idx.path);
    var newVal := ExtractPath(after, idx.path);
    ghost var pair := if idx.name in roots then Pair(coll, idx, before) else None;
    roots' := roots;
    if oldVal.Some? && pk.Some? && oldVal != newVal && KeyOf(oldVal.value).Some? {
      roots' := DropOld(cas, roots, idx.name, KeyOf(oldVal.value).value, pair, U);
      pair := None;
    }
    if newVal.Some? && pk.Some? && KeyOf(newVal.value).Some? {
      roots' := PutNew(cas, roots', idx.name, KeyOf(newVal.value).value, pk.value, pair, U);
    }
  }

  method PutNew(cas: Cas, roots: IndexRoots, name: seq<byte>, key: seq<byte>, pk: seq<byte>,
                ghost pair: Option<(seq<byte>, seq<byte>)>, ghost U: iset<Record>)
    returns (roots': IndexRoots)
    requires Hamt.Ready(cas, U) && NoZero(cas.H, U) && Holds(cas.H, cas.objects, roots, name, pair)
    requires pair.Some? ==> pair.value.0 == key
    requires MayWrite(cas.H, U, Some((key, pk)))
    modifies cas
    ensures Hamt.Ready(cas, U) && Extends(old(cas.objects), cas.objects)
    ensures Holds(cas.H, cas.objects, roots', name, Some((key, pk))) && SameElsewhere(roots, roots', name)
  {
    RootFound(cas.H, cas.objects, roots, name, pair, U);
    var h := Hamt.Insert(cas, RootOf(roots, name), key, pk, TrieOf(pair), U);
    roots' := roots[name := h.value];
  }

  // All indexes of a collection, and all collections.

  ghost predicate AllInStepOrMissing(H: Hasher, objects: Objects, roots: IndexRoots, coll: Collection, from: nat,
                                     doc: Doc)
  {
    forall i :: from <= i < |coll.indexes| ==> InStepOrMissing(H, objects, roots, coll, coll.indexes[i], doc)
  }

  ghost predicate AllUpdated(H: Hasher, objects: Objects, roots: IndexRoots, coll: Collection, upto: nat,
                             before: Doc, after: Doc)
    requires upto <= |coll.indexes|
  {
    forall i :: 0 <= i < upto ==>
      Holds(H, objects, roots, coll.indexes[i].name, PairAfter(coll, coll.indexes[i], before, after))
  }

  ghost predicate AllMayWrite(H: Hasher, U: iset<Record>, coll: Collection, before: Doc, after: Doc) {
    forall i :: 0 <= i < |coll.indexes| ==> MayWrite(H, U, PairAfter(coll, coll.indexes[i], before, after))
  }

  /** Roots of indexes with other names keep what they hold. */
  ghost predicate SameOutside(a: IndexRoots, b: IndexRoots, coll: Collection) {
    forall n :: !HasName(coll.indexes, n) ==> (n in a <==> n in b) && (n in a ==> a[n] == b[n])
  }

  lemma HoldsLater(H: Hasher, a: Objects, b: Objects, roots: IndexRoots, roots': IndexRoots, name: seq<byte>,
                   pair: Option<(seq<byte>, seq<byte>)>)
    requires Holds(H, a, roots, name, pair) && Extends(a, b)
    requires (name in roots <==> name in roots') && (name in roots ==> roots[name] == roots'[name])
    ensures Holds(H, b, roots', name, pair)
  {
    if pair.Some? {
      Hamt.StoredExtends(H, a, b, TrieOf(pair).value);
    }
  }

  method UpdateCollection(cas: Cas, coll: Collection, before: Doc, after: Doc, roots: IndexRoots,
                          ghost U: iset<Record>)
    returns (roots': IndexRoots)
    requires Hamt.Ready(cas, U) && NoZero(cas.H, U) && NamedIndexes(coll.name, coll.indexes)
    requires AllInStepOrMissing(cas.H, cas.objects, roots, coll, 0, before)
    requires AllMayWrite(cas.H, U, coll, before, after)
    modifies cas
    ensures Hamt.Ready(cas, U) && Extends(old(cas.objects), cas.objects)
    ensures AllUpdated(cas.H, cas.objects, roots', coll, |coll.indexes|, before, after)
    ensures SameOutside(roots, roots', coll)
  {
    var pk := PrimaryKeyBytes(coll, after);
    if pk.None? {
      pk := PrimaryKeyBytes(coll, before);
    }
    roots' := roots;
    for i := 0 to |coll.indexes|
      invariant Hamt.Ready(cas, U) && Extends(old(cas.objects), cas.objects)
      invariant AllUpdated(cas.H, cas.objects, roots', coll, i, before, after)
      invariant AllInStepOrMissing(cas.H, cas.objects, roots', coll, i, before)
      invariant SameOutside(roots, roots', coll)
    {
      ghost var objects, was := cas.objects, roots';
      roots' := UpdateIndex(cas, coll, coll.indexes[i], before, after, pk, roots', U);
      NextIndex(cas.H, objects, cas.objects, was, roots', coll, i, before, after);
      assert HasName(coll.indexes, coll.indexes[i].name);
    }
  }

  lemma NextIndex(H: Hasher, a: Objects, b: Objects, roots: IndexRoots, roots': IndexRoots, coll: Collection, i: nat,
                  before: Doc, after: Doc)
    requires NamedIndexes(coll.name, coll.indexes) && i < |coll.indexes| && Extends(a, b)
    requires AllUpdated(H, a, roots, coll, i, before, after) && AllInStepOrMissing(H, a, roots, coll, i, before)
    requires SameElsewhere(roots, roots', coll.indexes[i].name)
    requires Holds(H, b, roots', coll.indexes[i].name, PairAfter(coll, coll.indexes[i], before, after))
    ensures AllUpdated(H, b, roots', coll, i + 1, before, after)
    ensures AllInStepOrMissing(H, b, roots', coll, i + 1, before)
  {
    forall j | 0 <= j < i
      ensures Holds(H, b, roots', coll.indexes[j].name, PairAfter(coll, coll.indexes[j], before, after))
    {
      HoldsLater(H, a, b, roots, roots', coll.indexes[j].name, PairAfter(coll, coll.indexes[j], before, after));
    }
    forall j | i + 1 <= j < |coll.indexes|
      ensures InStepOrMissing(H, b, roots', coll, coll.indexes[j], before)
    {
      if coll.indexes[j].name in roots {
        HoldsLater(H, a, b, roots, roots', coll.indexes[j].name, Pair(coll, coll.indexes[j], before));
      }
    }
  }

  predicate Declared(schema: Schema, name: seq<byte>) {
    exists c :: c in schema && HasName(schema[c].indexes, name)
  }

  /** The schema-wide update: `left` are the collections still to do. */
  ghost predicate Underway(H: Hasher, objects: Objects, roots: IndexRoots, schema: Schema, left: set<seq<byte>>,
                           before: Doc, after: Doc)
  {
    forall c :: c in schema ==>
      if c in left then AllInStepOrMissing(H, objects, roots, schema[c], 0, before)
      else AllUpdated(H, objects, roots, schema[c], |schema[c].indexes|, before, after)
  }

  lemma NextCollection(H: Hasher, a: Objects, b: Objects, roots: IndexRoots, roots': IndexRoots, schema: Schema,
                       left: set<seq<byte>>, c: seq<byte>, before: Doc, after: Doc)
    requires WellNamed(schema) && c in schema && c in left && Extends(a, b)
    requires Underway(H, a, roots, schema, left, before, after) && SameOutside(roots, roots', schema[c])
    requires AllUpdated(H, b, roots', schema[c], |schema[c].indexes|, before, after)
    ensures Underway(H, b, roots', schema, left - {c}, before, after)
  {
    forall d | d in schema && d != c
      ensures if d in left then AllInStepOrMissing(H, b, roots', schema[d], 0, before)
              else AllUpdated(H, b, roots', schema[d], |schema[d].indexes|, before, after)
    {
      OtherCollection(H, a, b, roots, roots', schema, left, c, d, before, after);
    }
  }

  lemma OtherCollection(H: Hasher, a: Objects, b: Objects, roots: IndexRoots, roots': IndexRoots, schema: Schema,
                        left: set<seq<byte>>, c: seq<byte>, d: seq<byte>, before: Doc, after: Doc)
    requires WellNamed(schema) && c in schema && d in schema && d != c && Extends(a, b)
    requires SameOutside(roots, roots', schema[c])
    requires if d in left then AllInStepOrMissing(H, a, roots, schema[d], 0, before)
             else AllUpdated(H, a, roots, schema[d], |schema[d].indexes|, before, after)
    ensures if d in left then AllInStepOrMissing(H, b, roots', schema[d], 0, before)
            else AllUpdated(H, b, roots', schema[d], |schema[d].indexes|, before, after)
  {
    forall i | 0 <= i < |schema[d].indexes|
      ensures if d in left then InStepOrMissing(H, b, roots', schema[d], schema[d].indexes[i], before)
              else Holds(H, b, roots', schema[d].indexes[i].name, PairAfter(schema[d], schema[d].indexes[i], before, after))
    {
      var idx := schema[d].indexes[i];
      if HasName(schema[c].indexes, idx.name) {
        var j :| 0 <= j < |schema[c].indexes| && schema[c].indexes[j].name == idx.name;
        DeclaredOnce(schema, c, j, d, i);
      }
      if d !in left {
        HoldsLater(H, a, b, roots, roots', idx.name, PairAfter(schema[d], idx, before, after));
      } else if idx.name in roots {
        HoldsLater(H, a, b, roots, roots', idx.name, Pair(schema[d], idx, before));
      }
    }
  }

  /**
   * All indexes after a commit, the order of collections being immaterial: each declared index holds the pair of the
   * commit or nothing, and no other index is left. An empty schema leaves everything as it was.
   */
  method UpdateIndexes(cas: Cas, schema: Schema, before: Doc, after: Doc, roots: IndexRoots, ghost U: iset<Record>)
    returns (roots': IndexRoots)
    requires Hamt.Ready(cas, U) && NoZero(cas.H, U) && WellNamed(schema)
    requires forall c :: c in schema ==> AllInStepOrMissing(cas.H, cas.objects, roots, schema[c], 0, before)
    requires forall c :: c in schema ==> AllMayWrite(cas.H, U, schema[c], before, after)
    modifies cas
    ensures Hamt.Ready(cas, U) && Extends(old(cas.objects), cas.objects)
    ensures schema == map[] ==> roots' == roots
    ensures forall c, i :: c in schema && 0 <= i < |schema[c].indexes| ==>
              Holds(cas.H, cas.objects, roots', schema[c].indexes[i].name,
                    PairAfter(schema[c], schema[c].indexes[i], before, after))
    ensures schema != map[] ==> forall n :: n in roots' ==> Declared(schema, n)
  {
    roots' := roots;
    if schema == map[] {
      return;
    }
    var left := schema.Keys;
    while left != {}
      invariant left <= schema.Keys && Hamt.Ready(cas, U) && Extends(old(cas.objects), cas.objects)
      invariant Underway(cas.H, cas.objects, roots', schema, left, before, after)
    {
      var c :| c in left;
      ghost var objects, was := cas.objects, roots';
      roots' := UpdateCollection(cas, schema[c], before, after, roots', U);
      NextCollection(cas.H, objects, cas.objects, was, roots', schema, left, c, before, after);
      left := left - {c};
    }
    roots' := KeepDeclared(cas.H, cas.objects, roots', schema, before, after);
  }

  method KeepDeclared(H: Hasher, ghost objects: Objects, roots: IndexRoots, schema: Schema,
                      ghost before: Doc, ghost after: Doc)
    returns (kept: IndexRoots)
    requires Underway(H, objects, roots, schema, {}, before, after)
    ensures forall n :: n in kept <==> n in roots && Declared(schema, n)
    ensures forall c, i :: c in schema && 0 <= i < |schema[c].indexes| ==>
              Holds(H, objects, kept, schema[c].indexes[i].name,
                    PairAfter(schema[c], schema[c].indexes[i], before, after))
  {
    kept := map n | n in roots && Declared(schema, n) :: roots[n];
    forall c, i | c in schema && 0 <= i < |schema[c].indexes|
      ensures Holds(H, objects, kept, schema[c].indexes[i].name,
                    PairAfter(schema[c], schema[c].indexes[i], before, after))
    {
      var idx := schema[c].indexes[i];
      assert AllUpdated(H, objects, roots, schema[c], |schema[c].indexes|, before, after);
      assert HasName(schema[c].indexes, idx.name) && Declared(schema, idx.name);
      HoldsLater(H, objects, objects, roots, kept, idx.name, PairAfter(schema[c], idx, before, after));
    }
  }

  /** Looking a value up finds the primary key exactly when the value is the one the document has at the path. */
  method LookupIndex(cas: Cas, roots: IndexRoots, idx: IndexDef, value: Datum,
                     ghost pair: Option<(seq<byte>, seq<byte>)>, ghost U: iset<Record>)
    returns (r: Result<Option<seq<byte>>>)
    requires Hamt.Ready(cas, U) && NoZero(cas.H, U) && Holds(cas.H, cas.objects, roots, idx.name, pair)
    ensures r == Ok(if pair.Some? && KeyOf(value) == Some(pair.value.0) then Some(pair.value.1) else None)
  {
    RootFound(cas.H, cas.objects, roots, idx.name, pair, U);
    var root := RootOf(roots, idx.name);
    if root.None? {
      return Ok(None);
    }
    var key := KeyOf(value);
    if key.None? {
      return Ok(None);
    }
    r := Hamt.Get(cas, root, key.value, TrieOf(pair));
  }

  /** What a lookup answers for the pair of a document: its primary key if the value has the key at the path. */
  lemma LookupMeaning(coll: Collection, idx: IndexDef, doc: Doc, value: Datum)
    ensures var pair := Pair(coll, idx, doc);
            (if pair.Some? && KeyOf(value) == Some(pair.value.0) then Some(pair.value.1) else None)
            == if KeyOf(value).Some? && KeyOf(value) == KeyAt(doc, idx.path) then PrimaryKey(coll, doc) else None
  {}
}
