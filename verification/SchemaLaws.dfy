/** What a history of schema statements leaves behind. */
module SchemaLaws {
  import opened Bytes
  import opened Documents
  import opened PathIndex

  ghost predicate Declares(schema: Schema, c: seq<byte>, d: IndexDef) {
    c in schema && d in schema[c].indexes
  }

  ghost predicate Creates(stmt: Statement, c: seq<byte>, d: IndexDef) {
    stmt == CreateIndex(c, d.path, d.ty) && d.name == c + Ascii(".by_") + Slug(d.path)
  }

  ghost predicate Drops(stmt: Statement, c: seq<byte>, d: IndexDef) {
    stmt.DropIndex? && stmt.collection == c && Slug(stmt.path) == Slug(d.path)
  }

  lemma NameSpelled(c: seq<byte>, path: seq<byte>)
    ensures IndexName(c, path) == c + Ascii(".by_") + Slug(path)
  {
    assert BY == Ascii(".by_");
  }

  /** One statement declares, keeps or drops an index. */
  lemma StepIndexes(schema: Schema, stmt: Statement, c: seq<byte>, d: IndexDef)
    requires WellNamed(schema) && Apply(schema, stmt).Ok?
    ensures Declares(Apply(schema, stmt).value, c, d) <==>
              Creates(stmt, c, d) || (Declares(schema, c, d) && !Drops(stmt, c, d))
  {
    NameSpelled(c, d.path);
    if stmt.DropIndex? && stmt.collection == c {
      WithoutNamed(c, schema[c].indexes, IndexName(c, stmt.path), stmt.path);
      if Declares(schema, c, d) {
        var i :| 0 <= i < |schema[c].indexes| && schema[c].indexes[i] == d;
        IndexNameInjective(c, d.path, c, stmt.path);
      }
    }
  }

  /** The index was created and not dropped since. */
  ghost predicate Standing(stmts: seq<Statement>, c: seq<byte>, d: IndexDef) {
    exists i :: 0 <= i < |stmts| && Creates(stmts[i], c, d) && forall j :: i < j < |stmts| ==> !Drops(stmts[j], c, d)
  }

  lemma {:induction false} HistoryNamed(stmts: seq<Statement>)
    requires ApplyAll(map[], stmts).Ok?
    ensures WellNamed(ApplyAll(map[], stmts).value)
  {
    if stmts != [] {
      HistoryNamed(stmts[..|stmts| - 1]);
      ApplyNamed(ApplyAll(map[], stmts[..|stmts| - 1]).value, stmts[|stmts| - 1]);
    }
  }

  /** The declared indexes are those created and not dropped since, with their paths and types. */
  lemma {:induction false} IndexHistory(stmts: seq<Statement>, c: seq<byte>, d: IndexDef)
    requires ApplyAll(map[], stmts).Ok?
    ensures Declares(ApplyAll(map[], stmts).value, c, d) <==> Standing(stmts, c, d)
  {
    if stmts != [] {
      var n := |stmts| - 1;
      IndexHistory(stmts[..n], c, d);
      HistoryNamed(stmts[..n]);
      StepIndexes(ApplyAll(map[], stmts[..n]).value, stmts[n], c, d);
      StandingStep(stmts, c, d);
    }
  }

  lemma StandingStep(stmts: seq<Statement>, c: seq<byte>, d: IndexDef)
    requires stmts != []
    ensures var n := |stmts| - 1;
            Standing(stmts, c, d) <==> Creates(stmts[n], c, d) || (Standing(stmts[..n], c, d) && !Drops(stmts[n], c, d))
  {
    var n := |stmts| - 1;
    if i :| 0 <= i < n && Creates(stmts[..n][i], c, d) && forall j :: i < j < n ==> !Drops(stmts[..n][j], c, d) {
      if !Drops(stmts[n], c, d) {
        assert Creates(stmts[i], c, d);
        assert forall j :: i < j < n ==> stmts[..n][j] == stmts[j];
      }
    }
    if i :| 0 <= i <= n && Creates(stmts[i], c, d) && forall j :: i < j <= n ==> !Drops(stmts[j], c, d) {
      if i < n {
        assert Creates(stmts[..n][i], c, d);
      }
    }
  }

  /** The collections are those created, each once, with the key fields it was created with. */
  lemma {:induction false} CollectionHistory(stmts: seq<Statement>, c: seq<byte>)
    requires ApplyAll(map[], stmts).Ok?
    ensures var schema := ApplyAll(map[], stmts).value;
            && (c in schema <==> exists i :: 0 <= i < |stmts| && stmts[i].CreateCollection? && stmts[i].name == c)
            && (forall i :: 0 <= i < |stmts| && stmts[i].CreateCollection? && stmts[i].name == c ==>
                  schema[c].name == c && schema[c].primaryKey == stmts[i].keys)
  {
    if stmts != [] {
      var n := |stmts| - 1;
      CollectionHistory(stmts[..n], c);
      assert forall i :: 0 <= i < n ==> stmts[..n][i] == stmts[i];
      if i :| 0 <= i < n && stmts[..n][i].CreateCollection? && stmts[..n][i].name == c {
        assert stmts[i].CreateCollection? && stmts[i].name == c;
      }
    }
  }

  // Refusals.

  lemma {:induction false} WithoutLength(indexes: seq<IndexDef>, name: seq<byte>, path: seq<byte>)
    ensures |Without(indexes, name, path)| <= |indexes|
    ensures |Without(indexes, name, path)| == |indexes| <==>
              forall i :: 0 <= i < |indexes| ==> indexes[i].name != name && indexes[i].path != path
  {
    if indexes != [] {
      var n := |indexes| - 1;
      WithoutLength(indexes[..n], name, path);
      assert forall i :: 0 <= i < n ==> indexes[..n][i] == indexes[i];
    }
  }

  /** An index of the collection has the path, up to dots and underscores. */
  ghost predicate Indexed(schema: Schema, c: seq<byte>, path: seq<byte>)
    requires c in schema
  {
    exists i :: 0 <= i < |schema[c].indexes| && Slug(schema[c].indexes[i].path) == Slug(path)
  }

  /** A collection must be new; an index needs its collection, and must be new to be created and there to be dropped. */
  lemma StatementRefused(schema: Schema, stmt: Statement)
    requires WellNamed(schema)
    ensures Apply(schema, stmt).Err? <==>
              match stmt
              case CreateCollection(name, _) => name in schema
              case CreateIndex(c, path, _) => c !in schema || Indexed(schema, c, path)
              case DropIndex(c, path) => c !in schema || !Indexed(schema, c, path)
  {
    if !stmt.CreateCollection? && stmt.collection in schema {
      var c, path := stmt.collection, stmt.path;
      var indexes := schema[c].indexes;
      forall i | 0 <= i < |indexes|
        ensures indexes[i].name == IndexName(c, path) <==> Slug(indexes[i].path) == Slug(path)
        ensures indexes[i].path == path ==> Slug(indexes[i].path) == Slug(path)
      {
        IndexNameInjective(c, indexes[i].path, c, path);
      }
      WithoutLength(indexes, IndexName(c, path), path);
    }
  }
}
