/** The line-oriented text of a schema. */
module StateFile {
  import opened Bytes
  import opened Documents
  import opened PathIndex

  const SPACE: byte := 32
  const NEWLINE: byte := 10
  const HASH_MARK: byte := 35

  // COLLECTION, KEY, INDEX, PATH, TYPE, STRING, INT, BOOL and BYTES.
  const COLLECTION: seq<byte> := [67, 79, 76, 76, 69, 67, 84, 73, 79, 78]
  const KEY: seq<byte> := [75, 69, 89]
  const INDEX: seq<byte> := [73, 78, 68, 69, 88]
  const PATH: seq<byte> := [80, 65, 84, 72]
  const TYPE: seq<byte> := [84, 89, 80, 69]
  const STRING: seq<byte> := [83, 84, 82, 73, 78, 71]
  const INT: seq<byte> := [73, 78, 84]
  const BOOL: seq<byte> := [66, 79, 79, 76]
  const BYTES: seq<byte> := [66, 89, 84, 69, 83]

  /** The comment that heads the file, word by word. */
  const HEADER_WORDS: seq<seq<byte>> := [
    [35],
    [101, 112, 111, 99, 104, 115],
    [115, 99, 104, 101, 109, 97, 46, 115, 116, 97, 116, 101],
    [226, 128, 148],
    [103, 101, 110, 101, 114, 97, 116, 101, 100, 59],
    [112, 114, 101, 102, 101, 114],
    [46, 101, 113, 108],
    [109, 105, 103, 114, 97, 116, 105, 111, 110, 115]
  ]

  const HEADER: seq<byte> := Spaced(HEADER_WORDS)

  // Lines and words.

  predicate IsSpace(b: byte) {
    b == SPACE || 9 <= b <= 13
  }

  function Lines(text: seq<byte>): seq<seq<byte>> {
    LinesFrom([], text)
  }

  function LinesFrom(line: seq<byte>, rest: seq<byte>): seq<seq<byte>>
    decreases |rest|
  {
    if rest == [] then NonEmpty(line)
    else if rest[0] == NEWLINE then [line] + LinesFrom([], rest[1..])
    else LinesFrom(line + [rest[0]], rest[1..])
  }

  /** The words of a line, as trimming and splitting at white space yields them. */
  function WordsOf(line: seq<byte>): seq<seq<byte>> {
    WordsFrom([], line)
  }

  function WordsFrom(word: seq<byte>, rest: seq<byte>): seq<seq<byte>>
    decreases |rest|
  {
    if rest == [] then NonEmpty(word)
    else if IsSpace(rest[0]) then NonEmpty(word) + WordsFrom([], rest[1..])
    else WordsFrom(word + [rest[0]], rest[1..])
  }

  function Spaced(words: seq<seq<byte>>): seq<byte> {
    if words == [] then []
    else if |words| == 1 then words[0]
    else words[0] + [SPACE] + Spaced(words[1..])
  }

  function Ended(lines: seq<seq<byte>>): seq<byte> {
    if lines == [] then [] else lines[0] + [NEWLINE] + Ended(lines[1..])
  }

  predicate Unspaced(w: seq<byte>) {
    forall i :: 0 <= i < |w| ==> !IsSpace(w[i])
  }

  predicate IsWord(w: seq<byte>) {
    w != [] && Unspaced(w)
  }

  /** Whatever the line, its words are words. */
  lemma {:induction false} WordsAreWords(word: seq<byte>, rest: seq<byte>)
    requires Unspaced(word)
    ensures forall i :: 0 <= i < |WordsFrom(word, rest)| ==> IsWord(WordsFrom(word, rest)[i])
    decreases |rest|
  {
    if rest != [] {
      if IsSpace(rest[0]) {
        WordsAreWords([], rest[1..]);
      } else {
        WordsAreWords(word + [rest[0]], rest[1..]);
      }
    }
  }

  lemma {:induction false} WordGoesOn(word: seq<byte>, w: seq<byte>, rest: seq<byte>)
    requires Unspaced(w)
    ensures WordsFrom(word, w + rest) == WordsFrom(word + w, rest)
    decreases |w|
  {
    if w == [] {
      assert w + rest == rest && word + w == word;
    } else {
      assert (w + rest)[0] == w[0] && (w + rest)[1..] == w[1..] + rest;
      WordGoesOn(word + [w[0]], w[1..], rest);
      assert word + [w[0]] + w[1..] == word + w;
    }
  }

  lemma FirstWordCut(w: seq<byte>, more: seq<byte>)
    requires IsWord(w)
    ensures WordsOf(w + ([SPACE] + more)) == [w] + WordsOf(more) && WordsOf(w) == [w]
  {
    assert [] + w == w && w + [] == w && ([SPACE] + more)[1..] == more;
    WordGoesOn([], w, [SPACE] + more);
    WordGoesOn([], w, []);
  }

  lemma {:induction false} WordsBack(words: seq<seq<byte>>)
    requires forall i :: 0 <= i < |words| ==> IsWord(words[i])
    ensures WordsOf(Spaced(words)) == words
  {
    if words != [] {
      var w, more := words[0], Spaced(words[1..]);
      FirstWordCut(w, more);
      assert words == [w] + words[1..];
      if |words| > 1 {
        assert Spaced(words) == w + ([SPACE] + more);
        WordsBack(words[1..]);
      }
    }
  }

  predicate IsLine(line: seq<byte>) {
    forall i :: 0 <= i < |line| ==> line[i] != NEWLINE
  }

  predicate AreLines(lines: seq<seq<byte>>) {
    forall i :: 0 <= i < |lines| ==> IsLine(lines[i])
  }

  lemma {:induction false} LineGoesOn(line: seq<byte>, l: seq<byte>, rest: seq<byte>)
    requires IsLine(l)
    ensures LinesFrom(line, l + rest) == LinesFrom(line + l, rest)
    decreases |l|
  {
    if l == [] {
      assert l + rest == rest && line + l == line;
    } else {
      assert (l + rest)[0] == l[0] && (l + rest)[1..] == l[1..] + rest;
      LineGoesOn(line + [l[0]], l[1..], rest);
      assert line + [l[0]] + l[1..] == line + l;
    }
  }

  lemma {:induction false} LinesBack(lines: seq<seq<byte>>)
    requires AreLines(lines)
    ensures Lines(Ended(lines)) == lines
  {
    if lines != [] {
      var l, more := lines[0], Ended(lines[1..]);
      assert Ended(lines) == l + ([NEWLINE] + more) && [] + l == l;
      LineGoesOn([], l, [NEWLINE] + more);
      assert ([NEWLINE] + more)[1..] == more;
      LinesBack(lines[1..]);
      assert lines == [l] + lines[1..];
    }
  }

  lemma {:induction false} SpacedIsLine(words: seq<seq<byte>>)
    requires forall i :: 0 <= i < |words| ==> Unspaced(words[i])
    ensures IsLine(Spaced(words))
  {
    if |words| > 1 {
      SpacedIsLine(words[1..]);
    }
  }

  lemma {:induction false} FirstWord(word: seq<byte>, rest: seq<byte>)
    requires word != []
    ensures WordsFrom(word, rest) != [] && WordsFrom(word, rest)[0] != [] && WordsFrom(word, rest)[0][0] == word[0]
    decreases |rest|
  {
    if rest != [] && !IsSpace(rest[0]) {
      FirstWord(word + [rest[0]], rest[1..]);
    }
  }

  // Types of fields.

  function Upper(w: seq<byte>): seq<byte> {
    seq(|w|, i requires 0 <= i < |w| => if 97 <= w[i] <= 122 then w[i] - 32 else w[i])
  }

  function TypeWord(ty: FieldType): seq<byte> {
    match ty
    case StringType => STRING
    case IntType => INT
    case BoolType => BOOL
    case BytesType => BYTES
  }

  function ParseType(w: seq<byte>): Option<FieldType> {
    var u := Upper(w);
    if u == STRING then Some(StringType)
    else if u == INT then Some(IntType)
    else if u == BOOL then Some(BoolType)
    else if u == BYTES then Some(BytesType)
    else None
  }

  lemma TypeBack(ty: FieldType)
    ensures ParseType(TypeWord(ty)) == Some(ty) && IsWord(TypeWord(ty))
  {
    assert Upper(TypeWord(ty)) == TypeWord(ty);
  }

  // Reading.

  type Directive = seq<seq<byte>>

  function BeforeDot(name: seq<byte>): seq<byte> {
    if name == [] || name[0] == DOT then [] else [name[0]] + BeforeDot(name[1..])
  }

  datatype Reading = Reading(schema: Schema, current: Option<seq<byte>>)

  predicate Skipped(d: Directive) {
    d == [] || (d[0] != [] && d[0][0] == HASH_MARK)
  }

  function Step(r: Reading, d: Directive): Result<Reading> {
    if Skipped(d) then Ok(r)
    else if d[0] == COLLECTION then
      if |d| < 2 then Err(Error.Codec)
      else Ok(Reading(r.schema[d[1] := Collection(d[1], [], [])], Some(d[1])))
    else if d[0] == KEY then KeyStep(r, d)
    else if d[0] == INDEX then IndexStep(r, d)
    else Err(Error.Codec)
  }

  function KeyStep(r: Reading, d: Directive): Result<Reading> {
    if r.current.None? || |d| < 3 || ParseType(d[2]).None? || r.current.value !in r.schema then Err(Error.Codec) else
      var coll := r.schema[r.current.value];
      var field := FieldDef(d[1], ParseType(d[2]).value);
      Ok(r.(schema := r.schema[r.current.value := coll.(primaryKey := coll.primaryKey + [field])]))
  }

  /** An index line goes to the collection before the first dot of the index name, made on the spot if need be. */
  function IndexStep(r: Reading, d: Directive): Result<Reading> {
    if |d| < 6 || d[2] != PATH || d[4] != TYPE || ParseType(d[5]).None? then Err(Error.Codec) else
      var name := BeforeDot(d[1]);
      var coll := if name in r.schema then r.schema[name] else Collection(name, [], []);
      var index := IndexDef(d[1], d[3], ParseType(d[5]).value);
      Ok(r.(schema := r.schema[name := coll.(indexes := coll.indexes + [index])]))
  }

  function Steps(r: Reading, lines: seq<seq<byte>>): Result<Reading>
    decreases |lines|
  {
    if lines == [] then Ok(r) else
      var r' :- Step(r, WordsOf(lines[0]));
      Steps(r', lines[1..])
  }

  function Parse(text: seq<byte>): Result<Schema> {
    var r :- Steps(Reading(map[], None), Lines(text));
    Ok(r.schema)
  }

  method ParseFile(text: seq<byte>) returns (r: Result<Schema>)
    ensures r == Parse(text)
  {
    var lines := Lines(text);
    var reading := Reading(map[], None);
    for i := 0 to |lines|
      invariant Steps(Reading(map[], None), lines) == Steps(reading, lines[i..])
    {
      assert lines[i..][0] == lines[i] && lines[i..][1..] == lines[i + 1..];
      reading :- Step(reading, WordsOf(lines[i]));
    }
    return Ok(reading.schema);
  }

  // Writing: `order` lists the collections once each, in any order.

  function KeyLine(field: FieldDef): seq<byte> {
    Spaced([KEY, field.path, TypeWord(field.ty)])
  }

  function IndexLine(index: IndexDef): seq<byte> {
    Spaced([INDEX, index.name, PATH, index.path, TYPE, TypeWord(index.ty)])
  }

  function KeyLines(fields: seq<FieldDef>): seq<seq<byte>> {
    seq(|fields|, i requires 0 <= i < |fields| => KeyLine(fields[i]))
  }

  function IndexLines(indexes: seq<IndexDef>): seq<seq<byte>> {
    seq(|indexes|, i requires 0 <= i < |indexes| => IndexLine(indexes[i]))
  }

  function CollectionLines(coll: Collection): seq<seq<byte>> {
    [Spaced([COLLECTION, coll.name])] + KeyLines(coll.primaryKey) + IndexLines(coll.indexes)
  }

  function SchemaLines(schema: Schema, order: seq<seq<byte>>): seq<seq<byte>>
    requires forall i :: 0 <= i < |order| ==> order[i] in schema
  {
    if order == [] then [] else CollectionLines(schema[order[0]]) + SchemaLines(schema, order[1..])
  }

  function ToText(schema: Schema, order: seq<seq<byte>>): seq<byte>
    requires forall i :: 0 <= i < |order| ==> order[i] in schema
  {
    Ended([HEADER] + SchemaLines(schema, order))
  }

  lemma {:induction false} EndedAppend(a: seq<seq<byte>>, b: seq<seq<byte>>)
    ensures Ended(a + b) == Ended(a) + Ended(b)
  {
    if a == [] {
      assert a + b == b;
    } else {
      assert (a + b)[1..] == a[1..] + b;
      EndedAppend(a[1..], b);
    }
  }

  lemma EndedOne(lines: seq<seq<byte>>, l: seq<byte>)
    ensures Ended(lines + [l]) == Ended(lines) + l + [NEWLINE]
  {
    EndedAppend(lines, [l]);
    assert Ended([l]) == l + [NEWLINE] + Ended([l][1..]);
  }

  method WriteCollection(coll: Collection) returns (out: seq<byte>)
    ensures out == Ended(CollectionLines(coll))
  {
    var lines := [Spaced([COLLECTION, coll.name])];
    EndedOne([], lines[0]);
    assert [] + lines == lines == lines + KeyLines(coll.primaryKey[..0]);
    out := lines[0] + [NEWLINE];
    for i := 0 to |coll.primaryKey|
      invariant out == Ended(lines + KeyLines(coll.primaryKey[..i]))
    {
      EndedOne(lines + KeyLines(coll.primaryKey[..i]), KeyLine(coll.primaryKey[i]));
      assert lines + KeyLines(coll.primaryKey[..i]) + [KeyLine(coll.primaryKey[i])]
          == lines + KeyLines(coll.primaryKey[..i + 1]);
      out := out + KeyLine(coll.primaryKey[i]) + [NEWLINE];
    }
    assert coll.primaryKey[..|coll.primaryKey|] == coll.primaryKey;
    lines := lines + KeyLines(coll.primaryKey);
    assert lines + IndexLines(coll.indexes[..0]) == lines;
    for i := 0 to |coll.indexes|
      invariant out == Ended(lines + IndexLines(coll.indexes[..i]))
    {
      EndedOne(lines + IndexLines(coll.indexes[..i]), IndexLine(coll.indexes[i]));
      assert lines + IndexLines(coll.indexes[..i]) + [IndexLine(coll.indexes[i])]
          == lines + IndexLines(coll.indexes[..i + 1]);
      out := out + IndexLine(coll.indexes[i]) + [NEWLINE];
    }
    assert coll.indexes[..|coll.indexes|] == coll.indexes;
  }

  lemma {:induction false} SchemaLinesAppend(schema: Schema, order: seq<seq<byte>>, c: seq<byte>)
    requires c in schema && forall i :: 0 <= i < |order| ==> order[i] in schema
    ensures SchemaLines(schema, order + [c]) == SchemaLines(schema, order) + CollectionLines(schema[c])
  {
    if order == [] {
      assert order + [c] == [c] && [c][1..] == [];
      assert SchemaLines(schema, [c]) == CollectionLines(schema[c]) + SchemaLines(schema, [c][1..]);
    } else {
      assert (order + [c])[1..] == order[1..] + [c];
      SchemaLinesAppend(schema, order[1..], c);
    }
  }

  method ToStateFile(schema: Schema, order: seq<seq<byte>>) returns (out: seq<byte>)
    requires forall i :: 0 <= i < |order| ==> order[i] in schema
    ensures out == ToText(schema, order)
  {
    out := WriteAfter(HEADER, schema, order);
  }

  method WriteAfter(header: seq<byte>, schema: Schema, order: seq<seq<byte>>) returns (out: seq<byte>)
    requires forall i :: 0 <= i < |order| ==> order[i] in schema
    ensures out == Ended([header] + SchemaLines(schema, order))
  {
    out := header + [NEWLINE];
    EndedOne([], header);
    assert [] + [header] == [header] == [header] + SchemaLines(schema, order[..0]);
    for i := 0 to |order|
      invariant out == Ended([header] + SchemaLines(schema, order[..i]))
    {
      assert order[..i + 1] == order[..i] + [order[i]];
      SchemaLinesAppend(schema, order[..i], order[i]);
      var part := WriteCollection(schema[order[i]]);
      EndedAppend([header] + SchemaLines(schema, order[..i]), CollectionLines(schema[order[i]]));
      assert [header] + SchemaLines(schema, order[..i]) + CollectionLines(schema[order[i]])
          == [header] + SchemaLines(schema, order[..i + 1]);
      out := out + part;
    }
    assert order[..|order|] == order;
  }
}

/** Schemas read back from their text. */
module StateFileLaws {
  import opened Bytes
  import opened Documents
  import opened PathIndex
  import opened StateFile

  /** The words of the file, spelled out. */
  lemma WordsSpelled()
    ensures COLLECTION == Ascii("COLLECTION") && KEY == Ascii("KEY") && INDEX == Ascii("INDEX")
    ensures PATH == Ascii("PATH") && TYPE == Ascii("TYPE")
    ensures TypeWord(StringType) == Ascii("STRING") && TypeWord(IntType) == Ascii("INT")
    ensures TypeWord(BoolType) == Ascii("BOOL") && TypeWord(BytesType) == Ascii("BYTES")
  {}

  /** The lines of the file: a collection, a key field and an index. */
  lemma LinesSpelled(name: seq<byte>, field: FieldDef, index: IndexDef)
    ensures Spaced([COLLECTION, name]) == Ascii("COLLECTION ") + name
    ensures KeyLine(field) == Ascii("KEY ") + field.path + Ascii(" ") + TypeWord(field.ty)
    ensures IndexLine(index) ==
            Ascii("INDEX ") + index.name + Ascii(" PATH ") + index.path + Ascii(" TYPE ") + TypeWord(index.ty)
  {
    WordsSpelled();
    SpacedTwo(COLLECTION, name);
    SpacedMore(KEY, field.path, TypeWord(field.ty));
    SpacedTwo(field.path, TypeWord(field.ty));
    var i3 := [TYPE, TypeWord(index.ty)];
    SpacedTwo(TYPE, TypeWord(index.ty));
    SpacedOn(index.path, i3);
    SpacedOn(PATH, [index.path] + i3);
    SpacedOn(index.name, [PATH] + ([index.path] + i3));
    SpacedOn(INDEX, [index.name] + ([PATH] + ([index.path] + i3)));
    assert [INDEX, index.name, PATH, index.path, TYPE, TypeWord(index.ty)]
        == [INDEX] + ([index.name] + ([PATH] + ([index.path] + i3)));
  }

  /** Type names are read in any case. */
  ghost predicate NamesType(w: seq<byte>) {
    var u := Upper(w);
    u == Ascii("STRING") || u == Ascii("INT") || u == Ascii("BOOL") || u == Ascii("BYTES")
  }

  /** Nothing, a comment, or one of the three directives with all that it needs. */
  ghost predicate Understood(r: Reading, d: Directive) {
    || d == [] || (d[0] != [] && d[0][..1] == Ascii("#"))
    || (|d| >= 2 && d[0] == Ascii("COLLECTION"))
    || (|d| >= 3 && d[0] == Ascii("KEY") && NamesType(d[2]) && r.current.Some? && r.current.value in r.schema)
    || (|d| >= 6 && d[0] == Ascii("INDEX") && d[2] == Ascii("PATH") && d[4] == Ascii("TYPE") && NamesType(d[5]))
  }

  lemma LineAccepted(r: Reading, d: Directive)
    ensures Step(r, d).Ok? <==> Understood(r, d)
  {
    WordsSpelled();
    assert Ascii("#") == [HASH_MARK];
    assert COLLECTION[0] != KEY[0] && KEY[0] != INDEX[0] && INDEX[0] != COLLECTION[0];
  }

  lemma SpacedOn(w: seq<byte>, more: seq<seq<byte>>)
    requires more != []
    ensures Spaced([w] + more) == w + [SPACE] + Spaced(more)
  {
    assert ([w] + more)[1..] == more;
  }

  lemma SpacedTwo(v: seq<byte>, w: seq<byte>)
    ensures Spaced([v, w]) == v + [SPACE] + w
  {
    SpacedOn(v, [w]);
    assert [v] + [w] == [v, w];
  }

  lemma SpacedMore(u: seq<byte>, v: seq<byte>, w: seq<byte>)
    ensures Spaced([u, v, w]) == u + [SPACE] + Spaced([v, w])
  {
    SpacedOn(u, [v, w]);
    assert [u] + [v, w] == [u, v, w];
  }

  /** Names and paths that are words. */
  ghost predicate Writable(coll: Collection) {
    && IsWord(coll.name)
    && (forall i :: 0 <= i < |coll.primaryKey| ==> IsWord(coll.primaryKey[i].path))
    && (forall i :: 0 <= i < |coll.indexes| ==> IsWord(coll.indexes[i].path))
  }

  /** What any text can name: the name may be empty, but there is no white space. */
  ghost predicate Readable(coll: Collection) {
    && Unspaced(coll.name)
    && (forall i :: 0 <= i < |coll.primaryKey| ==> IsWord(coll.primaryKey[i].path))
    && (forall i :: 0 <= i < |coll.indexes| ==> IsWord(coll.indexes[i].path))
  }

  /** The collections, each once. */
  ghost predicate Listing(schema: Schema, order: seq<seq<byte>>) {
    && (forall c :: c in schema <==> c in order)
    && (forall i, j :: 0 <= i < j < |order| ==> order[i] != order[j])
  }

  predicate DotFree(name: seq<byte>) {
    DOT !in name
  }

  // One line at a time.

  lemma IndexNameIsWord(c: seq<byte>, path: seq<byte>)
    requires Unspaced(c) && IsWord(path)
    ensures IsWord(IndexName(c, path))
  {
    var n := IndexName(c, path);
    forall i | 0 <= i < |n|
      ensures !IsSpace(n[i])
    {
      if |c| <= i < |c| + 4 {
        assert n[i] == BY[i - |c|];
      } else if i >= |c| + 4 {
        assert n[i] == Slug(path)[i - |c| - 4];
      }
    }
  }

  lemma {:induction false} BeforeDotOfName(c: seq<byte>, rest: seq<byte>)
    requires DotFree(c) && rest != [] && rest[0] == DOT
    ensures BeforeDot(c + rest) == c
  {
    if c == [] {
      assert c + rest == rest;
    } else {
      assert (c + rest)[0] == c[0] && (c + rest)[1..] == c[1..] + rest;
      BeforeDotOfName(c[1..], rest);
    }
  }

  lemma {:induction false} BeforeDotIsDotFree(name: seq<byte>)
    ensures DotFree(BeforeDot(name))
  {
    if name != [] && name[0] != DOT {
      BeforeDotIsDotFree(name[1..]);
    }
  }

  lemma KeyRead(r: Reading, field: FieldDef)
    requires r.current.Some? && r.current.value in r.schema && IsWord(field.path)
    ensures var coll := r.schema[r.current.value];
            Step(r, WordsOf(KeyLine(field)))
            == Ok(r.(schema := r.schema[r.current.value := coll.(primaryKey := coll.primaryKey + [field])]))
  {
    TypeBack(field.ty);
    WordsBack([KEY, field.path, TypeWord(field.ty)]);
  }

  lemma IndexRead(r: Reading, c: seq<byte>, index: IndexDef)
    requires c in r.schema && IsWord(c) && DotFree(c) && IsWord(index.path) && index.name == IndexName(c, index.path)
    ensures Step(r, WordsOf(IndexLine(index)))
         == Ok(r.(schema := r.schema[c := r.schema[c].(indexes := r.schema[c].indexes + [index])]))
  {
    TypeBack(index.ty);
    IndexNameIsWord(c, index.path);
    WordsBack([INDEX, index.name, PATH, index.path, TYPE, TypeWord(index.ty)]);
    assert index.name == c + (BY + Slug(index.path));
    BeforeDotOfName(c, BY + Slug(index.path));
  }

  lemma CollectionRead(r: Reading, c: seq<byte>)
    requires IsWord(c)
    ensures Step(r, WordsOf(Spaced([COLLECTION, c]))) == Ok(Reading(r.schema[c := Collection(c, [], [])], Some(c)))
  {
    WordsBack([COLLECTION, c]);
  }

  // A collection at a time.

  lemma {:induction false} KeysRead(schema: Schema, coll: Collection, n: nat, rest: seq<seq<byte>>)
    requires Writable(coll) && n <= |coll.primaryKey|
    ensures Steps(Reading(schema[coll.name := coll.(primaryKey := coll.primaryKey[..n], indexes := [])], Some(coll.name)),
                  KeyLines(coll.primaryKey)[n..] + rest)
         == Steps(Reading(schema[coll.name := coll.(indexes := [])], Some(coll.name)), rest)
    decreases |coll.primaryKey| - n
  {
    var lines := KeyLines(coll.primaryKey)[n..] + rest;
    if n == |coll.primaryKey| {
      assert lines == rest && coll.primaryKey[..n] == coll.primaryKey;
    } else {
      var field := coll.primaryKey[n];
      var part := coll.(primaryKey := coll.primaryKey[..n], indexes := []);
      var r := Reading(schema[coll.name := part], Some(coll.name));
      assert lines[0] == KeyLine(field) && lines[1..] == KeyLines(coll.primaryKey)[n + 1..] + rest;
      KeyRead(r, field);
      assert coll.primaryKey[..n] + [field] == coll.primaryKey[..n + 1];
      assert schema[coll.name := part][coll.name := coll.(primaryKey := coll.primaryKey[..n + 1], indexes := [])]
          == schema[coll.name := coll.(primaryKey := coll.primaryKey[..n + 1], indexes := [])];
      KeysRead(schema, coll, n + 1, rest);
    }
  }

  lemma {:induction false} IndexesRead(schema: Schema, coll: Collection, n: nat, rest: seq<seq<byte>>)
    requires Writable(coll) && NamedIndexes(coll.name, coll.indexes) && n <= |coll.indexes|
    requires coll.indexes != [] ==> DotFree(coll.name)
    ensures Steps(Reading(schema[coll.name := coll.(indexes := coll.indexes[..n])], Some(coll.name)),
                  IndexLines(coll.indexes)[n..] + rest)
         == Steps(Reading(schema[coll.name := coll], Some(coll.name)), rest)
    decreases |coll.indexes| - n
  {
    var lines := IndexLines(coll.indexes)[n..] + rest;
    if n == |coll.indexes| {
      assert lines == rest && coll.indexes[..n] == coll.indexes;
    } else {
      var index := coll.indexes[n];
      var part := coll.(indexes := coll.indexes[..n]);
      var r := Reading(schema[coll.name := part], Some(coll.name));
      assert lines[0] == IndexLine(index) && lines[1..] == IndexLines(coll.indexes)[n + 1..] + rest;
      IndexRead(r, coll.name, index);
      assert coll.indexes[..n] + [index] == coll.indexes[..n + 1];
      assert schema[coll.name := part][coll.name := coll.(indexes := coll.indexes[..n + 1])]
          == schema[coll.name := coll.(indexes := coll.indexes[..n + 1])];
      IndexesRead(schema, coll, n + 1, rest);
    }
  }

  lemma LinesRead(r: Reading, coll: Collection, rest: seq<seq<byte>>)
    requires Writable(coll) && NamedIndexes(coll.name, coll.indexes)
    requires coll.indexes != [] ==> DotFree(coll.name)
    ensures Steps(r, CollectionLines(coll) + rest)
         == Steps(Reading(r.schema[coll.name := coll], Some(coll.name)), rest)
  {
    var first := Spaced([COLLECTION, coll.name]);
    var indexes := IndexLines(coll.indexes) + rest;
    var keys := KeyLines(coll.primaryKey) + indexes;
    assert CollectionLines(coll) + rest == [first] + keys;
    assert ([first] + keys)[1..] == keys;
    CollectionRead(r, coll.name);
    KeysRead(r.schema, coll, 0, indexes);
    IndexesRead(r.schema, coll, 0, rest);
    assert KeyLines(coll.primaryKey)[0..] == KeyLines(coll.primaryKey);
    assert IndexLines(coll.indexes)[0..] == IndexLines(coll.indexes);
    assert coll.primaryKey[..0] == [] && coll.indexes[..0] == [];
  }

  // The whole file.

  ghost predicate Separate(schema: Schema) {
    forall c :: c in schema && schema[c].indexes != [] ==> DotFree(c)
  }

  ghost predicate AllWritable(schema: Schema) {
    forall c :: c in schema ==> Writable(schema[c])
  }

  ghost predicate AllReadable(schema: Schema) {
    forall c :: c in schema ==> Readable(schema[c])
  }

  function Only(schema: Schema, order: seq<seq<byte>>): Schema {
    map c | c in schema && c in order :: schema[c]
  }

  lemma {:induction false} SchemaRead(schema: Schema, order: seq<seq<byte>>, n: nat, current: Option<seq<byte>>)
    requires WellNamed(schema) && AllWritable(schema) && Separate(schema) && n <= |order|
    requires forall i :: 0 <= i < |order| ==> order[i] in schema
    ensures var r := Steps(Reading(Only(schema, order[..n]), current), SchemaLines(schema, order[n..]));
            r.Ok? && r.value.schema == Only(schema, order)
    decreases |order| - n
  {
    if n == |order| {
      assert order[..n] == order && order[n..] == [];
    } else {
      var c := order[n];
      assert order[n..][0] == c && order[n..][1..] == order[n + 1..];
      LinesRead(Reading(Only(schema, order[..n]), current), schema[c], SchemaLines(schema, order[n + 1..]));
      assert order[..n + 1] == order[..n] + [c];
      assert Only(schema, order[..n])[c := schema[c]] == Only(schema, order[..n + 1]);
      SchemaRead(schema, order, n + 1, Some(c));
    }
  }

  lemma CommentSkipped(r: Reading, line: seq<byte>)
    requires line != [] && line[0] == HASH_MARK
    ensures Step(r, WordsOf(line)) == Ok(r)
  {
    assert [] + [line[0]] == [line[0]];
    FirstWord([line[0]], line[1..]);
  }

  lemma {:induction false} AllLines(schema: Schema, order: seq<seq<byte>>)
    requires WellNamed(schema) && AllReadable(schema) && forall i :: 0 <= i < |order| ==> order[i] in schema
    ensures AreLines(SchemaLines(schema, order))
  {
    if order != [] {
      AllLines(schema, order[1..]);
      CollectionIsLines(schema[order[0]]);
      BothAreLines(CollectionLines(schema[order[0]]), SchemaLines(schema, order[1..]));
    }
  }

  lemma BothAreLines(a: seq<seq<byte>>, b: seq<seq<byte>>)
    requires AreLines(a) && AreLines(b)
    ensures AreLines(a + b)
  {}

  lemma CollectionIsLines(coll: Collection)
    requires Readable(coll) && NamedIndexes(coll.name, coll.indexes)
    ensures AreLines(CollectionLines(coll))
  {
    SpacedIsLine([COLLECTION, coll.name]);
    forall i | 0 <= i < |coll.primaryKey|
      ensures IsLine(KeyLine(coll.primaryKey[i]))
    {
      TypeBack(coll.primaryKey[i].ty);
      SpacedIsLine([KEY, coll.primaryKey[i].path, TypeWord(coll.primaryKey[i].ty)]);
    }
    forall i | 0 <= i < |coll.indexes|
      ensures IsLine(IndexLine(coll.indexes[i]))
    {
      var index := coll.indexes[i];
      TypeBack(index.ty);
      IndexNameIsWord(coll.name, index.path);
      SpacedIsLine([INDEX, index.name, PATH, index.path, TYPE, TypeWord(index.ty)]);
    }
  }

  lemma TextRead(schema: Schema, order: seq<seq<byte>>)
    requires WellNamed(schema) && AllReadable(schema) && forall i :: 0 <= i < |order| ==> order[i] in schema
    ensures Steps(Reading(map[], None), Lines(ToText(schema, order)))
         == Steps(Reading(map[], None), SchemaLines(schema, order))
  {
    AllLines(schema, order);
    HeaderIsComment();
    HeadedRead(Reading(map[], None), HEADER, SchemaLines(schema, order));
  }

  lemma HeaderIsComment()
    ensures HEADER != [] && HEADER[0] == HASH_MARK && IsLine(HEADER)
  {
    forall i | 0 <= i < |HEADER_WORDS|
      ensures IsWord(HEADER_WORDS[i])
    {}
    SpacedIsLine(HEADER_WORDS);
    SpacedFirst(HEADER_WORDS);
  }

  lemma SpacedFirst(words: seq<seq<byte>>)
    requires words != [] && words[0] != []
    ensures Spaced(words) != [] && Spaced(words)[0] == words[0][0]
  {}

  lemma HeadedRead(r: Reading, header: seq<byte>, lines: seq<seq<byte>>)
    requires IsLine(header) && header != [] && header[0] == HASH_MARK && AreLines(lines)
    ensures Steps(r, Lines(Ended([header] + lines))) == Steps(r, lines)
  {
    BothAreLines([header], lines);
    LinesBack([header] + lines);
    CommentSkipped(r, header);
    FirstStep(r, r, header, lines);
  }

  lemma FirstStep(r: Reading, r': Reading, line: seq<byte>, lines: seq<seq<byte>>)
    requires Step(r, WordsOf(line)) == Ok(r')
    ensures Steps(r, [line] + lines) == Steps(r', lines)
  {
    assert ([line] + lines)[1..] == lines;
  }

  // What no text can say: an index of a collection whose name has a dot.

  ghost predicate DottedBare(schema: Schema) {
    forall c :: c in schema && !DotFree(c) ==> schema[c].indexes == []
  }

  lemma StepDotted(r: Reading, d: Directive)
    requires DottedBare(r.schema)
    ensures var r' := Step(r, d); r'.Ok? ==> DottedBare(r'.value.schema)
  {
    if |d| >= 2 {
      BeforeDotIsDotFree(d[1]);
    }
  }

  lemma {:induction false} StepsDotted(r: Reading, lines: seq<seq<byte>>)
    requires DottedBare(r.schema)
    ensures var r' := Steps(r, lines); r'.Ok? ==> DottedBare(r'.value.schema)
    decreases |lines|
  {
    if lines != [] {
      StepDotted(r, WordsOf(lines[0]));
      if Step(r, WordsOf(lines[0])).Ok? {
        StepsDotted(Step(r, WordsOf(lines[0])).value, lines[1..]);
      }
    }
  }

  // What no text can say: a name or a path with white space, or an empty path.

  lemma {:induction false} BeforeDotUnspaced(name: seq<byte>)
    requires Unspaced(name)
    ensures Unspaced(BeforeDot(name))
  {
    if name != [] && name[0] != DOT {
      BeforeDotUnspaced(name[1..]);
    }
  }

  lemma StepReadable(r: Reading, d: Directive)
    requires AllReadable(r.schema) && forall i :: 0 <= i < |d| ==> IsWord(d[i])
    ensures var r' := Step(r, d); r'.Ok? ==> AllReadable(r'.value.schema)
  {
    if |d| >= 2 {
      BeforeDotUnspaced(d[1]);
    }
  }

  lemma {:induction false} StepsReadable(r: Reading, lines: seq<seq<byte>>)
    requires AllReadable(r.schema)
    ensures var r' := Steps(r, lines); r'.Ok? ==> AllReadable(r'.value.schema)
    decreases |lines|
  {
    if lines != [] {
      WordsAreWords([], lines[0]);
      StepReadable(r, WordsOf(lines[0]));
      if Step(r, WordsOf(lines[0])).Ok? {
        StepsReadable(Step(r, WordsOf(lines[0])).value, lines[1..]);
      }
    }
  }

  // What no text can say: a collection without a name.

  lemma NamelessFails(r: Reading)
    ensures Step(r, WordsOf(Spaced([COLLECTION, []]))).Err?
  {
    FirstWordCut(COLLECTION, []);
    assert Spaced([COLLECTION, []]) == COLLECTION + ([SPACE] + []);
  }

  lemma {:induction false} StepsFail(r: Reading, lines: seq<seq<byte>>, i: nat)
    requires i < |lines| && lines[i] == Spaced([COLLECTION, []])
    ensures Steps(r, lines).Err?
    decreases |lines|
  {
    if i == 0 {
      NamelessFails(r);
    } else if Step(r, WordsOf(lines[0])).Ok? {
      StepsFail(Step(r, WordsOf(lines[0])).value, lines[1..], i - 1);
    }
  }

  lemma {:induction false} LineOf(schema: Schema, order: seq<seq<byte>>, n: nat)
    requires n < |order| && forall i :: 0 <= i < |order| ==> order[i] in schema
    ensures Spaced([COLLECTION, schema[order[n]].name]) in SchemaLines(schema, order)
  {
    if n == 0 {
      assert SchemaLines(schema, order)[0] == CollectionLines(schema[order[0]])[0];
    } else {
      LineOf(schema, order[1..], n - 1);
    }
  }

  lemma NamelessLost(schema: Schema, order: seq<seq<byte>>)
    requires WellNamed(schema) && AllReadable(schema) && Listing(schema, order) && [] in schema
    ensures Parse(ToText(schema, order)).Err?
  {
    TextRead(schema, order);
    var n :| 0 <= n < |order| && order[n] == [];
    LineOf(schema, order, n);
    var lines := SchemaLines(schema, order);
    var i :| 0 <= i < |lines| && lines[i] == Spaced([COLLECTION, []]);
    StepsFail(Reading(map[], None), lines, i);
  }

  /**
   * The text of a schema built by statements reads back as that schema exactly when its names and paths are words and
   * no collection with indexes has a dot in its name.
   */
  lemma StateRoundTrip(schema: Schema, order: seq<seq<byte>>)
    requires WellNamed(schema) && Listing(schema, order)
    ensures Parse(ToText(schema, order)) == Ok(schema) <==> AllWritable(schema) && Separate(schema)
  {
    if Parse(ToText(schema, order)) == Ok(schema) {
      ReadBackOnly(schema, order);
    }
    if AllWritable(schema) && Separate(schema) {
      WrittenReadsBack(schema, order);
    }
  }

  lemma WrittenReadsBack(schema: Schema, order: seq<seq<byte>>)
    requires WellNamed(schema) && Listing(schema, order) && AllWritable(schema) && Separate(schema)
    ensures Parse(ToText(schema, order)) == Ok(schema)
  {
    TextRead(schema, order);
    assert order[..0] == [] && order[0..] == order;
    assert Only(schema, []) == map[] && Only(schema, order) == schema;
    SchemaRead(schema, order, 0, None);
  }

  lemma ReadBackOnly(schema: Schema, order: seq<seq<byte>>)
    requires WellNamed(schema) && Listing(schema, order) && Parse(ToText(schema, order)) == Ok(schema)
    ensures AllWritable(schema) && Separate(schema)
  {
    StepsReadable(Reading(map[], None), Lines(ToText(schema, order)));
    StepsDotted(Reading(map[], None), Lines(ToText(schema, order)));
    if [] in schema {
      NamelessLost(schema, order);
    }
  }

  function OneIndex(name: seq<byte>, path: seq<byte>): Schema {
    map[name := Collection(name, [], [IndexDef(IndexName(name, path), path, StringType)])]
  }

  lemma OneIndexLost(name: seq<byte>, path: seq<byte>)
    ensures var schema := OneIndex(name, path);
            && WellNamed(schema) && Listing(schema, [name])
            && (IsWord(name) && IsWord(path) && DotFree(name) <==> Parse(ToText(schema, [name])) == Ok(schema))
  {
    var schema := OneIndex(name, path);
    assert [name][0] == name && schema[name].indexes != [] && schema[name].indexes[0].path == path;
    StateRoundTrip(schema, [name]);
  }

  lemma LostIf(name: seq<byte>, path: seq<byte>)
    requires !DotFree(name) || !IsWord(path)
    ensures WellNamed(OneIndex(name, path)) && Listing(OneIndex(name, path), [name])
    ensures Parse(ToText(OneIndex(name, path), [name])) != Ok(OneIndex(name, path))
  {
    OneIndexLost(name, path);
  }

  /** The collection `a.b` with an index on `x`: its text gives the index to a collection `a`. */
  lemma DottedExample()
    ensures var name: seq<byte>, path: seq<byte> := [97, DOT, 98], [120];
            && IsWord(name) && IsWord(path) && WellNamed(OneIndex(name, path)) && Listing(OneIndex(name, path), [name])
            && Parse(ToText(OneIndex(name, path), [name])) != Ok(OneIndex(name, path))
  {
    var name: seq<byte> := [97, DOT, 98];
    assert name[1] == DOT;
    LostIf(name, [120]);
  }

  /** The collection `a` with an index on the empty path. */
  lemma EmptyPathExample()
    ensures var name: seq<byte> := [97];
            && IsWord(name) && DotFree(name) && WellNamed(OneIndex(name, [])) && Listing(OneIndex(name, []), [name])
            && Parse(ToText(OneIndex(name, []), [name])) != Ok(OneIndex(name, []))
  {
    LostIf([97], []);
  }
}
