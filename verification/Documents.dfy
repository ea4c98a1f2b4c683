/** Documents, path extraction, primary keys and the names of indexes. */
module Documents {
  import opened Bytes

  /** A runtime value. A float is represented by its decimal text, the only thing an index sees of it. */
  datatype Datum =
    | Null
    | Bool(b: bool)
    | Int(n: int)
    | Float(text: seq<byte>)
    | Str(s: seq<byte>)
    | Map(m: map<seq<byte>, Datum>)

  type Doc = map<seq<byte>, Datum>

  const DOT: byte := 46
  const UNDERSCORE: byte := 95
  const TRUE: seq<byte> := [116, 114, 117, 101]
  const FALSE: seq<byte> := [102, 97, 108, 115, 101]

  // Paths.

  /** The non-empty parts of a dotted path. */
  function Parts(path: seq<byte>): seq<seq<byte>> {
    PartsFrom([], path)
  }

  function PartsFrom(part: seq<byte>, rest: seq<byte>): seq<seq<byte>>
    decreases |rest|
  {
    if rest == [] then NonEmpty(part)
    else if rest[0] == DOT then NonEmpty(part) + PartsFrom([], rest[1..])
    else PartsFrom(part + [rest[0]], rest[1..])
  }

  function NonEmpty(part: seq<byte>): seq<seq<byte>> {
    if part == [] then [] else [part]
  }

  function Descend(v: Datum, parts: seq<seq<byte>>): Option<Datum>
    decreases |parts|
  {
    if parts == [] then Some(v)
    else if v.Map? && parts[0] in v.m then Descend(v.m[parts[0]], parts[1..])
    else None
  }

  /** The value at a path: under the whole path as a key, or by walking through nested maps. */
  function Extract(doc: Doc, path: seq<byte>): Option<Datum> {
    if path in doc then Some(doc[path]) else
      var parts := Parts(path);
      if parts == [] || parts[0] !in doc then None else Descend(doc[parts[0]], parts[1..])
  }

  method ExtractPath(doc: Doc, path: seq<byte>) returns (r: Option<Datum>)
    ensures r == Extract(doc, path)
  {
    if path in doc {
      return Some(doc[path]);
    }
    var parts := Parts(path);
    if parts == [] || parts[0] !in doc {
      return None;
    }
    var current := doc[parts[0]];
    for i := 1 to |parts|
      invariant Extract(doc, path) == Descend(current, parts[i..])
    {
      assert parts[i..][0] == parts[i] && parts[i..][1..] == parts[i + 1..];
      if !current.Map? || parts[i] !in current.m {
        return None;
      }
      current := current.m[parts[i]];
    }
    return Some(current);
  }

  // Keys.

  function Decimal(n: nat): seq<byte> {
    if n < 10 then [48 + n] else Decimal(n / 10) + [48 + n % 10]
  }

  /** The bytes under which a value is indexed; null and maps are not indexed. */
  function KeyOf(v: Datum): Option<seq<byte>> {
    match v
    case Null => None
    case Bool(b) => Some(if b then TRUE else FALSE)
    case Int(n) => Some(if n < 0 then [45] + Decimal(-n) else Decimal(n))
    case Float(text) => Some(text)
    case Str(s) => Some(s)
    case Map(_) => None
  }

  function KeyAt(doc: Doc, path: seq<byte>): Option<seq<byte>> {
    match Extract(doc, path)
    case None => None
    case Some(v) => KeyOf(v)
  }

  datatype FieldType = StringType | IntType | BoolType | BytesType

  datatype FieldDef = FieldDef(path: seq<byte>, ty: FieldType)

  datatype IndexDef = IndexDef(name: seq<byte>, path: seq<byte>, ty: FieldType)

  datatype Collection = Collection(name: seq<byte>, primaryKey: seq<FieldDef>, indexes: seq<IndexDef>)

  const ID: seq<byte> := [105, 100]
  const UNIT_SEPARATOR: byte := 0x1F

  function Keys(doc: Doc, fields: seq<FieldDef>): Option<seq<seq<byte>>> {
    if fields == [] then Some([]) else
      match (Keys(doc, fields[..|fields| - 1]), KeyAt(doc, fields[|fields| - 1].path))
      case (Some(ks), Some(k)) => Some(ks + [k])
      case _ => None
  }

  function Join(parts: seq<seq<byte>>): seq<byte> {
    if parts == [] then []
    else if |parts| == 1 then parts[0]
    else Join(parts[..|parts| - 1]) + [UNIT_SEPARATOR] + parts[|parts| - 1]
  }

  /** The primary key: the keys of its fields joined by the unit separator, or the key of `id` without fields. */
  function PrimaryKey(coll: Collection, doc: Doc): Option<seq<byte>> {
    if coll.primaryKey == [] then KeyAt(doc, ID) else
      match Keys(doc, coll.primaryKey)
      case None => None
      case Some(parts) => Some(Join(parts))
  }

  lemma {:induction false} KeysPrefix(doc: Doc, fields: seq<FieldDef>, i: nat)
    requires i <= |fields| && Keys(doc, fields[..i]).None?
    ensures Keys(doc, fields).None?
    decreases |fields|
  {
    if i < |fields| {
      assert fields[..|fields| - 1][..i] == fields[..i];
      KeysPrefix(doc, fields[..|fields| - 1], i);
    } else {
      assert fields[..i] == fields;
    }
  }

  method JoinParts(parts: seq<seq<byte>>) returns (out: seq<byte>)
    ensures out == Join(parts)
  {
    out := [];
    for i := 0 to |parts|
      invariant out == Join(parts[..i])
    {
      assert parts[..i + 1][..i] == parts[..i];
      if i > 0 {
        out := out + [UNIT_SEPARATOR];
      }
      out := out + parts[i];
    }
    assert parts[..|parts|] == parts;
  }

  method PrimaryKeyBytes(coll: Collection, doc: Doc) returns (r: Option<seq<byte>>)
    ensures r == PrimaryKey(coll, doc)
  {
    if coll.primaryKey == [] {
      var v := ExtractPath(doc, ID);
      return match v case None => None case Some(d) => KeyOf(d);
    }
    var fields := coll.primaryKey;
    var parts := [];
    for i := 0 to |fields|
      invariant |parts| == i && Keys(doc, fields[..i]) == Some(parts)
    {
      assert fields[..i + 1][..i] == fields[..i];
      var v := ExtractPath(doc, fields[i].path);
      if v.None? || KeyOf(v.value).None? {
        KeysPrefix(doc, fields, i + 1);
        return None;
      }
      parts := parts + [KeyOf(v.value).value];
    }
    assert fields[..|fields|] == fields;
    if |parts| == 1 {
      return Some(parts[0]);
    }
    var out := JoinParts(parts);
    return Some(out);
  }

  // Documents as commits read them: every value is a string, and keys are never taken away.

  ghost predicate Strings(doc: Doc) {
    forall k :: k in doc ==> doc[k].Str?
  }

  lemma ExtractGrows(a: Doc, b: Doc, path: seq<byte>)
    requires Strings(a) && Strings(b) && a.Keys <= b.Keys
    ensures KeyAt(a, path).Some? ==> KeyAt(b, path).Some?
  {
    var parts := Parts(path);
    if parts != [] && parts[0] in a && |parts| > 1 {
      assert parts[1..] != [] && Descend(a[parts[0]], parts[1..]) == None;
    }
  }

  lemma {:induction false} KeysGrow(a: Doc, b: Doc, fields: seq<FieldDef>)
    requires Strings(a) && Strings(b) && a.Keys <= b.Keys
    ensures Keys(a, fields).Some? ==> Keys(b, fields).Some?
  {
    if fields != [] {
      KeysGrow(a, b, fields[..|fields| - 1]);
      ExtractGrows(a, b, fields[|fields| - 1].path);
    }
  }

  /** A document that only grows keeps having a primary key. */
  lemma PrimaryKeyStays(coll: Collection, a: Doc, b: Doc)
    requires Strings(a) && Strings(b) && a.Keys <= b.Keys
    ensures PrimaryKey(coll, a).Some? ==> PrimaryKey(coll, b).Some?
  {
    ExtractGrows(a, b, ID);
    KeysGrow(a, b, coll.primaryKey);
  }

  // Names of indexes.

  function Slug(path: seq<byte>): (s: seq<byte>)
    ensures |s| == |path|
    ensures forall k :: 0 <= k < |s| ==> s[k] == if path[k] == DOT then UNDERSCORE else path[k]
  {
    seq(|path|, i requires 0 <= i < |path| => if path[i] == DOT then UNDERSCORE else path[i])
  }

  const BY: seq<byte> := [46, 98, 121, 95]

  function IndexName(collection: seq<byte>, path: seq<byte>): seq<byte> {
    collection + BY + Slug(path)
  }

  lemma LastDot(collection: seq<byte>, path: seq<byte>)
    ensures var n := IndexName(collection, path);
            n[|collection|] == DOT && forall k :: |collection| < k < |n| ==> n[k] != DOT
  {
    var n := IndexName(collection, path);
    forall k | |collection| < k < |n|
      ensures n[k] != DOT
    {
      if k < |collection| + 4 {
        assert n[k] == BY[k - |collection|];
      } else {
        assert n[k] == Slug(path)[k - |collection| - 4];
      }
    }
  }

  /** A name tells its collection and, up to dots and underscores, its path. */
  lemma IndexNameInjective(c: seq<byte>, p: seq<byte>, d: seq<byte>, q: seq<byte>)
    ensures IndexName(c, p) == IndexName(d, q) <==> c == d && Slug(p) == Slug(q)
  {
    LastDot(c, p);
    LastDot(d, q);
    if IndexName(c, p) == IndexName(d, q) {
      assert |c| == |d|;
      assert c + (BY + Slug(p)) == IndexName(c, p) && d + (BY + Slug(q)) == IndexName(d, q);
      SameSplit(c, BY + Slug(p), d, BY + Slug(q));
      SameSplit(BY, Slug(p), BY, Slug(q));
    }
  }
}
