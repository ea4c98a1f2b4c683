/** The payload of a COMMIT: nested maps flattened into dotted keys. */
module Payloads {
  import opened Bytes
  import opened Documents

  type Name = seq<byte>
  type Path = seq<Name>

  /** A payload: a scalar, or fields in the order of their names. */
  datatype Payload = Scalar(value: Datum) | Fields(fields: seq<Field>)

  datatype Field = Field(name: Name, payload: Payload)

  /** Names are identifiers, so they are not empty and have no dot; no name is used twice. */
  ghost predicate WellFormed(p: Payload) {
    match p
    case Scalar(v) => !v.Map?
    case Fields(fields) =>
      && (forall i :: 0 <= i < |fields| ==> IsName(fields[i].name) && WellFormed(fields[i].payload))
      && (forall i, j :: 0 <= i < j < |fields| ==> fields[i].name != fields[j].name)
  }

  predicate IsName(n: Name) {
    n != [] && DOT !in n
  }

  predicate AreNames(path: Path) {
    forall i :: 0 <= i < |path| ==> IsName(path[i])
  }

  /** The bytes a scalar is stored as. */
  function Storage(v: Datum): seq<byte> {
    match KeyOf(v)
    case None => []
    case Some(s) => s
  }

  function Under(prefix: seq<byte>, name: Name): seq<byte> {
    if prefix == [] then name else prefix + [DOT] + name
  }

  // The puts.

  function Ops(prefix: seq<byte>, p: Payload): seq<(seq<byte>, seq<byte>)>
    decreases p, 1
  {
    match p
    case Scalar(v) => [(prefix, Storage(v))]
    case Fields(fields) => AllOps(prefix, fields)
  }

  function AllOps(prefix: seq<byte>, fields: seq<Field>): seq<(seq<byte>, seq<byte>)>
    decreases fields, 0
  {
    if fields == [] then [] else
      Ops(Under(prefix, fields[0].name), fields[0].payload) + AllOps(prefix, fields[1..])
  }

  method PushPayloadOps(ops: seq<(seq<byte>, seq<byte>)>, prefix: seq<byte>, p: Payload)
    returns (r: seq<(seq<byte>, seq<byte>)>)
    ensures r == ops + Ops(prefix, p)
    decreases p
  {
    r := ops;
    match p {
      case Scalar(v) =>
        r := r + [(prefix, Storage(v))];
      case Fields(fields) =>
        for i := 0 to |fields|
          invariant r + AllOps(prefix, fields[i..]) == ops + AllOps(prefix, fields)
        {
          assert fields[i..][0] == fields[i] && fields[i..][1..] == fields[i + 1..];
          var key := Under(prefix, fields[i].name);
          Associate(r, Ops(key, fields[i].payload), AllOps(prefix, fields[i + 1..]));
          r := PushPayloadOps(r, key, fields[i].payload);
        }
        assert fields[|fields|..] == [];
    }
  }

  // The scalars and their paths.

  /** The payload carries the scalar at the end of the path. */
  ghost predicate Carries(p: Payload, path: Path, v: Datum)
    decreases |path|
  {
    if path == [] then p == Scalar(v)
    else p.Fields? && exists i :: 0 <= i < |p.fields| && FieldCarries(p.fields[i], path, v)
  }

  ghost predicate FieldCarries(f: Field, path: Path, v: Datum)
    requires path != []
    decreases |path|, 0
  {
    f.name == path[0] && Carries(f.payload, path[1..], v)
  }

  function Dotted(path: Path): seq<byte> {
    if path == [] then [] else Under(Dotted(path[..|path| - 1]), path[|path| - 1])
  }

  lemma {:induction false} PartsGoOn(part: seq<byte>, name: seq<byte>, rest: seq<byte>)
    requires DOT !in name
    ensures PartsFrom(part, name + rest) == PartsFrom(part + name, rest)
    decreases |name|
  {
    if name == [] {
      assert name + rest == rest && part + name == part;
    } else {
      assert (name + rest)[0] == name[0] && (name + rest)[1..] == name[1..] + rest;
      PartsGoOn(part + [name[0]], name[1..], rest);
      assert part + [name[0]] + name[1..] == part + name;
    }
  }

  lemma {:induction false} PartsAppend(part: seq<byte>, prefix: seq<byte>, name: Name)
    requires IsName(name)
    ensures PartsFrom(part, prefix + [DOT] + name) == PartsFrom(part, prefix) + [name]
    decreases |prefix|
  {
    var s := prefix + [DOT] + name;
    if prefix == [] {
      assert s[1..] == name && [] + name == name && name + [] == name;
      PartsGoOn([], name, []);
    } else {
      assert s[0] == prefix[0] && s[1..] == prefix[1..] + [DOT] + name;
      if prefix[0] == DOT {
        PartsAppend([], prefix[1..], name);
      } else {
        PartsAppend(part + [prefix[0]], prefix[1..], name);
      }
    }
  }

  /** The parts of a dotted path are its names. */
  lemma {:induction false} DottedBack(path: Path)
    requires AreNames(path)
    ensures Parts(Dotted(path)) == path
    ensures path != [] ==> Dotted(path) != []
  {
    if path != [] {
      var front, name := path[..|path| - 1], path[|path| - 1];
      DottedBack(front);
      assert path == front + [name];
      if front == [] {
        assert [] + name == name && name + [] == name;
        PartsGoOn([], name, []);
      } else {
        PartsAppend([], Dotted(front), name);
      }
    }
  }

  lemma DottedStep(path: Path, name: Name)
    requires AreNames(path)
    ensures Dotted(path + [name]) == Under(Dotted(path), name)
  {
    assert (path + [name])[..|path|] == path;
  }

  /** The scalars below a path, in the order of the puts. */
  ghost function Scalars(at: Path, p: Payload): seq<(Path, Datum)>
    decreases p, 1
  {
    match p
    case Scalar(v) => [(at, v)]
    case Fields(fields) => AllScalars(at, fields)
  }

  ghost function AllScalars(at: Path, fields: seq<Field>): seq<(Path, Datum)>
    decreases fields, 0
  {
    if fields == [] then [] else Scalars(at + [fields[0].name], fields[0].payload) + AllScalars(at, fields[1..])
  }

  ghost predicate FieldsFormed(fields: seq<Field>) {
    WellFormed(Fields(fields))
  }

  ghost function Put(s: (Path, Datum)): (seq<byte>, seq<byte>) {
    (Dotted(s.0), Storage(s.1))
  }

  ghost predicate ArePuts(ops: seq<(seq<byte>, seq<byte>)>, scalars: seq<(Path, Datum)>) {
    |ops| == |scalars| && forall i :: 0 <= i < |ops| ==> ops[i] == Put(scalars[i])
  }

  /** The puts are the scalars, each under its dotted path. */
  lemma {:induction false} OpsAreScalars(at: Path, p: Payload)
    requires AreNames(at) && WellFormed(p)
    ensures ArePuts(Ops(Dotted(at), p), Scalars(at, p))
    decreases p, 1
  {
    if p.Fields? {
      AllOpsAreScalars(at, p.fields);
    }
  }

  lemma {:induction false} AllOpsAreScalars(at: Path, fields: seq<Field>)
    requires AreNames(at) && FieldsFormed(fields)
    ensures ArePuts(AllOps(Dotted(at), fields), AllScalars(at, fields))
    decreases fields, 0
  {
    if fields != [] {
      var Field(name, p) := fields[0];
      assert IsName(name) && WellFormed(p);
      DottedStep(at, name);
      OpsAreScalars(at + [name], p);
      RestFormed(fields);
      AllOpsAreScalars(at, fields[1..]);
    }
  }

  lemma RestFormed(fields: seq<Field>)
    requires FieldsFormed(fields) && fields != []
    ensures FieldsFormed(fields[1..])
  {
    var p := Fields(fields[1..]);
    assert forall i :: 0 <= i < |p.fields| ==> p.fields[i] == fields[i + 1];
  }

  /** The scalars are what the payload carries. */
  lemma {:induction false} ScalarsHeld(at: Path, p: Payload, path: Path, v: Datum)
    ensures (at + path, v) in Scalars(at, p) <==> Carries(p, path, v)
    decreases p, 1
  {
    if p.Scalar? {
      assert at + path == at <==> path == [];
    } else {
      AllScalarsHeld(at, p.fields, path, v);
    }
  }

  lemma {:induction false} AllScalarsHeld(at: Path, fields: seq<Field>, path: Path, v: Datum)
    ensures (at + path, v) in AllScalars(at, fields) <==>
              path != [] && exists i :: 0 <= i < |fields| && FieldCarries(fields[i], path, v)
    decreases fields, 0
  {
    if fields != [] {
      FirstHeld(at, fields[0], path, v);
      AllScalarsHeld(at, fields[1..], path, v);
      if i :| path != [] && 0 <= i < |fields| && FieldCarries(fields[i], path, v) {
        if i > 0 {
          assert FieldCarries(fields[1..][i - 1], path, v);
        }
      }
    }
  }

  lemma {:induction false} FirstHeld(at: Path, f: Field, path: Path, v: Datum)
    ensures (at + path, v) in Scalars(at + [f.name], f.payload) <==> path != [] && FieldCarries(f, path, v)
    decreases f, 0
  {
    ScalarsBelow(at + [f.name], f.payload);
    if path != [] && path[0] == f.name {
      assert at + path == at + [f.name] + path[1..];
      ScalarsHeld(at + [f.name], f.payload, path[1..], v);
    } else {
      assert !(at + [f.name] <= at + path) by {
        if path != [] {
          assert (at + path)[|at|] == path[0] && (at + [f.name])[|at|] == f.name;
        }
      }
    }
  }

  /** Every scalar lies below the path. */
  lemma {:induction false} ScalarsBelow(at: Path, p: Payload)
    ensures forall s :: s in Scalars(at, p) ==> at <= s.0
    decreases p, 1
  {
    if p.Fields? {
      AllScalarsBelow(at, p.fields);
    }
  }

  lemma {:induction false} AllScalarsBelow(at: Path, fields: seq<Field>)
    ensures forall s :: s in AllScalars(at, fields) ==> |s.0| > |at| && at <= s.0 && Named(fields, s.0[|at|])
    decreases fields, 0
  {
    if fields != [] {
      ScalarsBelow(at + [fields[0].name], fields[0].payload);
      AllScalarsBelow(at, fields[1..]);
      forall s | s in AllScalars(at, fields)
        ensures |s.0| > |at| && at <= s.0 && Named(fields, s.0[|at|])
      {
        if s in Scalars(at + [fields[0].name], fields[0].payload) {
          assert s.0[|at|] == fields[0].name;
        } else {
          var i :| 0 <= i < |fields[1..]| && fields[1..][i].name == s.0[|at|];
          assert fields[i + 1].name == s.0[|at|];
        }
      }
    }
  }

  ghost predicate Named(fields: seq<Field>, name: Name) {
    exists i :: 0 <= i < |fields| && fields[i].name == name
  }

  ghost predicate PathsApart(s: seq<(Path, Datum)>) {
    forall i, j :: 0 <= i < j < |s| ==> s[i].0 != s[j].0
  }

  /** No path is listed twice, and every path is made of names. */
  lemma {:induction false} ScalarsApart(at: Path, p: Payload)
    requires AreNames(at) && WellFormed(p)
    ensures PathsApart(Scalars(at, p)) && forall s :: s in Scalars(at, p) ==> AreNames(s.0)
    decreases p, 1
  {
    if p.Fields? {
      AllScalarsApart(at, p.fields);
    }
  }

  lemma {:induction false} AllScalarsApart(at: Path, fields: seq<Field>)
    requires AreNames(at) && FieldsFormed(fields)
    ensures PathsApart(AllScalars(at, fields)) && forall s :: s in AllScalars(at, fields) ==> AreNames(s.0)
    decreases fields, 0
  {
    if fields != [] {
      var Field(name, p) := fields[0];
      assert IsName(name) && WellFormed(p);
      var first, rest := Scalars(at + [name], p), AllScalars(at, fields[1..]);
      ScalarsApart(at + [name], p);
      RestFormed(fields);
      AllScalarsApart(at, fields[1..]);
      forall s, t | s in first && t in rest
        ensures s.0 != t.0
      {
        ScalarsBelow(at + [name], p);
        AllScalarsBelow(at, fields[1..]);
        assert s.0[|at|] == name;
        var i :| 0 <= i < |fields[1..]| && fields[1..][i].name == t.0[|at|];
        assert fields[i + 1].name != fields[0].name;
      }
      ApartAppend(first, rest);
    }
  }

  lemma ApartAppend(a: seq<(Path, Datum)>, b: seq<(Path, Datum)>)
    requires PathsApart(a) && PathsApart(b) && forall s, t :: s in a && t in b ==> s.0 != t.0
    ensures PathsApart(a + b)
  {
    forall i, j | 0 <= i < j < |a + b|
      ensures (a + b)[i].0 != (a + b)[j].0
    {
      if i < |a| <= j {
        assert (a + b)[i] in a && (a + b)[j] in b;
      }
    }
  }

  /** The puts of a payload: one for each scalar, under its dotted path, and no key twice. */
  lemma PayloadPuts(p: Payload)
    requires WellFormed(p)
    ensures var ops := Ops([], p);
            && (forall i, j :: 0 <= i < j < |ops| ==> ops[i].0 != ops[j].0)
            && (forall path, v :: AreNames(path) && Carries(p, path, v) ==> Put((path, v)) in ops)
            && (forall op :: op in ops ==> exists path, v :: AreNames(path) && Carries(p, path, v) && op == Put((path, v)))
  {
    var ops, scalars := Ops([], p), Scalars([], p);
    OpsAreScalars([], p);
    ScalarsApart([], p);
    forall i, j | 0 <= i < j < |ops|
      ensures ops[i].0 != ops[j].0
    {
      assert scalars[i] in scalars && scalars[j] in scalars;
      DottedBack(scalars[i].0);
      DottedBack(scalars[j].0);
    }
    forall path: Path, v | AreNames(path) && Carries(p, path, v)
      ensures Put((path, v)) in ops
    {
      assert [] + path == path;
      ScalarsHeld([], p, path, v);
      var i :| 0 <= i < |scalars| && scalars[i] == (path, v);
      assert ops[i] == Put(scalars[i]);
    }
    forall op | op in ops
      ensures exists path, v :: AreNames(path) && Carries(p, path, v) && op == Put((path, v))
    {
      var i :| 0 <= i < |ops| && ops[i] == op;
      var (path, v) := scalars[i];
      assert scalars[i] in scalars && [] + path == path;
      ScalarsHeld([], p, path, v);
    }
  }

  // Reading nested documents.

  /** The value at the end of a path of names through nested maps. */
  ghost predicate NestedAt(v: Datum, path: Path, w: Datum)
    decreases |path|
  {
    if path == [] then v == w else v.Map? && path[0] in v.m && NestedAt(v.m[path[0]], path[1..], w)
  }

  lemma {:induction false} DescendNested(v: Datum, path: Path, w: Datum)
    ensures Descend(v, path) == Some(w) <==> NestedAt(v, path, w)
    decreases |path|
  {
    if path != [] && v.Map? && path[0] in v.m {
      DescendNested(v.m[path[0]], path[1..], w);
    }
  }

  /** A dotted path yields what is stored under it as a whole, or else what nested maps hold at its end. */
  lemma ExtractNested(doc: Doc, path: Path, w: Datum)
    requires AreNames(path) && path != []
    ensures Extract(doc, Dotted(path)) == Some(w) <==>
              if Dotted(path) in doc then doc[Dotted(path)] == w
              else path[0] in doc && NestedAt(doc[path[0]], path[1..], w)
  {
    DottedBack(path);
    if path[0] in doc {
      DescendNested(doc[path[0]], path[1..], w);
    }
  }

  /** Dots only separate: doubled, leading and trailing ones make no part. */
  lemma {:induction false} PartsConcat(part: seq<byte>, a: seq<byte>, b: seq<byte>)
    ensures PartsFrom(part, a + [DOT] + b) == PartsFrom(part, a) + Parts(b)
    decreases |a|
  {
    var s := a + [DOT] + b;
    if a == [] {
      assert s[0] == DOT && s[1..] == b;
    } else {
      assert s[0] == a[0] && s[1..] == a[1..] + [DOT] + b;
      PartsConcat(if a[0] == DOT then [] else part + [a[0]], a[1..], b);
    }
  }
}
