/** The texts of scalars and primary keys, against readers of their own. */
module KeyTexts {
  import opened Bytes
  import opened Documents
  import opened Payloads

  // Decimal texts.

  predicate IsDigit(b: byte) {
    '0' as int <= b <= '9' as int
  }

  predicate AllDigits(s: seq<byte>) {
    forall i :: 0 <= i < |s| ==> IsDigit(s[i])
  }

  function DigitsValue(s: seq<byte>): nat
    requires AllDigits(s)
  {
    if s == [] then 0 else
      assert IsDigit(s[|s| - 1]);
      10 * DigitsValue(s[..|s| - 1]) + (s[|s| - 1] - '0' as int)
  }

  /** Digits without a leading zero. */
  predicate IsNumeral(s: seq<byte>) {
    s != [] && AllDigits(s) && (|s| > 1 ==> s[0] != '0' as int)
  }

  /** A numeral, or a minus and a numeral other than zero. */
  function ReadInteger(s: seq<byte>): Option<int> {
    if IsNumeral(s) then Some(DigitsValue(s))
    else if s != [] && s[0] == '-' as int && IsNumeral(s[1..]) && DigitsValue(s[1..]) != 0
    then Some(0 as int - DigitsValue(s[1..]))
    else None
  }

  lemma {:induction false} DecimalRead(n: nat)
    ensures IsNumeral(Decimal(n)) && DigitsValue(Decimal(n)) == n
    ensures n > 0 ==> Decimal(n)[0] != '0' as int
  {
    if n >= 10 {
      DecimalRead(n / 10);
      var s := Decimal(n);
      assert s[..|s| - 1] == Decimal(n / 10);
    } else {
      assert Decimal(n)[..0] == [];
    }
  }

  lemma {:induction false} NumeralWritten(s: seq<byte>)
    requires IsNumeral(s)
    ensures Decimal(DigitsValue(s)) == s && (s[0] != '0' as int ==> DigitsValue(s) > 0)
  {
    var front, d := s[..|s| - 1], s[|s| - 1] - '0' as int;
    assert s == front + [s[|s| - 1]];
    if front == [] {
      assert DigitsValue(s) == d;
    } else {
      NumeralWritten(front);
      var v := DigitsValue(front);
      assert DigitsValue(s) == 10 * v + d && (10 * v + d) / 10 == v && (10 * v + d) % 10 == d;
    }
  }

  lemma IntegerRead(n: int)
    ensures ReadInteger(Storage(Int(n))) == Some(n)
  {
    if n < 0 {
      DecimalRead(-n);
      var s := [45] + Decimal(-n);
      assert s[1..] == Decimal(-n) && !IsDigit(s[0]);
    } else {
      DecimalRead(n);
    }
  }

  lemma IntegerWritten(s: seq<byte>)
    requires ReadInteger(s).Some?
    ensures Storage(Int(ReadInteger(s).value)) == s
  {
    if IsNumeral(s) {
      NumeralWritten(s);
    } else {
      NumeralWritten(s[1..]);
      assert s == [s[0]] + s[1..];
    }
  }

  /** The text of an integer is the one numeral that reads as it. */
  lemma IntegerText(n: int, s: seq<byte>)
    ensures s == Storage(Int(n)) <==> ReadInteger(s) == Some(n)
  {
    IntegerRead(n);
    if ReadInteger(s).Some? {
      IntegerWritten(s);
    }
  }

  // Which scalars share a text.

  lemma BoolTexts()
    ensures Storage(Datum.Bool(true)) == Ascii("true") && Storage(Datum.Bool(false)) == Ascii("false")
  {
    assert TRUE == Ascii("true") && FALSE == Ascii("false");
  }

  /** The text that a scalar is known by, if it is no integer. */
  ghost predicate HasText(v: Datum, s: seq<byte>) {
    match v
    case Null => s == []
    case Bool(b) => s == Ascii(if b then "true" else "false")
    case Int(n) => ReadInteger(s) == Some(n)
    case Float(text) => s == text
    case Str(text) => s == text
    case Map(_) => s == []
  }

  lemma StoredText(v: Datum, s: seq<byte>)
    ensures s == Storage(v) <==> HasText(v, s)
  {
    BoolTexts();
    if v.Int? {
      IntegerText(v.n, s);
    }
  }

  /** Null, booleans and integers never share a text unless they are equal. */
  lemma TextsApart(v: Datum, w: Datum)
    requires (v.Null? || v.Bool? || v.Int?) && (w.Null? || w.Bool? || w.Int?)
    ensures Storage(v) == Storage(w) <==> v == w
  {
    StoredText(v, Storage(v));
    StoredText(w, Storage(v));
    assert Ascii("true")[0] == 't' as int && Ascii("false")[0] == 'f' as int;
  }

  /** A string or a float shares the text of any scalar exactly when it spells it out. */
  lemma TextShared(text: seq<byte>, w: Datum)
    ensures Storage(Str(text)) == Storage(w) <==> HasText(w, text)
    ensures Storage(Float(text)) == Storage(w) <==> HasText(w, text)
  {
    StoredText(w, text);
  }

  /** Index keys are these texts, for everything but null and maps. */
  lemma IndexKeyText(v: Datum)
    ensures KeyOf(v) == None <==> v.Null? || v.Map?
    ensures KeyOf(v).Some? ==> HasText(v, KeyOf(v).value)
  {
    if KeyOf(v).Some? {
      StoredText(v, KeyOf(v).value);
    }
  }

  // Composite primary keys.

  /** The parts between the separators, empty ones included. */
  function SplitAt(sep: byte, s: seq<byte>): (parts: seq<seq<byte>>)
    ensures parts != []
    decreases |s|
  {
    if s == [] then [[]]
    else
      var more := SplitAt(sep, s[1..]);
      if s[0] == sep then [[]] + more else [[s[0]] + more[0]] + more[1..]
  }

  lemma {:induction false} SplitNone(sep: byte, s: seq<byte>)
    requires sep !in s
    ensures SplitAt(sep, s) == [s]
  {
    if s != [] {
      SplitNone(sep, s[1..]);
      assert s == [s[0]] + s[1..];
    }
  }

  lemma {:induction false} SplitConcat(sep: byte, a: seq<byte>, b: seq<byte>)
    ensures SplitAt(sep, a + [sep] + b) == SplitAt(sep, a) + SplitAt(sep, b)
    decreases |a|
  {
    var s := a + [sep] + b;
    if a == [] {
      assert s[1..] == b;
    } else {
      assert s[0] == a[0] && s[1..] == a[1..] + [sep] + b;
      SplitConcat(sep, a[1..], b);
    }
  }

  lemma {:induction false} SplitCounts(sep: byte, s: seq<byte>)
    ensures |SplitAt(sep, s)| == 1 <==> sep !in s
  {
    if s != [] {
      SplitCounts(sep, s[1..]);
    }
  }

  /** The unit separator of ASCII. */
  const US: byte := 0x1F

  ghost predicate NoneHolds(parts: seq<seq<byte>>) {
    forall i :: 0 <= i < |parts| ==> US !in parts[i]
  }

  lemma {:induction false} JoinSplits(parts: seq<seq<byte>>)
    requires parts != [] && NoneHolds(parts)
    ensures SplitAt(US, Join(parts)) == parts
  {
    var n := |parts| - 1;
    assert parts == parts[..n] + [parts[n]];
    if n == 0 {
      SplitNone(US, parts[0]);
    } else {
      JoinSplits(parts[..n]);
      SplitConcat(US, Join(parts[..n]), parts[n]);
      SplitNone(US, parts[n]);
    }
  }

  lemma {:induction false} JoinCounts(parts: seq<seq<byte>>)
    requires parts != []
    ensures |SplitAt(US, Join(parts))| >= |parts|
    ensures |SplitAt(US, Join(parts))| == |parts| <==> NoneHolds(parts)
  {
    var n := |parts| - 1;
    SplitCounts(US, parts[n]);
    if n > 0 {
      JoinCounts(parts[..n]);
      SplitConcat(US, Join(parts[..n]), parts[n]);
      assert forall i :: 0 <= i < n ==> parts[..n][i] == parts[i];
    }
  }

  lemma {:induction false} JoinConcat(a: seq<seq<byte>>, b: seq<seq<byte>>)
    requires a != [] && b != []
    ensures Join(a + b) == Join(a) + [US] + Join(b)
    decreases |b|
  {
    var n := |b| - 1;
    assert (a + b)[..|a + b| - 1] == a + b[..n];
    if n > 0 {
      JoinConcat(a, b[..n]);
    } else {
      assert a + b[..0] == a;
    }
  }

  lemma JoinAround(a: seq<seq<byte>>, x: seq<seq<byte>>, y: seq<seq<byte>>, b: seq<seq<byte>>)
    requires x != [] && y != [] && Join(x) == Join(y)
    ensures Join(a + x + b) == Join(a + y + b)
  {
    if a != [] {
      JoinConcat(a, x);
      JoinConcat(a, y);
    } else {
      assert a + x == x && a + y == y;
    }
    if b != [] {
      JoinConcat(a + x, b);
      JoinConcat(a + y, b);
    } else {
      assert a + x + b == a + x && a + y + b == a + y;
    }
  }

  lemma JoinPair(u: seq<byte>, v: seq<byte>)
    ensures Join([u, v]) == u + [US] + v
  {
    assert [u, v][..1] == [u];
  }

  /** A separator can be read as belonging to either of two neighbours. */
  lemma Shifted(u: seq<byte>, v: seq<byte>, w: seq<byte>)
    ensures Join([u + [US] + v, w]) == Join([u, v + [US] + w]) && [u + [US] + v, w] != [u, v + [US] + w]
  {
    JoinPair(u + [US] + v, w);
    JoinPair(u, v + [US] + w);
    assert u + [US] + v + [US] + w == u + [US] + (v + [US] + w);
    assert |u + [US] + v| != |u|;
    assert [u + [US] + v, w][0] != [u, v + [US] + w][0];
  }

  lemma OtherParts(parts: seq<seq<byte>>, i: nat) returns (other: seq<seq<byte>>)
    requires |parts| >= 2 && i < |parts| && US in parts[i]
    ensures |other| == |parts| && other != parts && Join(other) == Join(parts)
  {
    var at :| 0 <= at < |parts[i]| && parts[i][at] == US;
    var u, v := parts[i][..at], parts[i][at + 1..];
    assert parts[i] == u + [US] + v;
    var from, x, y;
    if i + 1 < |parts| {
      from, x, y := i, [parts[i], parts[i + 1]], [u, v + [US] + parts[i + 1]];
      Shifted(u, v, parts[i + 1]);
    } else {
      from, x, y := i - 1, [parts[i - 1], parts[i]], [parts[i - 1] + [US] + u, v];
      Shifted(parts[i - 1], u, v);
    }
    assert parts == parts[..from] + x + parts[from + 2..];
    other := parts[..from] + y + parts[from + 2..];
    JoinAround(parts[..from], x, y, parts[from + 2..]);
    assert other[from..from + 2] == y && parts[from..from + 2] == x;
  }

  /** Two or more field keys can be told from their join exactly when none of them holds the separator. */
  lemma JoinUnique(parts: seq<seq<byte>>)
    requires |parts| >= 2
    ensures (forall other :: |other| == |parts| && Join(other) == Join(parts) ==> other == parts) <==> NoneHolds(parts)
  {
    if NoneHolds(parts) {
      forall other | |other| == |parts| && Join(other) == Join(parts)
        ensures other == parts
      {
        JoinCounts(parts);
        JoinCounts(other);
        JoinSplits(parts);
        JoinSplits(other);
      }
    } else {
      var i :| 0 <= i < |parts| && US in parts[i];
      var other := OtherParts(parts, i);
    }
  }

  lemma {:induction false} KeysAt(doc: Doc, fields: seq<FieldDef>)
    ensures Keys(doc, fields) == None <==> exists i :: 0 <= i < |fields| && KeyAt(doc, fields[i].path) == None
    ensures Keys(doc, fields).Some? ==> |Keys(doc, fields).value| == |fields|
    ensures Keys(doc, fields).Some? ==>
              forall i :: 0 <= i < |fields| ==> KeyAt(doc, fields[i].path) == Some(Keys(doc, fields).value[i])
  {
    if fields != [] {
      var n := |fields| - 1;
      KeysAt(doc, fields[..n]);
      if i :| 0 <= i < n && KeyAt(doc, fields[..n][i].path) == None {
        assert KeyAt(doc, fields[i].path) == None;
      }
      assert forall i :: 0 <= i < n ==> fields[..n][i] == fields[i];
    }
  }

  /** Every field of the primary key has a key, and none holds the separator. */
  ghost predicate Plain(coll: Collection, doc: Doc) {
    forall i :: 0 <= i < |coll.primaryKey| ==>
      var k := KeyAt(doc, coll.primaryKey[i].path);
      k.Some? && US !in k.value
  }

  /** A primary key is missing exactly when a field has no key; without fields it is that of `id`. */
  lemma KeyMissing(coll: Collection, doc: Doc)
    ensures coll.primaryKey == [] ==> PrimaryKey(coll, doc) == KeyAt(doc, Ascii("id"))
    ensures coll.primaryKey != [] ==>
              (PrimaryKey(coll, doc) == None <==>
               exists i :: 0 <= i < |coll.primaryKey| && KeyAt(doc, coll.primaryKey[i].path) == None)
  {
    assert ID == Ascii("id");
    KeysAt(doc, coll.primaryKey);
  }

  /** Splitting a primary key at the separators gives back the keys of its fields. */
  lemma KeySplits(coll: Collection, doc: Doc)
    requires coll.primaryKey != [] && Plain(coll, doc)
    ensures PrimaryKey(coll, doc).Some?
    ensures var parts := SplitAt(US, PrimaryKey(coll, doc).value);
            && |parts| == |coll.primaryKey|
            && forall i :: 0 <= i < |parts| ==> KeyAt(doc, coll.primaryKey[i].path) == Some(parts[i])
  {
    KeysAt(doc, coll.primaryKey);
    JoinSplits(Keys(doc, coll.primaryKey).value);
  }

  ghost predicate FieldsAgree(coll: Collection, a: Doc, b: Doc) {
    forall i :: 0 <= i < |coll.primaryKey| ==>
      KeyAt(a, coll.primaryKey[i].path) == KeyAt(b, coll.primaryKey[i].path)
  }

  /** Then two documents share a primary key exactly when the keys of all fields agree. */
  lemma SameKey(coll: Collection, a: Doc, b: Doc)
    requires coll.primaryKey != [] && Plain(coll, a) && Plain(coll, b)
    ensures PrimaryKey(coll, a) == PrimaryKey(coll, b) <==> FieldsAgree(coll, a, b)
  {
    KeySplits(coll, a);
    KeySplits(coll, b);
    KeysAt(a, coll.primaryKey);
    KeysAt(b, coll.primaryKey);
    if FieldsAgree(coll, a, b) {
      assert Keys(a, coll.primaryKey).value == Keys(b, coll.primaryKey).value;
    }
  }

  /** The key of two string fields. */
  lemma TwoFields(coll: Collection, x: seq<byte>, y: seq<byte>, s: seq<byte>, t: seq<byte>)
    requires x != y && coll.primaryKey == [FieldDef(x, StringType), FieldDef(y, StringType)]
    ensures var doc: Doc := map[x := Str(s), y := Str(t)];
            && PrimaryKey(coll, doc) == Some(s + [US] + t)
            && KeyAt(doc, coll.primaryKey[0].path) == Some(s) && KeyAt(doc, coll.primaryKey[1].path) == Some(t)
  {
    var doc: Doc := map[x := Str(s), y := Str(t)];
    KeysAt(doc, coll.primaryKey);
    assert KeyAt(doc, coll.primaryKey[0].path) == Some(s) && KeyAt(doc, coll.primaryKey[1].path) == Some(t);
    assert Keys(doc, coll.primaryKey).Some?;
    assert Keys(doc, coll.primaryKey).value == [s, t];
    JoinPair(s, t);
  }

  /** Two documents whose fields differ and whose primary keys do not. */
  lemma SharedKeyExample()
    ensures var x: seq<byte>, y: seq<byte> := Ascii("x"), Ascii("y");
            var coll := Collection(Ascii("c"), [FieldDef(x, StringType), FieldDef(y, StringType)], []);
            var a: Doc := map[x := Str([97, US, 98]), y := Str([99])];
            var b: Doc := map[x := Str([97]), y := Str([98, US, 99])];
            PrimaryKey(coll, a) == PrimaryKey(coll, b) && !FieldsAgree(coll, a, b)
  {
    var x: seq<byte>, y: seq<byte> := Ascii("x"), Ascii("y");
    assert x[0] != y[0];
    var coll := Collection(Ascii("c"), [FieldDef(x, StringType), FieldDef(y, StringType)], []);
    TwoFields(coll, x, y, [97, US, 98], [99]);
    TwoFields(coll, x, y, [97], [98, US, 99]);
    assert [97, US, 98] + [US] + [99] == [97] + [US] + [98, US, 99];
    assert |[97, US, 98]| != |[97]|;
  }
}
