/** String literals: what the command line escapes, the lexer reads back. */
module Lexer {
  import opened Bytes

  /** Replacing every occurrence of a character by a text. */
  function Replace(s: string, c: char, text: string): string {
    if s == [] then [] else (if s[0] == c then text else [s[0]]) + Replace(s[1..], c, text)
  }

  /** The two replacements in the order the command line makes them: backslashes first, then quotes. */
  function Escape(s: string): string {
    Replace(Replace(s, '\\', "\\\\"), '"', "\\\"")
  }

  function Unescape(c: char): char {
    match c
    case 'n' => '\n'
    case 't' => '\t'
    case 'r' => '\r'
    case _ => c
  }

  /** The rest of a literal behind its opening quote: its value and what follows the closing quote. */
  function Literal(s: string): Result<(string, string)>
    decreases |s|
  {
    if s == [] then Err(ExecError)
    else if s[0] == '"' then Ok(([], s[1..]))
    else if s[0] == '\\' then
      if |s| == 1 then Err(ExecError) else Prepend([Unescape(s[1])], Literal(s[2..]))
    else Prepend([s[0]], Literal(s[1..]))
  }

  function Prepend(v: string, r: Result<(string, string)>): Result<(string, string)> {
    var (more, rest) :- r;
    Ok((v + more, rest))
  }

  lemma PrependTwice(a: string, b: string, r: Result<(string, string)>)
    ensures Prepend(a, Prepend(b, r)) == Prepend(a + b, r)
  {
    if r.Ok? {
      assert a + (b + r.value.0) == a + b + r.value.0;
    }
  }

  lemma PrependNothing(a: string, r: Result<(string, string)>, rest: string)
    ensures Prepend([], r) == r && Prepend(a, Ok(([], rest))) == Ok((a, rest))
  {
    if r.Ok? {
      assert [] + r.value.0 == r.value.0;
    }
    assert a + [] == a;
  }

  /** A cursor over the characters of a source text. */
  class Scanner {
    const chars: string
    var pos: nat

    ghost predicate Valid()
      reads this
    {
      pos <= |chars|
    }

    ghost function Rest(): string
      requires Valid()
      reads this
    {
      chars[pos..]
    }

    constructor (chars: string)
      ensures Valid() && Rest() == chars
    {
      this.chars := chars;
      pos := 0;
    }

    method Bump() returns (c: Option<char>)
      requires Valid()
      modifies this
      ensures Valid()
      ensures c == if old(Rest()) == [] then None else Some(old(Rest())[0])
      ensures Rest() == if old(Rest()) == [] then [] else old(Rest())[1..]
    {
      if pos == |chars| {
        return None;
      }
      c := Some(chars[pos]);
      pos := pos + 1;
    }

    /** Reads a literal from its opening quote on. */
    method LexString() returns (r: Result<string>)
      requires Valid() && Rest() != [] && Rest()[0] == '"'
      modifies this
      ensures Valid()
      ensures r.Ok? <==> Literal(old(Rest())[1..]).Ok?
      ensures r.Ok? ==> Literal(old(Rest())[1..]) == Ok((r.value, Rest()))
    {
      var quote := Bump();
      var value := "";
      PrependNothing([], Literal(Rest()), []);
      while true
        invariant Valid() && Literal(old(Rest())[1..]) == Prepend(value, Literal(Rest()))
        decreases |Rest()|
      {
        ghost var s := Rest();
        var c := Bump();
        if c.None? {
          return Err(ExecError);
        }
        if c.value == '"' {
          PrependNothing(value, Ok(([], Rest())), Rest());
          return Ok(value);
        }
        if c.value == '\\' {
          var d := Bump();
          if d.None? {
            return Err(ExecError);
          }
          assert Rest() == s[2..];
          PrependTwice(value, [Unescape(d.value)], Literal(Rest()));
          value := value + [Unescape(d.value)];
        } else {
          PrependTwice(value, [c.value], Literal(Rest()));
          value := value + [c.value];
        }
      }
    }
  }

  // What is escaped reads back.

  lemma {:induction false} ReplaceAppend(a: string, b: string, c: char, text: string)
    ensures Replace(a + b, c, text) == Replace(a, c, text) + Replace(b, c, text)
  {
    if a == [] {
      assert a + b == b;
    } else {
      assert (a + b)[1..] == a[1..] + b;
      ReplaceAppend(a[1..], b, c, text);
    }
  }

  /** The second replacement leaves the first one's backslashes alone: each character is escaped on its own. */
  function EscapeOne(c: char): string {
    if c == '\\' then "\\\\" else if c == '"' then "\\\"" else [c]
  }

  lemma EscapeFirst(s: string)
    requires s != []
    ensures Escape(s) == EscapeOne(s[0]) + Escape(s[1..])
  {
    var text := if s[0] == '\\' then "\\\\" else [s[0]];
    ReplaceAppend(text, Replace(s[1..], '\\', "\\\\"), '"', "\\\"");
    assert text[1..] == if s[0] == '\\' then "\\" else "";
    assert Replace("", '"', "\\\"") == "" && "\\"[1..] == "";
    assert Replace(text, '"', "\\\"") == EscapeOne(s[0]);
  }

  // Every spelling of a string.

  /** The ways to write a character: as it is, or behind a backslash, with letters for line feed, tab and return. */
  ghost predicate Spells(text: string, c: char) {
    || (text == [c] && c != '"' && c != '\\')
    || (text == ['\\', c] && c != 'n' && c != 't' && c != 'r')
    || (text == "\\n" && c == '\n')
    || (text == "\\t" && c == '\t')
    || (text == "\\r" && c == '\r')
  }

  /** A text that writes the characters of a string one after the other. */
  ghost predicate Writes(text: string, s: string)
    decreases |s|
  {
    if s == [] then text == [] else
      exists n :: 0 <= n <= |text| && Spells(text[..n], s[0]) && Writes(text[n..], s[1..])
  }

  lemma SpelledFirst(text: string, c: char, rest: string)
    requires Spells(text, c)
    ensures Literal(text + rest) == Prepend([c], Literal(rest))
  {
    assert (text + rest)[|text|..] == rest && (text + rest)[0] == text[0];
  }

  lemma {:induction false} WritesThen(text: string, s: string, tail: string)
    requires Writes(text, s)
    ensures Literal(text + tail) == Prepend(s, Literal(tail))
    decreases |s|
  {
    if s == [] {
      assert text + tail == tail;
      PrependNothing([], Literal(tail), []);
    } else {
      var n :| 0 <= n <= |text| && Spells(text[..n], s[0]) && Writes(text[n..], s[1..]);
      WritesThen(text[n..], s[1..], tail);
      SpelledFirst(text[..n], s[0], text[n..] + tail);
      PrependTwice([s[0]], s[1..], Literal(tail));
      Cut(text, n);
      Cut(s, 1);
      Associate(text[..n], text[n..], tail);
      assert s[..1] == [s[0]];
    }
  }

  lemma Cut<T>(s: seq<T>, n: nat)
    requires n <= |s|
    ensures s == s[..n] + s[n..]
  {}

  lemma WritesMore(text: string, c: char, more: string, s: string)
    requires Spells(text, c) && Writes(more, s)
    ensures Writes(text + more, [c] + s)
  {
    var n := |text|;
    assert (text + more)[..n] == text && (text + more)[n..] == more;
    assert ([c] + s)[1..] == s;
  }

  lemma WritesRead(text: string, s: string, rest: string)
    requires Writes(text, s)
    ensures Literal(text + ("\"" + rest)) == Ok((s, rest))
  {
    var tail := "\"" + rest;
    assert tail[1..] == rest;
    WritesThen(text, s, tail);
    PrependNothing(s, Literal(tail), rest);
  }

  /** The first character of a literal, how it is written, and what the rest reads as. */
  lemma FirstWritten(t: string) returns (n: nat)
    requires Literal(t).Ok? && t[0] != '"'
    ensures 0 < n <= |t| && Literal(t[n..]).Ok?
    ensures var (s, rest) := Literal(t).value; var (s', rest') := Literal(t[n..]).value;
            s != [] && Spells(t[..n], s[0]) && s[1..] == s' && rest == rest'
  {
    n := if t[0] == '\\' then 2 else 1;
    assert t[..n] == if n == 2 then [t[0], t[1]] else [t[0]];
  }

  lemma {:induction false} ReadWrites(t: string) returns (text: string)
    requires Literal(t).Ok?
    ensures Writes(text, Literal(t).value.0) && t == text + ("\"" + Literal(t).value.1)
    decreases |t|
  {
    if t[0] == '"' {
      text := [];
      assert t == [] + ("\"" + t[1..]);
    } else {
      var n := FirstWritten(t);
      var more := ReadWrites(t[n..]);
      var (s, rest) := Literal(t).value;
      text := t[..n] + more;
      WritesMore(t[..n], s[0], more, s[1..]);
      Cut(t, n);
      Cut(s, 1);
      assert s[..1] == [s[0]];
      Associate(t[..n], more, "\"" + rest);
    }
  }

  /** A literal reads as a string exactly when it writes it in one of these ways. */
  lemma LiteralIff(t: string, s: string, rest: string)
    ensures Literal(t) == Ok((s, rest)) <==> exists text :: Writes(text, s) && t == text + ("\"" + rest)
  {
    if Literal(t) == Ok((s, rest)) {
      var text := ReadWrites(t);
    }
    if text :| Writes(text, s) && t == text + ("\"" + rest) {
      WritesRead(text, s, rest);
    }
  }

  lemma {:induction false} EscapeWrites(s: string)
    ensures Writes(Escape(s), s)
    decreases |s|
  {
    if s != [] {
      EscapeFirst(s);
      EscapeWrites(s[1..]);
      var n := |EscapeOne(s[0])|;
      assert Escape(s)[..n] == EscapeOne(s[0]) && Escape(s)[n..] == Escape(s[1..]);
    }
  }

  /** For every string, the literal made from it reads back as it, and what follows is left alone. */
  lemma EscapeReadsBack(s: string, rest: string)
    ensures Literal(Escape(s) + ("\"" + rest)) == Ok((s, rest))
  {
    EscapeWrites(s);
    WritesRead(Escape(s), s, rest);
  }
}
