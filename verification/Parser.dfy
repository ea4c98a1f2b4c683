/** The expression parser accepts exactly the grammar, and what is printed reads back. */
module GrammarLaws {
  import opened Bytes
  import opened Grammar

  // Whatever the grammar derives, the parser finds.

  lemma Split(a: seq<Token>, k: nat, rest: seq<Token>)
    requires k < |a|
    ensures a + rest == a[..k] + ([a[k]] + (a[k + 1..] + rest))
    ensures a[..k] + (a[k..] + rest) == a + rest
    ensures (a[k..] + rest)[0] == a[k] && (a[k..] + rest)[1..] == a[k + 1..] + rest
  {
    assert a[k..] == [a[k]] + a[k + 1..];
  }

  /** After an expression of some level the parser is in its loop, with that expression on the left. */
  lemma {:induction false} LoopReached(level: nat, e: Expr, ts: seq<Token>, rest: seq<Token>)
    requires level <= 2 && Derives(level, e, ts) && Ends(rest) && !Continues(level + 1, rest[0])
    ensures Parse(level, ts + rest) == More(level, e, rest)
    decreases |ts|, 6 - level, 0
  {
    if Derives(level + 1, e, ts) {
      Complete(level + 1, e, ts, rest);
    } else {
      var k :| DerivesBinary(level, e, ts, k);
      Split(ts, k, rest);
      LoopReached(level, e.left, ts[..k], ts[k..] + rest);
      Complete(level + 1, e.right, ts[k + 1..], rest);
    }
  }

  lemma {:induction false} DotsReached(e: Expr, ts: seq<Token>, rest: seq<Token>)
    requires Derives(3, e, ts) && Ends(rest)
    ensures Parse(3, ts + rest) == Dots(e, rest)
    decreases |ts|, 3, 0
  {
    if Derives(4, e, ts) {
      Complete(4, e, ts, rest);
    } else {
      var n := |ts|;
      assert ts[..n - 2] + (ts[n - 2..] + rest) == ts + rest;
      assert ts[n - 2..] == [Dot, ts[n - 1]];
      DotsReached(e.inner, ts[..n - 2], ts[n - 2..] + rest);
      assert (ts[n - 2..] + rest)[2..] == rest;
    }
  }

  lemma {:induction false} Complete(level: nat, e: Expr, ts: seq<Token>, rest: seq<Token>)
    requires level <= 4 && Derives(level, e, ts) && Ends(rest) && !Continues(level, rest[0])
    ensures Ends(ts + rest) && Parse(level, ts + rest) == Ok((e, rest))
    decreases |ts|, 6 - level, 1
  {
    if level <= 2 {
      LoopReached(level, e, ts, rest);
    } else if level == 3 {
      DotsReached(e, ts, rest);
    } else {
      PrimaryComplete(e, ts, rest);
    }
  }

  lemma {:induction false} PrimaryComplete(e: Expr, ts: seq<Token>, rest: seq<Token>)
    requires DerivesPrimary(e, ts) && Ends(rest)
    ensures Ends(ts + rest) && Primary(ts + rest) == Ok((e, rest))
    decreases |ts|, 2, 0
  {
    var n := |ts|;
    if DerivesAtom(e, ts) {
      AtomComplete(e, ts, rest);
    } else if Enclosed(LParen, ts, RParen) && Derives(0, e, ts[1..n - 1]) {
      ParenComplete(e, ts, rest);
    } else {
      Inside(ts, rest);
      MapComplete(e.m, ts[1..n - 1], [RBrace] + rest);
    }
  }

  lemma {:induction false} ParenComplete(e: Expr, ts: seq<Token>, rest: seq<Token>)
    requires Enclosed(LParen, ts, RParen) && Derives(0, e, ts[1..|ts| - 1]) && Ends(rest)
    ensures Ends(ts + rest) && Primary(ts + rest) == Ok((e, rest))
    decreases |ts|, 1, 0
  {
    Inside(ts, rest);
    Complete(0, e, ts[1..|ts| - 1], [RParen] + rest);
  }

  lemma AtomComplete(e: Expr, ts: seq<Token>, rest: seq<Token>)
    requires DerivesAtom(e, ts) && Ends(rest)
    ensures Ends(ts + rest) && Primary(ts + rest) == Ok((e, rest))
  {
    assert (ts + rest)[|ts|..] == rest && (ts + rest)[0] == ts[0];
  }

  lemma Inside(ts: seq<Token>, rest: seq<Token>)
    requires |ts| >= 2
    ensures (ts + rest)[0] == ts[0] && (ts + rest)[1..] == ts[1..|ts| - 1] + ([ts[|ts| - 1]] + rest)
    ensures ([ts[|ts| - 1]] + rest)[1..] == rest
  {
    assert ts[1..] == ts[1..|ts| - 1] + [ts[|ts| - 1]];
  }

  lemma {:induction false} MapComplete(m: map<string, Expr>, ts: seq<Token>, rest: seq<Token>)
    requires DerivesMap(m, ts) && Ends(rest) && rest[0] == RBrace
    ensures Ends([LBrace] + (ts + rest)) && MapLiteral([LBrace] + (ts + rest)) == Ok((Map(m), rest[1..]))
    decreases |ts|, 1, 1
  {
    var s := [LBrace] + (ts + rest);
    assert s[1..] == ts + rest;
    if ts == [] {
      assert ts + rest == rest && s[2..] == rest[1..];
      if k, m0 :| DerivesPairs(m, ts, k, m0) {
        assert false;
      }
    } else {
      var k, m0 :| DerivesPairs(m, ts, k, m0);
      PairsReached(m, ts, rest);
      assert s[1] == ts[0];
      FirstIsWord(m, ts);
    }
  }

  lemma {:induction false} FirstIsWord(m: map<string, Expr>, ts: seq<Token>)
    requires DerivesMap(m, ts) && ts != []
    ensures ts[0].Word?
    decreases |ts|
  {
    var k, m0 :| DerivesPairs(m, ts, k, m0);
    if k > 0 {
      FirstIsWord(m0, ts[..k - 1]);
    }
  }

  /** After the pairs of a map the parser has collected that map. */
  lemma {:induction false} PairsReached(m: map<string, Expr>, ts: seq<Token>, rest: seq<Token>)
    requires DerivesMap(m, ts) && ts != [] && Ends(rest) && !Continues(0, rest[0])
    ensures Ends(ts + rest)
    ensures Pairs(map[], ts + rest) == if rest[0] == Comma then Pairs(m, rest[1..]) else Ok((Map(m), rest))
    decreases |ts|, 1, 0
  {
    var k, m0 :| DerivesPairs(m, ts, k, m0);
    var key := ts[k].text;
    var s := ts[k..] + rest;
    assert s[0] == ts[k] && s[1] == Colon && s[2..] == ts[k + 2..] + rest;
    Complete(0, m[key], ts[k + 2..], rest);
    assert Pairs(m0, s) == if rest[0] == Comma then Pairs(m, rest[1..]) else Ok((Map(m), rest));
    if k == 0 {
      assert s == ts + rest;
    } else {
      var before := ts[..k - 1];
      assert ts + rest == before + ([Comma] + s);
      PairsReached(m0, before, [Comma] + s);
      assert ([Comma] + s)[1..] == s;
    }
  }

  // Whatever the parser finds, the grammar derives.

  /** `rest` is what follows the first tokens of `s`, which stand for `e`, and it does not carry on. */
  ghost predicate Consumed(level: nat, e: Expr, s: seq<Token>, rest: seq<Token>)
    requires level <= 4
  {
    && |rest| <= |s| && rest == s[|s| - |rest|..] && rest != []
    && Derives(level, e, s[..|s| - |rest|]) && !Continues(level, rest[0])
  }

  lemma {:induction false} Sound(level: nat, s: seq<Token>)
    requires Ends(s) && level <= 4
    ensures var r := Parse(level, s); r.Ok? ==> Consumed(level, r.value.0, s, r.value.1)
    decreases |s|, 6 - level
  {
    if level == 4 {
      PrimarySound(s);
    } else {
      Sound(level + 1, s);
      var r := Parse(level + 1, s);
      if r.Ok? {
        var (e, rest) := r.value;
        var done := s[..|s| - |rest|];
        assert s == done + rest;
        if level == 3 {
          DotsSound(e, done, rest);
        } else {
          MoreSound(level, e, done, rest, s);
        }
      }
    }
  }

  /** What is yielded was consumed from the front of the tokens. */
  ghost predicate Yields(level: nat, full: seq<Token>, r: Parsed)
    requires level <= 4
  {
    r.Ok? ==> Consumed(level, r.value.0, full, r.value.1)
  }

  lemma {:induction false} MoreSound(level: nat, left: Expr, done: seq<Token>, s: seq<Token>, full: seq<Token>)
    requires Ends(s) && level <= 2 && Derives(level, left, done) && !Continues(level + 1, s[0]) && full == done + s
    ensures Yields(level, full, More(level, left, s))
    decreases |s|, 1
  {
    var op := OpOf(level, s[0]);
    if op.None? {
      NothingMore(level, left, done, s, full);
    } else {
      Sound(level + 1, s[1..]);
      var r := Parse(level + 1, s[1..]);
      if r.Ok? {
        OperandSound(level, left, op.value, r.value.0, done, s, r.value.1, full);
        MoreStep(level, left, op.value, r.value.0, s, r.value.1);
      }
    }
  }

  lemma {:induction false} OperandSound(level: nat, left: Expr, op: BinaryOp, right: Expr,
                                        done: seq<Token>, s: seq<Token>, rest: seq<Token>, full: seq<Token>)
    requires Ends(s) && level <= 2 && Derives(level, left, done) && full == done + s
    requires OpOf(level, s[0]) == Some(op) && Consumed(level + 1, right, s[1..], rest)
    ensures Ends(rest) && Yields(level, full, More(level, Binary(left, op, right), rest))
    decreases |s|, 0
  {
    OneMore(level, left, op, right, done, s, rest, full);
    MoreSound(level, Binary(left, op, right), done + s[..|s| - |rest|], rest, full);
  }

  lemma NothingMore(level: nat, left: Expr, done: seq<Token>, s: seq<Token>, full: seq<Token>)
    requires Ends(s) && level <= 2 && Derives(level, left, done) && full == done + s
    requires OpOf(level, s[0]).None? && !Continues(level + 1, s[0])
    ensures Consumed(level, left, full, s)
  {
    assert full[..|done|] == done && full[|done|..] == s;
  }

  lemma OneMore(level: nat, left: Expr, op: BinaryOp, right: Expr,
                done: seq<Token>, s: seq<Token>, rest: seq<Token>, full: seq<Token>)
    requires level <= 2 && Derives(level, left, done) && full == done + s
    requires s != [] && OpOf(level, s[0]) == Some(op) && Consumed(level + 1, right, s[1..], rest)
    ensures |rest| <= |s| && Derives(level, Binary(left, op, right), done + s[..|s| - |rest|])
    ensures full == done + s[..|s| - |rest|] + rest
  {
    var n := |s| - |rest|;
    Shift(done, s, 1, n);
    BinaryStep(level, left, op, right, done, s, n);
  }

  lemma Shift(done: seq<Token>, s: seq<Token>, i: nat, n: nat)
    requires i <= n <= |s|
    ensures s[i..][..n - i] == s[i..n] && s[i..][n - i..] == s[n..]
    ensures done + s[..n] + s[n..] == done + s
    ensures (done + s)[..|done| + n] == done + s[..n] && (done + s)[|done| + n..] == s[n..]
  {
    assert s == s[..n] + s[n..];
  }

  lemma BinaryStep(level: nat, left: Expr, op: BinaryOp, right: Expr, done: seq<Token>, s: seq<Token>, n: nat)
    requires level <= 2 && 1 <= n <= |s| && OpOf(level, s[0]) == Some(op)
    requires Derives(level, left, done) && Derives(level + 1, right, s[1..n])
    ensures Derives(level, Binary(left, op, right), done + s[..n])
  {
    var ts := done + s[..n];
    assert ts[|done|] == s[0] && ts[..|done|] == done && ts[|done| + 1..] == s[1..n];
    assert DerivesBinary(level, Binary(left, op, right), ts, |done|);
  }

  lemma {:induction false} DotsSound(e: Expr, done: seq<Token>, s: seq<Token>)
    requires Ends(s) && Derives(3, e, done)
    ensures var r := Dots(e, s); r.Ok? ==> Consumed(3, r.value.0, done + s, r.value.1)
    decreases |s|, 0
  {
    if s[0] != Dot {
      assert (done + s)[..|done|] == done && (done + s)[|done|..] == s;
    } else if s[1].Word? {
      var ts := done + s[..2];
      assert ts[..|ts| - 2] == done;
      assert DerivesProperty(Property(e, s[1].text), ts);
      assert ts + s[2..] == done + s;
      DotsSound(Property(e, s[1].text), ts, s[2..]);
    }
  }

  lemma {:induction false} PrimarySound(s: seq<Token>)
    requires Ends(s)
    ensures var r := Primary(s); r.Ok? ==> Consumed(4, r.value.0, s, r.value.1)
    decreases |s|, 1
  {
    match s[0] {
      case LParen =>
        Sound(0, s[1..]);
        var r := Parse(0, s[1..]);
        if r.Ok? && r.value.1[0] == RParen {
          ParenSound(s, r.value.0, r.value.1);
        }
      case LBrace =>
        MapSound(s);
      case _ =>
        AtomSound(s);
    }
  }

  lemma ParenSound(s: seq<Token>, e: Expr, rest: seq<Token>)
    requires |s| > 1 && s[0] == LParen && Ends(rest) && rest[0] == RParen && Consumed(0, e, s[1..], rest)
    ensures Consumed(4, e, s, rest[1..])
  {
    EnclosedSound(s, rest, LParen, RParen);
    var n := |s| - |rest| + 1;
    assert DerivesPrimary(e, s[..n]);
  }

  lemma AtomSound(s: seq<Token>)
    requires Ends(s) && s[0] != LParen && s[0] != LBrace
    ensures var r := Primary(s); r.Ok? ==> Consumed(4, r.value.0, s, r.value.1)
  {
    var r := Primary(s);
    if r.Ok? {
      var n := |s| - |r.value.1|;
      assert DerivesAtom(r.value.0, s[..n]);
    }
  }

  lemma EnclosedSound(s: seq<Token>, rest: seq<Token>, open: Token, close: Token)
    requires s != [] && s[0] == open && rest != [] && rest[0] == close
    requires |rest| <= |s| - 1 && rest == s[1..][|s| - 1 - |rest|..]
    ensures var n := |s| - |rest| + 1;
            && n <= |s| && Enclosed(open, s[..n], close) && s[..n][1..n - 1] == s[1..][..|s| - 1 - |rest|]
            && rest[1..] == s[n..]
  {
    assert s[|s| - |rest|] == rest[0];
  }

  lemma {:induction false} MapSound(s: seq<Token>)
    requires Ends(s) && s[0] == LBrace
    ensures var r := MapLiteral(s); r.Ok? ==> Consumed(4, r.value.0, s, r.value.1)
    decreases |s|, 0
  {
    if s[1] == RBrace {
      BracesSound(s, map[], 2);
    } else {
      PairsSound(map[], [], s[1..], s[1..]);
      var r := Pairs(map[], s[1..]);
      if r.Ok? && r.value.1[0] == RBrace {
        ClosedSound(s, r.value.0, r.value.1);
      }
    }
  }

  lemma ClosedSound(s: seq<Token>, e: Expr, rest: seq<Token>)
    requires |s| > 1 && s[0] == LBrace && Ends(rest) && rest[0] == RBrace && PairsConsumed(e, s[1..], rest)
    ensures Consumed(4, e, s, rest[1..])
  {
    EnclosedSound(s, rest, LBrace, RBrace);
    BracesSound(s, e.m, |s| - |rest| + 1);
  }

  lemma BracesSound(s: seq<Token>, m: map<string, Expr>, n: nat)
    requires 2 <= n < |s| && Enclosed(LBrace, s[..n], RBrace) && DerivesMap(m, s[..n][1..n - 1])
    ensures Consumed(4, Map(m), s, s[n..])
  {
    assert DerivesPrimary(Map(m), s[..n]);
  }

  ghost predicate PairsConsumed(e: Expr, s: seq<Token>, rest: seq<Token>) {
    && |rest| <= |s| && rest == s[|s| - |rest|..] && rest != []
    && e.Map? && DerivesMap(e.m, s[..|s| - |rest|])
  }

  ghost predicate PairsYield(full: seq<Token>, r: Parsed) {
    r.Ok? ==> PairsConsumed(r.value.0, full, r.value.1)
  }

  /** `done` are the pairs read so far, with the comma after them. */
  lemma {:induction false} PairsSound(m: map<string, Expr>, done: seq<Token>, s: seq<Token>, full: seq<Token>)
    requires Ends(s) && full == done + s && PairsSoFar(m, done)
    ensures PairsYield(full, Pairs(m, s))
    decreases |s|, 1
  {
    if s[0].Word? && s[1] == Colon {
      Sound(0, s[2..]);
      var r := Parse(0, s[2..]);
      if r.Ok? {
        NextPairSound(m, m[s[0].text := r.value.0], r.value.0, done, s, r.value.1, full);
      }
    }
  }

  lemma {:induction false} NextPairSound(m: map<string, Expr>, m': map<string, Expr>, e: Expr,
                                         done: seq<Token>, s: seq<Token>, rest: seq<Token>, full: seq<Token>)
    requires Ends(s) && |s| >= 2 && s[0].Word? && s[1] == Colon && Consumed(0, e, s[2..], rest) && full == done + s
    requires m' == m[s[0].text := e] && PairsSoFar(m, done)
    ensures PairsConsumed(Map(m'), full, rest)
    ensures rest[0] == Comma ==> Ends(rest[1..]) && PairsYield(full, Pairs(m', rest[1..]))
    decreases |s|, 0
  {
    PairRead(m, m', e, done, s, rest, full);
    if rest[0] == Comma {
      var ts := done + s[..|s| - |rest|];
      AfterComma(ts, rest);
      PairsSound(m', ts + [Comma], rest[1..], full);
    }
  }

  lemma PairRead(m: map<string, Expr>, m': map<string, Expr>, e: Expr,
                 done: seq<Token>, s: seq<Token>, rest: seq<Token>, full: seq<Token>)
    requires |s| >= 2 && s[0].Word? && s[1] == Colon && Consumed(0, e, s[2..], rest) && full == done + s
    requires m' == m[s[0].text := e] && PairsSoFar(m, done)
    ensures |rest| <= |s| && DerivesMap(m', done + s[..|s| - |rest|]) && full == done + s[..|s| - |rest|] + rest
    ensures PairsConsumed(Map(m'), full, rest)
  {
    var n := |s| - |rest|;
    Shift(done, s, 2, n);
    OnePair(m, m', e, done, s, n);
  }

  ghost predicate PairsSoFar(m: map<string, Expr>, done: seq<Token>) {
    if done == [] then m == map[]
    else |done| >= 2 && done[|done| - 1] == Comma && DerivesMap(m, done[..|done| - 1])
  }

  lemma AfterComma(ts: seq<Token>, rest: seq<Token>)
    requires rest != [] && rest[0] == Comma
    ensures (ts + [Comma])[..|ts|] == ts && (ts + [Comma]) + rest[1..] == ts + rest
  {
    assert rest == [Comma] + rest[1..];
  }

  lemma OnePair(m: map<string, Expr>, m': map<string, Expr>, e: Expr, done: seq<Token>, s: seq<Token>, n: nat)
    requires 2 <= n <= |s| && s[0].Word? && s[1] == Colon && Derives(0, e, s[2..][..n - 2])
    requires m' == m[s[0].text := e]
    requires PairsSoFar(m, done)
    ensures DerivesMap(m', done + s[..n])
  {
    var ts, k := done + s[..n], |done|;
    assert ts[k] == s[0] && ts[k + 1] == Colon && ts[k + 2..] == s[2..][..n - 2];
    if k > 0 {
      assert ts[..k - 1] == done[..k - 1];
    }
    assert DerivesPairs(m', ts, k, m);
  }

  /** The parser returns an expression and what follows it exactly when the grammar splits the stream that way. */
  lemma ParserIsGrammar(level: nat, s: seq<Token>, e: Expr, rest: seq<Token>)
    requires level <= 4 && Ends(s)
    ensures Parse(level, s) == Ok((e, rest)) <==> Consumed(level, e, s, rest)
  {
    Sound(level, s);
    if Consumed(level, e, s, rest) {
      assert s == s[..|s| - |rest|] + rest;
      Complete(level, e, s[..|s| - |rest|], rest);
    }
  }

  /** The grammar is not ambiguous. */
  lemma Unambiguous(e: Expr, e': Expr, ts: seq<Token>)
    requires Derives(0, e, ts) && Derives(0, e', ts)
    ensures e == e'
  {
    Complete(0, e, ts, [Eof]);
    Complete(0, e', ts, [Eof]);
  }

  // Printing with parentheses by precedence.

  function LevelOf(e: Expr): nat {
    match e
    case Binary(_, Or, _) => 0
    case Binary(_, And, _) => 1
    case Binary(_, _, _) => 2
    case Property(_, _) => 3
    case _ => 4
  }

  function OpToken(op: BinaryOp): Token {
    match op
    case Or => Word(OrWord, "OR")
    case And => Word(AndWord, "AND")
    case Equal => Eq
    case NotEqual => Neq
  }

  /** The kinds of word that variables and other names are written with. */
  datatype Spelling = Spelling(variable: string -> WordKind, name: string -> WordKind)

  /** A variable is written with any word that is no literal. */
  ghost predicate Proper(w: Spelling) {
    forall s :: w.variable(s) !in {NullWord, TrueWord, FalseWord}
  }

  /** An operand on the left may be of the operator's own level, one on the right must bind more tightly. */
  ghost function Print(w: Spelling, level: nat, e: Expr): seq<Token>
    requires level <= 4
    decreases e, 2
  {
    if LevelOf(e) < level then [LParen] + PrintPlain(w, e) + [RParen] else PrintPlain(w, e)
  }

  ghost function PrintPlain(w: Spelling, e: Expr): seq<Token>
    decreases e, 1
  {
    match e
    case Null => [Word(NullWord, "NULL")]
    case Bool(b) => [if b then Word(TrueWord, "TRUE") else Word(FalseWord, "FALSE")]
    case IntLit(i) => if i < 0 then [Minus, Int(-i)] else [Int(i)]
    case FloatLit(f) => if f < 0.0 then [Minus, Float(-f)] else [Float(f)]
    case StrLit(s) => [Str(s)]
    case Variable(name) => [Word(w.variable(name), name)]
    case Property(inner, name) => Print(w, 3, inner) + [Dot, Word(w.name(name), name)]
    case Binary(left, op, right) => Print(w, LevelOf(e), left) + [OpToken(op)] + Print(w, LevelOf(e) + 1, right)
    case Map(m) => [LBrace] + PrintPairs(w, e, m.Keys) + [RBrace]
  }

  /** The pairs with the given keys, in some order. */
  ghost function PrintPairs(w: Spelling, e: Expr, keys: set<string>): seq<Token>
    requires e.Map? && keys <= e.m.Keys
    decreases e, 0, |keys|
  {
    if keys == {} then [] else
      var k :| k in keys;
      PrintPair(w, PrintPairs(w, e, keys - {k}), k, Print(w, 0, e.m[k]))
  }

  function PrintPair(w: Spelling, before: seq<Token>, key: string, value: seq<Token>): seq<Token> {
    (if before == [] then [] else before + [Comma]) + [Word(w.name(key), key), Colon] + value
  }

  lemma {:induction false} DerivesLooser(level: nat, tighter: nat, e: Expr, ts: seq<Token>)
    requires level <= tighter <= 4 && Derives(tighter, e, ts)
    ensures Derives(level, e, ts)
    decreases tighter - level
  {
    if level < tighter {
      DerivesLooser(level + 1, tighter, e, ts);
    }
  }

  lemma Joined(level: nat, left: Expr, a: seq<Token>, t: Token, op: BinaryOp, right: Expr, b: seq<Token>)
    requires level <= 2 && OpOf(level, t) == Some(op) && Derives(level, left, a) && Derives(level + 1, right, b)
    ensures Derives(level, Binary(left, op, right), a + [t] + b)
  {
    var ts := a + [t] + b;
    assert ts[..|a|] == a && ts[|a|] == t && ts[|a| + 1..] == b;
    assert DerivesBinary(level, Binary(left, op, right), ts, |a|);
  }

  lemma {:induction false} PrintDerives(w: Spelling, level: nat, e: Expr)
    requires level <= 4 && Proper(w)
    ensures Derives(level, e, Print(w, level, e))
    decreases e, 2
  {
    PlainDerives(w, e);
    var ts := PrintPlain(w, e);
    if LevelOf(e) < level {
      DerivesLooser(0, LevelOf(e), e, ts);
      var wrapped := [LParen] + ts + [RParen];
      assert wrapped[1..|wrapped| - 1] == ts;
      assert Derives(4, e, wrapped);
      DerivesLooser(level, 4, e, wrapped);
    } else {
      DerivesLooser(level, LevelOf(e), e, ts);
    }
  }

  lemma {:induction false} PlainDerives(w: Spelling, e: Expr)
    requires Proper(w)
    ensures Derives(LevelOf(e), e, PrintPlain(w, e))
    decreases e, 1
  {
    var ts := PrintPlain(w, e);
    match e {
      case Property(inner, name) =>
        PrintDerives(w, 3, inner);
        assert ts[..|ts| - 2] == Print(w, 3, inner);
        assert DerivesProperty(e, ts);
      case Binary(left, op, right) =>
        var level := LevelOf(e);
        PrintDerives(w, level, left);
        PrintDerives(w, level + 1, right);
        Joined(level, left, Print(w, level, left), OpToken(op), op, right, Print(w, level + 1, right));
      case Map(m) =>
        PairsDerive(w, e, m.Keys);
        assert Restricted(m, m.Keys) == m;
        assert ts[1..|ts| - 1] == PrintPairs(w, e, m.Keys);
        assert DerivesPrimary(e, ts);
      case _ =>
        assert DerivesAtom(e, ts);
    }
  }

  ghost function Restricted(m: map<string, Expr>, keys: set<string>): map<string, Expr> {
    map k | k in m && k in keys :: m[k]
  }

  lemma {:induction false} PairsDerive(w: Spelling, e: Expr, keys: set<string>)
    requires e.Map? && keys <= e.m.Keys && Proper(w)
    ensures DerivesMap(Restricted(e.m, keys), PrintPairs(w, e, keys))
    decreases e, 0, |keys|
  {
    if keys == {} {
      assert Restricted(e.m, keys) == map[];
    } else {
      var k :| k in keys && PrintPairs(w, e, keys) == PrintPair(w, PrintPairs(w, e, keys - {k}), k, Print(w, 0, e.m[k]));
      PairsDerive(w, e, keys - {k});
      PrintDerives(w, 0, e.m[k]);
      assert Restricted(e.m, keys) == Restricted(e.m, keys - {k})[k := e.m[k]];
      LastPair(w, Restricted(e.m, keys - {k}), PrintPairs(w, e, keys - {k}), k, e.m[k], Print(w, 0, e.m[k]));
    }
  }

  lemma LastPair(w: Spelling, m0: map<string, Expr>, before: seq<Token>, k: string, v: Expr, value: seq<Token>)
    requires DerivesMap(m0, before) && Derives(0, v, value)
    ensures DerivesMap(m0[k := v], PrintPair(w, before, k, value))
  {
    var head := if before == [] then [] else before + [Comma];
    var ts := PrintPair(w, before, k, value);
    assert ts[|head|] == Word(w.name(k), k) && ts[|head| + 1] == Colon && ts[|head| + 2..] == value;
    if before == [] {
      EmptyPairs(m0);
    } else {
      assert ts[..|head| - 1] == before && ts[|head| - 1] == Comma;
    }
    assert DerivesPairs(m0[k := v], ts, |head|, m0);
  }

  lemma EmptyPairs(m: map<string, Expr>)
    requires DerivesMap(m, [])
    ensures m == map[]
  {
  }

  /** Every expression tree, printed and parsed, comes back, and the tokens after it are left alone. */
  lemma PrintParse(w: Spelling, e: Expr, rest: seq<Token>)
    requires Ends(rest) && !Continues(0, rest[0]) && Proper(w)
    ensures Ends(Print(w, 0, e) + rest) && Parse(0, Print(w, 0, e) + rest) == Ok((e, rest))
  {
    PrintDerives(w, 0, e);
    Complete(0, e, Print(w, 0, e), rest);
  }

  // Precedence.

  /** OR binds less than AND, AND less than equality, and operators of one kind group to the left. */
  lemma Precedence(x: Expr, a: seq<Token>, y: Expr, b: seq<Token>, z: Expr, c: seq<Token>, or: string, and: string)
    requires Derives(4, x, a) && Derives(4, y, b) && Derives(4, z, c)
    ensures var o, n := Word(OrWord, or), Word(AndWord, and);
            && Derives(0, Binary(x, Or, Binary(y, And, z)), a + [o] + (b + [n] + c))
            && Derives(0, Binary(Binary(x, And, y), Or, z), (a + [n] + b) + [o] + c)
            && Derives(0, Binary(x, And, Binary(y, Equal, z)), a + [n] + (b + [Eq] + c))
            && Derives(0, Binary(Binary(x, NotEqual, y), And, z), (a + [Neq] + b) + [n] + c)
            && Derives(0, Binary(Binary(x, Or, y), Or, z), (a + [o] + b) + [o] + c)
            && Derives(0, Binary(Binary(x, And, y), And, z), (a + [n] + b) + [n] + c)
            && Derives(0, Binary(Binary(x, Equal, y), NotEqual, z), (a + [Eq] + b) + [Neq] + c)
  {
    var o, n := Word(OrWord, or), Word(AndWord, and);
    Tight(x, a);
    Tight(y, b);
    Tight(z, c);
    Joined(1, y, b, n, And, z, c);
    Joined(0, x, a, o, Or, Binary(y, And, z), b + [n] + c);
    Joined(1, x, a, n, And, y, b);
    DerivesLooser(0, 1, Binary(x, And, y), a + [n] + b);
    Joined(0, Binary(x, And, y), a + [n] + b, o, Or, z, c);
    Joined(1, Binary(x, And, y), a + [n] + b, n, And, z, c);
    DerivesLooser(0, 1, Binary(Binary(x, And, y), And, z), (a + [n] + b) + [n] + c);
    Joined(0, x, a, o, Or, y, b);
    Joined(0, Binary(x, Or, y), a + [o] + b, o, Or, z, c);
    EqualityTighter(x, a, y, b, z, c, n);
  }

  lemma Tight(x: Expr, a: seq<Token>)
    requires Derives(4, x, a)
    ensures Derives(0, x, a) && Derives(1, x, a) && Derives(2, x, a) && Derives(3, x, a)
  {
    DerivesLooser(0, 4, x, a);
    DerivesLooser(1, 4, x, a);
    DerivesLooser(2, 4, x, a);
    DerivesLooser(3, 4, x, a);
  }

  lemma EqualityTighter(x: Expr, a: seq<Token>, y: Expr, b: seq<Token>, z: Expr, c: seq<Token>, n: Token)
    requires Derives(4, x, a) && Derives(4, y, b) && Derives(4, z, c) && n.Word? && n.kind == AndWord
    ensures Derives(0, Binary(x, And, Binary(y, Equal, z)), a + [n] + (b + [Eq] + c))
    ensures Derives(0, Binary(Binary(x, NotEqual, y), And, z), (a + [Neq] + b) + [n] + c)
    ensures Derives(0, Binary(Binary(x, Equal, y), NotEqual, z), (a + [Eq] + b) + [Neq] + c)
  {
    Tight(x, a);
    Tight(y, b);
    Tight(z, c);
    Joined(2, y, b, Eq, Equal, z, c);
    Joined(1, x, a, n, And, Binary(y, Equal, z), b + [Eq] + c);
    DerivesLooser(0, 1, Binary(x, And, Binary(y, Equal, z)), a + [n] + (b + [Eq] + c));
    Joined(2, x, a, Neq, NotEqual, y, b);
    DerivesLooser(1, 2, Binary(x, NotEqual, y), a + [Neq] + b);
    Joined(1, Binary(x, NotEqual, y), a + [Neq] + b, n, And, z, c);
    DerivesLooser(0, 1, Binary(Binary(x, NotEqual, y), And, z), (a + [Neq] + b) + [n] + c);
    Joined(2, x, a, Eq, Equal, y, b);
    Joined(2, Binary(x, Equal, y), a + [Eq] + b, Neq, NotEqual, z, c);
    DerivesLooser(0, 2, Binary(Binary(x, Equal, y), NotEqual, z), (a + [Eq] + b) + [Neq] + c);
  }
}

/** The parser as it runs: a cursor over the tokens. */
module Parsers {
  import opened Bytes
  import opened Grammar

  class Parser {
    const tokens: seq<Token>
    var pos: nat

    ghost predicate Valid()
      reads this
    {
      Ends(tokens) && pos < |tokens|
    }

    ghost function Rest(): (s: seq<Token>)
      requires Valid()
      reads this
      ensures Ends(s)
    {
      tokens[pos..]
    }

    constructor (tokens: seq<Token>)
      requires Ends(tokens)
      ensures Valid() && this.tokens == tokens && Rest() == tokens
    {
      this.tokens := tokens;
      pos := 0;
    }

    function Current(): (t: Token)
      requires Valid()
      reads this
      ensures t == Rest()[0]
    {
      tokens[pos]
    }

    /** The cursor never leaves the end of input. */
    method Bump()
      requires Valid()
      modifies this
      ensures Valid()
      ensures Rest() == if |old(Rest())| > 1 then old(Rest())[1..] else old(Rest())
      ensures pos >= old(pos) && (old(Current()) != Eof ==> pos == old(pos) + 1)
    {
      if pos < |tokens| - 1 {
        pos := pos + 1;
      }
    }

    /** `r` is what parsing at `level` yields from `s`, and the cursor stands behind it. */
    ghost predicate Done(level: nat, s: seq<Token>, r: Result<Expr>)
      requires Valid() && Ends(s) && level <= 4
      reads this
    {
      var p := Parse(level, s);
      if r.Ok? then p == Ok((r.value, Rest())) else p.Err?
    }

    method ParseOr() returns (r: Result<Expr>)
      requires Valid()
      modifies this
      ensures Valid() && pos >= old(pos) && Done(0, old(Rest()), r)
      decreases |tokens| - pos, 6
    {
      var left :- ParseAnd();
      LevelStep(0, old(Rest()), left, Rest());
      while OpOf(0, Current()).Some?
        invariant Valid() && pos > old(pos) && Parse(0, old(Rest())) == More(0, left, Rest())
        decreases |tokens| - pos
      {
        ghost var s := Rest();
        Bump();
        assert Rest() == s[1..];
        var right :- ParseAnd();
        MoreStep(0, left, Or, right, s, Rest());
        left := Binary(left, Or, right);
      }
      return Ok(left);
    }

    method ParseAnd() returns (r: Result<Expr>)
      requires Valid()
      modifies this
      ensures Valid() && pos >= old(pos) && Done(1, old(Rest()), r)
      decreases |tokens| - pos, 5
    {
      var left :- ParseEquality();
      LevelStep(1, old(Rest()), left, Rest());
      while OpOf(1, Current()).Some?
        invariant Valid() && pos > old(pos) && Parse(1, old(Rest())) == More(1, left, Rest())
        decreases |tokens| - pos
      {
        ghost var s := Rest();
        Bump();
        assert Rest() == s[1..];
        var right :- ParseEquality();
        MoreStep(1, left, And, right, s, Rest());
        left := Binary(left, And, right);
      }
      return Ok(left);
    }

    method ParseEquality() returns (r: Result<Expr>)
      requires Valid()
      modifies this
      ensures Valid() && pos >= old(pos) && Done(2, old(Rest()), r)
      decreases |tokens| - pos, 4
    {
      var left :- ParsePostfix();
      LevelStep(2, old(Rest()), left, Rest());
      while OpOf(2, Current()).Some?
        invariant Valid() && pos > old(pos) && Parse(2, old(Rest())) == More(2, left, Rest())
        decreases |tokens| - pos
      {
        var op := OpOf(2, Current()).value;
        ghost var s := Rest();
        Bump();
        assert Rest() == s[1..];
        var right :- ParsePostfix();
        MoreStep(2, left, op, right, s, Rest());
        left := Binary(left, op, right);
      }
      return Ok(left);
    }

    method ParsePostfix() returns (r: Result<Expr>)
      requires Valid()
      modifies this
      ensures Valid() && pos >= old(pos) && Done(3, old(Rest()), r)
      decreases |tokens| - pos, 3
    {
      var expr :- ParsePrimary();
      while Current() == Dot
        invariant Valid() && pos > old(pos) && Parse(3, old(Rest())) == Dots(expr, Rest())
        decreases |tokens| - pos
      {
        ghost var s := Rest();
        Bump();
        assert Rest()[0] == s[1];
        var name :- ExpectWord();
        assert Rest() == s[2..];
        expr := Property(expr, name);
      }
      return Ok(expr);
    }

    method ExpectWord() returns (r: Result<string>)
      requires Valid()
      modifies this
      ensures Valid() && pos >= old(pos)
      ensures r.Ok? <==> old(Current()).Word?
      ensures r.Ok? ==> r.value == old(Current()).text && Rest() == old(Rest())[1..] && pos == old(pos) + 1
      ensures r.Err? ==> pos == old(pos)
    {
      if !Current().Word? {
        return Err(ExecError);
      }
      r := Ok(Current().text);
      Bump();
    }

    method Expect(t: Token) returns (r: Result<()>)
      requires Valid() && t != Eof
      modifies this
      ensures Valid() && pos >= old(pos)
      ensures r.Ok? <==> old(Current()) == t
      ensures r.Ok? ==> Rest() == old(Rest())[1..] && pos == old(pos) + 1
    {
      if Current() != t {
        return Err(ExecError);
      }
      Bump();
      return Ok(());
    }

    method ParsePrimary() returns (r: Result<Expr>)
      requires Valid()
      modifies this
      ensures Valid() && pos >= old(pos) && Done(4, old(Rest()), r)
      decreases |tokens| - pos, 2
    {
      ghost var s := Rest();
      match Current() {
        case Word(kind, text) =>
          Bump();
          return Ok(WordExpr(kind, text));
        case Int(n) =>
          Bump();
          return Ok(IntLit(n));
        case Float(x) =>
          Bump();
          return Ok(FloatLit(x));
        case Str(text) =>
          Bump();
          return Ok(StrLit(text));
        case LBrace =>
          r := ParseMapLiteral();
        case LParen =>
          Bump();
          var expr :- ParseOr();
          var close :- Expect(RParen);
          return Ok(expr);
        case Minus =>
          r := ParseNegative();
        case _ =>
          return Err(ExecError);
      }
    }

    method ParseNegative() returns (r: Result<Expr>)
      requires Valid() && Current() == Minus
      modifies this
      ensures Valid() && pos >= old(pos) && Done(4, old(Rest()), r)
    {
      ghost var s := Rest();
      Bump();
      assert Current() == s[1] && Rest()[1..] == s[2..];
      match Current() {
        case Int(n) =>
          Bump();
          return Ok(IntLit(0 - n));
        case Float(x) =>
          Bump();
          return Ok(FloatLit(-x));
        case _ =>
          return Err(ExecError);
      }
    }

    method ParseMapLiteral() returns (r: Result<Expr>)
      requires Valid() && Current() == LBrace
      modifies this
      ensures Valid() && pos >= old(pos) && Done(4, old(Rest()), r)
      decreases |tokens| - pos, 1
    {
      ghost var s := Rest();
      assert Parse(4, s) == MapLiteral(s);
      Bump();
      assert Rest() == s[1..] && Rest()[1..] == s[2..];
      var m := map[];
      if Current() != RBrace {
        m :- ParsePairs();
      }
      var close :- Expect(RBrace);
      return Ok(Map(m));
    }

    method ParsePairs() returns (r: Result<map<string, Expr>>)
      requires Valid()
      modifies this
      ensures Valid() && pos >= old(pos)
      ensures var p := Pairs(map[], old(Rest()));
              if r.Ok? then p == Ok((Map(r.value), Rest())) else p.Err?
      decreases |tokens| - pos, 8
    {
      var m: map<string, Expr> := map[];
      while true
        invariant Valid() && pos >= old(pos) && Pairs(map[], old(Rest())) == Pairs(m, Rest())
        decreases |tokens| - pos
      {
        ghost var s := Rest();
        var key :- ExpectWord();
        assert Current() == s[1] && Rest()[1..] == s[2..];
        var colon :- Expect(Colon);
        var value :- ParseOr();
        m := m[key := value];
        if Current() != Comma {
          return Ok(m);
        }
        Bump();
      }
    }

    // Statements. What they build is left out: the methods say that the cursor only moves forward and that a statement
    // takes at least one token.

    predicate At(kind: WordKind)
      requires Valid()
      reads this
    {
      Current().Word? && Current().kind == kind
    }

    method ExpectKind(kind: WordKind) returns (r: Result<()>)
      requires Valid()
      modifies this
      ensures Valid() && pos >= old(pos) && (r.Ok? <==> old(At(kind))) && (r.Ok? ==> pos == old(pos) + 1)
    {
      if !At(kind) {
        return Err(ExecError);
      }
      Bump();
      return Ok(());
    }

    method ExpectString() returns (r: Result<string>)
      requires Valid()
      modifies this
      ensures Valid() && pos >= old(pos) && (r.Ok? <==> old(Current()).Str?) && (r.Ok? ==> pos == old(pos) + 1)
    {
      if !Current().Str? {
        return Err(ExecError);
      }
      r := Ok(Current().s);
      Bump();
    }

    method ExpectU32() returns (r: Result<nat>)
      requires Valid()
      modifies this
      ensures Valid() && pos >= old(pos) && (r.Ok? ==> pos == old(pos) + 1)
    {
      match Current() {
        case Int(n) =>
          if n > 0xFFFF_FFFF {
            return Err(ExecError);
          }
          Bump();
          return Ok(n);
        case _ =>
          return Err(ExecError);
      }
    }

    /** A name as a word or as a string. */
    method ExpectName() returns (r: Result<string>)
      requires Valid()
      modifies this
      ensures Valid() && pos >= old(pos) && (r.Ok? ==> pos == old(pos) + 1)
    {
      if Current().Str? {
        r := ExpectString();
      } else {
        r := ExpectWord();
      }
    }

    /** After BRANCH or TAG only an identifier or a string will do, not a keyword. */
    method ExpectRefName() returns (r: Result<string>)
      requires Valid()
      modifies this
      ensures Valid() && pos >= old(pos) && (r.Ok? ==> pos == old(pos) + 1)
    {
      if At(PlainWord) || Current().Str? {
        r := ExpectName();
      } else {
        r := Err(ExecError);
      }
    }

    method ParseTargetRef() returns (r: Result<()>)
      requires Valid()
      modifies this
      ensures Valid() && pos >= old(pos) && (r.Ok? ==> pos > old(pos))
    {
      if At(HeadWord) {
        Bump();
        return Ok(());
      } else if At(BranchWord) || At(TagWord) {
        Bump();
        var name :- ExpectRefName();
        return Ok(());
      } else if At(CommitWord) {
        Bump();
        var hex :- ExpectString();
        return if HexText(hex) then Ok(()) else Err(ExecError);
      }
      return Err(ExecError);
    }

    method ParseTargetList() returns (r: Result<()>)
      requires Valid()
      modifies this
      ensures Valid() && pos >= old(pos) && (r.Ok? ==> pos > old(pos))
    {
      var open :- Expect(LBracket);
      if Current() != RBracket {
        var first :- ParseTargetRef();
        while Current() == Comma
          invariant Valid() && pos > old(pos)
          decreases |tokens| - pos
        {
          Bump();
          var next :- ParseTargetRef();
        }
      }
      var close :- Expect(RBracket);
      return Ok(());
    }

    method ParseCommitStmt() returns (r: Result<()>)
      requires Valid()
      modifies this
      ensures Valid() && pos >= old(pos) && (r.Ok? ==> pos > old(pos))
    {
      var keyword :- ExpectKind(CommitWord);
      if Current() != LBrace {
        return Err(ExecError);
      }
      var payload :- ParseMapLiteral();
      while At(MessageWord) || At(ParentsWord)
        invariant Valid() && pos > old(pos)
        decreases |tokens| - pos
      {
        if At(MessageWord) {
          Bump();
          var message :- ExpectString();
        } else {
          Bump();
          var parents :- ParseTargetList();
        }
      }
      return Ok(());
    }

    method ParseBranchStmt() returns (r: Result<()>)
      requires Valid()
      modifies this
      ensures Valid() && pos >= old(pos) && (r.Ok? ==> pos > old(pos))
    {
      if At(CreateWord) {
        Bump();
        var keyword :- ExpectKind(BranchWord);
        var name :- ExpectName();
        if At(FromWord) {
          Bump();
          var from :- ParseTargetRef();
        }
        return Ok(());
      } else if At(DeleteWord) {
        Bump();
        var keyword :- ExpectKind(BranchWord);
        var name :- ExpectName();
        return Ok(());
      }
      return Err(ExecError);
    }

    method ParseMergeStmt() returns (r: Result<()>)
      requires Valid()
      modifies this
      ensures Valid() && pos >= old(pos) && (r.Ok? ==> pos > old(pos))
    {
      var keyword :- ExpectKind(MergeWord);
      var source :- ParseTargetRef();
      var into :- ExpectKind(IntoWord);
      var target :- ParseTargetRef();
      if At(StrategyWord) {
        Bump();
        if !At(FastForwardWord) && !At(ThreeWayWord) && !At(SquashWord) {
          return Err(ExecError);
        }
        Bump();
      }
      return Ok(());
    }

    method ParseDiffStmt() returns (r: Result<()>)
      requires Valid()
      modifies this
      ensures Valid() && pos >= old(pos) && (r.Ok? ==> pos > old(pos))
    {
      var keyword :- ExpectKind(DiffWord);
      var left :- ParseTargetRef();
      var between :- ExpectKind(AndWord);
      var right :- ParseTargetRef();
      if At(PathWord) {
        Bump();
        var path :- ExpectString();
      }
      return Ok(());
    }

    method ParseNodePattern() returns (r: Result<()>)
      requires Valid()
      modifies this
      ensures Valid() && pos >= old(pos) && (r.Ok? ==> pos > old(pos))
    {
      var open :- Expect(LParen);
      if Current().Word? {
        var variable :- ExpectWord();
      }
      if Current() == Colon {
        Bump();
        var labelName :- ExpectWord();
      }
      if Current() == LBrace {
        var properties :- ParseMapLiteral();
      }
      var close :- Expect(RParen);
      return Ok(());
    }

    predicate AtEdgeType()
      requires Valid()
      reads this
    {
      At(ParentWord) || At(ChildWord) || At(AncestorWord) || At(DescendantWord)
    }

    method ParseEdgeBody() returns (r: Result<()>)
      requires Valid()
      modifies this
      ensures Valid() && pos >= old(pos)
    {
      if Current() == Colon {
        Bump();
        if !AtEdgeType() {
          return Err(ExecError);
        }
        Bump();
      } else if AtEdgeType() {
        Bump();
      }
      if Current() == Star {
        r := ParseHopMultiplier();
      } else {
        r := Ok(());
      }
    }

    method ParseHopMultiplier() returns (r: Result<()>)
      requires Valid()
      modifies this
      ensures Valid() && pos >= old(pos) && (r.Ok? ==> pos > old(pos))
    {
      var star :- Expect(Star);
      if Current().Int? {
        var least :- ExpectU32();
      }
      if Current() == DotDot {
        Bump();
        if Current().Int? {
          var most :- ExpectU32();
        }
      }
      return Ok(());
    }

    method ParseEdgePattern() returns (r: Result<()>)
      requires Valid()
      modifies this
      ensures Valid() && pos >= old(pos) && (r.Ok? ==> pos > old(pos))
    {
      match Current() {
        case ArrowRight =>
          Bump();
          return Ok(());
        case ArrowLeft =>
          Bump();
          if Current() == LBracket {
            var open :- Expect(LBracket);
            var body :- ParseEdgeBody();
            var close :- Expect(RBracket);
            var end :- Expect(Minus);
          }
          return Ok(());
        case Minus =>
          Bump();
          var open :- Expect(LBracket);
          var body :- ParseEdgeBody();
          var close :- Expect(RBracket);
          var end :- Expect(ArrowRight);
          return Ok(());
        case _ =>
          return Err(ExecError);
      }
    }

    method ParsePattern() returns (r: Result<()>)
      requires Valid()
      modifies this
      ensures Valid() && pos >= old(pos) && (r.Ok? ==> pos > old(pos))
    {
      var first :- ParseNodePattern();
      while Current() == ArrowRight || Current() == ArrowLeft || Current() == Minus
        invariant Valid() && pos > old(pos)
        decreases |tokens| - pos
      {
        var edge :- ParseEdgePattern();
        var node :- ParseNodePattern();
      }
      return Ok(());
    }

    method ParseMatchClause() returns (r: Result<()>)
      requires Valid()
      modifies this
      ensures Valid() && pos >= old(pos) && (r.Ok? ==> pos > old(pos))
    {
      var keyword :- ExpectKind(MatchWord);
      var first :- ParsePattern();
      while Current() == Comma
        invariant Valid() && pos > old(pos)
        decreases |tokens| - pos
      {
        Bump();
        var next :- ParsePattern();
      }
      return Ok(());
    }

    method ParseTraversalClause() returns (r: Result<()>)
      requires Valid()
      modifies this
      ensures Valid() && pos >= old(pos) && (r.Ok? ==> pos > old(pos))
    {
      var keyword :- ExpectKind(TraverseWord);
      if At(MergeBaseWord) || At(ShortestPathWord) {
        Bump();
        var open :- Expect(LParen);
        var a :- ParseTargetRef();
        var comma :- Expect(Comma);
        var b :- ParseTargetRef();
        var close :- Expect(RParen);
        return Ok(());
      } else if At(AncestorsWord) {
        Bump();
        var open :- Expect(LParen);
        var a :- ParseTargetRef();
        var close :- Expect(RParen);
        return Ok(());
      }
      return Err(ExecError);
    }

    method ParseProjectionItem() returns (r: Result<()>)
      requires Valid()
      modifies this
      ensures Valid() && pos >= old(pos) && (r.Ok? ==> pos > old(pos))
    {
      var expression :- ParseOr();
      if At(AsWord) {
        Bump();
        var name :- ExpectWord();
      }
      return Ok(());
    }

    method ParseSelectClause() returns (r: Result<()>)
      requires Valid()
      modifies this
      ensures Valid() && pos >= old(pos) && (r.Ok? ==> pos > old(pos))
    {
      var keyword :- ExpectKind(SelectWord);
      var first :- ParseProjectionItem();
      while Current() == Comma
        invariant Valid() && pos > old(pos)
        decreases |tokens| - pos
      {
        Bump();
        var next :- ParseProjectionItem();
      }
      return Ok(());
    }

    /** Every clause is optional, but a query without one is an error, and each clause starts with its keyword. */
    method ParseQueryStatement() returns (r: Result<()>)
      requires Valid()
      modifies this
      ensures Valid() && pos >= old(pos) && (r.Ok? ==> pos > old(pos))
    {
      var any := false;
      if At(UseWord) {
        Bump();
        var context :- ParseTargetRef();
        any := true;
      }
      if At(MatchWord) {
        var patterns :- ParseMatchClause();
        any := true;
      }
      if At(TraverseWord) {
        var traversal :- ParseTraversalClause();
        any := true;
      }
      if At(WhereWord) {
        Bump();
        var condition :- ParseOr();
        any := true;
      }
      if At(SelectWord) {
        var items :- ParseSelectClause();
        any := true;
      }
      return if any then Ok(()) else Err(ExecError);
    }

    /** A statement that parses has taken at least one token. */
    method ParseStatement() returns (r: Result<()>)
      requires Valid()
      modifies this
      ensures Valid() && pos >= old(pos) && (r.Ok? ==> pos > old(pos))
    {
      if At(CommitWord) {
        r := ParseCommitStmt();
      } else if At(CreateWord) || At(DeleteWord) {
        r := ParseBranchStmt();
      } else if At(CheckoutWord) {
        Bump();
        r := ParseTargetRef();
      } else if At(MergeWord) {
        r := ParseMergeStmt();
      } else if At(DiffWord) {
        r := ParseDiffStmt();
      } else {
        r := ParseQueryStatement();
      }
    }

    /** Ends on every input: the statements it finds start at strictly increasing tokens, each able to start one. */
    method ParseScript() returns (r: Result<()>, starts: seq<nat>)
      requires Valid()
      modifies this
      ensures Valid() && (r.Ok? ==> Current() == Eof)
      ensures forall i :: 0 <= i < |starts| ==> old(pos) <= starts[i] < |tokens|
      ensures forall i, j :: 0 <= i < j < |starts| ==> starts[i] < starts[j]
      ensures r.Ok? ==> forall i :: 0 < i < |starts| ==> CanStart(tokens[starts[i]])
      ensures r.Ok? && old(Current()) != Eof ==> starts != [] && starts[0] == old(pos)
    {
      starts := [];
      while Current() != Eof
        invariant Valid() && pos >= old(pos)
        invariant forall i :: 0 <= i < |starts| ==> old(pos) <= starts[i] < pos
        invariant forall i, j :: 0 <= i < j < |starts| ==> starts[i] < starts[j]
        invariant forall i :: 0 < i < |starts| ==> CanStart(tokens[starts[i]])
        invariant if starts == [] then pos == old(pos) else starts[0] == old(pos)
        invariant starts != [] && Current() != Eof ==> CanStart(Current())
        decreases |tokens| - pos
      {
        var start := pos;
        var statement :- ParseStatement();
        starts := starts + [start];
        if Current() == Semicolon {
          Bump();
        }
        if Current() == Eof {
          break;
        }
        if !CanStart(Current()) {
          r := Err(ExecError);
          return;
        }
      }
      r := Ok(());
    }
  }

  /** One to 64 hexadecimal digits. */
  predicate HexText(s: string) {
    && 0 < |s| <= 64
    && forall i :: 0 <= i < |s| ==> '0' <= s[i] <= '9' || 'a' <= s[i] <= 'f' || 'A' <= s[i] <= 'F'
  }

  predicate CanStart(t: Token) {
    t.Word? && t.kind in {UseWord, MatchWord, TraverseWord, WhereWord, SelectWord, CommitWord, CreateWord, DeleteWord,
      CheckoutWord, MergeWord, DiffWord}
  }
}
