/** The expression grammar of EpochQL and its precedence parser, on token sequences. */
module Grammar {
  import opened Bytes

  /** How the parser tells words apart; every word may serve as a name. `SchemaWord` are those of schema statements. */
  datatype WordKind =
    | NullWord | TrueWord | FalseWord | AndWord | OrWord | PlainWord
    | UseWord | MatchWord | TraverseWord | WhereWord | SelectWord | AsWord
    | CommitWord | CreateWord | DeleteWord | CheckoutWord | MergeWord | DiffWord
    | BranchWord | TagWord | HeadWord | FromWord | IntoWord | MessageWord | ParentsWord | PathWord
    | StrategyWord | FastForwardWord | ThreeWayWord | SquashWord
    | MergeBaseWord | ShortestPathWord | AncestorsWord
    | ParentWord | ChildWord | AncestorWord | DescendantWord
    | SchemaWord

  /** A token. Numbers come without a sign. */
  datatype Token =
    | Word(kind: WordKind, text: string)
    | Int(n: nat)
    | Float(x: real)
    | Str(s: string)
    | Comma | Dot | Colon | Eq | Neq | LParen | RParen | LBrace | RBrace | Minus
    | Semicolon | Star | DotDot | LBracket | RBracket | ArrowRight | ArrowLeft
    | Eof

  datatype BinaryOp = Equal | NotEqual | And | Or

  datatype Expr =
    | Null
    | Bool(b: bool)
    | IntLit(i: int)
    | FloatLit(f: real)
    | StrLit(s: string)
    | Variable(name: string)
    | Property(inner: Expr, name: string)
    | Binary(left: Expr, op: BinaryOp, right: Expr)
    | Map(m: map<string, Expr>)

  // Levels of precedence: 0 is OR, 1 is AND, 2 is equality, 3 is property access, 4 is a primary expression.

  function OpOf(level: nat, t: Token): Option<BinaryOp> {
    match t
    case Word(OrWord, _) => if level == 0 then Some(Or) else None
    case Word(AndWord, _) => if level == 1 then Some(And) else None
    case Eq => if level == 2 then Some(Equal) else None
    case Neq => if level == 2 then Some(NotEqual) else None
    case _ => None
  }

  /** The token would carry on an expression of this level. */
  predicate Continues(level: nat, t: Token) {
    match t
    case Word(OrWord, _) => level == 0
    case Word(AndWord, _) => level <= 1
    case Eq => level <= 2
    case Neq => level <= 2
    case Dot => level <= 3
    case _ => false
  }

  /** A stream of tokens ends with the end of input, so that something other than the end is never the last. */
  predicate Ends(s: seq<Token>) {
    s != [] && s[|s| - 1] == Eof
  }

  // The parser on values: it returns the expression and the tokens that follow.

  type Parsed = Result<(Expr, seq<Token>)>

  function Parse(level: nat, s: seq<Token>): (r: Parsed)
    requires Ends(s) && level <= 4
    ensures r.Ok? ==> Ends(r.value.1) && |r.value.1| < |s|
    decreases |s|, 6 - level
  {
    if level == 4 then Primary(s) else
      var (e, rest) :- Parse(level + 1, s);
      if level == 3 then Dots(e, rest) else More(level, e, rest)
  }

  /** Operators of one level, grouped to the left. */
  function More(level: nat, left: Expr, s: seq<Token>): (r: Parsed)
    requires Ends(s) && level <= 2
    ensures r.Ok? ==> Ends(r.value.1) && |r.value.1| <= |s|
    decreases |s|, 0
  {
    match OpOf(level, s[0])
    case None => Ok((left, s))
    case Some(op) =>
      var (right, rest) :- Parse(level + 1, s[1..]);
      More(level, Binary(left, op, right), rest)
  }

  function Dots(e: Expr, s: seq<Token>): (r: Parsed)
    requires Ends(s)
    ensures r.Ok? ==> Ends(r.value.1) && |r.value.1| <= |s|
    decreases |s|, 0
  {
    if s[0] != Dot then Ok((e, s))
    else if !s[1].Word? then Err(ExecError)
    else Dots(Property(e, s[1].text), s[2..])
  }

  function Primary(s: seq<Token>): (r: Parsed)
    requires Ends(s)
    ensures r.Ok? ==> Ends(r.value.1) && |r.value.1| < |s|
    decreases |s|, 1
  {
    match s[0]
    case Word(kind, text) => Ok((WordExpr(kind, text), s[1..]))
    case Int(n) => Ok((IntLit(n), s[1..]))
    case Float(x) => Ok((FloatLit(x), s[1..]))
    case Str(text) => Ok((StrLit(text), s[1..]))
    case LBrace => MapLiteral(s)
    case LParen =>
      var (e, rest) :- Parse(0, s[1..]);
      if rest[0] == RParen then Ok((e, rest[1..])) else Err(ExecError)
    case Minus =>
      (match s[1]
       case Int(n) => Ok((IntLit(0 - n), s[2..]))
       case Float(x) => Ok((FloatLit(-x), s[2..]))
       case _ => Err(ExecError))
    case _ => Err(ExecError)
  }

  function WordExpr(kind: WordKind, text: string): Expr {
    match kind
    case NullWord => Null
    case TrueWord => Bool(true)
    case FalseWord => Bool(false)
    case _ => Variable(text)
  }

  function MapLiteral(s: seq<Token>): (r: Parsed)
    requires Ends(s) && s[0] == LBrace
    ensures r.Ok? ==> Ends(r.value.1) && |r.value.1| < |s|
    decreases |s|, 0
  {
    if s[1] == RBrace then Ok((Map(map[]), s[2..])) else
      var (e, rest) :- Pairs(map[], s[1..]);
      if rest[0] == RBrace then Ok((e, rest[1..])) else Err(ExecError)
  }

  /** Pairs separated by commas; a key given twice keeps its last value. */
  function Pairs(m: map<string, Expr>, s: seq<Token>): (r: Parsed)
    requires Ends(s)
    ensures r.Ok? ==> Ends(r.value.1) && |r.value.1| < |s|
    decreases |s|, 0
  {
    if !s[0].Word? || s[1] != Colon then Err(ExecError) else
      var (e, rest) :- Parse(0, s[2..]);
      var m' := m[s[0].text := e];
      if rest[0] == Comma then Pairs(m', rest[1..]) else Ok((Map(m'), rest))
  }

  lemma LevelStep(level: nat, s: seq<Token>, e: Expr, rest: seq<Token>)
    requires level <= 2 && Ends(s) && Parse(level + 1, s) == Ok((e, rest))
    ensures Ends(rest) && Parse(level, s) == More(level, e, rest)
  {}

  lemma MoreStep(level: nat, left: Expr, op: BinaryOp, right: Expr, s: seq<Token>, rest: seq<Token>)
    requires level <= 2 && Ends(s) && OpOf(level, s[0]) == Some(op) && Parse(level + 1, s[1..]) == Ok((right, rest))
    ensures Ends(rest) && More(level, left, s) == More(level, Binary(left, op, right), rest)
  {}

  // The grammar: which token sequences stand for which expression at which level.

  ghost predicate Derives(level: nat, e: Expr, ts: seq<Token>)
    requires level <= 4
    decreases |ts|, 5 - level
  {
    if level == 4 then DerivesPrimary(e, ts)
    else if level == 3 then Derives(4, e, ts) || DerivesProperty(e, ts)
    else Derives(level + 1, e, ts) || exists k :: DerivesBinary(level, e, ts, k)
  }

  /** The operator at position `k` is the outermost one. */
  ghost predicate DerivesBinary(level: nat, e: Expr, ts: seq<Token>, k: int)
    requires level <= 2
    decreases |ts|, 0
  {
    && e.Binary? && 0 <= k < |ts|
    && OpOf(level, ts[k]) == Some(e.op)
    && Derives(level, e.left, ts[..k])
    && Derives(level + 1, e.right, ts[k + 1..])
  }

  ghost predicate DerivesProperty(e: Expr, ts: seq<Token>)
    decreases |ts|, 0
  {
    var n := |ts|;
    && e.Property? && n >= 2
    && ts[n - 2] == Dot && ts[n - 1].Word? && ts[n - 1].text == e.name
    && Derives(3, e.inner, ts[..n - 2])
  }

  ghost predicate DerivesPrimary(e: Expr, ts: seq<Token>)
    decreases |ts|, 0
  {
    || DerivesAtom(e, ts)
    || (Enclosed(LParen, ts, RParen) && Derives(0, e, ts[1..|ts| - 1]))
    || (Enclosed(LBrace, ts, RBrace) && e.Map? && DerivesMap(e.m, ts[1..|ts| - 1]))
  }

  predicate Enclosed(open: Token, ts: seq<Token>, close: Token) {
    |ts| >= 2 && ts[0] == open && ts[|ts| - 1] == close
  }

  predicate DerivesAtom(e: Expr, ts: seq<Token>) {
    || (|ts| == 1 && match ts[0]
                     case Word(kind, text) => DerivesWord(e, kind, text)
                     case Int(n) => e == IntLit(n)
                     case Float(x) => e == FloatLit(x)
                     case Str(s) => e == StrLit(s)
                     case _ => false)
    || (|ts| == 2 && ts[0] == Minus && match ts[1]
                                       case Int(n) => e == IntLit(0 - n)
                                       case Float(x) => e == FloatLit(-x)
                                       case _ => false)
  }

  /** Three words are literals; every other word stands for the variable of its text. */
  predicate DerivesWord(e: Expr, kind: WordKind, text: string) {
    || (kind == NullWord && e == Null)
    || (kind == TrueWord && e == Bool(true))
    || (kind == FalseWord && e == Bool(false))
    || (kind !in {NullWord, TrueWord, FalseWord} && e == Variable(text))
  }

  ghost predicate DerivesMap(m: map<string, Expr>, ts: seq<Token>)
    decreases |ts|, 1
  {
    (m == map[] && ts == []) || exists k, m0 :: DerivesPairs(m, ts, k, m0)
  }

  /** The last pair starts at position `k`; `m0` is what comes before it. */
  ghost predicate DerivesPairs(m: map<string, Expr>, ts: seq<Token>, k: int, m0: map<string, Expr>)
    decreases |ts|, 0
  {
    && 0 <= k && k + 2 <= |ts| && ts[k].Word? && ts[k + 1] == Colon
    && ts[k].text in m && m == m0[ts[k].text := m[ts[k].text]]
    && Derives(0, m[ts[k].text], ts[k + 2..])
    && (if k == 0 then m0 == map[] else ts[k - 1] == Comma && ts[..k - 1] != [] && DerivesMap(m0, ts[..k - 1]))
  }
}
