/** Bytes, content hashes, result types and little-endian integers. */
module Bytes {
  type byte = x: int | 0 <= x < 256

  /** A 256-bit content hash. */
  type Hash = h: seq<byte> | |h| == 32 witness seq(32, _ => 0)

  /** The content hash is an arbitrary function of the payload: every theorem holds for each choice of it. */
  type Hasher = seq<byte> -> Hash

  /** The hash that stands for an empty trie. */
  const ZERO: Hash := Zeros()

  function Zeros(): Hash {
    seq(32, _ => 0)
  }

  datatype Error =
    | NotFound(hash: Hash)
    | Corrupt
    | CrcMismatch
    | HashMismatch
    | Codec
    | InvalidCommit(parent: Hash)
    | CommitNotFound(target: Hash)
    | BranchNotFound(name: string)
    | BranchExists(name: string)
    | InvalidTarget
    | ExecError

  datatype Option<+T> = None | Some(value: T)

  datatype Result<+T> = Ok(value: T) | Err(error: Error) {
    predicate IsFailure() {
      Err?
    }

    function PropagateFailure<U>(): Result<U> {
      match this
      case Err(e) => Err(e)
      case Ok(_) => Err(Corrupt)
    }

    function Extract(): T
      requires Ok?
    {
      value
    }
  }

  /** 256 to the power `n`: the number of values that fit in `n` bytes. */
  function Pow256(n: nat): (p: nat)
    ensures p > 0
  {
    if n == 0 then 1 else 256 * Pow256(n - 1)
  }

  /** The low `n` bytes of `v`, least significant first; what does not fit is cut off, as by a narrowing cast. */
  function LE(v: nat, n: nat): (s: seq<byte>)
    ensures |s| == n
  {
    if n == 0 then [] else [v % 256] + LE(v / 256, n - 1)
  }

  function FromLE(s: seq<byte>): nat {
    if s == [] then 0 else s[0] + 256 * FromLE(s[1..])
  }

  /** Writing and reading back keeps the value modulo the width of the field. */
  lemma {:induction false} FromLEOfLE(v: nat, n: nat)
    ensures FromLE(LE(v, n)) == v % Pow256(n)
  {
    if n > 0 {
      FromLEOfLE(v / 256, n - 1);
      SplitMod(v, Pow256(n - 1));
    }
  }

  lemma SplitMod(v: nat, p: nat)
    requires p > 0
    ensures v % (256 * p) == v % 256 + 256 * ((v / 256) % p)
  {
    var q, r := v / 256, v % 256;
    var a, b := q / p, q % p;
    assert v == 256 * (a * p + b) + r;
    assert 256 * (a * p) == a * (256 * p);
    ModIs(v, 256 * p, a, 256 * b + r);
  }

  lemma ModIs(v: int, m: int, a: int, r: int)
    requires m > 0 && v == a * m + r && 0 <= r < m
    ensures v % m == r
  {
    var k := v / m;
    var d := a - k;
    assert d * m == a * m - k * m;
    assert v == k * m + v % m;
    assert -m < d * m < m;
    Small(d, m);
  }

  lemma Small(d: int, m: int)
    requires m > 0 && -m < d * m < m
    ensures d == 0
  {
    assert d >= 1 ==> d * m >= m;
    assert d <= -1 ==> d * m <= -m;
  }

  /** The field keeps the value exactly when the value fits it. */
  lemma FieldRoundTrip(v: nat, n: nat)
    ensures FromLE(LE(v, n)) == v <==> v < Pow256(n)
  {
    FromLEOfLE(v, n);
    if v < Pow256(n) {
      ModIs(v, Pow256(n), 0, v);
    }
  }

  lemma {:induction false} FromLEBound(s: seq<byte>)
    ensures FromLE(s) < Pow256(|s|)
  {
    if s != [] {
      FromLEBound(s[1..]);
    }
  }

  lemma Widths()
    ensures Pow256(1) == 0x100
    ensures Pow256(2) == 0x1_0000
    ensures Pow256(4) == 0x1_0000_0000
    ensures Pow256(6) == 0x1_0000_0000_0000
    ensures Pow256(8) == 0x1_0000_0000_0000_0000
  {
    assert Pow256(2) == 256 * Pow256(1);
    assert Pow256(4) == 256 * 256 * Pow256(2);
    assert Pow256(6) == 256 * 256 * Pow256(4);
    assert Pow256(8) == 256 * 256 * Pow256(6);
  }

  /** The bytes of a text of ASCII characters. */
  function Ascii(s: string): seq<byte> {
    seq(|s|, i requires 0 <= i < |s| => if s[i] < 128 as char then s[i] as int else 0)
  }

  lemma Associate<T>(a: seq<T>, b: seq<T>, c: seq<T>)
    ensures a + b + c == a + (b + c)
  {}

  ghost predicate Distinct<T>(s: seq<T>) {
    forall i, j :: 0 <= i < j < |s| ==> s[i] != s[j]
  }

  /** Equal concatenations whose first parts have the same length have equal parts. */
  lemma SameSplit<T>(a: seq<T>, b: seq<T>, c: seq<T>, d: seq<T>)
    requires a + b == c + d && |a| == |c|
    ensures a == c && b == d
  {
    assert a == (a + b)[..|a|] && c == (c + d)[..|c|];
    assert b == (a + b)[|a|..] && d == (c + d)[|c|..];
  }
}
