/**
 * A 32-bit word is the sequence of its bits, least significant first: bit `i` is `w[i]`, so the mask
 * operations of the program are tests and updates at an index, and shifts are slices.
 */
module Words {
  import opened Bytes

  type Word = w: seq<bool> | |w| == 32 witness seq(32, _ => false)

  const ZEROS: Word := Fill(false)
  const ONES: Word := Fill(true)

  function Fill(b: bool): Word {
    seq(32, _ => b)
  }

  function Pow2(n: nat): (p: nat)
    ensures p > 0
  {
    if n == 0 then 1 else 2 * Pow2(n - 1)
  }

  /** The low `n` bits of a number. */
  function ToBits(v: nat, n: nat): (s: seq<bool>)
    ensures |s| == n
    decreases n
  {
    if n == 0 then [] else [v % 2 == 1] + ToBits(v / 2, n - 1)
  }

  function FromBits(s: seq<bool>): nat {
    if s == [] then 0 else (if s[0] then 1 else 0) + 2 * FromBits(s[1..])
  }

  lemma Powers()
    ensures Pow2(5) == 32 && Pow2(8) == 0x100 && Pow2(32) == 0x1_0000_0000
  {
    assert Pow2(4) == 16;
    assert Pow2(16) == 16 * 16 * Pow2(8);
    assert Pow2(24) == 16 * 16 * Pow2(16);
  }

  lemma {:induction false} BitsBack(s: seq<bool>)
    ensures ToBits(FromBits(s), |s|) == s && FromBits(s) < Pow2(|s|)
  {
    if s != [] {
      BitsBack(s[1..]);
    }
  }

  lemma {:induction false} NumberBack(v: nat, n: nat)
    requires v < Pow2(n)
    ensures FromBits(ToBits(v, n)) == v
    decreases n
  {
    if n > 0 {
      NumberBack(v / 2, n - 1);
    }
  }

  // Byte strings as bit strings.

  function Pack(u: seq<byte>): (s: seq<bool>)
    ensures |s| == 8 * |u|
  {
    if u == [] then [] else ToBits(u[0], 8) + Pack(u[1..])
  }

  lemma {:induction false} PackInjective(u: seq<byte>, v: seq<byte>)
    requires |u| == |v| && Pack(u) == Pack(v)
    ensures u == v
  {
    if u != [] {
      SameSplit(ToBits(u[0], 8), Pack(u[1..]), ToBits(v[0], 8), Pack(v[1..]));
      Powers();
      NumberBack(u[0], 8);
      NumberBack(v[0], 8);
      PackInjective(u[1..], v[1..]);
      assert u == [u[0]] + u[1..] && v == [v[0]] + v[1..];
    }
  }

  lemma {:induction false} FromBitsAppend(s: seq<bool>, t: seq<bool>)
    ensures FromBits(s + t) == FromBits(s) + Pow2(|s|) * FromBits(t)
  {
    if s == [] {
      assert s + t == t;
    } else {
      assert (s + t)[1..] == s[1..] + t;
      FromBitsAppend(s[1..], t);
      Double(if s[0] then 1 else 0, FromBits(s[1..]), Pow2(|s| - 1), FromBits(t));
    }
  }

  lemma Double(b: int, low: int, p: int, high: int)
    ensures b + 2 * (low + p * high) == b + 2 * low + (2 * p) * high
  {}

  /** A shift right drops the low bits. */
  lemma ShiftDrops(s: seq<bool>, off: nat)
    requires off <= |s|
    ensures FromBits(s) / Pow2(off) == FromBits(s[off..])
  {
    assert s == s[..off] + s[off..];
    FromBitsAppend(s[..off], s[off..]);
    BitsBack(s[..off]);
    DivIs(FromBits(s), Pow2(off), FromBits(s[off..]), FromBits(s[..off]));
  }

  function Cut(s: seq<bool>, width: nat): seq<bool> {
    if width <= |s| then s[..width] else s
  }

  /** A mask keeps the low bits. */
  lemma MaskKeeps(s: seq<bool>, width: nat)
    ensures FromBits(s) % Pow2(width) == FromBits(Cut(s, width))
  {
    if width <= |s| {
      var low, high := s[..width], s[width..];
      assert s == low + high;
      FromBitsAppend(low, high);
      BitsBack(low);
      DivIs(FromBits(s), Pow2(|low|), FromBits(high), FromBits(low));
    } else {
      BitsBack(s);
      Pow2Monotone(|s|, width);
      DivIs(FromBits(s), Pow2(width), 0, FromBits(s));
    }
  }

  lemma {:induction false} Pow2Monotone(m: nat, n: nat)
    requires m <= n
    ensures Pow2(m) <= Pow2(n)
    decreases n - m
  {
    if m < n {
      Pow2Monotone(m + 1, n);
    }
  }

  lemma DivIs(v: int, m: int, q: int, r: int)
    requires m > 0 && v == r + m * q && 0 <= r < m
    ensures v / m == q && v % m == r
  {
    assert v == q * m + r;
    ModIs(v, m, q, r);
    assert (v / m - q) * m == 0;
    Small(v / m - q, m);
  }

  lemma {:induction false} PackAppend(u: seq<byte>, v: seq<byte>)
    ensures Pack(u + v) == Pack(u) + Pack(v)
  {
    if u == [] {
      assert u + v == v;
    } else {
      assert (u + v)[1..] == u[1..] + v;
      PackAppend(u[1..], v);
    }
  }

  lemma PackSlice(u: seq<byte>, i: nat, j: nat)
    requires i <= j <= |u|
    ensures Pack(u)[8 * i..8 * j] == Pack(u[i..j])
  {
    Thirds(u, i, j);
    PackThirds(u[..i], u[i..j], u[j..]);
  }

  lemma Thirds<T>(u: seq<T>, i: nat, j: nat)
    requires i <= j <= |u|
    ensures u == u[..i] + (u[i..j] + u[j..])
  {}

  lemma PackThirds(a: seq<byte>, b: seq<byte>, c: seq<byte>)
    ensures Pack(a + (b + c))[8 * |a|..8 * (|a| + |b|)] == Pack(b)
  {
    PackAppend(a, b + c);
    PackAppend(b, c);
    Middle(Pack(a), Pack(b), Pack(c));
  }

  lemma Middle<T>(a: seq<T>, b: seq<T>, c: seq<T>)
    ensures (a + (b + c))[|a|..|a| + |b|] == b
  {}

  lemma {:induction false} PackIsLE(u: seq<byte>)
    ensures FromBits(Pack(u)) == FromLE(u)
  {
    if u != [] {
      PackIsLE(u[1..]);
      FromBitsAppend(ToBits(u[0], 8), Pack(u[1..]));
      Powers();
      NumberBack(u[0], 8);
    }
  }
}
