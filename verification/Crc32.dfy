/** The IEEE 802.3 CRC-32: a table-driven loop, its bit-by-bit meaning, and what it detects. */
module Crc32 {
  import opened Bytes
  import opened Words

  /** 0xEDB8_8320. */
  const POLY: Word :=
    [ false, false, false, false, false, true, false, false, true, true, false, false, false, false, false, true,
      false, false, false, true, true, true, false, true, true, false, true, true, false, true, true, true ]

  function Xor(a: Word, b: Word): Word {
    seq(32, i requires 0 <= i < 32 => a[i] != b[i])
  }

  function Pad(s: seq<bool>): Word
    requires |s| <= 32
  {
    s + seq(32 - |s|, _ => false)
  }

  /** A byte widened to a word. */
  function Widen(b: byte): Word {
    Pad(ToBits(b, 8))
  }

  function Shr(c: Word, n: nat): Word
    requires n <= 32
  {
    Pad(c[n..])
  }

  /** One clock of the reflected shift register. */
  function Shift1(c: Word): Word {
    if c[0] then Xor(POLY, Shr(c, 1)) else Shr(c, 1)
  }

  function ShiftN(c: Word, n: nat): Word
    decreases n
  {
    if n == 0 then c else ShiftN(Shift1(c), n - 1)
  }

  /** The reference: message bits enter the register one at a time. */
  function FeedBits(c: Word, bits: seq<bool>): Word
    decreases bits
  {
    if bits == [] then c else FeedBits(Shift1(Xor(c, Pad(bits[..1]))), bits[1..])
  }

  /** Every byte enters least significant bit first. */
  function Register(c: Word, data: seq<byte>): Word
    decreases data
  {
    if data == [] then c else Register(FeedBits(c, ToBits(data[0], 8)), data[1..])
  }

  function Crc(data: seq<byte>): nat {
    FromBits(Xor(Register(ONES, data), ONES))
  }

  // Exclusive or is associative, commutative and cancels.

  lemma XorAssoc(a: Word, b: Word, c: Word)
    ensures Xor(Xor(a, b), c) == Xor(a, Xor(b, c))
  {}

  lemma XorComm(a: Word, b: Word)
    ensures Xor(a, b) == Xor(b, a)
  {}

  lemma XorZero(a: Word)
    ensures Xor(a, ZEROS) == a
  {}

  lemma XorCancel(c: Word, x: Word, y: Word)
    requires Xor(c, x) == Xor(c, y)
    ensures x == y
  {
    forall i | 0 <= i < 32
      ensures x[i] == y[i]
    {
      assert Xor(c, x)[i] == Xor(c, y)[i];
    }
  }

  // The register is linear over exclusive or, and clocking loses nothing.

  lemma Shift1Linear(c: Word, x: Word)
    ensures Shift1(Xor(c, x)) == Xor(Shift1(c), Shift1(x))
  {}

  lemma Shift1Injective(c: Word, d: Word)
    requires Shift1(c) == Shift1(d)
    ensures c == d
  {
    assert Shift1(c)[31] == c[0] && Shift1(d)[31] == d[0];
    forall i | 0 < i < 32
      ensures c[i] == d[i]
    {
      assert Shift1(c)[i - 1] == Shift1(d)[i - 1];
    }
  }

  lemma {:induction false} ShiftNInjective(c: Word, d: Word, n: nat)
    requires ShiftN(c, n) == ShiftN(d, n)
    ensures c == d
    decreases n
  {
    if n > 0 {
      ShiftNInjective(Shift1(c), Shift1(d), n - 1);
      Shift1Injective(c, d);
    }
  }

  lemma {:induction false} ShiftNAdd(c: Word, m: nat, n: nat)
    ensures ShiftN(ShiftN(c, m), n) == ShiftN(c, m + n)
    decreases m
  {
    if m > 0 {
      ShiftNAdd(Shift1(c), m - 1, n);
    }
  }

  /** Bits above the low `n` only move down while `n` bits are clocked out. */
  lemma {:induction false} HighBitsPass(x: Word, low: seq<bool>, n: nat)
    requires n + |low| <= 32
    ensures ShiftN(Xor(x, Pad(seq(n, _ => false) + low)), n) == Xor(ShiftN(x, n), Pad(low))
    decreases n
  {
    var z := seq(n, _ => false);
    if n == 0 {
      assert z + low == low;
    } else {
      var z' := seq(n - 1, _ => false);
      Shift1Linear(x, Pad(z + low));
      assert Shift1(Pad(z + low)) == Pad(z' + low);
      HighBitsPass(Shift1(x), low, n - 1);
    }
  }

  /** Feeding bits one at a time is one exclusive or followed by as many clocks. */
  lemma {:induction false} FeedIsShift(c: Word, bits: seq<bool>)
    requires |bits| <= 32
    ensures FeedBits(c, bits) == ShiftN(Xor(c, Pad(bits)), |bits|)
    decreases bits
  {
    if bits == [] {
      assert Pad(bits) == ZEROS;
      XorZero(c);
    } else {
      var c1, first := Shift1(Xor(c, Pad(bits[..1]))), Pad(bits[..1]);
      FeedIsShift(c1, bits[1..]);
      var rest := Pad(seq(1, _ => false) + bits[1..]);
      assert Pad(bits) == Xor(first, rest);
      XorAssoc(c, first, rest);
      Shift1Linear(Xor(c, first), rest);
      assert Shift1(rest) == Pad(bits[1..]);
    }
  }

  /** One table step is one byte of the reference. */
  lemma TableStep(c: Word, b: byte)
    ensures Xor(ShiftN(Pad(Xor(c, Widen(b))[..8]), 8), Shr(c, 8)) == FeedBits(c, ToBits(b, 8))
  {
    var x := Xor(c, Widen(b));
    FeedIsShift(c, ToBits(b, 8));
    assert x[8..] == c[8..];
    HighBitsPass(Pad(x[..8]), x[8..], 8);
    assert x == Xor(Pad(x[..8]), Pad(seq(8, _ => false) + x[8..]));
  }

  lemma {:induction false} RegisterAppend(c: Word, s: seq<byte>, t: seq<byte>)
    ensures Register(c, s + t) == Register(Register(c, s), t)
    decreases s
  {
    if s == [] {
      assert s + t == t;
    } else {
      assert (s + t)[1..] == s[1..] + t;
      RegisterAppend(FeedBits(c, ToBits(s[0], 8)), s[1..], t);
    }
  }

  function Entry(i: byte): Word {
    ShiftN(Widen(i), 8)
  }

  ghost predicate IsTable(table: seq<Word>) {
    |table| == 256 && forall i: byte :: table[i] == Entry(i)
  }

  method TableEntry(i: byte) returns (c: Word)
    ensures c == Entry(i)
  {
    c := Widen(i);
    var j := 0;
    while j < 8
      invariant 0 <= j <= 8
      invariant ShiftN(c, 8 - j) == Entry(i)
    {
      if c[0] {
        c := Xor(POLY, Shr(c, 1));
      } else {
        c := Shr(c, 1);
      }
      j := j + 1;
    }
  }

  method BuildTable() returns (table: seq<Word>)
    ensures IsTable(table)
  {
    var t := new Word[256](_ => ZEROS);
    var i := 0;
    while i < 256
      invariant 0 <= i <= 256
      invariant forall k: byte :: k < i ==> t[k] == Entry(k)
    {
      var entry := TableEntry(i);
      t[i] := entry;
      i := i + 1;
    }
    table := t[..];
  }

  lemma CrcFits(data: seq<byte>)
    ensures Crc(data) < 0x1_0000_0000
  {
    BitsBack(Xor(Register(ONES, data), ONES));
    Powers();
  }

  /** The table-driven loop computes the bit-by-bit CRC. */
  method Crc32Of(table: seq<Word>, data: seq<byte>) returns (r: nat)
    requires IsTable(table)
    ensures r == Crc(data)
  {
    var crc := ONES;
    for k := 0 to |data|
      invariant crc == Register(ONES, data[..k])
    {
      ghost var next := FeedBits(crc, ToBits(data[k], 8));
      assert Register(ONES, data[..k + 1]) == next by {
        assert data[..k + 1] == data[..k] + [data[k]];
        RegisterAppend(ONES, data[..k], [data[k]]);
      }
      TableStep(crc, data[k]);
      BitsBack(Xor(crc, Widen(data[k]))[..8]);
      Powers();
      var idx: byte := FromBits(Xor(crc, Widen(data[k]))[..8]);
      crc := Xor(table[idx], Shr(crc, 8));
    }
    assert data[..|data|] == data;
    r := FromBits(Xor(crc, ONES));
  }

  // Burst detection.

  lemma PadSplit(x: seq<bool>, rest: seq<bool>)
    requires |x| == 8 && |rest| <= 24
    ensures Pad(x + rest) == Xor(Pad(x), Pad(seq(8, _ => false) + rest))
  {
  }

  /** Up to four bytes act as one exclusive or with the packed word. */
  lemma {:induction false} WindowIsWord(c: Word, u: seq<byte>)
    requires |u| <= 4
    ensures Register(c, u) == ShiftN(Xor(c, Pad(Pack(u))), 8 * |u|)
    decreases u
  {
    if u == [] {
      assert Pad([]) == ZEROS;
      XorZero(c);
    } else {
      var first, rest := Pad(ToBits(u[0], 8)), Pack(u[1..]);
      var c' := Xor(c, first);
      FeedIsShift(c, ToBits(u[0], 8));
      WindowIsWord(ShiftN(c', 8), u[1..]);
      HighBitsPass(c', rest, 8);
      var high := Pad(seq(8, _ => false) + rest);
      PadSplit(ToBits(u[0], 8), rest);
      XorAssoc(c, first, high);
      ShiftNAdd(Xor(c, Pad(Pack(u))), 8, 8 * |u[1..]|);
    }
  }

  lemma {:induction false} RegisterInjective(c: Word, d: Word, s: seq<byte>)
    requires Register(c, s) == Register(d, s)
    ensures c == d
    decreases s
  {
    if s != [] {
      var x := ToBits(s[0], 8);
      RegisterInjective(FeedBits(c, x), FeedBits(d, x), s[1..]);
      FeedIsShift(c, x);
      FeedIsShift(d, x);
      ShiftNInjective(Xor(c, Pad(x)), Xor(d, Pad(x)), 8);
      XorComm(c, Pad(x));
      XorComm(d, Pad(x));
      XorCancel(Pad(x), c, d);
    }
  }

  lemma WindowInjective(c: Word, u: seq<byte>, v: seq<byte>)
    requires |u| == |v| <= 4 && Register(c, u) == Register(c, v)
    ensures u == v
  {
    WindowIsWord(c, u);
    WindowIsWord(c, v);
    ShiftNInjective(Xor(c, Pad(Pack(u))), Xor(c, Pad(Pack(v))), 8 * |u|);
    XorCancel(c, Pad(Pack(u)), Pad(Pack(v)));
    PadInjective(Pack(u), Pack(v));
    PackInjective(u, v);
  }

  lemma PadInjective(s: seq<bool>, t: seq<bool>)
    requires |s| == |t| <= 32 && Pad(s) == Pad(t)
    ensures s == t
  {
    assert s == Pad(s)[..|s|] && t == Pad(t)[..|t|];
  }

  lemma CrcDeterminesRegister(x: Word, y: Word)
    requires FromBits(Xor(x, ONES)) == FromBits(Xor(y, ONES))
    ensures x == y
  {
    BitsBack(Xor(x, ONES));
    BitsBack(Xor(y, ONES));
    XorComm(x, ONES);
    XorComm(y, ONES);
    XorCancel(ONES, x, y);
  }

  lemma RegisterSplit(c: Word, before: seq<byte>, u: seq<byte>, after: seq<byte>)
    ensures Register(c, before + u + after) == Register(Register(Register(c, before), u), after)
  {
    RegisterAppend(c, before + u, after);
    RegisterAppend(c, before, u);
  }

  /** Inputs of one length that differ, but only inside a window of four bytes, never share a CRC. */
  lemma BurstDetected(before: seq<byte>, u: seq<byte>, v: seq<byte>, after: seq<byte>)
    requires |u| == |v| <= 4
    ensures Crc(before + u + after) == Crc(before + v + after) ==> u == v
  {
    if Crc(before + u + after) == Crc(before + v + after) {
      var c := Register(ONES, before);
      RegisterSplit(ONES, before, u, after);
      RegisterSplit(ONES, before, v, after);
      CrcDeterminesRegister(Register(Register(c, u), after), Register(Register(c, v), after));
      RegisterInjective(Register(c, u), Register(c, v), after);
      WindowInjective(c, u, v);
    }
  }
}
