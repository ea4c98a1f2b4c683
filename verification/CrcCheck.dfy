/** The check value of the CRC, worked out on machine words. */
module CrcCheck {
  import opened Bytes
  import opened Words
  import opened Crc32
  import opened CrcPolynomial

  const GENERATOR: bv32 := 0xEDB8_8320

  function One(i: nat): bv32 {
    if i == 0 then 0x1 else if i == 1 then 0x2 else if i == 2 then 0x4 else if i == 3 then 0x8
    else if i == 4 then 0x10 else if i == 5 then 0x20 else if i == 6 then 0x40 else 0x80
  }

  /** The machine word with bit `i` only. */
  function Mask(i: nat): bv32 {
    if i < 8 then One(i) else if i < 16 then One(i - 8) << 8
    else if i < 24 then One(i - 16) << 16 else if i < 32 then One(i - 24) << 24 else 0
  }

  function BitsOf(x: bv32): Word {
    seq(32, i requires 0 <= i < 32 => x & Mask(i) != 0)
  }

  predicate OneBit(m: bv32) {
    m != 0 && m & (m - 1) == 0
  }

  lemma MaskBit(i: nat)
    requires i < 32
    ensures OneBit(Mask(i)) && Mask(i) << 1 == Mask(i + 1)
  {}

  lemma MaskPoly(i: nat)
    requires i < 32
    ensures POLY[i] == (GENERATOR & Mask(i) != 0)
  {
    if i < 8 {
      PolyLow(i);
    } else if i < 16 {
      PolySecond(i);
    } else if i < 24 {
      PolyThird(i);
    } else {
      PolyHigh(i);
    }
  }

  lemma PolyLow(i: nat)
    requires 0 <= i < 8
    ensures POLY[i] == (GENERATOR & Mask(i) != 0)
  {}

  lemma PolySecond(i: nat)
    requires 8 <= i < 16
    ensures POLY[i] == (GENERATOR & Mask(i) != 0)
  {}

  lemma PolyThird(i: nat)
    requires 16 <= i < 24
    ensures POLY[i] == (GENERATOR & Mask(i) != 0)
  {}

  lemma PolyHigh(i: nat)
    requires 24 <= i < 32
    ensures POLY[i] == (GENERATOR & Mask(i) != 0)
  {}

  lemma ShiftMask(x: bv32, m: bv32)
    ensures (x >> 1) & m != 0 <==> x & (m << 1) != 0
  {}

  lemma XorMask(x: bv32, y: bv32, m: bv32)
    requires OneBit(m)
    ensures (x ^ y) & m != 0 <==> (x & m != 0) != (y & m != 0)
  {}

  function Clock(x: bv32): bv32 {
    if x & 1 != 0 then (x >> 1) ^ GENERATOR else x >> 1
  }

  lemma ClockMask(x: bv32, m: bv32)
    requires OneBit(m)
    ensures Clock(x) & m != 0 <==> (x & (m << 1) != 0) != (x & 1 != 0 && GENERATOR & m != 0)
  {
    ShiftMask(x, m);
    XorMask(x >> 1, GENERATOR, m);
  }

  lemma XorBits(x: bv32, y: bv32)
    ensures Xor(BitsOf(x), BitsOf(y)) == BitsOf(x ^ y)
  {
    forall i | 0 <= i < 32
      ensures Xor(BitsOf(x), BitsOf(y))[i] == BitsOf(x ^ y)[i]
    {
      MaskBit(i);
      XorMask(x, y, Mask(i));
    }
  }

  /** One bit of a clocked word, from the two bits of the word that it comes from. */
  lemma ClockBit(x: bv32, m: bv32, d: Word, i: nat)
    requires i < 32 && OneBit(m) && POLY[i] == (GENERATOR & m != 0)
    requires d[0] == (x & 1 != 0) && if i < 31 then d[i + 1] == (x & (m << 1) != 0) else m << 1 == 0
    ensures Shift1(d)[i] == (Clock(x) & m != 0)
  {
    ShiftedBit(d, i);
    ClockMask(x, m);
  }

  lemma BitAt(x: bv32, i: nat, m: bv32)
    requires i < 32 && m == Mask(i)
    ensures BitsOf(x)[i] == (x & m != 0)
  {}

  lemma ClockAt(x: bv32, i: nat, m: bv32, m': bv32)
    requires i < 32 && m == Mask(i) && m' == Mask(i + 1)
    ensures Shift1(BitsOf(x))[i] == (Clock(x) & m != 0)
  {
    MaskBit(i);
    MaskPoly(i);
    BitAt(x, 0, 1);
    if i < 31 {
      BitAt(x, i + 1, m');
    }
    ClockBit(x, m, BitsOf(x), i);
  }

  lemma ClockBits(x: bv32)
    ensures Shift1(BitsOf(x)) == BitsOf(Clock(x))
  {
    forall i | 0 <= i < 32
      ensures Shift1(BitsOf(x))[i] == BitsOf(Clock(x))[i]
    {
      ClockAt(x, i, Mask(i), Mask(i + 1));
      BitAt(Clock(x), i, Mask(i));
    }
  }

  function Clocks(x: bv32, n: nat): bv32
    decreases n
  {
    if n == 0 then x else Clocks(Clock(x), n - 1)
  }

  lemma {:induction false} ClocksBits(x: bv32, n: nat)
    ensures ShiftN(BitsOf(x), n) == BitsOf(Clocks(x, n))
    decreases n
  {
    if n > 0 {
      ClockBits(x);
      ClocksBits(Clock(x), n - 1);
    }
  }

  lemma Eight(x: bv32)
    ensures Clocks(x, 8) == Clock(Clock(Clock(Clock(Clock(Clock(Clock(Clock(x))))))))
  {}

  /** One byte of a message. */
  lemma ByteStep(x: bv32, b: byte, w: bv32, y: bv32)
    requires Widen(b) == BitsOf(w) && y == Clock(Clock(Clock(Clock(Clock(Clock(Clock(Clock(x ^ w))))))))
    ensures FeedBits(BitsOf(x), ToBits(b, 8)) == BitsOf(y)
  {
    FeedIsShift(BitsOf(x), ToBits(b, 8));
    XorBits(x, w);
    ClocksBits(x ^ w, 8);
    Eight(x ^ w);
  }

  // Bytes and words as numbers.

  function Weight(b: bool, n: nat): nat {
    if b then n else 0
  }

  function Value8(s: seq<bool>): nat
    requires |s| == 8
  {
    Weight(s[0], 1) + Weight(s[1], 2) + Weight(s[2], 4) + Weight(s[3], 8)
    + Weight(s[4], 16) + Weight(s[5], 32) + Weight(s[6], 64) + Weight(s[7], 128)
  }

  lemma BitsFrom(s: seq<bool>, k: nat)
    requires k < |s|
    ensures FromBits(s[k..]) == Weight(s[k], 1) + 2 * FromBits(s[k + 1..])
  {
    assert s[k..][1..] == s[k + 1..];
  }

  lemma FourBits(s: seq<bool>, k: nat)
    requires k + 4 <= |s|
    ensures FromBits(s[k..]) ==
            Weight(s[k], 1) + Weight(s[k + 1], 2) + Weight(s[k + 2], 4) + Weight(s[k + 3], 8) + 16 * FromBits(s[k + 4..])
  {
    BitsFrom(s, k);
    BitsFrom(s, k + 1);
    BitsFrom(s, k + 2);
    BitsFrom(s, k + 3);
  }

  lemma ByteValue(s: seq<bool>)
    requires |s| == 8
    ensures FromBits(s) == Value8(s)
  {
    FourBits(s, 0);
    FourBits(s, 4);
    assert s[0..] == s && s[8..] == [];
  }

  lemma WordValue(s: Word)
    ensures FromBits(s) == Value8(s[..8]) + 0x100 * Value8(s[8..16]) + 0x1_0000 * Value8(s[16..24]) + 0x100_0000 * Value8(s[24..])
  {
    Powers();
    Cut8(s);
    Cut8(s[8..]);
    Cut8(s[16..]);
    ByteValue(s[24..]);
    assert s[8..][..8] == s[8..16] && s[8..][8..] == s[16..];
    assert s[16..][..8] == s[16..24] && s[16..][8..] == s[24..];
  }

  lemma Cut8(s: seq<bool>)
    requires |s| >= 8
    ensures FromBits(s) == Value8(s[..8]) + 0x100 * FromBits(s[8..])
  {
    Powers();
    assert s == s[..8] + s[8..];
    FromBitsAppend(s[..8], s[8..]);
    ByteValue(s[..8]);
  }

  // The message.

  function Set(b: bool, m: bv32): bv32 {
    if b then m else 0
  }

  lemma DigitBits(b: byte, b0: bool, b1: bool, b2: bool, b3: bool)
    requires b == 0x30 + Weight(b0, 1) + Weight(b1, 2) + Weight(b2, 4) + Weight(b3, 8)
    ensures ToBits(b, 8) == [b0, b1, b2, b3, true, true, false, false]
  {
    var p := [b0, b1, b2, b3, true, true, false, false];
    ByteValue(p);
    BitsBack(p);
  }

  /** The digits: their high bits are those of `0`. */
  lemma Digit(b: byte, w: bv32, b0: bool, b1: bool, b2: bool, b3: bool)
    requires b == 0x30 + Weight(b0, 1) + Weight(b1, 2) + Weight(b2, 4) + Weight(b3, 8)
    requires w == 0x30 | Set(b0, 1) | Set(b1, 2) | Set(b2, 4) | Set(b3, 8)
    ensures Widen(b) == BitsOf(w)
  {
    DigitBits(b, b0, b1, b2, b3);
    forall i | 0 <= i < 32
      ensures Widen(b)[i] == BitsOf(w)[i]
    {
      BitAt(w, i, Mask(i));
      DigitBit(w, i, Mask(i), b0, b1, b2, b3);
    }
  }

  lemma DigitBit(w: bv32, i: nat, m: bv32, b0: bool, b1: bool, b2: bool, b3: bool)
    requires w == 0x30 | Set(b0, 1) | Set(b1, 2) | Set(b2, 4) | Set(b3, 8)
    requires i < 32 && m == Mask(i)
    ensures w & m != 0 <==>
              if i == 0 then b0 else if i == 1 then b1 else if i == 2 then b2 else if i == 3 then b3 else i == 4 || i == 5
  {}

  /** The register after one digit more. */
  lemma Fed(data: seq<byte>, b: byte, w: bv32, x: bv32, y: bv32)
    requires Register(ONES, data) == BitsOf(x) && Widen(b) == BitsOf(w)
    requires y == Clock(Clock(Clock(Clock(Clock(Clock(Clock(Clock(x ^ w))))))))
    ensures Register(ONES, data + [b]) == BitsOf(y)
  {
    RegisterAppend(ONES, data, [b]);
    ByteStep(x, b, w, y);
    assert [b][1..] == [];
  }

  lemma OnesBits()
    ensures BitsOf(0xFFFF_FFFF) == ONES
  {
    forall i | 0 <= i < 32
      ensures BitsOf(0xFFFF_FFFF)[i]
    {
      MaskBit(i);
      BitAt(0xFFFF_FFFF, i, Mask(i));
      AllSet(Mask(i));
    }
  }

  lemma AllSet(m: bv32)
    ensures 0xFFFF_FFFF & m == m
  {}

  /** Feeding one of the digits. */
  lemma FedDigit(data: seq<byte>, b: byte, w: bv32, b0: bool, b1: bool, b2: bool, b3: bool, x: bv32, y: bv32)
    requires b == 0x30 + Weight(b0, 1) + Weight(b1, 2) + Weight(b2, 4) + Weight(b3, 8)
    requires w == 0x30 | Set(b0, 1) | Set(b1, 2) | Set(b2, 4) | Set(b3, 8)
    requires Register(ONES, data) == BitsOf(x)
    requires y == Clock(Clock(Clock(Clock(Clock(Clock(Clock(Clock(x ^ w))))))))
    ensures Register(ONES, data + [b]) == BitsOf(y)
  {
    Digit(b, w, b0, b1, b2, b3);
    Fed(data, b, w, x, y);
  }

  lemma OneToThree(data: seq<byte>)
    requires Register(ONES, data) == BitsOf(0xFFFF_FFFF)
    ensures Register(ONES, data + [0x31] + [0x32] + [0x33]) == BitsOf(0x77B7_9C2D)
  {
    FedDigit(data, 0x31, 0x31, true, false, false, false, 0xFFFF_FFFF, 0x7C23_1048);
    FedDigit(data + [0x31], 0x32, 0x32, false, true, false, false, 0x7C23_1048, 0xB0AC_BB32);
    FedDigit(data + [0x31] + [0x32], 0x33, 0x33, true, true, false, false, 0xB0AC_BB32, 0x77B7_9C2D);
  }

  lemma FourToSix(data: seq<byte>)
    requires Register(ONES, data) == BitsOf(0x77B7_9C2D)
    ensures Register(ONES, data + [0x34] + [0x35] + [0x36]) == BitsOf(0xF68D_2C9E)
  {
    FedDigit(data, 0x34, 0x34, false, false, true, false, 0x77B7_9C2D, 0x641C_1F5C);
    FedDigit(data + [0x34], 0x35, 0x35, true, false, true, false, 0x641C_1F5C, 0x340A_C5E3);
    FedDigit(data + [0x34] + [0x35], 0x36, 0x36, false, true, true, false, 0x340A_C5E3, 0xF68D_2C9E);
  }

  lemma SevenToNine(data: seq<byte>)
    requires Register(ONES, data) == BitsOf(0xF68D_2C9E)
    ensures Register(ONES, data + [0x37] + [0x38] + [0x39]) == BitsOf(0x340B_C6D9)
  {
    FedDigit(data, 0x37, 0x37, true, true, true, false, 0xF68D_2C9E, 0xAFFC_9660);
    FedDigit(data + [0x37], 0x38, 0x38, false, false, false, true, 0xAFFC_9660, 0x651F_2550);
    FedDigit(data + [0x37] + [0x38], 0x39, 0x39, true, false, false, true, 0x651F_2550, 0x340B_C6D9);
  }

  lemma DigitsFed()
    ensures Register(ONES, Ascii("123456789")) == BitsOf(0x340B_C6D9)
  {
    OnesBits();
    OneToThree([]);
    var a: seq<byte> := [] + [0x31] + [0x32] + [0x33];
    FourToSix(a);
    var b: seq<byte> := a + [0x34] + [0x35] + [0x36];
    SevenToNine(b);
    assert b + [0x37] + [0x38] + [0x39] == Ascii("123456789");
  }

  // The result.

  const RESULT: bv32 := 0xCBF4_3926

  lemma FirstByte(s: Word)
    requires s == BitsOf(RESULT)
    ensures Value8(s[0..8]) == 0x26
  {
    BitAt(RESULT, 0, 0x1);
    BitAt(RESULT, 1, 0x2);
    BitAt(RESULT, 2, 0x4);
    BitAt(RESULT, 3, 0x8);
    BitAt(RESULT, 4, 0x10);
    BitAt(RESULT, 5, 0x20);
    BitAt(RESULT, 6, 0x40);
    BitAt(RESULT, 7, 0x80);
  }

  lemma SecondByte(s: Word)
    requires s == BitsOf(RESULT)
    ensures Value8(s[8..16]) == 0x39
  {
    BitAt(RESULT, 8, 0x100);
    BitAt(RESULT, 9, 0x200);
    BitAt(RESULT, 10, 0x400);
    BitAt(RESULT, 11, 0x800);
    BitAt(RESULT, 12, 0x1000);
    BitAt(RESULT, 13, 0x2000);
    BitAt(RESULT, 14, 0x4000);
    BitAt(RESULT, 15, 0x8000);
  }

  lemma ThirdByte(s: Word)
    requires s == BitsOf(RESULT)
    ensures Value8(s[16..24]) == 0xF4
  {
    BitAt(RESULT, 16, 0x10000);
    BitAt(RESULT, 17, 0x20000);
    BitAt(RESULT, 18, 0x40000);
    BitAt(RESULT, 19, 0x80000);
    BitAt(RESULT, 20, 0x100000);
    BitAt(RESULT, 21, 0x200000);
    BitAt(RESULT, 22, 0x400000);
    BitAt(RESULT, 23, 0x800000);
  }

  lemma FourthByte(s: Word)
    requires s == BitsOf(RESULT)
    ensures Value8(s[24..32]) == 0xCB
  {
    BitAt(RESULT, 24, 0x1000000);
    BitAt(RESULT, 25, 0x2000000);
    BitAt(RESULT, 26, 0x4000000);
    BitAt(RESULT, 27, 0x8000000);
    BitAt(RESULT, 28, 0x10000000);
    BitAt(RESULT, 29, 0x20000000);
    BitAt(RESULT, 30, 0x40000000);
    BitAt(RESULT, 31, 0x80000000);
  }

  lemma ResultValue(s: Word)
    requires s == BitsOf(RESULT)
    ensures FromBits(s) == 0xCBF4_3926
  {
    WordValue(s);
    FirstByte(s);
    SecondByte(s);
    ThirdByte(s);
    FourthByte(s);
    assert s[0..8] == s[..8] && s[24..32] == s[24..];
  }

  /** The CRC of the nine digits, as every implementation of this CRC must have it. */
  lemma CheckValue()
    ensures Crc(Ascii("123456789")) == 0xCBF4_3926
  {
    DigitsFed();
    OnesBits();
    XorBits(0x340B_C6D9, 0xFFFF_FFFF);
    ResultValue(BitsOf(RESULT));
  }
}
