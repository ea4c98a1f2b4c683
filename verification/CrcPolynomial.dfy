/** The CRC as the remainder of a division of polynomials over two elements. */
module CrcPolynomial {
  import opened Bytes
  import opened Words
  import opened Crc32

  /** The exponents of the generator below its leading 32 (section 8 of RFC 1952 and IEEE 802.3). */
  predicate InGenerator(e: nat) {
    e in {26, 23, 22, 16, 12, 11, 10, 8, 7, 5, 4, 2, 1, 0}
  }

  /** One step of long division; coefficients are listed from the highest exponent down. */
  function DivideStep(s: seq<bool>): seq<bool>
    requires |s| > 32
  {
    seq(|s| - 1, i requires 0 <= i < |s| - 1 => s[i + 1] != (s[0] && i < 32 && InGenerator(31 - i)))
  }

  function Remainder(s: seq<bool>): seq<bool>
    decreases |s|
  {
    if |s| <= 32 then s else Remainder(DivideStep(s))
  }

  /** The message times the 32nd power, with its first 32 coefficients complemented. */
  function Dividend(data: seq<byte>): seq<bool> {
    var s := Pack(data) + ZEROS;
    seq(|s|, i requires 0 <= i < |s| => s[i] != (i < 32))
  }

  // The register is the division in progress.

  lemma GeneratorBits(i: nat)
    requires i < 32
    ensures POLY[i] == InGenerator(31 - i)
  {}

  /** A register laid over the bits that are still to come. */
  function Over(c: Word, bits: seq<bool>): seq<bool>
    requires |bits| >= 32
  {
    seq(|bits|, i requires 0 <= i < |bits| => if i < 32 then c[i] != bits[i] else bits[i])
  }

  lemma OneStep(c: Word, bits: seq<bool>)
    requires bits != []
    ensures DivideStep(Over(c, bits + ZEROS)) == Over(Shift1(Xor(c, Pad(bits[..1]))), bits[1..] + ZEROS)
  {
    var s := Over(c, bits + ZEROS);
    var d := Xor(c, Pad(bits[..1]));
    var c' := Shift1(d);
    assert d[0] == s[0];
    forall i | 0 <= i < |s| - 1
      ensures DivideStep(s)[i] == Over(c', bits[1..] + ZEROS)[i]
    {
      assert (bits[1..] + ZEROS)[i] == (bits + ZEROS)[i + 1];
      if i < 32 {
        GeneratorBits(i);
        ShiftedBit(d, i);
        if i < 31 {
          assert d[i + 1] == c[i + 1];
        }
      }
    }
  }

  lemma ShiftedBit(d: Word, i: nat)
    requires i < 32
    ensures Shift1(d)[i] == ((i < 31 && d[i + 1]) != (d[0] && POLY[i]))
  {}

  lemma {:induction false} FeedDivides(c: Word, bits: seq<bool>)
    ensures Remainder(Over(c, bits + ZEROS)) == FeedBits(c, bits)
    decreases |bits|
  {
    if bits == [] {
      assert bits + ZEROS == ZEROS && Over(c, ZEROS) == c;
    } else {
      OneStep(c, bits);
      FeedDivides(Shift1(Xor(c, Pad(bits[..1]))), bits[1..]);
    }
  }

  lemma {:induction false} FeedAppend(c: Word, a: seq<bool>, b: seq<bool>)
    ensures FeedBits(c, a + b) == FeedBits(FeedBits(c, a), b)
    decreases |a|
  {
    if a == [] {
      assert a + b == b;
    } else {
      assert (a + b)[..1] == a[..1] && (a + b)[1..] == a[1..] + b;
      FeedAppend(Shift1(Xor(c, Pad(a[..1]))), a[1..], b);
    }
  }

  lemma {:induction false} RegisterFeeds(c: Word, data: seq<byte>)
    ensures Register(c, data) == FeedBits(c, Pack(data))
    decreases |data|
  {
    if data != [] {
      RegisterFeeds(FeedBits(c, ToBits(data[0], 8)), data[1..]);
      FeedAppend(c, ToBits(data[0], 8), Pack(data[1..]));
    }
  }

  /** The CRC of every message is the complemented remainder of its polynomial. */
  lemma CrcIsRemainder(data: seq<byte>)
    ensures |Remainder(Dividend(data))| == 32
    ensures Crc(data) == FromBits(seq(32, i requires 0 <= i < 32 => !Remainder(Dividend(data))[i]))
  {
    RegisterFeeds(ONES, data);
    FeedDivides(ONES, Pack(data));
    DividendOver(data);
    Complement(Register(ONES, data));
  }

  lemma DividendOver(data: seq<byte>)
    ensures Dividend(data) == Over(ONES, Pack(data) + ZEROS)
  {}

  lemma Complement(r: Word)
    ensures Xor(r, ONES) == seq(32, i requires 0 <= i < 32 => !r[i])
  {}
}
