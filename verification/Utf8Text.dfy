/** UTF-8: the test of the decoder, against the encoding of Unicode scalar values. */
module Utf8Text {
  import opened Bytes

  /** The well-formed byte sequences, as in section 4 of RFC 3629. */
  predicate Utf8(s: seq<byte>)
    decreases |s|
  {
    if s == [] then true
    else if s[0] < 0x80 then Utf8(s[1..])
    else if 0xC2 <= s[0] <= 0xDF then |s| >= 2 && Tail(s[1]) && Utf8(s[2..])
    else if 0xE0 <= s[0] <= 0xEF then
      && |s| >= 3 && Tail(s[1]) && Tail(s[2])
      && (s[0] == 0xE0 ==> 0xA0 <= s[1]) && (s[0] == 0xED ==> s[1] <= 0x9F)
      && Utf8(s[3..])
    else
      && 0xF0 <= s[0] <= 0xF4 && |s| >= 4 && Tail(s[1]) && Tail(s[2]) && Tail(s[3])
      && (s[0] == 0xF0 ==> 0x90 <= s[1]) && (s[0] == 0xF4 ==> s[1] <= 0x8F)
      && Utf8(s[4..])
  }

  predicate Tail(b: byte) {
    0x80 <= b <= 0xBF
  }

  // Texts.

  /** The Unicode scalar values: all code points but the surrogates. */
  type Scalar = c: nat | c <= 0xD7FF || 0xE000 <= c <= 0x10FFFF

  /** A continuation byte with the six bits of `c` that start at bit `6 * n`. */
  function SixBits(c: Scalar, n: nat): byte
    requires n <= 2
  {
    0x80 + (if n == 0 then c else if n == 1 then c / 0x40 else c / 0x1000) % 0x40
  }

  /** One to four bytes, six bits in each but the first (section 3 of RFC 3629). */
  function EncodeScalar(c: Scalar): seq<byte> {
    if c < 0x80 then [c]
    else if c < 0x800 then [0xC0 + c / 0x40, SixBits(c, 0)]
    else if c < 0x1_0000 then [0xE0 + c / 0x1000, SixBits(c, 1), SixBits(c, 0)]
    else [0xF0 + c / 0x4_0000, SixBits(c, 2), SixBits(c, 1), SixBits(c, 0)]
  }

  function EncodeText(text: seq<Scalar>): seq<byte> {
    if text == [] then [] else EncodeScalar(text[0]) + EncodeText(text[1..])
  }

  // The test accepts exactly the texts.

  /** How many bytes the first one announces. */
  function Announced(b: byte): nat {
    if b < 0x80 then 1 else if b <= 0xDF then 2 else if b <= 0xEF then 3 else 4
  }

  lemma OneScalar(c: Scalar)
    ensures Utf8(EncodeScalar(c)) && |EncodeScalar(c)| == Announced(EncodeScalar(c)[0])
  {}

  lemma Before(e: seq<byte>, rest: seq<byte>)
    requires e != [] && Utf8(e) && |e| == Announced(e[0])
    ensures Utf8(e + rest) <==> Utf8(rest)
  {
    assert (e + rest)[|e|..] == rest;
  }

  lemma ScalarAccepted(c: Scalar, rest: seq<byte>)
    ensures Utf8(EncodeScalar(c) + rest) <==> Utf8(rest)
  {
    OneScalar(c);
    Before(EncodeScalar(c), rest);
  }

  lemma {:induction false} TextAccepted(text: seq<Scalar>)
    ensures Utf8(EncodeText(text))
  {
    if text != [] {
      TextAccepted(text[1..]);
      ScalarAccepted(text[0], EncodeText(text[1..]));
    }
  }

  lemma TwoBytes(a: byte, b: byte) returns (c: Scalar)
    requires 0xC2 <= a <= 0xDF && Tail(b)
    ensures EncodeScalar(c) == [a, b]
  {
    var high: int, low: int := a - 0xC0, b - 0x80;
    c := high * 0x40 + low;
  }

  lemma ThreeBytes(a: byte, b: byte, d: byte) returns (c: Scalar)
    requires 0xE0 <= a <= 0xEF && Tail(b) && Tail(d) && (a == 0xE0 ==> 0xA0 <= b) && (a == 0xED ==> b <= 0x9F)
    ensures EncodeScalar(c) == [a, b, d]
  {
    var high: int, middle: int, low: int := a - 0xE0, b - 0x80, d - 0x80;
    c := high * 0x1000 + middle * 0x40 + low;
    assert c / 0x40 == high * 0x40 + middle && c / 0x1000 == high;
  }

  lemma FourBytes(a: byte, b: byte, d: byte, e: byte) returns (c: Scalar)
    requires 0xF0 <= a <= 0xF4 && Tail(b) && Tail(d) && Tail(e)
    requires (a == 0xF0 ==> 0x90 <= b) && (a == 0xF4 ==> b <= 0x8F)
    ensures EncodeScalar(c) == [a, b, d, e]
  {
    var top: int, high: int, middle: int, low: int := a - 0xF0, b - 0x80, d - 0x80, e - 0x80;
    c := top * 0x4_0000 + high * 0x1000 + middle * 0x40 + low;
    assert c / 0x40 == top * 0x1000 + high * 0x40 + middle;
    assert c / 0x1000 == top * 0x40 + high && c / 0x4_0000 == top;
  }

  lemma FirstScalar(s: seq<byte>) returns (c: Scalar)
    requires s != [] && Utf8(s)
    ensures EncodeScalar(c) <= s && Utf8(s[|EncodeScalar(c)|..])
  {
    if s[0] < 0x80 {
      c := s[0];
    } else if s[0] <= 0xDF {
      c := TwoBytes(s[0], s[1]);
    } else if s[0] <= 0xEF {
      c := ThreeBytes(s[0], s[1], s[2]);
    } else {
      c := FourBytes(s[0], s[1], s[2], s[3]);
    }
  }

  lemma {:induction false} TextOf(s: seq<byte>) returns (text: seq<Scalar>)
    requires Utf8(s)
    ensures EncodeText(text) == s
    decreases |s|
  {
    if s == [] {
      text := [];
    } else {
      var c := FirstScalar(s);
      var n := |EncodeScalar(c)|;
      var more := TextOf(s[n..]);
      text := [c] + more;
      assert text[1..] == more && s == s[..n] + s[n..];
    }
  }

  /** The test holds exactly of the encodings of texts. */
  lemma Utf8Iff(s: seq<byte>)
    ensures Utf8(s) <==> exists text: seq<Scalar> :: EncodeText(text) == s
  {
    if Utf8(s) {
      var text := TextOf(s);
    }
    if text: seq<Scalar> :| EncodeText(text) == s {
      TextAccepted(text);
    }
  }
}
