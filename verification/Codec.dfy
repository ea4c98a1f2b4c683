/** Little-endian writing and reading of binary payloads. */
module Codec {
  import opened Bytes

  // Reading on values: a reader returns what it read and the bytes that follow.

  function Take(s: seq<byte>, n: nat): Result<(seq<byte>, seq<byte>)> {
    if n <= |s| then Ok((s[..n], s[n..])) else Err(Codec)
  }

  function ReadUint(s: seq<byte>, width: nat): Result<(nat, seq<byte>)> {
    var (v, rest) :- Take(s, width);
    Ok((FromLE(v), rest))
  }

  function ReadHash(s: seq<byte>): Result<(Hash, seq<byte>)> {
    if 32 <= |s| then Ok((s[..32], s[32..])) else Err(Codec)
  }

  function ReadHashes(s: seq<byte>, n: nat): Result<(seq<Hash>, seq<byte>)>
    decreases n
  {
    if n == 0 then Ok(([], s)) else
      var (h, s1) :- ReadHash(s);
      var (hs, s2) :- ReadHashes(s1, n - 1);
      Ok(([h] + hs, s2))
  }

  function Concat(hs: seq<Hash>): seq<byte> {
    if hs == [] then [] else hs[0] + Concat(hs[1..])
  }

  lemma TakeAppend(a: seq<byte>, rest: seq<byte>)
    ensures Take(a + rest, |a|) == Ok((a, rest))
  {
    assert (a + rest)[..|a|] == a && (a + rest)[|a|..] == rest;
  }

  lemma ReadUintAppend(v: nat, width: nat, rest: seq<byte>)
    ensures ReadUint(LE(v, width) + rest, width) == Ok((v % Pow256(width), rest))
  {
    TakeAppend(LE(v, width), rest);
    FromLEOfLE(v, width);
  }

  /** A fixed-width field by its bytes. */
  lemma ReadField(field: seq<byte>, rest: seq<byte>)
    ensures ReadUint(field + rest, |field|) == Ok((FromLE(field), rest))
  {
    TakeAppend(field, rest);
  }

  lemma UintBound(s: seq<byte>, width: nat)
    ensures var r := ReadUint(s, width); r.Ok? ==> r.value.0 < Pow256(width)
  {
    if width <= |s| {
      FromLEBound(s[..width]);
    }
  }

  lemma {:induction false} ReadHashesAppend(hs: seq<Hash>, rest: seq<byte>)
    ensures ReadHashes(Concat(hs) + rest, |hs|) == Ok((hs, rest))
  {
    if hs == [] {
      assert Concat(hs) + rest == rest;
    } else {
      var s := Concat(hs) + rest;
      assert s == hs[0] + (Concat(hs[1..]) + rest);
      assert s[..32] == hs[0] && s[32..] == Concat(hs[1..]) + rest;
      ReadHashesAppend(hs[1..], rest);
      assert hs == [hs[0]] + hs[1..];
    }
  }

  lemma {:induction false} ReadHashesLength(s: seq<byte>, n: nat)
    ensures var r := ReadHashes(s, n); r.Ok? ==> |r.value.0| == n
    decreases n
  {
    if n > 0 && ReadHash(s).Ok? {
      ReadHashesLength(ReadHash(s).value.1, n - 1);
    }
  }

  lemma {:induction false} ConcatAppend(hs: seq<Hash>, h: Hash)
    ensures Concat(hs + [h]) == Concat(hs) + h
  {
    if hs == [] {
      assert hs + [h] == [h] && Concat([h]) == h + Concat([]);
    } else {
      assert (hs + [h])[1..] == hs[1..] + [h];
      ConcatAppend(hs[1..], h);
    }
  }

  /** Hashes already read, put before what a further read yields. */
  function Prepend(hs: seq<Hash>, r: Result<(seq<Hash>, seq<byte>)>): Result<(seq<Hash>, seq<byte>)> {
    var (more, rest) :- r;
    Ok((hs + more, rest))
  }

  lemma PrependOne(hs: seq<Hash>, h: Hash, r: Result<(seq<Hash>, seq<byte>)>)
    ensures Prepend(hs, Prepend([h], r)) == Prepend(hs + [h], r)
  {
    if r.Ok? {
      assert hs + ([h] + r.value.0) == hs + [h] + r.value.0;
    }
  }

  lemma PrependNothing(hs: seq<Hash>, r: Result<(seq<Hash>, seq<byte>)>, rest: seq<byte>)
    ensures Prepend([], r) == r
    ensures Prepend(hs, Ok(([], rest))) == Ok((hs, rest))
  {
    assert hs + [] == hs;
    if r.Ok? {
      assert [] + r.value.0 == r.value.0;
    }
  }

  /** Append-only byte buffer. */
  class ByteEncoder {
    var buf: seq<byte>

    constructor ()
      ensures buf == []
    {
      buf := [];
    }

    method WriteUint(v: nat, width: nat)
      modifies this
      ensures buf == old(buf) + LE(v, width)
    {
      var rest := v;
      for i := 0 to width
        invariant buf + LE(rest, width - i) == old(buf) + LE(v, width)
      {
        assert LE(rest, width - i) == [rest % 256] + LE(rest / 256, width - i - 1);
        buf := buf + [rest % 256];
        rest := rest / 256;
      }
    }

    method WriteBytes(s: seq<byte>)
      modifies this
      ensures buf == old(buf) + s
    {
      buf := buf + s;
    }

    method WriteHashes(hs: seq<Hash>)
      modifies this
      ensures buf == old(buf) + Concat(hs)
    {
      for i := 0 to |hs|
        invariant buf == old(buf) + Concat(hs[..i])
      {
        assert hs[..i + 1] == hs[..i] + [hs[i]];
        ConcatAppend(hs[..i], hs[i]);
        WriteBytes(hs[i]);
      }
      assert hs[..|hs|] == hs;
    }
  }

  /** Cursor over a byte string. A failed read leaves the cursor where it was. */
  class ByteDecoder {
    const buf: seq<byte>
    var pos: nat

    ghost predicate Valid()
      reads this
    {
      pos <= |buf|
    }

    ghost function Rest(): seq<byte>
      reads this
      requires Valid()
    {
      buf[pos..]
    }

    constructor (data: seq<byte>)
      ensures Valid() && buf == data && pos == 0 && Rest() == data
    {
      buf := data;
      pos := 0;
    }

    method ReadSlice(n: nat) returns (r: Result<seq<byte>>)
      requires Valid()
      modifies this
      ensures Valid()
      ensures r.Ok? <==> Take(old(Rest()), n).Ok?
      ensures r.Ok? ==> (r.value, Rest()) == Take(old(Rest()), n).value
      ensures r.Err? ==> pos == old(pos) && r == Err(Codec)
    {
      if pos + n > |buf| {
        return Err(Codec);
      }
      r := Ok(buf[pos..pos + n]);
      pos := pos + n;
      assert r.value == old(Rest())[..n] && Rest() == old(Rest())[n..];
    }

    method ReadNumber(width: nat) returns (r: Result<nat>)
      requires Valid()
      modifies this
      ensures Valid()
      ensures r.Ok? <==> ReadUint(old(Rest()), width).Ok?
      ensures r.Ok? ==> (r.value, Rest()) == ReadUint(old(Rest()), width).value
      ensures r.Err? ==> pos == old(pos) && r == Err(Codec)
    {
      var slice :- ReadSlice(width);
      return Ok(FromLE(slice));
    }

    method ReadOneHash() returns (r: Result<Hash>)
      requires Valid()
      modifies this
      ensures Valid()
      ensures r.Ok? <==> ReadHash(old(Rest())).Ok?
      ensures r.Ok? ==> (r.value, Rest()) == ReadHash(old(Rest())).value
      ensures r.Err? ==> pos == old(pos) && r == Err(Codec)
    {
      var slice :- ReadSlice(32);
      return Ok(slice);
    }

    method ReadManyHashes(n: nat) returns (r: Result<seq<Hash>>)
      requires Valid()
      modifies this
      ensures Valid()
      ensures r.Ok? <==> ReadHashes(old(Rest()), n).Ok?
      ensures r.Ok? ==> (r.value, Rest()) == ReadHashes(old(Rest()), n).value
      ensures r.Err? ==> r == Err(Codec) && ReadHashes(old(Rest()), n) == Err(Codec)
    {
      var hashes := [];
      PrependNothing([], ReadHashes(Rest(), n), []);
      for i := 0 to n
        invariant Valid()
        invariant ReadHashes(old(Rest()), n) == Prepend(hashes, ReadHashes(Rest(), n - i))
      {
        var h :- ReadOneHash();
        PrependOne(hashes, h, ReadHashes(Rest(), n - i - 1));
        hashes := hashes + [h];
      }
      PrependNothing(hashes, Err(Codec), Rest());
      return Ok(hashes);
    }
  }
}
