/** Commits and their payload: version 2, and version 1 for reading. */
module Commits {
  import opened Bytes
  import opened Codec
  import opened HamtNode
  import opened Utf8Text

  // The ordered map of index roots: pairs in strictly ascending order of their names.

  type Roots = seq<(seq<byte>, Hash)>

  predicate Less(a: seq<byte>, b: seq<byte>)
    decreases |a|
  {
    if b == [] then false
    else if a == [] then true
    else a[0] < b[0] || (a[0] == b[0] && Less(a[1..], b[1..]))
  }

  lemma {:induction false} LessAsymmetric(a: seq<byte>, b: seq<byte>)
    requires Less(a, b)
    ensures a != b && !Less(b, a)
    decreases |a|
  {
    if a != [] && a[0] == b[0] {
      LessAsymmetric(a[1..], b[1..]);
    }
  }

  ghost predicate Ascending(m: Roots) {
    forall i, j :: 0 <= i < j < |m| ==> Less(m[i].0, m[j].0)
  }

  function InsertRoot(m: Roots, name: seq<byte>, h: Hash): (r: Roots)
    ensures |r| <= |m| + 1
  {
    if m == [] || Less(name, m[0].0) then [(name, h)] + m
    else if name == m[0].0 then [(name, h)] + m[1..]
    else [m[0]] + InsertRoot(m[1..], name, h)
  }

  lemma {:induction false} InsertLast(m: Roots, name: seq<byte>, h: Hash)
    requires forall i :: 0 <= i < |m| ==> Less(m[i].0, name)
    ensures InsertRoot(m, name, h) == m + [(name, h)]
  {
    if m != [] {
      LessAsymmetric(m[0].0, name);
      InsertLast(m[1..], name, h);
      assert m == [m[0]] + m[1..];
    }
  }

  datatype Commit = Commit(
    parents: seq<Hash>, root: Hash, timestamp: nat, message: seq<byte>, indexRoots: Roots)

  /** An ordered map whose names are UTF-8 and fit their length field. */
  ghost predicate NamedRoots(m: Roots) {
    && Ascending(m)
    && forall i :: 0 <= i < |m| ==> Utf8(m[i].0) && |m[i].0| < 0x1_0000
  }

  /**
   * What a payload can carry. The timestamp, the UTF-8 texts and the order of the map are guaranteed by the types
   * of the program; the four lengths are not.
   */
  ghost predicate Fits(c: Commit) {
    && c.timestamp < 0x1_0000_0000_0000_0000
    && Utf8(c.message)
    && NamedRoots(c.indexRoots)
    && |c.parents| < 0x100 && |c.message| < 0x1_0000 && |c.indexRoots| < 0x1_0000
  }

  // Encoding.

  function EncodeRoots(m: Roots): seq<byte> {
    if m == [] then [] else (LE(|m[0].0|, 2) + (m[0].0 + m[0].1)) + EncodeRoots(m[1..])
  }

  function EncodeHead(version: nat, c: Commit, rest: seq<byte>): seq<byte> {
    LE(version, 1) + (LE(|c.parents|, 1) + (Concat(c.parents) + (c.root
      + (LE(c.timestamp, 8) + (LE(|c.message|, 2) + (c.message + rest))))))
  }

  function EncodeCommit(c: Commit): seq<byte> {
    EncodeHead(2, c, LE(|c.indexRoots|, 2) + EncodeRoots(c.indexRoots))
  }

  // Decoding.

  function ReadRoots(s: seq<byte>, n: nat, m: Roots): Result<(Roots, seq<byte>)>
    decreases n
  {
    if n == 0 then Ok((m, s)) else
      var (len, s1) :- ReadUint(s, 2);
      var (name, s2) :- Take(s1, len);
      if !Utf8(name) then Err(Error.Codec) else
      var (h, s3) :- ReadHash(s2);
      ReadRoots(s3, n - 1, InsertRoot(m, name, h))
  }

  function ReadIndexRoots(version: nat, s: seq<byte>): Result<Roots> {
    if version < 2 then Ok([]) else
      var (n, s1) :- ReadUint(s, 2);
      First(ReadRoots(s1, n, []))
  }

  function First<A, B>(r: Result<(A, B)>): Result<A> {
    var (a, _) :- r;
    Ok(a)
  }

  function DecodeMessage(version: nat, parents: seq<Hash>, root: Hash, timestamp: nat, len: nat, s: seq<byte>)
    : Result<Commit>
  {
    var (message, s1) :- Take(s, len);
    if !Utf8(message) then Err(Error.Codec) else
    WithRoots(parents, root, timestamp, message, ReadIndexRoots(version, s1))
  }

  function WithRoots(parents: seq<Hash>, root: Hash, timestamp: nat, message: seq<byte>, roots: Result<Roots>)
    : Result<Commit>
  {
    var indexRoots :- roots;
    Ok(Commit(parents, root, timestamp, message, indexRoots))
  }

  function DecodeTail(version: nat, parents: seq<Hash>, s: seq<byte>): Result<Commit> {
    var (root, s1) :- ReadHash(s);
    var (timestamp, s2) :- ReadUint(s1, 8);
    var (len, s3) :- ReadUint(s2, 2);
    DecodeMessage(version, parents, root, timestamp, len, s3)
  }

  function DecodeParents(version: nat, count: nat, s: seq<byte>): Result<Commit> {
    var (parents, s1) :- ReadHashes(s, count);
    DecodeTail(version, parents, s1)
  }

  function DecodeCommit(s: seq<byte>): Result<Commit> {
    var (version, s1) :- ReadUint(s, 1);
    if version != 2 && version != 1 then Err(Error.Codec) else
    var (count, s2) :- ReadUint(s1, 1);
    DecodeParents(version, count, s2)
  }

  // Round trips.

  lemma ReadRootFirst(name: seq<byte>, h: Hash, more: seq<byte>, n: nat, m: Roots)
    requires n > 0 && |name| < 0x1_0000 && Utf8(name)
    ensures ReadRoots(LE(|name|, 2) + (name + (h + more)), n, m) == ReadRoots(more, n - 1, InsertRoot(m, name, h))
  {
    Widths();
    ReadFits(|name|, 2, name + (h + more));
    TakeAppend(name, h + more);
    assert (h + more)[..32] == h && (h + more)[32..] == more;
  }

  lemma Regroup<T>(a: seq<T>, b: seq<T>)
    requires b != []
    ensures a + [b[0]] + b[1..] == a + b
  {
    assert b == [b[0]] + b[1..];
  }

  lemma NextRoot(done: Roots, m: Roots)
    requires NamedRoots(done + m) && m != []
    ensures Utf8(m[0].0) && |m[0].0| < 0x1_0000
    ensures forall i :: 0 <= i < |done| ==> Less(done[i].0, m[0].0)
  {
    assert forall i :: 0 <= i < |done| ==> (done + m)[i] == done[i];
    assert (done + m)[|done|] == m[0];
  }

  lemma ReadNextRoot(done: Roots, m: Roots, rest: seq<byte>)
    requires NamedRoots(done + m) && m != []
    ensures ReadRoots(EncodeRoots(m) + rest, |m|, done)
         == ReadRoots(EncodeRoots(m[1..]) + rest, |m| - 1, done + [m[0]])
  {
    var name: seq<byte>, h: Hash, more: seq<byte> := m[0].0, m[0].1, EncodeRoots(m[1..]) + rest;
    assert EncodeRoots(m) + rest == LE(|name|, 2) + (name + (h + more));
    NextRoot(done, m);
    ReadRootFirst(name, h, more, |m|, done);
    InsertLast(done, name, h);
  }

  lemma {:induction false} ReadRootsBack(done: Roots, m: Roots, rest: seq<byte>)
    requires NamedRoots(done + m)
    ensures ReadRoots(EncodeRoots(m) + rest, |m|, done) == Ok((done + m, rest))
    decreases |m|
  {
    if m == [] {
      assert EncodeRoots(m) + rest == rest && done + m == done;
    } else {
      ReadNextRoot(done, m, rest);
      Regroup(done, m);
      ReadRootsBack(done + [m[0]], m[1..], rest);
    }
  }

  // Fixed-width fields by their bytes.

  lemma IndexRootsField(nb: seq<byte>, s: seq<byte>)
    requires |nb| == 2
    ensures ReadIndexRoots(2, nb + s) == First(ReadRoots(s, FromLE(nb), []))
  {
    ReadField(nb, s);
  }

  lemma TailFields(version: nat, parents: seq<Hash>, root: Hash, tb: seq<byte>, lb: seq<byte>, s: seq<byte>)
    requires |tb| == 8 && |lb| == 2
    ensures DecodeTail(version, parents, root + (tb + (lb + s)))
         == DecodeMessage(version, parents, root, FromLE(tb), FromLE(lb), s)
  {
    var s1 := tb + (lb + s);
    assert (root + s1)[..32] == root && (root + s1)[32..] == s1;
    ReadField(tb, lb + s);
    ReadField(lb, s);
  }

  lemma HeadFields(vb: seq<byte>, cb: seq<byte>, s: seq<byte>)
    requires |vb| == 1 && |cb| == 1 && 1 <= FromLE(vb) <= 2
    ensures DecodeCommit(vb + (cb + s)) == DecodeParents(FromLE(vb), FromLE(cb), s)
  {
    ReadField(vb, cb + s);
    ReadField(cb, s);
  }

  lemma IndexRootsBack(m: Roots)
    requires NamedRoots(m) && |m| < 0x1_0000
    ensures ReadIndexRoots(2, LE(|m|, 2) + EncodeRoots(m)) == Ok(m)
  {
    IndexRootsField(LE(|m|, 2), EncodeRoots(m));
    FieldRoundTrip(|m|, 2);
    Widths();
    assert [] + m == m && EncodeRoots(m) + [] == EncodeRoots(m);
    ReadRootsBack([], m, []);
  }

  lemma MessageBack(version: nat, parents: seq<Hash>, root: Hash, timestamp: nat, message: seq<byte>, rest: seq<byte>)
    requires Utf8(message)
    ensures DecodeMessage(version, parents, root, timestamp, |message|, message + rest)
         == WithRoots(parents, root, timestamp, message, ReadIndexRoots(version, rest))
  {
    TakeAppend(message, rest);
  }

  /** Reading back root, timestamp and message, with what the reader makes of the rest. */
  lemma TailBack(version: nat, parents: seq<Hash>, c: Commit, rest: seq<byte>)
    requires Fits(c)
    ensures DecodeTail(version, parents, c.root + (LE(c.timestamp, 8) + (LE(|c.message|, 2) + (c.message + rest))))
         == WithRoots(parents, c.root, c.timestamp, c.message, ReadIndexRoots(version, rest))
  {
    TailFields(version, parents, c.root, LE(c.timestamp, 8), LE(|c.message|, 2), c.message + rest);
    Widths();
    FieldRoundTrip(c.timestamp, 8);
    FieldRoundTrip(|c.message|, 2);
    MessageBack(version, parents, c.root, c.timestamp, c.message, rest);
  }

  lemma HeadBack(version: nat, c: Commit, rest: seq<byte>)
    requires Fits(c) && (version == 1 || version == 2)
    ensures DecodeCommit(EncodeHead(version, c, rest))
         == WithRoots(c.parents, c.root, c.timestamp, c.message, ReadIndexRoots(version, rest))
  {
    var tail := c.root + (LE(c.timestamp, 8) + (LE(|c.message|, 2) + (c.message + rest)));
    var vb, cb := LE(version, 1), LE(|c.parents|, 1);
    Widths();
    FieldRoundTrip(version, 1);
    FieldRoundTrip(|c.parents|, 1);
    HeadFields(vb, cb, Concat(c.parents) + tail);
    assert EncodeHead(version, c, rest) == vb + (cb + (Concat(c.parents) + tail));
    ParentsRead(version, c.parents, tail);
    TailBack(version, c.parents, c, rest);
  }

  lemma ParentsRead(version: nat, parents: seq<Hash>, tail: seq<byte>)
    ensures DecodeParents(version, |parents|, Concat(parents) + tail) == DecodeTail(version, parents, tail)
  {
    ReadHashesAppend(parents, tail);
  }

  // What decoding can yield.

  lemma {:induction false} LessTransitive(a: seq<byte>, b: seq<byte>, c: seq<byte>)
    requires Less(a, b) && Less(b, c)
    ensures Less(a, c)
    decreases |a|
  {
    if a != [] && a[0] == b[0] == c[0] {
      LessTransitive(a[1..], b[1..], c[1..]);
    }
  }

  lemma {:induction false} LessTotal(a: seq<byte>, b: seq<byte>)
    ensures Less(a, b) || a == b || Less(b, a)
    decreases |a|
  {
    if a != [] && b != [] && a[0] == b[0] {
      LessTotal(a[1..], b[1..]);
      assert a == [a[0]] + a[1..] && b == [b[0]] + b[1..];
    }
  }

  ghost predicate AllAbove(name: seq<byte>, m: Roots) {
    forall i :: 0 <= i < |m| ==> Less(name, m[i].0)
  }

  lemma {:induction false} InsertAbove(lo: seq<byte>, m: Roots, name: seq<byte>, h: Hash)
    requires AllAbove(lo, m) && Less(lo, name)
    ensures AllAbove(lo, InsertRoot(m, name, h))
  {
    if m != [] && !Less(name, m[0].0) && name != m[0].0 {
      InsertAbove(lo, m[1..], name, h);
    }
  }

  /** An ordered map stays one when a name is inserted. */
  lemma {:induction false} InsertKeeps(m: Roots, name: seq<byte>, h: Hash)
    requires NamedRoots(m) && Utf8(name) && |name| < 0x1_0000
    ensures NamedRoots(InsertRoot(m, name, h))
  {
    if m != [] {
      if Less(name, m[0].0) {
        forall i | 0 <= i < |m| ensures Less(name, m[i].0) {
          if i > 0 {
            LessTransitive(name, m[0].0, m[i].0);
          }
        }
      } else if name != m[0].0 {
        LessTotal(name, m[0].0);
        InsertAbove(m[0].0, m[1..], name, h);
        InsertKeeps(m[1..], name, h);
      }
    }
  }

  lemma {:induction false} RootsRead(s: seq<byte>, n: nat, m: Roots)
    requires NamedRoots(m)
    ensures var r := ReadRoots(s, n, m); r.Ok? ==> NamedRoots(r.value.0) && |r.value.0| <= |m| + n
    decreases n
  {
    if n > 0 && ReadUint(s, 2).Ok? {
      UintBound(s, 2);
      Widths();
      var (len, s1) := ReadUint(s, 2).value;
      if Take(s1, len).Ok? {
        var (name, s2) := Take(s1, len).value;
        if Utf8(name) && ReadHash(s2).Ok? {
          var (h, s3) := ReadHash(s2).value;
          InsertKeeps(m, name, h);
          RootsRead(s3, n - 1, InsertRoot(m, name, h));
        }
      }
    }
  }

  lemma IndexRootsRead(version: nat, s: seq<byte>)
    ensures var r := ReadIndexRoots(version, s); r.Ok? ==> NamedRoots(r.value) && |r.value| < 0x1_0000
  {
    if version >= 2 && ReadUint(s, 2).Ok? {
      UintBound(s, 2);
      Widths();
      var (n, s1) := ReadUint(s, 2).value;
      RootsRead(s1, n, []);
    }
  }

  lemma TailRead(version: nat, parents: seq<Hash>, s: seq<byte>)
    requires |parents| < 0x100
    ensures var d := DecodeTail(version, parents, s); d.Ok? ==> Fits(d.value)
  {
    if DecodeTail(version, parents, s).Ok? {
      var (root, s1) := ReadHash(s).value;
      var (timestamp, s2) := ReadUint(s1, 8).value;
      var (len, s3) := ReadUint(s2, 2).value;
      UintBound(s1, 8);
      UintBound(s2, 2);
      Widths();
      IndexRootsRead(version, Take(s3, len).value.1);
    }
  }

  /** Every commit that decoding yields fits. */
  lemma DecodedFits(s: seq<byte>)
    ensures var d := DecodeCommit(s); d.Ok? ==> Fits(d.value)
  {
    if DecodeCommit(s).Ok? {
      var (version, s1) := ReadUint(s, 1).value;
      var (count, s2) := ReadUint(s1, 1).value;
      UintBound(s1, 1);
      Widths();
      ReadHashesLength(s2, count);
      var (parents, s3) := ReadHashes(s2, count).value;
      TailRead(version, parents, s3);
    }
  }

  /** Decoding inverts encoding exactly on the commits that fit their fields. */
  lemma CommitRoundTrip(c: Commit)
    ensures DecodeCommit(EncodeCommit(c)) == Ok(c) <==> Fits(c)
  {
    if Fits(c) {
      HeadBack(2, c, LE(|c.indexRoots|, 2) + EncodeRoots(c.indexRoots));
      IndexRootsBack(c.indexRoots);
    } else {
      DecodedFits(EncodeCommit(c));
    }
  }

  /** Every text can be a message: such a commit reads back if the lengths fit. */
  lemma TextRoundTrip(c: Commit, text: seq<Scalar>)
    requires c.message == EncodeText(text) && c.timestamp < 0x1_0000_0000_0000_0000 && NamedRoots(c.indexRoots)
    requires |c.parents| < 0x100 && |c.message| < 0x1_0000 && |c.indexRoots| < 0x1_0000
    ensures DecodeCommit(EncodeCommit(c)) == Ok(c)
  {
    TextAccepted(text);
    CommitRoundTrip(c);
  }

  /** Commits that fit are told apart by their payloads. */
  lemma EncodingInjective(c: Commit, d: Commit)
    requires Fits(c) && Fits(d) && EncodeCommit(c) == EncodeCommit(d)
    ensures c == d
  {
    CommitRoundTrip(c);
    CommitRoundTrip(d);
  }

  /** Version 1 payloads read as commits without index roots. */
  lemma OldVersionReads(c: Commit)
    requires Fits(c) && c.indexRoots == []
    ensures DecodeCommit(EncodeHead(1, c, [])) == Ok(c)
  {
    HeadBack(1, c, []);
  }

  // The codec as it runs.

  lemma {:induction false} EncodeRootsAppend(m: Roots, name: seq<byte>, h: Hash)
    ensures EncodeRoots(m + [(name, h)]) == EncodeRoots(m) + LE(|name|, 2) + name + h
  {
    if m == [] {
      assert m + [(name, h)] == [(name, h)] && [(name, h)][1..] == [];
      assert EncodeRoots([(name, h)]) == (LE(|name|, 2) + (name + h)) + EncodeRoots([]);
    } else {
      assert (m + [(name, h)])[1..] == m[1..] + [(name, h)];
      EncodeRootsAppend(m[1..], name, h);
    }
  }

  lemma Nested(a: seq<byte>, b: seq<byte>, c: seq<byte>, d: seq<byte>, e: seq<byte>, f: seq<byte>, g: seq<byte>,
               h: seq<byte>, i: seq<byte>)
    ensures [] + a + b + c + d + e + f + g + h + i == a + (b + (c + (d + (e + (f + (g + (h + i)))))))
  {
    assert [] + a + b + c + d + e + f + g + h + i == [] + a + b + c + d + e + (f + (g + (h + i)));
    assert [] + a + b + c + (d + (e + (f + (g + (h + i))))) == a + (b + (c + (d + (e + (f + (g + (h + i)))))));
  }

  method EncodePayload(c: Commit) returns (out: seq<byte>)
    ensures out == EncodeCommit(c)
  {
    var enc := new ByteEncoder();
    enc.WriteUint(2, 1);
    enc.WriteUint(|c.parents|, 1);
    enc.WriteHashes(c.parents);
    enc.WriteBytes(c.root);
    enc.WriteUint(c.timestamp, 8);
    enc.WriteUint(|c.message|, 2);
    enc.WriteBytes(c.message);
    enc.WriteUint(|c.indexRoots|, 2);
    WriteRoots(enc, c.indexRoots);
    Nested(LE(2, 1), LE(|c.parents|, 1), Concat(c.parents), c.root, LE(c.timestamp, 8), LE(|c.message|, 2), c.message,
      LE(|c.indexRoots|, 2), EncodeRoots(c.indexRoots));
    return enc.buf;
  }

  method WriteRoots(enc: ByteEncoder, m: Roots)
    modifies enc
    ensures enc.buf == old(enc.buf) + EncodeRoots(m)
  {
    for i := 0 to |m|
      invariant enc.buf == old(enc.buf) + EncodeRoots(m[..i])
    {
      var (name, h) := m[i];
      assert m[..i + 1] == m[..i] + [(name, h)];
      EncodeRootsAppend(m[..i], name, h);
      enc.WriteUint(|name|, 2);
      enc.WriteBytes(name);
      enc.WriteBytes(h);
    }
    assert m[..|m|] == m;
  }

  method ReadRootsLoop(dec: ByteDecoder, n: nat) returns (r: Result<Roots>)
    requires dec.Valid()
    modifies dec
    ensures dec.Valid()
    ensures r == First(ReadRoots(old(dec.Rest()), n, []))
  {
    var m: Roots := [];
    for i := 0 to n
      invariant dec.Valid()
      invariant ReadRoots(old(dec.Rest()), n, []) == ReadRoots(dec.Rest(), n - i, m)
    {
      var len :- dec.ReadNumber(2);
      var name :- dec.ReadSlice(len);
      if !Utf8(name) {
        return Err(Error.Codec);
      }
      var h :- dec.ReadOneHash();
      m := InsertRoot(m, name, h);
    }
    return Ok(m);
  }

  method DecodePayload(buf: seq<byte>) returns (r: Result<Commit>)
    ensures r == DecodeCommit(buf)
  {
    var dec := new ByteDecoder(buf);
    var version :- dec.ReadNumber(1);
    if version != 2 && version != 1 {
      return Err(Error.Codec);
    }
    var count :- dec.ReadNumber(1);
    var parents :- dec.ReadManyHashes(count);
    r := DecodePayloadTail(dec, version, parents);
  }

  method DecodePayloadTail(dec: ByteDecoder, version: nat, parents: seq<Hash>) returns (r: Result<Commit>)
    requires dec.Valid()
    modifies dec
    ensures r == DecodeTail(version, parents, old(dec.Rest()))
  {
    var root :- dec.ReadOneHash();
    var timestamp :- dec.ReadNumber(8);
    var len :- dec.ReadNumber(2);
    var message :- dec.ReadSlice(len);
    if !Utf8(message) {
      return Err(Error.Codec);
    }
    var indexRoots: Roots := [];
    if version >= 2 {
      var n :- dec.ReadNumber(2);
      indexRoots :- ReadRootsLoop(dec, n);
    }
    return Ok(Commit(parents, root, timestamp, message, indexRoots));
  }
}
