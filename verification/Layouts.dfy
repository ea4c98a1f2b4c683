/** The stored formats, byte by byte. */
module Layouts {
  import opened Bytes
  import opened Words
  import opened Codec
  import opened Crc32
  import opened HamtNode
  import opened MemCas
  import opened Records
  import opened Commits

  // Numbers.

  lemma DivTwice(v: nat, p: nat)
    requires p > 0
    ensures v / 256 / p == v / (256 * p)
  {
    var q, r := v / 256, v % 256;
    var a, b := q / p, q % p;
    assert v == 256 * (a * p + b) + r;
    assert 256 * (a * p) == a * (256 * p);
    assert v == a * (256 * p) + (256 * b + r);
    ModIs(v, 256 * p, a, 256 * b + r);
    var m := 256 * p;
    assert (v / m) * m == a * m;
    SameFactor(v / m, a, m);
  }

  lemma SameFactor(x: int, y: int, m: int)
    requires m > 0 && x * m == y * m
    ensures x == y
  {
    assert (x - y) * m == 0;
    Small(x - y, m);
  }

  /** Byte number `i` of a field is the `i`-th digit to base 256. */
  lemma {:induction false} LittleEndian(v: nat, n: nat, i: nat)
    requires i < n
    ensures LE(v, n)[i] == v / Pow256(i) % 256
    decreases n
  {
    if i > 0 {
      LittleEndian(v / 256, n - 1, i - 1);
      DivTwice(v, Pow256(i - 1));
    }
  }

  // Parts of a concatenation.

  lemma Parts3<T>(a: seq<T>, b: seq<T>, c: seq<T>)
    ensures var s := a + (b + c);
            s[..|a|] == a && s[|a|..|a| + |b|] == b && s[|a| + |b|..] == c
  {}

  lemma Within<T>(s: seq<T>, at: nat, t: seq<T>, i: nat, j: nat)
    requires at <= |s| && s[at..] == t && i <= j <= |t|
    ensures at + j <= |s| && s[at + i..at + j] == t[i..j] && s[at + j..] == t[j..]
  {
    assert forall k :: 0 <= k < |t| ==> s[at..][k] == s[at + k];
  }

  /** The bytes at a place are a number. */
  ghost predicate Field(s: seq<byte>, at: nat, n: nat, v: nat) {
    at + n <= |s| && s[at..at + n] == LE(v, n)
  }

  // Log records, segment headers and index entries.

  function TypeNumber(ty: RecordType): nat {
    if ty == CommitRecord then 1 else if ty == BitmapRecord then 2 else 3
  }

  /** Magic, type, length, hash, payload, and the CRC of everything behind the magic. */
  lemma RecordLayout(r: Record, h: Hash)
    ensures var s, n := EncodeRecord(r, h), |r.payload|;
            && |s| == 45 + n && s[..4] == Ascii("EPCL")
            && Field(s, 4, 1, TypeNumber(r.ty)) && Field(s, 5, 4, n)
            && s[9..41] == h && s[41..41 + n] == r.payload
            && Field(s, 41 + n, 4, Crc(s[4..41 + n]))
  {
    var body := Body(r, h);
    assert RECORD_MAGIC == Ascii("EPCL");
    var tail := LE(Crc(body), 4);
    Parts3(RECORD_MAGIC, body, tail);
    var s, n := EncodeRecord(r, h), |r.payload|;
    assert |body| == 37 + n && s[4..41 + n] == body && s[41 + n..] == tail && s[41 + n..45 + n] == tail;
    BodyLayout(r, h);
    assert s[4..5] == body[0..1] && s[5..9] == body[1..5] && s[9..41] == body[5..37] && s[41..41 + n] == body[37..];
  }

  lemma BodyLayout(r: Record, h: Hash)
    ensures var b := Body(r, h);
            && |b| == 37 + |r.payload| && b[0..1] == LE(TypeNumber(r.ty), 1) && b[1..5] == LE(|r.payload|, 4)
            && b[5..37] == h && b[37..] == r.payload
  {
    var a, l := LE(TypeByte(r.ty), 1), LE(|r.payload|, 4);
    Parts3(a, l, h + r.payload);
    var b := Body(r, h);
    assert b[5..] == h + r.payload;
    assert b[5..37] == (h + r.payload)[..32] == h && b[37..] == (h + r.payload)[32..] == r.payload;
  }

  lemma HeaderLayout(id: nat, createdAt: nat)
    ensures var s := SegmentHeader(id, createdAt);
            |s| == 16 && s[..4] == Ascii("EPSG") && Field(s, 4, 4, id) && Field(s, 8, 8, createdAt)
  {
    assert SEGMENT_MAGIC == Ascii("EPSG");
  }

  lemma EntryLayout(h: Hash, e: IndexEntry)
    ensures var s := EncodeEntry(h, e);
            && |s| == 44 && s[..32] == h
            && Field(s, 32, 2, e.segment) && Field(s, 34, 6, e.offset) && Field(s, 40, 4, e.length)
  {}

  // Nodes.

  lemma {:induction false} HashAt(hs: seq<Hash>, i: nat)
    requires i < |hs|
    ensures 32 * i + 32 <= |Concat(hs)| && Concat(hs)[32 * i..32 * i + 32] == hs[i]
  {
    var s := Concat(hs);
    assert s == hs[0] + Concat(hs[1..]);
    if i > 0 {
      HashAt(hs[1..], i - 1);
      assert s[32 * i..32 * i + 32] == Concat(hs[1..])[32 * (i - 1)..32 * (i - 1) + 32];
    }
  }

  lemma BitmapLayout(bitmap: Word, children: seq<Hash>, i: nat)
    requires i < |children|
    ensures var s := EncodeNode(Bitmap(bitmap, children));
            && Field(s, 0, 4, FromBits(bitmap)) && Field(s, 4, 1, |children|)
            && 37 + 32 * i <= |s| && s[5 + 32 * i..37 + 32 * i] == children[i]
  {
    var a, b, c := LE(FromBits(bitmap), 4), LE(|children|, 1), Concat(children);
    Parts3(a, b, c);
    HashAt(children, i);
    var s := EncodeNode(Bitmap(bitmap, children));
    assert s[5..] == c && s[5 + 32 * i..37 + 32 * i] == c[32 * i..32 * i + 32];
  }

  lemma LeafLayout(key: seq<byte>, value: seq<byte>)
    ensures var s, n := EncodeNode(Leaf(key, value)), |key|;
            && |s| == 6 + n + |value|
            && Field(s, 0, 2, n) && s[2..2 + n] == key && Field(s, 2 + n, 4, |value|) && s[6 + n..] == value
  {
    var s, n := EncodeNode(Leaf(key, value)), |key|;
    var a, c := LE(n, 2), LE(|value|, 4);
    Parts3(a, key, c + value);
    assert s[2 + n..] == c + value;
    assert s[2 + n..6 + n] == (c + value)[..4] == c && s[6 + n..] == (c + value)[4..] == value;
  }

  // Commits.

  /** The next part of a sequence. */
  lemma Peel<T>(s: seq<T>, at: nat, a: seq<T>, rest: seq<T>)
    requires at <= |s| && s[at..] == a + rest
    ensures at + |a| <= |s| && s[at..at + |a|] == a && s[at + |a|..] == rest
  {
    Within(s, at, a + rest, 0, |a|);
    assert (a + rest)[0..|a|] == a && (a + rest)[|a|..] == rest;
  }

  lemma EightParts(s: seq<byte>, v: seq<byte>, k: seq<byte>, parents: seq<byte>, root: seq<byte>, time: seq<byte>,
                   size: seq<byte>, message: seq<byte>, count: seq<byte>, roots: seq<byte>, p: nat, n: nat)
    requires s == v + (k + (parents + (root + (time + (size + (message + (count + roots)))))))
    requires |v| == |k| == 1 && |parents| == p && |root| == 32 && |time| == 8 && |size| == |count| == 2 && |message| == n
    ensures 46 + p + n <= |s| && s[0..1] == v && s[1..2] == k && s[2..2 + p] == parents && s[2 + p..34 + p] == root
    ensures s[34 + p..42 + p] == time && s[42 + p..44 + p] == size && s[44 + p..44 + p + n] == message
    ensures s[44 + p + n..46 + p + n] == count && s[46 + p + n..] == roots
  {
    var r7 := count + roots;
    var r6 := message + r7;
    var r5 := size + r6;
    var r4 := time + r5;
    var r3 := root + r4;
    var r2 := parents + r3;
    assert s[0..] == s;
    Peel(s, 0, v, k + r2);
    Peel(s, 1, k, r2);
    Peel(s, 2, parents, r3);
    Peel(s, 2 + p, root, r4);
    Peel(s, 34 + p, time, r5);
    Peel(s, 42 + p, size, r6);
    Peel(s, 44 + p, message, r7);
    Peel(s, 44 + p + n, count, roots);
  }

  lemma {:induction false} ConcatLength(hs: seq<Hash>)
    ensures |Concat(hs)| == 32 * |hs|
  {
    if hs != [] {
      ConcatLength(hs[1..]);
    }
  }

  /** Version, parents, root, time and message, one behind the other, then the number of index roots and the roots. */
  lemma CommitLayout(c: Commit)
    ensures var s, p, n := EncodeCommit(c), 32 * |c.parents|, |c.message|;
            && Field(s, 0, 1, 2) && Field(s, 1, 1, |c.parents|)
            && 46 + p + n <= |s| && s[2..2 + p] == Concat(c.parents) && s[2 + p..34 + p] == c.root
            && Field(s, 34 + p, 8, c.timestamp) && Field(s, 42 + p, 2, n) && s[44 + p..44 + p + n] == c.message
            && Field(s, 44 + p + n, 2, |c.indexRoots|) && s[46 + p + n..] == EncodeRoots(c.indexRoots)
  {
    ConcatLength(c.parents);
    EightParts(EncodeCommit(c), LE(2, 1), LE(|c.parents|, 1), Concat(c.parents), c.root, LE(c.timestamp, 8),
               LE(|c.message|, 2), c.message, LE(|c.indexRoots|, 2), EncodeRoots(c.indexRoots),
               32 * |c.parents|, |c.message|);
  }

  /** An index root: the length of its name, the name and the hash. */
  lemma RootLayout(m: Roots)
    requires m != []
    ensures var s, n := EncodeRoots(m), |m[0].0|;
            && Field(s, 0, 2, n) && 34 + n <= |s|
            && s[2..2 + n] == m[0].0 && s[2 + n..34 + n] == m[0].1 && s[34 + n..] == EncodeRoots(m[1..])
  {
    var s, n := EncodeRoots(m), |m[0].0|;
    var first := LE(n, 2) + (m[0].0 + m[0].1);
    Parts3(LE(n, 2), m[0].0, m[0].1);
    assert s[..34 + n] == first;
    assert s[2..2 + n] == first[2..2 + n] && s[2 + n..34 + n] == first[2 + n..] && s[..2] == first[..2];
  }
}
