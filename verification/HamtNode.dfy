/** The two payload layouts of a trie node. */
module HamtNode {
  import opened Bytes
  import opened Words
  import opened Codec

  datatype RecordType = CommitRecord | BitmapRecord | LeafRecord

  /** Object types as they are stored: 1, 2 and 3. */
  function TypeByte(ty: RecordType): byte {
    match ty
    case CommitRecord => 1
    case BitmapRecord => 2
    case LeafRecord => 3
  }

  function TypeFromByte(b: byte): Result<RecordType> {
    match b
    case 1 => Ok(CommitRecord)
    case 2 => Ok(BitmapRecord)
    case 3 => Ok(LeafRecord)
    case _ => Err(Corrupt)
  }

  datatype Node =
    | Bitmap(bitmap: Word, children: seq<Hash>)
    | Leaf(key: seq<byte>, value: seq<byte>)

  function NodeType(n: Node): RecordType {
    if n.Bitmap? then BitmapRecord else LeafRecord
  }

  function EncodeNode(n: Node): seq<byte> {
    match n
    case Bitmap(bitmap, children) =>
      LE(FromBits(bitmap), 4) + (LE(|children|, 1) + Concat(children))
    case Leaf(key, value) =>
      LE(|key|, 2) + (key + (LE(|value|, 4) + value))
  }

  function DecodeNode(ty: RecordType, s: seq<byte>): Result<Node> {
    match ty
    case BitmapRecord =>
      var (bitmap, s1) :- ReadUint(s, 4);
      var (count, s2) :- ReadUint(s1, 1);
      WithChildren(bitmap, ReadHashes(s2, count))
    case LeafRecord =>
      var (klen, s1) :- ReadUint(s, 2);
      var (key, s2) :- Take(s1, klen);
      DecodeValue(key, s2)
    case CommitRecord => Err(Error.Codec)
  }

  function WithChildren(bitmap: nat, children: Result<(seq<Hash>, seq<byte>)>): Result<Node> {
    var (hashes, _) :- children;
    Ok(Bitmap(ToBits(bitmap, 32), hashes))
  }

  function DecodeValue(key: seq<byte>, s: seq<byte>): Result<Node> {
    var (vlen, s1) :- ReadUint(s, 4);
    var (value, _) :- Take(s1, vlen);
    Ok(Leaf(key, value))
  }

  /** The lengths of the node fit the fields they are written to. */
  predicate NodeFits(n: Node) {
    match n
    case Bitmap(_, children) => |children| < 0x100
    case Leaf(key, value) => |key| < 0x1_0000 && |value| < 0x1_0000_0000
  }

  lemma BitmapBack(bitmap: Word)
    ensures FromBits(bitmap) < Pow256(4)
    ensures ToBits(FromBits(bitmap), 32) == bitmap
  {
    BitsBack(bitmap);
    Powers();
    Widths();
  }

  lemma ReadFits(v: nat, width: nat, rest: seq<byte>)
    requires v < Pow256(width)
    ensures ReadUint(LE(v, width) + rest, width) == Ok((v, rest))
  {
    ReadUintAppend(v, width, rest);
    ModIs(v, Pow256(width), 0, v);
  }

  lemma BitmapFields(bb: seq<byte>, cb: seq<byte>, s: seq<byte>)
    requires |bb| == 4 && |cb| == 1
    ensures DecodeNode(BitmapRecord, bb + (cb + s)) == WithChildren(FromLE(bb), ReadHashes(s, FromLE(cb)))
  {
    ReadField(bb, cb + s);
    ReadField(cb, s);
  }

  lemma LeafFields(kb: seq<byte>, key: seq<byte>, s: seq<byte>)
    requires |kb| == 2 && FromLE(kb) == |key|
    ensures DecodeNode(LeafRecord, kb + (key + s)) == DecodeValue(key, s)
  {
    ReadField(kb, key + s);
    TakeAppend(key, s);
  }

  lemma ValueFields(key: seq<byte>, vb: seq<byte>, value: seq<byte>)
    requires |vb| == 4 && FromLE(vb) == |value|
    ensures DecodeValue(key, vb + value) == Ok(Leaf(key, value))
  {
    ReadField(vb, value);
    assert value[..|value|] == value;
  }

  lemma DecodeEncoded(n: Node)
    requires NodeFits(n)
    ensures DecodeNode(NodeType(n), EncodeNode(n)) == Ok(n)
  {
    Widths();
    match n {
      case Bitmap(bitmap, children) =>
        BitmapBack(bitmap);
        FieldRoundTrip(FromBits(bitmap), 4);
        FieldRoundTrip(|children|, 1);
        BitmapFields(LE(FromBits(bitmap), 4), LE(|children|, 1), Concat(children));
        ReadHashesAppend(children, []);
        assert Concat(children) + [] == Concat(children);
      case Leaf(key, value) =>
        FieldRoundTrip(|key|, 2);
        FieldRoundTrip(|value|, 4);
        LeafFields(LE(|key|, 2), key, LE(|value|, 4) + value);
        ValueFields(key, LE(|value|, 4), value);
    }
  }

  /** Every node that decoding yields fits its fields. */
  lemma DecodedFits(ty: RecordType, s: seq<byte>)
    ensures var n := DecodeNode(ty, s); n.Ok? ==> NodeFits(n.value) && NodeType(n.value) == ty
  {
    Widths();
    if DecodeNode(ty, s).Ok? {
      if ty == BitmapRecord {
        var (_, s1) := ReadUint(s, 4).value;
        var (count, s2) := ReadUint(s1, 1).value;
        UintBound(s1, 1);
        ReadHashesLength(s2, count);
      } else {
        var (klen, s1) := ReadUint(s, 2).value;
        var (key, s2) := Take(s1, klen).value;
        UintBound(s, 2);
        UintBound(s2, 4);
      }
    }
  }

  /** Decoding inverts encoding exactly when the lengths fit their fields. */
  lemma NodeRoundTrip(n: Node)
    ensures DecodeNode(NodeType(n), EncodeNode(n)) == Ok(n) <==> NodeFits(n)
  {
    if NodeFits(n) {
      DecodeEncoded(n);
    } else {
      DecodedFits(NodeType(n), EncodeNode(n));
    }
  }

  method Encode(n: Node) returns (out: seq<byte>)
    ensures out == EncodeNode(n)
  {
    var enc := new ByteEncoder();
    match n {
      case Bitmap(bitmap, children) =>
        enc.WriteUint(FromBits(bitmap), 4);
        enc.WriteUint(|children|, 1);
        enc.WriteHashes(children);
      case Leaf(key, value) =>
        enc.WriteUint(|key|, 2);
        enc.WriteBytes(key);
        enc.WriteUint(|value|, 4);
        enc.WriteBytes(value);
    }
    return enc.buf;
  }

  method Decode(ty: RecordType, buf: seq<byte>) returns (r: Result<Node>)
    ensures r == DecodeNode(ty, buf)
  {
    var dec := new ByteDecoder(buf);
    match ty {
      case BitmapRecord =>
        var bitmap :- dec.ReadNumber(4);
        var count :- dec.ReadNumber(1);
        var children :- dec.ReadManyHashes(count);
        return Ok(Bitmap(ToBits(bitmap, 32), children));
      case LeafRecord =>
        var klen :- dec.ReadNumber(2);
        var key :- dec.ReadSlice(klen);
        var vlen :- dec.ReadNumber(4);
        var value :- dec.ReadSlice(vlen);
        return Ok(Leaf(key, value));
      case CommitRecord =>
        return Err(Error.Codec);
    }
  }
}
