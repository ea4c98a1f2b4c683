/** The on-disk formats of the store: log records with a CRC, segment headers and index entries. */
module Records {
  import opened Bytes
  import opened Codec
  import opened Crc32
  import opened HamtNode
  import opened MemCas

  const RECORD_MAGIC: seq<byte> := [0x45, 0x50, 0x43, 0x4C]
  const SEGMENT_MAGIC: seq<byte> := [0x45, 0x50, 0x53, 0x47]
  const HEADER_LEN: nat := 16

  // Log records.

  /** Everything the CRC covers: type, length, content hash and payload. */
  function Body(r: Record, h: Hash): seq<byte> {
    LE(TypeByte(r.ty), 1) + (LE(|r.payload|, 4) + (h + r.payload))
  }

  function Sealed(body: seq<byte>): seq<byte> {
    RECORD_MAGIC + (body + LE(Crc(body), 4))
  }

  function EncodeRecord(r: Record, h: Hash): seq<byte> {
    Sealed(Body(r, h))
  }

  function DecodeRecord(H: Hasher, buf: seq<byte>): Result<Record> {
    if |buf| < 45 then Err(Corrupt) else
    var (magic, s1) :- Take(buf, 4);
    if magic != RECORD_MAGIC then Err(Corrupt) else DecodeBody(H, s1)
  }

  /** The record behind the magic bytes; the CRC covers all of it up to the CRC itself. */
  function DecodeBody(H: Hasher, s1: seq<byte>): Result<Record> {
    var (tb, s2) :- ReadUint(s1, 1);
    var ty :- if tb < 256 then TypeFromByte(tb) else Err(Corrupt);
    var (len, s3) :- ReadUint(s2, 4);
    DecodeRest(H, s1, ty, len, s3)
  }

  function DecodeRest(H: Hasher, s1: seq<byte>, ty: RecordType, len: nat, s3: seq<byte>): Result<Record> {
    var (hash, s4) :- ReadHash(s3);
    var (payload, s5) :- Take(s4, len);
    var (stored, _) :- ReadUint(s5, 4);
    if 37 + len > |s1| then Err(CrcMismatch) else Verified(H, s1[..37 + len], stored, hash, Record(ty, payload))
  }

  function Verified(H: Hasher, covered: seq<byte>, stored: nat, hash: Hash, r: Record): Result<Record> {
    if stored != Crc(covered) then Err(CrcMismatch)
    else if H(r.payload) != hash then Err(HashMismatch)
    else Ok(r)
  }

  lemma RecordLength(r: Record, h: Hash)
    ensures |EncodeRecord(r, h)| == 45 + |r.payload|
  {}

  /** What decoding makes of a body from its parts. */
  lemma DecodeParts(H: Hasher, ty: RecordType, tb: seq<byte>, lb: seq<byte>, h: Hash, payload: seq<byte>, cb: seq<byte>)
    requires |tb| == 1 && |lb| == 4 && |cb| == 4
    requires FromLE(tb) == TypeByte(ty) && FromLE(lb) == |payload|
    ensures DecodeBody(H, tb + (lb + (h + (payload + cb))))
         == Verified(H, tb + (lb + (h + payload)), FromLE(cb), h, Record(ty, payload))
  {
    var s3 := h + (payload + cb);
    ReadField(tb, lb + s3);
    ReadField(lb, s3);
    RestParts(H, tb + (lb + s3), ty, h, payload, cb);
    assert (tb + (lb + s3))[..37 + |payload|] == tb + (lb + (h + payload));
  }

  lemma RestParts(H: Hasher, s1: seq<byte>, ty: RecordType, h: Hash, payload: seq<byte>, cb: seq<byte>)
    requires |cb| == 4 && 37 + |payload| <= |s1|
    ensures DecodeRest(H, s1, ty, |payload|, h + (payload + cb))
         == Verified(H, s1[..37 + |payload|], FromLE(cb), h, Record(ty, payload))
  {
    var s4 := payload + cb;
    assert (h + s4)[..32] == h && (h + s4)[32..] == s4;
    TakeAppend(payload, cb);
    assert cb + [] == cb;
    ReadField(cb, []);
  }

  lemma FieldValues(ty: RecordType, len: nat, crc: nat)
    requires crc < 0x1_0000_0000
    ensures FromLE(LE(TypeByte(ty), 1)) == TypeByte(ty)
    ensures FromLE(LE(len, 4)) == len % 0x1_0000_0000
    ensures FromLE(LE(crc, 4)) == crc
  {
    Widths();
    FieldRoundTrip(TypeByte(ty), 1);
    FromLEOfLE(len, 4);
    FieldRoundTrip(crc, 4);
  }

  lemma DecodeSealed(H: Hasher, r: Record, h: Hash, crc: nat)
    requires |r.payload| < 0x1_0000_0000 && crc < 0x1_0000_0000
    ensures DecodeRecord(H, RECORD_MAGIC + (Body(r, h) + LE(crc, 4))) == Verified(H, Body(r, h), crc, h, r)
  {
    var tb, lb, cb := LE(TypeByte(r.ty), 1), LE(|r.payload|, 4), LE(crc, 4);
    FieldValues(r.ty, |r.payload|, crc);
    DecodeWhole(H, r, tb, lb, h, cb, crc);
  }

  lemma DecodeWhole(H: Hasher, r: Record, tb: seq<byte>, lb: seq<byte>, h: Hash, cb: seq<byte>, crc: nat)
    requires |tb| == 1 && |lb| == 4 && |cb| == 4
    requires FromLE(tb) == TypeByte(r.ty) && FromLE(lb) == |r.payload| && FromLE(cb) == crc
    ensures DecodeRecord(H, RECORD_MAGIC + (tb + (lb + (h + r.payload)) + cb))
         == Verified(H, tb + (lb + (h + r.payload)), crc, h, r)
  {
    Unwrap(H, tb, lb, h, r.payload, cb);
    DecodeParts(H, r.ty, tb, lb, h, r.payload, cb);
  }

  lemma Unwrap(H: Hasher, tb: seq<byte>, lb: seq<byte>, h: Hash, payload: seq<byte>, cb: seq<byte>)
    requires |tb| == 1 && |lb| == 4 && |cb| == 4
    ensures DecodeRecord(H, RECORD_MAGIC + (tb + (lb + (h + payload)) + cb))
         == DecodeBody(H, tb + (lb + (h + (payload + cb))))
  {
    var s1 := tb + (lb + (h + (payload + cb)));
    assert tb + (lb + (h + payload)) + cb == s1;
    TakeAppend(RECORD_MAGIC, s1);
  }

  /** Decoding inverts encoding exactly when the payload length fits its field. */
  lemma RecordRoundTrip(H: Hasher, r: Record)
    ensures DecodeRecord(H, EncodeRecord(r, H(r.payload))) == Ok(r) <==> |r.payload| < 0x1_0000_0000
  {
    if |r.payload| < 0x1_0000_0000 {
      CrcFits(Body(r, H(r.payload)));
      DecodeSealed(H, r, H(r.payload), Crc(Body(r, H(r.payload))));
    } else {
      LongPayloadLost(H, r);
    }
  }

  lemma LongPayloadLost(H: Hasher, r: Record)
    requires |r.payload| >= 0x1_0000_0000
    ensures DecodeRecord(H, EncodeRecord(r, H(r.payload))) != Ok(r)
  {
    var h, crc := H(r.payload), Crc(Body(r, H(r.payload)));
    var tb, lb, cb := LE(TypeByte(r.ty), 1), LE(|r.payload|, 4), LE(crc, 4);
    CrcFits(Body(r, h));
    FieldValues(r.ty, |r.payload|, crc);
    Unwrap(H, tb, lb, h, r.payload, cb);
    ShortPayload(H, tb, lb, h + (r.payload + cb));
  }

  /** The decoded payload is as long as the length field says. */
  lemma ShortPayload(H: Hasher, tb: seq<byte>, lb: seq<byte>, rest: seq<byte>)
    requires |tb| == 1 && |lb| == 4
    ensures var d := DecodeBody(H, tb + (lb + rest)); d.Ok? ==> |d.value.payload| == FromLE(lb)
  {
    ReadField(tb, lb + rest);
    ReadField(lb, rest);
  }

  /** Damage to at most four consecutive bytes behind the length field is always noticed. */
  lemma TamperDetected(H: Hasher, r: Record, h: Hash, before: seq<byte>, u: seq<byte>, v: seq<byte>, after: seq<byte>)
    requires |r.payload| < 0x1_0000_0000
    requires h + r.payload == before + u + after && |u| == |v| <= 4 && u != v
    ensures var front := LE(TypeByte(r.ty), 1) + LE(|r.payload|, 4);
            && EncodeRecord(r, h) == RECORD_MAGIC + (front + (before + u + after) + LE(Crc(Body(r, h)), 4))
            && DecodeRecord(H, RECORD_MAGIC + (front + (before + v + after) + LE(Crc(Body(r, h)), 4)))
               == Err(CrcMismatch)
  {
    var tb, lb := LE(TypeByte(r.ty), 1), LE(|r.payload|, 4);
    var good, bad, crc := before + u + after, before + v + after, Crc(Body(r, h));
    var h', p' := bad[..32], bad[32..];
    CrcFits(Body(r, h));
    DecodeSealed(H, Record(r.ty, p'), h', crc);
    assert bad == h' + p';
    DamagedCrc(tb, lb, before, u, v, after);
    assert Body(r, h) == tb + (lb + good) && Body(Record(r.ty, p'), h') == tb + (lb + bad);
    Associate(tb, lb, good);
    Associate(tb, lb, bad);
  }

  lemma DamagedCrc(tb: seq<byte>, lb: seq<byte>, before: seq<byte>, u: seq<byte>, v: seq<byte>, after: seq<byte>)
    requires |u| == |v| <= 4 && u != v
    ensures Crc(tb + (lb + (before + u + after))) != Crc(tb + (lb + (before + v + after)))
  {
    BurstDetected(tb + lb + before, u, v, after);
    Unnest(tb, lb, before, u, after);
    Unnest(tb, lb, before, v, after);
  }

  lemma Unnest(tb: seq<byte>, lb: seq<byte>, before: seq<byte>, u: seq<byte>, after: seq<byte>)
    ensures tb + (lb + (before + u + after)) == tb + lb + before + u + after
  {}

  method EncodeRecordBytes(table: seq<Words.Word>, r: Record, h: Hash) returns (out: seq<byte>)
    requires IsTable(table)
    ensures out == EncodeRecord(r, h)
  {
    var enc := new ByteEncoder();
    enc.WriteBytes(RECORD_MAGIC);
    enc.WriteUint(TypeByte(r.ty), 1);
    enc.WriteUint(|r.payload|, 4);
    enc.WriteBytes(h);
    enc.WriteBytes(r.payload);
    BodyParts(LE(TypeByte(r.ty), 1), LE(|r.payload|, 4), h, r.payload);
    var crc := Crc32Of(table, enc.buf[4..]);
    enc.WriteUint(crc, 4);
    return enc.buf;
  }

  lemma BodyParts(tb: seq<byte>, lb: seq<byte>, h: Hash, payload: seq<byte>)
    ensures var buf := [] + RECORD_MAGIC + tb + lb + h + payload;
            && buf[4..] == tb + (lb + (h + payload))
            && forall cb: seq<byte> :: buf + cb == RECORD_MAGIC + (tb + (lb + (h + payload)) + cb)
  {}

  method DecodeRecordBytes(H: Hasher, table: seq<Words.Word>, buf: seq<byte>) returns (r: Result<Record>)
    requires IsTable(table)
    ensures r == DecodeRecord(H, buf)
  {
    if |buf| < 45 {
      return Err(Corrupt);
    }
    var dec := new ByteDecoder(buf);
    var magic :- dec.ReadSlice(4);
    if magic != RECORD_MAGIC {
      return Err(Corrupt);
    }
    r := DecodeBodyBytes(H, table, dec);
  }

  lemma SliceOfRest(buf: seq<byte>, i: nat, n: nat)
    requires i + n <= |buf|
    ensures buf[i..i + n] == buf[i..][..n]
  {}

  method DecodeBodyBytes(H: Hasher, table: seq<Words.Word>, dec: ByteDecoder) returns (r: Result<Record>)
    requires IsTable(table) && dec.Valid() && dec.pos == 4
    modifies dec
    ensures r == DecodeBody(H, old(dec.Rest()))
  {
    var tb :- dec.ReadNumber(1);
    var ty :- if tb < 256 then TypeFromByte(tb) else Err(Corrupt);
    var len :- dec.ReadNumber(4);
    var hash :- dec.ReadOneHash();
    var payload :- dec.ReadSlice(len);
    var stored :- dec.ReadNumber(4);
    if 41 + len > |dec.buf| {
      return Err(CrcMismatch);
    }
    SliceOfRest(dec.buf, 4, 37 + len);
    r := VerifyRecord(H, table, dec.buf[4..41 + len], stored, hash, Record(ty, payload));
  }

  method VerifyRecord(H: Hasher, table: seq<Words.Word>, covered: seq<byte>, stored: nat, hash: Hash, record: Record)
    returns (r: Result<Record>)
    requires IsTable(table)
    ensures r == Verified(H, covered, stored, hash, record)
  {
    var computed := Crc32Of(table, covered);
    if stored != computed {
      return Err(CrcMismatch);
    }
    if H(record.payload) != hash {
      return Err(HashMismatch);
    }
    return Ok(record);
  }

  function SegmentHeader(id: nat, createdAt: nat): (s: seq<byte>)
    ensures |s| == HEADER_LEN
  {
    SEGMENT_MAGIC + LE(id, 4) + LE(createdAt, 8)
  }

  // Index entries: 44 bytes each.

  datatype IndexEntry = IndexEntry(segment: nat, offset: nat, length: nat)

  type Index = map<Hash, IndexEntry>

  function EncodeEntry(h: Hash, e: IndexEntry): (s: seq<byte>)
    ensures |s| == 44
  {
    h + (LE(e.segment, 2) + (LE(e.offset, 6) + LE(e.length, 4)))
  }

  function DecodeEntry(s: seq<byte>): (Hash, IndexEntry)
    requires |s| == 44
  {
    (s[..32], IndexEntry(FromLE(s[32..34]), FromLE(s[34..40]), FromLE(s[40..44])))
  }

  predicate EntryFits(e: IndexEntry) {
    e.segment < 0x1_0000 && e.offset < 0x1_0000_0000_0000 && e.length < 0x1_0000_0000
  }

  lemma EntryRoundTrip(h: Hash, e: IndexEntry)
    ensures DecodeEntry(EncodeEntry(h, e)) == (h, e) <==> EntryFits(e)
  {
    var s := EncodeEntry(h, e);
    assert s[..32] == h && s[32..34] == LE(e.segment, 2) && s[34..40] == LE(e.offset, 6) && s[40..44] == LE(e.length, 4);
    FieldRoundTrip(e.segment, 2);
    FieldRoundTrip(e.offset, 6);
    FieldRoundTrip(e.length, 4);
    Widths();
  }

  /** The index read from its file: whole slots from `offset` on, later entries over earlier ones. */
  function ParseFrom(epi: seq<byte>, offset: nat, index: Index): Index
    decreases |epi| - offset
  {
    if offset + 44 > |epi| then index else
      var (h, e) := DecodeEntry(epi[offset..offset + 44]);
      ParseFrom(epi, offset + 44, index[h := e])
  }

  function ParseIndex(epi: seq<byte>): Index {
    ParseFrom(epi, 0, map[])
  }

  /** Appending an entry to a file of whole slots adds that entry. */
  lemma {:induction false} ParseAppend(epi: seq<byte>, offset: nat, slots: nat, index: Index, h: Hash, e: IndexEntry)
    requires |epi| == offset + 44 * slots && EntryFits(e)
    ensures ParseFrom(epi + EncodeEntry(h, e), offset, index) == ParseFrom(epi, offset, index)[h := e]
    decreases slots
  {
    var longer := epi + EncodeEntry(h, e);
    if slots == 0 {
      assert longer[offset..offset + 44] == EncodeEntry(h, e);
      EntryRoundTrip(h, e);
    } else {
      assert longer[offset..offset + 44] == epi[offset..offset + 44];
      var (h', e') := DecodeEntry(epi[offset..offset + 44]);
      ParseAppend(epi, offset + 44, slots - 1, index[h' := e'], h, e);
    }
  }

  method OpenIndex(epi: seq<byte>) returns (index: Index)
    ensures index == ParseIndex(epi)
  {
    index := map[];
    var offset := 0;
    while offset + 44 <= |epi|
      invariant ParseFrom(epi, offset, index) == ParseIndex(epi)
    {
      var (h, e) := DecodeEntry(epi[offset..offset + 44]);
      index := index[h := e];
      offset := offset + 44;
    }
  }
}
