/** Where records lie in the segments of the log, as values. */
module Segments {
  import opened Bytes
  import opened HamtNode
  import opened MemCas
  import opened Records

  const MAX_BYTES: nat := 64 * 1024 * 1024

  /** Segment id to everything written to it, flushed or not. */
  type Log = map<nat, seq<byte>>

  predicate Inside(log: Log, e: IndexEntry) {
    e.segment in log && e.offset + e.length <= |log[e.segment]|
  }

  /** The bytes at an index entry. */
  function BytesAt(log: Log, e: IndexEntry): seq<byte> {
    if Inside(log, e) then log[e.segment][e.offset..e.offset + e.length] else []
  }

  /** Every index entry names a byte range of the log that is as long as its record. */
  ghost predicate Placed(H: Hasher, log: Log, index: Index, objects: Objects) {
    && index.Keys == objects.Keys
    && forall h :: h in index ==>
         && Inside(log, index[h])
         && EntryFits(index[h])
         && index[h].length == 45 + |objects[h].payload|
         && H(objects[h].payload) == h
  }

  /** That range holds the sealed record. */
  ghost predicate Encoded(log: Log, index: Index, objects: Objects)
    requires index.Keys == objects.Keys
  {
    forall h {:trigger EncodeRecord(objects[h], h)} :: h in index ==>
      BytesAt(log, index[h]) == EncodeRecord(objects[h], h)
  }

  /** The index names a sealed record for every object, and nothing else. */
  ghost predicate Holds(H: Hasher, log: Log, index: Index, objects: Objects) {
    Placed(H, log, index, objects) && Encoded(log, index, objects)
  }

  ghost predicate Apart(e: IndexEntry, f: IndexEntry) {
    e.segment != f.segment || e.offset + e.length <= f.offset || f.offset + f.length <= e.offset
  }

  /** Records start behind the header and below the size limit. */
  ghost predicate StartsBelow(index: Index) {
    forall h :: h in index ==> HEADER_LEN <= index[h].offset < MAX_BYTES
  }

  ghost predicate AllApart(index: Index) {
    forall h, k :: h in index && k in index && h != k ==> Apart(index[h], index[k])
  }

  /** Only a segment with a single record is larger than the limit. */
  ghost predicate LoneOverfull(log: Log, index: Index) {
    forall h, k :: h in index && k in index && index[h].segment == index[k].segment && Overfull(log, index[h].segment)
      ==> h == k
  }

  ghost predicate Overfull(log: Log, s: nat) {
    s in log && |log[s]| > MAX_BYTES
  }

  ghost predicate Layout(log: Log, index: Index) {
    StartsBelow(index) && AllApart(index) && LoneOverfull(log, index)
  }

  /** Every segment starts with its header, and `current` is the last. */
  ghost predicate Files(log: Log, current: nat) {
    && current in log && current < 0x1_0000
    && forall s :: s in log ==> s <= current && |log[s]| >= HEADER_LEN && log[s][..4] == SEGMENT_MAGIC
  }

  ghost predicate Sound(H: Hasher, log: Log, index: Index, objects: Objects, current: nat) {
    Holds(H, log, index, objects) && Layout(log, index) && Files(log, current)
  }

  function Grow(log: Log, s: nat, bytes: seq<byte>): Log
    requires s in log
  {
    log[s := log[s] + bytes]
  }

  lemma BytesStay(log: Log, s: nat, more: seq<byte>, e: IndexEntry)
    requires s in log && Inside(log, e)
    ensures Inside(Grow(log, s, more), e) && BytesAt(Grow(log, s, more), e) == BytesAt(log, e)
  {
    if e.segment == s {
      assert (log[s] + more)[e.offset..e.offset + e.length] == log[s][e.offset..e.offset + e.length];
    }
  }

  /** Appending a record that fits, or that starts an empty segment, keeps the log sound. */
  lemma AppendSound(H: Hasher, log: Log, index: Index, objects: Objects, current: nat, r: Record)
    requires Sound(H, log, index, objects, current) && H(r.payload) !in index
    requires 45 + |r.payload| < 0x1_0000_0000
    requires |log[current]| + 45 + |r.payload| <= MAX_BYTES || |log[current]| == HEADER_LEN
    ensures var h := H(r.payload);
            var e := IndexEntry(current, |log[current]|, 45 + |r.payload|);
            Sound(H, Grow(log, current, EncodeRecord(r, h)), index[h := e], objects[h := r], current)
  {
    var h := H(r.payload);
    var bytes := EncodeRecord(r, h);
    var e := IndexEntry(current, |log[current]|, 45 + |r.payload|);
    RecordLength(r, h);
    AppendHolds(H, log, index, objects, current, r, bytes, e);
    AppendLayout(H, log, index, objects, current, bytes, h, e);
    AppendFiles(log, current, bytes);
  }

  lemma AppendHolds(H: Hasher, log: Log, index: Index, objects: Objects, current: nat, r: Record,
                    bytes: seq<byte>, e: IndexEntry)
    requires Holds(H, log, index, objects) && current in log && bytes == EncodeRecord(r, H(r.payload))
    requires |bytes| == 45 + |r.payload| && EntryFits(e)
    requires e == IndexEntry(current, |log[current]|, |bytes|)
    ensures Holds(H, Grow(log, current, bytes), index[H(r.payload) := e], objects[H(r.payload) := r])
  {
    AppendedBytes(log, current, bytes, e);
    forall k | k in index
      ensures Inside(Grow(log, current, bytes), index[k])
      ensures BytesAt(Grow(log, current, bytes), index[k]) == BytesAt(log, index[k])
    {
      BytesStay(log, current, bytes, index[k]);
    }
  }

  lemma AppendedBytes(log: Log, current: nat, bytes: seq<byte>, e: IndexEntry)
    requires current in log && e == IndexEntry(current, |log[current]|, |bytes|)
    ensures Inside(Grow(log, current, bytes), e) && BytesAt(Grow(log, current, bytes), e) == bytes
  {
    assert (log[current] + bytes)[|log[current]|..|log[current]| + |bytes|] == bytes;
  }

  lemma AppendFiles(log: Log, current: nat, bytes: seq<byte>)
    requires Files(log, current)
    ensures Files(Grow(log, current, bytes), current)
  {
    assert (log[current] + bytes)[..4] == log[current][..4];
  }

  lemma AppendLayout(H: Hasher, log: Log, index: Index, objects: Objects, current: nat,
                     bytes: seq<byte>, h: Hash, e: IndexEntry)
    requires Placed(H, log, index, objects) && Layout(log, index) && Files(log, current) && h !in index
    requires e.segment == current && e.offset == |log[current]| && e.length == |bytes| >= 45
    requires |log[current]| + |bytes| <= MAX_BYTES || |log[current]| == HEADER_LEN
    ensures Layout(Grow(log, current, bytes), index[h := e])
  {
    AppendApart(H, log, index, objects, h, e);
    AppendLone(H, log, index, objects, current, bytes, h, e);
  }

  lemma AppendLone(H: Hasher, log: Log, index: Index, objects: Objects, current: nat,
                   bytes: seq<byte>, h: Hash, e: IndexEntry)
    requires Placed(H, log, index, objects) && Layout(log, index) && Files(log, current) && h !in index
    requires e.segment == current && |bytes| >= 45
    requires |log[current]| + |bytes| <= MAX_BYTES || |log[current]| == HEADER_LEN
    ensures LoneOverfull(Grow(log, current, bytes), index[h := e])
  {
    var log', index' := Grow(log, current, bytes), index[h := e];
    forall k, l | k in index' && l in index' && index'[k].segment == index'[l].segment
                  && Overfull(log', index'[k].segment)
      ensures k == l
    {
      LoneAfterAppend(H, log, index, objects, current, bytes, h, e, k, l);
    }
  }

  lemma AppendApart(H: Hasher, log: Log, index: Index, objects: Objects, h: Hash, e: IndexEntry)
    requires Placed(H, log, index, objects) && AllApart(index) && h !in index
    requires e.segment in log && e.offset == |log[e.segment]|
    ensures AllApart(index[h := e])
  {
    assert forall k :: k in index ==> Inside(log, index[k]);
  }

  lemma LoneAfterAppend(H: Hasher, log: Log, index: Index, objects: Objects, current: nat,
                        bytes: seq<byte>, h: Hash, e: IndexEntry, k: Hash, l: Hash)
    requires Placed(H, log, index, objects) && Layout(log, index) && Files(log, current) && h !in index
    requires e.segment == current && |bytes| >= 45
    requires |log[current]| + |bytes| <= MAX_BYTES || |log[current]| == HEADER_LEN
    requires var index' := index[h := e];
             k in index' && l in index' && index'[k].segment == index'[l].segment
             && Overfull(Grow(log, current, bytes), index'[k].segment)
    ensures k == l
  {
    assert k in index ==> Inside(log, index[k]);
    assert l in index ==> Inside(log, index[l]);
  }

  /** Starting a new segment keeps the log sound. */
  lemma RotateSound(H: Hasher, log: Log, index: Index, objects: Objects, current: nat, now: nat)
    requires Sound(H, log, index, objects, current) && current + 1 < 0x1_0000
    ensures Sound(H, log[current + 1 := SegmentHeader(current + 1, now)], index, objects, current + 1)
  {
    var log' := log[current + 1 := SegmentHeader(current + 1, now)];
    assert SegmentHeader(current + 1, now)[..4] == SEGMENT_MAGIC;
    assert forall h :: h in index ==> Inside(log, index[h]) && log'[index[h].segment] == log[index[h].segment];
    assert forall h :: h in index ==> BytesAt(log', index[h]) == BytesAt(log, index[h]);
  }

  /** The record found at an index entry decodes to the object. */
  lemma ReadBack(H: Hasher, log: Log, index: Index, objects: Objects, h: Hash)
    requires Holds(H, log, index, objects) && h in index
    ensures Inside(log, index[h]) && DecodeRecord(H, BytesAt(log, index[h])) == Ok(objects[h])
  {
    RecordRoundTrip(H, objects[h]);
    assert BytesAt(log, index[h]) == EncodeRecord(objects[h], h);
  }
}

/** The segmented store on disk. */
module CasStores {
  import opened Bytes
  import opened Crc32
  import opened HamtNode
  import opened MemCas
  import opened Records
  import opened Segments
  import opened Lru

  const WRITE_CACHE_CAP: nat := 8192
  const MMAP_SEGMENTS_CAP: nat := 4
  const SEGMENT_BUF_BYTES: nat := 64 * 1024

  /** Everything written to the segments, whether on disk or still buffered for the current one. */
  function Written(segments: Log, current: nat, pending: seq<byte>): Log {
    if current in segments then Grow(segments, current, pending) else segments
  }

  lemma NothingPending(segments: Log, current: nat)
    requires Files(Written(segments, current, []), current)
    ensures Files(segments, current)
  {
    if current in segments {
      assert segments[current] + [] == segments[current];
      assert Grow(segments, current, []) == segments;
    }
  }

  /** The last segment there can be has no room for the record. */
  predicate Full(current: nat, offset: nat, payload: seq<byte>) {
    current == 0xFFFF && offset + 45 + |payload| > MAX_BYTES
  }

  /** Where the next record goes: a segment and an offset in it. */
  datatype Place = Place(segment: nat, offset: nat)

  /** The place where a record of `n` bytes is written: the next segment if this one has no room and is not the last. */
  function RoomFor(p: Place, n: nat): Place {
    if p.offset + n > MAX_BYTES && p.segment < 0xFFFF then Place(p.segment + 1, HEADER_LEN) else p
  }

  /** The place behind that record, if it can be written. */
  function Behind(p: Place, n: nat): Place {
    if p.offset + n > MAX_BYTES && p.segment == 0xFFFF then p
    else RoomFor(p, n).(offset := RoomFor(p, n).offset + n)
  }

  class CasStore {
    const H: Hasher
    const table: seq<Words.Word>

    // On disk.
    var segments: Log
    var epi: seq<byte>

    // In memory.
    var index: Index
    var current: nat
    var pending: seq<byte>
    var offset: nat
    var dirty: bool
    var cache: LruMap<Hash, Record>
    var maps: Log
    var mmapCap: nat

    // What the store holds.
    ghost var objects: Objects

    /** The bytes written and the index agree with the objects. */
    ghost predicate Consistent()
      reads this
    {
      && IsTable(table)
      && current in segments && offset == |segments[current]| + |pending|
      && Sound(H, Written(segments, current, pending), index, objects, current)
      && |epi| % 44 == 0 && ParseIndex(epi) == index
      && MapsOk(maps, segments, current)
    }

    ghost function Next(): Place
      reads this
    {
      Place(current, offset)
    }

    ghost predicate Valid()
      reads this, cache
    {
      Consistent() && cache.Valid() && CacheOk(cache.entries, objects)
    }

    constructor (H: Hasher, table: seq<Words.Word>, now: nat)
      requires IsTable(table)
      ensures this.H == H && Valid() && objects == map[] && fresh(cache) && Next() == Place(0, HEADER_LEN)
    {
      this.H, this.table := H, table;
      segments, epi := map[0 := SegmentHeader(0, now)], [];
      index, current, pending, offset, dirty := map[], 0, [], HEADER_LEN, false;
      cache := new LruMap(WRITE_CACHE_CAP);
      maps, mmapCap := map[], MMAP_SEGMENTS_CAP;
      objects := map[];
      assert SegmentHeader(0, now)[..4] == SEGMENT_MAGIC;
    }

    /** The buffered writer of the current segment. */
    method WriteBuffered(bytes: seq<byte>)
      requires current in segments
      modifies this`segments, this`pending
      ensures current in segments
      ensures Written(segments, current, pending)
           == Grow(old(Written(segments, current, pending)), current, bytes)
      ensures segments.Keys == old(segments).Keys
      ensures forall s :: s in segments && s != current ==> segments[s] == old(segments)[s]
      ensures |segments[current]| + |pending| == |old(segments)[current]| + |old(pending)| + |bytes|
    {
      assert segments[current] + pending + bytes == segments[current] + (pending + bytes);
      if |pending| + |bytes| > SEGMENT_BUF_BYTES {
        segments := segments[current := segments[current] + pending];
        pending := [];
      }
      if |bytes| >= SEGMENT_BUF_BYTES {
        segments := segments[current := segments[current] + bytes];
      } else {
        pending := pending + bytes;
      }
      assert segments[current] + pending == old(segments)[current] + old(pending) + bytes;
    }

    /** Moves the buffered bytes to disk. */
    method FlushWriter()
      requires Valid()
      modifies this`segments, this`pending
      ensures Valid() && pending == []
      ensures segments == old(Written(segments, current, pending)) == Written(segments, current, pending)
    {
      segments := segments[current := segments[current] + pending];
      pending := [];
      assert segments[current] + [] == segments[current];
      assert Written(segments, current, pending) == segments;
    }

    method Flush()
      requires Valid()
      modifies this`segments, this`pending, this`dirty, this`maps
      ensures Valid() && pending == [] && !dirty
      ensures segments == old(Written(segments, current, pending))
    {
      FlushWriter();
      if !dirty {
        return;
      }
      dirty := false;
      maps := maps - {current};
    }

    method RotateSegment(now: nat) returns (r: Result<()>)
      requires Valid()
      modifies this`segments, this`pending, this`dirty, this`maps, this`current, this`offset
      ensures Valid()
      ensures r == if old(current) < 0xFFFF then Ok(()) else Err(Corrupt)
      ensures r.Ok? ==> Next() == Place(old(current) + 1, HEADER_LEN)
      ensures r.Err? ==> Next() == old(Next())
    {
      Flush();
      if current == 0xFFFF {
        return Err(Corrupt);
      }
      RotateSound(H, segments, index, objects, current, now);
      NextSegment(now);
      return Ok(());
    }

    /** A new segment with nothing but its header. */
    method NextSegment(now: nat)
      requires pending == [] && MapsOk(maps, segments, current)
      modifies this`segments, this`current, this`offset
      ensures current == old(current) + 1 && offset == HEADER_LEN
      ensures segments == old(segments)[current := SegmentHeader(current, now)]
      ensures Written(segments, current, pending) == segments
    {
      current := current + 1;
      segments := segments[current := SegmentHeader(current, now)];
      offset := HEADER_LEN;
      assert segments[current] + [] == segments[current];
    }

    method EnsureSegmentCapacity(needed: nat, now: nat) returns (r: Result<()>)
      requires Valid()
      modifies this`segments, this`pending, this`dirty, this`maps, this`current, this`offset
      ensures Valid() && Next() == RoomFor(old(Next()), needed)
      ensures r.Ok? ==> offset + needed <= MAX_BYTES || offset == HEADER_LEN
      ensures r.Err? <==> old(offset) + needed > MAX_BYTES && old(current) == 0xFFFF
      ensures r.Err? ==> r == Err(Corrupt)
    {
      if offset + needed > MAX_BYTES {
        r := RotateSegment(now);
        return;
      }
      return Ok(());
    }

    /** Stores a record under its content hash; a hash that is taken keeps what it holds. */
    method Put(ty: RecordType, payload: seq<byte>, now: nat) returns (r: Result<Hash>)
      requires Valid() && 45 + |payload| < 0x1_0000_0000
      modifies this, cache
      ensures Valid() && cache == old(cache)
      ensures Next() == if H(payload) in old(objects) then old(Next()) else Behind(old(Next()), 45 + |payload|)
      ensures r.Ok? ==> r.value == H(payload) && objects == PutRecord(H, old(objects), Record(ty, payload))
      ensures r.Err? ==> r == Err(Corrupt) && objects == old(objects)
      ensures r.Err? <==> H(payload) !in old(objects) && Full(old(current), old(offset), payload)
    {
      var h := H(payload);
      IndexedIsStored();
      if h in index {
        return Ok(h);
      }
      var _ :- EnsureSegmentCapacity(41 + |payload| + 4, now);
      AppendCached(Record(ty, payload), h);
      return Ok(h);
    }

    lemma IndexedIsStored()
      requires Valid()
      ensures index.Keys == objects.Keys
    {}

    method AppendCached(record: Record, h: Hash)
      requires Valid() && 45 + |record.payload| < 0x1_0000_0000 && h == H(record.payload) && h !in index
      requires offset + 45 + |record.payload| <= MAX_BYTES || offset == HEADER_LEN
      modifies this`segments, this`pending, this`epi, this`index, this`offset, this`dirty, this`objects, cache
      ensures Valid() && objects == old(objects)[h := record]
      ensures Next() == Place(old(current), old(offset) + 45 + |record.payload|)
    {
      IndexedIsStored();
      Append(record, h);
      Remember(h, record);
    }

    /** Adds an entry to the index and to its file. */
    method InsertEntry(h: Hash, entry: IndexEntry)
      requires |epi| % 44 == 0 && ParseIndex(epi) == index && EntryFits(entry) && h !in index
      modifies this`epi, this`index
      ensures |epi| % 44 == 0 && ParseIndex(epi) == index && index == old(index)[h := entry]
    {
      ParseAppend(epi, 0, |epi| / 44, map[], h, entry);
      epi := epi + EncodeEntry(h, entry);
      index := index[h := entry];
    }

    method Append(record: Record, h: Hash)
      requires Consistent() && 45 + |record.payload| < 0x1_0000_0000 && h == H(record.payload) && h !in index
      requires offset + 45 + |record.payload| <= MAX_BYTES || offset == HEADER_LEN
      modifies this`segments, this`pending, this`epi, this`index, this`offset, this`dirty, this`objects
      ensures Consistent() && objects == old(objects)[h := record]
      ensures Next() == Place(old(current), old(offset) + 45 + |record.payload|)
    {
      var bytes := SealRecord(H, table, record, Written(segments, current, pending), index, objects, current);
      WriteRecord(bytes, h, record);
    }

    method WriteRecord(bytes: seq<byte>, h: Hash, ghost record: Record)
      requires IsTable(table) && current in segments && offset == |segments[current]| + |pending|
      requires |epi| % 44 == 0 && ParseIndex(epi) == index && h !in index && MapsOk(maps, segments, current)
      requires EntryFits(IndexEntry(current, offset, |bytes|))
      requires Sound(H, Grow(Written(segments, current, pending), current, bytes),
                     index[h := IndexEntry(current, offset, |bytes|)], objects[h := record], current)
      modifies this`segments, this`pending, this`epi, this`index, this`offset, this`dirty, this`objects
      ensures Consistent() && objects == old(objects)[h := record]
      ensures Next() == Place(old(current), old(offset) + |bytes|)
    {
      WriteEntry(bytes, h);
      objects := objects[h := record];
    }

    /** The bytes, their index entry and the new offset, whatever the bytes are. */
    method WriteEntry(bytes: seq<byte>, h: Hash)
      requires current in segments && offset == |segments[current]| + |pending|
      requires |epi| % 44 == 0 && ParseIndex(epi) == index && h !in index
      requires EntryFits(IndexEntry(current, offset, |bytes|))
      modifies this`segments, this`pending, this`epi, this`index, this`offset, this`dirty
      ensures current in segments && offset == |segments[current]| + |pending| && dirty
      ensures Written(segments, current, pending) == Grow(old(Written(segments, current, pending)), current, bytes)
      ensures segments.Keys == old(segments).Keys
      ensures forall s :: s in segments && s != current ==> segments[s] == old(segments)[s]
      ensures |epi| % 44 == 0 && ParseIndex(epi) == index
      ensures index == old(index)[h := IndexEntry(current, old(offset), |bytes|)]
      ensures offset == old(offset) + |bytes|
    {
      var entry := IndexEntry(current, offset, |bytes|);
      WriteBuffered(bytes);
      InsertEntry(h, entry);
      offset := offset + |bytes|;
      dirty := true;
    }

    /** Drops the mapped segments with the lowest ids while at least `limit` are mapped. */
    method EvictMaps(limit: nat)
      requires MapsOk(maps, segments, current)
      modifies this`maps
      ensures MapsOk(maps, segments, current) && (|maps| < limit || maps == map[])
    {
      while |maps| >= limit && maps != map[]
        invariant MapsOk(maps, segments, current)
        decreases |maps|
      {
        var oldest := LowestKey(maps);
        maps := maps - {oldest};
      }
    }

    method EnsureMmap(segment: nat) returns (bytes: seq<byte>)
      requires MapsOk(maps, segments, current) && segment in segments && segment < current && mmapCap > 0
      modifies this`maps
      ensures MapsOk(maps, segments, current) && bytes == segments[segment]
    {
      if segment !in maps {
        EvictMaps(mmapCap);
        maps := maps[segment := segments[segment]];
      }
      bytes := maps[segment];
    }

    /** The bytes of an index entry, from a map or from the file. */
    method ReadRecordBytes(e: IndexEntry) returns (bytes: seq<byte>)
      requires Valid() && Inside(Written(segments, current, pending), e) && e.segment <= current
      modifies this`segments, this`pending, this`maps
      ensures Valid() && Written(segments, current, pending) == old(Written(segments, current, pending))
      ensures bytes == BytesAt(Written(segments, current, pending), e)
    {
      if e.segment == current {
        FlushWriter();
      }
      if mmapCap > 0 && e.segment != current {
        var mapped := EnsureMmap(e.segment);
        if e.offset + e.length <= |mapped| {
          return mapped[e.offset..e.offset + e.length];
        }
      }
      var file := segments[e.segment];
      bytes := file[e.offset..e.offset + e.length];
    }

    /** Looks up a record: from the cache, or through the index, decoded and verified. */
    method GetPayload(h: Hash) returns (r: Result<Record>)
      requires Valid()
      modifies this`segments, this`pending, this`maps, cache
      ensures Valid() && r == Fetch(objects, h)
    {
      if h in cache.entries {
        return Ok(cache.entries[h]);
      }
      if h !in index {
        return Err(NotFound(h));
      }
      var rec :- ReadIndexed(h);
      Remember(h, rec);
      return Ok(rec);
    }

    /** Reads and verifies the record at an index entry. */
    method ReadIndexed(h: Hash) returns (r: Result<Record>)
      requires Valid() && h in index
      modifies this`segments, this`pending, this`maps
      ensures Valid() && r == Fetch(objects, h)
    {
      ReadBack(H, Written(segments, current, pending), index, objects, h);
      var bytes := ReadRecordBytes(index[h]);
      r := DecodeRecordBytes(H, table, bytes);
    }

    method Remember(h: Hash, record: Record)
      requires cache.Valid() && CacheOk(cache.entries, objects) && Fetch(objects, h) == Ok(record)
      modifies cache
      ensures cache.Valid() && CacheOk(cache.entries, objects)
    {
      cache.Insert(h, record);
    }

    method SetObjectCacheCap(limit: nat)
      requires Valid()
      modifies this`cache
      ensures Valid() && fresh(cache)
    {
      cache := new LruMap(limit);
    }

    method SetMmapCap(limit: nat)
      requires Valid()
      modifies this`maps, this`mmapCap
      ensures Valid() && (|maps| <= mmapCap || maps == map[]) && mmapCap == limit
    {
      mmapCap := limit;
      EvictMaps(limit + 1);
    }

    /** Opening the store again: everything in memory is rebuilt from the files. */
    method Reopen() returns (r: Result<()>)
      requires Valid() && pending == []
      modifies this`index, this`current, this`offset, this`dirty, this`cache, this`maps, this`mmapCap
      ensures Valid() && fresh(cache) && r == Ok(()) && Next() == old(Next())
    {
      var newIndex, newCurrent := ScanFiles();
      index, current := newIndex, newCurrent;
      var file := segments[current];
      if |file| < HEADER_LEN || file[..4] != SEGMENT_MAGIC {
        return Err(Corrupt);
      }
      Reset(|file|);
      return Ok(());
    }

    method Reset(length: nat)
      modifies this`offset, this`dirty, this`cache, this`maps, this`mmapCap
      ensures offset == length && !dirty && maps == map[]
      ensures fresh(cache) && cache.Valid() && cache.entries == map[]
    {
      offset, dirty := length, false;
      cache := new LruMap(WRITE_CACHE_CAP);
      maps, mmapCap := map[], MMAP_SEGMENTS_CAP;
    }

    /** The index and the last segment id, read from the files alone. */
    method ScanFiles() returns (found: Index, latest: nat)
      requires Valid() && pending == []
      ensures found == index && latest == current
      ensures |segments[current]| >= HEADER_LEN && segments[current][..4] == SEGMENT_MAGIC
    {
      NothingPending(segments, current);
      found := OpenIndex(epi);
      latest := LatestSegment(segments);
    }
  }

  method LatestSegment(m: Log) returns (k: nat)
    requires m != map[]
    ensures k in m && forall s :: s in m ==> s <= k
  {
    k :| k in m;
    var todo := m.Keys - {k};
    while todo != {}
      invariant k in m && todo <= m.Keys && forall s :: s in m && s !in todo ==> s <= k
      decreases todo
    {
      var s :| s in todo;
      if s > k {
        k := s;
      }
      todo := todo - {s};
    }
  }

  /** The bytes of a record, which can be appended to the current segment. */
  method SealRecord(H: Hasher, table: seq<Words.Word>, record: Record,
                    ghost log: Log, ghost index: Index, ghost objects: Objects, ghost current: nat)
    returns (bytes: seq<byte>)
    requires IsTable(table) && Sound(H, log, index, objects, current) && H(record.payload) !in index
    requires 45 + |record.payload| < 0x1_0000_0000
    requires |log[current]| + 45 + |record.payload| <= MAX_BYTES || |log[current]| == HEADER_LEN
    ensures |bytes| == 45 + |record.payload|
    ensures var h := H(record.payload);
            Sound(H, Grow(log, current, bytes), index[h := IndexEntry(current, |log[current]|, |bytes|)],
                  objects[h := record], current)
  {
    AppendSound(H, log, index, objects, current, record);
    RecordLength(record, H(record.payload));
    bytes := EncodeRecordBytes(table, record, H(record.payload));
  }

  method LowestKey(m: Log) returns (k: nat)
    requires m != map[]
    ensures k in m && forall s :: s in m ==> k <= s
  {
    k :| k in m;
    var todo := m.Keys - {k};
    while todo != {}
      invariant k in m && todo <= m.Keys && forall s :: s in m && s !in todo ==> k <= s
      decreases todo
    {
      var s :| s in todo;
      if s < k {
        k := s;
      }
      todo := todo - {s};
    }
  }

  ghost predicate CacheOk(entries: map<Hash, Record>, objects: Objects) {
    forall h :: h in entries ==> h in objects && entries[h] == objects[h]
  }

  /** A mapped segment is sealed, and the map shows all of it. */
  ghost predicate MapsOk(maps: Log, segments: Log, current: nat) {
    forall s :: s in maps ==> s < current && s in segments && maps[s] == segments[s]
  }

  // Whole runs.

  datatype Op =
    | PutOp(ty: RecordType, payload: seq<byte>, now: nat)
    | GetOp(hash: Hash)
    | FlushOp
    | CacheOp(limit: nat)
    | MmapOp(limit: nat)
    | ReopenOp

  datatype Answer = Address(hash: Hash) | Found(record: Result<Record>) | Done | SegmentsFull

  /** What a plain map answers; a store whose last segment is full refuses a record that it does not hold yet. */
  predicate Answers(H: Hasher, objects: Objects, p: Place, op: Op, a: Answer) {
    match op
    case PutOp(_, payload, _) => a == if Refuses(H, objects, p, op) then SegmentsFull else Address(H(payload))
    case GetOp(h) => a == Found(Fetch(objects, h))
    case _ => a == Done
  }

  predicate Refuses(H: Hasher, objects: Objects, p: Place, op: Op)
    requires op.PutOp?
  {
    H(op.payload) !in objects && Full(p.segment, p.offset, op.payload)
  }

  function After(H: Hasher, objects: Objects, op: Op, a: Answer): Objects {
    if op.PutOp? && a.Address? then PutRecord(H, objects, Record(op.ty, op.payload)) else objects
  }

  /** The bytes an operation adds to the log. */
  function Added(H: Hasher, objects: Objects, op: Op): nat {
    if op.PutOp? && H(op.payload) !in objects then 45 + |op.payload| else 0
  }

  function PlaceAfter(H: Hasher, objects: Objects, p: Place, op: Op): Place {
    if op.PutOp? && H(op.payload) !in objects then Behind(p, 45 + |op.payload|) else p
  }

  /** Answers, states and places of a run: each follows from the one before. */
  ghost predicate History(H: Hasher, ops: seq<Op>, answers: seq<Answer>, states: seq<Objects>, places: seq<Place>) {
    && |answers| == |ops| && |states| == |places| == |ops| + 1
    && forall i :: 0 <= i < |ops| ==>
         && Answers(H, states[i], places[i], ops[i], answers[i])
         && states[i + 1] == After(H, states[i], ops[i], answers[i])
         && places[i + 1] == PlaceAfter(H, states[i], places[i], ops[i])
  }

  predicate OpFits(op: Op) {
    op.PutOp? ==> 45 + |op.payload| < 0x1_0000_0000
  }

  method Perform(store: CasStore, op: Op) returns (a: Answer)
    requires store.Valid() && OpFits(op)
    modifies store, store.cache
    ensures store.Valid() && (store.cache == old(store.cache) || fresh(store.cache))
    ensures Answers(store.H, old(store.objects), old(store.Next()), op, a)
    ensures store.objects == After(store.H, old(store.objects), op, a)
    ensures store.Next() == PlaceAfter(store.H, old(store.objects), old(store.Next()), op)
  {
    if op.PutOp? {
      a := PerformPut(store, op);
    } else if op.GetOp? {
      var r := store.GetPayload(op.hash);
      a := Found(r);
    } else {
      Maintain(store, op);
      a := Done;
    }
  }

  method PerformPut(store: CasStore, op: Op) returns (a: Answer)
    requires store.Valid() && OpFits(op) && op.PutOp?
    modifies store, store.cache
    ensures store.Valid() && store.cache == old(store.cache)
    ensures Answers(store.H, old(store.objects), old(store.Next()), op, a)
    ensures store.objects == After(store.H, old(store.objects), op, a)
    ensures store.Next() == PlaceAfter(store.H, old(store.objects), old(store.Next()), op)
  {
    var r := store.Put(op.ty, op.payload, op.now);
    match r {
      case Ok(h) => a := Address(h);
      case Err(_) => a := SegmentsFull;
    }
  }

  method Maintain(store: CasStore, op: Op)
    requires store.Valid() && !op.PutOp? && !op.GetOp?
    modifies store
    ensures store.Valid() && (store.cache == old(store.cache) || fresh(store.cache))
    ensures store.Next() == old(store.Next()) && store.objects == old(store.objects)
  {
    match op {
      case FlushOp => store.Flush();
      case CacheOp(limit) => store.SetObjectCacheCap(limit);
      case MmapOp(limit) => store.SetMmapCap(limit);
      case ReopenOp => FlushAndReopen(store);
    }
  }

  method FlushAndReopen(store: CasStore)
    requires store.Valid()
    modifies store
    ensures store.Valid() && fresh(store.cache)
    ensures store.Next() == old(store.Next()) && store.objects == old(store.objects)
  {
    store.Flush();
    var _ := store.Reopen();
  }

  /** Over every run the segmented store answers as one append-only map, until its last segment is full. */
  method Run(store: CasStore, ops: seq<Op>)
    returns (answers: seq<Answer>, ghost states: seq<Objects>, ghost places: seq<Place>)
    requires store.Valid() && forall op :: op in ops ==> OpFits(op)
    modifies store, store.cache
    ensures store.Valid() && History(store.H, ops, answers, states, places)
    ensures states[0] == old(store.objects) && states[|ops|] == store.objects
    ensures places[0] == old(store.Next()) && places[|ops|] == store.Next()
  {
    answers, states, places := [], [store.objects], [store.Next()];
    for i := 0 to |ops|
      invariant store.Valid() && (store.cache == old(store.cache) || fresh(store.cache))
      invariant History(store.H, ops[..i], answers, states, places)
      invariant states[0] == old(store.objects) && states[i] == store.objects
      invariant places[0] == old(store.Next()) && places[i] == store.Next()
    {
      var a := Perform(store, ops[i]);
      HistoryStep(store.H, ops, i, answers, states, places, a, store.objects, store.Next());
      answers, states, places := answers + [a], states + [store.objects], places + [store.Next()];
    }
    assert ops[..|ops|] == ops;
  }

  lemma HistoryStep(H: Hasher, ops: seq<Op>, i: nat, answers: seq<Answer>, states: seq<Objects>, places: seq<Place>,
                    a: Answer, next: Objects, place: Place)
    requires i < |ops| && History(H, ops[..i], answers, states, places)
    requires Answers(H, states[i], places[i], ops[i], a) && next == After(H, states[i], ops[i], a)
    requires place == PlaceAfter(H, states[i], places[i], ops[i])
    ensures History(H, ops[..i + 1], answers + [a], states + [next], places + [place])
  {
    assert ops[..i + 1] == ops[..i] + [ops[i]];
  }

  /** Nothing is ever lost or replaced in such a run. */
  lemma {:induction false} HistoryExtends(H: Hasher, ops: seq<Op>, answers: seq<Answer>, states: seq<Objects>,
                                          places: seq<Place>, i: nat, j: nat)
    requires History(H, ops, answers, states, places) && i <= j <= |ops|
    ensures Extends(states[i], states[j])
    decreases j - i
  {
    if i < j {
      HistoryExtends(H, ops, answers, states, places, i, j - 1);
      assert states[j] == After(H, states[j - 1], ops[j - 1], answers[j - 1]);
    }
  }

  // How much fits.

  /** What a segment can hold behind its header. */
  const ROOM: nat := 67_108_848

  /** The bytes added by the first `n` operations. */
  ghost function Total(H: Hasher, ops: seq<Op>, states: seq<Objects>, n: nat): nat
    requires n <= |ops| && n < |states|
  {
    if n == 0 then 0 else Total(H, ops, states, n - 1) + Added(H, states[n - 1], ops[n - 1])
  }

  /** Sealed segments are full: any two neighbours hold more than one segment can. */
  lemma {:induction false} SegmentsFilled(H: Hasher, ops: seq<Op>, answers: seq<Answer>, states: seq<Objects>,
                                          places: seq<Place>, n: nat)
    requires History(H, ops, answers, states, places) && n <= |ops| && places[0] == Place(0, HEADER_LEN)
    ensures places[n].offset >= HEADER_LEN
    ensures 2 * Total(H, ops, states, n) >= places[n].segment * ROOM + (places[n].offset - HEADER_LEN)
  {
    if n > 0 {
      SegmentsFilled(H, ops, answers, states, places, n - 1);
      Filled(places[n - 1], Added(H, states[n - 1], ops[n - 1]), Total(H, ops, states, n - 1));
      assert places[n] == PlaceAfter(H, states[n - 1], places[n - 1], ops[n - 1]);
    }
  }

  lemma Filled(p: Place, n: nat, total: nat)
    requires p.offset >= HEADER_LEN && 2 * total >= p.segment * ROOM + (p.offset - HEADER_LEN)
    ensures Behind(p, n).offset >= HEADER_LEN
    ensures 2 * (total + n) >= Behind(p, n).segment * ROOM + (Behind(p, n).offset - HEADER_LEN)
  {
    if Behind(p, n).segment == p.segment + 1 {
      assert (p.segment + 1) * ROOM == p.segment * ROOM + ROOM;
    }
  }

  /** A store that starts empty refuses nothing before 32768 times the room of a segment has been written to it. */
  lemma RefusedLate(H: Hasher, ops: seq<Op>, answers: seq<Answer>, states: seq<Objects>, places: seq<Place>, n: nat)
    requires History(H, ops, answers, states, places) && n < |ops| && places[0] == Place(0, HEADER_LEN)
    ensures answers[n] == SegmentsFull ==> Total(H, ops, states, n + 1) > 0x8000 * ROOM
  {
    SegmentsFilled(H, ops, answers, states, places, n);
  }
}
