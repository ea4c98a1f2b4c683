# A verified model of epochs

epochs is a content-addressed, version-controlled store: documents live in a persistent hash trie over an append-only
object store, commits form a graph of snapshots, branches and HEAD point into it, and EpochQL queries and changes it.
This project models its core in Dafny and proves what it is meant to guarantee. `dafny verify dfyconfig.toml` checks
everything.

## How it is built

- `Bytes`, `Words`, `Codec`: bytes, 32-bit words as lists of bits, little-endian fields, and the encoder and decoder
  objects.
- `Crc32`, `CrcPolynomial`, `CrcCheck`: the checksum, as a division of polynomials and by its check value.
- `Utf8Text`, `HamtNode`, `Records`, `Commits`, `Layouts`: the test for UTF-8, the binary layouts, and where each of their
  fields lies.
- `Slots`, `Tries`, `Listings`, `TrieMaps`, `MemCas`, `Hamt`: five-bit digits and child indexes; the trie as a value,
  what an insertion does to its listing, and when it is a finite map; the object store as a plain map; and the trie
  operations over stored nodes.
- `Lru`, `CasStore` (modules `Segments`, `CasStores`): the bounded cache and the segmented store, with buffer, index
  file, rotation, maps and reopening, proved to answer as the plain map.
- `Walks`, `PathOrder`, `Dag`, `Traversal`, `Patterns`, `MatchClause` (module `MatchClauses`): breadth-first search, its
  optimality and its order, graph searches, pattern matching, and MATCH clauses over a repository.
- `DiskStore` (module `DiskStores`), `StoreRuns`: commits, branches and HEAD as a state machine, and whole runs.
- `Documents`, `KeyTexts`, `PathIndex`, `SchemaLaws`, `Payloads`, `CommitFlow`: documents and their keys, secondary
  indexes, what schema statements declare, payloads, and a COMMIT from the puts to the document and the index roots.
- `Grammar`, `Parser` (modules `GrammarLaws`, `Parsers`), `Lexer`, `StateFile` (with `StateFileLaws`): the expression
  grammar and parser, string literals, and the text of schemas.

Code that changes state step by step is modelled by classes and methods with loops, each proved against a function; the
theorems are about those functions and about runs.

## What is taken as given

- The content hash is an arbitrary function `H`. Where its freedom from collisions matters, the hypothesis is stated on
  the records or keys of the run only (`CollisionFree`, `InjectiveOn`, `HashesApart`, `Honest`), and it includes that no
  payload is stored under two record types. Index maintenance also assumes that no record hashes to zero (`NoZero`).
- Lengths fit their fields where the program cuts them without a check; the codec theorems say exactly when.
- Decoding keys as text is an arbitrary function; where a document is compared with puts, it tells their keys apart, as it
  does for valid UTF-8 (`TextApart`).
- Timestamps are inputs. Files are byte strings, and refs are a map from branch names to hashes.
- An explicit PARENTS list is not empty. The program would stop on an empty one, because it reads the first parent.
- The tokens of the parser end with the end of input, and numbers come without a sign, as the lexer delivers them.

## Where the code does less than intended

- `expand_leaf_collision` returns the deeper node when two hashes share a digit, without a node for that digit, while
  lookup uses one digit per node. `TrieMaps.InsertRetrievable` states exactly when an insertion keeps everything
  retrievable, `TrieMaps.SharedDigitExample` is a concrete failure, and the flag `keep` of `Tries.Insert` is the variant
  that keeps the shared level, for which `TrieMaps.InsertIsUpdate` holds always. A later COMMIT can then read a document
  with a value that was replaced: `CommitFlow.CommitExact` states exactly when, `CommitFlow.StaleExample` is a case.
- Index maintenance falls back to the primary key of the old document. `PathIndex.InStepAfter` states exactly when the
  index is then out of step, `PathIndex.OutOfStepExample` is a concrete case, and `PathIndex.CommitsInStep` shows that
  commits never get there, because their documents hold strings and only grow.
- The text of a schema gives an index to the collection before the first dot of its name, and has no way to write an
  empty name or path. `StateFileLaws.StateRoundTrip` states exactly which schemas survive, and
  `StateFileLaws.DottedExample` and `StateFileLaws.EmptyPathExample` are two that do not.
- A node without a variable is named by an underscore and its position, and a variable can be spelled the same.
  `Patterns.AgreementIff` states exactly when names mean what variables mean, and `Patterns.GeneratedClash` is a match
  that is not found.
- Primary keys join the keys of their fields with the byte 0x1F, which a field may hold as well. `KeyTexts.JoinUnique`
  states exactly when the fields can be told from the join, and `KeyTexts.SharedKeyExample` is a key that two documents
  share.
- The nearest common ancestor depends on the order of the arguments once there are merges: `Dag.OrderMatters`.

## Model

| member | source | states |
|---|---|---|
| `Bytes.FromLEOfLE` | epochs-core/src/codec/encoder.rs:31-55 | Writing a number of any size to a field and reading it back yields the number modulo the width of the field, as the narrowing casts do |
| `Bytes.FieldRoundTrip` | epochs-core/src/codec/decoder.rs:29-61 | A field returns the number written to it if and only if the number fits the field |
| `Layouts.LittleEndian` | epochs-core/src/codec/encoder.rs:31-55 | Byte number i of a field is the i-th digit of the number to base 256 |
| `Codec.ByteEncoder.WriteUint` | epochs-core/src/codec/encoder.rs:31-55 | Appends exactly the little-endian bytes of the number and changes nothing already written |
| `Codec.ByteEncoder.WriteBytes` | epochs-core/src/codec/encoder.rs:57-64 | Appends the given bytes behind what was written |
| `Codec.ByteEncoder.WriteHashes` | epochs-core/src/commit.rs:79-81 | The loop over hashes appends their concatenation |
| `Codec.ByteDecoder.ReadSlice` | epochs-core/src/codec/decoder.rs:71-82 | Reads exactly the next bytes and moves behind them, or fails and leaves the cursor where it was when too few remain |
| `Codec.ByteDecoder.ReadNumber` | epochs-core/src/codec/decoder.rs:29-61 | Reads a little-endian field; a failed read does not move the cursor |
| `Codec.ByteDecoder.ReadOneHash` | epochs-core/src/codec/decoder.rs:63-69 | Reads 32 bytes as a hash; a failed read does not move the cursor |
| `Codec.ByteDecoder.ReadManyHashes` | epochs-core/src/commit.rs:108-112 | The loop reads the given number of hashes in order, failing exactly when the bytes run out |
| `Codec.ReadHashesAppend` | epochs-core/src/hamt/node.rs:30-36 | Hashes written one after the other read back as the same list and leave what follows |
| `HamtNode.Encode` | epochs-core/src/hamt/node.rs:28-44 | The encoder produces the layout of a bitmap or leaf node, with the length fields cut to their widths |
| `HamtNode.Decode` | epochs-core/src/hamt/node.rs:47-70 | The cursor-based decoder computes the decoding function, including its errors on short input and on a commit record |
| `HamtNode.DecodedFits` | epochs-core/src/hamt/node.rs:47-70 | Every node that decoding any bytes yields has the record type asked for and lengths within its fields |
| `HamtNode.NodeRoundTrip` | epochs-core/src/hamt/node.rs:28-70 | Decoding inverts encoding for a node if and only if its child count, key and value lengths fit their fields |
| `Layouts.BitmapLayout` | epochs-core/src/hamt/node.rs:28-44 | A bitmap node has its bitmap in bytes 0 to 3, the number of children in byte 4 and child i at byte 5 + 32 i |
| `Layouts.LeafLayout` | epochs-core/src/hamt/node.rs:28-44 | A leaf has the length of its key in two bytes, the key, the length of its value in four bytes and the value |
| `Crc32.TableEntry` | epochs-core/src/crc32.rs:5-18 | The eight-step loop computes the table entry that the bitwise division defines |
| `Crc32.BuildTable` | epochs-core/src/crc32.rs:3-21 | The table holds the entry of every byte |
| `Crc32.TableStep` | epochs-core/src/crc32.rs:26-29 | For every register and byte, one table lookup equals eight steps of the bit-by-bit reflected CRC-32 |
| `Crc32.Crc32Of` | epochs-core/src/crc32.rs:24-31 | The table-driven loop equals the bit-by-bit reflected CRC-32 (section 8 of RFC 1952) on every byte string |
| `Crc32.CrcFits` | epochs-core/src/crc32.rs:24-31 | The result is below 2^32 for every input |
| `CrcPolynomial.CrcIsRemainder` | epochs-core/src/crc32.rs:3-31 | The CRC of every message is the complement of the remainder of its bits, least significant first and the first 32 complemented, on division by x^32 + x^26 + x^23 + x^22 + x^16 + x^12 + x^11 + x^10 + x^8 + x^7 + x^5 + x^4 + x^2 + x + 1 |
| `CrcCheck.CheckValue` | epochs-core/src/crc32.rs:38-39 | The CRC of the digits 123456789 is 0xCBF43926 |
| `Crc32.BurstDetected` | epochs-core/src/crc32.rs:24-31 | Two inputs that differ only inside one window of at most four bytes never have the same CRC |
| `Slots.DigitIsBits` | epochs-core/src/hamt/tree.rs:151-164 | For depths 0 to 51 the two-byte window, shift and mask yield the depth-th group of five bits of the hash |
| `Slots.DigitIsBase32` | epochs-core/src/hamt/tree.rs:151-164 | For depths 0 to 51 the digit is that of the hash, read as a little-endian 256-bit number, in base 32 |
| `Slots.DigitsSeparate` | epochs-core/src/hamt/tree.rs:151-164 | Hashes that agree in their first 52 digits are equal |
| `Slots.RankInjective` | epochs-core/src/hamt/tree.rs:166-169 | Two branches that are present have different child indexes |
| `Slots.Select` | epochs-core/src/hamt/tree.rs:166-169 | Every child index belongs to a branch that is present, so the dense list has exactly one place per branch |
| `Slots.SlotReplace` | epochs-core/src/hamt/tree.rs:230-243 | Replacing the child at a branch's index changes the slot of that branch and of no other |
| `Slots.SlotAdd` | epochs-core/src/hamt/tree.rs:244-250 | Inserting at a new branch's index sets its slot, shifts the rest without changing any other slot, and keeps popcount and length equal |
| `Slots.SlotRemove` | epochs-core/src/hamt/tree.rs:101-128 | Removing a branch empties its slot and leaves every other slot as it was |
| `Slots.SlotPair` | epochs-core/src/hamt/tree.rs:283-292 | The two-branch node puts each child into the slot of its own branch, whichever order the branches have |
| `TrieMaps.GetIffEntry` | epochs-core/src/hamt/tree.rs:295-320 | In a trie whose leaves sit under the digits of their own key hashes, lookup finds a value if and only if the listing holds that pair |
| `TrieMaps.EntriesDistinct` | epochs-core/src/hamt/tree.rs:133-149 | Such a trie lists no key twice |
| `TrieMaps.PlacedSeparable` | epochs-core/src/hamt/tree.rs:193-281 | For a key whose hash differs from those of the other keys, the mutual recursion of insertion and leaf expansion ends |
| `Listings.InsertSplices` | epochs-core/src/hamt/tree.rs:193-293 | In every trie, whatever was dropped before, an insertion puts its pair into the listing at one place: over the pair that lookup finds, or between two others; all other pairs stay in order |
| `Listings.SpliceShown` | epochql/src/schema/path.rs:8-15 | Since the last pair of a key wins, such a pair shows unless a copy of its key is listed behind it, and no other key changes |
| `Listings.SpliceOnce` | epochs-core/src/hamt/tree.rs:193-293 | Keys stay listed once if and only if a key that is listed is found by lookup |
| `TrieMaps.InsertPlaced` | epochs-core/src/hamt/tree.rs:193-293 | Insertion keeps every leaf under its own digits if it does not take the equal-chunk return, and always in the variant that keeps one-bit bitmaps |
| `TrieMaps.RemovePlaced` | epochs-core/src/hamt/tree.rs:86-130 | Removal takes out the entry of the key, keeps all others, and keeps every leaf under its own digits |
| `TrieMaps.SharedDigitLoses` | epochs-core/src/hamt/tree.rs:271-281 | After the equal-chunk return at least one of the two colliding keys cannot be found by lookup |
| `TrieMaps.InsertRetrievable` | epochs-core/src/hamt/tree.rs:258-320 | An insertion leaves every listed entry retrievable if and only if it does not take the equal-chunk return |
| `TrieMaps.SharedDigitExample` | epochs-core/src/hamt/tree.rs:271-281 | A concrete hash function, trie and key for which insertion makes an entry unretrievable |
| `TrieMaps.CostBound` | epochs-core/src/hamt/tree.rs:193-293 | An insertion writes at most two nodes more than there are bitmap nodes on its path, and at most 53 |
| `TrieMaps.GetIsLookup` | epochs-core/src/hamt/tree.rs:295-320 | Lookup in a trie that denotes a map is lookup in that map |
| `TrieMaps.InsertIsUpdate` | epochs-core/src/hamt/tree.rs:193-293 | Insertion denotes the update of the map unless it takes the equal-chunk return; the variant that keeps shared levels always does |
| `TrieMaps.RemoveIsDeletion` | epochs-core/src/hamt/tree.rs:74-130 | Removal denotes deletion from the map and yields no root if and only if the map becomes empty |
| `TrieMaps.EntriesListMap` | epochs-core/src/hamt/tree.rs:133-149 | The listing holds every pair of the denoted map once and nothing else |
| `MemCas.Cas.Put` | epochs-core/src/cas/mem.rs:31-37 | Returns the content hash and adds the record unless the address is taken, in which case the first record stays |
| `MemCas.Cas.GetRecord` | epochs-core/src/cas/mem.rs:39-44 | Returns the stored record, or an error naming the missing hash |
| `MemCas.PutKeeps` | epochs-core/src/cas/mem.rs:31-44 | Among records without collisions a stored record is found under its address and nothing stored before changes |
| `Hamt.LoadTrie` | epochs-core/src/hamt/tree.rs:188-191 | Loading the root of a stored trie yields that trie's node with the hashes of its children |
| `Hamt.PersistLeaf` | epochs-core/src/hamt/tree.rs:178-181 | Stores the leaf under its hash, adding at most one object |
| `Hamt.PersistBitmap` | epochs-core/src/hamt/tree.rs:183-186 | Stores the bitmap node over stored children, adding at most one object |
| `Hamt.GetInternal` | epochs-core/src/hamt/tree.rs:295-320 | The recursion over stored nodes computes lookup in the trie that the root stands for |
| `Hamt.LeafHashInternal` | epochs-core/src/hamt/tree.rs:322-347 | Returns the address of the leaf holding the key exactly when lookup finds the key |
| `Hamt.CollectEntries` | epochs-core/src/hamt/tree.rs:133-149 | Appends exactly the entries of the trie, left to right, to the output list |
| `Hamt.InsertInternal` | epochs-core/src/hamt/tree.rs:193-256 | Stores the trie with the pair inserted, changes nothing stored before and adds no more objects than the insertion's cost |
| `Hamt.InsertIntoBitmap` | epochs-core/src/hamt/tree.rs:225-251 | The bitmap branch stores the fork with the child on the key's branch replaced or added |
| `Hamt.ReplaceChild` | epochs-core/src/hamt/tree.rs:241-243 | Stores the fork with one child replaced; the other children stay stored |
| `Hamt.AddBranch` | epochs-core/src/hamt/tree.rs:245-249 | Stores the fork with a new leaf on a branch that was empty, with at most two new objects |
| `Hamt.ExpandLeafCollision` | epochs-core/src/hamt/tree.rs:258-293 | Stores the expansion of two leaves, dropping shared digits as written, with at most two new objects |
| `Hamt.PairUp` | epochs-core/src/hamt/tree.rs:283-292 | Two leaves on different branches are stored under one bitmap, in branch order |
| `Hamt.RemoveInternal` | epochs-core/src/hamt/tree.rs:86-130 | Stores the trie with the key removed, or reports that nothing is left, and changes nothing stored before |
| `Hamt.DropChild` | epochs-core/src/hamt/tree.rs:110-122 | Stores the fork without one branch, or reports that no child is left |
| `Hamt.Insert` | epochs-core/src/hamt/tree.rs:24-33 | From a root and a key, the new root stands for the trie with the pair inserted; earlier records stay |
| `Hamt.Remove` | epochs-core/src/hamt/tree.rs:74-84 | From a root and a key, the new root stands for the trie without the key, and there is none when nothing is left |
| `Hamt.Get` | epochs-core/src/hamt/tree.rs:35-46 | Lookup by root is lookup in the map that the root denotes |
| `Hamt.LeafHash` | epochs-core/src/hamt/tree.rs:48-59 | The leaf hash of a key is the hash of the leaf for its value in the denoted map, or none |
| `Hamt.Entries` | epochs-core/src/hamt/tree.rs:61-72 | The listing by root holds each pair of the denoted map exactly once |
| `Hamt.CleanRunDenotes` | epochs-core/src/hamt/tree.rs:86-149 | In every run of inserts and removes from the empty root without an equal-chunk return, the i-th trie denotes the map built by the first i updates |
| `Hamt.RunUpdates` | epochs-core/src/hamt/tree.rs:193-293 | Over a whole such run every root ever returned still denotes its own map at the end |
| `Hamt.RootsPersist` | epochs-core/src/cas/mem.rs:31-37 | Roots keep standing for the same tries in every later state of the store |
| `Lru.LruMap.constructor` | epochs-core/src/cache.rs:15-22 | A bounded map starts empty with a capacity of at least one |
| `Lru.LruMap.Insert` | epochs-core/src/cache.rs:32-47 | The new pair is cached, nothing else is invented, the size stays within the bound, and the oldest insertion gives way when full |
| `Records.RecordRoundTrip` | epochs-core/src/cas/record.rs:55-108 | Decoding inverts encoding of a record if and only if the payload length fits 32 bits |
| `Layouts.RecordLayout` | epochs-core/src/cas/record.rs:55-66 | A record is EPCL, the type in one byte, the length in four, the hash, the payload and the CRC of all behind EPCL |
| `Layouts.HeaderLayout` | epochs-core/src/cas/record.rs:110-119 | A segment header is EPSG, the identifier in four bytes and the time in eight |
| `Records.TamperDetected` | epochs-core/src/cas/record.rs:69-108 | Damage inside any window of four bytes of the hash or payload of a record is always reported as a CRC mismatch |
| `Records.EncodeRecordBytes` | epochs-core/src/cas/record.rs:55-66 | The encoder writes magic, type, length, hash, payload and the CRC of everything behind the magic |
| `Records.DecodeRecordBytes` | epochs-core/src/cas/record.rs:69-108 | The cursor-based decoder computes the decoding function with each of its errors |
| `Records.VerifyRecord` | epochs-core/src/cas/record.rs:89-107 | Reports a wrong CRC before a wrong hash, and otherwise returns the record |
| `Records.EntryRoundTrip` | epochs-core/src/cas/index.rs:107-132 | Decoding inverts encoding of an index entry if and only if segment, offset and length fit 16, 48 and 32 bits |
| `Layouts.EntryLayout` | epochs-core/src/cas/index.rs:107-116 | An index entry is the hash and two, six and four bytes for segment, offset and length |
| `Records.ParseAppend` | epochs-core/src/cas/index.rs:34-83 | Appending an entry to an index file of whole slots makes opening it yield the same index with that entry added |
| `Records.OpenIndex` | epochs-core/src/cas/index.rs:34-60 | The loop over 44-byte slots computes the index that the file stands for, ignoring a partial last slot |
| `Segments.AppendSound` | epochs-core/src/cas/store.rs:110-138 | Appending a record that fits, or that starts a segment, keeps every index entry on its own decodable bytes, every start below 64 MiB and only lone records in overfull segments |
| `Segments.RotateSound` | epochs-core/src/cas/store.rs:269-283 | Starting a new segment keeps the log sound |
| `Segments.ReadBack` | epochs-core/src/cas/store.rs:158-174 | The bytes at an index entry decode and verify to the stored record |
| `CasStores.CasStore.constructor` | epochs-core/src/cas/store.rs:58-79 | A store opened on an empty directory has one segment with its header and holds nothing |
| `CasStores.CasStore.Put` | epochs-core/src/cas/store.rs:110-138 | Behaves as storing in a plain map, rotating when the segment is full; fails if and only if the payload is new and the last possible segment, number 65,535, has no room for it, and then changes nothing stored |
| `CasStores.CasStore.Append` | epochs-core/src/cas/store.rs:118-134 | Writing the bytes and the index entry adds exactly that record and keeps the log, the index and its file in agreement |
| `CasStores.CasStore.WriteEntry` | epochs-core/src/cas/store.rs:122-134 | The written segments grow by exactly the bytes, the index by one entry pointing at them, and the index file keeps standing for the index |
| `CasStores.CasStore.AppendCached` | epochs-core/src/cas/store.rs:118-137 | Writing and caching a new record adds exactly that record to what is stored |
| `CasStores.CasStore.Flush` | epochs-core/src/cas/store.rs:141-155 | Moves all buffered bytes to disk and keeps what is stored |
| `CasStores.CasStore.RotateSegment` | epochs-core/src/cas/store.rs:269-283 | Opens the next segment unless the last identifier is in use, keeping what is stored |
| `CasStores.CasStore.NextSegment` | epochs-core/src/cas/store.rs:273-281 | The next identifier gets a file with nothing but its header, and all other segments stay |
| `CasStores.CasStore.EnsureSegmentCapacity` | epochs-core/src/cas/store.rs:262-267 | A segment with room below 64 MiB is kept, and otherwise the next one is opened, where writing goes on behind the header; fails if and only if there is no room and no further identifier |
| `CasStores.CasStore.InsertEntry` | epochs-core/src/cas/index.rs:74-83 | Keeps the index and its file in agreement |
| `CasStores.CasStore.EnsureMmap` | epochs-core/src/cas/store.rs:235-260 | Returns the bytes of the sealed segment, evicting other maps as needed |
| `CasStores.CasStore.EvictMaps` | epochs-core/src/cas/store.rs:248-254 | Maps are dropped until fewer than the bound remain, and those left still show their segments |
| `CasStores.CasStore.ReadRecordBytes` | epochs-core/src/cas/store.rs:206-232 | Reads the bytes of an index entry, also when they are still buffered, from a map or from the file |
| `CasStores.CasStore.ReadIndexed` | epochs-core/src/cas/store.rs:163-169 | Reading and verifying at an index entry answers as the plain map, and never fails on an indexed hash |
| `CasStores.CasStore.GetPayload` | epochs-core/src/cas/store.rs:158-174 | Answers exactly as the plain map, from the cache or through index, segment and decoder |
| `CasStores.CasStore.SetObjectCacheCap` | epochs-core/src/cas/store.rs:82-84 | Resizing the object cache keeps what is stored |
| `CasStores.CasStore.SetMmapCap` | epochs-core/src/cas/store.rs:88-96 | Changing the number of mapped segments keeps what is stored and evicts down to the bound |
| `CasStores.CasStore.Reopen` | epochs-core/src/cas/store.rs:58-79 | Opening again after a flush rebuilds index, segment and offset from the files and keeps what is stored |
| `CasStores.CasStore.ScanFiles` | epochs-core/src/cas/store.rs:295-345 | The files alone give back the index and the last segment |
| `CasStores.LatestSegment` | epochs-core/src/cas/store.rs:295-310 | The loop finds the highest segment identifier |
| `CasStores.Perform` | epochs-core/src/cas/store.rs:58-283 | A single operation answers as the plain map, writes at the next place and no other, and reports full segments if and only if it puts a new payload for which the last segment has no room |
| `CasStores.Run` | epochs-core/src/cas/store.rs:58-283 | Over every run of put, get, flush, cache and map resizing and reopening after flush, the store answers as one append-only map and writes every record at its next place; a put is refused if and only if the payload is new and the last segment has no room for it |
| `CasStores.HistoryExtends` | epochs-core/src/cas/store.rs:110-138 | In such a run nothing is ever lost or replaced |
| `CasStores.SegmentsFilled` | epochs-core/src/cas/store.rs:262-283 | In every run from the empty store, segments are left only when full: two neighbours hold more than one segment can |
| `CasStores.RefusedLate` | epochs-core/src/cas/store.rs:262-283 | So nothing is refused before 32,768 times the room of a segment has been written, which is 2,199,022,731,264 bytes |
| `Walks.SearchComplete` | epochs-core/src/dag/algorithms.rs:21-30 | At every moment of a breadth-first search each walk ends at a commit listed no deeper than the walk is long, or is longer than the depth reached |
| `PathOrder.PathListed` | epochs-core/src/dag/algorithms.rs:21-30 | In a breadth-first search every path of parents leads to a commit listed under a path that is no later in the order by length and then by turns, or is longer than that of the next commit |
| `PathOrder.TurnAll` | epochs-core/src/dag/algorithms.rs:25-30 | Queueing the unvisited parents of the next commit keeps the listing in that order |
| `Dag.CollectAncestors` | epochs-core/src/dag/algorithms.rs:36-52 | Returns exactly the commits reachable over parents, itself included, and fails if and only if one of them is not stored |
| `Dag.IsAncestor` | epochs-core/src/dag/algorithms.rs:55-62 | Answers whether the one commit is reachable from the other; equal commits need no loading |
| `Dag.MergeBase` | epochs-core/src/dag/algorithms.rs:10-33 | Returns the common ancestor with the first path from the second argument, by length and then by the order of parents, and none if and only if there is no common ancestor. It fails if and only if the first history is incomplete or a missing commit has a path before every path to a common ancestor; equal arguments never fail |
| `Dag.FirstIsNearest` | epochs-core/src/dag/algorithms.rs:10-33 | That common ancestor is unique, and no common ancestor has fewer parent hops from the second argument |
| `Dag.PushNeighbours` | epochs-core/src/dag/algorithms.rs:25-30 | Queueing the unvisited parents of a commit, in their order, keeps the breadth-first search going, one commit further |
| `Dag.NearestIsSelf` | epochs-core/src/dag/algorithms.rs:10-33 | The merge base is the second argument if and only if that is an ancestor of the first |
| `Dag.NearestIsLowest` | epochs-core/src/dag/algorithms.rs:10-33 | In single-parent histories every common ancestor is an ancestor of the merge base |
| `Dag.NearestSymmetric` | epochs-core/src/dag/algorithms.rs:10-33 | In acyclic single-parent histories the order of the arguments does not matter |
| `Dag.OrderMatters` | epochs-core/src/dag/algorithms.rs:10-33 | A history with two merges in which the two orders of the arguments have different nearest common ancestors and none in common |
| `Dag.AncestorsWithinDepth` | epochs-core/src/dag/algorithms.rs:65-97 | Returns exactly the commits at parent distance 1 to the bound, once each, in non-decreasing distance; fails exactly when a commit it has to expand is missing |
| `Dag.ListLoop` | epochs-core/src/dag/algorithms.rs:70-95 | The loop lists the breadth-first order down to the bound without its start, or stops at the first missing commit above the bound |
| `Dag.PushDeeper` | epochs-core/src/dag/algorithms.rs:87-93 | Queueing unvisited parents with their depth keeps the bounded search going, one commit further |
| `Traversal.ReachableCommits` | epochs-core/src/store/disk.rs:205-221 | Returns exactly the commits reachable from some branch tip, and fails exactly when one of them is not stored |
| `Traversal.Collect` | epochs-core/src/store/disk.rs:208-219 | The loop for one tip adds exactly what is reachable from it, and fails exactly when something reachable is not stored |
| `Traversal.ChildrenMap` | epochs-core/src/store/disk.rs:224-234 | A commit is listed as a child of another exactly when it is among the given commits and has the other as a parent |
| `Traversal.ChildWalk` | epochs-core/src/store/disk.rs:224-234 | In the children map of commits closed under parents, a walk of any length is a walk over parents the other way round |
| `Traversal.ExpandEdge` | epochql/src/exec/engine.rs:398-440 | Ends, and returns exactly the commits other than the start joined to it by a walk of a permitted number of hops, also when walks of several lengths lead there |
| `Traversal.ChildHop` | epochql/src/exec/engine.rs:398-440 | An edge away from the root joins a commit exactly to its proper descendants at a permitted number of hops |
| `Traversal.PushHops` | epochql/src/exec/engine.rs:424-435 | Queueing neighbours per pair of commit and depth keeps the search over hop counts going |
| `Traversal.ShortestCommitPath` | epochql/src/exec/engine.rs:280-304 | Returns a path of fewest commits, where each step goes to a parent or to a child reachable from a branch. With complete histories it fails if and only if there is no such path, and it always fails when the history of a branch is incomplete |
| `Traversal.SearchPath` | epochql/src/exec/engine.rs:283-303 | The loop over given parents and children returns a path of fewest commits; an error means that there is none or that a commit is missing |
| `Traversal.BothComplete` | epochql/src/exec/engine.rs:280-304 | With a complete start and complete branches, everything reached over parents and children is stored |
| `Traversal.PushPaths` | epochql/src/exec/engine.rs:288-301 | Queueing longer paths to unvisited neighbours keeps every queued path a shortest one |
| `Patterns.TryBind` | epochql/src/exec/engine.rs:442-464 | A commit binds exactly when it loads and passes the filter of the node; it fails exactly when it does not load or the filter fails |
| `Patterns.BindFirst` | epochql/src/exec/engine.rs:326-350 | The first rows are those of the one-commit chains; it fails exactly when a commit of the universe is missing or its filter fails |
| `Patterns.ExtendRow` | epochql/src/exec/engine.rs:352-392 | One edge and node extend a row by exactly the commits that the hop relation joins, the filter accepts and repeated variables allow, each once; it fails exactly when the edge cannot be expanded or a commit it joins is missing or fails the filter with an error |
| `Patterns.Accepted` | epochql/src/exec/engine.rs:369-388 | Keeps exactly the candidates that load and pass the filter, each once |
| `Patterns.ExtendAll` | epochql/src/exec/engine.rs:352-392 | One step of the outer loop turns the rows of all chains into the rows of all chains that are one edge longer, and fails exactly when some chain cannot be extended without an error |
| `Patterns.BindAll` | epochql/src/exec/engine.rs:338-395 | The loop over edges and nodes yields the rows of all chains of the pattern, or an error exactly when the pattern is malformed or something it has to look at is missing or fails |
| `Patterns.MatchPattern` | epochql/src/exec/engine.rs:326-396 | The rows are exactly the rows of the chains of commits that satisfy the pattern, one row per chain and no row twice; it fails if and only if the pattern is malformed, or a commit that it has to look at is missing or a filter fails on it |
| `Patterns.RowInjective` | epochql/src/exec/engine.rs:326-396 | A row determines its chain |
| `Patterns.NamesApart` | epochql/src/exec/engine.rs:828-833 | If no variable is spelled like the name generated for an unnamed node, two places share a name only when they share a variable |
| `Patterns.AgreementIff` | epochql/src/exec/engine.rs:376-385 | Names ask for exactly the agreement that variables ask for if and only if no variable is spelled like the name generated for an unnamed node |
| `Patterns.ChainMeaning` | epochql/src/exec/engine.rs:326-396 | Under that condition chains are exactly the commits that pass the filters, are joined by the edges and agree wherever a variable is repeated |
| `Patterns.ClashingNever` | epochql/src/exec/engine.rs:326-396 | A pattern whose first node has the variable `_2` and whose second has none has no chain in any history |
| `Patterns.GeneratedClash` | epochql/src/exec/engine.rs:326-396 | A commit and its parent that such a pattern describes and the executor does not find |
| `MatchClauses.HopIsRelated` | epochql/src/exec/engine.rs:398-440 | Over the children map of the branches, an edge means parents or ancestors one way, and descendants that a branch reaches the other way |
| `MatchClauses.PlainEdges` | epochql/src/exec/engine.rs:405-411 | Edges without a multiplier join a commit to another that is a parent, a child on a branch, an ancestor over at most 64 parents, or a descendant on a branch as near |
| `MatchClauses.UpwardEdges` | epochql/src/exec/engine.rs:815-826 | With a multiplier, parent and ancestor edges lead upwards over exactly the hops it names, 1 and 64 where it names no bound |
| `MatchClauses.DownwardEdges` | epochql/src/exec/engine.rs:815-826 | With a multiplier, child and descendant edges lead to commits on a branch from which walks of those lengths lead back |
| `MatchClauses.AnswerableIsEvaluates` | epochql/src/exec/engine.rs:306-324 | With complete histories a pattern can fail only through a filter that fails on a commit it is asked about |
| `MatchClauses.MatchAll` | epochql/src/exec/engine.rs:318-323 | The loop over patterns collects the rows of all of them, or stops at one that fails |
| `MatchClauses.ExecMatch` | epochql/src/exec/engine.rs:306-324 | A MATCH returns the rows of its patterns, one for each chain that starts at an ancestor of the context or on a branch. It succeeds if and only if the histories of the context and of all branches are complete, every pattern is well formed and no filter fails on a commit it is asked about |
| `MatchClauses.WorkingFilters` | epochql/src/exec/engine.rs:306-324 | Filters that work on all commits of the universe never make a pattern fail |
| `MatchClauses.MatchMeaning` | epochql/src/exec/engine.rs:306-396 | Without a clash of names a match is what the pattern says, in terms of the parent graph alone |
| `Commits.EncodePayload` | epochs-core/src/commit.rs:75-96 | The encoder's loops produce the version 2 layout |
| `Commits.WriteRoots` | epochs-core/src/commit.rs:88-94 | The loop appends the layout of every index root in order |
| `Commits.DecodePayload` | epochs-core/src/commit.rs:99-142 | The cursor-based decoder computes the decoding function for both versions with each of its errors |
| `Commits.ReadRootsLoop` | epochs-core/src/commit.rs:122-134 | The loop reads the given number of index roots into an ordered map, failing on short input or text that is not UTF-8 |
| `Commits.DecodedFits` | epochs-core/src/commit.rs:99-142 | Every commit decoded from any bytes has lengths within its fields, UTF-8 texts and ordered index names |
| `Commits.InsertKeeps` | epochs-core/src/commit.rs:122-134 | Reading index roots in any order keeps the map ordered by name |
| `Commits.CommitRoundTrip` | epochs-core/src/commit.rs:75-142 | Decoding inverts encoding for a commit if and only if parents, message, index names and their number fit their fields |
| `Utf8Text.Utf8Iff` | epochs-core/src/commit.rs:117-127 | Exactly the byte strings that encode a sequence of Unicode scalar values (section 3 of RFC 3629) are accepted as text |
| `Commits.TextRoundTrip` | epochs-core/src/commit.rs:117-119 | A commit with any text as its message reads back if its lengths fit |
| `Layouts.CommitLayout` | epochs-core/src/commit.rs:75-96 | Version, parents, root, time, message and the number of index roots lie one behind the other, with the roots at the end |
| `Layouts.RootLayout` | epochs-core/src/commit.rs:88-94 | Each index root is the length of its name in two bytes, the name and the hash, followed by the others |
| `Commits.EncodingInjective` | epochs-core/src/commit.rs:75-148 | Different commits that fit have different payloads |
| `Commits.OldVersionReads` | epochs-core/src/commit.rs:99-142 | A version 1 payload decodes to the commit without index roots |
| `DiskStores.DecodedParents` | epochs-core/src/commit.rs:75-142 | Whatever the number of parents, a stored commit record decodes to a prefix of them, so parents of stored commits are stored |
| `DiskStores.NoCycle` | epochs-core/src/store/disk.rs:242-258 | If parents are stored strictly before their commits, no commit is its own ancestor |
| `DiskStores.CommitKept` | epochs-core/src/store/disk.rs:166-176 | Storing and caching a commit whose parents are stored keeps parents before children, tips stored, and the cache equal to the decoded records |
| `DiskStores.NodesKept` | epochs-core/src/store/disk.rs:261-289 | Writing any trie nodes keeps the same |
| `DiskStores.CommitReads` | epochs-core/src/store/disk.rs:153-176 | The address of a commit that fits loads that commit, absent hash collisions |
| `DiskStores.DiskStore.constructor` | epochs-core/src/store/disk.rs:85-113 | A new repository has one commit without parents, one branch on it, and HEAD on that branch |
| `DiskStores.DiskStore.LoadCommit` | epochs-core/src/store/disk.rs:153-164 | Absent hash collisions, loading with or without the cache yields what decoding the stored record yields, errors included |
| `DiskStores.DiskStore.PersistCommit` | epochs-core/src/store/disk.rs:166-176 | The commit is stored under its hash and nothing else of the state changes |
| `DiskStores.DiskStore.CommitWithIndexes` | epochs-core/src/store/disk.rs:242-258 | Succeeds exactly when every parent is stored, and otherwise changes nothing and names a missing parent |
| `DiskStores.DiskStore.CreateBranch` | epochs-core/src/store/disk.rs:349-354 | Adds the branch, or refuses a missing target or an existing name, in that order |
| `DiskStores.DiskStore.UpdateBranch` | epochs-core/src/store/disk.rs:356-361 | Moves the branch, or refuses a missing target or an unknown name, in that order |
| `DiskStores.DiskStore.DeleteBranch` | epochs-core/src/repo/manifest.rs:116-128 | Removes the branch, or refuses the one HEAD is on or an unknown name, in that order |
| `DiskStores.DiskStore.SetHead` | epochs-core/src/repo/manifest.rs:61-72 | Moves HEAD to an existing branch only |
| `DiskStores.DiskStore.ReadBranch` | epochs-core/src/repo/manifest.rs:75-86 | Returns the tip of an existing branch only |
| `DiskStores.DiskStore.ReadHead` | epochs-core/src/store/disk.rs:371-376 | Succeeds exactly when HEAD names an existing branch, with its name and tip |
| `DiskStores.DiskStore.ForgetCache` | epochs-core/src/store/disk.rs:58-62 | A new cache, on opening or reconfiguring, changes nothing that can be seen |
| `DiskStores.DiskStore.PutNodes` | epochs-core/src/store/disk.rs:261-289 | Any trie nodes are stored in turn; branches, HEAD and commits stay |
| `DiskStores.DiskStore.ResolveTarget` | epochql/src/exec/engine.rs:99-114 | Succeeds exactly when the reference means one stored hash: the tip of HEAD or of a branch, or the only object that a hash text matches |
| `DiskStores.DiskStore.ExecCommit` | epochql/src/exec/engine.rs:605-667 | Absent hash collisions it succeeds if and only if the roots could be written, HEAD names a branch, every given parent means one stored object and the first parent loads. It moves only the branch of HEAD, to a new commit with the given or default parents; on an error no branch moves and no commit is made |
| `DiskStores.DiskStore.CommitBase` | epochql/src/exec/engine.rs:606-621 | The branch to move is that of HEAD, and the parents are those given or its tip; absent hash collisions it succeeds if and only if they exist and the first loads |
| `DiskStores.DiskStore.GivenOrTip` | epochql/src/exec/engine.rs:611-619 | The given references resolve to their hashes in order, or the tip of HEAD stands in; an error means that some reference has no meaning |
| `DiskStores.DiskStore.CommitOn` | epochql/src/exec/engine.rs:657-661 | Stores the commit and moves the branch to it if and only if every parent is stored, and otherwise changes no branch |
| `DiskStores.DiskStore.ExecBranch` | epochql/src/exec/engine.rs:669-690 | Succeeds if and only if the name is new and the reference means a stored hash; creates the branch there, or changes nothing |
| `DiskStores.DiskStore.ExecCheckout` | epochql/src/exec/engine.rs:692-722 | Succeeds if and only if the branch or HEAD exists, or the hash text means a single object that loads as a commit (absent hash collisions); only a branch reference moves HEAD, and nothing else changes |
| `DiskStores.DiskStore.CheckoutCommit` | epochql/src/exec/engine.rs:712-719 | Absent hash collisions, checking out a commit succeeds if and only if the hash text means a single object that loads as a commit; it changes nothing that can be seen |
| `DiskStores.DiskStore.ExecMerge` | epochql/src/exec/engine.rs:724-758 | Absent hash collisions it succeeds if and only if the strategy is fast-forward, both references have a meaning, the target is a branch or HEAD, and the source is the target or descends from it with a complete history. It then moves exactly the named branch, forward; otherwise nothing changes |
| `DiskStores.DiskStore.FastForward` | epochql/src/exec/engine.rs:742-749 | Absent hash collisions it moves the branch if and only if the source is its tip or has the tip as an ancestor and a complete history; otherwise nothing changes |
| `DiskStores.DiskStore.CollectLoaded` | epochs-core/src/dag/algorithms.rs:36-52 | The ancestor search that loads commits through the cache collects exactly the reachable commits and fails if and only if one does not load, absent hash collisions |
| `DiskStores.DiskStore.IsAncestorLoaded` | epochs-core/src/dag/algorithms.rs:55-62 | Absent hash collisions, answers yes if and only if the commits are equal, or the one is an ancestor of the other and that history is complete |
| `StoreRuns.CommitForward` | epochql/src/exec/engine.rs:611-660 | A commit keeps the old tip in the history of the branch if and only if some parent has it, or the tip stays the same |
| `StoreRuns.Run` | epochs-core/src/store/disk.rs:85-361 | Over every run of store operations and statements, tips and parents are stored, the commit graph is acyclic in every state, and loads answer with the decoded record |
| `StoreRuns.Perform` | epochs-core/src/store/disk.rs:85-361 | Every single operation loses nothing, keeps HEAD on a branch, and moves branches forward unless told otherwise |
| `StoreRuns.RunLater` | epochs-core/src/repo/manifest.rs:61-128 | In every run nothing stored is lost and HEAD keeps naming an existing branch |
| `StoreRuns.TipHistory` | epochql/src/exec/engine.rs:605-758 | While a branch survives a run without explicit parents or direct moves, each of its old tips is an ancestor of its new tip |
| `Documents.ExtractPath` | epochql/src/schema/path.rs:22-39 | The loop computes the value under the whole path as a key, or else by walking the non-empty parts through nested maps |
| `Payloads.ExtractNested` | epochql/src/schema/path.rs:22-39 | A dotted path yields what the document has under the whole path, or else what nested maps hold at its end, name by name, and nothing otherwise |
| `Payloads.PartsConcat` | epochql/src/schema/path.rs:27-36 | A dot separates: the parts of a path are those before it and those after it, and empty ones do not count |
| `KeyTexts.IntegerText` | epochql/src/exec/value.rs:38 | The text stored for an integer is the one decimal numeral that reads as it |
| `KeyTexts.BoolTexts` | epochql/src/exec/value.rs:33-37 | Booleans are stored as the words true and false |
| `KeyTexts.TextsApart` | epochql/src/exec/value.rs:30-43 | Null, booleans and integers share a stored text only when they are equal |
| `KeyTexts.TextShared` | epochql/src/exec/value.rs:30-43 | A string or float shares the stored text of another value exactly when it spells that text |
| `KeyTexts.IndexKeyText` | epochql/src/schema/path.rs:42-55 | Everything but null and maps has an index key, which is its text |
| `Documents.PrimaryKeyBytes` | epochql/src/schema/index.rs:89-119 | The loops compute the primary key: the field keys joined by the unit separator, none if one is missing, the key of id without fields |
| `KeyTexts.KeyMissing` | epochql/src/schema/index.rs:89-119 | A primary key is missing exactly when some key field has no key; without key fields it is the key at `id` |
| `KeyTexts.KeySplits` | epochql/src/schema/index.rs:89-119 | Split at the byte 0x1F, a primary key gives back the keys of its fields in order, if none of them holds that byte |
| `KeyTexts.SameKey` | epochql/src/schema/index.rs:89-119 | Two such documents share a primary key if and only if the keys of all key fields agree |
| `KeyTexts.JoinUnique` | epochql/src/schema/index.rs:108-118 | The keys of two or more fields can be told from their join if and only if none of them holds the byte 0x1F |
| `KeyTexts.SharedKeyExample` | epochql/src/schema/index.rs:89-119 | Two documents with different fields and the same primary key |
| `Documents.PrimaryKeyStays` | epochql/src/schema/index.rs:89-119 | A document of strings that only grows keeps having a primary key |
| `Documents.IndexNameInjective` | epochql/src/schema/index.rs:12-15 | Two index names are equal if and only if their collections and the slugs of their paths are |
| `SchemaLaws.NameSpelled` | epochql/src/schema/index.rs:12-15 | An index is named by its collection, the text `.by_` and the slug of its path |
| `PathIndex.ApplyStatements` | epochql/src/schema/migrate.rs:108-169 | Schema statements are applied in turn up to the first error, and keep index names following from collection and path and never used twice |
| `SchemaLaws.IndexHistory` | epochql/src/schema/migrate.rs:108-169 | After any statements that succeed, a collection has an index with a path and type exactly when a statement created it and none dropped a path with the same slug since |
| `SchemaLaws.CollectionHistory` | epochql/src/schema/migrate.rs:108-169 | The collections are those created, each with the key fields it was created with |
| `SchemaLaws.StatementRefused` | epochql/src/schema/migrate.rs:108-169 | A statement is refused if and only if it creates a collection that exists, names one that does not, creates an index whose name is taken or drops one that is not there |
| `PathIndex.DeclaredOnce` | epochql/src/schema/migrate.rs:108-169 | In such a schema an index name belongs to one index of one collection |
| `PathIndex.InStepAfter` | epochql/src/schema/index.rs:36-70 | After a commit an index holds the pair of the new document if and only if the old primary key did not have to stand in for a missing new one while the indexed value exists |
| `PathIndex.OutOfStepExample` | epochql/src/schema/index.rs:36-37 | A concrete pair of documents for which the old primary key stays in the index |
| `PathIndex.CommitsInStep` | epochql/src/exec/engine.rs:636-655 | For documents of strings that only grow, as commits produce them, the index is always in step |
| `PathIndex.UpdateIndex` | epochql/src/schema/index.rs:39-70 | An index that was missing or in step with the old document afterwards holds exactly the pair of the commit or nothing, and no other index changes |
| `PathIndex.DropOld` | epochql/src/schema/index.rs:46-60 | Taking the old key out of an index that holds at most that key leaves no root |
| `PathIndex.PutNew` | epochql/src/schema/index.rs:64-70 | Putting a key into an index that holds at most that key leaves exactly the new pair |
| `PathIndex.UpdateCollection` | epochql/src/schema/index.rs:35-72 | The inner loop does so for every index of a collection |
| `PathIndex.KeepDeclared` | epochql/src/schema/index.rs:76-84 | Exactly the declared indexes stay, each with what it held |
| `PathIndex.UpdateIndexes` | epochql/src/schema/index.rs:22-87 | Under a non-empty schema every declared index afterwards holds exactly its pair or nothing and no undeclared index is left; an empty schema changes nothing |
| `PathIndex.LookupIndex` | epochql/src/schema/index.rs:122-137 | A lookup finds the primary key exactly when the value has the indexed key of the document |
| `PathIndex.LookupMeaning` | epochql/src/schema/index.rs:122-137 | For the pair of a document this is its primary key exactly when the value has the key found at the indexed path |
| `Payloads.PushPayloadOps` | epochql/src/exec/engine.rs:866-887 | The recursion over nested maps appends one put for each scalar under its dotted path |
| `Payloads.DottedBack` | epochql/src/exec/engine.rs:870-874 | Splitting a dotted path at its dots gives back its names |
| `Payloads.PayloadPuts` | epochql/src/exec/engine.rs:628-632 | The puts of a payload are exactly its scalars, each under its dotted path, and no key is put twice |
| `CommitFlow.PutsKeys` | epochs-core/src/store/disk.rs:261-273 | After any puts the listing shows exactly the old keys and the keys put, also where shared digits were dropped |
| `CommitFlow.PutShown` | epochs-core/src/hamt/tree.rs:193-293 | A put shows in the document unless a copy of its key is listed behind its place, and changes nothing else that shows |
| `CommitFlow.FlattenEntries` | epochql/src/schema/path.rs:8-15 | The loop builds the document of the listed entries, later entries winning |
| `CommitFlow.ReadDoc` | epochql/src/schema/index.rs:140-146 | The document of a root is that of its entries, an empty one for zero |
| `CommitFlow.DocGrows` | epochql/src/exec/engine.rs:639-648 | If every key stays listed, the new document has every key of the old one, and all values are strings |
| `CommitFlow.ApplyHamtOps` | epochs-core/src/store/disk.rs:261-273 | The loop of puts yields the root of the last trie, an empty one standing for zero |
| `CommitFlow.CommitDocument` | epochql/src/exec/engine.rs:621-660 | After a COMMIT every declared index holds exactly the pair of value at path and primary key of the new document when both exist, is absent otherwise, and no undeclared index remains |
| `CommitFlow.CommitExact` | epochql/src/exec/engine.rs:628-648 | For every run of puts the new document is the old one with the puts applied if and only if the last put of every key is not hidden, or puts the text that shows already |
| `CommitFlow.OnceIff` | epochql/src/exec/engine.rs:628-648 | From a root that lists keys once, every key is listed once after the puts if and only if each put finds its key by lookup when it is listed |
| `CommitFlow.OncePuts` | epochql/src/exec/engine.rs:628-648 | Under that condition the new document is the old one with the puts applied |
| `CommitFlow.CommitPuts` | epochql/src/exec/engine.rs:621-648 | In particular this is so from a root that denotes a map, if no put but the last takes the equal-chunk return |
| `CommitFlow.PutRead` | epochql/src/schema/path.rs:22-25 | Extracting the key of a last put from the new document yields its text if and only if the put is not hidden or puts what shows already |
| `CommitFlow.PayloadRead` | epochql/src/exec/engine.rs:628-648 | If every put takes, extracting the dotted path of a scalar of the payload yields that scalar as text |
| `CommitFlow.StaleExample` | epochs-core/src/hamt/tree.rs:271-281 | Three puts from the empty root after which the document still shows the value that the third put replaced |
| `GrammarLaws.Complete` | epochql/src/parser.rs:680-825 | Whatever the grammar derives at a level of precedence, the parser finds, leaving exactly the tokens behind it |
| `GrammarLaws.Sound` | epochql/src/parser.rs:680-825 | Whatever the parser returns, the tokens it consumed derive, and the next token does not carry the expression on |
| `GrammarLaws.ParserIsGrammar` | epochql/src/parser.rs:680-825 | The parser returns an expression and a remainder if and only if the grammar splits the tokens that way |
| `GrammarLaws.Unambiguous` | epochql/src/parser.rs:680-825 | No token sequence derives two expressions |
| `GrammarLaws.Precedence` | epochql/src/parser.rs:684-729 | OR binds less than AND, AND less than equality, and operators of one kind group to the left |
| `GrammarLaws.PrintDerives` | epochql/src/parser.rs:684-803 | Printing with parentheses by precedence, with any kind of word that may name a variable, yields a derivation of the expression at every level |
| `GrammarLaws.PrintParse` | epochql/src/parser.rs:680-825 | Every expression tree, printed and parsed, comes back and leaves exactly the following tokens |
| `Parsers.Parser.Bump` | epochql/src/parser.rs:125-131 | Moves forward by one token and never past the end of input |
| `Parsers.Parser.ParseOr` | epochql/src/parser.rs:684-696 | The loop over OR, with the cursor, computes the parse of its level or fails when that does |
| `Parsers.Parser.ParseAnd` | epochql/src/parser.rs:698-710 | The same for AND |
| `Parsers.Parser.ParseEquality` | epochql/src/parser.rs:712-729 | The same for equality and inequality |
| `Parsers.Parser.ParsePostfix` | epochql/src/parser.rs:731-742 | The same for property access |
| `Parsers.Parser.ParsePrimary` | epochql/src/parser.rs:744-803 | The same for literals, signed numbers, variables, parentheses and maps |
| `Parsers.Parser.ParseMapLiteral` | epochql/src/parser.rs:805-825 | The same for map literals, where the last value of a repeated key wins |
| `Parsers.Parser.ParsePairs` | epochql/src/parser.rs:809-821 | The loop over pairs computes the map, or fails when the grammar of pairs does |
| `Parsers.Parser.ParseQueryStatement` | epochql/src/parser.rs:326-366 | A query that parses has at least one clause and so has taken at least one token |
| `Parsers.Parser.ParseStatement` | epochql/src/parser.rs:175-185 | Every statement that parses has taken at least one token |
| `Parsers.Parser.ParseScript` | epochql/src/parser.rs:22-43 | Ends on every input; on success all tokens are taken, and the statements start at strictly increasing tokens, each after the first able to start a statement |
| `StateFile.ParseFile` | epochql/src/schema/registry.rs:75-170 | The line loop computes the schema that the directives build, or fails when one is malformed |
| `StateFile.ToStateFile` | epochql/src/schema/registry.rs:173-188 | The printer's loops produce the header and the lines of every collection |
| `StateFile.WriteCollection` | epochql/src/schema/registry.rs:175-186 | The loops write the collection, its keys and its indexes, one line each |
| `StateFileLaws.WordsSpelled` | epochql/src/schema/registry.rs:75-188 | The directives and type names of the file, letter by letter |
| `StateFileLaws.LinesSpelled` | epochql/src/schema/registry.rs:173-188 | The lines COLLECTION name, KEY path type and INDEX name PATH path TYPE type, with single spaces |
| `StateFileLaws.LineAccepted` | epochql/src/schema/registry.rs:79-166 | A line is accepted if and only if it is empty, a comment, or one of the three directives with all its words in place and a type name in any case |
| `StateFileLaws.StateRoundTrip` | epochql/src/schema/registry.rs:75-188 | For a schema built by statements, the text reads back as the schema if and only if all names and paths are non-empty and free of white space and no collection with indexes has a dot in its name |
| `StateFileLaws.DottedExample` | epochql/src/schema/registry.rs:75-188 | A concrete schema with a dotted collection name that does not survive |
| `StateFileLaws.EmptyPathExample` | epochql/src/schema/registry.rs:75-188 | A concrete schema with an empty index path that does not survive |
| `Lexer.Scanner.LexString` | epochql/src/lexer.rs:360-390 | The loop computes the value of a literal and stops behind its closing quote, failing when it does not end |
| `Lexer.LiteralIff` | epochql/src/lexer.rs:360-390 | A literal reads as a string if and only if it writes each character as itself or by a backslash, with n, t and r for newline, tab and return, up to the first bare quote |
| `Lexer.EscapeReadsBack` | epochs-cli/src/main.rs:219-232 | For every string, the literal made by the two replacements reads back as that string and leaves what follows |

## Left out

- Parsers.Parser.ParseQueryStatement: the query tree is not modelled, only that a clause is required and taken.
- Parsers.Parser.ParseStatement: the statement trees are not modelled, because they copy tokens into records; the
  branches are, to show that every statement moves the cursor forward. The trees are modelled for expressions.
- Parsers.Parser.ParseScript: which statements come out is not modelled, only where each starts and that all input is
  read.
- Most of the lexer: numbers, identifiers, comments and symbols. Only string literals are modelled.
- BLAKE3 and the parallel hashing threshold: the hash is an arbitrary function.
- Real files, fsync, mapping of memory and path handling; branch names with slashes are outside the model.
- Crash recovery: reopening is modelled after a completed flush only.
- The hexadecimal text of hashes: a commit reference is the set of hashes it can mean, and the kind of error for none or
  several is not told apart.
- The text of HEAD and of ref files: they are modelled as values.
- Timestamps as the program produces them, and the fsync interval.
- The server, its framing, JSON and base64; the command line except its escaping; the benchmarks.
- Query projection, expression evaluation, `values_eq`, labels and edge directions: the executor gives the last two no
  meaning. Node filters are arbitrary functions that may fail.
- Floats: a float is its decimal text in documents and a real number in expressions.
- The integer `-2^63` as an expression: the lexer has no token for its digits.
- The encoder pool: a fresh buffer stands for it.
- THREE_WAY and SQUASH merges and tags: the program rejects them, and so does the model.
- DIFF: it only reads and formats.
- White space other than that of ASCII in schema texts.
- DiskStores.DiskStore.ExecCommit: the trie nodes written and the new roots are arbitrary inputs there, so that its
  theorems hold for whatever the tries do; that they are the right ones is `CommitFlow.CommitDocument`.
- CommitFlow.CommitDocument: requires that no put meets a leaf whose remaining digits all agree with those of its own
  key, since the recursion would not end; what its document holds is `CommitFlow.CommitExact`.
- The evaluation of literal expressions: a payload is given as its scalars and fields, in the order of their names.
- Traversal.ExpandEdge: the direction of an edge and the labels of nodes have no effect, as in the program.
