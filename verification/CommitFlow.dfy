/** A COMMIT statement: the document and its indexes move on together. */
module CommitFlow {
  import opened Bytes
  import opened Words
  import opened Slots
  import opened MemCas
  import opened Tries
  import opened TrieMaps
  import opened Listings
  import opened Documents
  import opened PathIndex
  import opened Payloads
  import Hamt

  // Documents: the entries of a trie, with keys and values read as text.

  type Text = seq<byte> -> seq<byte>

  function Flatten(text: Text, es: seq<(Key, Value)>): Doc {
    if es == [] then map[] else
      var last := es[|es| - 1];
      Flatten(text, es[..|es| - 1])[text(last.0) := Str(text(last.1))]
  }

  method FlattenEntries(text: Text, es: seq<(Key, Value)>) returns (doc: Doc)
    ensures doc == Flatten(text, es)
  {
    doc := map[];
    for i := 0 to |es|
      invariant doc == Flatten(text, es[..i])
    {
      assert es[..i + 1][..i] == es[..i];
      doc := doc[text(es[i].0) := Str(text(es[i].1))];
    }
    assert es[..|es|] == es;
  }

  function DocOf(text: Text, t: Option<Trie>): Doc {
    match t
    case None => map[]
    case Some(t) => Flatten(text, Entries(t))
  }

  /** What the listing of a root shows: the last pair of each key. */
  function ShownBy(t: Option<Trie>): map<Key, Value> {
    match t
    case None => map[]
    case Some(t) => Shown(Entries(t))
  }

  /** The document holds each pair of the map, as text, and nothing else. */
  ghost predicate IsDocOf(text: Text, doc: Doc, m: map<Key, Value>) {
    && (forall k :: k in m ==> text(k) in doc && doc[text(k)] == Str(text(m[k])))
    && (forall d :: d in doc ==> exists k :: k in m && text(k) == d)
  }

  ghost predicate TextApart(text: Text, keys: set<Key>) {
    forall a, b :: a in keys && b in keys && text(a) == text(b) ==> a == b
  }

  lemma {:induction false} FlattenKeys(text: Text, es: seq<(Key, Value)>)
    ensures Strings(Flatten(text, es))
    ensures forall d :: d in Flatten(text, es) <==> exists k :: k in Shown(es) && text(k) == d
  {
    if es != [] {
      var front, last := es[..|es| - 1], es[|es| - 1];
      FlattenKeys(text, front);
      assert last.0 in Shown(es) && forall k :: k in Shown(front) ==> k in Shown(es);
    }
  }

  /** If texts tell the keys apart, the document of a listing is that of what it shows. */
  lemma {:induction false} FlattenShown(text: Text, es: seq<(Key, Value)>)
    requires TextApart(text, Shown(es).Keys)
    ensures IsDocOf(text, Flatten(text, es), Shown(es))
  {
    FlattenKeys(text, es);
    if es != [] {
      var front := es[..|es| - 1];
      assert Shown(front).Keys <= Shown(es).Keys;
      FlattenShown(text, front);
    }
  }

  lemma ShownDoc(text: Text, t: Option<Trie>)
    requires TextApart(text, ShownBy(t).Keys)
    ensures IsDocOf(text, DocOf(text, t), ShownBy(t))
  {
    if t.Some? {
      FlattenShown(text, Entries(t.value));
    }
  }

  lemma DocGrows(text: Text, t: Option<Trie>, t': Option<Trie>)
    requires ShownBy(t).Keys <= ShownBy(t').Keys
    ensures Strings(DocOf(text, t)) && Strings(DocOf(text, t')) && DocOf(text, t).Keys <= DocOf(text, t').Keys
  {
    if t'.Some? {
      FlattenKeys(text, Entries(t'.value));
    }
    if t.Some? {
      FlattenKeys(text, Entries(t.value));
      forall d | d in DocOf(text, t)
        ensures d in DocOf(text, t')
      {
        var k :| k in ShownBy(t) && text(k) == d;
        assert k in ShownBy(t').Keys;
      }
    }
  }

  // The statement.

  /** The tries of a run of puts. */
  ghost predicate Puts(H: Hasher, ops: seq<(Key, Value)>, ts: seq<Option<Trie>>) {
    && |ts| == |ops| + 1
    && forall i :: 0 <= i < |ops| ==>
         Hamt.CanInsert(H, ts[i], ops[i].0) && ts[i + 1] == Some(Hamt.Inserted(H, ts[i], ops[i].0, ops[i].1))
  }

  ghost predicate PutsFit(H: Hasher, ops: seq<(Key, Value)>, ts: seq<Option<Trie>>, U: iset<Record>) {
    && (forall i :: 0 <= i < |ops| ==> Hamt.EntryFits(ops[i].0, ops[i].1))
    && (forall i :: 0 <= i < |ts| ==> Hamt.NodesInRoot(H, ts[i], U))
  }

  // What a put shows.

  /** A copy of the key is listed behind the place where the put goes. */
  ghost predicate Hidden(H: Hasher, t: Option<Trie>, key: Key)
    requires Hamt.CanInsert(H, t, key)
  {
    t.Some? && Behind(Entries(t.value), Place(H, t.value, key, H(key), 0), Get(t.value, key, H(key), 0), key)
  }

  /** A put shows unless it is hidden, and changes nothing else that is shown. */
  lemma PutShown(H: Hasher, t: Option<Trie>, key: Key, value: Value)
    requires Hamt.CanInsert(H, t, key)
    ensures ShownBy(Some(Hamt.Inserted(H, t, key, value))) ==
            if Hidden(H, t, key) then ShownBy(t) else ShownBy(t)[key := value]
    ensures Hidden(H, t, key) ==> key in ShownBy(t)
  {
    match t {
      case None =>
        assert Shown([(key, value)]) == Shown([(key, value)][..0])[key := value];
      case Some(t) =>
        var es, at, got := Entries(t), Place(H, t, key, H(key), 0), Get(t, key, H(key), 0);
        InsertSplices(false, H, t, key, value, H(key), 0);
        SpliceShown(es, at, key, got, value);
        ShownKeys(es, key);
    }
  }

  function AfterPuts(m: map<Key, Value>, ops: seq<(Key, Value)>): map<Key, Value> {
    if ops == [] then m else
      var last := ops[|ops| - 1];
      AfterPuts(m, ops[..|ops| - 1])[last.0 := last.1]
  }

  /** The keys of a map and of puts into it. */
  ghost function KeysTouched(m: map<Key, Value>, ops: seq<(Key, Value)>): set<Key> {
    m.Keys + set op | op in ops :: op.0
  }

  lemma {:induction false} AfterPutsKeys(m: map<Key, Value>, ops: seq<(Key, Value)>)
    ensures AfterPuts(m, ops).Keys == KeysTouched(m, ops)
  {
    if ops != [] {
      var front, last := ops[..|ops| - 1], ops[|ops| - 1];
      AfterPutsKeys(m, front);
      assert ops == front + [last];
    }
  }

  /** Puts show exactly the keys put and the keys that were there. */
  lemma {:induction false} PutsKeys(H: Hasher, ops: seq<(Key, Value)>, ts: seq<Option<Trie>>, n: nat)
    requires Puts(H, ops, ts) && n <= |ops|
    ensures ShownBy(ts[n]).Keys == AfterPuts(ShownBy(ts[0]), ops[..n]).Keys
    ensures ShownBy(ts[0]).Keys <= ShownBy(ts[n]).Keys
  {
    if n > 0 {
      PutsKeys(H, ops, ts, n - 1);
      PutShown(H, ts[n - 1], ops[n - 1].0, ops[n - 1].1);
      assert ops[..n][..n - 1] == ops[..n - 1];
    }
  }

  /** No later put has the same key. */
  predicate LastPut(ops: seq<(Key, Value)>, i: nat, n: nat)
    requires i < n <= |ops|
  {
    forall j :: i < j < n ==> ops[j].0 != ops[i].0
  }

  /** What the listing shows for the key of the last put: the value, or what it showed before. */
  lemma {:induction false} LastPutShown(H: Hasher, ops: seq<(Key, Value)>, ts: seq<Option<Trie>>, i: nat, n: nat)
    requires Puts(H, ops, ts) && i < n <= |ops| && LastPut(ops, i, n)
    ensures var key := ops[i].0;
            && key in ShownBy(ts[n]) && (Hidden(H, ts[i], key) ==> key in ShownBy(ts[i]))
            && ShownBy(ts[n])[key] == if Hidden(H, ts[i], key) then ShownBy(ts[i])[key] else ops[i].1
    decreases n
  {
    PutShown(H, ts[n - 1], ops[n - 1].0, ops[n - 1].1);
    if i < n - 1 {
      LastPutShown(H, ops, ts, i, n - 1);
    }
  }

  lemma {:induction false} LastPutMeant(m: map<Key, Value>, ops: seq<(Key, Value)>, i: nat, n: nat)
    requires i < n <= |ops| && LastPut(ops, i, n)
    ensures ops[i].0 in AfterPuts(m, ops[..n]) && AfterPuts(m, ops[..n])[ops[i].0] == ops[i].1
    decreases n
  {
    assert ops[..n][..n - 1] == ops[..n - 1];
    if i < n - 1 {
      LastPutMeant(m, ops, i, n - 1);
    }
  }

  lemma {:induction false} NoPutShown(H: Hasher, ops: seq<(Key, Value)>, ts: seq<Option<Trie>>, n: nat, key: Key)
    requires Puts(H, ops, ts) && n <= |ops| && forall i :: 0 <= i < n ==> ops[i].0 != key
    ensures key in ShownBy(ts[n]) <==> key in ShownBy(ts[0])
    ensures key in AfterPuts(ShownBy(ts[0]), ops[..n]) <==> key in ShownBy(ts[0])
    ensures key in ShownBy(ts[0]) ==>
              ShownBy(ts[n])[key] == ShownBy(ts[0])[key] == AfterPuts(ShownBy(ts[0]), ops[..n])[key]
  {
    if n > 0 {
      NoPutShown(H, ops, ts, n - 1, key);
      assert ops[..n][..n - 1] == ops[..n - 1];
      PutShown(H, ts[n - 1], ops[n - 1].0, ops[n - 1].1);
    }
  }

  lemma {:induction false} FindLastPut(ops: seq<(Key, Value)>, i: nat, n: nat) returns (j: nat)
    requires i < n <= |ops|
    ensures j < n && ops[j].0 == ops[i].0 && LastPut(ops, j, n)
    decreases n - i
  {
    if LastPut(ops, i, n) {
      j := i;
    } else {
      var l :| i < l < n && ops[l].0 == ops[i].0;
      j := FindLastPut(ops, l, n);
    }
  }

  /** The put is not hidden, or the text it puts is shown already. */
  ghost predicate Takes(H: Hasher, text: Text, t: Option<Trie>, op: (Key, Value))
    requires Hamt.CanInsert(H, t, op.0)
  {
    Hidden(H, t, op.0) ==> op.0 in ShownBy(t) && text(ShownBy(t)[op.0]) == text(op.1)
  }

  /** The last put of every key takes. */
  ghost predicate LastPutsTake(H: Hasher, text: Text, ops: seq<(Key, Value)>, ts: seq<Option<Trie>>)
    requires Puts(H, ops, ts)
  {
    forall i :: 0 <= i < |ops| && LastPut(ops, i, |ops|) ==> Takes(H, text, ts[i], ops[i])
  }

  lemma SameText(H: Hasher, text: Text, ops: seq<(Key, Value)>, ts: seq<Option<Trie>>, key: Key)
    requires Puts(H, ops, ts) && LastPutsTake(H, text, ops, ts)
    requires key in ShownBy(ts[|ops|]) && key in AfterPuts(ShownBy(ts[0]), ops)
    ensures text(ShownBy(ts[|ops|])[key]) == text(AfterPuts(ShownBy(ts[0]), ops)[key])
  {
    var n := |ops|;
    assert ops[..n] == ops;
    if i :| 0 <= i < n && ops[i].0 == key {
      var j := FindLastPut(ops, i, n);
      LastPutShown(H, ops, ts, j, n);
      LastPutMeant(ShownBy(ts[0]), ops, j, n);
      assert Takes(H, text, ts[j], ops[j]);
    } else {
      NoPutShown(H, ops, ts, n, key);
    }
  }

  lemma OtherText(H: Hasher, text: Text, ops: seq<(Key, Value)>, ts: seq<Option<Trie>>) returns (key: Key)
    requires Puts(H, ops, ts) && !LastPutsTake(H, text, ops, ts)
    ensures key in ShownBy(ts[|ops|]) && key in AfterPuts(ShownBy(ts[0]), ops)
    ensures text(ShownBy(ts[|ops|])[key]) != text(AfterPuts(ShownBy(ts[0]), ops)[key])
  {
    assert ops[..|ops|] == ops;
    var i :| 0 <= i < |ops| && LastPut(ops, i, |ops|) && !Takes(H, text, ts[i], ops[i]);
    LastPutShown(H, ops, ts, i, |ops|);
    LastPutMeant(ShownBy(ts[0]), ops, i, |ops|);
    key := ops[i].0;
  }

  /** One document is that of two maps with the same keys exactly when their values have the same texts. */
  lemma TwoMaps(text: Text, doc: Doc, m: map<Key, Value>, n: map<Key, Value>)
    requires IsDocOf(text, doc, m) && m.Keys == n.Keys
    ensures IsDocOf(text, doc, n) <==> forall k :: k in m && k in n ==> text(m[k]) == text(n[k])
  {
    assert forall k :: k in n <==> k in m.Keys;
  }

  /** The new document is the old one with the payload put in exactly when the last put of every key takes. */
  lemma CommitExact(H: Hasher, text: Text, ops: seq<(Key, Value)>, ts: seq<Option<Trie>>)
    requires Puts(H, ops, ts) && TextApart(text, KeysTouched(ShownBy(ts[0]), ops))
    ensures IsDocOf(text, DocOf(text, ts[|ops|]), AfterPuts(ShownBy(ts[0]), ops)) <==> LastPutsTake(H, text, ops, ts)
  {
    var shown, meant := ShownBy(ts[|ops|]), AfterPuts(ShownBy(ts[0]), ops);
    assert ops[..|ops|] == ops;
    PutsKeys(H, ops, ts, |ops|);
    AfterPutsKeys(ShownBy(ts[0]), ops);
    ShownDoc(text, ts[|ops|]);
    TwoMaps(text, DocOf(text, ts[|ops|]), shown, meant);
    if LastPutsTake(H, text, ops, ts) {
      forall k | k in shown && k in meant
        ensures text(shown[k]) == text(meant[k])
      {
        SameText(H, text, ops, ts, k);
      }
    } else {
      var k := OtherText(H, text, ops, ts);
    }
  }

  // Keys that are listed once.

  ghost predicate Once(t: Option<Trie>) {
    t.Some? ==> DistinctKeys(Entries(t.value))
  }

  /** Lookup finds the key if it is listed. */
  ghost predicate Found(H: Hasher, t: Option<Trie>, key: Key)
    requires t.Some? ==> Shape(t.value)
  {
    t.Some? && KeyListed(Entries(t.value), key) ==> Get(t.value, key, H(key), 0).Some?
  }

  ghost predicate AllFound(H: Hasher, ops: seq<(Key, Value)>, ts: seq<Option<Trie>>, n: nat)
    requires Puts(H, ops, ts) && n <= |ops|
  {
    forall i :: 0 <= i < n ==> Found(H, ts[i], ops[i].0)
  }

  lemma PutOnce(H: Hasher, t: Option<Trie>, key: Key, value: Value)
    requires Hamt.CanInsert(H, t, key)
    ensures Once(Some(Hamt.Inserted(H, t, key, value))) <==> Once(t) && Found(H, t, key)
    ensures Once(t) && Found(H, t, key) ==> !Hidden(H, t, key)
  {
    if t.Some? {
      var es, at, got := Entries(t.value), Place(H, t.value, key, H(key), 0), Get(t.value, key, H(key), 0);
      InsertSplices(false, H, t.value, key, value, H(key), 0);
      SpliceOnce(es, at, key, got, value);
      if Once(t) && Found(H, t, key) {
        OnceNotBehind(es, at, got, key);
      }
    }
  }

  /** Puts keep every key listed once exactly when lookup finds each key that is listed as it is put. */
  lemma {:induction false} OnceIff(H: Hasher, ops: seq<(Key, Value)>, ts: seq<Option<Trie>>, n: nat)
    requires Puts(H, ops, ts) && n <= |ops| && Once(ts[0])
    ensures Once(ts[n]) <==> AllFound(H, ops, ts, n)
  {
    if n > 0 {
      OnceIff(H, ops, ts, n - 1);
      PutOnce(H, ts[n - 1], ops[n - 1].0, ops[n - 1].1);
    }
  }

  /** Then nothing is hidden, and the document is right. */
  lemma OncePuts(H: Hasher, text: Text, ops: seq<(Key, Value)>, ts: seq<Option<Trie>>)
    requires Puts(H, ops, ts) && Once(ts[0]) && AllFound(H, ops, ts, |ops|)
    requires TextApart(text, KeysTouched(ShownBy(ts[0]), ops))
    ensures IsDocOf(text, DocOf(text, ts[|ops|]), AfterPuts(ShownBy(ts[0]), ops))
  {
    forall i | 0 <= i < |ops|
      ensures !Hidden(H, ts[i], ops[i].0)
    {
      OnceIff(H, ops, ts, i);
      PutOnce(H, ts[i], ops[i].0, ops[i].1);
    }
    CommitExact(H, text, ops, ts);
  }

  // From a root that denotes a map.

  /** The first `n` puts do not take the equal-chunk return. */
  ghost predicate CleanPuts(H: Hasher, ops: seq<(Key, Value)>, ts: seq<Option<Trie>>, n: nat)
    requires Puts(H, ops, ts) && n <= |ops|
  {
    forall i :: 0 <= i < n && ts[i].Some? ==> !SharesDigit(H, ts[i].value, ops[i].0, H(ops[i].0), 0)
  }

  lemma PutDenotes(H: Hasher, t: Option<Trie>, m: map<Key, Value>, key: Key, value: Value)
    requires Denotes(H, t, m) && Hamt.CanInsert(H, t, key) && InjectiveOn(H, m.Keys + {key})
    requires t.Some? ==> !SharesDigit(H, t.value, key, H(key), 0)
    ensures Denotes(H, Some(Hamt.Inserted(H, t, key, value)), m[key := value])
  {
    if t.Some? {
      InsertIsUpdate(false, H, t.value, m, key, value);
    }
  }

  lemma {:induction false} PutsDenote(H: Hasher, m: map<Key, Value>, ops: seq<(Key, Value)>,
                                      ts: seq<Option<Trie>>, n: nat)
    requires Puts(H, ops, ts) && n <= |ops| && CleanPuts(H, ops, ts, n)
    requires Denotes(H, ts[0], m) && InjectiveOn(H, KeysTouched(m, ops))
    ensures Denotes(H, ts[n], AfterPuts(m, ops[..n]))
    decreases n
  {
    if n > 0 {
      PutsDenote(H, m, ops, ts, n - 1);
      assert ops[..n][..n - 1] == ops[..n - 1] && ops[n - 1] in ops;
      AfterPutsKeys(m, ops[..n - 1]);
      var t, m', op := ts[n - 1], AfterPuts(m, ops[..n - 1]), ops[n - 1];
      assert m'.Keys + {op.0} <= KeysTouched(m, ops);
      PutDenotes(H, t, m', op.0, op.1);
    }
  }

  /** A trie that denotes a map shows that map, and lookup finds what it lists. */
  lemma DenotesShows(H: Hasher, t: Option<Trie>, m: map<Key, Value>, key: Key)
    requires Denotes(H, t, m)
    ensures t.Some? ==> Shape(t.value)
    ensures ShownBy(t) == m && Once(t) && Found(H, t, key)
  {
    if t.Some? {
      PlacedShape(H, t.value, 0);
      var es := Entries(t.value);
      PlacedFinds(H, t.value, key, 0);
      forall k
        ensures k in Shown(es) <==> k in m
        ensures k in m ==> Shown(es)[k] == m[k]
      {
        ShownKeys(es, k);
        if k in m {
          assert (k, m[k]) in es;
        }
        if k in Shown(es) {
          ShownIsListed(es, k);
        }
      }
    }
  }

  /** There the document is right as long as no put but the last takes the equal-chunk return. */
  lemma CommitPuts(H: Hasher, text: Text, m: map<Key, Value>, ops: seq<(Key, Value)>, ts: seq<Option<Trie>>)
    requires Puts(H, ops, ts) && Denotes(H, ts[0], m)
    requires CleanPuts(H, ops, ts, if ops == [] then 0 else |ops| - 1)
    requires InjectiveOn(H, KeysTouched(m, ops)) && TextApart(text, KeysTouched(m, ops))
    ensures IsDocOf(text, DocOf(text, ts[|ops|]), AfterPuts(m, ops))
  {
    DenotesShows(H, ts[0], m, []);
    forall i | 0 <= i < |ops|
      ensures Found(H, ts[i], ops[i].0)
    {
      PutsDenote(H, m, ops, ts, i);
      DenotesShows(H, ts[i], AfterPuts(m, ops[..i]), ops[i].0);
    }
    OncePuts(H, text, ops, ts);
  }

  // Reading a payload back.

  /** The document yields what the last put of a key put exactly when the put takes. */
  lemma PutRead(H: Hasher, text: Text, ops: seq<(Key, Value)>, ts: seq<Option<Trie>>, i: nat)
    requires Puts(H, ops, ts) && TextApart(text, KeysTouched(ShownBy(ts[0]), ops))
    requires i < |ops| && LastPut(ops, i, |ops|) && text(ops[i].0) == ops[i].0
    ensures Extract(DocOf(text, ts[|ops|]), ops[i].0) == Some(Str(text(ops[i].1))) <==> Takes(H, text, ts[i], ops[i])
  {
    assert ops[..|ops|] == ops;
    PutsKeys(H, ops, ts, |ops|);
    AfterPutsKeys(ShownBy(ts[0]), ops);
    ShownDoc(text, ts[|ops|]);
    LastPutShown(H, ops, ts, i, |ops|);
  }

  /** If every put takes, extracting the dotted path of a scalar yields the scalar as text. */
  lemma PayloadRead(H: Hasher, text: Text, p: Payload, ts: seq<Option<Trie>>, path: Path, v: Datum)
    requires WellFormed(p) && Puts(H, Ops([], p), ts) && LastPutsTake(H, text, Ops([], p), ts)
    requires TextApart(text, KeysTouched(ShownBy(ts[0]), Ops([], p)))
    requires AreNames(path) && Carries(p, path, v) && text(Dotted(path)) == Dotted(path)
    ensures Extract(DocOf(text, ts[|Ops([], p)|]), Dotted(path)) == Some(Str(text(Storage(v))))
  {
    var ops := Ops([], p);
    PayloadPuts(p);
    assert Put((path, v)) in ops;
    var i :| 0 <= i < |ops| && ops[i] == Put((path, v));
    assert LastPut(ops, i, |ops|);
    PutRead(H, text, ops, ts, i);
  }

  /** Three puts, the second of which drops a shared digit: the document keeps the value that the third replaced. */
  lemma StaleExample() returns (H: Hasher, ops: seq<(Key, Value)>, ts: seq<Option<Trie>>)
    ensures ops == [([0], [5]), ([1], [7]), ([1], [8])]
    ensures Puts(H, ops, ts) && ts[0] == None && H([0]) != H([1])
    ensures var doc := DocOf(k => k, ts[3]); [1] in doc && doc[[1]] == Str([7])
    ensures [1] in AfterPuts(map[], ops) && AfterPuts(map[], ops)[[1]] == [8]
  {
    var one: Hash, two: Hash := ZERO[0 := 32], ZERO[0 := 64];
    H := s => if s == [0] then one else two;
    var a, b, c := Entry([0], [5]), Entry([1], [7]), Entry([1], [8]);
    StaleDigits(one, two);
    var fork := Fork(Single(1)[2 := true], [a, b]);
    var stale := Fork(Single(1)[2 := true][0 := true], [c, a, b]);
    ops := [([0], [5]), ([1], [7]), ([1], [8])];
    ts := [None, Some(a), Some(fork), Some(stale)];
    assert H([0]) == one && H([1]) == two && one[0] != two[0];
    StaleFork(H, a, b);
    StaleAdd(H, a, b, c);
    StaleListing(a, b, c);
  }

  lemma StaleDigits(one: Hash, two: Hash)
    requires one == ZERO[0 := 32] && two == ZERO[0 := 64]
    ensures Digit(one, 0) == Digit(two, 0) == 0 && Digit(one, 1) == 1 && Digit(two, 1) == 2
  {
    assert Pow2(0) == 1 && Pow2(5) == 32;
    assert one[0] == 32 && one[1] == 0 && two[0] == 64 && two[1] == 0;
  }

  lemma StaleExpand(oh: Hash, nh: Hash, a: Trie, b: Trie)
    requires Digit(oh, 0) == Digit(nh, 0) && Digit(oh, 1) == 1 && Digit(nh, 1) == 2
    ensures Diverge(oh, nh, 0) && Expand(false, a, oh, b, nh, 0) == Fork(Single(1)[2 := true], [a, b])
  {
    assert Diverge(oh, nh, 0) && Diverge(oh, nh, 1);
    var deeper := Expand(false, a, oh, b, nh, 1);
    assert deeper == Fork(Single(1)[2 := true], InOrder(1, a, 2, b));
    assert Expand(false, a, oh, b, nh, 0) == deeper;
  }

  lemma StaleFork(H: Hasher, a: Trie, b: Trie)
    requires a == Entry([0], [5]) && b == Entry([1], [7])
    requires Digit(H([0]), 0) == Digit(H([1]), 0) == 0 && Digit(H([0]), 1) == 1 && Digit(H([1]), 1) == 2
    ensures Hamt.CanInsert(H, Some(a), [1])
    ensures Hamt.Inserted(H, Some(a), [1], [7]) == Fork(Single(1)[2 := true], [a, b])
  {
    StaleExpand(H([0]), H([1]), a, b);
  }

  lemma StaleAdd(H: Hasher, a: Trie, b: Trie, c: Trie)
    requires a == Entry([0], [5]) && b == Entry([1], [7]) && c == Entry([1], [8]) && Digit(H([1]), 0) == 0
    ensures var t := Fork(Single(1)[2 := true], [a, b]);
            && Hamt.CanInsert(H, Some(t), [1])
            && Hamt.Inserted(H, Some(t), [1], [8]) == Fork(Single(1)[2 := true][0 := true], [c, a, b])
  {
    var bm := Single(1)[2 := true];
    SlotPair(1, a, 2, b, bm, [a, b]);
    assert Rank(bm, 0) == 0 by {
      assert bm[..0] == [];
    }
    assert InsertAt([a, b], 0, c) == [c, a, b];
  }

  lemma StaleListing(a: Trie, b: Trie, c: Trie)
    requires a == Entry([0], [5]) && b == Entry([1], [7]) && c == Entry([1], [8])
    ensures var doc := Flatten(k => k, AllEntries([c, a, b])); [1] in doc && doc[[1]] == Str([7])
  {
    assert [c, a, b][1..] == [a, b] && [a, b][1..] == [b] && [b][1..] == [];
    assert AllEntries([b]) == [([1], [7])];
    assert AllEntries([a, b]) == [([0], [5]), ([1], [7])];
    assert AllEntries([c, a, b]) == [([1], [8]), ([0], [5]), ([1], [7])];
  }

  /** The root hash of a trie, zero standing for the empty one. */
  ghost predicate RootAt(H: Hasher, objects: Objects, root: Hash, t: Option<Trie>) {
    Hamt.RootIs(H, objects, if root == ZERO then None else Some(root), t)
  }

  method ApplyHamtOps(cas: Cas, root: Hash, ops: seq<(Key, Value)>, ghost ts: seq<Option<Trie>>, ghost U: iset<Record>)
    returns (r: Result<Hash>)
    requires Hamt.Ready(cas, U) && NoZero(cas.H, U)
    requires Puts(cas.H, ops, ts) && PutsFit(cas.H, ops, ts, U) && RootAt(cas.H, cas.objects, root, ts[0])
    modifies cas
    ensures Hamt.Ready(cas, U) && Extends(old(cas.objects), cas.objects)
    ensures r.Ok? && RootAt(cas.H, cas.objects, r.value, ts[|ops|])
  {
    var current := root;
    for i := 0 to |ops|
      invariant Hamt.Ready(cas, U) && Extends(old(cas.objects), cas.objects)
      invariant RootAt(cas.H, cas.objects, current, ts[i])
    {
      var base := if current == ZERO then None else Some(current);
      assert Hamt.NodesInRoot(cas.H, ts[i + 1], U);
      current :- Hamt.Insert(cas, base, ops[i].0, ops[i].1, ts[i], U);
      assert Hamt.RecordOf(cas.H, ts[i + 1].value) in U;
    }
    return Ok(current);
  }

  method ReadDoc(cas: Cas, text: Text, root: Hash, ghost t: Option<Trie>) returns (r: Result<Doc>)
    requires RootAt(cas.H, cas.objects, root, t)
    ensures r == Ok(DocOf(text, t))
  {
    if root == ZERO {
      return Ok(map[]);
    }
    var es :- Hamt.Entries(cas, Some(root), t);
    var doc := FlattenEntries(text, es);
    return Ok(doc);
  }

  lemma RootLater(H: Hasher, a: Objects, b: Objects, root: Hash, t: Option<Trie>)
    requires RootAt(H, a, root, t) && Extends(a, b)
    ensures RootAt(H, b, root, t)
  {
    if t.Some? {
      Hamt.StoredExtends(H, a, b, t.value);
    }
  }

  lemma InStepLater(H: Hasher, a: Objects, b: Objects, roots: IndexRoots, schema: Schema, doc: Doc)
    requires Extends(a, b)
    requires forall c :: c in schema ==> AllInStepOrMissing(H, a, roots, schema[c], 0, doc)
    ensures forall c :: c in schema ==> AllInStepOrMissing(H, b, roots, schema[c], 0, doc)
  {
    forall c, i | c in schema && 0 <= i < |schema[c].indexes|
      ensures InStepOrMissing(H, b, roots, schema[c], schema[c].indexes[i], doc)
    {
      var idx := schema[c].indexes[i];
      assert InStepOrMissing(H, a, roots, schema[c], idx, doc);
      if idx.name in roots {
        HoldsLater(H, a, b, roots, roots, idx.name, Pair(schema[c], idx, doc));
      }
    }
  }

  /**
   * What a commit on `root` stores: the new document, and indexes each in step with it. `ts` are the tries of the
   * puts in turn, so the documents are those of the first and the last.
   */
  method CommitDocument(cas: Cas, text: Text, schema: Schema, root: Hash, ops: seq<(Key, Value)>, roots: IndexRoots,
                        ghost ts: seq<Option<Trie>>, ghost U: iset<Record>)
    returns (r: Result<(Hash, IndexRoots)>)
    requires Hamt.Ready(cas, U) && NoZero(cas.H, U) && WellNamed(schema)
    requires Puts(cas.H, ops, ts) && PutsFit(cas.H, ops, ts, U) && RootAt(cas.H, cas.objects, root, ts[0])
    requires forall c :: c in schema ==>
               AllInStepOrMissing(cas.H, cas.objects, roots, schema[c], 0, DocOf(text, ts[0]))
    requires forall c :: c in schema ==>
               AllMayWrite(cas.H, U, schema[c], DocOf(text, ts[0]), DocOf(text, ts[|ops|]))
    modifies cas
    ensures Hamt.Ready(cas, U) && Extends(old(cas.objects), cas.objects)
    ensures r.Ok? && RootAt(cas.H, cas.objects, r.value.0, ts[|ops|])
    ensures schema == map[] ==> r.value.1 == roots
    ensures forall c, i :: c in schema && 0 <= i < |schema[c].indexes| ==>
              Holds(cas.H, cas.objects, r.value.1, schema[c].indexes[i].name,
                    Pair(schema[c], schema[c].indexes[i], DocOf(text, ts[|ops|])))
    ensures schema != map[] ==> forall n :: n in r.value.1 ==> Declared(schema, n)
  {
    var newRoot :- ApplyHamtOps(cas, root, ops, ts, U);
    RootLater(cas.H, old(cas.objects), cas.objects, root, ts[0]);
    InStepLater(cas.H, old(cas.objects), cas.objects, roots, schema, DocOf(text, ts[0]));
    var before :- ReadDoc(cas, text, root, ts[0]);
    var after :- ReadDoc(cas, text, newRoot, ts[|ops|]);
    ghost var objects := cas.objects;
    var roots' := UpdateIndexes(cas, schema, before, after, roots, U);
    RootLater(cas.H, objects, cas.objects, newRoot, ts[|ops|]);
    PutsKeys(cas.H, ops, ts, |ops|);
    DocGrows(text, ts[0], ts[|ops|]);
    forall c, i | c in schema && 0 <= i < |schema[c].indexes|
      ensures Holds(cas.H, cas.objects, roots', schema[c].indexes[i].name,
                    Pair(schema[c], schema[c].indexes[i], after))
    {
      CommitsInStep(schema[c], schema[c].indexes[i], before, after);
    }
    return Ok((newRoot, roots'));
  }
}
