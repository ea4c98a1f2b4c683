/** The persistent trie over a content-addressed store: nodes are records, changed by path copying. */
module Hamt {
  import opened Bytes
  import opened Words
  import opened Slots
  import opened HamtNode
  import opened MemCas
  import opened Tries
  import opened TrieMaps
  import opened Listings

  // How a trie is laid out in the store.

  function NodeOf(H: Hasher, t: Trie): Node
    decreases t
  {
    match t
    case Entry(k, v) => Leaf(k, v)
    case Fork(bm, children) =>
      Bitmap(bm, seq<Hash>(|children|, i requires 0 <= i < |children| => H(EncodeNode(NodeOf(H, children[i])))))
  }

  function TrieHash(H: Hasher, t: Trie): Hash {
    H(EncodeNode(NodeOf(H, t)))
  }

  function RecordOf(H: Hasher, t: Trie): Record {
    Record(NodeType(NodeOf(H, t)), EncodeNode(NodeOf(H, t)))
  }

  function Hashes(H: Hasher, ts: seq<Trie>): seq<Hash> {
    seq(|ts|, i requires 0 <= i < |ts| => TrieHash(H, ts[i]))
  }

  lemma NodeOfFork(H: Hasher, bm: Word, children: seq<Trie>)
    ensures NodeOf(H, Fork(bm, children)) == Bitmap(bm, Hashes(H, children))
  {}

  lemma HashesReplace(H: Hasher, ts: seq<Trie>, i: nat, x: Trie)
    requires i < |ts|
    ensures Hashes(H, ts[i := x]) == Hashes(H, ts)[i := TrieHash(H, x)]
  {}

  lemma HashesInsert(H: Hasher, ts: seq<Trie>, i: nat, x: Trie)
    requires i <= |ts|
    ensures Hashes(H, InsertAt(ts, i, x)) == InsertAt(Hashes(H, ts), i, TrieHash(H, x))
  {}

  lemma HashesRemove(H: Hasher, ts: seq<Trie>, i: nat)
    requires i < |ts|
    ensures Hashes(H, RemoveAt(ts, i)) == RemoveAt(Hashes(H, ts), i)
  {}

  /** Every node of the trie is a record of the store, with lengths that fit. */
  ghost predicate Stored(H: Hasher, objects: Objects, t: Trie)
    decreases t
  {
    && Fetch(objects, TrieHash(H, t)) == Ok(RecordOf(H, t))
    && NodeFits(NodeOf(H, t))
    && (t.Fork? ==> forall c :: c in t.children ==> Stored(H, objects, c))
  }

  /** Every node of the trie is among the records of the run. */
  ghost predicate NodesIn(H: Hasher, t: Trie, U: iset<Record>)
    decreases t
  {
    RecordOf(H, t) in U && (t.Fork? ==> forall c :: c in t.children ==> NodesIn(H, c, U))
  }

  ghost predicate RootIs(H: Hasher, objects: Objects, root: Option<Hash>, t: Option<Trie>) {
    match t
    case None => root == None
    case Some(t) => root == Some(TrieHash(H, t)) && Shape(t) && Stored(H, objects, t)
  }

  /** A stored trie stays stored: later records never touch earlier ones. */
  lemma {:induction false} StoredExtends(H: Hasher, a: Objects, b: Objects, t: Trie)
    requires Stored(H, a, t) && Extends(a, b)
    ensures Stored(H, b, t)
    decreases t
  {
    if t.Fork? {
      forall c | c in t.children
        ensures Stored(H, b, c)
      {
        StoredExtends(H, a, b, c);
      }
    }
  }

  predicate EntryFits(key: Key, value: Value) {
    |key| < 0x1_0000 && |value| < 0x1_0000_0000
  }

  function Load(objects: Objects, h: Hash): Result<Node> {
    var r :- Fetch(objects, h);
    DecodeNode(r.ty, r.payload)
  }

  lemma LoadStored(H: Hasher, objects: Objects, t: Trie)
    requires Stored(H, objects, t)
    ensures Load(objects, TrieHash(H, t)) == Ok(NodeOf(H, t))
  {
    NodeRoundTrip(NodeOf(H, t));
  }

  lemma {:induction false} CountBound(s: seq<bool>)
    ensures Count(s) <= |s|
  {
    if s != [] {
      CountBound(s[1..]);
    }
  }

  // Node records.

  method LoadNode(cas: Cas, h: Hash) returns (r: Result<Node>)
    ensures r == Load(cas.objects, h)
  {
    var record :- cas.GetRecord(h);
    r := Decode(record.ty, record.payload);
  }

  /** The node at the root of a stored trie. */
  method LoadTrie(cas: Cas, h: Hash, ghost t: Trie) returns (r: Result<Node>)
    requires h == TrieHash(cas.H, t) && Stored(cas.H, cas.objects, t)
    ensures r == Ok(match t
                    case Entry(k, v) => Leaf(k, v)
                    case Fork(bm, children) => Bitmap(bm, Hashes(cas.H, children)))
  {
    LoadStored(cas.H, cas.objects, t);
    r := LoadNode(cas, h);
    if t.Fork? {
      NodeOfFork(cas.H, t.bitmap, t.children);
    }
  }

  method PersistLeaf(cas: Cas, key: Key, value: Value, ghost U: iset<Record>) returns (h: Hash)
    requires CollisionFree(cas.H, U) && Within(cas.H, cas.objects, U)
    requires EntryFits(key, value) && RecordOf(cas.H, Entry(key, value)) in U
    modifies cas
    ensures h == TrieHash(cas.H, Entry(key, value)) && Stored(cas.H, cas.objects, Entry(key, value))
    ensures Within(cas.H, cas.objects, U) && Extends(old(cas.objects), cas.objects)
    ensures |cas.objects| <= |old(cas.objects)| + 1
    ensures h in old(cas.objects) ==> cas.objects == old(cas.objects)
  {
    PutKeeps(cas.H, cas.objects, RecordOf(cas.H, Entry(key, value)), U);
    var payload := Encode(Leaf(key, value));
    h := cas.Put(LeafRecord, payload);
  }

  method PersistBitmap(cas: Cas, bm: Word, children: seq<Hash>, ghost ts: seq<Trie>, ghost U: iset<Record>)
    returns (h: Hash)
    requires CollisionFree(cas.H, U) && Within(cas.H, cas.objects, U)
    requires children == Hashes(cas.H, ts) && |ts| == Count(bm)
    requires forall c :: c in ts ==> Stored(cas.H, cas.objects, c)
    requires RecordOf(cas.H, Fork(bm, ts)) in U
    modifies cas
    ensures h == TrieHash(cas.H, Fork(bm, ts)) && Stored(cas.H, cas.objects, Fork(bm, ts))
    ensures Within(cas.H, cas.objects, U) && Extends(old(cas.objects), cas.objects)
    ensures |cas.objects| <= |old(cas.objects)| + 1
  {
    ghost var t := Fork(bm, ts);
    PutKeeps(cas.H, cas.objects, RecordOf(cas.H, t), U);
    NodeOfFork(cas.H, bm, ts);
    CountBound(bm);
    var payload := Encode(Bitmap(bm, children));
    h := cas.Put(BitmapRecord, payload);
    forall c | c in ts
      ensures Stored(cas.H, cas.objects, c)
    {
      StoredExtends(cas.H, old(cas.objects), cas.objects, c);
    }
  }

  /** The child of the branch that a key hash takes, in the trie and among the stored hashes. */
  lemma ChildFound(H: Hasher, objects: Objects, t: Trie, kh: Hash, depth: nat)
    requires t.Fork? && Shape(t) && Stored(H, objects, t) && t.bitmap[Digit(kh, depth)]
    ensures var idx := Rank(t.bitmap, Digit(kh, depth));
            && idx < |t.children| && Tries.Next(t, kh, depth) == Some(t.children[idx])
            && Shape(t.children[idx]) && Stored(H, objects, t.children[idx])
            && NodeOf(H, t) == Bitmap(t.bitmap, Hashes(H, t.children))
            && Hashes(H, t.children)[idx] == TrieHash(H, t.children[idx])
  {
    NodeOfFork(H, t.bitmap, t.children);
    RankBound(t.bitmap, Digit(kh, depth));
  }

  // Reading.

  method GetInternal(cas: Cas, node: Hash, key: Key, kh: Hash, depth: nat, ghost t: Trie)
    returns (r: Result<Option<Value>>)
    requires node == TrieHash(cas.H, t) && Shape(t) && Stored(cas.H, cas.objects, t)
    ensures r == Ok(Tries.Get(t, key, kh, depth))
    decreases t
  {
    var n :- LoadTrie(cas, node, t);
    match n {
      case Leaf(k, v) =>
        return Ok(if k == key then Some(v) else None);
      case Bitmap(bm, children) =>
        var b := Digit(kh, depth);
        if !bm[b] {
          return Ok(None);
        }
        ChildFound(cas.H, cas.objects, t, kh, depth);
        var idx := Rank(bm, b);
        r := GetInternal(cas, children[idx], key, kh, depth + 1, t.children[idx]);
    }
  }

  /** The hash of the leaf that holds a value found under a key. */
  function LeafOf(H: Hasher, key: Key, found: Option<Value>): Option<Hash> {
    match found
    case None => None
    case Some(v) => Some(TrieHash(H, Entry(key, v)))
  }

  method LeafHashInternal(cas: Cas, node: Hash, key: Key, kh: Hash, depth: nat, ghost t: Trie)
    returns (r: Result<Option<Hash>>)
    requires node == TrieHash(cas.H, t) && Shape(t) && Stored(cas.H, cas.objects, t)
    ensures r == Ok(LeafOf(cas.H, key, Tries.Get(t, key, kh, depth)))
    decreases t
  {
    var n :- LoadTrie(cas, node, t);
    match n {
      case Leaf(k, _) =>
        return Ok(if k == key then Some(node) else None);
      case Bitmap(bm, children) =>
        var b := Digit(kh, depth);
        if !bm[b] {
          return Ok(None);
        }
        ChildFound(cas.H, cas.objects, t, kh, depth);
        var idx := Rank(bm, b);
        assert Tries.Get(t, key, kh, depth) == Tries.Get(t.children[idx], key, kh, depth + 1);
        r := LeafHashInternal(cas, children[idx], key, kh, depth + 1, t.children[idx]);
    }
  }

  method CollectEntries(cas: Cas, node: Hash, out: seq<(Key, Value)>, ghost t: Trie)
    returns (r: Result<seq<(Key, Value)>>)
    requires node == TrieHash(cas.H, t) && Stored(cas.H, cas.objects, t)
    ensures r == Ok(out + Tries.Entries(t))
    decreases t, 1
  {
    var n :- LoadTrie(cas, node, t);
    match n {
      case Leaf(k, v) =>
        return Ok(out + [(k, v)]);
      case Bitmap(_, children) =>
        NodeOfFork(cas.H, t.bitmap, t.children);
        r := CollectChildren(cas, children, out, t.children);
    }
  }

  method CollectChildren(cas: Cas, children: seq<Hash>, out: seq<(Key, Value)>, ghost ts: seq<Trie>)
    returns (r: Result<seq<(Key, Value)>>)
    requires children == Hashes(cas.H, ts)
    requires forall c :: c in ts ==> Stored(cas.H, cas.objects, c)
    ensures r == Ok(out + AllEntries(ts))
    decreases ts, 0
  {
    var list := out;
    for i := 0 to |children|
      invariant list == out + AllEntries(ts[..i])
    {
      AllEntriesStep(ts, i);
      ghost var before := AllEntries(ts[..i]);
      assert list + Tries.Entries(ts[i]) == out + (before + Tries.Entries(ts[i]));
      list :- CollectEntries(cas, children[i], list, ts[i]);
    }
    assert ts[..|children|] == ts;
    return Ok(list);
  }

  lemma AllEntriesStep(ts: seq<Trie>, i: nat)
    requires i < |ts|
    ensures AllEntries(ts[..i + 1]) == AllEntries(ts[..i]) + Tries.Entries(ts[i])
  {
    assert ts[..i + 1] == ts[..i] + [ts[i]];
    AllEntriesConcat(ts[..i], [ts[i]]);
    OneChild(ts[i]);
  }

  // Writing.

  ghost predicate Ready(cas: Cas, U: iset<Record>)
    reads cas
  {
    CollisionFree(cas.H, U) && Within(cas.H, cas.objects, U)
  }

  /** How far the digits of a colliding leaf still agree with those of the key. */
  ghost function Ahead(H: Hasher, t: Trie, key: Key, kh: Hash, depth: nat): nat
    requires Shape(t) && Separable(H, t, key, kh, depth)
  {
    if t.Entry? && t.key != key then DivergeDepth(H(t.key), kh, depth) - depth else 0
  }

  /** What every writing step promises: the new trie is stored and nothing stored before has changed. */
  ghost predicate Wrote(H: Hasher, before: Objects, after: Objects, h: Hash, t: Trie, U: iset<Record>, most: nat) {
    && h == TrieHash(H, t)
    && Stored(H, after, t)
    && Within(H, after, U)
    && Extends(before, after)
    && |after| <= |before| + most
  }

  method InsertInternal(cas: Cas, node: Hash, key: Key, value: Value, kh: Hash, depth: nat,
                        ghost t: Trie, ghost U: iset<Record>)
    returns (r: Result<Hash>)
    requires Ready(cas, U) && EntryFits(key, value)
    requires node == TrieHash(cas.H, t) && Shape(t) && Stored(cas.H, cas.objects, t)
    requires Separable(cas.H, t, key, kh, depth)
    requires NodesIn(cas.H, Tries.Insert(false, cas.H, t, key, value, kh, depth), U)
    modifies cas
    ensures r.Ok?
    ensures Wrote(cas.H, old(cas.objects), cas.objects, r.value,
                  Tries.Insert(false, cas.H, t, key, value, kh, depth), U, Cost(t, key, kh, depth))
    decreases t, Ahead(cas.H, t, key, kh, depth), 2
  {
    var n :- LoadTrie(cas, node, t);
    match n {
      case Leaf(k, v) =>
        if k == key {
          var h := PersistLeaf(cas, key, value, U);
          return Ok(h);
        }
        r := ExpandLeafCollision(cas, k, v, cas.H(k), key, value, kh, depth, U);
      case Bitmap(bm, children) =>
        NodeOfFork(cas.H, t.bitmap, t.children);
        r := InsertIntoBitmap(cas, bm, children, key, value, kh, depth, t, U);
    }
  }

  method InsertIntoBitmap(cas: Cas, bm: Word, children: seq<Hash>, key: Key, value: Value, kh: Hash, depth: nat,
                          ghost t: Trie, ghost U: iset<Record>)
    returns (r: Result<Hash>)
    requires Ready(cas, U) && EntryFits(key, value)
    requires t.Fork? && t.bitmap == bm && children == Hashes(cas.H, t.children)
    requires Shape(t) && Stored(cas.H, cas.objects, t) && Separable(cas.H, t, key, kh, depth)
    requires NodesIn(cas.H, Tries.Insert(false, cas.H, t, key, value, kh, depth), U)
    modifies cas
    ensures r.Ok?
    ensures Wrote(cas.H, old(cas.objects), cas.objects, r.value,
                  Tries.Insert(false, cas.H, t, key, value, kh, depth), U, Cost(t, key, kh, depth))
    decreases t, 0, 0
  {
    var b := Digit(kh, depth);
    RankBound(bm, b);
    if bm[b] {
      var idx := Rank(bm, b);
      ghost var c := t.children[idx];
      ghost var c' := Tries.Insert(false, cas.H, c, key, value, kh, depth + 1);
      ghost var kids := t.children[idx := c'];
      assert Tries.Insert(false, cas.H, t, key, value, kh, depth) == Fork(bm, kids);
      assert NodesIn(cas.H, c', U) by {
        assert kids[idx] == c';
      }
      var child :- InsertInternal(cas, children[idx], key, value, kh, depth + 1, c, U);
      var h := ReplaceChild(cas, bm, children, idx, child, t, c', old(cas.objects), U);
      return Ok(h);
    } else {
      var h := AddBranch(cas, bm, children, b, key, value, t, U);
      return Ok(h);
    }
  }

  method ReplaceChild(cas: Cas, bm: Word, children: seq<Hash>, idx: nat, child: Hash,
                      ghost t: Trie, ghost c': Trie, ghost before: Objects, ghost U: iset<Record>)
    returns (h: Hash)
    requires Ready(cas, U)
    requires t.Fork? && Shape(t) && Stored(cas.H, before, t) && Extends(before, cas.objects)
    requires t.bitmap == bm && children == Hashes(cas.H, t.children) && idx < |children|
    requires child == TrieHash(cas.H, c') && Stored(cas.H, cas.objects, c')
    requires NodesIn(cas.H, Fork(bm, t.children[idx := c']), U)
    modifies cas
    ensures Wrote(cas.H, old(cas.objects), cas.objects, h, Fork(bm, t.children[idx := c']), U, 1)
  {
    var newChildren := children[idx := child];
    KeepSiblings(cas.H, before, cas.objects, t.children, idx, c');
    HashesReplace(cas.H, t.children, idx, c');
    h := PersistBitmap(cas, bm, newChildren, t.children[idx := c'], U);
  }

  method AddBranch(cas: Cas, bm: Word, children: seq<Hash>, b: nat, key: Key, value: Value,
                   ghost t: Trie, ghost U: iset<Record>)
    returns (h: Hash)
    requires Ready(cas, U) && EntryFits(key, value) && b < 32 && !bm[b]
    requires t.Fork? && t.bitmap == bm && children == Hashes(cas.H, t.children)
    requires Shape(t) && Stored(cas.H, cas.objects, t) && Rank(bm, b) <= |t.children|
    requires NodesIn(cas.H, Fork(bm[b := true], InsertAt(t.children, Rank(bm, b), Entry(key, value))), U)
    modifies cas
    ensures Wrote(cas.H, old(cas.objects), cas.objects, h,
                  Fork(bm[b := true], InsertAt(t.children, Rank(bm, b), Entry(key, value))), U, 2)
  {
    var idx := Rank(bm, b);
    ghost var e := Entry(key, value);
    ghost var ts := InsertAt(t.children, idx, e);
    assert e in ts && NodesIn(cas.H, e, U);
    var leaf := PersistLeaf(cas, key, value, U);
    HashesInsert(cas.H, t.children, idx, e);
    SlotAdd(bm, t.children, b, e);
    AddSibling(cas.H, old(cas.objects), cas.objects, t.children, idx, e);
    h := PersistBitmap(cas, bm[b := true], InsertAt(children, idx, leaf), ts, U);
  }

  lemma KeepSiblings(H: Hasher, a: Objects, b: Objects, ts: seq<Trie>, i: nat, x: Trie)
    requires i < |ts| && Extends(a, b) && Stored(H, b, x)
    requires forall c :: c in ts ==> Stored(H, a, c)
    ensures forall c :: c in ts[i := x] ==> Stored(H, b, c)
  {
    forall c | c in ts[i := x]
      ensures Stored(H, b, c)
    {
      if c != x {
        assert c in ts;
        StoredExtends(H, a, b, c);
      }
    }
  }

  lemma AddSibling(H: Hasher, a: Objects, b: Objects, ts: seq<Trie>, i: nat, x: Trie)
    requires i <= |ts| && Extends(a, b) && Stored(H, b, x)
    requires forall c :: c in ts ==> Stored(H, a, c)
    ensures forall c :: c in InsertAt(ts, i, x) ==> Stored(H, b, c)
  {
    forall c | c in InsertAt(ts, i, x)
      ensures Stored(H, b, c)
    {
      if c != x {
        assert c in ts;
        StoredExtends(H, a, b, c);
      }
    }
  }

  method ExpandLeafCollision(cas: Cas, priorKey: Key, priorVal: Value, priorHash: Hash,
                             key: Key, value: Value, kh: Hash, depth: nat, ghost U: iset<Record>)
    returns (r: Result<Hash>)
    requires Ready(cas, U) && EntryFits(key, value)
    requires Stored(cas.H, cas.objects, Entry(priorKey, priorVal))
    requires priorKey != key && priorHash == cas.H(priorKey) && Diverge(priorHash, kh, depth)
    requires NodesIn(cas.H, Expand(false, Entry(priorKey, priorVal), priorHash, Entry(key, value), kh, depth), U)
    modifies cas
    ensures r.Ok?
    ensures Wrote(cas.H, old(cas.objects), cas.objects, r.value,
                  Expand(false, Entry(priorKey, priorVal), priorHash, Entry(key, value), kh, depth), U, 2)
    decreases Entry(priorKey, priorVal), DivergeDepth(priorHash, kh, depth) - depth, 1
  {
    var c, d := Digit(priorHash, depth), Digit(kh, depth);
    ghost var prior := Entry(priorKey, priorVal);
    if c == d {
      var oldLeaf := PersistLeaf(cas, priorKey, priorVal, U);
      DivergeLater(priorHash, kh, depth);
      r := InsertInternal(cas, oldLeaf, key, value, kh, depth + 1, prior, U);
      return;
    }
    var h := PairUp(cas, priorKey, priorVal, c, key, value, d, U);
    return Ok(h);
  }

  method PairUp(cas: Cas, priorKey: Key, priorVal: Value, c: nat, key: Key, value: Value, d: nat, ghost U: iset<Record>)
    returns (h: Hash)
    requires Ready(cas, U) && EntryFits(key, value) && c < 32 && d < 32 && c != d
    requires Stored(cas.H, cas.objects, Entry(priorKey, priorVal))
    requires NodesIn(cas.H,
                     Fork(Single(c)[d := true], InOrder(c, Entry(priorKey, priorVal), d, Entry(key, value))), U)
    modifies cas
    ensures Wrote(cas.H, old(cas.objects), cas.objects, h,
                  Fork(Single(c)[d := true], InOrder(c, Entry(priorKey, priorVal), d, Entry(key, value))), U, 2)
  {
    ghost var prior, added := Entry(priorKey, priorVal), Entry(key, value);
    ghost var kids := InOrder(c, prior, d, added);
    assert prior in kids && added in kids && NodesIn(cas.H, added, U);
    var oldLeaf := PersistLeaf(cas, priorKey, priorVal, U);
    var newLeaf := PersistLeaf(cas, key, value, U);
    assert Hashes(cas.H, kids) == InOrder(c, oldLeaf, d, newLeaf);
    SlotPair(c, prior, d, added, Single(c)[d := true], kids);
    StoredExtends(cas.H, old(cas.objects), cas.objects, prior);
    h := PersistBitmap(cas, Single(c)[d := true], InOrder(c, oldLeaf, d, newLeaf), kids, U);
  }

  ghost predicate NodesInRoot(H: Hasher, t: Option<Trie>, U: iset<Record>) {
    t.Some? ==> NodesIn(H, t.value, U)
  }

  method RemoveInternal(cas: Cas, node: Hash, key: Key, kh: Hash, depth: nat, ghost t: Trie, ghost U: iset<Record>)
    returns (r: Result<Option<Hash>>)
    requires Ready(cas, U)
    requires node == TrieHash(cas.H, t) && Shape(t) && Stored(cas.H, cas.objects, t)
    requires NodesInRoot(cas.H, Tries.Remove(t, key, kh, depth), U)
    modifies cas
    ensures r.Ok? && RootIs(cas.H, cas.objects, r.value, Tries.Remove(t, key, kh, depth))
    ensures Ready(cas, U) && Extends(old(cas.objects), cas.objects)
    decreases t
  {
    RemoveShape(t, key, kh, depth);
    var n :- LoadTrie(cas, node, t);
    match n {
      case Leaf(k, _) =>
        return Ok(if k == key then None else Some(node));
      case Bitmap(bm, children) =>
        var b := Digit(kh, depth);
        if !bm[b] {
          return Ok(Some(node));
        }
        ChildFound(cas.H, cas.objects, t, kh, depth);
        var idx := Rank(bm, b);
        ghost var c := t.children[idx];
        ghost var c' := Tries.Remove(c, key, kh, depth + 1);
        assert c'.Some? ==> t.children[idx := c'.value][idx] == c'.value;
        var child :- RemoveInternal(cas, children[idx], key, kh, depth + 1, c, U);
        match child {
          case None =>
            r := DropChild(cas, bm, children, b, t, old(cas.objects), U);
          case Some(newChild) =>
            var h := ReplaceChild(cas, bm, children, idx, newChild, t, c'.value, old(cas.objects), U);
            return Ok(Some(h));
        }
    }
  }

  method DropChild(cas: Cas, bm: Word, children: seq<Hash>, b: nat,
                   ghost t: Trie, ghost before: Objects, ghost U: iset<Record>)
    returns (r: Result<Option<Hash>>)
    requires Ready(cas, U) && b < 32 && bm[b]
    requires t.Fork? && Shape(t) && Stored(cas.H, before, t) && Extends(before, cas.objects)
    requires t.bitmap == bm && children == Hashes(cas.H, t.children) && Rank(bm, b) < |children|
    requires var rest := RemoveAt(t.children, Rank(bm, b));
             rest != [] ==> NodesIn(cas.H, Fork(bm[b := false], rest), U)
    modifies cas
    ensures var rest := RemoveAt(t.children, Rank(bm, b));
            r.Ok? && RootIs(cas.H, cas.objects, r.value, if rest == [] then None else Some(Fork(bm[b := false], rest)))
    ensures Ready(cas, U) && Extends(old(cas.objects), cas.objects)
  {
    var idx := Rank(bm, b);
    ghost var rest := RemoveAt(t.children, idx);
    var newChildren := RemoveAt(children, idx);
    HashesRemove(cas.H, t.children, idx);
    SlotRemove(bm, t.children, b);
    if newChildren == [] {
      return Ok(None);
    }
    forall c | c in rest
      ensures Shape(c) && Stored(cas.H, cas.objects, c)
    {
      assert c in t.children;
      StoredExtends(cas.H, before, cas.objects, c);
    }
    var h := PersistBitmap(cas, bm[b := false], newChildren, rest, U);
    return Ok(Some(h));
  }

  lemma {:induction false} RemoveShape(t: Trie, key: Key, kh: Hash, depth: nat)
    requires Shape(t)
    ensures var r := Tries.Remove(t, key, kh, depth); r.Some? ==> Shape(r.value)
    decreases t
  {
    if t.Fork? && Next(t, kh, depth).Some? {
      var bm, children, b := t.bitmap, t.children, Digit(kh, depth);
      var c := Next(t, kh, depth).value;
      RemoveShape(c, key, kh, depth + 1);
      SlotRemove(bm, children, b);
      var c' := Tries.Remove(c, key, kh, depth + 1);
      if c'.Some? {
        Members(children, Rank(bm, b), c'.value);
      } else {
        assert forall x :: x in RemoveAt(children, Rank(bm, b)) ==> x in children;
      }
    }
  }

  // The operations on roots.

  ghost predicate CanInsert(H: Hasher, t: Option<Trie>, key: Key) {
    t.Some? ==> Shape(t.value) && Separable(H, t.value, key, H(key), 0)
  }

  ghost function Inserted(H: Hasher, t: Option<Trie>, key: Key, value: Value): Trie
    requires CanInsert(H, t, key)
  {
    match t
    case None => Entry(key, value)
    case Some(t) => Tries.Insert(false, H, t, key, value, H(key), 0)
  }

  method Insert(cas: Cas, root: Option<Hash>, key: Key, value: Value, ghost t: Option<Trie>, ghost U: iset<Record>)
    returns (r: Result<Hash>)
    requires Ready(cas, U) && EntryFits(key, value)
    requires RootIs(cas.H, cas.objects, root, t) && CanInsert(cas.H, t, key)
    requires NodesIn(cas.H, Inserted(cas.H, t, key, value), U)
    modifies cas
    ensures r.Ok? && RootIs(cas.H, cas.objects, Some(r.value), Some(Inserted(cas.H, t, key, value)))
    ensures Ready(cas, U) && Extends(old(cas.objects), cas.objects)
    ensures |cas.objects| <= |old(cas.objects)| + if t.None? then 1 else Cost(t.value, key, cas.H(key), 0)
  {
    var kh := cas.H(key);
    match root {
      case None =>
        var h := PersistLeaf(cas, key, value, U);
        return Ok(h);
      case Some(h) =>
        InsertShape(cas.H, t.value, key, value, kh, 0);
        r := InsertInternal(cas, h, key, value, kh, 0, t.value, U);
    }
  }

  method Remove(cas: Cas, root: Option<Hash>, key: Key, ghost t: Option<Trie>, ghost U: iset<Record>)
    returns (r: Result<Option<Hash>>)
    requires Ready(cas, U) && RootIs(cas.H, cas.objects, root, t)
    requires NodesInRoot(cas.H, if t.None? then None else Tries.Remove(t.value, key, cas.H(key), 0), U)
    modifies cas
    ensures r.Ok? && RootIs(cas.H, cas.objects, r.value,
                            if t.None? then None else Tries.Remove(t.value, key, cas.H(key), 0))
    ensures Ready(cas, U) && Extends(old(cas.objects), cas.objects)
  {
    match root {
      case None => return Ok(None);
      case Some(h) => r := RemoveInternal(cas, h, key, cas.H(key), 0, t.value, U);
    }
  }

  method Get(cas: Cas, root: Option<Hash>, key: Key, ghost t: Option<Trie>) returns (r: Result<Option<Value>>)
    requires RootIs(cas.H, cas.objects, root, t)
    ensures r == Ok(if t.None? then None else Tries.Get(t.value, key, cas.H(key), 0))
    ensures forall m :: Denotes(cas.H, t, m) ==> r == Ok(Lookup(m, key))
  {
    match root {
      case None => return Ok(None);
      case Some(h) =>
        forall m | Denotes(cas.H, t, m)
          ensures Tries.Get(t.value, key, cas.H(key), 0) == Lookup(m, key)
        {
          GetIsLookup(cas.H, t.value, m, key);
        }
        r := GetInternal(cas, h, key, cas.H(key), 0, t.value);
    }
  }

  method LeafHash(cas: Cas, root: Option<Hash>, key: Key, ghost t: Option<Trie>) returns (r: Result<Option<Hash>>)
    requires RootIs(cas.H, cas.objects, root, t)
    ensures r.Ok?
    ensures forall m :: Denotes(cas.H, t, m) ==>
              r.value == if key in m then Some(TrieHash(cas.H, Entry(key, m[key]))) else None
  {
    match root {
      case None => return Ok(None);
      case Some(h) =>
        forall m | Denotes(cas.H, t, m)
          ensures Tries.Get(t.value, key, cas.H(key), 0) == Lookup(m, key)
        {
          GetIsLookup(cas.H, t.value, m, key);
        }
        r := LeafHashInternal(cas, h, key, cas.H(key), 0, t.value);
    }
  }

  method Entries(cas: Cas, root: Option<Hash>, ghost t: Option<Trie>) returns (r: Result<seq<(Key, Value)>>)
    requires RootIs(cas.H, cas.objects, root, t)
    ensures r == Ok(if t.None? then [] else Tries.Entries(t.value))
    ensures forall m :: Denotes(cas.H, t, m) ==>
              && DistinctKeys(r.value) && |r.value| == |m|
              && forall e :: e in r.value <==> e.0 in m && m[e.0] == e.1
  {
    match root {
      case None => return Ok([]);
      case Some(h) =>
        forall m | Denotes(cas.H, t, m)
          ensures DistinctKeys(Tries.Entries(t.value)) && |Tries.Entries(t.value)| == |m|
        {
          EntriesListMap(cas.H, t.value, m);
        }
        r := CollectEntries(cas, h, [], t.value);
        assert [] + Tries.Entries(t.value) == Tries.Entries(t.value);
    }
  }

  // Whole runs.

  datatype Update = Put(key: Key, value: Value) | Delete(key: Key)

  function MapAfter(us: seq<Update>): map<Key, Value> {
    if us == [] then map[] else
      var m := MapAfter(us[..|us| - 1]);
      match us[|us| - 1]
      case Put(k, v) => m[k := v]
      case Delete(k) => m - {k}
  }

  /** One update that drops no shared digit. */
  ghost predicate CleanStep(H: Hasher, t: Option<Trie>, u: Update, t': Option<Trie>) {
    match u
    case Put(k, v) =>
      && CanInsert(H, t, k)
      && (t.Some? ==> !SharesDigit(H, t.value, k, H(k), 0))
      && t' == Some(Inserted(H, t, k, v))
    case Delete(k) =>
      && (t.Some? ==> Shape(t.value))
      && t' == if t.None? then None else Tries.Remove(t.value, k, H(k), 0)
  }

  ghost predicate CleanRun(H: Hasher, us: seq<Update>, ts: seq<Option<Trie>>) {
    && |ts| == |us| + 1
    && ts[0] == None
    && forall i :: 0 <= i < |us| ==> CleanStep(H, ts[i], us[i], ts[i + 1])
  }

  ghost function KeysIn(us: seq<Update>): set<Key> {
    set u | u in us :: u.key
  }

  lemma {:induction false} MapAfterKeys(us: seq<Update>)
    ensures MapAfter(us).Keys <= KeysIn(us)
  {
    if us != [] {
      MapAfterKeys(us[..|us| - 1]);
    }
  }

  /** In a run that drops no shared digit every root denotes the map built by the same updates. */
  lemma {:induction false} CleanRunDenotes(H: Hasher, us: seq<Update>, ts: seq<Option<Trie>>, i: nat)
    requires CleanRun(H, us, ts) && InjectiveOn(H, KeysIn(us)) && i <= |us|
    ensures Denotes(H, ts[i], MapAfter(us[..i]))
  {
    if i > 0 {
      CleanRunDenotes(H, us, ts, i - 1);
      assert us[..i][..i - 1] == us[..i - 1];
      var t, u, m := ts[i - 1], us[i - 1], MapAfter(us[..i - 1]);
      assert CleanStep(H, t, u, ts[i]);
      MapAfterKeys(us[..i - 1]);
      StepDenotes(H, t, u, ts[i], m);
    }
  }

  lemma StepDenotes(H: Hasher, t: Option<Trie>, u: Update, t': Option<Trie>, m: map<Key, Value>)
    requires Denotes(H, t, m) && CleanStep(H, t, u, t') && InjectiveOn(H, m.Keys + {u.key})
    ensures Denotes(H, t', match u case Put(k, v) => m[k := v] case Delete(k) => m - {k})
  {
    match u {
      case Put(k, v) =>
        if t.Some? {
          InsertIsUpdate(false, H, t.value, m, k, v);
        }
      case Delete(k) =>
        if t.Some? {
          RemoveIsDeletion(H, t.value, m, k);
        }
    }
  }

  /**
   * Every root returned on the way still denotes its own map when the whole run is over:
   * later updates never change earlier versions.
   */
  method RunUpdates(cas: Cas, us: seq<Update>, ghost ts: seq<Option<Trie>>, ghost U: iset<Record>)
    returns (roots: seq<Option<Hash>>)
    requires Ready(cas, U)
    requires CleanRun(cas.H, us, ts) && InjectiveOn(cas.H, KeysIn(us))
    requires forall u :: u in us && u.Put? ==> EntryFits(u.key, u.value)
    requires forall i :: 0 <= i < |ts| ==> NodesInRoot(cas.H, ts[i], U)
    modifies cas
    ensures |roots| == |us| + 1 && Extends(old(cas.objects), cas.objects)
    ensures forall i :: 0 <= i <= |us| ==>
              RootIs(cas.H, cas.objects, roots[i], ts[i]) && Denotes(cas.H, ts[i], MapAfter(us[..i]))
  {
    roots := [None];
    for i := 0 to |us|
      invariant Ready(cas, U) && Extends(old(cas.objects), cas.objects)
      invariant |roots| == i + 1
      invariant forall j :: 0 <= j <= i ==> RootIs(cas.H, cas.objects, roots[j], ts[j])
    {
      ghost var before := cas.objects;
      assert us[i] in us && CleanStep(cas.H, ts[i], us[i], ts[i + 1]) && NodesInRoot(cas.H, ts[i + 1], U);
      var root := RunUpdate(cas, roots[i], us[i], ts[i], ts[i + 1], U);
      RootsPersist(cas.H, before, cas.objects, roots, ts[..i + 1]);
      roots := roots + [root];
    }
    forall i | 0 <= i <= |us|
      ensures Denotes(cas.H, ts[i], MapAfter(us[..i]))
    {
      CleanRunDenotes(cas.H, us, ts, i);
    }
  }

  method RunUpdate(cas: Cas, root: Option<Hash>, u: Update,
                   ghost t: Option<Trie>, ghost t': Option<Trie>, ghost U: iset<Record>)
    returns (root': Option<Hash>)
    requires Ready(cas, U) && RootIs(cas.H, cas.objects, root, t)
    requires CleanStep(cas.H, t, u, t') && NodesInRoot(cas.H, t', U)
    requires u.Put? ==> EntryFits(u.key, u.value)
    modifies cas
    ensures Ready(cas, U) && Extends(old(cas.objects), cas.objects)
    ensures RootIs(cas.H, cas.objects, root', t')
  {
    match u {
      case Put(k, v) =>
        var r := Insert(cas, root, k, v, t, U);
        root' := Some(r.value);
      case Delete(k) =>
        var r := Remove(cas, root, k, t, U);
        root' := r.value;
    }
  }

  lemma RootsPersist(H: Hasher, a: Objects, b: Objects, roots: seq<Option<Hash>>, ts: seq<Option<Trie>>)
    requires |roots| == |ts| && Extends(a, b)
    requires forall i :: 0 <= i < |ts| ==> RootIs(H, a, roots[i], ts[i])
    ensures forall i :: 0 <= i < |ts| ==> RootIs(H, b, roots[i], ts[i])
  {
    forall i | 0 <= i < |ts| && ts[i].Some?
      ensures RootIs(H, b, roots[i], ts[i])
    {
      assert RootIs(H, a, roots[i], ts[i]);
      StoredExtends(H, a, b, ts[i].value);
    }
  }
}
