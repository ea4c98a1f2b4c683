/**
 * The trie as a value: what lookup, insertion and removal do to it, and when it behaves as a finite map.
 * `H` is the content hash; `depth` counts the digits of the key hash already used.
 */
module Tries {
  import opened Bytes
  import opened Words
  import opened Slots

  type Key = seq<byte>
  type Value = seq<byte>

  datatype Trie =
    | Entry(key: Key, value: Value)
    | Fork(bitmap: Word, children: seq<Trie>)

  /** Every fork has one child for each bit of its bitmap. */
  ghost predicate Shape(t: Trie) {
    t.Fork? ==> |t.children| == Count(t.bitmap) && forall c :: c in t.children ==> Shape(c)
  }

  function Child(t: Trie, b: nat): (c: Option<Trie>)
    requires t.Fork? && |t.children| == Count(t.bitmap) && b < 32
    ensures c.Some? ==> c.value in t.children
  {
    RankBound(t.bitmap, b);
    Slot(t.bitmap, t.children, b)
  }

  /** The child of the branch that `kh` takes at `depth`. */
  function Next(t: Trie, kh: Hash, depth: nat): (c: Option<Trie>)
    requires t.Fork? && |t.children| == Count(t.bitmap)
    ensures c.Some? ==> c.value in t.children
  {
    Child(t, Digit(kh, depth))
  }

  function Get(t: Trie, key: Key, kh: Hash, depth: nat): Option<Value>
    requires Shape(t)
    decreases t
  {
    match t
    case Entry(k, v) => if k == key then Some(v) else None
    case Fork(_, _) =>
      match Next(t, kh, depth)
      case None => None
      case Some(c) => Get(c, key, kh, depth + 1)
  }

  /** The entries from left to right. */
  function Entries(t: Trie): seq<(Key, Value)>
    decreases t, 1
  {
    match t
    case Entry(k, v) => [(k, v)]
    case Fork(_, children) => AllEntries(children)
  }

  function AllEntries(ts: seq<Trie>): seq<(Key, Value)>
    decreases ts, 0
  {
    if ts == [] then [] else Entries(ts[0]) + AllEntries(ts[1..])
  }

  // Expanding a leaf into a fork.

  /** The hashes differ in some digit from `depth` on. */
  ghost predicate Diverge(a: Hash, b: Hash, depth: nat) {
    exists d :: d >= depth && Digit(a, d) != Digit(b, d)
  }

  ghost function DivergeDepth(a: Hash, b: Hash, depth: nat): (d: nat)
    requires Diverge(a, b, depth)
    ensures d >= depth && Digit(a, d) != Digit(b, d)
    ensures forall e :: depth <= e < d ==> Digit(a, e) == Digit(b, e)
  {
    var d :| d >= depth && Digit(a, d) != Digit(b, d);
    FirstDifference(a, b, depth, d)
  }

  ghost function FirstDifference(a: Hash, b: Hash, depth: nat, d: nat): (f: nat)
    requires depth <= d && Digit(a, d) != Digit(b, d)
    ensures depth <= f <= d && Digit(a, f) != Digit(b, f)
    ensures forall e :: depth <= e < f ==> Digit(a, e) == Digit(b, e)
    decreases d - depth
  {
    if Digit(a, depth) != Digit(b, depth) then depth else FirstDifference(a, b, depth + 1, d)
  }

  lemma DivergeLater(a: Hash, b: Hash, depth: nat)
    requires Diverge(a, b, depth) && Digit(a, depth) == Digit(b, depth)
    ensures Diverge(a, b, depth + 1)
    ensures DivergeDepth(a, b, depth + 1) == DivergeDepth(a, b, depth)
  {
    var d := DivergeDepth(a, b, depth);
    assert d >= depth + 1;
    var e := DivergeDepth(a, b, depth + 1);
    assert !(d < e) && !(e < d);
  }

  /**
   * A leaf and a new entry under one fork. While the digits are equal the program goes one digit deeper
   * without a fork for the shared digit: that is `keep == false`. With `keep` every shared digit keeps
   * a fork of one branch.
   */
  function Expand(keep: bool, prior: Trie, oh: Hash, added: Trie, nh: Hash, depth: nat): Trie
    requires Diverge(oh, nh, depth)
    decreases DivergeDepth(oh, nh, depth) - depth
  {
    var c, d := Digit(oh, depth), Digit(nh, depth);
    if c == d then
      DivergeLater(oh, nh, depth);
      var deeper := Expand(keep, prior, oh, added, nh, depth + 1);
      if keep then Fork(Single(c), [deeper]) else deeper
    else
      Fork(Single(c)[d := true], InOrder(c, prior, d, added))
  }

  /** On the path of the key, a leaf with another key can be told apart by a later digit. */
  ghost predicate Separable(H: Hasher, t: Trie, key: Key, kh: Hash, depth: nat)
    requires Shape(t)
    decreases t
  {
    match t
    case Entry(k, _) => k == key || Diverge(H(k), kh, depth)
    case Fork(_, _) =>
      var n := Next(t, kh, depth);
      n.Some? ==> Separable(H, n.value, key, kh, depth + 1)
  }

  function Insert(keep: bool, H: Hasher, t: Trie, key: Key, value: Value, kh: Hash, depth: nat): Trie
    requires Shape(t) && Separable(H, t, key, kh, depth)
    decreases t
  {
    match t
    case Entry(k, _) =>
      if k == key then Entry(key, value)
      else Expand(keep, t, H(k), Entry(key, value), kh, depth)
    case Fork(bm, children) =>
      var b := Digit(kh, depth);
      RankBound(bm, b);
      match Next(t, kh, depth)
      case Some(c) =>
        Fork(bm, children[Rank(bm, b) := Insert(keep, H, c, key, value, kh, depth + 1)])
      case None =>
        Fork(bm[b := true], InsertAt(children, Rank(bm, b), Entry(key, value)))
  }

  function Remove(t: Trie, key: Key, kh: Hash, depth: nat): Option<Trie>
    requires Shape(t)
    decreases t
  {
    match t
    case Entry(k, _) => if k == key then None else Some(t)
    case Fork(bm, children) =>
      var b := Digit(kh, depth);
      RankBound(bm, b);
      match Next(t, kh, depth)
      case None => Some(t)
      case Some(c) =>
        match Remove(c, key, kh, depth + 1)
        case Some(c') => Some(Fork(bm, children[Rank(bm, b) := c']))
        case None =>
          var rest := RemoveAt(children, Rank(bm, b));
          if rest == [] then None else Some(Fork(bm[b := false], rest))
  }

  /** The insertion reaches a leaf with another key and the same digit: the case that drops the shared digit. */
  predicate SharesDigit(H: Hasher, t: Trie, key: Key, kh: Hash, depth: nat)
    requires Shape(t)
    decreases t
  {
    match t
    case Entry(k, _) => k != key && Digit(H(k), depth) == Digit(kh, depth)
    case Fork(_, _) =>
      match Next(t, kh, depth)
      case None => false
      case Some(c) => SharesDigit(H, c, key, kh, depth + 1)
  }

  /** The objects an insertion may write: one for each fork on the path, and one or two at its end. */
  function Cost(t: Trie, key: Key, kh: Hash, depth: nat): nat
    requires Shape(t)
    decreases t
  {
    match t
    case Entry(k, _) => if k == key then 1 else 2
    case Fork(_, _) =>
      match Next(t, kh, depth)
      case None => 2
      case Some(c) => 1 + Cost(c, key, kh, depth + 1)
  }

  // Entries of a fork are the entries of its slots.

  lemma {:induction false} InAllEntries(ts: seq<Trie>, e: (Key, Value))
    ensures e in AllEntries(ts) <==> exists i :: 0 <= i < |ts| && e in Entries(ts[i])
  {
    if ts != [] {
      InAllEntries(ts[1..], e);
      if e in AllEntries(ts[1..]) {
        var i :| 0 <= i < |ts[1..]| && e in Entries(ts[1..][i]);
        assert e in Entries(ts[i + 1]);
      }
      if i :| 0 <= i < |ts| && e in Entries(ts[i]) {
        if i > 0 {
          assert e in Entries(ts[1..][i - 1]);
        }
      }
    }
  }

  ghost predicate InSlot(bm: Word, children: seq<Trie>, b: nat, e: (Key, Value))
    requires b < 32 && |children| == Count(bm)
  {
    Slot(bm, children, b).Some? && e in Entries(Slot(bm, children, b).value)
  }

  lemma InFork(bm: Word, children: seq<Trie>, e: (Key, Value))
    requires |children| == Count(bm)
    ensures e in Entries(Fork(bm, children)) <==> exists b :: 0 <= b < 32 && InSlot(bm, children, b, e)
  {
    InAllEntries(children, e);
    if e in AllEntries(children) {
      var i :| 0 <= i < |children| && e in Entries(children[i]);
      var b := Select(bm, i);
      assert InSlot(bm, children, b, e);
    }
    if b :| 0 <= b < 32 && InSlot(bm, children, b, e) {
      RankBound(bm, b);
      assert e in Entries(children[Rank(bm, b)]);
    }
  }
}
