/** A trie whose leaves sit under the digits of their own key hashes is a finite map. */
module TrieMaps {
  import opened Bytes
  import opened Words
  import opened Slots
  import opened Tries
  import opened Listings

  /** Every key below `t` has digit `b` at `depth`. */
  ghost predicate Under(H: Hasher, t: Trie, depth: nat, b: nat) {
    forall e :: e in Entries(t) ==> Digit(H(e.0), depth) == b
  }

  /** Every leaf below `t` sits under the digits of its key hash from `depth` on. */
  ghost predicate Placed(H: Hasher, t: Trie, depth: nat)
    decreases t
  {
    t.Fork? ==>
      && depth <= 51
      && t.children != []
      && |t.children| == Count(t.bitmap)
      && forall b :: 0 <= b < 32 && Child(t, b).Some? ==>
           Placed(H, Child(t, b).value, depth + 1) && Under(H, Child(t, b).value, depth, b)
  }

  /** No two of the keys share a hash. */
  ghost predicate HashesApart(H: Hasher, t: Trie, key: Key) {
    forall e :: e in Entries(t) && e.0 != key ==> H(e.0) != H(key)
  }

  lemma {:induction false} PlacedShape(H: Hasher, t: Trie, depth: nat)
    requires Placed(H, t, depth)
    ensures Shape(t)
    decreases t
  {
    if t.Fork? {
      forall c | c in t.children
        ensures Shape(c)
      {
        var i :| 0 <= i < |t.children| && t.children[i] == c;
        var b := Select(t.bitmap, i);
        assert Child(t, b) == Some(c);
        PlacedShape(H, c, depth + 1);
      }
    }
  }

  /** In a placed fork an entry can only sit below the digit of its key. */
  lemma InPlacedFork(H: Hasher, t: Trie, depth: nat, e: (Key, Value))
    requires t.Fork? && Placed(H, t, depth)
    ensures e in Entries(t) <==>
              var c := Child(t, Digit(H(e.0), depth)); c.Some? && e in Entries(c.value)
  {
    InFork(t.bitmap, t.children, e);
    if b :| 0 <= b < 32 && InSlot(t.bitmap, t.children, b, e) {
      assert Child(t, b).Some? && Under(H, Child(t, b).value, depth, b);
    }
    var d := Digit(H(e.0), depth);
    assert InSlot(t.bitmap, t.children, d, e) <==> Child(t, d).Some? && e in Entries(Child(t, d).value);
  }

  /** Lookup in a placed trie finds exactly the entries. */
  lemma {:induction false} GetIffEntry(H: Hasher, t: Trie, depth: nat, key: Key, value: Value)
    requires Placed(H, t, depth)
    ensures Shape(t)
    ensures Get(t, key, H(key), depth) == Some(value) <==> (key, value) in Entries(t)
    decreases t
  {
    PlacedShape(H, t, depth);
    if t.Fork? {
      InPlacedFork(H, t, depth, (key, value));
      var c := Child(t, Digit(H(key), depth));
      if c.Some? {
        GetIffEntry(H, c.value, depth + 1, key, value);
      }
    }
  }

  // Entries are listed once.

  ghost predicate Disjoint(s: Trie, t: Trie) {
    forall e, f :: e in Entries(s) && f in Entries(t) ==> e.0 != f.0
  }

  lemma {:induction false} AllDistinct(ts: seq<Trie>)
    requires forall i :: 0 <= i < |ts| ==> DistinctKeys(Entries(ts[i]))
    requires forall i, j :: 0 <= i < j < |ts| ==> Disjoint(ts[i], ts[j])
    ensures DistinctKeys(AllEntries(ts))
  {
    if ts != [] {
      AllDistinct(ts[1..]);
      var first, rest := Entries(ts[0]), AllEntries(ts[1..]);
      forall e, f | e in first && f in rest
        ensures e.0 != f.0
      {
        InAllEntries(ts[1..], f);
        var j :| 0 <= j < |ts[1..]| && f in Entries(ts[1..][j]);
        assert Disjoint(ts[0], ts[j + 1]);
      }
    }
  }

  lemma {:induction false} EntriesDistinct(H: Hasher, t: Trie, depth: nat)
    requires Placed(H, t, depth)
    ensures DistinctKeys(Entries(t))
    decreases t
  {
    if t.Fork? {
      forall i | 0 <= i < |t.children|
        ensures DistinctKeys(Entries(t.children[i]))
      {
        var b := Select(t.bitmap, i);
        assert Child(t, b) == Some(t.children[i]);
        EntriesDistinct(H, t.children[i], depth + 1);
      }
      forall i, j | 0 <= i < j < |t.children|
        ensures Disjoint(t.children[i], t.children[j])
      {
        var b := Select(t.bitmap, i);
        var c := Select(t.bitmap, j);
        assert Child(t, b) == Some(t.children[i]) && Child(t, c) == Some(t.children[j]);
        assert Under(H, t.children[i], depth, b) && Under(H, t.children[j], depth, c);
      }
      AllDistinct(t.children);
    }
  }

  // Changing one slot of a placed fork.

  lemma PlacedUpdate(H: Hasher, t: Trie, depth: nat, t': Trie, b: nat, x: Option<Trie>)
    requires t.Fork? && Placed(H, t, depth) && b < 32
    requires t'.Fork? && t'.children != [] && |t'.children| == Count(t'.bitmap)
    requires forall a :: 0 <= a < 32 ==>
               Slot(t'.bitmap, t'.children, a) == if a == b then x else Slot(t.bitmap, t.children, a)
    requires x.Some? ==> Placed(H, x.value, depth + 1) && Under(H, x.value, depth, b)
    ensures Placed(H, t', depth)
  {
    forall a | 0 <= a < 32 && Child(t', a).Some?
      ensures Placed(H, Child(t', a).value, depth + 1) && Under(H, Child(t', a).value, depth, a)
    {
      if a != b {
        assert Child(t', a) == Child(t, a);
      }
    }
  }

  // A leaf and a new entry with different hashes.

  /** A fork kept for every shared digit leaves both entries in their places; so does a pair with no shared digit. */
  lemma {:induction false} ExpandPlaced(
    keep: bool, H: Hasher, prior: Trie, added: Trie, depth: nat)
    requires prior.Entry? && added.Entry?
    requires Diverge(H(prior.key), H(added.key), depth)
    requires DivergeDepth(H(prior.key), H(added.key), depth) <= 51
    requires keep || Digit(H(prior.key), depth) != Digit(H(added.key), depth)
    ensures Placed(H, Expand(keep, prior, H(prior.key), added, H(added.key), depth), depth)
    decreases DivergeDepth(H(prior.key), H(added.key), depth) - depth
  {
    var oh, nh := H(prior.key), H(added.key);
    var c, d := Digit(oh, depth), Digit(nh, depth);
    var t := Expand(keep, prior, oh, added, nh, depth);
    if c == d {
      DivergeLater(oh, nh, depth);
      ExpandPlaced(keep, H, prior, added, depth + 1);
      ExpandUnder(keep, H, prior, added, depth);
      SinglePlaced(H, Expand(keep, prior, oh, added, nh, depth + 1), depth, c);
    } else {
      PairPlaced(H, prior, added, depth, t);
    }
  }

  lemma ExpandUnder(keep: bool, H: Hasher, prior: Trie, added: Trie, depth: nat)
    requires prior.Entry? && added.Entry? && Diverge(H(prior.key), H(added.key), depth + 1)
    requires Digit(H(prior.key), depth) == Digit(H(added.key), depth)
    ensures Under(H, Expand(keep, prior, H(prior.key), added, H(added.key), depth + 1), depth,
                  Digit(H(prior.key), depth))
  {
    ExpandSplices(keep, prior, H(prior.key), added, H(added.key), depth + 1);
  }

  lemma SinglePlaced(H: Hasher, deeper: Trie, depth: nat, c: nat)
    requires depth <= 51 && c < 32 && Placed(H, deeper, depth + 1) && Under(H, deeper, depth, c)
    ensures Placed(H, Fork(Single(c), [deeper]), depth)
  {
    var t := Fork(Single(c), [deeper]);
    SlotSingle(c, deeper);
    forall b | 0 <= b < 32 && Child(t, b).Some?
      ensures Placed(H, Child(t, b).value, depth + 1) && Under(H, Child(t, b).value, depth, b)
    {
      assert Child(t, b) == Slot(Single(c), [deeper], b);
    }
  }

  lemma PairPlaced(H: Hasher, prior: Trie, added: Trie, depth: nat, t: Trie)
    requires depth <= 51 && prior.Entry? && added.Entry?
    requires var c, d := Digit(H(prior.key), depth), Digit(H(added.key), depth);
             c != d && t == Fork(Single(c)[d := true], InOrder(c, prior, d, added))
    ensures Placed(H, t, depth)
  {
    var c, d := Digit(H(prior.key), depth), Digit(H(added.key), depth);
    SlotPair(c, prior, d, added, t.bitmap, t.children);
    forall b | 0 <= b < 32 && Child(t, b).Some?
      ensures Placed(H, Child(t, b).value, depth + 1) && Under(H, Child(t, b).value, depth, b)
    {
      assert Child(t, b) == Slot(t.bitmap, t.children, b);
    }
  }

  // Insertion.

  /** Keys with different hashes that agree on all digits so far can be told apart by a later digit below 52. */
  lemma LaterDigit(a: Hash, b: Hash, depth: nat)
    requires a != b && Agree(a, b, depth)
    ensures depth <= 51 && Diverge(a, b, depth) && DivergeDepth(a, b, depth) <= 51
  {
    if Agree(a, b, 52) {
      DigitsSeparate(a, b);
    }
    var d :| 0 <= d < 52 && Digit(a, d) != Digit(b, d);
    assert d >= depth;
    assert Diverge(a, b, depth);
  }

  ghost predicate AllAgree(H: Hasher, t: Trie, kh: Hash, depth: nat) {
    forall e :: e in Entries(t) ==> Agree(H(e.0), kh, depth)
  }

  lemma AgreeBelow(H: Hasher, t: Trie, key: Key, depth: nat)
    requires t.Fork? && Placed(H, t, depth) && AllAgree(H, t, H(key), depth) && HashesApart(H, t, key)
    requires Next(t, H(key), depth).Some?
    ensures var c := Next(t, H(key), depth).value;
            Placed(H, c, depth + 1) && AllAgree(H, c, H(key), depth + 1) && HashesApart(H, c, key)
  {
    var b := Digit(H(key), depth);
    var c := Child(t, b).value;
    forall e | e in Entries(c)
      ensures e in Entries(t) && Agree(H(e.0), H(key), depth + 1)
    {
      assert Under(H, c, depth, b);
      InPlacedFork(H, t, depth, e);
    }
  }

  /** On a placed trie the recursion of an insertion ends: no leaf on its path shares the hash of the key. */
  lemma {:induction false} PlacedSeparable(H: Hasher, t: Trie, key: Key, depth: nat)
    requires Placed(H, t, depth) && AllAgree(H, t, H(key), depth) && HashesApart(H, t, key)
    ensures Shape(t) && Separable(H, t, key, H(key), depth)
    decreases t
  {
    PlacedShape(H, t, depth);
    match t {
      case Entry(k, v) =>
        if k != key {
          assert (k, v) in Entries(t);
          LaterDigit(H(k), H(key), depth);
        }
      case Fork(_, _) =>
        var n := Next(t, H(key), depth);
        if n.Some? {
          AgreeBelow(H, t, key, depth);
          PlacedSeparable(H, n.value, key, depth + 1);
        }
    }
  }

  /** Insertion into a placed trie adds or replaces one entry, whichever way it goes. */
  lemma InsertEntries(keep: bool, H: Hasher, t: Trie, key: Key, value: Value, depth: nat, e: (Key, Value))
    requires Placed(H, t, depth) && Shape(t) && Separable(H, t, key, H(key), depth)
    ensures e in Entries(Insert(keep, H, t, key, value, H(key), depth)) <==>
              if e.0 == key then e.1 == value else e in Entries(t)
  {
    InsertSplices(keep, H, t, key, value, H(key), depth);
    PlacedFinds(H, t, key, depth);
    SpliceMembers(Entries(t), Place(H, t, key, H(key), depth), key, Get(t, key, H(key), depth), value, e);
  }

  /** A placed trie lists keys once, and lookup finds those that are listed. */
  lemma PlacedFinds(H: Hasher, t: Trie, key: Key, depth: nat)
    requires Placed(H, t, depth) && Shape(t)
    ensures DistinctKeys(Entries(t)) && (KeyListed(Entries(t), key) ==> Get(t, key, H(key), depth).Some?)
  {
    EntriesDistinct(H, t, depth);
    if i :| 0 <= i < |Entries(t)| && Entries(t)[i].0 == key {
      GetIffEntry(H, t, depth, key, Entries(t)[i].1);
      assert (key, Entries(t)[i].1) in Entries(t);
    }
  }

  lemma StillUnder(keep: bool, H: Hasher, c: Trie, key: Key, value: Value, depth: nat)
    requires Placed(H, c, depth + 1) && Shape(c) && Separable(H, c, key, H(key), depth + 1)
    requires Under(H, c, depth, Digit(H(key), depth))
    ensures Under(H, Insert(keep, H, c, key, value, H(key), depth + 1), depth, Digit(H(key), depth))
  {
    forall e | e in Entries(Insert(keep, H, c, key, value, H(key), depth + 1))
      ensures Digit(H(e.0), depth) == Digit(H(key), depth)
    {
      InsertEntries(keep, H, c, key, value, depth + 1, e);
    }
  }

  /** Insertion keeps every leaf in its place, provided it shares no digit with a leaf or keeps the shared forks. */
  lemma {:induction false} InsertPlaced(
    keep: bool, H: Hasher, t: Trie, key: Key, value: Value, depth: nat)
    requires Placed(H, t, depth) && AllAgree(H, t, H(key), depth) && HashesApart(H, t, key)
    requires Shape(t) && Separable(H, t, key, H(key), depth)
    requires keep || !SharesDigit(H, t, key, H(key), depth)
    ensures Placed(H, Insert(keep, H, t, key, value, H(key), depth), depth)
    decreases t
  {
    var t' := Insert(keep, H, t, key, value, H(key), depth);
    match t {
      case Entry(_, _) =>
        BesidePlaced(keep, H, t, key, value, depth);
      case Fork(bm, children) =>
        var b := Digit(H(key), depth);
        match Next(t, H(key), depth) {
          case Some(c) =>
            AgreeBelow(H, t, key, depth);
            InsertPlaced(keep, H, c, key, value, depth + 1);
            StillUnder(keep, H, c, key, value, depth);
            ReplacePlaced(H, t, depth, b, Insert(keep, H, c, key, value, H(key), depth + 1));
          case None =>
            AddPlaced(H, t, depth, b, Entry(key, value));
        }
    }
  }

  lemma BesidePlaced(keep: bool, H: Hasher, t: Trie, key: Key, value: Value, depth: nat)
    requires t.Entry? && Placed(H, t, depth) && AllAgree(H, t, H(key), depth) && HashesApart(H, t, key)
    requires Separable(H, t, key, H(key), depth) && (keep || !SharesDigit(H, t, key, H(key), depth))
    ensures Placed(H, Insert(keep, H, t, key, value, H(key), depth), depth)
  {
    if t.key != key {
      assert (t.key, t.value) in Entries(t);
      LaterDigit(H(t.key), H(key), depth);
      ExpandPlaced(keep, H, t, Entry(key, value), depth);
    }
  }

  lemma ReplacePlaced(H: Hasher, t: Trie, depth: nat, b: nat, x: Trie)
    requires t.Fork? && Placed(H, t, depth) && Shape(t) && b < 32 && t.bitmap[b]
    requires Placed(H, x, depth + 1) && Under(H, x, depth, b)
    ensures Rank(t.bitmap, b) < |t.children|
    ensures Placed(H, Fork(t.bitmap, t.children[Rank(t.bitmap, b) := x]), depth)
  {
    SlotReplace(t.bitmap, t.children, b, x);
    PlacedUpdate(H, t, depth, Fork(t.bitmap, t.children[Rank(t.bitmap, b) := x]), b, Some(x));
  }

  lemma AddPlaced(H: Hasher, t: Trie, depth: nat, b: nat, x: Trie)
    requires t.Fork? && Placed(H, t, depth) && Shape(t) && b < 32 && !t.bitmap[b]
    requires Placed(H, x, depth + 1) && Under(H, x, depth, b)
    ensures Rank(t.bitmap, b) <= |t.children|
    ensures Placed(H, Fork(t.bitmap[b := true], InsertAt(t.children, Rank(t.bitmap, b), x)), depth)
  {
    SlotAdd(t.bitmap, t.children, b, x);
    PlacedUpdate(H, t, depth, Fork(t.bitmap[b := true], InsertAt(t.children, Rank(t.bitmap, b), x)), b, Some(x));
  }

  // Removal.

  /** Removal takes out the entry of the key and keeps the other leaves in their places. */
  lemma {:induction false} RemovePlaced(H: Hasher, t: Trie, key: Key, depth: nat)
    requires Placed(H, t, depth)
    ensures Shape(t)
    ensures var r := Remove(t, key, H(key), depth);
            && (r.Some? ==> Placed(H, r.value, depth))
            && forall e :: (r.Some? && e in Entries(r.value)) <==> (e.0 != key && e in Entries(t))
    decreases t
  {
    PlacedShape(H, t, depth);
    match t {
      case Entry(_, _) =>
      case Fork(bm, children) =>
        var b := Digit(H(key), depth);
        match Next(t, H(key), depth) {
          case None =>
            AbsentKey(H, t, key, depth);
          case Some(c) =>
            RemovePlaced(H, c, key, depth + 1);
            match Remove(c, key, H(key), depth + 1) {
              case Some(c') =>
                SlotReplace(bm, children, b, c');
                RemoveStep(H, t, key, depth, Fork(bm, children[Rank(bm, b) := c']), Some(c'));
              case None =>
                SlotRemove(bm, children, b);
                var rest := RemoveAt(children, Rank(bm, b));
                RemoveLast(H, t, key, depth, rest);
                if rest != [] {
                  RemoveStep(H, t, key, depth, Fork(bm[b := false], rest), None);
                }
            }
        }
    }
  }

  lemma AbsentKey(H: Hasher, t: Trie, key: Key, depth: nat)
    requires t.Fork? && Placed(H, t, depth) && Next(t, H(key), depth).None?
    ensures forall e :: e in Entries(t) ==> e.0 != key
  {
    forall e | e in Entries(t)
      ensures e.0 != key
    {
      InPlacedFork(H, t, depth, e);
    }
  }

  lemma RemoveStep(H: Hasher, t: Trie, key: Key, depth: nat, t': Trie, x: Option<Trie>)
    requires t.Fork? && Placed(H, t, depth) && Next(t, H(key), depth).Some?
    requires t'.Fork? && t'.children != [] && |t'.children| == Count(t'.bitmap)
    requires forall a :: 0 <= a < 32 ==>
               Slot(t'.bitmap, t'.children, a)
               == if a == Digit(H(key), depth) then x else Slot(t.bitmap, t.children, a)
    requires x.Some? ==> Placed(H, x.value, depth + 1)
    requires var c := Next(t, H(key), depth).value;
             forall e :: (x.Some? && e in Entries(x.value)) <==> (e.0 != key && e in Entries(c))
    ensures Placed(H, t', depth)
    ensures forall e :: e in Entries(t') <==> e.0 != key && e in Entries(t)
  {
    var b := Digit(H(key), depth);
    var c := Child(t, b).value;
    assert Under(H, c, depth, b);
    PlacedUpdate(H, t, depth, t', b, x);
    forall e
      ensures e in Entries(t') <==> e.0 != key && e in Entries(t)
    {
      InPlacedFork(H, t, depth, e);
      InPlacedFork(H, t', depth, e);
      var d := Digit(H(e.0), depth);
      assert Child(t', d) == if d == b then x else Child(t, d);
    }
  }

  lemma RemoveLast(H: Hasher, t: Trie, key: Key, depth: nat, rest: seq<Trie>)
    requires t.Fork? && Placed(H, t, depth) && Next(t, H(key), depth).Some?
    requires var b := Digit(H(key), depth);
             Rank(t.bitmap, b) < |t.children| && rest == RemoveAt(t.children, Rank(t.bitmap, b))
    requires forall e :: e in Entries(Next(t, H(key), depth).value) ==> e.0 == key
    ensures rest == [] ==> forall e :: e in Entries(t) ==> e.0 == key
  {
    if rest == [] {
      forall e | e in Entries(t)
        ensures e.0 == key
      {
        InAllEntries(t.children, e);
      }
    }
  }

  // The case that drops a shared digit.

  /** The entry that the insertion collides with. */
  ghost function Rival(H: Hasher, t: Trie, key: Key, kh: Hash, depth: nat): (e: (Key, Value))
    requires Shape(t) && SharesDigit(H, t, key, kh, depth)
    ensures e.0 != key
    decreases t
  {
    if t.Entry? then (t.key, t.value) else Rival(H, Next(t, kh, depth).value, key, kh, depth + 1)
  }

  /** The number of forks on the path of a key. */
  function Forks(t: Trie, kh: Hash, depth: nat): nat
    requires Shape(t)
    decreases t
  {
    match t
    case Entry(_, _) => 0
    case Fork(_, _) =>
      match Next(t, kh, depth)
      case None => 1
      case Some(c) => 1 + Forks(c, kh, depth + 1)
  }

  lemma {:induction false} ExpandForgets(prior: Trie, oh: Hash, added: Trie, nh: Hash, depth: nat)
    requires prior.Entry? && added.Entry? && Diverge(oh, nh, depth)
    ensures var t := Expand(false, prior, oh, added, nh, depth);
            && t.Fork? && Shape(t)
            && forall b :: 0 <= b < 32 ==> Child(t, b) == None || Child(t, b) == Some(prior) || Child(t, b) == Some(added)
    decreases DivergeDepth(oh, nh, depth) - depth
  {
    var c, d := Digit(oh, depth), Digit(nh, depth);
    if c == d {
      DivergeLater(oh, nh, depth);
      ExpandForgets(prior, oh, added, nh, depth + 1);
    } else {
      var t := Expand(false, prior, oh, added, nh, depth);
      SlotPair(c, prior, d, added, t.bitmap, t.children);
      assert forall b :: 0 <= b < 32 ==> Child(t, b) == Slot(t.bitmap, t.children, b);
    }
  }

  lemma {:induction false} InsertShape(H: Hasher, t: Trie, key: Key, value: Value, kh: Hash, depth: nat)
    requires Shape(t) && Separable(H, t, key, kh, depth)
    ensures Shape(Insert(false, H, t, key, value, kh, depth))
    decreases t
  {
    match t {
      case Entry(k, _) =>
        if k != key {
          ExpandForgets(t, H(k), Entry(key, value), kh, depth);
        }
      case Fork(bm, children) =>
        var b := Digit(kh, depth);
        match Next(t, kh, depth) {
          case Some(c) =>
            InsertShape(H, c, key, value, kh, depth + 1);
            RankBound(bm, b);
            Members(children, Rank(bm, b), Insert(false, H, c, key, value, kh, depth + 1));
          case None =>
            SlotAdd(bm, children, b, Entry(key, value));
            Members(children, Rank(bm, b), Entry(key, value));
        }
    }
  }

  lemma Members<T>(s: seq<T>, i: nat, x: T)
    requires i <= |s|
    ensures forall y :: y in InsertAt(s, i, x) ==> y == x || y in s
    ensures i < |s| ==> forall y :: y in s[i := x] ==> y == x || y in s
  {}

  lemma {:induction false} RivalIsEntry(H: Hasher, t: Trie, key: Key, depth: nat)
    requires Placed(H, t, depth) && Shape(t) && SharesDigit(H, t, key, H(key), depth)
    ensures var e := Rival(H, t, key, H(key), depth);
            e in Entries(t) && (t.Fork? ==> Digit(H(e.0), depth) == Digit(H(key), depth))
    decreases t
  {
    if t.Fork? {
      var c := Next(t, H(key), depth).value;
      RivalIsEntry(H, c, key, depth + 1);
      InChild(H, t, depth, Digit(H(key), depth), Rival(H, c, key, H(key), depth + 1));
    }
  }

  lemma InChild(H: Hasher, t: Trie, depth: nat, b: nat, e: (Key, Value))
    requires t.Fork? && Placed(H, t, depth) && b < 32 && Child(t, b).Some? && e in Entries(Child(t, b).value)
    ensures e in Entries(t) && Digit(H(e.0), depth) == b
  {
    assert Under(H, Child(t, b).value, depth, b);
    InPlacedFork(H, t, depth, e);
  }

  lemma LeafLoses(H: Hasher, t: Trie, key: Key, value: Value, depth: nat)
    requires t.Entry? && Separable(H, t, key, H(key), depth) && SharesDigit(H, t, key, H(key), depth)
    ensures var t' := Insert(false, H, t, key, value, H(key), depth);
            && Shape(t')
            && (Get(t', key, H(key), depth).None? || Get(t', t.key, H(t.key), depth).None?)
  {
    var t' := Insert(false, H, t, key, value, H(key), depth);
    ExpandForgets(t, H(t.key), Entry(key, value), H(key), depth);
    var b := Digit(H(key), depth);
    assert Next(t', H(key), depth) == Child(t', b) && Next(t', H(t.key), depth) == Child(t', b);
  }

  /** After a shared digit is dropped, lookup finds at most one of the two colliding keys. */
  lemma {:induction false} SharedDigitLoses(H: Hasher, t: Trie, key: Key, value: Value, depth: nat)
    requires Placed(H, t, depth) && Shape(t) && Separable(H, t, key, H(key), depth)
    requires SharesDigit(H, t, key, H(key), depth)
    ensures var k, t' := Rival(H, t, key, H(key), depth).0, Insert(false, H, t, key, value, H(key), depth);
            && Shape(t')
            && (Get(t', key, H(key), depth).None? || Get(t', k, H(k), depth).None?)
    decreases t
  {
    if t.Entry? {
      LeafLoses(H, t, key, value, depth);
    } else {
      var k, t' := Rival(H, t, key, H(key), depth).0, Insert(false, H, t, key, value, H(key), depth);
      SharedDigitLoses(H, Next(t, H(key), depth).value, key, value, depth + 1);
      RivalIsEntry(H, t, key, depth);
      InsertShape(H, t, key, value, H(key), depth);
      InsertNext(H, t, key, value, H(key), depth);
      assert Next(t', H(k), depth) == Next(t', H(key), depth);
    }
  }

  lemma InsertNext(H: Hasher, t: Trie, key: Key, value: Value, kh: Hash, depth: nat)
    requires t.Fork? && Shape(t) && Separable(H, t, key, kh, depth) && Next(t, kh, depth).Some?
    ensures var t' := Insert(false, H, t, key, value, kh, depth);
            && t'.Fork? && |t'.children| == Count(t'.bitmap)
            && Next(t', kh, depth) == Some(Insert(false, H, Next(t, kh, depth).value, key, value, kh, depth + 1))
  {
    var b := Digit(kh, depth);
    SlotReplace(t.bitmap, t.children, b, Insert(false, H, Next(t, kh, depth).value, key, value, kh, depth + 1));
  }

  /** Every entry of the trie can be looked up. */
  ghost predicate Retrievable(H: Hasher, t: Trie) {
    Shape(t) && forall e :: e in Entries(t) ==> Get(t, e.0, H(e.0), 0) == Some(e.1)
  }

  lemma PlacedRetrievable(H: Hasher, t: Trie)
    requires Placed(H, t, 0)
    ensures Retrievable(H, t)
  {
    PlacedShape(H, t, 0);
    forall e | e in Entries(t)
      ensures Get(t, e.0, H(e.0), 0) == Some(e.1)
    {
      GetIffEntry(H, t, 0, e.0, e.1);
    }
  }

  /** An insertion leaves every entry retrievable exactly when it shares no digit with a leaf. */
  lemma InsertRetrievable(H: Hasher, t: Trie, key: Key, value: Value)
    requires Placed(H, t, 0) && HashesApart(H, t, key)
    ensures Shape(t) && Separable(H, t, key, H(key), 0)
    ensures Retrievable(H, Insert(false, H, t, key, value, H(key), 0)) <==> !SharesDigit(H, t, key, H(key), 0)
  {
    PlacedSeparable(H, t, key, 0);
    var t' := Insert(false, H, t, key, value, H(key), 0);
    if SharesDigit(H, t, key, H(key), 0) {
      SharedDigitLoses(H, t, key, value, 0);
      RivalIsEntry(H, t, key, 0);
      InsertEntries(false, H, t, key, value, 0, Rival(H, t, key, H(key), 0));
      InsertEntries(false, H, t, key, value, 0, (key, value));
    } else {
      InsertPlaced(false, H, t, key, value, 0);
      PlacedRetrievable(H, t');
    }
  }

  /** Two keys with equal first digits: after the second insertion one of them cannot be found. */
  lemma SharedDigitExample() returns (H: Hasher, t: Trie)
    ensures Placed(H, t, 0) && HashesApart(H, t, [1])
    ensures Shape(t) && Separable(H, t, [1], H([1]), 0)
    ensures !Retrievable(H, Insert(false, H, t, [1], [7], H([1]), 0))
  {
    var other: Hash := ZERO[0 := 32];
    H := s => if s == [1] then other else ZERO;
    t := Entry([0], [5]);
    assert H([1]) == other && H([0]) == ZERO;
    assert other[0] != ZERO[0];
    assert Digit(other, 0) == Digit(ZERO, 0) by {
      assert Pow2(0) == 1;
    }
    InsertRetrievable(H, t, [1], [7]);
  }

  // The size of an insertion.

  lemma {:induction false} CostBound(H: Hasher, t: Trie, key: Key, depth: nat)
    requires depth <= 52 && Placed(H, t, depth) && AllAgree(H, t, H(key), depth) && HashesApart(H, t, key)
    ensures Shape(t)
    ensures Cost(t, key, H(key), depth) <= Forks(t, H(key), depth) + 2
    ensures depth + Cost(t, key, H(key), depth) <= 53
    decreases t
  {
    PlacedShape(H, t, depth);
    match t {
      case Entry(k, v) =>
        if k != key {
          assert (k, v) in Entries(t);
          LaterDigit(H(k), H(key), depth);
        }
      case Fork(_, _) =>
        var n := Next(t, H(key), depth);
        if n.Some? {
          AgreeBelow(H, t, key, depth);
          CostBound(H, n.value, key, depth + 1);
        }
    }
  }

  // Tries as maps.

  ghost predicate Denotes(H: Hasher, t: Option<Trie>, m: map<Key, Value>) {
    match t
    case None => m == map[]
    case Some(t) =>
      Placed(H, t, 0) && forall e :: e in Entries(t) <==> e.0 in m && m[e.0] == e.1
  }

  function Lookup(m: map<Key, Value>, key: Key): Option<Value> {
    if key in m then Some(m[key]) else None
  }

  ghost predicate InjectiveOn(H: Hasher, keys: set<Key>) {
    forall a, b :: a in keys && b in keys && H(a) == H(b) ==> a == b
  }

  lemma GetIsLookup(H: Hasher, t: Trie, m: map<Key, Value>, key: Key)
    requires Denotes(H, Some(t), m)
    ensures Shape(t) && Get(t, key, H(key), 0) == Lookup(m, key)
  {
    PlacedShape(H, t, 0);
    if key in m {
      GetIffEntry(H, t, 0, key, m[key]);
    }
    var g := Get(t, key, H(key), 0);
    if g.Some? {
      GetIffEntry(H, t, 0, key, g.value);
      assert (key, g.value) in Entries(t);
    }
  }

  lemma ApartFromMap(H: Hasher, t: Trie, m: map<Key, Value>, key: Key)
    requires Denotes(H, Some(t), m) && InjectiveOn(H, m.Keys + {key})
    ensures HashesApart(H, t, key) && Shape(t) && Separable(H, t, key, H(key), 0)
  {
    PlacedSeparable(H, t, key, 0);
  }

  lemma InsertIsUpdate(keep: bool, H: Hasher, t: Trie, m: map<Key, Value>, key: Key, value: Value)
    requires Denotes(H, Some(t), m) && InjectiveOn(H, m.Keys + {key})
    ensures Shape(t) && Separable(H, t, key, H(key), 0)
    ensures keep || !SharesDigit(H, t, key, H(key), 0) ==>
              Denotes(H, Some(Insert(keep, H, t, key, value, H(key), 0)), m[key := value])
  {
    ApartFromMap(H, t, m, key);
    if keep || !SharesDigit(H, t, key, H(key), 0) {
      InsertPlaced(keep, H, t, key, value, 0);
      forall e
        ensures e in Entries(Insert(keep, H, t, key, value, H(key), 0)) <==>
                  e.0 in m[key := value] && m[key := value][e.0] == e.1
      {
        InsertEntries(keep, H, t, key, value, 0, e);
      }
    }
  }

  lemma RemoveIsDeletion(H: Hasher, t: Trie, m: map<Key, Value>, key: Key)
    requires Denotes(H, Some(t), m)
    ensures Shape(t)
    ensures Denotes(H, Remove(t, key, H(key), 0), m - {key})
    ensures Remove(t, key, H(key), 0).None? <==> m - {key} == map[]
  {
    RemovePlaced(H, t, key, 0);
    var r := Remove(t, key, H(key), 0);
    if r.None? {
      assert forall k :: k in m ==> (k, m[k]) in Entries(t);
      assert forall k :: k in m ==> k == key;
    } else {
      SomeEntry(H, r.value, 0);
      var e :| e in Entries(r.value);
      assert e.0 in m - {key};
    }
  }

  lemma {:induction false} SomeEntry(H: Hasher, t: Trie, depth: nat)
    requires Placed(H, t, depth)
    ensures exists e :: e in Entries(t)
    decreases t
  {
    match t {
      case Entry(k, v) => assert (k, v) in Entries(t);
      case Fork(bm, children) =>
        var b := Select(bm, 0);
        assert Child(t, b) == Some(children[0]);
        SomeEntry(H, children[0], depth + 1);
        var e :| e in Entries(children[0]);
        InAllEntries(children, e);
        assert e in Entries(t);
    }
  }

  /** The listing holds every pair of the map once and nothing else. */
  lemma EntriesListMap(H: Hasher, t: Trie, m: map<Key, Value>)
    requires Denotes(H, Some(t), m)
    ensures DistinctKeys(Entries(t))
    ensures forall e :: e in Entries(t) <==> e.0 in m && m[e.0] == e.1
    ensures |Entries(t)| == |m|
  {
    EntriesDistinct(H, t, 0);
    var keys := KeysOf(Entries(t));
    assert keys == m.Keys by {
      forall k | k in m
        ensures k in keys
      {
        assert (k, m[k]) in Entries(t);
        KeysOfHas(Entries(t), (k, m[k]));
      }
      forall k | k in keys
        ensures k in m
      {
        KeysOfFrom(Entries(t), k);
      }
    }
    KeysOfSize(Entries(t));
  }

  ghost function KeysOf(s: seq<(Key, Value)>): set<Key> {
    set i | 0 <= i < |s| :: s[i].0
  }

  lemma KeysOfHas(s: seq<(Key, Value)>, e: (Key, Value))
    requires e in s
    ensures e.0 in KeysOf(s)
  {}

  lemma KeysOfFrom(s: seq<(Key, Value)>, k: Key)
    requires k in KeysOf(s)
    ensures exists e :: e in s && e.0 == k
  {
    var i :| 0 <= i < |s| && s[i].0 == k;
    assert s[i] in s;
  }

  lemma {:induction false} KeysOfSize(s: seq<(Key, Value)>)
    requires DistinctKeys(s)
    ensures |KeysOf(s)| == |s|
  {
    if s != [] {
      var rest := s[..|s| - 1];
      KeysOfSize(rest);
      assert KeysOf(s) == KeysOf(rest) + {s[|s| - 1].0};
    }
  }
}
