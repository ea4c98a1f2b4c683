/**
 * What an insertion does to the listing of a trie, for every trie, and what a reader of the listing then sees: the
 * last pair of a key wins.
 */
module Listings {
  import opened Bytes
  import opened Slots
  import opened Tries

  // The listing of a fork, piece by piece.

  lemma {:induction false} AllEntriesConcat(a: seq<Trie>, b: seq<Trie>)
    ensures AllEntries(a + b) == AllEntries(a) + AllEntries(b)
  {
    if a == [] {
      assert a + b == b;
    } else {
      assert (a + b)[1..] == a[1..] + b;
      AllEntriesConcat(a[1..], b);
    }
  }

  lemma OneChild(t: Trie)
    ensures AllEntries([t]) == Entries(t)
  {
    assert [t][1..] == [];
  }

  lemma TwoChildren(s: Trie, t: Trie)
    ensures AllEntries([s, t]) == Entries(s) + Entries(t)
  {
    assert [s, t][1..] == [t];
    OneChild(t);
  }

  lemma EntriesAround(a: seq<Trie>, x: Trie, b: seq<Trie>)
    ensures AllEntries(a + [x] + b) == AllEntries(a) + Entries(x) + AllEntries(b)
  {
    AllEntriesConcat(a + [x], b);
    AllEntriesConcat(a, [x]);
    OneChild(x);
  }

  lemma EntriesReplaced(ts: seq<Trie>, i: nat, x: Trie)
    requires i < |ts|
    ensures AllEntries(ts[i := x]) == AllEntries(ts[..i]) + Entries(x) + AllEntries(ts[i + 1..])
  {
    assert ts[i := x] == ts[..i] + [x] + ts[i + 1..];
    EntriesAround(ts[..i], x, ts[i + 1..]);
  }

  // The place of a key.

  /** Where an insertion puts the key into the listing. */
  ghost function Place(H: Hasher, t: Trie, key: Key, kh: Hash, depth: nat): nat
    requires Shape(t) && Separable(H, t, key, kh, depth)
    decreases t
  {
    match t
    case Entry(k, _) =>
      if k == key then 0 else
        var d := DivergeDepth(H(k), kh, depth);
        if Digit(H(k), d) < Digit(kh, d) then 1 else 0
    case Fork(bm, children) =>
      var b := Digit(kh, depth);
      RankBound(bm, b);
      |AllEntries(children[..Rank(bm, b)])| +
      match Next(t, kh, depth)
      case None => 0
      case Some(c) => Place(H, c, key, kh, depth + 1)
  }

  /** A pair put into a listing: over the one that lookup finds, or between two others. */
  function Spliced(es: seq<(Key, Value)>, at: nat, key: Key, got: Option<Value>, value: Value): seq<(Key, Value)>
    requires at <= |es| && (got.Some? ==> at < |es|)
  {
    if got.Some? then es[at := (key, value)] else InsertAt(es, at, (key, value))
  }

  lemma {:induction false} ExpandSplices(keep: bool, prior: Trie, oh: Hash, added: Trie, nh: Hash, depth: nat)
    requires prior.Entry? && added.Entry? && Diverge(oh, nh, depth)
    ensures var d := DivergeDepth(oh, nh, depth);
            Entries(Expand(keep, prior, oh, added, nh, depth)) ==
            if Digit(oh, d) < Digit(nh, d) then Entries(prior) + Entries(added) else Entries(added) + Entries(prior)
    decreases DivergeDepth(oh, nh, depth) - depth
  {
    var c, d := Digit(oh, depth), Digit(nh, depth);
    if c == d {
      DivergeLater(oh, nh, depth);
      ExpandSplices(keep, prior, oh, added, nh, depth + 1);
      var deeper := Expand(keep, prior, oh, added, nh, depth + 1);
      OneChild(deeper);
    } else {
      TwoChildren(prior, added);
      TwoChildren(added, prior);
    }
  }

  /** The place is in the listing, on the pair that lookup finds if there is one, and the new listing is the splice. */
  ghost predicate SplicedTo(es: seq<(Key, Value)>, at: nat, key: Key, got: Option<Value>, value: Value,
                            es': seq<(Key, Value)>)
  {
    && at <= |es| && (got.Some? ==> at < |es| && es[at] == (key, got.value))
    && es' == Spliced(es, at, key, got, value)
  }

  /** Insertion puts one pair at one place of the listing and leaves the others in order, in every trie. */
  lemma {:induction false} InsertSplices(keep: bool, H: Hasher, t: Trie, key: Key, value: Value, kh: Hash, depth: nat)
    requires Shape(t) && Separable(H, t, key, kh, depth)
    ensures SplicedTo(Entries(t), Place(H, t, key, kh, depth), key, Get(t, key, kh, depth), value,
                      Entries(Insert(keep, H, t, key, value, kh, depth)))
    decreases t
  {
    match t {
      case Entry(_, _) =>
        LeafSplices(keep, H, t, key, value, kh, depth);
      case Fork(bm, children) =>
        var b := Digit(kh, depth);
        RankBound(bm, b);
        match Next(t, kh, depth) {
          case Some(c) =>
            InsertSplices(keep, H, c, key, value, kh, depth + 1);
            SpliceChild(children, Rank(bm, b), Insert(keep, H, c, key, value, kh, depth + 1),
                        Place(H, c, key, kh, depth + 1), key, Get(c, key, kh, depth + 1), value);
          case None =>
            SpliceNew(children, Rank(bm, b), key, value);
        }
    }
  }

  lemma LeafSplices(keep: bool, H: Hasher, t: Trie, key: Key, value: Value, kh: Hash, depth: nat)
    requires t.Entry? && Separable(H, t, key, kh, depth)
    ensures SplicedTo(Entries(t), Place(H, t, key, kh, depth), key, Get(t, key, kh, depth), value,
                      Entries(Insert(keep, H, t, key, value, kh, depth)))
  {
    if t.key != key {
      ExpandSplices(keep, t, H(t.key), Entry(key, value), kh, depth);
    }
  }

  lemma SpliceChild(ts: seq<Trie>, i: nat, x: Trie, at: nat, key: Key, got: Option<Value>, value: Value)
    requires i < |ts| && SplicedTo(Entries(ts[i]), at, key, got, value, Entries(x))
    ensures SplicedTo(AllEntries(ts), |AllEntries(ts[..i])| + at, key, got, value, AllEntries(ts[i := x]))
  {
    EntriesReplaced(ts, i, ts[i]);
    EntriesReplaced(ts, i, x);
    assert ts[i := ts[i]] == ts;
    SpliceMiddle(AllEntries(ts[..i]), Entries(ts[i]), AllEntries(ts[i + 1..]), at, key, got, value, Entries(x));
  }

  lemma SpliceMiddle(a: seq<(Key, Value)>, es: seq<(Key, Value)>, b: seq<(Key, Value)>, at: nat,
                     key: Key, got: Option<Value>, value: Value, es': seq<(Key, Value)>)
    requires SplicedTo(es, at, key, got, value, es')
    ensures SplicedTo(a + es + b, |a| + at, key, got, value, a + es' + b)
  {}

  lemma SpliceNew(ts: seq<Trie>, i: nat, key: Key, value: Value)
    requires i <= |ts|
    ensures SplicedTo(AllEntries(ts), |AllEntries(ts[..i])|, key, None, value,
                      AllEntries(InsertAt(ts, i, Entry(key, value))))
  {
    assert ts == ts[..i] + ts[i..];
    AllEntriesConcat(ts[..i], ts[i..]);
    EntriesAround(ts[..i], Entry(key, value), ts[i..]);
  }

  // Keys listed once.

  predicate KeyListed(es: seq<(Key, Value)>, key: Key) {
    exists i :: 0 <= i < |es| && es[i].0 == key
  }

  predicate DistinctKeys(es: seq<(Key, Value)>) {
    forall i, j :: 0 <= i < j < |es| ==> es[i].0 != es[j].0
  }

  /** What the listing has behind the place of an insertion. */
  function Rest(es: seq<(Key, Value)>, at: nat, got: Option<Value>): seq<(Key, Value)>
    requires at <= |es| && (got.Some? ==> at < |es|)
  {
    if got.Some? then es[at + 1..] else es[at..]
  }

  lemma Parts(es: seq<(Key, Value)>, at: nat, key: Key, got: Option<Value>, value: Value)
    requires at <= |es| && (got.Some? ==> at < |es| && es[at] == (key, got.value))
    ensures Spliced(es, at, key, got, value) == es[..at] + [(key, value)] + Rest(es, at, got)
    ensures es == if got.Some? then es[..at] + [(key, got.value)] + Rest(es, at, got) else es[..at] + Rest(es, at, got)
  {}

  lemma ListedConcat(a: seq<(Key, Value)>, b: seq<(Key, Value)>, k: Key)
    ensures KeyListed(a + b, k) <==> KeyListed(a, k) || KeyListed(b, k)
  {
    if i :| 0 <= i < |a| && a[i].0 == k {
      assert (a + b)[i].0 == k;
    } else if i :| 0 <= i < |b| && b[i].0 == k {
      assert (a + b)[|a| + i].0 == k;
    }
  }

  lemma OnceConcat(a: seq<(Key, Value)>, b: seq<(Key, Value)>)
    ensures DistinctKeys(a + b) <==> DistinctKeys(a) && DistinctKeys(b) && forall k :: !(KeyListed(a, k) && KeyListed(b, k))
  {
    var ab := a + b;
    if DistinctKeys(ab) {
      OnceSplits(a, b);
    } else {
      var i, j :| 0 <= i < j < |ab| && ab[i].0 == ab[j].0;
      if i < |a| <= j {
        assert KeyListed(a, ab[i].0) && KeyListed(b, ab[i].0) by {
          assert a[i].0 == ab[i].0 && b[j - |a|].0 == ab[i].0;
        }
      } else if j < |a| {
        assert a[i].0 == a[j].0;
      } else {
        assert b[i - |a|].0 == b[j - |a|].0;
      }
    }
  }

  lemma OnceSplits(a: seq<(Key, Value)>, b: seq<(Key, Value)>)
    requires DistinctKeys(a + b)
    ensures DistinctKeys(a) && DistinctKeys(b) && forall k :: !(KeyListed(a, k) && KeyListed(b, k))
  {
    var ab := a + b;
    forall i, j | 0 <= i < j < |a|
      ensures a[i].0 != a[j].0
    {
      assert ab[i].0 != ab[j].0;
    }
    forall i, j | 0 <= i < j < |b|
      ensures b[i].0 != b[j].0
    {
      assert ab[|a| + i].0 != ab[|a| + j].0;
    }
    forall k
      ensures !(KeyListed(a, k) && KeyListed(b, k))
    {
      if i :| 0 <= i < |a| && a[i].0 == k {
        forall j | 0 <= j < |b|
          ensures b[j].0 != k
        {
          assert ab[i].0 != ab[|a| + j].0;
        }
      }
    }
  }

  lemma OnceAround(a: seq<(Key, Value)>, e: (Key, Value), b: seq<(Key, Value)>)
    ensures DistinctKeys(a + [e] + b) <==> DistinctKeys(a + b) && !KeyListed(a, e.0) && !KeyListed(b, e.0)
  {
    OnceConcat(a + [e], b);
    OnceConcat(a, [e]);
    OnceConcat(a, b);
    assert forall k :: KeyListed([e], k) <==> k == e.0 by {
      assert [e][0].0 == e.0;
    }
    forall k
      ensures KeyListed(a + [e], k) <==> KeyListed(a, k) || k == e.0
    {
      ListedConcat(a, [e], k);
    }
  }

  /** A splice keeps keys listed once exactly when it does not add a second copy. */
  lemma SpliceOnce(es: seq<(Key, Value)>, at: nat, key: Key, got: Option<Value>, value: Value)
    requires at <= |es| && (got.Some? ==> at < |es| && es[at] == (key, got.value))
    ensures DistinctKeys(Spliced(es, at, key, got, value)) <==> DistinctKeys(es) && (KeyListed(es, key) ==> got.Some?)
  {
    var a, b := es[..at], Rest(es, at, got);
    Parts(es, at, key, got, value);
    OnceAround(a, (key, value), b);
    if got.Some? {
      OnceAround(a, (key, got.value), b);
    } else {
      ListedConcat(a, b, key);
    }
  }

  /** Where keys are listed once and lookup finds what is listed, a splice replaces the pair of its key. */
  lemma SpliceMembers(es: seq<(Key, Value)>, at: nat, key: Key, got: Option<Value>, value: Value, e: (Key, Value))
    requires at <= |es| && (got.Some? ==> at < |es| && es[at] == (key, got.value))
    requires DistinctKeys(es) && (KeyListed(es, key) ==> got.Some?)
    ensures e in Spliced(es, at, key, got, value) <==> if e.0 == key then e.1 == value else e in es
  {
    var a, b := es[..at], Rest(es, at, got);
    Parts(es, at, key, got, value);
    SpliceOnce(es, at, key, got, value);
    OnceAround(a, (key, value), b);
    if e in a {
      var i :| 0 <= i < |a| && a[i] == e;
      assert KeyListed(a, e.0);
    }
    if e in b {
      var i :| 0 <= i < |b| && b[i] == e;
      assert KeyListed(b, e.0);
    }
  }

  // What a reader sees.

  /** The last pair of each key. */
  function Shown(es: seq<(Key, Value)>): map<Key, Value> {
    if es == [] then map[] else
      var last := es[|es| - 1];
      Shown(es[..|es| - 1])[last.0 := last.1]
  }

  lemma {:induction false} ShownKeys(es: seq<(Key, Value)>, k: Key)
    ensures k in Shown(es) <==> KeyListed(es, k)
  {
    if es != [] {
      var n := |es| - 1;
      ShownKeys(es[..n], k);
      if KeyListed(es, k) && es[n].0 != k {
        var i :| 0 <= i < |es| && es[i].0 == k;
        assert es[..n][i].0 == k;
      }
      if i :| 0 <= i < n && es[..n][i].0 == k {
        assert es[i].0 == k;
      }
    }
  }

  lemma {:induction false} ShownConcat(a: seq<(Key, Value)>, b: seq<(Key, Value)>)
    ensures Shown(a + b) == Shown(a) + Shown(b)
  {
    if b == [] {
      assert a + b == a;
    } else {
      var n := |b| - 1;
      assert (a + b)[..|a + b| - 1] == a + b[..n];
      ShownConcat(a, b[..n]);
    }
  }

  /** A copy of the key is listed behind the place where an insertion puts it. */
  predicate Behind(es: seq<(Key, Value)>, at: nat, got: Option<Value>, key: Key) {
    exists i :: at <= i < |es| && (got.Some? ==> at < i) && es[i].0 == key
  }

  lemma BehindIsRest(es: seq<(Key, Value)>, at: nat, got: Option<Value>, key: Key)
    requires at <= |es| && (got.Some? ==> at < |es|)
    ensures Behind(es, at, got, key) <==> KeyListed(Rest(es, at, got), key)
  {
    var rest := Rest(es, at, got);
    var from := if got.Some? then at + 1 else at;
    if i :| at <= i < |es| && (got.Some? ==> at < i) && es[i].0 == key {
      assert rest[i - from].0 == key;
    }
    if i :| 0 <= i < |rest| && rest[i].0 == key {
      assert es[from + i].0 == key;
    }
  }

  /** A splice shows unless a copy of its key is listed behind it, and no other key changes. */
  lemma SpliceShown(es: seq<(Key, Value)>, at: nat, key: Key, got: Option<Value>, value: Value)
    requires at <= |es| && (got.Some? ==> at < |es| && es[at] == (key, got.value))
    ensures Shown(Spliced(es, at, key, got, value)) ==
            if Behind(es, at, got, key) then Shown(es) else Shown(es)[key := value]
  {
    var a, b := es[..at], Rest(es, at, got);
    BehindIsRest(es, at, got, key);
    Parts(es, at, key, got, value);
    ShownAround(a, (key, value), b);
    if got.Some? {
      ShownAround(a, (key, got.value), b);
    } else {
      ShownConcat(a, b);
    }
    ShownKeys(b, key);
    Override(Shown(a), Shown(b), key, value);
    if got.Some? {
      Override(Shown(a), Shown(b), key, got.value);
    }
  }

  lemma Override(m: map<Key, Value>, n: map<Key, Value>, key: Key, value: Value)
    ensures m[key := value] + n == if key in n then m + n else (m + n)[key := value]
  {}

  lemma ShownAround(a: seq<(Key, Value)>, e: (Key, Value), b: seq<(Key, Value)>)
    ensures Shown(a + [e] + b) == Shown(a)[e.0 := e.1] + Shown(b)
  {
    ShownConcat(a + [e], b);
    assert (a + [e])[..|a|] == a;
  }

  lemma {:induction false} ShownIsListed(es: seq<(Key, Value)>, k: Key)
    requires k in Shown(es)
    ensures (k, Shown(es)[k]) in es
  {
    var n := |es| - 1;
    if es[n].0 == k {
      assert es[n] == (k, Shown(es)[k]);
    } else {
      ShownIsListed(es[..n], k);
    }
  }

  /** Keys that are listed once, and found by lookup if listed, are never hidden. */
  lemma OnceNotBehind(es: seq<(Key, Value)>, at: nat, got: Option<Value>, key: Key)
    requires DistinctKeys(es) && (KeyListed(es, key) ==> got.Some?)
    requires at <= |es| && (got.Some? ==> at < |es| && es[at] == (key, got.value))
    ensures !Behind(es, at, got, key)
  {
    forall i | at <= i < |es| && (got.Some? ==> at < i)
      ensures es[i].0 != key
    {
      if got.Some? {
        assert es[at].0 != es[i].0;
      } else {
        assert !KeyListed(es, key);
      }
    }
  }
}
