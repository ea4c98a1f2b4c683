/** Five-bit digits of a hash, and the dense child vector as a sparse array of 32 slots. */
module Slots {
  import opened Bytes
  import opened Words

  /** The five bits of the hash that choose a branch at `depth`. */
  function Digit(h: Hash, depth: nat): nat {
    FiveBits(h, depth * 5 / 8, depth * 5 % 8)
  }

  function FiveBits(h: Hash, i: nat, off: nat): nat {
    if i >= 31 then (h[31] / Pow2(off)) % 32 else ((h[i] + 256 * h[i + 1]) / Pow2(off)) % 32
  }

  predicate Agree(a: Hash, b: Hash, depth: nat) {
    forall d :: 0 <= d < depth ==> Digit(a, d) == Digit(b, d)
  }

  /** Below depth 52 a digit is the next group of five bits. */
  lemma DigitIsBits(h: Hash, depth: nat)
    requires depth <= 51
    ensures Digit(h, depth) == FromBits(Group(Pack(h), 5 * depth))
  {
    var i, off := depth * 5 / 8, depth * 5 % 8;
    assert 5 * depth == 8 * i + off;
    FiveBitsIsGroup(h, i, off);
  }

  lemma FiveBitsIsGroup(h: Hash, i: nat, off: nat)
    requires i < 32 && off < 8
    ensures FiveBits(h, i, off) == FromBits(Group(Pack(h), 8 * i + off))
  {
    if i == 31 {
      LastDigit(h, off);
    } else {
      InnerDigit(h, i, off);
    }
  }

  lemma LastDigit(h: Hash, off: nat)
    requires off < 8
    ensures (h[31] / Pow2(off)) % 32 == FromBits(Group(Pack(h), 8 * 31 + off))
  {
    Window(h, 31, 32, off);
    assert h[31..32] == [h[31]];
    assert FromLE([h[31]]) == h[31];
  }

  lemma InnerDigit(h: Hash, i: nat, off: nat)
    requires i < 31 && off < 8
    ensures ((h[i] + 256 * h[i + 1]) / Pow2(off)) % 32 == FromBits(Group(Pack(h), 8 * i + off))
  {
    Window(h, i, i + 2, off);
    assert h[i..i + 2] == [h[i], h[i + 1]];
    TwoBytes(h[i], h[i + 1]);
  }

  lemma TwoBytes(x: byte, y: byte)
    ensures FromLE([x, y]) == x + 256 * y
  {
    assert [x, y][1..] == [y];
    assert FromLE([y]) == y;
  }

  /** That group is the digit of the hash, read as a little-endian number, in base 32. */
  lemma DigitIsBase32(h: Hash, depth: nat)
    requires depth <= 51
    ensures Digit(h, depth) == (FromLE(h) / Pow2(5 * depth)) % 32
  {
    DigitIsBits(h, depth);
    PackIsLE(h);
    GroupIsDigit(Pack(h), 5 * depth);
  }

  /** The next five bits from position `k`, or as many as there are. */
  function Group(bits: seq<bool>, k: nat): seq<bool>
    requires k <= |bits|
  {
    Cut(bits[k..], 5)
  }

  lemma GroupIsDigit(bits: seq<bool>, k: nat)
    requires k <= |bits|
    ensures FromBits(Group(bits, k)) == (FromBits(bits) / Pow2(k)) % 32
  {
    ShiftDrops(bits, k);
    MaskKeeps(bits[k..], 5);
    Powers();
  }

  /** Shifting and masking a few bytes of the hash selects the same bits as slicing all of them. */
  lemma Window(h: Hash, i: nat, j: nat, off: nat)
    requires i < j <= 32 && off < 8 && (j == 32 || off + 5 <= 8 * (j - i))
    ensures (FromLE(h[i..j]) / Pow2(off)) % 32 == FromBits(Group(Pack(h), 8 * i + off))
  {
    var w := Pack(h[i..j]);
    PackSlice(h, i, j);
    PackIsLE(h[i..j]);
    GroupIsDigit(w, off);
    SameGroup(Pack(h), 8 * i, 8 * j, off);
  }

  lemma SameGroup(bits: seq<bool>, lo: nat, hi: nat, off: nat)
    requires lo <= hi <= |bits| && off <= hi - lo && (hi == |bits| || off + 5 <= hi - lo)
    ensures Group(bits[lo..hi], off) == Group(bits, lo + off)
  {}

  /** Different hashes differ in one of their 52 digits. */
  lemma DigitsSeparate(a: Hash, b: Hash)
    requires Agree(a, b, 52)
    ensures a == b
  {
    forall k | 0 <= k < 256
      ensures Pack(a)[k] == Pack(b)[k]
    {
      SameBit(a, b, k / 5, k % 5);
    }
    assert Pack(a) == Pack(b);
    PackInjective(a, b);
  }

  lemma SameBit(a: Hash, b: Hash, d: nat, j: nat)
    requires d <= 51 && j < 5 && 5 * d + j < 256 && Digit(a, d) == Digit(b, d)
    ensures Pack(a)[5 * d + j] == Pack(b)[5 * d + j]
  {
    DigitIsBits(a, d);
    DigitIsBits(b, d);
    var x, y := Group(Pack(a), 5 * d), Group(Pack(b), 5 * d);
    BitsBack(x);
    BitsBack(y);
    assert Pack(a)[5 * d + j] == x[j] && Pack(b)[5 * d + j] == y[j];
  }

  // Counting the set bits below a branch gives its place among the children.

  function Count(s: seq<bool>): nat {
    if s == [] then 0 else (if s[0] then 1 else 0) + Count(s[1..])
  }

  function Rank(bm: Word, b: nat): nat
    requires b <= 32
  {
    Count(bm[..b])
  }

  lemma {:induction false} CountAppend(s: seq<bool>, t: seq<bool>)
    ensures Count(s + t) == Count(s) + Count(t)
  {
    if s == [] {
      assert s + t == t;
    } else {
      assert (s + t)[1..] == s[1..] + t;
      CountAppend(s[1..], t);
    }
  }

  lemma RankStep(bm: Word, b: nat)
    requires b < 32
    ensures Rank(bm, b + 1) == Rank(bm, b) + if bm[b] then 1 else 0
  {
    assert bm[..b + 1] == bm[..b] + [bm[b]];
    CountAppend(bm[..b], [bm[b]]);
  }

  lemma {:induction false} RankMonotone(bm: Word, a: nat, b: nat)
    requires a <= b <= 32
    ensures Rank(bm, a) <= Rank(bm, b)
    decreases b - a
  {
    if a < b {
      RankStep(bm, a);
      RankMonotone(bm, a + 1, b);
    }
  }

  lemma RankBound(bm: Word, b: nat)
    requires b < 32
    ensures bm[b] ==> Rank(bm, b) < Count(bm)
    ensures Rank(bm, b) <= Count(bm)
  {
    RankStep(bm, b);
    RankMonotone(bm, b + 1, 32);
    assert bm[..32] == bm;
  }

  /** Two branches that are present have different places, in branch order. */
  lemma RankInjective(bm: Word, a: nat, b: nat)
    requires a < b < 32 && bm[a]
    ensures Rank(bm, a) < Rank(bm, b)
  {
    RankStep(bm, a);
    RankMonotone(bm, a + 1, b);
  }

  /** Every place belongs to a branch that is present. */
  lemma Select(bm: Word, i: nat) returns (b: nat)
    requires i < Count(bm)
    ensures b < 32 && bm[b] && Rank(bm, b) == i
  {
    b := 0;
    assert bm[..32] == bm;
    while !bm[b] || Rank(bm, b) < i
      invariant b < 32 && Rank(bm, b) <= i
      decreases 32 - b
    {
      RankStep(bm, b);
      if b == 31 {
        assert false;
      }
      b := b + 1;
    }
  }

  /** The child of branch `b`, if the branch is present. */
  function Slot<T>(bm: Word, children: seq<T>, b: nat): Option<T>
    requires b < 32 && |children| == Count(bm)
  {
    RankBound(bm, b);
    if bm[b] then Some(children[Rank(bm, b)]) else None
  }

  /** Setting or clearing one bit moves the places of the higher branches by one. */
  lemma {:induction false} RankAfterUpdate(bm: Word, b: nat, a: nat, x: bool)
    requires b < 32 && a <= 32
    ensures Rank(bm[b := x], a)
         == Rank(bm, a) + (if a > b && x && !bm[b] then 1 else if a > b && !x && bm[b] then -1 else 0)
    decreases a
  {
    if a > 0 {
      RankAfterUpdate(bm, b, a - 1, x);
      RankStep(bm, a - 1);
      RankStep(bm[b := x], a - 1);
    }
  }

  lemma CountAfterUpdate(bm: Word, b: nat, x: bool)
    requires b < 32
    ensures Count(bm[b := x]) == Count(bm) + (if x && !bm[b] then 1 else if !x && bm[b] then -1 else 0)
  {
    RankAfterUpdate(bm, b, 32, x);
    assert bm[..32] == bm && bm[b := x][..32] == bm[b := x];
  }

  function InsertAt<T>(s: seq<T>, i: nat, x: T): seq<T>
    requires i <= |s|
  {
    s[..i] + [x] + s[i..]
  }

  function RemoveAt<T>(s: seq<T>, i: nat): seq<T>
    requires i < |s|
  {
    s[..i] + s[i + 1..]
  }

  /** Replacing a child changes the slot of its branch only. */
  lemma SlotReplace<T>(bm: Word, children: seq<T>, b: nat, x: T)
    requires b < 32 && |children| == Count(bm) && bm[b]
    ensures Rank(bm, b) < |children|
    ensures forall a :: 0 <= a < 32 ==>
              Slot(bm, children[Rank(bm, b) := x], a) == if a == b then Some(x) else Slot(bm, children, a)
  {
    RankBound(bm, b);
    forall a | 0 <= a < 32
      ensures Slot(bm, children[Rank(bm, b) := x], a) == if a == b then Some(x) else Slot(bm, children, a)
    {
      RankBound(bm, a);
      if a < b && bm[a] {
        RankInjective(bm, a, b);
      } else if b < a {
        RankInjective(bm, b, a);
      }
    }
  }

  /** Adding a branch changes the slot of that branch only. */
  lemma SlotAdd<T>(bm: Word, children: seq<T>, b: nat, x: T)
    requires b < 32 && |children| == Count(bm) && !bm[b]
    ensures Rank(bm, b) <= |children| && Count(bm[b := true]) == |children| + 1
    ensures forall a :: 0 <= a < 32 ==>
              Slot(bm[b := true], InsertAt(children, Rank(bm, b), x), a)
              == if a == b then Some(x) else Slot(bm, children, a)
  {
    RankBound(bm, b);
    CountAfterUpdate(bm, b, true);
    var r := Rank(bm, b);
    var more := InsertAt(children, r, x);
    forall a | 0 <= a < 32
      ensures Slot(bm[b := true], more, a) == if a == b then Some(x) else Slot(bm, children, a)
    {
      RankAfterUpdate(bm, b, a, true);
      RankBound(bm, a);
      if a < b && bm[a] {
        RankInjective(bm, a, b);
        assert more[Rank(bm, a)] == children[Rank(bm, a)];
      } else if b < a && bm[a] {
        RankMonotone(bm, b, a);
        assert more[Rank(bm, a) + 1] == children[Rank(bm, a)];
      }
    }
  }

  /** Removing a branch empties the slot of that branch only. */
  lemma SlotRemove<T>(bm: Word, children: seq<T>, b: nat)
    requires b < 32 && |children| == Count(bm) && bm[b]
    ensures Rank(bm, b) < |children| && Count(bm[b := false]) == |children| - 1
    ensures forall a :: 0 <= a < 32 ==>
              Slot(bm[b := false], RemoveAt(children, Rank(bm, b)), a)
              == if a == b then None else Slot(bm, children, a)
  {
    RankBound(bm, b);
    CountAfterUpdate(bm, b, false);
    var r := Rank(bm, b);
    var fewer := RemoveAt(children, r);
    forall a | 0 <= a < 32
      ensures Slot(bm[b := false], fewer, a) == if a == b then None else Slot(bm, children, a)
    {
      RankAfterUpdate(bm, b, a, false);
      RankBound(bm, a);
      if a < b && bm[a] {
        RankInjective(bm, a, b);
        assert fewer[Rank(bm, a)] == children[Rank(bm, a)];
      } else if b < a && bm[a] {
        RankInjective(bm, b, a);
        assert fewer[Rank(bm, a) - 1] == children[Rank(bm, a)];
      }
    }
  }

  function Single(b: nat): Word
    requires b < 32
  {
    ZEROS[b := true]
  }

  lemma CountZeros()
    ensures Count(ZEROS) == 0
  {
    CountNone(ZEROS);
  }

  lemma {:induction false} CountNone(s: seq<bool>)
    requires forall i :: 0 <= i < |s| ==> !s[i]
    ensures Count(s) == 0
  {
    if s != [] {
      CountNone(s[1..]);
    }
  }

  lemma SlotSingle<T>(b: nat, x: T)
    requires b < 32
    ensures Count(Single(b)) == 1
    ensures forall a :: 0 <= a < 32 ==> Slot(Single(b), [x], a) == if a == b then Some(x) else None
  {
    CountZeros();
    SlotAdd(ZEROS, [], b, x);
    RankBound(ZEROS, b);
    assert InsertAt([], Rank(ZEROS, b), x) == [x];
  }

  function InOrder<T>(b: nat, x: T, c: nat, y: T): seq<T> {
    if b < c then [x, y] else [y, x]
  }

  /** The two-branch node: children in branch order. */
  lemma SlotPair<T>(b: nat, x: T, c: nat, y: T, bm: Word, children: seq<T>)
    requires b < 32 && c < 32 && b != c
    requires bm == Single(b)[c := true] && children == InOrder(b, x, c, y)
    ensures Count(bm) == |children|
    ensures forall a :: 0 <= a < 32 ==>
              Slot(bm, children, a) == if a == b then Some(x) else if a == c then Some(y) else None
  {
    SlotSingle(b, x);
    SlotAdd(Single(b), [x], c, y);
    RankAfterUpdate(ZEROS, b, c, true);
    CountNone(ZEROS[..c]);
    var more := InsertAt([x], Rank(Single(b), c), y);
    assert more == children;
    forall a | 0 <= a < 32
      ensures Slot(bm, children, a) == if a == b then Some(x) else if a == c then Some(y) else None
    {
      assert Slot(Single(b), [x], a) == if a == b then Some(x) else None;
      assert Slot(Single(b)[c := true], more, a) == if a == c then Some(y) else Slot(Single(b), [x], a);
    }
  }
}
