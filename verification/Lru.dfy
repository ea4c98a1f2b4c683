/** The bounded map used for caches: insertion order decides what is evicted. */
module Lru {
  import opened Bytes

  lemma {:induction false} DistinctSize<K>(s: seq<K>, keys: set<K>)
    requires Distinct(s) && forall k :: k in keys <==> k in s
    ensures |keys| == |s|
  {
    if s != [] {
      var last := s[|s| - 1];
      DistinctSize(s[..|s| - 1], keys - {last});
    }
  }

  lemma DropOldest<K, V>(order: seq<K>, entries: map<K, V>)
    requires order != [] && Distinct(order) && forall k :: k in entries <==> k in order
    ensures Distinct(order[1..]) && forall k :: k in entries - {order[0]} <==> k in order[1..]
    ensures |entries - {order[0]}| == |order| - 1
  {
    assert order == [order[0]] + order[1..];
    DistinctSize(order[1..], (entries - {order[0]}).Keys);
  }

  class LruMap<K(==,!new), V> {
    var entries: map<K, V>
    var order: seq<K>
    const cap: nat

    ghost predicate Valid()
      reads this
    {
      && 1 <= cap
      && |order| <= cap
      && Distinct(order)
      && forall k :: k in entries <==> k in order
    }

    constructor (limit: nat)
      ensures Valid() && entries == map[] && order == []
      ensures cap == if limit == 0 then 1 else limit
    {
      entries, order := map[], [];
      cap := if limit == 0 then 1 else limit;
    }

    /** The new pair is cached; what else is cached was cached before; the oldest key gives way when full. */
    method Insert(key: K, value: V)
      requires Valid()
      modifies this
      ensures Valid()
      ensures key in entries && entries[key] == value
      ensures forall k :: k in entries && k != key ==> k in old(entries) && entries[k] == old(entries)[k]
      ensures key in old(entries) ==> order == old(order)
      ensures key !in old(entries) ==>
                order == (if |old(order)| < cap then old(order) else old(order)[1..]) + [key]
    {
      if key in entries {
        entries := entries[key := value];
        return;
      }
      DistinctSize(order, entries.Keys);
      while |entries| >= cap
        invariant Distinct(order) && forall k :: k in entries <==> k in order
        invariant |entries| == |order| <= cap
        invariant order == if |order| == |old(order)| then old(order) else old(order)[1..]
        invariant |order| == |old(order)| || |order| + 1 == |old(order)| == cap
        invariant forall k :: k in entries ==> k in old(entries) && entries[k] == old(entries)[k]
        decreases |order|
      {
        DropOldest(order, entries);
        var oldest := order[0];
        order := order[1..];
        entries := entries - {oldest};
      }
      assert key !in order;
      order := order + [key];
      entries := entries[key := value];
    }
  }
}
