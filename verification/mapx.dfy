/**
 The `mapx` package: generic helpers that take a Go map and return its keys,
 its values, or a shallow copy. A Go map argument may be nil, modelled as
 `None`; every operation treats nil exactly like the empty map.

 Go's `range` visits the entries of a map in an unspecified order. Each loop
 below therefore picks an arbitrary key that has not been visited yet
 (`var key :| key in remaining`), so every contract holds for every visiting
 order.
 */
module MapX {
  import opened Wrappers
  import opened Enumerations

  /** The bindings held by a possibly nil map: nil holds none. */
  function Contents<K, V>(provide: Option<map<K, V>>): map<K, V> {
    provide.GetOr(map[])
  }

  /** Every key of `provide`, each exactly once, in range order. */
  method Keys<K(==), V>(provide: Option<map<K, V>>) returns (keys: seq<K>)
    ensures Enumerates(keys, Contents(provide))
    ensures |keys| == |Contents(provide)|
    ensures forall k :: k in keys <==> k in Contents(provide)
  {
    if provide.None? || |provide.value| == 0 {
      return [];
    }
    var m := provide.value;
    keys := [];
    var remaining := m.Keys;
    while remaining != {}
      invariant remaining <= m.Keys
      invariant NoDuplicates(keys)
      invariant forall k :: k in keys <==> k in m && k !in remaining
      invariant |keys| + |remaining| == |m|
      decreases remaining
    {
      var key :| key in remaining;
      keys := keys + [key];
      remaining := remaining - {key};
    }
    assert (set k | k in keys) == m.Keys;
  }

  /**
   The value of every entry of `provide`, one per entry (duplicates kept), in
   range order: the lookups of some enumeration of its keys.
   */
  method Values<K(==), V>(provide: Option<map<K, V>>) returns (values: seq<V>)
    ensures |values| == |Contents(provide)|
    ensures exists keys :: Enumerates(keys, Contents(provide)) && values == Lookup(keys, Contents(provide))
    ensures multiset(values) == ValueMultiset(Contents(provide))
    ensures forall v :: multiset(values)[v] == |KeysWith(Contents(provide), v)|
  {
    if provide.None? || |provide.value| == 0 {
      assert Enumerates([], Contents(provide));
      LookupEnumeration([], Contents(provide));
      forall v ensures multiset([])[v] == |KeysWith(Contents(provide), v)| {
        ValueMultisetCount(Contents(provide), v);
      }
      return [];
    }
    var m := provide.value;
    values := [];
    ghost var visited: seq<K> := [];
    var remaining := m.Keys;
    while remaining != {}
      invariant remaining <= m.Keys
      invariant NoDuplicates(visited)
      invariant forall k :: k in visited <==> k in m && k !in remaining
      invariant values == Lookup(visited, m)
      invariant |values| + |remaining| == |m|
      decreases remaining
    {
      var key :| key in remaining;
      values := values + [m[key]];
      visited := visited + [key];
      remaining := remaining - {key};
    }
    assert (set k | k in visited) == m.Keys;
    LookupEnumeration(visited, m);
    forall v ensures multiset(values)[v] == |KeysWith(m, v)| {
      ValueMultisetCount(m, v);
    }
  }

  /** A fresh map holding exactly the bindings of `provide`. */
  method Copy<K(==), V>(provide: Option<map<K, V>>) returns (copied: map<K, V>)
    ensures copied.Keys == Contents(provide).Keys
    ensures forall k :: k in copied ==> copied[k] == Contents(provide)[k]
    ensures copied == Contents(provide)
  {
    if provide.None? || |provide.value| == 0 {
      return map[];
    }
    var m := provide.value;
    copied := map[];
    var remaining := m.Keys;
    while remaining != {}
      invariant remaining <= m.Keys
      invariant copied.Keys == m.Keys - remaining
      invariant forall k :: k in copied ==> copied[k] == m[k]
      decreases remaining
    {
      var key :| key in remaining;
      copied := copied[key := m[key]];
      remaining := remaining - {key};
    }
  }
}
