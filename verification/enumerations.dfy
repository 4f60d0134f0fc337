/**
 Reference definitions of what it means for a sequence to list the keys or the
 values of a map. Go's `range` over a map visits every entry once in an
 unspecified order, so these definitions fix contents and multiplicities, never
 order.
 */
module Enumerations {

  /** True iff no element occurs twice in `s`. */
  ghost predicate NoDuplicates<T>(s: seq<T>) {
    forall i, j :: 0 <= i < j < |s| ==> s[i] != s[j]
  }

  /** True iff `s` lists every element of `keys` exactly once, in some order. */
  ghost predicate Lists<K>(s: seq<K>, keys: set<K>) {
    && NoDuplicates(s)
    && (set k | k in s) == keys
  }

  /** True iff `keys` lists every key of `m` exactly once, in some order. */
  ghost predicate Enumerates<K, V>(keys: seq<K>, m: map<K, V>) {
    Lists(keys, m.Keys)
  }

  /** The values found by looking up each of `keys` in `m`, in the order of `keys`. */
  ghost function Lookup<K, V>(keys: seq<K>, m: map<K, V>): seq<V>
    requires forall k :: k in keys ==> k in m
  {
    if |keys| == 0 then []
    else Lookup(keys[..|keys| - 1], m) + [m[keys[|keys| - 1]]]
  }

  /** The keys of `m` bound to `v`. */
  ghost function KeysWith<K, V>(m: map<K, V>, v: V): set<K> {
    set k | k in m && m[k] == v
  }

  /** Some element of a non-empty set. */
  ghost function Pick<K>(s: set<K>): (k: K)
    requires s != {}
    ensures k in s
  {
    var k :| k in s; k
  }

  /**
   The multiset of the values that `m` binds to the keys in `s`: one occurrence
   per key, so a value bound to several keys occurs several times. Which key is
   peeled off first is an arbitrary choice; ValuesOfChoice shows that it does
   not matter.
   */
  ghost function ValuesOf<K, V>(m: map<K, V>, s: set<K>): multiset<V>
    requires s <= m.Keys
  {
    if s == {} then multiset{}
    else
      var k := Pick(s);
      multiset{m[k]} + ValuesOf(m, s - {k})
  }

  /** The multiset of all values of `m`, one occurrence per entry. */
  ghost function ValueMultiset<K, V>(m: map<K, V>): multiset<V> {
    ValuesOf(m, m.Keys)
  }

  /** A duplicate-free sequence holds each of its elements exactly once. */
  lemma {:induction false} NoDuplicatesMultiplicity<T>(s: seq<T>, x: T)
    requires NoDuplicates(s)
    ensures multiset(s)[x] == if x in s then 1 else 0
  {
    if |s| > 0 {
      var p := s[..|s| - 1];
      assert s == p + [s[|s| - 1]];
      assert NoDuplicates(p);
      NoDuplicatesMultiplicity(p, x);
      if x == s[|s| - 1] {
        assert x !in p by {
          forall i | 0 <= i < |p| ensures p[i] != x {
            assert s[i] != s[|s| - 1];
          }
        }
      }
    }
  }

  /** An element occurs in a listing of `keys` iff it belongs to `keys`. */
  lemma ListedMember<K>(s: seq<K>, keys: set<K>, x: K)
    requires Lists(s, keys)
    ensures x in s <==> x in keys
  {
  }

  /** Dropping the last element of a listing lists the set without that element. */
  lemma DropLast<K>(s: seq<K>, keys: set<K>)
    requires Lists(s, keys) && |s| > 0
    ensures Lists(s[..|s| - 1], keys - {s[|s| - 1]})
  {
  }

  /** A listing of a set is exactly as long as the set has elements. */
  lemma {:induction false} ListingLength<K>(s: seq<K>, keys: set<K>)
    requires Lists(s, keys)
    ensures |s| == |keys|
  {
    if |s| == 0 {
      assert keys == {};
    } else {
      var last := s[|s| - 1];
      assert last in (set x | x in s);
      DropLast(s, keys);
      ListingLength(s[..|s| - 1], keys - {last});
    }
  }

  /** An enumeration of `m`'s keys is exactly as long as `m` has entries. */
  lemma EnumerationLength<K, V>(keys: seq<K>, m: map<K, V>)
    requires Enumerates(keys, m)
    ensures |keys| == |m|
  {
    ListingLength(keys, m.Keys);
  }

  /**
   Two enumerations of the same map may differ in order but are permutations of
   each other: order is the only thing left unspecified.
   */
  lemma EnumerationsArePermutations<K, V>(a: seq<K>, b: seq<K>, m: map<K, V>)
    requires Enumerates(a, m) && Enumerates(b, m)
    ensures multiset(a) == multiset(b)
  {
    forall x: K
      ensures multiset(a)[x] == multiset(b)[x]
    {
      ListedMember(a, m.Keys, x);
      ListedMember(b, m.Keys, x);
      NoDuplicatesMultiplicity(a, x);
      NoDuplicatesMultiplicity(b, x);
    }
  }

  /**
   Whichever key is taken out first, the values of `s` are that key's value
   plus the values of the remaining keys.
   */
  lemma {:induction false} ValuesOfChoice<K, V>(m: map<K, V>, s: set<K>, k: K)
    requires s <= m.Keys && k in s
    ensures ValuesOf(m, s) == multiset{m[k]} + ValuesOf(m, s - {k})
    decreases s
  {
    var j := Pick(s);
    if j != k {
      ValuesOfChoice(m, s - {j}, k);
      ValuesOfChoice(m, s - {k}, j);
      assert (s - {j}) - {k} == (s - {k}) - {j};
    }
  }

  /**
   Independent reading of ValuesOf: each value occurs exactly as often as there
   are keys in `s` bound to it.
   */
  lemma {:induction false} ValuesOfCount<K, V>(m: map<K, V>, s: set<K>, v: V)
    requires s <= m.Keys
    ensures ValuesOf(m, s)[v] == |set k | k in s && m[k] == v|
    decreases s
  {
    if s != {} {
      var k := Pick(s);
      ValuesOfCount(m, s - {k}, v);
      if m[k] == v {
        assert (set x | x in s && m[x] == v) == (set x | x in s - {k} && m[x] == v) + {k};
      } else {
        assert (set x | x in s && m[x] == v) == (set x | x in s - {k} && m[x] == v);
      }
    }
  }

  /** Each value of `m` occurs in ValueMultiset(m) once per key bound to it. */
  lemma ValueMultisetCount<K, V>(m: map<K, V>, v: V)
    ensures ValueMultiset(m)[v] == |KeysWith(m, v)|
  {
    ValuesOfCount(m, m.Keys, v);
    assert KeysWith(m, v) == set k | k in m.Keys && m[k] == v;
  }

  /** Looking up every element of a listing of `s` yields the values of `s`. */
  lemma {:induction false} LookupListing<K, V>(keys: seq<K>, m: map<K, V>, s: set<K>)
    requires s <= m.Keys && Lists(keys, s)
    ensures forall k :: k in keys ==> k in m
    ensures multiset(Lookup(keys, m)) == ValuesOf(m, s)
    decreases |keys|
  {
    assert forall k :: k in keys ==> k in (set x | x in keys);
    if |keys| == 0 {
      assert s == {};
    } else {
      var p, last := keys[..|keys| - 1], keys[|keys| - 1];
      assert last in (set x | x in keys);
      DropLast(keys, s);
      LookupListing(p, m, s - {last});
      ValuesOfChoice(m, s, last);
    }
  }

  /** Looking up every key of an enumeration yields each value of `m` once per entry. */
  lemma LookupEnumeration<K, V>(keys: seq<K>, m: map<K, V>)
    requires Enumerates(keys, m)
    ensures forall k :: k in keys ==> k in m
    ensures multiset(Lookup(keys, m)) == ValueMultiset(m)
  {
    LookupListing(keys, m, m.Keys);
  }
}
