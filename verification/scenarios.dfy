/** The concrete map `{"a": 1, "b": 2}` and a map with a repeated value, worked through. */
module Scenarios {
  import opened Enumerations

  /** The keys of `{"a": 1, "b": 2}` come out as "a", "b" in one of the two orders. */
  lemma TwoKeyEnumerations(keys: seq<string>)
    requires Enumerates(keys, map["a" := 1, "b" := 2])
    ensures keys == ["a", "b"] || keys == ["b", "a"]
  {
    var m := map["a" := 1, "b" := 2];
    EnumerationLength(keys, m);
    assert |m| == 2 by {
      assert m.Keys == {"a", "b"};
    }
    ListedMember(keys, m.Keys, keys[0]);
    ListedMember(keys, m.Keys, keys[1]);
    ListedMember(keys, m.Keys, "a");
    assert keys[0] != keys[1];
  }

  /** The values of `{"a": 1, "b": 2}` are 1 and 2, once each. */
  lemma TwoEntryValues()
    ensures ValueMultiset(map["a" := 1, "b" := 2]) == multiset{1, 2}
  {
    var m := map["a" := 1, "b" := 2];
    ValuesOfChoice(m, m.Keys, "a");
    assert m.Keys - {"a"} == {"b"};
    ValuesOfChoice(m, {"b"}, "b");
    assert {"b"} - {"b"} == {};
  }

  /** A value bound to two keys is reported twice, not deduplicated. */
  lemma DuplicateValuesKept()
    ensures ValueMultiset(map["a" := 1, "b" := 1])[1] == 2
  {
    var m := map["a" := 1, "b" := 1];
    ValueMultisetCount(m, 1);
    assert KeysWith(m, 1) == {"a", "b"};
  }
}
