# mapx in Dafny

A model of the Go package `mapx`, three generic helpers over a map
`map[K]V` with a comparable key type:

- `Keys` returns a new slice holding every key of the map;
- `Values` returns a new slice holding the value of every entry, duplicates kept;
- `Copy` returns a new map holding the same key/value bindings.

Each helper returns an empty result for a nil or empty map and otherwise makes
one `range` pass over the map.

The Go map is a Dafny `map<K, V>`. A possibly nil map is an
`Option<map<K, V>>` (`wrappers.dfy`), where `None` is nil, and
`MapX.Contents` reads nil as the empty map. The three helpers are methods in
`mapx.dfy`. Go's range order is unspecified, so each loop takes any key it has
not visited yet (`var key :| key in remaining`). Every contract therefore holds
for every visiting order. The contracts are stated against reference
definitions in `enumerations.dfy`:

- `Enumerates(keys, m)`: `keys` lists every key of `m` exactly once;
- `ValueMultiset(m)`: the multiset of the values of `m`, one occurrence per entry;
- `Lookup(keys, m)`: the values of `keys` looked up in `m`, in order.

The lemmas there connect these definitions to lengths, to multiplicities and
to each other. `scenarios.dfy` works through the maps `{"a": 1, "b": 2}` and
`{"a": 1, "b": 1}`.

## Model

| member | source | states |
|---|---|---|
| MapX.Keys | mapx/map.go:4-14 | The result lists every key of the map exactly once: its length is the number of entries, it has no duplicates, and a key is in it iff it is in the map. A nil or empty map therefore gives the empty sequence. |
| MapX.Values | mapx/map.go:17-27 | The result has one value per entry. It is the lookup of some duplicate-free listing of the map's keys. Its multiset is the map's value multiset, and each value occurs exactly as often as there are keys bound to it. A nil or empty map gives the empty sequence. |
| MapX.Copy | mapx/map.go:30-41 | The result has the same key set as the input, and it binds every key to the input's value, so it equals the input map. A nil or empty map gives the empty map. |
| Enumerations.EnumerationLength | mapx/map.go:9-13 | Any duplicate-free listing of a map's keys is exactly as long as the map has entries. |
| Enumerations.EnumerationsArePermutations | mapx/map.go:10-12 | Two key listings of the same map, such as two calls of Keys, can differ only in order: they are permutations of each other. |
| Enumerations.ValuesOfChoice | mapx/map.go:23-25 | The value multiset does not depend on which entry the traversal visits first. |
| Enumerations.ValueMultisetCount | mapx/map.go:22-26 | A value occurs in the value multiset once for each key bound to it, so duplicates are kept and not removed. |
| Enumerations.LookupEnumeration | mapx/map.go:23-25 | Looking up each key of any key listing yields the map's value multiset. |
| Scenarios.TwoKeyEnumerations | mapx/map.go:9-13 | The keys of `{"a": 1, "b": 2}` come out as `["a", "b"]` or `["b", "a"]`. |
| Scenarios.TwoEntryValues | mapx/map.go:22-26 | The values of `{"a": 1, "b": 2}` form the multiset {1, 2}. |
| Scenarios.DuplicateValuesKept | mapx/map.go:23-25 | For `{"a": 1, "b": 1}`, the value 1 occurs twice among the values. |

## Left out

- Iteration order: no contract fixes the order of the `Keys` or `Values` output. Nothing relates the order of one call's output to another call's, because each call is a separate traversal.
- Capacity hints (`make([]K, 0, len(provide))`, `make(map[K]V, len(provide))`): these affect allocation only and have no observable effect.
- Not modifying the input, and the independence of `Copy`'s result from its input: Dafny maps and sequences are immutable values, so no call can change its argument, and changing a copy cannot change the original. No heap is modelled.
- Shallow versus deep copy when `V` is a reference type: values are copied as they are, and no heap is modelled.
- Concurrent mutation of the caller's map during a call: the caller is responsible for this, and it is not part of the helpers' logic.
- MapX.Keys, MapX.Values, MapX.Copy: the model assumes key types whose equality is reflexive. Go's `comparable` also admits floating-point keys, and interface keys that can hold NaN. Since NaN is not equal to itself, each `m[NaN] = v` adds another entry. `len` and `range` count each such entry, so Go's `Keys` can return NaN more than once, and `Values` returns values that a lookup by key could not reach. A Dafny `map` holds at most one entry per key, so maps with NaN keys are not covered.
- Nil versus empty results: Go returns non-nil empty values (`[]K{}`, `map[K]V{}`). Dafny has no nil sequences or maps, so "never nil" holds by construction. The input side is modelled by `Option`.
