# OrderedDictionary in Dafny

A model of `OrderedDictionary`, a Swift dictionary that remembers the order in
which its keys were first inserted. The dictionary keeps two maps under the
same keys:

- `store` maps each key to its value.
- `indices` maps each key to its position in insertion order.

Operations:

- **Subscript set.** A new key gets the position equal to the number of keys
  already indexed. Overwriting a present key changes only its value; its
  position stays.
- **Subscript set to `nil`.** The key is dropped from both maps. The surviving
  positions are then renumbered to 0..n-1 in their old order.
- **Snapshots.** `orderedKeys`, `orderedKeyValuePairs` and `orderedValues` sort
  the order index by position and read keys, pairs and values off the sorted
  entries.

Modules:

- `OrderedDictionary` (`ordered_dictionary.dfy`):
  - the state `OrderedDict(store, indices)` and its representation invariant
    `Valid`: the two maps have the same keys, and the positions are n distinct
    integers in [0, n);
  - the operations `Get`, `Set`, `Remove`, `Reindex` and `Assign`, each a pure
    function that keeps `Valid`;
  - `KeysByPosition` and `ValuesByPosition`, the reference definition of
    insertion order: the i-th key is the key at position i.
- `OrderProperties` (`order_properties.dfy`): how the operations move keys in
  insertion order, and the repeated-insertion and removal behaviour the
  repository's tests check.
- `Snapshots` (`snapshots.dfy`): the snapshot methods as the source computes
  them (sort, then map or compact-map). Each is proved equal to the reference
  order. This module also holds the source's literal sort-and-enumerate
  renumbering, `ReindexBySorting`, which is proved equal to `Reindex` when the
  positions are distinct.
- `Scenarios` (`scenarios.dfy`): the set, remove and reinsert sequence of the
  order-consistency test, stated for any three distinct keys.
- `FiniteSets` and `Wrappers`: cardinality lemmas and `Option`.

The code keeps no next-position counter and no compaction threshold. `set`
takes the new position from the current key count (line 57 of
`Sources/OrderedDictionary/OrderedDictionary.swift`), and `remove` renumbers on
every call (line 67). So the positions are always exactly 0..n-1
(`PositionsAreExactlyRange`).

## Model

| member | source | states |
|---|---|---|
| OrderedDictionary.Empty | Sources/OrderedDictionary/OrderedDictionary.swift:18-23 | a fresh dictionary holds no keys and satisfies the representation invariant |
| OrderedDictionary.Get | Sources/OrderedDictionary/OrderedDictionary.swift:38-44 | in a valid dictionary, the getter finds a value exactly when the key has a position in the order index |
| OrderedDictionary.Set | Sources/OrderedDictionary/OrderedDictionary.swift:52-61 | keeps the invariant; the key then reads back as the new value; the key sets of both maps gain exactly `k`; other keys keep their values; existing keys keep their positions; a new key gets the position equal to the previous key count |
| OrderedDictionary.AppendedPositionKeepsValid | Sources/OrderedDictionary/OrderedDictionary.swift:54-58 | giving a new key the position equal to the current count keeps positions distinct and within [0, n+1) |
| OrderedDictionary.Reindex | Sources/OrderedDictionary/OrderedDictionary.swift:71-77 | renumbering leaves the store and the key set alone; it puts every position in [0, n); it never reverses two keys' order; with distinct positions it preserves order in both directions and yields distinct positions |
| OrderedDictionary.Remove | Sources/OrderedDictionary/OrderedDictionary.swift:63-69 | keeps the invariant; the key reads back as absent; the store loses exactly that key; the order index loses exactly that key; surviving keys keep their relative order |
| OrderedDictionary.Assign | Sources/OrderedDictionary/OrderedDictionary.swift:25-36 | assigning a value stores it and assigning `nil` removes the key, so the key then reads back as what was assigned; no other key appears, disappears or changes value |
| OrderedDictionary.PositionsAreExactlyRange | Sources/OrderedDictionary/OrderedDictionary.swift:52-77 | in every valid state the positions are exactly 0..n-1, and the two maps have the same size |
| OrderedDictionary.KeysByPosition | Sources/OrderedDictionary/OrderedDictionary.swift:100-107 | the reference insertion order: as long as the order index, and its i-th key is the key at position i |
| OrderedDictionary.ValuesByPosition | Sources/OrderedDictionary/OrderedDictionary.swift:109-112 | the i-th value is the stored value of the i-th key in insertion order |
| OrderProperties.KeysByPositionUnique | Sources/OrderedDictionary/OrderedDictionary.swift:114-116 | every listing of all keys in strictly ascending position is the insertion order, so sorting by position determines the order uniquely |
| OrderProperties.SameOrderSameIndices | Sources/OrderedDictionary/OrderedDictionary.swift:71-77 | two valid order indices over the same keys that list the keys in the same order are equal |
| OrderProperties.SetNewKeyAppends | Sources/OrderedDictionary/OrderedDictionary.swift:54-58 | setting an absent key appends it to the end of the insertion order |
| OrderProperties.SetExistingKeyKeepsOrder | Sources/OrderedDictionary/OrderedDictionary.swift:54-59 | overwriting a present key leaves the order index and the insertion order unchanged, and the key reads back as the new value |
| OrderProperties.ReindexKeepsOrder | Sources/OrderedDictionary/OrderedDictionary.swift:71-77 | renumbering distinct positions gives a valid dictionary whose insertion order is the old ascending-position order |
| OrderProperties.ReindexOfValidIsIdentity | Sources/OrderedDictionary/OrderedDictionary.swift:71-77 | renumbering positions that are already 0..n-1 changes nothing |
| OrderProperties.RemoveKeepsRelativeOrder | Sources/OrderedDictionary/OrderedDictionary.swift:63-69 | removing a key deletes exactly its entry from the insertion order, and the other keys stay in order |
| OrderProperties.RemoveAbsentIsIdentity | Sources/OrderedDictionary/OrderedDictionary.swift:63-69 | removing a key that is not present leaves the dictionary unchanged, although `remove` still renumbers |
| OrderProperties.RemoveUndoesNewSet | Sources/OrderedDictionary/OrderedDictionary.swift:52-69 | inserting a new key and then removing it restores the exact previous state |
| OrderProperties.ReinsertMovesToEnd | Tests/OrderedDictionaryTests/IndexingTests.swift:43-46 | removing a key and setting it again moves it to the end; the other keys keep their order |
| OrderProperties.SetAllAppends | Sources/OrderedDictionary/OrderedDictionary.swift:52-61 | inserting distinct new keys one after another appends them in the order given |
| OrderProperties.SetAllReadsBack | Tests/OrderedDictionaryTests/OrderedKeysTests.swift:16-18 | after a batch of insertions with distinct keys, every key reads back as the value it was given |
| OrderProperties.SetAllKeepsOthers | Sources/OrderedDictionary/OrderedDictionary.swift:52-61 | a key not mentioned in a batch of insertions keeps its value |
| OrderProperties.InsertionOrderFromEmpty | Tests/OrderedDictionaryTests/OrderedKeysTests.swift:8-19 | filling an empty dictionary with distinct keys gives exactly those keys in that order, each with its value |
| OrderProperties.SetAndClearEachRestores | Tests/OrderedDictionaryTests/OrderedKeysTests.swift:81-94 | setting and immediately clearing each of a run of new keys leaves the dictionary as it was, so an empty one stays empty |
| OrderProperties.RemoveAll | Sources/OrderedDictionary/OrderedDictionary.swift:63-69 | removing a list of keys in turn keeps the invariant, and exactly the listed keys leave the store |
| OrderProperties.SetThenClearEmpties | Tests/OrderedDictionaryTests/OrderedKeysTests.swift:96-111 | inserting a batch and then clearing every key leaves no keys, no values and an empty insertion order |
| OrderProperties.SetOverwrites | Sources/OrderedDictionary/OrderedDictionary.swift:52-61 | two sets of the same key in a row equal one set to the later value |
| OrderProperties.SetTwiceKeepsInsertionOrder | Tests/OrderedDictionaryTests/OrderedKeysTests.swift:66-79 | inserting each key and then overwriting it keeps the keys in insertion order, and every key reads as the overwriting value |
| Snapshots.OrderedIndices | Sources/OrderedDictionary/OrderedDictionary.swift:114-116 | the sorted order index lists every (key, position) entry exactly once, in ascending position |
| Snapshots.SortedEntriesAreKeysByPosition | Sources/OrderedDictionary/OrderedDictionary.swift:114-116 | in a valid dictionary, the i-th sorted entry is the i-th key in insertion order, paired with i |
| Snapshots.OrderedKeys | Sources/OrderedDictionary/OrderedDictionary.swift:100-107 | the result lists every indexed key once, in non-decreasing position; in a valid dictionary it is exactly the insertion order |
| Snapshots.CompactPairs | Sources/OrderedDictionary/OrderedDictionary.swift:89-92 | every pair is a key with its stored value; when every sorted key is in the store, no entry is dropped and the keys stay aligned |
| Snapshots.CompactMap | Sources/OrderedDictionary/OrderedDictionary.swift:89-92 | the `compactMap` loop builds exactly the pairs `CompactPairs` describes: each sorted key that has a stored value, paired with it, in sorted order |
| Snapshots.OrderedKeyValuePairs | Sources/OrderedDictionary/OrderedDictionary.swift:85-98 | every pair is a stored key with its value; in a valid dictionary the pairs are the keys and values in insertion order |
| Snapshots.PairsOfValidAreByPosition | Sources/OrderedDictionary/OrderedDictionary.swift:85-98 | in a valid dictionary `compactMap` drops nothing, and the pairs line up with the insertion order |
| Snapshots.OrderedValues | Sources/OrderedDictionary/OrderedDictionary.swift:109-112 | every element is some key's stored value; in a valid dictionary the values are in insertion order |
| Snapshots.Enumerate | Sources/OrderedDictionary/OrderedDictionary.swift:74-76 | the enumeration gives each sorted entry's key its offset and keeps the key set |
| Snapshots.ReindexBySorting | Sources/OrderedDictionary/OrderedDictionary.swift:71-77 | sort-then-enumerate renumbering keeps the store and the keys; it yields distinct positions in [0, n) and never reverses two keys' order; with distinct positions it equals `Reindex` |
| Snapshots.RenumberingAgreesWithRank | Sources/OrderedDictionary/OrderedDictionary.swift:73-76 | when the positions are distinct, the sort-based renumbering equals the rank map |
| Scenarios.OrderConsistency | Tests/OrderedDictionaryTests/IndexingTests.swift:34-47 | for any three distinct keys, the steps foo := FOO, bar := BAR, bar := nil, baz := BAZ, foo := JAX give keys [foo, baz] with values [JAX, BAZ]; then foo := nil, foo := FOO gives keys [baz, foo] with values [BAZ, FOO] |

## Left out

- The serial `DispatchQueue` that guards every operation is not modelled (`OrderedDictionary.swift:3` and each `queue.sync`). Each operation is modelled as one atomic step. The nested `queue.sync` is also left out: `remove` calls `reindex` from inside its own `queue.sync` block, and on a serial queue that nested call would wait on itself.
- The concurrent and asynchronous tests are left out: `testOrderedKeysConcurrent` and `testOrderedKeysAsync`, in both test files. They depend on thread scheduling.
- `count`, `isEmpty` and `Sequence` conformance are not part of this model. The tests use them, but their definitions are not in the modelled source.
- `UUID` generation and the `measure` blocks in the tests are left out. Keys and values are arbitrary type parameters.
- Reindex: this is the rank map, which gives two keys with the same position the same new position. The source's sort would give tied keys distinct positions in an arbitrary order: `sorted(by:)` is not guaranteed to be stable, and its input is a `Dictionary`, whose iteration order is unspecified. Ties never occur in a valid dictionary. `ReindexBySorting` models the sort itself, and its contract holds for any tie order.
- The getter test (`IndexingTests.swift:24-32`) has no lemma of its own. Its assertions follow directly from the contract of `Assign`.
