# A verified model of `em::IndexMap`

`em::IndexMap` (include/em/index_map.h) is a container that keeps its
values densely in one vector. It hands out stable *keys* for them. A
second vector of *index entries* translates between keys and dense
indices. Entry `k` holds three things:

- `sparse_to_dense`: the dense index of key `k`;
- `dense_to_sparse`: the key of dense index `k`;
- `sparse_data`: persistent data of key `k`, which survives the key's erasure.

The two index fields are inverse permutations of `[0, keys_size())`. A key
is live when its dense index is below `size()`. Erasure moves the last value
over the erased one and parks the freed key just past the end, where the
next insertion reuses it.

The project has these modules:

| file | module | contents |
|---|---|---|
| `errors.dfy` | `Errors` | the four `std::out_of_range` failures and their messages; `Result` and `Outcome` for operations that return or throw |
| `key_width.dfy` | `KeyWidths` | the key type's width and `max_size()` |
| `index_table.dfy` | `IndexTable` | the entry table as a value: the invariant `Inverse`, the key map `KeyMap` it denotes, the updates the class makes as pure functions and relations, and the lemmas that each update keeps `Inverse` and changes `KeyMap` exactly as intended |
| `index_map.dfy` | `IndexMaps` | the class `IndexMap<T, P>` with the two containers as `seq` fields, updated in place by methods whose contracts tie the new state to the functions of `IndexTable` and to the abstract map `Lookup()` |
| `size_only.dfy` | `SizeOnly` | the counter that stands in for the value container when `T` is `void`, with `std::size_t` wrap-around |
| `views.dfy` | `Views` | `values().erase(it)`, `keys_and_values().erase(it)`, the element reference, and the non-member `erase_if`/`erase` loops |
| `scenarios.dfy` | `Scenarios` | the checks of test.cpp replayed on the model: the basic, exception, persistent-data, `void`-value, swap-and-move, non-member erase and clear checks, each expected key, index, value and error asserted; the checks not replayed are listed under "Left out" |

The value-initialised `PersistentData{}` is a constructor parameter `blank`.
A map without a value type is an `IndexMap<(), P>`. The value a move
leaves behind is a parameter `leftover`.

## Model

| member | source | states |
|---|---|---|
| Errors.Message | include/em/index_map.h:482 | the `what()` texts of the four `std::out_of_range` failures: "Index map is too large.", "Index map would be too large." (line 593), "Invalid index map key." and "Invalid index map index." (lines 545-548) |
| KeyWidths.KeyMax | include/em/index_map.h:534 | `numeric_limits<KeyType>::max()` for each key width |
| KeyWidths.KeyMaxIsAllOnes | include/em/index_map.h:534 | `numeric_limits<KeyType>::max()` is 2^bits - 1 for each key width |
| KeyWidths.MaxSizeBound | include/em/index_map.h:533-534 | `max_size()` is 2^bits when the key is narrower than `size_t` (the `+1`), and 2^64 - 1 otherwise |
| KeyWidths.MaxSize | include/em/index_map.h:534 | `max_size()`: the key type's maximum, plus one when the key is narrower than `size_t`; its value is the one `MaxSizeBound` states |
| KeyWidths.MaxSizeFits | include/em/index_map.h:534 | `max_size()` is never zero and is itself a `size_t` value |
| IndexTable.SwapIndices | include/em/index_map.h:469-474 | swapping two keys' dense indices and two indices' keys yields the `Swapped` relation between old and new table |
| IndexTable.SwapIndicesInSteps | include/em/index_map.h:469-474 | the four in-place field swaps, done in the header's order, produce a table in the `Swapped` relation |
| IndexTable.SwappedIsSwapIndices | include/em/index_map.h:469-474 | the `Swapped` relation determines the new table uniquely |
| IndexTable.SwappedKeepsInverse | include/em/index_map.h:464-474 | swapping two consistent key/index pairs keeps the two index fields inverse permutations |
| IndexTable.SwapIndicesKeepsInverse | include/em/index_map.h:469-474 | after the swap the table is still inverse, and each key now maps to the other's index and back |
| IndexTable.SwapKeyAt | include/em/index_map.h:469-474 | after a swap every key still round-trips key → index → key |
| IndexTable.SwapIndexAt | include/em/index_map.h:469-474 | after a swap every index still round-trips index → key → index |
| IndexTable.IdentityEntries | include/em/index_map.h:594-600 | the entries `prepare_keys_for_insertion` appends are self-mapped, one per new key |
| IndexTable.AppendIdentityKeepsInverse | include/em/index_map.h:587-601 | appending self-mapped entries keeps the table inverse |
| IndexTable.AppendIdentityAt | include/em/index_map.h:587-601 | after growing the key space every key resolves to the value it resolved to before |
| IndexTable.AppendIdentityKeepsKeyMap | include/em/index_map.h:587-601 | growing the key space leaves the key map unchanged |
| IndexTable.InsertedKey | include/em/index_map.h:485-513 | the key an insertion uses is the key parked at dense index `size()`, or a new key `keys_size()`; either way it is not live |
| IndexTable.InsertedEntries | include/em/index_map.h:485-513 | insertion changes no existing entry, and adds one entry only when no key is parked |
| IndexTable.InsertAt | include/em/index_map.h:485-513 | after an insertion the inserted key resolves to the new value and every other key resolves as before |
| IndexTable.InsertUpdatesKeyMap | include/em/index_map.h:485-513 | insertion keeps the table inverse, maps the new key to index `size()`, and extends the key map by exactly the new key |
| IndexTable.ErasedEntries | include/em/index_map.h:607-619 | erasure's table is the swap of the last element's pair with the erased element's pair |
| IndexTable.ErasedByMove | include/em/index_map.h:477 | `move_elem_low(last, target)` on the table is exactly an erasure of `target` |
| IndexTable.SelfMoveOfLast | include/em/index_map.h:610-611 | erasing the last element (a self-move followed by `pop_back`) leaves the same values as moving the last value over the target |
| IndexTable.ErasedPositionAt | include/em/index_map.h:607-619 | after erasure the last key takes the erased index, the erased key is parked at the old last index, and other keys keep their indices |
| IndexTable.EraseAt | include/em/index_map.h:607-619 | after erasure the erased key resolves to nothing and every other key resolves as before |
| IndexTable.EraseKeyMap | include/em/index_map.h:607-619 | the erased table and values denote the old key map minus the erased key |
| IndexTable.EraseUpdatesKeyMap | include/em/index_map.h:607-619 | erasure keeps the table inverse and the persistent data, parks the erased key at the new `size()`, moves only the last value, and removes exactly the erased key from the map |
| IndexTable.SwapElemsAt | include/em/index_map.h:476 | swapping two elements leaves every key resolving to the same value |
| IndexTable.SwapElemsKeepsKeyMap | include/em/index_map.h:476 | swapping two elements keeps the table inverse, exchanges the two indices' keys, and leaves the key map unchanged |
| IndexTable.MoveElemAt | include/em/index_map.h:477 | after `move_elem_low` the source's key resolves to the moved value, the target's key to the leftover, and the other keys as before |
| IndexTable.MoveElemResolves | include/em/index_map.h:477 | the key map after a move is the old one with the moved key holding the moved value and the displaced key holding what the move left behind |
| IndexTable.MoveElemKeyMap | include/em/index_map.h:477 | the same equation, for the table `SwapIndices` builds from the two keys and positions |
| IndexTable.MoveElemUpdatesKeyMap | include/em/index_map.h:477 | a move keeps the table inverse, exchanges the two indices' keys, and updates exactly two keys of the map |
| IndexTable.ShrunkEntries | include/em/index_map.h:625-635 | `remove_unused_key` shortens the key space by one |
| IndexTable.ShrunkBySwap | include/em/index_map.h:632-633 | swapping the last key with the key at the last index and popping gives `ShrunkEntries` |
| IndexTable.DropSelfMappedLastKeepsInverse | include/em/index_map.h:633 | popping a self-mapped last entry keeps the table inverse |
| IndexTable.ShrinkAt | include/em/index_map.h:625-635 | removing an unused key leaves every key resolving as before, and live keys keep their indices |
| IndexTable.ShrinkResolves | include/em/index_map.h:625-635 | the same, pointwise against the old key map |
| IndexTable.ShrinkKeepsInverse | include/em/index_map.h:625-635 | removing an unused key keeps the table inverse and the surviving keys' persistent data |
| IndexTable.ShrinkKeyMap | include/em/index_map.h:625-635 | removing an unused key leaves the key map unchanged |
| IndexTable.ShrinkKeepsKeyMap | include/em/index_map.h:625-635 | removing an unused key keeps the table inverse, the persistent data, live keys' indices and the key map |
| IndexTable.LiveKeysCount | include/em/index_map.h:529-531 | in a consistent table exactly `size()` keys are live |
| IndexTable.KeyMapSize | include/em/index_map.h:529 | in a consistent table the key map has exactly `size()` entries |
| IndexTable.ResolveAgreesWithKeyMap | include/em/index_map.h:540 | looking a key up through the table agrees with the abstract key map |
| IndexTable.KeyMapByResolve | include/em/index_map.h:540 | two denotations that agree on every key are the same map |
| IndexTable.KeyAtIndexIsLive | include/em/index_map.h:557-559 | the key of a valid index is live and maps to that index's value |
| IndexTable.SetDataKeepsKeyMap | include/em/index_map.h:645-646 | writing persistent data keeps the table inverse and the key map |
| IndexTable.ElementOf | include/em/index_map.h:205-209 | an element reference reports its index, its value, the key whose entry points at that index, and that key's persistent data |
| IndexTable.DataSlotAsWritten | include/em/index_map.h:487-490 | the persistent-data entry the reuse branch hands back, as written: the one numbered like the new value's dense index |
| IndexTable.IntendedDataSlot | include/em/index_map.h:487-490 | the entry that should be handed back is the reused key's own, the key at dense index `size()` |
| IndexTable.DataSlotAsWrittenIsForeign | include/em/index_map.h:487-490 | after four insertions and erasing key 1, the next insertion returns key 1 but the data entry of key 3 |
| IndexTable.DataSlotIsKeyIff | include/em/index_map.h:487-490 | for every consistent table, the as-written data slot is the reused key's own entry exactly when that key is parked at the entry with its own number |
| IndexMaps.IndexMap.constructor | include/em/index_map.h:525-526 | a new map is valid and has no keys and no values |
| IndexMaps.IndexMap.Size | include/em/index_map.h:529 | `size()`: the number of stored values |
| IndexMaps.IndexMap.SizeCountsLiveKeys | include/em/index_map.h:529 | `size()` is the number of live keys |
| IndexMaps.IndexMap.KeysSize | include/em/index_map.h:655 | `keys_size()`: the number of issued keys, live or dead |
| IndexMaps.IndexMap.KeysSizeBounds | include/em/index_map.h:655 | every live key is below `keys_size()`, which lies between `size()` and `max_size()` |
| IndexMaps.IndexMap.ContainsRelaxed | include/em/index_map.h:541 | `contains_relaxed(k)`: `k` is below `keys_size()` |
| IndexMaps.IndexMap.ValidIndex | include/em/index_map.h:542 | `valid_index(i)`: `i` is below `size()` |
| IndexMaps.IndexMap.ValidIndexRelaxed | include/em/index_map.h:543 | `valid_index_relaxed(i)`: `i` is below `keys_size()` |
| IndexMaps.IndexMap.RelaxedChecksWiden | include/em/index_map.h:540-543 | the relaxed checks accept every live key and every valid index; an accepted key's index and an accepted index's key are accepted too; the valid indices are exactly as many as the live keys |
| IndexMaps.IndexMap.Empty | include/em/index_map.h:531 | `empty()` holds exactly when no key is live |
| IndexMaps.IndexMap.KeyToIndexUnsafe | include/em/index_map.h:556 | an issued key's index is an entry whose key field is that key |
| IndexMaps.IndexMap.IndexToKeyUnsafe | include/em/index_map.h:559 | an index below `keys_size()` has a key whose index field is that index |
| IndexMaps.IndexMap.Contains | include/em/index_map.h:540 | `contains(k)` holds exactly when `k` is a key of the abstract map |
| IndexMaps.IndexMap.KeyToIndex | include/em/index_map.h:554 | succeeds exactly for live keys, with a valid index that maps back to the key and holds its value; otherwise "Invalid index map key." |
| IndexMaps.IndexMap.KeyToIndexRelaxed | include/em/index_map.h:555 | succeeds exactly for keys below `keys_size()`, and the index is valid exactly when the key is live; otherwise "Invalid index map key." |
| IndexMaps.IndexMap.IndexToKey | include/em/index_map.h:557 | succeeds exactly for indices below `size()`, with a live key that maps back and whose value is the index's; otherwise "Invalid index map index." |
| IndexMaps.IndexMap.IndexToKeyRelaxed | include/em/index_map.h:558 | succeeds exactly for indices below `keys_size()`, and the key is live exactly when the index is valid; otherwise "Invalid index map index." |
| IndexMaps.IndexMap.GetByKey | include/em/index_map.h:565-566 | `m[key]` is the abstract map's value for live keys and "Invalid index map key." otherwise |
| IndexMaps.IndexMap.GetByIndex | include/em/index_map.h:569-570 | `m[i]` is the value of the key at index `i` for valid indices and "Invalid index map index." otherwise |
| IndexMaps.IndexMap.GetPersistentData | include/em/index_map.h:645-647 | persistent data is readable for every key below `keys_size()`, live or not, and for no other |
| IndexMaps.IndexMap.GetPersistentDataAt | include/em/index_map.h:648-650 | persistent data by index is that of the index's live key, and fails with "Invalid index map index." past `size()` |
| IndexMaps.IndexMap.KeyValueAt | include/em/index_map.h:205-209 | the element at a valid index has a live key mapping to that index, the key's value and the key's persistent data |
| IndexMaps.IndexMap.KeyAndIndexOfKey | include/em/index_map.h:460 | pairing a key with its index gives a consistent pair |
| IndexMaps.IndexMap.KeyAndIndexOfIndex | include/em/index_map.h:461 | pairing an index with its key gives a consistent pair |
| IndexMaps.IndexMap.CanIncreaseSize | include/em/index_map.h:479-483 | insertion is refused exactly when `size() >= max_size()`, with "Index map is too large." |
| IndexMaps.IndexMap.SwapIndicesOnlyRelaxed | include/em/index_map.h:469-474 | the table is swapped in place, stays valid, and the values are untouched |
| IndexMaps.IndexMap.SwapIndicesOnly | include/em/index_map.h:464-468 | the same, for two valid indices |
| IndexMaps.IndexMap.SwapElemsLow | include/em/index_map.h:476 | the table is swapped and the two values exchanged |
| IndexMaps.IndexMap.MoveElemLow | include/em/index_map.h:477 | the map stays valid, the table is swapped, the source value is written over the target and the source keeps the leftover |
| IndexMaps.IndexMap.AddKeyForInsertedValue | include/em/index_map.h:485-513 | with the value appended, the parked key is reused or a self-mapped key appended; the data slot handed back is entry `size() - 1` in both branches, as written |
| IndexMaps.IndexMap.Insert | include/em/index_map.h:575-577 | fails with "too large" at `max_size()` and changes nothing; otherwise appends the value under a key that was not live, reused when one is parked, and the abstract map gains exactly that key; the data slot is entry old `size()`, as written |
| IndexMaps.IndexMap.PrepareKeysForInsertion | include/em/index_map.h:587-601 | no change when there are enough keys; "would be too large" past `max_size()`; otherwise self-mapped dead keys are appended; the abstract map never changes |
| IndexMaps.IndexMap.MoveLastOverAndPop | include/em/index_map.h:610-611 | the last value is moved over index `i` and popped, and the table is in the `Erased` relation |
| IndexMaps.IndexMap.EraseKey | include/em/index_map.h:607-612 | erasing a dead key fails with "Invalid index map key." and changes nothing; erasing a live key removes exactly that key, parks it at the new `size()` and keeps all persistent data |
| IndexMaps.IndexMap.EraseIndex | include/em/index_map.h:614-619 | erasing past `size()` fails with "Invalid index map index."; otherwise the key at `i` goes, the last element moves to `i`, every other index keeps its key and value |
| IndexMaps.IndexMap.RemoveUnusedKey | include/em/index_map.h:625-635 | succeeds exactly when there are keys and the last one is dead; then the key space shrinks by one; the abstract map never changes |
| IndexMaps.IndexMap.SwapLastKeyOutAndPop | include/em/index_map.h:632-633 | the swap-and-pop step yields the shrunk table |
| IndexMaps.IndexMap.Clear | include/em/index_map.h:638 | removes all keys, values and persistent data |
| IndexMaps.IndexMap.SoftClear | include/em/index_map.h:640 | removes all values but keeps every key entry and its persistent data; no key stays live |
| IndexMaps.IndexMap.SetPersistentData | include/em/index_map.h:645-646 | writing through the persistent-data reference changes only that key's data, and fails for keys past `keys_size()` |
| IndexMaps.IndexMap.SwapElems | include/em/index_map.h:669 | the two values and their keys trade places, persistent data stays, and the abstract map is unchanged |
| IndexMaps.IndexMap.MoveElem | include/em/index_map.h:673 | the keys trade places, the target gets the source value, and the map changes in exactly those two keys |
| SizeOnly.Inc | include/em/index_map.h:80 | the counter grows by one, wrapping at 2^64 |
| SizeOnly.Dec | include/em/index_map.h:81 | the counter shrinks by one, wrapping below zero |
| SizeOnly.IncDecRoundTrip | include/em/index_map.h:80-81 | increment and decrement undo each other |
| SizeOnly.InsertionNeverWraps | include/em/index_map.h:479-483 | below `max_size()` an increment never wraps |
| SizeOnly.CounterTracksUnits | include/em/index_map.h:77-81 | the counter moves as the length of a sequence of units does |
| SizeOnly.SizeOnlyContainer.constructor | include/em/index_map.h:64-67 | a new counter is zero |
| SizeOnly.SizeOnlyContainer.Size | include/em/index_map.h:77 | `size()` is the counter |
| SizeOnly.SizeOnlyContainer.Empty | include/em/index_map.h:78 | empty exactly when the size is zero |
| SizeOnly.SizeOnlyContainer.EmplaceBack | include/em/index_map.h:80 | the counter is incremented with wrap-around |
| SizeOnly.SizeOnlyContainer.PopBack | include/em/index_map.h:81 | the counter is decremented with wrap-around |
| SizeOnly.SizeOnlyContainer.Clear | include/em/index_map.h:82 | the counter is reset to zero |
| Views.KeptValues | include/em/index_map.h:749-767 | the kept and the matched elements together are all elements |
| Views.Matches | include/em/index_map.h:749-767 | at most all elements match |
| Views.SurvivorsAtStart | include/em/index_map.h:755 | before the scan every key survives |
| Views.SurvivorsElsewhere | include/em/index_map.h:756-766 | visiting one position leaves the fate of other keys unchanged |
| Views.SurvivorsAtKey | include/em/index_map.h:756-766 | the key at the visited position survives exactly when the predicate rejects its element |
| Views.SurvivorsStep | include/em/index_map.h:756-766 | one step of the scan removes the visited key exactly when the predicate accepts it |
| Views.ScanStep | include/em/index_map.h:756-766 | one step of the scan moves the value to the kept or the erased side and counts it when it is erased |
| Views.SwapPopMultiset | include/em/index_map.h:610-611 | moving the last value over `i` and popping removes exactly one copy of the old value at `i` |
| Views.SameElement | include/em/index_map.h:761 | positions below the scan still hold the element they held when the scan began |
| Views.ValueViewErase | include/em/index_map.h:122-129 | `values().erase(it)` on `end()` or past it fails with "Invalid index map index." and changes nothing; otherwise it erases the element at the iterator's index and returns an iterator to the same index, which now holds the old last value |
| Views.KeyValueViewErase | include/em/index_map.h:362-367 | `keys_and_values().erase(it)` does the same, and the returned position holds the old last key and value |
| Views.ScanStarts | include/em/index_map.h:753-755 | the scan invariant holds before the first step |
| Views.ScanSees | include/em/index_map.h:761 | the element the predicate sees is the one that was at that index before the scan |
| Views.ScanVisits | include/em/index_map.h:756-766 | one step keeps the scan invariant, whether or not the element is erased |
| Views.EraseVisited | include/em/index_map.h:763 | erasing the visited element keeps the values below it and all persistent data, and removes exactly its key |
| Views.EraseIf | include/em/index_map.h:749-767 | `erase_if(keys_and_values(), f)` leaves exactly the keys whose elements `f` rejects, keeps the kept values, and returns the number erased |
| Views.Keep | include/em/index_map.h:708-726 | the values kept are ones the predicate rejects, never more than before |
| Views.KeepWhere | include/em/index_map.h:708-726 | the kept map holds exactly the keys whose values the predicate rejects, with their values |
| Views.KeptByValue | include/em/index_map.h:708-726 | a predicate on elements that looks only at values keeps exactly the values a value predicate keeps |
| Views.SurvivorsByValue | include/em/index_map.h:708-726 | such a predicate leaves the keys whose values are rejected |
| Views.EraseIfValues | include/em/index_map.h:708-732 | `erase_if(values(), f)` leaves no value `f` accepts, keeps every rejected value, removes exactly the keys of accepted values, and returns how many went |
| Views.KeepAllBut | include/em/index_map.h:739 | keeping the values unequal to `y` removes every copy of `y` and nothing else |
| Views.EraseValue | include/em/index_map.h:735-746 | `erase(values(), y)` removes every copy of `y` and the keys holding it, keeps the rest, and returns the number of copies |
| Views.KeepWhereIsWithout | include/em/index_map.h:739 | erasing by the predicate "equal to `y`" is erasing the value `y` |
| Views.WithoutValue | include/em/index_map.h:735-746 | the map without `y` holds exactly the keys whose values differ from `y`, with their values |
| Views.MultisetDropSize | include/em/index_map.h:735-746 | dropping every copy of `y` shortens the contents by its count |
| Scenarios.PutFresh | include/em/index_map.h:505-511 | inserting with no parked key appends a self-mapped key |
| Scenarios.PutReused | include/em/index_map.h:487-490 | inserting with a parked key reuses it and leaves the table as it is |
| Scenarios.Drop | include/em/index_map.h:607-612 | erasing a live key yields the erased table |
| Scenarios.DropAt | include/em/index_map.h:614-619 | erasing a valid index yields the erased table |
| Scenarios.InsertFour | test.cpp:84-96 | four insertions hand out keys 0 to 3 in order |
| Scenarios.QueriesAfterInsertFour | test.cpp:94-125 | sizes, lookups by key and index, and `contains` after the four insertions |
| Scenarios.EraseKeyOne | test.cpp:127-133 | erasing key 1 moves the value of key 3 to index 1 and parks key 1 at index 3 |
| Scenarios.QueriesAfterEraseKeyOne | test.cpp:131-158 | key 1 is dead but still issued, key 3 is at index 1, and the relaxed queries reach key 1 at index 3 |
| Scenarios.ReinsertThenEraseKeyTwo | test.cpp:160-166 | reinsertion reuses key 1; erasing key 2 desynchronises the two index fields |
| Scenarios.Desynced | test.cpp:84-166 | the whole sequence up to the desynchronised state |
| Scenarios.QueriesAfterDesync | test.cpp:165-189 | the keys, indices and values of the desynchronised state |
| Scenarios.EraseKeyZero | test.cpp:191-196 | erasing key 0 moves the value of key 1 to index 0 |
| Scenarios.QueriesAfterEraseKeyZero | test.cpp:195-217 | two live keys, four issued, and the strict and relaxed queries of each |
| Scenarios.ReuseKeyZero | test.cpp:219-223 | the next insertion reuses key 0 |
| Scenarios.EraseReusedKeyZero | test.cpp:225-227 | with the last key still live nothing can be removed; key 0 is erased again |
| Scenarios.ReuseKeyThree | test.cpp:229-232 | erasing key 3, reinserting under key 3, erasing it again |
| Scenarios.RemoveTwoUnusedKeys | test.cpp:243-261 | two unused keys are removed, the third removal is refused |
| Scenarios.ReuseKeyZeroAgain | test.cpp:263-267 | the insertion reuses key 0 and key 1 is erased |
| Scenarios.ShrinkToNothing | test.cpp:269-286 | the key space shrinks back to empty |
| Scenarios.Basic | test.cpp:80-287 | the basic checks on `IndexMap<A>`, step after step |
| Scenarios.VoidValues | test.cpp:393-564 | the same steps on a map without values (`T = void`): the same keys and indices |
| Scenarios.LiveKeyQueries | test.cpp:302-305 | `key_to_index` of the live keys 0, 1 and 3 |
| Scenarios.DeadKeyQueries | test.cpp:304-307 | `key_to_index` of a dead, an unissued and the largest key throws "Invalid index map key." |
| Scenarios.RelaxedKeyQueries | test.cpp:309-312 | `key_to_index_relaxed` reaches the dead key 2 at index 3 |
| Scenarios.BadRelaxedKeyQueries | test.cpp:313-314 | `key_to_index_relaxed` of an unissued key throws "Invalid index map key." |
| Scenarios.ValidIndexQueries | test.cpp:316-318 | `index_to_key` of the valid indices 0 to 2 |
| Scenarios.InvalidIndexQueries | test.cpp:319-321 | `index_to_key` at `size()` and beyond throws "Invalid index map index." |
| Scenarios.RelaxedIndexQueries | test.cpp:323-326 | `index_to_key_relaxed` reaches index 3 and its dead key 2 |
| Scenarios.BadRelaxedIndexQueries | test.cpp:327-328 | `index_to_key_relaxed` at `keys_size()` and beyond throws "Invalid index map index." |
| Scenarios.ErrorTexts | test.cpp:304-336 | the texts the exception checks expect are the model's messages |
| Scenarios.FailingIndexErasures | test.cpp:330-332 | erasing an invalid index throws "Invalid index map index." and changes nothing |
| Scenarios.FailingKeyErasures | test.cpp:334-336 | erasing a dead or unissued key throws "Invalid index map key." and changes nothing |
| Scenarios.Exceptions | test.cpp:290-337 | the exception checks, on the desynchronised state |
| Scenarios.PutFreshWithData | test.cpp:344-347 | the persistent-data reference an insertion returns writes to the new key's entry |
| Scenarios.InsertFourWithData | test.cpp:344-362 | four insertions with data 100 to 400 |
| Scenarios.EraseKeyOneWithData | test.cpp:364 | erasing key 1 keeps every key's data |
| Scenarios.ReuseHandsBackForeignData | test.cpp:364-365 | the insertion that reuses key 1 hands back the data slot of key 3, which is live |
| Scenarios.ReinsertThenEraseKeyTwoWithData | test.cpp:365-366 | reinsertion and desynchronisation keep every key's data |
| Scenarios.DataQueriesAfterDesync | test.cpp:368-377 | persistent data by key and by index, and the values, after desynchronisation |
| Scenarios.EraseByIndexWithData | test.cpp:379-381 | insertion reuses the parked key, and erasure by index keeps every key's data |
| Scenarios.DataQueriesAfterEraseByIndex | test.cpp:383-389 | persistent data by key and by index after erasure by index |
| Scenarios.PersistentData | test.cpp:340-391 | the persistent-data checks, and the foreign data slot of the reuse |
| Scenarios.AddThirtyOne | test.cpp:724-732 | the desynchronised state with a fourth value |
| Scenarios.HoldsBeforeSwapLow | test.cpp:785-786 | keys 0 and 1 hold `{10}` and `{21}` before the swap |
| Scenarios.HoldsBeforeSwapHigh | test.cpp:787-788 | keys 2 and 3 hold `{31}` and `{40}` before the swap |
| Scenarios.SwapFirstAndThird | test.cpp:790-791 | `iter_swap` exchanges the elements at indices 0 and 2 and their keys |
| Scenarios.HoldsAfterSwapLow | test.cpp:797-798 | after the swap keys 0 and 1 still hold their values |
| Scenarios.HoldsAfterSwapHigh | test.cpp:799-800 | after the swap keys 2 and 3 still hold their values |
| Scenarios.MoveThirdToFirst | test.cpp:802 | assigning `iter_move(it + 2)` to index 0 moves the value and leaves an empty vector at index 2 |
| Scenarios.HoldsAfterMoveLow | test.cpp:806-809 | the key left at index 2 holds the moved-from empty vector |
| Scenarios.HoldsAfterMoveHigh | test.cpp:808-811 | keys 0, 2 and 3 hold their values after the move |
| Scenarios.SwapAndMove | test.cpp:720-813 | the swap and move checks of the key-value range, step after step |
| Scenarios.InsertThree | test.cpp:829-833 | three insertions under keys 0 to 2 |
| Scenarios.EraseEveryValue | test.cpp:820-827 | `erase(values(), 42)` when every value is 42 erases three and empties the map |
| Scenarios.EraseIfEveryValue | test.cpp:829-836 | `erase_if(values(), x > 40)` when every value passes erases three and empties the map |
| Scenarios.DesyncedFull | test.cpp:838-851 | the state `[0:10, 3:40, 1:21, 2:31]` |
| Scenarios.DesyncedFullKeyMap | test.cpp:851 | that state maps key 0 to 10, 1 to 21, 2 to 31 and 3 to 40 |
| Scenarios.KeepAllButTwentyOne | test.cpp:881 | the predicate `x == 21` keeps keys 0, 2 and 3 |
| Scenarios.KeepTwentyOne | test.cpp:881 | the predicate `x == 21` keeps the values 10, 40 and 31 |
| Scenarios.WithoutTwentyOne | test.cpp:853 | erasing the value 21 keeps keys 0, 2 and 3 |
| Scenarios.EraseOneValue | test.cpp:853-863 | `erase(values(), 21)` leaves keys 0, 2 and 3 with their values |
| Scenarios.EraseOneByPredicate | test.cpp:881-891 | `erase_if(values(), x == 21)` leaves keys 0, 2 and 3 with their values |
| Scenarios.EraseOneElement | test.cpp:920-930 | `erase_if(keys_and_values(), x.value() == 21)` leaves keys 0, 2 and 3 with their values |
| Scenarios.LookupsAfterEraseOne | test.cpp:855-861 | after erasing the value 21 the size is 3, key 0 holds 10 and key 1 is gone |
| Scenarios.MoreLookupsAfterEraseOne | test.cpp:862-863 | keys 2 and 3 hold 31 and 40 |
| Scenarios.EraseEveryElement | test.cpp:896-903 | `erase_if(keys_and_values(), x.value() > 40)` when every value passes erases three and empties the map |
| Scenarios.NonMemberErase | test.cpp:816-933 | the non-member erase checks, one after another |
| Scenarios.ClearTwo | test.cpp:935-958 | `soft_clear` keeps both keys issued, `clear` drops them |

## Left out

- Allocators: the allocator constructor, the `Guard` that pops the value when key allocation throws, capacity, `reserve` and `shrink_to_fit` are not modelled. Memory is unbounded here, so allocation never throws.
- `emplace_at`, `insert_at` and `force_key_for_inserted_value` (include/em/index_map.h:515-522, 581-583) are not modelled.
- The iterator and range machinery of `ValueView`, `KeyValueIter` and `KeyValueView` is not modelled: increment, comparison, `begin`/`end` and the MSVC workarounds. Only the operations that change the map are modelled: element reference, `erase(it)`, `iter_swap` and `iter_move` assignment.
- Move semantics: a moved-from value is the caller-chosen `leftover`. Self-move (`move_elem(i, i)`) is therefore modelled as leaving `leftover` at `i`, where the header leaves an unspecified value.
- Copy and move of whole maps, including the counter reset when a `SizeOnlyContainer` is moved from, is not modelled.
- Views.EraseIf: states the surviving keys and the multiset of kept values, not the dense order the backward scan leaves.
- Views.EraseIfValues: likewise states the kept values as a multiset, not their dense order.
- Views.EraseValue: likewise states the kept values as a multiset, not their dense order.
- Scenarios: the checks of test.cpp that read dense indices after `erase`/`erase_if` (`m[0] == 10`, …) are not stated, because the erasure contracts do not fix the order. The checks on keys are stated.
- Scenarios: the iterator arithmetic and sanity checks of test.cpp (its key-value range checks, lines 736-778 and the range walks before them) and its copy/move checks are not replayed, because the iterator machinery is not modelled.
- Scenarios: the `void`-value checks (test.cpp:393-564) are replayed through the same generic steps as the basic checks; their `values().size()` checks are covered by `size()`, since the model keeps no separate value view.
- Key-type overflow: `KeyType(i)` never truncates, because every key stays below `max_size()`. The model therefore keeps keys as unbounded naturals.

## Findings

| source | as written | input that shows it | evidently intended | confidence | as-written member | corrected member |
|---|---|---|---|---|---|---|
| include/em/index_map.h:487-490 | when `insert` reuses a parked key, the returned `persistent_data` reference is entry `indices[size() - 1]`, that is, the entry of the key numbered like the new dense index | insert 10, 20, 30, 40, erase key 1, insert again: key 1 is returned, but the data reference designates key 3's entry, and key 3 is live | the reference designates the returned key's own entry, `indices[e.dense_to_sparse]` | high; not executed | IndexTable.DataSlotAsWrittenIsForeign | IndexTable.IntendedDataSlot |
