# net.yetamine.sova.maps — symbol-keyed tables over a backing map

The `net.yetamine.sova.maps` package lets a program keep heterogeneous values in a plain
`java.util.Map` and read and write them through *symbols*. A symbol (`Mappable`) carries a
key (`remap()`), an adaptation that checks and converts a raw value into the symbol's type,
and an optional fallback. This project models the following parts of the package:

- the mutation protocol of `MappingTable` and `SymbolContextAdapter`. A mutator adapts the
  candidate value, issues one `java.util.Map` primitive on the symbol's key, and derives a
  typed result from the old or new raw value. A failed adaptation
  (`AdaptationException`) leaves the map untouched;
- the read path of `MappingView` and `SymbolMapping`;
- the first-hit layered lookup of `LayeringSymbolSource`;
- the content-based equality of `AbstractMappingTable`.

Modules:

- `Wrappers`: `Option` (Java `null` is `None`) and `Result` (`Rejected` is the thrown
  adaptation or callback exception).
- `Symbols`: a symbol as `(key, adapt, fallback)`. It also has `derive`, `request` and the
  `Stable` hypothesis. `Stable` says adaptation is idempotent on its own outputs, which is
  what the assertion in `putIfAbsent` relies on.
- `JavaMaps`: the `java.util.Map` primitives as pure functions. They follow the Java SE 8
  contracts of `put`, `remove`, `replace`, `putIfAbsent`, `merge`, `compute`,
  `computeIfAbsent` and `putAll`.
- `Views`: the three slot states (absent, present but unadaptable, valid) and the readers
  `get`, `use`, `find`, `contains` and `yield`.
- `SymbolMappings`: the read-only `SymbolMapping`, with `size`, `isEmpty`, content equality
  and `empty()`.
- `Layering`: the layered `get`, `use`, `find` and `yield`, plus the `from` factories.
- `Protocol`: one pure function per mutator, written as the code does it. Its contracts are
  stated per slot state through `Views`.
- `Tables`: the class `MappingTable`, whose methods update the `mappings` field by the
  `Protocol` steps. `addAll` is a loop of raw `putIfAbsent` calls.
- `Contexts`: the class `SymbolContextAdapter`, which does the same over its `storage`
  field and adds `have`.
- `Laws`: lemmas that relate several operations.
- `Intended`: the documented behaviour of the four operations whose code departs from its
  documentation (see "## Findings").

Every contract that needs an adaptation to be idempotent says so with a `Stable(s) ==>`
premise. No operation requires it.

## Model

All paths are under `src/main/java/net/yetamine/sova/maps/`, written out in full.

| member | source | states |
|---|---|---|
| Symbols.Derive | src/main/java/net/yetamine/sova/maps/MappingTable.java:482-485 | deriving null gives null; deriving a present raw value gives exactly its adaptation, so the result is non-null only for a present, adaptable raw value |
| Symbols.Request | src/main/java/net/yetamine/sova/maps/MappingTable.java:351-356 | `adapt(value).request()` throws exactly when the value does not adapt, and otherwise gives the adapted value |
| Symbols.RequestOrNull | src/main/java/net/yetamine/sova/maps/MappingTable.java:577-582 | requesting the adaptation of a null remapping result gives null; a non-null result throws iff it does not adapt, and otherwise gives its derivation |
| Symbols.RequestResult | src/main/java/net/yetamine/sova/maps/MappingTable.java:607-611 | requesting the adaptation of a callback's result: a throwing callback rejects the call; a null result gives null; otherwise it rejects iff the result does not adapt, and gives its derivation |
| Symbols.RequestedIsFixedPoint | src/main/java/net/yetamine/sova/maps/MappingTable.java:510-511 | under a stable adaptation, an accepted value is its own derivation, which is the invariant the `putIfAbsent` assertion checks |
| Views.Get | src/main/java/net/yetamine/sova/maps/MappingView.java:62-64 | `get` is non-null exactly on a valid slot, where it is the adapted value; it is null for a missing key or an unadaptable value |
| Views.Use | src/main/java/net/yetamine/sova/maps/MappingView.java:69-71 | `use` gives the adapted value on a valid slot and otherwise the symbol's fallback, which may be absent |
| Views.Find | src/main/java/net/yetamine/sova/maps/MappingView.java:76-78 | `find` is empty iff `get` is null, and otherwise wraps the same value |
| Views.Contains | src/main/java/net/yetamine/sova/maps/MappingView.java:83-85 | `contains` holds iff the key is present and its value adapts, i.e. iff `get` is non-null |
| Views.Yield | src/main/java/net/yetamine/sova/maps/MappingView.java:90-92 | `yield` carries the raw stored value (null if missing), the adapted value (which is `get`) and the symbol's fallback; it is present iff `contains` |
| Views.ReadersAgreeWithYield | src/main/java/net/yetamine/sova/maps/MappingView.java:62-92 | `get`, `find`, `use` and `contains` are projections of what `yield` reports |
| Views.ReadersDependOnlyOnKey | src/main/java/net/yetamine/sova/maps/MappingView.java:62-92 | two maps that agree on the symbol's key answer every reader for that symbol alike |
| SymbolMappings.SymbolMapping.Size | src/main/java/net/yetamine/sova/maps/SymbolMapping.java:66-68 | `size` is the number of entries, and zero exactly for the empty map |
| SymbolMappings.SymbolMapping.IsEmpty | src/main/java/net/yetamine/sova/maps/SymbolMapping.java:75-77 | `isEmpty` holds iff `size` is zero, iff there are no keys |
| SymbolMappings.SymbolMapping.Equals | src/main/java/net/yetamine/sova/maps/SymbolMapping.java:46-52 | two mappings are equal iff their maps have the same keys and equal values under each key |
| SymbolMappings.SymbolMapping.HashCode | src/main/java/net/yetamine/sova/maps/SymbolMapping.java:54-59 | a mapping's hash is the hash of its `map()` view, given as a function of map content |
| SymbolMappings.Empty | src/main/java/net/yetamine/sova/maps/SymbolMapping.java:112-114 | `empty()` is empty and has size zero |
| SymbolMappings.EmptyHasNoValue | src/main/java/net/yetamine/sova/maps/SymbolMapping.java:112-114 | on the empty mapping, `get` is null, `find` is empty and `use` is the fallback, for every symbol |
| SymbolMappings.EqualMappingsAnswerAlike | src/main/java/net/yetamine/sova/maps/SymbolMapping.java:82-105 | equal mappings answer `get`, `use`, `find` and `yield` alike and have equal hashes |
| Layering.Get | src/main/java/net/yetamine/sova/maps/LayeringSymbolSource.java:106-115 | the layered `get` is null iff every layer's `get` is null; otherwise it is the value of the first layer that hits, and every earlier layer misses |
| Layering.Use | src/main/java/net/yetamine/sova/maps/LayeringSymbolSource.java:120-122 | the layered `use` is the layered `get` when non-null, else the fallback |
| Layering.Find | src/main/java/net/yetamine/sova/maps/LayeringSymbolSource.java:127-129 | the layered `find` is present iff the layered `get` is non-null, and carries it |
| Layering.Yield | src/main/java/net/yetamine/sova/maps/LayeringSymbolSource.java:134-143 | the layered `yield` is the first present per-layer result; when none is present it is the empty mapping's result, with a null argument and the fallback |
| Layering.GetStacked | src/main/java/net/yetamine/sova/maps/LayeringSymbolSource.java:106-115 | stacking layers over others answers from the upper ones when they hit and from the lower ones otherwise |
| Layering.LaterLayersAreNotConsulted | src/main/java/net/yetamine/sova/maps/LayeringSymbolSource.java:107-111 | once a prefix hits, appending any layers leaves the answer unchanged (short-circuit, not merge) |
| Layering.MissingLayerIsSkipped | src/main/java/net/yetamine/sova/maps/LayeringSymbolSource.java:108-113 | a layer whose entry is missing or unadaptable is skipped, and the answer comes from the layers below |
| Layering.YieldStopsWhereGetStops | src/main/java/net/yetamine/sova/maps/LayeringSymbolSource.java:134-143 | the layered `yield` stops at the same layer as the layered `get` |
| Layering.From | src/main/java/net/yetamine/sova/maps/LayeringSymbolSource.java:64-72 | `from` with no sources gives the empty mapping; with sources it refuses any null element, and otherwise keeps every source in the given order |
| Layering.FromAnswersFirstHit | src/main/java/net/yetamine/sova/maps/LayeringSymbolSource.java:83-91 | a source built by `from` answers `get` with the first source, in the given order, whose entry is valid |
| Protocol.Set | src/main/java/net/yetamine/sova/maps/MappingTable.java:351-356 | `set` rejects iff the value does not adapt; otherwise only the key changes and it holds the adapted value, which `get` then returns |
| Protocol.Put | src/main/java/net/yetamine/sova/maps/MappingTable.java:482-485 | like `set`, and it returns the previous `get`, which is null iff the slot was absent or unadaptable |
| Protocol.PutIfAbsent | src/main/java/net/yetamine/sova/maps/MappingTable.java:502-513 | as written: it rejects iff the value does not adapt; otherwise it changes only the key, and returns the value it left there. Under stable adaptation it stores the adapted value whatever the slot held, and the result is a fixed point of `derive` |
| Protocol.Discard | src/main/java/net/yetamine/sova/maps/MappingTable.java:429-432 | `discard` deletes the key whatever it held and keeps every other entry |
| Protocol.Remove | src/main/java/net/yetamine/sova/maps/MappingTable.java:446-448 | `remove` deletes the key and returns the previous `get` |
| Protocol.RemoveValue | src/main/java/net/yetamine/sova/maps/MappingTable.java:463-465 | `remove(symbol, value)` succeeds iff the key is present with a raw value equal to the expected one, adaptable or not; an absent key never matches; it deletes only on success |
| Protocol.ReplaceValue | src/main/java/net/yetamine/sova/maps/MappingTable.java:532-534 | the new value is adapted first (rejecting iff it does not adapt); then a raw-equality compare-and-set stores the adapted value on success and changes nothing otherwise |
| Protocol.Replace | src/main/java/net/yetamine/sova/maps/MappingTable.java:551-553 | 2-argument `replace` rejects iff the value does not adapt; it writes the adapted value only on a present key, and returns the previous `get` |
| Protocol.Merge | src/main/java/net/yetamine/sova/maps/MappingTable.java:574-584 | as written: an absent key gets the adapted value, which is returned. On a present key, under stable adaptation, the function receives the adapted value twice. If it throws, the call rejects; a null result removes the key; an unadaptable result rejects; otherwise the adapted result is stored and returned |
| Protocol.Compute | src/main/java/net/yetamine/sova/maps/MappingTable.java:603-614 | the function receives the key and `get` (null on an absent or unadaptable slot); a thrown result rejects; a null result removes the key and returns null; an unadaptable result rejects; otherwise the adapted result is stored and returned as `get` sees it |
| Protocol.ComputeIfAbsent | src/main/java/net/yetamine/sova/maps/MappingTable.java:633-635 | a valid slot keeps its adapted value and returns it: the raw entry is rewritten to the adapted value, and `get` is unchanged. Otherwise the mapping function's adapted result is stored; a null result removes the entry, and an unadaptable or thrown one rejects |
| Protocol.ComputeIfPresent | src/main/java/net/yetamine/sova/maps/MappingTable.java:654-656 | an absent or unadaptable slot is deleted and null returned. On a valid slot the adapted remapping result is stored; a null result removes it; an unadaptable or thrown result rejects |
| Protocol.SupplyIfAbsent | src/main/java/net/yetamine/sova/maps/MappingTable.java:674-677 | as written: the adapted supplied value is stored whatever the slot held. A null supply removes the key; an unadaptable or thrown one rejects |
| Protocol.SupplyIfPresent | src/main/java/net/yetamine/sova/maps/MappingTable.java:695-698 | as written: the same operation as `supplyIfAbsent`, so an absent key receives an adaptable supplied value |
| Protocol.Have | src/main/java/net/yetamine/sova/maps/SymbolContextAdapter.java:70-73 | `have` stores the raw fallback only when the key is absent and there is a fallback; it never overwrites an entry, even an unadaptable one; it returns `get` of the result |
| Tables.MappingTable.constructor | src/main/java/net/yetamine/sova/maps/MappingTable.java:727-729 | the adapter starts with the given map's content as its backing store |
| Tables.MappingTable.Clear | src/main/java/net/yetamine/sova/maps/MappingTable.java:232-235 | `clear` leaves the table empty |
| Tables.MappingTable.PutAll | src/main/java/net/yetamine/sova/maps/MappingTable.java:281-298 | `putAll` adds every source key with its raw value, overwriting, and keeps every other entry |
| Tables.MappingTable.AddAll | src/main/java/net/yetamine/sova/maps/MappingTable.java:310-327 | `addAll` ends with the union of the keys; existing entries keep their raw values, adaptable or not; new keys take the raw source value |
| Tables.MappingTable.Set | src/main/java/net/yetamine/sova/maps/MappingTable.java:351-356 | the table becomes the `Protocol.Set` store; a rejection changes nothing; no other key changes |
| Tables.MappingTable.Add | src/main/java/net/yetamine/sova/maps/MappingTable.java:378-381 | `add` is `putIfAbsent` without its result: it rejects iff the value does not adapt, and a rejection changes nothing; otherwise the table becomes the `Protocol.PutIfAbsent` store |
| Tables.MappingTable.Discard | src/main/java/net/yetamine/sova/maps/MappingTable.java:429-432 | the table loses the key and nothing else |
| Tables.MappingTable.Remove | src/main/java/net/yetamine/sova/maps/MappingTable.java:446-448 | the table loses the key; the result is the previous `get` (`Protocol.Remove`) |
| Tables.MappingTable.RemoveValue | src/main/java/net/yetamine/sova/maps/MappingTable.java:463-465 | the table and the result follow `Protocol.RemoveValue`; no other key changes |
| Tables.MappingTable.Put | src/main/java/net/yetamine/sova/maps/MappingTable.java:482-485 | the table and the result follow `Protocol.Put`; a rejection changes nothing; no other key changes |
| Tables.MappingTable.PutIfAbsent | src/main/java/net/yetamine/sova/maps/MappingTable.java:502-513 | the table and the result follow `Protocol.PutIfAbsent`, as written; a rejection changes nothing |
| Tables.MappingTable.ReplaceValue | src/main/java/net/yetamine/sova/maps/MappingTable.java:532-534 | follows `Protocol.ReplaceValue`; a rejection or a mismatch changes nothing |
| Tables.MappingTable.Replace | src/main/java/net/yetamine/sova/maps/MappingTable.java:551-553 | follows `Protocol.Replace`; a rejection or an absent key changes nothing |
| Tables.MappingTable.Merge | src/main/java/net/yetamine/sova/maps/MappingTable.java:574-584 | follows `Protocol.Merge`, as written; a rejection changes nothing; no other key changes |
| Tables.MappingTable.Compute | src/main/java/net/yetamine/sova/maps/MappingTable.java:603-614 | follows `Protocol.Compute`; a rejection changes nothing; no other key changes |
| Tables.MappingTable.ComputeIfAbsent | src/main/java/net/yetamine/sova/maps/MappingTable.java:633-635 | follows `Protocol.ComputeIfAbsent`, so a valid slot keeps its adapted value, with the raw entry rewritten to it; a rejection changes nothing |
| Tables.MappingTable.ComputeIfPresent | src/main/java/net/yetamine/sova/maps/MappingTable.java:654-656 | follows `Protocol.ComputeIfPresent`; a rejection changes nothing |
| Tables.MappingTable.SupplyIfAbsent | src/main/java/net/yetamine/sova/maps/MappingTable.java:674-677 | follows `Protocol.SupplyIfAbsent`, as written |
| Tables.MappingTable.SupplyIfPresent | src/main/java/net/yetamine/sova/maps/MappingTable.java:695-698 | follows `Protocol.SupplyIfPresent`, as written |
| Tables.MappingTable.Equals | src/main/java/net/yetamine/sova/maps/AbstractMappingTable.java:43-49 | a table equals another table iff their backing maps are equal, whatever the identity; a table equals itself |
| Tables.MappingTable.HashCode | src/main/java/net/yetamine/sova/maps/AbstractMappingTable.java:55-57 | a table's hash is the backing map's hash, given as a function of map content |
| Tables.EqualTablesHaveEqualHashes | src/main/java/net/yetamine/sova/maps/AbstractMappingTable.java:55-57 | equal tables have equal hashes; equality is reflexive and symmetric |
| Tables.NonEmptyDiffersFromEmpty | src/main/java/net/yetamine/sova/maps/AbstractMappingTable.java:48 | a table that holds an entry is unequal to an empty table, in both directions |
| Contexts.SymbolContextAdapter.constructor | src/main/java/net/yetamine/sova/maps/SymbolContextAdapter.java:42-44 | the context starts with the given storage content (the content the abstract `storage()` accessor, lines 215-222, hands out) |
| Contexts.SymbolContextAdapter.Mapping | src/main/java/net/yetamine/sova/maps/SymbolContextAdapter.java:49-51 | `map()` shows the storage's current content: the same entries and the same size |
| Contexts.SymbolContextAdapter.Have | src/main/java/net/yetamine/sova/maps/SymbolContextAdapter.java:70-73 | the storage and the result follow `Protocol.Have`; the result is `get` of the new storage; a present key or a missing fallback changes nothing |
| Contexts.SymbolContextAdapter.Clear | src/main/java/net/yetamine/sova/maps/SymbolContextAdapter.java:78-81 | `clear` leaves the storage empty |
| Contexts.SymbolContextAdapter.Discard | src/main/java/net/yetamine/sova/maps/SymbolContextAdapter.java:86-89 | the storage loses the key and nothing else |
| Contexts.SymbolContextAdapter.Set | src/main/java/net/yetamine/sova/maps/SymbolContextAdapter.java:95-99 | follows `Protocol.Set`; a rejection changes nothing; no other key changes |
| Contexts.SymbolContextAdapter.Remove | src/main/java/net/yetamine/sova/maps/SymbolContextAdapter.java:104-106 | the storage loses the key; the result is the previous `get` |
| Contexts.SymbolContextAdapter.RemoveValue | src/main/java/net/yetamine/sova/maps/SymbolContextAdapter.java:112-114 | follows `Protocol.RemoveValue` (raw comparison); no other key changes |
| Contexts.SymbolContextAdapter.Put | src/main/java/net/yetamine/sova/maps/SymbolContextAdapter.java:120-123 | follows `Protocol.Put`; a rejection changes nothing; no other key changes |
| Contexts.SymbolContextAdapter.PutIfAbsent | src/main/java/net/yetamine/sova/maps/SymbolContextAdapter.java:129-140 | follows `Protocol.PutIfAbsent`, as written; a rejection changes nothing |
| Contexts.SymbolContextAdapter.ReplaceValue | src/main/java/net/yetamine/sova/maps/SymbolContextAdapter.java:146-148 | follows `Protocol.ReplaceValue`; a rejection or a mismatch changes nothing |
| Contexts.SymbolContextAdapter.Replace | src/main/java/net/yetamine/sova/maps/SymbolContextAdapter.java:154-157 | follows `Protocol.Replace`; a rejection or an absent key changes nothing |
| Contexts.SymbolContextAdapter.Merge | src/main/java/net/yetamine/sova/maps/SymbolContextAdapter.java:163-173 | follows `Protocol.Merge`, as written; a rejection changes nothing |
| Contexts.SymbolContextAdapter.Compute | src/main/java/net/yetamine/sova/maps/SymbolContextAdapter.java:179-189 | follows `Protocol.Compute`; a rejection changes nothing |
| Contexts.SymbolContextAdapter.ComputeIfAbsent | src/main/java/net/yetamine/sova/maps/SymbolContextAdapter.java:195-197 | follows `Protocol.ComputeIfAbsent`, so a valid slot keeps its adapted value, with the raw entry rewritten to it; a rejection changes nothing |
| Contexts.SymbolContextAdapter.ComputeIfPresent | src/main/java/net/yetamine/sova/maps/SymbolContextAdapter.java:203-205 | follows `Protocol.ComputeIfPresent`; a rejection changes nothing |
| Contexts.SymbolContextAdapter.PutAll | src/main/java/net/yetamine/sova/maps/SymbolContextAdapter.java:210-213 | every raw entry of the source mapping overwrites; every other entry is kept |
| Laws.PutThenPutReturnsFirst | src/main/java/net/yetamine/sova/maps/MappingTable.java:482-485 | a second `put` returns the adapted value the first one stored |
| Laws.PutThenRemove | src/main/java/net/yetamine/sova/maps/MappingTable.java:446-485 | `remove` after `put` returns the adapted value and leaves the original map without the key |
| Laws.SetAgreesWithPut | src/main/java/net/yetamine/sova/maps/MappingTable.java:351-356 | `set` stores and rejects exactly like `put`, and `discard` removes exactly like `remove` |
| Laws.ReplaceOnAbsentKey | src/main/java/net/yetamine/sova/maps/MappingTable.java:551-553 | 2-argument `replace` on an absent key changes nothing and returns null |
| Laws.RemoveValueIgnoresAdaptation | src/main/java/net/yetamine/sova/maps/MappingTable.java:463-465 | `remove(symbol, value)` depends only on the key and the raw value, not on the adaptation |
| Laws.ReplaceValueIgnoresStoredAdaptation | src/main/java/net/yetamine/sova/maps/MappingTable.java:532-534 | 3-argument `replace` consults the adaptation only for the new value |
| Laws.MergeOnAbsentKeySkipsFunction | src/main/java/net/yetamine/sova/maps/MappingTable.java:574-584 | `merge` on an absent key gives the same result whatever the remapping function |
| Laws.MergeReadsNoStoredValue | src/main/java/net/yetamine/sova/maps/MappingTable.java:577-578 | as written, `merge` gives the same result whatever value the present key held |
| Laws.ComputeIfAbsentOnValidSlot | src/main/java/net/yetamine/sova/maps/MappingTable.java:633-635 | on a valid slot, `computeIfAbsent` ignores the mapping function and `get` is unchanged |
| Laws.ComputeIfPresentOnMissingSlot | src/main/java/net/yetamine/sova/maps/MappingTable.java:654-656 | on an absent or unadaptable slot, `computeIfPresent` gives the same result whatever the remapping function |
| Laws.ComputeIfAbsentSettles | src/main/java/net/yetamine/sova/maps/MappingTable.java:633-635 | after a `computeIfAbsent` that left a valid value, a second one changes nothing and returns that value |
| Laws.SupplyOperationsCoincide | src/main/java/net/yetamine/sova/maps/MappingTable.java:674-698 | as written, `supplyIfAbsent` and `supplyIfPresent` are the same operation |
| Laws.HaveIsIdempotent | src/main/java/net/yetamine/sova/maps/SymbolContextAdapter.java:70-73 | a second `have` changes nothing and answers the same |
| Intended.PutIfAbsent | src/main/java/net/yetamine/sova/maps/MappingTable.java:487-501 | as documented: a symbol with a valid value leaves the map unchanged, raw entry included; an absent or unadaptable slot takes the adapted value; the previous `get` is returned, and a rejection happens exactly when the value does not adapt |
| Intended.Merge | src/main/java/net/yetamine/sova/maps/MappingTable.java:555-573 | as documented and as the library's tests exercise it: a symbol `get` does not answer (absent key or unadaptable value) takes the adapted value directly, without calling the function. On a valid slot the function receives `get` of the stored value first and the adapted incoming value second. Its null result removes the key; a throw or an unadaptable result rejects; otherwise its adapted result is stored and returned as `get` then sees it |
| Intended.SupplyIfAbsent | src/main/java/net/yetamine/sova/maps/MappingTable.java:658-672 | as documented: a valid slot keeps its adapted value and the supplier is not consulted; the raw entry is rewritten to the adapted value, and `get` is unchanged. Otherwise it agrees with the code |
| Intended.SupplyIfPresent | src/main/java/net/yetamine/sova/maps/MappingTable.java:679-694 | as documented: an absent key stays absent and the supplier is not consulted; an unadaptable entry is removed, as `computeIfPresent` does; on a valid slot it agrees with the code |
| Intended.PutIfAbsentSettles | src/main/java/net/yetamine/sova/maps/MappingTable.java:487-501 | after one documented `putIfAbsent`, a second one changes nothing, whatever value it offers |
| Intended.PutIfAbsentOverwrites | src/main/java/net/yetamine/sova/maps/MappingTable.java:502-513 | on `{0: 1}`, putting 2 if absent stores and returns 2 in the code, but keeps and returns 1 as documented |
| Intended.MergeIgnoresStoredValue | src/main/java/net/yetamine/sova/maps/MappingTable.java:574-584 | with a function that keeps its first argument (the current value, in the documented order), merging 2 into `{0: 1}` stores 2 in the code, but keeps 1 as documented |
| Intended.MergeDeletesOverUnadaptableSlot | src/main/java/net/yetamine/sova/maps/MappingTable.java:574-584 | with non-negative values adaptable and a function yielding null, merging 1 into `{0: -1}` deletes the entry in the code, but stores 1 as documented |
| Intended.SupplyIfAbsentOverwrites | src/main/java/net/yetamine/sova/maps/MappingTable.java:674-677 | supplying 5 if absent to `{0: 1}` stores 5 in the code, but keeps 1 as documented |
| Intended.SupplyIfPresentInserts | src/main/java/net/yetamine/sova/maps/MappingTable.java:695-698 | supplying 5 if present to the empty map inserts 5 in the code, but leaves the map empty as documented |

## Left out

- Null as a candidate or stored value: the store is null-free. The candidate passed to `put`, `set`, `putIfAbsent`, `replace` and `merge` is a present value.
- The adaptation framework (`Mappable`, `Adaptation`, `AdaptationResult`) is not part of this model. A symbol is an opaque adaptation function with a key and a fallback. `resolve` is taken to be `derive` as an optional. `AdaptationResult.isPresent` is taken to mean "has an adapted value". The readers `get`, `use`, `find` and `yield` of a symbol over a map are given their documented meanings.
- Symbols.RequestOrNull: assumes that requesting the adaptation of null gives null and does not throw. The model of `compute` and `merge` relies on this to remove an entry on a null remapping result.
- `let` of both classes and `MappingTable.have`: they delegate to symbol methods that are not part of this model.
- Factories, empty singletons, `unmodifiable`, and the cached `view` of `MappingTableAdapter`: construction and caching convenience.
- Concurrency and the atomicity of compound operations: the model is sequential.
- Serialization: not modelled.
- `forEach`, `replaceAll` and `toString`: callback plumbing and string formatting.
- SymbolMappings.SymbolMapping.Size: the count of keys is an unbounded integer; Java's `int size()` caps it at `Integer.MAX_VALUE`, which the model does not.
- Tables.MappingTable.HashCode and SymbolMappings.SymbolMapping.HashCode: the backing map's hash is a parameter (an arbitrary function of map content), not Java's concrete hash values.
- Tables.MappingTable.constructor, Contexts.SymbolContextAdapter.constructor and Contexts.SymbolContextAdapter.Mapping: sharing is not modelled. In the code, `MappingTableAdapter` wraps the caller's map, and `map()` returns the storage object itself. So a write through either reference is seen by every holder. In the model, each of these takes or gives a copy of the map's content, and a table or context sees only its own writes.
- `UnsupportedOperationException` from unmodifiable backing maps: library behaviour, not modelled.
- Layering.Get: layers are map-backed `SymbolMapping`s, so nesting a layered source inside another is not modelled. The `Iterable` constructor is not modelled either.
- Tables.MappingTable.Equals: compares only with other `MappingTable`s. A non-table argument (where the code's `instanceof` fails) is not modelled.
- Tables.MappingTable.PutAll and Tables.MappingTable.AddAll: the `MappingView` overloads forward to these with the view's map, so they are not separate members.
- Tables.MappingTable.AddAll: visits the source keys in an unspecified order. Because the keys are distinct, the order does not affect the result.
- Adaptations that are not idempotent: for them only the unconditional parts of the `Protocol` contracts are claimed. The parts stated under `Stable(s)` are not.

## Findings

In four operations the code departs from the documentation (`merge` in two ways, hence five rows). The classes follow the code as written. The `Intended` module holds the documented behaviour, with its properties proved.

| source | as written | input that shows it | evidently intended | confidence | as-written member | corrected member |
|---|---|---|---|---|---|---|
| src/main/java/net/yetamine/sova/maps/MappingTable.java:502-513 | the `merge` callback resolves its second parameter, the incoming value, so `putIfAbsent` always stores the new value and returns it (likewise SymbolContextAdapter.java:129-140) | `{0: 1}`, identity adaptation, value 2: stores 2 and returns 2 | leave the map unchanged when the symbol has a valid value, and return that value, as the documentation at lines 487-501 says | high; not executed | Intended.PutIfAbsentOverwrites | Intended.PutIfAbsent |
| src/main/java/net/yetamine/sova/maps/MappingTable.java:574-584 | the callback derives its second parameter, the incoming value, so the remapping function never sees the stored value (likewise SymbolContextAdapter.java:163-173) | `{0: 1}`, identity adaptation, value 2, function returning its first argument: stores 2 (as documented, 1 stays) | the function receives the stored value's adaptation first and the incoming value second, as the documentation at lines 555-573 says and src/test/java/net/yetamine/sova/maps/TestMappingTable.java:266-281 expects | high; not executed | Intended.MergeIgnoresStoredValue | Intended.Merge |
| src/main/java/net/yetamine/sova/maps/MappingTable.java:574-584 | on a present but unadaptable entry, `Map.merge` still calls the callback, which hands the function the incoming value and deletes the entry when it yields null | `{0: -1}`, only non-negative values adaptable, value 1, function yielding null: removes the key | a symbol that is not associated with a valid value takes the given value directly, as src/test/java/net/yetamine/sova/maps/TestMappingTable.java:284-286 expects | high; not executed | Intended.MergeDeletesOverUnadaptableSlot | Intended.Merge |
| src/main/java/net/yetamine/sova/maps/MappingTable.java:674-677 | `supplyIfAbsent` computes unconditionally, so it overwrites a valid value | `{0: 1}`, identity adaptation, supplier of 5: stores 5 | compute only if the symbol is not associated yet (lines 658-672) | high; not executed | Intended.SupplyIfAbsentOverwrites | Intended.SupplyIfAbsent |
| src/main/java/net/yetamine/sova/maps/MappingTable.java:695-698 | `supplyIfPresent` has the same body as `supplyIfAbsent`, so it inserts under an absent key | empty map, identity adaptation, supplier of 5: stores 5 | compute only if the symbol is already associated (lines 679-694) | high; not executed | Intended.SupplyIfPresentInserts | Intended.SupplyIfPresent |
