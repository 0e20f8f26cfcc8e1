# map-extensions, modelled in Dafny

`MapWrapper<K, V>` wraps one JavaScript `Map`, which keeps its keys unique and
its entries in insertion order. It passes `get`, `set`, `has`, `size`,
`delete` and `clear` straight through to that Map. It also adds array-style
queries. `tuples`, `find`, `filter`, `map` and `some` each update a local
accumulator in one `forEach` scan over the entries, and `forEach` itself runs
its callback on every entry. `tuples` and `find` hand out `Tuple<K, V>`
values, which are immutable key/value pairs with a `toNativeTuple` conversion.

The model has three modules:

- `KeyValue` (key_value.dfy): `Tuple` as a datatype. Its fields cannot
  change, as the source's `readonly` fields promise. `ToNativeTuple` returns a
  Dafny pair `(key, value)`, which stands for the two-element array
  `[key, value]`. src/tuple.ts defines no other conversion.
- `MapEntries` (map_entries.dfy): the wrapped Map as a value. It is a
  `seq<(K, V)>` of entries in insertion order, with `DistinctKeys`
  (no key twice) as its invariant. The Map's own operations are functions
  (`Lookup`, `Put`, `Remove`). So are the results of the wrapper's scans
  (`FilterEntries`, `LastMatch`, `FoldEntries`). The lemmas state what each
  one promises.
- `MapWrappers` (map_wrapper.dfy): the class `MapWrapper`. Its field `data`
  holds the Map's entries, and `Set`, `Delete` and `Clear` reassign it.
  `Get`, `Has` and `Size` are functions that read it. `Tuples`, `ForEach`,
  `Find`, `Filter`, `Map` and `Some` are methods with the source's scan loop.
  Each one is proved against a specification. The constructor's argument
  check is the static method `Create`, which returns a `Result` because a
  Dafny constructor cannot fail.

map_wrapper_cases.dfy replays the scenarios of src/map-wrapper.spec.ts,
deriving their outcomes from the contracts alone. One is not replayed: the
`map` test that raises each value to its own power (src/map-wrapper.spec.ts:100-125),
because its expected values are floating-point `Math.pow` results.

Callbacks are pure Dafny functions that take `(value, key)`. The constructor
throws a plain `Error` carrying the message
`Value provided must be instance of Map`. Where the code and its doc comments
disagree, the model follows the code:

- `find` returns the tuple of the LAST matching entry (see Findings).

## Model

| member | source | states |
|---|---|---|
| `KeyValue.Tuple.ToNativeTuple` | src/tuple.ts:4-6 | the native tuple has the key at position 0 and the value at position 1 |
| `KeyValue.ConstructorStoresArguments` | src/tuple.ts:2 | a constructed tuple's key is the first argument, its value the second, and its native tuple is the argument pair |
| `KeyValue.ToNativeTupleInjective` | src/tuple.ts:2-6 | two tuples have equal native tuples exactly when they are equal, so repeated conversions of one (immutable) tuple agree |
| `MapWrappers.Defaulted` | src/map-wrapper.ts:11 | a falsy argument is replaced by an empty Map; the result passes the Map type guard exactly when the argument is not a truthy non-Map |
| `MapWrappers.MapWrapper.Create` | src/map-wrapper.ts:10-15 | construction fails, with the source's message, exactly for a truthy non-Map argument (type guard of lines 191-193); a falsy argument gives an empty wrapper, a Map is wrapped with its entries |
| `MapWrappers.MapWrapper.constructor` | src/map-wrapper.ts:10-11 | the wrapper holds exactly the given Map's entries |
| `MapWrappers.MapWrapper.Get` | src/map-wrapper.ts:22-24 | returns a value exactly when the key is present, and then the value stored under that key |
| `MapWrappers.MapWrapper.Has` | src/map-wrapper.ts:41-43 | true exactly when some entry has the key |
| `MapWrappers.MapWrapper.Size` | src/map-wrapper.ts:49-51 | equals the number of distinct keys stored |
| `MapWrappers.MapWrapper.Set` | src/map-wrapper.ts:32-34 | afterwards get(k) is v and has(k) holds; a present key keeps its position and the size; an absent key is appended and the size grows by one; every other key reads as before |
| `MapWrappers.MapWrapper.Delete` | src/map-wrapper.ts:95-97 | removes exactly the entry for the key, keeping the others' order; afterwards get(k) finds nothing; a no-op when the key is absent; size drops by one only when it was present |
| `MapWrappers.MapWrapper.Clear` | src/map-wrapper.ts:103-105 | leaves no entries and size 0 (so clearing again changes nothing) |
| `MapWrappers.MapWrapper.Tuples` | src/map-wrapper.ts:64-72 | one tuple per entry in insertion order, with that entry's key and value; length equals size; converting each back gives the entry |
| `MapWrappers.MapWrapper.ForEach` | src/map-wrapper.ts:119-123 | the final state is the callback folded over the entries in insertion order |
| `MapWrappers.MapWrapper.Find` | src/map-wrapper.ts:130-140 | null exactly when no entry satisfies the predicate; otherwise the tuple of a satisfying entry after which none satisfies it: the last match |
| `MapWrappers.MapWrapper.FindFirst` | src/map-wrapper.ts:126-130 | the documented behaviour: null exactly when no entry matches, otherwise the tuple of the first matching entry |
| `MapWrappers.MapWrapper.Filter` | src/map-wrapper.ts:147-156 | a new valid wrapper whose entries are the receiver's entries satisfying the predicate, in their order; get on it returns the original value when that satisfies the predicate and nothing otherwise |
| `MapWrappers.MapWrapper.Map` | src/map-wrapper.ts:163-171 | one result per entry, element i being the callback applied to the i-th entry's value and key |
| `MapWrappers.MapWrapper.Some` | src/map-wrapper.ts:178-189 | true exactly when some entry satisfies the predicate, which is exactly when find returns a tuple |
| `MapEntries.LookupFindsStoredValue` | src/map-wrapper.ts:22-24 | Map.get returns a value exactly when the key is present, and that (key, value) entry is stored |
| `MapEntries.LookupAt` | src/map-wrapper.ts:22-24 | with unique keys, Map.get of an entry's key returns that entry's value |
| `MapEntries.LookupIffStored` | src/map-wrapper.ts:22-24 | with unique keys, Map.get(k) is v exactly when the entry (k, v) is stored |
| `MapEntries.LookupAfterPut` | src/map-wrapper.ts:32-34 | after Map.set(k, v), get(k) is v and every other key reads as before |
| `MapEntries.PutPresent` | src/map-wrapper.ts:32-34 | Map.set on a present key replaces that entry in place and changes nothing else |
| `MapEntries.PutAbsent` | src/map-wrapper.ts:32-34 | Map.set on an absent key appends the entry at the end |
| `MapEntries.PutKeepsDistinct` | src/map-wrapper.ts:32-34 | Map.set keeps keys unique |
| `MapEntries.RemovePresent` | src/map-wrapper.ts:95-97 | Map.delete on a present key removes exactly that entry and keeps the others in order |
| `MapEntries.RemoveAbsent` | src/map-wrapper.ts:95-97 | Map.delete on an absent key changes nothing |
| `MapEntries.LookupAfterRemove` | src/map-wrapper.ts:95-97 | after Map.delete(k), get(k) finds nothing and every other key reads as before |
| `MapEntries.RemoveKeepsDistinct` | src/map-wrapper.ts:95-97 | Map.delete keeps keys unique |
| `MapEntries.RemoveIdempotent` | src/map-wrapper.ts:95-97 | deleting a key twice is the same as deleting it once |
| `MapEntries.KeySetSize` | src/map-wrapper.ts:49-51 | with unique keys the key set has one key per entry and holds exactly the stored keys |
| `MapEntries.FilterMembership` | src/map-wrapper.ts:147-156 | an entry is kept exactly when it is stored and satisfies the predicate |
| `MapEntries.FilterAppend` | src/map-wrapper.ts:147-156 | filtering preserves relative order: filtering a concatenation concatenates the filtered parts |
| `MapEntries.FilterKeys` | src/map-wrapper.ts:147-156 | every key of the filtered Map is a key of the original |
| `MapEntries.FilterKeepsDistinct` | src/map-wrapper.ts:147-156 | the filtered entries have unique keys, so each `newMap.set` appends |
| `MapEntries.FilterStep` | src/map-wrapper.ts:147-156 | one step of the scan: a kept entry's key is not yet in the new Map, so `newMap.set` appends it; a rejected entry leaves the new Map unchanged |
| `MapEntries.LookupAfterFilter` | src/map-wrapper.ts:147-156 | get on the filtered Map is the original value when it satisfies the predicate, otherwise nothing |
| `MapEntries.FilterIdempotent` | src/map-wrapper.ts:147-156 | filtering twice with one predicate equals filtering once |
| `MapEntries.LastMatchSpec` | src/map-wrapper.ts:130-140 | the non-stopping scan yields nothing exactly when nothing matches, else the tuple of the last matching entry |
| `MapEntries.FirstMatchSpec` | src/map-wrapper.ts:126-130 | the stopping scan yields nothing exactly when nothing matches, else the tuple of the first matching entry |
| `MapEntries.MatchesAgreeWhenUnique` | src/map-wrapper.ts:130-140 | when at most one entry matches, last match and first match coincide |
| `MapEntries.LastMatchIsNotFirstMatch` | src/map-wrapper.ts:130-140 | on {siete: 7, ocho: 8} with value > 6, find returns (ocho, 8) while the first match is (siete, 7) |
| `MapEntries.AnyMatchIffLastMatch` | src/map-wrapper.ts:178-189 | some entry matches exactly when find returns a tuple |
| `MapEntries.FoldVisitsEntriesInOrder` | src/map-wrapper.ts:119-123 | a recording callback sees every entry exactly once, in insertion order |

## Left out

- `entries()`, `keys()` and `values()` (src/map-wrapper.ts:57-59, 78-88) are not modelled. They return the host's lazy, live iterators. `Tuples` gives the same entries as a snapshot.
- `toMap()` (src/map-wrapper.ts:110-112) is not modelled, and neither is aliasing. The model does not capture a caller-held Map that is passed to the constructor and then changed outside the wrapper. The wrapper's entries are a value owned by the object.
- Callbacks get only `(value, key)`. The wrapper itself, which the source passes as a third argument, is left out. Only an effectful callback could use it.
- Callbacks are pure. Side effects, and callbacks that change the Map during a scan, are not modelled.
- `MapWrappers.MapWrapper.ForEach`: the callback's effect on the outside world is modelled as a state that the callback transforms. The method returns that state, where the source returns nothing.
- Callbacks return `bool`. The source's `=== true` test also rejects truthy values that are not `true`. Those have no counterpart in a typed callback.
- `MapWrappers.MapWrapper.Get`: a stored `undefined` is not distinguished from a missing key. In the source both read as `undefined`. The model answers "absent" only for a missing key.
- Key equality is Dafny equality. The Map's SameValueZero comparison (for example NaN equals NaN) is not modelled.
- JavaScript truthiness and `instanceof Map` are reduced to three kinds of argument: falsy, a Map, or another truthy value.
- `size` is an unbounded natural number rather than a JavaScript number.

## Findings

| source | as written | input that shows it | evidently intended | confidence | as-written member | corrected member |
|---|---|---|---|---|---|---|
| src/map-wrapper.ts:126-140 | `return tuple` only leaves the arrow callback, and `forEach` keeps scanning, so each later match overwrites `tuple`. `find` returns the LAST matching entry. | entries {siete: 7, ocho: 8}, predicate `value > 6`: the result is (ocho, 8) | the FIRST matching entry, as the doc comment on line 126 and `Array.prototype.find` say: (siete, 7) | not executed; proved on the model | `MapWrappers.MapWrapper.Find`, `MapEntries.LastMatchIsNotFirstMatch` | `MapWrappers.MapWrapper.FindFirst` |
