# Breakpoint store: a Dafny model

This project models the breakpoints reducer of a debugger UI (`src/reducers/breakpoints.js`). The reducer has two parts:

- **The transition function.** `update(state, action)` maintains two things. One is a map from location key to line breakpoint. The other is an ordered list of XHR (request) breakpoints. It handles:
  - the optimistic add/commit/rollback protocol for installing a breakpoint in the debuggee;
  - overwrite by key (disable, set condition);
  - bulk overwrite (disable all, enable all);
  - removal;
  - wholesale remap;
  - reset on navigation;
  - the XHR breakpoint actions.
- **The read-only selectors.** They cover:
  - lookup by location;
  - the disabled and loading aggregates;
  - filtering by source, using the generated location for generated sources;
  - first match by line;
  - the first hidden breakpoint.

## How the model is built

- **State and the map.** The state is an immutable value, `BreakpointsState(breakpoints, xhrBreakpoints)`. The breakpoints map is a plain JavaScript object in the source. Here it is an association list `seq<(LocationId, Breakpoint)>` (module `AssocList`):
  - `Put` is object spread `{...m, [k]: v}`. An existing key keeps its position; a new key is appended.
  - `Remove` is `delete` applied to a copy.
  - `Get` is property lookup.
  - Enumeration order is list order. This is the order `Object.keys` gives, and the "first match" selectors depend on it.
- **The key function.** `makeLocationId` lives in `src/utils/breakpoint`, which is not part of this model. `Locations.MakeLocationId` is a structured key `(sourceId, line, column or 0)`, so it is injective by construction.
- **Generated-source test.** `isGeneratedId` comes from the source-map library, which is not part of this model. It becomes a parameter `isGenerated: string -> bool` of the source queries.
- **Selector argument.** The selectors in the code take the root state and read `state.breakpoints.breakpoints` (`OuterState`, `breakpoints.js:308`). `Selectors` takes the `BreakpointsState` slice directly.
- **Falsy source ids.** `null`, `undefined` and `""` are all represented by the empty string.
- **The store invariant `Valid`.** The map has one entry per key, and every breakpoint is stored under the key of its own location. `Reducer.UpdateKeepsValid` shows every action preserves it, and `Properties.RunPreservesValid` extends that to any applicable sequence of actions (each index-addressed XHR action in range when it is dispatched).
- **Reference semantics.** Each map transition has a pointwise reference definition (`Reducer.Overwritten`, `Reducer.Erased`, `Reducer.Committed`, `AssocList.LastWithKey`). Each transition's contract says that a lookup at every key agrees with its reference.

### Where the model follows intent rather than the letter of the code

- **Writes that reach the outer state object.** Three places write to the outer state object instead of its `breakpoints` map:
  - the rollback (`breakpoints.js:233-234`);
  - the commit's removal of the previous location (`:242-248`);
  - the bulk update (`:271-276`).

  The comments and the commented-out Immutable lines beside them state the intended map-level effect. `Reducer` models that intent. Module `AsWritten` models the code as written (see Findings).
- **XHR actions.** They call `state.set(...)`, which the plain-object state built by `initialBreakpointsState` does not have. They are modelled with the Immutable `List` semantics the code was written against: push, set at an index, delete at an index.
- **`removeXHRBreakpoint` on a miss.** `findIndex` answers -1 on a miss, and -1 is not the position of the request being removed, so passing it to `delete` (`:191-195`) cannot be what is meant. The model treats a miss as a no-op. The unguarded version is in `AsWritten`.
- **`getBreakpointForLine` and generated sources.** For a generated source it selects breakpoints by their generated location, but it compares the line of the original `location`. The model does the same.

## Model

| member | source | states |
|---|---|---|
| Locations.MakeLocationIdInjective | src/reducers/breakpoints.js:16 | two locations get the same key exactly when source id, line and column (absent read as 0) agree |
| AssocList.Get | src/reducers/breakpoints.js:321 | a lookup is absent exactly when no entry has the key, and a present result is a stored pair |
| AssocList.GetExactlyStored | src/reducers/breakpoints.js:321 | with one entry per key, a lookup returns `v` exactly when `(k, v)` is stored |
| AssocList.Values | src/reducers/breakpoints.js:329-332 | one value per key in key order, and with one entry per key the i-th value is exactly what the lookup `m[key]` of the i-th key answers |
| AssocList.Put | src/reducers/breakpoints.js:207 | object spread: the key maps to the new value and every other key keeps its value; an existing key keeps its position, a new key is appended; every entry of the result is old or the new pair |
| AssocList.PutKeepsUniqueKeys | src/reducers/breakpoints.js:207 | object spread keeps one entry per key |
| AssocList.Remove | src/reducers/breakpoints.js:299-300 | `delete` on a copy: the key is gone, every other key keeps its value, the surviving entries are exactly the old ones with other keys, and deleting an absent key changes nothing |
| AssocList.RemoveKeepsOrder | src/reducers/breakpoints.js:299-300 | with one entry per key, `delete` of a present key takes out exactly its entry and the other entries keep their relative order |
| AssocList.RemoveAt | src/reducers/breakpoints.js:299-300 | deleting the key stored at position i leaves the list with exactly position i cut out |
| AssocList.RemoveKeepsUniqueKeys | src/reducers/breakpoints.js:299-300 | `delete` on a copy keeps one entry per key |
| AssocList.RemoveUndoesPut | src/reducers/breakpoints.js:229-235 | deleting a key that was just added restores the map exactly |
| AssocList.LastWithKey | src/reducers/breakpoints.js:282-288 | the element a left-to-right sequence of writes leaves at a key: absent iff no element has the key, else the last element with it |
| AssocList.PutAll | src/reducers/breakpoints.js:273-277 | writing a list key by key: keys the list mentions hold the list's last element for them, the other keys keep their values, and one entry per key is kept (key order: `AssocList.PutAllKeepsKeyOrder`) |
| AssocList.FirstKeyIndex | src/reducers/breakpoints.js:282-288 | the position of the first list element with a key, or the list's length when none has it |
| AssocList.PutAllKeepsKeyOrder | src/reducers/breakpoints.js:273-277 | a run of spreads keeps every existing key at its position and appends the new keys, each mentioned by the list, in the order the list first mentions them |
| AssocList.KeptKeysStep | src/reducers/breakpoints.js:285 | a spread onto a key already present leaves the key order as it was |
| AssocList.AppendedKeyStep | src/reducers/breakpoints.js:285 | a spread onto a new key places it behind every key the list mentioned earlier |
| AssocList.PutAllSingle | src/reducers/breakpoints.js:282-288 | folding one breakpoint into an empty object gives its single entry |
| AssocList.PutAllPair | src/reducers/breakpoints.js:282-288 | folding two breakpoints into an empty object gives both entries in order, or only the later one when they share a key |
| XhrList.FindIndex | src/reducers/breakpoints.js:169-171 | `findIndex`: -1 exactly when no entry has the same path and method, else the first such index |
| XhrList.Delete | src/reducers/breakpoints.js:195 | Immutable `List.delete`: an in-range (possibly negative) index removes one entry and keeps the others in order; an out-of-range index changes nothing |
| Reducer.InitialBreakpointsState | src/reducers/breakpoints.js:44-52 | no line breakpoints, the given XHR list, and the store invariant holds |
| Reducer.SetBreakpoint | src/reducers/breakpoints.js:204-210 | the breakpoint is at the given key, every other key and the XHR list are unchanged, and the invariant is kept when the key is the breakpoint's own |
| Reducer.PutKeepsValid | src/reducers/breakpoints.js:204-210 | storing a breakpoint under its own location key keeps the store invariant |
| Reducer.DeleteBreakpoint | src/reducers/breakpoints.js:299-300 | nothing at the key afterwards, every other key unchanged, a missing key is a no-op, and the invariant is kept |
| Reducer.SyncBreakpoint | src/reducers/breakpoints.js:241-259 | commit: the final breakpoint is at its key, the previous location's key is empty unless the final breakpoint landed there, every other key is unchanged, and an absent breakpoint means removal only |
| Reducer.AddBreakpoint | src/reducers/breakpoints.js:212-239 | start inserts provisionally by key, done commits, error removes the provisional key, any other status (or start/error without a breakpoint) returns the state unchanged; the XHR list is untouched |
| Reducer.UpdateBreakpoint | src/reducers/breakpoints.js:261-267 | overwrite by key: the breakpoint at its key, every other key unchanged |
| Reducer.UpdateAllBreakpoints | src/reducers/breakpoints.js:269-279 | bulk overwrite: each key the list mentions holds its last breakpoint, the keys it does not mention keep theirs (key order: `Reducer.UpdateAllKeepsKeyOrder`) |
| Reducer.UpdateAllKeepsKeyOrder | src/reducers/breakpoints.js:269-279 | bulk overwrite keeps every stored key at its position; keys the list adds follow in first-mention order |
| Reducer.RemapBreakpoints | src/reducers/breakpoints.js:281-293 | the map is rebuilt from the list alone (later duplicates win), prior entries are gone, the XHR list is kept, and the result satisfies the invariant whatever the input state (key order: `Reducer.RemapKeyOrder`) |
| Reducer.RemapKeyOrder | src/reducers/breakpoints.js:281-293 | the rebuilt map lists its keys in the order the list first mentions them, so a later duplicate's value sits at the earlier position |
| Reducer.RemoveBreakpoint | src/reducers/breakpoints.js:295-302 | exactly the breakpoint's key is removed; absent key leaves the state unchanged; XHR list untouched |
| Reducer.AddXhrBreakpoint | src/reducers/breakpoints.js:164-183 | with no (path, method) match the breakpoint is appended; otherwise it replaces the first match at the same index and the length is unchanged; an identical entry leaves the state unchanged; no duplicate requests are introduced |
| Reducer.RemoveXhrBreakpoint | src/reducers/breakpoints.js:185-196 | a miss changes nothing; otherwise the first match is removed and the others keep their relative order; on a duplicate-free list no entry for the request remains |
| Reducer.UpdateXhrBreakpoint | src/reducers/breakpoints.js:198-202 | the entry at the index is replaced and every other entry is unchanged |
| Reducer.Update | src/reducers/breakpoints.js:54-162 | navigate returns the initial empty state; an unrecognised action returns the state unchanged |
| Reducer.UpdateKeepsValid | src/reducers/breakpoints.js:54-162 | every action keeps the store invariant |
| Reducer.UpdateFrame | src/reducers/breakpoints.js:54-162 | line actions leave the XHR list alone and XHR actions leave the map alone |
| Selectors.GetBreakpoint | src/reducers/breakpoints.js:314-325 | absent exactly when no entry has the location's key; on a valid state it returns exactly the stored breakpoint, whose own location has that key |
| Selectors.AllDisabled | src/reducers/breakpoints.js:334 | `every(disabled)` over the entries in key order |
| Selectors.AnyLoading | src/reducers/breakpoints.js:350 | `some(loading)` over the entries in key order |
| Selectors.GetBreakpointsDisabled | src/reducers/breakpoints.js:327-335 | true iff every breakpoint is disabled, hence true on an empty map |
| Selectors.GetBreakpointsLoading | src/reducers/breakpoints.js:337-351 | true iff some breakpoint is loading, hence false on an empty map |
| Selectors.FilterSource | src/reducers/breakpoints.js:374-379 | keeps exactly the breakpoints whose effective location is in the source |
| Selectors.FilterSourceAppend | src/reducers/breakpoints.js:369-379 | the source filter preserves key order (it distributes over concatenation) |
| Selectors.GetBreakpointsForSource | src/reducers/breakpoints.js:353-380 | empty for a falsy id; otherwise exactly the breakpoints whose effective location (generated location for a generated id when present, else location) has that source id |
| Selectors.FindLine | src/reducers/breakpoints.js:393-395 | `find`: absent iff no breakpoint is on the line (a null line matches none), else the first breakpoint on the line |
| Selectors.FirstOnSourceLine | src/reducers/breakpoints.js:391-395 | the first key-order position whose breakpoint is in the source and on the line |
| Selectors.FindLineOfFilter | src/reducers/breakpoints.js:391-395 | finding the line in the filtered list gives the first entry of the whole map that is in the source and on the line |
| Selectors.GetBreakpointForLine | src/reducers/breakpoints.js:382-399 | absent iff the id is falsy or no breakpoint of the source is on the line; otherwise the first such breakpoint in key order |
| Selectors.FirstHidden | src/reducers/breakpoints.js:413 | the first key-order position of a hidden breakpoint, absent iff none is hidden |
| Selectors.GetHiddenBreakpoint | src/reducers/breakpoints.js:401-417 | absent iff no breakpoint is hidden, else the first hidden one in key order |
| Selectors.GetHiddenBreakpointLocation | src/reducers/breakpoints.js:419-425 | null iff no breakpoint is hidden, else the location of the first hidden one in key order |
| Properties.OverwriteByKey | src/reducers/breakpoints.js:57-104 | add/enable with status start, disable and set-condition put the breakpoint at its key, change no other key nor the XHR list, and the location lookup then returns it |
| Properties.RunPreservesValid | src/reducers/breakpoints.js:54-162 | the store invariant holds after any applicable sequence of actions |
| Properties.RepeatedOverwritesKeepOneEntry | src/reducers/breakpoints.js:204-210 | repeated overwrites of one location leave exactly one entry at its key, equal to the last breakpoint applied |
| Properties.StartThenErrorRestores | src/reducers/breakpoints.js:229-235 | provisional add followed by rollback restores the state exactly, provided the key was free before the add |
| Properties.CommitRelocates | src/reducers/breakpoints.js:241-259 | after a provisional add and a relocating commit, the provisional key is empty, the final key holds the final breakpoint, and other keys are as before |
| Properties.CommitWithoutBreakpointRemoves | src/reducers/breakpoints.js:245-253 | a commit without a breakpoint removes the previous entry and adds nothing |
| Properties.RemapReplacesWholesale | src/reducers/breakpoints.js:281-293 | remapping two breakpoints yields exactly their two entries in order, or the later one alone when they share a key |
| Properties.DisableAllDisablesEverything | src/reducers/breakpoints.js:269-279 | disabling a disabled copy of every breakpoint makes the disabled aggregate true |
| Properties.AggregatesOnSmallMaps | src/reducers/breakpoints.js:327-351 | one enabled and one disabled breakpoint: not all disabled; empty map: all disabled and nothing loading |
| Properties.LoadingAcrossAddAndCommit | src/reducers/breakpoints.js:212-226 | from the empty store, a loading provisional add makes the loading aggregate true and the lookup defined; committing a non-loading breakpoint makes it false |
| Properties.ForSourcePartitions | src/reducers/tests/breakpoints.spec.js:25-163 | with two stored breakpoints, the first's original id selects only the first when it is not a generated id and the second lies in another source (whether or not the first's generated id equals its original id); the first's generated id selects only the first when it is a generated id and the second's generated source differs |
| Properties.SetXhrIdempotent | src/reducers/breakpoints.js:164-183 | setting an XHR breakpoint twice equals setting it once |
| Properties.RemoveXhrUndoesSet | src/reducers/breakpoints.js:185-196 | removing a request that was just appended restores the state |
| AsWritten.SyncBreakpointAsWritten | src/reducers/breakpoints.js:241-259 | as written: only the store of the final breakpoint takes effect; the previous key is not removed |
| AsWritten.AddBreakpointAsWritten | src/reducers/breakpoints.js:212-239 | as written: an error status leaves the state unchanged |
| AsWritten.UpdateAllBreakpointsAsWritten | src/reducers/breakpoints.js:269-279 | as written: the breakpoints map is unchanged |
| AsWritten.RemoveXhrBreakpointAsWritten | src/reducers/breakpoints.js:185-196 | as written: a miss on a non-empty list drops its last entry |
| AsWritten.RollbackAsWrittenKeepsEntry | src/reducers/breakpoints.js:230-235 | as written, start then error leaves the provisional entry; the corrected rollback restores the state |
| AsWritten.RelocationAsWrittenKeepsStaleEntry | src/reducers/breakpoints.js:242-248 | as written, a relocating commit leaves entries at both the old and the new key |
| AsWritten.DisableAllAsWrittenHasNoEffect | src/reducers/breakpoints.js:271-276 | as written, disable-all leaves an enabled breakpoint enabled |
| AsWritten.RemoveXhrMissAsWrittenDropsLast | src/reducers/breakpoints.js:191-195 | as written, removing an unknown request from a one-entry list empties it; the corrected removal is a no-op |

## Left out

- The string encoding of `makeLocationId` (`src/utils/breakpoint` is not part of this model). The key is a structured triple, which gives the injectivity the store relies on.
- The body of `isGeneratedId` (the source-map library is not part of this model). It is a parameter of the source queries.
- `src/actions/breakpoints/remapLocations.js`. It is an asynchronous fan-out over a source-map service. The store only sees its result, as the list of a remap action.
- Integer-like object keys. JavaScript enumerates them before string keys. Location keys are never array-index strings, so insertion order is the order used.
- Shallow copies. The selectors return `{...bp}` and `getBreakpoints` returns a copy of the map. Here they return the values themselves. `Selectors.GetBreakpoints` (`breakpoints.js:310-312`) is therefore the identity on the map; it has no contract and no row, as there is nothing about it to state beyond its body.
- Reference equality. `addXHRBreakpoint` compares with `!==`; the model compares values. With values, the replace branch and the unchanged branch give the same list.
- Malformed actions. An action missing a required field would throw a `TypeError` in the source. The model's action type cannot omit required fields; only the optional ones (`breakpoint`, `previousLocation`) can be absent.
- The thrown `TypeError` from `state.set` on the plain-object state (see above). XHR actions use Immutable `List` semantics instead.
- Reducer.UpdateXhrBreakpoint: requires an index inside the list. Immutable `set` (`breakpoints.js:198-202` passes the action's index straight to it) would wrap a negative index or grow the list past its end. Restricting the index to the list is a choice of this model, not something the code checks.
- Reducer.Update: carries the same index requirement for the three index-addressed XHR actions, through `Applicable`.
- The default argument of `update` (`state = initialBreakpointsState()`). Callers pass the state.
- The unread `breakpointsDisabled` field of the initial state, Flow type annotations, Immutable internals and Redux dispatch wiring.
- The `I.Map`-versus-array mismatch in the selector tests. `Properties.ForSourcePartitions` states the membership the tests check, for the array the code returns.
- `getBreakpointsForSource` returns an array in the code. The commented-out lines it replaced (`breakpoints.js:355`, `:361-366`) returned a filtered map, and the test at `tests/breakpoints.spec.js:86-88` still expects an `I.Map`. The model follows the code.

## Findings

| source | as written | input that shows it | evidently intended | confidence | as-written member | corrected member |
|---|---|---|---|---|---|---|
| src/reducers/breakpoints.js:233-234 | the rollback deletes the location key from a copy of the outer state | start for a breakpoint at a free key, then error for it: the entry is still there | remove the provisional entry from the breakpoints map (comment at :229, commented-out line :232) | high; not executed | AsWritten.RollbackAsWrittenKeepsEntry | Properties.StartThenErrorRestores |
| src/reducers/breakpoints.js:242-248 | the commit deletes the previous key from a copy of the outer state | start at line 4, then done with the breakpoint moved to line 5 and previous location line 4: entries at both lines | remove the provisional entry before storing the relocated one (commented-out lines :246-247). The corrected `Reducer.SyncBreakpoint` deletes and then stores even when the breakpoint did not move, so an ordinary commit moves its entry to the end of key order, where the code as written leaves it in place; `getHiddenBreakpoint` and `getBreakpointForLine` answer by key order and can therefore differ between the two | high; not executed | AsWritten.RelocationAsWrittenKeepsStaleEntry | Properties.CommitRelocates |
| src/reducers/breakpoints.js:271-276 | bulk update writes each breakpoint onto the outer state object | disable all on a state with one enabled breakpoint: it stays enabled | write into the breakpoints map (commented-out line :275) | high; not executed | AsWritten.DisableAllAsWrittenHasNoEffect | Properties.DisableAllDisablesEverything |
| src/reducers/breakpoints.js:191-195 | `delete(findIndex(...))` with no guard for -1 | remove a request absent from a one-entry list: Immutable deletes index -1, the last entry | a miss is a no-op | medium; not executed | AsWritten.RemoveXhrMissAsWrittenDropsLast | Reducer.RemoveXhrBreakpoint |

