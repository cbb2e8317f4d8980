# easy-redux-undo: the `undoable` history engine in Dafny

`undoable(reducer, options)` wraps a Redux reducer and returns a new reducer.
The new reducer keeps a history record `{past, present, future}`:

- `present` is the wrapped reducer's state.
- `past` holds one diff per recorded action, oldest first, mixed with group
  markers.
- `future` holds the diffs that undo moved out of `past`, next-to-redo first.

Each call of the returned reducer does one of five things:

- **Bootstrap.** When the record has no `present`, it builds an empty history
  around `reducer(undefined, {})`.
- **Group markers.** A GROUPBEGIN or GROUPEND action appends that marker to `past`.
- **Undo.** It moves up to `payload` entries from the end of `past` to the
  front of `future` and reverts them from a copy of `present`, newest first.
- **Redo.** It moves entries from the front of `future` to the end of `past`
  and re-applies them, oldest first.
- **Any other action** (the exported CLEAR included) goes to the wrapped
  reducer. The diff between the old and new state is recorded, the oldest
  entry is dropped at capacity and `future` is cleared. When nothing changed,
  the record is returned as it was.

The model:

- `wrappers.dfy`: an `Option`, used for JavaScript's `undefined` and for "no diff".
- `lexorder.dfy`: a lexicographic order on keys. It lets the diff stand-in
  list its edits in one fixed order.
- `diffengine.dfy`: a flat stand-in for the `deep-diff` library. A state is a
  `map<string, int>`. An edit is `New(key, rhs)`, `Edited(key, lhs, rhs)` or
  `Deleted(key, lhs)`. `Compute` returns None exactly when the two states are
  equal. `Apply` and `Revert` walk an edit list in recorded order.
- `historystore.dfy`:
  - The history entry (`Diff(edits)`, `GroupBeginMarker`, `GroupEndMarker`)
    and the record.
  - `Undone` and `Redone`, the meaning of undoing or redoing `k` entries.
  - `Coherent`: every entry of `past` and `future` is the diff between two
    consecutive states, with `present` between them.
  - The round-trip and coherence lemmas.
- `undoable.dfy`:
  - The action constants, the step count, bootstrap, the marker cases,
    eviction and the recording case.
  - `Undo` and `Redo` as loops over `newPast`/`newPresent`/`newFuture`,
    with inner loops that revert or apply one edit at a time.
  - `Reduce`, one call of the returned reducer.

The wrapped reducer is a function parameter
`(Option<State>, Action) -> State`, where None stands for `undefined`. The
reducer's incoming record is `Option<History>`. None covers both a missing
record and a record whose `present` is undefined: the code reads nothing else
before bootstrapping. A group marker carries no edits. The diff library
ignores a change object without a `kind`, so walking a marker string's
characters during undo or redo changes nothing.

The model follows the code (`lib/index.js`), which has none of the
following group-aware behaviours:

- The code evicts without regard to groups.
- The code appends GROUPEND even right after GROUPBEGIN, with no warning.
- The code does not undo or redo a group as one unit.
- The code has no typed `UnterminatedGroupError`.
- CLEAR has no case of its own, so it does not empty the history.

## Model

| member | source | states |
|---|---|---|
| `Undoable.Reduce` | lib/index.js:47-210 | Bootstrap whatever the action when there is no record. Otherwise the switch case by case: a marker is appended, undo/redo is `Undone`/`Redone` with `min(steps, available)` entries, and any other type is `Transition`. Coherence is preserved. Without group markers, the total length of `past` and `future` staying within `maxHistory` is preserved. |
| `Undoable.Bootstrap` | lib/index.js:54-60 | Empty `past` and `future`, with `present = reducer(undefined, {})`. The result is coherent. |
| `Undoable.StepCount` | lib/index.js:62 | At least 1. Equals the number of loop passes `i <= actionCount` whenever `actionCount >= 1`. Is 1 for a non-numeric payload or one below 1. This is the corrected count (see Findings). |
| `Undoable.ActionCount` | lib/index.js:62 | The count as the source computes it: always positive, and the payload itself whenever the payload is a positive number (so it can be a fraction), otherwise 1. |
| `Undoable.Iterations` | lib/index.js:98 | The number of passes of `for (i = 1; i <= count; i++)`: the largest whole number not above `count`. |
| `Undoable.FractionalPayloadRunsNoStep` | lib/index.js:62 | `actionCount` is always positive. The undo/redo loop runs zero times exactly when the payload is a number strictly between 0 and 1. |
| `Undoable.Dispatch` | lib/index.js:64-183 | The switch reaches its default case exactly when the type is none of GROUPBEGIN, GROUPEND, UNDO or REDO. |
| `Undoable.ClearReachesReducer` | lib/index.js:28-35 | The exported CLEAR type falls to the default case (the wrapped reducer). |
| `Undoable.Mark` | lib/index.js:65-81 | `past` gains exactly the marker at its end. `present` and `future` are unchanged. Coherence is preserved. |
| `Undoable.Undo` | lib/index.js:83-138 | Equals `Undone(h, min(steps, n))`, where n is the length of `past`: the loop stops early once `past` is empty. An empty `past` gives the record back unchanged. |
| `Undoable.RevertEdits` | lib/index.js:124-126 | The working copy after the in-place `revertChange` loop is `Revert(s, edits)`, edits taken in recorded order. |
| `Undoable.Redo` | lib/index.js:140-181 | Equals `Redone(h, min(steps, m))`, where m is the length of `future`: the loop stops early once `future` is empty. An empty `future` gives the record back unchanged. |
| `Undoable.ApplyEdits` | lib/index.js:167-169 | The working copy after the in-place `applyChange` loop is `Apply(s, edits)`, edits taken in recorded order. |
| `Undoable.Transition` | lib/index.js:183-208 | `present` becomes the reducer's result. The record is unchanged exactly when that result equals `present`. Otherwise `future` is cleared and `past` is the evicted old `past` plus one diff, which takes the old `present` to the new one and back, and `past` stays within `maxHistory`. This uses the corrected eviction `Evict`; `TransitionAsWritten` is the code's own. |
| `Undoable.TransitionAsWritten` | lib/index.js:183-208 | The same record as the code builds, with the `===` eviction: unchanged exactly when the reducer returns `present`, otherwise `future` cleared and one diff that takes the old `present` to the new one and back. `past` stays within `maxHistory` when it started within it, and grows by one when it started over it. |
| `Undoable.TransitionAsWrittenWithinBound` | lib/index.js:204 | While `past` is within `maxHistory`, the code's recording and the corrected `Transition` give the same record. |
| `Undoable.Evict` | lib/index.js:204 | Keeps the newest entries of `past` (a suffix), fewer than `maxHistory` of them. Nothing is dropped below capacity. This is the corrected eviction (see Findings). |
| `Undoable.EvictAsWritten` | lib/index.js:204 | The code's eviction: keeps a suffix of `past`, drops nothing unless `past` holds exactly `maxHistory` entries (in particular nothing when it is over the bound), and leaves fewer than `maxHistory` entries when `past` was within it. |
| `Undoable.EvictAsWrittenWithinBound` | lib/index.js:204 | While `past` is within `maxHistory`, the source's `===` eviction and the corrected one agree. |
| `Undoable.EvictAsWrittenLosesBound` | lib/index.js:204 | A GROUPBEGIN appended at capacity followed by a recorded action leaves `maxHistory + 2` entries under the source's eviction. |
| `Undoable.TransitionPreservesCoherence` | lib/index.js:199-207 | Recording a diff (or recording nothing) keeps a coherent history coherent, eviction included. |
| `Undoable.UndoAfterTransition` | lib/index.js:203-207 | One undo right after a recorded action gives back the previous `present` and the evicted `past`, with the new diff alone in `future`. |
| `HistoryStore.EditsOf` | lib/index.js:124-126 | The edits walked for one entry. A group marker yields none: walking its string's characters hands the diff library change objects without a kind, which it ignores. |
| `HistoryStore.Undone` | lib/index.js:98-137 | Undoing `k` entries shortens `past` by `k` and lengthens `future` by `k`. `past ++ future` is unchanged. |
| `HistoryStore.Redone` | lib/index.js:158-180 | Redoing `k` entries lengthens `past` by `k` and shortens `future` by `k`. `past ++ future` is unchanged. |
| `HistoryStore.UndonePreservesCoherence` | lib/index.js:117-129 | Undoing any number of entries keeps a coherent history coherent. |
| `HistoryStore.RedonePreservesCoherence` | lib/index.js:159-172 | Redoing any number of entries keeps a coherent history coherent. |
| `HistoryStore.RedoUndoes` | lib/index.js:98-180 | On a coherent history, undoing `k` entries and then redoing `k` gives back the same record. |
| `HistoryStore.UndoRedoes` | lib/index.js:98-180 | On a coherent history, redoing `k` entries and then undoing `k` gives back the same record. |
| `HistoryStore.ApplyAllAfterRevertAll` | lib/index.js:124-172 | Entries that revert cleanly from a state re-apply cleanly from where reverting ends, and land on that state again. |
| `HistoryStore.RevertAllAfterApplyAll` | lib/index.js:124-172 | Entries that apply cleanly from a state revert cleanly from where applying ends, and land on that state again. |
| `DiffEngine.Compute` | lib/index.js:196-201 | None exactly when the two states are equal. Otherwise each key is edited at most once, and every edit matches the old state before and the new state after. |
| `DiffEngine.ComputeRoundTrip` | lib/index.js:196 | A computed diff applied to the old state gives the new state, and reverted from the new state gives the old one. |
| `DiffEngine.ApplyAfterRevert` | lib/index.js:125 | Reverting an edit list that matches a state, then applying it, gives that state back. |
| `DiffEngine.RevertAfterApply` | lib/index.js:168 | Applying an edit list that matches a state, then reverting it, gives that state back. |

## Left out

- `src/index.js` is an unfinished earlier version whose UNDO and REDO cases do nothing. It is not part of this model.
- The `deep-diff` library (lib/index.js:22, 125, 168, 190-196) is foreign code. The model replaces it with a flat map stand-in. Nested objects, arrays, array edits and path resolution are not modelled. So edits that fail to apply to a corrupted state are not modelled either.
- `_.cloneDeep` (lib/index.js:118, 161) becomes value semantics. Dafny values are immutable, so no caller's state is ever changed.
- Array-typed states and the `WRAPKEY` wrapping (lib/index.js:24, 120-128, 163-171, 189-194) are not modelled. Neither is a wrapped reducer returning something that is not an object, where the code returns the record unchanged (lib/index.js:195-200). States are maps only.
- Undoable.Undo: requires that no step after the first meets a GROUPBEGIN as the entry it undid one step earlier, that is, no GROUPBEGIN at an index j of at least 1 with j greater than the length of `past` minus the step count: none among the undone entries other than the oldest one undone. A GROUPBEGIN undone last (at index 0 or otherwise) is allowed, since the loop stops before looking at it again. That check enters the group-scanning branch (lib/index.js:101-110), which is not modelled. Its scan stops at index 0 only by breaking on a GROUPEND there, so the throw at lib/index.js:107 can never run; an unterminated group instead ends the scan at -1 and takes `past.slice(0, -1)` as the entries to undo. The empty loop at lib/index.js:115 is not modelled either.
- Undoable.Reduce: carries the same requirement for UNDO actions.
- Undoable.Transition: uses the corrected eviction `Evict`, so when `past` is over `maxHistory` it drops entries that the code at lib/index.js:204 keeps. The code's recording is `TransitionAsWritten`.
- Options merging (lib/index.js:45-46) is not modelled. It mutates the shared defaults, and `undoType`/`redoType`/`clearType` are never consulted. `maxHistory` is a positive parameter, and `DefaultMaxHistory` records its default of 100.
- A payload of NaN behaves like a non-number, since `NaN > 0` is false. Infinity is not modelled. It behaves like any count at least as large as the history.
- A record whose `present` is defined but whose `past` or `future` is missing (a preloaded `{present: x}`, say) makes the source throw a TypeError at lib/index.js:68, 85 or 142. It is not modelled: a `History` always holds both sequences.
- An undefined `action` after bootstrapping makes the source throw a TypeError. It is not modelled: an action is always an object.
- `Reduce` uses the corrected step count and eviction below. The as-written versions are `ActionCount`/`Iterations`, `EvictAsWritten` and `TransitionAsWritten`.
- Babel helpers, `createAction` and the exports (lib/index.js:1-36, 213-214) are module plumbing and are not modelled.

## Findings

| source | as written | input that shows it | evidently intended | confidence | as-written member | corrected member |
|---|---|---|---|---|---|---|
| lib/index.js:62 | `actionCount` is the payload itself when it is a positive number. The loop `for (i = 1; i <= actionCount; i++)` then runs zero times for a payload below 1. `newPast`, `newPresent` and `newFuture` stay undefined, so the returned record is entirely undefined and the next call bootstraps afresh. | UNDO with payload 0.5 and a non-empty `past`: the whole history is lost. | A positive payload below 1 takes one step, like the default. | medium; not executed | `Undoable.FractionalPayloadRunsNoStep` | `Undoable.StepCount` |
| lib/index.js:204 | The oldest entry is dropped only when `past.length === maxHistory`. A group marker is appended without eviction (lib/index.js:65-81), so `past` can go over the bound. From then on no recording evicts, until undo brings `past` back to `maxHistory` or below. | `maxHistory` 1, `past` `[d]`, then GROUPBEGIN, then any recorded action: `past` has 3 entries, and each further recorded action adds one more. | Drop the oldest entries whenever `past` is at or over capacity, so that `past` stays within `maxHistory` after every recording. | high; not executed | `Undoable.EvictAsWrittenLosesBound` | `Undoable.Evict` |
