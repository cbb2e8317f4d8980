/**
  The reducer that `undoable(reducer, options)` returns: it threads a history
  record `{past, present, future}` through a wrapped reducer and answers the
  library's own actions (group markers, undo, redo).

  The wrapped reducer is a function parameter. A record whose `present` is
  undefined (or no record at all) is `None`: the engine never reads its
  `past` or `future` before bootstrapping.
 */
module Undoable {
  import opened Wrappers
  import opened DiffEngine
  import opened HistoryStore

  const LibraryPrefix: string := "@@easy-redux-undo/"
  const UndoAction: string := LibraryPrefix + "UNDO"
  const RedoAction: string := LibraryPrefix + "REDO"
  const ClearAction: string := LibraryPrefix + "CLEAR"
  const GroupBegin: string := LibraryPrefix + "GROUPBEGIN"
  const GroupEnd: string := LibraryPrefix + "GROUPEND"

  /** The `maxHistory` option's default. */
  const DefaultMaxHistory: nat := 100

  /** An action's `payload`: missing, a (finite) number, or anything else. */
  datatype Payload = Absent | Numeric(value: real) | NonNumeric

  /** An action: its `type` (None when the object has none) and its payload. */
  datatype Action = Action(kind: Option<string>, payload: Payload)

  /** The `{}` handed to the wrapped reducer when bootstrapping. */
  const EmptyAction: Action := Action(None, Absent)

  /** The wrapped reducer; its first argument is None for `undefined`. */
  type Reducer = (Option<State>, Action) -> State

  function Min(a: nat, b: nat): nat {
    if a <= b then a else b
  }

  // ---------------------------------------------------------------------
  // Step count

  /** The `actionCount` the source computes from the payload: the payload
      itself when it is a positive number, otherwise 1. */
  function ActionCount(p: Payload): (c: real)
    ensures c > 0.0
    ensures c == 1.0 || (p.Numeric? && c == p.value)
    ensures p.Numeric? && p.value > 0.0 ==> c == p.value
  {
    if p.Numeric? && p.value > 0.0 then p.value else 1.0
  }

  /** How many times a loop `for (i = 1; i <= count; i++)` runs. */
  function Iterations(count: real): (n: nat)
    requires count > 0.0
    ensures n as real <= count < n as real + 1.0
  {
    count.Floor
  }

  /** A positive count yields no iteration exactly when the payload is a
      number strictly between 0 and 1. */
  lemma FractionalPayloadRunsNoStep(p: Payload)
    ensures ActionCount(p) > 0.0
    ensures Iterations(ActionCount(p)) == 0 <==> p.Numeric? && 0.0 < p.value < 1.0
  {
  }

  /** The number of undo or redo steps asked for: the payload's whole part
      when it is a number of at least 1, otherwise 1. */
  function StepCount(p: Payload): (n: nat)
    ensures n >= 1
    ensures ActionCount(p) >= 1.0 ==> n == Iterations(ActionCount(p))
    ensures !(p.Numeric? && p.value >= 1.0) ==> n == 1
  {
    if p.Numeric? && p.value >= 1.0 then p.value.Floor else 1
  }

  // ---------------------------------------------------------------------
  // Bootstrap and group markers

  /** The first call: an empty history around the wrapped reducer's initial state. */
  function Bootstrap(reducer: Reducer): (r: History)
    ensures r.past == [] && r.future == [] && r.present == reducer(None, EmptyAction)
    ensures Coherent(r)
  {
    History([], reducer(None, EmptyAction), [])
  }

  /** Appends a group marker to `past`. */
  function Mark(h: History, marker: Entry): (r: History)
    requires !marker.Diff?
    ensures r.past == h.past + [marker] && r.present == h.present && r.future == h.future
    ensures Coherent(h) ==> Coherent(r)
  {
    var r := History(h.past + [marker], h.present, h.future);
    RevertAllConcat(h.present, h.past, [marker]);
    assert [marker][1..] == [];
    r
  }

  // ---------------------------------------------------------------------
  // Recording

  /** Drops the oldest entries so that one more fits within `maxHistory`. */
  function Evict(past: seq<Entry>, maxHistory: nat): (r: seq<Entry>)
    requires maxHistory >= 1
    ensures |r| < maxHistory
    ensures |r| <= |past| && r == past[|past| - |r|..]
    ensures |past| < maxHistory ==> r == past
    ensures |past| >= maxHistory ==> |r| == maxHistory - 1
  {
    if |past| >= maxHistory then past[|past| - maxHistory + 1..] else past
  }

  /** Eviction as the source writes it: the oldest entry is dropped only when
      `past` holds exactly `maxHistory` entries. Over the bound it drops
      nothing at all. */
  function EvictAsWritten(past: seq<Entry>, maxHistory: nat): (r: seq<Entry>)
    ensures |r| <= |past| && r == past[|past| - |r|..]
    ensures |past| != maxHistory ==> r == past
    ensures 1 <= maxHistory && |past| <= maxHistory ==> |r| < maxHistory
  {
    if |past| == maxHistory && |past| > 0 then past[1..] else past
  }

  /** Within the bound the two evictions agree. */
  lemma EvictAsWrittenWithinBound(past: seq<Entry>, maxHistory: nat)
    requires maxHistory >= 1 && |past| <= maxHistory
    ensures EvictAsWritten(past, maxHistory) == Evict(past, maxHistory)
  {
  }

  /** A group marker appended at capacity takes `past` over the bound, and
      the next recording then drops nothing. */
  lemma EvictAsWrittenLosesBound(h: History, maxHistory: nat, d: seq<Edit>)
    requires maxHistory >= 1 && |h.past| == maxHistory
    ensures var p := Mark(h, GroupBeginMarker).past;
      |EvictAsWritten(p, maxHistory) + [Diff(d)]| == maxHistory + 2
  {
  }

  /** The default case: run the wrapped reducer on `present` and record the
      diff, or return the record unchanged when nothing changed. */
  function Transition(maxHistory: nat, reducer: Reducer, h: History, action: Action): (r: History)
    requires maxHistory >= 1
    ensures r.present == reducer(Some(h.present), action)
    ensures r == h <==> reducer(Some(h.present), action) == h.present
    ensures r != h ==>
      && |r.past| >= 1
      && r.future == []
      && |r.past| <= maxHistory
      && r.past == Evict(h.past, maxHistory) + [r.past[|r.past| - 1]]
      && r.past[|r.past| - 1].Diff?
      && Apply(h.present, r.past[|r.past| - 1].edits) == r.present
      && Revert(r.present, r.past[|r.past| - 1].edits) == h.present
  {
    var next := reducer(Some(h.present), action);
    match Compute(h.present, next)
    case None => h
    case Some(d) =>
      ComputeRoundTrip(h.present, next);
      History(Evict(h.past, maxHistory) + [Diff(d)], next, [])
  }

  /** The default case with the source's own eviction: the same record as
      `Transition` except that `past` is cut by `EvictAsWritten`. */
  function TransitionAsWritten(maxHistory: nat, reducer: Reducer, h: History, action: Action): (r: History)
    ensures r.present == reducer(Some(h.present), action)
    ensures r == h <==> reducer(Some(h.present), action) == h.present
    ensures r != h ==>
      && |r.past| >= 1
      && r.future == []
      && r.past == EvictAsWritten(h.past, maxHistory) + [r.past[|r.past| - 1]]
      && r.past[|r.past| - 1].Diff?
      && Apply(h.present, r.past[|r.past| - 1].edits) == r.present
      && Revert(r.present, r.past[|r.past| - 1].edits) == h.present
    ensures 1 <= maxHistory && |h.past| <= maxHistory ==> |r.past| <= maxHistory
    ensures r != h && |h.past| > maxHistory ==> |r.past| == |h.past| + 1
  {
    var next := reducer(Some(h.present), action);
    match Compute(h.present, next)
    case None => h
    case Some(d) =>
      ComputeRoundTrip(h.present, next);
      History(EvictAsWritten(h.past, maxHistory) + [Diff(d)], next, [])
  }

  /** Within the bound the source's recording and the corrected one agree. */
  lemma TransitionAsWrittenWithinBound(maxHistory: nat, reducer: Reducer, h: History, action: Action)
    requires maxHistory >= 1 && |h.past| <= maxHistory
    ensures TransitionAsWritten(maxHistory, reducer, h, action) == Transition(maxHistory, reducer, h, action)
  {
    EvictAsWrittenWithinBound(h.past, maxHistory);
  }

  /** Recording keeps a coherent history coherent. */
  lemma TransitionPreservesCoherence(maxHistory: nat, reducer: Reducer, h: History, action: Action)
    requires maxHistory >= 1 && Coherent(h)
    ensures Coherent(Transition(maxHistory, reducer, h, action))
  {
    var next := reducer(Some(h.present), action);
    var d := Compute(h.present, next);
    if d.Some? {
      var kept := Evict(h.past, maxHistory);
      var e := Diff(d.value);
      var dropped := h.past[..|h.past| - |kept|];
      assert h.past == dropped + kept;
      RevertAllConcat(h.present, dropped, kept);
      ComputeRoundTrip(h.present, next);
      RevertAllConcat(next, kept, [e]);
      assert [e][1..] == [];
    }
  }

  /** Undoing right after a recorded action restores the previous present
      and moves the new diff to `future`. */
  lemma UndoAfterTransition(maxHistory: nat, reducer: Reducer, h: History, action: Action)
    requires maxHistory >= 1
    requires Transition(maxHistory, reducer, h, action) != h
    ensures var t := Transition(maxHistory, reducer, h, action);
      Undone(t, 1) == History(Evict(h.past, maxHistory), h.present, [t.past[|t.past| - 1]])
  {
    var t := Transition(maxHistory, reducer, h, action);
    var next := reducer(Some(h.present), action);
    ComputeRoundTrip(h.present, next);
    var n := |t.past|;
    var e := t.past[n - 1];
    assert t.past[n - 1..] == [e];
    assert [e][1..] == [];
    assert RevertAll(t.present, [e]) == Revert(t.present, e.edits);
    assert t.past[..n - 1] == Evict(h.past, maxHistory);
  }

  // ---------------------------------------------------------------------
  // Undo and redo

  /** Reverts the edits of one entry on the working copy, one at a time in
      recorded order. */
  method RevertEdits(s: State, edits: seq<Edit>) returns (r: State)
    ensures r == Revert(s, edits)
  {
    r := s;
    var j := 0;
    while j < |edits|
      invariant 0 <= j <= |edits|
      invariant r == Revert(s, edits[..j])
    {
      assert edits[..j + 1][..j] == edits[..j];
      r := RevertEdit(r, edits[j]);
      j := j + 1;
    }
    assert edits[..j] == edits;
  }

  /** Applies the edits of one entry to the working copy, one at a time in
      recorded order. */
  method ApplyEdits(s: State, edits: seq<Edit>) returns (r: State)
    ensures r == Apply(s, edits)
  {
    r := s;
    var k := 0;
    while k < |edits|
      invariant 0 <= k <= |edits|
      invariant r == Apply(s, edits[..k])
    {
      assert edits[..k + 1][..k] == edits[..k];
      r := ApplyEdit(r, edits[k]);
      k := k + 1;
    }
    assert edits[..k] == edits;
  }

  /** No undo step after the first finds a GROUPBEGIN as the entry undone one
      step earlier, so the source never enters its group-scanning branch.
      The entry undone last is never looked at this way: the loop ends after
      it, by its count or once `past` is empty. */
  predicate NoGroupBeginBeforeLastStep(past: seq<Entry>, steps: nat)
  {
    forall j :: 1 <= j < |past| && |past| - steps < j ==> past[j] != GroupBeginMarker
  }

  lemma NotGroupBegin(past: seq<Entry>, steps: nat, j: nat)
    requires NoGroupBeginBeforeLastStep(past, steps)
    requires 1 <= j < |past| && |past| - steps < j
    ensures past[j] != GroupBeginMarker
  {
  }

  /** One undo step moves `past[endIndex]` to the front of the entries
      undone so far and reverts it from the state they reverted to. */
  lemma UndoStep(present: State, past: seq<Entry>, future: seq<Entry>, endIndex: nat,
                 undoneFuture: seq<Entry>, undonePresent: State)
    requires endIndex < |past|
    requires undoneFuture == past[endIndex + 1..] + future
    requires undonePresent == RevertAll(present, past[endIndex + 1..])
    ensures [past[endIndex]] + undoneFuture == past[endIndex..] + future
    ensures Revert(undonePresent, EditsOf(past[endIndex])) == RevertAll(present, past[endIndex..])
  {
    assert past[endIndex..][1..] == past[endIndex + 1..];
  }

  /** Undoes up to `steps` entries: moves them from the end of `past` to the
      front of `future` and reverts them from a copy of `present`, newest
      first, stopping early once `past` is empty. */
  method Undo(h: History, steps: nat) returns (r: History)
    requires steps >= 1
    requires NoGroupBeginBeforeLastStep(h.past, steps)
    ensures r == Undone(h, Min(steps, |h.past|))
    ensures |h.past| == 0 ==> r == h
  {
    var past, present, future := h.past, h.present, h.future;
    if |past| == 0 {
      return History(past, present, future);
    }
    var n := |past|;
    var newPast, newPresent, newFuture := past, present, future;
    var changesToApply: Option<Entry> := None;
    // `past[lo..]` are the entries undone so far
    ghost var lo := n;
    var i := 1;
    while i <= steps
      invariant 1 <= i <= steps + 1 && lo == n - (i - 1) && 1 <= lo
      invariant i <= steps ==> changesToApply != Some(GroupBeginMarker)
      invariant newPast == past[..lo]
      invariant newFuture == past[lo..] + future
      invariant newPresent == RevertAll(present, past[lo..])
    {
      var endIndex := n - i;
      if changesToApply == Some(GroupBeginMarker) {
        // the group-scanning branch, excluded by the precondition
        assert false;
      }
      UndoStep(present, past, future, endIndex, newFuture, newPresent);
      changesToApply := Some(past[endIndex]);
      newPast := past[..endIndex];
      newPresent := RevertEdits(newPresent, EditsOf(past[endIndex]));
      newFuture := [past[endIndex]] + newFuture;
      lo := endIndex;
      if |newPast| == 0 {
        break;
      }
      if i < steps {
        NotGroupBegin(past, steps, endIndex);
      }
      i := i + 1;
    }
    assert n - lo == Min(steps, n);
    r := History(newPast, newPresent, newFuture);
  }

  /** Redoes up to `steps` entries: moves them from the front of `future` to
      the end of `past` and applies them to a copy of `present`, oldest
      first, stopping early once `future` is empty. */
  method Redo(h: History, steps: nat) returns (r: History)
    requires steps >= 1
    ensures r == Redone(h, Min(steps, |h.future|))
    ensures |h.future| == 0 ==> r == h
  {
    var past, present, future := h.past, h.present, h.future;
    if |future| == 0 {
      return History(past, present, future);
    }
    var m := |future|;
    var newPast, newPresent, newFuture := past, present, future;
    var i := 1;
    while i <= steps
      invariant 1 <= i <= steps + 1 && i - 1 < m
      invariant newPast == past + future[..i - 1]
      invariant newFuture == future[i - 1..]
      invariant newPresent == ApplyAll(present, future[..i - 1])
    {
      var lastChange := future[i - 1];
      newFuture := future[i..];
      newPresent := ApplyEdits(newPresent, EditsOf(lastChange));
      assert future[..i][..i - 1] == future[..i - 1];
      newPast := newPast + [lastChange];
      assert newPast == past + future[..i];
      if |newFuture| == 0 {
        break;
      }
      i := i + 1;
    }
    r := History(newPast, newPresent, newFuture);
  }

  // ---------------------------------------------------------------------
  // The reducer

  /** The cases of the reducer's switch on `action.type`. */
  datatype Case = GroupBeginCase | GroupEndCase | UndoCase | RedoCase | DefaultCase

  function Dispatch(kind: Option<string>): (c: Case)
    ensures c == DefaultCase <==>
      kind !in {Some(GroupBegin), Some(GroupEnd), Some(UndoAction), Some(RedoAction)}
  {
    if kind == Some(GroupBegin) then GroupBeginCase
    else if kind == Some(GroupEnd) then GroupEndCase
    else if kind == Some(UndoAction) then UndoCase
    else if kind == Some(RedoAction) then RedoCase
    else DefaultCase
  }

  /** The library's CLEAR action has no case of its own: it reaches the wrapped reducer. */
  lemma ClearReachesReducer()
    ensures Dispatch(Some(ClearAction)) == DefaultCase
  {
  }

  /** Entries in `past` and `future` together stay within `maxHistory`. */
  predicate WithinBound(h: History, maxHistory: nat) {
    |h.past| + |h.future| <= maxHistory
  }

  /** One call of the returned reducer. */
  method Reduce(maxHistory: nat, reducer: Reducer, state: Option<History>, action: Action)
    returns (r: History)
    requires maxHistory >= 1
    requires state.Some? && Dispatch(action.kind) == UndoCase ==>
      NoGroupBeginBeforeLastStep(state.value.past, StepCount(action.payload))
    ensures state.None? ==> r == Bootstrap(reducer)
    ensures state.Some? ==>
      var h := state.value;
      var steps := StepCount(action.payload);
      match Dispatch(action.kind)
      case GroupBeginCase => r == Mark(h, GroupBeginMarker)
      case GroupEndCase => r == Mark(h, GroupEndMarker)
      case UndoCase => r == Undone(h, Min(steps, |h.past|))
      case RedoCase => r == Redone(h, Min(steps, |h.future|))
      case DefaultCase => r == Transition(maxHistory, reducer, h, action)
    ensures state.Some? && Coherent(state.value) ==> Coherent(r)
    ensures (state.None? || WithinBound(state.value, maxHistory)) &&
            Dispatch(action.kind) !in {GroupBeginCase, GroupEndCase}
            ==> WithinBound(r, maxHistory)
  {
    if state.None? {
      return Bootstrap(reducer);
    }
    var h := state.value;
    var steps := StepCount(action.payload);
    match Dispatch(action.kind)
    case GroupBeginCase =>
      r := Mark(h, GroupBeginMarker);
    case GroupEndCase =>
      r := Mark(h, GroupEndMarker);
    case UndoCase =>
      r := Undo(h, steps);
      if Coherent(h) {
        UndonePreservesCoherence(h, Min(steps, |h.past|));
      }
    case RedoCase =>
      r := Redo(h, steps);
      if Coherent(h) {
        RedonePreservesCoherence(h, Min(steps, |h.future|));
      }
    case DefaultCase =>
      r := Transition(maxHistory, reducer, h, action);
      if Coherent(h) {
        TransitionPreservesCoherence(maxHistory, reducer, h, action);
      }
  }
}
