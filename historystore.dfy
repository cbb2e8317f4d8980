/**
  The history record `{past, present, future}` and what undoing and redoing a
  number of its entries means, stated as functions on values.

  `past` lists entries oldest first, so its last entry is the most recent
  change; `future` lists the entries that redo would re-apply, next first.
 */
module HistoryStore {
  import opened DiffEngine

  /** A history entry: the diff of one recorded action, or a group marker. */
  datatype Entry = Diff(edits: seq<Edit>) | GroupBeginMarker | GroupEndMarker

  /** The edits an entry carries. A marker carries none: the diff library
      ignores a change that has no kind, so walking a marker changes nothing. */
  function EditsOf(e: Entry): (es: seq<Edit>)
    ensures !e.Diff? ==> es == []
    ensures e.Diff? ==> es == e.edits
  {
    if e.Diff? then e.edits else []
  }

  datatype History = History(past: seq<Entry>, present: State, future: seq<Entry>)

  /** Reverts the entries of `t`, newest (last) first. */
  function RevertAll(s: State, t: seq<Entry>): State
  {
    if t == [] then s else Revert(RevertAll(s, t[1..]), EditsOf(t[0]))
  }

  /** Applies the entries of `t`, oldest (first) first. */
  function ApplyAll(s: State, t: seq<Entry>): State
  {
    if t == [] then s else Apply(ApplyAll(s, t[..|t| - 1]), EditsOf(t[|t| - 1]))
  }

  /** Reverting the entries of `t` from `s`, newest first, meets at each
      step a state the entry describes as its "after". */
  predicate RevertsCleanly(s: State, t: seq<Entry>)
  {
    t == [] ||
    (RevertsCleanly(s, t[1..]) &&
     Distinct(EditsOf(t[0])) && HoldsAfter(RevertAll(s, t[1..]), EditsOf(t[0])))
  }

  /** Applying the entries of `t` from `s`, oldest first, meets at each step
      a state the entry describes as its "before". */
  predicate AppliesCleanly(s: State, t: seq<Entry>)
  {
    t == [] ||
    (AppliesCleanly(s, t[..|t| - 1]) &&
     Distinct(EditsOf(t[|t| - 1])) && HoldsBefore(ApplyAll(s, t[..|t| - 1]), EditsOf(t[|t| - 1])))
  }

  /** The past leads to the present and the future leads on from it: every
      entry is the diff between two consecutive states. */
  predicate Coherent(h: History)
  {
    RevertsCleanly(h.present, h.past) && AppliesCleanly(h.present, h.future)
  }

  lemma {:induction false} RevertAllConcat(s: State, p: seq<Entry>, t: seq<Entry>)
    ensures RevertAll(s, p + t) == RevertAll(RevertAll(s, t), p)
    ensures RevertsCleanly(s, p + t) <==> RevertsCleanly(s, t) && RevertsCleanly(RevertAll(s, t), p)
    decreases |p|
  {
    if p == [] {
      assert p + t == t;
    } else {
      assert (p + t)[1..] == p[1..] + t;
      assert (p + t)[0] == p[0];
      RevertAllConcat(s, p[1..], t);
    }
  }

  lemma {:induction false} ApplyAllConcat(s: State, t: seq<Entry>, f: seq<Entry>)
    ensures ApplyAll(s, t + f) == ApplyAll(ApplyAll(s, t), f)
    ensures AppliesCleanly(s, t + f) <==> AppliesCleanly(s, t) && AppliesCleanly(ApplyAll(s, t), f)
    decreases |f|
  {
    if f == [] {
      assert t + f == t;
    } else {
      var n := |t + f|;
      assert (t + f)[..n - 1] == t + f[..|f| - 1];
      assert (t + f)[n - 1] == f[|f| - 1];
      ApplyAllConcat(s, t, f[..|f| - 1]);
    }
  }

  /** Entries that revert cleanly from `s` re-apply cleanly from where the
      reverting ends, and re-applying them lands on `s` again. */
  lemma {:induction false} ApplyAllAfterRevertAll(s: State, t: seq<Entry>)
    requires RevertsCleanly(s, t)
    ensures AppliesCleanly(RevertAll(s, t), t)
    ensures ApplyAll(RevertAll(s, t), t) == s
    decreases |t|
  {
    if t != [] {
      var rest := t[1..];
      var mid := RevertAll(s, rest);
      var es := EditsOf(t[0]);
      ApplyAllAfterRevertAll(s, rest);
      ApplyAfterRevert(mid, es);
      var start := Revert(mid, es);
      assert t == [t[0]] + rest;
      ApplyAllConcat(start, [t[0]], rest);
      assert [t[0]][..0] == [];
      assert ApplyAll(start, [t[0]]) == mid;
      assert AppliesCleanly(start, [t[0]]);
    }
  }

  /** Entries that apply cleanly from `s` revert cleanly from where the
      applying ends, and reverting them lands on `s` again. */
  lemma {:induction false} RevertAllAfterApplyAll(s: State, f: seq<Entry>)
    requires AppliesCleanly(s, f)
    ensures RevertsCleanly(ApplyAll(s, f), f)
    ensures RevertAll(ApplyAll(s, f), f) == s
    decreases |f|
  {
    if f != [] {
      var init := f[..|f| - 1];
      var last := f[|f| - 1];
      var mid := ApplyAll(s, init);
      var es := EditsOf(last);
      RevertAllAfterApplyAll(s, init);
      RevertAfterApply(mid, es);
      var end := Apply(mid, es);
      assert f == init + [last];
      RevertAllConcat(end, init, [last]);
      assert [last][1..] == [];
      assert RevertAll(end, [last]) == mid;
      assert RevertsCleanly(end, [last]);
    }
  }

  /** The history after undoing the last `k` entries of `past`. */
  function Undone(h: History, k: nat): (r: History)
    requires k <= |h.past|
    ensures |r.past| == |h.past| - k && |r.future| == |h.future| + k
    ensures r.past + r.future == h.past + h.future
  {
    var n := |h.past|;
    assert h.past == h.past[..n - k] + h.past[n - k..];
    History(h.past[..n - k], RevertAll(h.present, h.past[n - k..]), h.past[n - k..] + h.future)
  }

  /** The history after redoing the first `k` entries of `future`. */
  function Redone(h: History, k: nat): (r: History)
    requires k <= |h.future|
    ensures |r.past| == |h.past| + k && |r.future| == |h.future| - k
    ensures r.past + r.future == h.past + h.future
  {
    assert h.future == h.future[..k] + h.future[k..];
    History(h.past + h.future[..k], ApplyAll(h.present, h.future[..k]), h.future[k..])
  }

  /** Undoing keeps a coherent history coherent. */
  lemma {:induction false} UndonePreservesCoherence(h: History, k: nat)
    requires k <= |h.past| && Coherent(h)
    ensures Coherent(Undone(h, k))
  {
    var n := |h.past|;
    var p, t := h.past[..n - k], h.past[n - k..];
    var r := RevertAll(h.present, t);
    assert h.past == p + t;
    RevertAllConcat(h.present, p, t);
    assert RevertsCleanly(h.present, t) && RevertsCleanly(r, p);
    ApplyAllAfterRevertAll(h.present, t);
    assert AppliesCleanly(r, t) && ApplyAll(r, t) == h.present;
    ApplyAllConcat(r, t, h.future);
    assert AppliesCleanly(r, t + h.future);
    assert Undone(h, k) == History(p, r, t + h.future);
  }

  /** Redoing keeps a coherent history coherent. */
  lemma {:induction false} RedonePreservesCoherence(h: History, k: nat)
    requires k <= |h.future| && Coherent(h)
    ensures Coherent(Redone(h, k))
  {
    var t, f := h.future[..k], h.future[k..];
    var a := ApplyAll(h.present, t);
    assert h.future == t + f;
    ApplyAllConcat(h.present, t, f);
    assert AppliesCleanly(h.present, t) && AppliesCleanly(a, f);
    RevertAllAfterApplyAll(h.present, t);
    assert RevertsCleanly(a, t) && RevertAll(a, t) == h.present;
    RevertAllConcat(a, h.past, t);
    assert RevertsCleanly(a, h.past + t);
    assert Redone(h, k) == History(h.past + t, a, f);
  }

  /** Undoing `k` entries and then redoing `k` gives back the same history. */
  lemma {:induction false} RedoUndoes(h: History, k: nat)
    requires k <= |h.past| && Coherent(h)
    ensures Redone(Undone(h, k), k) == h
  {
    var n := |h.past|;
    var t := h.past[n - k..];
    var u := Undone(h, k);
    assert u.future[..k] == t;
    assert u.future[k..] == h.future;
    assert h.past[..n - k] + t == h.past;
    RevertAllConcat(h.present, h.past[..n - k], t);
    ApplyAllAfterRevertAll(h.present, t);
  }

  /** Redoing `k` entries and then undoing `k` gives back the same history. */
  lemma {:induction false} UndoRedoes(h: History, k: nat)
    requires k <= |h.future| && Coherent(h)
    ensures Undone(Redone(h, k), k) == h
  {
    var t := h.future[..k];
    var r := Redone(h, k);
    var m := |r.past|;
    assert r.past[..m - k] == h.past;
    assert r.past[m - k..] == t;
    assert t + h.future[k..] == h.future;
    ApplyAllConcat(h.present, t, h.future[k..]);
    RevertAllAfterApplyAll(h.present, t);
  }
}
