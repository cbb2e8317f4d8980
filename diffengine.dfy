/**
  A flat stand-in for the structural diff the history engine relies on.

  A state is a map from keys to numbers. An edit records one change at one key
  in the three shapes the engine stores: a key that appears (`New`), a key
  whose value changes (`Edited`) and a key that disappears (`Deleted`). Each
  edit keeps the value before (`lhs`) and after (`rhs`) the change, so it can
  be applied forwards and reverted.
 */
module DiffEngine {
  import opened Wrappers
  import LexOrder

  type State = map<string, int>

  datatype Edit =
    | New(key: string, rhs: int)
    | Edited(key: string, lhs: int, rhs: int)
    | Deleted(key: string, lhs: int)
  {
    /** What the key held before the change (None: absent). */
    function Before(): Option<int> {
      match this
      case New(_, _) => None
      case Edited(_, l, _) => Some(l)
      case Deleted(_, l) => Some(l)
    }

    /** What the key holds after the change (None: absent). */
    function After(): Option<int> {
      match this
      case New(_, r) => Some(r)
      case Edited(_, _, r) => Some(r)
      case Deleted(_, _) => None
    }
  }

  /** The value at `k`, or None when `k` is absent. */
  function Get(s: State, k: string): Option<int> {
    if k in s then Some(s[k]) else None
  }

  lemma SameEverywhere(a: State, b: State)
    requires forall k :: Get(a, k) == Get(b, k)
    ensures a == b
  {
    assert forall k :: k in a <==> Get(a, k).Some?;
    assert a.Keys == b.Keys;
    forall k | k in a ensures a[k] == b[k] {
      assert Get(a, k) == Get(b, k);
    }
  }

  /** Applies one edit forwards. */
  function ApplyEdit(s: State, e: Edit): (r: State)
    ensures forall k :: Get(r, k) == if k == e.key then e.After() else Get(s, k)
  {
    match e
    case New(k, v) => s[k := v]
    case Edited(k, _, v) => s[k := v]
    case Deleted(k, _) => s - {k}
  }

  /** Undoes one edit. */
  function RevertEdit(s: State, e: Edit): (r: State)
    ensures forall k :: Get(r, k) == if k == e.key then e.Before() else Get(s, k)
  {
    match e
    case New(k, _) => s - {k}
    case Edited(k, v, _) => s[k := v]
    case Deleted(k, v) => s[k := v]
  }

  /** Applies the edits of a list one after the other, in recorded order. */
  function Apply(s: State, es: seq<Edit>): State
  {
    if es == [] then s else ApplyEdit(Apply(s, es[..|es| - 1]), es[|es| - 1])
  }

  /** Reverts the edits of a list one after the other, in recorded order. */
  function Revert(s: State, es: seq<Edit>): State
  {
    if es == [] then s else RevertEdit(Revert(s, es[..|es| - 1]), es[|es| - 1])
  }

  /** The keys an edit list touches. */
  function Touched(es: seq<Edit>): set<string> {
    set i | 0 <= i < |es| :: es[i].key
  }

  /** No key is edited twice in the list. */
  predicate Distinct(es: seq<Edit>) {
    forall i, j :: 0 <= i < j < |es| ==> es[i].key != es[j].key
  }

  /** Every edit of the list describes `s` as it was before the change. */
  predicate HoldsBefore(s: State, es: seq<Edit>) {
    forall i :: 0 <= i < |es| ==> Get(s, es[i].key) == es[i].Before()
  }

  /** Every edit of the list describes `s` as it is after the change. */
  predicate HoldsAfter(s: State, es: seq<Edit>) {
    forall i :: 0 <= i < |es| ==> Get(s, es[i].key) == es[i].After()
  }

  /** With distinct keys, applying a list sets each touched key to its edit's
      new value and leaves every other key alone. */
  lemma {:induction false} ApplyPointwise(s: State, es: seq<Edit>)
    requires Distinct(es)
    ensures HoldsAfter(Apply(s, es), es)
    ensures forall k :: k !in Touched(es) ==> Get(Apply(s, es), k) == Get(s, k)
  {
    if es != [] {
      var init := es[..|es| - 1];
      ApplyPointwise(s, init);
      forall k | k !in Touched(es) ensures Get(Apply(s, es), k) == Get(s, k) {
        assert k !in Touched(init);
      }
      forall i | 0 <= i < |es| ensures Get(Apply(s, es), es[i].key) == es[i].After() {
        if i < |es| - 1 {
          assert init[i] == es[i];
        }
      }
    }
  }

  /** With distinct keys, reverting a list sets each touched key to its edit's
      old value and leaves every other key alone. */
  lemma {:induction false} RevertPointwise(s: State, es: seq<Edit>)
    requires Distinct(es)
    ensures HoldsBefore(Revert(s, es), es)
    ensures forall k :: k !in Touched(es) ==> Get(Revert(s, es), k) == Get(s, k)
  {
    if es != [] {
      var init := es[..|es| - 1];
      RevertPointwise(s, init);
      forall k | k !in Touched(es) ensures Get(Revert(s, es), k) == Get(s, k) {
        assert k !in Touched(init);
      }
      forall i | 0 <= i < |es| ensures Get(Revert(s, es), es[i].key) == es[i].Before() {
        if i < |es| - 1 {
          assert init[i] == es[i];
        }
      }
    }
  }

  /** Reverting a list that describes `s` after the change, then applying it,
      gives `s` back; the reverted state is the one the list starts from. */
  lemma ApplyAfterRevert(s: State, es: seq<Edit>)
    requires Distinct(es) && HoldsAfter(s, es)
    ensures HoldsBefore(Revert(s, es), es)
    ensures Apply(Revert(s, es), es) == s
  {
    var r := Revert(s, es);
    RevertPointwise(s, es);
    ApplyPointwise(r, es);
    forall k ensures Get(Apply(r, es), k) == Get(s, k) {
      if k in Touched(es) {
        var i :| 0 <= i < |es| && es[i].key == k;
      }
    }
    SameEverywhere(Apply(r, es), s);
  }

  /** Applying a list that describes `s` before the change, then reverting
      it, gives `s` back; the applied state is the one the list ends in. */
  lemma RevertAfterApply(s: State, es: seq<Edit>)
    requires Distinct(es) && HoldsBefore(s, es)
    ensures HoldsAfter(Apply(s, es), es)
    ensures Revert(Apply(s, es), es) == s
  {
    var a := Apply(s, es);
    ApplyPointwise(s, es);
    RevertPointwise(a, es);
    forall k ensures Get(Revert(a, es), k) == Get(s, k) {
      if k in Touched(es) {
        var i :| 0 <= i < |es| && es[i].key == k;
      }
    }
    SameEverywhere(Revert(a, es), s);
  }

  /** The edit (if any) that takes key `k` from its value in `a` to its value in `b`. */
  function EditAt(a: State, b: State, k: string): seq<Edit>
  {
    match (Get(a, k), Get(b, k))
    case (None, None) => []
    case (None, Some(v)) => [New(k, v)]
    case (Some(v), None) => [Deleted(k, v)]
    case (Some(u), Some(v)) => if u == v then [] else [Edited(k, u, v)]
  }

  /** The edits for the keys in `keys`, in ascending key order. */
  function EditsOver(a: State, b: State, keys: set<string>): seq<Edit>
    decreases keys
  {
    if keys == {} then []
    else
      var k := LexOrder.Least(keys);
      EditAt(a, b, k) + EditsOver(a, b, keys - {k})
  }

  lemma TouchedConcat(xs: seq<Edit>, ys: seq<Edit>)
    ensures Touched(xs + ys) == Touched(xs) + Touched(ys)
  {
    forall x | x in Touched(xs + ys) ensures x in Touched(xs) + Touched(ys) {
      var i :| 0 <= i < |xs + ys| && (xs + ys)[i].key == x;
      if i >= |xs| { assert ys[i - |xs|].key == x; }
    }
    forall x | x in Touched(xs) + Touched(ys) ensures x in Touched(xs + ys) {
      if x in Touched(xs) {
        var i :| 0 <= i < |xs| && xs[i].key == x;
        assert (xs + ys)[i].key == x;
      } else {
        var i :| 0 <= i < |ys| && ys[i].key == x;
        assert (xs + ys)[i + |xs|].key == x;
      }
    }
  }

  lemma EditAtSound(a: State, b: State, k: string)
    ensures var h := EditAt(a, b, k);
      && |h| <= 1 && Touched(h) <= {k}
      && (Get(a, k) != Get(b, k) <==> h != [])
      && (h != [] ==> h[0].key == k && Get(a, k) == h[0].Before() && Get(b, k) == h[0].After())
  {
  }

  lemma ConcatSound(a: State, b: State, xs: seq<Edit>, ys: seq<Edit>)
    requires Distinct(xs) && HoldsBefore(a, xs) && HoldsAfter(b, xs)
    requires Distinct(ys) && HoldsBefore(a, ys) && HoldsAfter(b, ys)
    requires Touched(xs) !! Touched(ys)
    ensures Distinct(xs + ys) && HoldsBefore(a, xs + ys) && HoldsAfter(b, xs + ys)
  {
    var es := xs + ys;
    forall i | 0 <= i < |es|
      ensures Get(a, es[i].key) == es[i].Before() && Get(b, es[i].key) == es[i].After()
    {
      if i >= |xs| { assert es[i] == ys[i - |xs|]; }
    }
    forall i, j | 0 <= i < j < |es| ensures es[i].key != es[j].key {
      if j >= |xs| {
        assert es[j] == ys[j - |xs|];
        if i >= |xs| {
          assert es[i] == ys[i - |xs|];
        } else {
          assert es[i].key in Touched(xs) && es[j].key in Touched(ys);
        }
      }
    }
  }

  /** The edits over `keys` touch each key of `keys` whose value differs,
      once, and nothing else; each describes `a` before and `b` after. */
  lemma {:induction false} EditsOverSound(a: State, b: State, keys: set<string>)
    ensures var es := EditsOver(a, b, keys);
      && Distinct(es) && HoldsBefore(a, es) && HoldsAfter(b, es)
      && Touched(es) <= keys
      && forall k :: k in keys && Get(a, k) != Get(b, k) ==> k in Touched(es)
    decreases keys
  {
    if keys != {} {
      var k := LexOrder.Least(keys);
      var head := EditAt(a, b, k);
      var tail := EditsOver(a, b, keys - {k});
      EditsOverSound(a, b, keys - {k});
      EditAtSound(a, b, k);
      TouchedConcat(head, tail);
      ConcatSound(a, b, head, tail);
      assert head != [] ==> k in Touched(head);
    }
  }

  /** The diff from `a` to `b`: None when the two states are equal. */
  function Compute(a: State, b: State): (d: Option<seq<Edit>>)
    ensures d.None? <==> a == b
    ensures d.Some? ==> Distinct(d.value) && HoldsBefore(a, d.value) && HoldsAfter(b, d.value)
  {
    if a == b then None
    else
      var es := EditsOver(a, b, a.Keys + b.Keys);
      EditsOverSound(a, b, a.Keys + b.Keys);
      assert es != [] by {
        if es == [] {
          forall k ensures Get(a, k) == Get(b, k) {
            assert Touched(es) == {};
          }
          SameEverywhere(a, b);
        }
      }
      Some(es)
  }

  /** A computed diff takes the old state to the new one and back. */
  lemma ComputeRoundTrip(a: State, b: State)
    requires Compute(a, b).Some?
    ensures Apply(a, Compute(a, b).value) == b
    ensures Revert(b, Compute(a, b).value) == a
  {
    var es := Compute(a, b).value;
    EditsOverSound(a, b, a.Keys + b.Keys);
    ApplyAfterRevert(b, es);
    RevertAfterApply(a, es);
    ApplyPointwise(a, es);
    forall k ensures Get(Apply(a, es), k) == Get(b, k) {
      if k in Touched(es) {
        var i :| 0 <= i < |es| && es[i].key == k;
      } else {
        assert k !in a.Keys + b.Keys ==> Get(a, k) == None && Get(b, k) == None;
      }
    }
    SameEverywhere(Apply(a, es), b);
  }
}
