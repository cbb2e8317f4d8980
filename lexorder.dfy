/**
  Lexicographic order on keys. The diff stand-in walks the keys of two states
  in this order, which makes its edit list a deterministic value.
 */
module LexOrder {

  /** `x` sorts before or equal to `y`, character by character. */
  predicate Le(x: string, y: string)
    decreases |x|
  {
    |x| == 0 || (|y| > 0 && (x[0] < y[0] || (x[0] == y[0] && Le(x[1..], y[1..]))))
  }

  lemma {:induction false} Total(x: string, y: string)
    ensures Le(x, y) || Le(y, x)
    decreases |x|
  {
    if |x| > 0 && |y| > 0 && x[0] == y[0] {
      Total(x[1..], y[1..]);
    }
  }

  lemma {:induction false} Antisymmetric(x: string, y: string)
    requires Le(x, y) && Le(y, x)
    ensures x == y
    decreases |x|
  {
    if |x| > 0 {
      Antisymmetric(x[1..], y[1..]);
      assert x == [x[0]] + x[1..] && y == [y[0]] + y[1..];
    }
  }

  lemma {:induction false} Transitive(x: string, y: string, z: string)
    requires Le(x, y) && Le(y, z)
    ensures Le(x, z)
    decreases |x|
  {
    if |x| > 0 && x[0] == y[0] && y[0] == z[0] {
      Transitive(x[1..], y[1..], z[1..]);
    }
  }

  lemma AntisymmetricAll()
    ensures forall x, y :: Le(x, y) && Le(y, x) ==> x == y
  {
    forall x, y | Le(x, y) && Le(y, x) ensures x == y {
      Antisymmetric(x, y);
    }
  }

  /** Adding `x` to a set whose least element is `m` gives a set whose least
      element is `m` or `x`. */
  lemma LeastOfInsert(rest: set<string>, m: string, x: string)
    requires m in rest && forall y :: y in rest ==> Le(m, y)
    ensures var w := if Le(m, x) then m else x;
      w in rest + {x} && forall y :: y in rest + {x} ==> Le(w, y)
  {
    Total(m, x);
    Total(x, x);
    if !Le(m, x) {
      forall y | y in rest ensures Le(x, y) {
        Transitive(x, m, y);
      }
    }
  }

  lemma {:induction false} LeastWitness(keys: set<string>) returns (m: string)
    requires keys != {}
    ensures m in keys && forall y :: y in keys ==> Le(m, y)
    decreases keys
  {
    var x :| x in keys;
    var rest := keys - {x};
    assert keys == rest + {x};
    if rest == {} {
      Total(x, x);
      m := x;
    } else {
      var least := LeastWitness(rest);
      LeastOfInsert(rest, least, x);
      m := if Le(least, x) then least else x;
    }
  }

  lemma LeastExists(keys: set<string>)
    requires keys != {}
    ensures exists m :: m in keys && forall y :: y in keys ==> Le(m, y)
  {
    var m := LeastWitness(keys);
  }

  /** The least key of a non-empty set. */
  function Least(keys: set<string>): (m: string)
    requires keys != {}
    ensures m in keys
    ensures forall y :: y in keys ==> Le(m, y)
  {
    LeastExists(keys);
    AntisymmetricAll();
    var m :| m in keys && forall y :: y in keys ==> Le(m, y);
    m
  }
}
