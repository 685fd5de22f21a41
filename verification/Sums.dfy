/** Sums over finite sets. */
module Sums {
  ghost function SumOver<K>(keys: set<K>, f: K -> int): int {
    if keys == {} then 0
    else var k :| k in keys; f(k) + SumOver(keys - {k}, f)
  }

  /** The order of summation does not matter: any key can come first. */
  lemma {:induction false} Split<K>(keys: set<K>, f: K -> int, k: K)
    requires k in keys
    ensures SumOver(keys, f) == f(k) + SumOver(keys - {k}, f)
  {
    var b :| b in keys && SumOver(keys, f) == f(b) + SumOver(keys - {b}, f);
    if k != b {
      Split(keys - {b}, f, k);
      Split(keys - {k}, f, b);
      assert keys - {k} - {b} == keys - {b} - {k};
    }
  }

  lemma Agree<K>(keys: set<K>, f: K -> int, g: K -> int)
    requires forall k :: k in keys ==> f(k) == g(k)
    ensures SumOver(keys, f) == SumOver(keys, g)
  {
    if keys != {} {
      var k :| k in keys;
      Split(keys, f, k);
      Split(keys, g, k);
      Agree(keys - {k}, f, g);
    }
  }

  /** Changing one summand, which may be new, changes the sum by as much. */
  lemma Change<K>(keys: set<K>, f: K -> int, g: K -> int, k: K)
    requires k !in keys ==> f(k) == 0
    requires forall b :: b in keys && b != k ==> f(b) == g(b)
    ensures SumOver(keys + {k}, g) == SumOver(keys, f) + g(k) - f(k)
  {
    Split(keys + {k}, g, k);
    assert keys + {k} - {k} == keys - {k};
    Agree(keys - {k}, f, g);
    if k in keys {
      Split(keys, f, k);
    } else {
      assert keys - {k} == keys;
    }
  }
}
