/** What a loop over a Go map collects, independently of the order in which
    `range` visits the keys. */
module Multisets {

  /** Some element of a non-empty set (the element the sum below peels off). */
  ghost function Pick<K>(s: set<K>): K
    requires s != {}
  {
    var k :| k in s; k
  }

  /** The sum, over a finite set of keys, of one multiset per key. */
  ghost function SumOver<K, V>(keys: set<K>, f: K -> multiset<V>): multiset<V>
    decreases keys
  {
    if keys == {} then multiset{} else f(Pick(keys)) + SumOver(keys - {Pick(keys)}, f)
  }

  /** Any key can be peeled off first: the sum does not depend on the order
      in which the keys are visited. */
  lemma {:induction false} SumOverRemove<K, V>(keys: set<K>, f: K -> multiset<V>, k: K)
    requires k in keys
    ensures SumOver(keys, f) == f(k) + SumOver(keys - {k}, f)
    decreases keys
  {
    var x := Pick(keys);
    if x != k {
      SumOverRemove(keys - {x}, f, k);
      SumOverRemove(keys - {k}, f, x);
      assert keys - {x} - {k} == keys - {k} - {x};
    }
  }

  /** An element of the sum comes from the multiset of some key. */
  lemma {:induction false} InSumOver<K, V>(keys: set<K>, f: K -> multiset<V>, v: V)
    requires v in SumOver(keys, f)
    ensures exists k :: k in keys && v in f(k)
    decreases keys
  {
    if keys != {} {
      var x := Pick(keys);
      if v !in f(x) {
        InSumOver(keys - {x}, f, v);
      }
    }
  }
}
