/** Facts about finite sets of natural numbers and about filling a map by
    offering keys in ascending order to an insert that keeps the first value
    offered for each key (std::map::insert). */
module Sets {

  /** The image of `s` under `f`. */
  function Image<T, U>(f: T -> U, s: set<T>): set<U> {
    set x | x in s :: f(x)
  }

  lemma ImageAdd<T, U>(f: T -> U, s: set<T>, m: T)
    ensures Image(f, s + {m}) == Image(f, s) + {f(m)}
  {
    forall y | y in Image(f, s + {m})
      ensures y in Image(f, s) + {f(m)}
    {
      var x :| x in s + {m} && y == f(x);
      if x != m {
        assert x in s;
      }
    }
  }

  /** The smallest element of a non-empty set. */
  ghost function MinOf(s: set<nat>): (m: nat)
    requires s != {}
    ensures m in s && forall t :: t in s ==> m <= t
    decreases s
  {
    var x :| x in s;
    if s == {x} then assert forall t :: t in s ==> t == x; x
    else
      var r := MinOf(s - {x});
      assert forall t :: t in s ==> t == x || t in s - {x};
      if x < r then x else r
  }

  /** The largest element of a non-empty set. */
  ghost function MaxOf(s: set<nat>): (m: nat)
    requires s != {}
    ensures m in s && forall t :: t in s ==> t <= m
    decreases s
  {
    var x :| x in s;
    if s == {x} then assert forall t :: t in s ==> t == x; x
    else
      var r := MaxOf(s - {x});
      assert forall t :: t in s ==> t == x || t in s - {x};
      if x > r then x else r
  }

  /** The map built by offering every element of `s`, smallest first, to
      an insert that leaves a key alone once it is present. */
  ghost function InsertAscending<K, V>(key: nat -> K, val: nat -> V, s: set<nat>): map<K, V>
    decreases s
  {
    if s == {} then map[]
    else
      var m := MaxOf(s);
      var before := InsertAscending(key, val, s - {m});
      if key(m) in before then before else before[key(m) := val(m)]
  }

  /** Offering one more element, larger than all offered before, inserts
      it unless its key is already present. */
  lemma InsertAscendingNext<K, V>(key: nat -> K, val: nat -> V, done: set<nat>, m: nat)
    requires forall t :: t in done ==> t < m
    ensures var before := InsertAscending(key, val, done);
            InsertAscending(key, val, done + {m})
              == if key(m) in before then before else before[key(m) := val(m)]
  {
    assert MaxOf(done + {m}) == m;
    assert (done + {m}) - {m} == done;
  }

  /** Every element's key is present, and no other key. */
  lemma {:induction false} InsertAscendingKeys<K, V>(key: nat -> K, val: nat -> V, s: set<nat>)
    ensures InsertAscending(key, val, s).Keys == Image(key, s)
    decreases s
  {
    if s != {} {
      var m := MaxOf(s);
      InsertAscendingKeys(key, val, s - {m});
      ImageAdd(key, s - {m}, m);
      assert s - {m} + {m} == s;
    }
  }

  /** Each key carries the value of the smallest element with that key. */
  lemma {:induction false} InsertAscendingFirstWins<K, V>(key: nat -> K, val: nat -> V, s: set<nat>, k: K)
    requires k in InsertAscending(key, val, s)
    ensures exists w :: && w in s && key(w) == k && InsertAscending(key, val, s)[k] == val(w)
                        && forall t :: t in s && t < w ==> key(t) != k
    decreases s
  {
    var m := MaxOf(s);
    var rest := s - {m};
    var before := InsertAscending(key, val, rest);
    if k in before {
      InsertAscendingFirstWins(key, val, rest, k);
      var w :| && w in rest && key(w) == k && before[k] == val(w)
               && forall t :: t in rest && t < w ==> key(t) != k;
      forall t | t in s && t < w
        ensures key(t) != k
      {
        assert t in rest;
      }
    } else {
      InsertAscendingKeys(key, val, rest);
      forall t | t in s && t < m
        ensures key(t) != k
      {
        assert t in rest;
        assert key(t) in Image(key, rest);
      }
    }
  }

  /** When no two elements share a key, every element's key carries its own value. */
  lemma InsertAscendingInjective<K, V>(key: nat -> K, val: nat -> V, s: set<nat>, x: nat)
    requires forall a, b :: a in s && b in s && key(a) == key(b) ==> a == b
    requires x in s
    ensures key(x) in InsertAscending(key, val, s)
    ensures InsertAscending(key, val, s)[key(x)] == val(x)
  {
    InsertAscendingKeys(key, val, s);
    assert key(x) in Image(key, s);
    InsertAscendingFirstWins(key, val, s, key(x));
  }
}
