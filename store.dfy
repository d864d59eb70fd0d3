/** The ordered key-value store the mapper keeps its two indexes in, the
    transaction that buffers writes until the caller commits it, and the
    backend adapter the mapper reads through (OSDriver: point lookups and
    "next key strictly after"). */
module Store {
  import opened Lex
  import opened Codec

  /** The committed contents of the store: an ordered map from keys to encoded values. */
  type Store = map<string, Value>

  /** The writes a transaction has buffered: keys to set (with their values)
      and keys to remove. A call overrides earlier calls on the same keys, so
      the pair holds the last word on every key it mentions. */
  datatype Pending = Pending(sets: map<string, Value>, removes: set<string>) {
    predicate Valid() {
      sets.Keys !! removes
    }

    /** Buffer set_keys(m). */
    function Set(m: map<string, Value>): (p: Pending)
      ensures Valid() ==> p.Valid()
    {
      Pending(sets + m, removes - m.Keys)
    }

    /** Buffer remove_keys(ks). */
    function Remove(ks: set<string>): (p: Pending)
      ensures Valid() ==> p.Valid()
    {
      Pending(sets - ks, removes + ks)
    }

    /** What committing the transaction does to the store. */
    function Apply(db: Store): Store {
      (db - removes) + sets
    }
  }

  const NoWrites: Pending := Pending(map[], {})

  lemma ApplyNothing(db: Store)
    ensures NoWrites.Apply(db) == db
  {
    assert NoWrites.Apply(db) == db - {};
  }

  /** Buffering set_keys(m) and then committing is committing and then setting `m`. */
  lemma ApplySet(p: Pending, m: map<string, Value>, db: Store)
    ensures p.Set(m).Apply(db) == p.Apply(db) + m
  {
    var lhs, rhs := p.Set(m).Apply(db), p.Apply(db) + m;
    assert lhs.Keys == rhs.Keys;
    forall k | k in lhs
      ensures lhs[k] == rhs[k]
    {
    }
  }

  /** Buffering remove_keys(ks) and then committing is committing and then removing `ks`. */
  lemma ApplyRemove(p: Pending, ks: set<string>, db: Store)
    ensures p.Remove(ks).Apply(db) == p.Apply(db) - ks
  {
    var lhs, rhs := p.Remove(ks).Apply(db), p.Apply(db) - ks;
    assert lhs.Keys == rhs.Keys;
    forall k | k in lhs
      ensures lhs[k] == rhs[k]
    {
    }
  }

  /** In a valid transaction no key is both set and removed, so the sets and
      the removals may be applied in either order. */
  lemma ApplyEitherOrder(p: Pending, db: Store)
    requires p.Valid()
    ensures p.Apply(db) == (db + p.sets) - p.removes
  {
    var lhs, rhs := p.Apply(db), (db + p.sets) - p.removes;
    assert lhs.Keys == rhs.Keys;
    forall k | k in lhs
      ensures lhs[k] == rhs[k]
    {
    }
  }

  /** MapCacher::Transaction: the caller-owned batch the mapper enqueues into. */
  class Transaction {
    var pending: Pending

    constructor ()
      ensures pending == NoWrites && pending.Valid()
    {
      pending := NoWrites;
    }

    method SetKeys(m: map<string, Value>)
      modifies this
      ensures pending == old(pending).Set(m)
    {
      pending := pending.Set(m);
    }

    method RemoveKeys(ks: set<string>)
      modifies this
      ensures pending == old(pending).Remove(ks)
    {
      pending := pending.Remove(ks);
    }
  }

  // ---------------------------------------------------------------------
  // Ordered reads

  /** `k` is the smallest stored key strictly greater than `pos`. */
  ghost predicate IsUpperBound(db: Store, pos: string, k: string) {
    && k in db
    && Less(pos, k)
    && forall k' :: k' in db && Less(pos, k') ==> k' == k || Less(k, k')
  }

  lemma UpperBoundUnique(db: Store, pos: string, a: string, b: string)
    requires IsUpperBound(db, pos, a) && IsUpperBound(db, pos, b)
    ensures a == b
  {
    if a != b {
      LessAsymmetric(a, b);
    }
  }

  /** Some element of a non-empty set. */
  ghost function Pick(ks: set<string>): (k: string)
    requires ks != {}
    ensures k in ks
  {
    var k :| k in ks; k
  }

  /** The smallest key of `ks` strictly greater than `pos`, found by looking
      at the keys one at a time. */
  ghost function UpperBoundIn(ks: set<string>, pos: string): Option<string>
    decreases ks
  {
    if ks == {} then None
    else
      var k := Pick(ks);
      var r := UpperBoundIn(ks - {k}, pos);
      if Less(pos, k) && (r.None? || Less(k, r.value)) then Some(k) else r
  }

  lemma {:induction false} UpperBoundInSpec(ks: set<string>, pos: string)
    ensures var r := UpperBoundIn(ks, pos);
      && (r.None? <==> forall k :: k in ks ==> !Less(pos, k))
      && (r.Some? ==> && r.value in ks && Less(pos, r.value)
                      && forall k :: k in ks && Less(pos, k) ==> k == r.value || Less(r.value, k))
    decreases ks
  {
    if ks != {} {
      var k := Pick(ks);
      var r := UpperBoundIn(ks - {k}, pos);
      UpperBoundInSpec(ks - {k}, pos);
      if r.Some? {
        LessTotal(k, r.value);
        if Less(pos, k) && Less(k, r.value) {
          forall k' | k' in ks && Less(pos, k')
            ensures k' == k || Less(k, k')
          {
            if k' != k && k' != r.value {
              LessTransitive(k, r.value, k');
            }
          }
        }
      }
    }
  }

  /** upper_bound(pos) on the store's iterator: the first entry whose key is
      strictly greater than `pos`, if there is one. */
  ghost function UpperBound(db: Store, pos: string): Option<(string, Value)>
  {
    UpperBoundInSpec(db.Keys, pos);
    match UpperBoundIn(db.Keys, pos)
    case None => None
    case Some(k) => Some((k, db[k]))
  }

  /** The entry upper_bound finds is the least one after `pos`, and there
      is none exactly when no stored key is after `pos`. */
  lemma UpperBoundSpec(db: Store, pos: string)
    ensures var r := UpperBound(db, pos);
      && (r.None? <==> forall k :: k in db ==> !Less(pos, k))
      && (r.Some? ==> IsUpperBound(db, pos, r.value.0) && r.value.1 == db[r.value.0])
  {
    UpperBoundInSpec(db.Keys, pos);
  }

  /** OSDriver: the store as the mapper sees it. Reads see committed
      contents only; the caller commits transactions. */
  class Backend {
    var contents: Store

    constructor (initial: Store)
      ensures contents == initial
    {
      contents := initial;
    }

    /** get_keys: the requested keys that are present, with their values; a
        missing key is simply absent from the answer. */
    method GetKeys(keys: set<string>) returns (got: map<string, Value>)
      ensures got.Keys == keys * contents.Keys
      ensures forall k :: k in got ==> got[k] == contents[k]
    {
      got := map k | k in keys * contents.Keys :: contents[k];
    }

    /** get_next: the first entry strictly after `pos` (upper_bound), or
        None where the C++ returns -ENOENT. */
    method GetNext(pos: string) returns (next: Option<(string, Value)>)
      ensures next == UpperBound(contents, pos)
    {
      var unseen := contents.Keys;
      next := None;
      while unseen != {}
        invariant unseen <= contents.Keys
        invariant next.None? ==> forall k :: k in contents.Keys - unseen ==> !Less(pos, k)
        invariant next.Some? ==> && next.value.0 in contents - unseen
                                 && next.value.1 == contents[next.value.0]
                                 && Less(pos, next.value.0)
        invariant next.Some? ==> forall k :: k in contents.Keys - unseen && Less(pos, k) ==>
                                   k == next.value.0 || Less(next.value.0, k)
        decreases unseen
      {
        var k :| k in unseen;
        if Less(pos, k) {
          if next.None? {
            next := Some((k, contents[k]));
          } else if Less(k, next.value.0) {
            var best := next.value.0;
            forall k' | k' in contents.Keys - unseen && Less(pos, k')
              ensures k' == k || Less(k, k')
            {
              if k' != best {
                LessTransitive(k, best, k');
              }
            }
            next := Some((k, contents[k]));
          } else {
            LessTotal(k, next.value.0);
          }
        }
        unseen := unseen - {k};
      }
      UpperBoundSpec(contents, pos);
      if next.Some? {
        UpperBoundUnique(contents, pos, next.value.0, UpperBound(contents, pos).value.0);
      }
    }
  }
}
