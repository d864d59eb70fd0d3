/** SnapMapper: the per-shard index from objects to the snapshots that still
    reference their clones, and from snapshots back to objects. Reads go to
    the committed store through the backend; writes are enqueued in a
    caller-owned transaction that the caller commits later. */
module Mapper {
  import opened Lex
  import opened Codec
  import opened Store
  import opened Sets
  import opened Index
  import opened Results
  import opened Scan

  // ---------------------------------------------------------------------
  // What each operation does, on a committed store

  /** get_snaps: the forward entry of `o`, or why there is none. */
  function Lookup(db: Store, ks: KeyScheme, owned: bool, o: ObjectId): (r: Outcome<ObjectSnaps>)
    ensures r.NotFound? <==> owned && ks.obj(o) !in db
    ensures r.Ok? <==> owned && ks.obj(o) in db && db[ks.obj(o)].ObjectSnapsBytes? && db[ks.obj(o)].objectSnaps.snaps != {}
    ensures r.Ok? ==> db[ks.obj(o)] == EncodeObjectSnaps(r.value)
  {
    if !owned then Fatal(NotOwned)
    else if ks.obj(o) !in db then NotFound
    else match DecodeObjectSnaps(db[ks.obj(o)])
      case None => Fatal(Malformed)
      case Some(os) => if os.snaps == {} then Fatal(EmptySnapSet) else Ok(os)
  }

  /** _remove_oid: its result, and the writes it enqueues after `p`. */
  function RemoveOidEffect(db: Store, ks: KeyScheme, owned: bool, o: ObjectId, p: Pending): (e: (Outcome<()>, Pending))
    ensures e.0 != Ok(()) ==> e.1 == p
    ensures e.0.Ok? <==> Lookup(db, ks, owned, o).Ok?
  {
    match Lookup(db, ks, owned, o)
    case Ok(os) => (Ok(()), p.Remove({ks.obj(o)}).Remove(RawKeys(ks, o, os.snaps)))
    case NotFound => (NotFound, p)
    case Fatal(f) => (Fatal(f), p)
  }

  /** update_snaps: its result, and the writes it enqueues after `p`. */
  function UpdateSnapsEffect(db: Store, ks: KeyScheme, owned: bool, o: ObjectId, newSnaps: set<SnapId>,
                             check: Option<set<SnapId>>, p: Pending): (e: (Outcome<()>, Pending))
    ensures e.0 != Ok(()) ==> e.1 == p
    ensures !owned ==> e.0 == Fatal(NotOwned)
  {
    if !owned then (Fatal(NotOwned), p)
    else if newSnaps == {} then RemoveOidEffect(db, ks, owned, o, p)
    else match Lookup(db, ks, owned, o)
      case Ok(os) =>
        if check.Some? && os.snaps != check.value then (Fatal(SnapsMismatch), p)
        else (Ok(()), p.Set(ForwardEntry(ks, o, newSnaps)).Remove(RawKeys(ks, o, os.snaps - newSnaps)))
      case NotFound => (NotFound, p)
      case Fatal(f) => (Fatal(f), p)
  }

  /** add_oid: its result, and the writes it enqueues after `p`. */
  ghost function AddOidEffect(db: Store, ks: KeyScheme, owned: bool, o: ObjectId, snaps: set<SnapId>, p: Pending): (e: (Outcome<()>, Pending))
    ensures e.0 != Ok(()) ==> e.1 == p
    ensures e.0.Ok? <==> owned && ks.obj(o) !in db
  {
    match Lookup(db, ks, owned, o)
    case NotFound => (Ok(()), p.Set(ForwardEntry(ks, o, snaps)).Set(ReverseEntries(ks, o, snaps)))
    case Ok(_) => (Fatal(AlreadyIndexed), p)
    case Fatal(f) => (Fatal(f), p)
  }

  // ---------------------------------------------------------------------
  // The operations against the index invariant

  /** On a consistent store get_snaps never aborts for an owned object: it
      finds nothing, or exactly the snap ids the forward index records. */
  lemma LookupConsistent(db: Store, ks: KeyScheme, o: ObjectId)
    requires Consistent(db, ks)
    ensures Lookup(db, ks, true, o)
         == if ks.obj(o) in db then Ok(ObjectSnaps(o, ForwardSnaps(db, ks, o))) else NotFound
  {
    if ks.obj(o) in db {
      assert db[ks.obj(o)] == EncodeObjectSnaps(ObjectSnaps(o, ForwardSnaps(db, ks, o)));
    }
  }

  /** add_oid on a consistent store, from an empty transaction: it aborts
      exactly when the object is already indexed; otherwise the commit is
      consistent, get_snaps then returns `snaps`, the reverse index holds
      exactly the pairs (s, o), and no other object changes. */
  lemma AddOidCommitted(db: Store, ks: KeyScheme, o: ObjectId, snaps: set<SnapId>)
    requires Sound(ks) && Consistent(db, ks)
    requires snaps != {} && Fits32(snaps)
    ensures var e := AddOidEffect(db, ks, true, o, snaps, NoWrites);
            var db' := e.1.Apply(db);
            && e.0 == (if ks.obj(o) in db then Fatal(AlreadyIndexed) else Ok(()))
            && (e.0.Ok? ==>
                  && Consistent(db', ks)
                  && Lookup(db', ks, true, o) == Ok(ObjectSnaps(o, snaps))
                  && (forall s: SnapId :: Mapped(db', ks, s, o) <==> s in snaps)
                  && OthersUnchanged(db, db', ks, o))
  {
    LookupConsistent(db, ks, o);
    if ks.obj(o) !in db {
      var db' := AddOidWrites(ks, o, snaps).Apply(db);
      AddOidKeepsConsistent(db, ks, o, snaps);
      LookupConsistent(db', ks, o);
    }
  }

  /** update_snaps on a consistent store, from an empty transaction: its
      result in every case. */
  lemma UpdateSnapsOutcome(db: Store, ks: KeyScheme, o: ObjectId, newSnaps: set<SnapId>, check: Option<set<SnapId>>)
    requires Consistent(db, ks)
    ensures UpdateSnapsEffect(db, ks, true, o, newSnaps, check, NoWrites).0
         == if ks.obj(o) !in db then NotFound
            else if newSnaps != {} && check.Some? && check.value != ForwardSnaps(db, ks, o) then Fatal(SnapsMismatch)
            else Ok(())
  {
    LookupConsistent(db, ks, o);
  }

  /** update_snaps to a non-empty subset of the stored snap ids, committed:
      the store stays consistent, get_snaps then returns the new set, the
      reverse index holds exactly the new pairs, and no other object
      changes. */
  lemma UpdateSnapsCommitted(db: Store, ks: KeyScheme, o: ObjectId, newSnaps: set<SnapId>, check: Option<set<SnapId>>)
    requires Sound(ks) && Consistent(db, ks) && ks.obj(o) in db
    requires newSnaps != {} && newSnaps <= ForwardSnaps(db, ks, o)
    requires check.None? || check.value == ForwardSnaps(db, ks, o)
    ensures var e := UpdateSnapsEffect(db, ks, true, o, newSnaps, check, NoWrites);
            var db' := e.1.Apply(db);
            && e.0 == Ok(())
            && Consistent(db', ks)
            && Lookup(db', ks, true, o) == Ok(ObjectSnaps(o, newSnaps))
            && (forall s: SnapId :: Mapped(db', ks, s, o) <==> s in newSnaps)
            && OthersUnchanged(db, db', ks, o)
  {
    LookupConsistent(db, ks, o);
    var db' := UpdateSnapsWrites(ks, o, ForwardSnaps(db, ks, o), newSnaps).Apply(db);
    UpdateSnapsKeepsConsistent(db, ks, o, newSnaps);
    LookupConsistent(db', ks, o);
  }

  /** remove_oid on a consistent store, from an empty transaction: -ENOENT
      for an object that is not indexed (and nothing enqueued); otherwise
      the commit is consistent, get_snaps then finds nothing, no reverse
      key of the object is left, and no other object changes. */
  lemma RemoveOidCommitted(db: Store, ks: KeyScheme, o: ObjectId)
    requires Sound(ks) && Consistent(db, ks)
    ensures var e := RemoveOidEffect(db, ks, true, o, NoWrites);
            var db' := e.1.Apply(db);
            && e.0 == (if ks.obj(o) in db then Ok(()) else NotFound)
            && (e.0.NotFound? ==> db' == db)
            && (e.0.Ok? ==>
                  && Consistent(db', ks)
                  && Lookup(db', ks, true, o) == NotFound
                  && (forall s: SnapId :: ks.raw(s, o) !in db')
                  && OthersUnchanged(db, db', ks, o))
  {
    LookupConsistent(db, ks, o);
    ApplyNothing(db);
    if ks.obj(o) in db {
      RemoveOidKeepsConsistent(db, ks, o);
    }
  }

  /** add_oid does not check that `snaps` is non-empty: with the empty set
      it succeeds and writes a forward entry with no snap ids, and every
      later get_snaps of the object aborts on it. */
  lemma AddOidEmptyPoisonsLookup(db: Store, ks: KeyScheme, o: ObjectId)
    requires ks.obj(o) !in db
    ensures var e := AddOidEffect(db, ks, true, o, {}, NoWrites);
            && e.0 == Ok(())
            && Lookup(e.1.Apply(db), ks, true, o) == Fatal(EmptySnapSet)
  {
    AddOidApplied(db, ks, o, {});
    ReverseEntriesKeys(ks, o, {});
    assert RawKeys(ks, o, {}) == {};
    var db' := db + ForwardEntry(ks, o, {}) + ReverseEntries(ks, o, {});
    assert db'[ks.obj(o)] == EncodeObjectSnaps(ObjectSnaps(o, {}));
  }

  /** On a consistent store whose keys under the scan starts are all reverse
      keys of the shard, the trim scan returns no object twice: two visited
      keys holding the same mapping would be the same key, and the scan
      visits keys in strictly increasing order. */
  lemma TrimObjectsDistinct(db: Store, ks: KeyScheme, snap: SnapId, prefixes: seq<string>, max: nat,
                            maskBits: nat, matchValue: Hash)
    requires Sound(ks) && Consistent(db, ks)
    requires Ascending(prefixes) && PrefixFree(prefixes)
    requires forall k :: k in db && UnderSomeStart(Starts(snap, prefixes), k) ==> exists s: SnapId, o :: k == ks.raw(s, o)
    ensures var r := Trim(db, snap, prefixes, max, maskBits, matchValue);
            r.Ok? ==> forall i, j :: 0 <= i < j < |r.value| ==> r.value[i] != r.value[j]
  {
    var starts := Starts(snap, prefixes);
    var es := ScanAll(db, starts, max);
    TrimVisitsInOrder(db, snap, prefixes, max);
    ScanAllSound(db, starts, max);
    CheckAllMeaning(es, snap, maskBits, matchValue);
    var r := Trim(db, snap, prefixes, max, maskBits, matchValue);
    if r.Ok? {
      forall i, j | 0 <= i < j < |r.value|
        ensures r.value[i] != r.value[j]
      {
        assert es[i] in es && es[j] in es;
        if r.value[i] == r.value[j] {
          SameMappingSameKey(db, ks, es[i].0, es[j].0, snap, r.value[i]);
          LessIrreflexive(es[i].0);
        }
      }
    }
  }

  // ---------------------------------------------------------------------
  // The mapper

  /** What one get_next call of the trim scan finds: the end of the scan
      under the current prefix (at the end of the store or not), or a visited
      entry with its decoding. */
  datatype TrimStep =
    | Stop(storeEnd: bool)
    | Visit(entry: Entry, decoded: Outcome<ObjectId>)

  class SnapMapper {
    /** The store adapter (OSDriver) reads go through. */
    const backend: Backend
    /** Prepended to every object's string in both indexes. */
    const shardPrefix: string
    /** to_raw_key and to_object_key of this shard. */
    const keys: KeyScheme
    /** The hash prefixes of the objects this shard owns, in std::set order. */
    const prefixes: seq<string>
    const maskBits: nat
    const matchValue: Hash

    /** The keys are those of the shard prefix; the owned prefixes are in
        std::set order, and none extends another. */
    ghost predicate Valid() {
      keys == Keys(shardPrefix) && Ascending(prefixes) && PrefixFree(prefixes)
    }

    constructor (backend: Backend, shardPrefix: string, prefixes: seq<string>, maskBits: nat, matchValue: Hash)
      requires Ascending(prefixes) && PrefixFree(prefixes)
      ensures Valid()
      ensures this.backend == backend && this.shardPrefix == shardPrefix && this.prefixes == prefixes
      ensures this.maskBits == maskBits && this.matchValue == matchValue
    {
      this.backend := backend;
      this.shardPrefix := shardPrefix;
      this.keys := Keys(shardPrefix);
      this.prefixes := prefixes;
      this.maskBits := maskBits;
      this.matchValue := matchValue;
    }

    /** A valid mapper's key scheme is sound, so the index lemmas apply to it. */
    lemma KeysAreSound()
      requires Valid()
      ensures Sound(keys)
    {
      KeysSound(shardPrefix);
    }

    /** check(oid): the object hashes into this shard. */
    predicate Check(o: ObjectId) {
      Owns(maskBits, matchValue, o)
    }

    /** get_snaps(oid, object_snaps*). */
    method GetSnaps(oid: ObjectId) returns (r: Outcome<ObjectSnaps>)
      ensures r == Lookup(backend.contents, keys, Check(oid), oid)
    {
      if !Check(oid) {
        return Fatal(NotOwned);
      }
      var key := keys.obj(oid);
      var got := backend.GetKeys({key});
      if got == map[] {
        return NotFound;
      }
      assert key in got;
      var decoded := DecodeObjectSnaps(got[key]);
      if decoded.None? {
        return Fatal(Malformed);
      }
      if decoded.value.snaps == {} {
        return Fatal(EmptySnapSet);
      }
      return Ok(decoded.value);
    }

    /** get_snaps(oid, set<snapid_t>*): the snap ids alone. */
    method GetSnapSet(oid: ObjectId) returns (r: Outcome<set<SnapId>>)
      ensures match Lookup(backend.contents, keys, Check(oid), oid)
              case Ok(os) => r == Ok(os.snaps)
              case NotFound => r == NotFound
              case Fatal(f) => r == Fatal(f)
    {
      if !Check(oid) {
        return Fatal(NotOwned);
      }
      var out := GetSnaps(oid);
      match out
      case Ok(os) => r := Ok(os.snaps);
      case NotFound => r := NotFound;
      case Fatal(f) => r := Fatal(f);
    }

    /** set_snaps: enqueue the forward entry. */
    method SetSnaps(oid: ObjectId, input: ObjectSnaps, t: Transaction) returns (r: Outcome<()>)
      modifies t
      ensures r == if Check(oid) then Ok(()) else Fatal(NotOwned)
      ensures t.pending == if Check(oid) then old(t.pending).Set(map[keys.obj(oid) := EncodeObjectSnaps(input)])
                           else old(t.pending)
    {
      if !Check(oid) {
        return Fatal(NotOwned);
      }
      var toSet := map[keys.obj(oid) := EncodeObjectSnaps(input)];
      t.SetKeys(toSet);
      return Ok(());
    }

    /** clear_snaps: enqueue the removal of the forward entry. */
    method ClearSnaps(oid: ObjectId, t: Transaction) returns (r: Outcome<()>)
      modifies t
      ensures r == if Check(oid) then Ok(()) else Fatal(NotOwned)
      ensures t.pending == if Check(oid) then old(t.pending).Remove({keys.obj(oid)}) else old(t.pending)
    {
      if !Check(oid) {
        return Fatal(NotOwned);
      }
      t.RemoveKeys({keys.obj(oid)});
      return Ok(());
    }

    /** update_snaps: replace the snap set of an indexed object, removing
        the reverse keys of the snap ids it loses. */
    method UpdateSnaps(oid: ObjectId, newSnaps: set<SnapId>, oldSnapsCheck: Option<set<SnapId>>, t: Transaction)
      returns (r: Outcome<()>)
      modifies t
      ensures (r, t.pending)
           == UpdateSnapsEffect(backend.contents, keys, Check(oid), oid, newSnaps, oldSnapsCheck, old(t.pending))
    {
      if !Check(oid) {
        return Fatal(NotOwned);
      }
      if newSnaps == {} {
        r := RemoveOid(oid, t);
        return;
      }
      var out := GetSnaps(oid);
      if out.NotFound? {
        return NotFound;
      } else if out.Fatal? {
        return Fatal(out.fault);
      }
      var stored := out.value.snaps;
      if oldSnapsCheck.Some? && stored != oldSnapsCheck.value {
        return Fatal(SnapsMismatch);
      }
      var _ := SetSnaps(oid, ObjectSnaps(oid, newSnaps), t);
      var toRemove := RawKeysExcept(oid, stored, newSnaps);
      t.RemoveKeys(toRemove);
      return Ok(());
    }

    /** The reverse keys of `oid` for the snap ids of `snaps` that are not
        in `keep` (the key-collecting loops of update_snaps and _remove_oid). */
    method RawKeysExcept(oid: ObjectId, snaps: set<SnapId>, keep: set<SnapId>) returns (result: set<string>)
      ensures result == RawKeys(keys, oid, snaps - keep)
    {
      var ks := keys;
      result := {};
      var rest := snaps;
      ghost var done: set<SnapId> := {};
      while rest != {}
        invariant done + rest == snaps && done !! rest
        invariant result == RawKeys(ks, oid, done - keep)
        decreases rest
      {
        var s :| s in rest;
        if s !in keep {
          result := result + {keys.raw(s, oid)};
          ImageAdd(KeyOf(ks, oid), done - keep, s);
          assert (done + {s}) - keep == (done - keep) + {s};
        } else {
          assert (done + {s}) - keep == done - keep;
        }
        done := done + {s};
        rest := rest - {s};
      }
    }

    /** add_oid: index an object that is not indexed yet, under each of its
        snap ids. */
    method AddOid(oid: ObjectId, snaps: set<SnapId>, t: Transaction) returns (r: Outcome<()>)
      modifies t
      ensures (r, t.pending) == AddOidEffect(backend.contents, keys, Check(oid), oid, snaps, old(t.pending))
    {
      if !Check(oid) {
        return Fatal(NotOwned);
      }
      var out := GetSnaps(oid);
      if out.Ok? {
        return Fatal(AlreadyIndexed);
      } else if out.Fatal? {
        return Fatal(out.fault);
      }
      var _ := SetSnaps(oid, ObjectSnaps(oid, snaps), t);
      var toAdd := ReverseEntriesOf(oid, snaps);
      t.SetKeys(toAdd);
      return Ok(());
    }

    /** add_oid's loop: offer to_raw of each snap id, in ascending order (std::set
        iteration), to std::map::insert, which keeps the first value offered
        for a key. */
    method ReverseEntriesOf(oid: ObjectId, snaps: set<SnapId>) returns (toAdd: map<string, Value>)
      ensures toAdd == ReverseEntries(keys, oid, snaps)
    {
      var ks := keys;
      toAdd := map[];
      var rest := snaps;
      ghost var done: set<SnapId> := {};
      ghost var last: int := -1;
      while rest != {}
        invariant done + rest == snaps
        invariant forall a :: a in done ==> a <= last
        invariant forall b :: b in rest ==> last < b
        invariant toAdd == ReverseEntries(ks, oid, done)
        decreases rest
      {
        ghost var least := MinOf(rest);
        var s :| s in rest && forall x :: x in rest ==> s <= x;
        var entry := (KeyOf(ks, oid)(s), MappingOf(oid)(s));
        InsertAscendingNext(KeyOf(ks, oid), MappingOf(oid), done, s);
        if entry.0 !in toAdd {
          toAdd := toAdd[entry.0 := entry.1];
        }
        done, last := done + {s}, s;
        rest := rest - {s};
      }
    }

    /** get_next_objects_to_trim: scan the owned prefixes in turn until
        `max` objects are collected or the store ends; -ENOENT when none is
        found. */
    method GetNextObjectsToTrim(snap: SnapId, max: nat) returns (r: Outcome<seq<ObjectId>>)
      ensures r == Trim(backend.contents, snap, prefixes, max, maskBits, matchValue)
    {
      ghost var db := backend.contents;
      ghost var starts := Starts(snap, prefixes);
      ghost var target := TrimRest(db, starts, 0, max, [], snap, maskBits, matchValue);
      var out: seq<ObjectId> := [];
      var storeEnd := false;  // get_next returned -ENOENT (r != 0)
      var i := 0;
      while i < |prefixes| && |out| < max && !storeEnd
        invariant i <= |prefixes| && |out| <= max
        invariant backend.contents == db
        invariant target == if storeEnd then Ok(out) else TrimRest(db, starts, i, max, out, snap, maskBits, matchValue)
        decreases |prefixes| - i
      {
        var prefix := GetPrefix(snap) + prefixes[i];
        assert prefix == starts[i];
        var found, end := TrimPrefix(snap, prefix, max, out, db);
        if found.Fatal? {
          TrimFrom(db, snap, prefixes, max, maskBits, matchValue);
          return found;
        }
        out, storeEnd := found.value, end;
        i := i + 1;
      }
      TrimFrom(db, snap, prefixes, max, maskBits, matchValue);
      if |out| == 0 {
        return NotFound;
      }
      return Ok(out);
    }

    /** The inner loop of get_next_objects_to_trim for one scan start
        (get_prefix(snap) followed by an owned prefix): follow get_next from
        it while the keys carry it, decoding each mapping after the objects
        `out0` already found, until `max` objects are collected or the store
        ends (`storeEnd`). */
    method TrimPrefix(snap: SnapId, prefix: string, max: nat, out0: seq<ObjectId>, ghost db: Store)
      returns (r: Outcome<seq<ObjectId>>, storeEnd: bool)
      requires |out0| < max && db == backend.contents
      ensures var full := ScanPrefix(db, prefix, prefix, max - |out0|);
              && r == CheckFrom(out0, full.0, snap, maskBits, matchValue)
              && (r.Ok? ==> storeEnd == full.1)
    {
      var pos := prefix;
      ghost var full := ScanPrefix(db, prefix, prefix, max - |out0|);
      ghost var target := CheckFrom(out0, full.0, snap, maskBits, matchValue);
      var out := out0;
      ghost var now := full;  // what the scan visits from `pos` on
      var budget: nat := max - |out0|;  // objects still wanted
      storeEnd := false;
      while |out| < max
        invariant |out| <= max && budget == max - |out|
        invariant backend.contents == db
        invariant now == ScanPrefix(db, prefix, pos, budget)
        invariant target == CheckFrom(out, now.0, snap, maskBits, matchValue) && full.1 == now.1
        decreases max - |out|
      {
        var step := NextInPrefix(snap, prefix, pos, budget, db);
        if step.Stop? {
          storeEnd := step.storeEnd;
          break;
        }
        ghost var rest := ScanPrefix(db, prefix, step.entry.0, budget - 1);
        CheckFromStep(out, step.entry, rest.0, snap, maskBits, matchValue);
        if step.decoded.Fatal? {
          return Fatal(step.decoded.fault), false;
        }
        out := out + [step.decoded.value];
        pos := step.entry.0;
        now, budget := rest, budget - 1;
      }
      return Ok(out), storeEnd;
    }

    /** One get_next call of the inner loop: the scan under `prefix` stops
        here, or visits the next entry, decoded as from_raw and the asserts
        after it decode it. */
    method NextInPrefix(snap: SnapId, prefix: string, pos: string, budget: nat, ghost db: Store) returns (step: TrimStep)
      requires budget > 0 && db == backend.contents
      ensures var now := ScanPrefix(db, prefix, pos, budget);
        match step
        case Stop(end) => now == ([], end)
        case Visit(e, d) =>
          && d == Decoded(e, snap, maskBits, matchValue)
          && var rest := ScanPrefix(db, prefix, e.0, budget - 1);
             now == ([e] + rest.0, rest.1)
    {
      var next := backend.GetNext(pos);
      ScanPrefixStep(db, prefix, pos, budget);
      if next.None? {
        return Stop(true);
      }
      if !IsPrefix(prefix, next.value.0) {
        return Stop(false);
      }
      var decoded := DecodeEntry(next.value, snap);
      return Visit(next.value, decoded);
    }

    /** from_raw on a visited entry, then the asserts that it maps `snap`
        and that this shard owns its object. */
    method DecodeEntry(e: Entry, snap: SnapId) returns (r: Outcome<ObjectId>)
      ensures r == Decoded(e, snap, maskBits, matchValue)
    {
      var decoded := FromRaw(e);
      if decoded.None? {
        return Fatal(Malformed);
      }
      if decoded.value.0 != snap {
        return Fatal(WrongSnap);
      }
      if !Check(decoded.value.1) {
        return Fatal(NotOwned);
      }
      return Ok(decoded.value.1);
    }

    /** remove_oid: check ownership, then _remove_oid. */
    method RemoveOid(oid: ObjectId, t: Transaction) returns (r: Outcome<()>)
      modifies t
      ensures (r, t.pending) == RemoveOidEffect(backend.contents, keys, Check(oid), oid, old(t.pending))
    {
      if !Check(oid) {
        return Fatal(NotOwned);
      }
      r := DoRemoveOid(oid, t);
    }

    /** _remove_oid: remove the forward entry and the reverse key of every
        stored snap id. */
    method DoRemoveOid(oid: ObjectId, t: Transaction) returns (r: Outcome<()>)
      modifies t
      ensures (r, t.pending) == RemoveOidEffect(backend.contents, keys, Check(oid), oid, old(t.pending))
    {
      var out := GetSnaps(oid);
      if out.NotFound? {
        return NotFound;
      } else if out.Fatal? {
        return Fatal(out.fault);
      }
      var stored := out.value.snaps;
      var _ := ClearSnaps(oid, t);
      var toRemove := RawKeysExcept(oid, stored, {});
      assert stored - {} == stored;
      t.RemoveKeys(toRemove);
      return Ok(());
    }
  }
}
