/** The two indexes the mapper keeps in the store, the invariant that ties
    them together, and what add_oid, update_snaps and _remove_oid do to the
    store once their transaction is committed.

      forward index:  ks.obj(o)     -> the encoded ObjectSnaps(o, snaps)
      reverse index:  ks.raw(s, o)  -> the encoded Mapping(s, o), for each s in snaps

    Everything here holds for any key scheme that is Sound; the scheme of a
    shard prefix is (Codec.KeysSound).
*/
module Index {
  import opened Codec
  import opened Store
  import opened Sets

  /** Every snap id in `snaps` fits in the 32 bits get_prefix keeps. */
  predicate Fits32(snaps: set<SnapId>) {
    forall s :: s in snaps ==> s < UNSIGNED_BOUND
  }

  /** The snapshot set the forward index records for `o` ({} when there is no
      decodable entry). */
  function ForwardSnaps(db: Store, ks: KeyScheme, o: ObjectId): set<SnapId> {
    var k := ks.obj(o);
    if k in db && db[k].ObjectSnapsBytes? then db[k].objectSnaps.snaps else {}
  }

  /** The reverse index holds the pair (s, o): its key, carrying its mapping. */
  predicate Mapped(db: Store, ks: KeyScheme, s: SnapId, o: ObjectId) {
    var k := ks.raw(s, o);
    k in db && db[k] == EncodeMapping(Mapping(s, o))
  }

  /** Every forward entry is the encoding of its own object with a non-empty
      set of snap ids that fit in 32 bits. */
  ghost predicate ForwardWellFormed(db: Store, ks: KeyScheme) {
    forall o :: ks.obj(o) in db ==>
      && db[ks.obj(o)] == EncodeObjectSnaps(ObjectSnaps(o, ForwardSnaps(db, ks, o)))
      && ForwardSnaps(db, ks, o) != {}
      && Fits32(ForwardSnaps(db, ks, o))
  }

  /** Every reverse key carries the mapping of the pair it names. */
  ghost predicate ReverseWellFormed(db: Store, ks: KeyScheme) {
    forall s: SnapId, o :: ks.raw(s, o) in db ==> Mapped(db, ks, s % UNSIGNED_BOUND, o)
  }

  /** The two indexes describe the same relation between objects and snap ids. */
  ghost predicate Dual(db: Store, ks: KeyScheme) {
    forall o, s: SnapId :: s in ForwardSnaps(db, ks, o) <==> Mapped(db, ks, s, o)
  }

  ghost predicate Consistent(db: Store, ks: KeyScheme) {
    ForwardWellFormed(db, ks) && ReverseWellFormed(db, ks) && Dual(db, ks)
  }

  // ---------------------------------------------------------------------
  // The keys and entries the operations enqueue

  /** set_snaps' single entry. */
  function ForwardEntry(ks: KeyScheme, o: ObjectId, snaps: set<SnapId>): map<string, Value> {
    map[ks.obj(o) := EncodeObjectSnaps(ObjectSnaps(o, snaps))]
  }

  /** The reverse key of `o` for each snap id. */
  function KeyOf(ks: KeyScheme, o: ObjectId): SnapId -> string {
    (s: SnapId) => ks.raw(s, o)
  }

  /** The encoded mapping of `o` for each snap id. */
  function MappingOf(o: ObjectId): SnapId -> Value {
    (s: SnapId) => EncodeMapping(Mapping(s, o))
  }

  /** The reverse keys of `o` for the snap ids in `snaps`. */
  function RawKeys(ks: KeyScheme, o: ObjectId, snaps: set<SnapId>): set<string> {
    Image(KeyOf(ks, o), snaps)
  }

  /** The entries add_oid enqueues for the reverse index: it offers the snap
      ids in ascending order (std::set iteration) to std::map::insert, which
      keeps the first value offered for a key. */
  ghost function ReverseEntries(ks: KeyScheme, o: ObjectId, snaps: set<SnapId>): map<string, Value> {
    InsertAscending(KeyOf(ks, o), MappingOf(o), snaps)
  }

  /** add_oid enqueues one reverse key for every snap id, and nothing else. */
  lemma ReverseEntriesKeys(ks: KeyScheme, o: ObjectId, snaps: set<SnapId>)
    ensures ReverseEntries(ks, o, snaps).Keys == RawKeys(ks, o, snaps)
  {
    InsertAscendingKeys(KeyOf(ks, o), MappingOf(o), snaps);
  }

  /** When the snap ids fit in 32 bits, each gets its own reverse key
      carrying its own mapping. */
  lemma ReverseEntriesFit32(ks: KeyScheme, o: ObjectId, snaps: set<SnapId>)
    requires Sound(ks) && Fits32(snaps)
    ensures ReverseEntries(ks, o, snaps).Keys == RawKeys(ks, o, snaps)
    ensures forall s :: s in snaps ==> ReverseEntries(ks, o, snaps)[ks.raw(s, o)] == EncodeMapping(Mapping(s, o))
  {
    ReverseEntriesKeys(ks, o, snaps);
    forall a, b | a in snaps && b in snaps && KeyOf(ks, o)(a) == KeyOf(ks, o)(b)
      ensures a == b
    {
      Below32(a);
      Below32(b);
    }
    forall s | s in snaps
      ensures ReverseEntries(ks, o, snaps)[ks.raw(s, o)] == EncodeMapping(Mapping(s, o))
    {
      InsertAscendingInjective(KeyOf(ks, o), MappingOf(o), snaps, s);
    }
  }

  /** Whatever the snap ids, the key of each carries the mapping of the
      smallest snap id in the set with the same low 32 bits: beyond 32 bits a
      snap id whose key a smaller one already took gets no entry of its own. */
  lemma ReverseEntriesCollide(ks: KeyScheme, o: ObjectId, snaps: set<SnapId>, s: SnapId)
    requires Sound(ks) && s in snaps
    ensures var k := ks.raw(s, o);
            && k in ReverseEntries(ks, o, snaps)
            && exists w :: && w in snaps && w <= s && w % UNSIGNED_BOUND == s % UNSIGNED_BOUND
                          && ReverseEntries(ks, o, snaps)[k] == EncodeMapping(Mapping(w, o))
                          && forall t :: t in snaps && t < w ==> t % UNSIGNED_BOUND != s % UNSIGNED_BOUND
  {
    var k := ks.raw(s, o);
    ReverseEntriesKeys(ks, o, snaps);
    assert k in RawKeys(ks, o, snaps);
    InsertAscendingFirstWins(KeyOf(ks, o), MappingOf(o), snaps, k);
    var w :| && w in snaps && KeyOf(ks, o)(w) == k && ReverseEntries(ks, o, snaps)[k] == MappingOf(o)(w)
             && forall t :: t in snaps && t < w ==> KeyOf(ks, o)(t) != k;
    forall t | t in snaps && t < w
      ensures t % UNSIGNED_BOUND != s % UNSIGNED_BOUND
    {
      assert KeyOf(ks, o)(t) != k;
    }
  }

  // ---------------------------------------------------------------------
  // Arithmetic of the 32-bit cast

  lemma Below32(n: nat)
    requires n < UNSIGNED_BOUND
    ensures n % UNSIGNED_BOUND == n
  {
  }

  /** A snap id and its low 32 bits share their reverse key. */
  lemma Truncation(ks: KeyScheme, s: SnapId, o: ObjectId)
    requires Sound(ks)
    ensures ks.raw(s % UNSIGNED_BOUND, o) == ks.raw(s, o)
  {
    Below32(s % UNSIGNED_BOUND);
  }

  /** The invariant is one of 32-bit snap ids: a store holding the single
      pair (2^32 + 5, o) in both indexes is not consistent, although its
      forward entry and its reverse entry describe the same pair. */
  lemma ConsistentNeeds32Bits(ks: KeyScheme, o: ObjectId)
    requires Sound(ks)
    ensures var s := UNSIGNED_BOUND + 5;
            var db := map[ks.obj(o) := EncodeObjectSnaps(ObjectSnaps(o, {s})), ks.raw(s, o) := EncodeMapping(Mapping(s, o))];
            && ForwardSnaps(db, ks, o) == {s}
            && Mapped(db, ks, s, o)
            && !Consistent(db, ks)
  {
    var s := UNSIGNED_BOUND + 5;
    var db := map[ks.obj(o) := EncodeObjectSnaps(ObjectSnaps(o, {s})), ks.raw(s, o) := EncodeMapping(Mapping(s, o))];
    assert ks.raw(s, o) != ks.obj(o);
    assert ForwardSnaps(db, ks, o) == {s};
    assert !Fits32(ForwardSnaps(db, ks, o));
  }

  // ---------------------------------------------------------------------
  // What the writes do to other objects

  /** `db'` agrees with `db` outside the keys in `touched`. */
  ghost predicate SameOutside(db: Store, db': Store, touched: set<string>) {
    forall k :: k !in touched ==> (k in db' <==> k in db) && (k in db ==> db'[k] == db[k])
  }

  /** The index entries of every object other than `o` are as they were. */
  ghost predicate OthersUnchanged(db: Store, db': Store, ks: KeyScheme, o: ObjectId) {
    forall o' :: o' != o ==>
      && ForwardSnaps(db', ks, o') == ForwardSnaps(db, ks, o')
      && (ks.obj(o') in db' <==> ks.obj(o') in db)
      && forall s: SnapId :: Mapped(db', ks, s, o') <==> Mapped(db, ks, s, o')
  }

  /** A write confined to the keys of `o` leaves every other object's keys alone. */
  lemma WritesOfOneObject(db: Store, db': Store, ks: KeyScheme, o: ObjectId, snaps: set<SnapId>)
    requires Sound(ks)
    requires SameOutside(db, db', {ks.obj(o)} + RawKeys(ks, o, snaps))
    ensures OthersKept(db, db', ks, o)
  {
    var touched := {ks.obj(o)} + RawKeys(ks, o, snaps);
    forall s: SnapId, o' | o' != o
      ensures ks.raw(s, o') !in touched
    {
    }
    forall o' | o' != o
      ensures ks.obj(o') !in touched
    {
    }
  }

  // ---------------------------------------------------------------------
  // What a consistent store says about one object

  /** An object with no forward entry has no reverse key either. */
  lemma UnindexedHasNoReverseKeys(db: Store, ks: KeyScheme, o: ObjectId, s: SnapId)
    requires Consistent(db, ks) && ks.obj(o) !in db
    ensures ks.raw(s, o) !in db
  {
  }

  /** Every reverse key of an object is the key of a snap id in its forward entry. */
  lemma ReverseKeyIsRecorded(db: Store, ks: KeyScheme, o: ObjectId, s: SnapId)
    requires Sound(ks) && Consistent(db, ks) && ks.raw(s, o) in db
    ensures s % UNSIGNED_BOUND in ForwardSnaps(db, ks, o)
    ensures ks.raw(s, o) in RawKeys(ks, o, ForwardSnaps(db, ks, o))
  {
    assert Mapped(db, ks, s % UNSIGNED_BOUND, o);
    Truncation(ks, s, o);
    assert KeyOf(ks, o)(s % UNSIGNED_BOUND) == ks.raw(s, o);
  }

  /** In a well-formed reverse index, two reverse keys that hold the same
      mapping are the same key. */
  lemma SameMappingSameKey(db: Store, ks: KeyScheme, k1: string, k2: string, snap: SnapId, o: ObjectId)
    requires Sound(ks) && ReverseWellFormed(db, ks)
    requires (exists s: SnapId, o' :: k1 == ks.raw(s, o')) && (exists s: SnapId, o' :: k2 == ks.raw(s, o'))
    requires k1 in db && db[k1] == EncodeMapping(Mapping(snap, o))
    requires k2 in db && db[k2] == EncodeMapping(Mapping(snap, o))
    ensures k1 == k2
  {
    var s1: SnapId, o1 :| k1 == ks.raw(s1, o1);
    var s2: SnapId, o2 :| k2 == ks.raw(s2, o2);
    assert Mapped(db, ks, s1 % UNSIGNED_BOUND, o1);
    assert Mapped(db, ks, s2 % UNSIGNED_BOUND, o2);
    Truncation(ks, s1, o1);
    Truncation(ks, s2, o2);
    assert Mapping(s1 % UNSIGNED_BOUND, o1) == Mapping(snap, o);
    assert Mapping(s2 % UNSIGNED_BOUND, o2) == Mapping(snap, o);
  }

  // ---------------------------------------------------------------------
  // The writes of add_oid, update_snaps and _remove_oid, committed

  /** add_oid's writes into an empty transaction: the forward entry, then the reverse entries. */
  ghost function AddOidWrites(ks: KeyScheme, o: ObjectId, snaps: set<SnapId>): Pending {
    NoWrites.Set(ForwardEntry(ks, o, snaps)).Set(ReverseEntries(ks, o, snaps))
  }

  /** update_snaps' writes: the new forward entry, then removal of the
      reverse keys of the snap ids that are dropped. */
  function UpdateSnapsWrites(ks: KeyScheme, o: ObjectId, stored: set<SnapId>, newSnaps: set<SnapId>): Pending {
    NoWrites.Set(ForwardEntry(ks, o, newSnaps)).Remove(RawKeys(ks, o, stored - newSnaps))
  }

  /** _remove_oid's writes: removal of the forward key, then of the reverse
      keys of every stored snap id. */
  function RemoveOidWrites(ks: KeyScheme, o: ObjectId, stored: set<SnapId>): Pending {
    NoWrites.Remove({ks.obj(o)}).Remove(RawKeys(ks, o, stored))
  }

  lemma AddOidApplied(db: Store, ks: KeyScheme, o: ObjectId, snaps: set<SnapId>)
    ensures AddOidWrites(ks, o, snaps).Apply(db) == db + ForwardEntry(ks, o, snaps) + ReverseEntries(ks, o, snaps)
  {
    ApplyNothing(db);
    ApplySet(NoWrites, ForwardEntry(ks, o, snaps), db);
    ApplySet(NoWrites.Set(ForwardEntry(ks, o, snaps)), ReverseEntries(ks, o, snaps), db);
  }

  lemma UpdateSnapsApplied(db: Store, ks: KeyScheme, o: ObjectId, stored: set<SnapId>, newSnaps: set<SnapId>)
    ensures UpdateSnapsWrites(ks, o, stored, newSnaps).Apply(db)
         == (db + ForwardEntry(ks, o, newSnaps)) - RawKeys(ks, o, stored - newSnaps)
  {
    ApplyNothing(db);
    ApplySet(NoWrites, ForwardEntry(ks, o, newSnaps), db);
    ApplyRemove(NoWrites.Set(ForwardEntry(ks, o, newSnaps)), RawKeys(ks, o, stored - newSnaps), db);
  }

  lemma RemoveOidApplied(db: Store, ks: KeyScheme, o: ObjectId, stored: set<SnapId>)
    ensures RemoveOidWrites(ks, o, stored).Apply(db) == (db - {ks.obj(o)}) - RawKeys(ks, o, stored)
  {
    ApplyNothing(db);
    ApplyRemove(NoWrites, {ks.obj(o)}, db);
    ApplyRemove(NoWrites.Remove({ks.obj(o)}), RawKeys(ks, o, stored), db);
  }

  // ---------------------------------------------------------------------
  // The invariant after a write confined to one object

  /** The facts WritesOfOneObject establishes about every other object. */
  ghost predicate OthersKept(db: Store, db': Store, ks: KeyScheme, o: ObjectId) {
    && OthersUnchanged(db, db', ks, o)
    && (forall o' :: o' != o && ks.obj(o') in db ==> db'[ks.obj(o')] == db[ks.obj(o')])
    && (forall s: SnapId, o' :: o' != o ==> (ks.raw(s, o') in db' <==> ks.raw(s, o') in db))
    && (forall s: SnapId, o' :: o' != o && ks.raw(s, o') in db ==> db'[ks.raw(s, o')] == db[ks.raw(s, o')])
  }

  lemma ForwardAfter(db: Store, db': Store, ks: KeyScheme, o: ObjectId)
    requires ForwardWellFormed(db, ks) && OthersKept(db, db', ks, o)
    requires ks.obj(o) in db' ==>
      && db'[ks.obj(o)] == EncodeObjectSnaps(ObjectSnaps(o, ForwardSnaps(db', ks, o)))
      && ForwardSnaps(db', ks, o) != {}
      && Fits32(ForwardSnaps(db', ks, o))
    ensures ForwardWellFormed(db', ks)
  {
  }

  lemma ReverseAfter(db: Store, db': Store, ks: KeyScheme, o: ObjectId)
    requires ReverseWellFormed(db, ks) && OthersKept(db, db', ks, o)
    requires forall s: SnapId :: ks.raw(s, o) in db' ==> Mapped(db', ks, s % UNSIGNED_BOUND, o)
    ensures ReverseWellFormed(db', ks)
  {
    forall s: SnapId, o' | ks.raw(s, o') in db' && o' != o
      ensures Mapped(db', ks, s % UNSIGNED_BOUND, o')
    {
      assert Mapped(db, ks, s % UNSIGNED_BOUND, o');
    }
  }

  lemma DualAfter(db: Store, db': Store, ks: KeyScheme, o: ObjectId)
    requires Dual(db, ks) && OthersKept(db, db', ks, o)
    requires forall s: SnapId :: s in ForwardSnaps(db', ks, o) <==> Mapped(db', ks, s, o)
    ensures Dual(db', ks)
  {
    forall o', s: SnapId | o' != o
      ensures s in ForwardSnaps(db', ks, o') <==> Mapped(db', ks, s, o')
    {
    }
  }

  /** Inserting an object that is not indexed, with a non-empty set of snap
      ids that fit in 32 bits, keeps the store consistent; afterwards the
      forward entry holds exactly `snaps`, the reverse index holds exactly
      the pairs (s, o) for s in `snaps`, and no other object's entries
      change. */
  lemma AddOidKeepsConsistent(db: Store, ks: KeyScheme, o: ObjectId, snaps: set<SnapId>)
    requires Sound(ks) && Consistent(db, ks) && ks.obj(o) !in db
    requires snaps != {} && Fits32(snaps)
    ensures var db' := AddOidWrites(ks, o, snaps).Apply(db);
            && Consistent(db', ks)
            && ForwardSnaps(db', ks, o) == snaps
            && (forall s: SnapId :: Mapped(db', ks, s, o) <==> s in snaps)
            && OthersUnchanged(db, db', ks, o)
  {
    var fwd, rev := ForwardEntry(ks, o, snaps), ReverseEntries(ks, o, snaps);
    AddOidApplied(db, ks, o, snaps);
    var db' := db + fwd + rev;
    ReverseEntriesFit32(ks, o, snaps);
    assert ks.obj(o) !in rev;
    assert db'[ks.obj(o)] == EncodeObjectSnaps(ObjectSnaps(o, snaps));
    WritesOfOneObject(db, db', ks, o, snaps);
    forall s: SnapId
      ensures ks.raw(s, o) !in db
    {
      UnindexedHasNoReverseKeys(db, ks, o, s);
    }
    AddOidMapped(db, db', ks, o, snaps);
    forall s: SnapId | ks.raw(s, o) in db'
      ensures Mapped(db', ks, s % UNSIGNED_BOUND, o)
    {
      Truncation(ks, s, o);
      var t :| t in snaps && KeyOf(ks, o)(t) == ks.raw(s, o);
      Below32(t);
    }
    ForwardAfter(db, db', ks, o);
    ReverseAfter(db, db', ks, o);
    DualAfter(db, db', ks, o);
  }

  /** After add_oid, the reverse index of `o` holds exactly its snap ids. */
  lemma AddOidMapped(db: Store, db': Store, ks: KeyScheme, o: ObjectId, snaps: set<SnapId>)
    requires Sound(ks) && Fits32(snaps)
    requires forall s: SnapId :: ks.raw(s, o) !in db
    requires db' == db + ForwardEntry(ks, o, snaps) + ReverseEntries(ks, o, snaps)
    ensures forall s: SnapId :: Mapped(db', ks, s, o) <==> s in snaps
  {
    var rev := ReverseEntries(ks, o, snaps);
    ReverseEntriesFit32(ks, o, snaps);
    forall s: SnapId
      ensures Mapped(db', ks, s, o) <==> s in snaps
    {
      var k := ks.raw(s, o);
      if k in rev && k !in RawKeys(ks, o, {s}) {
        var t :| t in snaps && KeyOf(ks, o)(t) == k;
        assert rev[k] == EncodeMapping(Mapping(t, o));
      }
    }
  }

  /** Replacing the snap set of an indexed object by a non-empty subset of
      it keeps the store consistent; afterwards the forward entry holds
      exactly `newSnaps`, the reverse index exactly the pairs (s, o) for s in
      `newSnaps`, and no other object's entries change. */
  lemma UpdateSnapsKeepsConsistent(db: Store, ks: KeyScheme, o: ObjectId, newSnaps: set<SnapId>)
    requires Sound(ks) && Consistent(db, ks) && ks.obj(o) in db
    requires newSnaps != {} && newSnaps <= ForwardSnaps(db, ks, o)
    ensures var db' := UpdateSnapsWrites(ks, o, ForwardSnaps(db, ks, o), newSnaps).Apply(db);
            && Consistent(db', ks)
            && ForwardSnaps(db', ks, o) == newSnaps
            && (forall s: SnapId :: Mapped(db', ks, s, o) <==> s in newSnaps)
            && OthersUnchanged(db, db', ks, o)
  {
    var stored := ForwardSnaps(db, ks, o);
    var fwd, gone := ForwardEntry(ks, o, newSnaps), RawKeys(ks, o, stored - newSnaps);
    UpdateSnapsApplied(db, ks, o, stored, newSnaps);
    var db' := (db + fwd) - gone;
    assert ks.obj(o) !in gone;
    assert db'[ks.obj(o)] == EncodeObjectSnaps(ObjectSnaps(o, newSnaps));
    WritesOfOneObject(db, db', ks, o, stored);
    forall s: SnapId
      ensures Mapped(db', ks, s, o) <==> s in newSnaps
    {
      UpdateSnapsMapped(db, ks, o, newSnaps, s);
    }
    KeptReverseKeys(db, db', ks, o);
    ForwardAfter(db, db', ks, o);
    ReverseAfter(db, db', ks, o);
    DualAfter(db, db', ks, o);
  }

  /** Reverse keys of `o` that a write only keeps or removes still carry
      the mapping of their 32-bit snap id. */
  lemma KeptReverseKeys(db: Store, db': Store, ks: KeyScheme, o: ObjectId)
    requires Sound(ks) && ReverseWellFormed(db, ks)
    requires forall s: SnapId :: ks.raw(s, o) in db' ==> ks.raw(s, o) in db && db'[ks.raw(s, o)] == db[ks.raw(s, o)]
    ensures forall s: SnapId :: ks.raw(s, o) in db' ==> Mapped(db', ks, s % UNSIGNED_BOUND, o)
  {
    forall s: SnapId | ks.raw(s, o) in db'
      ensures Mapped(db', ks, s % UNSIGNED_BOUND, o)
    {
      Truncation(ks, s, o);
      assert Mapped(db, ks, s % UNSIGNED_BOUND, o);
    }
  }

  /** After update_snaps, the reverse index of `o` holds exactly the new snap ids. */
  lemma UpdateSnapsMapped(db: Store, ks: KeyScheme, o: ObjectId, newSnaps: set<SnapId>, s: SnapId)
    requires Sound(ks) && Dual(db, ks) && Fits32(ForwardSnaps(db, ks, o))
    requires newSnaps <= ForwardSnaps(db, ks, o)
    ensures var db' := (db + ForwardEntry(ks, o, newSnaps)) - RawKeys(ks, o, ForwardSnaps(db, ks, o) - newSnaps);
            Mapped(db', ks, s, o) <==> s in newSnaps
  {
    var stored := ForwardSnaps(db, ks, o);
    var gone := RawKeys(ks, o, stored - newSnaps);
    var k := ks.raw(s, o);
    if s in newSnaps {
      assert Mapped(db, ks, s, o);
      forall t | t in stored - newSnaps
        ensures KeyOf(ks, o)(t) != k
      {
        Below32(t);
        Below32(s);
      }
    } else if s in stored {
      assert KeyOf(ks, o)(s) in gone;
    }
  }

  /** update_snaps never adds reverse keys: a snap id in `newSnaps` that the
      stored set lacks ends up in the forward entry with no reverse entry,
      so the two indexes disagree after commit. */
  lemma UpdateSnapsAddingBreaksDuality(db: Store, ks: KeyScheme, o: ObjectId, newSnaps: set<SnapId>, s: SnapId)
    requires Sound(ks) && Consistent(db, ks) && ks.obj(o) in db
    requires s in newSnaps && s !in ForwardSnaps(db, ks, o)
    ensures var db' := UpdateSnapsWrites(ks, o, ForwardSnaps(db, ks, o), newSnaps).Apply(db);
            && s in ForwardSnaps(db', ks, o)
            && !Mapped(db', ks, s, o)
            && !Dual(db', ks)
  {
    var stored := ForwardSnaps(db, ks, o);
    UpdateSnapsApplied(db, ks, o, stored, newSnaps);
    var db' := (db + ForwardEntry(ks, o, newSnaps)) - RawKeys(ks, o, stored - newSnaps);
    assert ks.obj(o) !in RawKeys(ks, o, stored - newSnaps);
    assert ForwardSnaps(db', ks, o) == newSnaps;
    assert !Mapped(db, ks, s, o);
  }

  /** Removing an indexed object keeps the store consistent and leaves no
      entry that mentions it: neither its forward key nor any reverse key;
      no other object's entries change. */
  lemma RemoveOidKeepsConsistent(db: Store, ks: KeyScheme, o: ObjectId)
    requires Sound(ks) && Consistent(db, ks) && ks.obj(o) in db
    ensures var db' := RemoveOidWrites(ks, o, ForwardSnaps(db, ks, o)).Apply(db);
            && Consistent(db', ks)
            && ks.obj(o) !in db'
            && (forall s: SnapId :: ks.raw(s, o) !in db')
            && OthersUnchanged(db, db', ks, o)
  {
    var stored := ForwardSnaps(db, ks, o);
    RemoveOidApplied(db, ks, o, stored);
    var db' := (db - {ks.obj(o)}) - RawKeys(ks, o, stored);
    WritesOfOneObject(db, db', ks, o, stored);
    forall s: SnapId
      ensures ks.raw(s, o) !in db'
    {
      if ks.raw(s, o) in db {
        ReverseKeyIsRecorded(db, ks, o, s);
      }
    }
    ForwardAfter(db, db', ks, o);
    ReverseAfter(db, db', ks, o);
    DualAfter(db, db', ks, o);
  }
}
