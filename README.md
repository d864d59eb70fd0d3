# SnapMapper, modelled in Dafny

Ceph's `SnapMapper` lives in the OSD. For one placement-group shard, it
records which snapshots still reference each object's clones. It keeps two
indexes in one ordered key-value store:

- **forward index**: `OBJ_<shard prefix><object>` holds the object's
  `object_snaps`, i.e. the object and its non-empty set of snap ids;
- **reverse index**: `MAP_<16 hex digits of (unsigned)snap>_<shard prefix><object>`
  holds the `Mapping` (snap, object).

Reads go through the store adapter (`OSDriver`): a point lookup and
"the first key strictly after `pos`". Writes are enqueued in a
caller-owned transaction that the caller commits. Every entry point first
checks that the object hashes into this shard (`check(oid)`). A broken
invariant stops the daemon.

The model is split into these modules:

| file | module | what it holds |
|---|---|---|
| `lex.dfy` | `Lex` | the byte-wise string order of `std::string` and prefix facts |
| `hex.dfy` | `Hex` | fixed-width upper-case hex printing (`%.16X`) |
| `codec.dfy` | `Codec` | `get_prefix`, `to_raw_key`, `to_object_key`, `is_mapping`, `to_raw`/`from_raw`, the ownership mask; key layout and ordering lemmas |
| `store.dfy` | `Store` | the store as `map<string, Value>`; the pending writes of a transaction and what committing them does; the `Transaction` class; the `Backend` class (`get_keys`, `get_next` as an upper bound) |
| `sets.dfy` | `Sets` | images of sets, minimum/maximum, and `std::map::insert` fed in ascending order |
| `index.dfy` | `Index` | the invariant that the two indexes describe the same relation, and its preservation by each write |
| `results.dfy` | `Results` | the outcome of an operation: `Ok`, `NotFound` (`-ENOENT`) or `Fatal(fault)` where the C++ aborts |
| `scan.dfy` | `Scan` | what `get_next_objects_to_trim` returns, as functions on the committed store, and what it guarantees |
| `snap_mapper.dfy` | `Mapper` | the `SnapMapper` class: each C++ member as a method, proved equal to a function of the committed store and the transaction |

Each method of `Mapper.SnapMapper` is proved against a specification
function:

- `GetSnaps` equals `Lookup`.
- `AddOid`, `UpdateSnaps`, `RemoveOid` and `DoRemoveOid` each equal an
  `...Effect` function. That function gives the result and the new pending
  writes.
- `GetNextObjectsToTrim` equals `Scan.Trim`.

Lemmas then state what those functions guarantee on a store where the
indexes agree, both before and after commit.

Assertions and aborts become `Fatal` outcomes that name their cause:

- `NotOwned`: `check(oid)` failed.
- `Malformed`: a stored value did not decode.
- `EmptySnapSet`: the forward entry decoded to an empty snap set.
- `AlreadyIndexed`: `add_oid` found an existing forward entry.
- `SnapsMismatch`: the `old_snaps_check` comparison in `update_snaps` failed.
- `WrongSnap`: the trim scan decoded a mapping for another snap id.

Every fault is detected before anything is enqueued, so a faulting call
leaves the transaction unchanged.

Three behaviours of the code are modelled as written:

- `get_prefix` casts the snap id to a 32-bit `unsigned` before printing. Snap ids that agree in their low 32 bits therefore share reverse keys. `Codec.GetPrefixTruncates` exhibits this.
- `update_snaps` only removes reverse keys. So the two indexes stay in agreement only when the new snap set is a subset of the stored one. `Index.UpdateSnapsAddingBreaksDuality` shows what happens otherwise.
- `add_oid` does not check that the snap set is non-empty. With the empty set it succeeds and writes a forward entry with no snap ids, and every later `get_snaps` of the object aborts. `Mapper.AddOidEmptyPoisonsLookup` states this.

The trim scan calls `get_next` from the scan start itself. Because `get_next` is an upper bound, a key exactly equal to a scan start is never visited. `Scan.TrimComplete` speaks only of keys that strictly extend a start.

## Model

The pure builders and decoders are `Codec.GetPrefix` (`get_prefix`), `Codec.RawKey` (`to_raw_key`), `Codec.ObjectKey` (`to_object_key`), `Codec.IsMapping` (`is_mapping`), `Codec.ToRaw` and `Codec.FromRaw` (`to_raw`/`from_raw`) and `Codec.Owns` (`check`). They have no contract of their own; the `Codec` lemmas in the table state their properties.

| member | source | states |
|---|---|---|
| Codec.LowBitsIsMod | src/osd/SnapMapper.cc:325-328 | the mask `x & ~((~0) << bits)` that `check` compares, computed bit by bit, is `x mod 2^bits`, so ownership is equality of the hashes modulo 2^mask_bits |
| Codec.GetPrefixLayout | src/osd/SnapMapper.cc:75-83 | `get_prefix(snap)` is 21 characters: "MAP_", sixteen upper-case hex digits whose value is `snap` truncated to 32 bits, then "_" |
| Codec.GetPrefixOrder | src/osd/SnapMapper.cc:75-83 | for snap ids below 2^32, `s1 < s2` implies `get_prefix(s1) < get_prefix(s2)` in string order |
| Codec.GetPrefixEqual | src/osd/SnapMapper.cc:78-81 | two snap ids get the same prefix exactly when their low 32 bits agree |
| Codec.GetPrefixTruncates | src/osd/SnapMapper.cc:80-81 | the `unsigned` cast breaks order and distinctness beyond 32 bits: snap 2^32 gets snap 0's prefix and sorts before snap 1 |
| Hex.DigitsValue | src/osd/SnapMapper.cc:78-81 | `%.<w>X` of a value that fits in w digits reads back as that value |
| Hex.DigitsOrder | src/osd/SnapMapper.cc:78-81 | fixed-width hex strings sort as their values do |
| Codec.RawKeyIsMapping | src/osd/SnapMapper.cc:111-114 | `is_mapping` holds for every `to_raw_key` |
| Codec.ObjectKeyIsNotMapping | src/osd/SnapMapper.cc:116-119 | `is_mapping` fails for every `to_object_key` |
| Codec.KeyFamiliesDisjoint | src/osd/SnapMapper.cc:85-119 | no reverse key equals any forward key, whatever the shard prefixes |
| Codec.RawKeyOrder | src/osd/SnapMapper.cc:85-89 | reverse keys sort by snap id first, for snap ids below 2^32, whatever the shard prefixes and objects |
| Codec.RawKeyEqual | src/osd/SnapMapper.cc:85-89 | within a shard, two reverse keys are equal if and only if the objects are equal and the snap ids agree in their low 32 bits |
| Codec.ObjectKeyInjective | src/osd/SnapMapper.cc:116-119 | within a shard, distinct objects have distinct forward keys |
| Codec.KeysSound | src/osd/SnapMapper.cc:85-119 | a shard's two key builders have the three properties the index relies on: the collision rule for reverse keys, injective forward keys, and disjoint families |
| Codec.FromRawToRaw | src/osd/SnapMapper.cc:91-109 | `from_raw(to_raw((snap, o)))` gives back `(snap, o)` |
| Codec.DecodeMapping | src/osd/SnapMapper.cc:54-73 | decoding succeeds exactly on encoded mappings, and re-encoding the result gives the value back |
| Codec.DecodeObjectSnaps | src/osd/SnapMapper.cc:121-135 | decoding succeeds exactly on encoded `object_snaps`, and re-encoding the result gives the value back |
| Store.UpperBoundSpec | src/osd/SnapMapper.cc:44-50 | `upper_bound(pos)` finds the least stored key strictly greater than `pos`, with its value; it finds nothing exactly when no stored key is greater |
| Store.Backend.GetNext | src/osd/SnapMapper.cc:34-52 | `get_next` returns the upper-bound entry of the committed contents, or nothing where the C++ returns `-ENOENT` |
| Store.Backend.GetKeys | src/osd/SnapMapper.cc:27-32 | `get_keys` returns exactly the requested keys that are stored, each with its stored value |
| Store.ApplySet | src/osd/SnapMapper.cc:193 | enqueuing `set_keys(m)` and committing is committing and then overwriting with `m` |
| Store.ApplyRemove | src/osd/SnapMapper.cc:174 | enqueuing `remove_keys(ks)` and committing is committing and then erasing `ks` |
| Store.ApplyEitherOrder | src/osd/SnapMapper.cc:174 | in a valid transaction no key is both set and removed, so committing it may apply the removals before or after the sets |
| Store.Transaction.SetKeys | src/osd/SnapMapper.cc:193 | the pending writes become the old ones followed by setting `m` |
| Store.Transaction.RemoveKeys | src/osd/SnapMapper.cc:174 | the pending writes become the old ones followed by removing `ks` |
| Sets.InsertAscendingKeys | src/osd/SnapMapper.cc:252-257 | the map that `add_oid` builds has exactly one key per snap id's reverse key, and no other key |
| Sets.InsertAscendingFirstWins | src/osd/SnapMapper.cc:252-257 | `std::map::insert`, fed in ascending order, leaves each key with the value of the smallest element that has that key |
| Index.ReverseEntriesFit32 | src/osd/SnapMapper.cc:252-257 | for snap ids below 2^32, `add_oid` enqueues exactly one reverse key per snap id, carrying that snap id's own mapping |
| Index.ReverseEntriesCollide | src/osd/SnapMapper.cc:252-257 | for any snap ids, each reverse key carries the mapping of the smallest snap id with the same low 32 bits |
| Index.AddOidApplied | src/osd/SnapMapper.cc:249-263 | committing `add_oid`'s writes adds the forward entry and the reverse entries to the store |
| Index.UpdateSnapsApplied | src/osd/SnapMapper.cc:216-232 | committing `update_snaps`'s writes overwrites the forward entry and erases the reverse keys of the snap ids dropped |
| Index.RemoveOidApplied | src/osd/SnapMapper.cc:348-361 | committing `_remove_oid`'s writes erases the forward key and the reverse key of every stored snap id |
| Index.SameMappingSameKey | src/osd/SnapMapper.cc:296-300 | in a well-formed reverse index, two reverse keys holding the same mapping are the same key |
| Index.ConsistentNeeds32Bits | src/osd/SnapMapper.cc:80-81 | a store holding the single pair (2^32 + 5, o) in both indexes, which agree, is still not consistent: the invariant is one of 32-bit snap ids |
| Index.UnindexedHasNoReverseKeys | src/osd/SnapMapper.cc:242-247 | in a consistent store, an object without a forward entry has no reverse key |
| Index.AddOidKeepsConsistent | src/osd/SnapMapper.cc:236-264 | adding an unindexed object with a non-empty 32-bit snap set keeps the indexes in agreement. Afterwards its forward set is `snaps`, its reverse pairs are exactly `snaps`, and other objects are unchanged |
| Index.UpdateSnapsKeepsConsistent | src/osd/SnapMapper.cc:196-234 | replacing the snap set by a non-empty subset keeps the indexes in agreement. Afterwards the forward set is the new one, the reverse pairs are exactly the new ones, and other objects are unchanged |
| Index.UpdateSnapsAddingBreaksDuality | src/osd/SnapMapper.cc:219-232 | a new snap id that was not stored ends up in the forward entry with no reverse entry, so the indexes disagree |
| Index.RemoveOidKeepsConsistent | src/osd/SnapMapper.cc:338-363 | removing an indexed object keeps the indexes in agreement and leaves neither its forward key nor any reverse key of it; other objects are unchanged |
| Mapper.Lookup | src/osd/SnapMapper.cc:137-159 | `get_snaps` gives `-ENOENT` if and only if the object is owned and has no forward key. It succeeds if and only if the entry decodes to a non-empty set, and the result is then the stored record |
| Mapper.RemoveOidEffect | src/osd/SnapMapper.cc:338-363 | `_remove_oid` succeeds exactly when `get_snaps` does; otherwise nothing is enqueued |
| Mapper.UpdateSnapsEffect | src/osd/SnapMapper.cc:196-234 | `update_snaps` aborts first for an object the shard does not own; a call that does not succeed enqueues nothing |
| Mapper.AddOidEffect | src/osd/SnapMapper.cc:236-264 | `add_oid` succeeds exactly when the object is owned and has no forward key; otherwise nothing is enqueued |
| Mapper.LookupConsistent | src/osd/SnapMapper.cc:137-159 | on a consistent store, `get_snaps` never aborts for an owned object: it gives `-ENOENT` or the recorded snap set |
| Mapper.AddOidEmptyPoisonsLookup | src/osd/SnapMapper.cc:236-264 | `add_oid` with an empty snap set on an unindexed object succeeds, and `get_snaps` on the committed store then aborts on the empty set |
| Mapper.AddOidCommitted | src/osd/SnapMapper.cc:236-264 | for a non-empty snap set whose ids are all below 2^32, `add_oid` on a consistent store aborts exactly when the object is indexed. Otherwise the commit is consistent, `get_snaps` returns `snaps`, the reverse pairs of the object are exactly `snaps`, and nothing else changes |
| Mapper.UpdateSnapsOutcome | src/osd/SnapMapper.cc:196-215 | the result of `update_snaps` on a consistent store in every case: `-ENOENT` when unindexed, abort on a failed `old_snaps_check`, success otherwise |
| Mapper.UpdateSnapsCommitted | src/osd/SnapMapper.cc:196-234 | `update_snaps` to a non-empty subset succeeds. Its commit is consistent, `get_snaps` returns the new set, exactly the new reverse pairs remain, and nothing else changes |
| Mapper.RemoveOidCommitted | src/osd/SnapMapper.cc:312-363 | `remove_oid` gives `-ENOENT` with no writes for an unindexed object. Otherwise its commit is consistent, `get_snaps` finds nothing, no reverse key of the object remains, and nothing else changes |
| Mapper.SnapMapper.GetSnaps | src/osd/SnapMapper.cc:137-159 | the method's result is `Lookup` on the committed store |
| Mapper.SnapMapper.GetSnapSet | src/osd/SnapMapper.cc:365-377 | the snap-set overload returns the snap set of `Lookup`'s record, or the same error |
| Mapper.SnapMapper.SetSnaps | src/osd/SnapMapper.cc:177-194 | enqueues exactly the encoded record under the forward key, or aborts for an object the shard does not own, enqueuing nothing |
| Mapper.SnapMapper.ClearSnaps | src/osd/SnapMapper.cc:161-175 | enqueues exactly the removal of the forward key, or aborts for an object the shard does not own, enqueuing nothing |
| Mapper.SnapMapper.UpdateSnaps | src/osd/SnapMapper.cc:196-234 | result and new pending writes are `UpdateSnapsEffect` of the committed store and the old pending writes |
| Mapper.SnapMapper.RawKeysExcept | src/osd/SnapMapper.cc:219-226 | the loop collects exactly the reverse keys of the stored snap ids that are not kept |
| Mapper.SnapMapper.AddOid | src/osd/SnapMapper.cc:236-264 | result and new pending writes are `AddOidEffect` of the committed store and the old pending writes |
| Mapper.SnapMapper.ReverseEntriesOf | src/osd/SnapMapper.cc:252-257 | the `to_add` loop builds exactly the insert-in-ascending-order map of `to_raw` over the snap ids |
| Mapper.SnapMapper.GetNextObjectsToTrim | src/osd/SnapMapper.cc:266-309 | the method's result is `Scan.Trim` of the committed store |
| Mapper.SnapMapper.TrimPrefix | src/osd/SnapMapper.cc:277-302 | the inner loop's result is the check of the entries the walk from the scan start visits, appended to the objects found so far, and it reports whether the store ended |
| Mapper.SnapMapper.NextInPrefix | src/osd/SnapMapper.cc:280-296 | one `get_next` either ends the walk (end of store, or a key outside the prefix) or visits the next entry with its decoding, and the walk goes on from that key |
| Mapper.SnapMapper.DecodeEntry | src/osd/SnapMapper.cc:293-298 | `from_raw` and the two asserts give exactly `Scan.Decoded` of the entry |
| Mapper.SnapMapper.RemoveOid | src/osd/SnapMapper.cc:312-336 | result and new pending writes are `RemoveOidEffect`, with the ownership abort first |
| Mapper.SnapMapper.DoRemoveOid | src/osd/SnapMapper.cc:338-363 | result and new pending writes are `RemoveOidEffect` of the committed store and the old pending writes |
| Scan.Trim | src/osd/SnapMapper.cc:266-309 | a successful trim returns between 1 and `max` objects; `max == 0` gives `-ENOENT` |
| Scan.ScanPrefix | src/osd/SnapMapper.cc:279-302 | the walk under one prefix visits at most `budget` entries, and fewer when the store ended |
| Scan.ScanPrefixSound | src/osd/SnapMapper.cc:279-291 | every visited entry is a stored entry whose key carries the prefix |
| Scan.ScanPrefixIncreasing | src/osd/SnapMapper.cc:279-302 | within a prefix, the cursor strictly increases, so no key is visited twice |
| Scan.ScanPrefixComplete | src/osd/SnapMapper.cc:279-302 | if the walk stops short of its budget, it visited every stored key after the cursor that carries the prefix; if the store ended, it visited every key after the cursor |
| Scan.ScanAllSound | src/osd/SnapMapper.cc:274-303 | everything the outer loop visits is a stored entry under one of the scan starts |
| Scan.ScanAllComplete | src/osd/SnapMapper.cc:274-303 | with ascending starts, a scan that stops short of its budget visited every stored key strictly extending a start |
| Scan.ScanAllIncreasing | src/osd/SnapMapper.cc:274-303 | with ascending starts none of which extends another, the visited keys strictly increase across prefixes |
| Scan.Decoded | src/osd/SnapMapper.cc:293-298 | a decoded entry holds the mapping of `snap` to its object, and that object passes `check` |
| Scan.DecodedComplete | src/osd/SnapMapper.cc:293-298 | a stored mapping for `snap` of an owned object always decodes to that object |
| Scan.CheckAllMeaning | src/osd/SnapMapper.cc:293-300 | the decoding succeeds exactly when no visited entry faults, and it then lists the decoded objects in visiting order |
| Scan.CheckFromAll | src/osd/SnapMapper.cc:300 | pushing decoded objects after `out` gives `out` followed by the whole decoding |
| Scan.CheckFromAppend | src/osd/SnapMapper.cc:274-303 | decoding the entries of two walks in sequence is decoding the first, then the second unless the first faulted |
| Scan.TrimRestStep | src/osd/SnapMapper.cc:274-290 | one turn of the outer loop scans the next start with the remaining budget, then goes on unless that faulted or the store ended |
| Scan.TrimRestIsCheckFrom | src/osd/SnapMapper.cc:274-303 | the outer loop's left-to-right computation equals decoding the whole scan from the current start after the objects found so far |
| Scan.TrimFrom | src/osd/SnapMapper.cc:266-309 | `Trim` is the outer loop's result, with an empty success turned into `-ENOENT` |
| Scan.ScannedKeyIsMapping | src/osd/SnapMapper.cc:288-293 | every key that passes the prefix test satisfies `is_mapping`, so that assert never fires |
| Scan.StartsAscending | src/osd/SnapMapper.cc:274-277 | ascending owned prefixes give ascending scan starts |
| Scan.StartsPrefixFree | src/osd/SnapMapper.cc:274-277 | owned prefixes none of which extends another give scan starts with the same property |
| Scan.TrimSound | src/osd/SnapMapper.cc:293-300 | every returned object passes `check` and is the object of a stored mapping for `snap` under one of the scan starts |
| Scan.TrimComplete | src/osd/SnapMapper.cc:274-309 | a result shorter than `max` covers every stored key strictly extending a scan start. For `max > 0`, `-ENOENT` means no such key exists |
| Scan.TrimVisitsInOrder | src/osd/SnapMapper.cc:274-303 | with the owned prefixes in `std::set` order and none extending another, the scan visits keys in strictly increasing order, so no key is visited twice |
| Mapper.TrimObjectsDistinct | src/osd/SnapMapper.cc:266-309 | on a consistent store whose keys under the scan starts are all reverse keys of the shard, no object is returned twice |
| Mapper.SnapMapper.KeysAreSound | src/osd/SnapMapper.cc:85-119 | a valid mapper's key builders are sound, so every index lemma applies to its keys |

## Left out

- Reads see only the committed contents of the store. The in-flight view of `MapCacher`, which would show writes enqueued in an uncommitted transaction, is not modelled. Neither is committing a transaction: the caller does that.
- Read errors of the store (`r < 0` from `get_keys`) are not modelled. `get_next` either finds an entry or reports the end of the store. The `ceph_abort` for a missing omap iterator is also not modelled.
- The byte formats of `Mapping` and `object_snaps` belong to the serialization library. The model uses an injective encoding whose decoding inverts it. Any other stored bytes make decoding fail.
- `hobject_t::to_str` is defined in the header, which is not part of this model. It is modelled as an injective rendering: the hash in eight hex digits, then the rest of the object's identity as one string.
- `check(oid)`, the owned `prefixes` and the code that computes them from `mask_bits` and `match` are also defined in the header, which is not part of this model. `check` is modelled as equality of the low `mask_bits` bits of the hashes, following the comment at lines 325-328. The prefixes are a constructor argument: ascending, with none extending another.
- Debug logging and the `should_gather` loops that only log are left out.
- Every `assert`, `ceph_abort` and `ceph_abort_msg` is modelled as a `Fatal` outcome that names its cause, not as process termination.
- The null-pointer forms are not modelled. These are `out == NULL` in `get_snaps`, `snaps == NULL` in the set overload, and `old_snaps_check == NULL`, which is modelled as an `Option`. Also not modelled are the `out` vector and the `assert(out)`/`assert(out->empty())` of the trim scan: the method starts from an empty sequence and returns it.
- Snap ids are unbounded naturals, not 64-bit `snapid_t`; `max` is a natural number, not a 32-bit `unsigned`. The key and scan lemmas hold for all naturals, so they also hold for the 64-bit ones. The invariant lemmas do not; see the next line.
- `Index.Consistent` is an invariant of stores whose snap ids are all below 2^32. It requires every forward set to fit in 32 bits, and every reverse key to carry the mapping of its 32-bit snap id. So `Mapper.LookupConsistent`, `Mapper.AddOidCommitted`, `Mapper.UpdateSnapsCommitted`, `Mapper.RemoveOidCommitted`, `Index.UpdateSnapsKeepsConsistent`, `Index.RemoveOidKeepsConsistent` and `Mapper.TrimObjectsDistinct` say nothing about larger snap ids. The reason is the 32-bit cast in `get_prefix`. A pair (2^32 + 5, o) is stored under snap 5's reverse key, so the trim of snap 5 would decode it and abort with `WrongSnap`. `Index.ConsistentNeeds32Bits` shows that the invariant excludes such a store.
- Index.AddOidKeepsConsistent: proved only for snap ids below 2^32. For larger ones the 32-bit cast in `get_prefix` makes reverse keys collide, as `Index.ReverseEntriesCollide` describes.
- Index.UpdateSnapsKeepsConsistent: proved only when the new snap set is a non-empty subset of the stored one. `update_snaps` never adds reverse keys (see `Index.UpdateSnapsAddingBreaksDuality`). An empty new set is `remove_oid`, covered by `Index.RemoveOidKeepsConsistent`.
- Mapper.UpdateSnapsEffect: its own contract states only the ownership abort and that a failing call enqueues nothing. The full outcome is stated by `Mapper.UpdateSnapsOutcome`, and the committed effect by `Mapper.UpdateSnapsCommitted`.
- Concurrency is not modelled: every operation runs alone, from start to end, on one store.
