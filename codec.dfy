/** The key codec of the snapshot mapper: how an object and a (snapshot,
    object) pair become keys of the shared ordered store, and the two kinds
    of record stored under them.

      reverse key:  "MAP_" <16 upper-case hex digits of (unsigned)snap> "_" <shard prefix> <object string>
      forward key:  "OBJ_" <shard prefix> <object string>
*/
module Codec {
  import opened Lex
  import opened Hex

  datatype Option<T> = None | Some(value: T)

  const MAPPING_PREFIX: string := "MAP_"
  const OBJECT_PREFIX: string := "OBJ_"

  /** snapid_t wraps a 64-bit unsigned integer; sixteen hex digits hold any of them. */
  const SNAP_BOUND: nat := 0x1_0000_0000_0000_0000
  /** `unsigned` is 32 bits wide: the cast in get_prefix keeps this much of a snap id. */
  const UNSIGNED_BOUND: nat := 0x1_0000_0000

  /** Digits printed for a snap id: "%.*X" with precision sizeof(snapid_t)*2. */
  const SNAP_DIGITS: nat := 16
  /** Digits the object rendering uses for the hash. */
  const HASH_DIGITS: nat := 8

  /** A snapshot id. The model does not bound it by SNAP_BOUND: every
      property below holds for all natural numbers, the 64-bit ones included. */
  type SnapId = nat
  type Hash = h: nat | h < UNSIGNED_BOUND

  /** A stored object: its 32-bit placement hash and the rest of its
      identity (pool, namespace, key, name, snap), which this model keeps as
      one opaque string. */
  datatype ObjectId = ObjectId(hash: Hash, name: string)

  /** Stand-in for hobject_t::to_str: any injective rendering serves; this
      one is the hash in eight hex digits followed by the name. */
  function ObjectString(o: ObjectId): string {
    Digits(o.hash, HASH_DIGITS) + o.name
  }

  function Pow2(n: nat): (r: nat)
    ensures r >= 1
  {
    if n == 0 then 1 else 2 * Pow2(n - 1)
  }

  /** The value of the low `n` bits of `x`, i.e. x & ~((~0) << n), taken
      one bit at a time. */
  function LowBits(x: nat, n: nat): (r: nat)
    ensures r < Pow2(n)
  {
    if n == 0 then 0 else x % 2 + 2 * LowBits(x / 2, n - 1)
  }

  /** A nonzero multiple of m is at least m away from zero. */
  lemma MultipleBounds(d: int, m: int)
    requires m > 0
    ensures d >= 1 ==> d * m >= m
    ensures d <= -1 ==> d * m <= -m
  {
    if d >= 1 {
      assert d * m == (d - 1) * m + m;
    } else if d <= -1 {
      assert d * m == (d + 1) * m - m;
    }
  }

  /** The remainder is the one `r` with x == q * m + r and 0 <= r < m. */
  lemma ModUnique(x: int, m: int, q: int, r: int)
    requires m > 0 && 0 <= r < m && x == q * m + r
    ensures x % m == r
  {
    var d := q - x / m;
    assert d * m == x % m - r;
    MultipleBounds(d, m);
  }

  /** Halving: the remainder modulo 2p is the low bit plus twice the
      remainder of the half modulo p. */
  lemma HalfMod(x: nat, p: nat)
    requires p > 0
    ensures x % (2 * p) == x % 2 + 2 * ((x / 2) % p)
  {
    var q := (x / 2) / p;
    var r := (x / 2) % p;
    assert x / 2 == q * p + r;
    assert x == q * (2 * p) + (x % 2 + 2 * r);
    ModUnique(x, 2 * p, q, x % 2 + 2 * r);
  }

  /** The bitwise mask agrees with the remainder modulo 2^n. */
  lemma {:induction false} LowBitsIsMod(x: nat, n: nat)
    ensures LowBits(x, n) == x % Pow2(n)
  {
    if n > 0 {
      LowBitsIsMod(x / 2, n - 1);
      HalfMod(x, Pow2(n - 1));
    }
  }

  /** hobject_t::match(bits, match): the low `maskBits` bits of the object's
      hash equal those of `match`. */
  predicate Owns(maskBits: nat, matchValue: Hash, o: ObjectId) {
    LowBits(o.hash, maskBits) == LowBits(matchValue, maskBits)
  }

  /** get_prefix: "MAP_", the snap id cast to `unsigned` and printed with
      "%.16X", then "_". */
  function GetPrefix(snap: SnapId): string {
    MAPPING_PREFIX + Digits(snap % UNSIGNED_BOUND, SNAP_DIGITS) + "_"
  }

  /** to_raw_key */
  function RawKey(shardPrefix: string, snap: SnapId, o: ObjectId): string {
    GetPrefix(snap) + shardPrefix + ObjectString(o)
  }

  /** to_object_key */
  function ObjectKey(shardPrefix: string, o: ObjectId): string {
    OBJECT_PREFIX + shardPrefix + ObjectString(o)
  }

  /** is_mapping: the first four characters (or the whole key, if shorter) are "MAP_". */
  predicate IsMapping(key: string) {
    (if |key| < |MAPPING_PREFIX| then key else key[..|MAPPING_PREFIX|]) == MAPPING_PREFIX
  }

  /** The record kept under a reverse key. */
  datatype Mapping = Mapping(snap: SnapId, hoid: ObjectId)

  /** The record kept under a forward key. */
  datatype ObjectSnaps = ObjectSnaps(oid: ObjectId, snaps: set<SnapId>)

  /** A stored value: the encoding of one of the two records, or any other
      bytes. The byte format belongs to the serialization library; the model
      only needs encoding to be injective and decoding to invert it. */
  datatype Value =
    | MappingBytes(mapping: Mapping)
    | ObjectSnapsBytes(objectSnaps: ObjectSnaps)
    | OtherBytes(bytes: seq<bv8>)

  function EncodeMapping(m: Mapping): Value {
    MappingBytes(m)
  }

  function DecodeMapping(v: Value): (r: Option<Mapping>)
    ensures r.Some? <==> v.MappingBytes?
    ensures r.Some? ==> EncodeMapping(r.value) == v
  {
    if v.MappingBytes? then Some(v.mapping) else None
  }

  function EncodeObjectSnaps(os: ObjectSnaps): Value {
    ObjectSnapsBytes(os)
  }

  function DecodeObjectSnaps(v: Value): (r: Option<ObjectSnaps>)
    ensures r.Some? <==> v.ObjectSnapsBytes?
    ensures r.Some? ==> EncodeObjectSnaps(r.value) == v
  {
    if v.ObjectSnapsBytes? then Some(v.objectSnaps) else None
  }

  /** to_raw: the reverse key and the encoded mapping stored under it. */
  function ToRaw(shardPrefix: string, snap: SnapId, o: ObjectId): (string, Value) {
    (RawKey(shardPrefix, snap, o), EncodeMapping(Mapping(snap, o)))
  }

  /** from_raw: decode the pair back from a stored value (the key is not consulted). */
  function FromRaw(image: (string, Value)): Option<(SnapId, ObjectId)> {
    match DecodeMapping(image.1)
    case Some(m) => Some((m.snap, m.hoid))
    case None => None
  }

  lemma FromRawToRaw(shardPrefix: string, snap: SnapId, o: ObjectId)
    ensures FromRaw(ToRaw(shardPrefix, snap, o)) == Some((snap, o))
  {
  }

  // ---------------------------------------------------------------------
  // Key layout

  lemma Pow16Values()
    ensures Pow16(HASH_DIGITS) == UNSIGNED_BOUND && Pow16(SNAP_DIGITS) == SNAP_BOUND
  {
    assert Pow16(1) == 16;
    assert Pow16(2) == 0x100;
    assert Pow16(3) == 0x1000;
    assert Pow16(4) == 0x1_0000;
    assert Pow16(5) == 0x10_0000;
    assert Pow16(6) == 0x100_0000;
    assert Pow16(7) == 0x1000_0000;
    assert Pow16(8) == 0x1_0000_0000;
    assert Pow16(9) == 0x10_0000_0000;
    assert Pow16(10) == 0x100_0000_0000;
    assert Pow16(11) == 0x1000_0000_0000;
    assert Pow16(12) == 0x1_0000_0000_0000;
    assert Pow16(13) == 0x10_0000_0000_0000;
    assert Pow16(14) == 0x100_0000_0000_0000;
    assert Pow16(15) == 0x1000_0000_0000_0000;
  }

  /** get_prefix is "MAP_", then exactly sixteen upper-case zero-padded hex
      digits whose value is the snap id truncated to 32 bits, then "_": 21
      characters in all. */
  lemma GetPrefixLayout(snap: SnapId)
    ensures |GetPrefix(snap)| == 21
    ensures GetPrefix(snap)[..4] == MAPPING_PREFIX && GetPrefix(snap)[20] == '_'
    ensures AllHex(GetPrefix(snap)[4..20])
    ensures Hex.Value(GetPrefix(snap)[4..20]) == snap % UNSIGNED_BOUND
  {
    var n := snap % UNSIGNED_BOUND;
    Pow16Values();
    DigitsShape(n, SNAP_DIGITS);
    DigitsValue(n, SNAP_DIGITS);
    assert GetPrefix(snap)[4..20] == Digits(n, SNAP_DIGITS);
  }

  /** For snap ids that fit in 32 bits, the order of the prefixes is the
      numeric order of the snap ids. */
  lemma GetPrefixOrder(s1: SnapId, s2: SnapId)
    requires s1 < s2 < UNSIGNED_BOUND
    ensures Less(GetPrefix(s1), GetPrefix(s2))
  {
    Pow16Values();
    PaddedOrder(s1, s2, SNAP_DIGITS);
  }

  lemma PaddedOrder(a: nat, b: nat, w: nat)
    requires a < b < UNSIGNED_BOUND <= Pow16(w)
    ensures Less(MAPPING_PREFIX + Digits(a % UNSIGNED_BOUND, w) + "_", MAPPING_PREFIX + Digits(b % UNSIGNED_BOUND, w) + "_")
  {
    assert a % UNSIGNED_BOUND == a && b % UNSIGNED_BOUND == b;
    var d1, d2 := Digits(a, w), Digits(b, w);
    DigitsShape(a, w);
    DigitsShape(b, w);
    DigitsOrder(a, b, w);
    LessEqualLength(d1, d2, "_", "_");
    LessCommonPrefix(MAPPING_PREFIX, d1 + "_", d2 + "_");
    assert MAPPING_PREFIX + d1 + "_" == MAPPING_PREFIX + (d1 + "_");
    assert MAPPING_PREFIX + d2 + "_" == MAPPING_PREFIX + (d2 + "_");
  }

  /** Two snap ids share a prefix exactly when they agree in their low 32 bits. */
  lemma GetPrefixEqual(s1: SnapId, s2: SnapId)
    ensures GetPrefix(s1) == GetPrefix(s2) <==> s1 % UNSIGNED_BOUND == s2 % UNSIGNED_BOUND
  {
    if GetPrefix(s1) == GetPrefix(s2) {
      GetPrefixLayout(s1);
      GetPrefixLayout(s2);
    }
  }

  /** Beyond 32 bits the cast truncates: snap 0x1_0000_0000 gets the prefix
      of snap 0 and sorts before snap 1, so neither the order nor the
      distinctness of prefixes holds for 64-bit snap ids. */
  lemma GetPrefixTruncates()
    ensures GetPrefix(0x1_0000_0000) == GetPrefix(0)
    ensures 1 < 0x1_0000_0000 && Less(GetPrefix(0x1_0000_0000), GetPrefix(1))
  {
    GetPrefixOrder(0, 1);
  }

  // ---------------------------------------------------------------------
  // Key families

  lemma ObjectStringInjective(a: ObjectId, b: ObjectId)
    requires ObjectString(a) == ObjectString(b)
    ensures a == b
  {
    Pow16Values();
    DigitsShape(a.hash, HASH_DIGITS);
    DigitsShape(b.hash, HASH_DIGITS);
    assert ObjectString(a)[..8] == Digits(a.hash, HASH_DIGITS);
    assert ObjectString(b)[..8] == Digits(b.hash, HASH_DIGITS);
    DigitsInjective(a.hash, b.hash, HASH_DIGITS);
    assert ObjectString(a)[8..] == a.name;
    assert ObjectString(b)[8..] == b.name;
  }

  /** Every reverse key is a mapping key. */
  lemma RawKeyIsMapping(shardPrefix: string, snap: SnapId, o: ObjectId)
    ensures IsMapping(RawKey(shardPrefix, snap, o))
  {
    assert RawKey(shardPrefix, snap, o)[..4] == MAPPING_PREFIX;
  }

  /** No forward key is a mapping key, so the two families never collide. */
  lemma ObjectKeyIsNotMapping(shardPrefix: string, o: ObjectId)
    ensures !IsMapping(ObjectKey(shardPrefix, o))
  {
    assert ObjectKey(shardPrefix, o)[..4] == OBJECT_PREFIX;
    assert OBJECT_PREFIX[0] != MAPPING_PREFIX[0];
  }

  lemma KeyFamiliesDisjoint(shard1: string, shard2: string, snap: SnapId, o1: ObjectId, o2: ObjectId)
    ensures RawKey(shard1, snap, o1) != ObjectKey(shard2, o2)
  {
    RawKeyIsMapping(shard1, snap, o1);
    ObjectKeyIsNotMapping(shard2, o2);
  }

  /** Reverse keys sort by snap id first, whatever the shard prefixes and
      objects, as long as the snap ids fit in 32 bits. */
  lemma RawKeyOrder(shard1: string, shard2: string, s1: SnapId, s2: SnapId, o1: ObjectId, o2: ObjectId)
    requires s1 < s2 < UNSIGNED_BOUND
    ensures Less(RawKey(shard1, s1, o1), RawKey(shard2, s2, o2))
  {
    GetPrefixOrder(s1, s2);
    GetPrefixLayout(s1);
    GetPrefixLayout(s2);
    LessEqualLength(GetPrefix(s1), GetPrefix(s2), shard1 + ObjectString(o1), shard2 + ObjectString(o2));
    assert RawKey(shard1, s1, o1) == GetPrefix(s1) + (shard1 + ObjectString(o1));
    assert RawKey(shard2, s2, o2) == GetPrefix(s2) + (shard2 + ObjectString(o2));
  }

  /** Within one shard, two reverse keys are equal exactly when the objects
      are equal and the snap ids agree in their low 32 bits. */
  lemma RawKeyEqual(shardPrefix: string, s1: SnapId, s2: SnapId, o1: ObjectId, o2: ObjectId)
    ensures RawKey(shardPrefix, s1, o1) == RawKey(shardPrefix, s2, o2)
        <==> s1 % UNSIGNED_BOUND == s2 % UNSIGNED_BOUND && o1 == o2
  {
    GetPrefixEqual(s1, s2);
    var k1, k2 := RawKey(shardPrefix, s1, o1), RawKey(shardPrefix, s2, o2);
    if k1 == k2 {
      GetPrefixLayout(s1);
      GetPrefixLayout(s2);
      assert k1[..21] == GetPrefix(s1) && k2[..21] == GetPrefix(s2);
      assert k1[21 + |shardPrefix|..] == ObjectString(o1);
      assert k2[21 + |shardPrefix|..] == ObjectString(o2);
      ObjectStringInjective(o1, o2);
    }
  }

  lemma ObjectKeyInjective(shardPrefix: string, o1: ObjectId, o2: ObjectId)
    requires ObjectKey(shardPrefix, o1) == ObjectKey(shardPrefix, o2)
    ensures o1 == o2
  {
    var n := 4 + |shardPrefix|;
    assert ObjectKey(shardPrefix, o1)[n..] == ObjectString(o1);
    assert ObjectKey(shardPrefix, o2)[n..] == ObjectString(o2);
    ObjectStringInjective(o1, o2);
  }

  // ---------------------------------------------------------------------
  // The key scheme of one shard

  /** The two key builders of a mapper whose shard prefix is fixed. */
  datatype KeyScheme = KeyScheme(raw: (SnapId, ObjectId) -> string, obj: ObjectId -> string)

  function Keys(shardPrefix: string): KeyScheme {
    KeyScheme((s: SnapId, o: ObjectId) => RawKey(shardPrefix, s, o), (o: ObjectId) => ObjectKey(shardPrefix, o))
  }

  /** What the index relies on about its keys: reverse keys coincide exactly
      when the objects coincide and the snap ids agree in their low 32 bits,
      forward keys are injective, and the two families never meet. */
  ghost predicate Sound(ks: KeyScheme) {
    && (forall s1: SnapId, s2: SnapId, o1, o2 :: ks.raw(s1, o1) == ks.raw(s2, o2) <==> s1 % UNSIGNED_BOUND == s2 % UNSIGNED_BOUND && o1 == o2)
    && (forall o1, o2 :: ks.obj(o1) == ks.obj(o2) ==> o1 == o2)
    && (forall s: SnapId, o1, o2 :: ks.raw(s, o1) != ks.obj(o2))
  }

  lemma KeysSound(shardPrefix: string)
    ensures Sound(Keys(shardPrefix))
  {
    var ks := Keys(shardPrefix);
    forall s1: SnapId, s2: SnapId, o1, o2
      ensures ks.raw(s1, o1) == ks.raw(s2, o2) <==> s1 % UNSIGNED_BOUND == s2 % UNSIGNED_BOUND && o1 == o2
    {
      RawKeyEqual(shardPrefix, s1, s2, o1, o2);
    }
    forall o1, o2 | ks.obj(o1) == ks.obj(o2)
      ensures o1 == o2
    {
      ObjectKeyInjective(shardPrefix, o1, o2);
    }
    forall s: SnapId, o1, o2
      ensures ks.raw(s, o1) != ks.obj(o2)
    {
      KeyFamiliesDisjoint(shardPrefix, shardPrefix, s, o1, o2);
    }
  }
}
