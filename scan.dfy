/** What get_next_objects_to_trim computes, stated on the committed store:
    for each owned prefix in turn, the reverse-index entries that follow
    get_prefix(snap) + prefix, walked with get_next until a key leaves the
    prefix, the store ends, or `max` objects are collected. ScanPrefix is
    the inner loop, ScanAll the outer one, and CheckFrom the decoding and
    asserts applied to each visited entry. */
module Scan {
  import opened Lex
  import opened Codec
  import opened Store
  import opened Results

  /** A stored entry as get_next returns it. */
  type Entry = (string, Value)

  function KeysOf(es: seq<Entry>): set<string> {
    set e | e in es :: e.0
  }

  /** Where the scan of each owned prefix starts: get_prefix(snap) + prefix. */
  function Starts(snap: SnapId, prefixes: seq<string>): (starts: seq<string>)
    ensures |starts| == |prefixes|
    ensures forall j :: 0 <= j < |prefixes| ==> starts[j] == GetPrefix(snap) + prefixes[j]
  {
    seq(|prefixes|, j requires 0 <= j < |prefixes| => GetPrefix(snap) + prefixes[j])
  }

  /** Strictly ascending, as the owned prefixes are in their std::set. */
  predicate Ascending(ps: seq<string>) {
    forall i, j :: 0 <= i < j < |ps| ==> Less(ps[i], ps[j])
  }

  /** No string of `ps` extends another one. */
  predicate PrefixFree(ps: seq<string>) {
    forall i, j :: 0 <= i < j < |ps| ==> !IsPrefix(ps[i], ps[j])
  }

  /** `k` lies in the range the scan walks for one of the starts. */
  predicate UnderSomeStart(starts: seq<string>, k: string) {
    exists p :: p in starts && IsPrefix(p, k)
  }

  /** Each visited key is after `pos`. */
  predicate AllAfter(pos: string, es: seq<Entry>) {
    forall i :: 0 <= i < |es| ==> Less(pos, es[i].0)
  }

  /** The visited keys strictly increase, so none is visited twice. */
  predicate Increasing(es: seq<Entry>) {
    forall i, j :: 0 <= i < j < |es| ==> Less(es[i].0, es[j].0)
  }

  // ---------------------------------------------------------------------
  // The inner walk

  /** The inner loop for one prefix: from `pos`, follow get_next (the first
      key strictly after the cursor) while the key still starts with
      `prefix`, for at most `budget` steps. The flag says whether get_next
      reported the end of the store (r != 0). */
  ghost function ScanPrefix(db: Store, prefix: string, pos: string, budget: nat): (r: (seq<Entry>, bool))
    ensures |r.0| <= budget
    ensures r.1 ==> |r.0| < budget
    decreases budget
  {
    if budget == 0 then ([], false)
    else match UpperBound(db, pos)
      case None => ([], true)
      case Some(e) =>
        if !IsPrefix(prefix, e.0) then ([], false)
        else
          var rest := ScanPrefix(db, prefix, e.0, budget - 1);
          ([e] + rest.0, rest.1)
  }

  /** One step of the inner walk, as get_next's answer decides it. */
  lemma ScanPrefixStep(db: Store, prefix: string, pos: string, budget: nat)
    requires budget > 0
    ensures UpperBound(db, pos).None? ==> ScanPrefix(db, prefix, pos, budget) == ([], true)
    ensures UpperBound(db, pos).Some? && !IsPrefix(prefix, UpperBound(db, pos).value.0) ==>
              ScanPrefix(db, prefix, pos, budget) == ([], false)
    ensures UpperBound(db, pos).Some? && IsPrefix(prefix, UpperBound(db, pos).value.0) ==>
              var e := UpperBound(db, pos).value;
              var rest := ScanPrefix(db, prefix, e.0, budget - 1);
              ScanPrefix(db, prefix, pos, budget) == ([e] + rest.0, rest.1)
  {
  }

  /** The visited entries are stored entries that carry the prefix. */
  lemma {:induction false} ScanPrefixSound(db: Store, prefix: string, pos: string, budget: nat)
    ensures forall e :: e in ScanPrefix(db, prefix, pos, budget).0 ==> e.0 in db && db[e.0] == e.1 && IsPrefix(prefix, e.0)
    decreases budget
  {
    if budget > 0 {
      var next := UpperBound(db, pos);
      UpperBoundSpec(db, pos);
      if next.Some? && IsPrefix(prefix, next.value.0) {
        ScanPrefixSound(db, prefix, next.value.0, budget - 1);
        assert ScanPrefix(db, prefix, pos, budget).0 == [next.value] + ScanPrefix(db, prefix, next.value.0, budget - 1).0;
      }
    }
  }

  /** Every key the walk of a prefix visits is after its starting cursor. */
  lemma {:induction false} ScanPrefixAfter(db: Store, prefix: string, pos: string, budget: nat)
    ensures AllAfter(pos, ScanPrefix(db, prefix, pos, budget).0)
    decreases budget
  {
    if budget > 0 {
      var next := UpperBound(db, pos);
      UpperBoundSpec(db, pos);
      if next.Some? && IsPrefix(prefix, next.value.0) {
        var e := next.value;
        ScanPrefixAfter(db, prefix, e.0, budget - 1);
        var rest := ScanPrefix(db, prefix, e.0, budget - 1).0;
        var es := ScanPrefix(db, prefix, pos, budget).0;
        assert es == [e] + rest;
        forall i | 0 <= i < |es|
          ensures Less(pos, es[i].0)
        {
          if i > 0 {
            assert es[i] == rest[i - 1];
            LessTransitive(pos, e.0, es[i].0);
          }
        }
      }
    }
  }

  lemma ConsIncreasing(e: Entry, rest: seq<Entry>)
    requires AllAfter(e.0, rest) && Increasing(rest)
    ensures Increasing([e] + rest)
  {
    var es := [e] + rest;
    forall i, j | 0 <= i < j < |es|
      ensures Less(es[i].0, es[j].0)
    {
      assert es[j] == rest[j - 1];
      if i > 0 {
        assert es[i] == rest[i - 1];
      }
    }
  }

  /** Within a prefix the cursor only moves forward: each visited key is
      after the one before, so no key (and no object) is visited twice. */
  lemma {:induction false} ScanPrefixIncreasing(db: Store, prefix: string, pos: string, budget: nat)
    ensures Increasing(ScanPrefix(db, prefix, pos, budget).0)
    decreases budget
  {
    if budget > 0 {
      var next := UpperBound(db, pos);
      UpperBoundSpec(db, pos);
      if next.Some? && IsPrefix(prefix, next.value.0) {
        var e := next.value;
        ScanPrefixIncreasing(db, prefix, e.0, budget - 1);
        ScanPrefixAfter(db, prefix, e.0, budget - 1);
        var rest := ScanPrefix(db, prefix, e.0, budget - 1).0;
        ConsIncreasing(e, rest);
        assert ScanPrefix(db, prefix, pos, budget).0 == [e] + rest;
      }
    }
  }

  /** The walk of a prefix misses nothing: once it stops short of its
      budget, every key after the cursor that carries the prefix was
      visited, and when the store ended every key after the cursor was. */
  lemma {:induction false} ScanPrefixComplete(db: Store, prefix: string, pos: string, budget: nat)
    requires IsPrefix(prefix, pos)
    ensures var r := ScanPrefix(db, prefix, pos, budget);
      && (r.1 ==> forall k :: k in db && Less(pos, k) ==> k in KeysOf(r.0))
      && (|r.0| < budget ==> forall k :: k in db && IsPrefix(prefix, k) && Less(pos, k) ==> k in KeysOf(r.0))
    decreases budget
  {
    if budget > 0 {
      var next := UpperBound(db, pos);
      UpperBoundSpec(db, pos);
      if next.Some? {
        var e := next.value;
        if !IsPrefix(prefix, e.0) {
          forall k | k in db && IsPrefix(prefix, k) && Less(pos, k)
            ensures false
          {
            PrefixRunEnds(prefix, pos, e.0, k);
            LessAsymmetric(k, e.0);
          }
        } else {
          ScanPrefixComplete(db, prefix, e.0, budget - 1);
          var rest := ScanPrefix(db, prefix, e.0, budget - 1);
          var r := ScanPrefix(db, prefix, pos, budget);
          assert r.0 == [e] + rest.0 && r.1 == rest.1;
          forall k | k in db && Less(pos, k) && k != e.0
            ensures Less(e.0, k)
          {
          }
        }
      }
    }
  }

  // ---------------------------------------------------------------------
  // The outer loop

  /** The outer loop over the scan starts: one after another, with what is
      left of the budget, stopping for good once get_next has reported the
      end of the store. */
  ghost function ScanAll(db: Store, starts: seq<string>, budget: nat): (es: seq<Entry>)
    ensures |es| <= budget
    decreases |starts|
  {
    if starts == [] || budget == 0 then []
    else
      var here := ScanPrefix(db, starts[0], starts[0], budget);
      if here.1 then here.0
      else here.0 + ScanAll(db, starts[1..], budget - |here.0|)
  }

  /** The outer loop from the i-th start on: that start's walk, then the
      rest unless the store ended. */
  lemma ScanAllAt(db: Store, starts: seq<string>, i: nat, budget: nat)
    requires i < |starts| && budget > 0
    ensures var here := ScanPrefix(db, starts[i], starts[i], budget);
      ScanAll(db, starts[i..], budget)
        == if here.1 then here.0 else here.0 + ScanAll(db, starts[i + 1..], budget - |here.0|)
  {
    assert starts[i..][0] == starts[i] && starts[i..][1..] == starts[i + 1..];
  }

  /** The outer loop visits stored entries that carry one of the starts. */
  lemma {:induction false} ScanAllSound(db: Store, starts: seq<string>, budget: nat)
    ensures forall e :: e in ScanAll(db, starts, budget) ==> e.0 in db && db[e.0] == e.1 && UnderSomeStart(starts, e.0)
    decreases |starts|
  {
    if starts != [] && budget > 0 {
      var here := ScanPrefix(db, starts[0], starts[0], budget);
      ScanPrefixSound(db, starts[0], starts[0], budget);
      if !here.1 {
        ScanAllSound(db, starts[1..], budget - |here.0|);
        var rest := ScanAll(db, starts[1..], budget - |here.0|);
        assert ScanAll(db, starts, budget) == here.0 + rest;
        forall e | e in rest
          ensures UnderSomeStart(starts, e.0)
        {
          var p :| p in starts[1..] && IsPrefix(p, e.0);
          assert p in starts;
        }
      }
    }
  }

  /** A string is after the first start when it strictly extends any start. */
  lemma BelowLaterStarts(starts: seq<string>, p: string, k: string)
    requires Ascending(starts) && starts != []
    requires p in starts && IsPrefix(p, k) && k != p
    ensures Less(starts[0], k)
  {
    PrefixIsLess(p, k);
    if p != starts[0] {
      var j :| 0 <= j < |starts| && starts[j] == p;
      LessTransitive(starts[0], p, k);
    }
  }

  lemma KeysOfAppend(a: seq<Entry>, b: seq<Entry>)
    ensures KeysOf(a + b) == KeysOf(a) + KeysOf(b)
  {
    assert forall e :: e in a + b <==> e in a || e in b;
  }

  /** Across prefixes: with ascending starts, a walk that stops short of its
      budget has visited every stored key that strictly extends a start. */
  lemma {:induction false} ScanAllComplete(db: Store, starts: seq<string>, budget: nat)
    requires Ascending(starts)
    ensures |ScanAll(db, starts, budget)| < budget ==>
        forall p, k :: p in starts && k in db && IsPrefix(p, k) && k != p
          ==> k in KeysOf(ScanAll(db, starts, budget))
    decreases |starts|
  {
    var es := ScanAll(db, starts, budget);
    if starts != [] && budget > 0 && |es| < budget {
      var here := ScanPrefix(db, starts[0], starts[0], budget);
      PrefixAppend(starts[0], []);
      assert starts[0] + [] == starts[0];
      ScanPrefixComplete(db, starts[0], starts[0], budget);
      if here.1 {
        assert es == here.0;
        forall p, k | p in starts && k in db && IsPrefix(p, k) && k != p
          ensures k in KeysOf(es)
        {
          BelowLaterStarts(starts, p, k);
        }
      } else {
        var rest := ScanAll(db, starts[1..], budget - |here.0|);
        assert es == here.0 + rest;
        ScanAllComplete(db, starts[1..], budget - |here.0|);
        KeysOfAppend(here.0, rest);
        forall p, k | p in starts && k in db && IsPrefix(p, k) && k != p
          ensures k in KeysOf(here.0) || k in KeysOf(rest)
        {
          if p == starts[0] {
            PrefixIsLess(p, k);
          } else {
            assert starts == [starts[0]] + starts[1..];
            assert p in starts[1..];
          }
        }
      }
    }
  }

  lemma AppendIncreasing(a: seq<Entry>, b: seq<Entry>)
    requires Increasing(a) && Increasing(b)
    requires forall i, j :: 0 <= i < |a| && 0 <= j < |b| ==> Less(a[i].0, b[j].0)
    ensures Increasing(a + b)
  {
    var es := a + b;
    forall i, j | 0 <= i < j < |es|
      ensures Less(es[i].0, es[j].0)
    {
      if j >= |a| {
        assert es[j] == b[j - |a|];
        if i >= |a| {
          assert es[i] == b[i - |a|];
        }
      }
    }
  }

  /** Every key under the first start sorts before every key under a later
      one. */
  lemma BlocksOrdered(starts: seq<string>, a: seq<Entry>, b: seq<Entry>)
    requires Ascending(starts) && PrefixFree(starts) && starts != []
    requires forall e :: e in a ==> IsPrefix(starts[0], e.0)
    requires forall e :: e in b ==> UnderSomeStart(starts[1..], e.0)
    ensures forall i, j :: 0 <= i < |a| && 0 <= j < |b| ==> Less(a[i].0, b[j].0)
  {
    forall i, j | 0 <= i < |a| && 0 <= j < |b|
      ensures Less(a[i].0, b[j].0)
    {
      assert a[i] in a && b[j] in b;
      var p :| p in starts[1..] && IsPrefix(p, b[j].0);
      var m :| 0 <= m < |starts[1..]| && starts[1..][m] == p;
      assert starts[m + 1] == p;
      PrefixBlocksOrdered(starts[0], p, a[i].0, b[j].0);
    }
  }

  /** Across prefixes: with ascending starts none of which extends another,
      every key of one start's block sorts before every key of a later one,
      so the whole walk is strictly increasing. */
  lemma {:induction false} ScanAllIncreasing(db: Store, starts: seq<string>, budget: nat)
    requires Ascending(starts) && PrefixFree(starts)
    ensures Increasing(ScanAll(db, starts, budget))
    decreases |starts|
  {
    if starts != [] && budget > 0 {
      var here := ScanPrefix(db, starts[0], starts[0], budget);
      ScanPrefixIncreasing(db, starts[0], starts[0], budget);
      if !here.1 {
        var rest := ScanAll(db, starts[1..], budget - |here.0|);
        assert ScanAll(db, starts, budget) == here.0 + rest;
        ScanAllIncreasing(db, starts[1..], budget - |here.0|);
        ScanAllSound(db, starts[1..], budget - |here.0|);
        ScanPrefixSound(db, starts[0], starts[0], budget);
        BlocksOrdered(starts, here.0, rest);
        AppendIncreasing(here.0, rest);
      }
    }
  }

  // ---------------------------------------------------------------------
  // Decoding what the walk visits

  /** from_raw and the two asserts that follow it: the value must decode as
      a mapping for `snap` whose object this shard owns. */
  function Decoded(e: Entry, snap: SnapId, maskBits: nat, matchValue: Hash): (r: Outcome<ObjectId>)
    ensures !r.NotFound?
    ensures r.Ok? ==> e.1 == EncodeMapping(Mapping(snap, r.value)) && Owns(maskBits, matchValue, r.value)
  {
    match FromRaw(e)
    case None => Fatal(Malformed)
    case Some(d) =>
      if d.0 != snap then Fatal(WrongSnap)
      else if !Owns(maskBits, matchValue, d.1) then Fatal(NotOwned)
      else Ok(d.1)
  }

  /** The objects of the visited entries, in order, or the first fault. */
  function CheckAll(es: seq<Entry>, snap: SnapId, maskBits: nat, matchValue: Hash): (r: Outcome<seq<ObjectId>>)
    ensures !r.NotFound?
    ensures r.Ok? ==> |r.value| == |es|
    decreases |es|
  {
    if es == [] then Ok([])
    else
      var first := Decoded(es[0], snap, maskBits, matchValue);
      if first.Fatal? then Fatal(first.fault)
      else
        var rest := CheckAll(es[1..], snap, maskBits, matchValue);
        if rest.Ok? then Ok([first.value] + rest.value) else rest
  }

  /** A mapping for `snap` of an owned object decodes to that object. */
  lemma DecodedComplete(e: Entry, snap: SnapId, maskBits: nat, matchValue: Hash, o: ObjectId)
    requires e.1 == EncodeMapping(Mapping(snap, o)) && Owns(maskBits, matchValue, o)
    ensures Decoded(e, snap, maskBits, matchValue) == Ok(o)
  {
  }

  /** CheckAll succeeds exactly when every entry decodes, and then lists the
      decoded objects in the order of the entries. */
  lemma {:induction false} CheckAllMeaning(es: seq<Entry>, snap: SnapId, maskBits: nat, matchValue: Hash)
    ensures var r := CheckAll(es, snap, maskBits, matchValue);
      && (r.Ok? ==> forall i :: 0 <= i < |es| ==> Decoded(es[i], snap, maskBits, matchValue) == Ok(r.value[i]))
      && (r.Fatal? <==> exists i :: 0 <= i < |es| && Decoded(es[i], snap, maskBits, matchValue).Fatal?)
    decreases |es|
  {
    if es != [] {
      CheckAllMeaning(es[1..], snap, maskBits, matchValue);
      assert forall i :: 1 <= i < |es| ==> es[i] == es[1..][i - 1];
    }
  }

  /** The same check, written the way the scan loops compute it: decode
      `es` in order after the objects `out` already collected. */
  function CheckFrom(out: seq<ObjectId>, es: seq<Entry>, snap: SnapId, maskBits: nat, matchValue: Hash): (r: Outcome<seq<ObjectId>>)
    ensures !r.NotFound?
    ensures r.Ok? ==> |r.value| == |out| + |es|
    decreases |es|
  {
    if es == [] then Ok(out)
    else
      var d := Decoded(es[0], snap, maskBits, matchValue);
      if d.Ok? then CheckFrom(out + [d.value], es[1..], snap, maskBits, matchValue)
      else Fatal(d.fault)
  }

  /** Collecting after `out` is collecting from nothing, with `out` put in front. */
  lemma {:induction false} CheckFromAll(out: seq<ObjectId>, es: seq<Entry>, snap: SnapId, maskBits: nat, matchValue: Hash)
    ensures var all := CheckAll(es, snap, maskBits, matchValue);
      CheckFrom(out, es, snap, maskBits, matchValue) == if all.Ok? then Ok(out + all.value) else all
    decreases |es|
  {
    if es == [] {
      assert out + [] == out;
    } else {
      var d := Decoded(es[0], snap, maskBits, matchValue);
      if d.Ok? {
        CheckFromAll(out + [d.value], es[1..], snap, maskBits, matchValue);
        var rest := CheckAll(es[1..], snap, maskBits, matchValue);
        if rest.Ok? {
          assert out + [d.value] + rest.value == out + ([d.value] + rest.value);
        }
      }
    }
  }

  /** One visited entry: its fault ends the check, or its object is collected. */
  lemma CheckFromStep(out: seq<ObjectId>, e: Entry, rest: seq<Entry>, snap: SnapId, maskBits: nat, matchValue: Hash)
    ensures var d := Decoded(e, snap, maskBits, matchValue);
      CheckFrom(out, [e] + rest, snap, maskBits, matchValue)
      == if d.Ok? then CheckFrom(out + [d.value], rest, snap, maskBits, matchValue) else Fatal(d.fault)
  {
    assert ([e] + rest)[0] == e && ([e] + rest)[1..] == rest;
  }

  /** Checking `a + b` checks `a`, then goes on with `b` unless `a` faulted. */
  lemma {:induction false} CheckFromAppend(out: seq<ObjectId>, a: seq<Entry>, b: seq<Entry>, snap: SnapId, maskBits: nat, matchValue: Hash)
    ensures var first := CheckFrom(out, a, snap, maskBits, matchValue);
      CheckFrom(out, a + b, snap, maskBits, matchValue)
      == if first.Ok? then CheckFrom(first.value, b, snap, maskBits, matchValue) else first
    decreases |a|
  {
    if a == [] {
      assert a + b == b;
    } else {
      assert (a + b)[0] == a[0] && (a + b)[1..] == a[1..] + b;
      var d := Decoded(a[0], snap, maskBits, matchValue);
      if d.Ok? {
        CheckFromAppend(out + [d.value], a[1..], b, snap, maskBits, matchValue);
      }
    }
  }

  // ---------------------------------------------------------------------
  // get_next_objects_to_trim

  /** The result on a committed store: the objects of the visited entries,
      NotFound when there are none, or the first fault. */
  ghost function Trim(db: Store, snap: SnapId, prefixes: seq<string>, max: nat, maskBits: nat, matchValue: Hash): (r: Outcome<seq<ObjectId>>)
    ensures r.Ok? ==> 0 < |r.value| <= max
    ensures max == 0 ==> r == NotFound
  {
    var es := ScanAll(db, Starts(snap, prefixes), max);
    var checked := CheckAll(es, snap, maskBits, matchValue);
    if checked.Ok? && checked.value == [] then NotFound else checked
  }

  /** One turn of the outer loop: check what the walk from the i-th start
      visits, then go on with the later starts unless that faulted or the
      store ended. */
  lemma CheckFromScanAll(db: Store, starts: seq<string>, i: nat, budget: nat, out: seq<ObjectId>,
                         snap: SnapId, maskBits: nat, matchValue: Hash)
    requires i < |starts| && budget > 0
    ensures var full := ScanPrefix(db, starts[i], starts[i], budget);
      var first := CheckFrom(out, full.0, snap, maskBits, matchValue);
      CheckFrom(out, ScanAll(db, starts[i..], budget), snap, maskBits, matchValue)
      == if first.Ok? && !full.1
         then CheckFrom(first.value, ScanAll(db, starts[i + 1..], budget - |full.0|), snap, maskBits, matchValue)
         else first
  {
    var full := ScanPrefix(db, starts[i], starts[i], budget);
    ScanAllAt(db, starts, i, budget);
    if !full.1 {
      CheckFromAppend(out, full.0, ScanAll(db, starts[i + 1..], budget - |full.0|), snap, maskBits, matchValue);
    }
  }

  /** What the outer scan loop yields from start `i` on, with the objects
      `out` found so far: while fewer than `max` are found, each start is
      scanned in turn, and a fault or the end of the store ends the loop. */
  ghost function TrimRest(db: Store, starts: seq<string>, i: nat, max: nat, out: seq<ObjectId>,
                          snap: SnapId, maskBits: nat, matchValue: Hash): Outcome<seq<ObjectId>>
    requires i <= |starts|
    decreases |starts| - i
  {
    if i == |starts| || |out| >= max then Ok(out)
    else
      var full := ScanPrefix(db, starts[i], starts[i], max - |out|);
      var first := CheckFrom(out, full.0, snap, maskBits, matchValue);
      if first.Ok? && !full.1 then TrimRest(db, starts, i + 1, max, first.value, snap, maskBits, matchValue)
      else first
  }

  /** One round of the outer loop, with the remaining budget named. */
  lemma TrimRestStep(db: Store, starts: seq<string>, i: nat, max: nat, out: seq<ObjectId>,
                     budget: nat, snap: SnapId, maskBits: nat, matchValue: Hash)
    requires i < |starts| && budget == max - |out| && budget > 0
    ensures var full := ScanPrefix(db, starts[i], starts[i], budget);
      var first := CheckFrom(out, full.0, snap, maskBits, matchValue);
      TrimRest(db, starts, i, max, out, snap, maskBits, matchValue)
      == if first.Ok? && !full.1 then TrimRest(db, starts, i + 1, max, first.value, snap, maskBits, matchValue)
         else first
  {
  }

  /** The loop's view agrees with checking the whole scan after `out`,
      with `budget` the number of objects still wanted. */
  lemma {:induction false} TrimRestIsCheckFrom(db: Store, starts: seq<string>, i: nat, max: nat, out: seq<ObjectId>,
                                               budget: nat, snap: SnapId, maskBits: nat, matchValue: Hash)
    requires i <= |starts| && |out| <= max && budget == max - |out|
    ensures TrimRest(db, starts, i, max, out, snap, maskBits, matchValue)
            == CheckFrom(out, ScanAll(db, starts[i..], budget), snap, maskBits, matchValue)
    decreases |starts| - i
  {
    if i == |starts| || budget == 0 {
      assert ScanAll(db, starts[i..], budget) == [];
    } else {
      var full := ScanPrefix(db, starts[i], starts[i], budget);
      CheckFromScanAll(db, starts, i, budget, out, snap, maskBits, matchValue);
      TrimRestStep(db, starts, i, max, out, budget, snap, maskBits, matchValue);
      var first := CheckFrom(out, full.0, snap, maskBits, matchValue);
      if first.Ok? && !full.1 {
        TrimRestIsCheckFrom(db, starts, i + 1, max, first.value, budget - |full.0|, snap, maskBits, matchValue);
      }
    }
  }

  /** Trim in the left-to-right form the scan loop computes. */
  lemma TrimFrom(db: Store, snap: SnapId, prefixes: seq<string>, max: nat, maskBits: nat, matchValue: Hash)
    ensures var t := TrimRest(db, Starts(snap, prefixes), 0, max, [], snap, maskBits, matchValue);
      Trim(db, snap, prefixes, max, maskBits, matchValue) == if t.Ok? && t.value == [] then NotFound else t
  {
    var starts := Starts(snap, prefixes);
    var es := ScanAll(db, starts, max);
    TrimRestIsCheckFrom(db, starts, 0, max, [], max, snap, maskBits, matchValue);
    assert starts[0..] == starts;
    CheckFromAll([], es, snap, maskBits, matchValue);
    var all := CheckAll(es, snap, maskBits, matchValue);
    if all.Ok? {
      assert [] + all.value == all.value;
    }
  }

  /** Every key under a scan start is a mapping key, so the is_mapping
      assert of the scan never fires. */
  lemma ScannedKeyIsMapping(snap: SnapId, p: string, k: string)
    requires IsPrefix(GetPrefix(snap) + p, k)
    ensures IsMapping(k)
  {
    GetPrefixLayout(snap);
    assert k[..4] == (GetPrefix(snap) + p)[..4] == GetPrefix(snap)[..4];
  }

  /** Every object returned is owned, and is the object of a stored mapping
      for `snap` under the scan start of one of the owned prefixes. */
  lemma TrimSound(db: Store, snap: SnapId, prefixes: seq<string>, max: nat, maskBits: nat, matchValue: Hash)
    ensures var r := Trim(db, snap, prefixes, max, maskBits, matchValue);
      r.Ok? ==> forall i :: 0 <= i < |r.value| ==>
        && Owns(maskBits, matchValue, r.value[i])
        && exists k :: k in db && db[k] == EncodeMapping(Mapping(snap, r.value[i]))
                       && UnderSomeStart(Starts(snap, prefixes), k)
  {
    var r := Trim(db, snap, prefixes, max, maskBits, matchValue);
    var es := ScanAll(db, Starts(snap, prefixes), max);
    ScanAllSound(db, Starts(snap, prefixes), max);
    CheckAllMeaning(es, snap, maskBits, matchValue);
    if r.Ok? {
      forall i | 0 <= i < |r.value|
        ensures exists k :: k in db && db[k] == EncodeMapping(Mapping(snap, r.value[i]))
                            && UnderSomeStart(Starts(snap, prefixes), k)
      {
        assert es[i] in es;
      }
    }
  }

  /** Nothing is missed: when the scan returns fewer than `max` objects
      (NotFound included), every stored key that strictly extends the scan
      start of an owned prefix holds the mapping of a returned object. With
      max > 0, NotFound means no such key is left. */
  lemma TrimComplete(db: Store, snap: SnapId, prefixes: seq<string>, max: nat, maskBits: nat, matchValue: Hash)
    requires Ascending(prefixes)
    ensures var r := Trim(db, snap, prefixes, max, maskBits, matchValue);
      r.Ok? && |r.value| < max ==>
        forall p, k :: p in Starts(snap, prefixes) && k in db && IsPrefix(p, k) && k != p ==>
          exists i :: 0 <= i < |r.value| && db[k] == EncodeMapping(Mapping(snap, r.value[i]))
    ensures Trim(db, snap, prefixes, max, maskBits, matchValue) == NotFound && max > 0 ==>
        forall p, k :: p in Starts(snap, prefixes) && k in db ==> !IsPrefix(p, k) || k == p
  {
    var r := Trim(db, snap, prefixes, max, maskBits, matchValue);
    var starts := Starts(snap, prefixes);
    StartsAscending(snap, prefixes);
    var es := ScanAll(db, starts, max);
    ScanAllSound(db, starts, max);
    ScanAllComplete(db, starts, max);
    CheckAllMeaning(es, snap, maskBits, matchValue);
    if |es| < max {
      forall p, k | p in starts && k in db && IsPrefix(p, k) && k != p
        ensures exists i :: 0 <= i < |es| && es[i] == (k, db[k])
      {
        assert k in KeysOf(es);
        var e :| e in es && e.0 == k;
      }
    }
  }

  /** Ascending owned prefixes give ascending scan starts. */
  lemma StartsAscending(snap: SnapId, prefixes: seq<string>)
    requires Ascending(prefixes)
    ensures Ascending(Starts(snap, prefixes))
  {
    var starts := Starts(snap, prefixes);
    forall i, j | 0 <= i < j < |starts|
      ensures Less(starts[i], starts[j])
    {
      LessCommonPrefix(GetPrefix(snap), prefixes[i], prefixes[j]);
    }
  }

  /** Owned prefixes none of which extends another give scan starts with
      the same property. */
  lemma StartsPrefixFree(snap: SnapId, prefixes: seq<string>)
    requires PrefixFree(prefixes)
    ensures PrefixFree(Starts(snap, prefixes))
  {
    var starts := Starts(snap, prefixes);
    forall i, j | 0 <= i < j < |starts|
      ensures !IsPrefix(starts[i], starts[j])
    {
      StripCommonPrefix(GetPrefix(snap), prefixes[i], prefixes[j]);
    }
  }

  lemma StripCommonPrefix(g: string, x: string, y: string)
    ensures IsPrefix(g + x, g + y) ==> IsPrefix(x, y)
  {
    if IsPrefix(g + x, g + y) {
      assert (g + y)[..|g + x|][|g|..] == y[..|x|];
      assert (g + x)[|g|..] == x;
    }
  }

  /** With ascending owned prefixes none of which extends another, the scan
      visits keys in strictly increasing order: no key, and so no mapping,
      is returned twice. */
  lemma TrimVisitsInOrder(db: Store, snap: SnapId, prefixes: seq<string>, max: nat)
    requires Ascending(prefixes) && PrefixFree(prefixes)
    ensures Increasing(ScanAll(db, Starts(snap, prefixes), max))
  {
    StartsAscending(snap, prefixes);
    StartsPrefixFree(snap, prefixes);
    ScanAllIncreasing(db, Starts(snap, prefixes), max);
  }
}
