/**
 Expiry (ledis/t_ttl.go). An expiry is recorded twice: under its key, with the time, and under the
 time, so that a scan in time order finds what is due. A later expiry of the same key leaves the
 earlier time record behind, and the scan takes a missing record under the key for the time zero.
 */
module Expiry {
  import opened Bytes
  import opened Keys
  import opened Batches
  import opened Ranges
  import opened Database
  import opened Records
  import Lists
  import ZSets
  import Collections

  /** How far ahead of the clock a scan looks. */
  const HORIZON: int := 3600

  // ---------------------------------------------------------------- recording and removing

  function ExpireOps(d: nat, t: DataType, key: bytes, when: int): (ops: Ops) {
    var mk := ExpMetaKey(d, t.Code(), key);
    [Put(ExpTimeKey(d, when, t.Code(), key), KeyVal(mk)), Put(mk, IntVal(when))]
  }

  /** The recorded expiry of a key. */
  function Recorded(s: Store, d: nat, t: DataType, key: bytes): (r: Option<int>) {
    var mk := ExpMetaKey(d, t.Code(), key);
    if mk in s then Some(GetInt(s, mk)) else None
  }

  predicate HasTimeKey(s: Store, d: nat, t: DataType, key: bytes, when: int) {
    ExpTimeKey(d, when, t.Code(), key) in s
  }

  /** Every recorded expiry has its time record. */
  ghost predicate Paired(s: Store, d: nat) {
    forall t: DataType, key: bytes ::
      Recorded(s, d, t, key).Some? ==> HasTimeKey(s, d, t, key, Recorded(s, d, t, key).value)
  }

  /** Names that xExpireAt lets through, on every expiry record. */
  ghost predicate Bounded(s: Store, d: nat) {
    forall k: Key :: k in s && k.db == d && IsExpiry(k) ==> TypeOf(k.kind.dataType).Some? && KeySizeOK(k.kind.key)
  }

  ghost predicate TInv(s: Store, d: nat) {
    Whole(s, d) && Paired(s, d) && Bounded(s, d)
  }

  /** An expiry that the checks are to meet: one on record, from the epoch on. */
  predicate ToMeet(s: Store, d: nat, t: DataType, key: bytes) {
    Recorded(s, d, t, key).Some? && 0 <= Recorded(s, d, t, key).value
  }

  /** The next check comes no later than any expiry it is to meet. */
  ghost predicate InTime(s: Store, d: nat, nc: int) {
    forall t: DataType, key: bytes :: ToMeet(s, d, t, key) ==> nc <= Recorded(s, d, t, key).value
  }

  // ---------------------------------------------------------------- one time record

  /** What the scan does with one time record that is due. */
  ghost function ExpireOne(s: Store, d: nat, t: DataType, key: bytes, when: int, now: int): (u: Store)
    requires Whole(s, d) && |key| <= MAX_KEY_SIZE
  {
    var mk := ExpMetaKey(d, t.Code(), key);
    if GetInt(s, mk) > now then s
    else Apply(s, DeleteOps(s, d, t, key) + [Delete(ExpTimeKey(d, when, t.Code(), key)), Delete(mk)])
  }

  lemma ExpireOneAt(s: Store, d: nat, t: DataType, key: bytes, when: int, now: int, k: Key)
    requires Whole(s, d) && |key| <= MAX_KEY_SIZE
    ensures var mk := ExpMetaKey(d, t.Code(), key);
            Lookup(ExpireOne(s, d, t, key, when, now), k) ==
            if GetInt(s, mk) > now then Lookup(s, k)
            else if IsData(d, t, key, k) || k == mk || k == ExpTimeKey(d, when, t.Code(), key) then None
            else if t.ZSetData? && mk in s && k == ExpTimeKey(d, GetInt(s, mk), ZSET_TYPE, key) then None
            else Lookup(s, k)
  {
    hide Apply, DeleteOps, Whole, IsData;
    var mk, ops := ExpMetaKey(d, t.Code(), key), DeleteOps(s, d, t, key);
    var a, b: Op<Key, Val> := Delete(ExpTimeKey(d, when, t.Code(), key)), Delete(mk);
    DeletedAt(s, d, t, key, k);
    ApplyAppend(s, ops, [a, b]);
    ApplyFew(Apply(s, ops), a, b, b);
  }

  lemma ExpireOneErases(s: Store, d: nat, t: DataType, key: bytes, when: int, now: int)
    requires Whole(s, d) && |key| <= MAX_KEY_SIZE
    ensures var u := ExpireOne(s, d, t, key, when, now);
            Whole(u, d) && (forall k: Key :: k in u ==> Lookup(u, k) == Lookup(s, k))
  {
    hide ExpireOne, Whole, IsData;
    var u := ExpireOne(s, d, t, key, when, now);
    forall k: Key ensures k in u ==> Lookup(u, k) == Lookup(s, k) {
      ExpireOneAt(s, d, t, key, when, now, k);
      assert k in u <==> Lookup(u, k).Some?;
    }
    if GetInt(s, ExpMetaKey(d, t.Code(), key)) > now {
      Unchanged(s, d, t, key, when, now);
    } else {
      forall k: Key | !IsExpiry(k) ensures Lookup(u, k) == if IsData(d, t, key, k) then None else Lookup(s, k) {
        ExpireOneAt(s, d, t, key, when, now, k);
      }
      ErasedWhole(s, u, d, t, key);
    }
  }

  lemma Unchanged(s: Store, d: nat, t: DataType, key: bytes, when: int, now: int)
    requires Whole(s, d) && |key| <= MAX_KEY_SIZE && GetInt(s, ExpMetaKey(d, t.Code(), key)) > now
    ensures ExpireOne(s, d, t, key, when, now) == s
  {
  }

  // ---------------------------------------------------------------- the scan

  function TimeRangeOf(d: nat, limit: int): (r: Range)
    requires d <= MAX_DATABASES && IsInt64(limit)
  {
    Range(At(Encode(Key(d, ExpTime(0, NONE_TYPE, [])))), At(Encode(Key(d, ExpTime(limit, MAX_DATA_TYPE, [])))), false,
        true)
  }

  /** The time records a check looks at, in order of time. */
  ghost function Scanned(s: Store, d: nat, now: int): (ks: seq<Key>)
    requires ValidStore(s) && d <= MAX_DATABASES && 0 <= now && IsInt64(now + HORIZON)
  {
    Matching(s, TimeRangeOf(d, now + HORIZON))
  }

  predicate IsTimeKey(d: nat, k: Key) {
    k.db == d && k.kind.ExpTime? && TypeOf(k.kind.dataType).Some? && KeySizeOK(k.kind.key)
  }

  predicate AreTimeKeys(d: nat, ks: seq<Key>) {
    forall i :: 0 <= i < |ks| ==> IsTimeKey(d, ks[i])
  }

  lemma ScannedAre(s: Store, d: nat, now: int, k: Key)
    requires ValidStore(s) && Bounded(s, d) && d <= MAX_DATABASES && 0 <= now && IsInt64(now + HORIZON)
    ensures k in Scanned(s, d, now) <==> k in s && k.db == d && k.kind.ExpTime? && 0 <= k.kind.when <= now + 3600
  {
    hide Matching, Encode, Lt;
    var r := TimeRangeOf(d, now + HORIZON);
    MatchingElements(s, r, k);
    if k in s {
      assert ValidRecord(k, s[k]);
      TimeRange(d, now + HORIZON, k);
      if k.db == d && k.kind.ExpTime? { SmallCode(k.kind.dataType); }
    }
  }

  lemma SmallCode(b: byte)
    ensures TypeOf(b).Some? ==> b < MAX_DATA_TYPE
  {
  }

  lemma ScannedTimes(s: Store, d: nat, now: int)
    requires ValidStore(s) && Bounded(s, d) && d <= MAX_DATABASES && 0 <= now && IsInt64(now + HORIZON)
    ensures AreTimeKeys(d, Scanned(s, d, now))
    ensures forall i, j :: 0 <= i < j < |Scanned(s, d, now)| ==>
              Scanned(s, d, now)[i].kind.when <= Scanned(s, d, now)[j].kind.when
  {
    hide Scanned, Encode, Lt, KeySizeOK, TypeOf, ValidStore;
    var ks := Scanned(s, d, now);
    forall i | 0 <= i < |ks| ensures IsTimeKey(d, ks[i]) && 0 <= ks[i].kind.when && ks[i] in s {
      assert ks[i] in ks;
      ScannedAre(s, d, now, ks[i]);
    }
    forall i, j | 0 <= i < j < |ks| ensures ks[i].kind.when <= ks[j].kind.when {
      ScannedOrder(s, d, now, i, j);
    }
  }

  lemma ScannedOrder(s: Store, d: nat, now: int, i: int, j: int)
    requires ValidStore(s) && d <= MAX_DATABASES && 0 <= now && IsInt64(now + HORIZON) &&
              0 <= i < j < |Scanned(s, d, now)|
    requires var a, b := Scanned(s, d, now)[i], Scanned(s, d, now)[j];
             a.db == d && b.db == d && a.kind.ExpTime? && b.kind.ExpTime? && 0 <= a.kind.when && 0 <= b.kind.when
    ensures Scanned(s, d, now)[i].kind.when <= Scanned(s, d, now)[j].kind.when
  {
    hide Matching, Encode, Lt;
    var a, b := Scanned(s, d, now)[i], Scanned(s, d, now)[j];
    MatchingSorted(s, TimeRangeOf(d, now + HORIZON), i, j);
    assert ValidRecord(a, s[a]) && ValidRecord(b, s[b]);
    assert a == Key(d, a.kind) && b == Key(d, b.kind);
    if b.kind.when < a.kind.when {
      TimeKeyOrder(d, b.kind, a.kind);
      LtAsymmetric(Encode(a), Encode(b));
    }
  }

  /** The store after the first records of a scan, all of them due. */
  ghost function ExpireAll(s: Store, d: nat, ks: seq<Key>, now: int): (u: Store)
    requires Whole(s, d) && AreTimeKeys(d, ks)
    ensures Whole(u, d)
  {
    if ks == [] then s
    else
      var n := |ks| - 1;
      var t := ExpireAll(s, d, ks[..n], now);
      var k := ks[n].kind;
      ExpireOneErases(t, d, TypeOf(k.dataType).value, k.key, k.when, now);
      ExpireOne(t, d, TypeOf(k.dataType).value, k.key, k.when, now)
  }

  /** The scan stops at the first record that is not due. */
  function DueCount(ks: seq<Key>, now: int): (n: nat)
    requires forall i :: 0 <= i < |ks| ==> ks[i].kind.ExpTime?
    ensures n <= |ks| && (n < |ks| ==> ks[n].kind.when > now)
    ensures forall i :: 0 <= i < n ==> ks[i].kind.when <= now
  {
    if ks == [] || ks[0].kind.when > now then 0 else 1 + DueCount(ks[1..], now)
  }

  // ---------------------------------------------------------------- what a scan removes

  /** Data and expiry records of one key. */
  predicate Owns(d: nat, t: DataType, key: bytes, k: Key) {
    IsData(d, t, key, k) || (k.db == d && IsExpiry(k) && k.kind.dataType == t.Code() && k.kind.key == key)
  }

  lemma OneOwner(d: nat, t: DataType, key: bytes, t': DataType, key': bytes, k: Key)
    requires Owns(d, t, key, k) && Owns(d, t', key', k)
    ensures t == t' && key == key'
  {
    if IsData(d, t, key, k) && IsData(d, t', key', k) { DataOwner(d, t, key, t', key', k); }
    if IsData(d, t, key, k) { DataOwner(d, t, key, t, key, k); }
    if IsData(d, t', key', k) { DataOwner(d, t', key', t', key', k); }
  }

  /** A time record of the key. */
  predicate IsTimeOf(t: DataType, key: bytes, k: Key) {
    k.kind.ExpTime? && k.kind.dataType == t.Code() && k.kind.key == key
  }

  predicate Hit(t: DataType, key: bytes, ks: seq<Key>) {
    exists i :: 0 <= i < |ks| && IsTimeOf(t, key, ks[i])
  }

  /** One step of the scan, seen from one key. */
  lemma StepAt(s: Store, d: nat, t: DataType, key: bytes, now: int, x: Key, k: Key)
    requires Whole(s, d) && IsTimeKey(d, x) && Owns(d, t, key, k)
    ensures var u := ExpireOne(s, d, TypeOf(x.kind.dataType).value, x.kind.key, x.kind.when, now);
            LeftBy(IsTimeOf(t, key, x), GetInt(s, ExpMetaKey(d, t.Code(), key)) <= now, Goes(k, [x]),
                   Lookup(s, k), Lookup(u, k))
  {
    hide Whole, ExpireOne, IsData;
    var T, K := TypeOf(x.kind.dataType).value, x.kind.key;
    ExpireOneAt(s, d, T, K, x.kind.when, now, k);
    CodeIsType(t);
    if Owns(d, T, K, k) { OneOwner(d, t, key, T, K, k); }
    assert x == ExpTimeKey(d, x.kind.when, T.Code(), K);
  }

  lemma CodeIsType(t: DataType)
    ensures TypeOf(t.Code()) == Some(t)
  {
  }

  /** What is left of one record: nothing changes unless its key was hit and due; then what has to go is gone. */
  predicate LeftBy(hit: bool, due: bool, goes: bool, before: Option<Val>, after: Option<Val>) {
    if hit && due then (goes ==> after == None) && (after == None || after == before) else after == before
  }

  lemma LeftStep(hit: bool, own: bool, due: bool, dueNow: bool, goes: bool, goesNow: bool,
        before: Option<Val>, mid: Option<Val>, after: Option<Val>)
    requires LeftBy(hit, due, goes, before, mid) && dueNow == due
    requires LeftBy(own, dueNow, goesNow, mid, after)
    requires (goesNow && !goes ==> own) && (goes && !goesNow ==> hit)
    ensures LeftBy(hit || own, due, goes || goesNow, before, after)
  {
  }

  /** A record that a scan with the keys `ks` takes away from a key that is hit and due. */
  predicate Goes(k: Key, ks: seq<Key>) { !k.kind.ExpTime? || k in ks }

  /** The whole scan, seen from one key: nothing, or all of its data. */
  lemma {:induction false} ExpireAllAt(s: Store, d: nat, ks: seq<Key>, now: int, t: DataType, key: bytes, k: Key)
    requires Whole(s, d) && AreTimeKeys(d, ks) && Owns(d, t, key, k) && 0 <= now
    ensures LeftBy(Hit(t, key, ks), GetInt(s, ExpMetaKey(d, t.Code(), key)) <= now, Goes(k, ks),
                   Lookup(s, k), Lookup(ExpireAll(s, d, ks, now), k))
  {
    if ks != [] {
      hide Whole, ExpireOne, Owns, IsTimeOf;
      var n := |ks| - 1;
      var front, x, mk := ks[..n], ks[n], ExpMetaKey(d, t.Code(), key);
      var a := ExpireAll(s, d, front, now);
      var u := ExpireOne(a, d, TypeOf(x.kind.dataType).value, x.kind.key, x.kind.when, now);
      assert ExpireAll(s, d, ks, now) == u;
      hide ExpireAll, Hit, IsTimeKey, GetInt, AreTimeKeys, TypeOf;
      TimeKeyAt(d, ks, n);
      ExpireAllAt(s, d, front, now, t, key, k);
      OwnsMeta(d, t, key);
      ExpireAllAt(s, d, front, now, t, key, mk);
      StepAt(a, d, t, key, now, x, k);
      HitStep(t, key, ks);
      assert k in ks <==> k in front || k == x;
      SameInt(a, s, mk);
      if k == x { TimeOwner(d, t, key, k); }
      OwnTimeHits(d, t, key, k, front);
      LeftStep(Hit(t, key, front), IsTimeOf(t, key, x), GetInt(s, mk) <= now, GetInt(a, mk) <= now,
               Goes(k, front), Goes(k, [x]), Lookup(s, k), Lookup(a, k), Lookup(u, k));
    }
  }

  lemma OwnTimeHits(d: nat, t: DataType, key: bytes, k: Key, ks: seq<Key>)
    requires Owns(d, t, key, k)
    ensures k.kind.ExpTime? && k in ks ==> Hit(t, key, ks)
  {
    if k.kind.ExpTime? && k in ks {
      TimeOwner(d, t, key, k);
      var i :| 0 <= i < |ks| && ks[i] == k;
      assert IsTimeOf(t, key, ks[i]);
    }
  }

  lemma SameInt(a: Store, s: Store, k: Key)
    ensures Lookup(a, k) == Lookup(s, k) ==> GetInt(a, k) == GetInt(s, k)
    ensures Lookup(a, k) == None ==> GetInt(a, k) == 0
  {
  }

  lemma TimeKeyAt(d: nat, ks: seq<Key>, i: nat)
    requires AreTimeKeys(d, ks) && i < |ks|
    ensures IsTimeKey(d, ks[i]) && AreTimeKeys(d, ks[..i])
  {
  }

  lemma OwnsMeta(d: nat, t: DataType, key: bytes)
    ensures Owns(d, t, key, ExpMetaKey(d, t.Code(), key))
  {
  }

  lemma TimeOwner(d: nat, t: DataType, key: bytes, k: Key)
    requires Owns(d, t, key, k) && k.kind.ExpTime?
    ensures IsTimeOf(t, key, k)
  {
    if IsData(d, t, key, k) { DataOwner(d, t, key, t, key, k); }
  }

  lemma HitStep(t: DataType, key: bytes, ks: seq<Key>)
    requires ks != []
    ensures var n := |ks| - 1; Hit(t, key, ks) <==> Hit(t, key, ks[..n]) || IsTimeOf(t, key, ks[n])
  {
    var n := |ks| - 1;
    if Hit(t, key, ks[..n]) {
      var i :| 0 <= i < n && IsTimeOf(t, key, ks[..n][i]);
      assert IsTimeOf(t, key, ks[i]);
    }
    if Hit(t, key, ks) && !IsTimeOf(t, key, ks[n]) {
      var i :| 0 <= i < |ks| && IsTimeOf(t, key, ks[i]);
      assert ks[..n][i] == ks[i];
    }
  }

  /** A scan writes nothing: what is left is as it was. */
  lemma {:induction false} ExpireAllSubset(s: Store, d: nat, ks: seq<Key>, now: int, k: Key)
    requires Whole(s, d) && AreTimeKeys(d, ks)
    ensures k in ExpireAll(s, d, ks, now) ==> Lookup(ExpireAll(s, d, ks, now), k) == Lookup(s, k)
  {
    if ks != [] {
      hide Whole, ExpireOne;
      var n := |ks| - 1;
      ExpireAllSubset(s, d, ks[..n], now, k);
      var x := ks[n].kind;
      ExpireOneErases(ExpireAll(s, d, ks[..n], now), d, TypeOf(x.dataType).value, x.key, x.when, now);
    }
  }

  // ---------------------------------------------------------------- check

  predicate ClockOK(now: int) { 0 <= now && IsInt64(now + HORIZON) }

  /** The time records that a check at `now` acts on. */
  ghost function DueKeys(s: Store, d: nat, now: int): (ks: seq<Key>)
    requires TInv(s, d) && ClockOK(now)
    ensures AreTimeKeys(d, ks)
  {
    ScannedTimes(s, d, now);
    var ks := Scanned(s, d, now);
    ks[..DueCount(ks, now)]
  }

  /** The store after a check that finds the time come. */
  ghost function Checked(s: Store, d: nat, now: int): (u: Store)
    requires TInv(s, d) && ClockOK(now)
  {
    ExpireAll(s, d, DueKeys(s, d, now), now)
  }

  /** The next time a check looks: the first record ahead, or the end of the horizon. */
  ghost function NextCheck(s: Store, d: nat, now: int): (nc: int)
    requires TInv(s, d) && ClockOK(now)
  {
    ScannedTimes(s, d, now);
    var ks := Scanned(s, d, now);
    if DueCount(ks, now) < |ks| then ks[DueCount(ks, now)].kind.when else now + HORIZON
  }

  lemma DueKeysAre(s: Store, d: nat, now: int, k: Key)
    requires TInv(s, d) && ClockOK(now)
    ensures k in DueKeys(s, d, now) <==> k in s && k.db == d && k.kind.ExpTime? && 0 <= k.kind.when <= now
  {
    hide Scanned, Whole, Paired;
    WholeParts(s, d, []);
    ScannedTimes(s, d, now);
    ScannedAre(s, d, now, k);
    var ks := Scanned(s, d, now);
    var n := DueCount(ks, now);
    if k in ks {
      var i :| 0 <= i < |ks| && ks[i] == k;
      if i < n { assert ks[..n][i] == k; }
      if n <= i { assert ks[n].kind.when <= ks[i].kind.when; }
    }
    if k in ks[..n] {
      var i :| 0 <= i < n && ks[..n][i] == k;
      assert ks[i] == k && k in ks;
    }
  }

  /** A time record of the key has come. */
  ghost predicate Come(s: Store, d: nat, t: DataType, key: bytes, now: int) {
    exists when :: 0 <= when <= now && HasTimeKey(s, d, t, key, when)
  }

  /** A key falls to a check: it has a time record that has come, and no later expiry on record. */
  ghost predicate Due(s: Store, d: nat, t: DataType, key: bytes, now: int) {
    GetInt(s, ExpMetaKey(d, t.Code(), key)) <= now && Come(s, d, t, key, now)
  }

  lemma DueIsHit(s: Store, d: nat, t: DataType, key: bytes, now: int)
    requires TInv(s, d) && ClockOK(now)
    ensures Come(s, d, t, key, now) <==> Hit(t, key, DueKeys(s, d, now))
  {
    hide DueKeys, TInv;
    var ks := DueKeys(s, d, now);
    if when :| 0 <= when <= now && HasTimeKey(s, d, t, key, when) {
      var k := ExpTimeKey(d, when, t.Code(), key);
      DueKeysAre(s, d, now, k);
      var i :| 0 <= i < |ks| && ks[i] == k;
      assert IsTimeOf(t, key, ks[i]);
    }
    if Hit(t, key, ks) {
      var i :| 0 <= i < |ks| && IsTimeOf(t, key, ks[i]);
      assert ks[i] in ks;
      DueKeysAre(s, d, now, ks[i]);
      assert ks[i] == ExpTimeKey(d, ks[i].kind.when, t.Code(), key);
      assert HasTimeKey(s, d, t, key, ks[i].kind.when);
    }
  }

  /**
   A check removes all data of a key, its recorded expiry and its time records that have come,
   exactly if the key is due; every record of a key that is not due stays as it is.
   */
  lemma CheckExact(s: Store, d: nat, now: int, t: DataType, key: bytes, k: Key)
    requires TInv(s, d) && ClockOK(now) && Owns(d, t, key, k)
    ensures var u := Checked(s, d, now);
            if !Due(s, d, t, key, now) then Lookup(u, k) == Lookup(s, k)
            else (!k.kind.ExpTime? || 0 <= k.kind.when <= now ==> k !in u) && (k in u ==> Lookup(u, k) == Lookup(s, k))
  {
    hide DueKeys, TInv, Whole, ExpireAll, Hit, IsTimeOf, HasTimeKey;
    TInvWhole(s, d);
    var ks, u := DueKeys(s, d, now), Checked(s, d, now);
    ExpireAllAt(s, d, ks, now, t, key, k);
    DueIsHit(s, d, t, key, now);
    DueKeysAre(s, d, now, k);
    OwnedDb(d, t, key, k);
    assert k in u <==> Lookup(u, k).Some?;
    assert k in s <==> Lookup(s, k).Some?;
  }

  lemma OwnedDb(d: nat, t: DataType, key: bytes, k: Key)
    requires Owns(d, t, key, k)
    ensures k.db == d
  {
  }

  lemma TInvWhole(s: Store, d: nat)
    requires TInv(s, d)
    ensures Whole(s, d) && ValidStore(s)
  {
    WholeParts(s, d, []);
  }

  /**
   With every expiry paired, what is recorded later stays. What is recorded to expire by now goes if
   and only if the time is not negative, or an earlier expiry left a time record that has come.
   */
  lemma RecordedDecides(s: Store, d: nat, now: int, t: DataType, key: bytes)
    requires TInv(s, d) && ClockOK(now) && Recorded(s, d, t, key).Some?
    ensures var w := Recorded(s, d, t, key).value;
            Due(s, d, t, key, now) <==> w <= now && (0 <= w || Come(s, d, t, key, now))
  {
    hide Whole, Bounded;
    var w := Recorded(s, d, t, key).value;
    assert HasTimeKey(s, d, t, key, w);
  }

  /** Without a recorded expiry, a key goes exactly if some time record of it has come. */
  lemma UnrecordedDecides(s: Store, d: nat, now: int, t: DataType, key: bytes)
    requires TInv(s, d) && ClockOK(now) && Recorded(s, d, t, key).None?
    ensures Due(s, d, t, key, now) <==> Come(s, d, t, key, now)
  {
  }

  // ---------------------------------------------------------------- invariants

  /** A check keeps the invariants and never sets the next check past a recorded expiry. */
  lemma CheckKeeps(s: Store, d: nat, now: int)
    requires TInv(s, d) && ClockOK(now)
    ensures TInv(Checked(s, d, now), d) && InTime(Checked(s, d, now), d, NextCheck(s, d, now)) &&
              now < NextCheck(s, d, now)
  {
    hide Whole, ExpireAll, NextCheck, DueKeys;
    var u, nc := Checked(s, d, now), NextCheck(s, d, now);
    forall k: Key ensures k in u ==> k in s && Lookup(u, k) == Lookup(s, k) {
      ExpireAllSubset(s, d, DueKeys(s, d, now), now, k);
    }
    assert Whole(u, d);
    NextCheckAhead(s, d, now);
    forall t: DataType, key: bytes | Recorded(u, d, t, key).Some?
      ensures Recorded(u, d, t, key) == Recorded(s, d, t, key)
      ensures HasTimeKey(u, d, t, key, Recorded(u, d, t, key).value)
      ensures ToMeet(u, d, t, key) ==> nc <= Recorded(u, d, t, key).value
    {
      StillRecorded(s, d, now, t, key);
    }
  }

  lemma StillRecorded(s: Store, d: nat, now: int, t: DataType, key: bytes)
    requires TInv(s, d) && ClockOK(now) && Recorded(Checked(s, d, now), d, t, key).Some?
    ensures var u := Checked(s, d, now);
            && Recorded(u, d, t, key) == Recorded(s, d, t, key)
            && HasTimeKey(u, d, t, key, Recorded(u, d, t, key).value)
            && (ToMeet(u, d, t, key) ==> NextCheck(s, d, now) <= Recorded(u, d, t, key).value)
  {
    hide Whole, Checked, NextCheck;
    var u, mk := Checked(s, d, now), ExpMetaKey(d, t.Code(), key);
    OwnsMeta(d, t, key);
    CheckExact(s, d, now, t, key, mk);
    assert Lookup(u, mk) == Lookup(s, mk);
    RecordedDecides(s, d, now, t, key);
    var w := Recorded(s, d, t, key).value;
    assert HasTimeKey(s, d, t, key, w);
    var tk := ExpTimeKey(d, w, t.Code(), key);
    CheckExact(s, d, now, t, key, tk);
    assert Lookup(u, tk) == Lookup(s, tk);
    if 0 <= w { NextCheckIsNear(s, d, now, tk); }
  }

  lemma NextCheckAhead(s: Store, d: nat, now: int)
    requires TInv(s, d) && ClockOK(now)
    ensures now < NextCheck(s, d, now) <= now + 3600
  {
    hide Scanned, Whole, Paired;
    WholeParts(s, d, []);
    ScannedTimes(s, d, now);
    var ks := Scanned(s, d, now);
    var n := DueCount(ks, now);
    if n < |ks| { assert ks[n] in ks; ScannedAre(s, d, now, ks[n]); }
  }

  /** The next check is no later than any time record ahead. */
  lemma NextCheckIsNear(s: Store, d: nat, now: int, k: Key)
    requires TInv(s, d) && ClockOK(now) && k in s && k.db == d && k.kind.ExpTime? && now < k.kind.when
    ensures NextCheck(s, d, now) <= k.kind.when
  {
    hide Scanned, Whole, Paired;
    WholeParts(s, d, []);
    ScannedTimes(s, d, now);
    ScannedAre(s, d, now, k);
    var ks := Scanned(s, d, now);
    var n := DueCount(ks, now);
    if n < |ks| { assert ks[n] in ks; ScannedAre(s, d, now, ks[n]); }
    if k in ks {
      var i :| 0 <= i < |ks| && ks[i] == k;
      assert n <= i;
      assert n < i ==> ks[n].kind.when <= ks[i].kind.when;
    }
  }

  function Lowered(nc: int, when: int): (r: int) { if nc > when then when else nc }

  /** expireAt, once committed. */
  function Expiring(s: Store, d: nat, t: DataType, key: bytes, when: int): (u: Store) {
    Apply(s, ExpireOps(d, t, key, when))
  }

  lemma ExpiringAt(s: Store, d: nat, t: DataType, key: bytes, when: int, k: Key)
    ensures var mk := ExpMetaKey(d, t.Code(), key);
            Lookup(Expiring(s, d, t, key, when), k) ==
            if k == mk then Some(IntVal(when))
            else if k == ExpTimeKey(d, when, t.Code(), key) then Some(KeyVal(mk))
            else Lookup(s, k)
  {
    var mk := ExpMetaKey(d, t.Code(), key);
    var a, b: Op<Key, Val> := Put(ExpTimeKey(d, when, t.Code(), key), KeyVal(mk)), Put(mk, IntVal(when));
    ApplyFew(s, a, b, b);
  }

  /** Writes to expiry records leave the data alone. */
  lemma SameDataWhole(s: Store, u: Store, d: nat)
    requires Whole(s, d) && ValidStore(u) && forall k: Key :: !IsExpiry(k) ==> Lookup(u, k) == Lookup(s, k)
    ensures Whole(u, d)
  {
    hide ValidStore;
    forall key: bytes
      ensures Lists.LOK(u, d, key) && ZSets.ZOK(u, d, key) && SizeOK(u, d, HashColl, key) && SizeOK(u, d, SetColl, key)
    {
      hide Whole, Lists.LOK, ZSets.ZOK, SizeOK;
      WholeParts(s, d, key);
      Lists.FrameList(s, u, d, key);
      ZSets.FrameZOK(s, u, d, key);
      Collections.FrameSize(s, u, d, HashColl, key);
      Collections.FrameSize(s, u, d, SetColl, key);
    }
  }

  /** Recording an expiry keeps the invariants, and the next check early enough. */
  lemma ExpiringKeeps(s: Store, d: nat, t: DataType, key: bytes, when: int, nc: int)
    requires TInv(s, d) && InTime(s, d, nc) && KeySizeOK(key) && IsInt64(when)
    ensures TInv(Expiring(s, d, t, key, when), d) && InTime(Expiring(s, d, t, key, when), d, Lowered(nc, when))
  {
    hide Expiring, Whole;
    var u := Expiring(s, d, t, key, when);
    TInvWhole(s, d);
    forall k: Key
      ensures !IsExpiry(k) ==> Lookup(u, k) == Lookup(s, k)
      ensures k in u && k.db == d && IsExpiry(k) ==> TypeOf(k.kind.dataType).Some? && KeySizeOK(k.kind.key)
      ensures k in u ==> ValidRecord(k, u[k])
    {
      ExpiringAt(s, d, t, key, when, k);
      CodeIsType(t);
      WholeDb(s, d);
      assert k in u <==> Lookup(u, k).Some?;
      assert k in s ==> ValidRecord(k, s[k]);
    }
    SameDataWhole(s, u, d);
    forall t': DataType, key': bytes
      ensures Recorded(u, d, t', key') == if t' == t && key' == key then Some(when) else Recorded(s, d, t', key')
      ensures HasTimeKey(u, d, t', key', when) <==> (t' == t && key' == key) || HasTimeKey(s, d, t', key', when)
      ensures Recorded(u, d, t', key').Some? ==> HasTimeKey(u, d, t', key', Recorded(u, d, t', key').value)
    {
      ExpiringRecord(s, d, t, key, when, t', key');
    }
  }

  lemma WholeDb(s: Store, d: nat)
    requires Whole(s, d)
    ensures d <= MAX_DATABASES
  {
  }

  lemma ExpiringRecord(s: Store, d: nat, t: DataType, key: bytes, when: int, t': DataType, key': bytes)
    requires Paired(s, d)
    ensures var u := Expiring(s, d, t, key, when);
            && Recorded(u, d, t', key') == (if t' == t && key' == key then Some(when) else Recorded(s, d, t', key'))
            && (HasTimeKey(u, d, t', key', when) <==> (t' == t && key' == key) || HasTimeKey(s, d, t', key', when))
            && (Recorded(u, d, t', key').Some? ==> HasTimeKey(u, d, t', key', Recorded(u, d, t', key').value))
  {
    hide Expiring;
    var u, mk := Expiring(s, d, t, key, when), ExpMetaKey(d, t'.Code(), key');
    CodeIsType(t);
    CodeIsType(t');
    ExpiringAt(s, d, t, key, when, mk);
    ExpiringAt(s, d, t, key, when, ExpTimeKey(d, when, t'.Code(), key'));
    assert mk in u <==> Lookup(u, mk).Some?;
    assert Recorded(s, d, t', key').Some? ==> HasTimeKey(s, d, t', key', Recorded(s, d, t', key').value);
    if Recorded(s, d, t', key').Some? {
      var tk := ExpTimeKey(d, Recorded(s, d, t', key').value, t'.Code(), key');
      ExpiringAt(s, d, t, key, when, tk);
      assert tk in u <==> Lookup(u, tk).Some?;
    }
    var nk := ExpTimeKey(d, when, t'.Code(), key');
    assert nk in u <==> Lookup(u, nk).Some?;
  }

  /** A write that drops expiries only in pairs: every data operation, and PERSIST. */
  ghost predicate Quiet(s: Store, u: Store, d: nat) {
    && (forall k: Key :: k in u && IsExpiry(k) ==> Lookup(u, k) == Lookup(s, k))
    && (forall t: DataType, key: bytes :: Recorded(u, d, t, key).Some? ==>
        HasTimeKey(u, d, t, key, Recorded(u, d, t, key).value))
  }

  lemma QuietKeeps(s: Store, u: Store, d: nat, nc: int)
    requires TInv(s, d) && InTime(s, d, nc) && Quiet(s, u, d) && Whole(u, d)
    ensures TInv(u, d) && InTime(u, d, nc)
  {
    hide Whole;
    forall t: DataType, key: bytes | Recorded(u, d, t, key).Some?
      ensures Recorded(u, d, t, key) == Recorded(s, d, t, key)
    {
      assert Lookup(u, ExpMetaKey(d, t.Code(), key)) == Lookup(s, ExpMetaKey(d, t.Code(), key));
    }
    forall k: Key | k in u && k.db == d && IsExpiry(k) ensures TypeOf(k.kind.dataType).Some? && KeySizeOK(k.kind.key) {
      assert Lookup(u, k) == Lookup(s, k);
      assert k in s;
    }
  }

  /** PERSIST drops the record and the time record it points to. */
  lemma PersistKeeps(s: Store, d: nat, t: DataType, key: bytes)
    requires TInv(s, d)
    ensures var u := Apply(s, RmExpireOps(s, d, t.Code(), key));
            Quiet(s, u, d) && Whole(u, d) && Recorded(u, d, t, key).None?
  {
    hide Whole, Apply, RmExpireOps;
    var u := Apply(s, RmExpireOps(s, d, t.Code(), key));
    TInvWhole(s, d);
    forall k: Key
      ensures k in u ==> k in s && Lookup(u, k) == Lookup(s, k)
      ensures !IsExpiry(k) ==> Lookup(u, k) == Lookup(s, k)
      ensures k in u ==> ValidRecord(k, u[k])
    {
      RmExpireEffect(s, u, d, t.Code(), key, k);
      RmExpireEffect(s, s, d, t.Code(), key, k);
      assert k in u <==> Lookup(u, k).Some?;
      assert k in s ==> ValidRecord(k, s[k]);
    }
    SameDataWhole(s, u, d);
    forall t': DataType, key': bytes
      ensures Recorded(u, d, t', key').Some? ==> HasTimeKey(u, d, t', key', Recorded(u, d, t', key').value)
      ensures t' == t && key' == key ==> Recorded(u, d, t', key').None?
    {
      PersistRecord(s, d, t, key, t', key');
    }
  }

  lemma PersistRecord(s: Store, d: nat, t: DataType, key: bytes, t': DataType, key': bytes)
    requires Paired(s, d)
    ensures var u := Apply(s, RmExpireOps(s, d, t.Code(), key));
            && (Recorded(u, d, t', key').Some? ==> HasTimeKey(u, d, t', key', Recorded(u, d, t', key').value))
            && (t' == t && key' == key ==> Recorded(u, d, t', key').None?)
  {
    hide Apply, RmExpireOps;
    var u, mk := Apply(s, RmExpireOps(s, d, t.Code(), key)), ExpMetaKey(d, t'.Code(), key');
    CodeIsType(t);
    CodeIsType(t');
    RmExpireEffect(s, s, d, t.Code(), key, mk);
    assert mk in u <==> Lookup(u, mk).Some?;
    if Recorded(s, d, t', key').Some? {
      assert HasTimeKey(s, d, t', key', Recorded(s, d, t', key').value);
      var tk := ExpTimeKey(d, Recorded(s, d, t', key').value, t'.Code(), key');
      RmExpireEffect(s, s, d, t.Code(), key, tk);
      assert tk in u <==> Lookup(u, tk).Some?;
    }
  }

  /**
   On a node that refuses commits a check removes nothing but moves the next check on: it is still
   early enough if and only if nothing was recorded to expire by then.
   */
  lemma RefusedCheckIff(s: Store, d: nat, now: int)
    requires TInv(s, d) && ClockOK(now)
    ensures InTime(s, d, NextCheck(s, d, now)) <==>
            forall t: DataType, key: bytes :: ToMeet(s, d, t, key) ==> now < Recorded(s, d, t, key).value
  {
    hide Whole, NextCheck;
    NextCheckAhead(s, d, now);
    if forall t: DataType, key: bytes :: ToMeet(s, d, t, key) ==> now < Recorded(s, d, t, key).value {
      forall t: DataType, key: bytes | ToMeet(s, d, t, key)
        ensures NextCheck(s, d, now) <= Recorded(s, d, t, key).value
      {
        assert HasTimeKey(s, d, t, key, Recorded(s, d, t, key).value);
        NextCheckIsNear(s, d, now, ExpTimeKey(d, Recorded(s, d, t, key).value, t.Code(), key));
      }
    }
  }

  // ---------------------------------------------------------------- runs

  datatype Step =
    | ExpireStep(t: DataType, key: bytes, when: int)
    | WriteStep
    | CheckStep(now: int)

  /** One step on a node that accepts writes, with the next check time it leaves. */
  ghost predicate Next(s: Store, nc: int, u: Store, nc': int, d: nat, step: Step)
    requires TInv(s, d)
  {
    match step
    case ExpireStep(t, key, when) =>
      KeySizeOK(key) && IsInt64(when) && u == Expiring(s, d, t, key, when) && nc' == Lowered(nc, when)
    case WriteStep => Quiet(s, u, d) && Whole(u, d) && nc' == nc
    case CheckStep(now) =>
      ClockOK(now) && if now < nc then u == s && nc' == nc else u == Checked(s, d, now) && nc' == NextCheck(s, d, now)
  }

  ghost predicate IsRun(d: nat, states: seq<Store>, ncs: seq<int>, steps: seq<Step>) {
    && |states| == |ncs| == |steps| + 1
    && forall i :: 0 <= i < |steps| ==>
         (TInv(states[i], d) ==> Next(states[i], ncs[i], states[i + 1], ncs[i + 1], d, steps[i]))
  }

  /** In every run every expiry keeps its time record and no check is scheduled past one it is to meet. */
  lemma {:induction false} RunKeeps(d: nat, states: seq<Store>, ncs: seq<int>, steps: seq<Step>, n: nat)
    requires IsRun(d, states, ncs, steps) && n <= |steps| && TInv(states[0], d) && InTime(states[0], d, ncs[0])
    ensures TInv(states[n], d) && InTime(states[n], d, ncs[n])
  {
    hide TInv, InTime, Next;
    if n > 0 {
      RunKeeps(d, states, ncs, steps, n - 1);
      NextKeeps(states[n - 1], ncs[n - 1], states[n], ncs[n], d, steps[n - 1]);
    }
  }

  lemma NextKeeps(s: Store, nc: int, u: Store, nc': int, d: nat, step: Step)
    requires TInv(s, d) && InTime(s, d, nc) && Next(s, nc, u, nc', d, step)
    ensures TInv(u, d) && InTime(u, d, nc')
  {
    hide TInv, InTime, Quiet, Checked, NextCheck, Expiring;
    match step
    case ExpireStep(t, key, when) => ExpiringKeeps(s, d, t, key, when, nc);
    case WriteStep => QuietKeeps(s, u, d, nc);
    case CheckStep(now) => if nc <= now { CheckKeeps(s, d, now); }
  }

  /** So a check that comes at or after an expiry it is to meet is never skipped, and removes the key. */
  lemma NothingIsMissed(s: Store, nc: int, d: nat, now: int, t: DataType, key: bytes, k: Key)
    requires TInv(s, d) && InTime(s, d, nc) && ClockOK(now) && Owns(d, t, key, k) && !k.kind.ExpTime?
    requires ToMeet(s, d, t, key) && Recorded(s, d, t, key).value <= now
    ensures nc <= now && k !in Checked(s, d, now)
  {
    hide TInv, Checked;
    RecordedDecides(s, d, now, t, key);
    CheckExact(s, d, now, t, key, k);
  }

  /** The key has no time record but the one of its recorded expiry, `when`. */
  ghost predicate OnlyTime(s: Store, d: nat, t: DataType, key: bytes, when: int) {
    Recorded(s, d, t, key) == Some(when) && forall x :: HasTimeKey(s, d, t, key, x) ==> x == when
  }

  /** A key given one expiry falls to the checks from that time on if and only if the time is not negative. */
  lemma MetIff(s: Store, d: nat, t: DataType, key: bytes, when: int, now: int)
    requires TInv(s, d) && ClockOK(now) && OnlyTime(s, d, t, key, when) && when <= now
    ensures Due(s, d, t, key, now) <==> 0 <= when
    ensures forall k: Key :: Owns(d, t, key, k) && !k.kind.ExpTime? && k in s ==>
              (k !in Checked(s, d, now) <==> 0 <= when)
  {
    hide TInv, Checked, Owns, Due;
    RecordedDecides(s, d, now, t, key);
    forall k: Key | Owns(d, t, key, k) && !k.kind.ExpTime? && k in s ensures k !in Checked(s, d, now) <==> 0 <= when {
      CheckExact(s, d, now, t, key, k);
      assert k in Checked(s, d, now) <==> Lookup(Checked(s, d, now), k).Some?;
    }
  }

  /**
   A key given a negative time outlives every run of checks, with its data and its expiry on record,
   and every check sets the next one past that time.
   */
  lemma {:induction false} NegativeTimeOutlives(
      d: nat, states: seq<Store>, ncs: seq<int>, steps: seq<Step>, n: nat, t: DataType, key: bytes, when: int, k: Key)
    requires IsRun(d, states, ncs, steps) && n <= |steps| && TInv(states[0], d) && InTime(states[0], d, ncs[0])
    requires forall i :: 0 <= i < |steps| ==> steps[i].CheckStep?
    requires OnlyTime(states[0], d, t, key, when) && when < 0 && Owns(d, t, key, k)
    ensures Lookup(states[n], k) == Lookup(states[0], k)
    ensures n > 0 ==> when < ncs[n]
    decreases n, 0
  {
    hide TInv, InTime, Next, Owns, OnlyTime;
    if n > 0 {
      NegativeTimeOutlives(d, states, ncs, steps, n - 1, t, key, when, k);
      RunKeeps(d, states, ncs, steps, n - 1);
      OnlyTimeKept(d, states, ncs, steps, n - 1, t, key, when);
      NegativeNotDue(states[n - 1], ncs[n - 1], states[n], ncs[n], d, steps[n - 1], t, key, when, k);
    }
  }

  lemma OnlyTimeKept(
      d: nat, states: seq<Store>, ncs: seq<int>, steps: seq<Step>, n: nat, t: DataType, key: bytes, when: int)
    requires IsRun(d, states, ncs, steps) && n <= |steps| && TInv(states[0], d) && InTime(states[0], d, ncs[0])
    requires forall i :: 0 <= i < |steps| ==> steps[i].CheckStep?
    requires OnlyTime(states[0], d, t, key, when) && when < 0
    ensures OnlyTime(states[n], d, t, key, when)
    decreases n, 1
  {
    hide TInv, InTime, Next;
    var mk := ExpMetaKey(d, t.Code(), key);
    OwnsMeta(d, t, key);
    NegativeTimeOutlives(d, states, ncs, steps, n, t, key, when, mk);
    assert mk in states[n] <==> Lookup(states[n], mk).Some?;
    forall x: int | HasTimeKey(states[n], d, t, key, x) ensures x == when {
      var tk := ExpTimeKey(d, x, t.Code(), key);
      assert Owns(d, t, key, tk);
      NegativeTimeOutlives(d, states, ncs, steps, n, t, key, when, tk);
      assert tk in states[0] <==> Lookup(states[0], tk).Some?;
      assert HasTimeKey(states[0], d, t, key, x);
    }
  }

  lemma NegativeNotDue(
      s: Store, nc: int, u: Store, nc': int, d: nat, step: Step, t: DataType, key: bytes, when: int, k: Key)
    requires TInv(s, d) && step.CheckStep? && Next(s, nc, u, nc', d, step)
    requires OnlyTime(s, d, t, key, when) && when < 0 && Owns(d, t, key, k)
    ensures Lookup(u, k) == Lookup(s, k) && when < nc'
  {
    hide TInv, Checked, NextCheck, Owns, Due;
    var now := step.now;
    MetIff(s, d, t, key, when, now);
    NextCheckAhead(s, d, now);
    CheckExact(s, d, now, t, key, k);
  }

  /**
   EXPIRE at 10, EXPIRE at 100, PERSIST: the key has no expiry any more, and a check at time 10
   removes it all the same.
   */
  lemma StaleTimeRecordRemovesKey(s: Store, d: nat, key: bytes)
    requires TInv(s, d) && KeySizeOK(key) && Key(d, KV(key)) in s
    ensures var a := Expiring(Expiring(s, d, KVData, key, 10), d, KVData, key, 100);
            var u := Apply(a, RmExpireOps(a, d, KV_TYPE, key));
            TInv(u, d) && Recorded(u, d, KVData, key).None? && Key(d, KV(key)) in u &&
                Key(d, KV(key)) !in Checked(u, d, 10)
  {
    hide Whole, Expiring, Checked, Apply, RmExpireOps, Paired, Bounded;
    var b, k, tk := Expiring(s, d, KVData, key, 10), Key(d, KV(key)), ExpTimeKey(d, 10, KV_TYPE, key);
    var nc := LowBound(s, d);
    ExpiringKeeps(s, d, KVData, key, 10, nc);
    ExpiringAt(s, d, KVData, key, 10, k);
    ExpiringAt(s, d, KVData, key, 10, tk);
    var a := Expiring(b, d, KVData, key, 100);
    ExpiringKeeps(b, d, KVData, key, 100, Lowered(nc, 10));
    ExpiringAt(b, d, KVData, key, 100, k);
    ExpiringAt(b, d, KVData, key, 100, tk);
    ExpiringAt(b, d, KVData, key, 100, ExpMetaKey(d, KV_TYPE, key));
    PersistKeeps(a, d, KVData, key);
    var u := Apply(a, RmExpireOps(a, d, KV_TYPE, key));
    QuietKeeps(a, u, d, Lowered(Lowered(nc, 10), 100));
    RmExpireEffect(a, a, d, KV_TYPE, key, k);
    RmExpireEffect(a, a, d, KV_TYPE, key, tk);
    assert Lookup(a, ExpMetaKey(d, KV_TYPE, key)) == Some(IntVal(100));
    assert Lookup(u, tk).Some? && Lookup(u, k).Some?;
    assert HasTimeKey(u, d, KVData, key, 10);
    UnrecordedDecides(u, d, 10, KVData, key);
    CheckExact(u, d, 10, KVData, key, k);
  }

  /** Time zero is early enough for every store. */
  ghost function LowBound(s: Store, d: nat): (nc: int)
    requires TInv(s, d)
    ensures InTime(s, d, nc)
  {
    0
  }
}
