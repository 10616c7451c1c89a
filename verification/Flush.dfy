/**
 Flushing one type of value in one database (ledis/ledis_db.go): pages of names are scanned and all
 their records deleted, round after round, until a scan finds none. The batch is committed after
 each round without being reset, so that every round deletes again what earlier ones deleted.
 */
module Flush {
  import opened Bytes
  import opened Keys
  import opened Batches
  import opened Ranges
  import opened Database
  import opened Records
  import ZSets
  import ZStores
  import ZWrites
  import ZQueries
  import Lists
  import Collections
  import opened Scan
  import Expiry
  import ExpiryOps
  import ZRuns

  const PAGE: nat := 1024

  /** Where the names of a type are found. */
  function SpaceOf(t: DataType): (sp: Space)
    ensures ValidSpace(sp)
  {
    match t
    case KVData => TypeSpace(KV_TYPE)
    case ListData => TypeSpace(LMETA_TYPE)
    case HashData => TypeSpace(HSIZE_TYPE)
    case ZSetData => TypeSpace(ZSIZE_TYPE)
    case SetData => TypeSpace(SSIZE_TYPE)
  }

  function MetaKey(d: nat, t: DataType, key: bytes): (k: Key) {
    match t
    case KVData => Key(d, KV(key))
    case ListData => Key(d, LMeta(key))
    case HashData => SizeKey(d, HashColl, key)
    case ZSetData => SizeKey(d, ZSetColl, key)
    case SetData => SizeKey(d, SetColl, key)
  }

  /** The scan finds a key by its meta record. */
  lemma MetaNamed(s: Store, d: nat, t: DataType, key: bytes)
    ensures key in NameSet(s, d, SpaceOf(t)) <==> key != [] && MetaKey(d, t, key) in s
    ensures IsData(d, t, key, MetaKey(d, t, key))
  {
    var mk, sp := MetaKey(d, t, key), SpaceOf(t);
    if key != [] && mk in s {
      assert InSpace(d, sp, mk) && NameOf(sp, mk) == key;
    }
    if key in NameSet(s, d, sp) {
      var k :| k in s && InSpace(d, sp, k) && NameOf(sp, k) != [] && NameOf(sp, k) == key;
      assert k == mk;
    }
  }

  // ---------------------------------------------------------------- batches of deletes

  predicate AllDeletes(ops: Ops) {
    forall i :: 0 <= i < |ops| ==> ops[i].Delete?
  }

  lemma {:induction false} DeletesAt(a: Store, ops: Ops, k: Key)
    requires AllDeletes(ops)
    ensures Lookup(Apply(a, ops), k) == if Touches(ops, k) then None else Lookup(a, k)
  {
    if ops != [] {
      var n := |ops| - 1;
      DeletesAt(a, ops[..n], k);
      TouchesStep(ops, k);
    }
  }

  lemma TouchesStep(ops: Ops, k: Key)
    requires ops != []
    ensures var n := |ops| - 1; Touches(ops, k) <==> Touches(ops[..n], k) || ops[n].key == k
  {
    var n := |ops| - 1;
    if Touches(ops[..n], k) {
      var i :| 0 <= i < n && ops[..n][i].key == k;
      assert ops[i].key == k;
    }
    if Touches(ops, k) && ops[n].key != k {
      var i :| 0 <= i < |ops| && ops[i].key == k;
      assert ops[..n][i].key == k;
    }
  }

  /** Deleting again what is not there changes nothing. */
  lemma DeletesAgain(a: Store, ops: Ops, more: Ops)
    requires AllDeletes(ops) && forall k: Key :: Touches(ops, k) ==> k !in a
    ensures Apply(a, ops + more) == Apply(a, more)
  {
    forall k: Key ensures Lookup(Apply(a, ops), k) == Lookup(a, k) {
      DeletesAt(a, ops, k);
    }
    SameLookups(Apply(a, ops), a);
    ApplyAppend(a, ops, more);
  }

  lemma {:induction false} DeleteAllDeletes(ks: seq<Key>)
    ensures AllDeletes(DeleteAll(ks))
  {
    if ks != [] { DeleteAllDeletes(ks[..|ks| - 1]); }
  }

  lemma {:induction false} RangeRemDeletes(s: Store, d: nat, key: bytes, ks: seq<Key>)
    requires ZQueries.AreScoreKeys(d, key, ks)
    ensures AllDeletes(ZWrites.RangeRemOps(s, d, key, ks))
  {
    if ks != [] { RangeRemDeletes(s, d, key, ks[..|ks| - 1]); }
  }

  /** Every delete callback only deletes. */
  lemma CallbackDeletes(s: Store, d: nat, t: DataType, key: bytes)
    requires Whole(s, d) && |key| <= MAX_KEY_SIZE
    ensures AllDeletes(DeleteOps(s, d, t, key))
  {
    hide Whole, Lists.LOK, ZSets.ZOK, ValidStore, SizeOK, Lists.Walked, Matching;
    WholeParts(s, d, key);
    match t
    case KVData =>
    case ListData => DeleteAllDeletes(Lists.Walked(s, d, key));
    case HashData => DeleteAllDeletes(Matching(s, Collections.MemberRange(d, HashColl, key)));
    case ZSetData =>
      ExpiryOps.WholeZSets(s, d);
      ZSetDeletes(s, d, key);
    case SetData => DeleteAllDeletes(Matching(s, Collections.MemberRange(d, SetColl, key)));
  }

  lemma ZSetDeletes(s: Store, d: nat, key: bytes)
    requires Whole(s, d) && d <= MAX_DATABASES && ZSets.ZInv(s, d) && |key| <= MAX_KEY_SIZE
    ensures AllDeletes(ZStores.DeleteOps(s, d, key))
  {
    hide Whole, ZSets.ZInv, ZSets.CountStored, ZWrites.RangeRemOps, ZWrites.Walked, IncrSizeOps, AllDeletes;
    WholeParts(s, d, key);
    AllCounted(s, d, key);
    var ks := ZWrites.Walked(s, d, key, ZSets.MIN_SCORE, ZSets.MAX_SCORE, 0, -1);
    RangeRemDeletes(s, d, key, ks);
    var delta: int := 0 - ZSets.CountStored(s, d, key, ZWrites.MemberNames(ks));
    EmptiedDeletes(s, d, key, delta);
    DeletesAdd(ZWrites.RangeRemOps(s, d, key, ks), IncrSizeOps(s, d, ZSetColl, key, delta));
  }

  lemma EmptiedDeletes(s: Store, d: nat, key: bytes, delta: int)
    requires GetInt(s, SizeKey(d, ZSetColl, key)) + delta <= 0
    ensures AllDeletes(IncrSizeOps(s, d, ZSetColl, key, delta))
  {
  }

  lemma DeletesAdd(a: Ops, b: Ops)
    requires AllDeletes(a) && AllDeletes(b)
    ensures AllDeletes(a + b)
  {
  }

  /** The range removal of zDelete counts every member, so the size record goes too. */
  lemma AllCounted(s: Store, d: nat, key: bytes)
    requires Whole(s, d) && |key| <= MAX_KEY_SIZE
    ensures var ks := ZWrites.Walked(s, d, key, ZSets.MIN_SCORE, ZSets.MAX_SCORE, 0, -1);
            && ZQueries.AreScoreKeys(d, key, ks)
            && ZSets.CountStored(s, d, key, ZWrites.MemberNames(ks)) == GetInt(s, SizeKey(d, ZSetColl, key))
  {
    hide ZSets.ZOK, ValidStore, SizeOK, Lists.LInv, Collections.CInv, ZQueries.SortedPairs, ZSets.CountStored,
         ZWrites.Walked, ZQueries.FilterPairs;
    assert ZSets.ZOK(s, d, key);
    ZWrites.RemRangeKeeps(s, d, key, ZSets.MIN_SCORE, ZSets.MAX_SCORE, 0, -1);
    ZQueries.RangeIsFilter(s, d, key, ZSets.MIN_SCORE, ZSets.MAX_SCORE, false);
    ZQueries.SortedPairsIsRange(s, d, key);
    var all := ZQueries.SortedPairs(s, d, key);
    assert ZQueries.Window(all, 0, -1) == all;
    ZQueries.PairsAreMembers(s, d, key);
  }

  // ---------------------------------------------------------------- one round

  /** What flushing a key takes away: its data, its recorded expiry and the time record of that. */
  predicate Gone(s: Store, d: nat, t: DataType, key: bytes, k: Key) {
    var mk := ExpMetaKey(d, t.Code(), key);
    IsData(d, t, key, k) || (mk in s && (k == mk || k == ExpTimeKey(d, GetInt(s, mk), t.Code(), key)))
  }

  predicate Short(keys: seq<bytes>) {
    forall i :: 0 <= i < |keys| ==> |keys[i]| <= MAX_KEY_SIZE
  }

  ghost function KeyOps(s: Store, d: nat, t: DataType, key: bytes): (ops: Ops)
    requires Whole(s, d) && |key| <= MAX_KEY_SIZE
  {
    DeleteOps(s, d, t, key) + RmExpireOps(s, d, t.Code(), key)
  }

  ghost function RoundOps(s: Store, d: nat, t: DataType, keys: seq<bytes>): (ops: Ops)
    requires Whole(s, d) && Short(keys)
  {
    if keys == [] then [] else RoundOps(s, d, t, keys[..|keys| - 1]) + KeyOps(s, d, t, keys[|keys| - 1])
  }

  lemma KeyOpsAre(s: Store, d: nat, t: DataType, key: bytes, k: Key)
    requires Whole(s, d) && |key| <= MAX_KEY_SIZE
    ensures AllDeletes(KeyOps(s, d, t, key))
    ensures k in s ==> (Touches(KeyOps(s, d, t, key), k) <==> Gone(s, d, t, key, k))
  {
    hide Whole, DeleteOps, IsData, Apply;
    var a, b := DeleteOps(s, d, t, key), RmExpireOps(s, d, t.Code(), key);
    CallbackDeletes(s, d, t, key);
    DeletesAt(s, a + b, k);
    ApplyAppend(s, a, b);
    DeletedAt(s, d, t, key, k);
    RmExpireEffect(s, Apply(s, a), d, t.Code(), key, k);
  }

  ghost predicate GoneOf(s: Store, d: nat, t: DataType, keys: seq<bytes>, k: Key) {
    exists i :: 0 <= i < |keys| && Gone(s, d, t, keys[i], k)
  }

  lemma {:induction false} RoundAt(s: Store, d: nat, t: DataType, keys: seq<bytes>, k: Key)
    requires Whole(s, d) && Short(keys)
    ensures AllDeletes(RoundOps(s, d, t, keys))
    ensures Lookup(Apply(s, RoundOps(s, d, t, keys)), k) == if GoneOf(s, d, t, keys, k) then None else Lookup(s, k)
  {
    if keys != [] {
      hide Whole, KeyOps, Gone, Apply, GoneOf, Touches;
      var n := |keys| - 1;
      var front, ops := RoundOps(s, d, t, keys[..n]), KeyOps(s, d, t, keys[n]);
      RoundAt(s, d, t, keys[..n], k);
      KeyOpsAre(s, d, t, keys[n], k);
      ApplyAppend(s, front, ops);
      DeletesAt(Apply(s, front), ops, k);
      GoneStep(s, d, t, keys, k);
    } else {
      ApplyFew(s, Delete(k), Delete(k), Delete(k));
    }
  }

  lemma GoneStep(s: Store, d: nat, t: DataType, keys: seq<bytes>, k: Key)
    requires keys != []
    ensures var n := |keys| - 1;
              GoneOf(s, d, t, keys, k) <==> GoneOf(s, d, t, keys[..n], k) || Gone(s, d, t, keys[n], k)
  {
    hide Gone;
    var n := |keys| - 1;
    if GoneOf(s, d, t, keys[..n], k) {
      var i :| 0 <= i < n && Gone(s, d, t, keys[..n][i], k);
      assert Gone(s, d, t, keys[i], k);
    }
    if GoneOf(s, d, t, keys, k) && !Gone(s, d, t, keys[n], k) {
      var i :| 0 <= i < |keys| && Gone(s, d, t, keys[i], k);
      assert keys[..n][i] == keys[i];
    }
  }

  lemma {:induction false} RoundWhole(s: Store, d: nat, t: DataType, keys: seq<bytes>)
    requires Whole(s, d) && Short(keys)
    ensures Whole(Apply(s, RoundOps(s, d, t, keys)), d)
  {
    if keys != [] {
      var n := |keys| - 1;
      RoundWhole(s, d, t, keys[..n]);
      RoundErases(s, d, t, keys);
      ErasedWhole(Apply(s, RoundOps(s, d, t, keys[..n])), Apply(s, RoundOps(s, d, t, keys)), d, t, keys[n]);
    }
  }

  lemma RoundErases(s: Store, d: nat, t: DataType, keys: seq<bytes>)
    requires Whole(s, d) && Short(keys) && keys != []
    ensures var n := |keys| - 1;
              Erased(Apply(s, RoundOps(s, d, t, keys[..n])), Apply(s, RoundOps(s, d, t, keys)), d, t, keys[n])
  {
    hide Whole, RoundOps, Apply, GoneOf, IsData;
    var n := |keys| - 1;
    var a, b := Apply(s, RoundOps(s, d, t, keys[..n])), Apply(s, RoundOps(s, d, t, keys));
    forall k: Key
      ensures !IsExpiry(k) ==> Lookup(b, k) == if IsData(d, t, keys[n], k) then None else Lookup(a, k)
      ensures k in b ==> Lookup(b, k) == Lookup(a, k)
    {
      RoundAt(s, d, t, keys, k);
      RoundAt(s, d, t, keys[..n], k);
      GoneStep(s, d, t, keys, k);
      assert k in b <==> Lookup(b, k).Some?;
    }
  }

  // ---------------------------------------------------------------- flushType

  /** Every name of the type is one that the delete callbacks accept. */
  ghost predicate ShortNames(s: Store, d: nat, t: DataType) {
    forall key :: key in NameSet(s, d, SpaceOf(t)) ==> |key| <= MAX_KEY_SIZE
  }

  /** What a flush leaves: nothing of any name found by the scan, and everything else. */
  ghost predicate FlushedTo(s: Store, u: Store, d: nat, t: DataType, names: set<bytes>) {
    forall k: Key ::
      Lookup(u, k) == if (exists key :: key in names && Gone(s, d, t, key, k)) then None else Lookup(s, k)
  }

  /** One round takes away the names it found. */
  lemma RoundNames(s: Store, d: nat, t: DataType, keys: seq<bytes>)
    requires Whole(s, d) && Short(keys)
    ensures NameSet(Apply(s, RoundOps(s, d, t, keys)), d, SpaceOf(t)) == NameSet(s, d, SpaceOf(t)) - set n | n in keys
  {
    hide Whole, RoundOps, Apply, NameSet, IsData;
    var u := Apply(s, RoundOps(s, d, t, keys));
    forall key ensures key in NameSet(u, d, SpaceOf(t)) <==> key in NameSet(s, d, SpaceOf(t)) && key !in keys {
      var mk := MetaKey(d, t, key);
      MetaNamed(s, d, t, key);
      MetaNamed(u, d, t, key);
      RoundAt(s, d, t, keys, mk);
      assert mk in u <==> Lookup(u, mk).Some?;
      if GoneOf(s, d, t, keys, mk) {
        var i :| 0 <= i < |keys| && Gone(s, d, t, keys[i], mk);
        GoneMeta(s, d, t, keys[i], key);
        assert keys[i] in keys;
      }
      if key in keys {
        var i :| 0 <= i < |keys| && keys[i] == key;
        assert Gone(s, d, t, keys[i], mk);
      }
    }
  }

  lemma GoneMeta(s: Store, d: nat, t: DataType, x: bytes, key: bytes)
    requires Gone(s, d, t, x, MetaKey(d, t, key))
    ensures x == key
  {
    var mk := MetaKey(d, t, key);
    MetaNamed(s, d, t, key);
    if IsData(d, t, x, mk) { DataOwner(d, t, x, t, key, mk); }
  }

  /** A name not yet flushed is as it was at the start, its expiry included. */
  lemma GoneStable(s: Store, a: Store, d: nat, t: DataType, names: set<bytes>, key: bytes, k: Key)
    requires FlushedTo(s, a, d, t, names) && key !in names
    ensures Gone(a, d, t, key, k) <==> Gone(s, d, t, key, k)
  {
    hide IsData;
    var mk := ExpMetaKey(d, t.Code(), key);
    assert Lookup(a, mk) == if (exists x :: x in names && Gone(s, d, t, x, mk)) then None else Lookup(s, mk);
    if x :| x in names && Gone(s, d, t, x, mk) { NotData(d, t, x, mk); }
    assert mk in a <==> Lookup(a, mk).Some?;
  }

  lemma NotData(d: nat, t: DataType, x: bytes, k: Key)
    requires IsExpiry(k)
    ensures !IsData(d, t, x, k)
  {
    if IsData(d, t, x, k) { DataOwner(d, t, x, t, x, k); }
  }

  /** Rounds add up. */
  lemma RoundsAdd(s: Store, a: Store, d: nat, t: DataType, names: set<bytes>, keys: seq<bytes>)
    requires Whole(a, d) && Short(keys) && FlushedTo(s, a, d, t, names) && forall n :: n in keys ==> n !in names
    ensures FlushedTo(s, Apply(a, RoundOps(a, d, t, keys)), d, t, names + set n | n in keys)
  {
    hide Whole, RoundOps, Apply, Gone;
    var u, more := Apply(a, RoundOps(a, d, t, keys)), names + set n | n in keys;
    forall k: Key
      ensures Lookup(u, k) == if (exists key :: key in more && Gone(s, d, t, key, k)) then None else Lookup(s, k)
    {
      RoundAt(a, d, t, keys, k);
      if GoneOf(a, d, t, keys, k) {
        var i :| 0 <= i < |keys| && Gone(a, d, t, keys[i], k);
        GoneStable(s, a, d, t, names, keys[i], k);
        assert keys[i] in more;
      }
      if key :| key in more && Gone(s, d, t, key, k) {
        if key !in names {
          var i :| 0 <= i < |keys| && keys[i] == key;
          GoneStable(s, a, d, t, names, key, k);
          assert Gone(a, d, t, keys[i], k);
        }
      }
    }
  }

  lemma NothingFlushed(s: Store, d: nat, t: DataType)
    ensures FlushedTo(s, s, d, t, {})
  {
  }

  /** The page scanned before a round. */
  ghost function NextPage(s: Store, d: nat, t: DataType): (keys: seq<bytes>) {
    Page(Names(s, d, SpaceOf(t)), [], PAGE, (n: bytes) => true, false)
  }

  method ScanPage(s: Store, d: nat, t: DataType) returns (keys: seq<bytes>)
    requires ValidStore(s)
    ensures keys == NextPage(s, d, t)
  {
    keys := ScanGeneric(s, d, SpaceOf(t), [], PAGE, (n: bytes) => true, false);
  }

  /** The page the scan of a round finds: the first names, none twice. */
  lemma FirstPage(s: Store, d: nat, t: DataType, keys: seq<bytes>)
    requires ValidStore(s) && keys == NextPage(s, d, t)
    ensures (set n | n in keys) <= NameSet(s, d, SpaceOf(t)) && |set n | n in keys| == |keys|
    ensures keys == [] <==> NameSet(s, d, SpaceOf(t)) == {}
  {
    hide NameSet, After, Filter, SortedKeys;
    var v := Names(s, d, SpaceOf(t));
    NamesAreNames(s, d, SpaceOf(t));
    AfterNothing(v, false);
    FilterAll(v);
    SortedSlice(v, 0, |keys|);
    assert keys == v[0..|keys|];
    SortedSize(keys);
    forall n | n in keys ensures n in NameSet(s, d, SpaceOf(t)) {
      var i :| 0 <= i < |keys| && keys[i] == n;
      assert v[i] == n;
    }
    assert |v| == |NameSet(s, d, SpaceOf(t))|;
  }

  lemma {:induction false} FilterAll(v: seq<bytes>)
    ensures Filter(v, (n: bytes) => true) == v
  {
    if v != [] { FilterAll(v[1..]); }
  }

  /** One round: the delete callback and rmExpire for each name found, added to the batch. */
  method AddRound(db: DB, t: DataType, keys: seq<bytes>)
    requires db.Sound() && Whole(db.bucket, db.index) && Short(keys)
    modifies db`batch
    ensures db.batch == old(db.batch) + RoundOps(db.bucket, db.index, t, keys)
  {
    hide ValidStore, Whole, DeleteOps, RmExpireOps;
    ghost var s, d := db.bucket, db.index;
    assert keys[..0] == [] && old(db.batch) + [] == old(db.batch);
    for i := 0 to |keys|
      invariant db.batch == old(db.batch) + RoundOps(s, d, t, keys[..i])
    {
      assert keys[..i + 1][..i] == keys[..i];
      ExpiryOps.DeleteData(db, t, keys[i]);
      db.batch := db.batch + RmExpireOps(db.bucket, db.index, t.Code(), keys[i]);
      assert db.batch == old(db.batch) + (RoundOps(s, d, t, keys[..i]) + KeyOps(s, d, t, keys[i]));
    }
    assert keys[..|keys|] == keys;
  }

  /** Everything in the batch is a delete that has been done. */
  ghost predicate Spent(batch: Ops, bucket: Store) {
    AllDeletes(batch) && forall k: Key :: Touches(batch, k) ==> k !in bucket
  }

  /** Between rounds: the names in `done` are flushed and the others are left. */
  ghost predicate Between(s: Store, a: Store, d: nat, t: DataType, done: set<bytes>) {
    && done <= NameSet(s, d, SpaceOf(t)) && NameSet(a, d, SpaceOf(t)) == NameSet(s, d, SpaceOf(t)) - done
    && FlushedTo(s, a, d, t, done)
  }

  lemma RoundBetween(s: Store, a: Store, d: nat, t: DataType, done: set<bytes>, keys: seq<bytes>)
    requires Whole(a, d) && Between(s, a, d, t, done) && Short(keys) && keys == NextPage(a, d, t) && keys != []
    ensures var next := done + set n | n in keys;
            && Between(s, Apply(a, RoundOps(a, d, t, keys)), d, t, next) && |next| == |done| + |keys|
            && done < next <= NameSet(s, d, SpaceOf(t))
  {
    hide Whole, NameSet, FlushedTo, RoundOps, Apply, NextPage, Short, SpaceOf;
    WholeParts(a, d, []);
    FirstPage(a, d, t, keys);
    var more := set n | n in keys;
    MoreNames(NameSet(s, d, SpaceOf(t)), done, keys);
    RoundsAdd(s, a, d, t, done, keys);
    RoundNames(a, d, t, keys);
  }

  lemma MoreNames(names: set<bytes>, done: set<bytes>, keys: seq<bytes>)
    requires done <= names && keys != [] && (set n | n in keys) <= names - done && |set n | n in keys| == |keys|
    ensures var next := done + set n | n in keys;
            |next| == |done| + |keys| && done < next <= names && names - next == (names - done) - set n | n in keys
    ensures forall n :: n in keys ==> n !in done
  {
    var more := set n | n in keys;
    forall n | n in keys ensures n !in done { assert n in more; }
    SetAdds(done, more);
    assert keys[0] in more && keys[0] !in done;
  }

  /** One round of the loop: batch, commit, next scan. */
  method Round(db: DB, t: DataType, keys: seq<bytes>) returns (ok: bool, next: seq<bytes>)
    requires db.Sound() && Whole(db.bucket, db.index) && Short(keys) && Spent(db.batch, db.bucket)
    modifies db`bucket, db`batch
    ensures ok == !db.readonly
    ensures !ok ==> db.bucket == old(db.bucket)
    ensures ok ==> db.bucket == Apply(old(db.bucket), RoundOps(old(db.bucket), db.index, t, keys))
    ensures ok ==> db.Sound() && Whole(db.bucket, db.index) && Spent(db.batch, db.bucket)
    ensures ok ==> next == NextPage(db.bucket, db.index, t)
  {
    hide ValidStore, Whole, NameSet, NextPage, RoundOps, Apply, Spent, Short;
    ghost var a, b := db.bucket, db.batch;
    next := [];
    AddRound(db, t, keys);
    RoundFacts(a, db.index, t, keys, b);
    ok := db.Commit();
    if ok {
      WholeParts(db.bucket, db.index, []);
      next := ScanPage(db.bucket, db.index, t);
    }
  }

  /**
   flushType: ends, with the names left as its measure; takes away all records of every name the scan
   finds, returns how many names there were, and leaves every other record of every type alone.
   */
  method FlushType(db: DB, t: DataType) returns (r: Reply<int>)
    requires db.Ready() && Whole(db.bucket, db.index) && ShortNames(db.bucket, db.index, t)
    modifies db`bucket, db`batch
    ensures db.batch == []
    ensures var s, d := old(db.bucket), db.index;
            var names := NameSet(s, d, SpaceOf(t));
            if names != {} && db.readonly then r == Fail(ErrReadonly) && db.bucket == s
            else r == Done(|names|) && FlushedTo(s, db.bucket, d, t, names) && NameSet(db.bucket, d, SpaceOf(t)) == {}
  {
    hide ValidStore, Whole, NameSet, FlushedTo, RoundOps, Apply, NextPage, SpaceOf, Spent, Short, Between, ShortNames;
    ghost var s, d, done := db.bucket, db.index, {};
    var drop := 0;
    var keys := ScanPage(db.bucket, db.index, t);
    NothingBetween(s, d, t);
    NothingSpent(s);
    while keys != []
      invariant db.Sound() && Whole(db.bucket, d) && Spent(db.batch, db.bucket)
      invariant Between(s, db.bucket, d, t, done) && drop == |done| && keys == NextPage(db.bucket, d, t)
      invariant db.readonly ==> db.bucket == s && done == {}
      decreases NameSet(s, d, SpaceOf(t)) - done
    {
      ghost var a := db.bucket;
      ShortPage(s, a, d, t, done, keys);
      RoundBetween(s, a, d, t, done, keys);
      var ok, next := Round(db, t, keys);
      if !ok {
        db.Unlock();
        return Fail(ErrReadonly);
      }
      done, drop, keys := done + (set n | n in keys), drop + |keys|, next;
    }
    AllFlushed(s, db.bucket, d, t, done);
    db.Unlock();
    r := Done(drop);
  }

  lemma NothingSpent(s: Store)
    ensures Spent([], s)
  {
  }

  lemma ShortPage(s: Store, a: Store, d: nat, t: DataType, done: set<bytes>, keys: seq<bytes>)
    requires ValidStore(a) && ShortNames(s, d, t) && Between(s, a, d, t, done) && keys == NextPage(a, d, t)
    ensures Short(keys) && (keys != [] ==> NameSet(s, d, SpaceOf(t)) != {})
  {
    hide NameSet, NextPage, FlushedTo;
    FirstPage(a, d, t, keys);
    forall i | 0 <= i < |keys| ensures |keys[i]| <= MAX_KEY_SIZE {
      assert keys[i] in (set n | n in keys);
      assert keys[i] in NameSet(a, d, SpaceOf(t));
      assert keys[i] in NameSet(s, d, SpaceOf(t)) - done;
    }
  }

  lemma NothingBetween(s: Store, d: nat, t: DataType)
    ensures Between(s, s, d, t, {})
  {
    hide NameSet;
    NothingFlushed(s, d, t);
  }

  lemma AllFlushed(s: Store, a: Store, d: nat, t: DataType, done: set<bytes>)
    requires ValidStore(a) && Between(s, a, d, t, done) && NextPage(a, d, t) == []
    ensures done == NameSet(s, d, SpaceOf(t)) && FlushedTo(s, a, d, t, done) && NameSet(a, d, SpaceOf(t)) == {}
  {
    hide NameSet, NextPage, FlushedTo;
    FirstPage(a, d, t, []);
  }

  lemma SetAdds(a: set<bytes>, b: set<bytes>)
    requires a !! b
    ensures |a + b| == |a| + |b|
  {
  }

  /** After a round that repeats the earlier ones, all of their deletes are done. */
  lemma RoundFacts(a: Store, d: nat, t: DataType, keys: seq<bytes>, b: Ops)
    requires Whole(a, d) && Short(keys) && Spent(b, a)
    ensures var ops := RoundOps(a, d, t, keys);
            var u := Apply(a, ops);
            Apply(a, b + ops) == u && Spent(b + ops, u) && Whole(u, d)
  {
    hide Whole, RoundOps, NameSet, Apply;
    var ops := RoundOps(a, d, t, keys);
    var u := Apply(a, ops);
    RoundAt(a, d, t, keys, Key(d, KV([])));
    DeletesAgain(a, b, ops);
    RoundWhole(a, d, t, keys);
    forall k: Key | Touches(b + ops, k) ensures k !in u {
      DeletesAt(a, b + ops, k);
      assert Lookup(u, k).None?;
    }
  }

  // ---------------------------------------------------------------- what is left

  /** With the invariants of all types, data is found by its meta record. */
  lemma DataHasMeta(s: Store, d: nat, t: DataType, key: bytes, k: Key)
    requires Whole(s, d) && IsData(d, t, key, k) && k in s
    ensures MetaKey(d, t, key) in s
  {
    hide Whole;
    WholeParts(s, d, key);
    match t
    case KVData =>
    case ListData => if k.kind.ListItem? { Lists.StoredItems(s, d, key, k.kind.seqNo); }
    case HashData => if k.kind.Item? { SizedMember(s, d, HashColl, key, k.kind.member); }
    case SetData => if k.kind.Item? { SizedMember(s, d, SetColl, key, k.kind.member); }
    case ZSetData =>
      if k.kind.ZScore? { assert k == ZSets.ScoreKey(d, key, k.kind.score, k.kind.member); }
      if k != MetaKey(d, t, key) { SizedMember(s, d, ZSetColl, key, k.kind.member); }
  }

  lemma SizedMember(s: Store, d: nat, c: Coll, key: bytes, m: bytes)
    requires SizeOK(s, d, c, key) && ItemKey(d, c, key, m) in s
    ensures SizeKey(d, c, key) in s
  {
    assert m in Members(s, d, c, key);
  }

  /** A flush leaves no data of its type if and only if there was none under the empty name. */
  lemma NoDataLeftIff(s: Store, u: Store, d: nat, t: DataType)
    requires Whole(s, d) && FlushedTo(s, u, d, t, NameSet(s, d, SpaceOf(t)))
    ensures (forall key: bytes, k: Key :: IsData(d, t, key, k) ==> k !in u) <==> MetaKey(d, t, []) !in s
  {
    hide Whole, NameSet, IsData, Gone;
    var names, mk := NameSet(s, d, SpaceOf(t)), MetaKey(d, t, []);
    MetaNamed(s, d, t, []);
    EmptyNameStays(s, u, d, t);
    assert mk in u <==> Lookup(u, mk).Some?;
    if mk !in s {
      forall key: bytes, k: Key | IsData(d, t, key, k) ensures k !in u {
        FlushedData(s, u, d, t, key, k);
      }
    }
  }

  /** Scanning a type gives every stored name of it if and only if there is no record under the empty name. */
  lemma ScanCompleteIff(s: Store, d: nat, t: DataType, count: nat, reverse: bool)
    requires ValidStore(s) && count >= 1
    ensures var v, all := Names(s, d, SpaceOf(t)), (n: bytes) => true;
            && IsNames(v)
            && var got := Follow(v, [], count, all, reverse, NIL_CURSOR);
               (forall n :: n in got <==> MetaKey(d, t, n) in s) <==> MetaKey(d, t, []) !in s
  {
    hide Names, Follow, ValidStore;
    XScanCompleteIff(s, d, SpaceOf(t), count, (n: bytes) => true, reverse);
    forall n ensures n in StoredNames(s, d, SpaceOf(t)) <==> MetaKey(d, t, n) in s {
      NamedByMeta(s, d, t, n);
    }
  }

  lemma NamedByMeta(s: Store, d: nat, t: DataType, n: bytes)
    ensures n in StoredNames(s, d, SpaceOf(t)) <==> MetaKey(d, t, n) in s
  {
    var mk, sp := MetaKey(d, t, n), SpaceOf(t);
    if mk in s {
      assert InSpace(d, sp, mk) && NameOf(sp, mk) == n;
    }
    if n in StoredNames(s, d, sp) {
      var k :| k in s && InSpace(d, sp, k) && NameOf(sp, k) == n;
      assert k == mk;
    }
  }

  /**
   Storing an empty union or intersection under the empty name, which no check refuses, leaves a
   size record there: no scan of the sorted sets finds it and no flush removes it.
   */
  lemma EmptyNameIsLeft(s: Store, d: nat)
    requires Whole(s, d)
    ensures ZSets.ZInv(s, d) && d <= MAX_DATABASES
    ensures var u, mk := ZStores.Stored(s, d, [], []), MetaKey(d, ZSetData, []);
            && Whole(u, d) && Lookup(u, mk) == Some(IntVal(0)) && [] !in NameSet(u, d, SpaceOf(ZSetData))
            && forall v: Store :: FlushedTo(u, v, d, ZSetData, NameSet(u, d, SpaceOf(ZSetData))) ==> mk in v
  {
    hide ZStores.Stored, NameSet, Whole, IsData;
    WholeParts(s, d, []);
    ExpiryOps.WholeZSets(s, d);
    var u, mk := ZStores.Stored(s, d, [], []), MetaKey(d, ZSetData, []);
    EmptyStoreWhole(s, d);
    MetaNamed(u, d, ZSetData, []);
    ZStores.StoredAt(s, d, [], [], mk);
    assert mk in u by { assert Lookup(u, mk).Some?; }
    forall v: Store | FlushedTo(u, v, d, ZSetData, NameSet(u, d, SpaceOf(ZSetData))) ensures mk in v {
      EmptyNameStays(u, v, d, ZSetData);
    }
  }

  /** What is stored under the empty name is not flushed. */
  lemma EmptyNameStays(s: Store, u: Store, d: nat, t: DataType)
    requires FlushedTo(s, u, d, t, NameSet(s, d, SpaceOf(t)))
    ensures Lookup(u, MetaKey(d, t, [])) == Lookup(s, MetaKey(d, t, []))
  {
    hide NameSet, Gone;
    var names, mk := NameSet(s, d, SpaceOf(t)), MetaKey(d, t, []);
    MetaNamed(s, d, t, []);
    assert Lookup(u, mk) == if (exists x :: x in names && Gone(s, d, t, x, mk)) then None else Lookup(s, mk);
    if x :| x in names && Gone(s, d, t, x, mk) { GoneMeta(s, d, t, x, []); }
  }

  lemma EmptyStoreWhole(s: Store, d: nat)
    requires Whole(s, d) && ZSets.ZInv(s, d) && d <= MAX_DATABASES
    ensures Whole(ZStores.Stored(s, d, [], []), d)
  {
    hide ZStores.Stored, ZSets.ZInv, ZSets.Removed, ZQueries.SortedPairs, ZSets.View;
    var u := ZStores.Stored(s, d, [], []);
    ZStores.StoredExact(s, d, [], [], map[]);
    forall key: bytes ensures Lists.LOK(u, d, key) && SizeOK(u, d, HashColl, key) && SizeOK(u, d, SetColl, key) {
      WholeParts(s, d, key);
      hide Whole;
      forall k: Key | !ZSets.IsRecordOf(d, [], k) && !IsExpiry(k) ensures Lookup(u, k) == Lookup(s, k) {
        ZStores.StoredAt(s, d, [], [], k);
      }
      Lists.FrameList(s, u, d, key);
      Collections.FrameSize(s, u, d, HashColl, key);
      Collections.FrameSize(s, u, d, SetColl, key);
    }
    WholeMade(u, d);
  }

  lemma WholeMade(u: Store, d: nat)
    requires d <= MAX_DATABASES && ZSets.ZInv(u, d)
    requires forall key: bytes :: Lists.LOK(u, d, key) && SizeOK(u, d, HashColl, key) && SizeOK(u, d, SetColl, key)
    ensures Whole(u, d)
  {
    hide Lists.LOK, SizeOK, ZSets.ZOK, ValidStore;
  }

  lemma FlushedData(s: Store, u: Store, d: nat, t: DataType, key: bytes, k: Key)
    requires Whole(s, d) && FlushedTo(s, u, d, t, NameSet(s, d, SpaceOf(t))) && IsData(d, t, key, k) &&
              MetaKey(d, t, []) !in s
    ensures k !in u
  {
    hide Whole, NameSet, IsData;
    var names := NameSet(s, d, SpaceOf(t));
    assert Lookup(u, k) == if (exists x :: x in names && Gone(s, d, t, x, k)) then None else Lookup(s, k);
    MetaNamed(s, d, t, key);
    if k in s {
      DataHasMeta(s, d, t, key, k);
      assert Gone(s, d, t, key, k);
    }
  }

  /** A name that was flushed keeps nothing: no record of its value and no expiry. */
  lemma FlushedName(s: Store, u: Store, d: nat, t: DataType, key: bytes)
    requires FlushedTo(s, u, d, t, NameSet(s, d, SpaceOf(t))) && key in NameSet(s, d, SpaceOf(t))
    ensures forall k: Key :: IsData(d, t, key, k) ==> k !in u
    ensures Expiry.Recorded(u, d, t, key).None?
    ensures Expiry.Recorded(s, d, t, key).Some? ==>
              !Expiry.HasTimeKey(u, d, t, key, Expiry.Recorded(s, d, t, key).value)
  {
    hide NameSet, IsData;
    var names, mk := NameSet(s, d, SpaceOf(t)), ExpMetaKey(d, t.Code(), key);
    forall k: Key | IsData(d, t, key, k) ensures k !in u { FlushedRecord(s, u, d, t, names, key, k); }
    if mk in s {
      FlushedRecord(s, u, d, t, names, key, mk);
      FlushedRecord(s, u, d, t, names, key, ExpTimeKey(d, GetInt(s, mk), t.Code(), key));
    } else {
      assert Lookup(u, mk) == None || Lookup(u, mk) == Lookup(s, mk);
    }
  }

  lemma FlushedRecord(s: Store, u: Store, d: nat, t: DataType, names: set<bytes>, key: bytes, k: Key)
    requires FlushedTo(s, u, d, t, names) && key in names && Gone(s, d, t, key, k)
    ensures k !in u
  {
    hide Gone;
    assert Lookup(u, k) == None;
  }

  /** No record of another type, or of another database, is touched. */
  lemma FlushFrame(s: Store, u: Store, d: nat, t: DataType, d': nat, t': DataType, key: bytes, k: Key)
    requires FlushedTo(s, u, d, t, NameSet(s, d, SpaceOf(t))) && IsData(d', t', key, k) && (d' != d || t' != t)
    ensures Lookup(u, k) == Lookup(s, k)
  {
    hide NameSet;
    var names := NameSet(s, d, SpaceOf(t));
    assert Lookup(u, k) == if (exists x :: x in names && Gone(s, d, t, x, k)) then None else Lookup(s, k);
    if x :| x in names && Gone(s, d, t, x, k) {
      DataOwner(d', t', key, t', key, k);
      SameDb(d, t, x, d', t', key, k);
      DataOwner(d, t, x, t', key, k);
    }
  }

  lemma SameDb(d: nat, t: DataType, x: bytes, d': nat, t': DataType, key: bytes, k: Key)
    requires IsData(d, t, x, k) && IsData(d', t', key, k)
    ensures d == d'
  {
  }

  // ---------------------------------------------------------------- names too long for zDelete

  /** One name of a round over sorted sets: zDelete refuses a name that is too long, rmExpire does not. */
  ghost function AnyKeyOps(s: Store, d: nat, key: bytes): (ops: Ops)
    requires Whole(s, d)
  {
    WholeParts(s, d, key);
    ExpiryOps.WholeZSets(s, d);
    ZStores.DeleteOps(s, d, key) + RmExpireOps(s, d, ZSET_TYPE, key)
  }

  ghost function AnyRound(s: Store, d: nat, keys: seq<bytes>): (ops: Ops)
    requires Whole(s, d)
  {
    if keys == [] then [] else AnyRound(s, d, keys[..|keys| - 1]) + AnyKeyOps(s, d, keys[|keys| - 1])
  }

  /** What the deletes for one name take away. */
  predicate AnyGone(s: Store, d: nat, key: bytes, k: Key) {
    Gone(s, d, ZSetData, key, k) && (|key| <= MAX_KEY_SIZE || IsExpiry(k))
  }

  lemma AnyKeyOpsAre(s: Store, d: nat, key: bytes, k: Key)
    requires Whole(s, d)
    ensures AllDeletes(AnyKeyOps(s, d, key))
    ensures |key| <= MAX_KEY_SIZE ==> AnyKeyOps(s, d, key) == KeyOps(s, d, ZSetData, key)
    ensures k in s ==> (Touches(AnyKeyOps(s, d, key), k) <==> AnyGone(s, d, key, k))
  {
    hide Whole, Apply;
    WholeParts(s, d, key);
    ExpiryOps.WholeZSets(s, d);
    if |key| <= MAX_KEY_SIZE {
      KeyOpsAre(s, d, ZSetData, key, k);
    } else {
      hide ZSets.ZOK, ValidStore, SizeOK, Lists.LOK, IsData;
      var ops := AnyKeyOps(s, d, key);
      assert ops == RmExpireOps(s, d, ZSET_TYPE, key);
      DeletesAt(s, ops, k);
      RmExpireEffect(s, s, d, ZSET_TYPE, key, k);
      if IsExpiry(k) { NotData(d, ZSetData, key, k); }
    }
  }

  lemma {:induction false} AnyRoundDeletes(s: Store, d: nat, keys: seq<bytes>)
    requires Whole(s, d)
    ensures AllDeletes(AnyRound(s, d, keys))
  {
    hide Whole, AnyKeyOps;
    if keys != [] {
      AnyRoundDeletes(s, d, keys[..|keys| - 1]);
      AnyKeyOpsAre(s, d, keys[|keys| - 1], Key(d, KV([])));
    }
  }

  /** The deletes for one more name. */
  lemma AnyStepAt(s: Store, d: nat, keys: seq<bytes>, k: Key)
    requires Whole(s, d) && keys != []
    ensures var n := |keys| - 1;
            var a, b := Apply(s, AnyRound(s, d, keys[..n])), Apply(s, AnyRound(s, d, keys));
            && Lookup(b, k) == (if AnyGone(s, d, keys[n], k) then None else Lookup(a, k))
            && (k in a ==> Lookup(a, k) == Lookup(s, k))
  {
    hide Whole, AnyKeyOps, AnyGone, Apply;
    var n := |keys| - 1;
    var front, ops := AnyRound(s, d, keys[..n]), AnyKeyOps(s, d, keys[n]);
    AnyRoundDeletes(s, d, keys[..n]);
    AnyKeyOpsAre(s, d, keys[n], k);
    ApplyAppend(s, front, ops);
    DeletesAt(s, front, k);
    DeletesAt(Apply(s, front), ops, k);
  }

  /** What one more name does to one record: a short one loses its data, a long one keeps it. */
  ghost predicate AnyStep(a: Store, b: Store, d: nat, key: bytes, k: Key) {
    && (k in b ==> Lookup(b, k) == Lookup(a, k))
    && (!IsExpiry(k) ==>
          Lookup(b, k) == if |key| <= MAX_KEY_SIZE && IsData(d, ZSetData, key, k) then None else Lookup(a, k))
  }

  lemma AnyStepHolds(s: Store, d: nat, keys: seq<bytes>, k: Key)
    requires Whole(s, d) && keys != []
    ensures var n := |keys| - 1;
            AnyStep(Apply(s, AnyRound(s, d, keys[..n])), Apply(s, AnyRound(s, d, keys)), d, keys[n], k)
  {
    hide Whole, Apply, AnyRound, IsData;
    var b := Apply(s, AnyRound(s, d, keys));
    AnyStepAt(s, d, keys, k);
    assert k in b <==> Lookup(b, k).Some?;
  }

  lemma AnyStepWhole(a: Store, b: Store, d: nat, key: bytes)
    requires Whole(a, d) && forall k: Key :: AnyStep(a, b, d, key, k)
    ensures Whole(b, d)
  {
    hide Whole, IsData;
    forall k: Key
      ensures k in b ==> Lookup(b, k) == Lookup(a, k)
      ensures !IsExpiry(k) ==>
                Lookup(b, k) == if |key| <= MAX_KEY_SIZE && IsData(d, ZSetData, key, k) then None else Lookup(a, k)
    {
      assert AnyStep(a, b, d, key, k);
    }
    if |key| <= MAX_KEY_SIZE {
      ErasedWhole(a, b, d, ZSetData, key);
    } else {
      SubsetValid(a, b, d);
      Expiry.SameDataWhole(a, b, d);
    }
  }

  /** Rounds over sorted sets keep the invariants, whatever the names. */
  lemma {:induction false} AnyRoundWhole(s: Store, d: nat, keys: seq<bytes>)
    requires Whole(s, d)
    ensures Whole(Apply(s, AnyRound(s, d, keys)), d)
  {
    if keys != [] {
      hide Whole, AnyKeyOps, Apply, AnyRound, AnyStep;
      var n := |keys| - 1;
      var a, b := Apply(s, AnyRound(s, d, keys[..n])), Apply(s, AnyRound(s, d, keys));
      AnyRoundWhole(s, d, keys[..n]);
      forall k: Key ensures AnyStep(a, b, d, keys[n], k) { AnyStepHolds(s, d, keys, k); }
      AnyStepWhole(a, b, d, keys[n]);
    }
  }

  lemma SubsetValid(a: Store, b: Store, d: nat)
    requires Whole(a, d) && forall k: Key :: k in b ==> Lookup(b, k) == Lookup(a, k)
    ensures ValidStore(b)
  {
    WholeParts(a, d, []);
    hide Whole;
    forall k | k in b ensures ValidRecord(k, b[k]) {
      assert Lookup(b, k) == Lookup(a, k);
      assert ValidRecord(k, a[k]);
    }
  }

  /** The size record of a sorted set whose name is too long survives every round. */
  lemma {:induction false} LongNameSurvives(s: Store, d: nat, keys: seq<bytes>, name: bytes)
    requires Whole(s, d) && |name| > MAX_KEY_SIZE && name in NameSet(s, d, SpaceOf(ZSetData))
    ensures name in NameSet(Apply(s, AnyRound(s, d, keys)), d, SpaceOf(ZSetData))
  {
    hide Whole, NameSet, Apply, AnyKeyOps;
    var mk, u := MetaKey(d, ZSetData, name), Apply(s, AnyRound(s, d, keys));
    MetaNamed(s, d, ZSetData, name);
    MetaNamed(u, d, ZSetData, name);
    if keys == [] {
      ApplyFew(s, Delete(mk), Delete(mk), Delete(mk));
    } else {
      var n := |keys| - 1;
      LongNameSurvives(s, d, keys[..n], name);
      MetaNamed(Apply(s, AnyRound(s, d, keys[..n])), d, ZSetData, name);
      AnyStepAt(s, d, keys, mk);
      if Gone(s, d, ZSetData, keys[n], mk) { GoneMeta(s, d, ZSetData, keys[n], name); }
      assert mk in u <==> Lookup(u, mk).Some?;
    }
  }

  lemma {:induction false} ShortRounds(s: Store, d: nat, keys: seq<bytes>)
    requires Whole(s, d) && Short(keys)
    ensures AnyRound(s, d, keys) == RoundOps(s, d, ZSetData, keys)
  {
    hide Whole, AnyKeyOps, KeyOps;
    if keys != [] {
      ShortRounds(s, d, keys[..|keys| - 1]);
      AnyKeyOpsAre(s, d, keys[|keys| - 1], Key(d, KV([])));
    }
  }

  /** The loop of flushType on sorted sets: what is stored, and the batch that is never reset. */
  datatype FlushState = FlushState(bucket: Store, batch: Ops)

  /** After `n` rounds, or after as many as it takes to find no name. */
  ghost function Rounds(s: Store, d: nat, n: nat): (f: FlushState) {
    if n == 0 then FlushState(s, [])
    else
      var f := Rounds(s, d, n - 1);
      var keys := NextPage(f.bucket, d, ZSetData);
      if keys == [] || !Whole(f.bucket, d) then f
      else
        var batch := f.batch + AnyRound(f.bucket, d, keys);
        FlushState(Apply(f.bucket, batch), batch)
  }

  lemma AnyRoundFacts(a: Store, d: nat, keys: seq<bytes>, b: Ops)
    requires Whole(a, d) && Spent(b, a)
    ensures var ops := AnyRound(a, d, keys);
            var u := Apply(a, ops);
            Apply(a, b + ops) == u && Spent(b + ops, u) && Whole(u, d)
  {
    hide Whole, AnyRound, Apply;
    var ops := AnyRound(a, d, keys);
    var u := Apply(a, ops);
    AnyRoundDeletes(a, d, keys);
    AnyRoundWhole(a, d, keys);
    DeletesAgain(a, b, ops);
    forall k: Key | Touches(b + ops, k) ensures k !in u {
      DeletesAt(a, b + ops, k);
      assert Lookup(u, k).None?;
    }
  }

  /** Every round keeps the invariants, and its batch is spent. */
  lemma {:induction false} RoundsKeep(s: Store, d: nat, n: nat)
    requires Whole(s, d)
    ensures Whole(Rounds(s, d, n).bucket, d) && Spent(Rounds(s, d, n).batch, Rounds(s, d, n).bucket)
  {
    hide Whole, NextPage, AnyRound, Apply, Spent;
    if n == 0 {
      NothingSpent(s);
    } else {
      RoundsKeep(s, d, n - 1);
      var f := Rounds(s, d, n - 1);
      AnyRoundFacts(f.bucket, d, NextPage(f.bucket, d, ZSetData), f.batch);
    }
  }

  /** One more round is a round on what is stored; the repeated deletes do nothing. */
  lemma OneRound(s: Store, d: nat, n: nat)
    requires Whole(s, d) && n > 0
    ensures var a := Rounds(s, d, n - 1).bucket;
            Whole(a, d) &&
            var keys := NextPage(a, d, ZSetData);
            Rounds(s, d, n).bucket == if keys == [] then a else Apply(a, AnyRound(a, d, keys))
  {
    hide Whole, NextPage, AnyRound, Apply, Spent;
    RoundsKeep(s, d, n - 1);
    var f := Rounds(s, d, n - 1);
    AnyRoundFacts(f.bucket, d, NextPage(f.bucket, d, ZSetData), f.batch);
  }

  lemma {:induction false} LongNameStays(s: Store, d: nat, n: nat, name: bytes)
    requires Whole(s, d) && |name| > MAX_KEY_SIZE && name in NameSet(s, d, SpaceOf(ZSetData))
    ensures name in NameSet(Rounds(s, d, n).bucket, d, SpaceOf(ZSetData))
  {
    hide Whole, NextPage, NameSet, AnyRound, Apply, Rounds;
    if n == 0 {
      NoRounds(s, d);
    } else {
      LongNameStays(s, d, n - 1, name);
      OneRound(s, d, n);
      var a := Rounds(s, d, n - 1).bucket;
      LongNameSurvives(a, d, NextPage(a, d, ZSetData), name);
    }
  }

  lemma NoRounds(s: Store, d: nat)
    ensures Rounds(s, d, 0).bucket == s
  {
  }

  /** With short names only, every round but the last takes a name away. */
  lemma {:induction false} ShortNamesGo(s: Store, d: nat, n: nat)
    requires Whole(s, d) && ShortNames(s, d, ZSetData)
    ensures var u, sp := Rounds(s, d, n).bucket, SpaceOf(ZSetData);
            && NameSet(u, d, sp) <= NameSet(s, d, sp)
            && (NextPage(u, d, ZSetData) == [] || |NameSet(u, d, sp)| + n <= |NameSet(s, d, sp)|)
  {
    hide Whole, NextPage, NameSet, AnyRound, Apply, Rounds, SpaceOf;
    if n == 0 {
      NoRounds(s, d);
    } else {
      ShortNamesGo(s, d, n - 1);
      OneRound(s, d, n);
      var a := Rounds(s, d, n - 1).bucket;
      var keys := NextPage(a, d, ZSetData);
      if keys != [] { FewerNames(s, a, d, keys); }
    }
  }

  lemma FewerNames(s: Store, a: Store, d: nat, keys: seq<bytes>)
    requires Whole(a, d) && ShortNames(s, d, ZSetData) && keys == NextPage(a, d, ZSetData) && keys != []
    requires NameSet(a, d, SpaceOf(ZSetData)) <= NameSet(s, d, SpaceOf(ZSetData))
    ensures var u, sp := Apply(a, AnyRound(a, d, keys)), SpaceOf(ZSetData);
            NameSet(u, d, sp) <= NameSet(a, d, sp) && |NameSet(u, d, sp)| < |NameSet(a, d, sp)|
  {
    hide Whole, NextPage, NameSet, AnyRound, Apply, SpaceOf;
    WholeParts(a, d, []);
    FirstPage(a, d, ZSetData, keys);
    var names, more := NameSet(a, d, SpaceOf(ZSetData)), set n | n in keys;
    forall i | 0 <= i < |keys| ensures |keys[i]| <= MAX_KEY_SIZE { assert keys[i] in more; }
    ShortRounds(a, d, keys);
    RoundNames(a, d, ZSetData, keys);
    assert |names| == |names - more| + |more| by { assert names == (names - more) + more; SetAdds(names - more, more); }
  }

  /**
   Flushing the sorted sets ends if and only if every name that the scan finds is one that zDelete
   accepts: a name that is too long is found again after every round.
   */
  lemma FlushEndsIff(s: Store, d: nat)
    requires Whole(s, d)
    ensures (exists n: nat :: NextPage(Rounds(s, d, n).bucket, d, ZSetData) == []) <==> ShortNames(s, d, ZSetData)
  {
    hide Whole, NextPage, NameSet, Rounds;
    var names := NameSet(s, d, SpaceOf(ZSetData));
    if ShortNames(s, d, ZSetData) {
      var u := Rounds(s, d, |names|).bucket;
      ShortNamesGo(s, d, |names|);
      RoundsKeep(s, d, |names|);
      WholeParts(u, d, []);
      FirstPage(u, d, ZSetData, NextPage(u, d, ZSetData));
      assert NextPage(Rounds(s, d, |names|).bucket, d, ZSetData) == [];
    } else {
      var name :| name in names && |name| > MAX_KEY_SIZE;
      forall n: nat ensures NextPage(Rounds(s, d, n).bucket, d, ZSetData) != [] {
        var u := Rounds(s, d, n).bucket;
        LongNameStays(s, d, n, name);
        RoundsKeep(s, d, n);
        WholeParts(u, d, []);
        FirstPage(u, d, ZSetData, NextPage(u, d, ZSetData));
      }
    }
  }

  /**
   A store of an empty union or intersection under a name that is too long leaves such a name: from
   then on a flush of the sorted sets does not end.
   */
  lemma EmptyStoreBlocksFlush(s: Store, d: nat, dest: bytes)
    requires Whole(s, d) && ZRuns.RunInv(s, d) && |dest| > MAX_KEY_SIZE
    ensures var u := ZStores.Stored(s, d, dest, []);
            Whole(u, d) && forall n: nat :: NextPage(Rounds(u, d, n).bucket, d, ZSetData) != []
  {
    hide Rounds, NextPage, NameSet, ZStores.Stored;
    var u := ZStores.Stored(s, d, dest, []);
    ZRuns.StoredNothing(s, d, dest);
    OtherTypesWhole(s, u, d, dest);
    MetaNamed(u, d, ZSetData, dest);
    assert MetaKey(d, ZSetData, dest) == ZSets.CountKey(d, dest);
    assert Lookup(u, ZSets.CountKey(d, dest)).Some?;
    FlushEndsIff(u, d);
  }

  lemma OtherTypesWhole(s: Store, u: Store, d: nat, dest: bytes)
    requires Whole(s, d) && ZSets.ZInv(u, d)
    requires forall k: Key :: k != ZSets.CountKey(d, dest) ==> Lookup(u, k) == Lookup(s, k)
    ensures Whole(u, d)
  {
    hide ValidStore, ZSets.ZOK, Lists.LOK, SizeOK;
    forall key: bytes ensures Lists.LOK(u, d, key) && SizeOK(u, d, HashColl, key) && SizeOK(u, d, SetColl, key) {
      WholeParts(s, d, key);
      hide Whole;
      Lists.FrameList(s, u, d, key);
      Collections.FrameSize(s, u, d, HashColl, key);
      Collections.FrameSize(s, u, d, SetColl, key);
    }
  }
}
