/** The expiry operations and the background check as the program runs them (ledis/t_ttl.go). */
module ExpiryOps {
  import opened Bytes
  import opened Keys
  import opened Batches
  import opened Ranges
  import opened Database
  import opened Records
  import opened Expiry
  import Lists
  import ListOps
  import SetOps
  import ZSets
  import ZSetOps

  /** Whether the data-type operation finds the key before it records an expiry. */
  function Present(s: Store, d: nat, t: DataType, key: bytes): (r: bool) {
    match t
    case KVData => Key(d, KV(key)) in s
    case ListData => Lists.Len(s, d, key) != 0
    case HashData => GetInt(s, SizeKey(d, HashColl, key)) != 0
    case ZSetData => GetInt(s, SizeKey(d, ZSetColl, key)) != 0
    case SetData => GetInt(s, SizeKey(d, SetColl, key)) != 0
  }

  /** With the invariants of all types, that is whether there is any value under the key. */
  lemma PresentIsValue(s: Store, d: nat, t: DataType, key: bytes)
    requires Whole(s, d)
    ensures Present(s, d, t, key) <==>
            match t
            case KVData => Key(d, KV(key)) in s
            case ListData => Lists.Contents(s, d, key) != []
            case HashData => Members(s, d, HashColl, key) != {}
            case ZSetData => Members(s, d, ZSetColl, key) != {}
            case SetData => Members(s, d, SetColl, key) != {}
  {
    hide Whole, Lists.LOK, Lists.Contents;
    WholeParts(s, d, key);
    Lists.LenIsLength(s, d, key);
  }

  /** The delete callback of a type, which adds to the batch. */
  method DeleteData(db: DB, t: DataType, key: bytes)
    requires db.Sound() && Whole(db.bucket, db.index) && |key| <= MAX_KEY_SIZE
    modifies db`batch
    ensures db.batch == old(db.batch) + DeleteOps(db.bucket, db.index, t, key)
  {
    hide ValidStore, Whole, Lists.LOK, ZSets.ZOK, SizeOK;
    WholeParts(db.bucket, db.index, key);
    match t {
      case KVData =>
        db.batch := db.batch + [Delete(Key(db.index, KV(key)))];
      case ListData =>
        var _ := ListOps.DeleteList(db, key);
      case HashData =>
        var _ := SetOps.DeleteMembers(db, HashColl, key);
      case ZSetData =>
        WholeZSets(db.bucket, db.index);
        ZSetOps.DeleteBatch(db, key);
      case SetData =>
        var _ := SetOps.DeleteMembers(db, SetColl, key);
    }
  }

  class TTLChecker {
    const db: DB
    var nc: int

    constructor (db: DB)
      ensures this.db == db && nc == 0
    {
      this.db, nc := db, 0;
    }

    method SetNextCheckTime(when: int, force: bool)
      modifies this`nc
      ensures nc == if force then when else Lowered(old(nc), when)
    {
      if force {
        nc := when;
      } else if nc > when {
        nc := when;
      }
    }

    /** The five xExpireAt: the next check is moved before the commit, so also when that is refused. */
    method ExpireAt(t: DataType, key: bytes, when: int) returns (r: Reply<int>)
      requires db.Ready()
      modifies this`nc, db`bucket, db`batch
      ensures db.batch == []
      ensures var s, d := old(db.bucket), db.index;
              if !KeySizeOK(key) then r == Fail(ErrKeySize) && db.bucket == s && nc == old(nc)
              else if !Present(s, d, t, key) then r == Done(0) && db.bucket == s && nc == old(nc)
              else
                && nc == Lowered(old(nc), when)
                && if db.readonly then r == Fail(ErrReadonly) && db.bucket == s
                   else r == Done(1) && db.bucket == Expiring(s, d, t, key, when)
    {
      hide ValidStore, Apply, Present;
      if !KeySizeOK(key) {
        return Fail(ErrKeySize);
      }
      if !Present(db.bucket, db.index, t, key) {
        return Done(0);
      }
      db.batch := db.batch + ExpireOps(db.index, t, key, when);
      assert db.batch == ExpireOps(db.index, t, key, when);
      SetNextCheckTime(when, false);
      var ok := db.Commit();
      db.Unlock();
      r := if ok then Done(1) else Fail(ErrReadonly);
    }

    /** The five xExpire: the time is the clock plus the duration, in 64 bits. */
    method Expire(t: DataType, key: bytes, duration: int, now: int) returns (r: Reply<int>)
      requires db.Ready()
      modifies this`nc, db`bucket, db`batch
      ensures db.batch == []
      ensures var s, d, when := old(db.bucket), db.index, Wrap64(now + duration);
              if duration <= 0 then r == Fail(ErrExpireValue) && db.bucket == s && nc == old(nc)
              else if !KeySizeOK(key) then r == Fail(ErrKeySize) && db.bucket == s && nc == old(nc)
              else if !Present(s, d, t, key) then r == Done(0) && db.bucket == s && nc == old(nc)
              else
                && nc == Lowered(old(nc), when)
                && if db.readonly then r == Fail(ErrReadonly) && db.bucket == s
                   else r == Done(1) && db.bucket == Expiring(s, d, t, key, when)
    {
      hide ValidStore, Apply, Present;
      if duration <= 0 {
        return Fail(ErrExpireValue);
      }
      r := ExpireAt(t, key, Wrap64(now + duration));
    }

    /** The five xPersist. */
    method Persist(t: DataType, key: bytes) returns (r: Reply<int>)
      requires db.Ready()
      modifies db`bucket, db`batch
      ensures db.batch == []
      ensures var s, d := old(db.bucket), db.index;
              if !KeySizeOK(key) then r == Fail(ErrKeySize) && db.bucket == s
              else if db.readonly then r == Fail(ErrReadonly) && db.bucket == s
              else
                && r == Done(if Recorded(s, d, t, key).Some? then 1 else 0)
                && db.bucket == Apply(s, RmExpireOps(s, d, t.Code(), key))
    {
      hide ValidStore, Apply;
      if !KeySizeOK(key) {
        return Fail(ErrKeySize);
      }
      var n := if ExpMetaKey(db.index, t.Code(), key) in db.bucket then 1 else 0;
      db.batch := db.batch + RmExpireOps(db.bucket, db.index, t.Code(), key);
      assert db.batch == RmExpireOps(db.bucket, db.index, t.Code(), key);
      var ok := db.Commit();
      db.Unlock();
      r := if ok then Done(n) else Fail(ErrReadonly);
    }

    /** One record of the scan, under the lock of its data type. */
    method ExpireRecord(t: DataType, key: bytes, when: int, now: int)
      requires db.Ready() && Whole(db.bucket, db.index) && |key| <= MAX_KEY_SIZE
      modifies db`bucket, db`batch
      ensures db.Ready() && Whole(db.bucket, db.index)
      ensures db.bucket == if db.readonly then old(db.bucket)
                else ExpireOne(old(db.bucket), db.index, t, key, when, now)
    {
      hide ValidStore, Whole, DeleteOps, Apply, IsExpiry;
      var mk := ExpMetaKey(db.index, t.Code(), key);
      ExpireOneErases(db.bucket, db.index, t, key, when, now);
      if GetInt(db.bucket, mk) <= now {
        DeleteData(db, t, key);
        assert db.batch == DeleteOps(db.bucket, db.index, t, key);
        db.batch := db.batch + [Delete(ExpTimeKey(db.index, when, t.Code(), key)), Delete(mk)];
        var _ := db.Commit();
      }
      db.Unlock();
      WholeParts(db.bucket, db.index, []);
    }

    /** check: on a node that refuses commits the store stays and only the next check moves. */
    method Check(now: int)
      requires db.Ready() && TInv(db.bucket, db.index) && ClockOK(now)
      modifies this`nc, db`bucket, db`batch
      ensures db.batch == []
      ensures now < old(nc) ==> db.bucket == old(db.bucket) && nc == old(nc)
      ensures now >= old(nc) ==>
                && db.bucket == (if db.readonly then old(db.bucket) else Checked(old(db.bucket), db.index, now))
                && nc == NextCheck(old(db.bucket), db.index, now)
    {
      hide ValidStore, Whole, Paired, Bounded, ExpireOne, Matching, Query, TimeRangeOf, ExpireAll, Encode;
      if now < nc {
        return;
      }
      var next := now + HORIZON;
      ghost var s, d := db.bucket, db.index;
      WholeParts(s, d, []);
      ScannedTimes(s, d, now);
      QueryAll(s, TimeRangeOf(d, now + HORIZON), false);
      var ks := RangeKeys(db.bucket, TimeRangeOf(db.index, next), Limit(0, -1), false);
      var i := 0;
      NothingExpired(s, d, now);
      assert ks[..0] == [];
      while i < |ks| && ks[i].kind.when <= now
        invariant 0 <= i <= DueCount(ks, now) && next == now + HORIZON && nc == old(nc)
        invariant db.Ready() && Whole(db.bucket, d) && AreTimeKeys(d, ks[..i])
        invariant db.bucket == if db.readonly then s else ExpireAll(s, d, ks[..i], now)
      {
        var k := ks[i].kind;
        assert IsTimeKey(d, ks[i]);
        DueSoFar(ks, now, i);
        ExpireRecord(TypeOf(k.dataType).value, k.key, k.when, now);
        ExpireNext(s, d, ks, now, i);
        i := i + 1;
      }
      DueSoFar(ks, now, i);
      if i < |ks| {
        next := ks[i].kind.when;
      }
      SetNextCheckTime(next, true);
    }
  }

  /**
   A key that had no time record, given a duration, falls to the checks from its time on if and only
   if clock plus duration fit 63 bits; otherwise the recorded time is negative and has no effect.
   */
  lemma DurationMetIff(s: Store, d: nat, t: DataType, key: bytes, duration: int, now: int, later: int)
    requires TInv(s, d) && KeySizeOK(key) && ClockOK(now) && 0 < duration && IsInt64(duration)
    requires forall x :: !HasTimeKey(s, d, t, key, x)
    requires ClockOK(later) && Wrap64(now + duration) <= later
    ensures var u := Expiring(s, d, t, key, Wrap64(now + duration));
            TInv(u, d) && (Due(u, d, t, key, later) <==> now + duration < TWO_63)
  {
    hide TInv, Expiring, Due, OnlyTime, HasTimeKey, Wrap64;
    var when := Wrap64(now + duration);
    var u := Expiring(s, d, t, key, when);
    Overflows(now, duration);
    ExpiringKeeps(s, d, t, key, when, LowBound(s, d));
    OnlyExpiry(s, d, t, key, when);
    MetIff(u, d, t, key, when, later);
  }

  lemma Overflows(now: int, duration: int)
    requires ClockOK(now) && 0 < duration && IsInt64(duration)
    ensures 0 <= Wrap64(now + duration) <==> now + duration < TWO_63
  {
  }

  lemma OnlyExpiry(s: Store, d: nat, t: DataType, key: bytes, when: int)
    requires forall x :: !HasTimeKey(s, d, t, key, x)
    ensures OnlyTime(Expiring(s, d, t, key, when), d, t, key, when)
  {
    hide Expiring;
    var u, mk := Expiring(s, d, t, key, when), ExpMetaKey(d, t.Code(), key);
    ExpiringAt(s, d, t, key, when, mk);
    assert mk in u <==> Lookup(u, mk).Some?;
    forall x: int | HasTimeKey(u, d, t, key, x) ensures x == when {
      var tk := ExpTimeKey(d, x, t.Code(), key);
      ExpiringAt(s, d, t, key, when, tk);
      assert tk in u <==> Lookup(u, tk).Some?;
      assert !HasTimeKey(s, d, t, key, x);
    }
  }

  lemma WholeZSets(s: Store, d: nat)
    requires Whole(s, d)
    ensures ZSets.ZInv(s, d)
  {
  }

  lemma NothingExpired(s: Store, d: nat, now: int)
    requires Whole(s, d)
    ensures ExpireAll(s, d, [], now) == s
  {
  }

  lemma ExpireNext(s: Store, d: nat, ks: seq<Key>, now: int, i: nat)
    requires Whole(s, d) && AreTimeKeys(d, ks) && i < |ks|
    ensures AreTimeKeys(d, ks[..i]) && AreTimeKeys(d, ks[..i + 1])
    ensures var k, a := ks[i].kind, ExpireAll(s, d, ks[..i], now);
            IsTimeKey(d, ks[i]) &&
                ExpireAll(s, d, ks[..i + 1], now) == ExpireOne(a, d, TypeOf(k.dataType).value, k.key, k.when, now)
  {
    hide Whole, ExpireOne;
    assert ks[..i + 1][..i] == ks[..i];
    assert IsTimeKey(d, ks[i]);
  }

  /** The loop stops where the count of due records says. */
  lemma {:induction false} DueSoFar(ks: seq<Key>, now: int, i: nat)
    requires (forall j :: 0 <= j < |ks| ==> ks[j].kind.ExpTime?) && i <= DueCount(ks, now)
    ensures i < |ks| && ks[i].kind.when <= now ==> i < DueCount(ks, now)
    ensures i == |ks| || ks[i].kind.when > now ==> i == DueCount(ks, now)
  {
  }
}
