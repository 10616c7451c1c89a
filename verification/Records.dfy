/**
 All data types together: which records make up the value of a key of a given type, the delete
 callback of each type (the ones that expiry and flushing use), and the invariants of all types.
 */
module Records {
  import opened Bytes
  import opened Keys
  import opened Batches
  import opened Database
  import ZSets
  import ZQueries
  import ZWrites
  import ZStores
  import Lists
  import Collections

  datatype DataType = KVData | ListData | HashData | ZSetData | SetData {
    function Code(): (b: byte) {
      match this
      case KVData => KV_TYPE
      case ListData => LIST_TYPE
      case HashData => HASH_TYPE
      case ZSetData => ZSET_TYPE
      case SetData => SET_TYPE
    }
  }

  /** The type registered for a code, if any. */
  function TypeOf(b: byte): (t: Option<DataType>)
    ensures t.Some? ==> t.value.Code() == b
  {
    if b == KV_TYPE then Some(KVData)
    else if b == LIST_TYPE then Some(ListData)
    else if b == HASH_TYPE then Some(HashData)
    else if b == ZSET_TYPE then Some(ZSetData)
    else if b == SET_TYPE then Some(SetData)
    else None
  }

  /** The records that hold the value of a key. */
  predicate IsData(d: nat, t: DataType, key: bytes, k: Key) {
    match t
    case KVData => k == Key(d, KV(key))
    case ListData => Lists.IsRecordOf(d, key, k)
    case HashData => Collections.IsRecordOf(d, HashColl, key, k)
    case ZSetData => ZSets.IsRecordOf(d, key, k)
    case SetData => Collections.IsRecordOf(d, SetColl, key, k)
  }

  predicate IsExpiry(k: Key) { k.kind.ExpMeta? || k.kind.ExpTime? }

  /** A record belongs to one key of one type. */
  lemma DataOwner(d: nat, t: DataType, key: bytes, t': DataType, key': bytes, k: Key)
    requires IsData(d, t, key, k) && IsData(d, t', key', k)
    ensures t == t' && key == key' && !IsExpiry(k)
  {
  }

  /** The invariants of all types in one database. */
  ghost predicate Whole(s: Store, d: nat) {
    && d <= MAX_DATABASES && Lists.LInv(s, d) && ZSets.ZInv(s, d)
    && Collections.CInv(s, d, HashColl) && Collections.CInv(s, d, SetColl)
  }

  lemma WholeParts(s: Store, d: nat, key: bytes)
    requires Whole(s, d)
    ensures d <= MAX_DATABASES && ValidStore(s) && Lists.LOK(s, d, key) && ZSets.ZOK(s, d, key)
    ensures SizeOK(s, d, HashColl, key) && SizeOK(s, d, SetColl, key)
  {
  }

  // ---------------------------------------------------------------- the delete callbacks

  /** db.delete, lDelete, hDelete, zDelete and sDelete. */
  ghost function DeleteOps(s: Store, d: nat, t: DataType, key: bytes): (ops: Ops)
    requires Whole(s, d) && |key| <= MAX_KEY_SIZE
  {
    WholeParts(s, d, key);
    match t
    case KVData => [Delete(Key(d, KV(key)))]
    case ListData => DeleteAll(Lists.Walked(s, d, key)) + [Delete(Lists.EndsKey(d, key))]
    case HashData => Collections.DeleteOps(s, d, HashColl, key)
    case ZSetData => ZStores.DeleteOps(s, d, key)
    case SetData => Collections.DeleteOps(s, d, SetColl, key)
  }

  /** Every callback removes all records of its key; zDelete removes the recorded expiry as well. */
  lemma DeletedAt(s: Store, d: nat, t: DataType, key: bytes, k: Key)
    requires Whole(s, d) && |key| <= MAX_KEY_SIZE
    ensures var mk := ExpMetaKey(d, t.Code(), key);
            Lookup(Apply(s, DeleteOps(s, d, t, key)), k) ==
            if IsData(d, t, key, k) then None
            else if t.ZSetData? && mk in s && (k == mk || k == ExpTimeKey(d, GetInt(s, mk), ZSET_TYPE, key)) then None
            else Lookup(s, k)
  {
    hide Whole, Apply, Lists.LOK, ZSets.ZOK, ValidStore, SizeOK, Lists.Walked, Collections.DeleteOps, ZStores.DeleteOps,
         DeleteAll;
    WholeParts(s, d, key);
    match t
    case KVData =>
      var del: Op<Key, Val> := Delete(Key(d, KV(key)));
      ApplyFew(s, del, del, del);
    case ListData => ListDeletedAt(s, d, key, k);
    case HashData => Collections.DeletedAt(s, d, HashColl, key, k);
    case ZSetData => ZSetDeletedAt(s, d, key, k);
    case SetData => Collections.DeletedAt(s, d, SetColl, key, k);
  }

  lemma ListDeletedAt(s: Store, d: nat, key: bytes, k: Key)
    requires Whole(s, d) && |key| <= MAX_KEY_SIZE
    ensures Lookup(Apply(s, DeleteOps(s, d, ListData, key)), k) == if Lists.IsRecordOf(d, key, k) then None
              else Lookup(s, k)
  {
    hide Whole, Apply, Lists.LOK, ValidStore, SizeOK, Lists.Walked, DeleteAll;
    WholeParts(s, d, key);
    var del: Op<Key, Val> := Delete(Lists.EndsKey(d, key));
    var ks := Lists.Walked(s, d, key);
    Lists.WalkedItems(s, d, key, k);
    DeleteAllEffect(s, ks, k);
    ApplyOne(s, DeleteAll(ks), del);
    assert k in s <==> Lookup(s, k).Some?;
  }

  lemma ZSetDeletedAt(s: Store, d: nat, key: bytes, k: Key)
    requires Whole(s, d) && |key| <= MAX_KEY_SIZE
    ensures var mk := ExpMetaKey(d, ZSET_TYPE, key);
            Lookup(Apply(s, DeleteOps(s, d, ZSetData, key)), k) ==
            if ZSets.IsRecordOf(d, key, k) then None
            else if mk in s && (k == mk || k == ExpTimeKey(d, GetInt(s, mk), ZSET_TYPE, key)) then None
            else Lookup(s, k)
  {
    hide Apply, ZSets.ZOK, ValidStore, SizeOK, ZStores.DeleteOps, ZSets.Removed, ZSets.RemOps, ZQueries.SortedPairs,
         Lists.LInv, Collections.CInv, ZSets.CountStored;
    assert ZSets.ZOK(s, d, key);
    ZStores.DeletedIs(s, d, key);
    var ms := ZSets.MembersOf(ZQueries.SortedPairs(s, d, key));
    var u := ZSets.Removed(s, d, key, ms);
    ZWrites.ClearedIsGone(s, d, key, k);
    ZWrites.ClearCounts(s, d, key);
    ZSets.RemovedAt(s, d, key, ms, k);
    ZSets.RemEffect(s, d, key, ms, k);
    assert k in u <==> Lookup(u, k).Some?;
  }

  // ---------------------------------------------------------------- erasing one key keeps the rest

  /** All records of one key are gone and every other data record is as it was. */
  ghost predicate Erased(s: Store, u: Store, d: nat, t: DataType, key: bytes) {
    && (forall k: Key :: !IsExpiry(k) ==> Lookup(u, k) == if IsData(d, t, key, k) then None else Lookup(s, k))
    && (forall k: Key :: k in u ==> Lookup(u, k) == Lookup(s, k))
  }

  lemma ErasedValid(s: Store, u: Store, d: nat, t: DataType, key: bytes)
    requires ValidStore(s) && Erased(s, u, d, t, key)
    ensures ValidStore(u)
  {
    hide IsData;
    forall k | k in u ensures ValidRecord(k, u[k]) {
      assert Lookup(u, k) == Lookup(s, k);
      assert k in s && u[k] == s[k];
    }
  }

  lemma ErasedLists(s: Store, u: Store, d: nat, t: DataType, key: bytes, other: bytes)
    requires Lists.LOK(s, d, other) && Erased(s, u, d, t, key)
    ensures Lists.LOK(u, d, other)
    ensures t != ListData || other != key ==> Lists.Contents(u, d, other) == Lists.Contents(s, d, other)
  {
    hide Lists.LOK, Lists.Contents;
    if t == ListData && other == key {
      forall q: int ensures Lists.ItemAt(d, key, q) !in u {
        assert IsData(d, t, key, Lists.ItemAt(d, key, q));
        assert Lookup(u, Lists.ItemAt(d, key, q)).None?;
      }
      assert IsData(d, t, key, Lists.EndsKey(d, key));
      assert Lookup(u, Lists.EndsKey(d, key)).None?;
      Lists.MadeEmpty(u, d, key);
    } else {
      forall k: Key | Lists.IsRecordOf(d, other, k) ensures Lookup(u, k) == Lookup(s, k) {
        assert !IsExpiry(k) && !IsData(d, t, key, k);
      }
      Lists.FrameList(s, u, d, other);
    }
  }

  lemma ErasedZSets(s: Store, u: Store, d: nat, t: DataType, key: bytes, other: bytes)
    requires ZSets.ZOK(s, d, other) && Erased(s, u, d, t, key)
    ensures ZSets.ZOK(u, d, other)
    ensures t != ZSetData || other != key ==> ZSets.View(u, d, other) == ZSets.View(s, d, other)
  {
    hide ZSets.ZOK, ZSets.View;
    if t == ZSetData && other == key {
      forall k: Key | ZSets.IsRecordOf(d, key, k) ensures k !in u {
        assert IsData(d, t, key, k) && !IsExpiry(k);
        assert Lookup(u, k).None?;
      }
      NoZSet(u, d, key);
    } else {
      forall k: Key | ZSets.IsRecordOf(d, other, k) ensures Lookup(u, k) == Lookup(s, k) {
        assert !IsExpiry(k) && !IsData(d, t, key, k);
      }
      ZSets.FrameZOK(s, u, d, other);
    }
  }

  lemma NoZSet(u: Store, d: nat, key: bytes)
    requires forall k: Key :: ZSets.IsRecordOf(d, key, k) ==> k !in u
    ensures ZSets.ZOK(u, d, key)
  {
    assert ZSets.IsRecordOf(d, key, ZSets.CountKey(d, key));
    forall m: bytes ensures ZSets.MemberKey(d, key, m) !in u {
      assert ZSets.IsRecordOf(d, key, ZSets.MemberKey(d, key, m));
    }
    forall sc: int, m: bytes ensures ZSets.ScoreKey(d, key, sc, m) !in u {
      assert ZSets.IsRecordOf(d, key, ZSets.ScoreKey(d, key, sc, m));
    }
    assert Members(u, d, ZSetColl, key) == {};
  }

  lemma ErasedSizes(s: Store, u: Store, d: nat, t: DataType, key: bytes, c: Coll, other: bytes)
    requires SizeOK(s, d, c, other) && Erased(s, u, d, t, key) && !c.ZSetColl?
    ensures SizeOK(u, d, c, other)
    ensures t.Code() != c.ItemType() || other != key ==> Members(u, d, c, other) == Members(s, d, c, other)
  {
    hide SizeOK;
    if t.Code() == c.ItemType() && other == key {
      forall m ensures m !in Members(u, d, c, key) {
        assert IsData(d, t, key, ItemKey(d, c, key, m));
        assert Lookup(u, ItemKey(d, c, key, m)).None?;
      }
      assert IsData(d, t, key, SizeKey(d, c, key));
      EmptySize(u, d, c, key);
    } else {
      forall k: Key | Collections.IsRecordOf(d, c, other, k) ensures Lookup(u, k) == Lookup(s, k) {
        assert !IsExpiry(k) && !IsData(d, t, key, k);
      }
      Collections.FrameSize(s, u, d, c, other);
    }
  }

  lemma EmptySize(u: Store, d: nat, c: Coll, key: bytes)
    requires Lookup(u, SizeKey(d, c, key)).None? && Members(u, d, c, key) == {}
    ensures SizeOK(u, d, c, key)
  {
  }

  /** Erasing a key keeps the invariants of all types. */
  lemma ErasedWhole(s: Store, u: Store, d: nat, t: DataType, key: bytes)
    requires Whole(s, d) && Erased(s, u, d, t, key)
    ensures Whole(u, d)
  {
    hide Erased, Lists.LOK, ZSets.ZOK, SizeOK, ValidStore;
    ErasedValid(s, u, d, t, key);
    forall other: bytes ensures Lists.LOK(u, d, other) {
      assert Lists.LOK(s, d, other);
      ErasedLists(s, u, d, t, key, other);
    }
    forall other: bytes ensures ZSets.ZOK(u, d, other) {
      assert ZSets.ZOK(s, d, other);
      ErasedZSets(s, u, d, t, key, other);
    }
    forall other: bytes ensures SizeOK(u, d, HashColl, other) {
      assert SizeOK(s, d, HashColl, other);
      ErasedSizes(s, u, d, t, key, HashColl, other);
    }
    forall other: bytes ensures SizeOK(u, d, SetColl, other) {
      assert SizeOK(s, d, SetColl, other);
      ErasedSizes(s, u, d, t, key, SetColl, other);
    }
  }
}
