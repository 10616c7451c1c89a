/**
 One database as a whole: every writing command on sorted sets, lists, sets and hashes, every expiry
 operation, every background check and every flush, in any order. No command disturbs the records of another
 type, an expiry is dropped only together with its time record, and so one invariant over everything
 stored is kept by every run of safe steps.
 */
module System {
  import opened Bytes
  import opened Keys
  import opened Batches
  import opened Ranges
  import opened Database
  import opened Records
  import opened Expiry
  import opened ExpiryOps
  import ZSets
  import ZQueries
  import ZStores
  import ZWrites
  import ZSetOps
  import ZRuns
  import Lists
  import ListRuns
  import Collections
  import SetOps
  import SetRuns
  import Scan
  import Flush

  datatype Action =
    | ZAction(z: ZRuns.Command)
    | LAction(l: ListRuns.Command)
    | SAction(c: SetRuns.Command)
    | ExpireAction(t: DataType, key: bytes, when: int)
    | PersistAction(t: DataType, key: bytes)
    | CheckAction(now: int)
    | FlushAction(t: DataType)

  ghost predicate Inv(s: Store, d: nat) {
    TInv(s, d) && ZSetOps.NamesBound(s, d) && SetOps.NamesBound(s, d)
  }

  lemma InvParts(s: Store, d: nat)
    requires Inv(s, d)
    ensures d <= MAX_DATABASES && ValidStore(s) && Whole(s, d) && Paired(s, d)
    ensures ZRuns.RunInv(s, d) && ListRuns.RunInv(s, d) && SetRuns.RunInv(s, d)
  {
  }

  // ---------------------------------------------------------------- each type keeps to its records

  /** The kinds of record a type of value uses. */
  predicate IsZSet(k: Key) {
    (k.kind.Item? && k.kind.coll == ZSetColl) || (k.kind.Size? && k.kind.coll == ZSetColl) || k.kind.ZScore?
  }
  predicate IsList(k: Key) { k.kind.ListItem? || k.kind.LMeta? }
  predicate IsSetOrHash(k: Key) { (k.kind.Item? || k.kind.Size?) && k.kind.coll != ZSetColl }

  /** Nothing is done to the expiry records, or one expiry is dropped with its time record. */
  ghost predicate DropsPair(s: Store, u: Store, d: nat, t: DataType, key: bytes) {
    || (forall k: Key :: IsExpiry(k) ==> Lookup(u, k) == Lookup(s, k))
    || (forall k: Key :: IsExpiry(k) ==> Lookup(u, k) == Lookup(Apply(s, RmExpireOps(s, d, t.Code(), key)), k))
  }

  lemma DropsPairIsQuiet(s: Store, u: Store, d: nat, t: DataType, key: bytes)
    requires Paired(s, d) && DropsPair(s, u, d, t, key)
    ensures Quiet(s, u, d)
  {
    hide Apply, RmExpireOps;
    if forall k: Key :: IsExpiry(k) ==> Lookup(u, k) == Lookup(s, k) {
      forall t': DataType, key': bytes
        ensures Recorded(u, d, t', key').Some? ==> HasTimeKey(u, d, t', key', Recorded(u, d, t', key').value)
      {
        SameRecord(s, u, d, t', key');
        assert Recorded(s, d, t', key').Some? ==> HasTimeKey(s, d, t', key', Recorded(s, d, t', key').value);
      }
    } else {
      var v := Apply(s, RmExpireOps(s, d, t.Code(), key));
      forall k: Key | k in u && IsExpiry(k) ensures Lookup(u, k) == Lookup(s, k) {
        RmExpireEffect(s, s, d, t.Code(), key, k);
        assert Lookup(u, k).Some?;
      }
      forall t': DataType, key': bytes
        ensures Recorded(u, d, t', key').Some? ==> HasTimeKey(u, d, t', key', Recorded(u, d, t', key').value)
      {
        PersistRecord(s, d, t, key, t', key');
        SameRecord(v, u, d, t', key');
      }
    }
  }

  lemma SameRecord(s: Store, u: Store, d: nat, t: DataType, key: bytes)
    requires forall k: Key :: IsExpiry(k) ==> Lookup(u, k) == Lookup(s, k)
    ensures Recorded(u, d, t, key) == Recorded(s, d, t, key)
    ensures Recorded(s, d, t, key).Some? ==>
              (HasTimeKey(u, d, t, key, Recorded(s, d, t, key).value) <==>
                  HasTimeKey(s, d, t, key, Recorded(s, d, t, key).value))
  {
    var mk := ExpMetaKey(d, t.Code(), key);
    assert IsExpiry(mk);
    if mk in s {
      var tk := ExpTimeKey(d, GetInt(s, mk), t.Code(), key);
      assert IsExpiry(tk);
    }
  }

  /** A type's commands, seen from outside: other records stay, and expiries go in pairs. */
  ghost predicate KeepsTo(s: Store, u: Store, d: nat, t: DataType, key: bytes, mine: Key -> bool) {
    && (forall k: Key :: !mine(k) && !IsExpiry(k) ==> Lookup(u, k) == Lookup(s, k))
    && DropsPair(s, u, d, t, key)
  }

  lemma ListsFramed(s: Store, u: Store, d: nat)
    requires Lists.LInv(s, d) && ValidStore(u) && forall k: Key :: IsList(k) ==> Lookup(u, k) == Lookup(s, k)
    ensures Lists.LInv(u, d)
  {
    hide Lists.LOK, ValidStore;
    forall key: bytes ensures Lists.LOK(u, d, key) {
      assert Lists.LOK(s, d, key);
      Lists.FrameList(s, u, d, key);
    }
  }

  lemma ZSetsFramed(s: Store, u: Store, d: nat)
    requires ZSets.ZInv(s, d) && ValidStore(u) && forall k: Key :: IsZSet(k) ==> Lookup(u, k) == Lookup(s, k)
    ensures ZSets.ZInv(u, d)
    ensures ZSetOps.NamesBound(s, d) ==> ZSetOps.NamesBound(u, d)
  {
    hide ZSets.ZOK, ValidStore, ZSetOps.NameError;
    forall key: bytes ensures ZSets.ZOK(u, d, key) {
      assert ZSets.ZOK(s, d, key);
      ZSets.FrameZOK(s, u, d, key);
    }
    forall key: bytes, m: bytes ensures ZSets.MemberKey(d, key, m) in u <==> ZSets.MemberKey(d, key, m) in s {
      assert IsZSet(ZSets.MemberKey(d, key, m));
      assert Lookup(u, ZSets.MemberKey(d, key, m)) == Lookup(s, ZSets.MemberKey(d, key, m));
    }
  }

  lemma SizesFramed(s: Store, u: Store, d: nat, c: Coll)
    requires Collections.CInv(s, d, c) && c != ZSetColl && ValidStore(u) && forall k: Key :: IsSetOrHash(k) ==>
              Lookup(u, k) == Lookup(s, k)
    ensures Collections.CInv(u, d, c)
    ensures SetOps.NamesBound(s, d) ==> SetOps.NamesBound(u, d)
  {
    hide SizeOK, ValidStore;
    forall key: bytes ensures SizeOK(u, d, c, key) {
      assert SizeOK(s, d, c, key);
      Collections.FrameSize(s, u, d, c, key);
    }
    forall key: bytes, m: bytes ensures ItemKey(d, SetColl, key, m) in u <==> ItemKey(d, SetColl, key, m) in s {
      assert IsSetOrHash(ItemKey(d, SetColl, key, m));
      assert Lookup(u, ItemKey(d, SetColl, key, m)) == Lookup(s, ItemKey(d, SetColl, key, m));
    }
  }

  // ---------------------------------------------------------------- sorted sets

  lemma RemovedKeepsTo(s: Store, d: nat, key: bytes, ms: seq<bytes>)
    requires ValidStore(s)
    ensures KeepsTo(s, ZSets.Removed(s, d, key, ms), d, ZSetData, key, IsZSet)
  {
    hide ZSets.Removed, ZSets.RemOps, ZSets.CountStored, Apply, RmExpireOps, ValidStore;
    var u := ZSets.Removed(s, d, key, ms);
    var empties := GetInt(s, ZSets.CountKey(d, key)) - ZSets.CountStored(s, d, key, ms) <= 0;
    forall k: Key
      ensures !IsZSet(k) && !IsExpiry(k) ==> Lookup(u, k) == Lookup(s, k)
      ensures IsExpiry(k) ==>
                Lookup(u, k) == if empties then Lookup(Apply(s, RmExpireOps(s, d, ZSET_TYPE, key)), k) else Lookup(s, k)
    {
      ZSets.RemovedAt(s, d, key, ms, k);
      ZSets.RemEffect(s, d, key, ms, k);
      RmExpireEffect(s, s, d, ZSET_TYPE, key, k);
    }
    assert ZSetData.Code() == ZSET_TYPE;
  }

  lemma StoredKeepsTo(s: Store, d: nat, dest: bytes, order: seq<ZSets.Pair>, view: map<bytes, int>)
    requires ZRuns.RunInv(s, d) && ZStores.Lists(order, view) && (|dest| > MAX_KEY_SIZE ==> order == [])
    ensures KeepsTo(s, ZStores.Stored(s, d, dest, order), d, ZSetData, dest, IsZSet)
  {
    hide ZStores.Stored, ZSets.Removed, ZQueries.SortedPairs, ZSets.ZOK, ValidStore, ZSetOps.NamesBound,
         ZSets.LastScore, DropsPair;
    var u := ZStores.Stored(s, d, dest, order);
    if |dest| > MAX_KEY_SIZE {
      ZRuns.StoredNothing(s, d, dest);
      SameExpiry(s, u, d, dest);
    } else {
      var ms := ZSets.MembersOf(ZQueries.SortedPairs(s, d, dest));
      var r := ZSets.Removed(s, d, dest, ms);
      RemovedKeepsTo(s, d, dest, ms);
      forall k: Key
        ensures !IsZSet(k) && !IsExpiry(k) ==> Lookup(u, k) == Lookup(s, k)
        ensures IsExpiry(k) ==> Lookup(u, k) == Lookup(r, k)
      {
        ZStores.StoredAt(s, d, dest, order, k);
        if IsExpiry(k) { StoredExpiry(s, d, dest, k); }
      }
      SameDrops(s, r, u, d, dest);
    }
  }

  lemma SameExpiry(s: Store, u: Store, d: nat, key: bytes)
    requires forall k: Key :: IsExpiry(k) ==> Lookup(u, k) == Lookup(s, k)
    ensures DropsPair(s, u, d, ZSetData, key)
  {
  }

  lemma SameDrops(s: Store, r: Store, u: Store, d: nat, key: bytes)
    requires DropsPair(s, r, d, ZSetData, key) && forall k: Key :: IsExpiry(k) ==> Lookup(u, k) == Lookup(r, k)
    ensures DropsPair(s, u, d, ZSetData, key)
  {
    hide Apply, RmExpireOps;
  }

  /** The cleared destination has lost its expiry, and no other key has. */
  lemma StoredExpiry(s: Store, d: nat, dest: bytes, k: Key)
    requires ZSets.ZInv(s, d) && d <= MAX_DATABASES && |dest| <= MAX_KEY_SIZE && IsExpiry(k)
    ensures var r := ZSets.Removed(s, d, dest, ZSets.MembersOf(ZQueries.SortedPairs(s, d, dest)));
            && (k == ExpMetaKey(d, ZSET_TYPE, dest) ==> Lookup(r, k) == None)
            && (!ZSets.IsExpiryOf(d, ZSET_TYPE, dest, k) ==> Lookup(r, k) == Lookup(s, k))
  {
    hide ZSets.Removed, ZQueries.SortedPairs, ZSets.ZOK, ValidStore;
    ZWrites.ClearedIsGone(s, d, dest, k);
  }

  lemma ZKeepsTo(s: Store, u: Store, d: nat, c: ZRuns.Command)
    requires ZRuns.RunInv(s, d) && ZRuns.Typed(c) && !ZRuns.Refused(s, d, c) && ZRuns.Commits(s, u, d, c)
    ensures KeepsTo(s, u, d, ZSetData, c.key, IsZSet)
  {
    hide ZSets.Added, ZSets.Removed, ZSets.Incremented, ZStores.Stored, ZRuns.Gone, ZSetOps.NamesBound, ValidStore,
         ZSets.IndexOK, ZSets.ScoresOK, KeepsTo;
    assert ZSets.ZOK(s, d, c.key);
    match c
    case AddCmd(key, args) => AddedKeepsTo(s, d, key, args);
    case RemCmd(key, ms) => RemovedKeepsTo(s, d, key, ms);
    case IncrByCmd(key, delta, m) => IncrementedKeepsTo(s, d, key, delta, m);
    case StoreCmd(key, _, _, _, _) =>
      var view, order :| ZRuns.StoresResult(s, u, d, c, view, order);
      if |key| > MAX_KEY_SIZE { ZRuns.NothingListed(order); }
      StoredKeepsTo(s, d, key, order, view);
    case _ => RemovedKeepsTo(s, d, c.key, ZSets.MembersOf(ZRuns.Gone(s, d, c)));
  }

  lemma AddedKeepsTo(s: Store, d: nat, key: bytes, args: seq<ZSets.Pair>)
    requires ValidStore(s) && SizeOK(s, d, ZSetColl, key) && args != []
    ensures KeepsTo(s, ZSets.Added(s, d, key, args), d, ZSetData, key, IsZSet)
  {
    hide ZSets.Added, ValidStore, SizeOK;
    forall k: Key | !IsZSet(k) ensures Lookup(ZSets.Added(s, d, key, args), k) == Lookup(s, k) {
      ZSets.AddFrame(s, d, key, args, k);
    }
  }

  lemma IncrementedKeepsTo(s: Store, d: nat, key: bytes, delta: int, m: bytes)
    requires ValidStore(s) && SizeOK(s, d, ZSetColl, key)
    ensures KeepsTo(s, ZSets.Incremented(s, d, key, delta, m), d, ZSetData, key, IsZSet)
  {
    hide ZSets.Incremented, ValidStore;
    forall k: Key | !IsZSet(k) ensures Lookup(ZSets.Incremented(s, d, key, delta, m), k) == Lookup(s, k) {
      if ZSets.MemberKey(d, key, m) in s {
        ZSets.IncrementedOld(s, d, key, delta, m, k);
      } else {
        ZSets.IncrementedNew(s, d, key, delta, m, k);
      }
    }
  }

  // ---------------------------------------------------------------- lists

  lemma CutKeepsTo(s: Store, d: nat, key: bytes, a: int, b: int, h: int, t: int)
    ensures KeepsTo(s, Lists.Cut(s, d, key, a, b, h, t), d, ListData, key, IsList)
  {
    hide Lists.Cut, Apply, RmExpireOps;
    var u := Lists.Cut(s, d, key, a, b, h, t);
    forall k: Key
      ensures !IsList(k) && !IsExpiry(k) ==> Lookup(u, k) == Lookup(s, k)
      ensures IsExpiry(k) ==>
                Lookup(u, k) == if Wrap32(t - h + 1) == 0 then Lookup(Apply(s, RmExpireOps(s, d, LIST_TYPE, key)), k)
                else Lookup(s, k)
    {
      Lists.CutAt(s, d, key, a, b, h, t, k);
      RmExpireEffect(s, s, d, LIST_TYPE, key, k);
    }
    assert ListData.Code() == LIST_TYPE;
  }

  lemma ClearedKeepsTo(s: Store, d: nat, key: bytes)
    requires ValidStore(s) && Lists.LOK(s, d, key) && d <= MAX_DATABASES && |key| < 0x1_0000
    ensures KeepsTo(s, Lists.Cleared(s, d, key), d, ListData, key, IsList)
  {
    hide Lists.Cleared, Apply, RmExpireOps, Lists.LOK, ValidStore;
    var u := Lists.Cleared(s, d, key);
    forall k: Key
      ensures !IsList(k) && !IsExpiry(k) ==> Lookup(u, k) == Lookup(s, k)
      ensures IsExpiry(k) ==> Lookup(u, k) == Lookup(Apply(s, RmExpireOps(s, d, LIST_TYPE, key)), k)
    {
      Lists.ClearedAt(s, d, key, k);
      RmExpireEffect(s, s, d, LIST_TYPE, key, k);
    }
    assert ListData.Code() == LIST_TYPE;
  }

  lemma TrimmedToKeepsTo(s: Store, d: nat, key: bytes, start: int, stop: int)
    requires ValidStore(s) && Lists.LOK(s, d, key) && d <= MAX_DATABASES && |key| < 0x1_0000
    ensures KeepsTo(s, Lists.TrimmedTo(s, d, key, start, stop), d, ListData, key, IsList)
  {
    hide Lists.Cleared, Apply, Lists.TrimToOps, Lists.LOK, ValidStore;
    if Lists.TrimsAll(s, d, key, start, stop) {
      ClearedKeepsTo(s, d, key);
    } else {
      forall k: Key | !IsList(k) ensures Lookup(Lists.TrimmedTo(s, d, key, start, stop), k) == Lookup(s, k) {
        Lists.TrimToAt(s, d, key, start, stop, k);
      }
    }
  }

  lemma PushedKeepsTo(s: Store, d: nat, key: bytes, front: bool, args: seq<bytes>)
    requires ValidStore(s) && Lists.LOK(s, d, key) && args != [] &&
              Lists.InWindow(Lists.LastSeq(s, d, key, front, |args|))
    ensures KeepsTo(s, Lists.Pushed(s, d, key, front, args), d, ListData, key, IsList)
  {
    hide Lists.Pushed, Lists.LOK, ValidStore, Lists.LastSeq;
    forall k: Key | !IsList(k) ensures Lookup(Lists.Pushed(s, d, key, front, args), k) == Lookup(s, k) {
      Lists.PushFrame(s, d, key, front, args, k);
    }
  }

  lemma LKeepsTo(s: Store, d: nat, c: ListRuns.Command)
    requires ListRuns.RunInv(s, d) && ListRuns.Typed(c) && !ListRuns.Refused(s, d, c) && ListRuns.Safe(s, d, c)
    ensures KeepsTo(s, ListRuns.After(s, d, c), d, ListData, c.key, IsList)
  {
    hide Lists.Pushed, Lists.Cut, Lists.TrimmedTo, Lists.Cleared, Lists.LOK, ValidStore, Lists.Contents;
    assert Lists.LOK(s, d, c.key);
    match c
    case PushCmd(key, front, args) => PushedKeepsTo(s, d, key, front, args);
    case PopCmd(key, front) =>
      var e := Lists.Ends(s, d, key);
      var q := if front then e.0 else e.1;
      CutKeepsTo(s, d, key, q, q, if front then Wrap32(e.0 + 1) else e.0, if front then e.1 else Wrap32(e.1 - 1));
    case TrimCmd(key, n, front) =>
      var e, r := Lists.Ends(s, d, key), Lists.TrimRange(s, d, key, n, front);
      CutKeepsTo(s, d, key, r.0, r.1, if front then Wrap32(r.1 + 1) else e.0, if front then e.1 else Wrap32(r.0 - 1));
    case TrimToCmd(key, start, stop) => TrimmedToKeepsTo(s, d, key, start, stop);
    case ClearCmd(key) => ClearedKeepsTo(s, d, key);
    case SetCmd(key, index, value) =>
  }

  // ---------------------------------------------------------------- sets and hashes

  function TypeOfColl(c: Coll): (t: DataType)
    ensures t.Code() == c.ItemType()
  {
    match c case HashColl => HashData case SetColl => SetData case ZSetColl => ZSetData
  }

  lemma SKeepsTo(s: Store, u: Store, d: nat, c: SetRuns.Command)
    requires SetRuns.RunInv(s, d) && SetRuns.Typed(c) && !SetRuns.Refused(s, d, c) && SetRuns.Commits(s, u, d, c)
    ensures KeepsTo(s, u, d, TypeOfColl(SetRuns.CollOf(c)), c.key, IsSetOrHash)
  {
    hide Collections.Added, Collections.Removed, SetOps.Cleared, SetOps.Stored, Apply, RmExpireOps, SizeOK, ValidStore,
         SetOps.NamesBound, Collections.CountNew, Collections.CountStored, SetOps.Lists, SetOps.Result,
         SetOps.OutcomeOf, SetOps.AddError, SetOps.RemError;
    var coll, t := SetRuns.CollOf(c), TypeOfColl(SetRuns.CollOf(c));
    var empties := match c
      case AddCmd(_, key, args) => GetInt(s, SizeKey(d, coll, key)) + Collections.CountNew(s, d, coll, key, args) <= 0
      case RemCmd(_, key, ms) => GetInt(s, SizeKey(d, coll, key)) - Collections.CountStored(s, d, coll, key, ms) <= 0
      case ClearCmd(_, _) => true
      case StoreCmd(_, _, _) => false;
    SetRuns.RunInvValid(s, d);
    forall k: Key
      ensures !IsSetOrHash(k) && !IsExpiry(k) ==> Lookup(u, k) == Lookup(s, k)
      ensures IsExpiry(k) ==>
                Lookup(u, k) == if empties then Lookup(Apply(s, RmExpireOps(s, d, t.Code(), c.key)), k)
                else Lookup(s, k)
    {
      RmExpireEffect(s, s, d, t.Code(), c.key, k);
      match c
      case AddCmd(x, key, args) => Collections.AddedAt(s, d, x, key, args, k);
      case RemCmd(x, key, ms) => Collections.RemovedAt(s, d, x, key, ms, k);
      case ClearCmd(x, key) => SetOps.ClearedAt(s, d, x, key, k);
      case StoreCmd(g, key, keys) =>
        var v :| SetOps.Lists(v, SetOps.Result(g, s, d, keys)) && u == SetOps.Stored(s, d, key, v);
        SetOps.StoredAt(s, d, key, v, k);
    }
  }

  // ---------------------------------------------------------------- steps

  /** What each step may do, on a node that accepts writes; a refused call changes nothing. */
  ghost predicate Next(s: Store, nc: int, u: Store, nc': int, d: nat, a: Action)
    requires Inv(s, d)
  {
    InvParts(s, d);
    match a
    case ZAction(c) => ZRuns.Typed(c) && nc' == nc && ZRuns.Next(s, u, d, c)
    case LAction(c) => ListRuns.Typed(c) && nc' == nc && ListRuns.Next(s, u, d, c)
    case SAction(c) => SetRuns.Typed(c) && nc' == nc && SetRuns.Next(s, u, d, c)
    case ExpireAction(t, key, when) =>
      KeySizeOK(key) && IsInt64(when) && u == Expiring(s, d, t, key, when) && nc' == Lowered(nc, when)
    case PersistAction(t, key) => nc' == nc && u == Apply(s, RmExpireOps(s, d, t.Code(), key))
    case CheckAction(now) =>
      ClockOK(now) && if now < nc then u == s && nc' == nc else u == Checked(s, d, now) && nc' == NextCheck(s, d, now)
    case FlushAction(t) =>
      nc' == nc && exists done :: done <= Scan.NameSet(s, d, Flush.SpaceOf(t)) && Flush.FlushedTo(s, u, d, t, done)
  }

  /** What a caller has to respect: the conditions found for each operation. */
  ghost predicate Safe(s: Store, d: nat, a: Action) {
    match a
    case ZAction(c) => ZRuns.Safe(s, d, c) && ZStores.Countable(s, d)
    case LAction(c) => ListRuns.Safe(s, d, c)
    case SAction(c) => SetRuns.Safe(s, d, c)
    case FlushAction(t) => Flush.ShortNames(s, d, t)
    case _ => true
  }

  /** Expiries and checks are always safe; so are commands on one member, increments but by zero, pops and clears. */
  lemma SimpleIsSafe(s: Store, d: nat, a: Action)
    requires match a
             case ZAction(c) => ZStores.Countable(s, d) && (c.AddCmd? ==> |c.args| <= 1) &&
                                (c.RemCmd? ==> |c.ms| <= 1) && (c.IncrByCmd? ==> c.delta != 0)
             case LAction(c) => c.PopCmd? || c.ClearCmd?
             case SAction(c) => (c.AddCmd? ==> |c.args| <= 1) && (c.RemCmd? ==> |c.ms| <= 1)
             case FlushAction(_) => false
             case _ => true
    ensures Safe(s, d, a)
  {
    hide ZRuns.Safe, SetRuns.Safe;
    if a.ZAction? { ZRuns.DistinctIsSafe(s, d, a.z); }
    if a.SAction? { SetRuns.DistinctIsSafe(s, d, a.c); }
  }

  lemma ZStepKeeps(s: Store, u: Store, d: nat, nc: int, c: ZRuns.Command)
    requires Inv(s, d) && InTime(s, d, nc) && ZRuns.Typed(c) && ZStores.Countable(s, d) && ZRuns.Safe(s, d, c)
    requires ZRuns.RunInv(s, d) && !ZRuns.Refused(s, d, c) && ZRuns.Commits(s, u, d, c)
    ensures Inv(u, d) && InTime(u, d, nc)
  {
    hide Lists.LInv, Collections.CInv, ZSets.ZInv, ZSetOps.NamesBound, SetOps.NamesBound, DropsPair, Quiet, Paired,
         Bounded, InTime, ZRuns.Refused, ZRuns.Commits, ZRuns.Safe;
    ZRuns.StepKeepsIff(s, u, d, c);
    ZKeepsTo(s, u, d, c);
    ZInvValid(u, d);
    ListsFramed(s, u, d);
    SizesFramed(s, u, d, HashColl);
    SizesFramed(s, u, d, SetColl);
    DropsPairIsQuiet(s, u, d, ZSetData, c.key);
    QuietKeeps(s, u, d, nc);
  }

  lemma ZInvValid(u: Store, d: nat)
    requires ZSets.ZInv(u, d)
    ensures ValidStore(u)
  {
  }

  lemma LInvValid(u: Store, d: nat)
    requires Lists.LInv(u, d)
    ensures ValidStore(u)
  {
  }

  lemma LStepKeeps(s: Store, d: nat, nc: int, c: ListRuns.Command)
    requires Inv(s, d) && InTime(s, d, nc) && ListRuns.Typed(c) && ListRuns.Safe(s, d, c)
    requires ListRuns.RunInv(s, d) && !ListRuns.Refused(s, d, c)
    ensures Inv(ListRuns.After(s, d, c), d) && InTime(ListRuns.After(s, d, c), d, nc)
  {
    hide Lists.LInv, Collections.CInv, ZSets.ZInv, ZSetOps.NamesBound, SetOps.NamesBound, DropsPair, Quiet, Paired,
         Bounded, InTime, ListRuns.Refused, ListRuns.After, ListRuns.Safe, ListRuns.DoesSpec;
    var u := ListRuns.After(s, d, c);
    ListRuns.StepExactIff(s, d, c);
    LKeepsTo(s, d, c);
    LInvValid(u, d);
    ZSetsFramed(s, u, d);
    SizesFramed(s, u, d, HashColl);
    SizesFramed(s, u, d, SetColl);
    DropsPairIsQuiet(s, u, d, ListData, c.key);
    QuietKeeps(s, u, d, nc);
  }

  lemma SStepKeeps(s: Store, u: Store, d: nat, nc: int, c: SetRuns.Command)
    requires Inv(s, d) && InTime(s, d, nc) && SetRuns.Typed(c) && SetRuns.Safe(s, d, c)
    requires SetRuns.RunInv(s, d) && !SetRuns.Refused(s, d, c) && SetRuns.Commits(s, u, d, c)
    ensures Inv(u, d) && InTime(u, d, nc)
  {
    hide Lists.LInv, Collections.CInv, ZSets.ZInv, ZSetOps.NamesBound, SetOps.NamesBound, DropsPair, Quiet, Paired,
         Bounded, InTime, SetRuns.Refused, SetRuns.Commits, SetRuns.Safe;
    SetRuns.StepKeepsIff(s, u, d, c);
    SKeepsTo(s, u, d, c);
    SetRuns.RunInvValid(u, d);
    ListsFramed(s, u, d);
    ZSetsFramed(s, u, d);
    DropsPairIsQuiet(s, u, d, TypeOfColl(SetRuns.CollOf(c)), c.key);
    QuietKeeps(s, u, d, nc);
  }

  /** Names stay within bounds when records only go away or only expiry records change. */
  lemma NamesKept(s: Store, u: Store, d: nat)
    requires ZSetOps.NamesBound(s, d) && SetOps.NamesBound(s, d)
    requires forall k: Key :: k in u && !IsExpiry(k) ==> k in s
    ensures ZSetOps.NamesBound(u, d) && SetOps.NamesBound(u, d)
  {
    hide ZSetOps.NameError;
    forall key: bytes, m: bytes | ZSets.MemberKey(d, key, m) in u ensures ZSetOps.NameError(key, m).None? {
      assert ZSets.MemberKey(d, key, m) in s;
    }
    forall key: bytes, m: bytes | ItemKey(d, SetColl, key, m) in u ensures KeySizeOK(key) && MemberSizeOK(m) {
      assert ItemKey(d, SetColl, key, m) in s;
    }
  }

  lemma ExpiryStepKeeps(s: Store, nc: int, u: Store, nc': int, d: nat, a: Action)
    requires Inv(s, d) && InTime(s, d, nc) && Next(s, nc, u, nc', d, a) && Safe(s, d, a)
    requires a.ExpireAction? || a.PersistAction? || a.CheckAction?
    ensures Inv(u, d) && InTime(u, d, nc')
  {
    hide TInv, InTime, Expiring, Checked, NextCheck, Apply, RmExpireOps, Quiet, ZSetOps.NamesBound, SetOps.NamesBound;
    match a
    case ExpireAction(t, key, when) =>
      ExpiringKeeps(s, d, t, key, when, nc);
      forall k: Key | k in u && !IsExpiry(k) ensures k in s {
        ExpiringAt(s, d, t, key, when, k);
        assert Lookup(u, k).Some?;
      }
      NamesKept(s, u, d);
    case PersistAction(t, key) =>
      PersistKeeps(s, d, t, key);
      QuietKeeps(s, u, d, nc);
      forall k: Key | k in u && !IsExpiry(k) ensures k in s {
        RmExpireEffect(s, s, d, t.Code(), key, k);
        assert Lookup(u, k).Some?;
      }
      NamesKept(s, u, d);
    case CheckAction(now) =>
      if nc <= now {
        CheckKeeps(s, d, now);
        forall k: Key | k in u && !IsExpiry(k) ensures k in s {
          CheckedSubset(s, d, now, k);
        }
        NamesKept(s, u, d);
      }
  }

  // ---------------------------------------------------------------- flushing

  /** A flush drops every expiry together with its time record. */
  lemma FlushIsQuiet(s: Store, u: Store, d: nat, t: DataType, done: set<bytes>)
    requires Paired(s, d) && Flush.FlushedTo(s, u, d, t, done)
    ensures Quiet(s, u, d)
  {
    forall k: Key | k in u ensures Lookup(u, k) == Lookup(s, k) {
      assert Lookup(u, k).Some?;
    }
    forall t': DataType, key: bytes | Recorded(u, d, t', key).Some?
      ensures HasTimeKey(u, d, t', key, Recorded(u, d, t', key).value)
    {
      FlushKeepsPair(s, u, d, t, done, t', key);
    }
  }

  lemma FlushKeepsPair(s: Store, u: Store, d: nat, t: DataType, done: set<bytes>, t': DataType, key: bytes)
    requires Paired(s, d) && Flush.FlushedTo(s, u, d, t, done) && Recorded(u, d, t', key).Some?
    ensures HasTimeKey(u, d, t', key, Recorded(u, d, t', key).value)
  {
    hide IsData;
    var mk := ExpMetaKey(d, t'.Code(), key);
    assert Lookup(u, mk).Some? && Lookup(u, mk) == Lookup(s, mk);
    assert HasTimeKey(s, d, t', key, Recorded(s, d, t', key).value);
    var tk := ExpTimeKey(d, Recorded(s, d, t', key).value, t'.Code(), key);
    if x :| x in done && Flush.Gone(s, d, t, x, tk) {
      Flush.NotData(d, t, x, tk);
    }
    assert Lookup(u, tk) == Lookup(s, tk);
  }

  /** What any number of rounds leaves is what one round over the same names leaves. */
  lemma FlushIsWhole(s: Store, u: Store, d: nat, t: DataType, done: set<bytes>)
    requires Whole(s, d) && Flush.ShortNames(s, d, t) && done <= Scan.NameSet(s, d, Flush.SpaceOf(t))
    requires Flush.FlushedTo(s, u, d, t, done)
    ensures Whole(u, d)
  {
    hide Whole, Scan.NameSet, Flush.Gone, Apply, Flush.RoundOps, SortedKeys;
    var keys := SortedKeys(done);
    forall i | 0 <= i < |keys| ensures |keys[i]| <= MAX_KEY_SIZE { assert keys[i] in keys; }
    Flush.NothingFlushed(s, d, t);
    Flush.RoundsAdd(s, s, d, t, {}, keys);
    Flush.RoundWhole(s, d, t, keys);
    var v := Apply(s, Flush.RoundOps(s, d, t, keys));
    assert {} + (set n | n in keys) == done;
    forall k: Key ensures Lookup(u, k) == Lookup(v, k) {
    }
    SameLookups(u, v);
  }

  lemma FlushStepKeeps(s: Store, u: Store, d: nat, nc: int, t: DataType, done: set<bytes>)
    requires Inv(s, d) && InTime(s, d, nc) && Flush.ShortNames(s, d, t)
    requires done <= Scan.NameSet(s, d, Flush.SpaceOf(t)) && Flush.FlushedTo(s, u, d, t, done)
    ensures Inv(u, d) && InTime(u, d, nc)
  {
    hide Whole, Quiet, Bounded, InTime, ZSetOps.NamesBound, SetOps.NamesBound, Scan.NameSet, Flush.Gone, Paired;
    FlushIsQuiet(s, u, d, t, done);
    FlushIsWhole(s, u, d, t, done);
    QuietKeeps(s, u, d, nc);
    forall k: Key | k in u && !IsExpiry(k) ensures k in s {
      assert Lookup(u, k).Some?;
    }
    NamesKept(s, u, d);
  }

  lemma CheckedSubset(s: Store, d: nat, now: int, k: Key)
    requires TInv(s, d) && ClockOK(now) && k in Checked(s, d, now)
    ensures k in s
  {
    hide Whole, ExpireAll, DueKeys;
    ExpireAllSubset(s, d, DueKeys(s, d, now), now, k);
  }

  /** Every safe step keeps the whole invariant, and the next check early enough. */
  lemma StepKeeps(s: Store, nc: int, u: Store, nc': int, d: nat, a: Action)
    requires Inv(s, d) && InTime(s, d, nc) && Next(s, nc, u, nc', d, a) && Safe(s, d, a)
    ensures Inv(u, d) && InTime(u, d, nc')
  {
    hide Inv, InTime, Expiring, Checked, NextCheck, Apply, RmExpireOps, ZRuns.Refused, ZRuns.Commits, ListRuns.Refused,
         ListRuns.After, SetRuns.Refused, SetRuns.Commits;
    InvParts(s, d);
    match a
    case ZAction(c) => if u != s { ZStepKeeps(s, u, d, nc, c); }
    case LAction(c) => if u != s { LStepKeeps(s, d, nc, c); }
    case SAction(c) => if u != s { SStepKeeps(s, u, d, nc, c); }
    case ExpireAction(_, _, _) => ExpiryStepKeeps(s, nc, u, nc', d, a);
    case PersistAction(_, _) => ExpiryStepKeeps(s, nc, u, nc', d, a);
    case CheckAction(_) => ExpiryStepKeeps(s, nc, u, nc', d, a);
    case FlushAction(t) =>
      var done :| done <= Scan.NameSet(s, d, Flush.SpaceOf(t)) && Flush.FlushedTo(s, u, d, t, done);
      FlushStepKeeps(s, u, d, nc, t, done);
  }

  ghost predicate IsRun(d: nat, states: seq<Store>, ncs: seq<int>, steps: seq<Action>) {
    && |states| == |ncs| == |steps| + 1
    && forall i :: 0 <= i < |steps| ==>
        (Inv(states[i], d) ==> Next(states[i], ncs[i], states[i + 1], ncs[i + 1], d, steps[i]))
  }

  /** From the empty database, every run of safe steps keeps every invariant of every type together. */
  lemma {:induction false} RunKeeps(d: nat, states: seq<Store>, ncs: seq<int>, steps: seq<Action>, n: nat)
    requires IsRun(d, states, ncs, steps) && n <= |steps| && d <= MAX_DATABASES && states[0] == map[]
    requires forall i :: 0 <= i < |steps| ==> Safe(states[i], d, steps[i])
    ensures Inv(states[n], d) && InTime(states[n], d, ncs[n])
  {
    hide Inv, InTime, Next, Safe;
    if n > 0 {
      RunKeeps(d, states, ncs, steps, n - 1);
      assert Safe(states[n - 1], d, steps[n - 1]);
      StepKeeps(states[n - 1], ncs[n - 1], states[n], ncs[n], d, steps[n - 1]);
    } else {
      EmptyIsFine(d, ncs[0]);
    }
  }

  lemma EmptyIsFine(d: nat, nc: int)
    requires d <= MAX_DATABASES
    ensures Inv(map[], d) && InTime(map[], d, nc)
  {
    var s: Store := map[];
    forall key: bytes
      ensures Lists.LOK(s, d, key) && ZSets.ZOK(s, d, key) && SizeOK(s, d, HashColl, key) && SizeOK(s, d, SetColl, key)
    {
    }
  }

  // ---------------------------------------------------------------- the running database

  /** Arguments are machine integers, and the clock is not at its end. */
  predicate Typed(a: Action) {
    match a
    case ZAction(c) => ZRuns.Typed(c)
    case LAction(c) => ListRuns.Typed(c)
    case SAction(c) => SetRuns.Typed(c)
    case ExpireAction(_, _, when) => IsInt64(when)
    case CheckAction(now) => ClockOK(now)
    case _ => true
  }

  /** An expiry is set only for something that is there, and set or dropped only under a proper name. */
  predicate Applies(s: Store, d: nat, a: Action) {
    match a
    case ExpireAction(t, key, _) => KeySizeOK(key) && Present(s, d, t, key)
    case PersistAction(_, key) => KeySizeOK(key)
    case _ => true
  }

  /**
   Every call of an operation on an open database is a step of the system, or it does not apply and
   changes nothing. So whatever safe calls are made, the next one finds every invariant in place.
   */
  method Perform(ttl: TTLChecker, a: Action)
    requires ttl.db.Ready() && !ttl.db.readonly && Typed(a) && Safe(ttl.db.bucket, ttl.db.index, a)
    requires Inv(ttl.db.bucket, ttl.db.index) && InTime(ttl.db.bucket, ttl.db.index, ttl.nc)
    modifies ttl`nc, ttl.db`bucket, ttl.db`batch
    ensures var s, d := old(ttl.db.bucket), ttl.db.index;
            if Applies(s, d, a) then Next(s, old(ttl.nc), ttl.db.bucket, ttl.nc, d, a)
            else ttl.db.bucket == s && ttl.nc == old(ttl.nc)
    ensures ttl.db.Ready() && Inv(ttl.db.bucket, ttl.db.index) && InTime(ttl.db.bucket, ttl.db.index, ttl.nc)
  {
    hide Inv, InTime, ValidStore, Whole, Expiring, Checked, NextCheck, Apply, RmExpireOps, Present, ZRuns.RunInv,
         ListRuns.RunInv, SetRuns.RunInv, ZRuns.Next, ListRuns.Next, SetRuns.Next, ZRuns.Safe, ListRuns.Safe,
         SetRuns.Safe, Flush.FlushedTo, Flush.ShortNames, ZStores.Countable, Scan.NameSet, ZRuns.Refused, ZRuns.Commits,
         ListRuns.Refused, ListRuns.After, SetRuns.Refused, SetRuns.Commits, ZRuns.Unstorable;
    ghost var s, d, nc := ttl.db.bucket, ttl.db.index, ttl.nc;
    InvParts(s, d);
    InvIsTimed(s, d);
    match a {
      case ZAction(c) => ZRuns.Execute(ttl.db, c);
      case LAction(c) => ListRuns.Execute(ttl.db, c);
      case SAction(c) => SetRuns.Execute(ttl.db, c);
      case ExpireAction(t, key, when) => var _ := ttl.ExpireAt(t, key, when);
      case PersistAction(t, key) => var _ := ttl.Persist(t, key);
      case CheckAction(now) => ttl.Check(now);
      case FlushAction(t) => var _ := Flush.FlushType(ttl.db, t);
    }
    if Applies(s, d, a) {
      StepKeeps(s, nc, ttl.db.bucket, ttl.nc, d, a);
    }
    InvParts(ttl.db.bucket, d);
  }

  lemma InvIsTimed(s: Store, d: nat)
    requires Inv(s, d)
    ensures TInv(s, d)
  {
  }
}
