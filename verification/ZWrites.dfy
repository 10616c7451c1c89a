/**
 Sorted-set operations that write what they have read (ledis/t_zset.go): removal of a range of
 scores or ranks, and the union and intersection of sorted sets stored into another, which may be
 one of the sources.
 */
module ZWrites {
  import opened Bytes
  import opened Keys
  import opened Batches
  import opened Ranges
  import opened Database
  import opened Counting
  import opened ZSets
  import opened ZQueries

  // ---------------------------------------------------------------- zRemRange

  function MemberNames(ks: seq<Key>): (ms: seq<bytes>)
    requires forall i :: 0 <= i < |ks| ==> ks[i].kind.ZScore?
    ensures |ms| == |ks|
  {
    seq(|ks|, i requires 0 <= i < |ks| => ks[i].kind.member)
  }

  /** For each score key visited, the member record goes and then the score key itself. */
  function RangeRemOps(s: Store, d: nat, key: bytes, ks: seq<Key>): (ops: Ops)
    requires AreScoreKeys(d, key, ks)
  {
    if ks == [] then []
    else
      var k := ks[|ks| - 1];
      var ek := MemberKey(d, key, k.kind.member);
      RangeRemOps(s, d, key, ks[..|ks| - 1]) + (if ek in s then [Delete(ek), Delete(k)] else [Delete(k)])
  }

  /** The batch of zRemRange over the score keys `ks`. */
  function RangeRemBatch(s: Store, d: nat, key: bytes, ks: seq<Key>): (ops: Ops)
    requires AreScoreKeys(d, key, ks)
  {
    RangeRemOps(s, d, key, ks) + IncrSizeOps(s, d, ZSetColl, key, 0 - CountStored(s, d, key, MemberNames(ks)))
  }

  lemma {:induction false} RangeRemEffect(s: Store, d: nat, key: bytes, ks: seq<Key>, k: Key)
    requires ValidStore(s) && AreScoreKeys(d, key, ks) && forall i :: 0 <= i < |ks| ==>
              MemberKey(d, key, ks[i].kind.member) in s
    ensures Lookup(Apply(s, RangeRemOps(s, d, key, ks)), k) ==
            if k in ks || (k.db == d && k.kind.Item? && k.kind.coll == ZSetColl && k.kind.key == key &&
                k.kind.member in MemberNames(ks))
            then None else Lookup(s, k)
  {
    if ks != [] {
      var n := |ks| - 1;
      var x, front := ks[n], RangeRemOps(s, d, key, ks[..n]);
      RangeRemEffect(s, d, key, ks[..n], k);
      var a, b: Op<Key, Val> := Delete(MemberKey(d, key, x.kind.member)), Delete(x);
      ApplyAppend(s, front, [a, b]);
      ApplyFew(Apply(s, front), a, b, b);
      assert k in ks <==> k in ks[..n] || k == x;
      assert MemberNames(ks) == MemberNames(ks[..n]) + [x.kind.member];
    }
  }

  /** Under the invariant, removing a range of score keys is ZRem of their members. */
  lemma RangeRemIsRem(s: Store, d: nat, key: bytes, ks: seq<Key>)
    requires ValidStore(s) && ZOK(s, d, key) && AreScoreKeys(d, key, ks) && forall i :: 0 <= i < |ks| ==> ks[i] in s
    ensures Apply(s, RangeRemBatch(s, d, key, ks)) == Removed(s, d, key, MemberNames(ks))
  {
    hide Apply, RemOps, RangeRemOps, Removed, CountStored, SizeOK, ScoresOK, ValidStore;
    var ms := MemberNames(ks);
    var delta: int := 0 - CountStored(s, d, key, ms);
    forall i | 0 <= i < |ks| ensures Lookup(s, MemberKey(d, key, ks[i].kind.member)) == Some(IntVal(ks[i].kind.score)) {
      assert ks[i] == ScoreKey(d, key, ks[i].kind.score, ks[i].kind.member);
    }
    ApplyAppend(s, RangeRemOps(s, d, key, ks), IncrSizeOps(s, d, ZSetColl, key, delta));
    forall k: Key ensures Lookup(Apply(s, RangeRemBatch(s, d, key, ks)), k) == Lookup(Removed(s, d, key, ms), k) {
      RangeRemEffect(s, d, key, ks, k);
      IncrSizeEffect(s, Apply(s, RangeRemOps(s, d, key, ks)), d, ZSetColl, key, delta, k);
      RemovedAt(s, d, key, ms, k);
      RemEffect(s, d, key, ms, k);
      SameScoreKeys(s, d, key, ks, k);
    }
    SameLookups(Apply(s, RangeRemBatch(s, d, key, ks)), Removed(s, d, key, ms));
  }

  /** A score key is among `ks` exactly if its member is, since a member has only one. */
  lemma SameScoreKeys(s: Store, d: nat, key: bytes, ks: seq<Key>, k: Key)
    requires IndexOK(s, d, key) && AreScoreKeys(d, key, ks) && forall i :: 0 <= i < |ks| ==> ks[i] in s
    ensures k in ks <==> k.db == d && k.kind.ZScore? && k.kind.key == key && k.kind.member in MemberNames(ks) &&
                         Lookup(s, MemberKey(d, key, k.kind.member)) == Some(IntVal(k.kind.score))
  {
    if k in ks {
      var i :| 0 <= i < |ks| && ks[i] == k;
      assert MemberNames(ks)[i] == k.kind.member && k == ScoreKey(d, key, k.kind.score, k.kind.member);
    }
    if k.kind.ZScore? && k.kind.member in MemberNames(ks) {
      var i :| 0 <= i < |ks| && ks[i].kind.member == k.kind.member;
      assert ks[i] == ScoreKey(d, key, ks[i].kind.score, ks[i].kind.member);
    }
  }

  /** The score keys a range removal visits. */
  ghost function Walked(s: Store, d: nat, key: bytes, min: int, max: int, offset: int, count: int): (ks: seq<Key>)
    requires ValidStore(s) && IsInt64(min) && IsInt64(max)
  {
    Query(s, ScoreRangeOf(d, key, min, max, false), Limit(offset, count), false)
  }

  lemma WindowElements<T>(v: seq<T>, offset: int, count: int, x: T)
    requires x in Window(v, offset, count)
    ensures x in v
  {
    var w := Window(v, offset, count);
    var i :| 0 <= i < |w| && w[i] == x;
    assert v[offset + i] == x;
  }

  lemma VisitedKeys(s: Store, d: nat, key: bytes, min: int, max: int, offset: int, count: int)
    requires ValidStore(s) && ZOK(s, d, key) && |key| < 0x1_0000 && IsInt64(min) && IsInt64(max)
    ensures var ks := Walked(s, d, key, min, max, offset, count);
            && AreScoreKeys(d, key, ks) && (forall i :: 0 <= i < |ks| ==> ks[i] in s)
            && PairsOf(d, key, ks) == Window(FilterPairs(SortedPairs(s, d, key), min, max), offset, count)
  {
    hide Matching, RangePairs, SortedPairs, FilterPairs, ZOK, ValidStore, ScoreRangeOf;
    QueryPairs(s, d, key, min, max, false, offset, count, false);
    RangeIsFilter(s, d, key, min, max, false);
    var r := ScoreRangeOf(d, key, min, max, false);
    var ks := Walked(s, d, key, min, max, offset, count);
    forall i | 0 <= i < |ks| ensures ks[i] in s {
      assert ks[i] in ks;
      WindowElements(Matching(s, r), offset, count, ks[i]);
      MatchingElements(s, r, ks[i]);
    }
  }

  /** Visited members are stored, and none is visited twice. */
  lemma VisitedOnce(s: Store, d: nat, key: bytes, ks: seq<Key>)
    requires ZOK(s, d, key) && AreScoreKeys(d, key, ks) && (forall i :: 0 <= i < |ks| ==> ks[i] in s)
    requires PairsSorted(PairsOf(d, key, ks))
    ensures StoredOnce(s, d, key, MemberNames(ks)) && CountStored(s, d, key, MemberNames(ks)) == |ks|
  {
    hide SizeOK, ScoresOK, Before, Count, IndexOK;
    var v, ms := PairsOf(d, key, ks), MemberNames(ks);
    forall i | 0 <= i < |ks| ensures IsPairOf(s, d, key, v[i]) && MemberKey(d, key, ms[i]) in s {
      IndexAt(s, d, key, ks[i]);
    }
    forall p | p in v ensures IsPairOf(s, d, key, p) {
      var i :| 0 <= i < |v| && v[i] == p;
    }
    DistinctMembers(s, d, key, v);
    assert forall i, j :: 0 <= i < j < |ms| ==> ms[i] == v[i].member && ms[j] == v[j].member;
    CountEvery(ms, m => MemberKey(d, key, m) in s);
  }

  lemma IndexAt(s: Store, d: nat, key: bytes, k: Key)
    requires IndexOK(s, d, key) && k in s && k.db == d && k.kind.ZScore? && k.kind.key == key
    ensures IsPairOf(s, d, key, Pair(k.kind.score, k.kind.member))
  {
    assert k == ScoreKey(d, key, k.kind.score, k.kind.member);
  }

  lemma WindowSorted(v: seq<Pair>, min: int, max: int, offset: int, count: int)
    requires PairsSorted(v)
    ensures PairsSorted(Window(FilterPairs(v, min, max), offset, count))
  {
    hide Before;
    FilterPairsSorted(v, min, max);
  }

  /**
   zRemRange: the pairs of the window are removed, no other member is, every sorted set keeps its
   invariant, and the number removed is the length of the window.
   */
  lemma RemRangeKeeps(s: Store, d: nat, key: bytes, min: int, max: int, offset: int, count: int)
    requires ZInv(s, d) && d <= MAX_DATABASES && |key| < 0x1_0000 && IsInt64(min) && IsInt64(max)
    ensures var ks := Walked(s, d, key, min, max, offset, count);
            var gone := Window(FilterPairs(SortedPairs(s, d, key), min, max), offset, count);
            && AreScoreKeys(d, key, ks)
            && CountStored(s, d, key, MemberNames(ks)) == |gone|
            && MemberNames(ks) == MembersOf(gone)
            && Apply(s, RangeRemBatch(s, d, key, ks)) == Removed(s, d, key, MembersOf(gone))
            && ZInv(Removed(s, d, key, MembersOf(gone)), d)
  {
    hide SortedPairs, FilterPairs, Walked, Removed, Apply, RangeRemBatch, ValidStore, StoredOnce, Before, PairsSorted,
         IndexOK;
    assert ZOK(s, d, key);
    VisitedKeys(s, d, key, min, max, offset, count);
    var ks := Walked(s, d, key, min, max, offset, count);
    SortedPairsAre(s, d, key);
    WindowSorted(SortedPairs(s, d, key), min, max, offset, count);
    VisitedOnce(s, d, key, ks);
    RangeRemIsRem(s, d, key, ks);
    assert MemberNames(ks) == MembersOf(PairsOf(d, key, ks));
    ZRemKeepsIff(s, d, key, MemberNames(ks));
  }

  /** ZClear and zDelete leave no record of the set and none of its expiry. */
  lemma ClearedIsGone(s: Store, d: nat, key: bytes, k: Key)
    requires ZInv(s, d) && d <= MAX_DATABASES && |key| < 0x1_0000
    ensures var u := Removed(s, d, key, MembersOf(SortedPairs(s, d, key)));
            && (IsRecordOf(d, key, k) ==> k !in u)
            && (k == ExpMetaKey(d, ZSET_TYPE, key) ==> k !in u)
            && (!IsRecordOf(d, key, k) && !IsExpiryOf(d, ZSET_TYPE, key, k) ==> Lookup(u, k) == Lookup(s, k))
  {
    hide SortedPairs, Removed, Apply, RemOps, ValidStore, Count, Before, PairsSorted;
    assert ZOK(s, d, key);
    var ms := MembersOf(SortedPairs(s, d, key));
    var u := Removed(s, d, key, ms);
    ClearCounts(s, d, key);
    RemovedAt(s, d, key, ms, k);
    RemEffect(s, d, key, ms, k);
    assert k in u <==> Lookup(u, k).Some?;
    if IsRecordOf(d, key, k) && k in s && k != CountKey(d, key) {
      RecordIsListed(s, d, key, k);
    }
  }

  lemma ClearCounts(s: Store, d: nat, key: bytes)
    requires ValidStore(s) && ZOK(s, d, key) && |key| < 0x1_0000
    ensures CountStored(s, d, key, MembersOf(SortedPairs(s, d, key))) == GetInt(s, CountKey(d, key))
  {
    hide SortedPairs, Count, Before, PairsSorted, ValidStore, IndexOK, ScoresOK;
    SortedPairsAre(s, d, key);
    PairsAreMembers(s, d, key);
    var v := SortedPairs(s, d, key);
    forall m | m in MembersOf(v) ensures MemberKey(d, key, m) in s {
      var i :| 0 <= i < |v| && v[i].member == m;
      assert v[i] in v;
    }
    CountEvery(MembersOf(v), m => MemberKey(d, key, m) in s);
  }

  lemma RecordIsListed(s: Store, d: nat, key: bytes, k: Key)
    requires ValidStore(s) && ZOK(s, d, key) && |key| < 0x1_0000 && IsRecordOf(d, key, k) && k in s &&
              k != CountKey(d, key)
    ensures k.kind.member in MembersOf(SortedPairs(s, d, key))
    ensures k.kind.ZScore? ==> Lookup(s, MemberKey(d, key, k.kind.member)) == Some(IntVal(k.kind.score))
  {
    hide SortedPairs, Before, PairsSorted, ScoresOK, SizeOK;
    SortedPairsAre(s, d, key);
    var v, m := SortedPairs(s, d, key), k.kind.member;
    if k.kind.ZScore? {
      assert k == ScoreKey(d, key, k.kind.score, m);
    } else {
      assert k == MemberKey(d, key, m);
    }
    StoredPair(s, d, key, m);
    var i :| 0 <= i < |v| && v[i] == Pair(GetInt(s, MemberKey(d, key, m)), m);
    assert MembersOf(v)[i] == m;
  }
}
