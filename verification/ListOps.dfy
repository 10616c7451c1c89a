/**
 The list operations as the program runs them (ledis/t_list.go), each proved to commit the batch
 that `Lists` gives for it or to change nothing, and the reading operations against the sequence.
 */
module ListOps {
  import opened Bytes
  import opened Keys
  import opened Batches
  import opened Ranges
  import opened Database
  import opened Lists

  // ---------------------------------------------------------------- reading

  /** The number an index stands for, in 32-bit arithmetic. */
  function IndexSeq(s: Store, d: nat, key: bytes, index: int): (q: int) {
    var e := Ends(s, d, key);
    if index >= 0 then Wrap32(e.0 + index) else Wrap32(Wrap32(e.1 + index) + 1)
  }

  /** The item with a rank; negative ranks count from the end. */
  function AtRank(v: seq<bytes>, index: int): (r: Option<bytes>) {
    var i := if index < 0 then |v| + index else index;
    if 0 <= i < |v| then Some(v[i]) else None
  }

  lemma IndexIsRank(s: Store, d: nat, key: bytes, index: int)
    requires ValidStore(s) && LOK(s, d, key) && IsInt32(index)
    ensures Lookup(s, ItemAt(d, key, IndexSeq(s, d, key, index))) ==
            match AtRank(Contents(s, d, key), index) case Some(x) => Some(BytesVal(x)) case None => None
  {
    hide ValidStore, LOK, Contents;
    ContentsLength(s, d, key);
    ItemOf(s, d, key, IndexSeq(s, d, key, index));
  }

  /** LIndex. */
  method LIndex(s: Store, d: nat, key: bytes, index: int) returns (r: Reply<Option<bytes>>)
    requires ValidStore(s) && LOK(s, d, key) && IsInt32(index)
    ensures r == if !KeySizeOK(key) then Fail(ErrKeySize) else Done(AtRank(Contents(s, d, key), index))
  {
    hide ValidStore, LOK, Contents, IndexSeq;
    if !KeySizeOK(key) {
      return Fail(ErrKeySize);
    }
    IndexIsRank(s, d, key, index);
    var v := Lookup(s, ItemAt(d, key, IndexSeq(s, d, key, index)));
    r := Done(if v.Some? then Some(v.value.b) else None);
  }

  /** The rank range of LRange, resolved to numbers; none when it selects nothing. */
  function RangeSeqs(s: Store, d: nat, key: bytes, start: int, stop: int): (r: Option<(int, int)>) {
    var n := Len(s, d, key);
    var p := if start < 0 then Wrap32(n + start) else start;
    var q := if stop < 0 then Wrap32(n + stop) else stop;
    var lo := if p < 0 then 0 else p;
    if lo > q || lo >= n then None
    else
      var hi := if q >= n then n - 1 else q;
      var h := Ends(s, d, key).0;
      Some((Wrap32(h + lo), Wrap32(h + hi)))
  }

  lemma RangeSeqsAre(s: Store, d: nat, key: bytes, start: int, stop: int)
    requires LOK(s, d, key) && IsInt32(start) && IsInt32(stop)
    ensures var r, e, v := RangeSeqs(s, d, key, start, stop), Ends(s, d, key), Contents(s, d, key);
            match r
            case None => RankSlice(v, start, stop) == []
            case Some(p) =>
              && EndsKey(d, key) in s && e.0 <= p.0 <= p.1 <= e.1 && |v| == e.1 - e.0 + 1
              && RankSlice(v, start, stop) == v[p.0 - e.0..p.1 + 1 - e.0]
  {
    hide LOK, Contents;
    ContentsLength(s, d, key);
    LenIsLength(s, d, key);
  }

  /** LRange: the walk has no upper bound, only a count. */
  method LRange(s: Store, d: nat, key: bytes, start: int, stop: int) returns (r: Reply<seq<bytes>>)
    requires ValidStore(s) && LOK(s, d, key) && d <= MAX_DATABASES && IsInt32(start) && IsInt32(stop)
    ensures r == if !KeySizeOK(key) then Fail(ErrKeySize) else Done(RankSlice(Contents(s, d, key), start, stop))
  {
    hide ValidStore, LOK, Contents, RankSlice, RangeSeqs, Query, Matching, Encode;
    if !KeySizeOK(key) {
      return Fail(ErrKeySize);
    }
    var p := RangeSeqs(s, d, key, start, stop);
    RangeSeqsAre(s, d, key, start, stop);
    if p.None? {
      return Done([]);
    }
    var a, b := p.value.0, p.value.1;
    ValidItems(s, d, key, a, b);
    ghost var items := ItemKeys(d, key, a, b);
    ItemsInOrder(s, d, key, a, b);
    MatchingPrefix(s, At(Encode(ItemAt(d, key, a))), Encode(ItemAt(d, key, b)));
    var ks := RangeKeys(s, Range(At(Encode(ItemAt(d, key, a))), Unbounded, false, false), Limit(0, b - a + 1), false);
    assert ks == items;
    var v: seq<bytes> := [];
    ghost var e, w := Ends(s, d, key), Contents(s, d, key);
    for i := 0 to |ks|
      invariant |v| == i && forall j :: 0 <= j < i ==> v[j] == w[a - e.0 + j]
    {
      ItemOf(s, d, key, a + i);
      v := v + [s[ks[i]].b];
    }
    assert v == w[a - e.0..b + 1 - e.0];
    r := Done(v);
  }

  lemma ValidItems(s: Store, d: nat, key: bytes, a: int, b: int)
    requires LOK(s, d, key) && d <= MAX_DATABASES && |key| < 0x1_0000
    requires EndsKey(d, key) in s && Ends(s, d, key).0 <= a <= b <= Ends(s, d, key).1
    ensures ValidKey(ItemAt(d, key, a)) && ValidKey(ItemAt(d, key, b))
  {
  }

  // ---------------------------------------------------------------- writing

  lemma PushPrefix(d: nat, key: bytes, q: int, front: bool, args: seq<bytes>, i: nat)
    requires i < |args|
    ensures PushItems(d, key, q, front, args[..i + 1]) ==
            PushItems(d, key, q, front, args[..i]) + [Put(ItemAt(d, key, Wrap32(Step(q, front, i))), BytesVal(args[i]))]
  {
    assert args[..i + 1][..i] == args[..i];
  }

  /** LPush and RPush. */
  method Push(db: DB, key: bytes, front: bool, args: seq<bytes>) returns (r: Reply<int>)
    requires db.Ready()
    modifies db`bucket, db`batch
    ensures db.batch == []
    ensures var s, d := old(db.bucket), db.index;
            if !KeySizeOK(key) then r == Fail(ErrKeySize) && db.bucket == s
            else if args == [] then r == Done(Len(s, d, key)) && db.bucket == s
            else if !PushAllowed(s, d, key, front, |args|) then r == Fail(ErrListSeq) && db.bucket == s
            else if db.readonly then r == Fail(ErrReadonly) && db.bucket == s
            else r == Done(Len(s, d, key) + |args|) && db.bucket == Pushed(s, d, key, front, args)
  {
    hide Apply, PushItems, ValidStore;
    if !KeySizeOK(key) {
      return Fail(ErrKeySize);
    }
    ghost var s, d := db.bucket, db.index;
    var e, size := Ends(db.bucket, db.index, key), Len(db.bucket, db.index, key);
    if args == [] {
      return Done(size);
    }
    var seqNo := if front then e.0 else e.1;
    if size > 0 {
      seqNo := Wrap32(Step(seqNo, front, 1));
    }
    NothingPushed(d, key, seqNo, front);
    assert args[..0] == [];
    for i := 0 to |args|
      invariant db.bucket == s
      invariant db.batch == PushItems(d, key, seqNo, front, args[..i])
    {
      PushPrefix(d, key, seqNo, front, args, i);
      db.batch := db.batch + [Put(ItemAt(db.index, key, Wrap32(Step(seqNo, front, i))), BytesVal(args[i]))];
    }
    assert args[..|args|] == args;
    seqNo := Wrap32(Step(seqNo, front, |args| - 1));
    if seqNo <= MIN_SEQ || seqNo >= MAX_SEQ {
      db.Unlock();
      return Fail(ErrListSeq);
    }
    if front {
      e := (seqNo, e.1);
    } else {
      e := (e.0, seqNo);
    }
    db.batch := db.batch + SetEndsOps(db.index, key, e.0, e.1);
    var ok := db.Commit();
    db.Unlock();
    r := if ok then Done(size + |args|) else Fail(ErrReadonly);
  }

  lemma NothingPushed(d: nat, key: bytes, q: int, front: bool)
    ensures PushItems(d, key, q, front, []) == []
  {
  }

  /** LPop and RPop. */
  method Pop(db: DB, key: bytes, front: bool) returns (r: Reply<Option<Val>>)
    requires db.Ready()
    modifies db`bucket, db`batch
    ensures db.batch == []
    ensures var s, d := old(db.bucket), db.index;
            if !KeySizeOK(key) then r == Fail(ErrKeySize) && db.bucket == s
            else if Len(s, d, key) == 0 then r == Done(None) && db.bucket == s
            else if db.readonly then r == Fail(ErrReadonly) && db.bucket == s
            else r == Done(Lookup(s, ItemAt(d, key, if front then Ends(s, d, key).0 else Ends(s, d, key).1))) &&
                 db.bucket == Popped(s, d, key, front)
  {
    hide Apply, ValidStore, RmExpireOps, SetEndsOps, Wrap32, Ends, Len;
    if !KeySizeOK(key) {
      return Fail(ErrKeySize);
    }
    var e, size := Ends(db.bucket, db.index, key), Len(db.bucket, db.index, key);
    if size == 0 {
      return Done(None);
    }
    var q := if front then e.0 else e.1;
    var value := Lookup(db.bucket, ItemAt(db.index, key, q));
    if front {
      e := (Wrap32(e.0 + 1), e.1);
    } else {
      e := (e.0, Wrap32(e.1 - 1));
    }
    OneItem(db.index, key, q);
    db.batch := db.batch + [Delete(ItemAt(db.index, key, q))] + SetEndsOps(db.index, key, e.0, e.1);
    size := Wrap32(e.1 - e.0 + 1);
    if size == 0 {
      db.batch := db.batch + RmExpireOps(db.bucket, db.index, LIST_TYPE, key);
    }
    assert db.batch == CutOps(db.bucket, db.index, key, q, q, e.0, e.1);
    var ok := db.Commit();
    db.Unlock();
    r := if ok then Done(value) else Fail(ErrReadonly);
  }

  lemma OneItem(d: nat, key: bytes, q: int)
    ensures DelItems(d, key, q, q) == [Delete(ItemAt(d, key, q))]
  {
    assert DelItems(d, key, q, q - 1) == [];
  }

  /** The deleting loops of ltrim and ltrim2. */
  method DeleteItems(db: DB, key: bytes, a: int, b: int)
    modifies db`batch
    ensures db.batch == old(db.batch) + DelItems(db.index, key, a, b)
  {
    var q := a;
    assert DelItems(db.index, key, a, a - 1) == [];
    while q <= b
      invariant a <= q && (q <= b + 1 || q == a)
      invariant db.batch == old(db.batch) + DelItems(db.index, key, a, q - 1)
    {
      db.batch := db.batch + [Delete(ItemAt(db.index, key, q))];
      q := q + 1;
    }
    assert a > b ==> DelItems(db.index, key, a, b) == [];
  }

  /** LTrimFront and LTrimBack. */
  method Trim(db: DB, key: bytes, n: int, front: bool) returns (r: Reply<int>)
    requires db.Ready() && IsInt32(n)
    modifies db`bucket, db`batch
    ensures db.batch == []
    ensures var s, d := old(db.bucket), db.index;
            if !KeySizeOK(key) then r == Fail(ErrKeySize) && db.bucket == s
            else if n == 0 || Len(s, d, key) == 0 then r == Done(0) && db.bucket == s
            else if db.readonly then r == Fail(ErrReadonly) && db.bucket == s
            else
              var range := TrimRange(s, d, key, n, front);
              r == Done(Wrap32(range.1 - range.0 + 1)) && db.bucket == Trimmed(s, d, key, n, front)
  {
    hide Apply, ValidStore, RmExpireOps, SetEndsOps, DelItems, Wrap32, Ends, Len;
    if !KeySizeOK(key) {
      return Fail(ErrKeySize);
    }
    if n == 0 {
      return Done(0);
    }
    var e, size := Ends(db.bucket, db.index, key), Len(db.bucket, db.index, key);
    if size == 0 {
      return Done(0);
    }
    var a, b := e.0, e.1;
    if front {
      b := Wrap32(e.0 + n - 1);
      if e.1 <= b { b := e.1; }
      e := (Wrap32(b + 1), e.1);
    } else {
      a := Wrap32(e.1 - n + 1);
      if e.0 >= a { a := e.0; }
      e := (e.0, Wrap32(a - 1));
    }
    DeleteItems(db, key, a, b);
    db.batch := db.batch + SetEndsOps(db.index, key, e.0, e.1);
    size := Wrap32(e.1 - e.0 + 1);
    if size == 0 {
      db.batch := db.batch + RmExpireOps(db.bucket, db.index, LIST_TYPE, key);
    }
    assert db.batch == CutOps(db.bucket, db.index, key, a, b, e.0, e.1);
    var ok := db.Commit();
    db.Unlock();
    r := if ok then Done(Wrap32(b - a + 1)) else Fail(ErrReadonly);
  }

  /** lDelete: walks the items with the iterator and adds to the batch. */
  method DeleteList(db: DB, key: bytes) returns (n: int)
    requires db.Sound() && LOK(db.bucket, db.index, key) && |key| < 0x1_0000
    modifies db`batch
    ensures db.batch == old(db.batch) + (DeleteAll(Walked(db.bucket, db.index, key)) + [Delete(EndsKey(db.index, key))])
    ensures n == |Walked(db.bucket, db.index, key)|
  {
    hide ValidStore, Fills, Encode, Query, Matching, DeleteAll;
    var e := Ends(db.bucket, db.index, key);
    var range := ItemRangeOf(db.index, key, e.0, e.1);
    QueryAll(db.bucket, range, false);
    var ks := RangeKeys(db.bucket, range, Limit(0, -1), false);
    n := DeleteKeys(db, ks);
    db.batch := db.batch + [Delete(EndsKey(db.index, key))];
  }

  /** LClear. */
  method Clear(db: DB, key: bytes) returns (r: Reply<int>)
    requires db.Ready() && LOK(db.bucket, db.index, key)
    modifies db`bucket, db`batch
    ensures db.batch == []
    ensures var s, d := old(db.bucket), db.index;
            if !KeySizeOK(key) then r == Fail(ErrKeySize) && db.bucket == s
            else if db.readonly then r == Fail(ErrReadonly) && db.bucket == s
            else r == Done(|Contents(s, d, key)|) && db.bucket == Cleared(s, d, key)
  {
    hide ValidStore, LOK, Walked, DeleteAll, RmExpireOps, Apply, Contents;
    if !KeySizeOK(key) {
      return Fail(ErrKeySize);
    }
    var n := DeleteList(db, key);
    assert db.batch == DeleteAll(Walked(db.bucket, db.index, key)) + [Delete(EndsKey(db.index, key))];
    WalkedItems(db.bucket, db.index, key, EndsKey(db.index, key));
    db.batch := db.batch + RmExpireOps(db.bucket, db.index, LIST_TYPE, key);
    var ok := db.Commit();
    db.Unlock();
    r := if ok then Done(n) else Fail(ErrReadonly);
  }

  /** LTrim. */
  method TrimTo(db: DB, key: bytes, startP: int, stopP: int) returns (r: Reply<()>)
    requires db.Ready() && LOK(db.bucket, db.index, key)
    modifies db`bucket, db`batch
    ensures db.batch == []
    ensures var s, d := old(db.bucket), db.index;
            if !KeySizeOK(key) then r == Fail(ErrKeySize) && db.bucket == s
            else if db.readonly then r == Fail(ErrReadonly) && db.bucket == s
            else r == Done(()) && db.bucket == TrimmedTo(s, d, key, startP, stopP)
  {
    hide ValidStore, LOK, Walked, DeleteAll, RmExpireOps, Apply, DelItems, SetEndsOps, Wrap32, Ends, Len;
    if !KeySizeOK(key) {
      return Fail(ErrKeySize);
    }
    var start, stop := Wrap32(startP), Wrap32(stopP);
    var h, n := Ends(db.bucket, db.index, key).0, Len(db.bucket, db.index, key);
    if start < 0 { start := Wrap32(n + start); }
    if stop < 0 { stop := Wrap32(n + stop); }
    if start >= n || start > stop {
      var _ := DeleteList(db, key);
      assert db.batch == DeleteAll(Walked(db.bucket, db.index, key)) + [Delete(EndsKey(db.index, key))];
      db.batch := db.batch + RmExpireOps(db.bucket, db.index, LIST_TYPE, key);
    } else {
      if start < 0 { start := 0; }
      if stop >= n { stop := n - 1; }
      DeleteItems(db, key, h, h + start - 1);
      DeleteItems(db, key, h + stop + 1, h + n - 1);
      db.batch := db.batch + SetEndsOps(db.index, key, Wrap32(h + start), Wrap32(h + stop));
      assert db.batch == TrimToOps(db.bucket, db.index, key, startP, stopP);
    }
    var ok := db.Commit();
    db.Unlock();
    r := if ok then Done(()) else Fail(ErrReadonly);
  }

  /** The store after an LSet that passed the index check. */
  function SetStore(s: Store, d: nat, key: bytes, index: int, value: bytes): (u: Store) {
    s[ItemAt(d, key, IndexSeq(s, d, key, index)) := BytesVal(value)]
  }

  predicate IndexAllowed(s: Store, d: nat, key: bytes, index: int) {
    Ends(s, d, key).0 <= IndexSeq(s, d, key, index) <= Ends(s, d, key).1
  }

  /** LSet. */
  method Set(db: DB, key: bytes, index: int, value: bytes) returns (r: Reply<()>)
    requires db.Ready() && IsInt32(index)
    modifies db`bucket, db`batch
    ensures db.batch == []
    ensures var s, d := old(db.bucket), db.index;
            if !KeySizeOK(key) then r == Fail(ErrKeySize) && db.bucket == s
            else if !IndexAllowed(s, d, key, index) then r == Fail(ErrListIndex) && db.bucket == s
            else if db.readonly then r == Fail(ErrReadonly) && db.bucket == s
            else r == Done(()) && db.bucket == SetStore(s, d, key, index, value)
  {
    hide ValidStore;
    if !KeySizeOK(key) {
      return Fail(ErrKeySize);
    }
    var e, q := Ends(db.bucket, db.index, key), IndexSeq(db.bucket, db.index, key, index);
    if q < e.0 || q > e.1 {
      return Fail(ErrListIndex);
    }
    var put: Op<Key, Val> := Put(ItemAt(db.index, key, q), BytesVal(value));
    ApplyFew(db.bucket, put, put, put);
    db.batch := db.batch + [put];
    assert db.batch == [put];
    var ok := db.Commit();
    db.Unlock();
    r := if ok then Done(()) else Fail(ErrReadonly);
  }

  /** An LSet that passes the check is the update on sequences if and only if the list exists. */
  lemma SetExactIff(s: Store, d: nat, key: bytes, index: int, value: bytes)
    requires ValidStore(s) && LOK(s, d, key) && IsInt32(index) && IndexAllowed(s, d, key, index)
    ensures var u, v := SetStore(s, d, key, index, value), Contents(s, d, key);
            var i := if index < 0 then |v| + index else index;
            LOK(u, d, key) && 0 <= i < |v| && Contents(u, d, key) == v[i := value] <==> EndsKey(d, key) in s
  {
    hide ValidStore, LOK, Contents;
    var u, v, e, q := SetStore(s, d, key, index, value), Contents(s, d, key), Ends(s, d, key),
        IndexSeq(s, d, key, index);
    ContentsLength(s, d, key);
    if EndsKey(d, key) in s {
      var i := if index < 0 then |v| + index else index;
      assert q == e.0 + i;
      StoredEnds(s, d, key);
      forall x: int
        ensures Lookup(u, ItemAt(d, key, x)) == if e.0 <= x <= e.1 then Some(BytesVal(v[i := value][x - e.0])) else None
      {
        ItemOf(s, d, key, x);
      }
      MadeList(u, d, key, e.0, e.1, v[i := value]);
    }
  }

  lemma StoredEnds(s: Store, d: nat, key: bytes)
    requires LOK(s, d, key) && EndsKey(d, key) in s
    ensures var e := Ends(s, d, key); Lookup(s, EndsKey(d, key)) == Some(EndsVal(e.0, e.1))
  {
  }
}
