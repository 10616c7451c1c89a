/**
 The writing operations on sorted sets as the program runs them (ledis/t_zset.go): each fills the
 batch while it reads the committed store, commits it, and rolls back what it does not commit. The
 last part is about every run of them.
 */
module ZSetOps {
  import opened Bytes
  import opened Keys
  import opened Batches
  import opened Ranges
  import opened Database
  import opened ZSets
  import opened ZQueries
  import opened ZWrites
  import opened ZStores

  /** checkZSetKMSize. */
  function NameError(key: bytes, m: bytes): (e: Option<Error>) {
    if !KeySizeOK(key) then Some(ErrKeySize)
    else if !MemberSizeOK(m) then Some(ErrMemberSize)
    else None
  }

  function PairError(key: bytes, p: Pair): (e: Option<Error>) {
    if NameError(key, p.member).Some? then NameError(key, p.member)
    else if !ValidScore(p.score) then Some(ErrScoreOverflow)
    else None
  }

  /** The first argument that is refused decides. */
  function AddError(key: bytes, args: seq<Pair>): (e: Option<Error>)
    ensures e.None? <==> forall i :: 0 <= i < |args| ==> PairError(key, args[i]).None?
  {
    if args == [] then None
    else if AddError(key, args[..|args| - 1]).Some? then AddError(key, args[..|args| - 1])
    else PairError(key, args[|args| - 1])
  }

  function RemError(key: bytes, ms: seq<bytes>): (e: Option<Error>)
    ensures e.None? <==> forall i :: 0 <= i < |ms| ==> NameError(key, ms[i]).None?
  {
    if ms == [] then None
    else if RemError(key, ms[..|ms| - 1]).Some? then RemError(key, ms[..|ms| - 1])
    else NameError(key, ms[|ms| - 1])
  }

  lemma {:induction false} AddErrorPrefix(key: bytes, args: seq<Pair>, i: nat)
    requires i < |args| && AddError(key, args[..i]).None? && PairError(key, args[i]).Some?
    ensures AddError(key, args) == PairError(key, args[i])
    decreases |args|
  {
    if i < |args| - 1 {
      assert args[..|args| - 1][..i] == args[..i];
      AddErrorPrefix(key, args[..|args| - 1], i);
    }
  }

  lemma {:induction false} RemErrorPrefix(key: bytes, ms: seq<bytes>, i: nat)
    requires i < |ms| && RemError(key, ms[..i]).None? && NameError(key, ms[i]).Some?
    ensures RemError(key, ms) == NameError(key, ms[i])
    decreases |ms|
  {
    if i < |ms| - 1 {
      assert ms[..|ms| - 1][..i] == ms[..i];
      RemErrorPrefix(key, ms[..|ms| - 1], i);
    }
  }

  lemma AddPrefix(s: Store, d: nat, key: bytes, args: seq<Pair>, i: nat)
    requires i < |args|
    ensures AddOps(s, d, key, args[..i + 1]) == AddOps(s, d, key, args[..i]) + SetItemOps(s, d, key, args[i])
    ensures CountNew(s, d, key, args[..i + 1]) ==
            CountNew(s, d, key, args[..i]) + if MemberKey(d, key, args[i].member) in s then 0 else 1
    ensures AddError(key, args[..i + 1]) == if AddError(key, args[..i]).Some? then AddError(key, args[..i])
              else PairError(key, args[i])
  {
    assert args[..i + 1][..i] == args[..i];
    assert MembersOf(args[..i + 1])[..i] == MembersOf(args[..i]);
  }

  /** ZAdd. */
  method ZAdd(db: DB, key: bytes, args: seq<Pair>) returns (r: Reply<int>)
    requires db.Ready()
    modifies db`bucket, db`batch
    ensures db.batch == []
    ensures args == [] ==> r == Done(0) && db.bucket == old(db.bucket)
    ensures AddError(key, args).Some? ==> r == Fail(AddError(key, args).value) && db.bucket == old(db.bucket)
    ensures args != [] && AddError(key, args).None? && db.readonly ==>
              r == Fail(ErrReadonly) && db.bucket == old(db.bucket)
    ensures args != [] && AddError(key, args).None? && !db.readonly ==>
              r == Done(CountNew(old(db.bucket), db.index, key, args)) &&
                  db.bucket == Added(old(db.bucket), db.index, key, args)
  {
    hide AddOps, CountNew, PairError, SetItemOps, Apply, IncrSizeOps, ValidStore;
    if args == [] {
      return Done(0);
    }
    var num := 0;
    ghost var s, d := db.bucket, db.index;
    assert args[..0] == [] && AddError(key, []) == None;
    NothingAdded(s, d, key);
    for i := 0 to |args|
      invariant db.bucket == s
      invariant AddError(key, args[..i]).None?
      invariant db.batch == AddOps(s, d, key, args[..i]) && num == CountNew(s, d, key, args[..i])
    {
      var e := PairError(key, args[i]);
      AddPrefix(s, d, key, args, i);
      if e.Some? {
        AddErrorPrefix(key, args, i);
        db.Unlock();
        return Fail(e.value);
      }
      var stored := MemberKey(db.index, key, args[i].member) in db.bucket;
      db.batch := db.batch + SetItemOps(db.bucket, db.index, key, args[i]);
      if !stored {
        num := num + 1;
      }
    }
    assert args[..|args|] == args;
    db.batch := db.batch + IncrSizeOps(db.bucket, db.index, ZSetColl, key, num);
    var ok := db.Commit();
    db.Unlock();
    r := if ok then Done(num) else Fail(ErrReadonly);
  }

  lemma NothingAdded(s: Store, d: nat, key: bytes)
    ensures AddOps(s, d, key, []) == [] && CountNew(s, d, key, []) == 0
    ensures RemOps(s, d, key, []) == [] && CountStored(s, d, key, []) == 0
  {
    assert MembersOf([]) == [];
  }

  lemma RemPrefix(s: Store, d: nat, key: bytes, ms: seq<bytes>, i: nat)
    requires i < |ms|
    ensures RemOps(s, d, key, ms[..i + 1]) == RemOps(s, d, key, ms[..i]) + DelItemOps(s, d, key, ms[i])
    ensures CountStored(s, d, key, ms[..i + 1]) ==
            CountStored(s, d, key, ms[..i]) + if MemberKey(d, key, ms[i]) in s then 1 else 0
    ensures RemError(key, ms[..i + 1]) == if RemError(key, ms[..i]).Some? then RemError(key, ms[..i])
              else NameError(key, ms[i])
  {
    assert ms[..i + 1][..i] == ms[..i];
  }

  /** ZRem. */
  method ZRem(db: DB, key: bytes, ms: seq<bytes>) returns (r: Reply<int>)
    requires db.Ready()
    modifies db`bucket, db`batch
    ensures db.batch == []
    ensures ms == [] ==> r == Done(0) && db.bucket == old(db.bucket)
    ensures RemError(key, ms).Some? ==> r == Fail(RemError(key, ms).value) && db.bucket == old(db.bucket)
    ensures ms != [] && RemError(key, ms).None? && db.readonly ==> r == Fail(ErrReadonly) && db.bucket == old(db.bucket)
    ensures ms != [] && RemError(key, ms).None? && !db.readonly ==>
              r == Done(CountStored(old(db.bucket), db.index, key, ms)) &&
                  db.bucket == Removed(old(db.bucket), db.index, key, ms)
  {
    hide RemOps, CountStored, NameError, DelItemOps, Apply, IncrSizeOps, ValidStore;
    if ms == [] {
      return Done(0);
    }
    var num := 0;
    ghost var s, d := db.bucket, db.index;
    assert ms[..0] == [] && RemError(key, []) == None;
    NothingAdded(s, d, key);
    for i := 0 to |ms|
      invariant db.bucket == s
      invariant RemError(key, ms[..i]).None?
      invariant db.batch == RemOps(s, d, key, ms[..i]) && num == CountStored(s, d, key, ms[..i])
    {
      var e := NameError(key, ms[i]);
      RemPrefix(s, d, key, ms, i);
      if e.Some? {
        RemErrorPrefix(key, ms, i);
        db.Unlock();
        return Fail(e.value);
      }
      db.batch := db.batch + DelItemOps(db.bucket, db.index, key, ms[i]);
      if MemberKey(db.index, key, ms[i]) in db.bucket {
        num := num + 1;
      }
    }
    assert ms[..|ms|] == ms;
    db.batch := db.batch + IncrSizeOps(db.bucket, db.index, ZSetColl, key, 0 - num);
    var ok := db.Commit();
    db.Unlock();
    r := if ok then Done(num) else Fail(ErrReadonly);
  }

  /** ZIncrBy: a refused score rolls back the size record already in the batch. */
  method ZIncrBy(db: DB, key: bytes, delta: int, m: bytes) returns (r: Reply<int>)
    requires db.Ready()
    modifies db`bucket, db`batch
    ensures db.batch == []
    ensures var s, d := old(db.bucket), db.index;
            var e := if NameError(key, m).Some? then NameError(key, m)
                     else if !ValidScore(NewScore(s, d, key, delta, m)) then Some(ErrScoreOverflow)
                     else if db.readonly then Some(ErrReadonly)
                     else None;
            if e.Some? then r == Fail(e.value) && db.bucket == s
            else r == Done(NewScore(s, d, key, delta, m)) && db.bucket == Incremented(s, d, key, delta, m)
  {
    hide Apply, IncrSizeOps, ValidStore;
    var e := NameError(key, m);
    if e.Some? {
      return Fail(e.value);
    }
    var ek := MemberKey(db.index, key, m);
    var oldScore := GetInt(db.bucket, ek);
    if ek !in db.bucket {
      db.batch := db.batch + IncrSizeOps(db.bucket, db.index, ZSetColl, key, 1);
    }
    var score := Wrap64(oldScore + delta);
    if !ValidScore(score) {
      db.Unlock();
      return Fail(ErrScoreOverflow);
    }
    db.batch := db.batch + [Put(ScoreKey(db.index, key, score, m), BytesVal([])), Put(ek, IntVal(score))];
    if ek in db.bucket {
      db.batch := db.batch + [Delete(ScoreKey(db.index, key, oldScore, m))];
    }
    assert db.batch == IncrByOps(db.bucket, db.index, key, delta, m);
    var ok := db.Commit();
    db.Unlock();
    r := if ok then Done(score) else Fail(ErrReadonly);
  }

  // ---------------------------------------------------------------- removal of ranges

  ghost function RangeBatch(s: Store, d: nat, key: bytes, min: int, max: int, offset: int, count: int): (ops: Ops)
    requires ValidStore(s) && |key| <= MAX_KEY_SIZE && IsInt64(min) && IsInt64(max)
  {
    QueryPairs(s, d, key, min, max, false, offset, count, false);
    RangeRemBatch(s, d, key, Walked(s, d, key, min, max, offset, count))
  }

  lemma RangeRemPrefix(s: Store, d: nat, key: bytes, ks: seq<Key>, i: nat)
    requires AreScoreKeys(d, key, ks) && i < |ks|
    ensures RangeRemOps(s, d, key, ks[..i + 1]) ==
            RangeRemOps(s, d, key, ks[..i]) +
            (if MemberKey(d, key, ks[i].kind.member) in s then [Delete(MemberKey(d, key, ks[i].kind.member)),
                Delete(ks[i])] else [Delete(ks[i])])
    ensures CountStored(s, d, key, MemberNames(ks[..i + 1])) ==
            CountStored(s, d, key, MemberNames(ks[..i])) + if MemberKey(d, key, ks[i].kind.member) in s then 1 else 0
  {
    assert ks[..i + 1][..i] == ks[..i];
    assert MemberNames(ks[..i + 1])[..i] == MemberNames(ks[..i]);
  }

  /** zRemRange: adds to the batch; nothing for a key that is too long. */
  method RemRange(db: DB, key: bytes, min: int, max: int, offset: int, count: int) returns (r: Reply<int>)
    requires ValidStore(db.bucket) && IsInt64(min) && IsInt64(max)
    modifies db`batch
    ensures |key| > MAX_KEY_SIZE ==> r == Fail(ErrKeySize) && db.batch == old(db.batch)
    ensures |key| <= MAX_KEY_SIZE ==>
              && db.batch == old(db.batch) + RangeBatch(db.bucket, db.index, key, min, max, offset, count)
              && AreScoreKeys(db.index, key, Walked(db.bucket, db.index, key, min, max, offset, count))
              && r == Done(CountStored(db.bucket, db.index, key,
                  MemberNames(Walked(db.bucket, db.index, key, min, max, offset, count))))
  {
    hide RangeRemOps, CountStored, IncrSizeOps, ValidStore, ScoreRangeOf, Query, RangePairs, MemberNames, Encode;
    if |key| > MAX_KEY_SIZE {
      return Fail(ErrKeySize);
    }
    ghost var s, d, b := db.bucket, db.index, db.batch;
    QueryPairs(s, d, key, min, max, false, offset, count, false);
    var ks := RangeKeys(db.bucket, ScoreRangeOf(db.index, key, min, max, false), Limit(offset, count), false);
    var num := 0;
    NoneWalked(s, d, key);
    assert ks[..0] == [] && b + [] == b;
    for i := 0 to |ks|
      invariant db.batch == b + RangeRemOps(s, d, key, ks[..i]) && num == CountStored(s, d, key, MemberNames(ks[..i]))
    {
      var sk := ks[i];
      var ek := MemberKey(db.index, key, sk.kind.member);
      RangeRemPrefix(s, d, key, ks, i);
      if ek in db.bucket {
        db.batch := db.batch + [Delete(ek)];
        num := num + 1;
      }
      db.batch := db.batch + [Delete(sk)];
    }
    assert ks[..|ks|] == ks;
    db.batch := db.batch + IncrSizeOps(db.bucket, db.index, ZSetColl, key, 0 - num);
    r := Done(num);
  }

  lemma NoneWalked(s: Store, d: nat, key: bytes)
    ensures RangeRemOps(s, d, key, []) == [] && CountStored(s, d, key, MemberNames([])) == 0
  {
    assert MemberNames([]) == [];
  }

  /** The pairs a range removal is to take away. */
  ghost function Doomed(s: Store, d: nat, key: bytes, min: int, max: int, offset: int, count: int): (v: seq<Pair>)
    requires ValidStore(s) && |key| <= MAX_KEY_SIZE && IsInt64(min) && IsInt64(max)
  {
    Window(FilterPairs(SortedPairs(s, d, key), min, max), offset, count)
  }

  /** ZRemRangeByScore (no offset, no count), ZRemRangeByRank and ZClear around zRemRange. */
  method ZRemRange(db: DB, key: bytes, min: int, max: int, offset: int, count: int) returns (r: Reply<int>)
    requires db.Ready() && ZInv(db.bucket, db.index) && IsInt64(min) && IsInt64(max)
    modifies db`bucket, db`batch
    ensures db.batch == []
    ensures |key| > MAX_KEY_SIZE ==> r == Fail(ErrKeySize) && db.bucket == old(db.bucket)
    ensures |key| <= MAX_KEY_SIZE && db.readonly ==> r == Fail(ErrReadonly) && db.bucket == old(db.bucket)
    ensures |key| <= MAX_KEY_SIZE && !db.readonly ==>
              var gone := Doomed(old(db.bucket), db.index, key, min, max, offset, count);
              r == Done(|gone|) && db.bucket == Removed(old(db.bucket), db.index, key, MembersOf(gone))
  {
    hide ZInv, Removed, ValidStore, SortedPairs, FilterPairs, RangeRemBatch, Walked, AreScoreKeys, CountStored;
    r := RemRange(db, key, min, max, offset, count);
    if r.Done? {
      RemRangeKeeps(db.bucket, db.index, key, min, max, offset, count);
      assert db.batch == RangeBatch(db.bucket, db.index, key, min, max, offset, count);
      var ok := db.Commit();
      if !ok {
        r := Fail(ErrReadonly);
      }
    }
    db.Unlock();
  }

  /** ZRemRangeByRank: the ranks are resolved as in ZRange. */
  method ZRemRangeByRank(db: DB, key: bytes, start: int, stop: int) returns (r: Reply<int>)
    requires db.Ready() && ZInv(db.bucket, db.index) && IsInt64(start) && IsInt64(stop) &&
              Countable(db.bucket, db.index)
    modifies db`bucket, db`batch
    ensures db.batch == []
    ensures var s, d := old(db.bucket), db.index;
            var e := if |key| > MAX_KEY_SIZE || (key == [] && (start < 0 || stop < 0)) then Some(ErrKeySize)
                     else if db.readonly then Some(ErrReadonly)
                     else None;
            if e.Some? then r == Fail(e.value) && db.bucket == s
            else
              var gone := RankSlice(SortedPairs(s, d, key), start, stop);
              r == Done(|gone|) && db.bucket == Removed(s, d, key, MembersOf(gone))
  {
    hide ZInv, Removed, ValidStore, SortedPairs, FilterPairs, RankSlice, Window;
    var limit := ParseLimit(db.bucket, db.index, key, start, stop);
    if limit.Fail? {
      return Fail(limit.error);
    }
    if |key| <= MAX_KEY_SIZE {
      DoomedRanks(db.bucket, db.index, key, start, stop);
    }
    r := ZRemRange(db, key, MIN_SCORE, MAX_SCORE, limit.value.0, limit.value.1);
  }

  lemma DoomedRanks(s: Store, d: nat, key: bytes, start: int, stop: int)
    requires ZInv(s, d) && |key| <= MAX_KEY_SIZE && IsInt64(start) && IsInt64(stop) && Countable(s, d)
    requires ParseLimit(s, d, key, start, stop).Done?
    ensures var w := ParseLimit(s, d, key, start, stop).value;
            Doomed(s, d, key, MIN_SCORE, MAX_SCORE, w.0, w.1) == RankSlice(SortedPairs(s, d, key), start, stop)
  {
    hide SortedPairs, FilterPairs, Window, RankSlice, ValidStore, IndexOK, ScoresOK, SizeOK;
    assert ZOK(s, d, key);
    PairsAreMembers(s, d, key);
    RangeIsFilter(s, d, key, MIN_SCORE, MAX_SCORE, false);
    SortedPairsIsRange(s, d, key);
    ParseLimitIsRankSlice(s, d, key, SortedPairs(s, d, key), start, stop);
  }

  // ---------------------------------------------------------------- stores

  /** Every stored member has a name the size checks let through. */
  ghost predicate NamesBound(s: Store, d: nat) {
    forall key: bytes, m: bytes :: MemberKey(d, key, m) in s ==> NameError(key, m).None?
  }

  /** The two operations, by what they compute. */
  ghost predicate IsResult(union: bool, view: map<bytes, int>, s: Store, d: nat, srcs: seq<bytes>, ws: seq<int>,
        g: Aggregate)
    requires |srcs| == |ws| && srcs != []
  {
    if union then IsUnion(view, Views(s, d, srcs), ws, g) else IsInter(view, Views(s, d, srcs), ws, g)
  }

  function Weights(srcs: seq<bytes>, weights: Option<seq<int>>): (ws: seq<int>) {
    match weights
    case Some(ws) => ws
    case None => seq(|srcs|, i => 1)
  }

  /** What is refused before anything is read. */
  function StoreError(srcs: seq<bytes>, weights: Option<seq<int>>, code: byte): (e: Option<Error>)
    ensures e.None? <==> AggregateOf(code).Some? && srcs != [] && |Weights(srcs, weights)| == |srcs|
  {
    if AggregateOf(code).None? then Some(ErrAggregate)
    else if |srcs| < 1 then Some(ErrSrcKeyNum)
    else if weights.Some? && |srcs| != |weights.value| then Some(ErrWeightNum)
    else None
  }

  /** A member of a source. */
  lemma {:induction false} ContributedIsNamed(s: Store, d: nat, srcs: seq<bytes>, ws: seq<int>, m: bytes)
    requires NamesBound(s, d) && |srcs| == |ws| && Contributions(Views(s, d, srcs), ws, m) != []
    ensures MemberSizeOK(m)
  {
    var n := |srcs| - 1;
    var views := Views(s, d, srcs);
    if m in views[n] {
      assert MemberKey(d, srcs[n], m) in s;
    } else {
      assert views[..n] == Views(s, d, srcs[..n]);
      ContributedIsNamed(s, d, srcs[..n], ws[..n], m);
    }
  }

  lemma ResultIsNamed(union: bool, view: map<bytes, int>, s: Store, d: nat, srcs: seq<bytes>, ws: seq<int>,
        g: Aggregate, m: bytes)
    requires NamesBound(s, d) && |srcs| == |ws| && srcs != [] && IsResult(union, view, s, d, srcs, ws, g) && m in view
    ensures MemberSizeOK(m)
  {
    hide NamesBound, MemberSizeOK, Views;
    assert Contributions(Views(s, d, srcs), ws, m) != [];
    ContributedIsNamed(s, d, srcs, ws, m);
  }

  /** Writing half: members are taken from the collected map in any order. */
  method WriteAll(db: DB, dest: bytes, view: map<bytes, int>) returns (e: Option<Error>, ghost order: seq<Pair>)
    requires db.index <= MAX_DATABASES && ZInv(db.bucket, db.index) && db.batch == DeleteOps(db.bucket, db.index, dest)
    requires forall m :: m in view ==> MemberSizeOK(m)
    modifies db`batch
    ensures view != map[] && !KeySizeOK(dest) ==> e == Some(ErrKeySize)
    ensures KeySizeOK(dest) && (exists m :: m in view && !ValidScore(view[m])) ==> e == Some(ErrScoreOverflow)
    ensures (view == map[] || KeySizeOK(dest)) && (forall m :: m in view ==> ValidScore(view[m])) ==>
              && e == None && Lists(order, view)
              && db.batch == DeleteOps(db.bucket, db.index, dest) + AddOps(db.bucket, db.index, dest, order)
  {
    hide DeleteOps, ZInv, AddOps, SetItemOps, KeySizeOK, MemberSizeOK, ValidScore;
    ghost var del, s, d := db.batch, db.bucket, db.index;
    order := [];
    var rest := view.Keys;
    NothingAdded(s, d, dest);
    assert del + [] == del;
    while rest != {}
      invariant rest <= view.Keys
      invariant forall i, j :: 0 <= i < j < |order| ==> order[i].member != order[j].member
      invariant forall p :: p in order <==> p.member in view && p.member !in rest && view[p.member] == p.score
      invariant forall m :: m in view && m !in rest ==> ValidScore(view[m]) && KeySizeOK(dest)
      invariant db.batch == del + AddOps(s, d, dest, order)
      decreases rest
    {
      var m :| m in rest;
      var p := Pair(view[m], m);
      e := PairError(dest, p);
      if e.Some? {
        return;
      }
      SetItemAppends(s, d, dest, order, p);
      assert del + AddOps(s, d, dest, order + [p]) == del + AddOps(s, d, dest, order) + SetItemOps(s, d, dest, p);
      db.batch := db.batch + SetItemOps(db.bucket, db.index, dest, p);
      ghost var was := order;
      order := order + [p];
      rest := rest - {m};
      forall i | 0 <= i < |was| ensures was[i].member != m { assert was[i] in was; }
    }
    e := None;
  }

  lemma SetItemAppends(s: Store, d: nat, key: bytes, args: seq<Pair>, p: Pair)
    ensures AddOps(s, d, key, args + [p]) == AddOps(s, d, key, args) + SetItemOps(s, d, key, p)
  {
    assert (args + [p])[..|args|] == args;
  }

  /**
   ZUnionStore and ZInterStore: `view` is the aggregate of the sources as they were before the call.
   A destination whose name is refused is written to only when there is nothing to write but a zero
   size.
   */
  method ZStore(db: DB, union: bool, dest: bytes, srcs: seq<bytes>, weights: Option<seq<int>>, code: byte)
    returns (r: Reply<int>, ghost view: map<bytes, int>, ghost order: seq<Pair>)
    requires db.Ready() && ZInv(db.bucket, db.index) && Countable(db.bucket, db.index) &&
              NamesBound(db.bucket, db.index)
    modifies db`bucket, db`batch
    ensures db.batch == []
    ensures StoreError(srcs, weights, code).Some? ==> r == Fail(StoreError(srcs, weights, code).value)
    ensures StoreError(srcs, weights, code).None? ==>
              if exists i :: 0 <= i < |srcs| && !KeySizeOK(srcs[i]) then r == Fail(ErrKeySize)
              else
                && IsResult(union, view, old(db.bucket), db.index, srcs, Weights(srcs, weights),
                    AggregateOf(code).value)
                && if view != map[] && !KeySizeOK(dest) then r == Fail(ErrKeySize)
                   else if exists m :: m in view && !ValidScore(view[m]) then r == Fail(ErrScoreOverflow)
                   else if db.readonly then r == Fail(ErrReadonly)
                   else r == Done(|view|)
    ensures r.Fail? ==> db.bucket == old(db.bucket)
    ensures r.Done? ==>
              && Lists(order, view) && (view == map[] || KeySizeOK(dest)) &&
                  (forall m :: m in view ==> ValidScore(view[m]))
              && db.bucket == Stored(old(db.bucket), db.index, dest, order)
  {
    hide ZInv, Countable, NamesBound, ValidStore, IsUnion, IsInter, Lists, DeleteOps, AddOps, KeySizeOK, ValidScore,
         Views, Apply, MemberSizeOK;
    view, order := map[], [];
    var e := StoreError(srcs, weights, code);
    if e.Some? {
      return Fail(e.value), view, order;
    }
    var ws, g := Weights(srcs, weights), AggregateOf(code).value;
    var c: Reply<map<bytes, int>>;
    if union {
      c := CollectUnion(db.bucket, db.index, srcs, ws, g);
    } else {
      c := CollectInter(db.bucket, db.index, srcs, ws, g);
    }
    if c.Fail? {
      return Fail(c.error), view, order;
    }
    view := c.value;
    assert IsResult(union, view, db.bucket, db.index, srcs, ws, g);
    forall m | m in c.value ensures MemberSizeOK(m) {
      ResultIsNamed(union, c.value, db.bucket, db.index, srcs, ws, g, m);
    }
    DeleteBatch(db, dest);
    assert db.batch == DeleteOps(db.bucket, db.index, dest);
    e, order := WriteAll(db, dest, c.value);
    if e.Some? {
      db.Unlock();
      return Fail(e.value), view, order;
    }
    ListedSize(order, c.value);
    db.batch := db.batch + [Put(CountKey(db.index, dest), IntVal(|c.value|))];
    assert db.batch == StoreOps(db.bucket, db.index, dest, order);
    var ok := db.Commit();
    db.Unlock();
    r := if ok then Done(|c.value|) else Fail(ErrReadonly);
  }

  /** zDelete adds to the batch and drops the error of zRemRange. */
  method DeleteBatch(db: DB, key: bytes)
    requires db.Sound() && ZInv(db.bucket, db.index)
    modifies db`batch
    ensures db.batch == old(db.batch) + DeleteOps(db.bucket, db.index, key)
  {
    hide ZInv, Walked, RangeRemBatch, ValidStore, AreScoreKeys;
    var _ := RemRange(db, key, MIN_SCORE, MAX_SCORE, 0, -1);
    assert |key| > MAX_KEY_SIZE ==> old(db.batch) + [] == old(db.batch);
  }
}
