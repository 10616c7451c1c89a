/**
 What sets and hashes share (ledis/t_set.go, ledis/t_hash.go): one record per member or field, and a
 size record kept by counting, against the committed store, the arguments that add or remove one.
 */
module Collections {
  import opened Bytes
  import opened Keys
  import opened Batches
  import opened Ranges
  import opened Database
  import opened Counting

  /** A field with its value; a member of a set has the empty value. */
  datatype Field = Field(name: bytes, value: bytes)

  predicate IsRecordOf(d: nat, c: Coll, key: bytes, k: Key) {
    k.db == d && ((k.kind.Item? && k.kind.coll == c) || k == SizeKey(d, c, key)) && k.kind.key == key
  }

  /** Every size record of one kind of collection is right. */
  ghost predicate CInv(s: Store, d: nat, c: Coll) {
    ValidStore(s) && forall key: bytes :: SizeOK(s, d, c, key)
  }

  // ---------------------------------------------------------------- SAdd and HMset

  function Names(args: seq<Field>): (ms: seq<bytes>)
    ensures |ms| == |args|
  {
    seq(|args|, i requires 0 <= i < |args| => args[i].name)
  }

  function AddOps(d: nat, c: Coll, key: bytes, args: seq<Field>): (ops: Ops) {
    if args == [] then []
    else
      var a := args[|args| - 1];
      AddOps(d, c, key, args[..|args| - 1]) + [Put(ItemKey(d, c, key, a.name), BytesVal(a.value))]
  }

  function CountNew(s: Store, d: nat, c: Coll, key: bytes, args: seq<Field>): (n: nat) {
    Count(Names(args), m => ItemKey(d, c, key, m) !in s)
  }

  /** The value of the last argument for a name, if there is one. */
  function LastValue(args: seq<Field>, m: bytes): (r: Option<bytes>)
    ensures r.Some? <==> m in Names(args)
  {
    if args == [] then None
    else
      var n := |args| - 1;
      assert Names(args) == Names(args[..n]) + [args[n].name];
      if args[n].name == m then Some(args[n].value) else LastValue(args[..n], m)
  }

  function Added(s: Store, d: nat, c: Coll, key: bytes, args: seq<Field>): (u: Store) {
    Apply(s, AddOps(d, c, key, args) + IncrSizeOps(s, d, c, key, CountNew(s, d, c, key, args)))
  }

  lemma LastValueStep(args: seq<Field>, m: bytes)
    requires args != []
    ensures var n := |args| - 1;
            LastValue(args, m) == if args[n].name == m then Some(args[n].value) else LastValue(args[..n], m)
  {
  }

  lemma {:induction false} AddEffect(u: Store, d: nat, c: Coll, key: bytes, args: seq<Field>, k: Key)
    ensures Lookup(Apply(u, AddOps(d, c, key, args)), k) ==
            if k.db == d && k.kind.Item? && k.kind.coll == c && k.kind.key == key &&
                LastValue(args, k.kind.member).Some?
            then Some(BytesVal(LastValue(args, k.kind.member).value)) else Lookup(u, k)
  {
    if args != [] {
      hide Apply, Names, LastValue;
      var n := |args| - 1;
      if k.kind.Item? { LastValueStep(args, k.kind.member); }
      AddEffect(u, d, c, key, args[..n], k);
      var put: Op<Key, Val> := Put(ItemKey(d, c, key, args[n].name), BytesVal(args[n].value));
      ApplyOne(u, AddOps(d, c, key, args[..n]), put);
    } else {
      ApplyFew(u, Delete(k), Delete(k), Delete(k));
    }
  }

  /** Record by record, what an addition leaves. */
  lemma AddedAt(s: Store, d: nat, c: Coll, key: bytes, args: seq<Field>, k: Key)
    ensures var size, mk := GetInt(s, SizeKey(d, c, key)) + CountNew(s, d, c, key, args),
              ExpMetaKey(d, c.ItemType(), key);
            Lookup(Added(s, d, c, key, args), k) ==
            if k == SizeKey(d, c, key) then (if size <= 0 then None else Some(IntVal(size)))
            else if size <= 0 && mk in s && (k == mk || k == ExpTimeKey(d, GetInt(s, mk), c.ItemType(), key)) then None
            else if k.db == d && k.kind.Item? && k.kind.coll == c && k.kind.key == key &&
                LastValue(args, k.kind.member).Some?
            then Some(BytesVal(LastValue(args, k.kind.member).value))
            else Lookup(s, k)
  {
    hide AddOps, CountNew, Apply, LastValue;
    var n := CountNew(s, d, c, key, args);
    AddEffect(s, d, c, key, args, k);
    ApplyAppend(s, AddOps(d, c, key, args), IncrSizeOps(s, d, c, key, n));
    IncrSizeEffect(s, Apply(s, AddOps(d, c, key, args)), d, c, key, n, k);
  }

  /** No name new to the collection is given twice. */
  predicate NewOnce(s: Store, d: nat, c: Coll, key: bytes, args: seq<Field>) {
    NoRepeat(Names(args), m => ItemKey(d, c, key, m) !in s)
  }

  lemma AddedMembers(s: Store, d: nat, c: Coll, key: bytes, args: seq<Field>)
    ensures Members(Added(s, d, c, key, args), d, c, key) ==
            Members(s, d, c, key) + Distinct(Names(args), m => ItemKey(d, c, key, m) !in s)
  {
    hide Added, CountNew, Names;
    var u := Added(s, d, c, key, args);
    forall m
      ensures m in Members(u, d, c, key) <==>
                m in Members(s, d, c, key) || (m in Names(args) && ItemKey(d, c, key, m) !in s)
    {
      AddedAt(s, d, c, key, args, ItemKey(d, c, key, m));
      assert ItemKey(d, c, key, m) in u <==> Lookup(u, ItemKey(d, c, key, m)).Some?;
    }
  }

  lemma AddSizeIff(s: Store, d: nat, c: Coll, key: bytes, args: seq<Field>)
    requires SizeOK(s, d, c, key)
    ensures SizeOK(Added(s, d, c, key, args), d, c, key) <==> NewOnce(s, d, c, key, args)
  {
    hide Added, Count, NoRepeat, Names;
    var u, p := Added(s, d, c, key, args), (m: bytes) => ItemKey(d, c, key, m) !in s;
    AddedAt(s, d, c, key, args, SizeKey(d, c, key));
    AddedMembers(s, d, c, key, args);
    CountIsDistinct(Names(args), p);
    var olds, news := Members(s, d, c, key), Distinct(Names(args), p);
    assert olds !! news;
    assert |olds + news| == |olds| + |news|;
    assert GetInt(u, SizeKey(d, c, key)) == var n := |olds| + Count(Names(args), p); if n <= 0 then 0 else n;
  }

  /** The size of one collection depends on its own records only. */
  lemma FrameSize(s: Store, u: Store, d: nat, c: Coll, key: bytes)
    requires forall k: Key :: IsRecordOf(d, c, key, k) ==> Lookup(u, k) == Lookup(s, k)
    ensures SizeOK(u, d, c, key) <==> SizeOK(s, d, c, key)
    ensures Members(u, d, c, key) == Members(s, d, c, key)
  {
    assert IsRecordOf(d, c, key, SizeKey(d, c, key));
    forall m ensures m in Members(u, d, c, key) <==> m in Members(s, d, c, key) {
      assert IsRecordOf(d, c, key, ItemKey(d, c, key, m));
      assert ItemKey(d, c, key, m) in u <==> ItemKey(d, c, key, m) in s;
    }
    assert Members(u, d, c, key) == Members(s, d, c, key);
    assert GetInt(u, SizeKey(d, c, key)) == GetInt(s, SizeKey(d, c, key));
  }

  lemma AddedValid(s: Store, d: nat, c: Coll, key: bytes, args: seq<Field>)
    requires ValidStore(s) && !c.ZSetColl? && d <= MAX_DATABASES && (args != [] ==> |key| < 0x1_0000)
    ensures ValidStore(Added(s, d, c, key, args))
  {
    hide Added, CountNew;
    var u := Added(s, d, c, key, args);
    forall k | k in u ensures ValidRecord(k, u[k]) {
      AddedAt(s, d, c, key, args, k);
      assert Lookup(u, k) == Some(u[k]);
      assert k in s ==> ValidRecord(k, s[k]);
    }
  }

  /** SAdd and HMset keep every size right if and only if no new name is given twice. */
  lemma AddKeepsIff(s: Store, d: nat, c: Coll, key: bytes, args: seq<Field>)
    requires CInv(s, d, c) && !c.ZSetColl? && d <= MAX_DATABASES && (args != [] ==> |key| < 0x1_0000)
    ensures CInv(Added(s, d, c, key, args), d, c) <==> NewOnce(s, d, c, key, args)
  {
    hide Added, SizeOK, NewOnce, ValidStore;
    var u := Added(s, d, c, key, args);
    AddedValid(s, d, c, key, args);
    assert SizeOK(s, d, c, key);
    AddSizeIff(s, d, c, key, args);
    assert SizeOK(u, d, c, key) <==> NewOnce(s, d, c, key, args);
    forall other: bytes | other != key ensures SizeOK(u, d, c, other) {
      assert SizeOK(s, d, c, other);
      forall k: Key | IsRecordOf(d, c, other, k) ensures Lookup(u, k) == Lookup(s, k) {
        AddedAt(s, d, c, key, args, k);
      }
      FrameSize(s, u, d, c, other);
    }
  }

  /** A name given twice that is new leaves the size one too high. */
  lemma RepeatedNameBreaksSize(d: nat, c: Coll, key: bytes)
    requires !c.ZSetColl? && d <= MAX_DATABASES && |key| < 0x1_0000
    ensures CInv(map[], d, c) && !CInv(Added(map[], d, c, key, [Field([97], []), Field([97], [])]), d, c)
  {
    var args := [Field([97], []), Field([97], [])];
    assert CInv(map[], d, c);
    AddKeepsIff(map[], d, c, key, args);
    assert Names(args)[0] == Names(args)[1];
  }

  // ---------------------------------------------------------------- SRem and HDel

  function RemOps(s: Store, d: nat, c: Coll, key: bytes, ms: seq<bytes>): (ops: Ops) {
    if ms == [] then []
    else
      var m := ms[|ms| - 1];
      RemOps(s, d, c, key, ms[..|ms| - 1]) + if ItemKey(d, c, key, m) in s then [Delete(ItemKey(d, c, key, m))] else []
  }

  function CountStored(s: Store, d: nat, c: Coll, key: bytes, ms: seq<bytes>): (n: nat) {
    Count(ms, m => ItemKey(d, c, key, m) in s)
  }

  function Removed(s: Store, d: nat, c: Coll, key: bytes, ms: seq<bytes>): (u: Store) {
    Apply(s, RemOps(s, d, c, key, ms) + IncrSizeOps(s, d, c, key, 0 - CountStored(s, d, c, key, ms)))
  }

  lemma {:induction false} RemEffect(s: Store, d: nat, c: Coll, key: bytes, ms: seq<bytes>, k: Key)
    ensures Lookup(Apply(s, RemOps(s, d, c, key, ms)), k) ==
            if k.db == d && k.kind.Item? && k.kind.coll == c && k.kind.key == key && k.kind.member in ms then None
                else Lookup(s, k)
  {
    if ms != [] {
      hide Apply;
      var n := |ms| - 1;
      var ek, front := ItemKey(d, c, key, ms[n]), RemOps(s, d, c, key, ms[..n]);
      RemEffect(s, d, c, key, ms[..n], k);
      var del: Op<Key, Val> := Delete(ek);
      ApplyOne(s, front, del);
      assert front + [] == front;
      assert forall x :: x in ms <==> x in ms[..n] || x == ms[n];
    } else {
      ApplyFew(s, Delete(k), Delete(k), Delete(k));
    }
  }

  lemma RemovedAt(s: Store, d: nat, c: Coll, key: bytes, ms: seq<bytes>, k: Key)
    ensures var size, mk := GetInt(s, SizeKey(d, c, key)) - CountStored(s, d, c, key, ms),
              ExpMetaKey(d, c.ItemType(), key);
            Lookup(Removed(s, d, c, key, ms), k) ==
            if k == SizeKey(d, c, key) then (if size <= 0 then None else Some(IntVal(size)))
            else if size <= 0 && mk in s && (k == mk || k == ExpTimeKey(d, GetInt(s, mk), c.ItemType(), key)) then None
            else if k.db == d && k.kind.Item? && k.kind.coll == c && k.kind.key == key && k.kind.member in ms then None
            else Lookup(s, k)
  {
    hide RemOps, CountStored, Apply;
    var delta: int := 0 - CountStored(s, d, c, key, ms);
    RemEffect(s, d, c, key, ms, k);
    ApplyAppend(s, RemOps(s, d, c, key, ms), IncrSizeOps(s, d, c, key, delta));
    IncrSizeEffect(s, Apply(s, RemOps(s, d, c, key, ms)), d, c, key, delta, k);
  }

  /** No stored name is given twice. */
  predicate StoredOnce(s: Store, d: nat, c: Coll, key: bytes, ms: seq<bytes>) {
    NoRepeat(ms, m => ItemKey(d, c, key, m) in s)
  }

  ghost predicate NamesAll(s: Store, d: nat, c: Coll, key: bytes, ms: seq<bytes>) {
    forall m :: m in Members(s, d, c, key) ==> m in ms
  }

  lemma RemovedMembers(s: Store, d: nat, c: Coll, key: bytes, ms: seq<bytes>)
    ensures var gone := Distinct(ms, m => ItemKey(d, c, key, m) in s);
            gone <= Members(s, d, c, key) &&
                Members(Removed(s, d, c, key, ms), d, c, key) == Members(s, d, c, key) - gone
  {
    hide Removed, CountStored;
    var u := Removed(s, d, c, key, ms);
    forall m ensures m in Members(u, d, c, key) <==> m in Members(s, d, c, key) && m !in ms {
      RemovedAt(s, d, c, key, ms, ItemKey(d, c, key, m));
      assert ItemKey(d, c, key, m) in u <==> Lookup(u, ItemKey(d, c, key, m)).Some?;
    }
  }

  lemma RemSizeIff(s: Store, d: nat, c: Coll, key: bytes, ms: seq<bytes>)
    requires SizeOK(s, d, c, key)
    ensures SizeOK(Removed(s, d, c, key, ms), d, c, key) <==> StoredOnce(s, d, c, key, ms) || NamesAll(s, d, c, key, ms)
  {
    hide Removed, Count, NoRepeat;
    var p := (m: bytes) => ItemKey(d, c, key, m) in s;
    RemovedAt(s, d, c, key, ms, SizeKey(d, c, key));
    RemovedMembers(s, d, c, key, ms);
    CountIsDistinct(ms, p);
    var all, gone := Members(s, d, c, key), Distinct(ms, p);
    SubsetSize(gone, all);
    assert all <= gone <==> NamesAll(s, d, c, key, ms);
    var u := Removed(s, d, c, key, ms);
    assert GetInt(u, SizeKey(d, c, key)) == var n := |all| - Count(ms, p); if n <= 0 then 0 else n;
  }

  lemma RemovedValid(s: Store, d: nat, c: Coll, key: bytes, ms: seq<bytes>)
    requires ValidStore(s) && d <= MAX_DATABASES
    ensures ValidStore(Removed(s, d, c, key, ms))
  {
    hide Removed, CountStored;
    var u := Removed(s, d, c, key, ms);
    forall k | k in u ensures ValidRecord(k, u[k]) {
      RemovedAt(s, d, c, key, ms, k);
      assert Lookup(u, k) == Some(u[k]);
      assert k in s ==> ValidRecord(k, s[k]);
    }
  }

  /** SRem and HDel keep every size right if and only if no stored name is given twice or all are given. */
  lemma RemKeepsIff(s: Store, d: nat, c: Coll, key: bytes, ms: seq<bytes>)
    requires CInv(s, d, c) && d <= MAX_DATABASES
    ensures CInv(Removed(s, d, c, key, ms), d, c) <==> StoredOnce(s, d, c, key, ms) || NamesAll(s, d, c, key, ms)
  {
    hide Removed, SizeOK, StoredOnce, NamesAll, ValidStore;
    var u := Removed(s, d, c, key, ms);
    RemovedValid(s, d, c, key, ms);
    assert SizeOK(s, d, c, key);
    RemSizeIff(s, d, c, key, ms);
    assert SizeOK(u, d, c, key) <==> StoredOnce(s, d, c, key, ms) || NamesAll(s, d, c, key, ms);
    forall other: bytes | other != key ensures SizeOK(u, d, c, other) {
      assert SizeOK(s, d, c, other);
      forall k: Key | IsRecordOf(d, c, other, k) ensures Lookup(u, k) == Lookup(s, k) {
        RemovedAt(s, d, c, key, ms, k);
      }
      FrameSize(s, u, d, c, other);
    }
  }

  // ---------------------------------------------------------------- walking and deleting a collection

  function MemberRange(d: nat, c: Coll, key: bytes): (r: Range) {
    Range(At(StartItemKey(d, c, key)), At(StopItemKey(d, c, key)), false, true)
  }

  /** The range between the start and stop keys holds the collection's records and nothing else. */
  lemma MemberKeys(s: Store, d: nat, c: Coll, key: bytes, k: Key)
    requires ValidStore(s) && |key| < 0x1_0000
    ensures k in Matching(s, MemberRange(d, c, key)) <==>
              k in s && k.db == d && k.kind.Item? && k.kind.coll == c && k.kind.key == key
  {
    hide Matching, Encode, StartItemKey, StopItemKey, Lt;
    MatchingElements(s, MemberRange(d, c, key), k);
    if k in s {
      assert ValidRecord(k, s[k]);
      ItemRange(d, c, key, k);
    }
  }

  /** No key is met twice. */
  lemma MatchedOnce(s: Store, r: Range, i: int, j: int)
    requires ValidStore(s) && 0 <= i < j < |Matching(s, r)|
    ensures Matching(s, r)[i] != Matching(s, r)[j]
  {
    hide Matching, Encode, Lt;
    MatchingSorted(s, r, i, j);
    assert ValidRecord(Matching(s, r)[i], s[Matching(s, r)[i]]);
    LtIrreflexive(Encode(Matching(s, r)[i]));
  }

  /** As many keys are met as the collection has members. */
  lemma MemberKeysCount(s: Store, d: nat, c: Coll, key: bytes)
    requires ValidStore(s) && |key| < 0x1_0000
    ensures |Matching(s, MemberRange(d, c, key))| == |Members(s, d, c, key)|
  {
    hide Matching, MemberRange, ValidStore;
    var ks := Matching(s, MemberRange(d, c, key));
    forall i | 0 <= i < |ks| ensures ks[i].kind.Item? && ks[i] == ItemKey(d, c, key, ks[i].kind.member) && ks[i] in s {
      assert ks[i] in ks;
      MemberKeys(s, d, c, key, ks[i]);
    }
    var ms, p := seq(|ks|, i requires 0 <= i < |ks| => ks[i].kind.member), (m: bytes) => true;
    CountIsDistinct(ms, p);
    CountEvery(ms, p);
    forall i, j | 0 <= i < j < |ms| ensures ms[i] != ms[j] { MatchedOnce(s, MemberRange(d, c, key), i, j); }
    forall m ensures m in Distinct(ms, p) <==> m in Members(s, d, c, key) {
      if m in ms { var i :| 0 <= i < |ms| && ms[i] == m; }
      if ItemKey(d, c, key, m) in s {
        MemberKeys(s, d, c, key, ItemKey(d, c, key, m));
        var i :| 0 <= i < |ks| && ks[i] == ItemKey(d, c, key, m);
        assert ms[i] == m;
      }
    }
    assert Distinct(ms, p) == Members(s, d, c, key);
  }

  /** sDelete and hDelete: the expiry is left alone. */
  ghost function DeleteOps(s: Store, d: nat, c: Coll, key: bytes): (ops: Ops)
    requires ValidStore(s)
  {
    DeleteAll(Matching(s, MemberRange(d, c, key))) + [Delete(SizeKey(d, c, key))]
  }

  lemma DeletedAt(s: Store, d: nat, c: Coll, key: bytes, k: Key)
    requires ValidStore(s) && |key| < 0x1_0000
    ensures Lookup(Apply(s, DeleteOps(s, d, c, key)), k) == if IsRecordOf(d, c, key, k) then None else Lookup(s, k)
  {
    hide Apply, Matching, MemberRange, ValidStore, DeleteAll;
    var ks := Matching(s, MemberRange(d, c, key));
    var del: Op<Key, Val> := Delete(SizeKey(d, c, key));
    MemberKeys(s, d, c, key, k);
    DeleteAllEffect(s, ks, k);
    ApplyOne(s, DeleteAll(ks), del);
  }
}
