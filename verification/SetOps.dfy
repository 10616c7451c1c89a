/**
 The operations on sets and hashes as the program runs them (ledis/t_set.go, ledis/t_hash.go): adding
 and removing, clearing, and the union, difference and intersection of sets, returned or stored.
 */
module SetOps {
  import opened Bytes
  import opened Keys
  import opened Batches
  import opened Ranges
  import opened Database
  import opened Collections

  const MAX_VALUE_SIZE: nat := 0x4000_0000

  /** checkSetKMSize and checkHashKFSize. */
  function NameError(c: Coll, key: bytes, m: bytes): (e: Option<Error>) {
    if !KeySizeOK(key) then Some(ErrKeySize)
    else if !MemberSizeOK(m) then Some(if c.HashColl? then ErrFieldSize else ErrMemberSize)
    else None
  }

  function FieldError(c: Coll, key: bytes, f: Field): (e: Option<Error>) {
    if NameError(c, key, f.name).Some? then NameError(c, key, f.name)
    else if c.HashColl? && |f.value| > MAX_VALUE_SIZE then Some(ErrValueSize)
    else None
  }

  /** The first argument that is refused decides. */
  function AddError(c: Coll, key: bytes, args: seq<Field>): (e: Option<Error>)
    ensures e.None? <==> forall i :: 0 <= i < |args| ==> FieldError(c, key, args[i]).None?
  {
    if args == [] then None
    else if AddError(c, key, args[..|args| - 1]).Some? then AddError(c, key, args[..|args| - 1])
    else FieldError(c, key, args[|args| - 1])
  }

  function RemError(c: Coll, key: bytes, ms: seq<bytes>): (e: Option<Error>)
    ensures e.None? <==> forall i :: 0 <= i < |ms| ==> NameError(c, key, ms[i]).None?
  {
    if ms == [] then None
    else if RemError(c, key, ms[..|ms| - 1]).Some? then RemError(c, key, ms[..|ms| - 1])
    else NameError(c, key, ms[|ms| - 1])
  }

  lemma {:induction false} AddErrorPrefix(c: Coll, key: bytes, args: seq<Field>, i: nat)
    requires i < |args| && AddError(c, key, args[..i]).None? && FieldError(c, key, args[i]).Some?
    ensures AddError(c, key, args) == FieldError(c, key, args[i])
    decreases |args|
  {
    if i < |args| - 1 {
      assert args[..|args| - 1][..i] == args[..i];
      AddErrorPrefix(c, key, args[..|args| - 1], i);
    }
  }

  lemma {:induction false} RemErrorPrefix(c: Coll, key: bytes, ms: seq<bytes>, i: nat)
    requires i < |ms| && RemError(c, key, ms[..i]).None? && NameError(c, key, ms[i]).Some?
    ensures RemError(c, key, ms) == NameError(c, key, ms[i])
    decreases |ms|
  {
    if i < |ms| - 1 {
      assert ms[..|ms| - 1][..i] == ms[..i];
      RemErrorPrefix(c, key, ms[..|ms| - 1], i);
    }
  }

  lemma AddPrefix(s: Store, d: nat, c: Coll, key: bytes, args: seq<Field>, i: nat)
    requires i < |args|
    ensures AddOps(d, c, key, args[..i + 1]) ==
              AddOps(d, c, key, args[..i]) + [Put(ItemKey(d, c, key, args[i].name), BytesVal(args[i].value))]
    ensures CountNew(s, d, c, key, args[..i + 1]) ==
            CountNew(s, d, c, key, args[..i]) + if ItemKey(d, c, key, args[i].name) in s then 0 else 1
    ensures AddError(c, key, args[..i]).None? ==> AddError(c, key, args[..i + 1]) == FieldError(c, key, args[i])
  {
    assert args[..i + 1][..i] == args[..i];
    assert Names(args[..i + 1])[..i] == Names(args[..i]);
  }

  lemma RemPrefix(s: Store, d: nat, c: Coll, key: bytes, ms: seq<bytes>, i: nat)
    requires i < |ms|
    ensures RemOps(s, d, c, key, ms[..i + 1]) ==
            RemOps(s, d, c, key, ms[..i]) + if ItemKey(d, c, key, ms[i]) in s then [Delete(ItemKey(d, c, key, ms[i]))]
                else []
    ensures CountStored(s, d, c, key, ms[..i + 1]) ==
            CountStored(s, d, c, key, ms[..i]) + if ItemKey(d, c, key, ms[i]) in s then 1 else 0
    ensures RemError(c, key, ms[..i]).None? ==> RemError(c, key, ms[..i + 1]) == NameError(c, key, ms[i])
  {
    assert ms[..i + 1][..i] == ms[..i];
  }

  lemma NoArgs(s: Store, d: nat, c: Coll, key: bytes)
    ensures AddOps(d, c, key, []) == [] && CountNew(s, d, c, key, []) == 0 && AddError(c, key, []) == None
    ensures RemOps(s, d, c, key, []) == [] && CountStored(s, d, c, key, []) == 0 && RemError(c, key, []) == None
  {
    assert Names([]) == [];
  }

  /** SAdd and HMset; a call without arguments still rewrites the size record. */
  method Add(db: DB, c: Coll, key: bytes, args: seq<Field>) returns (r: Reply<int>)
    requires db.Ready()
    modifies db`bucket, db`batch
    ensures db.batch == []
    ensures var s, d := old(db.bucket), db.index;
            if AddError(c, key, args).Some? then r == Fail(AddError(c, key, args).value) && db.bucket == s
            else if db.readonly then r == Fail(ErrReadonly) && db.bucket == s
            else r == Done(CountNew(s, d, c, key, args)) && db.bucket == Added(s, d, c, key, args)
  {
    hide AddOps, CountNew, FieldError, Apply, IncrSizeOps, ValidStore;
    var num := 0;
    ghost var s, d := db.bucket, db.index;
    assert args[..0] == [];
    NoArgs(s, d, c, key);
    for i := 0 to |args|
      invariant db.bucket == s && AddError(c, key, args[..i]).None?
      invariant db.batch == AddOps(d, c, key, args[..i]) && num == CountNew(s, d, c, key, args[..i])
    {
      var e := FieldError(c, key, args[i]);
      AddPrefix(s, d, c, key, args, i);
      if e.Some? {
        AddErrorPrefix(c, key, args, i);
        db.Unlock();
        return Fail(e.value);
      }
      if ItemKey(db.index, c, key, args[i].name) !in db.bucket {
        num := num + 1;
      }
      db.batch := db.batch + [Put(ItemKey(db.index, c, key, args[i].name), BytesVal(args[i].value))];
    }
    assert args[..|args|] == args;
    db.batch := db.batch + IncrSizeOps(db.bucket, db.index, c, key, num);
    var ok := db.Commit();
    db.Unlock();
    r := if ok then Done(num) else Fail(ErrReadonly);
  }

  /** SRem and HDel. */
  method Rem(db: DB, c: Coll, key: bytes, ms: seq<bytes>) returns (r: Reply<int>)
    requires db.Ready()
    modifies db`bucket, db`batch
    ensures db.batch == []
    ensures var s, d := old(db.bucket), db.index;
            if RemError(c, key, ms).Some? then r == Fail(RemError(c, key, ms).value) && db.bucket == s
            else if db.readonly then r == Fail(ErrReadonly) && db.bucket == s
            else r == Done(CountStored(s, d, c, key, ms)) && db.bucket == Removed(s, d, c, key, ms)
  {
    hide RemOps, CountStored, NameError, Apply, IncrSizeOps, ValidStore;
    var num := 0;
    ghost var s, d := db.bucket, db.index;
    assert ms[..0] == [];
    NoArgs(s, d, c, key);
    for i := 0 to |ms|
      invariant db.bucket == s && RemError(c, key, ms[..i]).None?
      invariant db.batch == RemOps(s, d, c, key, ms[..i]) && num == CountStored(s, d, c, key, ms[..i])
    {
      var e := NameError(c, key, ms[i]);
      RemPrefix(s, d, c, key, ms, i);
      if e.Some? {
        RemErrorPrefix(c, key, ms, i);
        db.Unlock();
        return Fail(e.value);
      }
      var ek := ItemKey(db.index, c, key, ms[i]);
      if ek in db.bucket {
        num := num + 1;
        db.batch := db.batch + [Delete(ek)];
      }
    }
    assert ms[..|ms|] == ms;
    db.batch := db.batch + IncrSizeOps(db.bucket, db.index, c, key, 0 - num);
    var ok := db.Commit();
    db.Unlock();
    r := if ok then Done(num) else Fail(ErrReadonly);
  }

  /** sDelete and hDelete add to the batch. */
  method DeleteMembers(db: DB, c: Coll, key: bytes) returns (n: int)
    requires db.Sound()
    modifies db`batch
    ensures db.batch == old(db.batch) + DeleteOps(db.bucket, db.index, c, key)
    ensures n == |Matching(db.bucket, MemberRange(db.index, c, key))|
  {
    hide ValidStore, MemberRange, Query, Matching, DeleteAll;
    QueryAll(db.bucket, MemberRange(db.index, c, key), false);
    var ks := RangeKeys(db.bucket, MemberRange(db.index, c, key), Limit(0, -1), false);
    n := DeleteKeys(db, ks);
    db.batch := db.batch + [Delete(SizeKey(db.index, c, key))];
  }

  ghost function Cleared(s: Store, d: nat, c: Coll, key: bytes): (u: Store)
    requires ValidStore(s)
  {
    Apply(s, DeleteOps(s, d, c, key) + RmExpireOps(s, d, c.ItemType(), key))
  }

  /** SClear and HClear. */
  method Clear(db: DB, c: Coll, key: bytes) returns (r: Reply<int>)
    requires db.Ready()
    modifies db`bucket, db`batch
    ensures db.batch == []
    ensures var s, d := old(db.bucket), db.index;
            if !KeySizeOK(key) then r == Fail(ErrKeySize) && db.bucket == s
            else if db.readonly then r == Fail(ErrReadonly) && db.bucket == s
            else r == Done(|Members(s, d, c, key)|) && db.bucket == Cleared(s, d, c, key)
  {
    hide ValidStore, MemberRange, Matching, DeleteOps, RmExpireOps, Apply;
    if !KeySizeOK(key) {
      return Fail(ErrKeySize);
    }
    var n := DeleteMembers(db, c, key);
    assert db.batch == DeleteOps(db.bucket, db.index, c, key);
    MemberKeysCount(db.bucket, db.index, c, key);
    db.batch := db.batch + RmExpireOps(db.bucket, db.index, c.ItemType(), key);
    var ok := db.Commit();
    db.Unlock();
    r := if ok then Done(n) else Fail(ErrReadonly);
  }

  lemma ClearedAt(s: Store, d: nat, c: Coll, key: bytes, k: Key)
    requires ValidStore(s) && |key| < 0x1_0000
    ensures var mk := ExpMetaKey(d, c.ItemType(), key);
            Lookup(Cleared(s, d, c, key), k) ==
            if IsRecordOf(d, c, key, k) ||
                (mk in s && (k == mk || k == ExpTimeKey(d, GetInt(s, mk), c.ItemType(), key))) then None
            else Lookup(s, k)
  {
    hide Apply, DeleteOps, RmExpireOps, ValidStore;
    DeletedAt(s, d, c, key, k);
    ApplyAppend(s, DeleteOps(s, d, c, key), RmExpireOps(s, d, c.ItemType(), key));
    RmExpireEffect(s, Apply(s, DeleteOps(s, d, c, key)), d, c.ItemType(), key, k);
  }

  // ---------------------------------------------------------------- set algebra

  datatype Algebra = Union | Diff | Inter

  /** What the operations mean, on the members of the named sets. */
  ghost function Result(g: Algebra, s: Store, d: nat, keys: seq<bytes>): (ms: set<bytes>) {
    if keys == [] then {}
    else
      var n := |keys| - 1;
      var m := Members(s, d, SetColl, keys[n]);
      if n == 0 then m
      else
        match g
        case Union => Result(g, s, d, keys[..n]) + m
        case Diff => Result(g, s, d, keys[..n]) - m
        case Inter => Result(g, s, d, keys[..n]) * m
  }

  /** In some set; in the first and in no other; in all. */
  lemma {:induction false} ResultIs(g: Algebra, s: Store, d: nat, keys: seq<bytes>, m: bytes)
    requires keys != []
    ensures m in Result(g, s, d, keys) <==>
            match g
            case Union => exists i :: 0 <= i < |keys| && m in Members(s, d, SetColl, keys[i])
            case Diff =>
              m in Members(s, d, SetColl, keys[0]) && forall i :: 0 < i < |keys| ==>
                  m !in Members(s, d, SetColl, keys[i])
            case Inter => forall i :: 0 <= i < |keys| ==> m in Members(s, d, SetColl, keys[i])
  {
    hide Members;
    var n := |keys| - 1;
    if n > 0 {
      ResultIs(g, s, d, keys[..n], m);
      assert forall i :: 0 <= i < n ==> keys[..n][i] == keys[i];
    }
  }

  datatype Outcome = Running | CutShort | BadKey

  /** Keys are taken one by one; an empty intermediate result ends the work before later keys are checked. */
  ghost function OutcomeOf(g: Algebra, s: Store, d: nat, keys: seq<bytes>): (o: Outcome) {
    if keys == [] then Running
    else
      var n := |keys| - 1;
      var o := OutcomeOf(g, s, d, keys[..n]);
      if !o.Running? then o
      else if !KeySizeOK(keys[n]) then BadKey
      else if n > 0 && !g.Union? && Result(g, s, d, keys) == {} then CutShort
      else Running
  }

  /** Ending early is right: an empty result stays empty. */
  lemma {:induction false} CutIsEmpty(g: Algebra, s: Store, d: nat, keys: seq<bytes>)
    requires OutcomeOf(g, s, d, keys).CutShort?
    ensures Result(g, s, d, keys) == {} && !g.Union?
  {
    var n := |keys| - 1;
    if OutcomeOf(g, s, d, keys[..n]).CutShort? {
      CutIsEmpty(g, s, d, keys[..n]);
      assert keys[..n] != [];
    }
  }

  lemma {:induction false} OutcomePrefix(g: Algebra, s: Store, d: nat, keys: seq<bytes>, i: nat)
    requires i <= |keys| && !OutcomeOf(g, s, d, keys[..i]).Running?
    ensures OutcomeOf(g, s, d, keys) == OutcomeOf(g, s, d, keys[..i])
    decreases |keys|
  {
    if i < |keys| {
      assert keys[..|keys| - 1][..i] == keys[..i];
      OutcomePrefix(g, s, d, keys[..|keys| - 1], i);
    } else {
      assert keys[..i] == keys;
    }
  }

  /** A sequence without repetition that spells out a set. */
  ghost predicate Lists(v: seq<bytes>, ms: set<bytes>) {
    (forall i, j :: 0 <= i < j < |v| ==> v[i] != v[j]) && (forall m :: m in v <==> m in ms)
  }

  /** SMembers. */
  method SMembers(s: Store, d: nat, key: bytes) returns (r: Reply<seq<bytes>>)
    requires ValidStore(s)
    ensures !KeySizeOK(key) ==> r == Fail(ErrKeySize)
    ensures KeySizeOK(key) ==> r.Done? && Lists(r.value, Members(s, d, SetColl, key))
  {
    hide ValidStore, MemberRange, Query, Matching;
    if !KeySizeOK(key) {
      return Fail(ErrKeySize);
    }
    var range := MemberRange(d, SetColl, key);
    QueryAll(s, range, false);
    var ks := RangeKeys(s, range, Limit(0, -1), false);
    forall i | 0 <= i < |ks|
      ensures ks[i].kind.Item? && ks[i] == ItemKey(d, SetColl, key, ks[i].kind.member) && ks[i] in s
    {
      assert ks[i] in ks;
      MemberKeys(s, d, SetColl, key, ks[i]);
    }
    var v := [];
    for i := 0 to |ks|
      invariant |v| == i && forall j :: 0 <= j < i ==> v[j] == ks[j].kind.member
    {
      v := v + [ks[i].kind.member];
    }
    forall i, j | 0 <= i < j < |v| ensures v[i] != v[j] { MatchedOnce(s, range, i, j); }
    forall m ensures m in v <==> m in Members(s, d, SetColl, key) {
      MemberKeys(s, d, SetColl, key, ItemKey(d, SetColl, key, m));
      if m in v { var i :| 0 <= i < |v| && v[i] == m; }
      if ItemKey(d, SetColl, key, m) in s {
        var i :| 0 <= i < |ks| && ks[i] == ItemKey(d, SetColl, key, m);
        assert v[i] == m;
      }
    }
    r := Done(v);
  }

  /** One round of the three loops: the new set from the old one and the members of the next. */
  method Combine(g: Algebra, dest: set<bytes>, first: bool, v: seq<bytes>, ghost ms: set<bytes>) returns (r: set<bytes>)
    requires Lists(v, ms) && (first ==> dest == {})
    ensures r == if first then ms else match g case Union => dest + ms case Diff => dest - ms case Inter => dest * ms
  {
    if first || g.Union? {
      r := dest;
      for i := 0 to |v|
        invariant r == dest + set j | 0 <= j < i :: v[j]
      {
        r := r + {v[i]};
      }
      assert (set j | 0 <= j < |v| :: v[j]) == ms;
    } else if g.Diff? {
      r := dest;
      for i := 0 to |v|
        invariant r == dest - set j | 0 <= j < i :: v[j]
      {
        if v[i] in r { r := r - {v[i]}; }
      }
      assert (set j | 0 <= j < |v| :: v[j]) == ms;
    } else {
      r := {};
      for i := 0 to |v|
        invariant r == dest * set j | 0 <= j < i :: v[j]
      {
        if v[i] in dest { r := r + {v[i]}; }
      }
      assert (set j | 0 <= j < |v| :: v[j]) == ms;
    }
  }

  lemma ResultStep(g: Algebra, s: Store, d: nat, keys: seq<bytes>, i: nat)
    requires i < |keys|
    ensures var ms, before := Members(s, d, SetColl, keys[i]), Result(g, s, d, keys[..i]);
            Result(g, s, d, keys[..i + 1]) ==
            if i == 0 then ms else match g case Union => before + ms case Diff => before - ms case Inter => before * ms
    ensures OutcomeOf(g, s, d, keys[..i]).Running? ==>
              OutcomeOf(g, s, d, keys[..i + 1]) ==
              if !KeySizeOK(keys[i]) then BadKey
              else if i > 0 && !g.Union? && Result(g, s, d, keys[..i + 1]) == {} then CutShort
              else Running
  {
    assert keys[..i + 1][..i] == keys[..i];
  }

  /** sUnionGeneric, sDiffGeneric and sInterGeneric; the last two need a first key. */
  method Generic(g: Algebra, s: Store, d: nat, keys: seq<bytes>) returns (r: Reply<set<bytes>>)
    requires ValidStore(s) && (g.Union? || keys != [])
    ensures r == if OutcomeOf(g, s, d, keys).BadKey? then Fail(ErrKeySize) else Done(Result(g, s, d, keys))
  {
    hide ValidStore, Members, Result, OutcomeOf, KeySizeOK;
    var dest: set<bytes> := {};
    assert keys[..0] == [];
    NoKeys(g, s, d);
    for i := 0 to |keys|
      invariant dest == Result(g, s, d, keys[..i]) && OutcomeOf(g, s, d, keys[..i]).Running?
    {
      ResultStep(g, s, d, keys, i);
      var v := SMembers(s, d, keys[i]);
      if v.Fail? {
        OutcomePrefix(g, s, d, keys, i + 1);
        return Fail(v.error);
      }
      if i == 0 { NoKeys(g, s, d); }
      dest := Combine(g, dest, i == 0, v.value, Members(s, d, SetColl, keys[i]));
      if i > 0 && !g.Union? && dest == {} {
        OutcomePrefix(g, s, d, keys, i + 1);
        CutIsEmpty(g, s, d, keys);
        return Done({});
      }
    }
    assert keys[..|keys|] == keys;
    r := Done(dest);
  }

  lemma NoKeys(g: Algebra, s: Store, d: nat)
    ensures Result(g, s, d, []) == {} && OutcomeOf(g, s, d, []).Running?
  {
  }

  // ---------------------------------------------------------------- storing

  function AsFields(v: seq<bytes>): (args: seq<Field>)
    ensures |args| == |v|
  {
    seq(|v|, i requires 0 <= i < |v| => Field(v[i], []))
  }

  /** The batch of sStoreGeneric, for one order of the result. */
  ghost function StoreOps(s: Store, d: nat, dst: bytes, v: seq<bytes>): (ops: Ops)
    requires ValidStore(s)
  {
    DeleteOps(s, d, SetColl, dst) + AddOps(d, SetColl, dst, AsFields(v)) + [Put(SizeKey(d, SetColl, dst), IntVal(|v|))]
  }

  ghost function Stored(s: Store, d: nat, dst: bytes, v: seq<bytes>): (u: Store)
    requires ValidStore(s)
  {
    Apply(s, StoreOps(s, d, dst, v))
  }

  lemma NamesOfFields(v: seq<bytes>)
    ensures Names(AsFields(v)) == v
  {
  }

  /** Whatever the order of the writes, the destination holds the result and its size; its expiry stays. */
  lemma StoredAt(s: Store, d: nat, dst: bytes, v: seq<bytes>, k: Key)
    requires ValidStore(s) && |dst| < 0x1_0000
    ensures Lookup(Stored(s, d, dst, v), k) ==
            if k == SizeKey(d, SetColl, dst) then Some(IntVal(|v|))
            else if IsRecordOf(d, SetColl, dst, k) then (if k.kind.member in v then Some(BytesVal([])) else None)
            else Lookup(s, k)
  {
    hide Apply, DeleteOps, AddOps, ValidStore, LastValue, Names;
    var dels, adds := DeleteOps(s, d, SetColl, dst), AddOps(d, SetColl, dst, AsFields(v));
    var put: Op<Key, Val> := Put(SizeKey(d, SetColl, dst), IntVal(|v|));
    DeletedAt(s, d, SetColl, dst, k);
    ApplyAppend(s, dels, adds);
    AddEffect(Apply(s, dels), d, SetColl, dst, AsFields(v), k);
    ApplyOne(s, dels + adds, put);
    NamesOfFields(v);
    if k.kind.Item? && LastValue(AsFields(v), k.kind.member).Some? { LastIsEmpty(v, k.kind.member); }
  }

  lemma {:induction false} LastIsEmpty(v: seq<bytes>, m: bytes)
    requires LastValue(AsFields(v), m).Some?
    ensures LastValue(AsFields(v), m) == Some([])
  {
    var n := |v| - 1;
    assert AsFields(v)[..n] == AsFields(v[..n]);
    if v[n] != m { LastIsEmpty(v[..n], m); }
  }

  /** Every stored member has a name the size checks let through. */
  ghost predicate NamesBound(s: Store, d: nat) {
    forall key: bytes, m: bytes :: ItemKey(d, SetColl, key, m) in s ==> KeySizeOK(key) && MemberSizeOK(m)
  }

  lemma {:induction false} ResultNamed(g: Algebra, s: Store, d: nat, keys: seq<bytes>, m: bytes)
    requires NamesBound(s, d) && m in Result(g, s, d, keys)
    ensures MemberSizeOK(m)
  {
    var n := |keys| - 1;
    if m in Members(s, d, SetColl, keys[n]) {
      assert ItemKey(d, SetColl, keys[n], m) in s;
    } else {
      ResultNamed(g, s, d, keys[..n], m);
    }
  }

  /** SUnionStore, SDiffStore and SInterStore; `v` is the result in the order it was written. */
  method StoreGeneric(db: DB, g: Algebra, dst: bytes, keys: seq<bytes>) returns (r: Reply<int>, ghost v: seq<bytes>)
    requires db.Ready() && NamesBound(db.bucket, db.index) && (g.Union? || keys != [])
    modifies db`bucket, db`batch
    ensures db.batch == []
    ensures var s, d := old(db.bucket), db.index;
            if !KeySizeOK(dst) || OutcomeOf(g, s, d, keys).BadKey? then r == Fail(ErrKeySize) && db.bucket == s
            else if db.readonly then r == Fail(ErrReadonly) && db.bucket == s
            else
              && r == Done(|Result(g, s, d, keys)|) && Lists(v, Result(g, s, d, keys))
              && db.bucket == Stored(s, d, dst, v)
  {
    hide ValidStore, Members, Result, OutcomeOf, MemberSizeOK, NamesBound, DeleteOps, AddOps, Apply;
    v := [];
    if !KeySizeOK(dst) {
      return Fail(ErrKeySize), v;
    }
    var _ := DeleteMembers(db, SetColl, dst);
    assert db.batch == DeleteOps(db.bucket, db.index, SetColl, dst);
    var res := Generic(g, db.bucket, db.index, keys);
    if res.Fail? {
      db.Unlock();
      return Fail(res.error), v;
    }
    forall m | m in res.value ensures MemberSizeOK(m) { ResultNamed(g, db.bucket, db.index, keys, m); }
    ghost var s, d := db.bucket, db.index;
    var n;
    n, v := AddMembers(db, dst, res.value);
    db.batch := db.batch + [Put(SizeKey(db.index, SetColl, dst), IntVal(n))];
    assert db.batch == StoreOps(s, d, dst, v);
    var ok := db.Commit();
    db.Unlock();
    r := if ok then Done(n) else Fail(ErrReadonly);
  }

  /** The writing loop: every member once, in some order. */
  method AddMembers(db: DB, dst: bytes, members: set<bytes>) returns (n: int, ghost v: seq<bytes>)
    requires KeySizeOK(dst) && forall m :: m in members ==> MemberSizeOK(m)
    modifies db`batch
    ensures n == |members| == |v| && Lists(v, members)
    ensures db.batch == old(db.batch) + AddOps(db.index, SetColl, dst, AsFields(v))
  {
    hide AddOps, MemberSizeOK;
    ghost var d, b := db.index, db.batch;
    var rest := members;
    n, v := 0, [];
    NoArgs(db.bucket, d, SetColl, dst);
    assert AsFields([]) == [] && b + [] == b;
    while rest != {}
      invariant rest <= members && n == |v|
      invariant forall i, j :: 0 <= i < j < |v| ==> v[i] != v[j]
      invariant forall m :: m in v <==> m in members && m !in rest
      invariant db.batch == b + AddOps(d, SetColl, dst, AsFields(v))
      invariant n + |rest| == |members|
      decreases rest
    {
      var m :| m in rest;
      assert NameError(SetColl, dst, m).None?;
      FieldAppends(d, dst, v, m);
      db.batch := db.batch + [Put(ItemKey(db.index, SetColl, dst, m), BytesVal([]))];
      v := v + [m];
      rest, n := rest - {m}, n + 1;
    }
  }

  lemma FieldAppends(d: nat, dst: bytes, v: seq<bytes>, m: bytes)
    ensures AddOps(d, SetColl, dst, AsFields(v + [m])) ==
            AddOps(d, SetColl, dst, AsFields(v)) + [Put(ItemKey(d, SetColl, dst, m), BytesVal([]))]
  {
    assert AsFields(v + [m])[..|v|] == AsFields(v);
  }
}
