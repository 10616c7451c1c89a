/**
 One database over the ordered store: typed records under the keys of `Keys`, the pending batch of
 an operation, range queries through the iterator, and the helpers every data type shares (size
 records, expiry records). Reads always see the committed store, never the pending batch.
 */
module Database {
  import opened Bytes
  import opened Keys
  import opened Batches
  import opened Ranges
  import opened Iterators

  /** Decoded values: 8-byte integers, list ends, the key a time record points to, plain bytes. */
  datatype Val = IntVal(i: int) | EndsVal(head: int, tail: int) | KeyVal(k: Key) | BytesVal(b: bytes)

  datatype Error =
    | ErrKeySize | ErrMemberSize | ErrFieldSize | ErrScoreOverflow | ErrAggregate | ErrSrcKeyNum | ErrWeightNum
    | ErrValueSize | ErrListSeq | ErrListIndex | ErrExpireValue | ErrReadonly

  datatype Reply<+T> = Done(value: T) | Fail(error: Error)

  const MAX_MEMBER_SIZE: nat := 1024

  predicate KeySizeOK(key: bytes) { 0 < |key| <= MAX_KEY_SIZE }
  predicate MemberSizeOK(m: bytes) { 0 < |m| <= MAX_MEMBER_SIZE }

  type Store = map<Key, Val>
  type Ops = Batch<Key, Val>

  /** Every stored key is within the key format, and every value has the type its key calls for. */
  predicate ValidRecord(k: Key, v: Val) {
    && ValidKey(k)
    && match k.kind
       case Item(c, _, _) => if c.ZSetColl? then v.IntVal? && IsInt64(v.i) else v.BytesVal?
       case Size(_, _) => v.IntVal?
       case LMeta(_) => v.EndsVal?
       case ExpMeta(_, _) => v.IntVal? && IsInt64(v.i)
       case ExpTime(_, dt, key) => v == KeyVal(Key(k.db, ExpMeta(dt, key)))
       case _ => v.BytesVal?
  }

  ghost predicate ValidStore(s: Store) {
    forall k :: k in s ==> ValidRecord(k, s[k])
  }

  // ---------------------------------------------------------------- keys of the data types

  function ItemKey(d: nat, c: Coll, key: bytes, m: bytes): (k: Key) { Key(d, Item(c, key, m)) }
  function SizeKey(d: nat, c: Coll, key: bytes): (k: Key) { Key(d, Size(c, key)) }
  function ExpMetaKey(d: nat, dt: byte, key: bytes): (k: Key) { Key(d, ExpMeta(dt, key)) }
  function ExpTimeKey(d: nat, when: int, dt: byte, key: bytes): (k: Key) { Key(d, ExpTime(when, dt, key)) }

  /** Int64(bucket.Get(k)): a missing record reads as zero. */
  function GetInt(s: Store, k: Key): (i: int) {
    if k in s && s[k].IntVal? then s[k].i else 0
  }

  // ---------------------------------------------------------------- range queries

  ghost function ByteKeys(s: Store): set<bytes>
    requires ValidStore(s)
  {
    set k | k in s :: Encode(k)
  }

  /** Byte keys turned back into typed keys. */
  function DecodeAll(bs: seq<bytes>): (ks: seq<Key>)
    requires forall b :: b in bs ==> Decode(b).Ok?
    ensures |ks| == |bs|
  {
    seq(|bs|, i requires 0 <= i < |bs| => Decode(bs[i]).value)
  }

  /** The stored keys inside a range, in byte order. */
  ghost function Matching(s: Store, r: Range): (ks: seq<Key>)
    requires ValidStore(s)
  {
    SelectedDecode(s, r);
    DecodeAll(Select(SortedKeys(ByteKeys(s)), r))
  }

  /** What a range/limit query over the store returns. */
  ghost function Query(s: Store, r: Range, l: Limit, backward: bool): (ks: seq<Key>)
    requires ValidStore(s)
  {
    if l.offset < 0 then []
    else Take(Drop(if backward then Reverse(Matching(s, r)) else Matching(s, r), l.offset), l.count)
  }

  lemma DecodeStored(s: Store, b: bytes)
    requires ValidStore(s) && b in ByteKeys(s)
    ensures Decode(b).Ok? && Decode(b).value in s && Encode(Decode(b).value) == b
  {
    var k :| k in s && Encode(k) == b;
    DecodeEncode(k);
  }

  lemma SelectedDecode(s: Store, r: Range)
    requires ValidStore(s)
    ensures forall b :: b in Select(SortedKeys(ByteKeys(s)), r) ==> Decode(b).Ok?
  {
    forall b | b in Select(SortedKeys(ByteKeys(s)), r) ensures Decode(b).Ok? {
      SelectElements(SortedKeys(ByteKeys(s)), r, b);
      DecodeStored(s, b);
    }
  }

  /** A key is matched exactly if it is stored and lies in the range. */
  lemma MatchingElements(s: Store, r: Range, k: Key)
    requires ValidStore(s)
    ensures k in Matching(s, r) <==> k in s && r.Contains(Encode(k))
  {
    hide Encode, Decode, Sorted, Select;
    SelectedDecode(s, r);
    var bs := Select(SortedKeys(ByteKeys(s)), r);
    var ks := Matching(s, r);
    if k in ks {
      var i :| 0 <= i < |ks| && ks[i] == k;
      SelectElements(SortedKeys(ByteKeys(s)), r, bs[i]);
      DecodeStored(s, bs[i]);
    }
    if k in s && r.Contains(Encode(k)) {
      var b := Encode(k);
      assert b in ByteKeys(s);
      SelectElements(SortedKeys(ByteKeys(s)), r, b);
      var i :| 0 <= i < |bs| && bs[i] == b;
      DecodeEncode(k);
      assert ks[i] == k;
    }
  }

  /** Matched keys come in strictly increasing byte order. */
  lemma MatchingSorted(s: Store, r: Range, i: int, j: int)
    requires ValidStore(s) && 0 <= i < j < |Matching(s, r)|
    ensures Matching(s, r)[i] in s && Matching(s, r)[j] in s
    ensures Lt(Encode(Matching(s, r)[i]), Encode(Matching(s, r)[j]))
  {
    hide Encode, Decode, Sorted, Select, Lt;
    SelectedDecode(s, r);
    var bs := Select(SortedKeys(ByteKeys(s)), r);
    SelectSorted(SortedKeys(ByteKeys(s)), r);
    SortedIsAscending(bs);
    SelectElements(SortedKeys(ByteKeys(s)), r, bs[i]);
    SelectElements(SortedKeys(ByteKeys(s)), r, bs[j]);
    DecodeStored(s, bs[i]);
    DecodeStored(s, bs[j]);
  }

  /** The driver's sorted snapshot of the keys. */
  method SnapshotKeys(s: Store) returns (bs: seq<bytes>)
    requires ValidStore(s)
    ensures bs == SortedKeys(ByteKeys(s))
  {
    bs := SortKeys(set k | k in s :: Encode(k));
  }

  lemma DecodeReverse(bs: seq<bytes>)
    requires forall b :: b in bs ==> Decode(b).Ok?
    ensures forall b :: b in Reverse(bs) ==> Decode(b).Ok?
    ensures DecodeAll(Reverse(bs)) == Reverse(DecodeAll(bs))
  {
    hide Decode, Reverse;
    forall b | b in Reverse(bs) ensures Decode(b).Ok? {
      var i :| 0 <= i < |bs| && Reverse(bs)[i] == b;
      ReverseAt(bs, i);
    }
    forall i | 0 <= i < |bs| ensures DecodeAll(Reverse(bs))[i] == Reverse(DecodeAll(bs))[i] {
      ReverseAt(bs, i);
      ReverseAt(DecodeAll(bs), i);
    }
  }

  lemma DecodeSlice(bs: seq<bytes>, offset: nat, count: int)
    requires forall b :: b in bs ==> Decode(b).Ok?
    ensures forall b :: b in Take(Drop(bs, offset), count) ==> Decode(b).Ok?
    ensures DecodeAll(Take(Drop(bs, offset), count)) == Take(Drop(DecodeAll(bs), offset), count)
  {
    hide Decode;
  }

  lemma QueryDecodes(s: Store, r: Range, l: Limit, backward: bool)
    requires ValidStore(s)
    ensures forall b :: b in Visited(SortedKeys(ByteKeys(s)), r, l, backward) ==> Decode(b).Ok?
    ensures DecodeAll(Visited(SortedKeys(ByteKeys(s)), r, l, backward)) == Query(s, r, l, backward)
  {
    hide Decode, Encode, Sorted, Select, Reverse, DecodeAll, Take, Drop;
    SelectedDecode(s, r);
    var inside := Select(SortedKeys(ByteKeys(s)), r);
    DecodeReverse(inside);
    if l.offset >= 0 {
      DecodeSlice(if backward then Reverse(inside) else inside, l.offset, l.count);
    }
  }

  /** The iterator over the byte keys, decoded key by key, computes the query. */
  method RangeKeys(s: Store, r: Range, l: Limit, backward: bool) returns (ks: seq<Key>)
    requires ValidStore(s)
    ensures ks == Query(s, r, l, backward)
  {
    hide Decode, Encode, Query, Visited, ValidStore, SortedKeys;
    var snapshot := SnapshotKeys(s);
    var bs := Collect(snapshot, r, l, backward);
    QueryDecodes(s, r, l, backward);
    ks := [];
    for i := 0 to |bs|
      invariant |ks| == i && ks == DecodeAll(bs)[..i]
    {
      assert bs[i] in bs;
      assert DecodeAll(bs)[..i + 1] == DecodeAll(bs)[..i] + [DecodeAll(bs)[i]];
      ks := ks + [Decode(bs[i]).value];
    }
    assert ks == DecodeAll(bs);
  }

  /** Without an offset or a count a query is everything in the range. */
  lemma QueryAll(s: Store, r: Range, backward: bool)
    requires ValidStore(s)
    ensures Query(s, r, Limit(0, -1), backward) == if backward then Reverse(Matching(s, r)) else Matching(s, r)
  {
    hide Matching, Reverse;
  }

  // ---------------------------------------------------------------- size records

  ghost function Members(s: Store, d: nat, c: Coll, key: bytes): (ms: set<bytes>)
    ensures forall m :: m in ms <==> ItemKey(d, c, key, m) in s
  {
    set k | k in s && k.db == d && k.kind.Item? && k.kind.coll == c && k.kind.key == key :: k.kind.member
  }

  /** The decoded size record agrees with the records stored. */
  ghost predicate SizeOK(s: Store, d: nat, c: Coll, key: bytes) {
    GetInt(s, SizeKey(d, c, key)) == |Members(s, d, c, key)|
  }

  /** rmExpire. */
  function RmExpireOps(s: Store, d: nat, dt: byte, key: bytes): (ops: Ops) {
    var mk := ExpMetaKey(d, dt, key);
    if mk !in s then []
    else [Delete(mk), Delete(ExpTimeKey(d, GetInt(s, mk), dt, key))]
  }

  lemma RmExpireEffect(s: Store, u: Store, d: nat, dt: byte, key: bytes, k: Key)
    ensures Lookup(Apply(u, RmExpireOps(s, d, dt, key)), k) ==
            var mk := ExpMetaKey(d, dt, key);
            if mk in s && (k == mk || k == ExpTimeKey(d, GetInt(s, mk), dt, key)) then None else Lookup(u, k)
  {
    var mk := ExpMetaKey(d, dt, key);
    var a, b: Op<Key, Val> := Delete(mk), Delete(ExpTimeKey(d, GetInt(s, mk), dt, key));
    ApplyFew(u, a, b, b);
  }

  /** zIncrSize, sIncrSize and hIncrSize: an empty collection loses its size record and its expiry. */
  function IncrSizeOps(s: Store, d: nat, c: Coll, key: bytes, delta: int): (ops: Ops) {
    var size := GetInt(s, SizeKey(d, c, key)) + delta;
    if size <= 0 then [Delete(SizeKey(d, c, key))] + RmExpireOps(s, d, c.ItemType(), key)
    else [Put(SizeKey(d, c, key), IntVal(size))]
  }

  lemma IncrSizeEffect(s: Store, t: Store, d: nat, c: Coll, key: bytes, delta: int, k: Key)
    ensures var size, mk := GetInt(s, SizeKey(d, c, key)) + delta, ExpMetaKey(d, c.ItemType(), key);
            Lookup(Apply(t, IncrSizeOps(s, d, c, key, delta)), k) ==
            if k == SizeKey(d, c, key) then (if size <= 0 then None else Some(IntVal(size)))
            else if size <= 0 && mk in s && (k == mk || k == ExpTimeKey(d, GetInt(s, mk), c.ItemType(), key)) then None
            else Lookup(t, k)
  {
    var size, mk := GetInt(s, SizeKey(d, c, key)) + delta, ExpMetaKey(d, c.ItemType(), key);
    var del: Op<Key, Val> := Delete(SizeKey(d, c, key));
    var put: Op<Key, Val> := Put(SizeKey(d, c, key), IntVal(size));
    var rm1, rm2: Op<Key, Val> := Delete(mk), Delete(ExpTimeKey(d, GetInt(s, mk), c.ItemType(), key));
    if size > 0 {
      ApplyFew(t, put, put, put);
    } else {
      ApplyFew(t, del, rm1, rm2);
      assert IncrSizeOps(s, d, c, key, delta) == if mk in s then [del, rm1, rm2] else [del];
    }
  }

  // ---------------------------------------------------------------- the open database

  /** One database with the batch of the operation that holds its lock. */
  class DB {
    const index: nat
    var bucket: Store
    var batch: Ops
    var readonly: bool

    constructor (index: nat, readonly: bool)
      ensures this.index == index && bucket == map[] && batch == [] && this.readonly == readonly
    {
      this.index, bucket, batch, this.readonly := index, map[], [], readonly;
    }

    ghost predicate Sound()
      reads this
    {
      index <= MAX_DATABASES && ValidStore(bucket)
    }

    ghost predicate Ready()
      reads this
    {
      Sound() && batch == []
    }

    /** batch.Commit: refused as a whole on a read-only node. */
    method Commit() returns (ok: bool)
      modifies this`bucket
      ensures ok == !readonly
      ensures bucket == if ok then Apply(old(bucket), batch) else old(bucket)
    {
      if readonly {
        return false;
      }
      for i := 0 to |batch|
        invariant bucket == Apply(old(bucket), batch[..i])
      {
        assert batch[..i + 1][..i] == batch[..i];
        bucket := ApplyOp(bucket, batch[i]);
      }
      assert batch[..|batch|] == batch;
      ok := true;
    }

    /** batch.Unlock: what was not committed is rolled back. */
    method Unlock()
      modifies this`batch
      ensures batch == []
    {
      batch := [];
    }
  }

  /** The deleting loops of lDelete, hDelete and sDelete over the keys they walk. */
  method DeleteKeys(db: DB, ks: seq<Key>) returns (n: int)
    modifies db`batch
    ensures db.batch == old(db.batch) + DeleteAll(ks) && n == |ks|
  {
    n := 0;
    assert ks[..0] == [] && old(db.batch) + [] == old(db.batch);
    for i := 0 to |ks|
      invariant db.batch == old(db.batch) + DeleteAll(ks[..i]) && n == i
    {
      DeletePrefix<Key, Val>(ks, i);
      db.batch := db.batch + [Delete(ks[i])];
      n := n + 1;
    }
    assert ks[..|ks|] == ks;
  }
}
