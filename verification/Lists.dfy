/**
 Lists (ledis/t_list.go): the items of a list sit under consecutive 32-bit sequence numbers, and a
 meta record holds the first and the last of them. This module gives the operations as the batches
 they commit and says when each of them is the operation on sequences it stands for.
 */
module Lists {
  import opened Bytes
  import opened Keys
  import opened Batches
  import opened Ranges
  import opened Database

  const MIN_SEQ: int := 1000
  const MAX_SEQ: int := TWO_31 - 1000
  const INITIAL_SEQ: int := MIN_SEQ + (MAX_SEQ - MIN_SEQ) / 2

  function ItemAt(d: nat, key: bytes, q: int): (k: Key) { Key(d, ListItem(key, q)) }
  function EndsKey(d: nat, key: bytes): (k: Key) { Key(d, LMeta(key)) }

  predicate IsRecordOf(d: nat, key: bytes, k: Key) {
    k.db == d && (k.kind.ListItem? || k.kind.LMeta?) && k.kind.key == key
  }

  predicate InWindow(q: int) { MIN_SEQ < q < MAX_SEQ }

  /** lGetMeta: the ends, and the length in wrapping arithmetic. */
  function Ends(s: Store, d: nat, key: bytes): (r: (int, int)) {
    var mk := EndsKey(d, key);
    if mk in s && s[mk].EndsVal? then (s[mk].head, s[mk].tail) else (INITIAL_SEQ, INITIAL_SEQ)
  }

  function Len(s: Store, d: nat, key: bytes): (n: int) {
    var e := Ends(s, d, key);
    if EndsKey(d, key) in s then Wrap32(e.1 - e.0 + 1) else 0
  }

  // ---------------------------------------------------------------- the invariant

  /** Items are stored exactly under the numbers from `h` to `t`. */
  ghost predicate Fills(s: Store, d: nat, key: bytes, h: int, t: int) {
    forall q: int :: ItemAt(d, key, q) in s <==> h <= q <= t
  }

  ghost predicate LOK(s: Store, d: nat, key: bytes) {
    var e, mk := Ends(s, d, key), EndsKey(d, key);
    if mk in s then s[mk].EndsVal? && MIN_SEQ < e.0 <= e.1 < MAX_SEQ && Fills(s, d, key, e.0, e.1)
    else Fills(s, d, key, 1, 0)
  }

  ghost predicate LInv(s: Store, d: nat) {
    ValidStore(s) && forall key: bytes :: LOK(s, d, key)
  }

  function ItemValue(s: Store, d: nat, key: bytes, q: int): (v: bytes) {
    var k := ItemAt(d, key, q);
    if k in s && s[k].BytesVal? then s[k].b else []
  }

  /** The list as a sequence. */
  ghost function Contents(s: Store, d: nat, key: bytes): (v: seq<bytes>) {
    var e := Ends(s, d, key);
    if EndsKey(d, key) in s && e.0 <= e.1 then seq(e.1 - e.0 + 1, i => ItemValue(s, d, key, e.0 + i)) else []
  }

  lemma LenIsLength(s: Store, d: nat, key: bytes)
    requires LOK(s, d, key)
    ensures Len(s, d, key) == |Contents(s, d, key)| < TWO_31
  {
  }

  /** A store that holds one list in full. */
  lemma MadeList(u: Store, d: nat, key: bytes, h: int, t: int, v: seq<bytes>)
    requires Lookup(u, EndsKey(d, key)) == Some(EndsVal(h, t)) && MIN_SEQ < h <= t < MAX_SEQ && |v| == t - h + 1
    requires forall q: int :: Lookup(u, ItemAt(d, key, q)) == if h <= q <= t then Some(BytesVal(v[q - h])) else None
    ensures LOK(u, d, key) && Contents(u, d, key) == v
  {
    forall q: int ensures ItemAt(d, key, q) in u <==> h <= q <= t {
      assert Lookup(u, ItemAt(d, key, q)) == if h <= q <= t then Some(BytesVal(v[q - h])) else None;
    }
    forall i | 0 <= i < |v| ensures ItemValue(u, d, key, h + i) == v[i] {
      assert Lookup(u, ItemAt(d, key, h + i)) == Some(BytesVal(v[i]));
    }
  }

  lemma MadeEmpty(u: Store, d: nat, key: bytes)
    requires EndsKey(d, key) !in u && forall q: int :: ItemAt(d, key, q) !in u
    ensures LOK(u, d, key) && Contents(u, d, key) == []
  {
  }

  /** Reading an item of a list. */
  lemma ItemOf(s: Store, d: nat, key: bytes, q: int)
    requires ValidStore(s) && LOK(s, d, key)
    ensures var v, e := Contents(s, d, key), Ends(s, d, key);
            Lookup(s, ItemAt(d, key, q)) == if 0 <= q - e.0 < |v| then Some(BytesVal(v[q - e.0])) else None
  {
    var k, v, e := ItemAt(d, key, q), Contents(s, d, key), Ends(s, d, key);
    assert k in s <==> 0 <= q - e.0 < |v|;
    if k in s {
      assert ValidRecord(k, s[k]);
      assert v[q - e.0] == ItemValue(s, d, key, q);
    }
  }

  /** A list depends on its own records only. */
  lemma FrameList(s: Store, u: Store, d: nat, key: bytes)
    requires forall k: Key :: IsRecordOf(d, key, k) ==> Lookup(u, k) == Lookup(s, k)
    ensures LOK(u, d, key) <==> LOK(s, d, key)
    ensures Contents(u, d, key) == Contents(s, d, key)
  {
    assert IsRecordOf(d, key, EndsKey(d, key));
    forall q: int
      ensures ItemAt(d, key, q) in u <==> ItemAt(d, key, q) in s
      ensures ItemValue(u, d, key, q) == ItemValue(s, d, key, q)
    {
      assert IsRecordOf(d, key, ItemAt(d, key, q));
    }
    assert Ends(u, d, key) == Ends(s, d, key);
  }

  // ---------------------------------------------------------------- meta record

  /** lSetMeta: a negative length is only logged. */
  function SetEndsOps(d: nat, key: bytes, h: int, t: int): (ops: Ops) {
    var size := Wrap32(t - h + 1);
    if size < 0 then [] else if size == 0 then [Delete(EndsKey(d, key))] else [Put(EndsKey(d, key), EndsVal(h, t))]
  }

  lemma SetEndsEffect(u: Store, d: nat, key: bytes, h: int, t: int, k: Key)
    ensures var size := Wrap32(t - h + 1);
            Lookup(Apply(u, SetEndsOps(d, key, h, t)), k) ==
            if k != EndsKey(d, key) || size < 0 then Lookup(u, k)
            else if size == 0 then None
            else Some(EndsVal(h, t))
  {
    var del: Op<Key, Val> := Delete(EndsKey(d, key));
    var put: Op<Key, Val> := Put(EndsKey(d, key), EndsVal(h, t));
    ApplyFew(u, del, del, del);
    ApplyFew(u, put, put, put);
  }

  // ---------------------------------------------------------------- pushes

  /** The number `i` places on from `q`, going out at the chosen end. */
  function Step(q: int, front: bool, i: int): (r: int) { if front then q - i else q + i }

  /** How many places on a number is. */
  function Place(q: int, front: bool, r: int): (i: int) { if front then q - r else r - q }

  /** Where the first argument goes. */
  function PushSeq(s: Store, d: nat, key: bytes, front: bool): (q: int) {
    var e := Ends(s, d, key);
    var q := if front then e.0 else e.1;
    if Len(s, d, key) > 0 then Wrap32(Step(q, front, 1)) else q
  }

  /** Where the last argument goes, without wrap-around. */
  function LastSeq(s: Store, d: nat, key: bytes, front: bool, n: nat): (q: int) {
    Step(PushSeq(s, d, key, front), front, n - 1)
  }

  function PushItems(d: nat, key: bytes, q: int, front: bool, args: seq<bytes>): (ops: Ops) {
    if args == [] then []
    else
      var n := |args| - 1;
      PushItems(d, key, q, front, args[..n]) + [Put(ItemAt(d, key, Wrap32(Step(q, front, n))), BytesVal(args[n]))]
  }

  function PushOps(s: Store, d: nat, key: bytes, front: bool, args: seq<bytes>): (ops: Ops) {
    var e, last := Ends(s, d, key), Wrap32(LastSeq(s, d, key, front, |args|));
    PushItems(d, key, PushSeq(s, d, key, front), front, args) +
    SetEndsOps(d, key, if front then last else e.0, if front then e.1 else last)
  }

  function Pushed(s: Store, d: nat, key: bytes, front: bool, args: seq<bytes>): (u: Store) {
    Apply(s, PushOps(s, d, key, front, args))
  }

  /** The check made before the commit, on the wrapped number. */
  predicate PushAllowed(s: Store, d: nat, key: bytes, front: bool, n: nat) {
    InWindow(Wrap32(LastSeq(s, d, key, front, n)))
  }

  /** The argument that goes under a key, if any. */
  function Placed(d: nat, key: bytes, q: int, front: bool, args: seq<bytes>, k: Key): (r: Option<Val>) {
    if k.db != d || !k.kind.ListItem? || k.kind.key != key then None
    else
      var i := Place(q, front, k.kind.seqNo);
      if 0 <= i < |args| then Some(BytesVal(args[i])) else None
  }

  lemma PlacedStep(d: nat, key: bytes, q: int, front: bool, args: seq<bytes>, k: Key)
    requires args != [] && IsInt32(q) && IsInt32(Step(q, front, |args| - 1))
    ensures var n := |args| - 1;
            && Placed(d, key, q, front, args, k) ==
               (if k == ItemAt(d, key, Step(q, front, n)) then Some(BytesVal(args[n]))
                   else Placed(d, key, q, front, args[..n], k))
            && (n > 0 ==> IsInt32(Step(q, front, n - 1)))
  {
  }

  lemma {:induction false} PushItemsEffect(u: Store, d: nat, key: bytes, q: int, front: bool, args: seq<bytes>, k: Key)
    requires IsInt32(q) && (args != [] ==> IsInt32(Step(q, front, |args| - 1)))
    ensures Lookup(Apply(u, PushItems(d, key, q, front, args)), k) ==
            var p := Placed(d, key, q, front, args, k); if p.Some? then p else Lookup(u, k)
  {
    if args != [] {
      hide Apply, Placed, Step;
      var n := |args| - 1;
      PlacedStep(d, key, q, front, args, k);
      PushItemsEffect(u, d, key, q, front, args[..n], k);
      var put: Op<Key, Val> := Put(ItemAt(d, key, Wrap32(Step(q, front, n))), BytesVal(args[n]));
      ApplyOne(u, PushItems(d, key, q, front, args[..n]), put);
    }
  }

  /** A push adds its arguments at its end, one after another. */
  function PushSpec(v: seq<bytes>, front: bool, args: seq<bytes>): (r: seq<bytes>) {
    if front then Reverse(args) + v else v + args
  }

  lemma PushedAt(s: Store, d: nat, key: bytes, front: bool, args: seq<bytes>, k: Key)
    requires ValidStore(s) && LOK(s, d, key) && args != [] && InWindow(LastSeq(s, d, key, front, |args|))
    ensures var q, e, last := PushSeq(s, d, key, front), Ends(s, d, key), LastSeq(s, d, key, front, |args|);
            var p := Placed(d, key, q, front, args, k);
            Lookup(Pushed(s, d, key, front, args), k) ==
            if p.Some? then p
            else if k == EndsKey(d, key) then Some(if front then EndsVal(last, e.1) else EndsVal(e.0, last))
            else Lookup(s, k)
  {
    hide Apply, PushItems, Fills, ValidStore;
    var q, e, last := PushSeq(s, d, key, front), Ends(s, d, key), LastSeq(s, d, key, front, |args|);
    var items := PushItems(d, key, q, front, args);
    var h, t := if front then last else e.0, if front then e.1 else last;
    PushItemsEffect(s, d, key, q, front, args, k);
    ApplyAppend(s, items, SetEndsOps(d, key, h, t));
    SetEndsEffect(Apply(s, items), d, key, h, t, k);
    assert h <= t;
  }

  lemma PushedList(s: Store, d: nat, key: bytes, front: bool, args: seq<bytes>)
    requires ValidStore(s) && LOK(s, d, key) && args != [] && InWindow(LastSeq(s, d, key, front, |args|))
    ensures var u := Pushed(s, d, key, front, args);
            LOK(u, d, key) && Contents(u, d, key) == PushSpec(Contents(s, d, key), front, args)
  {
    hide Pushed, PushSeq, ValidStore, LOK, Contents, Reverse;
    var u, e, v := Pushed(s, d, key, front, args), Ends(s, d, key), Contents(s, d, key);
    var last, w := LastSeq(s, d, key, front, |args|), PushSpec(v, front, args);
    var h, t := if front then last else e.0, if front then e.1 else last;
    PushPlace(s, d, key, front, |args|);
    PushedAt(s, d, key, front, args, EndsKey(d, key));
    forall q: int ensures Lookup(u, ItemAt(d, key, q)) == if h <= q <= t then Some(BytesVal(w[q - h])) else None {
      PushedAt(s, d, key, front, args, ItemAt(d, key, q));
      ItemOf(s, d, key, q);
      if front && h <= q < h + |args| { ReverseAt(args, q - h); }
    }
    MadeList(u, d, key, h, t, w);
  }

  /** The arguments and the old items fit together without a gap. */
  lemma PushPlace(s: Store, d: nat, key: bytes, front: bool, n: nat)
    requires LOK(s, d, key) && n > 0
    ensures var q, e, v := PushSeq(s, d, key, front), Ends(s, d, key), Contents(s, d, key);
            && (v != [] ==> |v| == e.1 - e.0 + 1 && q == (if front then e.0 - 1 else e.1 + 1))
            && (v == [] ==> e.0 == e.1 == q == INITIAL_SEQ)
            && InWindow(e.0) && InWindow(e.1)
  {
  }

  lemma PushFrame(s: Store, d: nat, key: bytes, front: bool, args: seq<bytes>, k: Key)
    requires ValidStore(s) && LOK(s, d, key) && args != [] && InWindow(LastSeq(s, d, key, front, |args|)) &&
              !IsRecordOf(d, key, k)
    ensures Lookup(Pushed(s, d, key, front, args), k) == Lookup(s, k)
  {
    hide Pushed, LOK, ValidStore;
    PushedAt(s, d, key, front, args, k);
  }

  lemma {:induction false} PushItemsKeepEnds(u: Store, d: nat, key: bytes, q: int, front: bool, args: seq<bytes>)
    ensures Lookup(Apply(u, PushItems(d, key, q, front, args)), EndsKey(d, key)) == Lookup(u, EndsKey(d, key))
  {
    if args != [] {
      var n := |args| - 1;
      PushItemsKeepEnds(u, d, key, q, front, args[..n]);
      var put: Op<Key, Val> := Put(ItemAt(d, key, Wrap32(Step(q, front, n))), BytesVal(args[n]));
      ApplyOne(u, PushItems(d, key, q, front, args[..n]), put);
    }
  }

  /**
   A push that is let through is the push on sequences if and only if its last number, computed
   without wrap-around, lies in the window.
   */
  lemma PushExactIff(s: Store, d: nat, key: bytes, front: bool, args: seq<bytes>)
    requires ValidStore(s) && LOK(s, d, key) && args != [] && PushAllowed(s, d, key, front, |args|)
    ensures var u := Pushed(s, d, key, front, args);
            LOK(u, d, key) && Contents(u, d, key) == PushSpec(Contents(s, d, key), front, args) <==>
            InWindow(LastSeq(s, d, key, front, |args|))
  {
    hide Apply, PushItems, ValidStore, Fills;
    var u, e, last := Pushed(s, d, key, front, args), Ends(s, d, key), LastSeq(s, d, key, front, |args|);
    if InWindow(last) {
      PushedList(s, d, key, front, args);
    } else {
      var h, t := if front then Wrap32(last) else e.0, if front then e.1 else Wrap32(last);
      var items := PushItems(d, key, PushSeq(s, d, key, front), front, args);
      PushItemsKeepEnds(s, d, key, PushSeq(s, d, key, front), front, args);
      ApplyAppend(s, items, SetEndsOps(d, key, h, t));
      SetEndsEffect(Apply(s, items), d, key, h, t, EndsKey(d, key));
      PushPlace(s, d, key, front, |args|);
      assert EndsKey(d, key) in u <==> Lookup(u, EndsKey(d, key)).Some?;
      assert |PushSpec(Contents(s, d, key), front, args)| == |Contents(s, d, key)| + |args|;
    }
  }

  /** Up to 2^31 arguments the check on the wrapped number is the right one. */
  lemma PushCheckIsRight(s: Store, d: nat, key: bytes, front: bool, n: nat)
    requires LOK(s, d, key) && 0 < n <= TWO_31
    ensures PushAllowed(s, d, key, front, n) <==> InWindow(LastSeq(s, d, key, front, n))
  {
    PushPlace(s, d, key, front, n);
  }

  /** An ordinary push to an absent list is let through, at either end, and is the list of its arguments. */
  lemma FirstPushFits(s: Store, d: nat, key: bytes, front: bool, args: seq<bytes>)
    requires ValidStore(s) && LOK(s, d, key) && EndsKey(d, key) !in s && 0 < |args| <= 1073740000
    ensures PushAllowed(s, d, key, front, |args|)
    ensures var u := Pushed(s, d, key, front, args);
            LOK(u, d, key) && Contents(u, d, key) == if front then Reverse(args) else args
  {
    hide ValidStore, Pushed, Reverse, LOK, Contents, PushAllowed, LastSeq;
    ContentsLength(s, d, key);
    SpanPushFits(s, d, key, 0, front, |args|);
    PushedList(s, d, key, front, args);
    assert Reverse(args) + [] == Reverse(args) && [] + args == args;
  }

  /** The numbers of a list lie within `p` of the middle, 2^30. */
  predicate Within(s: Store, d: nat, key: bytes, p: nat) {
    EndsKey(d, key) in s ==> 1073741824 - p <= Ends(s, d, key).0 && Ends(s, d, key).1 <= 1073741824 + p
  }

  /** As long as no more than 1073740000 items have ever been pushed, the next push fits. */
  lemma SpanPushFits(s: Store, d: nat, key: bytes, p: nat, front: bool, n: nat)
    requires LOK(s, d, key) && Within(s, d, key, p) && 0 < n && p + n <= 1073740000
    ensures PushAllowed(s, d, key, front, n) && InWindow(LastSeq(s, d, key, front, n))
  {
    PushPlace(s, d, key, front, n);
    ContentsLength(s, d, key);
  }

  lemma SpanPush(s: Store, d: nat, key: bytes, p: nat, front: bool, args: seq<bytes>)
    requires ValidStore(s) && LOK(s, d, key) && Within(s, d, key, p) && args != [] && p + |args| <= 1073740000
    ensures Within(Pushed(s, d, key, front, args), d, key, p + |args|)
  {
    hide Pushed, ValidStore, Fills;
    SpanPushFits(s, d, key, p, front, |args|);
    PushPlace(s, d, key, front, |args|);
    ContentsLength(s, d, key);
    PushedAt(s, d, key, front, args, EndsKey(d, key));
    var u := Pushed(s, d, key, front, args);
    assert EndsKey(d, key) in u <==> Lookup(u, EndsKey(d, key)).Some?;
  }

  /** A list without new items stays within the numbers it had. */
  lemma SpanShrinks(s: Store, u: Store, d: nat, key: bytes, p: nat)
    requires LOK(s, d, key) && LOK(u, d, key) && Within(s, d, key, p)
    requires forall q: int :: ItemAt(d, key, q) in u ==> ItemAt(d, key, q) in s
    ensures Within(u, d, key, p)
  {
    if EndsKey(d, key) in u {
      assert ItemAt(d, key, Ends(u, d, key).0) in u && ItemAt(d, key, Ends(u, d, key).1) in u;
    }
  }

  /** With 2^32 + 1 arguments it lets through what does not fit. */
  lemma HugePushIsLetThrough(s: Store, d: nat, key: bytes, front: bool)
    requires LOK(s, d, key) && EndsKey(d, key) !in s
    ensures PushAllowed(s, d, key, front, TWO_32 + 1) && !InWindow(LastSeq(s, d, key, front, TWO_32 + 1))
  {
  }

  // ---------------------------------------------------------------- taking items away

  /** Deletes of the items numbered from `a` to `b`. */
  function DelItems(d: nat, key: bytes, a: int, b: int): (ops: Ops)
    decreases b - a + 1
  {
    if a > b then [] else DelItems(d, key, a, b - 1) + [Delete(ItemAt(d, key, b))]
  }

  lemma {:induction false} DelItemsEffect(u: Store, d: nat, key: bytes, a: int, b: int, k: Key)
    ensures Lookup(Apply(u, DelItems(d, key, a, b)), k) ==
            if k.db == d && k.kind.ListItem? && k.kind.key == key && a <= k.kind.seqNo <= b then None else Lookup(u, k)
    decreases b - a + 1
  {
    if a <= b {
      hide Apply;
      DelItemsEffect(u, d, key, a, b - 1, k);
      var del: Op<Key, Val> := Delete(ItemAt(d, key, b));
      ApplyOne(u, DelItems(d, key, a, b - 1), del);
    } else {
      ApplyFew(u, Delete(EndsKey(d, key)), Delete(EndsKey(d, key)), Delete(EndsKey(d, key)));
    }
  }

  /** A store that keeps the part of a list from `h` to `t`. */
  lemma KeptList(s: Store, u: Store, d: nat, key: bytes, h: int, t: int)
    requires ValidStore(s) && LOK(s, d, key)
    requires var e, v := Ends(s, d, key), Contents(s, d, key); v != [] && e.0 <= h <= t + 1 <= e.1 + 1
    requires forall q: int :: Lookup(u, ItemAt(d, key, q)) == if h <= q <= t then Lookup(s, ItemAt(d, key, q)) else None
    requires Lookup(u, EndsKey(d, key)) == if h <= t then Some(EndsVal(h, t)) else None
    ensures LOK(u, d, key) && Contents(u, d, key) == var e := Ends(s, d, key); Contents(s, d, key)[h - e.0..t + 1 - e.0]
  {
    hide ValidStore, Fills, LOK, Contents;
    var e, v := Ends(s, d, key), Contents(s, d, key);
    ContentsLength(s, d, key);
    var w := v[h - e.0..t + 1 - e.0];
    forall q: int ensures Lookup(u, ItemAt(d, key, q)) == if h <= q <= t then Some(BytesVal(w[q - h])) else None {
      ItemOf(s, d, key, q);
    }
    if h <= t {
      MadeList(u, d, key, h, t, w);
    } else {
      forall q: int ensures ItemAt(d, key, q) !in u { assert Lookup(u, ItemAt(d, key, q)).None?; }
      MadeEmpty(u, d, key);
    }
  }

  lemma ContentsLength(s: Store, d: nat, key: bytes)
    requires LOK(s, d, key)
    ensures var e, v := Ends(s, d, key), Contents(s, d, key);
            && (v == [] <==> EndsKey(d, key) !in s)
            && (v != [] ==> |v| == e.1 - e.0 + 1 && MIN_SEQ < e.0 <= e.1 < MAX_SEQ)
            && (v == [] ==> e.0 == e.1 == INITIAL_SEQ)
  {
  }

  /** lpop and ltrim: items from `a` to `b` go, `h` and `t` become the ends, an emptied list loses its expiry. */
  function CutOps(s: Store, d: nat, key: bytes, a: int, b: int, h: int, t: int): (ops: Ops) {
    DelItems(d, key, a, b) + SetEndsOps(d, key, h, t) + if Wrap32(t - h + 1) == 0 then RmExpireOps(s, d, LIST_TYPE, key)
        else []
  }

  function Cut(s: Store, d: nat, key: bytes, a: int, b: int, h: int, t: int): (u: Store) {
    Apply(s, CutOps(s, d, key, a, b, h, t))
  }

  lemma CutAt(s: Store, d: nat, key: bytes, a: int, b: int, h: int, t: int, k: Key)
    ensures var size, mk := Wrap32(t - h + 1), ExpMetaKey(d, LIST_TYPE, key);
            Lookup(Cut(s, d, key, a, b, h, t), k) ==
            if k.db == d && k.kind.ListItem? && k.kind.key == key && a <= k.kind.seqNo <= b then None
            else if k == EndsKey(d, key) && size >= 0 then (if size == 0 then None else Some(EndsVal(h, t)))
            else if size == 0 && mk in s && (k == mk || k == ExpTimeKey(d, GetInt(s, mk), LIST_TYPE, key)) then None
            else Lookup(s, k)
  {
    hide Apply, DelItems, SetEndsOps, RmExpireOps;
    var dels, sets, rm := DelItems(d, key, a, b), SetEndsOps(d, key, h, t), RmExpireOps(s, d, LIST_TYPE, key);
    DelItemsEffect(s, d, key, a, b, k);
    ApplyAppend(s, dels, sets);
    SetEndsEffect(Apply(s, dels), d, key, h, t, k);
    if Wrap32(t - h + 1) == 0 {
      ApplyAppend(s, dels + sets, rm);
      RmExpireEffect(s, Apply(s, dels + sets), d, LIST_TYPE, key, k);
    } else {
      assert dels + sets + [] == dels + sets;
    }
  }

  /** A cut at one end is that cut of the sequence. */
  lemma CutList(s: Store, d: nat, key: bytes, a: int, b: int, h: int, t: int)
    requires ValidStore(s) && LOK(s, d, key) && Contents(s, d, key) != []
    requires var e := Ends(s, d, key);
             e.0 <= h <= t + 1 <= e.1 + 1 &&
                 ((a == e.0 && b == h - 1 && t == e.1) || (a == t + 1 && b == e.1 && h == e.0))
    ensures var u := Cut(s, d, key, a, b, h, t);
            LOK(u, d, key) && Contents(u, d, key) == var e := Ends(s, d, key); Contents(s, d, key)[h - e.0..t + 1 - e.0]
  {
    hide Cut, ValidStore, LOK, Contents;
    var u := Cut(s, d, key, a, b, h, t);
    ContentsLength(s, d, key);
    CutAt(s, d, key, a, b, h, t, EndsKey(d, key));
    forall q: int ensures Lookup(u, ItemAt(d, key, q)) == if h <= q <= t then Lookup(s, ItemAt(d, key, q)) else None {
      CutAt(s, d, key, a, b, h, t, ItemAt(d, key, q));
      ItemOf(s, d, key, q);
    }
    KeptList(s, u, d, key, h, t);
  }

  /** The store after lpop on a list that is not empty. */
  function Popped(s: Store, d: nat, key: bytes, front: bool): (u: Store) {
    var e := Ends(s, d, key);
    var q := if front then e.0 else e.1;
    Cut(s, d, key, q, q, if front then Wrap32(e.0 + 1) else e.0, if front then e.1 else Wrap32(e.1 - 1))
  }

  function PopSpec(v: seq<bytes>, front: bool): (r: seq<bytes>)
    requires v != []
  {
    if front then v[1..] else v[..|v| - 1]
  }

  /** A pop takes away the item at its end. */
  lemma PoppedList(s: Store, d: nat, key: bytes, front: bool)
    requires ValidStore(s) && LOK(s, d, key) && Contents(s, d, key) != []
    ensures var u := Popped(s, d, key, front);
            LOK(u, d, key) && Contents(u, d, key) == PopSpec(Contents(s, d, key), front)
  {
    hide Cut, ValidStore, LOK, Contents;
    var e := Ends(s, d, key);
    ContentsLength(s, d, key);
    if front {
      CutList(s, d, key, e.0, e.0, e.0 + 1, e.1);
    } else {
      CutList(s, d, key, e.1, e.1, e.0, e.1 - 1);
    }
  }

  /** The item a pop reads and returns. */
  lemma PoppedValue(s: Store, d: nat, key: bytes, front: bool)
    requires ValidStore(s) && LOK(s, d, key) && Contents(s, d, key) != []
    ensures var v, e := Contents(s, d, key), Ends(s, d, key);
            Lookup(s, ItemAt(d, key, if front then e.0 else e.1)) == Some(BytesVal(v[if front then 0 else |v| - 1]))
  {
    hide ValidStore, LOK, Contents;
    ContentsLength(s, d, key);
    ItemOf(s, d, key, if front then Ends(s, d, key).0 else Ends(s, d, key).1);
  }

  // ---------------------------------------------------------------- LTrimFront and LTrimBack

  /** The numbers ltrim removes, first and last, in 32-bit arithmetic. */
  function TrimRange(s: Store, d: nat, key: bytes, n: int, front: bool): (r: (int, int)) {
    var e := Ends(s, d, key);
    if front then
      var b := Wrap32(e.0 + n - 1);
      (e.0, if b < e.1 then b else e.1)
    else
      var a := Wrap32(e.1 - n + 1);
      (if a > e.0 then a else e.0, e.1)
  }

  function Trimmed(s: Store, d: nat, key: bytes, n: int, front: bool): (u: Store) {
    var e, r := Ends(s, d, key), TrimRange(s, d, key, n, front);
    Cut(s, d, key, r.0, r.1, if front then Wrap32(r.1 + 1) else e.0, if front then e.1 else Wrap32(r.0 - 1))
  }

  function TrimSpec(v: seq<bytes>, n: nat, front: bool): (r: seq<bytes>) {
    if n >= |v| then [] else if front then v[n..] else v[..|v| - n]
  }

  /**
   Trimming `n > 0` items of a list that is not empty is the trim on sequences if and only if, at
   the front, the number of the last item to go can be computed in 32 bits.
   */
  lemma TrimExactIff(s: Store, d: nat, key: bytes, n: int, front: bool)
    requires ValidStore(s) && LOK(s, d, key) && Contents(s, d, key) != [] && 0 < n && IsInt32(n)
    ensures var u := Trimmed(s, d, key, n, front);
            && LOK(u, d, key)
            && (Contents(u, d, key) == TrimSpec(Contents(s, d, key), n, front) <==>
                !front || Ends(s, d, key).0 + n - 1 < TWO_31)
  {
    hide Cut, ValidStore, LOK, Contents;
    var e, v, r := Ends(s, d, key), Contents(s, d, key), TrimRange(s, d, key, n, front);
    ContentsLength(s, d, key);
    if !front || e.0 + n - 1 < TWO_31 {
      CutList(s, d, key, r.0, r.1, if front then r.1 + 1 else e.0, if front then e.1 else r.0 - 1);
    } else {
      TrimOverflow(s, d, key, n);
      FrameList(s, Trimmed(s, d, key, n, true), d, key);
    }
  }

  /** On overflow nothing at all is removed. */
  lemma TrimOverflow(s: Store, d: nat, key: bytes, n: int)
    requires LOK(s, d, key) && Contents(s, d, key) != [] && 0 < n && IsInt32(n) && Ends(s, d, key).0 + n - 1 >= TWO_31
    ensures forall k: Key :: Lookup(Trimmed(s, d, key, n, true), k) == Lookup(s, k)
  {
    hide Cut, LOK, Contents;
    var e, r := Ends(s, d, key), TrimRange(s, d, key, n, true);
    ContentsLength(s, d, key);
    forall k: Key ensures Lookup(Trimmed(s, d, key, n, true), k) == Lookup(s, k) {
      CutAt(s, d, key, r.0, r.1, Wrap32(r.1 + 1), e.1, k);
    }
  }

  /**
   A negative size keeps the list whole if and only if it is so far out that the new length wraps
   (at the front) or the first number to go wraps, which empties the list (at the back).
   */
  lemma NegativeTrimIff(s: Store, d: nat, key: bytes, n: int, front: bool)
    requires ValidStore(s) && LOK(s, d, key) && Contents(s, d, key) != [] && n < 0 && IsInt32(n)
    ensures var e := Ends(s, d, key);
            && (LOK(Trimmed(s, d, key, n, front), d, key) <==>
                if front then |Contents(s, d, key)| - n >= TWO_31 else e.1 - n + 1 >= TWO_31)
            && (LOK(Trimmed(s, d, key, n, front), d, key) ==>
                Contents(Trimmed(s, d, key, n, front), d, key) == if front then Contents(s, d, key) else [])
  {
    hide Cut, ValidStore, Contents, Fills;
    var e, v, r := Ends(s, d, key), Contents(s, d, key), TrimRange(s, d, key, n, front);
    var u := Trimmed(s, d, key, n, front);
    ContentsLength(s, d, key);
    var h, t := if front then Wrap32(r.1 + 1) else e.0, if front then e.1 else Wrap32(r.0 - 1);
    if !front && e.1 - n + 1 >= TWO_31 {
      CutList(s, d, key, r.0, r.1, e.0, r.0 - 1);
    } else {
      forall k: Key | k != EndsKey(d, key) ensures Lookup(u, k) == Lookup(s, k) {
        CutAt(s, d, key, r.0, r.1, h, t, k);
      }
      CutAt(s, d, key, r.0, r.1, h, t, EndsKey(d, key));
      if front && |v| - n >= TWO_31 {
        FrameList(s, u, d, key);
      } else {
        var q := if front then h else t;
        assert q < e.0 || q > e.1;
        assert ItemAt(d, key, q) !in u by {
          NotStored(s, d, key, q);
          assert Lookup(u, ItemAt(d, key, q)) == Lookup(s, ItemAt(d, key, q));
        }
        assert Lookup(u, EndsKey(d, key)) == Some(EndsVal(h, t));
        NotFilled(u, d, key, h, t, q);
      }
    }
  }

  lemma NotStored(s: Store, d: nat, key: bytes, q: int)
    requires LOK(s, d, key) && (q < Ends(s, d, key).0 || q > Ends(s, d, key).1)
    ensures ItemAt(d, key, q) !in s
  {
  }

  lemma NotFilled(u: Store, d: nat, key: bytes, h: int, t: int, q: int)
    requires Lookup(u, EndsKey(d, key)) == Some(EndsVal(h, t)) && ItemAt(d, key, q) !in u && h <= q <= t
    ensures !LOK(u, d, key)
  {
    assert Fills(u, d, key, h, t) ==> ItemAt(d, key, q) in u;
  }

  // ---------------------------------------------------------------- walks over items

  /** A closed range of item keys. */
  function ItemRangeOf(d: nat, key: bytes, i: int, j: int): (r: Range)
    requires ValidKey(ItemAt(d, key, i)) && ValidKey(ItemAt(d, key, j))
  {
    Range(At(Encode(ItemAt(d, key, i))), At(Encode(ItemAt(d, key, j))), false, false)
  }

  ghost function ItemKeys(d: nat, key: bytes, i: int, j: int): (ks: seq<Key>)
    requires i <= j + 1
    ensures |ks| == j - i + 1
  {
    seq(j - i + 1, n => ItemAt(d, key, i + n))
  }

  lemma ItemOrder(d: nat, key: bytes, i: int, j: int)
    requires d <= MAX_DATABASES && |key| < 0x1_0000 && 0 <= i < j && IsInt32(j)
    ensures Lt(Encode(ItemAt(d, key, i)), Encode(ItemAt(d, key, j)))
  {
    hide Encode, Lt;
    var a, b := ItemAt(d, key, i), ItemAt(d, key, j);
    ListRange(d, key, i, j, b);
    if Encode(a) == Encode(b) { EncodeInjective(a, b); }
  }

  /** Keys in byte order are determined by which they are. */
  lemma {:induction false} KeysUnique(a: seq<Key>, b: seq<Key>)
    requires forall k :: k in a ==> ValidKey(k)
    requires forall k :: k in b ==> ValidKey(k)
    requires forall i, j :: 0 <= i < j < |a| ==> Lt(Encode(a[i]), Encode(a[j]))
    requires forall i, j :: 0 <= i < j < |b| ==> Lt(Encode(b[i]), Encode(b[j]))
    requires forall k :: k in a <==> k in b
    ensures a == b
  {
    hide Encode, Lt;
    var x := seq(|a|, i requires 0 <= i < |a| => Encode(a[i]));
    var y := seq(|b|, i requires 0 <= i < |b| => Encode(b[i]));
    SortedIsAscending(x);
    SortedIsAscending(y);
    forall e ensures e in x <==> e in y {
      if e in x {
        var i :| 0 <= i < |x| && x[i] == e;
        assert a[i] in b;
        var j :| 0 <= j < |b| && b[j] == a[i];
        assert y[j] == e;
      }
      if e in y {
        var i :| 0 <= i < |y| && y[i] == e;
        assert b[i] in a;
        var j :| 0 <= j < |a| && a[j] == b[i];
        assert x[j] == e;
      }
    }
    SortedUnique(x, y);
    forall i | 0 <= i < |a| ensures a[i] == b[i] {
      assert x[i] == y[i];
      EncodeInjective(a[i], b[i]);
    }
  }

  /** Between two items of a list lie the items numbered between, and nothing else. */
  lemma ItemsInOrder(s: Store, d: nat, key: bytes, i: int, j: int)
    requires ValidStore(s) && LOK(s, d, key) && d <= MAX_DATABASES && |key| < 0x1_0000 && EndsKey(d, key) in s
    requires Ends(s, d, key).0 <= i <= j <= Ends(s, d, key).1
    ensures Matching(s, ItemRangeOf(d, key, i, j)) == ItemKeys(d, key, i, j)
  {
    hide Matching, Encode, Lt, Le;
    var r := ItemRangeOf(d, key, i, j);
    var a, b := Matching(s, r), ItemKeys(d, key, i, j);
    forall k: Key ensures k in a <==> k in b {
      MatchingElements(s, r, k);
      if k in s { assert ValidRecord(k, s[k]); ListRange(d, key, i, j, k); }
      if k in b { var n :| 0 <= n < |b| && b[n] == k; assert k == ItemAt(d, key, i + n) && k in s; }
      if k.db == d && k.kind.ListItem? && k.kind.key == key && i <= k.kind.seqNo <= j {
        assert b[k.kind.seqNo - i] == k;
      }
    }
    forall k | k in a ensures ValidKey(k) { MatchingElements(s, r, k); assert ValidRecord(k, s[k]); }
    forall m, n | 0 <= m < n < |a| ensures Lt(Encode(a[m]), Encode(a[n])) { MatchingSorted(s, r, m, n); }
    forall m, n | 0 <= m < n < |b| ensures Lt(Encode(b[m]), Encode(b[n])) { ItemOrder(d, key, i + m, i + n); }
    KeysUnique(a, b);
  }

  /** The walk of lDelete over an empty list meets nothing. */
  lemma NoItems(s: Store, d: nat, key: bytes)
    requires ValidStore(s) && LOK(s, d, key) && d <= MAX_DATABASES && |key| < 0x1_0000 && EndsKey(d, key) !in s
    ensures Matching(s, ItemRangeOf(d, key, INITIAL_SEQ, INITIAL_SEQ)) == []
  {
    hide Matching, Encode, Lt, Le;
    var r := ItemRangeOf(d, key, INITIAL_SEQ, INITIAL_SEQ);
    var a := Matching(s, r);
    assert ItemAt(d, key, INITIAL_SEQ) !in s;
    if a != [] {
      var k := a[0];
      assert k in a;
      MatchingElements(s, r, k);
      assert ValidRecord(k, s[k]);
      ListRange(d, key, INITIAL_SEQ, INITIAL_SEQ, k);
    }
  }

  /** An unbounded walk that stops after as many keys as the bounded one holds is the bounded one. */
  lemma {:induction false} SelectPrefix(ks: seq<bytes>, lo: Bound, hi: bytes)
    requires Sorted(ks)
    ensures var inside := Select(ks, Range(lo, At(hi), false, false));
            Take(Select(ks, Range(lo, Unbounded, false, false)), |inside|) == inside
  {
    hide Lt, Le;
    var r, open := Range(lo, At(hi), false, false), Range(lo, Unbounded, false, false);
    if ks != [] {
      SelectPrefix(ks[1..], lo, hi) by { SortedSlice(ks, 1, |ks|); }
      var rest, all := Select(ks[1..], r), Select(ks[1..], open);
      if !r.BelowMax(ks[0]) {
        AboveAll(ks, lo, hi);
      } else if r.Contains(ks[0]) {
        assert ([ks[0]] + all)[..|rest| + 1] == [ks[0]] + all[..|rest|];
      } else {
        assert [] + rest == rest && [] + all == all;
      }
    }
  }

  lemma AboveAll(ks: seq<bytes>, lo: Bound, hi: bytes)
    requires Sorted(ks) && ks != [] && !Le(ks[0], hi)
    ensures Select(ks, Range(lo, At(hi), false, false)) == []
  {
    hide Lt, Select, Sorted;
    var r := Range(lo, At(hi), false, false);
    var xs := Select(ks, r);
    if xs != [] {
      SelectElements(ks, r, xs[0]);
      SortedIsAscending(ks);
      var i :| 0 <= i < |ks| && ks[i] == xs[0];
      LtTotal(ks[0], hi);
      LtIsStrict(hi, ks[0], ks[i]);
    }
  }

  lemma LtIsStrict(hi: bytes, a: bytes, b: bytes)
    requires Lt(hi, a) && (a == b || Lt(a, b))
    ensures !Le(b, hi)
  {
    if a != b { LtTransitive(hi, a, b); }
    LtAsymmetric(hi, b);
  }

  lemma MatchingPrefix(s: Store, lo: Bound, hi: bytes)
    requires ValidStore(s)
    ensures var inside := Matching(s, Range(lo, At(hi), false, false));
            Query(s, Range(lo, Unbounded, false, false), Limit(0, |inside|), false) == inside
  {
    hide Select, Sorted, Decode, Encode;
    var r, open := Range(lo, At(hi), false, false), Range(lo, Unbounded, false, false);
    SelectedDecode(s, r);
    SelectedDecode(s, open);
    SelectPrefix(SortedKeys(ByteKeys(s)), lo, hi);
    DecodeSlice(Select(SortedKeys(ByteKeys(s)), open), 0, |Matching(s, r)|);
    assert Drop(Matching(s, open), 0) == Matching(s, open);
    assert Drop(Select(SortedKeys(ByteKeys(s)), open), 0) == Select(SortedKeys(ByteKeys(s)), open);
  }

  // ---------------------------------------------------------------- LClear

  /** The item keys lDelete meets. */
  ghost function Walked(s: Store, d: nat, key: bytes): (ks: seq<Key>)
    requires ValidStore(s) && LOK(s, d, key) && d <= MAX_DATABASES && |key| < 0x1_0000
  {
    var e := Ends(s, d, key);
    Matching(s, ItemRangeOf(d, key, e.0, e.1))
  }

  /** lDelete, then rmExpire. */
  ghost function ClearOps(s: Store, d: nat, key: bytes): (ops: Ops)
    requires ValidStore(s) && LOK(s, d, key) && d <= MAX_DATABASES && |key| < 0x1_0000
  {
    DeleteAll(Walked(s, d, key)) + [Delete(EndsKey(d, key))] + RmExpireOps(s, d, LIST_TYPE, key)
  }

  ghost function Cleared(s: Store, d: nat, key: bytes): (u: Store)
    requires ValidStore(s) && LOK(s, d, key) && d <= MAX_DATABASES && |key| < 0x1_0000
  {
    Apply(s, ClearOps(s, d, key))
  }

  /** As many items are walked as the list has, and they are all of its items. */
  lemma WalkedItems(s: Store, d: nat, key: bytes, k: Key)
    requires ValidStore(s) && LOK(s, d, key) && d <= MAX_DATABASES && |key| < 0x1_0000
    ensures |Walked(s, d, key)| == |Contents(s, d, key)|
    ensures k in Walked(s, d, key) <==> k in s && k.db == d && k.kind.ListItem? && k.kind.key == key
  {
    hide Matching, Encode, Fills;
    var e := Ends(s, d, key);
    if EndsKey(d, key) in s {
      ItemsInOrder(s, d, key, e.0, e.1);
      var ks := ItemKeys(d, key, e.0, e.1);
      if k in ks { var n :| 0 <= n < |ks| && ks[n] == k; StoredItems(s, d, key, e.0 + n); }
      if k in s && k.db == d && k.kind.ListItem? && k.kind.key == key {
        StoredItems(s, d, key, k.kind.seqNo);
        assert ks[k.kind.seqNo - e.0] == k;
      }
    } else {
      NoItems(s, d, key);
      if k.kind.ListItem? { StoredItems(s, d, key, k.kind.seqNo); }
    }
  }

  lemma StoredItems(s: Store, d: nat, key: bytes, q: int)
    requires LOK(s, d, key)
    ensures ItemAt(d, key, q) in s <==> EndsKey(d, key) in s && Ends(s, d, key).0 <= q <= Ends(s, d, key).1
  {
  }

  /** LClear leaves no record of the list and no expiry, and nothing else changes. */
  lemma ClearedAt(s: Store, d: nat, key: bytes, k: Key)
    requires ValidStore(s) && LOK(s, d, key) && d <= MAX_DATABASES && |key| < 0x1_0000
    ensures var mk := ExpMetaKey(d, LIST_TYPE, key);
            Lookup(Cleared(s, d, key), k) ==
            if IsRecordOf(d, key, k) ||
                (mk in s && (k == mk || k == ExpTimeKey(d, GetInt(s, mk), LIST_TYPE, key))) then None
            else Lookup(s, k)
  {
    hide Apply, Walked, LOK, ValidStore, RmExpireOps, DeleteAll;
    var ks := Walked(s, d, key);
    var del: Op<Key, Val> := Delete(EndsKey(d, key));
    WalkedItems(s, d, key, k);
    DeleteAllEffect(s, ks, k);
    ApplyOne(s, DeleteAll(ks), del);
    ApplyAppend(s, DeleteAll(ks) + [del], RmExpireOps(s, d, LIST_TYPE, key));
    RmExpireEffect(s, Apply(s, DeleteAll(ks) + [del]), d, LIST_TYPE, key, k);
  }

  lemma ClearedList(s: Store, d: nat, key: bytes)
    requires ValidStore(s) && LOK(s, d, key) && d <= MAX_DATABASES && |key| < 0x1_0000
    ensures LOK(Cleared(s, d, key), d, key) && Contents(Cleared(s, d, key), d, key) == []
  {
    hide Cleared, LOK, ValidStore;
    var u := Cleared(s, d, key);
    ClearedAt(s, d, key, EndsKey(d, key));
    forall q: int ensures ItemAt(d, key, q) !in u {
      ClearedAt(s, d, key, ItemAt(d, key, q));
      assert Lookup(u, ItemAt(d, key, q)).None?;
    }
    assert Lookup(u, EndsKey(d, key)).None?;
    MadeEmpty(u, d, key);
  }

  // ---------------------------------------------------------------- LTrim

  /** A rank as ltrim2 sees it: cut to 32 bits, and counted from the end when negative. */
  function Rank(s: Store, d: nat, key: bytes, p: int): (r: int) {
    var x := Wrap32(p);
    if x < 0 then Wrap32(Len(s, d, key) + x) else x
  }

  /** The branch that drops the whole list. */
  predicate TrimsAll(s: Store, d: nat, key: bytes, start: int, stop: int) {
    Rank(s, d, key, start) >= Len(s, d, key) || Rank(s, d, key, start) > Rank(s, d, key, stop)
  }

  /** The other branch: `start` is clamped on both sides, `stop` only above. */
  function TrimToOps(s: Store, d: nat, key: bytes, start: int, stop: int): (ops: Ops) {
    var h, n, p, q := Ends(s, d, key).0, Len(s, d, key), Rank(s, d, key, start), Rank(s, d, key, stop);
    var lo, hi := if p < 0 then 0 else p, if q >= n then n - 1 else q;
    DelItems(d, key, h, h + lo - 1) + DelItems(d, key, h + hi + 1, h + n - 1) +
        SetEndsOps(d, key, Wrap32(h + lo), Wrap32(h + hi))
  }

  ghost function TrimmedTo(s: Store, d: nat, key: bytes, start: int, stop: int): (u: Store)
    requires ValidStore(s) && LOK(s, d, key) && d <= MAX_DATABASES && |key| < 0x1_0000
  {
    if TrimsAll(s, d, key, start, stop) then Cleared(s, d, key) else Apply(s, TrimToOps(s, d, key, start, stop))
  }

  lemma TrimToAt(s: Store, d: nat, key: bytes, start: int, stop: int, k: Key)
    ensures var h, n, p, q := Ends(s, d, key).0, Len(s, d, key), Rank(s, d, key, start), Rank(s, d, key, stop);
            var lo, hi := if p < 0 then 0 else p, if q >= n then n - 1 else q;
            var h', t' := Wrap32(h + lo), Wrap32(h + hi);
            Lookup(Apply(s, TrimToOps(s, d, key, start, stop)), k) ==
            if k.db == d && k.kind.ListItem? && k.kind.key == key &&
               (h <= k.kind.seqNo <= h + lo - 1 || h + hi + 1 <= k.kind.seqNo <= h + n - 1) then None
            else if k == EndsKey(d, key) &&
                Wrap32(t' - h' + 1) >= 0 then (if Wrap32(t' - h' + 1) == 0 then None else Some(EndsVal(h', t')))
            else Lookup(s, k)
  {
    hide Apply, DelItems, SetEndsOps, Rank, Len, Ends;
    var h, n, p, q := Ends(s, d, key).0, Len(s, d, key), Rank(s, d, key, start), Rank(s, d, key, stop);
    var lo, hi := if p < 0 then 0 else p, if q >= n then n - 1 else q;
    var a, b, c := DelItems(d, key, h, h + lo - 1), DelItems(d, key, h + hi + 1, h + n - 1),
        SetEndsOps(d, key, Wrap32(h + lo), Wrap32(h + hi));
    DelItemsEffect(s, d, key, h, h + lo - 1, k);
    ApplyAppend(s, a, b);
    DelItemsEffect(Apply(s, a), d, key, h + hi + 1, h + n - 1, k);
    ApplyAppend(s, a + b, c);
    SetEndsEffect(Apply(s, a + b), d, key, Wrap32(h + lo), Wrap32(h + hi), k);
  }

  /** Of the items of the list in `s`, `u` holds those at the places from w.0 up to w.1, and no others. */
  ghost predicate KeepsWindow(s: Store, u: Store, d: nat, key: bytes, w: (int, int)) {
    && LOK(u, d, key)
    && forall q: int :: Lookup(u, ItemAt(d, key, q)) ==
                        if w.0 <= q - Ends(s, d, key).0 < w.1 then Lookup(s, ItemAt(d, key, q)) else None
  }

  /** What LTrim promises: a well-formed list of the items that the Redis rule selects. */
  ghost predicate KeepsRanks(s: Store, u: Store, d: nat, key: bytes, start: int, stop: int) {
    KeepsWindow(s, u, d, key, RankWindow(Len(s, d, key), start, stop))
  }

  lemma KeptRanks(s: Store, u: Store, d: nat, key: bytes, start: int, stop: int)
    requires ValidStore(s) && LOK(s, d, key) && KeepsRanks(s, u, d, key, start, stop)
    ensures Contents(u, d, key) == RankSlice(Contents(s, d, key), start, stop)
  {
    hide ValidStore, RankWindow;
    LenIsLength(s, d, key);
    var w, h := RankWindow(Len(s, d, key), start, stop), Ends(s, d, key).0;
    KeptEnds(s, u, d, key, w);
    var a, b := Contents(u, d, key), RankSlice(Contents(s, d, key), start, stop);
    forall i | 0 <= i < w.1 - w.0 ensures a[i] == b[i] {
      var q := h + (w.0 + i);
      ItemOf(s, d, key, q);
      assert Lookup(u, ItemAt(d, key, q)) == Lookup(s, ItemAt(d, key, q));
      assert a[i] == ItemValue(u, d, key, q);
    }
  }

  lemma KeptEnds(s: Store, u: Store, d: nat, key: bytes, w: (int, int))
    requires ValidStore(s) && LOK(s, d, key) && KeepsWindow(s, u, d, key, w) && 0 <= w.0 <= w.1 <= Len(s, d, key)
    ensures EndsKey(d, key) in u <==> w.0 < w.1
    ensures w.0 < w.1 ==> Ends(u, d, key) == (Ends(s, d, key).0 + w.0, Ends(s, d, key).0 + w.1 - 1)
  {
    hide ValidStore;
    var h, e := Ends(s, d, key).0, Ends(u, d, key);
    forall q: int ensures ItemAt(d, key, q) in u <==> h + w.0 <= q < h + w.1 {
      assert Lookup(u, ItemAt(d, key, q)) == if w.0 <= q - h < w.1 then Lookup(s, ItemAt(d, key, q)) else None;
    }
    if EndsKey(d, key) in u {
      assert ItemAt(d, key, e.0) in u && ItemAt(d, key, e.1) in u;
      assert ItemAt(d, key, e.0 - 1) !in u && ItemAt(d, key, e.1 + 1) !in u;
    } else {
      assert ItemAt(d, key, h + w.0) !in u;
    }
  }

  lemma SamePlace(s: Store, u: Store, d: nat, key: bytes, w: (int, int), x: (int, int), i: nat)
    requires LOK(s, d, key) && KeepsWindow(s, u, d, key, w) && KeepsWindow(s, u, d, key, x) && i < Len(s, d, key)
    ensures w.0 <= i < w.1 <==> x.0 <= i < x.1
  {
    var h := Ends(s, d, key).0;
    var k := ItemAt(d, key, h + i);
    assert Lookup(u, k) == if w.0 <= (h + i) - h < w.1 then Lookup(s, k) else None;
    assert Lookup(u, k) == if x.0 <= (h + i) - h < x.1 then Lookup(s, k) else None;
    assert k in s;
  }

  /** The items of a list are held at one range of places only. */
  lemma OneWindow(s: Store, u: Store, d: nat, key: bytes, w: (int, int), x: (int, int))
    requires LOK(s, d, key) && KeepsWindow(s, u, d, key, w) && KeepsWindow(s, u, d, key, x)
    requires 0 <= w.0 <= w.1 <= Len(s, d, key) && 0 <= x.0 <= x.1 <= Len(s, d, key)
    ensures w == x || (w.0 == w.1 && x.0 == x.1)
  {
    hide LOK, KeepsWindow, Len;
    if w.0 < w.1 {
      SamePlace(s, u, d, key, w, x, w.0);
      SamePlace(s, u, d, key, w, x, w.1 - 1);
    }
    if x.0 < x.1 {
      SamePlace(s, u, d, key, w, x, x.0);
      SamePlace(s, u, d, key, w, x, x.1 - 1);
    }
  }

  /** The stop rank of a list that is not empty stays left of the list, by more than one. */
  predicate StopsShort(s: Store, d: nat, key: bytes, start: int, stop: int) {
    Len(s, d, key) > 0 && Rank(s, d, key, start) <= Rank(s, d, key, stop) <= -2
  }

  /** Cutting the two ranks to 32 bits makes no difference to the items they select. */
  predicate RanksFit(s: Store, d: nat, key: bytes, start: int, stop: int) {
    RankWindow(Len(s, d, key), Wrap32(start), Wrap32(stop)) == RankWindow(Len(s, d, key), start, stop)
  }

  /**
   LTrim keeps exactly the items that the Redis rule selects, in a well-formed list, if and only if
   the ranks select the same items after they are cut to 32 bits and the stop rank does not stay
   left of the list by more than one. Ranks of 32 bits always fit.
   */
  lemma TrimToExactIff(s: Store, d: nat, key: bytes, start: int, stop: int)
    requires ValidStore(s) && LOK(s, d, key) && d <= MAX_DATABASES && |key| < 0x1_0000
    ensures var u := TrimmedTo(s, d, key, start, stop);
            && (KeepsRanks(s, u, d, key, start, stop) <==>
                !StopsShort(s, d, key, start, stop) && RanksFit(s, d, key, start, stop))
            && (KeepsRanks(s, u, d, key, start, stop) ==>
                Contents(u, d, key) == RankSlice(Contents(s, d, key), start, stop))
    ensures IsInt32(start) && IsInt32(stop) ==> RanksFit(s, d, key, start, stop)
  {
    hide ValidStore, LOK, Contents, TrimmedTo, KeepsWindow, RankWindow;
    LenIsLength(s, d, key);
    var u, n := TrimmedTo(s, d, key, start, stop), Len(s, d, key);
    var w, x := RankWindow(n, start, stop), RankWindow(n, Wrap32(start), Wrap32(stop));
    if StopsShort(s, d, key, start, stop) {
      TrimToBroken(s, d, key, start, stop);
      assert !KeepsWindow(s, u, d, key, w) by { BrokenKeeps(s, u, d, key, w); }
    } else {
      TrimToKeeps(s, d, key, start, stop);
      if KeepsWindow(s, u, d, key, w) {
        OneWindow(s, u, d, key, w, x);
        EmptyWindow(n, start, stop);
        EmptyWindow(n, Wrap32(start), Wrap32(stop));
        KeptRanks(s, u, d, key, start, stop);
      }
    }
  }

  lemma EmptyWindow(n: int, start: int, stop: int)
    ensures var w := RankWindow(n, start, stop); w.0 == w.1 ==> w == (0, 0)
  {
  }

  lemma BrokenKeeps(s: Store, u: Store, d: nat, key: bytes, w: (int, int))
    requires !LOK(u, d, key)
    ensures !KeepsWindow(s, u, d, key, w)
  {
  }

  /** A list that does not stop short keeps what the ranks cut to 32 bits select. */
  lemma TrimToKeeps(s: Store, d: nat, key: bytes, start: int, stop: int)
    requires ValidStore(s) && LOK(s, d, key) && d <= MAX_DATABASES && |key| < 0x1_0000
    requires !StopsShort(s, d, key, start, stop)
    ensures KeepsRanks(s, TrimmedTo(s, d, key, start, stop), d, key, Wrap32(start), Wrap32(stop))
  {
    hide ValidStore, LOK, Contents, Cleared, Apply, TrimToOps, KeepsWindow;
    LenIsLength(s, d, key);
    ContentsLength(s, d, key);
    if TrimsAll(s, d, key, start, stop) {
      assert RankWindow(Len(s, d, key), Wrap32(start), Wrap32(stop)) == (0, 0);
      ClearedKeeps(s, d, key);
    } else if EndsKey(d, key) !in s {
      TrimToEmpty(s, d, key, start, stop);
    } else {
      TrimToList(s, d, key, start, stop);
    }
  }

  lemma ClearedKeeps(s: Store, d: nat, key: bytes)
    requires ValidStore(s) && LOK(s, d, key) && d <= MAX_DATABASES && |key| < 0x1_0000
    ensures KeepsWindow(s, Cleared(s, d, key), d, key, (0, 0))
  {
    hide Cleared, LOK, ValidStore;
    ClearedList(s, d, key);
    forall q: int ensures Lookup(Cleared(s, d, key), ItemAt(d, key, q)).None? {
      ClearedAt(s, d, key, ItemAt(d, key, q));
    }
  }

  lemma TrimToList(s: Store, d: nat, key: bytes, start: int, stop: int)
    requires ValidStore(s) && LOK(s, d, key) && EndsKey(d, key) in s
    requires !TrimsAll(s, d, key, start, stop) && Rank(s, d, key, stop) >= -1
    ensures KeepsRanks(s, Apply(s, TrimToOps(s, d, key, start, stop)), d, key, Wrap32(start), Wrap32(stop))
  {
    hide ValidStore, LOK, Contents, Apply, TrimToOps;
    LenIsLength(s, d, key);
    ContentsLength(s, d, key);
    var h, n, p, q := Ends(s, d, key).0, Len(s, d, key), Rank(s, d, key, start), Rank(s, d, key, stop);
    var lo, hi := if p < 0 then 0 else p, if q >= n then n - 1 else q;
    var u, w := Apply(s, TrimToOps(s, d, key, start, stop)), RankWindow(n, Wrap32(start), Wrap32(stop));
    TrimToAt(s, d, key, start, stop, EndsKey(d, key));
    forall i: int
      ensures Lookup(u, ItemAt(d, key, i)) == if h + lo <= i <= h + hi then Lookup(s, ItemAt(d, key, i)) else None
    {
      TrimToAt(s, d, key, start, stop, ItemAt(d, key, i));
      ItemOf(s, d, key, i);
    }
    KeptList(s, u, d, key, h + lo, h + hi);
    assert w == if lo <= hi then (lo, hi + 1) else (0, 0);
    forall i: int
      ensures Lookup(u, ItemAt(d, key, i)) == if w.0 <= i - h < w.1 then Lookup(s, ItemAt(d, key, i)) else None
    {
    }
  }

  /** On an empty list the batch touches nothing that is stored. */
  lemma TrimToEmpty(s: Store, d: nat, key: bytes, start: int, stop: int)
    requires ValidStore(s) && LOK(s, d, key) && EndsKey(d, key) !in s && !TrimsAll(s, d, key, start, stop)
    ensures KeepsRanks(s, Apply(s, TrimToOps(s, d, key, start, stop)), d, key, Wrap32(start), Wrap32(stop))
  {
    hide ValidStore, Apply, TrimToOps;
    var u := Apply(s, TrimToOps(s, d, key, start, stop));
    TrimToAt(s, d, key, start, stop, EndsKey(d, key));
    assert Lookup(u, EndsKey(d, key)).None?;
    forall q: int ensures Lookup(u, ItemAt(d, key, q)).None? {
      TrimToAt(s, d, key, start, stop, ItemAt(d, key, q));
      assert ItemAt(d, key, q) !in s;
    }
    MadeEmpty(u, d, key);
  }

  /** Every item goes but the meta record, and with it the length, stays as it was. */
  lemma TrimToBroken(s: Store, d: nat, key: bytes, start: int, stop: int)
    requires ValidStore(s) && LOK(s, d, key) && d <= MAX_DATABASES && |key| < 0x1_0000
    requires StopsShort(s, d, key, start, stop)
    ensures var u := TrimmedTo(s, d, key, start, stop);
            && Lookup(u, EndsKey(d, key)) == Lookup(s, EndsKey(d, key)) != None
            && (forall q: int :: ItemAt(d, key, q) !in u)
            && Len(u, d, key) == Len(s, d, key) && !LOK(u, d, key)
  {
    hide ValidStore, Fills, Apply, TrimToOps;
    var u, h := TrimmedTo(s, d, key, start, stop), Ends(s, d, key).0;
    LenIsLength(s, d, key);
    TrimToAt(s, d, key, start, stop, EndsKey(d, key));
    forall q: int ensures ItemAt(d, key, q) !in u {
      TrimToAt(s, d, key, start, stop, ItemAt(d, key, q));
      ItemOf(s, d, key, q);
      assert Lookup(u, ItemAt(d, key, q)).None?;
    }
    NotFilled(u, d, key, h, Ends(s, d, key).1, h);
  }

  /** The store that holds one list of one item. */
  function OneItem(d: nat, key: bytes, x: bytes): (s: Store) {
    map[EndsKey(d, key) := EndsVal(INITIAL_SEQ, INITIAL_SEQ), ItemAt(d, key, INITIAL_SEQ) := BytesVal(x)]
  }

  lemma OneItemList(d: nat, key: bytes, x: bytes)
    requires d <= MAX_DATABASES && |key| < 0x1_0000
    ensures ValidStore(OneItem(d, key, x)) && LOK(OneItem(d, key, x), d, key)
    ensures Contents(OneItem(d, key, x), d, key) == [x] && Len(OneItem(d, key, x), d, key) == 1
  {
    var s := OneItem(d, key, x);
    MadeList(s, d, key, INITIAL_SEQ, INITIAL_SEQ, [x]);
  }

  /** A rank of 2^32 is cut to zero: the one item stays where the Redis rule selects none. */
  lemma WideRankKeepsTooMuch(d: nat, key: bytes, x: bytes)
    requires d <= MAX_DATABASES && |key| < 0x1_0000
    ensures var s := OneItem(d, key, x);
            && ValidStore(s) && LOK(s, d, key) && !StopsShort(s, d, key, TWO_32, TWO_32)
            && RankSlice(Contents(s, d, key), TWO_32, TWO_32) == []
            && Contents(TrimmedTo(s, d, key, TWO_32, TWO_32), d, key) == [x]
  {
    hide TrimmedTo, LOK, Contents, ValidStore;
    var s := OneItem(d, key, x);
    OneItemList(d, key, x);
    assert Wrap32(TWO_32) == 0;
    TrimToKeeps(s, d, key, TWO_32, TWO_32);
    KeptRanks(s, TrimmedTo(s, d, key, TWO_32, TWO_32), d, key, 0, 0);
  }

  /** A stop rank two left of a one-item list: the item goes and the list still counts one. */
  lemma ShortRankBreaks(d: nat, key: bytes, x: bytes)
    requires d <= MAX_DATABASES && |key| < 0x1_0000
    ensures var s := OneItem(d, key, x);
            && ValidStore(s) && LOK(s, d, key)
            && var u := TrimmedTo(s, d, key, -3, -3);
               Len(u, d, key) == 1 && ItemAt(d, key, INITIAL_SEQ) !in u && !LOK(u, d, key)
  {
    hide TrimmedTo, LOK, Contents, ValidStore;
    OneItemList(d, key, x);
    TrimToBroken(OneItem(d, key, x), d, key, -3, -3);
  }

  /** A list emptied by LTrim keeps its expiry exactly if the stop rank is one left of the list. */
  lemma TrimToExpiry(s: Store, d: nat, key: bytes, start: int, stop: int)
    requires ValidStore(s) && LOK(s, d, key) && d <= MAX_DATABASES && |key| < 0x1_0000 && Contents(s, d, key) != []
    requires ExpMetaKey(d, LIST_TYPE, key) in s && EndsKey(d, key) !in TrimmedTo(s, d, key, start, stop)
    ensures ExpMetaKey(d, LIST_TYPE, key) in TrimmedTo(s, d, key, start, stop) <==>
            Rank(s, d, key, start) <= Rank(s, d, key, stop) == -1
  {
    hide ValidStore, LOK, Contents, Cleared, Apply, TrimToOps;
    var u, mk := TrimmedTo(s, d, key, start, stop), ExpMetaKey(d, LIST_TYPE, key);
    LenIsLength(s, d, key);
    ContentsLength(s, d, key);
    if TrimsAll(s, d, key, start, stop) {
      ClearedAt(s, d, key, mk);
      assert Lookup(u, mk).None?;
    } else {
      TrimToAt(s, d, key, start, stop, mk);
      TrimToAt(s, d, key, start, stop, EndsKey(d, key));
      assert Lookup(u, mk).Some? && Lookup(u, EndsKey(d, key)).None?;
    }
  }
}
