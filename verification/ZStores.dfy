/**
 ZUnionStore and ZInterStore (ledis/t_zset.go). The sources are read first, then the destination is
 emptied and rewritten in one batch whose reads all see the store from before the call.
 */
module ZStores {
  import opened Bytes
  import opened Keys
  import opened Batches
  import opened Ranges
  import opened Database
  import opened Counting
  import opened ZSets
  import opened ZQueries
  import opened ZWrites

  datatype Aggregate = Sum | Min | Max

  /** getAggregateFunc: the three known codes. */
  function AggregateOf(code: byte): (g: Option<Aggregate>) {
    if code == 0 then Some(Sum) else if code == 1 then Some(Min) else if code == 2 then Some(Max) else None
  }

  function Combine(g: Aggregate, a: int, b: int): (r: int) {
    match g
    case Sum => Wrap64(a + b)
    case Max => if a > b then a else b
    case Min => if a > b then b else a
  }

  function Weighted(score: int, w: int): (r: int) {
    Wrap64(score * w)
  }

  // ---------------------------------------------------------------- what the aggregate is

  /** The weighted scores of `m` in the sources that hold it, in the order of the sources. */
  ghost function Contributions(views: seq<map<bytes, int>>, ws: seq<int>, m: bytes): (xs: seq<int>)
    requires |views| == |ws|
    ensures |xs| <= |views|
  {
    if views == [] then []
    else
      var n := |views| - 1;
      Contributions(views[..n], ws[..n], m) + if m in views[n] then [Weighted(views[n][m], ws[n])] else []
  }

  ghost function Total(g: Aggregate, xs: seq<int>): (r: int)
    requires xs != []
  {
    var n := |xs| - 1;
    if n == 0 then xs[0] else Combine(g, Total(g, xs[..n]), xs[n])
  }

  ghost predicate IsUnion(dest: map<bytes, int>, views: seq<map<bytes, int>>, ws: seq<int>, g: Aggregate)
    requires |views| == |ws|
  {
    forall m :: (m in dest <==> Contributions(views, ws, m) != []) &&
                (m in dest ==> dest[m] == Total(g, Contributions(views, ws, m)))
  }

  ghost predicate IsInter(dest: map<bytes, int>, views: seq<map<bytes, int>>, ws: seq<int>, g: Aggregate)
    requires |views| == |ws| && views != []
  {
    forall m :: (m in dest <==> |Contributions(views, ws, m)| == |views|) &&
                (m in dest ==> dest[m] == Total(g, Contributions(views, ws, m)))
  }

  ghost function SumOf(xs: seq<int>): (r: int) {
    if xs == [] then 0 else SumOf(xs[..|xs| - 1]) + xs[|xs| - 1]
  }

  lemma WrapAdd(a: int, b: int)
    ensures Wrap64(Wrap64(a) + b) == Wrap64(a + b)
  {
  }

  /** The three aggregates are the wrapped sum, the least and the greatest of the contributions. */
  lemma {:induction false} TotalIs(g: Aggregate, xs: seq<int>)
    requires xs != [] && forall i :: 0 <= i < |xs| ==> IsInt64(xs[i])
    ensures g.Sum? ==> Total(g, xs) == Wrap64(SumOf(xs))
    ensures !g.Sum? ==> Total(g, xs) in xs
    ensures g.Min? ==> forall i :: 0 <= i < |xs| ==> Total(g, xs) <= xs[i]
    ensures g.Max? ==> forall i :: 0 <= i < |xs| ==> Total(g, xs) >= xs[i]
  {
    var n := |xs| - 1;
    if n == 0 {
      assert xs[..0] == [] && SumOf([]) == 0;
    } else {
      var front := xs[..n];
      TotalIs(g, front);
      WrapAdd(SumOf(front), xs[n]);
      assert forall i :: 0 <= i < n ==> front[i] == xs[i];
      assert xs[n] in xs && forall x :: x in front ==> x in xs;
    }
  }

  // ---------------------------------------------------------------- collecting

  /** A sequence of pairs that spells out a map. */
  ghost predicate Lists(v: seq<Pair>, view: map<bytes, int>) {
    && (forall i, j :: 0 <= i < j < |v| ==> v[i].member != v[j].member)
    && (forall p :: p in v <==> p.member in view && view[p.member] == p.score)
  }

  lemma SortedPairsList(s: Store, d: nat, key: bytes)
    requires ValidStore(s) && ZOK(s, d, key) && |key| < 0x1_0000
    ensures Lists(SortedPairs(s, d, key), View(s, d, key))
  {
    hide SortedPairs, Before, IndexOK, ScoresOK, SizeOK;
    SortedPairsAre(s, d, key);
    var v, view := SortedPairs(s, d, key), View(s, d, key);
    DistinctMembers(s, d, key, v);
    forall p ensures p in v <==> p.member in view && view[p.member] == p.score {
      if MemberKey(d, key, p.member) in s { StoredPair(s, d, key, p.member); }
    }
  }

  /** The score a pair contributes to a member already collected, or by itself. */
  function Merged(dest: map<bytes, int>, p: Pair, w: int, g: Aggregate): (x: int) {
    if p.member in dest then Combine(g, dest[p.member], Weighted(p.score, w)) else Weighted(p.score, w)
  }

  ghost predicate UnionStep(a: map<bytes, int>, b: map<bytes, int>, view: map<bytes, int>, w: int, g: Aggregate) {
    forall m :: (m in b <==> m in a || m in view) &&
                (m in b ==> b[m] == if m in view then Merged(a, Pair(view[m], m), w, g) else a[m])
  }

  ghost predicate InterStep(a: map<bytes, int>, b: map<bytes, int>, view: map<bytes, int>, w: int, g: Aggregate) {
    forall m :: (m in b <==> m in a && m in view) &&
                (m in b ==> b[m] == Combine(g, a[m], Weighted(view[m], w)))
  }

  /** The inner loop of ZUnionStore over one source. */
  method MergeUnion(dest: map<bytes, int>, v: seq<Pair>, w: int, g: Aggregate, ghost view: map<bytes, int>)
    returns (r: map<bytes, int>)
    requires Lists(v, view)
    ensures UnionStep(dest, r, view, w, g)
  {
    r := dest;
    for i := 0 to |v|
      invariant forall j :: 0 <= j < i ==> v[j].member in r && r[v[j].member] == Merged(dest, v[j], w, g)
      invariant forall m :: m in r ==> m in dest || exists j :: 0 <= j < i && v[j].member == m
      invariant forall m :: m in dest ==> m in r
      invariant forall m :: m in dest && (forall j :: 0 <= j < i ==> v[j].member != m) ==> r[m] == dest[m]
    {
      var p := v[i];
      assert p.member in r <==> p.member in dest;
      r := r[p.member := if p.member in r then Combine(g, r[p.member], Weighted(p.score, w)) else Weighted(p.score, w)];
    }
    forall m ensures (m in r <==> m in dest || m in view) &&
                     (m in r ==> r[m] == if m in view then Merged(dest, Pair(view[m], m), w, g) else dest[m])
    {
      ListedAt(v, view, m);
    }
  }

  /** Membership in the map, by position. */
  lemma ListedAt(v: seq<Pair>, view: map<bytes, int>, m: bytes)
    requires Lists(v, view)
    ensures m in view <==> exists j :: 0 <= j < |v| && v[j].member == m
    ensures m in view ==> exists j :: 0 <= j < |v| && v[j] == Pair(view[m], m)
  {
    if m in view { assert Pair(view[m], m) in v; }
    if j :| 0 <= j < |v| && v[j].member == m { assert v[j] in v; }
  }

  /** The inner loop of ZInterStore over one source. */
  method MergeInter(dest: map<bytes, int>, v: seq<Pair>, w: int, g: Aggregate, ghost view: map<bytes, int>)
    returns (r: map<bytes, int>)
    requires Lists(v, view)
    ensures InterStep(dest, r, view, w, g)
  {
    r := map[];
    for i := 0 to |v|
      invariant forall j :: 0 <= j < i ==> (v[j].member in r <==> v[j].member in dest)
      invariant forall j :: 0 <= j < i && v[j].member in dest ==> r[v[j].member] == Merged(dest, v[j], w, g)
      invariant forall m :: m in r ==> exists j :: 0 <= j < i && v[j].member == m
    {
      var p := v[i];
      if p.member in dest {
        r := r[p.member := Combine(g, dest[p.member], Weighted(p.score, w))];
      }
    }
    forall m ensures (m in r <==> m in dest && m in view) &&
                     (m in r ==> r[m] == Combine(g, dest[m], Weighted(view[m], w)))
    {
      ListedAt(v, view, m);
    }
  }

  ghost function Views(s: Store, d: nat, srcs: seq<bytes>): (vs: seq<map<bytes, int>>)
    ensures |vs| == |srcs|
  {
    seq(|srcs|, i requires 0 <= i < |srcs| => View(s, d, srcs[i]))
  }

  lemma {:induction false} UnionNext(a: map<bytes, int>, b: map<bytes, int>, views: seq<map<bytes, int>>, ws: seq<int>,
        g: Aggregate)
    requires |views| == |ws| && views != []
    requires var n := |views| - 1; IsUnion(a, views[..n], ws[..n], g) && UnionStep(a, b, views[n], ws[n], g)
    ensures IsUnion(b, views, ws, g)
  {
    var n := |views| - 1;
    forall m ensures (m in b <==> Contributions(views, ws, m) != []) &&
                     (m in b ==> b[m] == Total(g, Contributions(views, ws, m)))
    {
      var xs := Contributions(views[..n], ws[..n], m);
      assert m in a <==> xs != [];
      if m in views[n] {
        var x := Weighted(views[n][m], ws[n]);
        assert (xs + [x])[..|xs|] == xs;
      } else {
        assert xs + [] == xs;
      }
    }
  }

  lemma {:induction false} InterNext(a: map<bytes, int>, b: map<bytes, int>, views: seq<map<bytes, int>>, ws: seq<int>,
        g: Aggregate)
    requires |views| == |ws| && |views| > 1
    requires var n := |views| - 1; IsInter(a, views[..n], ws[..n], g) && InterStep(a, b, views[n], ws[n], g)
    ensures IsInter(b, views, ws, g)
  {
    var n := |views| - 1;
    forall m ensures (m in b <==> |Contributions(views, ws, m)| == |views|) &&
                     (m in b ==> b[m] == Total(g, Contributions(views, ws, m)))
    {
      var xs := Contributions(views[..n], ws[..n], m);
      assert m in a <==> |xs| == n;
      if m in views[n] {
        var x := Weighted(views[n][m], ws[n]);
        assert (xs + [x])[..|xs|] == xs;
      }
    }
  }

  /** One source: what it contributes by itself, to a union and to an intersection. */
  lemma FirstView(b: map<bytes, int>, view: map<bytes, int>, w: int, g: Aggregate)
    requires UnionStep(map[], b, view, w, g)
    ensures IsInter(b, [view], [w], g)
  {
    forall m ensures (m in b <==> |Contributions([view], [w], m)| == 1) &&
                     (m in b ==> b[m] == Total(g, Contributions([view], [w], m)))
    {
      assert Contributions([view][..0], [w][..0], m) == [];
    }
  }

  /** ZRange(key, 0, -1), as the two operations use it. */
  method Source(s: Store, d: nat, key: bytes) returns (r: Reply<seq<Pair>>)
    requires ZInv(s, d) && Countable(s, d)
    ensures !KeySizeOK(key) ==> r == Fail(ErrKeySize)
    ensures KeySizeOK(key) ==> r.Done? && Lists(r.value, View(s, d, key))
  {
    hide SortedPairs, Lists, View;
    assert ZOK(s, d, key);
    r := RangeByRank(s, d, key, 0, -1, false);
    if KeySizeOK(key) {
      SortedPairsList(s, d, key);
      assert RankSlice(SortedPairs(s, d, key), 0, -1) == SortedPairs(s, d, key);
    }
  }

  ghost predicate Countable(s: Store, d: nat) {
    forall key :: |Members(s, d, ZSetColl, key)| < TWO_63
  }

  /** The reading half of ZUnionStore: the aggregate of everything in the sources. */
  method CollectUnion(s: Store, d: nat, srcs: seq<bytes>, ws: seq<int>, g: Aggregate)
    returns (r: Reply<map<bytes, int>>)
    requires ZInv(s, d) && Countable(s, d) && |srcs| == |ws|
    ensures (exists i :: 0 <= i < |srcs| && !KeySizeOK(srcs[i])) ==> r == Fail(ErrKeySize)
    ensures (forall i :: 0 <= i < |srcs| ==> KeySizeOK(srcs[i])) ==>
              r.Done? && IsUnion(r.value, Views(s, d, srcs), ws, g)
  {
    hide IsUnion, UnionStep, Lists, ZInv, View, KeySizeOK, Countable, Contributions, Total, Members;
    ghost var views := Views(s, d, srcs);
    var dest: map<bytes, int> := map[];
    NoViews(g);
    assert views[..0] == [] && ws[..0] == [];
    for i := 0 to |srcs|
      invariant IsUnion(dest, views[..i], ws[..i], g)
      invariant forall j :: 0 <= j < i ==> KeySizeOK(srcs[j])
    {
      var v := Source(s, d, srcs[i]);
      if v.Fail? {
        return Fail(v.error);
      }
      var next := MergeUnion(dest, v.value, ws[i], g, View(s, d, srcs[i]));
      assert views[..i + 1][..i] == views[..i] && ws[..i + 1][..i] == ws[..i];
      UnionNext(dest, next, views[..i + 1], ws[..i + 1], g);
      dest := next;
    }
    assert views[..|srcs|] == views && ws[..|srcs|] == ws;
    r := Done(dest);
  }

  lemma NoViews(g: Aggregate)
    ensures IsUnion(map[], [], [], g)
  {
    assert forall m :: Contributions([], [], m) == [];
  }

  /** The reading half of ZInterStore: the aggregate of what all sources hold. */
  method CollectInter(s: Store, d: nat, srcs: seq<bytes>, ws: seq<int>, g: Aggregate)
    returns (r: Reply<map<bytes, int>>)
    requires ZInv(s, d) && Countable(s, d) && |srcs| == |ws| && srcs != []
    ensures (exists i :: 0 <= i < |srcs| && !KeySizeOK(srcs[i])) ==> r == Fail(ErrKeySize)
    ensures (forall i :: 0 <= i < |srcs| ==> KeySizeOK(srcs[i])) ==>
              r.Done? && IsInter(r.value, Views(s, d, srcs), ws, g)
  {
    hide IsInter, InterStep, UnionStep, Lists, ZInv, View, KeySizeOK, Countable, Contributions, Total, Members;
    ghost var views := Views(s, d, srcs);
    var v := Source(s, d, srcs[0]);
    if v.Fail? {
      return Fail(v.error);
    }
    var dest := MergeUnion(map[], v.value, ws[0], g, View(s, d, srcs[0]));
    FirstView(dest, views[0], ws[0], g);
    assert views[..1] == [views[0]] && ws[..1] == [ws[0]];
    for i := 1 to |srcs|
      invariant IsInter(dest, views[..i], ws[..i], g)
      invariant forall j :: 0 <= j < i ==> KeySizeOK(srcs[j])
    {
      v := Source(s, d, srcs[i]);
      if v.Fail? {
        return Fail(v.error);
      }
      var next := MergeInter(dest, v.value, ws[i], g, View(s, d, srcs[i]));
      assert views[..i + 1][..i] == views[..i] && ws[..i + 1][..i] == ws[..i];
      InterNext(dest, next, views[..i + 1], ws[..i + 1], g);
      dest := next;
    }
    assert views[..|srcs|] == views && ws[..|srcs|] == ws;
    r := Done(dest);
  }

  // ---------------------------------------------------------------- storing

  /** zDelete: the batch of a full range removal; a key too long is skipped without a word. */
  ghost function DeleteOps(s: Store, d: nat, key: bytes): (ops: Ops)
    requires ZInv(s, d) && d <= MAX_DATABASES
  {
    if |key| > MAX_KEY_SIZE then []
    else
      RemRangeKeeps(s, d, key, MIN_SCORE, MAX_SCORE, 0, -1);
      RangeRemBatch(s, d, key, Walked(s, d, key, MIN_SCORE, MAX_SCORE, 0, -1))
  }

  /** The batch of the writing half, for one order of the collected members. */
  ghost function StoreOps(s: Store, d: nat, dest: bytes, order: seq<Pair>): (ops: Ops)
    requires ZInv(s, d) && d <= MAX_DATABASES
  {
    DeleteOps(s, d, dest) + AddOps(s, d, dest, order) + [Put(CountKey(d, dest), IntVal(|order|))]
  }

  ghost function Stored(s: Store, d: nat, dest: bytes, order: seq<Pair>): (u: Store)
    requires ZInv(s, d) && d <= MAX_DATABASES
  {
    Apply(s, StoreOps(s, d, dest, order))
  }

  lemma DeletedIs(s: Store, d: nat, key: bytes)
    requires ZInv(s, d) && d <= MAX_DATABASES && |key| <= MAX_KEY_SIZE
    ensures Apply(s, DeleteOps(s, d, key)) == Removed(s, d, key, MembersOf(SortedPairs(s, d, key)))
  {
    hide SortedPairs, Removed, Apply, RangeRemBatch, Walked, ZOK, ValidStore;
    RemRangeKeeps(s, d, key, MIN_SCORE, MAX_SCORE, 0, -1);
    RangeIsFilter(s, d, key, MIN_SCORE, MAX_SCORE, false) by { assert ZOK(s, d, key); }
    SortedPairsIsRange(s, d, key);
    assert Window(SortedPairs(s, d, key), 0, -1) == SortedPairs(s, d, key);
  }

  lemma {:induction false} WriteEffect(s: Store, t: Store, d: nat, key: bytes, order: seq<Pair>, k: Key)
    requires ValidStore(s) && forall i, j :: 0 <= i < j < |order| ==> order[i].member != order[j].member
    requires IsRecordOf(d, key, k) ==> k !in t
    ensures var u := Apply(t, AddOps(s, d, key, order));
            if k.db == d && k.kind.Item? && k.kind.coll == ZSetColl && k.kind.key == key then
              Lookup(u, k) == match LastScore(order, k.kind.member) case Some(sc) => Some(IntVal(sc)) case None => None
            else if k.db == d && k.kind.ZScore? && k.kind.key == key then
              Lookup(u, k) == if LastScore(order, k.kind.member) == Some(k.kind.score) then Some(BytesVal([])) else None
            else Lookup(u, k) == Lookup(t, k)
  {
    if order != [] {
      var n := |order| - 1;
      var p, front := order[n], AddOps(s, d, key, order[..n]);
      assert AddOps(s, d, key, order) == front + SetItemOps(s, d, key, p);
      hide Apply, AddOps, SetItemOps, ValidStore;
      WriteEffect(s, t, d, key, order[..n], k);
      ApplyAppend(t, front, SetItemOps(s, d, key, p));
      SetItemEffect(s, Apply(t, front), d, key, p, k);
      if LastScore(order[..n], p.member).Some? { LastScoreOccurs(order[..n], p.member); }
    }
  }

  /** Record by record, what storing leaves. */
  lemma StoredAt(s: Store, d: nat, dest: bytes, order: seq<Pair>, k: Key)
    requires ZInv(s, d) && d <= MAX_DATABASES && |dest| <= MAX_KEY_SIZE
    requires forall i, j :: 0 <= i < j < |order| ==> order[i].member != order[j].member
    ensures var u := Stored(s, d, dest, order);
            if k.db == d && k.kind.Item? && k.kind.coll == ZSetColl && k.kind.key == dest then
              Lookup(u, k) == match LastScore(order, k.kind.member) case Some(sc) => Some(IntVal(sc)) case None => None
            else if k.db == d && k.kind.ZScore? && k.kind.key == dest then
              Lookup(u, k) == if LastScore(order, k.kind.member) == Some(k.kind.score) then Some(BytesVal([])) else None
            else if k == CountKey(d, dest) then Lookup(u, k) == Some(IntVal(|order|))
            else if k == ExpMetaKey(d, ZSET_TYPE, dest) then Lookup(u, k) == None
            else if IsExpiryOf(d, ZSET_TYPE, dest, k) then Lookup(u, k) ==
                Lookup(Removed(s, d, dest, MembersOf(SortedPairs(s, d, dest))), k)
            else Lookup(u, k) == Lookup(s, k)
  {
    hide Apply, AddOps, DeleteOps, SortedPairs, Removed, LastScore, ZOK, ValidStore;
    var t := Apply(s, DeleteOps(s, d, dest));
    var size: Op<Key, Val> := Put(CountKey(d, dest), IntVal(|order|));
    DeletedIs(s, d, dest);
    ClearedIsGone(s, d, dest, k);
    assert k in t <==> Lookup(t, k).Some?;
    ApplyAppend(s, DeleteOps(s, d, dest), AddOps(s, d, dest, order));
    ApplyOne(s, DeleteOps(s, d, dest) + AddOps(s, d, dest, order), size);
    WriteEffect(s, t, d, dest, order, k);
  }

  lemma {:induction false} DistinctLast(order: seq<Pair>, view: map<bytes, int>, m: bytes)
    requires Lists(order, view)
    ensures LastScore(order, m) == if m in view then Some(view[m]) else None
  {
    ListedAt(order, view, m);
    if m in view {
      var j :| 0 <= j < |order| && order[j] == Pair(view[m], m);
      LastIsOnly(order, j);
    } else if LastScore(order, m).Some? {
      LastScoreOccurs(order, m);
    }
  }

  lemma {:induction false} ListedSize(order: seq<Pair>, view: map<bytes, int>)
    requires Lists(order, view)
    ensures |order| == |view|
  {
    var ms, p := MembersOf(order), (m: bytes) => true;
    CountIsDistinct(ms, p);
    CountEvery(ms, p);
    forall m ensures m in Distinct(ms, p) <==> m in view.Keys {
      ListedAt(order, view, m);
      if m in view {
        var j :| 0 <= j < |order| && order[j].member == m;
        assert ms[j] == m;
      }
    }
    assert Distinct(ms, p) == view.Keys;
  }

  lemma StoredKey(s: Store, d: nat, dest: bytes, order: seq<Pair>, view: map<bytes, int>)
    requires ZInv(s, d) && d <= MAX_DATABASES && |dest| <= MAX_KEY_SIZE && Lists(order, view)
    requires forall m :: m in view ==> ValidScore(view[m])
    ensures ZOK(Stored(s, d, dest, order), d, dest) && View(Stored(s, d, dest, order), d, dest) == view
  {
    hide Stored, ZOK, ZInv, SortedPairs, Removed, LastScore;
    var u := Stored(s, d, dest, order);
    forall m ensures Lookup(u, MemberKey(d, dest, m)) == if m in view then Some(IntVal(view[m])) else None
             ensures MemberKey(d, dest, m) in u <==> m in view
             ensures m in view ==> GetInt(u, MemberKey(d, dest, m)) == view[m]
    {
      StoredAt(s, d, dest, order, MemberKey(d, dest, m));
      DistinctLast(order, view, m);
      assert MemberKey(d, dest, m) in u <==> Lookup(u, MemberKey(d, dest, m)).Some?;
    }
    forall sc: int, m: bytes
      ensures ScoreKey(d, dest, sc, m) in u <==> Lookup(u, MemberKey(d, dest, m)) == Some(IntVal(sc))
    {
      StoredAt(s, d, dest, order, ScoreKey(d, dest, sc, m));
      DistinctLast(order, view, m);
      assert ScoreKey(d, dest, sc, m) in u <==> Lookup(u, ScoreKey(d, dest, sc, m)).Some?;
    }
    StoredAt(s, d, dest, order, CountKey(d, dest));
    ListedSize(order, view);
    assert Members(u, d, ZSetColl, dest) == view.Keys;
    assert View(u, d, dest).Keys == view.Keys;
    StoredZOK(u, d, dest, view);
  }

  lemma StoredZOK(u: Store, d: nat, dest: bytes, view: map<bytes, int>)
    requires View(u, d, dest) == view && GetInt(u, CountKey(d, dest)) == |view|
    requires forall m :: m in view ==> ValidScore(view[m])
    requires forall sc: int, m: bytes :: ScoreKey(d, dest, sc, m) in u <==>
              Lookup(u, MemberKey(d, dest, m)) == Some(IntVal(sc))
    ensures ZOK(u, d, dest)
  {
    assert Members(u, d, ZSetColl, dest) == view.Keys;
    forall m: bytes | MemberKey(d, dest, m) in u ensures ValidScore(GetInt(u, MemberKey(d, dest, m))) {
      assert m in view;
    }
  }

  lemma StoredValid(s: Store, d: nat, dest: bytes, order: seq<Pair>, view: map<bytes, int>)
    requires ZInv(s, d) && d <= MAX_DATABASES && |dest| <= MAX_KEY_SIZE && Lists(order, view)
    requires forall m :: m in view ==> ValidScore(view[m])
    ensures ValidStore(Stored(s, d, dest, order))
  {
    hide Stored, ZOK, SortedPairs, LastScore;
    var u := Stored(s, d, dest, order);
    var gone := Removed(s, d, dest, MembersOf(SortedPairs(s, d, dest)));
    RemovedValid(s, d, dest, MembersOf(SortedPairs(s, d, dest)));
    hide Removed;
    forall k | k in u ensures ValidRecord(k, u[k]) {
      StoredAt(s, d, dest, order, k);
      assert Lookup(u, k) == Some(u[k]);
      if k.kind.Item? || k.kind.ZScore? { DistinctLast(order, view, k.kind.member); }
      assert k in s ==> ValidRecord(k, s[k]);
      assert k in gone ==> ValidRecord(k, gone[k]);
    }
  }

  /**
   Whatever the order in which the collected members are written, the destination ends up holding
   exactly them, with both indexes and the size record in agreement and no expiry, and the other
   sorted sets keep their members.
   */
  lemma StoredExact(s: Store, d: nat, dest: bytes, order: seq<Pair>, view: map<bytes, int>)
    requires ZInv(s, d) && d <= MAX_DATABASES && |dest| <= MAX_KEY_SIZE && Lists(order, view)
    requires forall m :: m in view ==> ValidScore(view[m])
    ensures var u := Stored(s, d, dest, order);
            && ZInv(u, d) && View(u, d, dest) == view && ExpMetaKey(d, ZSET_TYPE, dest) !in u
            && (forall other: bytes :: other != dest ==> View(u, d, other) == View(s, d, other))
  {
    hide Stored, ZOK, SortedPairs, Removed, LastScore, ValidStore, View;
    var u := Stored(s, d, dest, order);
    StoredKey(s, d, dest, order, view);
    StoredValid(s, d, dest, order, view);
    forall other: bytes | other != dest ensures ZOK(u, d, other) && View(u, d, other) == View(s, d, other) {
      assert ZOK(s, d, other);
      forall k: Key | IsRecordOf(d, other, k) ensures Lookup(u, k) == Lookup(s, k) {
        StoredAt(s, d, dest, order, k);
      }
      FrameZOK(s, u, d, other);
    }
    StoredAt(s, d, dest, order, ExpMetaKey(d, ZSET_TYPE, dest));
    assert Lookup(u, ExpMetaKey(d, ZSET_TYPE, dest)).None?;
  }
}
