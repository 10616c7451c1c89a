/**
 Sorted-set queries (ledis/t_zset.go): every one of them walks a range of score keys. When the
 indexes agree, each answers from the one sequence of (score, member) pairs in order: slices of it,
 its elements within a score range, positions in it.
 */
module ZQueries {
  import opened Bytes
  import opened Keys
  import opened Batches
  import opened Ranges
  import opened Database
  import opened ZSets
  import opened Counting

  /** zIterator and ZCount differ in whether the stop key, which is never stored, is included. */
  function ScoreRangeOf(d: nat, key: bytes, min: int, max: int, ropen: bool): (r: Range)
    requires IsInt64(min) && IsInt64(max)
  {
    Range(At(StartScoreKey(d, key, min)), At(StopScoreKey(d, key, max)), false, ropen)
  }

  predicate AreScoreKeys(d: nat, key: bytes, ks: seq<Key>) {
    forall i :: 0 <= i < |ks| ==> ks[i].db == d && ks[i].kind.ZScore? && ks[i].kind.key == key
  }

  /** What zDecodeScoreKey yields for each key. */
  function PairsOf(d: nat, key: bytes, ks: seq<Key>): (v: seq<Pair>)
    requires AreScoreKeys(d, key, ks)
    ensures |v| == |ks|
  {
    seq(|ks|, i requires 0 <= i < |ks| => Pair(ks[i].kind.score, ks[i].kind.member))
  }

  predicate Before(p: Pair, q: Pair) {
    PairLt(p.score, p.member, q.score, q.member)
  }

  predicate PairsSorted(v: seq<Pair>) {
    forall i, j :: 0 <= i < j < |v| ==> Before(v[i], v[j])
  }

  /** The pair is a member of the set with that score. */
  predicate IsPairOf(s: Store, d: nat, key: bytes, p: Pair) {
    Lookup(s, MemberKey(d, key, p.member)) == Some(IntVal(p.score))
  }

  // ---------------------------------------------------------------- uniqueness of the order

  lemma BeforeIsStrict(p: Pair, q: Pair)
    ensures !Before(p, p)
    ensures Before(p, q) ==> !Before(q, p)
    ensures p == q || Before(p, q) || Before(q, p)
  {
    LtIrreflexive(p.member);
    LtTotal(p.member, q.member);
    if Lt(p.member, q.member) { LtAsymmetric(p.member, q.member); }
  }

  /** There is one way to list a set of pairs in order. */
  lemma {:induction false} PairsUnique(a: seq<Pair>, b: seq<Pair>)
    requires PairsSorted(a) && PairsSorted(b) && forall p :: p in a <==> p in b
    ensures a == b
  {
    hide Before;
    assert a != [] ==> a[0] in a;
    assert b != [] ==> b[0] in b;
    if a != [] {
      FirstPair(a, b);
      forall p ensures p in a[1..] <==> p in b[1..] {
        PairInTail(a, p);
        PairInTail(b, p);
      }
      PairsUnique(a[1..], b[1..]);
      assert a == [a[0]] + a[1..] && b == [b[0]] + b[1..];
    }
  }

  lemma PairInTail(a: seq<Pair>, p: Pair)
    requires a != [] && PairsSorted(a)
    ensures p in a[1..] <==> p in a && p != a[0]
  {
    hide Before;
    BeforeIsStrict(p, p);
    if p in a[1..] {
      var j :| 0 <= j < |a[1..]| && a[1..][j] == p;
      assert Before(a[0], a[j + 1]);
    }
  }

  lemma FirstPair(a: seq<Pair>, b: seq<Pair>)
    requires PairsSorted(a) && PairsSorted(b) && a != [] && b != [] && forall p :: p in a <==> p in b
    ensures a[0] == b[0]
  {
    hide Before;
    assert a[0] in b && b[0] in a;
    PairInTail(a, b[0]);
    PairInTail(b, a[0]);
    if a[0] != b[0] {
      var i :| 0 <= i < |a[1..]| && a[1..][i] == b[0];
      var j :| 0 <= j < |b[1..]| && b[1..][j] == a[0];
      assert Before(a[0], a[i + 1]) && Before(b[0], b[j + 1]);
      BeforeIsStrict(a[0], b[0]);
    }
  }

  // ---------------------------------------------------------------- ranges of score keys

  /** A range of score keys holds exactly the members scored within it. */
  lemma RangeKeysAre(s: Store, d: nat, key: bytes, min: int, max: int, ropen: bool, k: Key)
    requires ValidStore(s) && |key| < 0x1_0000 && IsInt64(min) && IsInt64(max)
    ensures k in Matching(s, ScoreRangeOf(d, key, min, max, ropen)) <==>
            k in s && k.db == d && k.kind.ZScore? && k.kind.key == key && min <= k.kind.score <= max
  {
    hide Encode, StartScoreKey, StopScoreKey, Lt, Matching;
    MatchingElements(s, ScoreRangeOf(d, key, min, max, ropen), k);
    if k in s {
      assert ValidRecord(k, s[k]);
      ScoreRange(d, key, min, max, k);
    }
  }

  lemma AreScoreKeysIn(s: Store, d: nat, key: bytes, min: int, max: int, ropen: bool)
    requires ValidStore(s) && |key| < 0x1_0000 && IsInt64(min) && IsInt64(max)
    ensures AreScoreKeys(d, key, Matching(s, ScoreRangeOf(d, key, min, max, ropen)))
  {
    hide Matching, ScoreRangeOf;
    var ks := Matching(s, ScoreRangeOf(d, key, min, max, ropen));
    forall i | 0 <= i < |ks| ensures ks[i].db == d && ks[i].kind.ZScore? && ks[i].kind.key == key {
      assert ks[i] in ks;
      RangeKeysAre(s, d, key, min, max, ropen, ks[i]);
    }
  }

  ghost function RangePairs(s: Store, d: nat, key: bytes, min: int, max: int, ropen: bool): (v: seq<Pair>)
    requires ValidStore(s) && |key| < 0x1_0000 && IsInt64(min) && IsInt64(max)
  {
    AreScoreKeysIn(s, d, key, min, max, ropen);
    PairsOf(d, key, Matching(s, ScoreRangeOf(d, key, min, max, ropen)))
  }

  lemma KeysToPairs(d: nat, key: bytes, ks: seq<Key>, p: Pair)
    requires AreScoreKeys(d, key, ks)
    ensures p in PairsOf(d, key, ks) <==> ScoreKey(d, key, p.score, p.member) in ks
  {
    var v, sk := PairsOf(d, key, ks), ScoreKey(d, key, p.score, p.member);
    if p in v {
      var i :| 0 <= i < |v| && v[i] == p;
      assert ks[i] == sk;
    }
    if sk in ks {
      var i :| 0 <= i < |ks| && ks[i] == sk;
      assert v[i] == p;
    }
  }

  /** Byte order of the keys is order of the pairs. */
  lemma KeysToSortedPairs(s: Store, d: nat, key: bytes, r: Range)
    requires ValidStore(s) && AreScoreKeys(d, key, Matching(s, r))
    ensures PairsSorted(PairsOf(d, key, Matching(s, r)))
  {
    hide Encode, Lt, Matching;
    var ks := Matching(s, r);
    forall i, j | 0 <= i < j < |ks| ensures Before(PairsOf(d, key, ks)[i], PairsOf(d, key, ks)[j]) {
      MatchingSorted(s, r, i, j);
      var a, b := ks[i].kind, ks[j].kind;
      assert ValidRecord(ks[i], s[ks[i]]) && ValidRecord(ks[j], s[ks[j]]);
      assert ks[i] == Key(d, ZScore(key, a.score, a.member)) && ks[j] == Key(d, ZScore(key, b.score, b.member));
      ScoreKeyOrder(d, key, a.score, a.member, b.score, b.member);
    }
  }

  lemma RangePairsAre(s: Store, d: nat, key: bytes, min: int, max: int, ropen: bool)
    requires ValidStore(s) && ZOK(s, d, key) && |key| < 0x1_0000 && IsInt64(min) && IsInt64(max)
    ensures PairsSorted(RangePairs(s, d, key, min, max, ropen))
    ensures forall p :: p in RangePairs(s, d, key, min, max, ropen) <==> IsPairOf(s, d, key, p) && min <= p.score <= max
  {
    hide Matching, ScoreRangeOf, ScoresOK, SizeOK, Before;
    AreScoreKeysIn(s, d, key, min, max, ropen);
    var r := ScoreRangeOf(d, key, min, max, ropen);
    KeysToSortedPairs(s, d, key, r);
    forall p ensures p in RangePairs(s, d, key, min, max, ropen) <==> IsPairOf(s, d, key, p) && min <= p.score <= max {
      var sk := ScoreKey(d, key, p.score, p.member);
      KeysToPairs(d, key, Matching(s, r), p);
      RangeKeysAre(s, d, key, min, max, ropen, sk);
      assert sk in s <==> IsPairOf(s, d, key, p);
    }
  }

  /** The sorted set as a sequence: all its pairs, in order. */
  ghost function SortedPairs(s: Store, d: nat, key: bytes): (v: seq<Pair>)
    requires ValidStore(s) && |key| < 0x1_0000
  {
    RangePairs(s, d, key, MIN_SCORE, MAX_SCORE, false)
  }

  lemma SortedPairsAre(s: Store, d: nat, key: bytes)
    requires ValidStore(s) && ZOK(s, d, key) && |key| < 0x1_0000
    ensures PairsSorted(SortedPairs(s, d, key))
    ensures forall p :: p in SortedPairs(s, d, key) <==> IsPairOf(s, d, key, p)
  {
    hide RangePairs, SizeOK, IndexOK, Before;
    RangePairsAre(s, d, key, MIN_SCORE, MAX_SCORE, false);
    forall p ensures p in SortedPairs(s, d, key) <==> IsPairOf(s, d, key, p) {
      if IsPairOf(s, d, key, p) {
        assert MemberKey(d, key, p.member) in s && GetInt(s, MemberKey(d, key, p.member)) == p.score;
      }
    }
  }

  function FilterPairs(v: seq<Pair>, min: int, max: int): (r: seq<Pair>) {
    if v == [] then []
    else (if min <= v[0].score <= max then [v[0]] else []) + FilterPairs(v[1..], min, max)
  }

  lemma {:induction false} FilterPairsAre(v: seq<Pair>, min: int, max: int, p: Pair)
    ensures p in FilterPairs(v, min, max) <==> p in v && min <= p.score <= max
  {
    if v != [] {
      FilterPairsAre(v[1..], min, max, p);
      assert p in v <==> p == v[0] || p in v[1..];
    }
  }

  lemma {:induction false} FilterPairsSorted(v: seq<Pair>, min: int, max: int)
    requires PairsSorted(v)
    ensures PairsSorted(FilterPairs(v, min, max))
  {
    hide Before;
    if v != [] {
      FilterPairsSorted(v[1..], min, max);
      var rest := FilterPairs(v[1..], min, max);
      forall i | 0 <= i < |rest| ensures Before(v[0], rest[i]) {
        FilterPairsAre(v[1..], min, max, rest[i]);
        var j :| 0 <= j < |v[1..]| && v[1..][j] == rest[i];
        assert Before(v[0], v[j + 1]);
      }
    }
  }

  /** Walking a score range yields the sequence's pairs with a score in the range. */
  lemma RangeIsFilter(s: Store, d: nat, key: bytes, min: int, max: int, ropen: bool)
    requires ValidStore(s) && ZOK(s, d, key) && |key| < 0x1_0000 && IsInt64(min) && IsInt64(max)
    ensures RangePairs(s, d, key, min, max, ropen) == FilterPairs(SortedPairs(s, d, key), min, max)
  {
    hide RangePairs, SortedPairs, ZOK, Before, PairsSorted;
    RangePairsAre(s, d, key, min, max, ropen);
    SortedPairsAre(s, d, key);
    var v := SortedPairs(s, d, key);
    FilterPairsSorted(v, min, max);
    forall p ensures p in FilterPairs(v, min, max) <==> p in RangePairs(s, d, key, min, max, ropen) {
      FilterPairsAre(v, min, max, p);
    }
    PairsUnique(RangePairs(s, d, key, min, max, ropen), FilterPairs(v, min, max));
  }

  // ---------------------------------------------------------------- ZCount, ZRange and friends

  function Directed<T>(v: seq<T>, reverse: bool): (r: seq<T>) {
    if reverse then Reverse(v) else v
  }

  /** The part of a sequence that an offset and a count select; a negative offset selects nothing. */
  function Window<T>(v: seq<T>, offset: int, count: int): (r: seq<T>) {
    if offset < 0 then [] else Take(Drop(v, offset), count)
  }

  lemma ReversePairsOf(d: nat, key: bytes, ks: seq<Key>)
    requires AreScoreKeys(d, key, ks)
    ensures AreScoreKeys(d, key, Reverse(ks)) && PairsOf(d, key, Reverse(ks)) == Reverse(PairsOf(d, key, ks))
  {
    hide Reverse;
    forall i | 0 <= i < |ks| ensures Reverse(ks)[i] == ks[|ks| - 1 - i] {
      ReverseAt(ks, i);
    }
    forall i | 0 <= i < |ks| ensures PairsOf(d, key, Reverse(ks))[i] == Reverse(PairsOf(d, key, ks))[i] {
      ReverseAt(PairsOf(d, key, ks), i);
    }
  }

  /** A limited walk over a range, in pairs. */
  lemma QueryPairs(s: Store, d: nat, key: bytes, min: int, max: int, ropen: bool, offset: int, count: int,
        backward: bool)
    requires ValidStore(s) && |key| < 0x1_0000 && IsInt64(min) && IsInt64(max)
    ensures var ks := Query(s, ScoreRangeOf(d, key, min, max, ropen), Limit(offset, count), backward);
            && AreScoreKeys(d, key, ks)
            && PairsOf(d, key, ks) == Window(Directed(RangePairs(s, d, key, min, max, ropen), backward), offset, count)
  {
    hide Matching, ScoreRangeOf, Reverse;
    AreScoreKeysIn(s, d, key, min, max, ropen);
    ReversePairsOf(d, key, Matching(s, ScoreRangeOf(d, key, min, max, ropen)));
  }

  /** ZCount: the number of members scored within the bounds. */
  method ZCount(s: Store, d: nat, key: bytes, min: int, max: int) returns (r: Reply<int>)
    requires ValidStore(s) && ZOK(s, d, key) && IsInt64(min) && IsInt64(max)
    ensures r == if !KeySizeOK(key) then Fail(ErrKeySize) else Done(|FilterPairs(SortedPairs(s, d, key), min, max)|)
  {
    hide ZOK, Query, RangePairs, SortedPairs, FilterPairs;
    if !KeySizeOK(key) {
      return Fail(ErrKeySize);
    }
    QueryPairs(s, d, key, min, max, true, 0, -1, false);
    RangeIsFilter(s, d, key, min, max, true);
    var ks := RangeKeys(s, ScoreRangeOf(d, key, min, max, true), Limit(0, -1), false);
    var n := 0;
    for i := 0 to |ks|
      invariant n == i
    {
      n := n + 1;
    }
    r := Done(n);
  }

  /** The swap loop of zRange. */
  method ReverseInPlace(a: array<Pair>)
    modifies a
    ensures a[..] == Reverse(old(a[..]))
  {
    var i, j := 0, a.Length - 1;
    while i < j
      invariant 0 <= i <= j + 1 <= a.Length && i + j == a.Length - 1
      invariant forall k :: 0 <= k < i ==> a[k] == old(a[a.Length - 1 - k]) && a[a.Length - 1 - k] == old(a[k])
      invariant forall k :: i <= k <= j ==> a[k] == old(a[k])
    {
      a[i], a[j] := a[j], a[i];
      i, j := i + 1, j - 1;
    }
    hide Reverse;
    ghost var was := old(a[..]);
    forall k | 0 <= k < a.Length ensures a[..][k] == Reverse(was)[k] {
      ReverseAt(was, k);
    }
  }

  /**
   zRange: a window of the pairs scored within the bounds, highest first when reversed. Without an
   offset or a count the code walks forward and turns the result round.
   */
  method RangeByScore(s: Store, d: nat, key: bytes, min: int, max: int, offset: int, count: int, reverse: bool)
    returns (r: Reply<seq<Pair>>)
    requires ValidStore(s) && ZOK(s, d, key) && IsInt64(min) && IsInt64(max)
    ensures r == if |key| > MAX_KEY_SIZE then Fail(ErrKeySize)
                 else Done(Window(Directed(FilterPairs(SortedPairs(s, d, key), min, max), reverse), offset, count))
  {
    hide ZOK, Query, RangePairs, SortedPairs, FilterPairs, Reverse;
    if |key| > MAX_KEY_SIZE {
      return Fail(ErrKeySize);
    }
    if offset < 0 {
      return Done([]);
    }
    var turn := reverse && offset == 0 && count < 0;
    QueryPairs(s, d, key, min, max, false, offset, count, reverse && !turn);
    RangeIsFilter(s, d, key, min, max, false);
    var ks := RangeKeys(s, ScoreRangeOf(d, key, min, max, false), Limit(offset, count), reverse && !turn);
    var v: seq<Pair> := [];
    for i := 0 to |ks|
      invariant |v| == i && forall j :: 0 <= j < i ==> v[j] == PairsOf(d, key, ks)[j]
    {
      v := v + [Pair(ks[i].kind.score, ks[i].kind.member)];
    }
    assert v == PairsOf(d, key, ks);
    if turn {
      var a := new Pair[|v|](i requires 0 <= i < |v| => v[i]);
      assert a[..] == v;
      ReverseInPlace(a);
      v := a[..];
    }
    r := Done(v);
  }

  // ---------------------------------------------------------------- ranks

  /** zParseLimit, with the wrap-around of a count that does not fit. */
  function ParseLimit(s: Store, d: nat, key: bytes, start: int, stop: int): (r: Reply<(int, int)>) {
    if start >= 0 && stop >= 0 then
      (if start > stop then Done((-1, 0)) else Done((start, Wrap64(stop - start + 1))))
    else if !KeySizeOK(key) then Fail(ErrKeySize)
    else
      var llen := GetInt(s, CountKey(d, key));
      var from := if start < 0 then llen + start else start;
      var to := if stop < 0 then llen + stop else stop;
      var lo := if from < 0 then 0 else from;
      if lo >= llen || lo > to then Done((-1, 0)) else Done((lo, Wrap64(to - lo + 1)))
  }

  lemma ParseLimitIsRankSlice(s: Store, d: nat, key: bytes, v: seq<Pair>, start: int, stop: int)
    requires IsInt64(start) && IsInt64(stop) && |v| == GetInt(s, CountKey(d, key)) && |v| < TWO_63
    requires ParseLimit(s, d, key, start, stop).Done?
    ensures var w := ParseLimit(s, d, key, start, stop).value;
            Window(v, w.0, w.1) == RankSlice(v, start, stop)
  {
  }

  lemma PairsAreMembers(s: Store, d: nat, key: bytes)
    requires ValidStore(s) && ZOK(s, d, key) && |key| < 0x1_0000
    ensures |SortedPairs(s, d, key)| == |Members(s, d, ZSetColl, key)| == GetInt(s, CountKey(d, key))
  {
    hide SortedPairs, Before, IndexOK, ScoresOK, ValidStore;
    SortedPairsAre(s, d, key);
    var v := SortedPairs(s, d, key);
    var ms, p := MembersOf(v), (m: bytes) => true;
    DistinctMembers(s, d, key, v);
    CountIsDistinct(ms, p);
    CountEvery(ms, p);
    forall m ensures m in Distinct(ms, p) <==> m in Members(s, d, ZSetColl, key) {
      if m in ms {
        var i :| 0 <= i < |ms| && ms[i] == m;
        assert v[i] in v;
      }
      if MemberKey(d, key, m) in s {
        StoredPair(s, d, key, m);
        var i :| 0 <= i < |v| && v[i] == Pair(GetInt(s, MemberKey(d, key, m)), m);
        assert ms[i] == m;
      }
    }
    assert Distinct(ms, p) == Members(s, d, ZSetColl, key);
  }

  /** A member occurs in one pair only. */
  lemma DistinctMembers(s: Store, d: nat, key: bytes, v: seq<Pair>)
    requires PairsSorted(v) && forall p :: p in v ==> IsPairOf(s, d, key, p)
    ensures forall i, j :: 0 <= i < j < |v| ==> v[i].member != v[j].member
  {
    hide Before;
    forall i, j | 0 <= i < j < |v| ensures v[i].member != v[j].member {
      assert v[i] in v && v[j] in v && Before(v[i], v[j]);
      BeforeIsStrict(v[i], v[i]);
      assert IsPairOf(s, d, key, v[i]) && IsPairOf(s, d, key, v[j]);
    }
  }

  lemma StoredPair(s: Store, d: nat, key: bytes, m: bytes)
    requires ValidStore(s) && MemberKey(d, key, m) in s
    ensures IsPairOf(s, d, key, Pair(GetInt(s, MemberKey(d, key, m)), m))
  {
    assert ValidRecord(MemberKey(d, key, m), s[MemberKey(d, key, m)]);
  }

  /** ZRange and ZRevRange: the pairs with ranks from `start` to `stop`, by the Redis rule. */
  method RangeByRank(s: Store, d: nat, key: bytes, start: int, stop: int, reverse: bool) returns (r: Reply<seq<Pair>>)
    requires ValidStore(s) && ZOK(s, d, key) && IsInt64(start) && IsInt64(stop)
    requires |Members(s, d, ZSetColl, key)| < TWO_63
    ensures r == if |key| > MAX_KEY_SIZE || (key == [] && (start < 0 || stop < 0)) then Fail(ErrKeySize)
                 else Done(RankSlice(Directed(SortedPairs(s, d, key), reverse), start, stop))
  {
    hide ZOK, SortedPairs, Window, RankSlice, FilterPairs;
    var limit := ParseLimit(s, d, key, start, stop);
    if limit.Fail? {
      return Fail(limit.error);
    }
    r := RangeByScore(s, d, key, MIN_SCORE, MAX_SCORE, limit.value.0, limit.value.1, reverse);
    if r.Done? {
      PairsAreMembers(s, d, key);
      RangeIsFilter(s, d, key, MIN_SCORE, MAX_SCORE, false);
      SortedPairsIsRange(s, d, key);
      ParseLimitIsRankSlice(s, d, key, Directed(SortedPairs(s, d, key), reverse), start, stop);
    }
  }

  lemma SortedPairsIsRange(s: Store, d: nat, key: bytes)
    requires ValidStore(s) && |key| < 0x1_0000
    ensures SortedPairs(s, d, key) == RangePairs(s, d, key, MIN_SCORE, MAX_SCORE, false)
  {
  }

  // ---------------------------------------------------------------- ZRank

  /** The position of a member in the sequence, or -1. */
  function RankOf(v: seq<Pair>, m: bytes): (i: int)
    ensures -1 <= i < |v|
    ensures i >= 0 ==> v[i].member == m
    ensures i == -1 ==> forall j :: 0 <= j < |v| ==> v[j].member != m
  {
    if v == [] then -1
    else if v[|v| - 1].member == m then |v| - 1
    else RankOf(v[..|v| - 1], m)
  }

  /** The reply of ZRANK, or of ZREVRANK: how many pairs come before the member, or -1. */
  function RankFrom(v: seq<Pair>, m: bytes, reverse: bool): (i: int)
    ensures -1 <= i < |v|
    ensures i >= 0 ==> v[if reverse then |v| - 1 - i else i].member == m
  {
    var i := RankOf(v, m);
    if i < 0 then -1 else if reverse then |v| - 1 - i else i
  }

  /** The two ranges zrank counts: up to the member's own score key, or from it on. */
  function RankRange(d: nat, key: bytes, q: Pair, reverse: bool): (r: Range)
    requires ValidKey(ScoreKey(d, key, q.score, q.member))
  {
    var sk := Encode(ScoreKey(d, key, q.score, q.member));
    if reverse then Range(At(sk), At(StopScoreKey(d, key, MAX_SCORE)), false, false)
    else Range(At(StartScoreKey(d, key, MIN_SCORE)), At(sk), false, false)
  }

  lemma RankRangeContains(d: nat, key: bytes, q: Pair, reverse: bool, k: Key)
    requires ValidKey(ScoreKey(d, key, q.score, q.member)) && ValidKey(k) && MIN_SCORE <= q.score <= MAX_SCORE
    ensures RankRange(d, key, q, reverse).Contains(Encode(k)) <==>
            && k.db == d && k.kind.ZScore? && k.kind.key == key && MIN_SCORE <= k.kind.score <= MAX_SCORE
            && var p := Pair(k.kind.score, k.kind.member);
               p == q || (if reverse then Before(q, p) else Before(p, q))
  {
    hide Encode, StartScoreKey, StopScoreKey, Lt;
    var sk := ScoreKey(d, key, q.score, q.member);
    var lo, hi, e, x := StartScoreKey(d, key, MIN_SCORE), StopScoreKey(d, key, MAX_SCORE), Encode(k), Encode(sk);
    ScoreRange(d, key, MIN_SCORE, MAX_SCORE, k);
    ScoreRange(d, key, MIN_SCORE, MAX_SCORE, sk);
    if Le(x, e) && x != e { LeLtTransitive(lo, x, e); }
    if Le(e, x) && x != e { LeLtTransitive(e, x, hi); }
    if x == e { EncodeInjective(k, sk); }
    if k.db == d && k.kind.ZScore? && k.kind.key == key {
      ScoreKeyOrder(d, key, k.kind.score, k.kind.member, q.score, q.member);
      ScoreKeyOrder(d, key, q.score, q.member, k.kind.score, k.kind.member);
      assert k == Key(d, ZScore(key, k.kind.score, k.kind.member));
    }
  }

  lemma RankKeys(s: Store, d: nat, key: bytes, q: Pair, reverse: bool)
    requires ValidStore(s) && ZOK(s, d, key) && IsPairOf(s, d, key, q) && |key| < 0x1_0000 && d <= MAX_DATABASES
    ensures ValidKey(ScoreKey(d, key, q.score, q.member)) && ValidScore(q.score)
    ensures AreScoreKeys(d, key, Matching(s, RankRange(d, key, q, reverse)))
    ensures PairsSorted(PairsOf(d, key, Matching(s, RankRange(d, key, q, reverse))))
    ensures forall p :: p in PairsOf(d, key, Matching(s, RankRange(d, key, q, reverse))) <==>
              IsPairOf(s, d, key, p) && (p == q || (if reverse then Before(q, p) else Before(p, q)))
  {
    hide Matching, Encode, Lt, Before, SizeOK, RankRange;
    var ek := MemberKey(d, key, q.member);
    assert ek in s && GetInt(s, ek) == q.score;
    var r := RankRange(d, key, q, reverse);
    var ks := Matching(s, r);
    forall k: Key ensures k in ks ==> k.db == d && k.kind.ZScore? && k.kind.key == key {
      MatchingElements(s, r, k);
      if k in s { assert ValidRecord(k, s[k]); RankRangeContains(d, key, q, reverse, k); }
    }
    assert forall i :: 0 <= i < |ks| ==> ks[i] in ks;
    KeysToSortedPairs(s, d, key, r);
    forall p ensures p in PairsOf(d, key, ks) <==>
              IsPairOf(s, d, key, p) && (p == q || (if reverse then Before(q, p) else Before(p, q)))
    {
      RankKeyAt(s, d, key, q, reverse, p);
    }
  }

  lemma RankKeyAt(s: Store, d: nat, key: bytes, q: Pair, reverse: bool, p: Pair)
    requires ValidStore(s) && ZOK(s, d, key) && ValidScore(q.score) && |key| < 0x1_0000 && d <= MAX_DATABASES
    requires AreScoreKeys(d, key, Matching(s, RankRange(d, key, q, reverse)))
    ensures p in PairsOf(d, key, Matching(s, RankRange(d, key, q, reverse))) <==>
            IsPairOf(s, d, key, p) && (p == q || (if reverse then Before(q, p) else Before(p, q)))
  {
    hide Matching, Encode, Lt, Before, SizeOK, RankRange;
    var sk, r := ScoreKey(d, key, p.score, p.member), RankRange(d, key, q, reverse);
    KeysToPairs(d, key, Matching(s, r), p);
    MatchingElements(s, r, sk);
    assert sk in s <==> IsPairOf(s, d, key, p);
    if sk in s {
      assert ValidRecord(sk, s[sk]);
      assert GetInt(s, MemberKey(d, key, p.member)) == p.score && MemberKey(d, key, p.member) in s;
      RankRangeContains(d, key, q, reverse, sk);
    }
  }

  /** The keys counted are those of the pairs up to the member's position, or from it on. */
  lemma RankPairs(s: Store, d: nat, key: bytes, q: Pair, reverse: bool)
    requires ValidStore(s) && ZOK(s, d, key) && IsPairOf(s, d, key, q) && |key| < 0x1_0000 && d <= MAX_DATABASES
    ensures ValidKey(ScoreKey(d, key, q.score, q.member))
    ensures AreScoreKeys(d, key, Matching(s, RankRange(d, key, q, reverse)))
    ensures var v := SortedPairs(s, d, key);
            var i := RankOf(v, q.member);
            i >= 0 && v[i] == q && PairsOf(d, key, Matching(s, RankRange(d, key, q, reverse))) == if reverse then v[i..]
                else v[..i + 1]
  {
    hide Matching, RankRange, Before, SortedPairs, ZOK, ValidStore;
    RankKeys(s, d, key, q, reverse);
    SortedPairsAre(s, d, key);
    var v := SortedPairs(s, d, key);
    assert q in v;
    var j :| 0 <= j < |v| && v[j] == q;
    DistinctMembers(s, d, key, v);
    var i := RankOf(v, q.member);
    assert i == j;
    var part := if reverse then v[i..] else v[..i + 1];
    forall p
      ensures p in part <==> IsPairOf(s, d, key, p) && (p == q || (if reverse then Before(q, p) else Before(p, q)))
    {
      SplitAt(v, i, p, reverse);
    }
    PairsUnique(PairsOf(d, key, Matching(s, RankRange(d, key, q, reverse))), part);
  }

  lemma SplitAt(v: seq<Pair>, i: int, p: Pair, reverse: bool)
    requires PairsSorted(v) && 0 <= i < |v|
    ensures p in (if reverse then v[i..] else v[..i + 1]) <==>
            p in v && (p == v[i] || (if reverse then Before(v[i], p) else Before(p, v[i])))
  {
    hide Before;
    var part := if reverse then v[i..] else v[..i + 1];
    if p in v {
      var j :| 0 <= j < |v| && v[j] == p;
      BeforeIsStrict(v[i], p);
      BeforeIsStrict(p, v[i]);
      if reverse && j >= i { assert part[j - i] == p; }
      if !reverse && j <= i { assert part[j] == p; }
    }
    if p in part {
      var j :| 0 <= j < |part| && part[j] == p;
      assert p == v[if reverse then i + j else j];
    }
  }

  /** ZRank and ZRevRank: the member's position in the sequence, from the front or from the back. */
  method Rank(s: Store, d: nat, key: bytes, m: bytes, reverse: bool) returns (r: Reply<int>)
    requires ValidStore(s) && ZOK(s, d, key) && d <= MAX_DATABASES
    ensures !KeySizeOK(key) ==> r == Fail(ErrKeySize)
    ensures KeySizeOK(key) && !MemberSizeOK(m) ==> r == Fail(ErrMemberSize)
    ensures KeySizeOK(key) && MemberSizeOK(m) ==>
              r == Done(RankFrom(SortedPairs(s, d, key), m, reverse))
  {
    hide Query, RankRange, SortedPairs, Encode, Matching, IndexOK, ScoresOK, SizeOK, Before;
    if !KeySizeOK(key) {
      return Fail(ErrKeySize);
    }
    if !MemberSizeOK(m) {
      return Fail(ErrMemberSize);
    }
    var ek := MemberKey(d, key, m);
    if ek !in s {
      NotRanked(s, d, key, m);
      return Done(-1);
    }
    var q := Pair(GetInt(s, ek), m);
    StoredPair(s, d, key, m);
    RankPairs(s, d, key, q, reverse);
    var ks := RangeKeys(s, RankRange(d, key, q, reverse), Limit(0, -1), reverse);
    QueryAll(s, RankRange(d, key, q, reverse), reverse);
    ReversePairsOf(d, key, Matching(s, RankRange(d, key, q, reverse)));
    ghost var v := PairsOf(d, key, Matching(s, RankRange(d, key, q, reverse)));
    if reverse { ReverseAt(Matching(s, RankRange(d, key, q, reverse)), |v| - 1); }
    var last: Option<bytes> := None;
    var n := 0;
    for i := 0 to |ks|
      invariant n == i && (i > 0 ==> last == Some(ks[i - 1].kind.member))
      invariant AreScoreKeys(d, key, ks)
    {
      n := n + 1;
      last := Some(ks[i].kind.member);
    }
    if last == Some(m) {
      return Done(n - 1);
    }
    return Done(-1);
  }

  lemma NotRanked(s: Store, d: nat, key: bytes, m: bytes)
    requires ValidStore(s) && ZOK(s, d, key) && |key| < 0x1_0000 && MemberKey(d, key, m) !in s
    ensures RankOf(SortedPairs(s, d, key), m) == -1
  {
    hide SortedPairs, ZOK, ValidStore;
    SortedPairsAre(s, d, key);
    var v := SortedPairs(s, d, key);
    var i := RankOf(v, m);
    if i >= 0 { assert v[i] in v; }
  }

  /** The ranks that ZRANK and ZREVRANK reply for a stored member add up to the size less one. */
  lemma RanksAddUp(s: Store, d: nat, key: bytes, m: bytes)
    requires ValidStore(s) && ZOK(s, d, key) && |key| < 0x1_0000 && MemberKey(d, key, m) in s
    ensures var v := SortedPairs(s, d, key);
            && RankFrom(v, m, false) >= 0 && RankFrom(v, m, true) >= 0
            && RankFrom(v, m, false) + RankFrom(v, m, true) == GetInt(s, CountKey(d, key)) - 1
  {
    hide SortedPairs, ZOK, ValidStore;
    PairsAreMembers(s, d, key);
    StoredPair(s, d, key, m);
    SortedPairsAre(s, d, key);
    RankOfPair(SortedPairs(s, d, key), Pair(GetInt(s, MemberKey(d, key, m)), m));
  }

  lemma RankOfPair(v: seq<Pair>, p: Pair)
    requires p in v
    ensures 0 <= RankOf(v, p.member) < |v|
  {
    var j :| 0 <= j < |v| && v[j] == p;
    assert v[j].member == p.member;
  }
}
