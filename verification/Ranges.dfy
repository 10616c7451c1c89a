/**
 What a range query over an ordered key space means: the sorted keys, the ones inside the bounds,
 reversed for a backward query, less an offset, cut to a count.
 */
module Ranges {
  import opened Bytes

  datatype Bound = Unbounded | At(key: bytes)

  /** store.Range with its type bits: `lopen` excludes the lower end, `ropen` the upper end. */
  datatype Range = Range(min: Bound, max: Bound, lopen: bool, ropen: bool) {
    predicate AboveMin(k: bytes) {
      min.At? ==> if lopen then Lt(min.key, k) else Le(min.key, k)
    }

    predicate BelowMax(k: bytes) {
      max.At? ==> if ropen then Lt(k, max.key) else Le(k, max.key)
    }

    predicate Contains(k: bytes) {
      AboveMin(k) && BelowMax(k)
    }
  }

  datatype Limit = Limit(offset: int, count: int)

  /** Strictly increasing, element by element; `Ascending` says the same of every pair. */
  predicate Sorted(ks: seq<bytes>) {
    |ks| <= 1 || (Lt(ks[0], ks[1]) && Sorted(ks[1..]))
  }

  predicate Ascending(ks: seq<bytes>) {
    forall i, j :: 0 <= i < j < |ks| ==> Lt(ks[i], ks[j])
  }

  lemma {:induction false} SortedIsAscending(ks: seq<bytes>)
    ensures Sorted(ks) <==> Ascending(ks)
  {
    if |ks| > 1 {
      var t := ks[1..];
      SortedIsAscending(t);
      if Lt(ks[0], ks[1]) && Ascending(t) {
        forall j | 1 < j < |ks| ensures Lt(ks[0], ks[j]) {
          assert Lt(t[0], t[j - 1]);
          LtTransitive(ks[0], ks[1], ks[j]);
        }
        forall i, j | 0 < i < j < |ks| ensures Lt(ks[i], ks[j]) {
          assert Lt(t[i - 1], t[j - 1]);
        }
      }
      if Ascending(ks) {
        forall i, j | 0 <= i < j < |t| ensures Lt(t[i], t[j]) {
          assert Lt(ks[i + 1], ks[j + 1]);
        }
      }
    }
  }

  lemma SortedSlice(ks: seq<bytes>, lo: int, hi: int)
    requires Sorted(ks) && 0 <= lo <= hi <= |ks|
    ensures Sorted(ks[lo..hi])
  {
    SortedIsAscending(ks);
    SortedIsAscending(ks[lo..hi]);
  }

  function Reverse<T>(s: seq<T>): (r: seq<T>)
    ensures |r| == |s|
  {
    if s == [] then [] else [s[|s| - 1]] + Reverse(s[..|s| - 1])
  }

  function Select(ks: seq<bytes>, r: Range): (res: seq<bytes>) {
    if ks == [] then []
    else (if r.Contains(ks[0]) then [ks[0]] else []) + Select(ks[1..], r)
  }

  function Drop<T>(s: seq<T>, n: nat): (r: seq<T>)
    ensures |r| == if n <= |s| then |s| - n else 0
  {
    if n <= |s| then s[n..] else []
  }

  /** A negative count is no limit. */
  function Take<T>(s: seq<T>, n: int): (r: seq<T>)
    ensures |r| == if 0 <= n <= |s| then n else |s|
    ensures n < 0 || n >= |s| ==> r == s
  {
    if 0 <= n <= |s| then s[..n] else s
  }

  /** The Redis rule for ranks: negative ranks count from the end, both ends are included. */
  function RankWindow(n: int, start: int, stop: int): (w: (int, int))
    ensures 0 <= n ==> 0 <= w.0 <= w.1 <= n
  {
    var from := if start < 0 then n + start else start;
    var lo := if from < 0 then 0 else from;
    var hi := if stop < 0 then n + stop else stop;
    if lo > hi || lo >= n then (0, 0) else (lo, if hi >= n then n else hi + 1)
  }

  function RankSlice<T>(v: seq<T>, start: int, stop: int): (r: seq<T>) {
    var w := RankWindow(|v|, start, stop);
    v[w.0..w.1]
  }

  /** The reference meaning of a range/limit iteration over the sorted keys `ks`. */
  function Visited(ks: seq<bytes>, r: Range, l: Limit, backward: bool): (res: seq<bytes>) {
    if l.offset < 0 then []
    else Take(Drop(Directed(ks, r, backward), l.offset), l.count)
  }

  function Directed(ks: seq<bytes>, r: Range, backward: bool): (res: seq<bytes>) {
    if backward then Reverse(Select(ks, r)) else Select(ks, r)
  }

  lemma {:induction false} ReverseAt<T>(s: seq<T>, i: int)
    requires 0 <= i < |s|
    ensures Reverse(s)[i] == s[|s| - 1 - i]
  {
    if i > 0 { ReverseAt(s[..|s| - 1], i - 1); }
  }

  lemma ReverseAppend<T>(a: seq<T>, x: T)
    ensures Reverse(a + [x]) == [x] + Reverse(a)
  {
    assert (a + [x])[..|a|] == a;
  }

  lemma {:induction false} SelectElements(ks: seq<bytes>, r: Range, k: bytes)
    ensures k in Select(ks, r) <==> k in ks && r.Contains(k)
  {
    if ks != [] {
      SelectElements(ks[1..], r, k);
      assert k in ks <==> k == ks[0] || k in ks[1..];
    }
  }

  lemma {:induction false} SelectSorted(ks: seq<bytes>, r: Range)
    requires Sorted(ks)
    ensures Sorted(Select(ks, r))
  {
    if ks != [] {
      SelectSorted(ks[1..], r);
      var rest := Select(ks[1..], r);
      assert [] + rest == rest;
      if rest != [] {
        SelectElements(ks[1..], r, rest[0]);
        var j :| 0 <= j < |ks[1..]| && ks[1..][j] == rest[0];
        SortedIsAscending(ks);
        assert Lt(ks[0], ks[j + 1]);
        assert ([ks[0]] + rest)[1..] == rest;
      }
    }
  }

  /** A range whose ends are in the wrong order is empty. */
  lemma InvertedRange(ks: seq<bytes>, r: Range, l: Limit, backward: bool)
    requires r.min.At? && r.max.At? && Lt(r.max.key, r.min.key)
    ensures Visited(ks, r, l, backward) == []
  {
    var inside := Select(ks, r);
    if inside != [] {
      var k := inside[0];
      SelectElements(ks, r, k);
      LeLtTransitive(r.max.key, r.min.key, k);
      LeLtTransitive(r.max.key, k, r.max.key);
      LtIrreflexive(r.max.key);
      assert false;
    }
  }

  /** A sorted sequence is determined by its elements. */
  lemma {:induction false} SortedUnique(a: seq<bytes>, b: seq<bytes>)
    requires Sorted(a) && Sorted(b)
    requires forall k :: k in a <==> k in b
    ensures a == b
  {
    BothEmpty(a, b);
    if a != [] {
      SameFirst(a, b);
      forall k ensures k in a[1..] <==> k in b[1..] {
        InTail(a, k);
        InTail(b, k);
      }
      SortedUnique(a[1..], b[1..]);
      assert a == [a[0]] + a[1..] && b == [b[0]] + b[1..];
    }
  }

  lemma BothEmpty(a: seq<bytes>, b: seq<bytes>)
    requires forall k :: k in a <==> k in b
    ensures a == [] <==> b == []
  {
    assert a != [] ==> a[0] in a;
    assert b != [] ==> b[0] in b;
  }

  lemma InTail(a: seq<bytes>, k: bytes)
    requires a != [] && Sorted(a)
    ensures k in a[1..] <==> k in a && k != a[0]
  {
    SortedIsAscending(a);
    LtIrreflexive(k);
    if k in a[1..] {
      var j :| 0 <= j < |a[1..]| && a[1..][j] == k;
      assert Lt(a[0], a[j + 1]);
    }
  }

  lemma SameFirst(a: seq<bytes>, b: seq<bytes>)
    requires Sorted(a) && Sorted(b) && a != [] && b != []
    requires forall k :: k in a <==> k in b
    ensures a[0] == b[0]
  {
    SortedIsAscending(a);
    SortedIsAscending(b);
    assert a[0] in b && b[0] in a;
    InTail(a, b[0]);
    InTail(b, a[0]);
    if a[0] != b[0] {
      var j :| 0 <= j < |a[1..]| && a[1..][j] == b[0];
      var i :| 0 <= i < |b[1..]| && b[1..][i] == a[0];
      assert Lt(a[0], a[j + 1]) && Lt(b[0], b[i + 1]);
      LtAsymmetric(a[0], b[0]);
    }
  }

  /** `lo` and `hi` cut the sorted keys at the two ends of the range. */
  ghost predicate Cut(ks: seq<bytes>, r: Range, lo: int, hi: int) {
    && 0 <= lo <= |ks| && 0 <= hi <= |ks|
    && (forall i :: 0 <= i < |ks| ==> (r.AboveMin(ks[i]) <==> lo <= i))
    && (forall i :: 0 <= i < |ks| ==> (r.BelowMax(ks[i]) <==> i < hi))
  }

  function Slice<T>(s: seq<T>, lo: int, hi: int): (r: seq<T>)
    requires 0 <= lo && hi <= |s|
    ensures |r| == if lo < hi then hi - lo else 0
  {
    if lo < hi then s[lo..hi] else []
  }

  lemma SelectIsSlice(ks: seq<bytes>, r: Range, lo: int, hi: int)
    requires Sorted(ks) && Cut(ks, r, lo, hi)
    ensures Select(ks, r) == Slice(ks, lo, hi)
  {
    SelectSorted(ks, r);
    var s := Slice(ks, lo, hi);
    if lo < hi { SortedSlice(ks, lo, hi); }
    forall k ensures k in Select(ks, r) <==> k in s {
      SelectElements(ks, r, k);
      if k in ks && r.Contains(k) {
        var i :| 0 <= i < |ks| && ks[i] == k;
        assert s[i - lo] == k;
      }
    }
    SortedUnique(Select(ks, r), s);
  }

  /** What a cursor at `pos` has ahead of it inside the cut, in visiting order. */
  function AheadOf(ks: seq<bytes>, lo: int, hi: int, pos: int, backward: bool): (r: seq<bytes>)
    requires 0 <= lo && hi <= |ks|
    requires if backward then pos < hi else lo <= pos
  {
    if backward then Reverse(Slice(ks, lo, pos + 1)) else Slice(ks, pos, hi)
  }

  /** Started at its end of the cut, a cursor has the whole range ahead. */
  lemma AheadStart(ks: seq<bytes>, r: Range, backward: bool)
    requires Sorted(ks)
    ensures var lo, hi := LowerCut(ks, r), UpperCut(ks, r);
            AheadOf(ks, lo, hi, if backward then hi - 1 else lo, backward) == Directed(ks, r, backward)
  {
    CutsCut(ks, r);
    SelectIsSlice(ks, r, LowerCut(ks, r), UpperCut(ks, r));
  }

  /** The same less what the count no longer allows after `step` visits. */
  function RestOf(ahead: seq<bytes>, count: int, step: int): (r: seq<bytes>) {
    if count >= 0 && step >= count then []
    else Take(ahead, if count < 0 then -1 else count - step)
  }

  lemma RestAtStart(ahead: seq<bytes>, count: int)
    ensures RestOf(ahead, count, 0) == Take(ahead, count)
  {
  }

  lemma MoveHead<T>(done: seq<T>, rest: seq<T>)
    requires rest != []
    ensures done + [rest[0]] + rest[1..] == done + rest
  {
  }

  lemma AheadStep(ks: seq<bytes>, lo: int, hi: int, pos: int, backward: bool)
    requires 0 <= lo && hi <= |ks|
    requires if backward then pos < hi else lo <= pos
    ensures AheadOf(ks, lo, hi, if backward then pos - 1 else pos + 1, backward) ==
            Drop(AheadOf(ks, lo, hi, pos, backward), 1)
  {
    if backward && lo <= pos {
      assert Slice(ks, lo, pos + 1) == Slice(ks, lo, pos) + [ks[pos]];
      ReverseAppend(Slice(ks, lo, pos), ks[pos]);
    }
  }

  /** Where Seek(k) leaves the cursor: at the first key that is not below `k`. */
  ghost predicate SeekPos(ks: seq<bytes>, k: bytes, p: int) {
    && 0 <= p <= |ks|
    && (forall i :: 0 <= i < p ==> Lt(ks[i], k))
    && (forall i :: p <= i < |ks| ==> Le(k, ks[i]))
  }

  /** Seek and one step over an excluded end find the cut. */
  lemma LowerEnd(ks: seq<bytes>, r: Range, p: int)
    requires Sorted(ks) && r.min.At? && SeekPos(ks, r.min.key, p)
    ensures LowerCut(ks, r) == if r.lopen && p < |ks| && ks[p] == r.min.key then p + 1 else p
  {
    SortedIsAscending(ks);
    CutsCut(ks, r);
    LtIrreflexive(r.min.key);
    if 0 < p { LtAsymmetric(ks[p - 1], r.min.key); }
    assert 0 < p ==> !r.AboveMin(ks[p - 1]);
    assert p < |ks| ==> (r.AboveMin(ks[p]) <==> !(r.lopen && ks[p] == r.min.key));
    assert p + 1 < |ks| ==> Lt(ks[p], ks[p + 1]);
    assert p + 1 < |ks| && ks[p] == r.min.key ==> r.AboveMin(ks[p + 1]);
  }

  lemma UpperEnd(ks: seq<bytes>, r: Range, p: int)
    requires Sorted(ks) && r.max.At? && SeekPos(ks, r.max.key, p)
    ensures UpperCut(ks, r) == if !r.ropen && p < |ks| && ks[p] == r.max.key then p + 1 else p
    ensures 0 < p ==> ks[p - 1] != r.max.key
  {
    SortedIsAscending(ks);
    CutsCut(ks, r);
    LtIrreflexive(r.max.key);
    assert 0 < p ==> r.BelowMax(ks[p - 1]);
    if p < |ks| && ks[p] != r.max.key { LtAsymmetric(r.max.key, ks[p]); }
    assert p < |ks| ==> (r.BelowMax(ks[p]) <==> !r.ropen && ks[p] == r.max.key);
    if p + 1 < |ks| {
      LeLtTransitive(r.max.key, ks[p], ks[p + 1]);
      LtAsymmetric(r.max.key, ks[p + 1]);
    }
    assert p + 1 < |ks| ==> !r.BelowMax(ks[p + 1]);
  }

  function LowerCut(ks: seq<bytes>, r: Range): (lo: int)
    ensures 0 <= lo <= |ks|
  {
    if ks == [] then 0
    else if r.AboveMin(ks[|ks| - 1]) then LowerCut(ks[..|ks| - 1], r)
    else |ks|
  }

  function UpperCut(ks: seq<bytes>, r: Range): (hi: int)
    ensures 0 <= hi <= |ks|
  {
    if ks == [] then 0
    else if r.BelowMax(ks[|ks| - 1]) then |ks|
    else UpperCut(ks[..|ks| - 1], r)
  }

  lemma {:induction false} CutsCut(ks: seq<bytes>, r: Range)
    requires Sorted(ks)
    ensures Cut(ks, r, LowerCut(ks, r), UpperCut(ks, r))
  {
    if ks != [] {
      var n := |ks| - 1;
      SortedSlice(ks, 0, n);
      SortedIsAscending(ks);
      CutsCut(ks[..n], r);
      forall i | 0 <= i < n
        ensures !r.AboveMin(ks[n]) ==> !r.AboveMin(ks[i])
        ensures r.BelowMax(ks[n]) ==> r.BelowMax(ks[i])
        ensures r.AboveMin(ks[i]) <==> r.AboveMin(ks[..n][i])
        ensures r.BelowMax(ks[i]) <==> r.BelowMax(ks[..n][i])
      {
        if r.min.At? && r.AboveMin(ks[i]) { LeLtTransitive(r.min.key, ks[i], ks[n]); }
        if r.max.At? && r.BelowMax(ks[n]) { LeLtTransitive(ks[i], ks[n], r.max.key); }
      }
    }
  }

  predicate IsMin(k: bytes, ks: set<bytes>) {
    k in ks && forall x :: x in ks ==> Le(k, x)
  }

  lemma {:induction false} MinExists(ks: set<bytes>)
    requires ks != {}
    ensures exists k :: IsMin(k, ks)
  {
    var k :| k in ks;
    var rest := ks - {k};
    if rest == {} {
      assert ks == {k};
      assert IsMin(k, ks);
    } else {
      MinExists(rest);
      var m :| IsMin(m, rest);
      MinOfTwo(k, m, ks);
    }
  }

  lemma MinOfTwo(k: bytes, m: bytes, ks: set<bytes>)
    requires k in ks && IsMin(m, ks - {k})
    ensures IsMin(k, ks) || IsMin(m, ks)
  {
    LtTotal(k, m);
    if Lt(k, m) {
      forall x | x in ks - {k} ensures Lt(k, x) {
        LeLtTransitive(k, m, x);
      }
    }
  }

  lemma MinFirst(k: bytes, rest: seq<bytes>, ks: set<bytes>)
    requires IsMin(k, ks) && Sorted(rest) && forall x :: x in rest <==> x in ks - {k}
    ensures Sorted([k] + rest)
  {
    if rest != [] { assert rest[0] in rest; }
    assert ([k] + rest)[1..] == rest;
  }

  /** The keys of the store in iteration order. */
  ghost function SortedKeys(ks: set<bytes>): (r: seq<bytes>)
    ensures Sorted(r)
    ensures forall k :: k in r <==> k in ks
    ensures |r| == |ks|
    decreases |ks|
  {
    if ks == {} then []
    else
      MinExists(ks);
      var k :| IsMin(k, ks);
      var rest := SortedKeys(ks - {k});
      MinFirst(k, rest, ks);
      [k] + rest
  }

  /** The sorted snapshot a driver iterates over. */
  method SortKeys(ks: set<bytes>) returns (bs: seq<bytes>)
    ensures bs == SortedKeys(ks)
  {
    hide Lt, Le, Sorted, IsMin, SortedKeys;
    bs := [];
    var rest := ks;
    while rest != {}
      invariant bs + SortedKeys(rest) == SortedKeys(ks)
      decreases |rest|
    {
      LeastInSet(rest);
      var k :| k in rest && IsMin(k, rest);
      SortedKeysStep(rest, k);
      assert bs + [k] + SortedKeys(rest - {k}) == bs + ([k] + SortedKeys(rest - {k}));
      bs := bs + [k];
      rest := rest - {k};
    }
  }

  lemma LeastInSet(ks: set<bytes>)
    requires ks != {}
    ensures exists k :: k in ks && IsMin(k, ks)
  {
    MinExists(ks);
    var k :| IsMin(k, ks);
    assert k in ks && IsMin(k, ks);
  }

  lemma SortedKeysStep(ks: set<bytes>, k: bytes)
    requires IsMin(k, ks)
    ensures SortedKeys(ks) == [k] + SortedKeys(ks - {k})
  {
    var rest := SortedKeys(ks - {k});
    MinFirst(k, rest, ks);
    assert forall x :: x in [k] + rest <==> x in SortedKeys(ks);
    SortedUnique(SortedKeys(ks), [k] + rest);
  }
}

/** store/iterator.go: cursors over a snapshot of the store, and the range/limit iterator on top. */
module Iterators {
  import opened Bytes
  import opened Ranges

  /** A driver cursor over the sorted keys of a snapshot; position -1 or |keys| is not valid. */
  class Cursor {
    const keys: seq<bytes>
    var pos: int

    ghost predicate Inv()
      reads this
    {
      Sorted(keys) && -1 <= pos <= |keys|
    }

    constructor (keys: seq<bytes>)
      requires Sorted(keys)
      ensures Inv() && this.keys == keys
    {
      this.keys := keys;
      pos := -1;
    }

    predicate Valid()
      reads this
    {
      0 <= pos < |keys|
    }

    function RawKey(): bytes
      requires Valid()
      reads this
    {
      keys[pos]
    }

    method Next()
      requires Inv() && Valid()
      modifies this
      ensures Inv() && pos == old(pos) + 1
    {
      pos := pos + 1;
    }

    method Prev()
      requires Inv() && Valid()
      modifies this
      ensures Inv() && pos == old(pos) - 1
    {
      pos := pos - 1;
    }

    method SeekToFirst()
      requires Inv()
      modifies this
      ensures Inv() && pos == 0
    {
      pos := 0;
    }

    method SeekToLast()
      requires Inv()
      modifies this
      ensures Inv() && pos == |keys| - 1
    {
      pos := |keys| - 1;
    }

    /** Moves to the first key that is not below `k`. */
    method Seek(k: bytes)
      requires Inv()
      modifies this
      ensures Inv() && SeekPos(keys, k, pos)
    {
      SortedIsAscending(keys);
      pos := 0;
      while pos < |keys| && Lt(keys[pos], k)
        invariant 0 <= pos <= |keys|
        invariant forall i :: 0 <= i < pos ==> Lt(keys[i], k)
      {
        pos := pos + 1;
      }
      forall i | pos <= i < |keys| ensures Le(k, keys[i]) {
        LtTotal(keys[pos], k);
        if i > pos && k != keys[pos] { LtTransitive(k, keys[pos], keys[i]); }
      }
    }

    /** The exact key or nothing. */
    method Find(k: bytes) returns (found: bool)
      requires Inv()
      modifies this
      ensures Inv()
      ensures found <==> k in keys
      ensures found ==> Valid() && keys[pos] == k
    {
      Seek(k);
      found := Valid() && RawKey() == k;
      SortedIsAscending(keys);
      if !found && k in keys {
        var j :| 0 <= j < |keys| && keys[j] == k;
        LtIrreflexive(k);
        if j > pos { LtAsymmetric(keys[pos], k); }
        assert false;
      }
    }
  }

  class RangeLimitIterator {
    const it: Cursor
    const r: Range
    const l: Limit
    const backward: bool
    var step: int

    // the keys yet to be visited; the code has no such field
    ghost var todo: seq<bytes>

    /** The cursor never leaves the side of the range it started on. */
    ghost predicate Placed()
      reads this, it
    {
      && it.Inv() && step >= 0
      && (l.offset >= 0 ==> if backward then it.pos < UpperCut(it.keys, r) else LowerCut(it.keys, r) <= it.pos)
    }

    ghost function Ahead(): seq<bytes>
      requires Placed() && l.offset >= 0
      reads this, it
    {
      AheadOf(it.keys, LowerCut(it.keys, r), UpperCut(it.keys, r), it.pos, backward)
    }

    ghost predicate Inv()
      reads this, it
    {
      Placed() && todo == if l.offset < 0 then [] else RestOf(Ahead(), l.count, step)
    }

    constructor (i: Cursor, r: Range, l: Limit, backward: bool)
      requires i.Inv()
      modifies i
      ensures Inv() && this.it == i && todo == Visited(i.keys, r, l, backward)
    {
      this.it, this.r, this.l, this.backward := i, r, l, backward;
      step := 0;
      todo := [];
      new;
      if l.offset >= 0 {
        Start();
        todo := RestOf(Ahead(), l.count, step);
        RestAtStart(Ahead(), l.count);
      }
    }

    method Start()
      requires it.Inv() && step >= 0 && l.offset >= 0
      modifies it
      ensures Placed()
      ensures Ahead() == Drop(Directed(it.keys, r, backward), l.offset)
    {
      hide Directed, Drop, LowerCut, UpperCut, Sorted;
      if !backward {
        SeekForward();
      } else {
        SeekBackward();
      }
      AheadStart(it.keys, r, backward);
      Skip();
    }

    /** The offset: the underlying cursor moves while it can, in or out of the range. */
    method Skip()
      requires Placed() && l.offset >= 0
      modifies it
      ensures Placed()
      ensures Ahead() == Drop(old(Ahead()), l.offset)
    {
      for n := 0 to l.offset
        invariant Placed()
        invariant Ahead() == Drop(old(Ahead()), n)
      {
        if it.Valid() {
          Advance();
        }
      }
    }

    method SeekForward()
      requires it.Inv() && !backward
      modifies it
      ensures it.Inv() && it.pos == LowerCut(it.keys, r)
    {
      CutsCut(it.keys, r);
      if r.min.Unbounded? {
        it.SeekToFirst();
        assert it.keys != [] ==> r.AboveMin(it.keys[0]);
      } else {
        it.Seek(r.min.key);
        LowerEnd(it.keys, r, it.pos);
        if r.lopen && it.Valid() && it.RawKey() == r.min.key {
          it.Next();
        }
      }
    }

    method SeekBackward()
      requires it.Inv() && backward
      modifies it
      ensures it.Inv() && it.pos == UpperCut(it.keys, r) - 1
    {
      CutsCut(it.keys, r);
      if r.max.Unbounded? {
        it.SeekToLast();
        assert it.keys != [] ==> r.BelowMax(it.keys[|it.keys| - 1]);
      } else {
        it.Seek(r.max.key);
        UpperEnd(it.keys, r, it.pos);
        if !it.Valid() {
          it.SeekToLast();
        } else if it.RawKey() != r.max.key {
          it.Prev();
        }
        if r.ropen && it.Valid() && it.RawKey() == r.max.key {
          it.Prev();
        }
      }
    }

    /** One move of the cursor: the head of what is ahead, if any, is left behind. */
    method Advance()
      requires Placed() && it.Valid() && l.offset >= 0
      modifies it
      ensures Placed()
      ensures Ahead() == Drop(old(Ahead()), 1)
    {
      AheadStep(it.keys, LowerCut(it.keys, r), UpperCut(it.keys, r), it.pos, backward);
      if !backward {
        it.Next();
      } else {
        it.Prev();
      }
    }

    /** Tests only the end of the range the iteration runs towards, as the code does. */
    method Valid() returns (b: bool)
      requires Inv()
      ensures b <==> todo != []
      ensures b ==> it.Valid() && it.RawKey() == todo[0]
    {
      if l.offset < 0 || !it.Valid() || (l.count >= 0 && step >= l.count) {
        return false;
      }
      CutsCut(it.keys, r);
      var k := it.RawKey();
      if !backward {
        b := r.max.At? ==> if r.ropen then Lt(k, r.max.key) else Le(k, r.max.key);
        assert b <==> r.BelowMax(it.keys[it.pos]);
      } else {
        b := r.min.At? ==> if r.lopen then Lt(r.min.key, k) else Le(r.min.key, k);
        assert b <==> r.AboveMin(it.keys[it.pos]);
        if b { ReverseAt(Slice(it.keys, LowerCut(it.keys, r), it.pos + 1), 0); }
      }
    }

    method Next()
      requires Inv() && todo != []
      modifies this, it
      ensures Inv()
      ensures todo == old(todo)[1..]
    {
      step := step + 1;
      Advance();
      todo := todo[1..];
    }
  }

  /** `for ; it.Valid(); it.Next()`: the loop every query is built on visits exactly `Visited`. */
  method Collect(keys: seq<bytes>, r: Range, l: Limit, backward: bool) returns (ks: seq<bytes>)
    requires Sorted(keys)
    ensures ks == Visited(keys, r, l, backward)
  {
    var cur := new Cursor(keys);
    var it := new RangeLimitIterator(cur, r, l, backward);
    ks := [];
    ghost var all := it.todo;
    var more := it.Valid();
    while more
      invariant it.Inv() && fresh(it) && fresh(it.it)
      invariant more <==> it.todo != []
      invariant more ==> it.it.Valid() && it.it.RawKey() == it.todo[0]
      invariant ks + it.todo == all
      decreases |it.todo|
    {
      MoveHead(ks, it.todo);
      ks := ks + [it.it.RawKey()];
      it.Next();
      more := it.Valid();
    }
  }
}
