/**
 Scans (ledis/scan.go, server/cmd_scan.go): pages of the names of one type, or of the members of one
 collection, in byte order or in reverse, each page starting behind a cursor.
 */
module Scan {
  import opened Bytes
  import opened Keys
  import opened Ranges
  import opened Database

  const DEFAULT_COUNT: nat := 10

  /** What is scanned: the names of a type of value, or the members of one hash, set or sorted set. */
  datatype Space = TypeSpace(ty: byte) | ItemSpace(c: Coll, key: bytes)

  predicate ValidSpace(sp: Space) {
    match sp
    case TypeSpace(ty) => ty == KV_TYPE || ty == LMETA_TYPE || ty == HSIZE_TYPE || ty == ZSIZE_TYPE || ty == SSIZE_TYPE
    case ItemSpace(_, key) => |key| < 0x1_0000
  }

  predicate InSpace(d: nat, sp: Space, k: Key) {
    match sp
    case TypeSpace(ty) => k.db == d && TypeByte(k.kind) == ty
    case ItemSpace(c, key) => k.db == d && k.kind.Item? && k.kind.coll == c && k.kind.key == key
  }

  /** What decodeScanKey and the member decoders return. */
  function NameOf(sp: Space, k: Key): (n: bytes) {
    if sp.ItemSpace? && k.kind.Item? then k.kind.member else k.kind.key
  }

  function Prefix(d: nat, sp: Space): (r: bytes) {
    match sp case TypeSpace(ty) => TypeKey(d, ty) case ItemSpace(c, key) => StartItemKey(d, c, key)
  }

  function Stop(d: nat, sp: Space): (r: bytes)
    requires ValidSpace(sp)
  {
    match sp case TypeSpace(ty) => TypeKey(d, ty + 1) case ItemSpace(c, key) => StopItemKey(d, c, key)
  }

  lemma SpaceRange(d: nat, sp: Space, k: Key)
    requires ValidSpace(sp) && ValidKey(k)
    ensures Le(Prefix(d, sp), Encode(k)) && Lt(Encode(k), Stop(d, sp)) <==> InSpace(d, sp, k)
    ensures InSpace(d, sp, k) ==> Encode(k) == Prefix(d, sp) + NameOf(sp, k)
  {
    hide Lt, Le, Uvarint, BigEndian;
    match sp
    case TypeSpace(ty) =>
      TypeRange(d, ty, k);
      EncodeIsBody(k);
    case ItemSpace(c, key) =>
      ItemRange(d, c, key, k);
  }

  /** buildScanKeyRange with an exclusive cursor: both ends open. */
  function ScanRange(d: nat, sp: Space, cursor: bytes, reverse: bool): (r: Range)
    requires ValidSpace(sp)
  {
    var p := Prefix(d, sp);
    if reverse then Range(At(p), At(if cursor == [] then Stop(d, sp) else p + cursor), true, true)
    else Range(At(p + cursor), At(Stop(d, sp)), true, true)
  }

  /** Beyond the cursor, in the direction of the scan. */
  predicate Beyond(cursor: bytes, reverse: bool, n: bytes) {
    n != [] && if reverse then cursor == [] || Lt(n, cursor) else Lt(cursor, n)
  }

  lemma StopIsAbove(d: nat, sp: Space, x: bytes)
    requires ValidSpace(sp)
    ensures Lt(Prefix(d, sp) + x, Stop(d, sp))
  {
    match sp
    case TypeSpace(ty) => PrefixRange(Uvarint(d), ty, Prefix(d, sp) + x);
    case ItemSpace(c, key) => PrefixRange(Head(d, c.ItemType(), key), MEM_SEP, Prefix(d, sp) + x);
  }

  lemma EmptyFirst(n: bytes)
    ensures Lt([], n) <==> n != []
  {
  }

  lemma ScanContains(d: nat, sp: Space, cursor: bytes, reverse: bool, k: Key)
    requires ValidSpace(sp) && ValidKey(k)
    ensures ScanRange(d, sp, cursor, reverse).Contains(Encode(k)) <==>
              InSpace(d, sp, k) && Beyond(cursor, reverse, NameOf(sp, k))
  {
    hide Lt, Encode, Prefix, Stop, InSpace;
    var p, e, q := Prefix(d, sp), Encode(k), Prefix(d, sp) + cursor;
    SpaceRange(d, sp, k);
    StopIsAbove(d, sp, cursor);
    PrefixIsLe(p, q);
    if Lt(q, e) { LeLtTransitive(p, q, e); }
    if Lt(e, q) { LtTransitive(e, q, Stop(d, sp)); }
    if InSpace(d, sp, k) {
      NamesCompare(d, sp, cursor, k);
    }
    assert p + [] == p;
  }

  lemma NamesCompare(d: nat, sp: Space, cursor: bytes, k: Key)
    requires ValidSpace(sp) && ValidKey(k) && InSpace(d, sp, k)
    ensures var p, n := Prefix(d, sp), NameOf(sp, k);
            && (Lt(p + cursor, Encode(k)) <==> Lt(cursor, n)) && (Lt(Encode(k), p + cursor) <==> Lt(n, cursor))
            && (Lt(p, Encode(k)) <==> n != []) && (Lt(cursor, n) ==> n != [])
  {
    hide Lt, Encode, Prefix, InSpace;
    var p, n := Prefix(d, sp), NameOf(sp, k);
    SpaceRange(d, sp, k);
    LtCommonPrefix(p, cursor, n);
    LtCommonPrefix(p, n, cursor);
    LtCommonPrefix(p, [], n);
    EmptyFirst(n);
    assert p + [] == p;
    NotBelowEmpty(cursor);
  }

  lemma NotBelowEmpty(a: bytes)
    ensures !Lt(a, [])
  {
  }

  // ---------------------------------------------------------------- names in order

  ghost function NameSet(s: Store, d: nat, sp: Space): (ns: set<bytes>) {
    set k | k in s && InSpace(d, sp, k) && NameOf(sp, k) != [] :: NameOf(sp, k)
  }

  /** Every name there is to scan, in byte order. A record with the empty name is out of reach. */
  ghost function Names(s: Store, d: nat, sp: Space): (v: seq<bytes>) {
    SortedKeys(NameSet(s, d, sp))
  }

  /** The names beyond a cursor, in the direction of the scan. */
  ghost function After(v: seq<bytes>, cursor: bytes, reverse: bool): (r: seq<bytes>) {
    if !reverse then Select(v, Range(At(cursor), Unbounded, true, false))
    else if cursor == [] then Reverse(v)
    else Reverse(Select(v, Range(Unbounded, At(cursor), false, true)))
  }

  function NamesOf(d: nat, sp: Space, ks: seq<Key>): (v: seq<bytes>)
    requires forall i :: 0 <= i < |ks| ==> InSpace(d, sp, ks[i])
    ensures |v| == |ks|
  {
    seq(|ks|, i requires 0 <= i < |ks| => NameOf(sp, ks[i]))
  }

  lemma MatchedInSpace(s: Store, d: nat, sp: Space, cursor: bytes, reverse: bool, k: Key)
    requires ValidStore(s) && ValidSpace(sp)
    ensures k in Matching(s, ScanRange(d, sp, cursor, reverse)) <==>
              k in s && InSpace(d, sp, k) && Beyond(cursor, reverse, NameOf(sp, k))
  {
    hide Matching, Encode, Lt, ScanRange, InSpace, Beyond;
    MatchingElements(s, ScanRange(d, sp, cursor, reverse), k);
    if k in s {
      assert ValidRecord(k, s[k]);
      ScanContains(d, sp, cursor, reverse, k);
    }
  }

  /** A range of keys, as names, is the range of names. */
  lemma MatchedNames(s: Store, d: nat, sp: Space, cursor: bytes, reverse: bool)
    requires ValidStore(s) && ValidSpace(sp)
    ensures var ks := Matching(s, ScanRange(d, sp, cursor, reverse));
            && (forall i :: 0 <= i < |ks| ==> InSpace(d, sp, ks[i]))
            && After(Names(s, d, sp), cursor, reverse) == if reverse then Reverse(NamesOf(d, sp, ks))
                else NamesOf(d, sp, ks)
  {
    hide Matching, Encode, Lt, ScanRange, InSpace, Reverse, Select, SortedKeys, ValidStore;
    var ks := Matching(s, ScanRange(d, sp, cursor, reverse));
    forall i | 0 <= i < |ks| ensures InSpace(d, sp, ks[i]) && ks[i] in s && Beyond(cursor, reverse, NameOf(sp, ks[i])) {
      assert ks[i] in ks;
      MatchedInSpace(s, d, sp, cursor, reverse, ks[i]);
    }
    var a, all := NamesOf(d, sp, ks), Names(s, d, sp);
    var r := if reverse then Range(Unbounded, At(cursor), false, true) else Range(At(cursor), Unbounded, true, false);
    var b := if reverse && cursor == [] then all else Select(all, r);
    SelectSorted(all, r);
    NamesAscend(s, d, sp, cursor, reverse);
    forall n ensures n in a <==> n in b {
      SelectElements(all, r, n);
      NamedKey(s, d, sp, cursor, reverse, n);
    }
    SortedUnique(a, b);
  }

  lemma NamesAscend(s: Store, d: nat, sp: Space, cursor: bytes, reverse: bool)
    requires ValidStore(s) && ValidSpace(sp)
    requires var ks := Matching(s, ScanRange(d, sp, cursor, reverse));
              forall i :: 0 <= i < |ks| ==> InSpace(d, sp, ks[i])
    ensures Sorted(NamesOf(d, sp, Matching(s, ScanRange(d, sp, cursor, reverse))))
  {
    hide Matching, Encode, Lt, ScanRange, InSpace, Prefix;
    var r := ScanRange(d, sp, cursor, reverse);
    var ks := Matching(s, r);
    var a := NamesOf(d, sp, ks);
    forall i, j | 0 <= i < j < |a| ensures Lt(a[i], a[j]) {
      MatchingSorted(s, r, i, j);
      assert ValidRecord(ks[i], s[ks[i]]) && ValidRecord(ks[j], s[ks[j]]);
      SpaceRange(d, sp, ks[i]);
      SpaceRange(d, sp, ks[j]);
      LtCommonPrefix(Prefix(d, sp), a[i], a[j]);
    }
    SortedIsAscending(a);
  }

  lemma NamedKey(s: Store, d: nat, sp: Space, cursor: bytes, reverse: bool, n: bytes)
    requires ValidStore(s) && ValidSpace(sp)
    requires var ks := Matching(s, ScanRange(d, sp, cursor, reverse));
              forall i :: 0 <= i < |ks| ==> InSpace(d, sp, ks[i])
    ensures n in NamesOf(d, sp, Matching(s, ScanRange(d, sp, cursor, reverse))) <==>
              n in Names(s, d, sp) && Beyond(cursor, reverse, n)
  {
    hide Matching, ScanRange, InSpace, ValidStore, Beyond;
    var ks := Matching(s, ScanRange(d, sp, cursor, reverse));
    var a := NamesOf(d, sp, ks);
    if n in a {
      var i :| 0 <= i < |a| && a[i] == n;
      assert ks[i] in ks;
      MatchedInSpace(s, d, sp, cursor, reverse, ks[i]);
      BeyondIsNamed(cursor, reverse, n);
      assert n in NameSet(s, d, sp);
    }
    if n in Names(s, d, sp) && Beyond(cursor, reverse, n) {
      assert n in NameSet(s, d, sp);
      var k :| k in s && InSpace(d, sp, k) && NameOf(sp, k) == n;
      MatchedInSpace(s, d, sp, cursor, reverse, k);
      var i :| 0 <= i < |ks| && ks[i] == k;
      assert a[i] == n;
    }
  }

  lemma BeyondIsNamed(cursor: bytes, reverse: bool, n: bytes)
    requires Beyond(cursor, reverse, n)
    ensures n != []
  {
  }

  // ---------------------------------------------------------------- pages

  function Filter(v: seq<bytes>, accepts: bytes -> bool): (r: seq<bytes>) {
    if v == [] then [] else (if accepts(v[0]) then [v[0]] else []) + Filter(v[1..], accepts)
  }

  function PageSize(count: int): (n: nat)
    ensures n >= 1 && (count <= 0 ==> n == 10)
  {
    if count <= 0 then DEFAULT_COUNT else count
  }

  /** A page: the next matching names beyond the cursor. */
  ghost function Page(v: seq<bytes>, cursor: bytes, count: int, accepts: bytes -> bool, reverse: bool): (r: seq<bytes>)
    ensures |r| <= PageSize(count)
  {
    Take(Filter(After(v, cursor, reverse), accepts), PageSize(count))
  }

  lemma {:induction false} FilterAppend(a: seq<bytes>, b: seq<bytes>, accepts: bytes -> bool)
    ensures Filter(a + b, accepts) == Filter(a, accepts) + Filter(b, accepts)
  {
    if a == [] {
      assert a + b == b;
    } else {
      assert (a + b)[0] == a[0] && (a + b)[1..] == a[1..] + b;
      FilterAppend(a[1..], b, accepts);
      var x, y, z := if accepts(a[0]) then [a[0]] else [], Filter(a[1..], accepts), Filter(b, accepts);
      assert x + y + z == x + (y + z);
    }
  }

  /** scanGeneric and the three member scans. */
  method ScanGeneric(s: Store, d: nat, sp: Space, cursor: bytes, count: int, accepts: bytes -> bool, reverse: bool)
    returns (v: seq<bytes>)
    requires ValidStore(s) && ValidSpace(sp)
    ensures v == Page(Names(s, d, sp), cursor, count, accepts, reverse)
  {
    hide ValidStore, Query, Matching, ScanRange, InSpace, Names, After, Reverse, Filter;
    var n := PageSize(count);
    QueryAll(s, ScanRange(d, sp, cursor, reverse), reverse);
    MatchedNames(s, d, sp, cursor, reverse);
    var ks := RangeKeys(s, ScanRange(d, sp, cursor, reverse), Limit(0, -1), reverse);
    ReverseNames(d, sp, Matching(s, ScanRange(d, sp, cursor, reverse)));
    ghost var w := After(Names(s, d, sp), cursor, reverse);
    assert w == NamesOf(d, sp, ks);
    v := [];
    var i := 0;
    NoneFiltered(w, accepts);
    while i < |ks| && |v| < n
      invariant 0 <= i <= |ks| && |v| <= n && v == Filter(w[..i], accepts)
    {
      var k := NameOf(sp, ks[i]);
      FilterStep(w, accepts, i);
      if accepts(k) {
        v := v + [k];
      }
      i := i + 1;
    }
    FilterAppend(w[..i], w[i..], accepts);
    assert w == w[..i] + w[i..];
    if i == |ks| { NoneFiltered(w[i..], accepts); assert w[i..] == []; }
  }

  lemma NoneFiltered(w: seq<bytes>, accepts: bytes -> bool)
    ensures Filter(w[..0], accepts) == [] && Filter([], accepts) == []
  {
  }

  lemma FilterStep(w: seq<bytes>, accepts: bytes -> bool, i: nat)
    requires i < |w|
    ensures Filter(w[..i + 1], accepts) == Filter(w[..i], accepts) + if accepts(w[i]) then [w[i]] else []
  {
    assert w[..i + 1] == w[..i] + [w[i]];
    FilterAppend(w[..i], [w[i]], accepts);
    assert Filter([w[i]][1..], accepts) == [];
  }

  lemma {:induction false} ReverseNames(d: nat, sp: Space, ks: seq<Key>)
    requires forall i :: 0 <= i < |ks| ==> InSpace(d, sp, ks[i])
    ensures forall i :: 0 <= i < |ks| ==> InSpace(d, sp, Reverse(ks)[i])
    ensures NamesOf(d, sp, Reverse(ks)) == Reverse(NamesOf(d, sp, ks))
  {
    hide InSpace, NameOf;
    if ks != [] {
      var n := |ks| - 1;
      ReverseNames(d, sp, ks[..n]);
      assert NamesOf(d, sp, ks)[..n] == NamesOf(d, sp, ks[..n]);
    }
  }

  // ---------------------------------------------------------------- the commands

  datatype ScanReply = NamePage(cursor: bytes, page: seq<bytes>) | Crash | BadKeySize

  /** The end markers: of the XSCAN family, and of HSCAN, SSCAN and ZSCAN. */
  const NIL_CURSOR: bytes := []
  const NIL_CURSOR_REDIS: bytes := [48]

  /** A page with its cursor, which marks the end; an empty page with no positive count crashes. */
  function ReplyOf(page: seq<bytes>, count: int, end: bytes): (r: ScanReply) {
    if |page| < count then NamePage(end, page)
    else if page == [] then Crash
    else NamePage(page[|page| - 1], page)
  }

  /**
   XSCAN over the names of a type; XHSCAN, XSSCAN, XZSCAN and, with the end marker "0", HSCAN, SSCAN
   and ZSCAN over the members of a key. The end marker is read as the empty cursor.
   */
  method ScanCommand(s: Store, d: nat, sp: Space, cursor: bytes, count: int, accepts: bytes -> bool, reverse: bool,
        end: bytes)
    returns (r: ScanReply)
    requires ValidStore(s) && (sp.TypeSpace? ==> ValidSpace(sp))
    ensures var page := Page(Names(s, d, sp), if cursor == end then [] else cursor, count, accepts, reverse);
            if sp.ItemSpace? && !KeySizeOK(sp.key) then r == BadKeySize
            else r == ReplyOf(page, count, end) && (r.Crash? <==> count <= 0 && page == [])
  {
    hide Page, Names, ValidStore;
    if sp.ItemSpace? && !KeySizeOK(sp.key) {
      return BadKeySize;
    }
    var start := if cursor == end then [] else cursor;
    var page := ScanGeneric(s, d, sp, start, count, accepts, reverse);
    if |page| < count {
      r := NamePage(end, page);
    } else if page == [] {
      r := Crash;
    } else {
      r := NamePage(page[|page| - 1], page);
    }
  }

  // ---------------------------------------------------------------- following the cursors

  /** The names in the direction of the scan. */
  ghost function Turned(v: seq<bytes>, reverse: bool): (w: seq<bytes>)
    ensures |w| == |v|
  {
    if reverse then Reverse(v) else v
  }

  ghost predicate IsNames(v: seq<bytes>) {
    Sorted(v) && [] !in v
  }

  lemma NamesAreNames(s: Store, d: nat, sp: Space)
    ensures IsNames(Names(s, d, sp))
  {
  }

  lemma AfterNothing(v: seq<bytes>, reverse: bool)
    requires IsNames(v)
    ensures After(v, [], reverse) == Turned(v, reverse)
  {
    hide Reverse, Sorted;
    if !reverse {
      var r := Range(At([]), Unbounded, true, false);
      SelectSorted(v, r);
      forall n ensures n in Select(v, r) <==> n in v {
        SelectElements(v, r, n);
        EmptyFirst(n);
      }
      SortedUnique(Select(v, r), v);
    }
  }

  /** Behind one of the names come the names that follow it. */
  lemma AfterName(v: seq<bytes>, reverse: bool, j: nat)
    requires IsNames(v) && j < |v|
    ensures After(v, Turned(v, reverse)[j], reverse) == Turned(v, reverse)[j + 1..]
  {
    hide Sorted, Lt, Reverse;
    if reverse {
      ReverseAt(v, j);
      var i := |v| - 1 - j;
      assert v[i] in v;
      SelectBelow(v, i);
      ReverseSlice(v, i);
    } else {
      SelectAbove(v, j);
    }
  }

  lemma SelectAbove(v: seq<bytes>, j: nat)
    requires Sorted(v) && j < |v|
    ensures Select(v, Range(At(v[j]), Unbounded, true, false)) == v[j + 1..]
  {
    hide Sorted, Lt, Select;
    var r := Range(At(v[j]), Unbounded, true, false);
    SelectSorted(v, r);
    SortedSlice(v, j + 1, |v|);
    assert v[j + 1..|v|] == v[j + 1..];
    SortedIsAscending(v);
    forall n ensures n in Select(v, r) <==> n in v[j + 1..] {
      SelectElements(v, r, n);
      if n in v {
        var i :| 0 <= i < |v| && v[i] == n;
        if i <= j { if i < j { LtAsymmetric(v[i], v[j]); } LtIrreflexive(v[j]); }
        if i > j { assert v[j + 1..][i - j - 1] == n; }
      }
      if n in v[j + 1..] {
        var i :| 0 <= i < |v| - j - 1 && v[j + 1..][i] == n;
        assert v[i + j + 1] == n;
      }
    }
    SortedUnique(Select(v, r), v[j + 1..]);
  }

  lemma SelectBelow(v: seq<bytes>, i: nat)
    requires Sorted(v) && i < |v|
    ensures Select(v, Range(Unbounded, At(v[i]), false, true)) == v[..i]
  {
    hide Sorted, Lt, Select;
    var r := Range(Unbounded, At(v[i]), false, true);
    SelectSorted(v, r);
    SortedSlice(v, 0, i);
    SortedIsAscending(v);
    forall n ensures n in Select(v, r) <==> n in v[..i] {
      SelectElements(v, r, n);
      if n in v {
        var j :| 0 <= j < |v| && v[j] == n;
        if j >= i { if j > i { LtAsymmetric(v[i], v[j]); } LtIrreflexive(v[i]); }
        if j < i { assert v[..i][j] == n; }
      }
      if n in v[..i] {
        var j :| 0 <= j < i && v[..i][j] == n;
        assert v[j] == n;
      }
    }
    SortedUnique(Select(v, r), v[..i]);
  }

  lemma ReverseSlice(v: seq<bytes>, i: nat)
    requires i < |v|
    ensures Reverse(v[..i]) == Reverse(v)[|v| - i..]
  {
    hide Reverse;
    forall j | 0 <= j < i ensures Reverse(v[..i])[j] == Reverse(v)[|v| - i + j] {
      ReverseAt(v[..i], j);
      ReverseAt(v, |v| - i + j);
    }
  }

  /** The place of the `n`-th accepted name splits the accepted names there. */
  lemma {:induction false} FilterSplit(w: seq<bytes>, accepts: bytes -> bool, n: nat) returns (j: nat)
    requires 1 <= n <= |Filter(w, accepts)|
    ensures j < |w| && w[j] == Filter(w, accepts)[n - 1]
    ensures Filter(w[j + 1..], accepts) == Filter(w, accepts)[n..]
  {
    if accepts(w[0]) && n == 1 {
      j := 0;
    } else {
      var i := FilterSplit(w[1..], accepts, if accepts(w[0]) then n - 1 else n);
      j := i + 1;
      assert w[j + 1..] == w[1..][i + 1..];
    }
  }

  lemma SortedSize(v: seq<bytes>)
    requires Sorted(v)
    ensures |set n | n in v| == |v|
  {
    var ns := set n | n in v;
    SortedUnique(v, SortedKeys(ns));
  }

  lemma AfterSet(v: seq<bytes>, cursor: bytes, reverse: bool, n: bytes)
    requires IsNames(v)
    ensures n in After(v, cursor, reverse) <==> n in v && Beyond(cursor, reverse, n)
    ensures |After(v, cursor, reverse)| == |set m | m in v && Beyond(cursor, reverse, m)|
  {
    hide Sorted, Lt, Reverse;
    var r := if reverse then Range(Unbounded, At(cursor), false, true) else Range(At(cursor), Unbounded, true, false);
    var w := if reverse && cursor == [] then v else Select(v, r);
    SelectSorted(v, r);
    SortedSize(w);
    forall m ensures m in w <==> m in v && Beyond(cursor, reverse, m) {
      SelectElements(v, r, m);
    }
    assert (set m | m in w) == set m | m in v && Beyond(cursor, reverse, m);
    if reverse {
      if n in w { var i :| 0 <= i < |w| && w[i] == n; ReverseAt(w, |w| - 1 - i); assert Reverse(w)[|w| - 1 - i] == n; }
      if n in Reverse(w) { var i :| 0 <= i < |w| && Reverse(w)[i] == n; ReverseAt(w, i); }
    }
  }

  /** Moving the cursor to a name ahead leaves less to scan. */
  lemma AfterShrinks(v: seq<bytes>, cursor: bytes, reverse: bool, n: bytes)
    requires IsNames(v) && n in After(v, cursor, reverse)
    ensures |After(v, n, reverse)| < |After(v, cursor, reverse)|
  {
    hide Sorted, Lt, After, IsNames;
    AfterSet(v, cursor, reverse, n);
    AfterSet(v, n, reverse, n);
    var a, b := set m | m in v && Beyond(cursor, reverse, m), set m | m in v && Beyond(n, reverse, m);
    forall m | m in b ensures m in a && m != n {
      LtIrreflexive(n);
      if reverse && cursor != [] { LtTransitive(m, n, cursor); }
      if !reverse { LtTransitive(cursor, n, m); }
    }
    assert b <= a - {n};
    SetSize(b, a - {n});
    assert |a - {n}| == |a| - 1;
  }

  lemma SetSize(a: set<bytes>, b: set<bytes>)
    requires a <= b
    ensures |a| <= |b|
  {
    assert b == a + (b - a);
  }

  lemma PageEnd(v: seq<bytes>, cursor: bytes, count: int, accepts: bytes -> bool, reverse: bool)
    requires IsNames(v) && Page(v, cursor, count, accepts, reverse) != []
    ensures var page := Page(v, cursor, count, accepts, reverse); page[|page| - 1] in After(v, cursor, reverse)
  {
    hide After, IsNames;
    var page, w := Page(v, cursor, count, accepts, reverse), After(v, cursor, reverse);
    var x := page[|page| - 1];
    assert Filter(w, accepts)[|page| - 1] == x;
    FilterElements(w, accepts, x);
  }

  /** All pages of a client that hands each cursor back until it is the end marker. */
  ghost function Follow(v: seq<bytes>, cursor: bytes, count: nat, accepts: bytes -> bool, reverse: bool,
        end: bytes): (r: seq<bytes>)
    requires IsNames(v) && count >= 1
    decreases |After(v, cursor, reverse)|
  {
    var r := ReplyOf(Page(v, cursor, count, accepts, reverse), count, end);
    if r.cursor == end then r.page
    else
      PageEnd(v, cursor, count, accepts, reverse);
      AfterShrinks(v, cursor, reverse, r.cursor);
      r.page + Follow(v, r.cursor, count, accepts, reverse, end)
  }

  /** The same on the sequence of accepted names: whole pages, up to the end marker. */
  function Pages(f: seq<bytes>, count: nat, end: bytes): (r: seq<bytes>)
    requires count >= 1
  {
    if |f| < count then f
    else if f[count - 1] == end then f[..count]
    else f[..count] + Pages(f[count..], count, end)
  }

  /** Following the cursors from position `i` collects the accepted names from there, page by page. */
  lemma {:induction false} FollowIsPages(v: seq<bytes>, i: nat, count: nat, accepts: bytes -> bool, reverse: bool,
        end: bytes, cursor: bytes)
    requires IsNames(v) && count >= 1 && i <= |v|
    requires After(v, cursor, reverse) == Turned(v, reverse)[i..]
    ensures Follow(v, cursor, count, accepts, reverse, end) ==
              Pages(Filter(Turned(v, reverse)[i..], accepts), count, end)
    decreases |v| - i
  {
    hide After, Turned, IsNames, Page, Filter;
    var w := Turned(v, reverse)[i..];
    var f, page := Filter(w, accepts), Page(v, cursor, count, accepts, reverse);
    PageIs(v, cursor, count, accepts, reverse);
    if |f| >= count {
      if page[count - 1] != end {
        var j := FilterSplit(w, accepts, count);
        assert w[j] == Turned(v, reverse)[i + j];
        AfterName(v, reverse, i + j);
        assert w[j + 1..] == Turned(v, reverse)[i + j + 1..];
        FollowIsPages(v, i + j + 1, count, accepts, reverse, end, page[count - 1]);
      }
    }
  }

  lemma PageIs(v: seq<bytes>, cursor: bytes, count: nat, accepts: bytes -> bool, reverse: bool)
    requires count >= 1
    ensures var f := Filter(After(v, cursor, reverse), accepts);
            Page(v, cursor, count, accepts, reverse) == if |f| >= count then f[..count] else f
  {
    hide After, Filter;
  }

  /** With an end marker that is no name, every accepted name is collected once, in order. */
  lemma {:induction false} PagesAll(f: seq<bytes>, count: nat, end: bytes)
    requires count >= 1 && end !in f
    ensures Pages(f, count, end) == f
  {
    if |f| >= count {
      PagesAll(f[count..], count, end);
      assert f == f[..count] + f[count..];
    }
  }

  /** XSCAN: from the empty cursor, any positive count and any match, all matching names but the empty one. */
  lemma XScanIsExact(s: Store, d: nat, sp: Space, count: nat, accepts: bytes -> bool, reverse: bool)
    requires ValidStore(s) && count >= 1
    ensures var v := Names(s, d, sp);
            IsNames(v) && Follow(v, [], count, accepts, reverse, NIL_CURSOR) == Filter(Turned(v, reverse), accepts)
  {
    hide Names, Follow, Pages, ValidStore;
    var v := Names(s, d, sp);
    NamesAreNames(s, d, sp);
    AfterNothing(v, reverse);
    var w := Turned(v, reverse);
    assert w[0..] == w;
    FollowIsPages(v, 0, count, accepts, reverse, [], []);
    NoEmptyName(v, accepts, reverse);
    PagesAll(Filter(w, accepts), count, []);
  }

  /** Every name stored in a space, the empty one included. */
  ghost function StoredNames(s: Store, d: nat, sp: Space): (ns: set<bytes>) {
    set k | k in s && InSpace(d, sp, k) :: NameOf(sp, k)
  }

  lemma StoredNamesAre(s: Store, d: nat, sp: Space, n: bytes)
    ensures n in Names(s, d, sp) <==> n in StoredNames(s, d, sp) && n != []
  {
    hide SortedKeys, InSpace;
  }

  /** Following the cursors gives every stored name that matches if and only if the empty name is not one of them. */
  lemma XScanCompleteIff(s: Store, d: nat, sp: Space, count: nat, accepts: bytes -> bool, reverse: bool)
    requires ValidStore(s) && count >= 1
    ensures var v := Names(s, d, sp);
            && IsNames(v)
            && var got := Follow(v, [], count, accepts, reverse, NIL_CURSOR);
               (forall n :: n in got <==> n in StoredNames(s, d, sp) && accepts(n)) <==>
               !([] in StoredNames(s, d, sp) && accepts([]))
  {
    hide Names, Follow, StoredNames, ValidStore, Turned;
    var v := Names(s, d, sp);
    XScanIsExact(s, d, sp, count, accepts, reverse);
    var got := Filter(Turned(v, reverse), accepts);
    forall n ensures n in got <==> n in StoredNames(s, d, sp) && n != [] && accepts(n) {
      FilterElements(Turned(v, reverse), accepts, n);
      TurnedElements(v, reverse, n);
      StoredNamesAre(s, d, sp, n);
    }
  }

  lemma TurnedElements(v: seq<bytes>, reverse: bool, n: bytes)
    ensures n in Turned(v, reverse) <==> n in v
  {
    hide Reverse;
    if reverse {
      if n in v {
        var i :| 0 <= i < |v| && v[i] == n;
        ReverseAt(v, |v| - 1 - i);
        assert Reverse(v)[|v| - 1 - i] == n;
      }
      if n in Reverse(v) {
        var i :| 0 <= i < |v| && Reverse(v)[i] == n;
        ReverseAt(v, i);
      }
    }
  }

  lemma NoEmptyName(v: seq<bytes>, accepts: bytes -> bool, reverse: bool)
    requires IsNames(v)
    ensures [] !in Filter(Turned(v, reverse), accepts)
  {
    FilterElements(Turned(v, reverse), accepts, []);
    if reverse && [] in Reverse(v) {
      var i :| 0 <= i < |v| && Reverse(v)[i] == [];
      ReverseAt(v, i);
    }
  }

  lemma {:induction false} FilterElements(w: seq<bytes>, accepts: bytes -> bool, n: bytes)
    ensures n in Filter(w, accepts) <==> n in w && accepts(n)
  {
    if w != [] {
      FilterElements(w[1..], accepts, n);
      assert n in w <==> n == w[0] || n in w[1..];
    }
  }

  /** A name equal to the end marker closes a page that is not the last. */
  predicate EndsEarly(f: seq<bytes>, count: nat, end: bytes)
    requires count >= 1
  {
    exists i :: 0 <= i < |f| - 1 && f[i] == end && ClosesPage(i, count)
  }

  predicate ClosesPage(i: nat, count: nat)
    requires count >= 1
  {
    (i + 1) % count == 0
  }

  /** With a marker that can be a name, names are lost exactly if it is the last of a page with names to follow. */
  lemma {:induction false} PagesIff(f: seq<bytes>, count: nat, end: bytes)
    requires count >= 1
    ensures Pages(f, count, end) == f <==> !EndsEarly(f, count, end)
  {
    if |f| >= count {
      var rest := f[count..];
      assert f == f[..count] + rest;
      PagesIff(rest, count, end);
      EndsEarlyStep(f, count, end);
      if f[count - 1] != end {
        assert (f[..count] + Pages(rest, count, end))[count..] == Pages(rest, count, end);
      } else {
        assert |f[..count]| == count;
      }
    } else {
      forall i | 0 <= i < |f| - 1 ensures !ClosesPage(i, count) { SmallMod(i + 1, count); }
    }
  }

  lemma SmallMod(a: nat, n: nat)
    requires 0 < a < n
    ensures a % n == a
  {
  }

  lemma ModStep(a: nat, n: nat)
    requires n >= 1
    ensures (a + n) % n == a % n
  {
    assert (a + n) / n == a / n + 1 by { DivStep(a, n); }
  }

  lemma DivStep(a: nat, n: nat)
    requires n >= 1
    ensures (a + n) / n == a / n + 1
  {
    var q, r := a / n, a % n;
    assert a == q * n + r && a + n == (q + 1) * n + r;
    DivUnique(a + n, n, q + 1, r);
  }

  lemma DivUnique(a: nat, n: nat, q: nat, r: nat)
    requires n >= 1 && a == q * n + r && r < n
    ensures a / n == q && a % n == r
  {
    var q', r' := a / n, a % n;
    assert (q' - q) * n == r - r';
    if q' > q { MulAtLeast(q' - q, n); }
    if q' < q { MulAtLeast(q - q', n); }
  }

  lemma MulAtLeast(x: nat, n: nat)
    requires x >= 1
    ensures x * n >= n
  {
  }

  lemma EndsEarlyStep(f: seq<bytes>, count: nat, end: bytes)
    requires count >= 1 && |f| >= count
    ensures EndsEarly(f, count, end) <==> (f[count - 1] == end && |f| > count) || EndsEarly(f[count..], count, end)
  {
    var rest := f[count..];
    if i :| 0 <= i < |f| - 1 && f[i] == end && ClosesPage(i, count) {
      if i >= count {
        ModStep(i + 1 - count, count);
        assert rest[i - count] == end && ClosesPage(i - count, count);
      } else if i < count - 1 {
        SmallMod(i + 1, count);
      }
    }
    if f[count - 1] == end && |f| > count {
      DivUnique(count, count, 1, 0);
      assert f[count - 1] == end && ClosesPage(count - 1, count);
    }
    if i :| 0 <= i < |rest| - 1 && rest[i] == end && ClosesPage(i, count) {
      ModStep(i + 1, count);
      assert f[i + count] == end && ClosesPage(i + count, count);
    }
  }

  /**
   HSCAN, SSCAN and ZSCAN, whose end marker is the name "0": complete exactly if no page but the last
   ends with that name.
   */
  lemma RedisScanIff(s: Store, d: nat, c: Coll, key: bytes, count: nat, accepts: bytes -> bool, reverse: bool)
    requires ValidStore(s) && KeySizeOK(key) && count >= 1
    ensures var v := Names(s, d, ItemSpace(c, key));
            var f := Filter(Turned(v, reverse), accepts);
            && IsNames(v)
            && (Follow(v, [], count, accepts, reverse, NIL_CURSOR_REDIS) == f <==>
                !EndsEarly(f, count, NIL_CURSOR_REDIS))
  {
    hide Names, Follow, Pages, ValidStore, EndsEarly;
    var v := Names(s, d, ItemSpace(c, key));
    NamesAreNames(s, d, ItemSpace(c, key));
    AfterNothing(v, reverse);
    var w := Turned(v, reverse);
    assert w[0..] == w;
    FollowIsPages(v, 0, count, accepts, reverse, NIL_CURSOR_REDIS, []);
    PagesIff(Filter(w, accepts), count, NIL_CURSOR_REDIS);
  }

  /** A set of the members "0" and "1". */
  function ZeroAndOne(d: nat, key: bytes): (s: Store) {
    map[ItemKey(d, SetColl, key, [48]) := BytesVal([]), ItemKey(d, SetColl, key, [49]) := BytesVal([]),
        SizeKey(d, SetColl, key) := IntVal(2)]
  }

  lemma ZeroAndOneNames(d: nat, key: bytes)
    requires d <= MAX_DATABASES && KeySizeOK(key)
    ensures ValidStore(ZeroAndOne(d, key)) && Names(ZeroAndOne(d, key), d, ItemSpace(SetColl, key)) == [[48], [49]]
  {
    hide SortedKeys;
    var s, sp, w: seq<bytes> := ZeroAndOne(d, key), ItemSpace(SetColl, key), [[48], [49]];
    forall n ensures n in NameSet(s, d, sp) <==> n in w {
      var k := ItemKey(d, SetColl, key, n);
      if n in w { assert k in s && InSpace(d, sp, k) && NameOf(sp, k) == n; }
    }
    assert Lt([48], [49]) && Sorted(w);
    hide NameSet;
    SortedUnique(Names(s, d, sp), w);
  }

  /** SSCAN of the members "0" and "1", one at a time, ends after the first of them. */
  lemma ZeroMarkerLosesMember(d: nat, key: bytes)
    requires d <= MAX_DATABASES && KeySizeOK(key)
    ensures var s, all := ZeroAndOne(d, key), (n: bytes) => true;
            var v := Names(s, d, ItemSpace(SetColl, key));
            ValidStore(s) && v == [[48], [49]] && Follow(v, [], 1, all, false, NIL_CURSOR_REDIS) == [[48]]
  {
    hide Names, ValidStore, ZeroAndOne, After, Follow;
    var all := (n: bytes) => true;
    ZeroAndOneNames(d, key);
    NamesAreNames(ZeroAndOne(d, key), d, ItemSpace(SetColl, key));
    var v: seq<bytes> := [[48], [49]];
    AfterNothing(v, false);
    assert v[0..] == v;
    FollowIsPages(v, 0, 1, all, false, NIL_CURSOR_REDIS, []);
    OneAtATime(v, all);
  }

  lemma OneAtATime(v: seq<bytes>, all: bytes -> bool)
    requires v == [[48], [49]] && all([48]) && all([49])
    ensures Pages(Filter(v, all), 1, NIL_CURSOR_REDIS) == [[48]]
  {
    assert Filter(v[1..], all) == v[1..] by { assert v[1..][1..] == []; }
    assert Filter(v, all) == v;
  }
}
