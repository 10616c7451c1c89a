/**
 Opening a log store over the files of an earlier run (load and tableReaders.check in
 rpl/file_store.go): every table is checked or repaired from its bytes, the tables are sorted, and
 their order is checked. A store that was closed, and one that a crash left with a torn last table,
 comes back with exactly the logs it held.
 */
module Reopening {
  import opened Batches
  import opened Bytes
  import opened LogFiles
  import opened LogStores
  import opened FileStore

  /** The two files of a table and the number in their names. */
  datatype Files = Files(index: int, data: bytes, meta: bytes)

  /** newTableReader refuses a number that is not positive, and load then skips the table. */
  predicate Skipped(f: Files) {
    f.index <= 0
  }

  /** Repairing the table panics, and the process with it. */
  predicate Fatal(f: Files) {
    !Skipped(f) && LoadTable(f.index, f.data, f.meta).None?
  }

  /** Loading the files gives `t`. */
  predicate Yields(f: Files, t: Table) {
    !Skipped(f) && LoadTable(f.index, f.data, f.meta) == Some(t)
  }

  /** What newTableReader makes of the two files. */
  method OpenTable(index: nat, data: bytes, meta: bytes) returns (t: Option<Table>)
    ensures t == LoadTable(index, data, meta)
  {
    hide CheckTable, RepairTable;
    var s := CheckTable(data, meta);
    if s.Some? {
      return Some(Table(index, data, meta, s.value.first, s.value.last, s.value.lastTime));
    }
    var r := FileStore.Repair(data);
    match r
    case Crashed => t := None;
    case Repaired(d, m, hs) =>
      t := Some(if hs == [] then Table(index, d, m, 0, 0, 0)
                else Table(index, d, m, hs[0].1.id, hs[|hs| - 1].1.id, hs[|hs| - 1].1.time));
  }

  /** The tables that the loop of load collects, in the order of the directory. */
  function Collected(files: seq<Files>): (ts: seq<Table>) {
    if files == [] then []
    else
      var f := files[|files| - 1];
      Collected(files[..|files| - 1]) +
      if Skipped(f) || Fatal(f) then [] else [LoadTable(f.index, f.data, f.meta).value]
  }

  // ---------------------------------------------------------------- permutations

  predicate Permutes<T(==)>(a: seq<T>, b: seq<T>) {
    multiset(a) == multiset(b)
  }

  function Without<T>(s: seq<T>, j: nat): (r: seq<T>)
    requires j < |s|
    ensures |r| == |s| - 1
  {
    s[..j] + s[j + 1..]
  }

  lemma WithoutOne<T>(s: seq<T>, j: nat)
    requires j < |s|
    ensures multiset(s) == multiset(Without(s, j)) + multiset{s[j]}
  {
    assert s == s[..j] + [s[j]] + s[j + 1..];
  }

  /** The other sequence has as many elements, and this one among them. */
  lemma PermutedPlace<T>(a: seq<T>, b: seq<T>, i: nat) returns (j: nat)
    requires Permutes(a, b) && i < |a|
    ensures j < |b| == |a| && b[j] == a[i]
  {
    assert |a| == |multiset(a)| == |multiset(b)| == |b|;
    assert a[i] in multiset(b);
    j :| 0 <= j < |b| && b[j] == a[i];
  }

  lemma PermutedSize<T>(a: seq<T>, b: seq<T>)
    requires Permutes(a, b)
    ensures |a| == |b|
  {
    assert |a| == |multiset(a)| == |multiset(b)| == |b|;
  }

  lemma PermuteLess<T>(a: seq<T>, b: seq<T>, i: nat, j: nat)
    requires i < |a| && j < |b| && a[i] == b[j]
    ensures Permutes(a, b) <==> Permutes(Without(a, i), Without(b, j))
  {
    WithoutOne(a, i);
    WithoutOne(b, j);
    var x, y := multiset(Without(a, i)), multiset(Without(b, j));
    assert x == multiset(a) - multiset{a[i]} && y == multiset(b) - multiset{b[j]};
  }

  lemma WithoutLast<T>(s: seq<T>)
    requires s != []
    ensures Without(s, |s| - 1) == s[..|s| - 1] && s == s[..|s| - 1] + [s[|s| - 1]]
  {
  }

  lemma WithoutInserted<T>(s: seq<T>, i: nat, x: T)
    requires i <= |s|
    ensures Without(s[..i] + [x] + s[i..], i) == s
  {
  }

  // ---------------------------------------------------------------- the order of the tables

  predicate ByFirst(ts: seq<Table>) {
    forall i, j :: 0 <= i < j < |ts| ==> ts[i].first <= ts[j].first
  }

  /** tableReaders.check on sorted tables: neither ids nor table numbers overlap. A gap is not looked for. */
  predicate InOrder(ts: seq<Table>) {
    && (ts != [] ==> 0 < ts[0].first <= ts[0].last)
    && (forall i :: 1 <= i < |ts| ==> ts[i - 1].last < ts[i].first && ts[i - 1].index < ts[i].index)
  }

  /** `ts` is the collected tables, sorted, and they pass the check. */
  ghost predicate Accepted(files: seq<Files>, ts: seq<Table>) {
    Permutes(ts, Collected(files)) && ByFirst(ts) && InOrder(ts)
  }

  /** Moves a table to its place among sorted ones. */
  method Insert(ts: seq<Table>, t: Table) returns (r: seq<Table>)
    requires ByFirst(ts)
    ensures ByFirst(r) && Permutes(r, ts + [t])
  {
    hide Permutes, Without;
    var i := |ts|;
    while i > 0 && ts[i - 1].first > t.first
      invariant 0 <= i <= |ts|
      invariant forall j :: i <= j < |ts| ==> ts[j].first > t.first
    {
      i := i - 1;
    }
    r := ts[..i] + [t] + ts[i..];
    WithoutInserted(ts, i, t);
    WithoutLast(ts + [t]);
    assert (ts + [t])[..|ts|] == ts;
    PermutesItself(ts);
    PermuteLess(r, ts + [t], i, |ts|);
  }

  lemma PermutesItself(ts: seq<Table>)
    ensures Permutes(ts, ts)
  {
  }

  lemma PermutesOn(a: seq<Table>, b: seq<Table>, c: seq<Table>, t: Table)
    requires Permutes(a, b + [t]) && Permutes(b, c)
    ensures Permutes(a, c + [t])
  {
  }

  /** sort.Sort by first id. */
  method SortTables(ts: seq<Table>) returns (r: seq<Table>)
    ensures ByFirst(r) && Permutes(r, ts)
  {
    hide Permutes;
    r := [];
    PermutesItself(r);
    for i := 0 to |ts|
      invariant ByFirst(r) && Permutes(r, ts[..i])
    {
      assert ts[..i + 1] == ts[..i] + [ts[i]];
      var more := Insert(r, ts[i]);
      PermutesOn(more, r, ts[..i], ts[i]);
      r := more;
    }
    assert ts[..|ts|] == ts;
  }

  /** The loop of check. */
  method CheckOrder(ts: seq<Table>) returns (ok: bool)
    ensures ok <==> InOrder(ts)
  {
    if |ts| == 0 {
      return true;
    }
    if ts[0].first == 0 || ts[0].first > ts[0].last {
      return false;
    }
    var last, index := ts[0].last, ts[0].index;
    for i := 1 to |ts|
      invariant last == ts[i - 1].last && index == ts[i - 1].index
      invariant forall j :: 1 <= j < i ==> ts[j - 1].last < ts[j].first && ts[j - 1].index < ts[j].index
    {
      if ts[i].first <= last || ts[i].index <= index {
        return false;
      }
      last, index := ts[i].last, ts[i].index;
    }
    ok := true;
  }

  lemma {:induction false} ScanIncreases(data: bytes, pos: nat, last: nat)
    ensures var r := RepairScan(data, pos, last);
            r.Stops? && r.heads != [] ==> last < r.heads[0].1.id <= r.heads[|r.heads| - 1].1.id
    decreases |data| + LOG_HEAD_SIZE - pos
  {
    Inside(data, pos);
    hide DecodeHeadAt;
    var h := DecodeHeadAt(data, pos);
    if h.Some? && h.value.id != 0 && (last == 0 || h.value.id > last) {
      ScanIncreases(data, pos + LOG_HEAD_SIZE + h.value.len, h.value.id);
    }
  }

  /** Whatever the bytes are, a loaded table does not end before it begins. */
  lemma LoadedBounds(f: Files, t: Table)
    requires Yields(f, t)
    ensures t.first <= t.last && t.index == f.index
  {
    hide RepairScan, DecodeHeadAt, Cut, IndexOf;
    ScanIncreases(f.data, 0, 0);
  }

  lemma {:induction false} CollectedBounds(files: seq<Files>, t: Table)
    requires t in Collected(files)
    ensures t.first <= t.last && t.index > 0
  {
    hide LoadTable;
    var n := |files| - 1;
    if t in Collected(files[..n]) {
      CollectedBounds(files[..n], t);
    } else {
      LoadedBounds(files[n], t);
    }
  }

  /** Tables that pass the check are in strictly rising order. */
  lemma {:induction false} Rising(ts: seq<Table>, i: nat, j: nat)
    requires InOrder(ts) && i < j < |ts| && forall t :: t in ts ==> t.first <= t.last
    ensures ts[i].last < ts[j].first && ts[i].index < ts[j].index
  {
    assert ts[j - 1].last < ts[j].first && ts[j - 1].index < ts[j].index;
    if i < j - 1 {
      Rising(ts, i, j - 1);
      assert ts[j - 1] in ts;
    }
  }

  ghost predicate StrictlyByFirst(ts: seq<Table>) {
    forall i, j :: 0 <= i < j < |ts| ==> ts[i].first < ts[j].first
  }

  lemma SameLast(a: seq<Table>, b: seq<Table>)
    requires Permutes(a, b) && |a| == |b| > 0 && ByFirst(a) && StrictlyByFirst(b)
    ensures a[|a| - 1] == b[|b| - 1]
  {
    var n := |a| - 1;
    PermutesBack(a, b);
    hide Permutes;
    var i := PermutedPlace(a, b, n);
    var j := PermutedPlace(b, a, n);
    assert a[j].first <= a[n].first;
  }

  lemma PermutesBack(a: seq<Table>, b: seq<Table>)
    requires Permutes(a, b)
    ensures Permutes(b, a)
  {
  }

  /** Sorting tables with different first ids has one outcome. */
  lemma {:induction false} OneSorting(a: seq<Table>, b: seq<Table>)
    requires Permutes(a, b) && ByFirst(a) && StrictlyByFirst(b)
    ensures a == b
    decreases |a|
  {
    hide Permutes, Without;
    PermutedSize(a, b);
    if a != [] {
      var n := |a| - 1;
      SameLast(a, b);
      PermuteLess(a, b, n, n);
      WithoutLast(a);
      WithoutLast(b);
      OneSorting(a[..n], b[..n]);
    }
  }

  /** What is accepted is determined by the files. */
  lemma AcceptedOnce(files: seq<Files>, a: seq<Table>, b: seq<Table>)
    requires Permutes(a, Collected(files)) && ByFirst(a) && Accepted(files, b)
    ensures a == b
  {
    assert Permutes(a, b);
    hide Permutes;
    forall t | t in b ensures t.first <= t.last {
      var i :| 0 <= i < |b| && b[i] == t;
      var _ := PermutedPlace(b, Collected(files), i);
      CollectedBounds(files, t);
    }
    forall i, j | 0 <= i < j < |b| ensures b[i].first < b[j].first {
      Rising(b, i, j);
      assert b[i] in b;
    }
    OneSorting(a, b);
  }

  // ---------------------------------------------------------------- load

  datatype Loading = Loaded(tables: seq<Table>) | Misordered | Died

  /** load: it fails only where no order of the tables passes the check, or where a repair panics. */
  method LoadTables(files: seq<Files>) returns (r: Loading)
    ensures r.Died? <==> exists f :: f in files && Fatal(f)
    ensures r.Loaded? ==> Accepted(files, r.tables)
    ensures r.Misordered? ==> forall ts :: !Accepted(files, ts)
  {
    hide LoadTable;
    var ts: seq<Table> := [];
    for i := 0 to |files|
      invariant ts == Collected(files[..i]) && forall f :: f in files[..i] ==> !Fatal(f)
    {
      var f := files[i];
      assert files[..i + 1][..i] == files[..i];
      if f.index > 0 {
        var t := OpenTable(f.index, f.data, f.meta);
        if t.None? {
          assert Fatal(f);
          return Died;
        }
        ts := ts + [t.value];
      }
    }
    assert files[..|files|] == files;
    var sorted := SortTables(ts);
    var ok := CheckOrder(sorted);
    if !ok {
      forall other ensures !Accepted(files, other) {
        if Accepted(files, other) {
          AcceptedOnce(files, sorted, other);
        }
      }
      return Misordered;
    }
    r := Loaded(sorted);
  }

  // ---------------------------------------------------------------- what comes back

  /** Each of the files `fs` gives the table at the same place in `ts`. */
  ghost predicate YieldAll(fs: seq<Files>, ts: seq<Table>) {
    |fs| == |ts| && forall i :: 0 <= i < |fs| ==> Yields(fs[i], ts[i])
  }

  /** The order of the directory does not matter to what is collected. */
  lemma {:induction false} CollectedAnyOrder(files: seq<Files>, fs: seq<Files>, ts: seq<Table>)
    requires Permutes(files, fs) && YieldAll(fs, ts)
    ensures Permutes(ts, Collected(files))
    ensures forall f :: f in files ==> !Fatal(f)
    decreases |files|
  {
    hide LoadTable, Skipped, Fatal, Permutes, Without, Yields, Collected;
    PermutedSize(files, fs);
    if files == [] {
      NoneCollected();
    } else {
      var n := |files| - 1;
      var j := PermutedPlace(files, fs, n);
      PermuteLess(files, fs, n, j);
      WithoutLast(files);
      YieldRest(fs, ts, j);
      CollectedAnyOrder(files[..n], Without(fs, j), Without(ts, j));
      CollectedLast(files, ts[j]);
      var all := Collected(files);
      WithoutLast(all);
      PermuteLess(ts, all, j, |all| - 1);
    }
  }

  lemma NoneCollected()
    ensures Permutes([], Collected([]))
  {
  }

  lemma YieldRest(fs: seq<Files>, ts: seq<Table>, j: nat)
    requires YieldAll(fs, ts) && j < |fs|
    ensures YieldAll(Without(fs, j), Without(ts, j))
  {
    hide Yields;
  }

  lemma CollectedLast(files: seq<Files>, t: Table)
    requires files != [] && Yields(files[|files| - 1], t)
    ensures Collected(files) == Collected(files[..|files| - 1]) + [t] && !Fatal(files[|files| - 1])
  {
  }

  lemma HoldAllInOrder(ts: seq<Table>, logs: seq<Log>)
    requires HoldAll(ts, logs)
    ensures ByFirst(ts) && InOrder(ts)
  {
    hide Holds, Consecutive, Tile;
    if logs != [] {
      TilesAreOrdered(ts, logs, logs[0].id + |logs|);
      if ts != [] {
        FirstIsPositive(ts, logs);
      }
      hide Tiles;
      forall i, j | 0 <= i < j < |ts| ensures ts[i].first <= ts[j].first {
        assert ts[i].first <= ts[i].last < ts[j].first;
      }
    }
  }

  lemma FirstIsPositive(ts: seq<Table>, logs: seq<Log>)
    requires HoldAll(ts, logs) && ts != []
    ensures ts[0].first > 0
  {
    assert Tile(ts, logs, logs[0].id + |logs|, 0);
    HoldsBounds(ts[0], Sub(logs, ts[0].first, ts[0].last));
  }

  /** Files, in any order, whose tables hold exactly `logs` are accepted as those tables. */
  lemma LoadsBack(files: seq<Files>, fs: seq<Files>, ts: seq<Table>, logs: seq<Log>)
    requires Permutes(files, fs) && YieldAll(fs, ts) && HoldAll(ts, logs)
    ensures Accepted(files, ts) && forall f :: f in files ==> !Fatal(f)
  {
    hide HoldAll, ByFirst, InOrder, YieldAll, Fatal;
    CollectedAnyOrder(files, fs, ts);
    HoldAllInOrder(ts, logs);
  }

  function FilesOf(ts: seq<Table>): (fs: seq<Files>) {
    seq(|ts|, i requires 0 <= i < |ts| => Files(ts[i].index, ts[i].data, ts[i].meta))
  }

  /** The files of a store that was closed. */
  lemma ClosedYield(ts: seq<Table>, logs: seq<Log>, next: nat, n: nat)
    requires (ts == [] || Tiles(ts, logs, next)) && Numbered(ts, n)
    ensures YieldAll(FilesOf(ts), ts)
  {
    hide LoadTable, Holds, Consecutive;
    forall i | 0 <= i < |ts| ensures Yields(FilesOf(ts)[i], ts[i]) {
      assert Tile(ts, logs, next, i);
      LoadClosedTable(ts[i], Sub(logs, ts[i].first, ts[i].last));
    }
  }

  /** A store that was closed comes back with exactly its logs, whatever the order of the directory. */
  lemma ClosedLoadsBack(files: seq<Files>, ts: seq<Table>, logs: seq<Log>)
    requires HoldAll(ts, logs) && Permutes(files, FilesOf(ts))
    ensures Accepted(files, ts) && forall f :: f in files ==> !Fatal(f)
  {
    hide Tiles, Numbered, FilesOf, Fatal, Accepted, YieldAll;
    ClosedYield(ts, logs, if logs == [] then 0 else logs[0].id + |logs|, NextIndex(ts));
    LoadsBack(files, FilesOf(ts), ts, logs);
  }

  /** The check of the order does not look for a gap: a store that lost any one of its tables still opens. */
  lemma LostTableUnnoticed(ts: seq<Table>, logs: seq<Log>, k: nat)
    requires HoldAll(ts, logs) && k < |ts|
    ensures Accepted(FilesOf(Without(ts, k)), Without(ts, k))
  {
    hide LoadTable, Tiles, Numbered, Permutes;
    var rest := Without(ts, k);
    ClosedYield(ts, logs, logs[0].id + |logs|, NextIndex(ts));
    assert YieldAll(FilesOf(rest), rest);
    FilesPermute(FilesOf(rest));
    CollectedAnyOrder(FilesOf(rest), FilesOf(rest), rest);
    HoldAllInOrder(ts, logs);
    StillInOrder(ts, logs, k);
  }

  lemma FilesPermute(fs: seq<Files>)
    ensures Permutes(fs, fs)
  {
  }

  lemma StillInOrder(ts: seq<Table>, logs: seq<Log>, k: nat)
    requires HoldAll(ts, logs) && k < |ts|
    ensures ByFirst(Without(ts, k)) && InOrder(Without(ts, k))
  {
    hide Tiles, ByFirst, Numbered;
    HoldAllInOrder(ts, logs);
    TilesAreOrdered(ts, logs, logs[0].id + |logs|);
    var rest := Without(ts, k);
    forall i | 1 <= i < |rest| ensures rest[i - 1].last < rest[i].first && rest[i - 1].index < rest[i].index {
      RestRises(ts, k, i);
    }
    if rest != [] && k == 0 {
      assert rest[0] == ts[1] && ts[0].last < ts[1].first;
    }
    RestByFirst(ts, k);
  }

  lemma RestRises(ts: seq<Table>, k: nat, i: nat)
    requires InOrder(ts) && k < |ts| && 1 <= i < |ts| - 1 && forall t :: t in ts ==> t.first <= t.last
    ensures var rest := Without(ts, k); rest[i - 1].last < rest[i].first && rest[i - 1].index < rest[i].index
  {
    hide InOrder;
    Rising(ts, if i - 1 < k then i - 1 else i, if i < k then i else i + 1);
  }

  lemma RestByFirst(ts: seq<Table>, k: nat)
    requires ByFirst(ts) && k < |ts|
    ensures ByFirst(Without(ts, k))
  {
  }

  /** What a crash leaves of the table being written: its complete logs, a torn end, some index. */
  ghost predicate Torn(f: Files, logs: seq<Log>, tail: bytes) {
    && f.index > 0 && f.data == DataOf(logs) + tail && HarmlessTail(tail)
    && CheckTable(f.data, f.meta).None?
  }

  /** A store comes back with what its last table is loaded with. */
  lemma LastTableLoads(files: seq<Files>, ts: seq<Table>, open: seq<Log>, logs: seq<Log>, f: Files, t: Table)
    requires Yields(f, t) && Laid(ts, f.index, open, logs) && open != [] && Holds(t, open)
    requires Permutes(files, FilesOf(ts) + [f])
    ensures HoldAll(ts + [t], logs) && Accepted(files, ts + [t]) && forall g :: g in files ==> !Fatal(g)
  {
    hide Holds, HoldAll, LoadTable, Fatal, Accepted, Tiles, Numbered;
    LoadedBounds(f, t);
    LaidCloses(ts, open, logs, t);
    ClosedYield(ts, logs, OpenStart(logs, open), f.index);
    assert YieldAll(FilesOf(ts) + [f], ts + [t]);
    LoadsBack(files, FilesOf(ts) + [f], ts + [t], logs);
  }

  /**
   A store whose last table a crash left open comes back with exactly its complete logs: the table
   is repaired to the one that closing it would have left.
   */
  lemma TornLoadsBack(files: seq<Files>, ts: seq<Table>, open: seq<Log>, logs: seq<Log>, f: Files, tail: bytes)
    returns (t: Table)
    requires Torn(f, open, tail) && Laid(ts, f.index, open, logs) && open != [] && Consecutive(open) && Fits(open)
    requires Permutes(files, FilesOf(ts) + [f])
    ensures Holds(t, open) && HoldAll(ts + [t], logs)
    ensures Accepted(files, ts + [t]) && forall g :: g in files ==> !Fatal(g)
  {
    hide Holds, Consecutive, Fits, DataOf, CheckTable, LoadTable, HarmlessTail, Fatal, Accepted, Laid, HoldAll, FilesOf;
    LoadTornTable(f.index, open, tail, f.meta);
    t := LoadTable(f.index, f.data, f.meta).value;
    LastTableLoads(files, ts, open, logs, f, t);
  }

  /** What a crash leaves of the table being written `n` bytes into the record of `l`. */
  ghost predicate TornInside(f: Files, logs: seq<Log>, l: Log, n: nat) {
    && f.index > 0 && n <= LogSize(l) && f.data == DataOf(logs) + EncodeLog(l)[..n]
    && CheckTable(f.data, f.meta).None?
  }

  /** Cut behind its head, the last record comes back as well, with zeros for what is missing. */
  lemma PaddedLoadsBack(files: seq<Files>, ts: seq<Table>, open: seq<Log>, logs: seq<Log>, f: Files, l: Log, n: nat)
    returns (t: Table)
    requires TornInside(f, open, l, n) && LOG_HEAD_SIZE <= n && Laid(ts, f.index, open, logs)
    requires Consecutive(open + [l]) && Fits(open + [l]) && (logs != [] ==> l.id == logs[|logs| - 1].id + 1)
    requires Permutes(files, FilesOf(ts) + [f])
    ensures Holds(t, open + [Padded(l, n)]) && HoldAll(ts + [t], logs + [Padded(l, n)])
    ensures Accepted(files, ts + [t]) && forall g :: g in files ==> !Fatal(g)
  {
    hide Holds, Fits, DataOf, EncodeLog, CheckTable, LoadTable, Fatal, Accepted, Laid, HoldAll, FilesOf;
    LoadPaddedTable(f.index, open, l, n, f.meta);
    t := LoadTable(f.index, f.data, f.meta).value;
    assert (open + [l])[|open|] == l;
    LaidGrows(ts, f.index, open, logs, Padded(l, n));
    LastTableLoads(files, ts, open + [Padded(l, n)], logs + [Padded(l, n)], f, t);
  }

  /**
   A table that a crash left without one complete log keeps the whole store from opening: it is
   repaired to a table that begins at id 0.
   */
  lemma EmptyTornBlocks(files: seq<Files>, f: Files, tail: bytes, ts: seq<Table>)
    requires f in files && Torn(f, [], tail)
    ensures !Accepted(files, ts)
  {
    assert f.data == tail;
    assert RepairScan(tail, 0, 0) == Stops([], 0) by {
      if |tail| >= LOG_HEAD_SIZE { assert tail[0..LOG_HEAD_SIZE] == tail[..LOG_HEAD_SIZE]; }
    }
    hide CheckTable, RepairScan, HarmlessTail;
    var t := LoadTable(f.index, f.data, f.meta).value;
    assert Yields(f, t) && t.first == 0;
    CollectedIf(files, f, t);
    ZeroBlocks(files, t, ts);
  }

  lemma ZeroBlocks(files: seq<Files>, t: Table, ts: seq<Table>)
    requires t in Collected(files) && t.first == 0
    ensures !Accepted(files, ts)
  {
    if Permutes(ts, Collected(files)) && ByFirst(ts) {
      assert t in multiset(ts);
      var i :| 0 <= i < |ts| && ts[i] == t;
      assert ts[0].first <= ts[i].first;
    }
  }

  lemma {:induction false} CollectedIf(files: seq<Files>, f: Files, t: Table)
    requires f in files && Yields(f, t)
    ensures t in Collected(files)
  {
    hide LoadTable;
    var n := |files| - 1;
    if files[n] != f {
      CollectedIf(files[..n], f, t);
    }
  }

  // ---------------------------------------------------------------- the store

  /** NewFileStore over the files of an earlier run; no store where loading fails. */
  method Open(maxLogFileSize: int, files: seq<Files>, ghost logs: seq<Log>) returns (s: Store?)
    ensures s == null <==> (exists f :: f in files && Fatal(f)) || (forall ts :: !Accepted(files, ts))
    ensures s != null ==> fresh(s) && fresh(s.w) && Accepted(files, s.rs) && s.w.logs == [] && !s.w.closed
    ensures s != null && HoldAll(s.rs, logs) ==>
              s.Inv() && s.Value() == LogStore(if logs == [] then 0 else logs[0].id, logs)
  {
    hide Accepted, HoldAll, Fatal;
    var r := LoadTables(files);
    if !r.Loaded? {
      return null;
    }
    s := new Store.Load(maxLogFileSize, r.tables, logs);
  }

  /** Closing a store and opening its files gives the same logs back. */
  method Restart(s: Store) returns (t: Store)
    requires s.Inv()
    modifies s, s.w
    ensures fresh(t) && fresh(t.w) && !t.w.closed && t.Inv() && t.Value() == old(s.Value()) && t.w.logs == []
  {
    hide HoldAll, Accepted, Fatal;
    ghost var logs, value := s.all, s.Value();
    var disk := s.Close();
    var files := FilesOf(disk);
    ClosedLoadsBack(files, disk, logs);
    var r := Open(s.maxLogSize, files, logs);
    SameTables(files, r, disk);
    t := r;
  }

  lemma SameTables(files: seq<Files>, s: Store?, ts: seq<Table>)
    requires Accepted(files, ts) && (s != null ==> Accepted(files, s.rs))
    ensures s != null ==> s.rs == ts
  {
    if s != null {
      AcceptedOnce(files, s.rs, ts);
    }
  }

  /** Opening the files that a crash left, the last table torn, gives every complete log back. */
  method Recover(s: Store, tail: bytes, meta: bytes) returns (t: Store)
    requires s.Inv()
    requires s.w.logs != [] ==> HarmlessTail(tail) && CheckTable(s.w.data + tail, meta).None?
    ensures fresh(t) && fresh(t.w) && !t.w.closed && t.Inv() && t.Value() == s.Value() && t.w.logs == []
  {
    hide HoldAll, Accepted, Fatal, Laid, Consecutive, Fits, DataOf, MetaOf, CheckTable, HarmlessTail, FilesOf;
    var files := FilesOf(s.rs);
    ghost var ts := s.rs;
    if s.w.isOpen {
      var f := Files(s.w.index, s.w.data + tail, meta);
      files := files + [f];
      LaidIndex(s.rs, s.w.index, s.w.logs, s.all);
      FilesPermute(files);
      var last := TornLoadsBack(files, s.rs, s.w.logs, s.all, f, tail);
      ts := ts + [last];
    } else {
      LaidClosed(s.rs, s.w.index, s.all);
      FilesPermute(files);
      ClosedLoadsBack(files, ts, s.all);
    }
    var r := Open(s.maxLogSize, files, s.all);
    SameTables(files, r, ts);
    t := r;
  }

  lemma LaidIndex(rs: seq<Table>, index: nat, open: seq<Log>, all: seq<Log>)
    requires Laid(rs, index, open, all)
    ensures index > 0
  {
  }

  /** What a crash leaves on disk `n` bytes into the record of `l`, with `m` bytes of the index written. */
  ghost predicate CrashesInside(s: Store, l: Log, n: nat, m: nat)
    reads s, s.w
  {
    && s.Inv() && ValidLog(l) && !s.w.Refuses(l) && !s.w.NeedsFlush() && s.Continues(l.id)
    && n <= LogSize(l) && m <= |s.w.meta| && l.id < MAGIC_ID
  }

  /**
   Opening the files that a crash left while a log was being written gives every earlier log back,
   and the last one too as soon as its record head was written: with zeros for the bytes that were not.
   */
  method RecoverWrite(s: Store, l: Log, n: nat, m: nat) returns (t: Store)
    requires CrashesInside(s, l, n, m) && (n < LOG_HEAD_SIZE ==> s.w.logs != [])
    ensures fresh(t) && fresh(t.w) && !t.w.closed && t.Inv() && t.w.logs == []
    ensures s.Value().Accepts(l.id)
    ensures t.Value() == if n < LOG_HEAD_SIZE then s.Value() else s.Value().Append(l.id, Padded(l, n))
  {
    hide HoldAll, Accepted, Fatal, Laid, Consecutive, Fits, DataOf, MetaOf, CheckTable, FilesOf, EncodeLog;
    CrashFacts(s, l, n, m);
    var tail, meta := EncodeLog(l)[..n], s.w.meta[..m];
    if n < LOG_HEAD_SIZE {
      t := Recover(s, tail, meta);
    } else {
      var f := Files(s.w.index, s.w.data + tail, meta);
      var files := FilesOf(s.rs) + [f];
      FilesPermute(files);
      ghost var last := PaddedLoadsBack(files, s.rs, s.w.logs, s.all, f, l, n);
      var r := Open(s.maxLogSize, files, s.all + [Padded(l, n)]);
      SameTables(files, r, s.rs + [last]);
      t := r;
    }
  }

  lemma CrashFacts(s: Store, l: Log, n: nat, m: nat)
    requires CrashesInside(s, l, n, m)
    ensures s.w.index > 0 && s.Value().Accepts(l.id) && (s.all != [] ==> l.id == s.all[|s.all| - 1].id + 1)
    ensures Consecutive(s.w.logs + [l]) && Fits(s.w.logs + [l])
    ensures CheckTable(s.w.data + EncodeLog(l)[..n], s.w.meta[..m]).None?
    ensures n < LOG_HEAD_SIZE ==> HarmlessTail(EncodeLog(l)[..n])
  {
    hide Laid, DataOf, MetaOf, CheckTable;
    s.Bounds();
    s.RefusesIff(l);
    s.ContinuesIff(l);
    s.w.Started();
    LaidIndex(s.rs, s.w.index, s.w.logs, s.all);
    AppendKeeps(s.w.logs, l);
    SmallIDs(s.w.logs, l);
    RecordNotMagic(l, n);
    OpenTableFailsCheck(s.w.logs, EncodeLog(l)[..n], m);
  }

  lemma SmallIDs(logs: seq<Log>, l: Log)
    requires Consecutive(logs + [l]) && Fits(logs) && l.id < MAGIC_ID
    ensures SmallLogs(logs)
  {
    hide OffsetOf, ValidLog;
    var more := logs + [l];
    assert more[|logs|].id == more[0].id + |logs|;
    forall i | 0 <= i < |logs| ensures logs[i].id < MAGIC_ID {
      assert more[i] == logs[i] && more[i].id == more[0].id + i;
    }
  }

  lemma RecordNotMagic(l: Log, n: nat)
    requires ValidLog(l) && n <= LogSize(l) && l.id < MAGIC_ID
    ensures NotMagic(EncodeLog(l)[..n])
  {
    if LOG_HEAD_SIZE <= n {
      HeadRoundTrip(l.id, l.time, l.compression, |l.data|);
      assert EncodeLog(l)[..n][..LOG_HEAD_SIZE] == EncodeHead(l.id, l.time, l.compression, |l.data|);
    }
  }

  /**
   The writer checks ids against its own table only: a store that is reopened with log 1 takes log 5
   next, and then holds these two.
   */
  method GapAfterReopen() returns (s: Store)
    ensures |s.Held()| == 2 && s.Held()[0].id == 1 && s.Held()[1].id == 5 && !Consecutive(s.Held())
  {
    hide Consecutive, Fits, Numbered, Tiles, LogsOf, Store.Held, DataOf, MetaOf;
    var one, five := Log(1, 0, 0, []), Log(5, 0, 0, []);
    var first := new Store(0);
    first.HeldIsAll();
    var stored := first.StoreLog(one);
    s := Restart(first);
    s.HeldIsAll();
    assert s.Value().logs == [one];
    assert !s.Continues(five.id);
    var taken := s.StoreLog(five);
    assert s.Held() == [one] + [five];
  }
}
