/**
 The rolling log store (rpl/file_table.go, rpl/file_store.go): one table being written, closed
 tables before it, ids running on from table to table. From the outside it is a plain sequence of
 consecutive logs.
 */
module FileStore {
  import opened Batches
  import opened Bytes
  import opened LogFiles
  import opened LogStores

  const MAX_LOG_FILE_SIZE: int := 0x4000_0000
  const DEFAULT_MAX_LOG_FILE_SIZE: int := 0x1000_0000

  /** A size of 0 means the default of 256 MiB, and 1 GiB is the limit. */
  function LogFileSize(configured: int): (size: int)
    ensures size <= 1073741824 && (0 != configured <= 1073741824 ==> size == configured)
    ensures configured == 0 ==> size == 268435456
    ensures configured > 1073741824 ==> size == 1073741824
  {
    var size := if configured == 0 then DEFAULT_MAX_LOG_FILE_SIZE else configured;
    if size > MAX_LOG_FILE_SIZE then MAX_LOG_FILE_SIZE else size
  }

  /** Every offset of the table survives the cut to 32 bits. */
  predicate Fits(logs: seq<Log>) {
    forall i :: 0 <= i < |logs| ==> OffsetOf(logs, i) < TWO_32
  }

  /** A closed table: its two files and the bounds the reader keeps. */
  datatype Table = Table(index: nat, data: bytes, meta: bytes, first: nat, last: nat, lastTime: nat)

  /** The files and the bounds are those of `logs`. */
  ghost predicate Holds(t: Table, logs: seq<Log>) {
    && logs != [] && Consecutive(logs) && Fits(logs)
    && t.data == DataOf(logs) + MAGIC && t.meta == MetaOf(logs)
    && t.first == logs[0].id && t.last == logs[|logs| - 1].id && t.lastTime == logs[|logs| - 1].time
  }

  lemma ConsecutiveAt(logs: seq<Log>, id: nat)
    requires Consecutive(logs) && logs != [] && logs[0].id <= id <= logs[|logs| - 1].id
    ensures 0 <= id - logs[0].id < |logs| && logs[id - logs[0].id].id == id
  {
  }

  /** tableReader.GetLog. */
  method ReadTable(t: Table, id: nat, ghost logs: seq<Log>) returns (r: Result<Log>)
    requires Holds(t, logs)
    ensures r == if t.first <= id <= t.last then Ok(logs[id - t.first]) else Err(ErrLogNotFound)
  {
    if id < t.first || id > t.last {
      return Err(ErrLogNotFound);
    }
    ConsecutiveAt(logs, id);
    ReadThroughIndex(logs, MAGIC, id - t.first);
    hide DataOf, MetaOf, LogPos, DecodeAt, DecodeHeadAt;
    var pos := LogPos(t.meta, id - t.first);
    var l := DecodeAt(t.data, pos);
    if l.None? || l.value.id != id {
      return Err(ErrCorrupt);
    }
    r := Ok(l.value);
  }

  /** The logs of a table, each read through the index. */
  ghost function TableLogs(t: Table): (logs: seq<Log>) {
    if t.first <= t.last && 4 * (t.last - t.first + 1) <= |t.meta| then
      seq(t.last - t.first + 1, i requires 0 <= i <= t.last - t.first =>
        match DecodeAt(t.data, LogPos(t.meta, i)) case Some(l) => l case None => Log(0, 0, 0, []))
    else []
  }

  lemma HeldLogs(t: Table, logs: seq<Log>)
    requires Holds(t, logs)
    ensures TableLogs(t) == logs
  {
    hide DataOf, MetaOf, LogPos, DecodeAt, DecodeHeadAt;
    assert logs[|logs| - 1].id == logs[0].id + |logs| - 1;
    forall i | 0 <= i < |logs| ensures DecodeAt(t.data, LogPos(t.meta, i)) == Some(logs[i]) {
      ReadThroughIndex(logs, MAGIC, i);
    }
  }

  /** The logs of several tables, one table after the other. */
  ghost function LogsOf(rs: seq<Table>): (logs: seq<Log>) {
    if rs == [] then [] else LogsOf(rs[..|rs| - 1]) + TableLogs(rs[|rs| - 1])
  }

  /** What a scan finds after the heads found so far. */
  function Found(heads: seq<(nat, LogHead)>, rest: ScanResult): (r: ScanResult) {
    if rest.Panics? then Panics else Stops(heads + rest.heads, rest.end)
  }

  lemma FoundOne(heads: seq<(nat, LogHead)>, h: (nat, LogHead), rest: ScanResult)
    ensures Found(heads, Found([h], rest)) == Found(heads + [h], rest)
    ensures rest.Stops? && rest.heads == [] ==> Found(heads, rest) == Stops(heads, rest.end)
  {
    if rest.Stops? {
      assert heads + ([h] + rest.heads) == heads + [h] + rest.heads;
    }
  }

  /** The scanning loop of tableReader.repair. */
  method Repair(data: bytes) returns (r: Repair)
    ensures r == RepairTable(data)
  {
    hide DecodeHeadAt, Cut, IndexOf, Found;
    var pos, last := 0, 0;
    var heads: seq<(nat, LogHead)> := [];
    FoundNone(RepairScan(data, 0, 0));
    while true
      invariant Found(heads, RepairScan(data, pos, last)) == RepairScan(data, 0, 0)
      invariant pos <= |data| + LOG_HEAD_SIZE || DecodeHeadAt(data, pos).None?
      decreases |data| + LOG_HEAD_SIZE - pos
    {
      Inside(data, pos);
      var h := DecodeHeadAt(data, pos);
      if h.None? || h.value.id == 0 {
        FoundOne(heads, (0, LogHead(0, 0, 0, 0)), RepairScan(data, pos, last));
        return Repaired(Cut(data, pos) + MAGIC, IndexOf(heads), heads);
      }
      if last != 0 && h.value.id <= last {
        FoundPanics(heads);
        return Crashed;
      }
      ghost var rest := RepairScan(data, pos + LOG_HEAD_SIZE + h.value.len, h.value.id);
      FoundOne(heads, (pos, h.value), rest);
      FoundHead((pos, h.value), rest);
      heads := heads + [(pos, h.value)];
      last := h.value.id;
      pos := pos + LOG_HEAD_SIZE + h.value.len;
      Inside(data, pos);
    }
  }

  lemma FoundNone(rest: ScanResult)
    ensures Found([], rest) == rest
  {
    assert rest.Stops? ==> [] + rest.heads == rest.heads;
  }

  lemma FoundPanics(heads: seq<(nat, LogHead)>)
    ensures Found(heads, Panics) == Panics
  {
  }

  lemma FoundHead(h: (nat, LogHead), rest: ScanResult)
    ensures Found([h], rest) == match rest case Panics => Panics case Stops(hs, end) => Stops([h] + hs, end)
  {
  }

  lemma Inside(data: bytes, pos: nat)
    ensures DecodeHeadAt(data, pos).Some? ==> pos + LOG_HEAD_SIZE <= |data|
  {
  }

  /** newTableReader: the files are taken as they are if they pass the check, and repaired otherwise. */
  function LoadTable(index: nat, data: bytes, meta: bytes): (t: Option<Table>) {
    match CheckTable(data, meta)
    case Some(s) => Some(Table(index, data, meta, s.first, s.last, s.lastTime))
    case None =>
      match RepairTable(data)
      case Crashed => None
      case Repaired(d, m, hs) =>
        if hs == [] then Some(Table(index, d, m, 0, 0, 0))
        else Some(Table(index, d, m, hs[0].1.id, hs[|hs| - 1].1.id, hs[|hs| - 1].1.time))
  }

  /** A table that was closed is loaded unchanged. */
  lemma LoadClosedTable(t: Table, logs: seq<Log>)
    requires Holds(t, logs)
    ensures LoadTable(t.index, t.data, t.meta) == Some(t)
  {
    hide DataOf, MetaOf, CheckTable;
    CheckedTable(logs);
  }

  /** A table that a crash left open, with a harmless tail and any index, is loaded with all its complete logs. */
  lemma LoadTornTable(index: nat, logs: seq<Log>, tail: bytes, meta: bytes)
    requires logs != [] && Consecutive(logs) && Fits(logs) && HarmlessTail(tail)
    requires CheckTable(DataOf(logs) + tail, meta).None?
    ensures var t := LoadTable(index, DataOf(logs) + tail, meta);
            t.Some? && t.value.index == index && Holds(t.value, logs)
  {
    hide DataOf, MetaOf, CheckTable, RepairTable, HeadsOf, HarmlessTail;
    RepairRecoversIff(logs, tail);
    HeadsAt(logs, 0, 0);
    HeadsAt(logs, 0, |logs| - 1);
  }

  /** A table that a crash left inside a record is loaded with that record too, its missing bytes zero. */
  lemma LoadPaddedTable(index: nat, logs: seq<Log>, l: Log, n: nat, meta: bytes)
    requires Consecutive(logs + [l]) && Fits(logs + [l]) && LOG_HEAD_SIZE <= n <= LogSize(l)
    requires CheckTable(DataOf(logs) + EncodeLog(l)[..n], meta).None?
    ensures var t := LoadTable(index, DataOf(logs) + EncodeLog(l)[..n], meta);
            t.Some? && t.value.index == index && Holds(t.value, logs + [Padded(l, n)])
  {
    hide DataOf, MetaOf, CheckTable, RepairTable, HeadsOf, EncodeLog;
    var more := logs + [Padded(l, n)];
    RepairPadsRecord(logs, l, n);
    HeadsAt(more, 0, 0);
    HeadsAt(more, 0, |more| - 1);
    PaddedFits(logs, l, n);
  }

  lemma PaddedFits(logs: seq<Log>, l: Log, n: nat)
    requires Consecutive(logs + [l]) && Fits(logs + [l]) && LOG_HEAD_SIZE <= n <= LogSize(l)
    ensures Consecutive(logs + [Padded(l, n)]) && Fits(logs + [Padded(l, n)])
  {
    hide DataOf;
    var a, b := logs + [l], logs + [Padded(l, n)];
    forall i | 0 <= i < |b| ensures OffsetOf(b, i) < TWO_32 {
      assert a[..i] == b[..i] && OffsetOf(a, i) < TWO_32;
    }
    forall i | 0 <= i < |b| ensures ValidLog(b[i]) && b[i].id == b[0].id + i && b[i].id > 0 {
      assert a[i].id == b[i].id && a[0].id == b[0].id && ValidLog(a[i]) && a[i].id == a[0].id + i;
    }
  }

  lemma CheckedTable(logs: seq<Log>)
    requires logs != [] && Consecutive(logs) && Fits(logs)
    ensures CheckTable(DataOf(logs) + MAGIC, MetaOf(logs)) ==
            Some(Summary(logs[0].id, logs[|logs| - 1].id, logs[|logs| - 1].time))
  {
    hide DataOf, MetaOf, CheckTable;
    assert OffsetOf(logs, |logs| - 1) < TWO_32;
    CheckAcceptsClosedTable(logs);
  }

  lemma {:induction false} HeadsAt(logs: seq<Log>, i: nat, j: nat)
    requires i <= j < |logs|
    ensures |HeadsOf(logs, i)| == |logs| - i
    ensures HeadsOf(logs, i)[j - i].1.id == logs[j].id && HeadsOf(logs, i)[j - i].1.time == logs[j].time
    decreases |logs| - i
  {
    hide DataOf;
    if i + 1 < |logs| {
      HeadsAt(logs, i + 1, if j > i then j else i + 1);
    }
  }

  /** A table of the logs is added behind the others. */
  ghost predicate RolledOver(was: seq<Table>, logs: seq<Log>, now: seq<Table>) {
    |now| == |was| + 1 && now[..|was|] == was && Holds(now[|was|], logs)
  }

  /** The table being written. */
  class TableWriter {
    const maxLogSize: int
    var index: nat
    var isOpen: bool
    var closed: bool
    var data: bytes
    var meta: bytes
    var first: nat
    var last: nat
    var lastTime: nat
    ghost var logs: seq<Log>

    ghost predicate Inv()
      reads this
    {
      && maxLogSize <= MAX_LOG_FILE_SIZE
      && (isOpen <==> logs != [])
      && Consecutive(logs) && Fits(logs)
      && data == DataOf(logs) && meta == MetaOf(logs)
      && (logs == [] ==> first == 0 && last == 0)
      && (logs != [] ==> first == logs[0].id && last == logs[|logs| - 1].id && lastTime == logs[|logs| - 1].time)
    }

    constructor (index: nat, maxLogSize: int)
      requires maxLogSize <= MAX_LOG_FILE_SIZE
      ensures Inv() && logs == [] && !closed && this.maxLogSize == maxLogSize && this.index == index
    {
      this.maxLogSize, this.index := maxLogSize, index;
      isOpen, closed := false, false;
      data, meta, first, last, lastTime, logs := [], [], 0, 0, 0, [];
    }

    /** Which of its reasons storeLog has to refuse a log, in the order it looks for them. */
    predicate Refuses(l: Log)
      reads this
    {
      l.id == 0 || closed || (last > 0 && l.id != last + 1)
    }

    predicate NeedsFlush()
      reads this
    {
      isOpen && |data| > maxLogSize
    }

    method StoreLog(l: Log) returns (err: Result<()>)
      requires Inv() && ValidLog(l)
      modifies this
      ensures Inv() && index == old(index) && closed == old(closed)
      ensures err.Ok? <==> !old(Refuses(l)) && !old(NeedsFlush())
      ensures !old(Refuses(l)) && old(NeedsFlush()) <==> err == Err(ErrTableNeedFlush)
      ensures err == Err(ErrTableClosed) <==> l.id > 0 && closed
      ensures logs == if err.Ok? then old(logs) + [l] else old(logs)
      ensures err.Err? ==> unchanged(this)
    {
      if l.id == 0 {
        return Err(ErrStoreLogID);
      }
      if closed {
        return Err(ErrTableClosed);
      }
      if last > 0 && l.id != last + 1 {
        return Err(ErrStoreLogID);
      }
      if isOpen && |data| > maxLogSize {
        return Err(ErrTableNeedFlush);
      }
      Append(l);
      err := Ok(());
    }

    lemma Started()
      requires Inv()
      ensures isOpen <==> logs != []
      ensures logs == [] ==> first == 0 && last == 0
      ensures logs != [] ==> 0 < first == logs[0].id && 0 < last == logs[|logs| - 1].id
      ensures !NeedsFlush() ==> |data| < TWO_32
      ensures NeedsFlush() <==> logs != [] && |DataOf(logs)| > maxLogSize
    {
    }

    /** The record goes to the data file and its offset to the index. */
    method Append(l: Log)
      requires Inv() && ValidLog(l) && !Refuses(l) && !NeedsFlush()
      modifies this
      ensures Inv() && index == old(index) && closed == old(closed) && logs == old(logs) + [l]
    {
      hide DataOf, MetaOf, Fits, Consecutive, EncodeLog, BigEndian;
      Started();
      AppendKeeps(logs, l);
      isOpen := true;
      var offset := |data|;
      data := data + EncodeLog(l);
      meta := meta + BigEndian(offset % TWO_32, 4);
      if first == 0 {
        first := l.id;
      }
      last := l.id;
      lastTime := l.time;
      logs := logs + [l];
    }

    /** GetLog through the index, while the table is still open. */
    method GetLog(id: nat) returns (r: Result<Log>)
      requires Inv() && id >= 1
      ensures r == if logs != [] && first <= id <= last then Ok(logs[id - first]) else Err(ErrLogNotFound)
    {
      if id < first || id > last {
        return Err(ErrLogNotFound);
      }
      ConsecutiveAt(logs, id);
      ReadThroughIndex(logs, [], id - first);
      assert DataOf(logs) + [] == DataOf(logs);
      hide DataOf, MetaOf, LogPos, DecodeAt, DecodeHeadAt;
      var pos := LogPos(meta, id - first);
      var l := DecodeAt(data, pos);
      if l.None? || l.value.id != id {
        return Err(ErrCorrupt);
      }
      r := Ok(l.value);
    }

    /** Closes the files behind the magic mark and starts the next table. */
    method Flush() returns (r: Result<Table>)
      requires Inv()
      modifies this
      ensures Inv() && closed == old(closed)
      ensures r.Ok? <==> old(logs) != []
      ensures r.Ok? ==> Holds(r.value, old(logs)) && r.value.index == old(index)
      ensures r.Ok? ==> logs == [] && index == old(index) + 1
      ensures r.Err? ==> logs == old(logs) && index == old(index)
    {
      if !isOpen {
        return Err(ErrNilHandler);
      }
      r := Ok(Table(index, data + MAGIC, meta, first, last, lastTime));
      isOpen, data, meta := false, [], [];
      first, last, index := 0, 0, index + 1;
      logs := [];
    }

    method Close()
      requires Inv()
      modifies this`closed
      ensures closed
    {
      closed := true;
    }
  }

  lemma AppendKeeps(logs: seq<Log>, l: Log)
    requires Consecutive(logs) && Fits(logs) && ValidLog(l) && l.id > 0
    requires logs != [] ==> l.id == logs[|logs| - 1].id + 1
    requires |DataOf(logs)| < TWO_32
    ensures Consecutive(logs + [l]) && Fits(logs + [l])
    ensures DataOf(logs + [l]) == DataOf(logs) + EncodeLog(l)
    ensures MetaOf(logs + [l]) == MetaOf(logs) + BigEndian(|DataOf(logs)| % TWO_32, 4)
  {
    hide EncodeLog, BigEndian;
    var more := logs + [l];
    assert more[..|logs|] == logs;
    hide DataOf, MetaOf;
    forall i | 0 <= i < |more| ensures OffsetOf(more, i) < TWO_32 {
      if i < |logs| { assert more[..i] == logs[..i] && OffsetOf(logs, i) < TWO_32; }
    }
  }

  // ---------------------------------------------------------------- the closed tables

  /** The logs numbered `lo` to `hi`. */
  ghost function Sub(all: seq<Log>, lo: nat, hi: nat): seq<Log> {
    if all != [] && all[0].id <= lo <= hi < all[0].id + |all| then all[lo - all[0].id..hi + 1 - all[0].id] else []
  }

  /** Where table `i`, or after the last of them the table being written, begins. */
  function StartOf(rs: seq<Table>, i: nat, next: nat): (id: nat)
    requires i <= |rs|
  {
    if i < |rs| then rs[i].first else next
  }

  /** The closed tables split the logs before id `next` between them, in order and without a gap. */
  ghost predicate Tiles(rs: seq<Table>, all: seq<Log>, next: nat) {
    && all != [] && Consecutive(all)
    && all[0].id <= next <= all[0].id + |all|
    && StartOf(rs, 0, next) == all[0].id
    && forall i :: 0 <= i < |rs| ==> Tile(rs, all, next, i)
  }

  ghost predicate Tile(rs: seq<Table>, all: seq<Log>, next: nat, i: nat)
    requires i < |rs|
  {
    Holds(rs[i], Sub(all, rs[i].first, rs[i].last)) && StartOf(rs, i + 1, next) == rs[i].last + 1
  }

  lemma HoldsBounds(t: Table, logs: seq<Log>)
    requires Holds(t, logs)
    ensures logs != [] && 0 < t.first == logs[0].id <= t.last == logs[|logs| - 1].id == t.first + |logs| - 1
  {
    assert logs[|logs| - 1].id == logs[0].id + |logs| - 1;
  }

  /** Tables in order of their ids, none overlapping the next: what the binary search relies on. */
  ghost predicate Ordered(ts: seq<Table>) {
    && (forall i :: 0 <= i < |ts| ==> ts[i].first <= ts[i].last)
    && (forall i, j :: 0 <= i < j < |ts| ==> ts[i].last < ts[j].first)
  }

  /** tableReaders.Search. */
  method Search(ts: seq<Table>, id: nat) returns (found: bool, h: nat)
    requires Ordered(ts)
    ensures found ==> h < |ts| && ts[h].first <= id <= ts[h].last
    ensures !found ==> forall k :: 0 <= k < |ts| ==> !(ts[k].first <= id <= ts[k].last)
  {
    var i, j := 0, |ts| - 1;
    while i <= j
      invariant 0 <= i <= j + 1 <= |ts|
      invariant forall k :: 0 <= k < i ==> ts[k].last < id
      invariant forall k :: j < k < |ts| ==> id < ts[k].first
    {
      h := i + (j - i) / 2;
      if ts[h].first <= id && id <= ts[h].last {
        return true, h;
      } else if ts[h].last < id {
        i := h + 1;
      } else {
        j := h - 1;
      }
    }
    return false, 0;
  }

  lemma {:induction false} StartsIncrease(rs: seq<Table>, all: seq<Log>, next: nat, i: nat, j: nat)
    requires Tiles(rs, all, next) && i <= j <= |rs|
    ensures StartOf(rs, i, next) <= StartOf(rs, j, next) <= next
    ensures i < j ==> rs[i].first <= rs[i].last < StartOf(rs, j, next)
    decreases |rs| - i
  {
    hide Holds, Consecutive, Sub;
    if i < |rs| {
      assert Tile(rs, all, next, i);
      HoldsBounds(rs[i], Sub(all, rs[i].first, rs[i].last));
      StartsIncrease(rs, all, next, i + 1, if j > i then j else i + 1);
    }
  }

  lemma TilesAreOrdered(rs: seq<Table>, all: seq<Log>, next: nat)
    requires Tiles(rs, all, next)
    ensures Ordered(rs)
  {
    hide Tiles;
    forall i | 0 <= i < |rs| ensures rs[i].first <= rs[i].last {
      StartsIncrease(rs, all, next, i, i + 1);
    }
    forall i, j | 0 <= i < j < |rs| ensures rs[i].last < rs[j].first {
      StartsIncrease(rs, all, next, i, j);
    }
  }

  lemma {:induction false} TilesCover(rs: seq<Table>, all: seq<Log>, next: nat, i: nat, id: nat)
    requires Tiles(rs, all, next) && i <= |rs| && StartOf(rs, i, next) <= id < next
    ensures exists k :: i <= k < |rs| && rs[k].first <= id <= rs[k].last
    decreases |rs| - i
  {
    hide Holds, Consecutive, Sub;
    assert Tile(rs, all, next, i);
    if id > rs[i].last {
      TilesCover(rs, all, next, i + 1, id);
    }
  }

  lemma SubAppend(all: seq<Log>, l: Log, lo: nat, hi: nat)
    requires all != [] && hi < all[0].id + |all|
    ensures Sub(all + [l], lo, hi) == Sub(all, lo, hi)
  {
    if all[0].id <= lo <= hi {
      assert (all + [l])[lo - all[0].id..hi + 1 - all[0].id] == all[lo - all[0].id..hi + 1 - all[0].id];
    }
  }

  lemma SubDrop(all: seq<Log>, k: nat, lo: nat, hi: nat)
    requires Consecutive(all) && k < |all| && all[0].id + k <= lo <= hi < all[0].id + |all|
    ensures Sub(all[k..], lo, hi) == Sub(all, lo, hi)
  {
    assert all[k].id == all[0].id + k;
  }

  lemma ConsecutiveAppend(all: seq<Log>, l: Log)
    requires Consecutive(all) && ValidLog(l) && l.id > 0 && (all != [] ==> l.id == all[|all| - 1].id + 1)
    ensures Consecutive(all + [l])
  {
  }

  lemma Appended(a: seq<Log>, b: seq<Log>, l: Log)
    ensures a + (b + [l]) == a + b + [l]
  {
  }

  /** One more log leaves the ids without a gap exactly if it is the next one. */
  lemma GapIff(all: seq<Log>, l: Log)
    requires Consecutive(all) && ValidLog(l) && l.id > 0
    ensures Consecutive(all + [l]) <==> all == [] || l.id == all[|all| - 1].id + 1
  {
    var more := all + [l];
    if Consecutive(more) && all != [] {
      assert more[|all|].id == more[0].id + |all| && more[|all| - 1].id == more[0].id + (|all| - 1);
    }
  }

  lemma ConsecutiveDrop(all: seq<Log>, k: nat)
    requires Consecutive(all) && k < |all|
    ensures Consecutive(all[k..]) && all[k..][0].id == all[0].id + k
  {
    assert all[k].id == all[0].id + k;
    forall i | 0 <= i < |all[k..]|
      ensures ValidLog(all[k..][i]) && all[k..][i].id == all[k].id + i && all[k..][i].id > 0
    {
      assert all[k..][i] == all[k + i];
    }
  }

  lemma TilesAppend(rs: seq<Table>, all: seq<Log>, next: nat, l: Log)
    requires Tiles(rs, all, next) && ValidLog(l) && l.id == all[|all| - 1].id + 1
    ensures Tiles(rs, all + [l], next)
  {
    hide Holds;
    ConsecutiveAppend(all, l);
    assert (all + [l])[0] == all[0];
    forall i | 0 <= i < |rs| ensures Tile(rs, all + [l], next, i) {
      assert Tile(rs, all, next, i);
      StartsIncrease(rs, all, next, i, |rs|);
      SubAppend(all, l, rs[i].first, rs[i].last);
    }
  }

  lemma OpenGrows(rs: seq<Table>, all: seq<Log>, next: nat, open: seq<Log>, l: Log)
    requires ValidLog(l) && l.id > 0 && (all == [] ==> open == [] && rs == [])
    requires all != [] ==> Tiles(rs, all, next) && open == all[next - all[0].id..] && l.id == all[|all| - 1].id + 1
    ensures var more, next' := all + [l], if all == [] then l.id else next;
            Tiles(rs, more, next') && open + [l] == more[next' - more[0].id..]
  {
    hide Holds;
    if all != [] {
      TilesAppend(rs, all, next, l);
    }
  }

  lemma TileFlushed(rs: seq<Table>, all: seq<Log>, next: nat, t: Table, l: Log)
    requires Tiles(rs, all, next) && next < all[0].id + |all| && Holds(t, all[next - all[0].id..])
    requires ValidLog(l) && l.id == all[|all| - 1].id + 1
    ensures t.first == next && Tile(rs + [t], all + [l], l.id, |rs|)
  {
    var open := all[next - all[0].id..];
    HoldsBounds(t, open);
    hide Holds;
    assert open[0] == all[next - all[0].id] && open[|open| - 1] == all[|all| - 1];
    assert all[|all| - 1].id == all[0].id + |all| - 1;
    SubAppend(all, l, t.first, t.last);
    assert Sub(all, t.first, t.last) == open;
  }

  /** The table being written joins the closed ones; the log that caused it starts the next one. */
  lemma TilesFlush(rs: seq<Table>, all: seq<Log>, next: nat, t: Table, l: Log)
    requires Tiles(rs, all, next) && next < all[0].id + |all| && Holds(t, all[next - all[0].id..])
    requires ValidLog(l) && l.id == all[|all| - 1].id + 1
    ensures Tiles(rs + [t], all + [l], l.id)
  {
    var more, ts := all + [l], rs + [t];
    TileFlushed(rs, all, next, t, l);
    TilesAppend(rs, all, next, l);
    hide Holds, Sub;
    assert all[|all| - 1].id == all[0].id + |all| - 1;
    forall i | 0 <= i < |ts| ensures Tile(ts, more, l.id, i) {
      if i < |rs| {
        assert Tile(rs, more, next, i);
      }
    }
  }

  lemma TileClosed(rs: seq<Table>, all: seq<Log>, next: nat, t: Table)
    requires Tiles(rs, all, next) && next < all[0].id + |all| && Holds(t, all[next - all[0].id..])
    ensures t.first == next && Tile(rs + [t], all, all[0].id + |all|, |rs|)
  {
    var open := all[next - all[0].id..];
    HoldsBounds(t, open);
    hide Holds;
    assert open[0] == all[next - all[0].id] && open[|open| - 1] == all[|all| - 1];
    assert all[|all| - 1].id == all[0].id + |all| - 1;
    assert Sub(all, t.first, t.last) == open;
  }

  lemma TilesClose(rs: seq<Table>, all: seq<Log>, next: nat, t: Table)
    requires Tiles(rs, all, next) && next < all[0].id + |all| && Holds(t, all[next - all[0].id..])
    ensures Tiles(rs + [t], all, all[0].id + |all|)
  {
    hide Holds, Sub, Consecutive;
    var ts, end := rs + [t], all[0].id + |all|;
    TileClosed(rs, all, next, t);
    forall i | 0 <= i < |ts| ensures Tile(ts, all, end, i) {
      if i < |rs| {
        assert Tile(rs, all, next, i);
        assert ts[i] == rs[i] && StartOf(ts, i + 1, end) == StartOf(rs, i + 1, next);
      }
    }
  }

  /** Read one after the other, the closed tables give the logs before `next`. */
  lemma {:induction false} TilesLogs(rs: seq<Table>, all: seq<Log>, next: nat, i: nat)
    requires Tiles(rs, all, next) && i <= |rs|
    ensures var k := StartOf(rs, i, next) - all[0].id;
            0 <= k <= |all| && LogsOf(rs[..i]) == all[..k]
  {
    hide Holds, Consecutive, TableLogs;
    DropPoint(rs, all, next, i);
    if i > 0 {
      TilesLogs(rs, all, next, i - 1);
      assert Tile(rs, all, next, i - 1);
      var t := rs[i - 1];
      HeldLogs(t, Sub(all, t.first, t.last));
      HoldsBounds(t, Sub(all, t.first, t.last));
      assert rs[..i][..i - 1] == rs[..i - 1];
    }
  }

  /** Table numbers are positive and grow, up to but not including `next`. */
  ghost predicate Numbered(rs: seq<Table>, next: nat) {
    && (forall i :: 0 <= i < |rs| ==> 0 < rs[i].index < next)
    && (forall i, j :: 0 <= i < j < |rs| ==> rs[i].index < rs[j].index)
  }

  lemma NumberedMore(rs: seq<Table>, t: Table)
    requires Numbered(rs, t.index) && t.index > 0
    ensures Numbered(rs + [t], t.index + 1)
  {
  }

  /** The number of the table a store writes next. */
  function NextIndex(rs: seq<Table>): (n: nat) {
    if rs == [] then 1 else rs[|rs| - 1].index + 1
  }

  lemma NumberedLast(rs: seq<Table>, next: nat)
    requires Numbered(rs, next)
    ensures Numbered(rs, NextIndex(rs))
  {
  }

  /** The closed tables `rs` hold exactly `logs`. */
  ghost predicate HoldAll(rs: seq<Table>, logs: seq<Log>) {
    && Numbered(rs, NextIndex(rs))
    && if logs == [] then rs == [] else Tiles(rs, logs, logs[0].id + |logs|)
  }

  lemma DropPoint(rs: seq<Table>, all: seq<Log>, next: nat, n: nat)
    requires Tiles(rs, all, next) && n <= |rs|
    ensures var k := StartOf(rs, n, next) - all[0].id;
            && 0 <= k <= |all| && StartOf(rs, n, next) <= next && (n < |rs| ==> k < |all|)
            && (k < |all| ==> Consecutive(all[k..]) && all[k..][0].id == StartOf(rs, n, next))
  {
    StartsIncrease(rs, all, next, 0, n);
    StartsIncrease(rs, all, next, n, |rs|);
    var k := StartOf(rs, n, next) - all[0].id;
    if k < |all| {
      ConsecutiveDrop(all, k);
    }
  }

  lemma TileDropped(rs: seq<Table>, all: seq<Log>, next: nat, n: nat, i: nat)
    requires Tiles(rs, all, next) && n + i < |rs|
    ensures var k := rs[n].first - all[0].id;
            0 <= k < |all| && Tile(rs[n..], all[k..], next, i)
  {
    hide Holds;
    DropPoint(rs, all, next, n);
    assert Tile(rs, all, next, n + i);
    StartsIncrease(rs, all, next, n, n + i);
    StartsIncrease(rs, all, next, n + i, |rs|);
    HoldsBounds(rs[n + i], Sub(all, rs[n + i].first, rs[n + i].last));
    SubDrop(all, rs[n].first - all[0].id, rs[n + i].first, rs[n + i].last);
  }

  /** Dropping the first `n` tables drops exactly the logs before table `n`. */
  lemma TilesDrop(rs: seq<Table>, all: seq<Log>, next: nat, n: nat)
    requires Tiles(rs, all, next) && n <= |rs|
    ensures var k := StartOf(rs, n, next) - all[0].id;
            && 0 <= k <= next - all[0].id <= |all|
            && (k < |all| ==> Tiles(rs[n..], all[k..], next) && all[k..][0].id == StartOf(rs, n, next))
            && (k == |all| ==> n == |rs|)
  {
    hide Consecutive, Tile;
    DropPoint(rs, all, next, n);
    var k := StartOf(rs, n, next) - all[0].id;
    if k < |all| {
      var ts := rs[n..];
      forall i | 0 <= i < |ts| ensures Tile(ts, all[k..], next, i) {
        TileDropped(rs, all, next, n, i);
      }
      assert StartOf(ts, 0, next) == StartOf(rs, n, next);
    }
  }

  // ---------------------------------------------------------------- closed tables and the open one

  /** The id at which the open table begins or will begin. */
  ghost function OpenStart(all: seq<Log>, open: seq<Log>): nat {
    if open != [] then open[0].id else if all != [] then all[0].id + |all| else 1
  }

  /** The closed tables and the logs of the open table, number `index`, hold `all` between them. */
  ghost predicate Laid(rs: seq<Table>, index: nat, open: seq<Log>, all: seq<Log>) {
    && index > 0 && Numbered(rs, index)
    && if all == [] then rs == [] && open == []
       else Tiles(rs, all, OpenStart(all, open)) && open == all[OpenStart(all, open) - all[0].id..]
  }

  lemma LaidBounds(rs: seq<Table>, index: nat, open: seq<Log>, all: seq<Log>)
    requires Laid(rs, index, open, all)
    ensures Consecutive(all)
    ensures all == [] <==> rs == [] && open == []
    ensures all != [] ==> 0 < all[0].id <= OpenStart(all, open) <= all[|all| - 1].id + 1 == all[0].id + |all|
    ensures open != [] ==> OpenStart(all, open) == open[0].id && open[|open| - 1] == all[|all| - 1]
    ensures open != [] ==> open[0].id <= all[|all| - 1].id
    ensures rs != [] ==> rs[0].first == all[0].id
    ensures rs == [] && open != [] ==> open[0].id == all[0].id
    ensures rs != [] && open == [] ==> rs[|rs| - 1].last == all[|all| - 1].id
  {
    hide Numbered, Holds;
    if all != [] {
      assert all[|all| - 1].id == all[0].id + |all| - 1;
      if open == [] && rs != [] { assert Tile(rs, all, OpenStart(all, open), |rs| - 1); }
    }
  }

  lemma LaidTiles(rs: seq<Table>, index: nat, open: seq<Log>, all: seq<Log>)
    requires Laid(rs, index, open, all)
    ensures index > 0 && Numbered(rs, index)
    ensures all != [] ==> Tiles(rs, all, OpenStart(all, open))
    ensures all != [] ==> all[0].id <= OpenStart(all, open) <= all[0].id + |all|
    ensures all != [] ==> open == all[OpenStart(all, open) - all[0].id..]
  {
    hide Numbered, Tile, Consecutive;
  }

  lemma LaidMade(rs: seq<Table>, index: nat, open: seq<Log>, all: seq<Log>, next: nat)
    requires index > 0 && Numbered(rs, index) && Tiles(rs, all, next) && open == all[next - all[0].id..]
    ensures Laid(rs, index, open, all)
  {
    hide Numbered, Tile;
    if open != [] {
      assert open[0] == all[next - all[0].id];
    }
  }

  /** Read one after the other, the tables give the whole sequence. */
  lemma LaidLogs(rs: seq<Table>, index: nat, open: seq<Log>, all: seq<Log>)
    requires Laid(rs, index, open, all)
    ensures LogsOf(rs) + open == all
  {
    hide Laid, Tiles, Numbered, OpenStart, Consecutive, TableLogs;
    LaidBounds(rs, index, open, all);
    if all != [] {
      LaidTiles(rs, index, open, all);
      TilesLogs(rs, all, OpenStart(all, open), |rs|);
      assert rs[..|rs|] == rs;
    }
  }

  lemma LaidInOrder(rs: seq<Table>, index: nat, open: seq<Log>, all: seq<Log>)
    requires Laid(rs, index, open, all)
    ensures Ordered(rs)
  {
    hide Tiles, Numbered;
    if all != [] {
      TilesAreOrdered(rs, all, OpenStart(all, open));
    }
  }

  /** A log of the open table. */
  lemma LaidInOpen(rs: seq<Table>, index: nat, open: seq<Log>, all: seq<Log>, id: nat)
    requires Laid(rs, index, open, all) && open != [] && open[0].id <= id <= open[|open| - 1].id
    ensures all != [] && all[0].id <= id <= all[|all| - 1].id
    ensures id - open[0].id < |open| && all[id - all[0].id] == open[id - open[0].id]
  {
    hide Tiles, Numbered, Consecutive;
    LaidBounds(rs, index, open, all);
    assert open == all[open[0].id - all[0].id..];
  }

  /** An id that no table covers is not in the sequence. */
  lemma LaidNowhere(rs: seq<Table>, index: nat, open: seq<Log>, all: seq<Log>, id: nat)
    requires Laid(rs, index, open, all) && !(open != [] && open[0].id <= id <= open[|open| - 1].id)
    requires forall k :: 0 <= k < |rs| ==> !(rs[k].first <= id <= rs[k].last)
    ensures all == [] || !(all[0].id <= id <= all[|all| - 1].id)
  {
    LaidBounds(rs, index, open, all);
    hide Tiles, Numbered;
    if all != [] && all[0].id <= id < OpenStart(all, open) {
      LaidCover(rs, index, open, all, id);
    }
  }

  lemma LaidCover(rs: seq<Table>, index: nat, open: seq<Log>, all: seq<Log>, id: nat)
    requires Laid(rs, index, open, all) && all != [] && all[0].id <= id < OpenStart(all, open)
    ensures exists k :: 0 <= k < |rs| && rs[k].first <= id <= rs[k].last
  {
    hide Numbered, Tile, Consecutive;
    TilesCover(rs, all, OpenStart(all, open), 0, id);
  }

  /** A log of a closed table. */
  lemma LaidInTable(rs: seq<Table>, index: nat, open: seq<Log>, all: seq<Log>, id: nat, h: nat)
    requires Laid(rs, index, open, all) && h < |rs| && rs[h].first <= id <= rs[h].last
    ensures var part := Sub(all, rs[h].first, rs[h].last);
            && Holds(rs[h], part) && all != [] && all[0].id <= id <= all[|all| - 1].id
            && id - rs[h].first < |part| && all[id - all[0].id] == part[id - rs[h].first]
  {
    hide Holds, Numbered, DataOf, MetaOf;
    var next := OpenStart(all, open);
    LaidBounds(rs, index, open, all);
    StartsIncrease(rs, all, next, 0, h);
    StartsIncrease(rs, all, next, h, |rs|);
    assert Tile(rs, all, next, h);
    HoldsBounds(rs[h], Sub(all, rs[h].first, rs[h].last));
  }

  /** The next log goes to the open table. */
  lemma LaidGrows(rs: seq<Table>, index: nat, open: seq<Log>, all: seq<Log>, l: Log)
    requires Laid(rs, index, open, all) && ValidLog(l) && l.id > 0 && (all != [] ==> l.id == all[|all| - 1].id + 1)
    ensures Laid(rs, index, open + [l], all + [l])
  {
    hide Laid, Tiles, Numbered, Consecutive, OpenStart, ValidLog;
    LaidBounds(rs, index, open, all);
    LaidTiles(rs, index, open, all);
    var next := OpenStart(all, open);
    OpenGrows(rs, all, next, open, l);
    LaidMade(rs, index, open + [l], all + [l], if all == [] then l.id else next);
  }

  /** The open table is closed and the next log starts another. */
  lemma LaidRollsOver(rs: seq<Table>, open: seq<Log>, all: seq<Log>, t: Table, l: Log)
    requires Laid(rs, t.index, open, all) && open != [] && Holds(t, open)
    requires ValidLog(l) && l.id == all[|all| - 1].id + 1
    ensures Laid(rs + [t], t.index + 1, [l], all + [l])
  {
    hide Laid, Tiles, Numbered, Holds, Consecutive, OpenStart, ValidLog;
    LaidBounds(rs, t.index, open, all);
    LaidTiles(rs, t.index, open, all);
    NumberedMore(rs, t);
    TilesFlush(rs, all, OpenStart(all, open), t, l);
    LaidMade(rs + [t], t.index + 1, [l], all + [l], l.id);
  }

  /** The open table is closed and nothing follows. */
  lemma LaidCloses(rs: seq<Table>, open: seq<Log>, all: seq<Log>, t: Table)
    requires Laid(rs, t.index, open, all) && open != [] && Holds(t, open)
    ensures HoldAll(rs + [t], all)
  {
    hide Laid, Tiles, Numbered, Holds, Consecutive, OpenStart;
    LaidBounds(rs, t.index, open, all);
    LaidTiles(rs, t.index, open, all);
    NumberedMore(rs, t);
    TilesClose(rs, all, OpenStart(all, open), t);
  }

  lemma LaidClosed(rs: seq<Table>, index: nat, all: seq<Log>)
    requires Laid(rs, index, [], all)
    ensures HoldAll(rs, all)
  {
    hide Tiles;
    NumberedLast(rs, index);
  }

  lemma LaidReopened(rs: seq<Table>, all: seq<Log>)
    requires HoldAll(rs, all)
    ensures Laid(rs, NextIndex(rs), [], all)
  {
    hide Tiles;
  }

  /** Dropping tables drops a prefix of the sequence. */
  lemma LaidDrops(rs: seq<Table>, index: nat, open: seq<Log>, all: seq<Log>, n: nat) returns (k: nat)
    requires Laid(rs, index, open, all) && n <= |rs| && rs != []
    ensures k <= |all| && Laid(rs[n..], index, open, all[k..])
    ensures all != [] && all[0].id + k == StartOf(rs, n, OpenStart(all, open))
    ensures k < |all| ==> all[k..][0].id == all[0].id + k
  {
    hide Laid, Tiles, Numbered, Consecutive, OpenStart;
    LaidBounds(rs, index, open, all);
    LaidTiles(rs, index, open, all);
    var next := OpenStart(all, open);
    TilesDrop(rs, all, next, n);
    k := StartOf(rs, n, next) - all[0].id;
    NumberedRest(rs, index, n);
    if k < |all| {
      LaidMade(rs[n..], index, open, all[k..], next);
    } else {
      NothingLaid(index);
    }
  }

  lemma NumberedRest(rs: seq<Table>, next: nat, n: nat)
    requires Numbered(rs, next) && n <= |rs|
    ensures Numbered(rs[n..], next)
  {
  }

  lemma NothingLaid(index: nat)
    requires index > 0
    ensures Laid([], index, [], [])
  {
  }

  // ---------------------------------------------------------------- the store

  lemma PurgedLog(v: LogStore<Log>, k: nat, id: nat)
    requires k <= |v.logs|
    ensures v.Purge(k).GetLog(id) == if id < v.first + k then Err(ErrLogNotFound) else v.GetLog(id)
  {
  }

  class Store {
    const maxLogSize: int
    var rs: seq<Table>
    var w: TableWriter
    ghost var all: seq<Log>

    ghost predicate Inv()
      reads this, w
    {
      w.Inv() && w.maxLogSize == maxLogSize && Laid(rs, w.index, w.logs, all)
    }

    /** The plain log store that the files stand for. */
    ghost function Value(): LogStore<Log>
      reads this
    {
      LogStore(if all == [] then 0 else all[0].id, all)
    }

    /** The logs in the order in which the files hold them. */
    ghost function Held(): seq<Log>
      reads this, w
    {
      LogsOf(rs) + w.logs
    }

    /** NewFileStore on an empty directory. */
    constructor (maxLogFileSize: int)
      ensures maxLogSize == w.maxLogSize == LogFileSize(maxLogFileSize)
      ensures Inv() && fresh(w) && Value() == LogStore(0, []) && !w.closed
    {
      var size := LogFileSize(maxLogFileSize);
      maxLogSize, rs, all := size, [], [];
      w := new TableWriter(1, size);
    }

    lemma HeldIsAll()
      requires Inv()
      ensures Held() == all
    {
      hide Laid, LogsOf, TableWriter.Inv;
      LaidLogs(rs, w.index, w.logs, all);
    }

    lemma Bounds()
      requires Inv()
      ensures Value().Valid()
      ensures all != [] ==> Value().LastID() == all[|all| - 1].id
      ensures w.logs != [] ==> w.last == Value().LastID() && w.last > 0 && w.first > 0
      ensures w.logs == [] ==> w.last == 0 && w.first == 0
      ensures all == [] <==> rs == [] && w.logs == []
      ensures rs != [] ==> rs[0].first == Value().first > 0
      ensures rs == [] && w.logs != [] ==> w.first == Value().first
      ensures rs != [] && w.logs == [] ==> rs[|rs| - 1].last == Value().LastID()
    {
      hide Laid, TableWriter.Inv, Consecutive, OpenStart;
      w.Started();
      LaidBounds(rs, w.index, w.logs, all);
    }

    method FirstID() returns (id: nat)
      requires Inv()
      ensures id == Value().first
    {
      hide Laid, TableWriter.Inv;
      Bounds();
      id := 0;
      if |rs| > 0 {
        id := rs[0].first;
      }
      if id == 0 {
        id := w.first;
      }
    }

    method LastID() returns (id: nat)
      requires Inv()
      ensures id == Value().LastID()
    {
      hide Laid, TableWriter.Inv;
      Bounds();
      id := w.last;
      if id == 0 && |rs| > 0 {
        id := rs[|rs| - 1].last;
      }
    }

    /** Any stored log is found, in the open table or through the search, and nothing else is. */
    method GetLog(id: nat) returns (r: Result<Log>)
      requires Inv() && id >= 1
      ensures r == Value().GetLog(id)
    {
      hide Laid, TableWriter.Inv, Holds, Sub, Ordered;
      Bounds();
      w.Started();
      r := w.GetLog(id);
      if r != Err(ErrLogNotFound) {
        LaidInOpen(rs, w.index, w.logs, all, id);
        return;
      }
      LaidInOrder(rs, w.index, w.logs, all);
      var found, h := Search(rs, id);
      if !found {
        LaidNowhere(rs, w.index, w.logs, all, id);
        return Err(ErrLogNotFound);
      }
      LaidInTable(rs, w.index, w.logs, all, id, h);
      r := ReadTable(rs[h], id, Sub(all, rs[h].first, rs[h].last));
    }

    /**
     What the code leaves to its callers: the writer checks ids against its own table only, so after
     a reopen the first log must be the successor of the last one.
     */
    ghost predicate Continues(id: nat)
      reads this, w
    {
      id == 0 || w.logs != [] || all == [] || id == Value().LastID() + 1
    }

    lemma ContinuesIff(l: Log)
      requires Inv() && ValidLog(l) && l.id > 0 && (w.logs == [] || l.id == Value().LastID() + 1)
      ensures Consecutive(all + [l]) <==> Continues(l.id)
      ensures Continues(l.id) && all != [] ==> l.id == all[|all| - 1].id + 1
    {
      hide Laid, TableWriter.Inv, Consecutive, ValidLog;
      Bounds();
      LaidBounds(rs, w.index, w.logs, all);
      GapIff(all, l);
    }

    lemma RefusesIff(l: Log)
      requires Inv()
      ensures w.Refuses(l) <==> w.closed || l.id == 0 || (w.logs != [] && l.id != Value().LastID() + 1)
      ensures w.NeedsFlush() ==> w.logs != []
    {
      hide Laid, TableWriter.Inv;
      w.Started();
      Bounds();
    }

    /** The first attempt of storeLog: the open table takes the log, or nothing changes. */
    method StoreInOpen(l: Log) returns (err: Result<()>)
      requires Inv() && ValidLog(l)
      modifies `all, w
      ensures err.Ok? <==> !old(w.Refuses(l)) && !old(w.NeedsFlush())
      ensures err == Err(ErrTableNeedFlush) <==> !old(w.Refuses(l)) && old(w.NeedsFlush())
      ensures err.Err? ==> unchanged(this) && unchanged(w)
      ensures w.closed == old(w.closed)
      ensures err.Ok? ==> Held() == all == old(all) + [l] && w.logs == old(w.logs) + [l]
      ensures err.Ok? && old(Continues(l.id)) ==> Inv()
    {
      hide Laid, TableWriter.Inv, LogsOf, ValidLog, Consecutive;
      HeldIsAll();
      RefusesIff(l);
      if !w.Refuses(l) && Continues(l.id) {
        ContinuesIff(l);
        LaidGrows(rs, w.index, w.logs, all, l);
      }
      err := w.StoreLog(l);
      if err.Ok? {
        all := all + [l];
        Appended(LogsOf(rs), old(w.logs), l);
      }
    }

    /**
     Appends to the open table, or, exactly if it is over its size, closes it and starts another. The
     ids stay without a gap exactly if the log continues them.
     */
    method StoreLog(l: Log) returns (err: Result<()>)
      requires Inv() && ValidLog(l)
      modifies this, w
      ensures w == old(w) && w.closed == old(w.closed)
      ensures err.Ok? <==> !old(w.closed) && l.id != 0 && (old(w.logs) == [] || l.id == old(Value()).LastID() + 1)
      ensures Held() == if err.Ok? then old(Held()) + [l] else old(Held())
      ensures var full := old(w.logs != [] && |DataOf(w.logs)| > w.maxLogSize);
              if err.Ok? && full then w.logs == [l] && RolledOver(old(rs), old(w.logs), rs)
              else rs == old(rs) && w.logs == old(w.logs) + if err.Ok? then [l] else []
      ensures err.Ok? ==> (Consecutive(Held()) <==> old(Continues(l.id)))
      ensures old(Continues(l.id)) ==>
                Inv() && Value() == if err.Ok? then old(Value()).Append(l.id, l) else old(Value())
    {
      hide Laid, TableWriter.Inv, Consecutive, ValidLog, Held;
      HeldIsAll();
      RefusesIff(l);
      if !w.Refuses(l) {
        ContinuesIff(l);
      }
      Bounds();
      w.Started();
      err := StoreInOpen(l);
      if err == Err(ErrTableNeedFlush) {
        RollOver(l);
        err := Ok(());
      }
    }

    /** The open table is over its size: it is closed and the log goes to a new one. */
    method RollOver(l: Log)
      requires Inv() && ValidLog(l) && w.NeedsFlush() && !w.Refuses(l)
      modifies this, w
      ensures Inv() && w == old(w) && w.closed == old(w.closed)
      ensures old(Value()).Accepts(l.id) && Value() == old(Value()).Append(l.id, l)
      ensures Held() == all == old(all) + [l]
      ensures w.logs == [l] && RolledOver(old(rs), old(w.logs), rs)
    {
      hide Laid, TableWriter.Inv, Holds, LogsOf, ValidLog;
      Bounds();
      w.Started();
      var t := w.Flush();
      LaidRollsOver(rs, old(w.logs), all, t.value, l);
      w.Started();
      rs := rs + [t.value];
      var err := w.StoreLog(l);
      assert w.logs == [l];
      all := all + [l];
      HeldIsAll();
    }

    /** The first id that is left when the first `n` tables go. */
    ghost function FirstKept(n: nat): nat
      requires n <= |rs|
      reads this, w
    {
      StartOf(rs, n, OpenStart(all, w.logs))
    }

    /** Removes the tables before the first one with a log newer than `t`; none if there is no such table. */
    method PurgeExpired(t: nat) returns (n: nat)
      requires Inv()
      modifies this
      ensures Inv() && w == old(w)
      ensures n <= |old(rs)| && rs == old(rs)[n..]
      ensures forall i :: 0 <= i < n ==> old(rs)[i].lastTime <= t
      ensures (exists i :: 0 <= i < |old(rs)| && old(rs)[i].lastTime > t) ==> n < |old(rs)| && old(rs)[n].lastTime > t
      ensures (forall i :: 0 <= i < |old(rs)| ==> old(rs)[i].lastTime <= t) ==> n == 0
      ensures forall id: nat :: Value().GetLog(id) ==
                                if n > 0 && id < old(rs)[n].first then Err(ErrLogNotFound) else old(Value()).GetLog(id)
      ensures exists k: nat :: k <= |old(all)| && Value() == old(Value()).Purge(k)
    {
      hide Laid, TableWriter.Inv;
      n := 0;
      while n < |rs|
        invariant 0 <= n <= |rs|
        invariant forall j :: 0 <= j < n ==> rs[j].lastTime <= t
      {
        if rs[n].lastTime > t {
          Bounds();
          DropTables(n);
          return;
        }
        n := n + 1;
      }
      n := 0;
      assert Value() == old(Value()).Purge(0);
    }

    /** checkTableReaders: keeps at most `maxNum` closed tables. */
    method PurgeOldest(maxNum: nat)
      requires Inv()
      modifies this
      ensures Inv() && w == old(w)
      ensures rs == if |old(rs)| > maxNum then old(rs)[|old(rs)| - maxNum..] else old(rs)
      ensures forall id: nat ::
                Value().GetLog(id) ==
                if |old(rs)| > maxNum && id < old(FirstKept(|rs| - maxNum)) then Err(ErrLogNotFound)
                else old(Value()).GetLog(id)
      ensures exists k: nat :: k <= |old(all)| && Value() == old(Value()).Purge(k)
    {
      hide Laid, TableWriter.Inv, OpenStart;
      if |rs| > maxNum {
        DropTables(|rs| - maxNum);
      } else {
        assert Value() == old(Value()).Purge(0);
      }
    }

    /** Exactly the logs before the first table that is left are gone. */
    method DropTables(n: nat)
      requires Inv() && n <= |rs| && rs != []
      modifies this
      ensures Inv() && w == old(w) && rs == old(rs)[n..]
      ensures forall id: nat :: Value().GetLog(id) ==
                                if id < old(FirstKept(n)) then Err(ErrLogNotFound) else old(Value()).GetLog(id)
      ensures exists k: nat :: k <= |old(all)| && Value() == old(Value()).Purge(k)
    {
      hide Laid, TableWriter.Inv, OpenStart;
      ghost var k := LaidDrops(rs, w.index, w.logs, all, n);
      ghost var was := Value();
      rs := rs[n..];
      all := all[k..];
      assert Value() == was.Purge(k);
      forall id: nat ensures Value().GetLog(id) == if id < was.first + k then Err(ErrLogNotFound) else was.GetLog(id) {
        PurgedLog(was, k, id);
      }
    }

    /** Close: the open table joins the others on disk; what is there is the whole log. */
    method Close() returns (disk: seq<Table>)
      requires Inv()
      modifies this, w
      ensures HoldAll(disk, old(all))
    {
      hide Laid, TableWriter.Inv, Holds, HoldAll;
      ghost var open := w.logs;
      var t := w.Flush();
      disk := rs;
      if t.Ok? {
        LaidCloses(rs, open, all, t.value);
        disk := rs + [t.value];
      } else {
        LaidClosed(rs, w.index, all);
      }
      rs := [];
    }

    /** The store that NewFileStore makes of the tables it has loaded. */
    constructor Load(maxLogFileSize: int, disk: seq<Table>, ghost logs: seq<Log>)
      ensures maxLogSize == w.maxLogSize == LogFileSize(maxLogFileSize)
      ensures rs == disk && fresh(w) && w.Inv() && !w.closed && w.logs == [] && w.index == NextIndex(disk)
      ensures HoldAll(disk, logs) ==> Inv() && Value() == LogStore(if logs == [] then 0 else logs[0].id, logs)
    {
      hide Laid, TableWriter.Inv, HoldAll;
      var size := LogFileSize(maxLogFileSize);
      maxLogSize, rs, all := size, disk, logs;
      w := new TableWriter(NextIndex(disk), size);
      if HoldAll(disk, logs) {
        LaidReopened(disk, logs);
      }
    }

    /** Clear: every file is removed and an empty table is opened. */
    method Clear()
      requires Inv()
      modifies this, w
      ensures Inv() && fresh(w) && Value() == LogStore(0, []) && !w.closed
      ensures old(w).closed && rs == [] && w.index == 1 && w.maxLogSize == maxLogSize
    {
      w.Close();
      rs, all := [], [];
      w := new TableWriter(1, maxLogSize);
    }
  }
}
