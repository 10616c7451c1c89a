/**
 The write-ahead log on disk (rpl/log.go, rpl/file_table.go): the record format, a table as a data
 file of records with an index file of 32-bit offsets, and what reopening a table makes of the two.
 */
module LogFiles {
  import opened Batches
  import opened Bytes

  const LOG_HEAD_SIZE: nat := 17

  const MAGIC: bytes := [
    0x1c, 0x1d, 0xb8, 0x88, 0xff, 0x9e, 0x45, 0x55, 0x40, 0xf0,
    0x4c, 0xda, 0xe0, 0xce, 0x47, 0xde, 0x65, 0x48, 0x71, 0x17]

  datatype Log = Log(id: nat, time: nat, compression: byte, data: bytes)

  predicate ValidLog(l: Log) {
    l.id < TWO_64 && l.time < TWO_32 && |l.data| < TWO_32
  }

  function LogSize(l: Log): (n: nat) {
    LOG_HEAD_SIZE + |l.data|
  }

  // ---------------------------------------------------------------- record format

  function EncodeHead(id: nat, time: nat, compression: byte, len: nat): (b: bytes)
    ensures |b| == LOG_HEAD_SIZE
  {
    BigEndian(id, 8) + BigEndian(time, 4) + [compression] + BigEndian(len, 4)
  }

  function EncodeLog(l: Log): (b: bytes)
    ensures |b| == LogSize(l)
  {
    EncodeHead(l.id, l.time, l.compression, |l.data|) + l.data
  }

  datatype LogHead = LogHead(id: nat, time: nat, compression: byte, len: nat)

  function DecodeHead(b: bytes): (h: LogHead)
    requires |b| == LOG_HEAD_SIZE
  {
    LogHead(FromBigEndian(b[..8]), FromBigEndian(b[8..12]), b[12], FromBigEndian(b[13..]))
  }

  /** DecodeHeadAt: fails when fewer than 17 bytes are left. */
  function DecodeHeadAt(file: bytes, pos: nat): (r: Option<LogHead>) {
    if pos + LOG_HEAD_SIZE > |file| then None else Some(DecodeHead(file[pos..pos + LOG_HEAD_SIZE]))
  }

  /** DecodeAt: fails as well when the record's data is cut short. */
  function DecodeAt(file: bytes, pos: nat): (r: Option<Log>) {
    match DecodeHeadAt(file, pos)
    case None => None
    case Some(h) =>
      var from := pos + LOG_HEAD_SIZE;
      if from + h.len > |file| then None
      else Some(Log(h.id, h.time, h.compression, file[from..from + h.len]))
  }

  lemma HeadRoundTrip(id: nat, time: nat, compression: byte, len: nat)
    requires id < TWO_64 && time < TWO_32 && len < TWO_32
    ensures DecodeHead(EncodeHead(id, time, compression, len)) == LogHead(id, time, compression, len)
  {
    Pow256Values();
    BigEndianRoundTrip(id, 8);
    BigEndianRoundTrip(time, 4);
    BigEndianRoundTrip(len, 4);
    var b := EncodeHead(id, time, compression, len);
    assert b[..8] == BigEndian(id, 8) && b[8..12] == BigEndian(time, 4) && b[13..] == BigEndian(len, 4);
  }

  /** A record is read back from wherever it lies in a file. */
  lemma LogRoundTrip(l: Log, file: bytes, pos: nat)
    requires ValidLog(l) && pos + LogSize(l) <= |file| && file[pos..pos + LogSize(l)] == EncodeLog(l)
    ensures DecodeHeadAt(file, pos) == Some(LogHead(l.id, l.time, l.compression, |l.data|))
    ensures DecodeAt(file, pos) == Some(l)
  {
    var e := file[pos..pos + LogSize(l)];
    HeadRoundTrip(l.id, l.time, l.compression, |l.data|);
    assert file[pos..pos + LOG_HEAD_SIZE] == e[..LOG_HEAD_SIZE] == EncodeHead(l.id, l.time, l.compression, |l.data|);
    assert file[pos + LOG_HEAD_SIZE..pos + LogSize(l)] == e[LOG_HEAD_SIZE..] == l.data;
  }

  // ---------------------------------------------------------------- tables

  /** The data file of a table before it is closed. */
  function DataOf(logs: seq<Log>): (b: bytes) {
    if logs == [] then [] else DataOf(logs[..|logs| - 1]) + EncodeLog(logs[|logs| - 1])
  }

  /** Where log number `i` of the table starts. */
  function OffsetOf(logs: seq<Log>, i: nat): (n: nat)
    requires i <= |logs|
  {
    |DataOf(logs[..i])|
  }

  /** The index file: one offset per log, cut to 32 bits as uint32(offset) does. */
  function MetaOf(logs: seq<Log>): (b: bytes)
    ensures |b| == 4 * |logs|
  {
    if logs == [] then []
    else
      var front := logs[..|logs| - 1];
      MetaOf(front) + BigEndian(|DataOf(front)| % TWO_32, 4)
  }

  lemma {:induction false} DataAt(logs: seq<Log>, i: nat)
    requires i < |logs|
    ensures var from := OffsetOf(logs, i);
            from + LogSize(logs[i]) == OffsetOf(logs, i + 1) <= |DataOf(logs)| &&
            DataOf(logs)[from..from + LogSize(logs[i])] == EncodeLog(logs[i])
  {
    var n := |logs| - 1;
    var front := logs[..n];
    assert logs[..i + 1][..i] == logs[..i];
    if i == n {
      assert logs[..n + 1] == logs;
    } else {
      DataAt(front, i);
      assert front[..i] == logs[..i] && front[..i + 1] == logs[..i + 1];
      var from := OffsetOf(logs, i);
      assert DataOf(logs)[from..from + LogSize(logs[i])] == DataOf(front)[from..from + LogSize(logs[i])];
    }
  }

  lemma {:induction false} MetaAt(logs: seq<Log>, i: nat)
    requires i < |logs|
    ensures MetaOf(logs)[4 * i..4 * i + 4] == BigEndian(OffsetOf(logs, i) % TWO_32, 4)
  {
    var n := |logs| - 1;
    var front := logs[..n];
    if i == n {
      assert MetaOf(logs)[4 * n..] == BigEndian(|DataOf(front)| % TWO_32, 4);
    } else {
      MetaAt(front, i);
      assert front[..i] == logs[..i];
      assert MetaOf(logs)[4 * i..4 * i + 4] == MetaOf(front)[4 * i..4 * i + 4];
    }
  }

  /** Consecutive ids, none of them 0, each log within the format. */
  predicate Consecutive(logs: seq<Log>) {
    forall i :: 0 <= i < |logs| ==> ValidLog(logs[i]) && logs[i].id == logs[0].id + i && logs[i].id > 0
  }

  /** getLogPos. */
  function LogPos(meta: bytes, i: nat): (n: nat)
    requires 4 * i + 4 <= |meta|
  {
    FromBigEndian(meta[4 * i..4 * i + 4])
  }

  lemma LogPosOf(logs: seq<Log>, i: nat)
    requires i < |logs| && OffsetOf(logs, i) < TWO_32
    ensures LogPos(MetaOf(logs), i) == OffsetOf(logs, i)
  {
    hide DataOf, MetaOf, BigEndian, FromBigEndian;
    Pow256Values();
    MetaAt(logs, i);
    BigEndianRoundTrip(OffsetOf(logs, i), 4);
  }

  /** The index leads to the record, whatever follows the records in the data file. */
  lemma ReadThroughIndex(logs: seq<Log>, rest: bytes, i: nat)
    requires i < |logs| && Consecutive(logs) && OffsetOf(logs, i) < TWO_32
    ensures var pos := LogPos(MetaOf(logs), i);
            && pos == OffsetOf(logs, i)
            && DecodeAt(DataOf(logs) + rest, pos) == Some(logs[i])
            && DecodeHeadAt(DataOf(logs) + rest, pos) ==
               Some(LogHead(logs[i].id, logs[i].time, logs[i].compression, |logs[i].data|))
  {
    LogPosOf(logs, i);
    DataAt(logs, i);
    var file, pos := DataOf(logs) + rest, OffsetOf(logs, i);
    assert file[pos..pos + LogSize(logs[i])] == DataOf(logs)[pos..pos + LogSize(logs[i])];
    LogRoundTrip(logs[i], file, pos);
  }

  // ---------------------------------------------------------------- reopening a table

  datatype Summary = Summary(first: nat, last: nat, lastTime: nat)

  /** tableReader.check. */
  function CheckTable(data: bytes, meta: bytes): (r: Option<Summary>) {
    if |meta| % 4 != 0 || |meta| == 0 || |data| < |MAGIC| || data[|data| - |MAGIC|..] != MAGIC then None
    else
      var n := |meta| / 4;
      var lastPos := LogPos(meta, n - 1);
      if LogPos(meta, 0) != 0 then None
      else
        match (DecodeHeadAt(data, 0), DecodeHeadAt(data, lastPos))
        case (Some(f), Some(l)) =>
          if lastPos + LOG_HEAD_SIZE + l.len + |MAGIC| != |data| || f.id > l.id || l.id - f.id + 1 != n then None
          else Some(Summary(f.id, l.id, l.time))
        case _ => None
  }

  lemma Entries(n: nat)
    ensures 4 * n % 4 == 0 && 4 * n / 4 == n
  {
  }

  lemma ClosedTable(logs: seq<Log>)
    requires logs != [] && Consecutive(logs) && OffsetOf(logs, |logs| - 1) < TWO_32
    ensures var n, data, meta := |logs| - 1, DataOf(logs) + MAGIC, MetaOf(logs);
            && |data| >= |MAGIC| && data[|data| - |MAGIC|..] == MAGIC && |meta| == 4 * (n + 1)
            && LogPos(meta, 0) == 0
            && LogPos(meta, n) + LOG_HEAD_SIZE + |logs[n].data| + |MAGIC| == |data|
            && DecodeHeadAt(data, 0) == Some(LogHead(logs[0].id, logs[0].time, logs[0].compression, |logs[0].data|))
            && DecodeHeadAt(data, LogPos(meta, n)) ==
               Some(LogHead(logs[n].id, logs[n].time, logs[n].compression, |logs[n].data|))
  {
    assert OffsetOf(logs, 0) == 0;
    hide DataOf, MetaOf, EncodeLog, DecodeHeadAt, DecodeAt, LogPos;
    var n := |logs| - 1;
    ReadThroughIndex(logs, MAGIC, 0);
    ReadThroughIndex(logs, MAGIC, n);
    DataAt(logs, n);
    assert logs[..n + 1] == logs;
  }

  /** A closed table of consecutive logs is accepted, and its bounds are read off the two files. */
  lemma CheckAcceptsClosedTable(logs: seq<Log>)
    requires logs != [] && Consecutive(logs) && OffsetOf(logs, |logs| - 1) < TWO_32
    ensures CheckTable(DataOf(logs) + MAGIC, MetaOf(logs)) ==
            Some(Summary(logs[0].id, logs[|logs| - 1].id, logs[|logs| - 1].time))
  {
    hide DataOf, MetaOf, DecodeHeadAt, LogPos, MAGIC;
    ClosedTable(logs);
    Entries(|logs|);
    assert logs[|logs| - 1].id == logs[0].id + |logs| - 1;
  }

  /** The scan of repair: the record heads it accepts, from `pos` on, after a log with id `last`. */
  datatype ScanResult = Stops(heads: seq<(nat, LogHead)>, end: nat) | Panics

  /**
   repair looks at record heads only. It stops at a head that is cut short or has id 0; at an id that
   does not increase it formats an error message through a file it has just closed.
   */
  function RepairScan(data: bytes, pos: nat, last: nat): (r: ScanResult)
    decreases |data| + LOG_HEAD_SIZE - pos
  {
    match DecodeHeadAt(data, pos)
    case None => Stops([], pos)
    case Some(h) =>
      if h.id == 0 then Stops([], pos)
      else if last != 0 && h.id <= last then Panics
      else
        match RepairScan(data, pos + LOG_HEAD_SIZE + h.len, h.id)
        case Panics => Panics
        case Stops(hs, end) => Stops([(pos, h)] + hs, end)
  }

  /** The offsets of the accepted heads, as the new index file stores them. */
  function IndexOf(heads: seq<(nat, LogHead)>): (b: bytes) {
    if heads == [] then [] else BigEndian(heads[0].0 % TWO_32, 4) + IndexOf(heads[1..])
  }

  function HeadsOf(logs: seq<Log>, i: nat): (hs: seq<(nat, LogHead)>)
    requires i <= |logs|
    decreases |logs| - i
  {
    if i == |logs| then []
    else
      var head := LogHead(logs[i].id, logs[i].time, logs[i].compression, |logs[i].data|);
      [(OffsetOf(logs, i), head)] + HeadsOf(logs, i + 1)
  }

  function LastOf(logs: seq<Log>, i: nat): (id: nat)
    requires i <= |logs|
  {
    if i == 0 then 0 else logs[i - 1].id
  }

  lemma RecordAt(logs: seq<Log>, tail: bytes, i: nat)
    requires Consecutive(logs) && i < |logs|
    ensures OffsetOf(logs, i) + LogSize(logs[i]) == OffsetOf(logs, i + 1)
    ensures DecodeHeadAt(DataOf(logs) + tail, OffsetOf(logs, i)) ==
            Some(LogHead(logs[i].id, logs[i].time, logs[i].compression, |logs[i].data|))
  {
    hide DataOf, EncodeLog, DecodeHeadAt, DecodeAt;
    DataAt(logs, i);
    var file, pos := DataOf(logs) + tail, OffsetOf(logs, i);
    assert file[pos..pos + LogSize(logs[i])] == DataOf(logs)[pos..pos + LogSize(logs[i])];
    LogRoundTrip(logs[i], file, pos);
  }

  lemma ScanStep(file: bytes, pos: nat, last: nat, h: LogHead)
    requires DecodeHeadAt(file, pos) == Some(h) && h.id > last
    ensures RepairScan(file, pos, last) ==
            (match RepairScan(file, pos + LOG_HEAD_SIZE + h.len, h.id)
             case Panics => Panics
             case Stops(hs, end) => Stops([(pos, h)] + hs, end))
  {
    hide DecodeHeadAt;
  }

  lemma LastGrows(logs: seq<Log>, i: nat)
    requires Consecutive(logs) && i < |logs|
    ensures LastOf(logs, i) < logs[i].id == LastOf(logs, i + 1)
  {
  }

  /** Over complete consecutive logs the scan accepts each of them and arrives at what follows. */
  lemma {:induction false} ScanLogs(logs: seq<Log>, tail: bytes, i: nat)
    requires Consecutive(logs) && i <= |logs|
    ensures var rest := RepairScan(DataOf(logs) + tail, |DataOf(logs)|, LastOf(logs, |logs|));
            RepairScan(DataOf(logs) + tail, OffsetOf(logs, i), LastOf(logs, i)) ==
            (match rest case Panics => Panics case Stops(hs, end) => Stops(HeadsOf(logs, i) + hs, end))
    decreases |logs| - i
  {
    hide DataOf, DecodeHeadAt, RepairScan, Consecutive, LastOf;
    var file := DataOf(logs) + tail;
    var rest := RepairScan(file, |DataOf(logs)|, LastOf(logs, |logs|));
    if i == |logs| {
      assert logs[..i] == logs;
      assert rest.Stops? ==> [] + rest.heads == rest.heads;
    } else {
      hide OffsetOf;
      ScanLogs(logs, tail, i + 1);
      RecordAt(logs, tail, i);
      LastGrows(logs, i);
      var head := LogHead(logs[i].id, logs[i].time, logs[i].compression, |logs[i].data|);
      ScanStep(file, OffsetOf(logs, i), LastOf(logs, i), head);
      if rest.Stops? {
        var one := [(OffsetOf(logs, i), head)];
        assert one + HeadsOf(logs, i + 1) + rest.heads == one + (HeadsOf(logs, i + 1) + rest.heads);
      }
    }
  }

  lemma {:induction false} IndexOfHeads(logs: seq<Log>, i: nat)
    requires i <= |logs|
    ensures MetaOf(logs[..i]) + IndexOf(HeadsOf(logs, i)) == MetaOf(logs)
    decreases |logs| - i
  {
    hide DataOf, BigEndian;
    if i == |logs| {
      assert logs[..i] == logs;
    } else {
      IndexOfHeads(logs, i + 1);
      assert logs[..i + 1][..i] == logs[..i];
      var one, front := BigEndian(OffsetOf(logs, i) % TWO_32, 4), MetaOf(logs[..i]);
      assert MetaOf(logs[..i + 1]) == front + one;
      hide MetaOf;
      assert HeadsOf(logs, i)[1..] == HeadsOf(logs, i + 1);
      assert front + (one + IndexOf(HeadsOf(logs, i + 1))) == front + one + IndexOf(HeadsOf(logs, i + 1));
    }
  }

  /** What repair leaves on disk: the index of the accepted heads, and the data cut there and closed. */
  datatype Repair = Repaired(data: bytes, meta: bytes, heads: seq<(nat, LogHead)>) | Crashed

  function Zeros(n: nat): (b: bytes)
    ensures |b| == n && forall i :: 0 <= i < n ==> b[i] == 0
  {
    seq(n, _ => 0)
  }

  /** Writing at an offset past the end of a file leaves a hole of zeros. */
  function Cut(data: bytes, end: nat): (b: bytes)
    ensures |b| == end
  {
    if end <= |data| then data[..end] else data + Zeros(end - |data|)
  }

  function RepairTable(data: bytes): (r: Repair) {
    match RepairScan(data, 0, 0)
    case Panics => Crashed
    case Stops(hs, end) => Repaired(Cut(data, end) + MAGIC, IndexOf(hs), hs)
  }

  /** What a data file may carry after its complete logs without misleading repair. */
  predicate HarmlessTail(tail: bytes) {
    |tail| < LOG_HEAD_SIZE || DecodeHead(tail[..LOG_HEAD_SIZE]).id == 0
  }

  lemma ScanTail(logs: seq<Log>, tail: bytes)
    requires logs != [] && Consecutive(logs)
    ensures var file, at, last := DataOf(logs) + tail, |DataOf(logs)|, logs[|logs| - 1].id;
            && (HarmlessTail(tail) ==> RepairScan(file, at, last) == Stops([], at))
            && (!HarmlessTail(tail) ==>
                  var h := DecodeHead(tail[..LOG_HEAD_SIZE]);
                  if h.id <= last then RepairScan(file, at, last) == Panics
                  else RepairScan(file, at, last).Panics? ||
                       (RepairScan(file, at, last).heads != [] && RepairScan(file, at, last).heads[0] == (at, h)))
  {
    var file, at := DataOf(logs) + tail, |DataOf(logs)|;
    if |tail| >= LOG_HEAD_SIZE {
      assert file[at..at + LOG_HEAD_SIZE] == tail[..LOG_HEAD_SIZE];
    }
  }

  /**
   repair recovers exactly the complete logs of a data file if and only if what follows them is too
   short for a record head or has id 0; the two files are then those of a table closed in order.
   */
  lemma RepairRecoversIff(logs: seq<Log>, tail: bytes)
    requires logs != [] && Consecutive(logs)
    ensures RepairTable(DataOf(logs) + tail) == Repaired(DataOf(logs) + MAGIC, MetaOf(logs), HeadsOf(logs, 0)) <==>
            HarmlessTail(tail)
  {
    ScanLogs(logs, tail, 0);
    ScanTail(logs, tail);
    IndexOfHeads(logs, 0);
    assert OffsetOf(logs, 0) == 0;
    assert MetaOf(logs[..0]) + IndexOf(HeadsOf(logs, 0)) == IndexOf(HeadsOf(logs, 0));
    var file := DataOf(logs) + tail;
    assert file[..|DataOf(logs)|] == DataOf(logs);
    assert HeadsOf(logs, 0) + [] == HeadsOf(logs, 0);
    var rest := RepairScan(file, |DataOf(logs)|, LastOf(logs, |logs|));
    if rest.Stops? && rest.heads != [] {
      assert |HeadsOf(logs, 0) + rest.heads| > |HeadsOf(logs, 0)|;
    }
  }

  /** A repaired table passes the check it failed. */
  lemma RepairedTableIsAccepted(logs: seq<Log>, tail: bytes)
    requires logs != [] && Consecutive(logs) && OffsetOf(logs, |logs| - 1) < TWO_32 && HarmlessTail(tail)
    ensures var r := RepairTable(DataOf(logs) + tail);
            r.Repaired? && CheckTable(r.data, r.meta) ==
                           Some(Summary(logs[0].id, logs[|logs| - 1].id, logs[|logs| - 1].time))
  {
    RepairRecoversIff(logs, tail);
    CheckAcceptsClosedTable(logs);
  }

  /** A log whose record was written up to byte `n`, with zeros for the rest. */
  function Padded(l: Log, n: nat): (p: Log)
    requires LOG_HEAD_SIZE <= n <= LogSize(l)
    ensures |p.data| == |l.data| && (n == LogSize(l) ==> p == l)
  {
    l.(data := l.data[..n - LOG_HEAD_SIZE] + Zeros(LogSize(l) - n))
  }

  function HeadOf(l: Log): (h: LogHead) {
    LogHead(l.id, l.time, l.compression, |l.data|)
  }

  lemma {:induction false} HeadsAppend(logs: seq<Log>, l: Log, i: nat)
    requires i <= |logs|
    ensures HeadsOf(logs + [l], i) == HeadsOf(logs, i) + [(|DataOf(logs)|, HeadOf(l))]
    decreases |logs| - i
  {
    hide DataOf;
    var more := logs + [l];
    assert more[..i] == logs[..i];
    if i == |logs| {
      assert logs[..i] == logs && HeadsOf(more, i + 1) == [];
    } else {
      HeadsAppend(logs, l, i + 1);
      assert more[i] == logs[i];
    }
  }

  /** A scan takes a record whose head is complete, and stops where the record would end. */
  lemma ScanBody(logs: seq<Log>, l: Log, n: nat)
    requires Consecutive(logs + [l]) && LOG_HEAD_SIZE <= n <= LogSize(l)
    ensures var at := |DataOf(logs)|;
            RepairScan(DataOf(logs) + EncodeLog(l)[..n], at, LastOf(logs, |logs|)) ==
            Stops([(at, HeadOf(l))], at + LogSize(l))
  {
    hide DataOf;
    var file, at := DataOf(logs) + EncodeLog(l)[..n], |DataOf(logs)|;
    assert file[at..at + LOG_HEAD_SIZE] == EncodeLog(l)[..LOG_HEAD_SIZE];
    assert EncodeLog(l)[..LOG_HEAD_SIZE] == EncodeHead(l.id, l.time, l.compression, |l.data|);
    assert (logs + [l])[|logs|] == l && (logs != [] ==> (logs + [l])[|logs| - 1] == logs[|logs| - 1]);
    HeadRoundTrip(l.id, l.time, l.compression, |l.data|);
    hide EncodeLog, EncodeHead, DecodeHead;
    assert DecodeHeadAt(file, at) == Some(HeadOf(l));
    assert DecodeHeadAt(file, at + LogSize(l)).None?;
    assert RepairScan(file, at + LogSize(l), l.id) == Stops([], at + LogSize(l));
  }

  lemma CutPads(a: bytes, b: bytes, n: nat)
    requires |b| <= n
    ensures Cut(a + b, |a| + n) == a + (b + Zeros(n - |b|))
  {
  }

  lemma DataAppend(logs: seq<Log>, l: Log)
    ensures DataOf(logs + [l]) == DataOf(logs) + EncodeLog(l)
  {
    hide EncodeLog;
    assert (logs + [l])[..|logs|] == logs;
  }

  lemma EncodePadded(l: Log, n: nat)
    requires LOG_HEAD_SIZE <= n <= LogSize(l)
    ensures EncodeLog(Padded(l, n)) == EncodeLog(l)[..n] + Zeros(LogSize(l) - n)
  {
    hide EncodeHead;
  }

  lemma CutBody(logs: seq<Log>, l: Log, n: nat)
    requires LOG_HEAD_SIZE <= n <= LogSize(l)
    ensures Cut(DataOf(logs) + EncodeLog(l)[..n], |DataOf(logs)| + LogSize(l)) == DataOf(logs + [Padded(l, n)])
  {
    hide DataOf, EncodeLog, Cut, Zeros, Padded;
    DataAppend(logs, Padded(l, n));
    EncodePadded(l, n);
    CutPads(DataOf(logs), EncodeLog(l)[..n], LogSize(l));
  }

  /**
   A record cut anywhere behind its head is not lost: repair completes it with zeros, and the two
   files are those of a table closed behind it.
   */
  lemma RepairPadsRecord(logs: seq<Log>, l: Log, n: nat)
    requires Consecutive(logs + [l]) && LOG_HEAD_SIZE <= n <= LogSize(l)
    ensures var more := logs + [Padded(l, n)];
            RepairTable(DataOf(logs) + EncodeLog(l)[..n]) ==
            Repaired(DataOf(more) + MAGIC, MetaOf(more), HeadsOf(more, 0))
  {
    hide DataOf, MetaOf, EncodeLog, DecodeHeadAt, Cut;
    var file, more := DataOf(logs) + EncodeLog(l)[..n], logs + [Padded(l, n)];
    FrontIsConsecutive(logs, l);
    ScanLogs(logs, EncodeLog(l)[..n], 0);
    ScanBody(logs, l, n);
    HeadsAppend(logs, Padded(l, n), 0);
    NoneBefore(logs, more);
    IndexOfHeads(more, 0);
    CutBody(logs, l, n);
    assert [] + IndexOf(HeadsOf(more, 0)) == IndexOf(HeadsOf(more, 0));
  }

  lemma NoneBefore(logs: seq<Log>, more: seq<Log>)
    ensures OffsetOf(logs, 0) == 0 && MetaOf(more[..0]) == []
  {
  }

  lemma FrontIsConsecutive(logs: seq<Log>, l: Log)
    requires Consecutive(logs + [l])
    ensures Consecutive(logs)
  {
    forall i | 0 <= i < |logs| ensures ValidLog(logs[i]) && logs[i].id == logs[0].id + i && logs[i].id > 0 {
      assert logs[i] == (logs + [l])[i] && logs[0] == (logs + [l])[0];
    }
  }

  const MAGIC_ID: nat := 0x1c1d_b888_ff9e_4555

  /** What follows the complete logs does not begin like the closing mark. */
  predicate NotMagic(tail: bytes) {
    |tail| < LOG_HEAD_SIZE || DecodeHead(tail[..LOG_HEAD_SIZE]).id != MAGIC_ID
  }

  /** The part of an index file that was written gives the offsets it holds. */
  lemma PartLogPos(meta: bytes, m: nat, i: nat)
    requires 4 * i + 4 <= m <= |meta|
    ensures LogPos(meta[..m], i) == LogPos(meta, i)
  {
    hide FromBigEndian;
    assert meta[..m][4 * i..4 * i + 4] == meta[4 * i..4 * i + 4];
  }

  /** A data file fails the check unless the closing mark follows the last record its index names. */
  lemma FailsCheck(data: bytes, meta: bytes, k: nat, at: nat, end: nat, h: LogHead)
    requires |meta| == 4 * k && k >= 1 && LogPos(meta, k - 1) == at
    requires DecodeHeadAt(data, at) == Some(h) && at + LOG_HEAD_SIZE + h.len == end <= |data| && data[end..] != MAGIC
    ensures CheckTable(data, meta).None?
  {
    hide DecodeHeadAt, LogPos, MAGIC;
    Entries(k);
  }

  /** Every offset survives the cut to 32 bits, and no id is the one the closing mark reads as. */
  predicate SmallLogs(logs: seq<Log>) {
    forall i :: 0 <= i < |logs| ==> OffsetOf(logs, i) < TWO_32 && logs[i].id < MAGIC_ID
  }

  lemma SmallAt(logs: seq<Log>, i: nat)
    requires SmallLogs(logs) && i < |logs|
    ensures OffsetOf(logs, i) < TWO_32 && logs[i].id < MAGIC_ID
  {
  }

  lemma BadIndex(data: bytes, meta: bytes)
    requires |meta| % 4 != 0 || meta == []
    ensures CheckTable(data, meta).None?
  {
  }

  /** A table that was not closed fails the check, however much of its index was written. */
  lemma OpenTableFailsCheck(logs: seq<Log>, tail: bytes, m: nat)
    requires Consecutive(logs) && SmallLogs(logs) && NotMagic(tail) && m <= 4 * |logs|
    ensures CheckTable(DataOf(logs) + tail, MetaOf(logs)[..m]).None?
  {
    hide DataOf, MetaOf, CheckTable, NotMagic, Consecutive, SmallLogs;
    if m % 4 == 0 && m > 0 {
      var k := m / 4;
      assert m == 4 * k;
      OpenTableFails(logs, tail, k);
    } else {
      BadIndex(DataOf(logs) + tail, MetaOf(logs)[..m]);
    }
  }

  lemma OpenTableFails(logs: seq<Log>, tail: bytes, k: nat)
    requires Consecutive(logs) && SmallLogs(logs) && NotMagic(tail) && 1 <= k <= |logs|
    ensures CheckTable(DataOf(logs) + tail, MetaOf(logs)[..4 * k]).None?
  {
    hide DataOf, MetaOf, DecodeHead, LogPos, MAGIC, DecodeHeadAt, DecodeAt, NotMagic, CheckTable, EncodeLog, OffsetOf,
         Consecutive, SmallLogs;
    var data, meta, last := DataOf(logs) + tail, MetaOf(logs), logs[k - 1];
    var at, end := OffsetOf(logs, k - 1), OffsetOf(logs, k);
    SmallAt(logs, k - 1);
    ReadThroughIndex(logs, tail, k - 1);
    DataAt(logs, k - 1);
    NotMagicAt(logs, tail, k);
    PartLogPos(meta, 4 * k, k - 1);
    FailsCheck(data, meta[..4 * k], k, at, end, HeadOf(last));
  }

  /** No record, and nothing behind the records, begins like the closing mark. */
  lemma NotMagicAt(logs: seq<Log>, tail: bytes, k: nat)
    requires Consecutive(logs) && SmallLogs(logs)
    requires NotMagic(tail) && k <= |logs| && OffsetOf(logs, k) <= |DataOf(logs)|
    ensures (DataOf(logs) + tail)[OffsetOf(logs, k)..] != MAGIC
  {
    hide DataOf, MetaOf, DecodeHead, DecodeAt, LogPos, MAGIC, Consecutive, SmallLogs;
    var data, at := DataOf(logs) + tail, OffsetOf(logs, k);
    if k == |logs| {
      assert logs[..k] == logs && data[at..] == tail;
      MagicIsMagic(tail);
    } else {
      SmallAt(logs, k);
      ReadThroughIndex(logs, tail, k);
      assert data[at..][..LOG_HEAD_SIZE] == data[at..at + LOG_HEAD_SIZE];
      MagicIsMagic(data[at..]);
    }
  }

  lemma MagicIsMagic(b: bytes)
    requires NotMagic(b)
    ensures b != MAGIC
  {
    hide DecodeHead;
    MagicID();
  }

  lemma MagicID()
    ensures DecodeHead(MAGIC[..LOG_HEAD_SIZE]).id == 0x1c1d_b888_ff9e_4555
  {
    assert FromBigEndian([]) == 0;
    hide FromBigEndian;
    var b: bytes := [0x1c, 0x1d, 0xb8, 0x88, 0xff, 0x9e, 0x45, 0x55];
    assert MAGIC[..LOG_HEAD_SIZE][..8] == b;
    AppendDigit([], 0x1c, 0);
    AppendDigit(b[..1], b[1], 0x1c);
    AppendDigit(b[..2], b[2], 0x1c1d);
    AppendDigit(b[..3], b[3], 0x1c1d_b8);
    AppendDigit(b[..4], b[4], 0x1c1d_b888);
    AppendDigit(b[..5], b[5], 0x1c1d_b888_ff);
    AppendDigit(b[..6], b[6], 0x1c1d_b888_ff9e);
    AppendDigit(b[..7], b[7], 0x1c1d_b888_ff9e_45);
    assert b[..1] == [] + [b[0]] && b[..2] == b[..1] + [b[1]] && b[..3] == b[..2] + [b[2]] && b[..4] == b[..3] + [b[3]];
    assert b[..5] == b[..4] + [b[4]] && b[..6] == b[..5] + [b[5]] && b[..7] == b[..6] + [b[6]] && b == b[..7] + [b[7]];
  }

  lemma AppendDigit(b: bytes, d: byte, n: nat)
    ensures FromBigEndian(b) == n ==> FromBigEndian(b + [d]) == 256 * n + d
  {
    assert (b + [d])[..|b|] == b;
  }

  /**
   The closing mark itself is not a harmless tail: repairing a properly closed data file whose index
   was lost takes the mark for one more log, with an id no log ever had.
   */
  lemma RepairTakesMagicForLog(logs: seq<Log>)
    requires logs != [] && Consecutive(logs)
    ensures RepairTable(DataOf(logs) + MAGIC) != Repaired(DataOf(logs) + MAGIC, MetaOf(logs), HeadsOf(logs, 0))
  {
    hide DataOf, MetaOf, RepairTable, HeadsOf, DecodeHead;
    MagicID();
    RepairRecoversIff(logs, MAGIC);
  }
}
