/** The bytes of a pull: ReadLogsTo on the master, StoreLogsFromReader on the slave (ledis/replication.go). */
module LogStream {
  import opened Bytes
  import opened LogFiles
  import opened LogStores

  const MAX_REPL_LOG_SIZE: nat := 1024 * 1024

  lemma {:induction false} DataOfAppend(a: seq<Log>, b: seq<Log>)
    ensures DataOf(a + b) == DataOf(a) + DataOf(b)
  {
    hide EncodeLog;
    if b == [] {
      assert a + b == a;
    } else {
      var n := |b| - 1;
      DataOfAppend(a, b[..n]);
      assert (a + b)[..|a + b| - 1] == a + b[..n] && (a + b)[|a + b| - 1] == b[n];
    }
  }

  /**
   Encodes the logs from `start` on until they exceed one mebibyte: at least one log when there is
   one, and no more than one past the limit.
   */
  method ReadLogsTo(s: LogStore<Log>, start: nat) returns (r: Result<(bytes, nat)>)
    requires s.Valid() && start > 0
    ensures r == Err(ErrLogMissed) <==> start < s.first
    ensures r.Err? ==> start < s.first
    ensures r.Ok? ==>
              var out, next := r.value.0, r.value.1;
              && start <= next && (s.logs == [] || start > s.LastID() ==> next == start && out == [])
              && (s.Has(start) ==>
                  start < next <= s.LastID() + 1 && out == DataOf(s.logs[start - s.first..next - s.first]))
              && (next <= s.LastID() ==> |out| > 1048576)
              && (s.Has(start) ==> |DataOf(s.logs[start - s.first..next - 1 - s.first])| <= 1048576)
  {
    hide EncodeLog, DataOf;
    if start < s.first {
      return Err(ErrLogMissed);
    }
    var out: bytes := [];
    var i := start;
    NoData();
    while i <= s.LastID() && |out| <= MAX_REPL_LOG_SIZE
      invariant start <= i && (i > start ==> s.Has(start) && i <= s.LastID() + 1)
      invariant i > start ==> out == DataOf(s.logs[start - s.first..i - s.first])
      invariant i > start ==> |DataOf(s.logs[start - s.first..i - 1 - s.first])| <= MAX_REPL_LOG_SIZE
      invariant i == start ==> out == []
    {
      var l := s.GetLog(i);
      var from, to := start - s.first, i - s.first;
      DataOfNext(s.logs[from..to], l.value);
      assert s.logs[from..to + 1] == s.logs[from..to] + [l.value];
      assert i == start ==> s.logs[from..to] == [];
      out := out + EncodeLog(l.value);
      i := i + 1;
    }
    r := Ok((out, i));
  }

  lemma NoData()
    ensures DataOf([]) == []
  {
  }

  lemma DataOfNext(a: seq<Log>, l: Log)
    ensures DataOf(a + [l]) == DataOf(a) + EncodeLog(l)
  {
    assert (a + [l])[..|a|] == a;
  }

  /** What a reader makes of a stream: the logs before it ends or breaks off, and whether it broke off. */
  datatype Stream = Stream(logs: seq<Log>, broken: bool)

  /** A stream that ends right behind a record head is taken to end before it. */
  function ReadStream(b: bytes): (r: Stream)
    decreases |b|
  {
    if b == [] then Stream([], false)
    else if |b| < LOG_HEAD_SIZE then Stream([], true)
    else
      var h := DecodeHead(b[..LOG_HEAD_SIZE]);
      if |b| - LOG_HEAD_SIZE < h.len then Stream([], |b| > LOG_HEAD_SIZE)
      else
        var l := Log(h.id, h.time, h.compression, b[LOG_HEAD_SIZE..LOG_HEAD_SIZE + h.len]);
        var rest := ReadStream(b[LOG_HEAD_SIZE + h.len..]);
        Stream([l] + rest.logs, rest.broken)
  }

  lemma ReadStreamStep(l: Log, b: bytes)
    requires ValidLog(l)
    ensures ReadStream(EncodeLog(l) + b) == Stream([l] + ReadStream(b).logs, ReadStream(b).broken)
  {
    var e := EncodeLog(l) + b;
    HeadRoundTrip(l.id, l.time, l.compression, |l.data|);
    assert e[..LOG_HEAD_SIZE] == EncodeHead(l.id, l.time, l.compression, |l.data|);
    assert e[LOG_HEAD_SIZE..LOG_HEAD_SIZE + |l.data|] == l.data;
    assert e[LOG_HEAD_SIZE + |l.data|..] == b;
  }

  /** The slave reads exactly the logs the master sent. */
  lemma {:induction false} StreamRoundTrip(logs: seq<Log>)
    requires forall l :: l in logs ==> ValidLog(l)
    ensures ReadStream(DataOf(logs)) == Stream(logs, false)
  {
    if logs != [] {
      StreamRoundTrip(logs[1..]);
      hide EncodeLog, ReadStream;
      assert logs == [logs[0]] + logs[1..];
      DataOfAppend([logs[0]], logs[1..]);
      DataOfNext([], logs[0]);
      assert [] + [logs[0]] == [logs[0]];
      NoData();
      assert DataOf([]) + EncodeLog(logs[0]) == EncodeLog(logs[0]);
      ReadStreamStep(logs[0], DataOf(logs[1..]));
    }
  }

  /** A record that is cut off is not read; it counts as broken unless nothing but its head has come. */
  lemma CutRecord(l: Log, n: nat)
    requires ValidLog(l) && 0 < n < LogSize(l)
    ensures ReadStream(EncodeLog(l)[..n]) == Stream([], n != LOG_HEAD_SIZE)
  {
    var b := EncodeLog(l)[..n];
    if n >= LOG_HEAD_SIZE {
      HeadRoundTrip(l.id, l.time, l.compression, |l.data|);
      assert b[..LOG_HEAD_SIZE] == EncodeHead(l.id, l.time, l.compression, |l.data|);
    }
  }

  /** What is read of the first `n` bytes of a stream, of which `j` records are whole. */
  predicate ReadsCut(logs: seq<Log>, n: nat, j: nat) {
    && n <= |DataOf(logs)| && j <= |logs|
    && OffsetOf(logs, j) <= n && (j < |logs| ==> n < OffsetOf(logs, j + 1))
    && ReadStream(DataOf(logs)[..n]) ==
       Stream(logs[..j], n != OffsetOf(logs, j) && n != OffsetOf(logs, j) + LOG_HEAD_SIZE)
  }

  lemma NothingToCut()
    ensures DataOf([]) == [] && ReadsCut([], 0, 0)
  {
    NoData();
  }

  lemma CutInFirst(l: Log, rest: seq<Log>, n: nat)
    requires ValidLog(l) && n < LogSize(l)
    ensures ReadsCut([l] + rest, n, 0)
  {
    hide EncodeLog, ReadStream, DataOf, OffsetOf;
    Records(l, rest);
    FirstRecord(l, rest, 0);
    var b := DataOf([l] + rest)[..n];
    assert b == EncodeLog(l)[..n];
    NoOffset([l] + rest);
    if n > 0 { CutRecord(l, n); } else { NothingRead(b); }
  }

  lemma CutLater(l: Log, rest: seq<Log>, n: nat, i: nat)
    requires ValidLog(l) && ReadsCut(rest, n, i)
    ensures ReadsCut([l] + rest, n + LogSize(l), i + 1)
  {
    hide EncodeLog, ReadStream, DataOf, OffsetOf;
    Records(l, rest);
    FirstRecord(l, rest, i);
    if i < |rest| { FirstRecord(l, rest, i + 1); }
    var tail := DataOf(rest)[..n];
    assert DataOf([l] + rest)[..n + LogSize(l)] == EncodeLog(l) + tail;
    ReadStreamStep(l, tail);
    assert [l] + rest[..i] == ([l] + rest)[..i + 1];
  }

  /**
   Wherever a stream of logs is cut, the slave reads the records that are whole, and notices the cut
   unless it falls between two records or right behind the head of one.
   */
  lemma {:induction false} CutStream(logs: seq<Log>, n: nat) returns (j: nat)
    requires (forall l :: l in logs ==> ValidLog(l)) && n <= |DataOf(logs)|
    ensures ReadsCut(logs, n, j)
  {
    hide ReadsCut, EncodeLog, DataOf, LogSize;
    if logs == [] {
      NothingToCut();
      j := 0;
    } else {
      var l, rest := logs[0], logs[1..];
      assert logs == [l] + rest && ValidLog(l);
      Records(l, rest);
      if n < LogSize(l) {
        CutInFirst(l, rest, n);
        j := 0;
      } else {
        var i := CutStream(rest, n - LogSize(l));
        CutLater(l, rest, n - LogSize(l), i);
        j := i + 1;
      }
    }
  }

  lemma NoOffset(logs: seq<Log>)
    ensures OffsetOf(logs, 0) == 0
  {
  }

  lemma Records(l: Log, rest: seq<Log>)
    ensures DataOf([l] + rest) == EncodeLog(l) + DataOf(rest)
  {
    hide EncodeLog;
    FirstRecord(l, rest, |rest|);
    assert rest[..|rest|] == rest && ([l] + rest)[..|rest| + 1] == [l] + rest;
  }

  lemma NothingRead(b: bytes)
    requires b == []
    ensures ReadStream(b) == Stream([], false)
  {
  }

  lemma FirstRecord(l: Log, rest: seq<Log>, i: nat)
    requires i <= |rest|
    ensures ([l] + rest)[..i + 1] == [l] + rest[..i]
    ensures OffsetOf([l] + rest, i + 1) == LogSize(l) + OffsetOf(rest, i)
    ensures DataOf(([l] + rest)[..i + 1]) == EncodeLog(l) + DataOf(rest[..i])
  {
    hide EncodeLog;
    assert ([l] + rest)[..i + 1] == [l] + rest[..i];
    DataOfAppend([l], rest[..i]);
    DataOfNext([], l);
    NoData();
    assert [] + [l] == [l] && DataOf([]) + EncodeLog(l) == EncodeLog(l);
  }

  /** Appending one log after another, stopping at the first that is refused. */
  function StoreAll(s: LogStore<Log>, logs: seq<Log>): (r: LogStore<Log>)
    decreases |logs|
  {
    if logs == [] || !s.Accepts(logs[0].id) then s else StoreAll(s.Append(logs[0].id, logs[0]), logs[1..])
  }

  /** No log of the sequence is refused. */
  predicate AllAccepted(s: LogStore<Log>, logs: seq<Log>)
    decreases |logs|
  {
    logs == [] || (s.Accepts(logs[0].id) && AllAccepted(s.Append(logs[0].id, logs[0]), logs[1..]))
  }

  /** The decoding loop: what it stores is what the stream holds, up to the first refused log. */
  method StoreLogsFromReader(s: LogStore<Log>, b: bytes) returns (r: LogStore<Log>, ok: bool)
    ensures r == StoreAll(s, ReadStream(b).logs)
    ensures ok <==> !ReadStream(b).broken && AllAccepted(s, ReadStream(b).logs)
  {
    hide DecodeHead, FromBigEndian;
    r, ok := s, true;
    var rest := b;
    while true
      invariant StoreAll(r, ReadStream(rest).logs) == StoreAll(s, ReadStream(b).logs)
      invariant ReadStream(rest).broken == ReadStream(b).broken
      invariant AllAccepted(r, ReadStream(rest).logs) == AllAccepted(s, ReadStream(b).logs)
      decreases |rest|
    {
      if rest == [] {
        return;
      }
      if |rest| < LOG_HEAD_SIZE {
        ok := false;
        return;
      }
      var h := DecodeHead(rest[..LOG_HEAD_SIZE]);
      if |rest| - LOG_HEAD_SIZE < h.len {
        ok := |rest| == LOG_HEAD_SIZE;
        return;
      }
      var l := Log(h.id, h.time, h.compression, rest[LOG_HEAD_SIZE..LOG_HEAD_SIZE + h.len]);
      ghost var logs := ReadStream(rest).logs;
      assert logs[1..] == ReadStream(rest[LOG_HEAD_SIZE + h.len..]).logs;
      if !r.Accepts(l.id) {
        ok := false;
        return;
      }
      r := r.Append(l.id, l);
      rest := rest[LOG_HEAD_SIZE + h.len..];
    }
  }

  /** A pull from the slave's next id leaves the slave with the master's logs appended, none refused. */
  lemma {:induction false} PullIsAppended(s: LogStore<Log>, logs: seq<Log>)
    requires s.Valid() && Consecutive(logs) && (logs != [] ==> s.Accepts(logs[0].id))
    ensures StoreAll(s, logs).logs == s.logs + logs && AllAccepted(s, logs)
    decreases |logs|
  {
    if logs != [] {
      var t, rest := s.Append(logs[0].id, logs[0]), logs[1..];
      forall i | 0 <= i < |rest| ensures ValidLog(rest[i]) && rest[i].id == rest[0].id + i && rest[i].id > 0 {
        assert rest[i] == logs[i + 1] && rest[0] == logs[1];
      }
      assert rest != [] ==> rest[0].id == logs[1].id == logs[0].id + 1;
      PullIsAppended(t, rest);
      assert s.logs + [logs[0]] + rest == s.logs + logs;
    }
  }
}
