/**
 One server: its store, its write-ahead log and its commit id (ledis/batch.go, rpl/rpl.go,
 ledis/replication.go). A write is logged, then committed to the store, then acknowledged by
 moving the commit id; the replay loop does the last two for every log that is behind.
 */
module Node {
  import opened Bytes
  import opened Batches
  import opened LogStores

  type Store = map<bytes, bytes>
  type WriteBatch = Batch<bytes, bytes>

  datatype Log = Log(id: nat, batch: WriteBatch)

  datatype State = State(store: Store, log: LogStore<WriteBatch>, commitID: nat, savedID: nat)

  /** Some of the entries of a store, as a load of its dump that breaks off leaves them. */
  predicate IsPart(part: Store, store: Store) {
    forall k :: k in part ==> k in store && part[k] == store[k]
  }

  // ---------------------------------------------------------------- rpl.Replication

  /** Replication.Log: refuses to log while older logs wait to be committed. */
  function LogBatch(s: State, b: WriteBatch): (r: Result<(Log, State)>) {
    var last := s.log.LastID();
    if last > s.commitID then Err(ErrCommitIDBehind)
    else
      var id := s.commitID + 1;
      if s.log.Accepts(id) then Ok((Log(id, b), s.(log := s.log.Append(id, b)))) else Err(ErrStoreLogID)
  }

  /** Replication.NextNeedCommitLog. */
  function NextNeedCommitLog(s: State): (r: Result<Log>) {
    if s.log.LastID() <= s.commitID then Err(ErrNoBehindLog)
    else
      match s.log.GetLog(s.commitID + 1)
      case Ok(b) => Ok(Log(s.commitID + 1, b))
      case Err(e) => Err(e)
  }

  /** The logs after the commit id, in order. */
  function Behind(s: State): (bs: seq<WriteBatch>) {
    if s.log.LastID() <= s.commitID || !s.log.Has(s.commitID + 1) then []
    else s.log.logs[s.commitID + 1 - s.log.first..]
  }

  class Ledis {
    var store: Store
    var log: LogStore<WriteBatch>
    var commitID: nat
    var savedID: nat
    const syncCommitID: bool
    const readonly: bool

    constructor (syncCommitID: bool, readonly: bool)
      ensures store == map[] && log == LogStore(0, []) && commitID == 0 && savedID == 0
      ensures this.syncCommitID == syncCommitID && this.readonly == readonly
    {
      store, log, commitID, savedID := map[], LogStore(0, []), 0, 0;
      this.syncCommitID, this.readonly := syncCommitID, readonly;
    }

    ghost function Value(): State
      reads this
    {
      State(store, log, commitID, savedID)
    }

    method UpdateCommitID(id: nat, force: bool)
      modifies this
      ensures commitID == id && savedID == if force then id else old(savedID)
      ensures store == old(store) && log == old(log)
    {
      if force {
        savedID := id;
      }
      commitID := id;
    }

    method AppendLog(b: WriteBatch) returns (r: Result<Log>)
      modifies this
      ensures r == match LogBatch(old(Value()), b) case Ok(p) => Ok(p.0) case Err(e) => Err(e)
      ensures Value() == match LogBatch(old(Value()), b) case Ok(p) => p.1 case Err(_) => old(Value())
    {
      var lastID := log.LastID();
      if lastID < commitID {
        lastID := commitID;
      } else if lastID > commitID {
        return Err(ErrCommitIDBehind);
      }
      if !log.Accepts(lastID + 1) {
        return Err(ErrStoreLogID);
      }
      log := log.Append(lastID + 1, b);
      r := Ok(Log(lastID + 1, b));
    }

    /** batch.Commit and handleCommit: log, then commit, then acknowledge. */
    method HandleCommit(b: WriteBatch) returns (r: Result<nat>)
      requires log.Valid()
      modifies this
      ensures log.Valid()
      ensures r.Ok? <==> !readonly && old(log.LastID() <= commitID && (log.logs == [] || log.LastID() == commitID))
      ensures r.Err? ==> Value() == old(Value())
      ensures r == Err(ErrReadonly) <==> readonly
      ensures r == Err(ErrCommitIDBehind) <==> !readonly && old(log.LastID() > commitID)
      ensures r.Ok? ==> store == Apply(old(store), b) && commitID == old(commitID) + 1 == r.value
      ensures r.Ok? ==> log.LastID() == commitID && log.logs == old(log.logs) + [b]
      ensures r.Ok? ==> log.first == if old(log.logs) == [] then commitID else old(log.first)
      ensures r.Ok? ==> savedID == if syncCommitID then commitID else old(savedID)
    {
      if readonly {
        return Err(ErrReadonly);
      }
      var l := AppendLog(b);
      if l.Err? {
        return Err(l.error);
      }
      store := Apply(store, b);
      UpdateCommitID(l.value.id, syncCommitID);
      r := Ok(l.value.id);
    }

    /**
     handleReplication: replays every log behind the commit id, in order and each once. It stops
     early only when the next log has been purged, and then it has changed nothing.
     */
    method HandleReplication() returns (r: Result<()>)
      requires log.Valid()
      modifies this
      ensures log == old(log)
      ensures store == Replay(old(store), old(Behind(Value())))
      ensures r.Ok? <==> log.LastID() <= commitID
      ensures r.Ok? <==> old(log.LastID() <= commitID || log.Has(commitID + 1))
      ensures r.Err? ==> r == Err(ErrLogNotFound)
      ensures commitID == if r.Ok? && old(commitID) < log.LastID() then log.LastID() else old(commitID)
      ensures savedID == if syncCommitID && commitID != old(commitID) then commitID else old(savedID)
    {
      hide Apply, Replay, Behind, NextNeedCommitLog;
      ghost var start := Value();
      ghost var todo := Behind(start);
      ghost var n := 0;
      ReplayGrows(store, todo, 0);
      while true
        invariant log == start.log && n <= |todo| && commitID == start.commitID + n
        invariant store == Replay(start.store, todo[..n])
        invariant savedID == if syncCommitID && n > 0 then commitID else start.savedID
        decreases |todo| - n
      {
        var next := NextNeedCommitLog(State(store, log, commitID, savedID));
        NextIsBehind(start, State(store, log, commitID, savedID), n);
        ReplayGrows(start.store, todo, n);
        if next == Err(ErrNoBehindLog) {
          return Ok(());
        }
        if next.Err? {
          return Err(next.error);
        }
        store := Apply(store, next.value.batch);
        UpdateCommitID(next.value.id, syncCommitID);
        n := n + 1;
      }
    }
  }

  lemma ReplayGrows(s: Store, bs: seq<WriteBatch>, n: nat)
    requires n <= |bs|
    ensures Replay(s, bs[..0]) == s && bs[..|bs|] == bs
    ensures n < |bs| ==> Replay(s, bs[..n + 1]) == Apply(Replay(s, bs[..n]), bs[n])
  {
    hide Apply;
    if n < |bs| { assert bs[..n + 1][..n] == bs[..n]; }
  }

  /** The logs behind a commit id are what the replay loop is given, one after the other. */
  lemma NextIsBehind(start: State, now: State, n: nat)
    requires start.log.Valid() && n <= |Behind(start)| && now.log == start.log && now.commitID == start.commitID + n
    ensures n < |Behind(start)| ==> NextNeedCommitLog(now) == Ok(Log(now.commitID + 1, Behind(start)[n]))
    ensures n == |Behind(start)| ==> NextNeedCommitLog(now) in {Err(ErrNoBehindLog), Err(ErrLogNotFound)}
    ensures n == |Behind(start)| ==>
              (NextNeedCommitLog(now) == Err(ErrNoBehindLog) <==> now.log.LastID() <= now.commitID)
    ensures n == |Behind(start)| > 0 ==> now.commitID == now.log.LastID()
    ensures Behind(start) == [] <==> start.log.LastID() <= start.commitID || !start.log.Has(start.commitID + 1)
  {
  }
}
