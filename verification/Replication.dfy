/**
 Master and slave (ledis/replication.go, server/replication.go, ledis/dump.go). The slave pulls
 logs by id, stores them and replays them, or loads a dump when the logs it needs are gone. Every
 step of one side may fall between any two steps of the other; a pull and the storing of each
 pulled log are separate steps, and so are the three effects of a master write.
 */
module Replication {
  import opened Batches
  import opened LogStores
  import opened Node

  /** ledis.Dump: a snapshot and the commit id read under the same lock. */
  datatype Dump = Dump(commitID: nat, store: Store)

  /**
   `pending` and `applied` place a master write between its three effects; `received` holds the logs
   of the last pull that the slave has yet to store; `dumps` are the snapshots taken so far. A slave
   whose last load of a dump broke off has part of that dump, and one that crashed may have more than
   its commit id says: `owed` is the id from which on its store is right again.
   */
  datatype Sys = Sys(
    master: State, pending: bool, applied: bool, dumps: set<Dump>,
    slave: State, received: seq<Log>, owed: nat,
    history: seq<WriteBatch>)

  datatype Step =
    | MasterLog(b: WriteBatch) | MasterCommit | MasterAcknowledge | MasterSave
    | MasterPurge(n: nat) | TakeDump
    | Pull(n: nat) | StoreNext | SlaveReplay | SlavePurge(m: nat) | SlaveSave | SlaveCrash
    | FullSync(d: Dump) | FailedSync(d: Dump, part: Store)

  /** master.nextSyncLogID on the slave. */
  function NextSyncLogID(s: State): (id: nat) {
    if s.log.LastID() > s.commitID then s.log.LastID() + 1 else s.commitID + 1
  }

  /**
   syncCommand and ReadLogsTo: an error when the slave is ahead or the log is purged, otherwise the
   first `n` logs from `start` on; how many fit is decided by their size.
   */
  function ReadLogsTo(s: State, start: nat, n: nat): (r: Result<seq<Log>>)
    requires start > 0
  {
    if start - 1 > s.log.LastID() then Err(ErrStoreLogID)
    else if start < s.log.first then Err(ErrLogMissed)
    else
      var k := if n <= s.log.LastID() + 1 - start then n else s.log.LastID() + 1 - start;
      Ok(if s.log.logs == [] then []
          else seq(k, i requires 0 <= i < k => Log(start + i, s.log.logs[start + i - s.log.first])))
  }

  /** LoadDump: everything old is gone, the log is empty and the commit id is the dump's. */
  function LoadDump(d: Dump): (s: State) {
    State(d.store, LogStore(0, []), d.commitID, 0)
  }

  ghost predicate Init(s: Sys) {
    var empty := State(map[], LogStore(0, []), 0, 0);
    s == Sys(empty, false, false, {}, empty, [], 0, [])
  }

  ghost predicate Next(s: Sys, step: Step, t: Sys) {
    match step
    case MasterLog(b) =>
      && !s.pending && LogBatch(s.master, b).Ok?
      && t == s.(master := LogBatch(s.master, b).value.1, pending := true, history := s.history + [b])
    case MasterCommit =>
      && s.pending && !s.applied && s.history != []
      && t == s.(master := s.master.(store := Apply(s.master.store, s.history[|s.history| - 1])), applied := true)
    case MasterAcknowledge =>
      && s.applied
      && t == s.(master := s.master.(commitID := s.master.commitID + 1), pending := false, applied := false)
    case MasterSave =>
      t == s.(master := s.master.(savedID := s.master.commitID))
    case MasterPurge(n) =>
      && s.master.log.Valid() && n < |s.master.log.logs|
      && t == s.(master := s.master.(log := s.master.log.Purge(n)))
    case TakeDump =>
      && !s.pending
      && t == s.(dumps := s.dumps + {Dump(s.master.commitID, s.master.store)})
    case Pull(n) =>
      && s.received == []
      && var r := ReadLogsTo(s.master, NextSyncLogID(s.slave), n);
         r.Ok? && t == s.(received := r.value)
    case StoreNext =>
      && s.received != []
      && var l := s.received[0];
         t == if s.slave.log.Accepts(l.id)
              then s.(slave := s.slave.(log := s.slave.log.Append(l.id, l.batch)), received := s.received[1..])
              else s.(received := [])
    case SlaveReplay =>
      var r := NextNeedCommitLog(s.slave);
      && r.Ok?
      && t == s.(slave := s.slave.(store := Apply(s.slave.store, r.value.batch), commitID := r.value.id))
    case SlavePurge(n) =>
      && s.slave.log.Valid() && n < |s.slave.log.logs|
      && t == s.(slave := s.slave.(log := s.slave.log.Purge(n)))
    case SlaveSave =>
      t == s.(slave := s.slave.(savedID := s.slave.commitID))
    case SlaveCrash =>
      t == s.(slave := s.slave.(commitID := s.slave.savedID), received := [],
              owed := if s.owed < s.slave.commitID then s.slave.commitID else s.owed)
    case FullSync(d) =>
      && s.received == [] && d in s.dumps
      && t == s.(slave := LoadDump(d), owed := 0)
    case FailedSync(d, part) =>
      && s.received == [] && d in s.dumps && IsPart(part, d.store)
      && t == s.(slave := State(part, LogStore(0, []), 0, 0), owed := d.commitID)
  }

  // ---------------------------------------------------------------- the invariant

  /** The store right after log number `n`. */
  ghost predicate IsPrefix(store: Store, history: seq<WriteBatch>, n: int) {
    0 <= n <= |history| && store == Replay(map[], history[..n])
  }

  /**
   Replaying the logs after number `n` leads to the master's store, at the latest after log `owed`:
   a store that holds some of a dump is right again once the logs behind the dump are replayed.
   */
  ghost predicate Heals(store: Store, history: seq<WriteBatch>, n: int, owed: int) {
    && 0 <= n <= |history| && 0 <= owed <= |history|
    && var m := if n < owed then owed else n;
       Replay(store, history[n..m]) == Replay(map[], history[..m])
  }

  /** Every log held is the master's log of that id. */
  ghost predicate LogsAgree(l: LogStore<WriteBatch>, history: seq<WriteBatch>) {
    l.Valid() && forall id: nat :: l.Has(id) ==> 1 <= id <= |history| && l.logs[id - l.first] == history[id - 1]
  }

  ghost predicate ReceivedAgree(ls: seq<Log>, history: seq<WriteBatch>, next: int) {
    forall i :: 0 <= i < |ls| ==>
        ls[i].id == next + i && 1 <= ls[i].id <= |history| && ls[i].batch == history[ls[i].id - 1]
  }

  ghost predicate DumpsAgree(dumps: set<Dump>, history: seq<WriteBatch>) {
    forall d :: d in dumps ==> IsPrefix(d.store, history, d.commitID)
  }

  ghost predicate MasterInv(s: Sys) {
    var m := s.master;
    && LogsAgree(m.log, s.history)
    && m.log.LastID() == |s.history|
    && m.commitID == |s.history| - (if s.pending then 1 else 0)
    && (s.applied ==> s.pending)
    && IsPrefix(m.store, s.history, m.commitID + (if s.applied then 1 else 0))
  }

  ghost predicate SlaveInv(s: Sys) {
    && LogsAgree(s.slave.log, s.history)
    && Heals(s.slave.store, s.history, s.slave.commitID, s.owed)
    && (s.slave.log.logs != [] ==> s.slave.commitID <= s.slave.log.LastID())
    && s.slave.savedID <= s.slave.commitID
    && ReceivedAgree(s.received, s.history, NextSyncLogID(s.slave))
  }

  ghost predicate Inv(s: Sys) {
    MasterInv(s) && SlaveInv(s) && DumpsAgree(s.dumps, s.history)
  }

  lemma PrefixGrows(store: Store, history: seq<WriteBatch>, n: int, b: WriteBatch)
    requires IsPrefix(store, history, n)
    ensures IsPrefix(store, history + [b], n)
  {
    assert (history + [b])[..n] == history[..n];
  }

  lemma PrefixApplies(store: Store, history: seq<WriteBatch>, n: int)
    requires IsPrefix(store, history, n) && n < |history|
    ensures IsPrefix(Apply(store, history[n]), history, n + 1)
  {
    assert history[..n + 1][..n] == history[..n];
  }

  lemma HealsGrows(store: Store, history: seq<WriteBatch>, n: int, owed: int, b: WriteBatch)
    requires Heals(store, history, n, owed)
    ensures Heals(store, history + [b], n, owed)
  {
    var m := if n < owed then owed else n;
    assert (history + [b])[n..m] == history[n..m] && (history + [b])[..m] == history[..m];
  }

  lemma HealsApplies(store: Store, history: seq<WriteBatch>, n: int, owed: int)
    requires Heals(store, history, n, owed) && n < |history|
    ensures Heals(Apply(store, history[n]), history, n + 1, owed)
  {
    hide Apply;
    var next := Apply(store, history[n]);
    if n < owed {
      assert history[n..owed] == [history[n]] + history[n + 1..owed];
      ReplayAppend(store, [history[n]], history[n + 1..owed]);
      ReplayOne(store, history[n]);
    } else {
      assert history[n..n] == [] && history[n + 1..n + 1] == [];
      assert history[..n + 1][..n] == history[..n];
    }
  }

  /** Starting again from an earlier log does no harm: at the latest after log `n` the store is right again. */
  lemma HealsAgain(store: Store, history: seq<WriteBatch>, from: int, n: int, owed: int)
    requires Heals(store, history, n, owed) && 0 <= from <= n
    ensures Heals(store, history, from, if owed < n then n else owed)
  {
    hide Replay;
    var m := if n < owed then owed else n;
    var a, b := history[from..n], history[n..m];
    assert a + b == history[from..m] && history[..from] + (a + b) == history[..m];
    ReplayAppend(map[], history[..from], a + b);
    ReplayAgain(store, Replay(map[], history[..from]), a, b);
  }

  /** A store that was right after log `n` owes nothing. */
  lemma PrefixHeals(store: Store, history: seq<WriteBatch>, n: int)
    requires IsPrefix(store, history, n)
    ensures Heals(store, history, n, 0)
  {
    assert history[n..n] == [];
  }

  /** Part of a dump is overwritten by the logs that led to the dump. */
  lemma PartHeals(part: Store, store: Store, history: seq<WriteBatch>, n: int)
    requires IsPrefix(store, history, n) && IsPart(part, store)
    ensures Heals(part, history, 0, n)
  {
    hide Apply, Flat, Replay;
    var bs, none: Store := history[..n], map[];
    ReplayIsFlat(none, bs);
    ReplayIsFlat(part, bs);
    forall k | !Touches(Flat(bs), k) ensures Lookup(part, k) == Lookup(none, k) {
      ApplyFrame(none, Flat(bs), k);
      assert k in store <==> Lookup(store, k).Some?;
    }
    ApplyMerges(part, none, Flat(bs));
    assert history[0..n] == bs;
    if n == 0 { assert history[0..0] == []; }
  }

  lemma DumpsGrow(dumps: set<Dump>, history: seq<WriteBatch>, b: WriteBatch)
    requires DumpsAgree(dumps, history)
    ensures DumpsAgree(dumps, history + [b])
  {
    forall d | d in dumps ensures IsPrefix(d.store, history + [b], d.commitID) {
      PrefixGrows(d.store, history, d.commitID, b);
    }
  }

  lemma LogsGrow(l: LogStore<WriteBatch>, history: seq<WriteBatch>, b: WriteBatch)
    requires LogsAgree(l, history)
    ensures LogsAgree(l, history + [b])
  {
  }

  lemma LogsStore(l: LogStore<WriteBatch>, history: seq<WriteBatch>, id: nat)
    requires LogsAgree(l, history) && 1 <= id <= |history| && l.Accepts(id)
    ensures LogsAgree(l.Append(id, history[id - 1]), history)
    ensures l.Append(id, history[id - 1]).LastID() == id
  {
    var m := l.Append(id, history[id - 1]);
    forall x: nat | m.Has(x) ensures 1 <= x <= |history| && m.logs[x - m.first] == history[x - 1] {
      assert l.logs != [] && x < id ==> l.Has(x);
    }
  }

  lemma LogsPurge(l: LogStore<WriteBatch>, history: seq<WriteBatch>, n: nat)
    requires LogsAgree(l, history) && n < |l.logs|
    ensures LogsAgree(l.Purge(n), history) && l.Purge(n).LastID() == l.LastID() && l.Purge(n).logs != []
  {
    var m := l.Purge(n);
    forall x: nat | m.Has(x) ensures 1 <= x <= |history| && m.logs[x - m.first] == history[x - 1] {
      assert l.Has(x);
    }
  }

  // ---------------------------------------------------------------- the steps keep it

  lemma MasterLogInv(s: Sys, b: WriteBatch, t: Sys)
    requires Inv(s) && Next(s, MasterLog(b), t)
    ensures Inv(t)
  {
    hide IsPrefix, Heals, Replay, Apply, DumpsAgree, LogsAgree;
    LogsGrow(s.master.log, s.history, b);
    assert t.history[|t.history| - 1] == b;
    LogsStore(s.master.log, t.history, |t.history|);
    PrefixGrows(s.master.store, s.history, s.master.commitID, b);
    LogsGrow(s.slave.log, s.history, b);
    HealsGrows(s.slave.store, s.history, s.slave.commitID, s.owed, b);
    DumpsGrow(s.dumps, s.history, b);
  }

  lemma MasterInvStep(s: Sys, step: Step, t: Sys)
    requires Inv(s) && Next(s, step, t)
    requires step.MasterCommit? || step.MasterAcknowledge? || step.MasterSave? || step.MasterPurge? || step.TakeDump?
    ensures Inv(t)
  {
    hide IsPrefix, Heals, Replay, Apply, LogsAgree, ReceivedAgree;
    match step
    case MasterCommit => PrefixApplies(s.master.store, s.history, s.master.commitID);
    case MasterPurge(n) => LogsPurge(s.master.log, s.history, n);
    case _ =>
  }

  lemma PullInv(s: Sys, n: nat, t: Sys)
    requires Inv(s) && Next(s, Pull(n), t)
    ensures Inv(t)
  {
    hide IsPrefix, Heals, Replay, Apply, DumpsAgree;
    var start := NextSyncLogID(s.slave);
    forall i | 0 <= i < |t.received|
      ensures t.received[i].id == start + i <= |s.history| && t.received[i].batch == s.history[start + i - 1]
    {
      assert s.master.log.Has(start + i);
    }
  }

  lemma StoreInv(s: Sys, t: Sys)
    requires Inv(s) && Next(s, StoreNext, t)
    ensures Inv(t) && t.received == s.received[1..]
  {
    hide IsPrefix, Heals, Replay, Apply, DumpsAgree;
    var l := s.received[0];
    assert l == Log(l.id, s.history[l.id - 1]);
    LogsStore(s.slave.log, s.history, l.id);
    assert NextSyncLogID(t.slave) == l.id + 1;
    forall i | 0 <= i < |t.received|
      ensures t.received[i].id == l.id + 1 + i <= |s.history| && t.received[i].batch == s.history[t.received[i].id - 1]
    {
      assert t.received[i] == s.received[i + 1];
    }
  }

  lemma SlaveInvStep(s: Sys, step: Step, t: Sys)
    requires Inv(s) && Next(s, step, t)
    requires step.SlaveReplay? || step.SlavePurge? || step.FullSync? || step.FailedSync?
    ensures Inv(t)
  {
    hide Replay, Apply, IsPrefix, Heals, IsPart;
    match step
    case SlaveReplay =>
      assert s.slave.log.Has(s.slave.commitID + 1);
      HealsBounds(s.slave.store, s.history, s.slave.commitID, s.owed);
      HealsApplies(s.slave.store, s.history, s.slave.commitID, s.owed);
    case SlavePurge(n) =>
      LogsPurge(s.slave.log, s.history, n);
    case FullSync(d) =>
      PrefixHeals(d.store, s.history, d.commitID);
    case FailedSync(d, part) =>
      PartHeals(part, d.store, s.history, d.commitID);
  }

  lemma CrashInv(s: Sys, step: Step, t: Sys)
    requires Inv(s) && Next(s, step, t) && (step.SlaveSave? || step.SlaveCrash?)
    ensures Inv(t)
  {
    hide Replay, Apply, IsPrefix, Heals, DumpsAgree, LogsAgree;
    if step.SlaveCrash? { HealsAgain(s.slave.store, s.history, s.slave.savedID, s.slave.commitID, s.owed); }
  }

  lemma HealsBounds(store: Store, history: seq<WriteBatch>, n: int, owed: int)
    requires Heals(store, history, n, owed)
    ensures 0 <= n <= |history| && 0 <= owed <= |history|
  {
  }

  lemma NextInv(s: Sys, step: Step, t: Sys)
    requires Inv(s) && Next(s, step, t)
    ensures Inv(t)
  {
    hide Inv, Next;
    match step
    case MasterLog(b) => MasterLogInv(s, b, t);
    case Pull(n) => PullInv(s, n, t);
    case StoreNext => StoreInv(s, t);
    case MasterCommit => MasterInvStep(s, step, t);
    case MasterAcknowledge => MasterInvStep(s, step, t);
    case MasterSave => MasterInvStep(s, step, t);
    case MasterPurge(_) => MasterInvStep(s, step, t);
    case TakeDump => MasterInvStep(s, step, t);
    case SlaveSave => CrashInv(s, step, t);
    case SlaveCrash => CrashInv(s, step, t);
    case _ => SlaveInvStep(s, step, t);
  }

  // ---------------------------------------------------------------- whole runs

  ghost predicate Run(states: seq<Sys>, steps: seq<Step>) {
    && |states| == |steps| + 1 && Init(states[0])
    && forall i :: 0 <= i < |steps| ==> Next(states[i], steps[i], states[i + 1])
  }

  lemma InitInv(s: Sys)
    requires Init(s)
    ensures Inv(s)
  {
    assert s.history[..0] == [];
  }

  lemma {:induction false} RunInv(states: seq<Sys>, steps: seq<Step>, n: nat)
    requires Run(states, steps) && n < |states|
    ensures Inv(states[n])
  {
    if n == 0 {
      InitInv(states[0]);
    } else {
      hide Inv;
      RunInv(states, steps, n - 1);
      NextInv(states[n - 1], steps[n - 1], states[n]);
    }
  }

  /**
   Replication safety. In every run, every log the slave holds is the master's log of that id, and
   the slave's store is the master's store as it was right after log number `slave.commitID`. After
   a load that broke off this holds again as soon as the commit id has reached the dump's, after a
   crash as soon as it has reached the one before the crash, and replaying the logs up to there leads
   to it.
   */
  lemma SlaveIsPastMaster(states: seq<Sys>, steps: seq<Step>, n: nat)
    requires Run(states, steps) && n < |states|
    ensures var s := states[n];
            && s.slave.commitID <= |s.history| && s.owed <= |s.history|
            && (s.owed <= s.slave.commitID ==> s.slave.store == Replay(map[], s.history[..s.slave.commitID]))
            && (s.slave.commitID <= s.owed ==>
                  Replay(s.slave.store, s.history[s.slave.commitID..s.owed]) == Replay(map[], s.history[..s.owed]))
            && forall id: nat :: s.slave.log.Has(id) ==>
                 1 <= id <= |s.history| && s.slave.log.GetLog(id) == Ok(s.history[id - 1])
  {
    RunInv(states, steps, n);
    var s := states[n];
    var c := s.slave.commitID;
    assert s.history[c..c] == [];
  }

  /** Right after a load that broke off, the store is the master's at that commit id only if nothing was put. */
  lemma FailedSyncIff(s: Sys, d: Dump, part: Store, t: Sys)
    requires Next(s, FailedSync(d, part), t)
    ensures t.slave.store == Replay(map[], t.history[..t.slave.commitID]) <==> part == map[]
  {
    assert t.history[..0] == [];
  }

  /** A slave that has caught up with an idle master has the master's store. */
  lemma CaughtUpSlaveEqualsMaster(states: seq<Sys>, steps: seq<Step>, n: nat)
    requires Run(states, steps) && n < |states|
    requires states[n].slave.commitID == states[n].master.commitID && !states[n].pending
    ensures states[n].slave.store == states[n].master.store
  {
    hide Replay;
    RunInv(states, steps, n);
    SlaveIsPastMaster(states, steps, n);
  }

  /** No pulled log is ever refused: what a pull asks for is what the slave's log takes next. */
  lemma PulledLogsAreAccepted(states: seq<Sys>, steps: seq<Step>, n: nat)
    requires Run(states, steps) && n < |states| && states[n].received != []
    ensures states[n].slave.log.Accepts(states[n].received[0].id)
  {
    RunInv(states, steps, n);
  }

  // ---------------------------------------------------------------- catching up

  ghost predicate Path(states: seq<Sys>, steps: seq<Step>) {
    |states| == |steps| + 1 && forall i :: 0 <= i < |steps| ==> Next(states[i], steps[i], states[i + 1])
  }

  /** What a slave does by itself while it follows a master. */
  predicate IsSync(step: Step) {
    step.Pull? || step.StoreNext? || step.SlaveReplay?
  }

  lemma PathFront(s: Sys, step: Step, states: seq<Sys>, steps: seq<Step>)
    requires Path(states, steps) && Next(s, step, states[0])
    ensures Path([s] + states, [step] + steps)
  {
    hide Next;
    var more, all := [s] + states, [step] + steps;
    forall i | 0 <= i < |all| ensures Next(more[i], all[i], more[i + 1]) {
      if i > 0 { assert Next(states[i - 1], steps[i - 1], states[i]); }
    }
  }

  /** The slave still has the log after its commit id, and the master the log that the slave asks for. */
  ghost predicate CanFollow(s: Sys) {
    && (s.slave.log.LastID() <= s.slave.commitID || s.slave.log.Has(s.slave.commitID + 1))
    && (NextSyncLogID(s.slave) > |s.history| || s.master.log.first <= NextSyncLogID(s.slave))
  }

  /** What a slave that can follow does next, if anything is left to do. */
  ghost function NextSync(s: Sys): (step: Option<Step>) {
    if s.received != [] then Some(StoreNext)
    else if NextNeedCommitLog(s.slave).Ok? then Some(SlaveReplay)
    else if NextSyncLogID(s.slave) <= |s.history| then Some(Pull(1))
    else None
  }

  lemma SyncStep(s: Sys) returns (t: Sys)
    requires Inv(s) && CanFollow(s) && NextSync(s).Some?
    ensures Next(s, NextSync(s).value, t) && Inv(t) && CanFollow(t) && t.history == s.history
    ensures NextSyncLogID(t.slave) >= NextSyncLogID(s.slave) && t.slave.commitID >= s.slave.commitID
    ensures NextSync(s).value.StoreNext? ==> NextSyncLogID(t.slave) > NextSyncLogID(s.slave)
    ensures NextSync(s).value.SlaveReplay? ==> t.slave.commitID > s.slave.commitID
    ensures NextSync(s).value.Pull? ==> t.received != []
  {
    hide IsPrefix, Heals, Replay, Apply, DumpsAgree;
    match NextSync(s).value
    case StoreNext =>
      var l := s.received[0];
      assert s.slave.log.Accepts(l.id);
      t := s.(slave := s.slave.(log := s.slave.log.Append(l.id, l.batch)), received := s.received[1..]);
      StoreInv(s, t);
    case SlaveReplay =>
      var l := NextNeedCommitLog(s.slave).value;
      t := s.(slave := s.slave.(store := Apply(s.slave.store, l.batch), commitID := l.id));
      SlaveInvStep(s, SlaveReplay, t);
    case Pull(_) =>
      t := s.(received := ReadLogsTo(s.master, NextSyncLogID(s.slave), 1).value);
      PullInv(s, 1, t);
  }

  lemma SyncDone(s: Sys)
    requires Inv(s) && CanFollow(s) && NextSync(s).None?
    ensures s.slave.commitID == |s.history|
  {
    hide IsPrefix, Replay, DumpsAgree;
  }

  lemma SyncBounds(s: Sys)
    requires Inv(s)
    ensures NextSyncLogID(s.slave) <= |s.history| + 1 && s.slave.commitID <= |s.history|
  {
    hide IsPrefix, Replay, DumpsAgree;
    if s.slave.log.logs != [] { assert s.slave.log.Has(s.slave.log.LastID()); }
  }

  /** A slave that can follow reaches the last log of the master by pulling, storing and replaying alone. */
  lemma CatchUpByLogs(s: Sys) returns (states: seq<Sys>, steps: seq<Step>)
    requires Inv(s) && CanFollow(s)
    ensures Path(states, steps) && states[0] == s && forall i :: 0 <= i < |steps| ==> IsSync(steps[i])
    ensures var t := states[|steps|]; Inv(t) && t.history == s.history && t.slave.commitID == |t.history|
    decreases |s.history| + 1 - NextSyncLogID(s.slave), |s.history| - s.slave.commitID,
              if s.received == [] then 1 else 0
  {
    hide Inv, Next, CanFollow, NextSyncLogID;
    SyncBounds(s);
    if NextSync(s).None? {
      SyncDone(s);
      states, steps := [s], [];
    } else {
      var t := SyncStep(s);
      SyncBounds(t);
      var more, rest := CatchUpByLogs(t);
      PathFront(s, NextSync(s).value, more, rest);
      states, steps := [s] + more, [NextSync(s).value] + rest;
    }
  }

  /** What has to happen before a full sync: the master's write ends and the pulled logs are stored. */
  ghost function BeforeDump(s: Sys): (step: Option<Step>) {
    if s.pending && !s.applied then Some(MasterCommit)
    else if s.pending then Some(MasterAcknowledge)
    else if s.received != [] then Some(StoreNext)
    else None
  }

  lemma DumpStep(s: Sys) returns (t: Sys)
    requires Inv(s) && BeforeDump(s).Some?
    ensures Next(s, BeforeDump(s).value, t) && Inv(t) && t.history == s.history
    ensures BeforeDump(s).value.MasterCommit? ==> t.pending && t.applied && t.received == s.received
    ensures BeforeDump(s).value.MasterAcknowledge? ==> !t.pending && t.received == s.received
    ensures BeforeDump(s).value.StoreNext? ==> !t.pending && |t.received| < |s.received|
  {
    hide IsPrefix, Heals, Replay, Apply, DumpsAgree;
    match BeforeDump(s).value
    case MasterCommit =>
      t := s.(master := s.master.(store := Apply(s.master.store, s.history[|s.history| - 1])), applied := true);
      MasterInvStep(s, MasterCommit, t);
    case MasterAcknowledge =>
      t := s.(master := s.master.(commitID := s.master.commitID + 1), pending := false, applied := false);
      MasterInvStep(s, MasterAcknowledge, t);
    case StoreNext =>
      var l := s.received[0];
      assert s.slave.log.Accepts(l.id);
      t := s.(slave := s.slave.(log := s.slave.log.Append(l.id, l.batch)), received := s.received[1..]);
      StoreInv(s, t);
  }

  /** Any slave reaches the master by a full sync. */
  lemma CatchUpByDump(s: Sys) returns (states: seq<Sys>, steps: seq<Step>)
    requires Inv(s)
    ensures Path(states, steps) && states[0] == s
    ensures var t := states[|steps|];
            && Inv(t) && t.history == s.history && !t.pending
            && t.slave.commitID == t.master.commitID == |t.history| && t.slave.store == t.master.store
    decreases if !s.pending then 0 else if s.applied then 1 else 2, |s.received|
  {
    hide Inv;
    if BeforeDump(s).Some? {
      var t := DumpStep(s);
      var more, rest := CatchUpByDump(t);
      hide Next;
      PathFront(s, BeforeDump(s).value, more, rest);
      states, steps := [s] + more, [BeforeDump(s).value] + rest;
    } else {
      var dump := Dump(s.master.commitID, s.master.store);
      var taken := s.(dumps := s.dumps + {dump});
      var loaded := taken.(slave := LoadDump(dump), owed := 0);
      NextInv(s, TakeDump, taken);
      NextInv(taken, FullSync(dump), loaded);
      MasterIdle(loaded);
      states, steps := [s, taken, loaded], [TakeDump, FullSync(dump)];
    }
  }

  lemma MasterIdle(s: Sys)
    requires Inv(s) && !s.pending
    ensures s.master.commitID == |s.history|
  {
  }

  /**
   From every state of every run the slave can reach the last log of the master, and so its commit id:
   by itself while neither side has purged what is needed, and by a full sync in any case.
   */
  lemma SlaveCatchesUp(states: seq<Sys>, steps: seq<Step>, n: nat) returns (more: seq<Sys>, rest: seq<Step>)
    requires Run(states, steps) && n < |states|
    ensures Path(more, rest) && more[0] == states[n]
    ensures CanFollow(states[n]) ==> forall i :: 0 <= i < |rest| ==> IsSync(rest[i])
    ensures var t := more[|rest|];
            && t.history == states[n].history && t.slave.commitID == |t.history| >= t.master.commitID
            && t.slave.store == Replay(map[], t.history)
  {
    RunInv(states, steps, n);
    if CanFollow(states[n]) {
      more, rest := CatchUpByLogs(states[n]);
    } else {
      more, rest := CatchUpByDump(states[n]);
    }
    UpToDate(more[|rest|]);
  }

  lemma UpToDate(s: Sys)
    requires Inv(s) && s.slave.commitID == |s.history|
    ensures s.slave.store == Replay(map[], s.history) && s.master.commitID <= |s.history|
  {
    assert s.history[..|s.history|] == s.history && s.history[|s.history|..|s.history|] == [];
  }
}
