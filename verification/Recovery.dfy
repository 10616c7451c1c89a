/**
 Crash recovery. A write is three separate effects on disk (log record, batch commit, commit id)
 and the commit id is saved lazily, so a crash can leave any of them behind the others. The replay
 loop that runs at start-up may itself be cut short by another crash. Whatever happened, once the
 commit id has caught up with the log the store is what committing every logged batch once, in
 order, would have produced.
 */
module Recovery {
  import opened Batches
  import opened LogStores
  import opened Node

  /**
   A server together with its past: `base` is the store right after log number `baseID`, and
   `history` holds every batch logged since. `applied` says that the batch after the commit id has
   been committed but not yet acknowledged.
   */
  datatype Sys = Sys(node: State, applied: bool, base: Store, baseID: nat, history: seq<WriteBatch>)

  datatype Step =
    | Begin(b: WriteBatch)  // Replication.Log inside handleCommit
    | CommitNext            // the batch after the commit id reaches the store
    | Acknowledge           // UpdateCommitID
    | SaveCommitID          // the one-second ticker, or SyncLog = 2
    | PurgeLogs(n: nat)     // old log tables are removed
    | Crash                 // memory is lost; the commit id comes back from commit.log

  ghost predicate Init(s: Sys) {
    && s.node.store == s.base && s.node.log == LogStore(0, [])
    && s.node.commitID == s.node.savedID == s.baseID
    && !s.applied && s.history == []
  }

  ghost predicate Next(s: Sys, step: Step, t: Sys) {
    && t.base == s.base && t.baseID == s.baseID
    && match step
       case Begin(b) =>
         && !s.applied && LogBatch(s.node, b).Ok?
         && t == s.(node := LogBatch(s.node, b).value.1, history := s.history + [b])
       case CommitNext =>
         && !s.applied && NextNeedCommitLog(s.node).Ok?
         && var l := NextNeedCommitLog(s.node).value;
            t == s.(node := s.node.(store := Apply(s.node.store, l.batch)), applied := true)
       case Acknowledge =>
         s.applied && t == s.(node := s.node.(commitID := s.node.commitID + 1), applied := false)
       case SaveCommitID =>
         t == s.(node := s.node.(savedID := s.node.commitID))
       case PurgeLogs(n) =>
         && s.node.log.Valid() && n < |s.node.log.logs|
         && t == s.(node := s.node.(log := s.node.log.Purge(n)))
       case Crash =>
         t == s.(node := s.node.(commitID := s.node.savedID), applied := false)
  }

  /** The log is the part of the history that has not been purged. */
  ghost predicate LogIsHistory(l: LogStore<WriteBatch>, baseID: nat, history: seq<WriteBatch>) {
    && l.Valid()
    && (l.logs == [] ==> history == [])
    && (l.logs != [] ==> baseID < l.first && l.LastID() == baseID + |history| &&
                         l.logs == history[l.first - 1 - baseID..])
  }

  /** Replaying the history from number `n` on over the store, as it is now, yields the full history. */
  ghost predicate Converges(store: Store, base: Store, history: seq<WriteBatch>, n: int) {
    0 <= n <= |history| && Replay(store, history[n..]) == Replay(base, history)
  }

  ghost predicate Inv(s: Sys) {
    var saved, done := s.node.savedID - s.baseID, s.node.commitID - s.baseID;
    && LogIsHistory(s.node.log, s.baseID, s.history)
    && 0 <= saved <= done <= |s.history|
    && Converges(s.node.store, s.base, s.history, saved)
    && Converges(s.node.store, s.base, s.history, done)
    && (s.applied ==> done < |s.history| && Converges(s.node.store, s.base, s.history, done + 1))
  }

  lemma BeginConverges(store: Store, base: Store, history: seq<WriteBatch>, n: int, b: WriteBatch)
    requires Converges(store, base, history, n)
    ensures Converges(store, base, history + [b], n)
  {
    var longer := history + [b];
    assert longer[n..] == history[n..] + [b];
    assert longer[..|history|] == history && longer[n..][..|history| - n] == history[n..];
  }

  /** Committing batch `at` early is absorbed by any replay that starts at or before it. */
  lemma CommitConverges(store: Store, base: Store, history: seq<WriteBatch>, n: int, at: int)
    requires Converges(store, base, history, n) && n <= at < |history|
    ensures Converges(Apply(store, history[at]), base, history, n)
    ensures n == at ==> Converges(Apply(store, history[at]), base, history, at + 1)
  {
    var bs := history[n..];
    assert bs[at - n] == history[at];
    ReplayAbsorbs(store, bs, at - n);
    if n == at {
      assert bs == [bs[0]] + history[at + 1..];
      ReplayAppend(store, [bs[0]], history[at + 1..]);
      ReplayOne(store, bs[0]);
    }
  }

  lemma HistoryEnd(l: LogStore<WriteBatch>, baseID: nat, history: seq<WriteBatch>)
    requires LogIsHistory(l, baseID, history)
    ensures if l.logs == [] then history == [] else l.LastID() == baseID + |history|
  {
  }

  lemma BeginLog(l: LogStore<WriteBatch>, baseID: nat, history: seq<WriteBatch>, b: WriteBatch)
    requires LogIsHistory(l, baseID, history) && l.Accepts(baseID + |history| + 1)
    ensures LogIsHistory(l.Append(baseID + |history| + 1, b), baseID, history + [b])
  {
    if l.logs != [] {
      assert (history + [b])[l.first - 1 - baseID..] == history[l.first - 1 - baseID..] + [b];
    }
  }

  lemma PurgeLog(l: LogStore<WriteBatch>, baseID: nat, history: seq<WriteBatch>, n: nat)
    requires LogIsHistory(l, baseID, history) && n < |l.logs|
    ensures LogIsHistory(l.Purge(n), baseID, history)
  {
    assert history[l.first - 1 - baseID..][n..] == history[l.first + n - 1 - baseID..];
  }

  lemma InitInv(s: Sys)
    requires Init(s)
    ensures Inv(s)
  {
  }

  lemma BeginInv(s: Sys, b: WriteBatch, t: Sys)
    requires Inv(s) && Next(s, Begin(b), t)
    ensures Inv(t)
  {
    hide Converges, LogIsHistory, Replay, Apply;
    HistoryEnd(s.node.log, s.baseID, s.history);
    BeginLog(s.node.log, s.baseID, s.history, b);
    BeginConverges(s.node.store, s.base, s.history, s.node.savedID - s.baseID, b);
    BeginConverges(s.node.store, s.base, s.history, s.node.commitID - s.baseID, b);
  }

  lemma CommitInv(s: Sys, t: Sys)
    requires Inv(s) && Next(s, CommitNext, t)
    ensures Inv(t)
  {
    hide Converges;
    var done := s.node.commitID - s.baseID;
    assert NextNeedCommitLog(s.node).value.batch == s.history[done];
    CommitConverges(s.node.store, s.base, s.history, s.node.savedID - s.baseID, done);
    CommitConverges(s.node.store, s.base, s.history, done, done);
  }

  lemma PurgeInv(s: Sys, n: nat, t: Sys)
    requires Inv(s) && Next(s, PurgeLogs(n), t)
    ensures Inv(t)
  {
    hide Converges;
    PurgeLog(s.node.log, s.baseID, s.history, n);
  }

  lemma NextInv(s: Sys, step: Step, t: Sys)
    requires Inv(s) && Next(s, step, t)
    ensures Inv(t)
  {
    hide Converges, LogIsHistory;
    match step
    case Begin(b) => BeginInv(s, b, t);
    case CommitNext => CommitInv(s, t);
    case PurgeLogs(n) => PurgeInv(s, n, t);
    case _ =>
  }

  /** A run: states joined by steps, from an initial state. */
  ghost predicate Run(states: seq<Sys>, steps: seq<Step>) {
    && |states| == |steps| + 1 && Init(states[0])
    && forall i :: 0 <= i < |steps| ==> Next(states[i], steps[i], states[i + 1])
  }

  lemma {:induction false} RunInv(states: seq<Sys>, steps: seq<Step>, n: nat)
    requires Run(states, steps) && n < |states|
    ensures Inv(states[n])
  {
    if n == 0 {
      InitInv(states[0]);
    } else {
      RunInv(states, steps, n - 1);
      NextInv(states[n - 1], steps[n - 1], states[n]);
    }
  }

  /**
   In every run, with any number of crashes at any points, whenever the commit id has reached the
   last log the store holds every logged batch, applied once and in order.
   */
  lemma CaughtUpIsComplete(states: seq<Sys>, steps: seq<Step>, n: nat)
    requires Run(states, steps) && n < |states|
    requires states[n].node.commitID == states[n].baseID + |states[n].history|
    ensures states[n].node.store == Replay(states[n].base, states[n].history)
  {
    RunInv(states, steps, n);
    var s := states[n];
    assert s.history[|s.history|..] == [];
  }

  /**
   Start-up after a crash at any point of any run: if the log still holds the successor of the saved
   commit id, or there is nothing to replay, the replay loop (`Ledis.HandleReplication`, which leaves
   `Replay(store, Behind(...))`) ends with the full history.
   */
  lemma RestartRecovers(states: seq<Sys>, steps: seq<Step>, n: nat)
    requires Run(states, steps) && n < |states|
    ensures var s := states[n];
            var up := s.node.(commitID := s.node.savedID);
            (up.log.LastID() <= up.commitID || up.log.Has(up.commitID + 1)) ==>
              Replay(up.store, Behind(up)) == Replay(s.base, s.history)
  {
    RunInv(states, steps, n);
    var s := states[n];
    var up := s.node.(commitID := s.node.savedID);
    var left := s.history[s.node.savedID - s.baseID..];
    if up.log.LastID() <= up.commitID || up.log.Has(up.commitID + 1) {
      assert Behind(up) == left;
    }
  }

  /** In every run the log, where there is one, reaches the commit id, so that the next write has its next id. */
  lemma LogReachesCommitID(states: seq<Sys>, steps: seq<Step>, n: nat)
    requires Run(states, steps) && n < |states|
    ensures var s := states[n].node;
            && (s.log.logs != [] ==> s.commitID <= s.log.LastID())
            && (s.log.LastID() <= s.commitID ==> s.log.Accepts(s.commitID + 1))
  {
    hide Converges;
    RunInv(states, steps, n);
  }

  // ---------------------------------------------------------------- the running node

  /** Some run ends here. */
  ghost predicate Reachable(s: Sys) {
    exists states: seq<Sys>, steps: seq<Step> :: Run(states, steps) && states[|steps|] == s
  }

  lemma ReachInit(s: Sys)
    requires Init(s)
    ensures Reachable(s)
  {
    assert Run([s], []);
  }

  lemma ReachNext(s: Sys, step: Step, t: Sys)
    requires Reachable(s) && Next(s, step, t)
    ensures Reachable(t)
  {
    hide Next;
    var states: seq<Sys>, steps: seq<Step> :| Run(states, steps) && states[|steps|] == s;
    var more, all := states + [t], steps + [step];
    forall i | 0 <= i < |all| ensures Next(more[i], all[i], more[i + 1]) {
      assert i < |steps| ==> Next(states[i], steps[i], states[i + 1]);
    }
    assert Run(more, all) && more[|all|] == t;
  }

  /** A restart from the saved commit id, which some log or nothing follows, replays to the full history. */
  ghost predicate Recovers(s: Sys) {
    var up := s.node.(commitID := s.node.savedID);
    (up.log.LastID() <= up.commitID || up.log.Has(up.commitID + 1)) ==>
      Replay(up.store, Behind(up)) == Replay(s.base, s.history)
  }

  lemma ReachRecovers(s: Sys)
    requires Reachable(s)
    ensures Recovers(s)
  {
    var states: seq<Sys>, steps: seq<Step> :| Run(states, steps) && states[|steps|] == s;
    hide Run, Replay;
    RestartRecovers(states, steps, |steps|);
  }

  /** An accepted write is the steps log, commit and acknowledge, and with SyncLog 2 a save behind them. */
  lemma WriteReaches(s: Sys, b: WriteBatch, u: State, sync: bool) returns (t: Sys)
    requires Reachable(s) && !s.applied && LogBatch(s.node, b).Ok? && s.node.log.Valid()
    requires u.log == LogBatch(s.node, b).value.1.log && u.store == Apply(s.node.store, b)
    requires u.commitID == s.node.commitID + 1 && u.savedID == if sync then u.commitID else s.node.savedID
    ensures t == s.(node := u, history := s.history + [b]) && Reachable(t)
  {
    var logged := s.(node := LogBatch(s.node, b).value.1, history := s.history + [b]);
    ReachNext(s, Begin(b), logged);
    assert NextNeedCommitLog(logged.node) == Ok(Log(u.commitID, b));
    var committed := logged.(node := logged.node.(store := u.store), applied := true);
    ReachNext(logged, CommitNext, committed);
    t := committed.(node := committed.node.(commitID := u.commitID), applied := false);
    ReachNext(committed, Acknowledge, t);
    if sync {
      var saved := t.(node := t.node.(savedID := t.node.commitID));
      ReachNext(t, SaveCommitID, saved);
      t := saved;
    }
  }

  /** The node after `n` of the logs behind its commit id. */
  ghost function Caught(s: Sys, n: nat, sync: bool): (t: Sys)
    requires n <= |Behind(s.node)|
  {
    var id := s.node.commitID + n;
    s.(node := State(Replay(s.node.store, Behind(s.node)[..n]), s.node.log, id,
                     if sync && n > 0 then id else s.node.savedID))
  }

  /** The replay loop is the steps commit and acknowledge, again and again. */
  lemma {:induction false} ReplayReaches(s: Sys, n: nat, sync: bool)
    requires Reachable(s) && !s.applied && n <= |Behind(s.node)| && s.node.log.Valid()
    ensures Reachable(Caught(s, n, sync))
  {
    hide Reachable;
    if n == 0 {
      assert Caught(s, 0, sync) == s;
    } else {
      ReplayReaches(s, n - 1, sync);
      var a, b := Caught(s, n - 1, sync), Behind(s.node)[n - 1];
      assert NextNeedCommitLog(a.node) == Ok(Log(s.node.commitID + n, b));
      assert Behind(s.node)[..n][..n - 1] == Behind(s.node)[..n - 1];
      var c := a.(node := a.node.(store := Apply(a.node.store, b)), applied := true);
      ReachNext(a, CommitNext, c);
      var t := c.(node := c.node.(commitID := c.node.commitID + 1), applied := false);
      ReachNext(c, Acknowledge, t);
      if sync {
        ReachNext(t, SaveCommitID, t.(node := t.node.(savedID := t.node.commitID)));
      }
    }
  }

  /** A new node. */
  method Start(syncCommitID: bool, readonly: bool) returns (l: Ledis, ghost s: Sys)
    ensures fresh(l) && l.syncCommitID == syncCommitID && l.readonly == readonly
    ensures l.log.Valid() && l.Value() == s.node && Reachable(s) && !s.applied && s.history == []
  {
    l := new Ledis(syncCommitID, readonly);
    s := Sys(l.Value(), false, map[], 0, []);
    ReachInit(s);
  }

  /** Every call of handleCommit is such steps, or none, so a crash behind it loses nothing that was logged. */
  method Write(l: Ledis, b: WriteBatch, ghost s: Sys) returns (r: Result<nat>, ghost t: Sys)
    requires l.log.Valid() && l.Value() == s.node && Reachable(s) && !s.applied
    modifies l
    ensures l.Value() == t.node && Reachable(t) && !t.applied && Recovers(t)
    ensures t == s.(node := t.node, history := if r.Ok? then s.history + [b] else s.history)
  {
    hide Reachable, Recovers, Apply;
    r := l.HandleCommit(b);
    t := s;
    if r.Ok? {
      t := WriteReaches(s, b, l.Value(), l.syncCommitID);
    }
    ReachRecovers(t);
  }

  /** Every call of handleReplication is such steps. */
  method Replicate(l: Ledis, ghost s: Sys) returns (r: Result<()>, ghost t: Sys)
    requires l.log.Valid() && l.Value() == s.node && Reachable(s) && !s.applied
    modifies l
    ensures l.Value() == t.node && Reachable(t) && !t.applied && Recovers(t) && t == s.(node := t.node)
  {
    hide Reachable, Recovers, Replay;
    ghost var todo := Behind(s.node);
    r := l.HandleReplication();
    t := Caught(s, |todo|, l.syncCommitID);
    assert todo[..|todo|] == todo;
    ReplayReaches(s, |todo|, l.syncCommitID);
    ReachRecovers(t);
  }

  /** Start-up after a crash: the commit id comes back from disk, and the replay loop ends with the full history. */
  method Restart(l: Ledis, ghost s: Sys) returns (r: Result<()>)
    requires l.log.Valid() && l.Value() == s.node && Reachable(s)
    modifies l
    ensures r.Ok? <==> s.node.log.LastID() <= s.node.savedID || s.node.log.Has(s.node.savedID + 1)
    ensures r.Ok? ==> l.store == Replay(s.base, s.history) && l.log == s.node.log
  {
    hide Reachable, Replay;
    ReachRecovers(s);
    l.commitID := l.savedID;
    assert l.Value() == s.node.(commitID := s.node.savedID);
    r := l.HandleReplication();
  }
}
