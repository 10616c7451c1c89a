/**
 A running master and a running slave (`Node.Ledis`) next to the steps of `Replication`: every call of
 their methods is some of the steps, so that what holds in every run of the steps holds of the two.
 */
module Cluster {
  import opened Bytes
  import opened Batches
  import opened LogStores
  import opened Node
  import opened Replication
  import D = Dump

  /** Some run ends here. */
  ghost predicate Reachable(s: Sys) {
    exists states: seq<Sys>, steps: seq<Step> :: Run(states, steps) && states[|steps|] == s
  }

  lemma ReachInit(s: Sys)
    requires Init(s)
    ensures Reachable(s)
  {
    assert Run([s], []);
  }

  lemma ReachNext(s: Sys, step: Step, t: Sys)
    requires Reachable(s) && Next(s, step, t)
    ensures Reachable(t)
  {
    hide Next;
    var states: seq<Sys>, steps: seq<Step> :| Run(states, steps) && states[|steps|] == s;
    var more, all := states + [t], steps + [step];
    forall i | 0 <= i < |all| ensures Next(more[i], all[i], more[i + 1]) {
      assert i < |steps| ==> Next(states[i], steps[i], states[i + 1]);
    }
    assert Run(more, all) && more[|all|] == t;
  }

  lemma ReachInv(s: Sys)
    requires Reachable(s)
    ensures Inv(s)
  {
    var states: seq<Sys>, steps: seq<Step> :| Run(states, steps) && states[|steps|] == s;
    hide Inv, Run;
    RunInv(states, steps, |steps|);
  }

  lemma ReachLogs(s: Sys)
    requires Reachable(s)
    ensures s.master.log.Valid() && s.slave.log.Valid()
    ensures s.master.log.LastID() == |s.history| && (!s.pending ==> s.master.commitID == |s.history|)
  {
    ReachInv(s);
  }

  /** The slave has the store that the master had right after the log with the slave's commit id. */
  ghost predicate IsPast(s: Sys) {
    s.slave.commitID <= |s.history| && s.slave.store == Replay(map[], s.history[..s.slave.commitID])
  }

  lemma ReachPast(s: Sys)
    requires Reachable(s) && s.owed <= s.slave.commitID
    ensures IsPast(s)
  {
    var states: seq<Sys>, steps: seq<Step> :| Run(states, steps) && states[|steps|] == s;
    hide Run, Replay;
    SlaveIsPastMaster(states, steps, |steps|);
  }

  /** The two nodes are in a state of some run, and no write is half done. */
  ghost predicate Runs(m: Ledis, l: Ledis, s: Sys)
    reads m, l
  {
    m != l && m.Value() == s.master && l.Value() == s.slave && Reachable(s) && !s.pending
  }

  /** Two new nodes. */
  method Start(syncCommitID: bool) returns (m: Ledis, l: Ledis, ghost s: Sys)
    ensures fresh(m) && fresh(l) && !m.readonly && l.readonly && Runs(m, l, s) && s.history == [] && s.received == []
  {
    m := new Ledis(syncCommitID, false);
    l := new Ledis(syncCommitID, true);
    s := Sys(m.Value(), false, false, {}, l.Value(), [], 0, []);
    ReachInit(s);
  }

  // ---------------------------------------------------------------- the master

  lemma WriteReaches(s: Sys, b: WriteBatch, u: State, sync: bool) returns (t: Sys)
    requires Reachable(s) && !s.pending && s.master.log.Valid() && s.master.log.LastID() == s.master.commitID
    requires u.log == s.master.log.Append(s.master.commitID + 1, b) && u.store == Apply(s.master.store, b)
    requires u.commitID == s.master.commitID + 1 && u.savedID == if sync then u.commitID else s.master.savedID
    ensures t == s.(master := u, history := s.history + [b]) && Reachable(t)
  {
    hide Reachable, Apply;
    var logged := s.(master := s.master.(log := u.log), pending := true, history := s.history + [b]);
    ReachNext(s, MasterLog(b), logged);
    var committed := logged.(master := logged.master.(store := u.store), applied := true);
    assert logged.history[|logged.history| - 1] == b;
    assert !s.applied by { ReachIdle(s); }
    ReachNext(logged, MasterCommit, committed);
    t := committed.(master := committed.master.(commitID := u.commitID), pending := false, applied := false);
    ReachNext(committed, MasterAcknowledge, t);
    if sync {
      var saved := t.(master := t.master.(savedID := t.master.commitID));
      ReachNext(t, MasterSave, saved);
      t := saved;
    }
  }

  lemma ReachIdle(s: Sys)
    requires Reachable(s) && !s.pending
    ensures !s.applied
  {
    ReachInv(s);
  }

  /** A master takes every write, and with it stays in a state of some run. */
  method Write(m: Ledis, l: Ledis, b: WriteBatch, ghost s: Sys) returns (r: Result<nat>, ghost t: Sys)
    requires Runs(m, l, s)
    modifies m
    ensures Runs(m, l, t) && (r.Ok? <==> !m.readonly)
    ensures t == s.(master := t.master, history := if r.Ok? then s.history + [b] else s.history)
  {
    hide Reachable, Apply;
    ReachLogs(s);
    r := m.HandleCommit(b);
    t := s;
    if r.Ok? {
      t := WriteReaches(s, b, m.Value(), m.syncCommitID);
    }
  }

  // ---------------------------------------------------------------- the slave

  /** The slave after `n` of the logs behind its commit id. */
  ghost function Caught(s: Sys, n: nat, sync: bool): (t: Sys)
    requires n <= |Behind(s.slave)|
  {
    var id := s.slave.commitID + n;
    s.(slave := State(Replay(s.slave.store, Behind(s.slave)[..n]), s.slave.log, id,
                      if sync && n > 0 then id else s.slave.savedID))
  }

  lemma {:induction false} ReplayReaches(s: Sys, n: nat, sync: bool)
    requires Reachable(s) && n <= |Behind(s.slave)| && s.slave.log.Valid()
    ensures Reachable(Caught(s, n, sync))
  {
    hide Reachable;
    if n == 0 {
      assert Caught(s, 0, sync) == s;
    } else {
      ReplayReaches(s, n - 1, sync);
      var a, b := Caught(s, n - 1, sync), Behind(s.slave)[n - 1];
      assert NextNeedCommitLog(a.slave) == Ok(Log(s.slave.commitID + n, b));
      assert Behind(s.slave)[..n][..n - 1] == Behind(s.slave)[..n - 1];
      var t := a.(slave := a.slave.(store := Apply(a.slave.store, b), commitID := s.slave.commitID + n));
      ReachNext(a, SlaveReplay, t);
      if sync {
        ReachNext(t, SlaveSave, t.(slave := t.slave.(savedID := t.slave.commitID)));
      }
    }
  }

  /** The slave replays what it has stored; a store that owes nothing is then a past store of the master. */
  method Follow(m: Ledis, l: Ledis, ghost s: Sys) returns (r: Result<()>, ghost t: Sys)
    requires Runs(m, l, s)
    modifies l
    ensures Runs(m, l, t) && t == s.(slave := t.slave) && t.slave.log == s.slave.log
    ensures r.Ok? <==> s.slave.log.LastID() <= s.slave.commitID || s.slave.log.Has(s.slave.commitID + 1)
    ensures r.Ok? <==> t.slave.log.LastID() <= t.slave.commitID
    ensures t.owed <= t.slave.commitID ==> IsPast(t)
  {
    hide Reachable, IsPast, Replay;
    ReachLogs(s);
    ghost var todo := Behind(s.slave);
    r := l.HandleReplication();
    t := Caught(s, |todo|, l.syncCommitID);
    assert todo[..|todo|] == todo;
    ReplayReaches(s, |todo|, l.syncCommitID);
    if t.owed <= t.slave.commitID { ReachPast(t); }
  }

  /** The slave comes up again after a crash, with the commit id that is on disk. */
  method Restart(m: Ledis, l: Ledis, ghost s: Sys) returns (r: Result<()>, ghost t: Sys)
    requires Runs(m, l, s)
    modifies l
    ensures Runs(m, l, t) && t.history == s.history && t.master == s.master && t.slave.log == s.slave.log
    ensures r.Ok? <==> s.slave.log.LastID() <= s.slave.savedID || s.slave.log.Has(s.slave.savedID + 1)
    ensures r.Ok? && s.slave.log.logs != [] && s.owed <= s.slave.commitID ==> IsPast(t)
  {
    hide Reachable, IsPast, Replay;
    ReachLogs(s);
    ReachAhead(s);
    ghost var down := s.(slave := s.slave.(commitID := s.slave.savedID), received := [],
                         owed := if s.owed < s.slave.commitID then s.slave.commitID else s.owed);
    ReachNext(s, SlaveCrash, down);
    l.commitID := l.savedID;
    r, t := Follow(m, l, down);
  }

  lemma ReachAhead(s: Sys)
    requires Reachable(s)
    ensures s.slave.log.logs != [] ==> s.slave.commitID <= s.slave.log.LastID()
    ensures s.slave.savedID <= s.slave.commitID
  {
    ReachInv(s);
  }

  // ---------------------------------------------------------------- full syncs

  lemma SyncReaches(s: Sys, sync: bool) returns (t: Sys)
    requires Reachable(s) && !s.pending && s.received == []
    ensures Reachable(t)
    ensures var id := s.master.commitID;
            t == s.(slave := State(s.master.store, LogStore(0, []), id, if sync then id else 0), owed := 0,
                    dumps := s.dumps + {Dump(id, s.master.store)})
  {
    hide Reachable;
    var d := Dump(s.master.commitID, s.master.store);
    var taken := s.(dumps := s.dumps + {d});
    ReachNext(s, TakeDump, taken);
    t := taken.(slave := LoadDump(d), owed := 0);
    ReachNext(taken, FullSync(d), t);
    if sync {
      var saved := t.(slave := t.slave.(savedID := t.slave.commitID));
      ReachNext(t, SlaveSave, saved);
      t := saved;
    }
  }

  /** A dump that arrives whole makes the slave equal to the master. */
  method Sync(m: Ledis, l: Ledis, pack: bytes -> bytes, unpack: bytes -> Option<bytes>, ghost s: Sys)
    returns (r: Option<nat>, ghost t: Sys)
    requires Runs(m, l, s) && s.received == []
    requires D.Inverse(pack, unpack) && D.Fits(m.store, pack) && m.commitID < TWO_64
    modifies l
    ensures Runs(m, l, t) && r == Some(t.slave.commitID) && t.owed == 0
    ensures t.master == s.master && t.history == s.history
    ensures t.slave.store == t.master.store && t.slave.commitID == t.master.commitID
  {
    hide Reachable, D.Inverse, D.Fits;
    r := D.Transfer(m, l, pack, unpack);
    t := SyncReaches(s, l.syncCommitID);
  }

  /** A dump that is cut inside an entry leaves the slave in a state of some run, owing the dump's commit id. */
  method BrokenSync(m: Ledis, l: Ledis, pack: bytes -> bytes, unpack: bytes -> Option<bytes>, n: nat, ghost s: Sys)
    returns (r: Option<nat>, ghost t: Sys)
    requires Runs(m, l, s) && s.received == []
    requires D.Inverse(pack, unpack) && D.Fits(m.store, pack) && m.commitID < TWO_64
    requires n <= |D.Stream(D.Listing(m.store), pack)|
    modifies l
    ensures r == None ==> Runs(m, l, t) && t.slave.commitID == 0 && t.owed == t.master.commitID
    ensures t.master == s.master && t.history == s.history
  {
    hide Reachable, D.Inverse, D.Fits, IsPart, D.Stream, D.Listing, D.HoldsEntries, D.Puts, Apply;
    ghost var j;
    r, j := D.TransferCut(m, l, pack, unpack, n);
    ghost var d := Dump(s.master.commitID, s.master.store);
    ghost var taken := s.(dumps := s.dumps + {d});
    ReachNext(s, TakeDump, taken);
    t := taken;
    if r == None {
      t := taken.(slave := State(l.store, LogStore(0, []), 0, 0), owed := d.commitID);
      ReachNext(taken, FailedSync(d, l.store), t);
    }
  }
}
