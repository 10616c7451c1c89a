/**
 Every run of the writing commands on sorted sets: what the operations of `ZSetOps` may do in one
 step, when a step keeps the indexes and the sizes in agreement, and what it does to the sets.
 */
module ZRuns {
  import opened Bytes
  import opened Keys
  import opened Batches
  import opened Ranges
  import opened Database
  import opened ZSets
  import opened ZQueries
  import opened ZWrites
  import opened ZStores
  import opened ZSetOps

  datatype Command =
    | AddCmd(key: bytes, args: seq<Pair>)
    | RemCmd(key: bytes, ms: seq<bytes>)
    | IncrByCmd(key: bytes, delta: int, m: bytes)
    | RemByScoreCmd(key: bytes, min: int, max: int)
    | RemByRankCmd(key: bytes, start: int, stop: int)
    | ClearCmd(key: bytes)
    | StoreCmd(key: bytes, union: bool, srcs: seq<bytes>, weights: Option<seq<int>>, code: byte)

  /** Arguments are machine integers. */
  predicate Typed(c: Command) {
    match c
    case IncrByCmd(_, delta, _) => IsInt64(delta)
    case RemByScoreCmd(_, min, max) => IsInt64(min) && IsInt64(max)
    case RemByRankCmd(_, start, stop) => IsInt64(start) && IsInt64(stop)
    case _ => true
  }

  ghost predicate RunInv(s: Store, d: nat) {
    d <= MAX_DATABASES && ZInv(s, d) && NamesBound(s, d)
  }

  /** The pairs that a range command takes away. */
  ghost function Gone(s: Store, d: nat, c: Command): (v: seq<Pair>)
    requires ValidStore(s) && |c.key| <= MAX_KEY_SIZE && Typed(c)
    requires c.RemByScoreCmd? || c.RemByRankCmd? || c.ClearCmd?
  {
    match c
    case RemByScoreCmd(key, min, max) => FilterPairs(SortedPairs(s, d, key), min, max)
    case RemByRankCmd(key, start, stop) => RankSlice(SortedPairs(s, d, key), start, stop)
    case ClearCmd(key) => SortedPairs(s, d, key)
  }

  /** A call that ends without a commit, other than on a read-only node. */
  ghost predicate Refused(s: Store, d: nat, c: Command) {
    match c
    case AddCmd(key, args) => args == [] || AddError(key, args).Some?
    case RemCmd(key, ms) => ms == [] || RemError(key, ms).Some?
    case IncrByCmd(key, delta, m) => NameError(key, m).Some? || !ValidScore(NewScore(s, d, key, delta, m))
    case RemByRankCmd(key, start, stop) => |key| > MAX_KEY_SIZE || (key == [] && (start < 0 || stop < 0))
    case StoreCmd(_, _, srcs, weights, code) =>
      StoreError(srcs, weights, code).Some? || exists i :: 0 <= i < |srcs| && !KeySizeOK(srcs[i])
    case _ => |c.key| > MAX_KEY_SIZE
  }

  /** A storing call that goes through: the aggregate, written in some order. */
  ghost predicate StoresResult(s: Store, u: Store, d: nat, c: Command, view: map<bytes, int>, order: seq<Pair>)
    requires RunInv(s, d) && c.StoreCmd? && StoreError(c.srcs, c.weights, c.code).None?
  {
    && IsResult(c.union, view, s, d, c.srcs, Weights(c.srcs, c.weights), AggregateOf(c.code).value)
    && Lists(order, view) && (view == map[] || KeySizeOK(c.key)) && (forall m :: m in view ==> ValidScore(view[m]))
    && u == Stored(s, d, c.key, order)
  }

  /** A storing call whose result cannot be written: under a bad name, or with a score out of bounds. */
  ghost predicate Unstorable(s: Store, d: nat, c: Command) {
    && c.StoreCmd? && !Refused(s, d, c)
    && exists view :: IsResult(c.union, view, s, d, c.srcs, Weights(c.srcs, c.weights), AggregateOf(c.code).value) &&
                      !((view == map[] || KeySizeOK(c.key)) && forall m :: m in view ==> ValidScore(view[m]))
  }

  /** There is one result to store. */
  lemma OneResult(union: bool, a: map<bytes, int>, b: map<bytes, int>, s: Store, d: nat, srcs: seq<bytes>,
        ws: seq<int>, g: Aggregate)
    requires |srcs| == |ws| && srcs != []
    requires IsResult(union, a, s, d, srcs, ws, g) && IsResult(union, b, s, d, srcs, ws, g)
    ensures a == b
  {
    hide Contributions, Views, Total;
    forall m ensures (m in a <==> m in b) && (m in a ==> a[m] == b[m]) {
    }
  }

  /** A commit: what the operations promise when they succeed. */
  ghost predicate Commits(s: Store, u: Store, d: nat, c: Command)
    requires RunInv(s, d) && Typed(c) && !Refused(s, d, c)
  {
    match c
    case AddCmd(key, args) => u == Added(s, d, key, args)
    case RemCmd(key, ms) => u == Removed(s, d, key, ms)
    case IncrByCmd(key, delta, m) => u == Incremented(s, d, key, delta, m)
    case StoreCmd(_, _, _, _, _) => exists view, order :: StoresResult(s, u, d, c, view, order)
    case _ => u == Removed(s, d, c.key, MembersOf(Gone(s, d, c)))
  }

  /** One call: it commits, or it changes nothing. */
  ghost predicate Next(s: Store, u: Store, d: nat, c: Command)
    requires RunInv(s, d) && Typed(c)
  {
    u == s || (!Refused(s, d, c) && Commits(s, u, d, c))
  }

  /** What a caller has to respect. */
  ghost predicate Safe(s: Store, d: nat, c: Command) {
    match c
    case AddCmd(key, args) => NewOnce(s, d, key, args) && ScoresAgree(s, d, key, args)
    case RemCmd(key, ms) => StoredOnce(s, d, key, ms) || NamesAll(s, d, key, ms)
    case IncrByCmd(key, delta, m) => MemberKey(d, key, m) !in s || delta != 0
    case _ => true
  }

  // ---------------------------------------------------------------- what is refused

  /** Names are 1 to 1024 bytes long. */
  predicate Fits(key: bytes, m: bytes) {
    1 <= |key| <= 1024 && 1 <= |m| <= 1024
  }

  /** The three outermost of the 64-bit integers are no scores. */
  predicate ScoreFits(sc: int) {
    -9223372036854775806 <= sc <= 9223372036854775806
  }

  /** Which calls are refused, in numbers; the storing ones are in `StoreRefusedIff`. */
  lemma RefusedIff(s: Store, d: nat, c: Command)
    requires RunInv(s, d) && !c.StoreCmd?
    ensures Refused(s, d, c) <==>
            match c
            case AddCmd(key, args) =>
              args == [] || exists i :: 0 <= i < |args| && !(Fits(key, args[i].member) && ScoreFits(args[i].score))
            case RemCmd(key, ms) => ms == [] || exists i :: 0 <= i < |ms| && !Fits(key, ms[i])
            case IncrByCmd(key, delta, m) =>
              var v := View(s, d, key);
              !Fits(key, m) || !ScoreFits(Wrap64((if m in v then v[m] else 0) + delta))
            case RemByRankCmd(key, start, stop) => |key| > 1024 || (key == [] && (start < 0 || stop < 0))
            case _ => |c.key| > 1024
  {
    hide NamesBound, ZOK;
    if c.AddCmd? {
      assert forall i :: 0 <= i < |c.args| ==>
          (PairError(c.key, c.args[i]).None? <==> Fits(c.key, c.args[i].member) && ScoreFits(c.args[i].score));
    } else if c.RemCmd? {
      assert forall i :: 0 <= i < |c.ms| ==> (NameError(c.key, c.ms[i]).None? <==> Fits(c.key, c.ms[i]));
    }
  }

  /** The first argument that does not fit decides the error. */
  lemma RefusedWith(key: bytes, args: seq<Pair>, i: nat)
    requires i < |args| && !(Fits(key, args[i].member) && ScoreFits(args[i].score))
    requires forall j :: 0 <= j < i ==> Fits(key, args[j].member) && ScoreFits(args[j].score)
    ensures AddError(key, args) == Some(
              if |key| == 0 || |key| > 1024 then ErrKeySize
              else if 1 <= |args[i].member| <= 1024 then ErrScoreOverflow else ErrMemberSize)
  {
    assert forall j :: 0 <= j < i ==> args[..i][j] == args[j];
    AddErrorPrefix(key, args, i);
  }

  // ---------------------------------------------------------------- range commands

  lemma GoneIsDoomed(s: Store, d: nat, c: Command)
    requires RunInv(s, d) && Typed(c) && |c.key| <= MAX_KEY_SIZE && Countable(s, d)
    requires c.RemByScoreCmd? || c.RemByRankCmd? || c.ClearCmd?
    requires c.RemByRankCmd? ==> ParseLimit(s, d, c.key, c.start, c.stop).Done?
    ensures Gone(s, d, c) ==
            match c
            case RemByScoreCmd(key, min, max) => Doomed(s, d, key, min, max, 0, -1)
            case RemByRankCmd(key, start, stop) =>
              var w := ParseLimit(s, d, key, start, stop).value; Doomed(s, d, key, MIN_SCORE, MAX_SCORE, w.0, w.1)
            case ClearCmd(key) => Doomed(s, d, key, MIN_SCORE, MAX_SCORE, 0, -1)
  {
    hide SortedPairs, FilterPairs, RankSlice, NamesBound, ZOK, ValidStore;
    match c
    case RemByScoreCmd(key, min, max) =>
    case RemByRankCmd(key, start, stop) => DoomedRanks(s, d, key, start, stop);
    case ClearCmd(key) =>
      RangeIsFilter(s, d, key, MIN_SCORE, MAX_SCORE, false) by { assert ZOK(s, d, key); }
      SortedPairsIsRange(s, d, key);
  }

  lemma GoneKeeps(s: Store, d: nat, c: Command)
    requires RunInv(s, d) && Typed(c) && !Refused(s, d, c) && Countable(s, d)
    requires c.RemByScoreCmd? || c.RemByRankCmd? || c.ClearCmd?
    ensures ZInv(Removed(s, d, c.key, MembersOf(Gone(s, d, c))), d)
  {
    hide Removed, Gone, NamesBound, ZInv, SortedPairs, FilterPairs, RankSlice;
    GoneIsDoomed(s, d, c);
    match c
    case RemByScoreCmd(key, min, max) => RemRangeKeeps(s, d, key, min, max, 0, -1);
    case RemByRankCmd(key, start, stop) =>
      var w := ParseLimit(s, d, key, start, stop).value;
      RemRangeKeeps(s, d, key, MIN_SCORE, MAX_SCORE, w.0, w.1);
    case ClearCmd(key) => RemRangeKeeps(s, d, key, MIN_SCORE, MAX_SCORE, 0, -1);
  }

  // ---------------------------------------------------------------- names

  lemma RemovedNames(s: Store, d: nat, key: bytes, ms: seq<bytes>)
    requires ValidStore(s) && NamesBound(s, d)
    ensures NamesBound(Removed(s, d, key, ms), d)
  {
    hide Removed, NameError, ValidStore;
    var u := Removed(s, d, key, ms);
    forall k: bytes, m: bytes | MemberKey(d, k, m) in u ensures NameError(k, m).None? {
      assert Lookup(u, MemberKey(d, k, m)).Some?;
      if k == key {
        RemView(s, d, key, ms, m);
      } else {
        RemFrame(s, d, key, ms, MemberKey(d, k, m));
      }
    }
  }

  lemma AddedNames(s: Store, d: nat, key: bytes, args: seq<Pair>)
    requires ZInv(s, d) && NamesBound(s, d) && args != [] && AddError(key, args).None?
    ensures NamesBound(Added(s, d, key, args), d)
  {
    hide Added, NameError, ValidStore, IndexOK, ScoresOK, LastScore;
    assert ZOK(s, d, key);
    var u := Added(s, d, key, args);
    forall k: bytes, m: bytes | MemberKey(d, k, m) in u ensures NameError(k, m).None? {
      assert Lookup(u, MemberKey(d, k, m)).Some?;
      if k == key {
        AddView(s, d, key, args, m);
        if LastScore(args, m).Some? {
          LastScoreOccurs(args, m);
          var i :| 0 <= i < |args| && args[i] == Pair(LastScore(args, m).value, m);
          assert PairError(key, args[i]).None?;
        }
      } else {
        AddFrame(s, d, key, args, MemberKey(d, k, m));
      }
    }
  }

  lemma IncrementedNames(s: Store, d: nat, key: bytes, delta: int, m: bytes)
    requires ZInv(s, d) && NamesBound(s, d) && NameError(key, m).None?
    ensures NamesBound(Incremented(s, d, key, delta, m), d)
  {
    hide Incremented, NameError, ValidStore, IndexOK, ScoresOK;
    assert ZOK(s, d, key);
    var u := Incremented(s, d, key, delta, m);
    forall k: bytes, x: bytes | MemberKey(d, k, x) in u ensures NameError(k, x).None? {
      assert Lookup(u, MemberKey(d, k, x)).Some?;
      if MemberKey(d, key, m) in s {
        IncrementedOld(s, d, key, delta, m, MemberKey(d, k, x));
      } else {
        IncrementedNew(s, d, key, delta, m, MemberKey(d, k, x));
      }
    }
  }

  lemma StoredNames(s: Store, d: nat, c: Command, u: Store, view: map<bytes, int>, order: seq<Pair>)
    requires RunInv(s, d) && c.StoreCmd? && StoreError(c.srcs, c.weights, c.code).None?
    requires StoresResult(s, u, d, c, view, order) && |c.key| <= MAX_KEY_SIZE
    ensures NamesBound(u, d)
  {
    hide Stored, ValidStore, IsResult, SortedPairs, Removed, StoreError, Weights;
    forall k: bytes, m: bytes | MemberKey(d, k, m) in u ensures NameError(k, m).None? {
      assert Lookup(u, MemberKey(d, k, m)).Some?;
      StoredAt(s, d, c.key, order, MemberKey(d, k, m));
      if k == c.key {
        DistinctLast(order, view, m);
        ResultIsNamed(c.union, view, s, d, c.srcs, Weights(c.srcs, c.weights), AggregateOf(c.code).value, m);
      }
    }
  }

  /** Storing nothing under a name that is too long leaves one record behind, a size of zero. */
  lemma StoredNothing(s: Store, d: nat, dest: bytes)
    requires RunInv(s, d) && |dest| > MAX_KEY_SIZE
    ensures var u := Stored(s, d, dest, []);
            && RunInv(u, d) && Lookup(u, CountKey(d, dest)) == Some(IntVal(0))
            && (forall k: Key :: k != CountKey(d, dest) ==> Lookup(u, k) == Lookup(s, k))
            && (forall key: bytes :: View(u, d, key) == View(s, d, key))
  {
    hide SortedPairs, NameError;
    var u := Stored(s, d, dest, []);
    var size: Op<Key, Val> := Put(CountKey(d, dest), IntVal(0));
    assert StoreOps(s, d, dest, []) == [size];
    ApplyFew(s, size, size, size);
    assert u == s[CountKey(d, dest) := IntVal(0)];
    forall key: bytes
      ensures Members(u, d, ZSetColl, key) == Members(s, d, ZSetColl, key) && View(u, d, key) == View(s, d, key)
    {
    }
    forall key: bytes ensures ZOK(u, d, key) {
      assert ZOK(s, d, key);
      if key == dest {
        assert Members(s, d, ZSetColl, dest) == {} by {
          forall m ensures m !in Members(s, d, ZSetColl, dest) {
            LongNameError(dest, m);
            assert MemberKey(d, dest, m) in s ==> NameError(dest, m).None?;
          }
        }
        assert IndexOK(s, d, dest) && ScoresOK(s, d, dest);
        assert IndexOK(u, d, dest);
      } else {
        FrameZOK(s, u, d, key);
      }
    }
  }

  lemma LongNameError(key: bytes, m: bytes)
    requires |key| > MAX_KEY_SIZE
    ensures NameError(key, m).Some?
  {
  }

  // ---------------------------------------------------------------- steps and runs

  lemma StoreKeeps(s: Store, u: Store, d: nat, c: Command)
    requires RunInv(s, d) && Typed(c) && c.StoreCmd? && !Refused(s, d, c) && Commits(s, u, d, c)
    ensures RunInv(u, d)
  {
    hide ZInv, NamesBound, Stored, IsResult, Lists, Weights, StoreError;
    var view, order :| StoresResult(s, u, d, c, view, order);
    if |c.key| <= MAX_KEY_SIZE {
      StoredExact(s, d, c.key, order, view);
      StoredNames(s, d, c, u, view, order);
    } else {
      NothingListed(order);
      StoredNothing(s, d, c.key);
    }
  }

  lemma NothingListed(order: seq<Pair>)
    ensures Lists(order, map[]) ==> order == []
  {
    if order != [] { assert order[0] in order; }
  }

  lemma RemCmdKeeps(s: Store, d: nat, c: Command)
    requires RunInv(s, d) && Typed(c) && !Refused(s, d, c) && Countable(s, d)
    requires c.RemByScoreCmd? || c.RemByRankCmd? || c.ClearCmd?
    ensures RunInv(Removed(s, d, c.key, MembersOf(Gone(s, d, c))), d)
  {
    hide ZOK, NamesBound, Removed, Gone;
    GoneKeeps(s, d, c);
    RemovedNames(s, d, c.key, MembersOf(Gone(s, d, c)));
  }

  /** A call that commits keeps every sorted set in agreement exactly if it is safe. */
  lemma StepKeepsIff(s: Store, u: Store, d: nat, c: Command)
    requires RunInv(s, d) && Typed(c) && Countable(s, d) && !Refused(s, d, c) && Commits(s, u, d, c)
    ensures RunInv(u, d) <==> Safe(s, d, c)
  {
    hide ZOK, NamesBound, Added, Removed, Incremented, Gone, NewOnce, ScoresAgree, StoredOnce, NamesAll, ValidStore;
    match c
    case AddCmd(key, args) =>
      AddedNames(s, d, key, args);
      FirstArg(key, args);
      ZAddKeepsIff(s, d, key, args);
    case RemCmd(key, ms) =>
      RemovedNames(s, d, key, ms);
      ZRemKeepsIff(s, d, key, ms);
    case IncrByCmd(key, delta, m) =>
      IncrementedNames(s, d, key, delta, m);
      ZIncrByKeepsIff(s, d, key, delta, m);
    case StoreCmd(_, _, _, _, _) => StoreKeeps(s, u, d, c);
    case _ => RemCmdKeeps(s, d, c);
  }

  lemma FirstArg(key: bytes, args: seq<Pair>)
    requires args != [] && AddError(key, args).None?
    ensures KeySizeOK(key) && forall i :: 0 <= i < |args| ==> ValidScore(args[i].score)
  {
    assert PairError(key, args[0]).None?;
    forall i | 0 <= i < |args| ensures ValidScore(args[i].score) {
      assert PairError(key, args[i]).None?;
    }
  }

  /** A run of calls, each on the store the last one left. */
  ghost predicate IsRun(d: nat, states: seq<Store>, cmds: seq<Command>) {
    && |states| == |cmds| + 1
    && forall i :: 0 <= i < |cmds| ==>
         Typed(cmds[i]) && (RunInv(states[i], d) ==> Next(states[i], states[i + 1], d, cmds[i]))
  }

  /** No run of safe calls ever breaks the invariant, however many of them are refused on the way. */
  lemma {:induction false} RunKeeps(d: nat, states: seq<Store>, cmds: seq<Command>, n: nat)
    requires IsRun(d, states, cmds) && n <= |cmds| && RunInv(states[0], d)
    requires forall i :: 0 <= i < |cmds| ==> Safe(states[i], d, cmds[i]) && Countable(states[i], d)
    ensures RunInv(states[n], d)
  {
    hide RunInv, Next, Safe, Typed, Countable;
    if n > 0 {
      RunKeeps(d, states, cmds, n - 1);
      assert Safe(states[n - 1], d, cmds[n - 1]);
      NextKeeps(states[n - 1], states[n], d, cmds[n - 1]);
    }
  }

  lemma NextKeeps(s: Store, u: Store, d: nat, c: Command)
    requires RunInv(s, d) && Typed(c) && Countable(s, d) && Next(s, u, d, c) && Safe(s, d, c)
    ensures RunInv(u, d)
  {
    hide RunInv, Safe, Refused, Commits;
    if u != s { StepKeepsIff(s, u, d, c); }
  }

  /** Distinct members and non-zero increments are safe in every state. */
  lemma DistinctIsSafe(s: Store, d: nat, c: Command)
    requires c.AddCmd? ==> forall i, j :: 0 <= i < j < |c.args| ==> c.args[i].member != c.args[j].member
    requires c.RemCmd? ==> forall i, j :: 0 <= i < j < |c.ms| ==> c.ms[i] != c.ms[j]
    requires c.IncrByCmd? ==> c.delta != 0
    ensures Safe(s, d, c)
  {
    if c.AddCmd? { DistinctMembersAreSafe(s, d, c.key, c.args); }
  }

  // ---------------------------------------------------------------- what a call does to the sets

  /** The effect on the set the command names, member by member. */
  ghost predicate Does(s: Store, u: Store, d: nat, c: Command)
    requires RunInv(s, d) && Typed(c) && !Refused(s, d, c)
  {
    var a, b := View(s, d, c.key), View(u, d, c.key);
    match c
    case AddCmd(_, args) =>
      forall m :: Lookup(b, m) == if LastScore(args, m).Some? then LastScore(args, m) else Lookup(a, m)
    case RemCmd(_, ms) => forall m :: Lookup(b, m) == if m in ms then None else Lookup(a, m)
    case IncrByCmd(_, delta, x) =>
      forall m :: Lookup(b, m) == if m == x then Some(Wrap64((if x in a then a[x] else 0) + delta)) else Lookup(a, m)
    case StoreCmd(_, union, srcs, ws, code) =>
      IsResult(union, b, s, d, srcs, Weights(srcs, ws), AggregateOf(code).value)
    case _ => forall m :: Lookup(b, m) == if m in MembersOf(Gone(s, d, c)) then None else Lookup(a, m)
  }

  lemma ViewAt(s: Store, d: nat, key: bytes, m: bytes)
    requires ValidStore(s)
    ensures Lookup(View(s, d, key), m) ==
            match Lookup(s, MemberKey(d, key, m)) case Some(v) => Some(v.i) case None => None
  {
    if MemberKey(d, key, m) in s { assert ValidRecord(MemberKey(d, key, m), s[MemberKey(d, key, m)]); }
  }

  lemma RemovedView(s: Store, d: nat, key: bytes, ms: seq<bytes>, m: bytes)
    requires ValidStore(s) && d <= MAX_DATABASES
    ensures Lookup(View(Removed(s, d, key, ms), d, key), m) == if m in ms then None else Lookup(View(s, d, key), m)
  {
    hide Removed, View, ValidStore;
    RemovedValid(s, d, key, ms);
    RemView(s, d, key, ms, m);
    ViewAt(s, d, key, m);
    ViewAt(Removed(s, d, key, ms), d, key, m);
  }

  lemma AddedView(s: Store, d: nat, key: bytes, args: seq<Pair>, m: bytes)
    requires ZInv(s, d) && d <= MAX_DATABASES && args != [] && AddError(key, args).None?
    ensures Lookup(View(Added(s, d, key, args), d, key), m) ==
            if LastScore(args, m).Some? then LastScore(args, m) else Lookup(View(s, d, key), m)
  {
    hide Added, View, ValidStore, LastScore, IndexOK, ScoresOK, SizeOK, AddError;
    assert ZOK(s, d, key);
    FirstArg(key, args);
    AddedValid(s, d, key, args);
    AddView(s, d, key, args, m);
    ViewAt(s, d, key, m);
    ViewAt(Added(s, d, key, args), d, key, m);
  }

  lemma IncrementedView(s: Store, d: nat, key: bytes, delta: int, x: bytes, m: bytes)
    requires ZInv(s, d)
    ensures Lookup(View(Incremented(s, d, key, delta, x), d, key), m) ==
            var a := View(s, d, key);
            if m == x then Some(Wrap64((if x in a then a[x] else 0) + delta)) else Lookup(a, m)
  {
    hide Incremented, IndexOK, ScoresOK, ValidStore;
    var u, k := Incremented(s, d, key, delta, x), MemberKey(d, key, m);
    assert ZOK(s, d, key);
    assert k in u <==> Lookup(u, k).Some?;
    ViewAt(s, d, key, m);
    if MemberKey(d, key, x) in s {
      IncrementedOld(s, d, key, delta, x, k);
    } else {
      IncrementedNew(s, d, key, delta, x, k);
    }
  }

  /** A committed call changes the set it names, as the command says, and no other set. */
  lemma StepDoes(s: Store, u: Store, d: nat, c: Command)
    requires RunInv(s, d) && Typed(c) && !Refused(s, d, c) && Commits(s, u, d, c)
    ensures Does(s, u, d, c)
  {
    hide ZInv, Added, Removed, Incremented, Gone, View, LastScore, NamesBound, IsResult, Stored;
    match c
    case AddCmd(key, args) =>
      forall m
        ensures Lookup(View(u, d, key), m) == if LastScore(args, m).Some? then LastScore(args, m)
                  else Lookup(View(s, d, key), m)
      {
        AddedView(s, d, key, args, m);
      }
    case RemCmd(key, ms) =>
      forall m ensures Lookup(View(u, d, key), m) == if m in ms then None else Lookup(View(s, d, key), m) {
        ZInvIsValid(s, d);
        RemovedView(s, d, key, ms, m);
      }
    case IncrByCmd(key, delta, x) =>
      var a := View(s, d, key);
      forall m
        ensures Lookup(View(u, d, key), m) == if m == x then Some(Wrap64((if x in a then a[x] else 0) + delta))
                  else Lookup(a, m)
      {
        IncrementedView(s, d, key, delta, x, m);
      }
    case StoreCmd(_, _, _, _, _) => StoreDoes(s, u, d, c);
    case _ =>
      ZInvIsValid(s, d);
      forall m
        ensures Lookup(View(u, d, c.key), m) == if m in MembersOf(Gone(s, d, c)) then None
                  else Lookup(View(s, d, c.key), m)
      {
        RemovedView(s, d, c.key, MembersOf(Gone(s, d, c)), m);
      }
  }

  lemma ZInvIsValid(s: Store, d: nat)
    requires ZInv(s, d)
    ensures ValidStore(s)
  {
  }

  lemma StoreDoes(s: Store, u: Store, d: nat, c: Command)
    requires RunInv(s, d) && Typed(c) && c.StoreCmd? && !Refused(s, d, c) && Commits(s, u, d, c)
    ensures IsResult(c.union, View(u, d, c.key), s, d, c.srcs, Weights(c.srcs, c.weights), AggregateOf(c.code).value)
  {
    hide ZInv, Stored, IsResult, Lists, Weights, StoreError, View;
    var view, order :| StoresResult(s, u, d, c, view, order);
    if |c.key| <= MAX_KEY_SIZE {
      StoredExact(s, d, c.key, order, view);
    } else {
      NothingListed(order);
      StoredNothing(s, d, c.key);
      NoLongNames(s, d, c.key);
    }
  }

  lemma NoLongNames(s: Store, d: nat, key: bytes)
    requires NamesBound(s, d) && !KeySizeOK(key)
    ensures View(s, d, key) == map[]
  {
    forall m ensures m !in Members(s, d, ZSetColl, key) {
      assert MemberKey(d, key, m) in s ==> NameError(key, m).None?;
    }
    assert View(s, d, key).Keys == {};
  }

  /** The other sorted sets keep their members and scores. */
  lemma StepFrame(s: Store, u: Store, d: nat, c: Command, other: bytes)
    requires RunInv(s, d) && Typed(c) && !Refused(s, d, c) && Commits(s, u, d, c) && other != c.key
    ensures View(u, d, other) == View(s, d, other)
  {
    hide Added, Removed, Incremented, Gone, View, NamesBound, IsResult, Stored, ValidStore;
    assert ZOK(s, d, c.key);
    if c.StoreCmd? {
      var view, order :| StoresResult(s, u, d, c, view, order);
      if |c.key| <= MAX_KEY_SIZE {
        StoredExact(s, d, c.key, order, view);
      } else {
        NothingListed(order);
        StoredNothing(s, d, c.key);
      }
    } else {
      forall k: Key | IsRecordOf(d, other, k) ensures Lookup(u, k) == Lookup(s, k) {
        match c
        case AddCmd(key, args) => AddFrame(s, d, key, args, k);
        case RemCmd(key, ms) => RemFrame(s, d, key, ms, k);
        case IncrByCmd(key, delta, m) =>
          if MemberKey(d, key, m) in s {
            IncrementedOld(s, d, key, delta, m, k);
          } else {
            IncrementedNew(s, d, key, delta, m, k);
          }
        case RemByScoreCmd(key, _, _) => RemFrame(s, d, key, MembersOf(Gone(s, d, c)), k);
        case RemByRankCmd(key, _, _) => RemFrame(s, d, key, MembersOf(Gone(s, d, c)), k);
        case ClearCmd(key) => RemFrame(s, d, key, MembersOf(Gone(s, d, c)), k);
      }
      FrameZOK(s, u, d, other);
    }
  }

  // ---------------------------------------------------------------- the scores a store leaves

  /** The stored scores of `m` in the sources that hold it, in the order of the sources. */
  ghost function RawScores(s: Store, d: nat, srcs: seq<bytes>, m: bytes): (xs: seq<int>) {
    if srcs == [] then []
    else
      var v := View(s, d, srcs[|srcs| - 1]);
      RawScores(s, d, srcs[..|srcs| - 1], m) + if m in v then [v[m]] else []
  }

  /** The same, each times the weight of its source in 64 bits. */
  ghost function ScaledScores(s: Store, d: nat, srcs: seq<bytes>, ws: seq<int>, m: bytes): (xs: seq<int>)
    requires |srcs| == |ws|
  {
    if srcs == [] then []
    else
      var n := |srcs| - 1;
      var v := View(s, d, srcs[n]);
      ScaledScores(s, d, srcs[..n], ws[..n], m) + if m in v then [Wrap64(v[m] * ws[n])] else []
  }

  /** What the three codes of the program ask for: 0 the sum, 1 the least, 2 the greatest. */
  ghost predicate Aggregates(code: byte, xs: seq<int>, x: int) {
    && (code == 0 ==> x == Wrap64(SumOf(xs)))
    && (code == 1 ==> x in xs && forall y :: y in xs ==> x <= y)
    && (code == 2 ==> x in xs && forall y :: y in xs ==> x >= y)
  }

  lemma {:induction false} ContributedRaw(s: Store, d: nat, srcs: seq<bytes>, ws: seq<int>, m: bytes)
    requires |srcs| == |ws| && ValidStore(s) && forall i :: 0 <= i < |ws| ==> ws[i] == 1
    ensures Contributions(Views(s, d, srcs), ws, m) == RawScores(s, d, srcs, m)
  {
    hide ValidStore;
    if srcs != [] {
      var n := |srcs| - 1;
      ContributedRaw(s, d, srcs[..n], ws[..n], m);
      assert Views(s, d, srcs)[..n] == Views(s, d, srcs[..n]);
      StoredScoreFits(s, d, srcs[n], m);
    }
  }

  lemma StoredScoreFits(s: Store, d: nat, key: bytes, m: bytes)
    requires ValidStore(s)
    ensures m in View(s, d, key) ==> IsInt64(View(s, d, key)[m])
  {
    if m in View(s, d, key) { assert ValidRecord(MemberKey(d, key, m), s[MemberKey(d, key, m)]); }
  }

  lemma {:induction false} ContributedScaled(s: Store, d: nat, srcs: seq<bytes>, ws: seq<int>, m: bytes)
    requires |srcs| == |ws|
    ensures Contributions(Views(s, d, srcs), ws, m) == ScaledScores(s, d, srcs, ws, m)
    ensures forall i :: 0 <= i < |ScaledScores(s, d, srcs, ws, m)| ==> IsInt64(ScaledScores(s, d, srcs, ws, m)[i])
  {
    if srcs != [] {
      var n := |srcs| - 1;
      ContributedScaled(s, d, srcs[..n], ws[..n], m);
      assert Views(s, d, srcs)[..n] == Views(s, d, srcs[..n]);
    }
  }

  lemma AggregatesTotal(code: byte, xs: seq<int>)
    requires xs != [] && AggregateOf(code).Some? && forall i :: 0 <= i < |xs| ==> IsInt64(xs[i])
    ensures Aggregates(code, xs, Total(AggregateOf(code).value, xs))
  {
    hide SumOf, Total, Wrap64;
    var g := AggregateOf(code).value;
    TotalIs(g, xs);
    forall y | y in xs ensures (code == 1 ==> Total(g, xs) <= y) && (code == 2 ==> Total(g, xs) >= y) {
      var i :| 0 <= i < |xs| && xs[i] == y;
    }
  }

  /** A store is refused for its arguments exactly if the code is none of the three or sources or weights do not fit. */
  lemma StoreRefusedIff(s: Store, d: nat, c: Command)
    requires c.StoreCmd?
    ensures Refused(s, d, c) <==>
            || c.code > 2 || c.srcs == [] || (c.weights.Some? && |c.weights.value| != |c.srcs|)
            || exists i :: 0 <= i < |c.srcs| && !(1 <= |c.srcs[i]| <= 1024)
    ensures StoreError(c.srcs, c.weights, c.code) ==
            if c.code > 2 then Some(ErrAggregate)
            else if c.srcs == [] then Some(ErrSrcKeyNum)
            else if c.weights.Some? && |c.weights.value| != |c.srcs| then Some(ErrWeightNum) else None
  {
  }

  /**
   The destination of a committed store holds the members that some source, or every source, holds,
   each with the aggregate of its scores: as they are stored, or times the weights given.
   */
  lemma StoredScores(s: Store, u: Store, d: nat, c: Command, m: bytes)
    requires RunInv(s, d) && c.StoreCmd? && !Refused(s, d, c) && Commits(s, u, d, c)
    ensures c.weights.Some? ==> |c.weights.value| == |c.srcs|
    ensures var xs := if c.weights.None? then RawScores(s, d, c.srcs, m)
                      else ScaledScores(s, d, c.srcs, c.weights.value, m);
            && (m in View(u, d, c.key) <==> if c.union then xs != [] else |xs| == |c.srcs|)
            && (m in View(u, d, c.key) ==> Aggregates(c.code, xs, View(u, d, c.key)[m]))
  {
    hide ZInv, NamesBound, View, Contributions, Total, Commits, Aggregates, RawScores, ScaledScores;
    StepDoes(s, u, d, c);
    ZInvIsValid(s, d);
    var ws, b := Weights(c.srcs, c.weights), View(u, d, c.key);
    var xs := Contributions(Views(s, d, c.srcs), ws, m);
    ContributedScaled(s, d, c.srcs, ws, m);
    if c.weights.None? { ContributedRaw(s, d, c.srcs, ws, m); }
    if xs != [] { AggregatesTotal(c.code, xs); }
    assert m in b <==> if c.union then xs != [] else |xs| == |c.srcs|;
  }

  /** Storing one source without weights copies it, whatever the aggregate. */
  lemma StoredCopy(s: Store, u: Store, d: nat, c: Command)
    requires RunInv(s, d) && c.StoreCmd? && !Refused(s, d, c) && Commits(s, u, d, c)
    requires c.weights.None? && |c.srcs| == 1
    ensures View(u, d, c.key) == View(s, d, c.srcs[0])
  {
    hide ZInv, NamesBound, View, Commits, Refused;
    var a, b := View(s, d, c.srcs[0]), View(u, d, c.key);
    ZInvIsValid(s, d);
    StoreRefusedIff(s, d, c);
    forall m ensures (m in b <==> m in a) && (m in a ==> b[m] == a[m]) {
      StoredScores(s, u, d, c, m);
      assert RawScores(s, d, c.srcs[..0], m) == [];
      assert RawScores(s, d, c.srcs, m) == [] + if m in a then [a[m]] else [];
      if m in a {
        StoredScoreFits(s, d, c.srcs[0], m);
        assert SumOf([a[m]]) == a[m] by { assert [a[m]][..0] == []; }
      }
    }
  }

  /** A member of one source alone is stored with its score times that source's weight. */
  lemma StoredAlone(s: Store, u: Store, d: nat, c: Command, i: nat, m: bytes)
    requires RunInv(s, d) && c.StoreCmd? && !Refused(s, d, c) && Commits(s, u, d, c) && c.union
    requires c.weights.Some? && i < |c.srcs| == |c.weights.value| && m in View(s, d, c.srcs[i])
    requires forall j :: 0 <= j < |c.srcs| && j != i ==> m !in View(s, d, c.srcs[j])
    ensures m in View(u, d, c.key) && View(u, d, c.key)[m] == Wrap64(View(s, d, c.srcs[i])[m] * c.weights.value[i])
  {
    hide ZInv, NamesBound, View, Commits, Refused;
    var ws, x := c.weights.value, Wrap64(View(s, d, c.srcs[i])[m] * c.weights.value[i]);
    StoreRefusedIff(s, d, c);
    StoredScores(s, u, d, c, m);
    AloneScaled(s, d, c.srcs, ws, i, m);
    assert SumOf([x]) == x by { assert [x][..0] == []; }
  }

  lemma {:induction false} AloneScaled(s: Store, d: nat, srcs: seq<bytes>, ws: seq<int>, i: nat, m: bytes)
    requires |srcs| == |ws| && forall j :: 0 <= j < |srcs| && j != i ==> m !in View(s, d, srcs[j])
    requires i < |srcs| ==> m in View(s, d, srcs[i])
    ensures ScaledScores(s, d, srcs, ws, m) == if i < |srcs| then [Wrap64(View(s, d, srcs[i])[m] * ws[i])] else []
  {
    hide View;
    if srcs != [] {
      var n := |srcs| - 1;
      AloneScaled(s, d, srcs[..n], ws[..n], i, m);
    }
  }

  // ---------------------------------------------------------------- the operations make these steps

  /** Every call of an operation is a step: it commits unless it is refused or the node is read-only. */
  method Execute(db: DB, c: Command)
    requires db.Ready() && RunInv(db.bucket, db.index) && Countable(db.bucket, db.index) && Typed(c)
    modifies db`bucket, db`batch
    ensures db.batch == []
    ensures Next(old(db.bucket), db.bucket, db.index, c)
    ensures var s, d := old(db.bucket), db.index;
            if db.readonly || Refused(s, d, c) || Unstorable(s, d, c) then db.bucket == s
            else Commits(s, db.bucket, d, c)
  {
    hide ZInv, NamesBound, Countable, Added, Removed, Incremented, ValidStore, SortedPairs, FilterPairs, RankSlice,
         Window, IsResult, Stored, Lists, Weights, KeySizeOK, ValidScore;
    match c {
      case AddCmd(key, args) =>
        var r := ZAdd(db, key, args);
      case RemCmd(key, ms) =>
        var r := ZRem(db, key, ms);
      case IncrByCmd(key, delta, m) =>
        var r := ZIncrBy(db, key, delta, m);
      case RemByScoreCmd(key, min, max) =>
        if |key| <= MAX_KEY_SIZE { GoneIsDoomed(db.bucket, db.index, c); }
        var r := ZRemRange(db, key, min, max, 0, -1);
      case RemByRankCmd(key, start, stop) =>
        var r := ZRemRangeByRank(db, key, start, stop);
      case ClearCmd(key) =>
        if |key| <= MAX_KEY_SIZE { GoneIsDoomed(db.bucket, db.index, c); }
        var r := ZRemRange(db, key, MIN_SCORE, MAX_SCORE, 0, -1);
      case StoreCmd(key, union, srcs, weights, code) =>
        ExecuteStore(db, c);
    }
  }

  method ExecuteStore(db: DB, c: Command)
    requires db.Ready() && RunInv(db.bucket, db.index) && Countable(db.bucket, db.index) && c.StoreCmd?
    modifies db`bucket, db`batch
    ensures db.batch == []
    ensures var s, d := old(db.bucket), db.index;
            if db.readonly || Refused(s, d, c) || Unstorable(s, d, c) then db.bucket == s
            else Commits(s, db.bucket, d, c)
  {
    hide ZInv, NamesBound, Countable, ValidStore, IsResult, Stored, Lists, Weights, KeySizeOK, ValidScore;
    ghost var s, d := db.bucket, db.index;
    var r; ghost var view; ghost var order;
    r, view, order := ZStore(db, c.union, c.key, c.srcs, c.weights, c.code);
    if !Refused(s, d, c) {
      forall other | IsResult(c.union, other, s, d, c.srcs, Weights(c.srcs, c.weights), AggregateOf(c.code).value)
        ensures other == view
      {
        OneResult(c.union, other, view, s, d, c.srcs, Weights(c.srcs, c.weights), AggregateOf(c.code).value);
      }
      assert r.Done? ==> StoresResult(s, db.bucket, d, c, view, order);
    }
  }
}
