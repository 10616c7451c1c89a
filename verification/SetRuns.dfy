/**
 Every run of the writing commands on sets and hashes: when a call keeps the recorded sizes right, and
 what it does to the members.
 */
module SetRuns {
  import opened Bytes
  import opened Keys
  import opened Batches
  import opened Database
  import opened Counting
  import opened Collections
  import opened SetOps

  datatype Command =
    | AddCmd(coll: Coll, key: bytes, args: seq<Field>)
    | RemCmd(coll: Coll, key: bytes, ms: seq<bytes>)
    | ClearCmd(coll: Coll, key: bytes)
    | StoreCmd(g: Algebra, key: bytes, keys: seq<bytes>)

  /** Commands are about sets and hashes; a difference or an intersection names a first set. */
  predicate Typed(c: Command) {
    match c
    case StoreCmd(g, _, keys) => g.Union? || keys != []
    case _ => !c.coll.ZSetColl?
  }

  function CollOf(c: Command): (r: Coll) {
    if c.StoreCmd? then SetColl else c.coll
  }

  ghost predicate RunInv(s: Store, d: nat) {
    d <= MAX_DATABASES && CInv(s, d, SetColl) && CInv(s, d, HashColl) && NamesBound(s, d)
  }

  /** A call that ends without a commit, other than on a read-only node. */
  ghost predicate Refused(s: Store, d: nat, c: Command) {
    match c
    case AddCmd(coll, key, args) => AddError(coll, key, args).Some?
    case RemCmd(coll, key, ms) => RemError(coll, key, ms).Some?
    case ClearCmd(_, key) => !KeySizeOK(key)
    case StoreCmd(g, key, keys) => !KeySizeOK(key) || OutcomeOf(g, s, d, keys).BadKey?
  }

  ghost predicate Commits(s: Store, u: Store, d: nat, c: Command)
    requires RunInv(s, d)
  {
    match c
    case AddCmd(coll, key, args) => u == Added(s, d, coll, key, args)
    case RemCmd(coll, key, ms) => u == Removed(s, d, coll, key, ms)
    case ClearCmd(coll, key) => u == Cleared(s, d, coll, key)
    case StoreCmd(g, key, keys) => exists v :: Lists(v, Result(g, s, d, keys)) && u == Stored(s, d, key, v)
  }

  /** One call: it commits, or it changes nothing. */
  ghost predicate Next(s: Store, u: Store, d: nat, c: Command)
    requires RunInv(s, d)
  {
    u == s || (!Refused(s, d, c) && Commits(s, u, d, c))
  }

  /** What a caller has to respect. */
  ghost predicate Safe(s: Store, d: nat, c: Command) {
    match c
    case AddCmd(coll, key, args) => NewOnce(s, d, coll, key, args)
    case RemCmd(coll, key, ms) => StoredOnce(s, d, coll, key, ms) || NamesAll(s, d, coll, key, ms)
    case _ => true
  }

  /** The members of the collection the command names, afterwards. */
  ghost function Expected(s: Store, d: nat, c: Command): (ms: set<bytes>) {
    var now := Members(s, d, CollOf(c), c.key);
    match c
    case AddCmd(_, _, args) => now + set m | m in Names(args)
    case RemCmd(_, _, ms) => now - set m | m in ms
    case ClearCmd(_, _) => {}
    case StoreCmd(g, _, keys) => Result(g, s, d, keys)
  }

  // ---------------------------------------------------------------- what is refused

  /** Names are 1 to 1024 bytes long, a hash value at most 1 GiB. */
  predicate Fits(coll: Coll, key: bytes, name: bytes, value: bytes) {
    1 <= |key| <= 1024 && 1 <= |name| <= 1024 && (coll.HashColl? ==> |value| <= 1073741824)
  }

  /** The sources are read up to an empty intermediate result: only a bad name before that is noticed. */
  ghost predicate MeetsBadName(g: Algebra, s: Store, d: nat, keys: seq<bytes>) {
    exists i :: 0 <= i < |keys| && !(1 <= |keys[i]| <= 1024) && ReadsOn(g, s, d, keys, i)
  }

  ghost predicate ReadsOn(g: Algebra, s: Store, d: nat, keys: seq<bytes>, i: nat)
    requires i <= |keys|
  {
    g.Union? || forall j :: 2 <= j <= i ==> Result(g, s, d, keys[..j]) != {}
  }

  lemma {:induction false} BadNameIff(g: Algebra, s: Store, d: nat, keys: seq<bytes>)
    requires g.Union? || keys != []
    ensures OutcomeOf(g, s, d, keys).BadKey? <==> MeetsBadName(g, s, d, keys)
    ensures OutcomeOf(g, s, d, keys).Running? ==> ReadsOn(g, s, d, keys, |keys|)
    ensures OutcomeOf(g, s, d, keys).CutShort? ==> !ReadsOn(g, s, d, keys, |keys|)
    decreases |keys|
  {
    hide Result;
    assert keys[..|keys|] == keys;
    if |keys| > 1 {
      var n := |keys| - 1;
      var front := keys[..n];
      BadNameIff(g, s, d, front);
      forall i | 0 <= i <= n ensures ReadsOn(g, s, d, keys, i) == ReadsOn(g, s, d, front, i) {
        ReadsOnFront(g, s, d, keys, i);
      }
      assert ReadsOn(g, s, d, keys, |keys|) <==>
             ReadsOn(g, s, d, keys, n) && (g.Union? || Result(g, s, d, keys) != {});
      hide ReadsOn;
      assert forall i :: 0 <= i < n ==> front[i] == keys[i];
    }
  }

  lemma ReadsOnFront(g: Algebra, s: Store, d: nat, keys: seq<bytes>, i: nat)
    requires keys != [] && i < |keys|
    ensures ReadsOn(g, s, d, keys[..|keys| - 1], i) == ReadsOn(g, s, d, keys, i)
  {
    hide Result;
    var front := keys[..|keys| - 1];
    forall j | 2 <= j <= i ensures Result(g, s, d, front[..j]) == Result(g, s, d, keys[..j]) {
      assert front[..j] == keys[..j];
    }
  }

  /** Which calls are refused whatever the store holds, in numbers. */
  lemma RefusedIff(s: Store, d: nat, c: Command)
    requires Typed(c)
    ensures Refused(s, d, c) <==>
            match c
            case AddCmd(coll, key, args) =>
              exists i :: 0 <= i < |args| && !Fits(coll, key, args[i].name, args[i].value)
            case RemCmd(coll, key, ms) => exists i :: 0 <= i < |ms| && !Fits(coll, key, ms[i], [])
            case ClearCmd(_, key) => !(1 <= |key| <= 1024)
            case StoreCmd(g, key, keys) => !(1 <= |key| <= 1024) || MeetsBadName(g, s, d, keys)
  {
    hide OutcomeOf, MeetsBadName;
    match c
    case AddCmd(coll, key, args) =>
      assert forall i :: 0 <= i < |args| ==>
          (FieldError(coll, key, args[i]).None? <==> Fits(coll, key, args[i].name, args[i].value));
    case RemCmd(coll, key, ms) =>
      assert forall i :: 0 <= i < |ms| ==> (NameError(coll, key, ms[i]).None? <==> Fits(coll, key, ms[i], []));
    case ClearCmd(_, _) =>
    case StoreCmd(g, _, keys) => BadNameIff(g, s, d, keys);
  }

  /** The first argument that does not fit decides the error. */
  lemma RefusedWith(coll: Coll, key: bytes, args: seq<Field>, i: nat)
    requires i < |args| && !Fits(coll, key, args[i].name, args[i].value)
    requires forall j :: 0 <= j < i ==> Fits(coll, key, args[j].name, args[j].value)
    ensures AddError(coll, key, args) == Some(
              if |key| == 0 || |key| > 1024 then ErrKeySize
              else if 1 <= |args[i].name| <= 1024 then ErrValueSize
              else if coll == HashColl then ErrFieldSize else ErrMemberSize)
  {
    assert forall j :: 0 <= j < i ==> args[..i][j] == args[j];
    AddErrorPrefix(coll, key, args, i);
  }

  // ---------------------------------------------------------------- one call

  /** Only the named collection can go wrong. */
  ghost predicate Framed(s: Store, u: Store, d: nat, coll: Coll, key: bytes) {
    forall k: Key :: (k.kind.Item? || k.kind.Size?) && !IsRecordOf(d, coll, key, k) ==> Lookup(u, k) == Lookup(s, k)
  }

  lemma OwnSizeDecides(s: Store, u: Store, d: nat, coll: Coll, key: bytes)
    requires RunInv(s, d) && ValidStore(u) && NamesBound(u, d) && Framed(s, u, d, coll, key) && !coll.ZSetColl?
    ensures RunInv(u, d) <==> SizeOK(u, d, coll, key)
  {
    hide SizeOK, NamesBound, ValidStore;
    forall c: Coll, other: bytes | !c.ZSetColl? && (c != coll || other != key) ensures SizeOK(u, d, c, other) {
      assert SizeOK(s, d, c, other);
      forall k: Key | IsRecordOf(d, c, other, k) ensures Lookup(u, k) == Lookup(s, k) {
        assert !IsRecordOf(d, coll, key, k);
      }
      FrameSize(s, u, d, c, other);
    }
    if SizeOK(u, d, coll, key) {
      forall other: bytes ensures SizeOK(u, d, SetColl, other) && SizeOK(u, d, HashColl, other) {
        assert (SetColl != coll || other != key) || SetColl == coll;
        assert (HashColl != coll || other != key) || HashColl == coll;
      }
    }
  }

  lemma AddNames(s: Store, d: nat, c: Command)
    requires c.AddCmd? && AddError(c.coll, c.key, c.args).None?
    ensures c.args != [] ==> KeySizeOK(c.key)
    ensures forall m :: m in Names(c.args) ==> MemberSizeOK(m)
  {
    if c.args != [] { assert FieldError(c.coll, c.key, c.args[0]).None?; }
    forall m | m in Names(c.args) ensures MemberSizeOK(m) {
      var i :| 0 <= i < |c.args| && Names(c.args)[i] == m;
      assert FieldError(c.coll, c.key, c.args[i]).None?;
    }
  }

  lemma AddKeeps(s: Store, d: nat, c: Command)
    requires RunInv(s, d) && Typed(c) && c.AddCmd? && !Refused(s, d, c)
    ensures var u := Added(s, d, c.coll, c.key, c.args);
            && (RunInv(u, d) <==> NewOnce(s, d, c.coll, c.key, c.args)) &&
                Members(u, d, c.coll, c.key) == Expected(s, d, c)
  {
    hide Added, CountNew, SizeOK, ValidStore, NewOnce, MemberSizeOK, KeySizeOK, AddError;
    var u := Added(s, d, c.coll, c.key, c.args);
    AddNames(s, d, c);
    KeySizeFits(c.key);
    AddedValid(s, d, c.coll, c.key, c.args);
    forall k: Key
      ensures (k.kind.Item? || k.kind.Size?) && !IsRecordOf(d, c.coll, c.key, k) ==> Lookup(u, k) == Lookup(s, k)
    {
      AddedAt(s, d, c.coll, c.key, c.args, k);
    }
    forall key: bytes, m: bytes | ItemKey(d, SetColl, key, m) in u ensures KeySizeOK(key) && MemberSizeOK(m) {
      AddedAt(s, d, c.coll, c.key, c.args, ItemKey(d, SetColl, key, m));
      assert Lookup(u, ItemKey(d, SetColl, key, m)).Some?;
    }
    OwnSizeDecides(s, u, d, c.coll, c.key);
    assert SizeOK(s, d, c.coll, c.key);
    AddSizeIff(s, d, c.coll, c.key, c.args);
    AddedMembers(s, d, c.coll, c.key, c.args);
  }

  lemma KeySizeFits(key: bytes)
    ensures KeySizeOK(key) ==> |key| < 0x1_0000
  {
  }

  lemma RemKeeps(s: Store, d: nat, c: Command)
    requires RunInv(s, d) && Typed(c) && c.RemCmd? && !Refused(s, d, c)
    ensures var u := Removed(s, d, c.coll, c.key, c.ms);
            && (RunInv(u, d) <==> StoredOnce(s, d, c.coll, c.key, c.ms) || NamesAll(s, d, c.coll, c.key, c.ms))
            && Members(u, d, c.coll, c.key) == Expected(s, d, c)
  {
    hide Removed, CountStored, SizeOK, ValidStore, StoredOnce, NamesAll, MemberSizeOK, KeySizeOK, RemError;
    var u := Removed(s, d, c.coll, c.key, c.ms);
    RemovedValid(s, d, c.coll, c.key, c.ms);
    forall k: Key
      ensures (k.kind.Item? || k.kind.Size?) && !IsRecordOf(d, c.coll, c.key, k) ==> Lookup(u, k) == Lookup(s, k)
    {
      RemovedAt(s, d, c.coll, c.key, c.ms, k);
    }
    forall key: bytes, m: bytes | ItemKey(d, SetColl, key, m) in u ensures KeySizeOK(key) && MemberSizeOK(m) {
      RemovedAt(s, d, c.coll, c.key, c.ms, ItemKey(d, SetColl, key, m));
      assert Lookup(u, ItemKey(d, SetColl, key, m)).Some?;
      assert ItemKey(d, SetColl, key, m) in s;
    }
    OwnSizeDecides(s, u, d, c.coll, c.key);
    assert SizeOK(s, d, c.coll, c.key);
    RemSizeIff(s, d, c.coll, c.key, c.ms);
    RemovedMembers(s, d, c.coll, c.key, c.ms);
  }

  lemma ClearKeeps(s: Store, d: nat, c: Command)
    requires RunInv(s, d) && Typed(c) && c.ClearCmd? && !Refused(s, d, c)
    ensures var u := Cleared(s, d, c.coll, c.key);
            RunInv(u, d) && Members(u, d, c.coll, c.key) == {}
  {
    hide Cleared, SizeOK, MemberSizeOK;
    var u := Cleared(s, d, c.coll, c.key);
    forall k: Key
      ensures (k.kind.Item? || k.kind.Size?) ==>
                Lookup(u, k) == if IsRecordOf(d, c.coll, c.key, k) then None else Lookup(s, k)
      ensures k in u ==> ValidRecord(k, u[k])
      ensures k.kind.Item? && k in u ==> k in s && !IsRecordOf(d, c.coll, c.key, k)
    {
      ClearedAt(s, d, c.coll, c.key, k);
      assert k in u <==> Lookup(u, k).Some?;
      assert k in s ==> ValidRecord(k, s[k]);
    }
    OwnSizeDecides(s, u, d, c.coll, c.key);
    forall m ensures m !in Members(u, d, c.coll, c.key) {
      assert IsRecordOf(d, c.coll, c.key, ItemKey(d, c.coll, c.key, m));
    }
    EmptySize(u, d, c.coll, c.key);
  }

  lemma EmptySize(u: Store, d: nat, coll: Coll, key: bytes)
    requires Lookup(u, SizeKey(d, coll, key)).None? && Members(u, d, coll, key) == {}
    ensures SizeOK(u, d, coll, key)
  {
  }

  lemma StoreKeeps(s: Store, d: nat, c: Command, v: seq<bytes>)
    requires RunInv(s, d) && Typed(c) && c.StoreCmd? && !Refused(s, d, c) && Lists(v, Result(c.g, s, d, c.keys))
    ensures var u := Stored(s, d, c.key, v);
            RunInv(u, d) && Members(u, d, SetColl, c.key) == Result(c.g, s, d, c.keys)
  {
    hide Stored, SizeOK, MemberSizeOK, Result, OutcomeOf;
    var u, ms := Stored(s, d, c.key, v), Result(c.g, s, d, c.keys);
    forall k: Key
      ensures (k.kind.Item? || k.kind.Size?) && !IsRecordOf(d, SetColl, c.key, k) ==> Lookup(u, k) == Lookup(s, k)
      ensures k in u ==> ValidRecord(k, u[k])
      ensures k.kind.Item? && k in u ==>
                (k in s && !IsRecordOf(d, SetColl, c.key, k)) ||
                (IsRecordOf(d, SetColl, c.key, k) && k.kind.member in v)
      ensures k.kind.Item? && IsRecordOf(d, SetColl, c.key, k) && k.kind.member in v ==> k in u
    {
      SetOps.StoredAt(s, d, c.key, v, k);
      assert k in u <==> Lookup(u, k).Some?;
      assert k in s ==> ValidRecord(k, s[k]);
    }
    forall key: bytes, m: bytes | ItemKey(d, SetColl, key, m) in u ensures KeySizeOK(key) && MemberSizeOK(m) {
      if key == c.key { ResultNamed(c.g, s, d, c.keys, m); }
    }
    OwnSizeDecides(s, u, d, SetColl, c.key);
    forall m ensures m in Members(u, d, SetColl, c.key) <==> m in ms {
      assert IsRecordOf(d, SetColl, c.key, ItemKey(d, SetColl, c.key, m));
    }
    SetOps.StoredAt(s, d, c.key, v, SizeKey(d, SetColl, c.key));
    ListedSize(v, ms);
    ExactSize(u, d, c.key, ms);
  }

  lemma ExactSize(u: Store, d: nat, key: bytes, ms: set<bytes>)
    requires Lookup(u, SizeKey(d, SetColl, key)) == Some(IntVal(|ms|)) && Members(u, d, SetColl, key) == ms
    ensures SizeOK(u, d, SetColl, key)
  {
  }

  lemma ListedSize(v: seq<bytes>, ms: set<bytes>)
    requires Lists(v, ms)
    ensures |v| == |ms|
  {
    var p := (m: bytes) => true;
    CountIsDistinct(v, p);
    CountEvery(v, p);
    assert Distinct(v, p) == ms;
  }

  lemma RunInvValid(s: Store, d: nat)
    requires RunInv(s, d)
    ensures ValidStore(s)
  {
  }

  /** A call that commits keeps every size right exactly if it is safe. */
  lemma StepKeepsIff(s: Store, u: Store, d: nat, c: Command)
    requires RunInv(s, d) && Typed(c) && !Refused(s, d, c) && Commits(s, u, d, c)
    ensures RunInv(u, d) <==> Safe(s, d, c)
    ensures Members(u, d, CollOf(c), c.key) == Expected(s, d, c)
  {
    hide RunInv, Added, Removed, Cleared, Stored, NewOnce, StoredOnce, NamesAll, Result, Lists, OutcomeOf, AddError,
         RemError;
    match c
    case AddCmd(_, _, _) => AddKeeps(s, d, c);
    case RemCmd(_, _, _) => RemKeeps(s, d, c);
    case ClearCmd(_, _) => ClearKeeps(s, d, c);
    case StoreCmd(g, key, keys) =>
      RunInvValid(s, d);
      var v :| Lists(v, Result(g, s, d, keys)) && u == Stored(s, d, key, v);
      StoreKeeps(s, d, c, v);
  }

  /** The other sets and hashes keep their members. */
  lemma StepFrame(s: Store, u: Store, d: nat, c: Command, coll: Coll, key: bytes)
    requires RunInv(s, d) && Typed(c) && !Refused(s, d, c) && Commits(s, u, d, c) && (coll != CollOf(c) || key != c.key)
    ensures Members(u, d, coll, key) == Members(s, d, coll, key)
  {
    hide Added, Removed, Cleared, Stored, SizeOK, Result, OutcomeOf, AddError, RemError, NamesBound, Lists;
    forall k: Key | IsRecordOf(d, coll, key, k) ensures Lookup(u, k) == Lookup(s, k) {
      match c
      case AddCmd(x, y, args) => AddedAt(s, d, x, y, args, k);
      case RemCmd(x, y, ms) => RemovedAt(s, d, x, y, ms, k);
      case ClearCmd(x, y) => ClearedAt(s, d, x, y, k);
      case StoreCmd(g, y, keys) =>
        var v :| Lists(v, Result(g, s, d, keys)) && u == Stored(s, d, y, v);
        SetOps.StoredAt(s, d, y, v, k);
    }
    FrameSize(s, u, d, coll, key);
  }

  // ---------------------------------------------------------------- runs

  ghost predicate IsRun(d: nat, states: seq<Store>, cmds: seq<Command>) {
    && |states| == |cmds| + 1
    && forall i :: 0 <= i < |cmds| ==>
        Typed(cmds[i]) && (RunInv(states[i], d) ==> Next(states[i], states[i + 1], d, cmds[i]))
  }

  /** No run of safe calls ever leaves a wrong size. */
  lemma {:induction false} RunKeeps(d: nat, states: seq<Store>, cmds: seq<Command>, n: nat)
    requires IsRun(d, states, cmds) && n <= |cmds| && RunInv(states[0], d)
    requires forall i :: 0 <= i < |cmds| ==> Safe(states[i], d, cmds[i])
    ensures RunInv(states[n], d)
  {
    hide RunInv, Next, Safe, Typed;
    if n > 0 {
      RunKeeps(d, states, cmds, n - 1);
      assert Safe(states[n - 1], d, cmds[n - 1]);
      NextKeeps(states[n - 1], states[n], d, cmds[n - 1]);
    }
  }

  lemma NextKeeps(s: Store, u: Store, d: nat, c: Command)
    requires RunInv(s, d) && Typed(c) && Next(s, u, d, c) && Safe(s, d, c)
    ensures RunInv(u, d)
  {
    hide RunInv, Safe, Refused, Commits;
    if u != s { StepKeepsIff(s, u, d, c); }
  }

  /** Distinct arguments are safe in every state. */
  lemma DistinctIsSafe(s: Store, d: nat, c: Command)
    requires c.AddCmd? ==> forall i, j :: 0 <= i < j < |c.args| ==> c.args[i].name != c.args[j].name
    requires c.RemCmd? ==> forall i, j :: 0 <= i < j < |c.ms| ==> c.ms[i] != c.ms[j]
    ensures Safe(s, d, c)
  {
    if c.AddCmd? {
      var ms := Names(c.args);
      assert forall i, j :: 0 <= i < j < |ms| ==> ms[i] == c.args[i].name && ms[j] == c.args[j].name;
    }
  }

  /** Every call of an operation is a step: it commits unless it is refused or the node is read-only. */
  method Execute(db: DB, c: Command)
    requires db.Ready() && RunInv(db.bucket, db.index) && Typed(c)
    modifies db`bucket, db`batch
    ensures db.batch == []
    ensures Next(old(db.bucket), db.bucket, db.index, c)
    ensures if db.readonly || Refused(old(db.bucket), db.index, c) then db.bucket == old(db.bucket)
            else Commits(old(db.bucket), db.bucket, db.index, c)
  {
    hide CInv, ValidStore, Added, Removed, Cleared, Stored, Result, OutcomeOf, AddError, RemError, KeySizeOK, Lists,
         NamesBound;
    match c {
      case AddCmd(coll, key, args) =>
        var _ := Add(db, coll, key, args);
      case RemCmd(coll, key, ms) =>
        var _ := Rem(db, coll, key, ms);
      case ClearCmd(coll, key) =>
        var _ := Clear(db, coll, key);
      case StoreCmd(g, key, keys) =>
        var r; ghost var v;
        r, v := StoreGeneric(db, g, key, keys);
        assert r.Done? ==> Lists(v, Result(g, old(db.bucket), db.index, keys));
        assert r.Done? ==> db.bucket == Stored(old(db.bucket), db.index, key, v);
    }
  }
}
