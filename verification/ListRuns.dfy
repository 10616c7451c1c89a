/**
 Every run of the writing commands on lists: which calls are the operation on sequences that they
 stand for, and that no run of such calls ever leaves a list malformed.
 */
module ListRuns {
  import opened Bytes
  import opened Keys
  import opened Batches
  import opened Ranges
  import opened Database
  import opened Lists
  import opened ListOps

  datatype Command =
    | PushCmd(key: bytes, front: bool, args: seq<bytes>)
    | PopCmd(key: bytes, front: bool)
    | TrimCmd(key: bytes, n: int, front: bool)
    | TrimToCmd(key: bytes, start: int, stop: int)
    | ClearCmd(key: bytes)
    | SetCmd(key: bytes, index: int, value: bytes)

  predicate Typed(c: Command) {
    match c
    case TrimCmd(_, n, _) => IsInt32(n)
    case SetCmd(_, index, _) => IsInt32(index)
    case TrimToCmd(_, start, stop) => IsInt64(start) && IsInt64(stop)
    case _ => true
  }

  ghost predicate RunInv(s: Store, d: nat) {
    d <= MAX_DATABASES && LInv(s, d)
  }

  /** A call that ends without a commit, other than on a read-only node. */
  predicate Refused(s: Store, d: nat, c: Command) {
    !KeySizeOK(c.key) ||
    match c
    case PushCmd(key, front, args) => args == [] || !PushAllowed(s, d, key, front, |args|)
    case PopCmd(key, _) => Len(s, d, key) == 0
    case TrimCmd(key, n, _) => n == 0 || Len(s, d, key) == 0
    case SetCmd(key, index, _) => !IndexAllowed(s, d, key, index)
    case _ => false
  }

  /** Which calls are refused, in terms of the list; `PushesFit` says which pushes are not. */
  lemma RefusedIff(s: Store, d: nat, c: Command)
    requires RunInv(s, d) && Typed(c)
    ensures Refused(s, d, c) <==>
            var v := Contents(s, d, c.key);
            || !(1 <= |c.key| <= 1024)
            || match c
               case PushCmd(key, front, args) => args == [] || !PushAllowed(s, d, key, front, |args|)
               case PopCmd(_, _) => v == []
               case TrimCmd(_, n, _) => n == 0 || v == []
               case SetCmd(_, index, _) => if v == [] then index != 0 && index != -1 else !(-|v| <= index < |v|)
               case _ => false
  {
    hide ValidStore, Fills;
    assert LOK(s, d, c.key);
    LenIsLength(s, d, c.key);
  }

  /** The store a call commits. */
  ghost function After(s: Store, d: nat, c: Command): (u: Store)
    requires RunInv(s, d) && !Refused(s, d, c)
  {
    assert LOK(s, d, c.key);
    match c
    case PushCmd(key, front, args) => Pushed(s, d, key, front, args)
    case PopCmd(key, front) => Popped(s, d, key, front)
    case TrimCmd(key, n, front) => Trimmed(s, d, key, n, front)
    case TrimToCmd(key, start, stop) => TrimmedTo(s, d, key, start, stop)
    case ClearCmd(key) => Cleared(s, d, key)
    case SetCmd(key, index, value) => SetStore(s, d, key, index, value)
  }

  /** The command on sequences; a negative trim is to change nothing. */
  function Spec(v: seq<bytes>, c: Command): (r: seq<bytes>) {
    match c
    case PushCmd(_, front, args) => PushSpec(v, front, args)
    case PopCmd(_, front) => if v == [] then [] else PopSpec(v, front)
    case TrimCmd(_, n, front) => if n < 0 then v else TrimSpec(v, n, front)
    case TrimToCmd(_, start, stop) => RankSlice(v, start, stop)
    case ClearCmd(_) => []
    case SetCmd(_, index, value) =>
      var i := if index < 0 then |v| + index else index;
      if 0 <= i < |v| then v[i := value] else v
  }

  /** What a caller has to respect. */
  ghost predicate Safe(s: Store, d: nat, c: Command) {
    match c
    case PushCmd(key, front, args) => InWindow(LastSeq(s, d, key, front, |args|))
    case TrimCmd(key, n, front) =>
      if n < 0 then front && |Contents(s, d, key)| - n >= TWO_31 else !front || Ends(s, d, key).0 + n - 1 < TWO_31
    case TrimToCmd(key, start, stop) => !StopsShort(s, d, key, start, stop) && RanksFit(s, d, key, start, stop)
    case SetCmd(key, _, _) => EndsKey(d, key) in s
    case _ => true
  }

  /** The list is the one the command on sequences makes; ranks keep the very items they select. */
  ghost predicate DoesSpec(s: Store, u: Store, d: nat, c: Command) {
    && LOK(u, d, c.key) && Contents(u, d, c.key) == Spec(Contents(s, d, c.key), c)
    && (c.TrimToCmd? ==> KeepsRanks(s, u, d, c.key, c.start, c.stop))
  }

  /** On its own list, a committed call is the command on sequences exactly if it is safe. */
  lemma OwnListIff(s: Store, d: nat, c: Command)
    requires RunInv(s, d) && Typed(c) && !Refused(s, d, c)
    ensures DoesSpec(s, After(s, d, c), d, c) <==> Safe(s, d, c)
  {
    hide ValidStore, Contents, Pushed, Popped, Trimmed, TrimmedTo, Cleared, LOK, RankSlice, KeepsRanks, StopsShort,
         RanksFit;
    assert LOK(s, d, c.key);
    LenIsLength(s, d, c.key);
    match c
    case PushCmd(key, front, args) => PushExactIff(s, d, key, front, args);
    case PopCmd(key, front) => PoppedList(s, d, key, front);
    case TrimCmd(key, n, front) => TrimIff(s, d, c);
    case TrimToCmd(key, start, stop) => TrimToIff(s, d, c);
    case ClearCmd(key) => ClearedList(s, d, key);
    case SetCmd(key, index, value) => SetIff(s, d, c);
  }

  lemma TrimToIff(s: Store, d: nat, c: Command)
    requires RunInv(s, d) && c.TrimToCmd? && Typed(c) && !Refused(s, d, c)
    ensures DoesSpec(s, After(s, d, c), d, c) <==> Safe(s, d, c)
  {
    hide ValidStore, Contents, TrimmedTo, LOK, RankSlice, StopsShort, RanksFit;
    assert LOK(s, d, c.key);
    TrimToExactIff(s, d, c.key, c.start, c.stop);
  }

  lemma TrimIff(s: Store, d: nat, c: Command)
    requires RunInv(s, d) && c.TrimCmd? && Typed(c) && !Refused(s, d, c)
    ensures DoesSpec(s, After(s, d, c), d, c) <==> Safe(s, d, c)
  {
    hide ValidStore, Contents, Trimmed, LOK;
    assert LOK(s, d, c.key);
    LenIsLength(s, d, c.key);
    if c.n > 0 {
      TrimExactIff(s, d, c.key, c.n, c.front);
    } else {
      NegativeTrimIff(s, d, c.key, c.n, c.front);
    }
  }

  lemma SetIff(s: Store, d: nat, c: Command)
    requires RunInv(s, d) && c.SetCmd? && Typed(c) && !Refused(s, d, c)
    ensures DoesSpec(s, After(s, d, c), d, c) <==> Safe(s, d, c)
  {
    hide ValidStore, Contents, LOK;
    assert LOK(s, d, c.key);
    ContentsLength(s, d, c.key);
    SetExactIff(s, d, c.key, c.index, c.value);
    if EndsKey(d, c.key) !in s {
      SetBreaks(s, d, c);
    }
  }

  /** Setting an item of a list that does not exist leaves that item without a meta record, and no more. */
  lemma SetBreaks(s: Store, d: nat, c: Command)
    requires RunInv(s, d) && c.SetCmd? && EndsKey(d, c.key) !in s && Typed(c) && !Refused(s, d, c)
    ensures var u, k := After(s, d, c), ItemAt(d, c.key, IndexSeq(s, d, c.key, c.index));
            && k !in s && Lookup(u, k) == Some(BytesVal(c.value))
            && EndsKey(d, c.key) !in u
            && (forall x: Key :: x != k ==> Lookup(u, x) == Lookup(s, x))
            && !LOK(u, d, c.key)
  {
    hide ValidStore;
    var u, q := After(s, d, c), IndexSeq(s, d, c.key, c.index);
    assert LOK(s, d, c.key);
    assert Fills(s, d, c.key, 1, 0) ==> ItemAt(d, c.key, q) !in s;
    assert ItemAt(d, c.key, q) in u && EndsKey(d, c.key) !in u;
    assert Fills(u, d, c.key, 1, 0) ==> ItemAt(d, c.key, q) !in u;
  }

  // ---------------------------------------------------------------- frames

  /** Records of other lists stay, and what is stored is well formed. */
  ghost predicate Tame(s: Store, u: Store, d: nat, key: bytes, k: Key) {
    && (k.kind.ListItem? || k.kind.LMeta? ==> k.db != d || k.kind.key != key ==> Lookup(u, k) == Lookup(s, k))
    && (k in u ==> ValidRecord(k, u[k]))
  }

  lemma PushTame(s: Store, d: nat, key: bytes, front: bool, args: seq<bytes>, k: Key)
    requires ValidStore(s) && LOK(s, d, key) && d <= MAX_DATABASES && |key| < 0x1_0000
    requires args != [] && InWindow(LastSeq(s, d, key, front, |args|))
    ensures Tame(s, Pushed(s, d, key, front, args), d, key, k)
  {
    hide Pushed, Fills, Contents;
    assert k in s ==> ValidRecord(k, s[k]);
    PushPlace(s, d, key, front, |args|);
    PushedAt(s, d, key, front, args, k);
  }

  lemma CutTame(s: Store, d: nat, key: bytes, a: int, b: int, h: int, t: int, k: Key)
    requires ValidStore(s) && d <= MAX_DATABASES
    ensures Tame(s, Lists.Cut(s, d, key, a, b, h, t), d, key, k)
  {
    hide Lists.Cut;
    assert k in s ==> ValidRecord(k, s[k]);
    CutAt(s, d, key, a, b, h, t, k);
  }

  lemma ClearTame(s: Store, d: nat, key: bytes, k: Key)
    requires ValidStore(s) && LOK(s, d, key) && d <= MAX_DATABASES && |key| < 0x1_0000
    ensures Tame(s, Cleared(s, d, key), d, key, k)
  {
    hide Cleared, LOK;
    assert k in s ==> ValidRecord(k, s[k]);
    ClearedAt(s, d, key, k);
  }

  lemma TrimToTame(s: Store, d: nat, key: bytes, start: int, stop: int, k: Key)
    requires ValidStore(s) && LOK(s, d, key) && d <= MAX_DATABASES && |key| < 0x1_0000
    ensures Tame(s, TrimmedTo(s, d, key, start, stop), d, key, k)
  {
    hide Cleared, LOK, Apply, TrimToOps;
    assert k in s ==> ValidRecord(k, s[k]);
    if TrimsAll(s, d, key, start, stop) { ClearedAt(s, d, key, k); } else { TrimToAt(s, d, key, start, stop, k); }
  }

  lemma SetTame(s: Store, d: nat, key: bytes, index: int, value: bytes, k: Key)
    requires ValidStore(s) && d <= MAX_DATABASES && |key| < 0x1_0000
    ensures Tame(s, SetStore(s, d, key, index, value), d, key, k)
  {
    assert k in s ==> ValidRecord(k, s[k]);
  }

  lemma RecordAfter(s: Store, d: nat, c: Command, k: Key)
    requires RunInv(s, d) && Typed(c) && !Refused(s, d, c) && Safe(s, d, c)
    ensures Tame(s, After(s, d, c), d, c.key, k)
  {
    hide Contents, Pushed, Lists.Cut, TrimmedTo, Cleared, SetStore, LOK, Tame, ValidStore, TrimRange;
    assert LOK(s, d, c.key);
    match c
    case PushCmd(key, front, args) => PushTame(s, d, key, front, args, k);
    case PopCmd(key, front) =>
      var e := Ends(s, d, key);
      var q := if front then e.0 else e.1;
      CutTame(s, d, key, q, q, if front then Wrap32(e.0 + 1) else e.0, if front then e.1 else Wrap32(e.1 - 1), k);
    case TrimCmd(key, n, front) =>
      var e, r := Ends(s, d, key), TrimRange(s, d, key, n, front);
      CutTame(s, d, key, r.0, r.1, if front then Wrap32(r.1 + 1) else e.0, if front then e.1 else Wrap32(r.0 - 1), k);
    case TrimToCmd(key, start, stop) => TrimToTame(s, d, key, start, stop, k);
    case ClearCmd(key) => ClearTame(s, d, key, k);
    case SetCmd(key, index, value) => SetTame(s, d, key, index, value, k);
  }

  /** A committed call keeps every list well formed and is its operation on sequences exactly if it is safe. */
  lemma StepExactIff(s: Store, d: nat, c: Command)
    requires RunInv(s, d) && Typed(c) && !Refused(s, d, c)
    ensures RunInv(After(s, d, c), d) && DoesSpec(s, After(s, d, c), d, c) <==> Safe(s, d, c)
  {
    hide After, LOK, Contents, DoesSpec, Safe, Refused;
    OwnListIff(s, d, c);
    if Safe(s, d, c) {
      var u := After(s, d, c);
      forall k | k in u ensures ValidRecord(k, u[k]) { RecordAfter(s, d, c, k); }
      forall key: bytes ensures LOK(u, d, key) {
        if key == c.key { SpecIsOK(s, u, d, c); } else { OtherList(s, d, c, key); }
      }
    }
  }

  lemma SpecIsOK(s: Store, u: Store, d: nat, c: Command)
    requires DoesSpec(s, u, d, c)
    ensures LOK(u, d, c.key)
  {
  }

  /** Other lists stay as they are. */
  lemma OtherList(s: Store, d: nat, c: Command, key: bytes)
    requires RunInv(s, d) && Typed(c) && !Refused(s, d, c) && Safe(s, d, c) && key != c.key
    ensures LOK(After(s, d, c), d, key) && Contents(After(s, d, c), d, key) == Contents(s, d, key)
  {
    hide After, LOK, Contents, Safe, Refused, ValidStore;
    var u := After(s, d, c);
    assert LOK(s, d, key);
    forall k: Key | IsRecordOf(d, key, k) ensures Lookup(u, k) == Lookup(s, k) { RecordAfter(s, d, c, k); }
    FrameList(s, u, d, key);
  }

  // ---------------------------------------------------------------- runs

  /** One call: it commits, or it changes nothing. */
  ghost predicate Next(s: Store, u: Store, d: nat, c: Command)
    requires RunInv(s, d)
  {
    u == s || (!Refused(s, d, c) && u == After(s, d, c))
  }

  ghost predicate IsRun(d: nat, states: seq<Store>, cmds: seq<Command>) {
    && |states| == |cmds| + 1
    && forall i :: 0 <= i < |cmds| ==>
        Typed(cmds[i]) && (RunInv(states[i], d) ==> Next(states[i], states[i + 1], d, cmds[i]))
  }

  /** The sequence of one list after the first `n` calls, by the sequence operations alone. */
  ghost function Expected(d: nat, states: seq<Store>, cmds: seq<Command>, key: bytes, n: nat): (v: seq<bytes>)
    requires |states| == |cmds| + 1 && n <= |cmds|
  {
    if n == 0 then Contents(states[0], d, key)
    else
      var v, c := Expected(d, states, cmds, key, n - 1), cmds[n - 1];
      if c.key != key || states[n] == states[n - 1] then v else Spec(v, c)
  }

  /** Over every run of safe calls the lists are well formed and are the sequences they should be. */
  lemma {:induction false} RunRefines(d: nat, states: seq<Store>, cmds: seq<Command>, key: bytes, n: nat)
    requires IsRun(d, states, cmds) && n <= |cmds| && RunInv(states[0], d)
    requires forall i :: 0 <= i < |cmds| ==> Safe(states[i], d, cmds[i])
    ensures RunInv(states[n], d)
    ensures Contents(states[n], d, key) == Expected(d, states, cmds, key, n)
  {
    hide RunInv, Next, Safe, Typed, Contents, Spec;
    if n > 0 {
      RunRefines(d, states, cmds, key, n - 1);
      assert Safe(states[n - 1], d, cmds[n - 1]);
      NextRefines(states[n - 1], states[n], d, cmds[n - 1], key);
    }
  }

  lemma NextRefines(s: Store, u: Store, d: nat, c: Command, key: bytes)
    requires RunInv(s, d) && Typed(c) && Next(s, u, d, c) && Safe(s, d, c)
    ensures RunInv(u, d)
    ensures Contents(u, d, key) == if c.key != key || u == s then Contents(s, d, key) else Spec(Contents(s, d, key), c)
  {
    hide RunInv, Safe, Refused, After, Contents, Spec, Typed;
    if u != s {
      StepExactIff(s, d, c);
      if key != c.key { OtherList(s, d, c, key); }
    }
  }

  // ---------------------------------------------------------------- pushes are not refused

  /** How many arguments the first `n` calls push to a key. */
  ghost function PushedTo(cmds: seq<Command>, key: bytes, n: nat): (p: nat)
    requires n <= |cmds|
  {
    if n == 0 then 0
    else
      var c := cmds[n - 1];
      PushedTo(cmds, key, n - 1) + if c.PushCmd? && c.key == key then |c.args| else 0
  }

  lemma {:induction false} PushedToGrows(cmds: seq<Command>, key: bytes, n: nat, m: nat)
    requires n <= m <= |cmds|
    ensures PushedTo(cmds, key, n) <= PushedTo(cmds, key, m)
    decreases m
  {
    if n < m { PushedToGrows(cmds, key, n, m - 1); }
  }

  /** No call but a push makes an item. */
  lemma NoNewItems(s: Store, d: nat, c: Command, q: int)
    requires RunInv(s, d) && Typed(c) && !Refused(s, d, c) && Safe(s, d, c) && !c.PushCmd? && !c.SetCmd?
    ensures ItemAt(d, c.key, q) in After(s, d, c) ==> ItemAt(d, c.key, q) in s
  {
    hide ValidStore, LOK, Contents, Lists.Cut, TrimRange, Cleared, Apply, TrimToOps;
    assert LOK(s, d, c.key);
    var k, u := ItemAt(d, c.key, q), After(s, d, c);
    assert k in u <==> Lookup(u, k).Some?;
    match c
    case PopCmd(key, front) =>
      var e := Ends(s, d, key);
      var x := if front then e.0 else e.1;
      CutAt(s, d, key, x, x, if front then Wrap32(e.0 + 1) else e.0, if front then e.1 else Wrap32(e.1 - 1), k);
    case TrimCmd(key, n, front) =>
      var e, r := Ends(s, d, key), TrimRange(s, d, key, n, front);
      CutAt(s, d, key, r.0, r.1, if front then Wrap32(r.1 + 1) else e.0, if front then e.1 else Wrap32(r.0 - 1), k);
    case TrimToCmd(key, start, stop) =>
      if TrimsAll(s, d, key, start, stop) { ClearedAt(s, d, key, k); } else { TrimToAt(s, d, key, start, stop, k); }
    case ClearCmd(key) => ClearedAt(s, d, key, k);
  }

  /** A safe call that is not a push to `key` keeps the list within its numbers. */
  lemma StaysWithin(s: Store, d: nat, c: Command, key: bytes, p: nat)
    requires RunInv(s, d) && Typed(c) && !Refused(s, d, c) && Safe(s, d, c) && Within(s, d, key, p)
    requires !(c.PushCmd? && c.key == key)
    ensures Within(After(s, d, c), d, key, p)
  {
    hide After, LOK, Contents, Safe, Refused, ValidStore;
    var u, mk := After(s, d, c), EndsKey(d, key);
    assert LOK(s, d, key);
    if c.key != key {
      RecordAfter(s, d, c, mk);
      assert Lookup(u, mk) == Lookup(s, mk);
    } else if c.SetCmd? {
      SetKeepsEnds(s, d, c);
    } else {
      OwnListIff(s, d, c);
      SpecIsOK(s, u, d, c);
      forall q: int ensures ItemAt(d, key, q) in u ==> ItemAt(d, key, q) in s { NoNewItems(s, d, c, q); }
      SpanShrinks(s, u, d, key, p);
    }
  }

  lemma SetKeepsEnds(s: Store, d: nat, c: Command)
    requires RunInv(s, d) && Typed(c) && !Refused(s, d, c) && c.SetCmd?
    ensures Lookup(After(s, d, c), EndsKey(d, c.key)) == Lookup(s, EndsKey(d, c.key))
  {
    hide LOK, ValidStore;
    assert LOK(s, d, c.key);
  }

  /**
   In every run from a list that does not exist, as long as no more than 1073740000 arguments are
   pushed to it, no push to it is refused for its numbers, whatever other safe calls there are.
   */
  lemma {:induction false} PushesFit(d: nat, states: seq<Store>, cmds: seq<Command>, key: bytes, n: nat)
    requires IsRun(d, states, cmds) && n <= |cmds| && RunInv(states[0], d) && EndsKey(d, key) !in states[0]
    requires forall i :: 0 <= i < |cmds| ==> (cmds[i].PushCmd? && cmds[i].key == key) || Safe(states[i], d, cmds[i])
    requires PushedTo(cmds, key, |cmds|) <= 1073740000
    ensures RunInv(states[n], d) && Within(states[n], d, key, PushedTo(cmds, key, n))
    ensures n < |cmds| && cmds[n].PushCmd? && cmds[n].key == key && cmds[n].args != [] ==>
              PushAllowed(states[n], d, key, cmds[n].front, |cmds[n].args|) && Safe(states[n], d, cmds[n])
  {
    hide RunInv, Next, Safe, Typed, Within, Refused, After;
    if n == 0 {
      NotThere(states[0], d, key);
    } else {
      PushesFit(d, states, cmds, key, n - 1);
      var s, u, c := states[n - 1], states[n], cmds[n - 1];
      PushedToGrows(cmds, key, n, |cmds|);
      assert (c.PushCmd? && c.key == key) || Safe(s, d, c);
      PushFits(s, u, d, c, key, PushedTo(cmds, key, n - 1));
    }
    if n < |cmds| && cmds[n].PushCmd? && cmds[n].key == key && cmds[n].args != [] {
      PushedToGrows(cmds, key, n + 1, |cmds|);
      NextPushFits(states[n], d, cmds[n], PushedTo(cmds, key, n));
    }
  }

  lemma NotThere(s: Store, d: nat, key: bytes)
    requires EndsKey(d, key) !in s
    ensures Within(s, d, key, 0)
  {
  }

  lemma NextPushFits(s: Store, d: nat, c: Command, p: nat)
    requires RunInv(s, d) && c.PushCmd? && c.args != [] && Within(s, d, c.key, p) && p + |c.args| <= 1073740000
    ensures PushAllowed(s, d, c.key, c.front, |c.args|) && Safe(s, d, c)
  {
    hide LOK, ValidStore, Within;
    assert LOK(s, d, c.key);
    SpanPushFits(s, d, c.key, p, c.front, |c.args|);
  }

  lemma PushFits(s: Store, u: Store, d: nat, c: Command, key: bytes, p: nat)
    requires RunInv(s, d) && Typed(c) && Next(s, u, d, c) && Within(s, d, key, p)
    requires (c.PushCmd? && c.key == key) || Safe(s, d, c)
    requires p + (if c.PushCmd? && c.key == key then |c.args| else 0) <= 1073740000
    ensures RunInv(u, d) && Within(u, d, key, p + if c.PushCmd? && c.key == key then |c.args| else 0)
  {
    hide After, LOK, Contents, Safe, ValidStore, Within;
    if u == s {
      WithinMore(s, d, key, p, if c.PushCmd? && c.key == key then |c.args| else 0);
    } else if c.PushCmd? && c.key == key {
      assert LOK(s, d, key) && ValidStore(s);
      NextPushFits(s, d, c, p);
      StepExactIff(s, d, c);
      SpanPush(s, d, key, p, c.front, c.args);
      PushIsAfter(s, d, c);
    } else {
      StepExactIff(s, d, c);
      StaysWithin(s, d, c, key, p);
    }
  }

  lemma PushIsAfter(s: Store, d: nat, c: Command)
    requires RunInv(s, d) && !Refused(s, d, c) && c.PushCmd?
    ensures After(s, d, c) == Pushed(s, d, c.key, c.front, c.args)
  {
  }

  lemma WithinMore(s: Store, d: nat, key: bytes, p: nat, n: nat)
    requires Within(s, d, key, p)
    ensures Within(s, d, key, p + n)
  {
  }

  /** Every call of an operation is a step: it commits unless it is refused or the node is read-only. */
  method Execute(db: DB, c: Command)
    requires db.Ready() && RunInv(db.bucket, db.index) && Typed(c)
    modifies db`bucket, db`batch
    ensures db.batch == []
    ensures Next(old(db.bucket), db.bucket, db.index, c)
    ensures db.bucket == if db.readonly || Refused(old(db.bucket), db.index, c) then old(db.bucket)
                         else After(old(db.bucket), db.index, c)
  {
    hide ValidStore, Contents, Pushed, Popped, Trimmed, TrimmedTo, Cleared, SetStore, LOK, Len, PushAllowed,
         IndexAllowed, KeySizeOK;
    assert LOK(db.bucket, db.index, c.key);
    match c {
      case PushCmd(key, front, args) =>
        var _ := Push(db, key, front, args);
      case PopCmd(key, front) =>
        var _ := Pop(db, key, front);
      case TrimCmd(key, n, front) =>
        var _ := Trim(db, key, n, front);
      case TrimToCmd(key, start, stop) =>
        var _ := TrimTo(db, key, start, stop);
      case ClearCmd(key) =>
        var _ := Clear(db, key);
      case SetCmd(key, index, value) =>
        var _ := Set(db, key, index, value);
    }
  }
}
