/**
 Sorted sets (ledis/t_zset.go). A member is held twice, under its name with its score and under its
 score, and counted in a size record. This module gives the writing operations as the batches they
 commit and says exactly when each of them keeps the three in agreement.
 */
module ZSets {
  import opened Bytes
  import opened Keys
  import opened Batches
  import opened Database
  import opened Counting

  const MIN_SCORE: int := -TWO_63 + 1
  const MAX_SCORE: int := TWO_63 - 1

  datatype Pair = Pair(score: int, member: bytes)

  function MemberKey(d: nat, key: bytes, m: bytes): (k: Key) { ItemKey(d, ZSetColl, key, m) }
  function ScoreKey(d: nat, key: bytes, score: int, m: bytes): (k: Key) { Key(d, ZScore(key, score, m)) }
  function CountKey(d: nat, key: bytes): (k: Key) { SizeKey(d, ZSetColl, key) }

  /** The records of one sorted set, and its expiry records. */
  predicate IsRecordOf(d: nat, key: bytes, k: Key) {
    k.db == d && ((k.kind.Item? && k.kind.coll == ZSetColl) || k.kind.ZScore? || k == CountKey(d, key)) &&
        k.kind.key == key
  }

  predicate IsExpiryOf(d: nat, dt: byte, key: bytes, k: Key) {
    k.db == d && (k.kind.ExpMeta? || k.kind.ExpTime?) && k.kind.dataType == dt && k.kind.key == key
  }

  // ---------------------------------------------------------------- the invariant

  /** A score key is stored exactly for each member, under the score stored with the member. */
  ghost predicate IndexOK(s: Store, d: nat, key: bytes) {
    forall sc: int, m: bytes :: ScoreKey(d, key, sc, m) in s <==> Lookup(s, MemberKey(d, key, m)) == Some(IntVal(sc))
  }

  ghost predicate ScoresOK(s: Store, d: nat, key: bytes) {
    forall m: bytes :: MemberKey(d, key, m) in s ==> MIN_SCORE < GetInt(s, MemberKey(d, key, m)) < MAX_SCORE
  }

  ghost predicate ZOK(s: Store, d: nat, key: bytes) {
    IndexOK(s, d, key) && ScoresOK(s, d, key) && SizeOK(s, d, ZSetColl, key)
  }

  ghost predicate ZInv(s: Store, d: nat) {
    ValidStore(s) && forall key: bytes :: ZOK(s, d, key)
  }

  /** A sorted set as a map from member to score. */
  ghost function View(s: Store, d: nat, key: bytes): (v: map<bytes, int>)
    ensures v.Keys == Members(s, d, ZSetColl, key)
  {
    map m | m in Members(s, d, ZSetColl, key) :: GetInt(s, MemberKey(d, key, m))
  }

  // ---------------------------------------------------------------- ZAdd

  /** zSetItem: the old score is read from the committed store. */
  function SetItemOps(s: Store, d: nat, key: bytes, p: Pair): (ops: Ops) {
    var ek := MemberKey(d, key, p.member);
    (if ek in s then [Delete(ScoreKey(d, key, GetInt(s, ek), p.member))] else []) +
    [Put(ek, IntVal(p.score)), Put(ScoreKey(d, key, p.score, p.member), BytesVal([]))]
  }

  function AddOps(s: Store, d: nat, key: bytes, args: seq<Pair>): (ops: Ops) {
    if args == [] then [] else AddOps(s, d, key, args[..|args| - 1]) + SetItemOps(s, d, key, args[|args| - 1])
  }

  function MembersOf(args: seq<Pair>): (ms: seq<bytes>)
    ensures |ms| == |args|
  {
    seq(|args|, i requires 0 <= i < |args| => args[i].member)
  }

  /** The number of arguments whose member is not yet stored, repetitions included. */
  function CountNew(s: Store, d: nat, key: bytes, args: seq<Pair>): (n: nat) {
    Count(MembersOf(args), m => MemberKey(d, key, m) !in s)
  }

  /** The score of the last argument for `m`, if there is one. */
  function LastScore(args: seq<Pair>, m: bytes): (r: Option<int>) {
    if args == [] then None
    else if args[|args| - 1].member == m then Some(args[|args| - 1].score)
    else LastScore(args[..|args| - 1], m)
  }

  /** Whether a score key for `m` is left after the arguments have been written one after another. */
  predicate IsLive(s: Store, d: nat, key: bytes, args: seq<Pair>, m: bytes, sc: int) {
    if args == [] then ScoreKey(d, key, sc, m) in s
    else
      var a := args[|args| - 1];
      var before := IsLive(s, d, key, args[..|args| - 1], m, sc);
      if a.member != m then before
      else sc == a.score || (before && Lookup(s, MemberKey(d, key, m)) != Some(IntVal(sc)))
  }

  /** What the batch of one argument, computed from `s`, does to a store `t`. */
  lemma SetItemEffect(s: Store, t: Store, d: nat, key: bytes, p: Pair, k: Key)
    requires ValidStore(s)
    ensures var ek, sk := MemberKey(d, key, p.member), ScoreKey(d, key, p.score, p.member);
            Lookup(Apply(t, SetItemOps(s, d, key, p)), k) ==
            if k == ek then Some(IntVal(p.score))
            else if k == sk then Some(BytesVal([]))
            else if ek in s && k == ScoreKey(d, key, GetInt(s, ek), p.member) then None
            else Lookup(t, k)
  {
    var ek, sk := MemberKey(d, key, p.member), ScoreKey(d, key, p.score, p.member);
    var put1, put2: Op<Key, Val> := Put(ek, IntVal(p.score)), Put(sk, BytesVal([]));
    var del: Op<Key, Val> := Delete(ScoreKey(d, key, GetInt(s, ek), p.member));
    if ek in s {
      ApplyFew(t, del, put1, put2);
      assert SetItemOps(s, d, key, p) == [del, put1, put2];
    } else {
      ApplyFew(t, put1, put2, put2);
      assert SetItemOps(s, d, key, p) == [put1, put2];
    }
  }

  /** The whole effect of the argument loop, whatever the arguments. */
  lemma {:induction false} AddEffect(s: Store, d: nat, key: bytes, args: seq<Pair>, k: Key)
    requires ValidStore(s)
    ensures var t := Apply(s, AddOps(s, d, key, args));
            if k.db == d && k.kind.Item? && k.kind.coll == ZSetColl && k.kind.key == key then
              Lookup(t, k) == match LastScore(args,
                  k.kind.member) case Some(sc) => Some(IntVal(sc)) case None => Lookup(s, k)
            else if k.db == d && k.kind.ZScore? && k.kind.key == key then
              && (k in t <==> IsLive(s, d, key, args, k.kind.member, k.kind.score))
              && (k in t ==> t[k] == BytesVal([]) || Lookup(t, k) == Lookup(s, k))
            else Lookup(t, k) == Lookup(s, k)
  {
    if args != [] {
      var n := |args| - 1;
      AddEffect(s, d, key, args[..n], k);
      var front := AddOps(s, d, key, args[..n]);
      ApplyAppend(s, front, SetItemOps(s, d, key, args[n]));
      SetItemEffect(s, Apply(s, front), d, key, args[n], k);
    }
  }

  /** In closed form: the last score lives, and so does every other argument score but the old one. */
  lemma {:induction false} LiveScores(s: Store, d: nat, key: bytes, args: seq<Pair>, m: bytes, sc: int)
    requires IndexOK(s, d, key)
    ensures IsLive(s, d, key, args, m, sc) <==>
            if LastScore(args, m).None? then Lookup(s, MemberKey(d, key, m)) == Some(IntVal(sc))
            else LastScore(args, m) == Some(sc) ||
                 (Pair(sc, m) in args && Lookup(s, MemberKey(d, key, m)) != Some(IntVal(sc)))
  {
    if args == [] {
      assert ScoreKey(d, key, sc, m) in s <==> Lookup(s, MemberKey(d, key, m)) == Some(IntVal(sc));
    } else {
      var n := |args| - 1;
      LiveScores(s, d, key, args[..n], m, sc);
      assert Pair(sc, m) in args <==> Pair(sc, m) in args[..n] || args[n] == Pair(sc, m);
      if LastScore(args[..n], m).Some? { LastScoreOccurs(args[..n], m); }
      if Pair(sc, m) in args[..n] { OccursLast(args[..n], m, sc); }
    }
  }

  lemma {:induction false} LastScoreOccurs(args: seq<Pair>, m: bytes)
    requires LastScore(args, m).Some?
    ensures Pair(LastScore(args, m).value, m) in args
  {
    var n := |args| - 1;
    if args[n].member != m {
      LastScoreOccurs(args[..n], m);
    }
  }

  lemma {:induction false} OccursLast(args: seq<Pair>, m: bytes, sc: int)
    requires Pair(sc, m) in args
    ensures LastScore(args, m).Some?
  {
    var n := |args| - 1;
    if args[n].member != m {
      assert Pair(sc, m) in args[..n];
      OccursLast(args[..n], m, sc);
    }
  }

  /** The store after a successful ZAdd. */
  function Added(s: Store, d: nat, key: bytes, args: seq<Pair>): (u: Store) {
    Apply(s, AddOps(s, d, key, args) + IncrSizeOps(s, d, ZSetColl, key, CountNew(s, d, key, args)))
  }

  /** Each argument carries its member's last score or the score the member already had. */
  predicate ScoresAgree(s: Store, d: nat, key: bytes, args: seq<Pair>) {
    forall i :: 0 <= i < |args| ==>
      LastScore(args, args[i].member) == Some(args[i].score) ||
      Lookup(s, MemberKey(d, key, args[i].member)) == Some(IntVal(args[i].score))
  }

  /** No member that is new to the set is given twice. */
  predicate NewOnce(s: Store, d: nat, key: bytes, args: seq<Pair>) {
    NoRepeat(MembersOf(args), m => MemberKey(d, key, m) !in s)
  }

  predicate ValidScore(sc: int) { MIN_SCORE < sc < MAX_SCORE }

  lemma SizePositive(s: Store, d: nat, key: bytes, args: seq<Pair>)
    requires SizeOK(s, d, ZSetColl, key) && args != []
    ensures GetInt(s, CountKey(d, key)) + CountNew(s, d, key, args) > 0
  {
    var ms, p := MembersOf(args), (m: bytes) => MemberKey(d, key, m) !in s;
    var m := ms[|ms| - 1];
    if MemberKey(d, key, m) in s {
      assert m in Members(s, d, ZSetColl, key);
    } else {
      assert p(m) && Count(ms, p) > 0;
    }
  }

  /** Record by record, what a ZAdd leaves. */
  lemma AddedAt(s: Store, d: nat, key: bytes, args: seq<Pair>, k: Key)
    requires ValidStore(s) && SizeOK(s, d, ZSetColl, key) && args != []
    ensures var u := Added(s, d, key, args);
            if k == CountKey(d, key) then
              Lookup(u, k) == Some(IntVal(GetInt(s, CountKey(d, key)) + CountNew(s, d, key, args)))
            else Lookup(u, k) == Lookup(Apply(s, AddOps(s, d, key, args)), k)
  {
    hide SizeOK, AddOps, CountNew, Apply;
    SizePositive(s, d, key, args);
    var n := CountNew(s, d, key, args);
    ApplyAppend(s, AddOps(s, d, key, args), IncrSizeOps(s, d, ZSetColl, key, n));
    IncrSizeEffect(s, Apply(s, AddOps(s, d, key, args)), d, ZSetColl, key, n, k);
  }

  /** ZAdd touches the records of its own set only; an expiry of the set stays. */
  lemma AddFrame(s: Store, d: nat, key: bytes, args: seq<Pair>, k: Key)
    requires ValidStore(s) && SizeOK(s, d, ZSetColl, key) && args != [] && !IsRecordOf(d, key, k)
    ensures Lookup(Added(s, d, key, args), k) == Lookup(s, k)
  {
    hide SizeOK, AddOps, Added, Apply;
    AddedAt(s, d, key, args, k);
    AddEffect(s, d, key, args, k);
  }

  /** Afterwards every member given has its last score, and the others are as before. */
  lemma AddView(s: Store, d: nat, key: bytes, args: seq<Pair>, m: bytes)
    requires ValidStore(s) && SizeOK(s, d, ZSetColl, key) && args != []
    ensures Lookup(Added(s, d, key, args), MemberKey(d, key, m)) ==
            match LastScore(args, m) case Some(sc) => Some(IntVal(sc)) case None => Lookup(s, MemberKey(d, key, m))
  {
    hide SizeOK, AddOps, Added, Apply;
    AddedAt(s, d, key, args, MemberKey(d, key, m));
    AddEffect(s, d, key, args, MemberKey(d, key, m));
  }

  lemma AddScoreKey(s: Store, d: nat, key: bytes, args: seq<Pair>, m: bytes, sc: int)
    requires ValidStore(s) && ZOK(s, d, key) && args != []
    ensures ScoreKey(d, key, sc, m) in Added(s, d, key, args) <==>
            if LastScore(args, m).None? then Lookup(s, MemberKey(d, key, m)) == Some(IntVal(sc))
            else LastScore(args, m) == Some(sc) ||
                 (Pair(sc, m) in args && Lookup(s, MemberKey(d, key, m)) != Some(IntVal(sc)))
  {
    hide SizeOK, AddOps, Added, Apply, IsLive, ScoresOK;
    var k := ScoreKey(d, key, sc, m);
    AddedAt(s, d, key, args, k);
    AddEffect(s, d, key, args, k);
    LiveScores(s, d, key, args, m, sc);
    assert k in Added(s, d, key, args) <==> Lookup(Added(s, d, key, args), k).Some?;
    assert k in Apply(s, AddOps(s, d, key, args)) <==> Lookup(Apply(s, AddOps(s, d, key, args)), k).Some?;
  }

  lemma AddIndexIff(s: Store, d: nat, key: bytes, args: seq<Pair>)
    requires ValidStore(s) && ZOK(s, d, key) && args != []
    ensures IndexOK(Added(s, d, key, args), d, key) <==> ScoresAgree(s, d, key, args)
  {
    hide SizeOK, AddOps, Added, Apply, IsLive, ScoresOK, ValidStore, LastScore;
    var u := Added(s, d, key, args);
    if ScoresAgree(s, d, key, args) {
      forall sc: int, m: bytes
        ensures ScoreKey(d, key, sc, m) in u <==> Lookup(u, MemberKey(d, key, m)) == Some(IntVal(sc))
      {
        AddScoreKey(s, d, key, args, m, sc);
        AddView(s, d, key, args, m);
        if Pair(sc, m) in args {
          var i :| 0 <= i < |args| && args[i] == Pair(sc, m);
        }
      }
    }
    if IndexOK(u, d, key) {
      forall i | 0 <= i < |args|
        ensures LastScore(args, args[i].member) == Some(args[i].score) ||
                Lookup(s, MemberKey(d, key, args[i].member)) == Some(IntVal(args[i].score))
      {
        var p := args[i];
        OccursLast(args, p.member, p.score);
        AddScoreKey(s, d, key, args, p.member, p.score);
        AddView(s, d, key, args, p.member);
        assert Pair(p.score, p.member) == p;
        assert ScoreKey(d, key, p.score, p.member) in u <==>
            Lookup(u, MemberKey(d, key, p.member)) == Some(IntVal(p.score));
      }
    }
  }

  lemma AddedMembers(s: Store, d: nat, key: bytes, args: seq<Pair>)
    requires ValidStore(s) && SizeOK(s, d, ZSetColl, key) && args != []
    ensures Members(Added(s, d, key, args), d, ZSetColl, key) ==
            Members(s, d, ZSetColl, key) + Distinct(MembersOf(args), m => MemberKey(d, key, m) !in s)
  {
    hide SizeOK, AddOps, Added, Apply, LastScore, ValidStore;
    var u := Added(s, d, key, args);
    forall m ensures m in Members(u, d, ZSetColl, key) <==>
                     m in Members(s, d, ZSetColl, key) || (m in MembersOf(args) && MemberKey(d, key, m) !in s)
    {
      AddView(s, d, key, args, m);
      if m in MembersOf(args) {
        var i :| 0 <= i < |args| && args[i].member == m;
        assert Pair(args[i].score, m) == args[i];
        OccursLast(args, m, args[i].score);
      }
      if LastScore(args, m).Some? {
        LastScoreOccurs(args, m);
        var i :| 0 <= i < |args| && args[i] == Pair(LastScore(args, m).value, m);
        assert MembersOf(args)[i] == m;
      }
      assert MemberKey(d, key, m) in u <==> Lookup(u, MemberKey(d, key, m)).Some?;
    }
  }

  lemma AddSizeIff(s: Store, d: nat, key: bytes, args: seq<Pair>)
    requires ValidStore(s) && SizeOK(s, d, ZSetColl, key) && args != []
    ensures SizeOK(Added(s, d, key, args), d, ZSetColl, key) <==> NewOnce(s, d, key, args)
  {
    hide AddOps, Added, Apply, Count, ValidStore, NoRepeat;
    var u, p := Added(s, d, key, args), (m: bytes) => MemberKey(d, key, m) !in s;
    AddedAt(s, d, key, args, CountKey(d, key));
    AddedMembers(s, d, key, args);
    CountIsDistinct(MembersOf(args), p);
    var olds, news := Members(s, d, ZSetColl, key), Distinct(MembersOf(args), p);
    assert olds !! news;
    assert |olds + news| == |olds| + |news|;
    assert Lookup(u, CountKey(d, key)).Some?;
  }

  lemma AddScoresOK(s: Store, d: nat, key: bytes, args: seq<Pair>)
    requires ValidStore(s) && ZOK(s, d, key) && args != []
    requires forall i :: 0 <= i < |args| ==> ValidScore(args[i].score)
    ensures ScoresOK(Added(s, d, key, args), d, key)
  {
    hide SizeOK, AddOps, Added, Apply, LastScore, ValidStore, IndexOK;
    forall m | MemberKey(d, key, m) in Added(s, d, key, args)
      ensures ValidScore(GetInt(Added(s, d, key, args), MemberKey(d, key, m)))
    {
      AddView(s, d, key, args, m);
      if LastScore(args, m).Some? { LastScoreOccurs(args, m); }
    }
  }

  /** The names a call may carry: what checkZSetKMSize lets through. */
  predicate NamesOK(d: nat, key: bytes) {
    d <= MAX_DATABASES && 0 < |key| <= MAX_KEY_SIZE
  }

  lemma AddedValid(s: Store, d: nat, key: bytes, args: seq<Pair>)
    requires ValidStore(s) && SizeOK(s, d, ZSetColl, key) && args != [] && NamesOK(d, key)
    requires forall i :: 0 <= i < |args| ==> ValidScore(args[i].score)
    ensures ValidStore(Added(s, d, key, args))
  {
    hide SizeOK, AddOps, Added, Apply, LastScore, IsLive;
    var u := Added(s, d, key, args);
    forall k | k in u ensures ValidRecord(k, u[k]) {
      AddedAt(s, d, key, args, k);
      AddEffect(s, d, key, args, k);
      assert Lookup(u, k) == Some(u[k]);
      if k.kind.Item? && LastScore(args, k.kind.member).Some? { LastScoreOccurs(args, k.kind.member); }
      if k.kind.ZScore? && k !in s { LiveIsArg(s, d, key, args, k.kind.member, k.kind.score); }
    }
  }

  lemma {:induction false} LiveIsArg(s: Store, d: nat, key: bytes, args: seq<Pair>, m: bytes, sc: int)
    ensures IsLive(s, d, key, args, m, sc) ==> ScoreKey(d, key, sc, m) in s || Pair(sc, m) in args
  {
    if args != [] {
      LiveIsArg(s, d, key, args[..|args| - 1], m, sc);
      assert args[|args| - 1] in args && forall p :: p in args[..|args| - 1] ==> p in args;
    }
  }

  /** The invariant of one sorted set depends on its own records only. */
  lemma FrameZOK(s: Store, u: Store, d: nat, key: bytes)
    requires forall k: Key :: IsRecordOf(d, key, k) ==> Lookup(u, k) == Lookup(s, k)
    ensures ZOK(u, d, key) <==> ZOK(s, d, key)
    ensures View(u, d, key) == View(s, d, key)
  {
    hide IndexOK, ScoresOK, SizeOK, View;
    FrameIndex(s, u, d, key);
    FrameMembers(s, u, d, key);
    FrameScores(s, u, d, key);
  }

  lemma FrameIndex(s: Store, u: Store, d: nat, key: bytes)
    requires forall k: Key :: IsRecordOf(d, key, k) ==> Lookup(u, k) == Lookup(s, k)
    ensures IndexOK(u, d, key) <==> IndexOK(s, d, key)
  {
    forall sc: int, m: bytes
      ensures ScoreKey(d, key, sc, m) in u <==> ScoreKey(d, key, sc, m) in s
      ensures Lookup(u, MemberKey(d, key, m)) == Lookup(s, MemberKey(d, key, m))
    {
      assert IsRecordOf(d, key, ScoreKey(d, key, sc, m)) && IsRecordOf(d, key, MemberKey(d, key, m));
    }
  }

  lemma FrameMembers(s: Store, u: Store, d: nat, key: bytes)
    requires forall k: Key :: IsRecordOf(d, key, k) ==> Lookup(u, k) == Lookup(s, k)
    ensures SizeOK(u, d, ZSetColl, key) <==> SizeOK(s, d, ZSetColl, key)
    ensures View(u, d, key) == View(s, d, key)
  {
    assert IsRecordOf(d, key, CountKey(d, key));
    forall m: bytes
      ensures m in Members(u, d, ZSetColl, key) <==> m in Members(s, d, ZSetColl, key)
      ensures GetInt(u, MemberKey(d, key, m)) == GetInt(s, MemberKey(d, key, m))
    {
      assert IsRecordOf(d, key, MemberKey(d, key, m));
    }
    assert Members(u, d, ZSetColl, key) == Members(s, d, ZSetColl, key);
  }

  lemma FrameScores(s: Store, u: Store, d: nat, key: bytes)
    requires forall k: Key :: IsRecordOf(d, key, k) ==> Lookup(u, k) == Lookup(s, k)
    ensures ScoresOK(u, d, key) <==> ScoresOK(s, d, key)
  {
    forall m: bytes
      ensures MemberKey(d, key, m) in u <==> MemberKey(d, key, m) in s
      ensures GetInt(u, MemberKey(d, key, m)) == GetInt(s, MemberKey(d, key, m))
    {
      assert IsRecordOf(d, key, MemberKey(d, key, m));
    }
  }

  /**
   ZAdd keeps the two indexes and the size of every sorted set in agreement if and only if no new
   member is given twice and every score given for a member is its last one or its old one.
   */
  lemma ZAddKeepsIff(s: Store, d: nat, key: bytes, args: seq<Pair>)
    requires ZInv(s, d) && args != [] && NamesOK(d, key)
    requires forall i :: 0 <= i < |args| ==> ValidScore(args[i].score)
    ensures ZInv(Added(s, d, key, args), d) <==> NewOnce(s, d, key, args) && ScoresAgree(s, d, key, args)
  {
    hide SizeOK, Added, ValidStore, IndexOK, ScoresOK, NewOnce, ScoresAgree;
    var u := Added(s, d, key, args);
    assert ZOK(s, d, key);
    AddedValid(s, d, key, args);
    AddIndexIff(s, d, key, args);
    AddScoresOK(s, d, key, args);
    AddSizeIff(s, d, key, args);
    assert ZOK(u, d, key) <==> NewOnce(s, d, key, args) && ScoresAgree(s, d, key, args);
    forall other: bytes | other != key ensures ZOK(u, d, other) {
      assert ZOK(s, d, other);
      forall k: Key | IsRecordOf(d, other, k) ensures Lookup(u, k) == Lookup(s, k) {
        AddFrame(s, d, key, args, k);
      }
      FrameZOK(s, u, d, other);
    }
  }

  /** Distinct members are always safe. */
  lemma DistinctMembersAreSafe(s: Store, d: nat, key: bytes, args: seq<Pair>)
    requires forall i, j :: 0 <= i < j < |args| ==> args[i].member != args[j].member
    ensures NewOnce(s, d, key, args) && ScoresAgree(s, d, key, args)
  {
    forall i | 0 <= i < |args| ensures LastScore(args, args[i].member) == Some(args[i].score) {
      LastIsOnly(args, i);
    }
  }

  lemma {:induction false} LastIsOnly(args: seq<Pair>, i: int)
    requires 0 <= i < |args| && forall j :: i < j < |args| ==> args[j].member != args[i].member
    ensures LastScore(args, args[i].member) == Some(args[i].score)
  {
    if i < |args| - 1 {
      LastIsOnly(args[..|args| - 1], i);
    }
  }

  /** Adding one new member twice in a call leaves the size record wrong. */
  lemma RepeatedMemberBreaksSize(d: nat, key: bytes)
    requires NamesOK(d, key)
    ensures ZInv(map[], d) && !ZInv(Added(map[], d, key, [Pair(1, [97]), Pair(1, [97])]), d)
  {
    var args := [Pair(1, [97]), Pair(1, [97])];
    assert ZInv(map[], d);
    ZAddKeepsIff(map[], d, key, args);
    assert MembersOf(args)[0] == MembersOf(args)[1];
  }

  // ---------------------------------------------------------------- ZRem

  /** zDelItem: nothing for a member that is not stored. */
  function DelItemOps(s: Store, d: nat, key: bytes, m: bytes): (ops: Ops) {
    var ek := MemberKey(d, key, m);
    if ek in s then [Delete(ScoreKey(d, key, GetInt(s, ek), m)), Delete(ek)] else []
  }

  function RemOps(s: Store, d: nat, key: bytes, ms: seq<bytes>): (ops: Ops) {
    if ms == [] then [] else RemOps(s, d, key, ms[..|ms| - 1]) + DelItemOps(s, d, key, ms[|ms| - 1])
  }

  function CountStored(s: Store, d: nat, key: bytes, ms: seq<bytes>): (n: nat) {
    Count(ms, m => MemberKey(d, key, m) in s)
  }

  /** The store after a successful ZRem. */
  function Removed(s: Store, d: nat, key: bytes, ms: seq<bytes>): (u: Store) {
    Apply(s, RemOps(s, d, key, ms) + IncrSizeOps(s, d, ZSetColl, key, 0 - CountStored(s, d, key, ms)))
  }

  lemma {:induction false} RemEffect(s: Store, d: nat, key: bytes, ms: seq<bytes>, k: Key)
    requires ValidStore(s)
    ensures var t := Apply(s, RemOps(s, d, key, ms));
            Lookup(t, k) ==
            if k.db == d && k.kind.Item? && k.kind.coll == ZSetColl && k.kind.key == key &&
                k.kind.member in ms then None
            else if k.db == d && k.kind.ZScore? && k.kind.key == key && k.kind.member in ms &&
                    Lookup(s, MemberKey(d, key, k.kind.member)) == Some(IntVal(k.kind.score)) then None
            else Lookup(s, k)
  {
    if ms != [] {
      var n := |ms| - 1;
      var m, front := ms[n], RemOps(s, d, key, ms[..n]);
      RemEffect(s, d, key, ms[..n], k);
      ApplyAppend(s, front, DelItemOps(s, d, key, m));
      var ek := MemberKey(d, key, m);
      var a, b: Op<Key, Val> := Delete(ScoreKey(d, key, GetInt(s, ek), m)), Delete(ek);
      ApplyFew(Apply(s, front), a, b, b);
      assert forall x :: x in ms <==> x in ms[..n] || x == m;
    }
  }

  lemma RemovedAt(s: Store, d: nat, key: bytes, ms: seq<bytes>, k: Key)
    requires ValidStore(s)
    ensures var size, mk := GetInt(s, CountKey(d, key)) - CountStored(s, d, key, ms), ExpMetaKey(d, ZSET_TYPE, key);
            Lookup(Removed(s, d, key, ms), k) ==
            if k == CountKey(d, key) then (if size <= 0 then None else Some(IntVal(size)))
            else if size <= 0 && mk in s && (k == mk || k == ExpTimeKey(d, GetInt(s, mk), ZSET_TYPE, key)) then None
            else Lookup(Apply(s, RemOps(s, d, key, ms)), k)
  {
    hide RemOps, CountStored, Apply;
    var delta: int := 0 - CountStored(s, d, key, ms);
    ApplyAppend(s, RemOps(s, d, key, ms), IncrSizeOps(s, d, ZSetColl, key, delta));
    IncrSizeEffect(s, Apply(s, RemOps(s, d, key, ms)), d, ZSetColl, key, delta, k);
  }

  /** ZRem touches its own set and, when the size record reaches zero, the set's expiry. */
  lemma RemFrame(s: Store, d: nat, key: bytes, ms: seq<bytes>, k: Key)
    requires ValidStore(s) && !IsRecordOf(d, key, k)
    requires IsExpiryOf(d, ZSET_TYPE, key, k) ==> GetInt(s, CountKey(d, key)) > CountStored(s, d, key, ms)
    ensures Lookup(Removed(s, d, key, ms), k) == Lookup(s, k)
  {
    hide RemOps, Removed, CountStored, Apply;
    RemovedAt(s, d, key, ms, k);
    RemEffect(s, d, key, ms, k);
  }

  lemma RemView(s: Store, d: nat, key: bytes, ms: seq<bytes>, m: bytes)
    requires ValidStore(s)
    ensures Lookup(Removed(s, d, key, ms), MemberKey(d, key, m)) ==
            if m in ms then None else Lookup(s, MemberKey(d, key, m))
  {
    hide RemOps, Removed, CountStored, Apply;
    RemovedAt(s, d, key, ms, MemberKey(d, key, m));
    RemEffect(s, d, key, ms, MemberKey(d, key, m));
  }

  /** Whatever the arguments, ZRem keeps the two indexes in step. */
  lemma RemIndex(s: Store, d: nat, key: bytes, ms: seq<bytes>)
    requires ValidStore(s) && IndexOK(s, d, key) && ScoresOK(s, d, key)
    ensures IndexOK(Removed(s, d, key, ms), d, key) && ScoresOK(Removed(s, d, key, ms), d, key)
  {
    hide RemOps, Removed, CountStored, Apply, ValidStore;
    var u := Removed(s, d, key, ms);
    forall m: bytes, sc: int
      ensures ScoreKey(d, key, sc, m) in u <==> Lookup(u, MemberKey(d, key, m)) == Some(IntVal(sc))
    {
      var k := ScoreKey(d, key, sc, m);
      RemovedAt(s, d, key, ms, k);
      RemEffect(s, d, key, ms, k);
      RemView(s, d, key, ms, m);
      assert k in u <==> Lookup(u, k).Some?;
      assert k in s <==> Lookup(s, MemberKey(d, key, m)) == Some(IntVal(sc));
    }
    forall m: bytes | MemberKey(d, key, m) in u ensures ValidScore(GetInt(u, MemberKey(d, key, m))) {
      RemView(s, d, key, ms, m);
      assert Lookup(u, MemberKey(d, key, m)).Some?;
      assert MemberKey(d, key, m) in s;
    }
  }

  lemma RemovedMembers(s: Store, d: nat, key: bytes, ms: seq<bytes>)
    requires ValidStore(s)
    ensures var gone := Distinct(ms, m => MemberKey(d, key, m) in s);
            && gone <= Members(s, d, ZSetColl, key)
            && Members(Removed(s, d, key, ms), d, ZSetColl, key) == Members(s, d, ZSetColl, key) - gone
  {
    hide RemOps, Removed, CountStored, Apply, ValidStore;
    var u := Removed(s, d, key, ms);
    forall m ensures m in Members(u, d, ZSetColl, key) <==> m in Members(s, d, ZSetColl, key) && m !in ms {
      RemView(s, d, key, ms, m);
      assert MemberKey(d, key, m) in u <==> Lookup(u, MemberKey(d, key, m)).Some?;
    }
  }

  /** No stored member is named twice. */
  predicate StoredOnce(s: Store, d: nat, key: bytes, ms: seq<bytes>) {
    NoRepeat(ms, m => MemberKey(d, key, m) in s)
  }

  /** Every member of the set is named. */
  ghost predicate NamesAll(s: Store, d: nat, key: bytes, ms: seq<bytes>) {
    forall m :: m in Members(s, d, ZSetColl, key) ==> m in ms
  }

  lemma RemSizeIff(s: Store, d: nat, key: bytes, ms: seq<bytes>)
    requires ValidStore(s) && SizeOK(s, d, ZSetColl, key)
    ensures SizeOK(Removed(s, d, key, ms), d, ZSetColl, key) <==>
            StoredOnce(s, d, key, ms) || NamesAll(s, d, key, ms)
  {
    hide RemOps, Removed, Apply, Count, ValidStore, NoRepeat;
    var p := (m: bytes) => MemberKey(d, key, m) in s;
    RemovedAt(s, d, key, ms, CountKey(d, key));
    RemovedMembers(s, d, key, ms);
    CountIsDistinct(ms, p);
    var all, gone := Members(s, d, ZSetColl, key), Distinct(ms, p);
    SubsetSize(gone, all);
    assert |all - gone| == |all| - |gone|;
    assert all <= gone <==> NamesAll(s, d, key, ms);
    var u := Removed(s, d, key, ms);
    assert GetInt(u, CountKey(d, key)) == var n := |all| - Count(ms, p); if n <= 0 then 0 else n;
  }

  lemma RemovedValid(s: Store, d: nat, key: bytes, ms: seq<bytes>)
    requires ValidStore(s) && d <= MAX_DATABASES
    ensures ValidStore(Removed(s, d, key, ms))
  {
    hide RemOps, Removed, CountStored, Apply;
    var u := Removed(s, d, key, ms);
    forall k | k in u ensures ValidRecord(k, u[k]) {
      RemovedAt(s, d, key, ms, k);
      RemEffect(s, d, key, ms, k);
      assert Lookup(u, k) == Some(u[k]);
    }
  }

  /**
   ZRem keeps every sorted set in agreement if and only if no stored member is named twice or the
   call names all of them.
   */
  lemma ZRemKeepsIff(s: Store, d: nat, key: bytes, ms: seq<bytes>)
    requires ZInv(s, d) && d <= MAX_DATABASES
    ensures ZInv(Removed(s, d, key, ms), d) <==> StoredOnce(s, d, key, ms) || NamesAll(s, d, key, ms)
  {
    hide SizeOK, Removed, ValidStore, IndexOK, ScoresOK, StoredOnce, NamesAll;
    var u := Removed(s, d, key, ms);
    assert ZOK(s, d, key);
    RemovedValid(s, d, key, ms);
    RemIndex(s, d, key, ms);
    RemSizeIff(s, d, key, ms);
    assert ZOK(u, d, key) <==> StoredOnce(s, d, key, ms) || NamesAll(s, d, key, ms);
    forall other: bytes | other != key ensures ZOK(u, d, other) {
      assert ZOK(s, d, other);
      forall k: Key | IsRecordOf(d, other, k) ensures Lookup(u, k) == Lookup(s, k) {
        RemFrame(s, d, key, ms, k);
      }
      FrameZOK(s, u, d, other);
    }
  }

  // ---------------------------------------------------------------- ZIncrBy

  /** The new score of ZIncrBy, in wrapping arithmetic; a missing member counts from zero. */
  function NewScore(s: Store, d: nat, key: bytes, delta: int, m: bytes): (sc: int) {
    Wrap64(GetInt(s, MemberKey(d, key, m)) + delta)
  }

  /** The new score key is put first and the old one deleted last. */
  function IncrByOps(s: Store, d: nat, key: bytes, delta: int, m: bytes): (ops: Ops) {
    var ek, sc := MemberKey(d, key, m), NewScore(s, d, key, delta, m);
    (if ek in s then [] else IncrSizeOps(s, d, ZSetColl, key, 1)) +
    [Put(ScoreKey(d, key, sc, m), BytesVal([])), Put(ek, IntVal(sc))] +
    (if ek in s then [Delete(ScoreKey(d, key, GetInt(s, ek), m))] else [])
  }

  function Incremented(s: Store, d: nat, key: bytes, delta: int, m: bytes): (u: Store) {
    Apply(s, IncrByOps(s, d, key, delta, m))
  }

  lemma IncrementedOld(s: Store, d: nat, key: bytes, delta: int, m: bytes, k: Key)
    requires MemberKey(d, key, m) in s
    ensures var ek, sc := MemberKey(d, key, m), NewScore(s, d, key, delta, m);
            Lookup(Incremented(s, d, key, delta, m), k) ==
            if k == ScoreKey(d, key, GetInt(s, ek), m) then None
            else if k == ek then Some(IntVal(sc))
            else if k == ScoreKey(d, key, sc, m) then Some(BytesVal([]))
            else Lookup(s, k)
  {
    var ek, sc := MemberKey(d, key, m), NewScore(s, d, key, delta, m);
    var a, b: Op<Key, Val> := Put(ScoreKey(d, key, sc, m), BytesVal([])), Put(ek, IntVal(sc));
    var c: Op<Key, Val> := Delete(ScoreKey(d, key, GetInt(s, ek), m));
    assert IncrByOps(s, d, key, delta, m) == [a, b, c];
    ApplyFew(s, a, b, c);
  }

  lemma IncrementedNew(s: Store, d: nat, key: bytes, delta: int, m: bytes, k: Key)
    requires MemberKey(d, key, m) !in s && GetInt(s, CountKey(d, key)) >= 0
    ensures var ek, sc := MemberKey(d, key, m), NewScore(s, d, key, delta, m);
            Lookup(Incremented(s, d, key, delta, m), k) ==
            if k == ek then Some(IntVal(sc))
            else if k == ScoreKey(d, key, sc, m) then Some(BytesVal([]))
            else if k == CountKey(d, key) then Some(IntVal(GetInt(s, CountKey(d, key)) + 1))
            else Lookup(s, k)
  {
    var ek, sc := MemberKey(d, key, m), NewScore(s, d, key, delta, m);
    var size: Op<Key, Val> := Put(CountKey(d, key), IntVal(GetInt(s, CountKey(d, key)) + 1));
    var a, b: Op<Key, Val> := Put(ScoreKey(d, key, sc, m), BytesVal([])), Put(ek, IntVal(sc));
    assert IncrByOps(s, d, key, delta, m) == [size, a, b];
    ApplyFew(s, size, a, b);
  }

  /** Away from a zero increment of a stored member, ZIncrBy is ZAdd of the new score. */
  lemma IncrByIsAdd(s: Store, d: nat, key: bytes, delta: int, m: bytes)
    requires ZInv(s, d) && IsInt64(delta) && (MemberKey(d, key, m) in s ==> delta != 0)
    ensures Incremented(s, d, key, delta, m) == Added(s, d, key, [Pair(NewScore(s, d, key, delta, m), m)])
  {
    assert ZOK(s, d, key);
    var args := [Pair(NewScore(s, d, key, delta, m), m)];
    var ek := MemberKey(d, key, m);
    SingleArg(s, d, key, args[0]);
    forall k: Key ensures Lookup(Incremented(s, d, key, delta, m), k) == Lookup(Added(s, d, key, args), k) {
      IncrByAt(s, d, key, delta, m, k);
    }
    SameLookups(Incremented(s, d, key, delta, m), Added(s, d, key, args));
  }

  lemma SingleArg(s: Store, d: nat, key: bytes, p: Pair)
    ensures AddOps(s, d, key, [p]) == SetItemOps(s, d, key, p)
    ensures CountNew(s, d, key, [p]) == if MemberKey(d, key, p.member) in s then 0 else 1
  {
    assert [p][..0] == [] && AddOps(s, d, key, []) == [];
    var q := (m: bytes) => MemberKey(d, key, m) !in s;
    assert MembersOf([p]) == [p.member] && [p.member][..0] == [];
    assert Count([], q) == 0 && Count([p.member], q) == if q(p.member) then 1 else 0;
  }

  lemma IncrByAt(s: Store, d: nat, key: bytes, delta: int, m: bytes, k: Key)
    requires ValidStore(s) && ZOK(s, d, key) && IsInt64(delta) && (MemberKey(d, key, m) in s ==> delta != 0)
    ensures Lookup(Incremented(s, d, key, delta, m), k) ==
            Lookup(Added(s, d, key, [Pair(NewScore(s, d, key, delta, m), m)]), k)
  {
    hide Apply, AddOps, CountNew, Incremented, Added, IndexOK, SetItemOps;
    var ek, p := MemberKey(d, key, m), Pair(NewScore(s, d, key, delta, m), m);
    SingleArg(s, d, key, p);
    AddedAt(s, d, key, [p], k);
    SetItemEffect(s, s, d, key, p, k);
    if ek in s {
      IncrementedOld(s, d, key, delta, m, k);
      assert m in Members(s, d, ZSetColl, key);
      assert GetInt(s, ek) != p.score;
    } else {
      IncrementedNew(s, d, key, delta, m, k);
    }
  }

  /** ZIncrBy keeps every sorted set in agreement if and only if it does not add zero to a stored member. */
  lemma ZIncrByKeepsIff(s: Store, d: nat, key: bytes, delta: int, m: bytes)
    requires ZInv(s, d) && NamesOK(d, key) && IsInt64(delta) && ValidScore(NewScore(s, d, key, delta, m))
    ensures ZInv(Incremented(s, d, key, delta, m), d) <==> MemberKey(d, key, m) !in s || delta != 0
  {
    var ek, p := MemberKey(d, key, m), Pair(NewScore(s, d, key, delta, m), m);
    if ek !in s || delta != 0 {
      IncrByIsAdd(s, d, key, delta, m);
      ZAddKeepsIff(s, d, key, [p]);
      DistinctMembersAreSafe(s, d, key, [p]);
    } else {
      var u := Incremented(s, d, key, delta, m);
      var sk := ScoreKey(d, key, GetInt(s, ek), m);
      IncrementedOld(s, d, key, delta, m, sk);
      IncrementedOld(s, d, key, delta, m, ek);
      assert Lookup(u, ek) == Some(IntVal(GetInt(s, ek))) && sk !in u;
      assert ZOK(u, d, key) ==> IndexOK(u, d, key);
      assert IndexOK(u, d, key) ==> sk in u;
    }
  }

  // ---------------------------------------------------------------- calls that break the agreement

  /** A sorted set of "a" and "b", both with score 1. */
  ghost function TwoMembers(d: nat, key: bytes): (s: Store) {
    Added(map[], d, key, [Pair(1, [97]), Pair(1, [98])])
  }

  lemma TwoMembersAre(d: nat, key: bytes, m: bytes)
    requires NamesOK(d, key) && m in [[97], [98]]
    ensures ZInv(TwoMembers(d, key), d) && Lookup(TwoMembers(d, key), MemberKey(d, key, m)) == Some(IntVal(1))
  {
    hide Added, ValidStore;
    var args := [Pair(1, [97]), Pair(1, [98])];
    assert ValidStore(map[]) && ZInv(map[], d) by { NothingStored(d); }
    assert ZOK(map[], d, key);
    assert args[0].member != args[1].member;
    DistinctMembersAreSafe(map[], d, key, args);
    ZAddKeepsIff(map[], d, key, args);
    AddView(map[], d, key, args, m);
    LastIsOnly(args, if m == [97] then 0 else 1);
  }

  lemma NothingStored(d: nat)
    ensures ZInv(map[], d)
  {
    forall key: bytes ensures ZOK(map[], d, key) { assert Members(map[], d, ZSetColl, key) == {}; }
  }

  /** ZADD of a stored member with two new scores leaves it in the index twice. */
  lemma RescoredTwiceBreaksIndex(d: nat, key: bytes)
    requires NamesOK(d, key)
    ensures var s := TwoMembers(d, key);
            ZInv(s, d) && !ZInv(Added(s, d, key, [Pair(2, [97]), Pair(3, [97])]), d)
  {
    hide Added, ZInv, TwoMembers;
    var s, args := TwoMembers(d, key), [Pair(2, [97]), Pair(3, [97])];
    TwoMembersAre(d, key, [97]);
    LastIsOnly(args, 1);
    assert !(LastScore(args, args[0].member) == Some(args[0].score));
    ZAddKeepsIff(s, d, key, args);
  }

  /** ZREM that names one of two members twice counts it twice. */
  lemma RepeatedRemovalBreaksSize(d: nat, key: bytes)
    requires NamesOK(d, key)
    ensures var s := TwoMembers(d, key); ZInv(s, d) && !ZInv(Removed(s, d, key, [[97], [97]]), d)
  {
    hide Removed, ZInv, TwoMembers;
    var s, ms: seq<bytes> := TwoMembers(d, key), [[97], [97]];
    TwoMembersAre(d, key, [97]);
    TwoMembersAre(d, key, [98]);
    assert ms[0] == ms[1] && MemberKey(d, key, ms[0]) in s;
    assert MemberKey(d, key, [98]) in s;
    assert [98] in Members(s, d, ZSetColl, key) && [98] !in ms;
    ZRemKeepsIff(s, d, key, ms);
  }

  /** ZINCRBY by zero takes a stored member out of the index. */
  lemma ZeroIncrementBreaksIndex(d: nat, key: bytes)
    requires NamesOK(d, key)
    ensures var s := TwoMembers(d, key); ZInv(s, d) && !ZInv(Incremented(s, d, key, 0, [97]), d)
  {
    hide Incremented, ZInv, TwoMembers;
    var s := TwoMembers(d, key);
    TwoMembersAre(d, key, [97]);
    assert MemberKey(d, key, [97]) in s && GetInt(s, MemberKey(d, key, [97])) == 1;
    ZIncrByKeepsIff(s, d, key, 0, [97]);
  }
}
