/**
 Write batches: sequences of puts and deletes that are committed as one, logged as one and
 replayed as one. A batch overwrites what it touches and leaves the rest, which is why replaying
 a batch over a store that already holds it changes nothing.
 */
module Batches {

  datatype Option<+T> = None | Some(value: T)

  datatype Op<+K, +V> = Put(key: K, value: V) | Delete(key: K)

  function Lookup<K, V>(s: map<K, V>, k: K): (r: Option<V>) {
    if k in s then Some(s[k]) else None
  }

  function ApplyOp<K, V>(s: map<K, V>, op: Op<K, V>): (r: map<K, V>) {
    match op
    case Put(k, v) => s[k := v]
    case Delete(k) => s - {k}
  }

  function Apply<K, V>(s: map<K, V>, ops: seq<Op<K, V>>): (r: map<K, V>) {
    if ops == [] then s else ApplyOp(Apply(s, ops[..|ops| - 1]), ops[|ops| - 1])
  }

  ghost predicate Touches<K, V>(ops: seq<Op<K, V>>, k: K) {
    exists i :: 0 <= i < |ops| && ops[i].key == k
  }

  lemma {:induction false} ApplyAppend<K, V>(s: map<K, V>, a: seq<Op<K, V>>, b: seq<Op<K, V>>)
    ensures Apply(s, a + b) == Apply(Apply(s, a), b)
  {
    if b == [] {
      assert a + b == a;
    } else {
      ApplyAppend(s, a, b[..|b| - 1]);
      assert (a + b)[..|a + b| - 1] == a + b[..|b| - 1];
    }
  }

  lemma ApplyOne<K, V>(s: map<K, V>, a: seq<Op<K, V>>, op: Op<K, V>)
    ensures Apply(s, a + [op]) == ApplyOp(Apply(s, a), op)
  {
    assert (a + [op])[..|a|] == a;
  }

  /** Short batches, spelled out. */
  lemma ApplyFew<K, V>(s: map<K, V>, a: Op<K, V>, b: Op<K, V>, c: Op<K, V>)
    ensures Apply(s, []) == s
    ensures Apply(s, [a]) == ApplyOp(s, a)
    ensures Apply(s, [a, b]) == ApplyOp(ApplyOp(s, a), b)
    ensures Apply(s, [a, b, c]) == ApplyOp(ApplyOp(ApplyOp(s, a), b), c)
  {
    ApplyOne(s, [], a);
    ApplyOne(s, [a], b);
    ApplyOne(s, [a, b], c);
    assert [] + [a] == [a] && [a] + [b] == [a, b] && [a, b] + [c] == [a, b, c];
  }

  /** A key that a batch does not touch keeps its value. */
  lemma {:induction false} ApplyFrame<K, V>(s: map<K, V>, ops: seq<Op<K, V>>, k: K)
    requires !Touches(ops, k)
    ensures Lookup(Apply(s, ops), k) == Lookup(s, k)
  {
    if ops != [] {
      var n := |ops| - 1;
      assert ops[n].key != k;
      assert forall i :: 0 <= i < n ==> ops[..n][i] == ops[i];
      ApplyFrame(s, ops[..n], k);
    }
  }

  /** What a batch leaves under a key it touches does not depend on what was there. */
  lemma {:induction false} ApplyOverwrites<K, V>(s: map<K, V>, t: map<K, V>, ops: seq<Op<K, V>>, k: K)
    requires Touches(ops, k)
    ensures Lookup(Apply(s, ops), k) == Lookup(Apply(t, ops), k)
  {
    var n := |ops| - 1;
    if ops[n].key != k {
      var i :| 0 <= i < |ops| && ops[i].key == k;
      assert ops[..n][i].key == k;
      ApplyOverwrites(s, t, ops[..n], k);
    }
  }

  lemma SameLookups<K(!new), V>(s: map<K, V>, t: map<K, V>)
    requires forall k :: Lookup(s, k) == Lookup(t, k)
    ensures s == t
  {
    forall k ensures k in s <==> k in t {
      assert Lookup(s, k) == Lookup(t, k);
    }
    forall k | k in s ensures s[k] == t[k] {
      assert Lookup(s, k) == Lookup(t, k);
    }
  }

  /** Two stores that agree wherever a batch does not write become equal under it. */
  lemma ApplyMerges<K(!new), V>(s: map<K, V>, t: map<K, V>, ops: seq<Op<K, V>>)
    requires forall k :: !Touches(ops, k) ==> Lookup(s, k) == Lookup(t, k)
    ensures Apply(s, ops) == Apply(t, ops)
  {
    forall k ensures Lookup(Apply(s, ops), k) == Lookup(Apply(t, ops), k) {
      if Touches(ops, k) {
        ApplyOverwrites(s, t, ops, k);
      } else {
        ApplyFrame(s, ops, k);
        ApplyFrame(t, ops, k);
      }
    }
    SameLookups(Apply(s, ops), Apply(t, ops));
  }

  /** Writes that a later replay repeats in full are forgotten by it, whatever surrounds them. */
  lemma ApplyAbsorbs<K(!new), V>(s: map<K, V>, early: seq<Op<K, V>>, ops: seq<Op<K, V>>)
    requires forall k :: Touches(early, k) ==> Touches(ops, k)
    ensures Apply(Apply(s, early), ops) == Apply(s, ops)
  {
    forall k | !Touches(ops, k) ensures Lookup(Apply(s, early), k) == Lookup(s, k) {
      ApplyFrame(s, early, k);
    }
    ApplyMerges(Apply(s, early), s, ops);
  }

  function DeleteAll<K, V>(ks: seq<K>): (ops: Batch<K, V>) {
    if ks == [] then [] else DeleteAll(ks[..|ks| - 1]) + [Delete(ks[|ks| - 1])]
  }

  lemma {:induction false} DeleteAllEffect<K, V>(s: map<K, V>, ks: seq<K>, k: K)
    ensures Lookup(Apply(s, DeleteAll(ks)), k) == if k in ks then None else Lookup(s, k)
  {
    if ks != [] {
      hide Apply;
      var n := |ks| - 1;
      DeleteAllEffect(s, ks[..n], k);
      var del: Op<K, V> := Delete(ks[n]);
      ApplyOne(s, DeleteAll(ks[..n]), del);
      assert k in ks <==> k in ks[..n] || k == ks[n];
    } else {
      ApplyFew(s, Delete(k), Delete(k), Delete(k));
    }
  }

  lemma DeletePrefix<K, V>(ks: seq<K>, i: nat)
    requires i < |ks|
    ensures DeleteAll<K, V>(ks[..i + 1]) == DeleteAll<K, V>(ks[..i]) + [Delete(ks[i])]
  {
    assert ks[..i + 1][..i] == ks[..i];
  }

  // ---------------------------------------------------------------- logs of batches

  type Batch<K, V> = seq<Op<K, V>>

  /** All batches of a log in one. */
  function Flat<K, V>(bs: seq<Batch<K, V>>): (ops: Batch<K, V>) {
    if bs == [] then [] else Flat(bs[..|bs| - 1]) + bs[|bs| - 1]
  }

  /** The store after committing every batch once, in order. */
  function Replay<K, V>(s: map<K, V>, bs: seq<Batch<K, V>>): (r: map<K, V>) {
    if bs == [] then s else Apply(Replay(s, bs[..|bs| - 1]), bs[|bs| - 1])
  }

  lemma {:induction false} ReplayIsFlat<K, V>(s: map<K, V>, bs: seq<Batch<K, V>>)
    ensures Replay(s, bs) == Apply(s, Flat(bs))
  {
    if bs != [] {
      var n := |bs| - 1;
      ReplayIsFlat(s, bs[..n]);
      ApplyAppend(s, Flat(bs[..n]), bs[n]);
    }
  }

  lemma {:induction false} ReplayAppend<K, V>(s: map<K, V>, a: seq<Batch<K, V>>, b: seq<Batch<K, V>>)
    ensures Replay(s, a + b) == Replay(Replay(s, a), b)
  {
    if b == [] {
      assert a + b == a;
    } else {
      ReplayAppend(s, a, b[..|b| - 1]);
      assert (a + b)[..|a + b| - 1] == a + b[..|b| - 1];
    }
  }

  lemma ReplayOne<K, V>(s: map<K, V>, b: Batch<K, V>)
    ensures Replay(s, [b]) == Apply(s, b)
  {
    assert Replay(s, [b][..0]) == s;
  }

  lemma {:induction false} FlatTouches<K, V>(bs: seq<Batch<K, V>>, i: nat, k: K)
    requires i < |bs| && Touches(bs[i], k)
    ensures Touches(Flat(bs), k)
  {
    var n := |bs| - 1;
    var front := Flat(bs[..n]);
    if i == n {
      var j :| 0 <= j < |bs[n]| && bs[n][j].key == k;
      assert Flat(bs)[|front| + j].key == k;
    } else {
      FlatTouches(bs[..n], i, k);
      var j :| 0 <= j < |front| && front[j].key == k;
      assert Flat(bs)[j].key == k;
    }
  }

  /** A batch committed before a replay that includes it leaves no trace. */
  lemma ReplayAbsorbs<K(!new), V>(s: map<K, V>, bs: seq<Batch<K, V>>, i: nat)
    requires i < |bs|
    ensures Replay(Apply(s, bs[i]), bs) == Replay(s, bs)
  {
    forall k | Touches(bs[i], k) ensures Touches(Flat(bs), k) {
      FlatTouches(bs, i, k);
    }
    ApplyAbsorbs(s, bs[i], Flat(bs));
    ReplayIsFlat(s, bs);
    ReplayIsFlat(Apply(s, bs[i]), bs);
  }

  lemma {:induction false} FlatAppend<K, V>(a: seq<Batch<K, V>>, b: seq<Batch<K, V>>)
    ensures Flat(a + b) == Flat(a) + Flat(b)
  {
    if b == [] {
      assert a + b == a;
    } else {
      FlatAppend(a, b[..|b| - 1]);
      assert (a + b)[..|a + b| - 1] == a + b[..|b| - 1];
    }
  }

  lemma TouchesEnd<K, V>(a: Batch<K, V>, b: Batch<K, V>, k: K)
    ensures Touches(b, k) ==> Touches(a + b, k)
  {
    if i :| 0 <= i < |b| && b[i].key == k {
      assert (a + b)[|a| + i].key == k;
    }
  }

  /** A store that the last batches of a log make right is made right by any longer part of the log, too. */
  lemma ReplayAgain<K(!new), V>(s: map<K, V>, t: map<K, V>, a: seq<Batch<K, V>>, b: seq<Batch<K, V>>)
    requires Replay(s, b) == Replay(t, a + b)
    ensures Replay(s, a + b) == Replay(t, a + b)
  {
    hide Replay, Flat, Apply;
    var ops := Flat(a + b);
    FlatAppend(a, b);
    ReplayIsFlat(s, b);
    ReplayIsFlat(s, a + b);
    ReplayIsFlat(t, a + b);
    forall k | !Touches(ops, k) ensures Lookup(s, k) == Lookup(t, k) {
      TouchesEnd(Flat(a), Flat(b), k);
      ApplyFrame(s, Flat(b), k);
      ApplyFrame(t, ops, k);
    }
    ApplyMerges(s, t, ops);
  }
}
