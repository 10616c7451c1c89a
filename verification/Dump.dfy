/**
 Dump and load (ledis/dump.go): the whole store with its commit id as one stream of length-prefixed,
 compressed keys and values, and the load that clears a node and reads the stream back. Both loops of
 the load commit one growing batch again and again without resetting it.
 */
module Dump {
  import opened Bytes
  import opened Batches
  import opened Ranges
  import opened LogStores
  import opened Node

  const FLUSH_EVERY: nat := 10000
  const LOAD_EVERY: nat := 1024

  datatype Pair = Pair(key: bytes, value: bytes)

  /** Compression, of which only this is known. */
  ghost predicate Inverse(pack: bytes -> bytes, unpack: bytes -> Option<bytes>) {
    forall x: bytes :: unpack(pack(x)) == Some(x)
  }

  // ---------------------------------------------------------------- the stream

  /** One entry; the lengths are cut to 16 and 32 bits. */
  function Entry(p: Pair, pack: bytes -> bytes): (r: bytes) {
    var k, v := pack(p.key), pack(p.value);
    BigEndian(|k|, 2) + k + (BigEndian(|v|, 4) + v)
  }

  function Stream(ps: seq<Pair>, pack: bytes -> bytes): (r: bytes) {
    if ps == [] then [] else Stream(ps[..|ps| - 1], pack) + Entry(ps[|ps| - 1], pack)
  }

  function PairsOf(s: Store, ks: seq<bytes>): (ps: seq<Pair>)
    requires forall k :: k in ks ==> k in s
    ensures |ps| == |ks|
  {
    seq(|ks|, i requires 0 <= i < |ks| => Pair(ks[i], s[ks[i]]))
  }

  /** The store as a list, in key order. */
  ghost function Listing(s: Store): (ps: seq<Pair>) {
    PairsOf(s, SortedKeys(s.Keys))
  }

  /** The compressed lengths of an entry fit the fields. */
  predicate Packs(p: Pair, pack: bytes -> bytes) {
    |pack(p.key)| < 0x1_0000 && |pack(p.value)| < TWO_32
  }

  /** The compressed lengths fit the fields. */
  ghost predicate Fits(s: Store, pack: bytes -> bytes) {
    forall k :: k in s ==> |pack(k)| < 0x1_0000 && |pack(s[k])| < TWO_32
  }

  datatype Parsed = End | Broken | Got(pair: Pair, rest: bytes)

  /** One round of the reading loop. */
  function ReadEntry(b: bytes, unpack: bytes -> Option<bytes>): (r: Parsed)
    ensures r.Got? ==> |r.rest| < |b|
  {
    if b == [] then End
    else if |b| < 2 then Broken
    else
      var n, c := FromBigEndian(b[..2]), b[2..];
      if |c| < n || unpack(c[..n]).None? then Broken
      else
        var e := c[n..];
        if |e| < 4 then Broken
        else
          var m, f := FromBigEndian(e[..4]), e[4..];
          if |f| < m || unpack(f[..m]).None? then Broken
          else Got(Pair(unpack(c[..n]).value, unpack(f[..m]).value), f[m..])
  }

  /** All entries up to the end of the stream, or up to the first that is broken. */
  datatype Reading = Reading(pairs: seq<Pair>, complete: bool)

  function ReadAll(b: bytes, unpack: bytes -> Option<bytes>): (r: Reading)
    decreases |b|
  {
    match ReadEntry(b, unpack)
    case End => Reading([], true)
    case Broken => Reading([], false)
    case Got(p, rest) =>
      var t := ReadAll(rest, unpack);
      Reading([p] + t.pairs, t.complete)
  }

  lemma ReadBack(p: Pair, rest: bytes, pack: bytes -> bytes, unpack: bytes -> Option<bytes>)
    requires Inverse(pack, unpack) && Packs(p, pack)
    ensures ReadEntry(Entry(p, pack) + rest, unpack) == Got(p, rest)
  {
    var k, v := pack(p.key), pack(p.value);
    Pow256Values();
    BigEndianRoundTrip(|k|, 2);
    BigEndianRoundTrip(|v|, 4);
    var x, y := BigEndian(|k|, 2), BigEndian(|v|, 4);
    var tail := y + v + rest;
    var b := Entry(p, pack) + rest;
    assert b == x + k + tail;
    SplitField(x, k, tail);
    SplitField(y, v, rest);
  }

  /** A length field, its bytes and what follows. */
  lemma SplitField(x: bytes, k: bytes, tail: bytes)
    ensures var b := x + k + tail;
              b[..|x|] == x && b[|x|..] == k + tail && (k + tail)[..|k|] == k && (k + tail)[|k|..] == tail
  {
  }

  lemma {:induction false} StreamFront(p: Pair, ps: seq<Pair>, pack: bytes -> bytes)
    ensures Stream([p] + ps, pack) == Entry(p, pack) + Stream(ps, pack)
  {
    hide Entry;
    if ps == [] {
      assert [p] + ps == [p] && [p][..0] == [];
      assert Stream([], pack) == [];
      assert [] + Entry(p, pack) == Entry(p, pack) + [];
    } else {
      var n := |ps| - 1;
      assert ([p] + ps)[..n + 1] == [p] + ps[..n];
      StreamFront(p, ps[..n], pack);
      assert Entry(p, pack) + Stream(ps[..n], pack) + Entry(ps[n], pack) ==
          Entry(p, pack) + (Stream(ps[..n], pack) + Entry(ps[n], pack));
    }
  }

  /** Reading what was written gives back the list. */
  lemma {:induction false} StreamRoundTrip(ps: seq<Pair>, pack: bytes -> bytes, unpack: bytes -> Option<bytes>)
    requires Inverse(pack, unpack)
    requires forall i :: 0 <= i < |ps| ==> Packs(ps[i], pack)
    ensures ReadAll(Stream(ps, pack), unpack) == Reading(ps, true)
  {
    if ps != [] {
      hide Entry, ReadEntry;
      var p, rest := ps[0], ps[1..];
      assert ps == [p] + rest;
      StreamFront(p, rest, pack);
      StreamRoundTrip(rest, pack, unpack);
      ReadBack(p, Stream(rest, pack), pack, unpack);
    }
  }

  // ---------------------------------------------------------------- a stream that breaks off

  /** A stream that ends inside an entry is broken. */
  lemma CutEntry(p: Pair, pack: bytes -> bytes, unpack: bytes -> Option<bytes>, n: nat)
    requires Packs(p, pack) && 0 < n < |Entry(p, pack)|
    ensures ReadEntry(Entry(p, pack)[..n], unpack) == Broken
  {
    var k, v := pack(p.key), pack(p.value);
    Pow256Values();
    BigEndianRoundTrip(|k|, 2);
    BigEndianRoundTrip(|v|, 4);
    hide BigEndian, FromBigEndian;
    var x, y, b := BigEndian(|k|, 2), BigEndian(|v|, 4), Entry(p, pack)[..n];
    if n >= 2 {
      assert b[..2] == x;
      if n >= 2 + |k| {
        var e := b[2..][|k|..];
        assert e == (y + v)[..n - 2 - |k|];
        if |e| >= 4 { assert e[..4] == y; }
      }
    }
  }

  lemma EntryLength(p: Pair, ps: seq<Pair>, pack: bytes -> bytes, j: nat)
    requires j <= |ps|
    ensures ([p] + ps)[..j + 1] == [p] + ps[..j]
    ensures |Stream(([p] + ps)[..j + 1], pack)| == |Entry(p, pack)| + |Stream(ps[..j], pack)|
    ensures |Entry(p, pack)| >= 6
  {
    assert ([p] + ps)[..j + 1] == [p] + ps[..j];
    StreamFront(p, ps[..j], pack);
  }

  /** The first `j` entries, and no more, lie wholly in the first `n` bytes of a stream. */
  ghost predicate HoldsEntries(ps: seq<Pair>, pack: bytes -> bytes, n: nat, j: nat) {
    j <= |ps| && |Stream(ps[..j], pack)| <= n && (j < |ps| ==> n < |Stream(ps[..j + 1], pack)|)
  }

  /** What is read of the first `n` bytes of a stream, of which `j` entries are whole. */
  ghost predicate ReadsCut(ps: seq<Pair>, pack: bytes -> bytes, unpack: bytes -> Option<bytes>, n: nat, j: nat) {
    && n <= |Stream(ps, pack)| && HoldsEntries(ps, pack, n, j)
    && ReadAll(Stream(ps, pack)[..n], unpack) == Reading(ps[..j], n == |Stream(ps[..j], pack)|)
  }

  lemma NothingToCut(pack: bytes -> bytes, unpack: bytes -> Option<bytes>)
    ensures Stream([], pack) == [] && ReadsCut([], pack, unpack, 0, 0)
  {
  }

  lemma CutInFirst(p: Pair, rest: seq<Pair>, pack: bytes -> bytes, unpack: bytes -> Option<bytes>, n: nat)
    requires Packs(p, pack) && n < |Entry(p, pack)|
    ensures ReadsCut([p] + rest, pack, unpack, n, 0)
  {
    hide Entry, ReadEntry, Stream, ReadAll;
    var ps := [p] + rest;
    StreamFront(p, rest, pack);
    NoEntries(ps, pack);
    NoEntries(rest, pack);
    EntryLength(p, rest, pack, 0);
    var b := Stream(ps, pack)[..n];
    assert b == Entry(p, pack)[..n];
    ReadAllStep(b, unpack);
    if n > 0 { CutEntry(p, pack, unpack, n); } else { assert b == []; }
  }

  lemma CutLater(p: Pair, rest: seq<Pair>, pack: bytes -> bytes, unpack: bytes -> Option<bytes>, n: nat, i: nat)
    requires Inverse(pack, unpack) && Packs(p, pack) && ReadsCut(rest, pack, unpack, n, i)
    ensures ReadsCut([p] + rest, pack, unpack, n + |Entry(p, pack)|, i + 1)
  {
    hide Entry, ReadEntry, Stream, ReadAll, Inverse;
    var ps, e, tail := [p] + rest, Entry(p, pack), Stream(rest, pack)[..n];
    StreamFront(p, rest, pack);
    var b := Stream(ps, pack)[..n + |e|];
    assert b == e + tail;
    ReadAllStep(b, unpack);
    ReadBack(p, tail, pack, unpack);
    MoreEntries(p, rest, pack, n, i);
    assert [p] + rest[..i] == ps[..i + 1];
  }

  /**
   Whatever the place where a stream is cut, what is read is the entries that lie wholly before it,
   and the reading is taken for complete exactly if the cut falls between two entries.
   */
  lemma {:induction false} CutStream(ps: seq<Pair>, pack: bytes -> bytes, unpack: bytes -> Option<bytes>, n: nat)
    returns (j: nat)
    requires Inverse(pack, unpack) && n <= |Stream(ps, pack)|
    requires forall i :: 0 <= i < |ps| ==> Packs(ps[i], pack)
    ensures ReadsCut(ps, pack, unpack, n, j)
    decreases |ps|
  {
    hide ReadsCut, Stream, Entry, Inverse, Packs;
    if ps == [] {
      NothingToCut(pack, unpack);
      j := 0;
    } else {
      var p, rest := ps[0], ps[1..];
      assert ps == [p] + rest && Packs(p, pack);
      StreamFront(p, rest, pack);
      var size := |Entry(p, pack)|;
      if n < size {
        CutInFirst(p, rest, pack, unpack, n);
        j := 0;
      } else {
        var i := CutStream(rest, pack, unpack, n - size);
        CutLater(p, rest, pack, unpack, n - size, i);
        j := i + 1;
      }
    }
  }

  lemma MoreEntries(p: Pair, rest: seq<Pair>, pack: bytes -> bytes, n: nat, i: nat)
    requires HoldsEntries(rest, pack, n, i)
    ensures HoldsEntries([p] + rest, pack, n + |Entry(p, pack)|, i + 1)
    ensures |Stream(([p] + rest)[..i + 1], pack)| == |Entry(p, pack)| + |Stream(rest[..i], pack)|
  {
    hide Stream, Entry;
    EntryLength(p, rest, pack, i);
    if i < |rest| { EntryLength(p, rest, pack, i + 1); }
  }

  lemma ReadAllStep(b: bytes, unpack: bytes -> Option<bytes>)
    ensures b == [] ==> ReadAll(b, unpack) == Reading([], true)
    ensures ReadEntry(b, unpack).Broken? ==> ReadAll(b, unpack) == Reading([], false)
    ensures ReadEntry(b, unpack).Got? ==>
              var e := ReadEntry(b, unpack);
              var t := ReadAll(e.rest, unpack);
              ReadAll(b, unpack) == Reading([e.pair] + t.pairs, t.complete)
  {
  }

  lemma NoEntries(ps: seq<Pair>, pack: bytes -> bytes)
    ensures Stream(ps[..0], pack) == []
  {
  }

  // ---------------------------------------------------------------- the load as batches

  function Puts(ps: seq<Pair>): (b: WriteBatch) {
    if ps == [] then [] else Puts(ps[..|ps| - 1]) + [Put(ps[|ps| - 1].key, ps[|ps| - 1].value)]
  }

  lemma {:induction false} PutsAt(ps: seq<Pair>, k: bytes)
    requires forall i, j :: 0 <= i < j < |ps| ==> ps[i].key != ps[j].key
    ensures forall i :: 0 <= i < |ps| && ps[i].key == k ==> Lookup(Apply(map[], Puts(ps)), k) == Some(ps[i].value)
    ensures (forall i :: 0 <= i < |ps| ==> ps[i].key != k) ==> Lookup(Apply(map[], Puts(ps)), k) == None
  {
    if ps != [] {
      var n := |ps| - 1;
      PutsAt(ps[..n], k);
      var put: Op<bytes, bytes> := Put(ps[n].key, ps[n].value);
      ApplyOne(map[], Puts(ps[..n]), put);
      assert forall i :: 0 <= i < n ==> ps[..n][i] == ps[i];
    }
  }

  lemma ListedOnce(s: Store)
    ensures forall i, j :: 0 <= i < j < |Listing(s)| ==> Listing(s)[i].key != Listing(s)[j].key
  {
    hide SortedKeys;
    var ks, ps := SortedKeys(s.Keys), Listing(s);
    SortedIsAscending(ks);
    forall i, j | 0 <= i < j < |ps| ensures ps[i].key != ps[j].key {
      assert Lt(ks[i], ks[j]);
      LtAsymmetric(ks[i], ks[j]);
    }
  }

  /** The first entries of the list of a store, put into an empty one, are part of the store. */
  lemma FrontIsPart(s: Store, n: nat)
    requires n <= |Listing(s)|
    ensures IsPart(Apply(map[], Puts(Listing(s)[..n])), s)
  {
    hide Apply, Puts, SortedKeys;
    var ps := Listing(s)[..n];
    var part := Apply(map[], Puts(ps));
    ListedOnce(s);
    forall k | k in part ensures k in s && part[k] == s[k] {
      PutsAt(ps, k);
      assert Lookup(part, k).Some?;
      var i :| 0 <= i < n && ps[i].key == k;
      assert ps[i] == Listing(s)[i];
    }
  }

  /** The list of a store, put into an empty one, is the store. */
  lemma ListingIsStore(s: Store)
    ensures Apply(map[], Puts(Listing(s))) == s
  {
    hide Apply, Puts, SortedKeys;
    var ks, ps := SortedKeys(s.Keys), Listing(s);
    ListedOnce(s);
    forall k: bytes ensures Lookup(Apply(map[], Puts(ps)), k) == Lookup(s, k) {
      PutsAt(ps, k);
      if k in s {
        var i :| 0 <= i < |ks| && ks[i] == k;
        assert ps[i].key == k;
      } else {
        forall i | 0 <= i < |ps| ensures ps[i].key != k { assert ks[i] in ks; }
      }
    }
    SameLookups(Apply(map[], Puts(ps)), s);
  }

  /** A prefix that was committed before leaves no trace. */
  lemma CommitAgain(s: Store, a: WriteBatch, b: WriteBatch)
    ensures Apply(Apply(s, a), a + b) == Apply(s, a + b)
  {
    forall k | Touches(a, k) ensures Touches(a + b, k) {
      var i :| 0 <= i < |a| && a[i].key == k;
      assert (a + b)[i].key == k;
    }
    ApplyAbsorbs(s, a, a + b);
  }

  // ---------------------------------------------------------------- the operations

  /** Dump: commit id and snapshot are taken together, then the snapshot is written in key order. */
  method WriteDump(l: Ledis, pack: bytes -> bytes) returns (w: bytes)
    ensures w == BigEndian(l.commitID, 8) + Stream(Listing(l.store), pack)
  {
    hide SortedKeys, BigEndian, Entry;
    var ks := SortKeys(l.store.Keys);
    w := BigEndian(l.commitID, 8);
    ghost var head, ps := w, Listing(l.store);
    assert ps[..0] == [] && w + [] == w;
    for i := 0 to |ks|
      invariant w == head + Stream(ps[..i], pack)
    {
      assert ks[i] in ks;
      assert ps[..i + 1][..i] == ps[..i];
      var e := Entry(Pair(ks[i], l.store[ks[i]]), pack);
      assert head + Stream(ps[..i], pack) + e == head + (Stream(ps[..i], pack) + e);
      w := w + e;
    }
    assert ps[..|ps|] == ps;
  }

  lemma DeletedStore(s: Store, ks: seq<bytes>)
    requires forall k :: k in s ==> k in ks
    ensures Apply(s, DeleteAll(ks)) == map[]
  {
    forall k: bytes ensures Lookup(Apply(s, DeleteAll(ks)), k) == Lookup(map[], k) {
      DeleteAllEffect(s, ks, k);
    }
    SameLookups(Apply(s, DeleteAll(ks)), map[]);
  }

  lemma DeletePrefixSplit(ks: seq<bytes>, i: nat, j: nat)
    requires i <= j <= |ks|
    ensures DeleteAll<bytes, bytes>(ks[..j]) == DeleteAll<bytes, bytes>(ks[..i]) + DeleteAll<bytes, bytes>(ks[i..j])
    decreases j - i
  {
    if i < j {
      DeletePrefixSplit(ks, i, j - 1);
      assert ks[i..j][..j - i - 1] == ks[i..j - 1] && ks[..j][..j - 1] == ks[..j - 1];
      DeletePrefix<bytes, bytes>(ks, j - 1);
    } else {
      assert ks[i..j] == [] && DeleteAll<bytes, bytes>([]) == [];
    }
  }

  /** flushAll: every key is deleted and the log is cleared. */
  method FlushAll(l: Ledis)
    modifies l
    ensures l.store == map[] && l.log == LogStore(0, []) && l.commitID == 0 && l.savedID == 0
  {
    hide SortedKeys, DeleteAll, Apply;
    var ks := SortKeys(l.store.Keys);
    ghost var s, done := l.store, 0;
    var b: WriteBatch := [];
    var n := 0;
    Nothing(s);
    assert ks[..0] == [];
    for i := 0 to |ks|
      invariant 0 <= done <= i && b == DeleteAll(ks[..i])
      invariant l.store == Apply(s, DeleteAll(ks[..done]))
    {
      n := n + 1;
      if n == FLUSH_EVERY {
        DeletePrefixSplit(ks, done, i);
        CommitAgain(s, DeleteAll(ks[..done]), DeleteAll(ks[done..i]));
        l.store := Apply(l.store, b);
        done := i;
        n := 0;
      }
      DeletePrefix<bytes, bytes>(ks, i);
      b := b + [Delete(ks[i])];
    }
    assert ks[..|ks|] == ks;
    DeletePrefixSplit(ks, done, |ks|);
    CommitAgain(s, DeleteAll(ks[..done]), DeleteAll(ks[done..|ks|]));
    l.store := Apply(l.store, b);
    DeletedStore(s, ks);
    l.log, l.commitID, l.savedID := LogStore(0, []), 0, 0;
  }

  lemma Nothing(s: Store)
    ensures DeleteAll<bytes, bytes>([]) == [] && Apply(s, DeleteAll([])) == s && Apply(s, Puts([])) == s &&
              Puts([]) == []
  {
  }

  lemma PutsAppend(ps: seq<Pair>, p: Pair)
    ensures Puts(ps + [p]) == Puts(ps) + [Put(p.key, p.value)]
  {
    assert (ps + [p])[..|ps|] == ps;
  }

  lemma {:induction false} PutsSplit(ps: seq<Pair>, i: nat)
    requires i <= |ps|
    ensures Puts(ps) == Puts(ps[..i]) + Puts(ps[i..])
  {
    if i < |ps| {
      var n := |ps| - 1;
      PutsSplit(ps[..n], i);
      assert ps[..n][..i] == ps[..i] && ps[i..][..n - i] == ps[..n][i..];
    } else {
      assert ps[..i] == ps && ps[i..] == [];
    }
  }

  /** How many of `n` entries have been committed when the stream breaks off. */
  function Committed(n: nat): (m: nat)
    ensures m % 1024 == 0 && m <= n < m + 1024
  {
    n - n % LOAD_EVERY
  }

  /**
   LoadDump: the old content is gone in every case. A stream that reads to its end becomes the store,
   with its commit id; one that breaks off leaves the entries of the whole rounds before the break.
   */
  method LoadDump(l: Ledis, stream: bytes, unpack: bytes -> Option<bytes>) returns (r: Option<nat>)
    modifies l
    ensures l.log == LogStore(0, []) && l.savedID == if r.Some? && l.syncCommitID then l.commitID else 0
    ensures |stream| < 8 ==> r == None && l.store == map[] && l.commitID == 0
    ensures |stream| >= 8 ==>
              var id, es := FromBigEndian(stream[..8]), ReadAll(stream[8..], unpack);
              if es.complete then r == Some(id) && l.commitID == id && l.store == Apply(map[], Puts(es.pairs))
              else r == None && l.commitID == 0 && l.store == Apply(map[], Puts(es.pairs[..Committed(|es.pairs|)]))
  {
    hide Apply, Puts, ReadEntry, FromBigEndian;
    FlushAll(l);
    if |stream| < 8 {
      return None;
    }
    var id, rest := FromBigEndian(stream[..8]), stream[8..];
    ghost var es, done: seq<Pair> := ReadAll(rest, unpack), [];
    var b: WriteBatch := [];
    var n := 0;
    Nothing(map[]);
    while true
      invariant n == |done| && b == Puts(done)
      invariant es == Reading(done + ReadAll(rest, unpack).pairs, ReadAll(rest, unpack).complete)
      invariant l.store == Apply(map[], Puts(done[..Committed(n)])) && l.log == LogStore(0, []) && l.commitID == 0
      invariant l.savedID == 0
      decreases |rest|
    {
      var e := ReadEntry(rest, unpack);
      if e.End? {
        break;
      }
      if e.Broken? {
        assert es.pairs == done;
        return None;
      }
      PutsAppend(done, e.pair);
      ghost var before := done;
      assert done + ReadAll(rest, unpack).pairs == done + [e.pair] + ReadAll(e.rest, unpack).pairs;
      b := b + [Put(e.pair.key, e.pair.value)];
      done, rest, n := done + [e.pair], e.rest, n + 1;
      CommittedStep(before, e.pair);
      if n % LOAD_EVERY == 0 {
        PutsSplit(done, Committed(n - 1));
        CommitAgain(map[], Puts(done[..Committed(n - 1)]), Puts(done[Committed(n - 1)..]));
        l.store := Apply(l.store, b);
      }
    }
    assert es.pairs == done;
    PutsSplit(done, Committed(n));
    CommitAgain(map[], Puts(done[..Committed(n)]), Puts(done[Committed(n)..]));
    l.store := Apply(l.store, b);
    l.UpdateCommitID(id, l.syncCommitID);
    r := Some(id);
  }

  lemma CommittedStep(done: seq<Pair>, p: Pair)
    ensures var n := |done| + 1;
            && (done + [p])[..Committed(n - 1)] == done[..Committed(n - 1)]
            && (if n % LOAD_EVERY == 0 then Committed(n) == n && (done + [p])[..n] == done + [p]
                else Committed(n) == Committed(n - 1))
  {
  }

  /** What a dump of one node leaves in another that loads it, whatever was there before. */
  lemma DumpRoundTrip(s: Store, id: nat, pack: bytes -> bytes, unpack: bytes -> Option<bytes>)
    requires Inverse(pack, unpack) && Fits(s, pack) && id < TWO_64
    ensures var w := BigEndian(id, 8) + Stream(Listing(s), pack);
            && |w| >= 8 && FromBigEndian(w[..8]) == id
            && ReadAll(w[8..], unpack) == Reading(Listing(s), true)
            && Apply(map[], Puts(ReadAll(w[8..], unpack).pairs)) == s
  {
    hide Stream, ReadAll, Puts, Apply, SortedKeys;
    var ps := Listing(s);
    Pow256Values();
    BigEndianRoundTrip(id, 8);
    var w := BigEndian(id, 8) + Stream(ps, pack);
    assert w[..8] == BigEndian(id, 8) && w[8..] == Stream(ps, pack);
    ListedFits(s, pack);
    StreamRoundTrip(ps, pack, unpack);
    ListingIsStore(s);
  }

  /** Dump from one node, load into another: store and commit id are the same. */
  method Transfer(master: Ledis, slave: Ledis, pack: bytes -> bytes, unpack: bytes -> Option<bytes>)
    returns (r: Option<nat>)
    requires master != slave && Inverse(pack, unpack) && Fits(master.store, pack) && master.commitID < TWO_64
    modifies slave
    ensures r == Some(master.commitID)
    ensures slave.store == master.store && slave.commitID == master.commitID && slave.log == LogStore(0, [])
    ensures slave.savedID == if slave.syncCommitID then slave.commitID else 0
  {
    hide Inverse, Fits, Stream, ReadAll, Puts, Apply, Listing;
    var w := WriteDump(master, pack);
    DumpRoundTrip(master.store, master.commitID, pack, unpack);
    r := LoadDump(slave, w, unpack);
  }

  lemma ListedFits(s: Store, pack: bytes -> bytes)
    requires Fits(s, pack)
    ensures forall i :: 0 <= i < |Listing(s)| ==> Packs(Listing(s)[i], pack)
  {
    hide SortedKeys;
    var ks, ps := SortedKeys(s.Keys), Listing(s);
    forall i | 0 <= i < |ps| ensures Packs(ps[i], pack) {
      assert ks[i] in ks;
    }
  }

  /**
   A dump that is cut off on its way: a cut inside the head or inside an entry fails, with commit id 0
   and part of the store; a cut between two entries is not noticed.
   */
  method TransferCut(master: Ledis, slave: Ledis, pack: bytes -> bytes, unpack: bytes -> Option<bytes>, n: nat)
    returns (r: Option<nat>, ghost j: nat)
    requires master != slave && Inverse(pack, unpack) && Fits(master.store, pack) && master.commitID < TWO_64
    requires n <= |Stream(Listing(master.store), pack)|
    modifies slave
    ensures HoldsEntries(Listing(master.store), pack, n, j)
    ensures var whole := n == |Stream(Listing(master.store)[..j], pack)|;
            && r == (if whole then Some(master.commitID) else None)
            && slave.commitID == (if whole then master.commitID else 0)
            && slave.savedID == (if whole && slave.syncCommitID then master.commitID else 0)
            && slave.store == Apply(map[], Puts(Listing(master.store)[..if whole then j else Committed(j)]))
    ensures IsPart(slave.store, master.store) && slave.log == LogStore(0, [])
  {
    hide Inverse, Fits, Stream, ReadAll, Puts, Apply, Listing, BigEndian, FromBigEndian, HoldsEntries, IsPart;
    var w := WriteDump(master, pack);
    ghost var ps := Listing(master.store);
    ListedFits(master.store, pack);
    j := CutStream(ps, pack, unpack, n);
    CutHead(master.commitID, Stream(ps, pack), n);
    r := LoadDump(slave, w[..8 + n], unpack);
    EntriesBound(ps, pack, n, j);
    ghost var m := if n == |Stream(ps[..j], pack)| then j else Committed(j);
    assert ps[..j][..Committed(j)] == ps[..Committed(j)];
    FrontIsPart(master.store, m);
  }

  lemma EntriesBound(ps: seq<Pair>, pack: bytes -> bytes, n: nat, j: nat)
    requires HoldsEntries(ps, pack, n, j)
    ensures j <= |ps|
  {
  }

  lemma CutHead(id: nat, b: bytes, n: nat)
    requires id < TWO_64 && n <= |b|
    ensures var w := (BigEndian(id, 8) + b)[..8 + n]; FromBigEndian(w[..8]) == id && w[8..] == b[..n]
  {
    Pow256Values();
    BigEndianRoundTrip(id, 8);
    hide BigEndian, FromBigEndian;
    var w := (BigEndian(id, 8) + b)[..8 + n];
    assert w[..8] == BigEndian(id, 8) && w[8..] == b[..n];
  }
}
