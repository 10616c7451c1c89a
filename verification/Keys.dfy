/**
 The key space: every record of every data type of every database lives under one byte string of
 one ordered store. This module gives the encoders and decoders of those byte strings and shows
 that the encoding is injective over all kinds and all databases, that score keys sort by signed
 score and then member, and that every range the code scans holds one collection and nothing else.
 */
module Keys {
  import opened Bytes

  const MAX_DATABASES: nat := 10240
  const MAX_KEY_SIZE: nat := 1024

  const MEM_SEP: byte := 58            // ':' before a member or field
  const MEM_STOP: byte := 59           // ':' + 1
  const NEG_SEP: byte := 60            // '<' before a negative score
  const POS_SEP: byte := 61            // '<' + 1 before any other score

  const NONE_TYPE: byte := 0
  const KV_TYPE: byte := 1
  const HASH_TYPE: byte := 2
  const HSIZE_TYPE: byte := 3
  const LIST_TYPE: byte := 4
  const LMETA_TYPE: byte := 5
  const ZSET_TYPE: byte := 6
  const ZSIZE_TYPE: byte := 7
  const ZSCORE_TYPE: byte := 8
  const SET_TYPE: byte := 11
  const SSIZE_TYPE: byte := 12
  const MAX_DATA_TYPE: byte := 100
  const EXP_META_TYPE: byte := 102
  const EXP_TIME_TYPE: byte := 103

  /** The three collections that keep one record per member and one size record per key. */
  datatype Coll = HashColl | SetColl | ZSetColl {
    function ItemType(): (b: byte) {
      match this case HashColl => HASH_TYPE case SetColl => SET_TYPE case ZSetColl => ZSET_TYPE
    }
    function SizeType(): (b: byte) {
      match this case HashColl => HSIZE_TYPE case SetColl => SSIZE_TYPE case ZSetColl => ZSIZE_TYPE
    }
  }

  datatype Kind =
    | KV(key: bytes)
    | Item(coll: Coll, key: bytes, member: bytes)
    | Size(coll: Coll, key: bytes)
    | ListItem(key: bytes, seqNo: int)
    | LMeta(key: bytes)
    | ZScore(key: bytes, score: int, member: bytes)
    | ExpMeta(dataType: byte, key: bytes)
    | ExpTime(when: int, dataType: byte, key: bytes)

  datatype Key = Key(db: nat, kind: Kind)

  function TypeByte(k: Kind): (b: byte) {
    match k
    case KV(_) => KV_TYPE
    case Item(c, _, _) => c.ItemType()
    case Size(c, _) => c.SizeType()
    case ListItem(_, _) => LIST_TYPE
    case LMeta(_) => LMETA_TYPE
    case ZScore(_, _, _) => ZSCORE_TYPE
    case ExpMeta(_, _) => EXP_META_TYPE
    case ExpTime(_, _, _) => EXP_TIME_TYPE
  }

  /** What the fixed-width fields of the format can hold. */
  predicate ValidKind(k: Kind) {
    match k
    case Item(_, key, _) => |key| < 0x1_0000
    case ListItem(key, q) => |key| < 0x1_0000 && IsInt32(q)
    case ZScore(key, s, _) => |key| < 0x1_0000 && IsInt64(s)
    case ExpTime(w, _, _) => IsInt64(w)
    case _ => true
  }

  predicate ValidKey(k: Key) {
    k.db <= MAX_DATABASES && ValidKind(k.kind)
  }

  // ---------------------------------------------------------------- encoders

  /** Database index, type byte, key length and key: the common front of the collection records. */
  function Head(d: nat, ty: byte, key: bytes): (r: bytes) {
    Uvarint(d) + [ty] + BigEndian(|key| % 0x1_0000, 2) + key
  }

  function ScoreBytes(s: int): (r: bytes)
    requires IsInt64(s)
    ensures |r| == 9
  {
    [if s < 0 then NEG_SEP else POS_SEP] + BigEndian(Unsigned64(s), 8)
  }

  function Encode(k: Key): (r: bytes)
    requires ValidKey(k)
  {
    match k.kind
    case Item(c, key, m) => Head(k.db, c.ItemType(), key) + [MEM_SEP] + m
    case ListItem(key, q) => Head(k.db, LIST_TYPE, key) + BigEndian(Unsigned32(q), 4)
    case ZScore(key, s, m) => Head(k.db, ZSCORE_TYPE, key) + ScoreBytes(s) + [MEM_SEP] + m
    case ExpMeta(dt, key) => Uvarint(k.db) + [EXP_META_TYPE] + [dt] + key
    case ExpTime(w, dt, key) => Uvarint(k.db) + [EXP_TIME_TYPE] + BigEndian(Unsigned64(w), 8) + [dt] + key
    case _ => Uvarint(k.db) + [TypeByte(k.kind)] + k.kind.key
  }

  // ---------------------------------------------------------------- decoders

  /** `Panic` is an index that Go would find out of range; `Bad` is a returned error. */
  datatype Decoded<+T> = Ok(value: T) | Bad | Panic

  /** binary.Uvarint: the value and the number of bytes read. */
  function ReadUvarint(b: bytes): (r: Decoded<(nat, nat)>)
    ensures r.Ok? ==> 0 < r.value.1 <= |b|
  {
    if b == [] then Bad
    else if b[0] < 128 then Ok((b[0], 1))
    else
      match ReadUvarint(b[1..])
      case Ok(p) => Ok((b[0] - 128 + 128 * p.0, p.1 + 1))
      case _ => Bad
  }

  function DecodeDBIndex(ek: bytes): (r: Decoded<(nat, nat)>)
    ensures r.Ok? ==> 0 < r.value.1 <= |ek|
  {
    match ReadUvarint(ek)
    case Ok(p) => if p.1 > 10 || p.0 > MAX_DATABASES then Bad else Ok(p)
    case _ => Bad
  }

  /** The key name behind the two length bytes, and the rest. */
  function DecodeName(b: bytes): (r: Decoded<(bytes, bytes)>) {
    if |b| < 2 then Bad
    else
      var n := FromBigEndian(b[..2]);
      if n + 2 > |b| then Bad else Ok((b[2..2 + n], b[2 + n..]))
  }

  /** hDecodeHashKey and sDecodeSetKey index one past the name without checking that a byte is there. */
  function DecodeItem(c: Coll, b: bytes): (r: Decoded<Kind>) {
    if |b| < 2 then Bad
    else
      var n := FromBigEndian(b[..2]);
      if (if c.ZSetColl? then n else n + 2) > |b| then Bad
      else if n + 2 >= |b| then Panic
      else if b[2 + n] != MEM_SEP then Bad
      else Ok(Item(c, b[2..2 + n], b[3 + n..]))
  }

  function DecodeListItem(b: bytes): (r: Decoded<Kind>) {
    match DecodeName(b)
    case Ok(p) =>
      if |p.1| != 4 then Bad else Ok(ListItem(p.0, Wrap32(FromBigEndian(p.1))))
    case _ => Bad
  }

  function DecodeScore(b: bytes): (r: Decoded<Kind>) {
    match DecodeName(b)
    case Ok(p) =>
      if |p.1| < 10 || (p.1[0] != NEG_SEP && p.1[0] != POS_SEP) || p.1[9] != MEM_SEP then Bad
      else Ok(ZScore(p.0, Wrap64(FromBigEndian(p.1[1..9])), p.1[10..]))
    case _ => Bad
  }

  function DecodeBody(ty: byte, b: bytes): (r: Decoded<Kind>) {
    if ty == KV_TYPE then Ok(KV(b))
    else if ty == LMETA_TYPE then Ok(LMeta(b))
    else if ty == HSIZE_TYPE then Ok(Size(HashColl, b))
    else if ty == SSIZE_TYPE then Ok(Size(SetColl, b))
    else if ty == ZSIZE_TYPE then Ok(Size(ZSetColl, b))
    else if ty == HASH_TYPE then DecodeItem(HashColl, b)
    else if ty == SET_TYPE then DecodeItem(SetColl, b)
    else if ty == ZSET_TYPE then DecodeItem(ZSetColl, b)
    else if ty == LIST_TYPE then DecodeListItem(b)
    else if ty == ZSCORE_TYPE then DecodeScore(b)
    else if ty == EXP_META_TYPE then (if |b| < 1 then Bad else Ok(ExpMeta(b[0], b[1..])))
    else if ty == EXP_TIME_TYPE then
      (if |b| < 9 then Bad else Ok(ExpTime(Wrap64(FromBigEndian(b[..8])), b[8], b[9..])))
    else Bad
  }

  function Decode(ek: bytes): (r: Decoded<Key>) {
    match DecodeDBIndex(ek)
    case Ok(p) =>
      if p.1 >= |ek| then Bad
      else
        (match DecodeBody(ek[p.1], ek[p.1 + 1..])
         case Ok(k) => Ok(Key(p.0, k))
         case Bad => Bad
         case Panic => Panic)
    case _ => Bad
  }

  // ---------------------------------------------------------------- round trip

  /** What follows the type byte. */
  function Body(k: Kind): (r: bytes)
    requires ValidKind(k)
  {
    match k
    case Item(c, key, m) => BigEndian(|key|, 2) + key + [MEM_SEP] + m
    case ListItem(key, q) => BigEndian(|key|, 2) + key + BigEndian(Unsigned32(q), 4)
    case ZScore(key, s, m) => BigEndian(|key|, 2) + key + ScoreBytes(s) + [MEM_SEP] + m
    case ExpMeta(dt, key) => [dt] + key
    case ExpTime(w, dt, key) => BigEndian(Unsigned64(w), 8) + [dt] + key
    case _ => k.key
  }

  lemma EncodeIsBody(k: Key)
    requires ValidKey(k)
    ensures Encode(k) == Uvarint(k.db) + ([TypeByte(k.kind)] + Body(k.kind))
  {
    hide Encode, Body, TypeByte;
    match k.kind
    case Item(_, _, _) => EncodeNamed(k);
    case ListItem(_, _) => EncodeNamed(k);
    case ZScore(_, _, _) => EncodeNamed(k);
    case _ => EncodePlain(k);
  }

  lemma EncodePlain(k: Key)
    requires ValidKey(k) && !k.kind.Item? && !k.kind.ListItem? && !k.kind.ZScore?
    ensures Encode(k) == Uvarint(k.db) + ([TypeByte(k.kind)] + Body(k.kind))
  {
    hide Uvarint, BigEndian, Unsigned64;
  }

  lemma EncodeNamed(k: Key)
    requires ValidKey(k) && (k.kind.Item? || k.kind.ListItem? || k.kind.ZScore?)
    ensures Encode(k) == Uvarint(k.db) + ([TypeByte(k.kind)] + Body(k.kind))
  {
    hide Uvarint, BigEndian, ScoreBytes, Unsigned32;
    var u, t, n := Uvarint(k.db), [TypeByte(k.kind)], BigEndian(|k.kind.key|, 2);
    match k.kind
    case Item(_, key, m) => Regroup(u, t, n, key, [MEM_SEP], m, []);
    case ListItem(key, q) => Regroup(u, t, n, key, BigEndian(Unsigned32(q), 4), [], []);
    case ZScore(key, s, m) => Regroup(u, t, n, key, ScoreBytes(s), [MEM_SEP], m);
  }

  lemma Regroup(a: bytes, b: bytes, c: bytes, d: bytes, e: bytes, f: bytes, g: bytes)
    ensures a + b + c + d + e + f + g == a + (b + (c + d + e + f + g))
    ensures a + b + c + d + e + f == a + (b + (c + d + e + f))
    ensures a + b + c + d + e == a + (b + (c + d + e))
  {
  }

  lemma {:induction false} ReadUvarintRoundTrip(n: nat, x: bytes)
    ensures ReadUvarint(Uvarint(n) + x) == Ok((n, |Uvarint(n)|))
  {
    var b := Uvarint(n) + x;
    if n >= 128 {
      ReadUvarintRoundTrip(n / 128, x);
      assert b[1..] == Uvarint(n / 128) + x;
    }
  }

  lemma NameRoundTrip(key: bytes, rest: bytes)
    requires |key| < 0x1_0000
    ensures var b := BigEndian(|key|, 2) + key + rest;
            |b| == 2 + |key| + |rest| && FromBigEndian(b[..2]) == |key| &&
            b[2..2 + |key|] == key && b[2 + |key|..] == rest
  {
    Pow256Values();
    BigEndianRoundTrip(|key|, 2);
    var b := BigEndian(|key|, 2) + key + rest;
    assert b[..2] == BigEndian(|key|, 2);
  }

  lemma ItemRoundTrip(c: Coll, key: bytes, m: bytes)
    requires |key| < 0x1_0000
    ensures DecodeItem(c, BigEndian(|key|, 2) + key + [MEM_SEP] + m) == Ok(Item(c, key, m))
  {
    NameRoundTrip(key, [MEM_SEP] + m);
    assert BigEndian(|key|, 2) + key + [MEM_SEP] + m == BigEndian(|key|, 2) + key + ([MEM_SEP] + m);
  }

  lemma ListItemRoundTrip(key: bytes, q: int)
    requires |key| < 0x1_0000 && IsInt32(q)
    ensures DecodeListItem(BigEndian(|key|, 2) + key + BigEndian(Unsigned32(q), 4)) == Ok(ListItem(key, q))
  {
    Pow256Values();
    NameRoundTrip(key, BigEndian(Unsigned32(q), 4));
    BigEndianRoundTrip(Unsigned32(q), 4);
  }

  lemma ScoreTailRoundTrip(s: int, m: bytes)
    requires IsInt64(s)
    ensures var t := ScoreBytes(s) + ([MEM_SEP] + m);
            |t| == 10 + |m| && t[0] in {NEG_SEP, POS_SEP} && t[9] == MEM_SEP && t[10..] == m &&
            Wrap64(FromBigEndian(t[1..9])) == s
  {
    Pow256Values();
    BigEndianRoundTrip(Unsigned64(s), 8);
    var t := ScoreBytes(s) + ([MEM_SEP] + m);
    assert t[1..9] == BigEndian(Unsigned64(s), 8);
  }

  lemma ScoreRoundTrip(key: bytes, s: int, m: bytes)
    requires |key| < 0x1_0000 && IsInt64(s)
    ensures DecodeScore(BigEndian(|key|, 2) + key + (ScoreBytes(s) + ([MEM_SEP] + m))) == Ok(ZScore(key, s, m))
  {
    ScoreTailRoundTrip(s, m);
    NameRoundTrip(key, ScoreBytes(s) + ([MEM_SEP] + m));
  }

  lemma TimeRoundTrip(w: int, dt: byte, key: bytes)
    requires IsInt64(w)
    ensures DecodeBody(EXP_TIME_TYPE, BigEndian(Unsigned64(w), 8) + [dt] + key) == Ok(ExpTime(w, dt, key))
  {
    Pow256Values();
    BigEndianRoundTrip(Unsigned64(w), 8);
    var b := BigEndian(Unsigned64(w), 8) + [dt] + key;
    assert b[..8] == BigEndian(Unsigned64(w), 8) && b[9..] == key;
  }

  lemma BodyRoundTrip(k: Kind)
    requires ValidKind(k)
    ensures DecodeBody(TypeByte(k), Body(k)) == Ok(k)
  {
    hide BigEndian, FromBigEndian, ScoreBytes, DecodeItem, DecodeListItem, DecodeScore, Unsigned64, Unsigned32, Wrap64;
    match k
    case Item(c, key, m) => ItemRoundTrip(c, key, m);
    case ListItem(key, q) => ListItemRoundTrip(key, q);
    case ZScore(key, s, m) => ScoreRoundTrip(key, s, m); BodyIsTail(k);
    case ExpTime(w, dt, key) => TimeRoundTrip(w, dt, key);
    case _ =>
  }

  /** Every record key of every database decodes to what was encoded. */
  lemma DecodeEncode(k: Key)
    requires ValidKey(k)
    ensures Decode(Encode(k)) == Ok(k)
  {
    var ek, v, t := Encode(k), Uvarint(k.db), [TypeByte(k.kind)] + Body(k.kind);
    EncodeIsBody(k);
    ReadUvarintRoundTrip(k.db, t);
    assert |v| <= 2 by { assert k.db / 128 < 128; }
    assert ek[|v|] == TypeByte(k.kind) && ek[|v| + 1..] == Body(k.kind);
    BodyRoundTrip(k.kind);
  }

  lemma EncodeInjective(a: Key, b: Key)
    requires ValidKey(a) && ValidKey(b) && Encode(a) == Encode(b)
    ensures a == b
  {
    DecodeEncode(a);
    DecodeEncode(b);
  }

  // ---------------------------------------------------------------- order and isolation

  /** Two strings with a common front `p` have only strings with front `p` between them. */
  lemma {:induction false} PrefixBetween(p: bytes, a: bytes, b: bytes, x: bytes)
    ensures Le(p + a, x) && Le(x, p + b) ==> p <= x
    ensures p <= x ==> (Le(p + a, x) <==> Le(a, x[|p|..])) && (Lt(p + a, x) <==> Lt(a, x[|p|..]))
    ensures p <= x ==> (Le(x, p + b) <==> Le(x[|p|..], b)) && (Lt(x, p + b) <==> Lt(x[|p|..], b))
  {
    if p <= x {
      var t := x[|p|..];
      assert x == p + t;
      LtCommonPrefix(p, a, t);
      LtCommonPrefix(p, t, b);
      assert (p + a == p + t ==> a == t) by { assert (p + a)[|p|..] == a && (p + t)[|p|..] == t; }
      assert (p + b == p + t ==> b == t) by { assert (p + b)[|p|..] == b && (p + t)[|p|..] == t; }
    } else if Le(p + a, x) && Le(x, p + b) {
      NotBetween(p, a, b, x);
    }
  }

  lemma {:induction false} NotBetween(p: bytes, a: bytes, b: bytes, x: bytes)
    requires !(p <= x)
    ensures !(Le(p + a, x) && Le(x, p + b))
  {
    if Le(p + a, x) && Le(x, p + b) {
      assert p + a != x && p + b != x by { assert p <= p + a && p <= p + b; }
      if x[0] == p[0] {
        assert (p + a)[1..] == p[1..] + a && (p + b)[1..] == p[1..] + b;
        assert !(p[1..] <= x[1..]) by {
          assert x == [p[0]] + x[1..] && p == [p[0]] + p[1..];
        }
        NotBetween(p[1..], a, b, x[1..]);
      }
    }
  }

  function Named(k: Kind): (b: bool) {
    k.Item? || k.ListItem? || k.ZScore?
  }

  /** What follows the name in a record that carries a length-prefixed name. */
  function Tail(k: Kind): (r: bytes)
    requires ValidKind(k) && Named(k)
  {
    match k
    case Item(c, key, m) => [MEM_SEP] + m
    case ListItem(key, q) => BigEndian(Unsigned32(q), 4)
    case ZScore(key, s, m) => ScoreBytes(s) + ([MEM_SEP] + m)
  }

  lemma EncodeIsHead(k: Key)
    requires ValidKey(k) && Named(k.kind)
    ensures Encode(k) == Head(k.db, TypeByte(k.kind), k.kind.key) + Tail(k.kind)
    ensures Encode(k)[|Head(k.db, TypeByte(k.kind), k.kind.key)|..] == Tail(k.kind)
  {
  }

  lemma BodyIsTail(k: Kind)
    requires ValidKind(k) && Named(k)
    ensures Body(k) == BigEndian(|k.key|, 2) + k.key + Tail(k)
  {
  }

  lemma SameName(a: bytes, x: bytes, b: bytes, y: bytes)
    requires |a| < 0x1_0000 && |b| < 0x1_0000
    requires BigEndian(|a|, 2) + a + x == BigEndian(|b|, 2) + b + y
    ensures a == b && x == y
  {
    NameRoundTrip(a, x);
    NameRoundTrip(b, y);
  }

  /** A record whose byte key begins with a collection's head belongs to that collection. */
  lemma HeadOwner(d: nat, ty: byte, key: bytes, x: Key)
    requires ValidKey(x) && |key| < 0x1_0000 && ty in {HASH_TYPE, ZSET_TYPE, SET_TYPE, LIST_TYPE, ZSCORE_TYPE}
    ensures Head(d, ty, key) <= Encode(x) <==>
            x.db == d && TypeByte(x.kind) == ty && x.kind.key == key
  {
    if x.db == d && TypeByte(x.kind) == ty && x.kind.key == key {
      EncodeIsHead(x);
    }
    if Head(d, ty, key) <= Encode(x) {
      HeadOwnerOnly(d, ty, key, x);
    }
  }

  lemma HeadOwnerOnly(d: nat, ty: byte, key: bytes, x: Key)
    requires ValidKey(x) && |key| < 0x1_0000 && ty in {HASH_TYPE, ZSET_TYPE, SET_TYPE, LIST_TYPE, ZSCORE_TYPE}
    requires Head(d, ty, key) <= Encode(x)
    ensures x.db == d && TypeByte(x.kind) == ty && x.kind.key == key
  {
    hide Uvarint, BigEndian, Tail, Encode, Body, ScoreBytes;
    var h := Head(d, ty, key);
    var rest := Encode(x)[|h|..];
    var named := BigEndian(|key|, 2) + key + rest;
    EncodeIsBody(x);
    assert h + rest == Encode(x);
    Regroup(Uvarint(d), [ty], BigEndian(|key|, 2), key, rest, [], []);
    UvarintPrefixFree(d, x.db, [ty] + named, [TypeByte(x.kind)] + Body(x.kind));
    assert ([ty] + named)[0] == ty && ([ty] + named)[1..] == named;
    BodyIsTail(x.kind);
    SameName(key, rest, x.kind.key, Tail(x.kind));
  }

  lemma ScoreBytesOrder(s: int, t: int)
    requires IsInt64(s) && IsInt64(t)
    ensures Lt(ScoreBytes(s), ScoreBytes(t)) <==> s < t
    ensures ScoreBytes(s) == ScoreBytes(t) <==> s == t
  {
    Pow256Values();
    var bs, bt := BigEndian(Unsigned64(s), 8), BigEndian(Unsigned64(t), 8);
    BigEndianOrder(Unsigned64(s), Unsigned64(t), 8);
    LtSameWidth(ScoreBytes(s)[..1], bs, ScoreBytes(t)[..1], bt);
    assert ScoreBytes(s) == ScoreBytes(s)[..1] + bs && ScoreBytes(t) == ScoreBytes(t)[..1] + bt;
    assert ScoreBytes(s)[1..] == bs && ScoreBytes(t)[1..] == bt;
  }

  /** The order of a sorted set: signed score first, then member bytes. */
  predicate PairLt(s: int, m: bytes, t: int, n: bytes) {
    s < t || (s == t && Lt(m, n))
  }

  /** Byte order of one sorted set's score keys is the order of (score, member), on both sides of zero. */
  lemma ScoreKeyOrder(d: nat, key: bytes, s: int, m: bytes, t: int, n: bytes)
    requires ValidKey(Key(d, ZScore(key, s, m))) && ValidKey(Key(d, ZScore(key, t, n)))
    ensures Lt(Encode(Key(d, ZScore(key, s, m))), Encode(Key(d, ZScore(key, t, n)))) <==> PairLt(s, m, t, n)
  {
    var a, b := Key(d, ZScore(key, s, m)), Key(d, ZScore(key, t, n));
    EncodeIsHead(a);
    EncodeIsHead(b);
    LtCommonPrefix(Head(d, ZSCORE_TYPE, key), Tail(a.kind), Tail(b.kind));
    ScoreBytesOrder(s, t);
    LtSameWidth(ScoreBytes(s), [MEM_SEP] + m, ScoreBytes(t), [MEM_SEP] + n);
    LtCommonPrefix([MEM_SEP], m, n);
  }

  function StartItemKey(d: nat, c: Coll, key: bytes): (r: bytes) {
    Head(d, c.ItemType(), key) + [MEM_SEP]
  }

  function StopItemKey(d: nat, c: Coll, key: bytes): (r: bytes) {
    Head(d, c.ItemType(), key) + [MEM_STOP]
  }

  /** xEncodeStartKey and xEncodeStopKey of hashes, sets and sorted sets. */
  lemma ItemRange(d: nat, c: Coll, key: bytes, x: Key)
    requires ValidKey(x) && |key| < 0x1_0000
    ensures Le(StartItemKey(d, c, key), Encode(x)) && Lt(Encode(x), StopItemKey(d, c, key)) <==>
            x.db == d && x.kind.Item? && x.kind.coll == c && x.kind.key == key
  {
    var h, e := Head(d, c.ItemType(), key), Encode(x);
    PrefixRange(h, MEM_SEP, e);
    HeadOwner(d, c.ItemType(), key, x);
    if h <= e {
      EncodeIsHead(x);
      assert e == h + Tail(x.kind) && e[|h|] == MEM_SEP;
      assert e[..|h| + 1] == h + [MEM_SEP];
    } else {
      assert !(h + [MEM_SEP] <= e) by { assert h <= h + [MEM_SEP]; }
    }
  }

  /** Within one collection members sort as their bytes do. */
  lemma ItemOrder(d: nat, c: Coll, key: bytes, m: bytes, n: bytes)
    requires d <= MAX_DATABASES && |key| < 0x1_0000
    ensures Lt(Encode(Key(d, Item(c, key, m))), Encode(Key(d, Item(c, key, n)))) <==> Lt(m, n)
  {
    LtCommonPrefix(Head(d, c.ItemType(), key) + [MEM_SEP], m, n);
  }

  function StartScoreKey(d: nat, key: bytes, s: int): (r: bytes)
    requires IsInt64(s)
  {
    Head(d, ZSCORE_TYPE, key) + (ScoreBytes(s) + [MEM_SEP])
  }

  function StopScoreKey(d: nat, key: bytes, s: int): (r: bytes)
    requires IsInt64(s)
  {
    Head(d, ZSCORE_TYPE, key) + (ScoreBytes(s) + [MEM_STOP])
  }

  /** zEncodeStartScoreKey(min) to zEncodeStopScoreKey(max), with the stop key included or not. */
  lemma ScoreRange(d: nat, key: bytes, min: int, max: int, x: Key)
    requires ValidKey(x) && |key| < 0x1_0000 && IsInt64(min) && IsInt64(max)
    ensures Le(StartScoreKey(d, key, min), Encode(x)) && Le(Encode(x), StopScoreKey(d, key, max)) <==>
            x.db == d && x.kind.ZScore? && x.kind.key == key && min <= x.kind.score <= max
    ensures Encode(x) != StopScoreKey(d, key, max)
  {
    var h, e := Head(d, ZSCORE_TYPE, key), Encode(x);
    PrefixBetween(h, ScoreBytes(min) + [MEM_SEP], ScoreBytes(max) + [MEM_STOP], e);
    HeadOwner(d, ZSCORE_TYPE, key, x);
    if h <= e {
      EncodeIsHead(x);
      var s, t := x.kind.score, Tail(x.kind);
      assert e[|h|..] == t;
      ScoreBytesOrder(min, s);
      ScoreBytesOrder(s, max);
      LtSameWidth(ScoreBytes(min), [MEM_SEP], ScoreBytes(s), [MEM_SEP] + x.kind.member);
      LtSameWidth(ScoreBytes(s), [MEM_SEP] + x.kind.member, ScoreBytes(max), [MEM_STOP]);
      PrefixIsLe([MEM_SEP], [MEM_SEP] + x.kind.member);
      assert t[9] == MEM_SEP && (ScoreBytes(max) + [MEM_STOP])[9] == MEM_STOP;
      assert StopScoreKey(d, key, max)[|h|..] == ScoreBytes(max) + [MEM_STOP];
      if min == s && x.kind.member == [] { assert t == ScoreBytes(min) + [MEM_SEP]; }
      if t == ScoreBytes(min) + [MEM_SEP] { assert t[..9] == ScoreBytes(s); }
    } else {
      assert h <= StopScoreKey(d, key, max);
    }
  }

  function TypeKey(d: nat, ty: byte): (r: bytes) {
    Uvarint(d) + [ty]
  }

  /** The scan bounds `index type` and `index (type+1)` enclose one type of one database. */
  lemma TypeRange(d: nat, ty: byte, x: Key)
    requires ValidKey(x) && ty < 255
    ensures Le(TypeKey(d, ty), Encode(x)) && Lt(Encode(x), TypeKey(d, ty + 1)) <==>
            x.db == d && TypeByte(x.kind) == ty
  {
    hide Uvarint, Body, Lt;
    var e := Encode(x);
    PrefixRange(Uvarint(d), ty, e);
    EncodeIsBody(x);
    if x.db == d && TypeByte(x.kind) == ty {
      assert e == Uvarint(d) + [ty] + Body(x.kind);
    }
    if Uvarint(d) + [ty] <= e {
      var rest := e[|Uvarint(d)| + 1..];
      assert e == Uvarint(d) + ([ty] + rest);
      UvarintPrefixFree(d, x.db, [ty] + rest, [TypeByte(x.kind)] + Body(x.kind));
      assert ([ty] + rest)[0] == ty && ([TypeByte(x.kind)] + Body(x.kind))[0] == TypeByte(x.kind);
    }
  }

  /** Between the items numbered `i` and `j` of a list lie only items of that list. */
  lemma ListRange(d: nat, key: bytes, i: int, j: int, x: Key)
    requires ValidKey(x) && d <= MAX_DATABASES && |key| < 0x1_0000
    requires IsInt32(i) && 0 <= i && IsInt32(j) && 0 <= j
    ensures Le(Encode(Key(d, ListItem(key, i))), Encode(x)) && Le(Encode(x), Encode(Key(d, ListItem(key, j)))) <==>
            x.db == d && x.kind.ListItem? && x.kind.key == key && i <= x.kind.seqNo <= j
  {
    Pow256Values();
    hide BigEndian, Lt, Pow256, Head;
    var h, e := Head(d, LIST_TYPE, key), Encode(x);
    var a, b := BigEndian(i, 4), BigEndian(j, 4);
    EncodeIsHead(Key(d, ListItem(key, i)));
    EncodeIsHead(Key(d, ListItem(key, j)));
    PrefixBetween(h, a, b, e);
    HeadOwner(d, LIST_TYPE, key, x);
    if h <= e {
      EncodeIsHead(x);
      var q := Unsigned32(x.kind.seqNo);
      BigEndianOrder(i, q, 4);
      BigEndianOrder(q, j, 4);
      assert e[|h|..] == BigEndian(q, 4);
      assert Le(a, e[|h|..]) <==> i <= q;
      assert Le(e[|h|..], b) <==> q <= j;
    }
  }

  function TimeTail(w: int, dt: byte, key: bytes): (r: bytes)
    requires IsInt64(w)
  {
    BigEndian(Unsigned64(w), 8) + ([dt] + key)
  }

  lemma EncodeIsTime(d: nat, w: int, dt: byte, key: bytes)
    requires d <= MAX_DATABASES && IsInt64(w)
    ensures Encode(Key(d, ExpTime(w, dt, key))) == TypeKey(d, EXP_TIME_TYPE) + TimeTail(w, dt, key)
  {
  }

  lemma TimeTailOrder(w: int, dt: byte, key: bytes, v: int, et: byte)
    requires IsInt64(w) && IsInt64(v) && 0 <= v
    ensures Lt(TimeTail(w, dt, key), TimeTail(v, et, [])) <==> 0 <= w && (w < v || (w == v && dt < et))
    ensures Le(TimeTail(v, et, []), TimeTail(w, dt, key)) <==> w < 0 || v < w || (w == v && et <= dt)
  {
    Pow256Values();
    var x, y := Unsigned64(w), Unsigned64(v);
    BigEndianOrder(x, y, 8);
    BigEndianOrder(y, x, 8);
    LtSameWidth(BigEndian(x, 8), [dt] + key, BigEndian(y, 8), [et] + []);
    LtTotal(TimeTail(w, dt, key), TimeTail(v, et, []));
    if Lt(TimeTail(w, dt, key), TimeTail(v, et, [])) {
      LtAsymmetric(TimeTail(w, dt, key), TimeTail(v, et, []));
    }
    if dt == et { PrefixIsLe([et], [dt] + key); LtIrreflexive([dt] + key); }
    if Lt([dt] + key, [et]) && dt == et { LtAsymmetric([dt] + key, [et]); }
  }

  /** The checker's scan from time 0 up to `limit`: a negative time is beyond every limit. */
  lemma TimeRange(d: nat, limit: int, x: Key)
    requires ValidKey(x) && d <= MAX_DATABASES && IsInt64(limit) && 0 <= limit
    ensures Le(Encode(Key(d, ExpTime(0, NONE_TYPE, []))), Encode(x)) &&
            Lt(Encode(x), Encode(Key(d, ExpTime(limit, MAX_DATA_TYPE, [])))) <==>
            x.db == d && x.kind.ExpTime? && 0 <= x.kind.when &&
            (x.kind.when < limit || (x.kind.when == limit && x.kind.dataType < MAX_DATA_TYPE))
  {
    var p, e := TypeKey(d, EXP_TIME_TYPE), Encode(x);
    var lo, hi := TimeTail(0, NONE_TYPE, []), TimeTail(limit, MAX_DATA_TYPE, []);
    EncodeIsTime(d, 0, NONE_TYPE, []);
    EncodeIsTime(d, limit, MAX_DATA_TYPE, []);
    PrefixBetween(p, lo, hi, e);
    TypeRange(d, EXP_TIME_TYPE, x);
    PrefixRange(Uvarint(d), EXP_TIME_TYPE, e);
    if p <= e {
      var w, dt, k := x.kind.when, x.kind.dataType, x.kind.key;
      EncodeIsTime(d, w, dt, k);
      assert e[|p|..] == TimeTail(w, dt, k);
      TimeTailOrder(w, dt, k, 0, NONE_TYPE);
      TimeTailOrder(w, dt, k, limit, MAX_DATA_TYPE);
    }
  }

  /** The order of times on disk: as they are, but the negative ones behind all others. */
  predicate TimeBefore(v: int, w: int) {
    if 0 <= v then v < w || w < 0 else v < w < 0
  }

  /** Time keys sort by time first, and a negative time sorts behind every other. */
  lemma TimeKeyOrder(d: nat, a: Kind, b: Kind)
    requires ValidKey(Key(d, a)) && ValidKey(Key(d, b)) && a.ExpTime? && b.ExpTime? && a.when != b.when
    ensures Lt(Encode(Key(d, a)), Encode(Key(d, b))) <==> TimeBefore(a.when, b.when)
  {
    hide Encode, BigEndian, Lt;
    Pow256Values();
    var x, y := Unsigned64(a.when), Unsigned64(b.when);
    BigEndianOrder(x, y, 8);
    EncodeIsTime(d, a.when, a.dataType, a.key);
    EncodeIsTime(d, b.when, b.dataType, b.key);
    LtSameWidth(BigEndian(x, 8), [a.dataType] + a.key, BigEndian(y, 8), [b.dataType] + b.key);
    LtCommonPrefix(TypeKey(d, EXP_TIME_TYPE),
                   TimeTail(a.when, a.dataType, a.key), TimeTail(b.when, b.dataType, b.key));
  }

  // ---------------------------------------------------------------- values

  /** PutInt64 and Int64: a missing or empty value reads as zero. */
  function PutInt64(v: int): (r: bytes)
    requires IsInt64(v)
  {
    LittleEndian(Unsigned64(v), 8)
  }

  function Int64(v: bytes): (r: Decoded<int>) {
    if v == [] then Ok(0) else if |v| != 8 then Bad else Ok(Wrap64(FromLittleEndian(v)))
  }

  lemma Int64RoundTrip(v: int)
    requires IsInt64(v)
    ensures Int64(PutInt64(v)) == Ok(v)
    ensures Int64([]) == Ok(0) && forall b :: Int64(b).Bad? <==> |b| != 0 && |b| != 8
  {
    Pow256Values();
    LittleEndianRoundTrip(Unsigned64(v), 8);
  }
}
