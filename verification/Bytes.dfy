/**
 Byte strings under the order of Go's `bytes.Compare`, and the fixed-width and variable-width
 integer formats of `encoding/binary` that the store's keys and values are built from.
 */
module Bytes {

  type byte = x: int | 0 <= x < 256
  type bytes = seq<byte>

  // ---------------------------------------------------------------- lexicographic order

  predicate Lt(a: bytes, b: bytes) {
    b != [] && (a == [] || a[0] < b[0] || (a[0] == b[0] && Lt(a[1..], b[1..])))
  }

  predicate Le(a: bytes, b: bytes) {
    a == b || Lt(a, b)
  }

  lemma {:induction false} LtIrreflexive(a: bytes)
    ensures !Lt(a, a)
  {
    if a != [] { LtIrreflexive(a[1..]); }
  }

  lemma {:induction false} LtTransitive(a: bytes, b: bytes, c: bytes)
    requires Lt(a, b) && Lt(b, c)
    ensures Lt(a, c)
  {
    if a != [] && a[0] == b[0] && b[0] == c[0] { LtTransitive(a[1..], b[1..], c[1..]); }
  }

  lemma {:induction false} LtTotal(a: bytes, b: bytes)
    ensures a == b || Lt(a, b) || Lt(b, a)
  {
    if a != [] && b != [] {
      LtTotal(a[1..], b[1..]);
      assert a == [a[0]] + a[1..] && b == [b[0]] + b[1..];
    }
  }

  lemma LtAsymmetric(a: bytes, b: bytes)
    requires Lt(a, b)
    ensures !Lt(b, a) && a != b
  {
    LtIrreflexive(a);
    if Lt(b, a) { LtTransitive(a, b, a); }
  }

  lemma LeLtTransitive(a: bytes, b: bytes, c: bytes)
    requires (Le(a, b) && Lt(b, c)) || (Lt(a, b) && Le(b, c))
    ensures Lt(a, c)
  {
    if a != b && b != c { LtTransitive(a, b, c); }
  }

  lemma {:induction false} LtCommonPrefix(p: bytes, a: bytes, b: bytes)
    ensures Lt(p + a, p + b) <==> Lt(a, b)
  {
    if p == [] {
      assert p + a == a && p + b == b;
    } else {
      LtCommonPrefix(p[1..], a, b);
      assert (p + a)[1..] == p[1..] + a && (p + b)[1..] == p[1..] + b;
    }
  }

  /** Heads of equal length decide the order unless they are equal. */
  lemma {:induction false} LtSameWidth(a: bytes, x: bytes, b: bytes, y: bytes)
    requires |a| == |b|
    ensures Lt(a + x, b + y) <==> Lt(a, b) || (a == b && Lt(x, y))
  {
    if a == [] {
      assert a + x == x && b + y == y;
    } else {
      LtSameWidth(a[1..], x, b[1..], y);
      assert (a + x)[1..] == a[1..] + x && (b + y)[1..] == b[1..] + y;
      assert a == [a[0]] + a[1..] && b == [b[0]] + b[1..];
    }
  }

  lemma PrefixIsLe(p: bytes, x: bytes)
    requires p <= x
    ensures Le(p, x)
  {
    var r := x[|p|..];
    assert x == p + r && p == p + [];
    LtCommonPrefix(p, [], r);
  }

  /** A start key `p c` and the stop key `p (c+1)` enclose exactly the strings that begin with `p c`. */
  lemma {:induction false} PrefixRange(p: bytes, c: byte, x: bytes)
    requires c < 255
    ensures Le(p + [c], x) && Lt(x, p + [c + 1]) <==> p + [c] <= x
  {
    if p == [] {
      assert p + [c] == [c] && p + [c + 1] == [c + 1];
      if x != [] {
        assert x == [x[0]] + x[1..];
        LtSameWidth([c], [], [x[0]], x[1..]);
        assert [c] + [] == [c];
        assert [c] <= x <==> x[0] == c;
      }
    } else if x != [] && x[0] == p[0] {
      PrefixRange(p[1..], c, x[1..]);
      assert (p + [c])[1..] == p[1..] + [c] && (p + [c + 1])[1..] == p[1..] + [c + 1];
      assert x == [p[0]] + x[1..] && p + [c] == [p[0]] + (p[1..] + [c]);
      assert p[1..] + [c] <= x[1..] <==> p + [c] <= x;
    }
  }

  // ---------------------------------------------------------------- fixed width

  function Pow256(w: nat): (r: nat)
    ensures r > 0
  {
    if w == 0 then 1 else 256 * Pow256(w - 1)
  }

  /** binary.BigEndian.PutUint16/32/64, keeping the low `w` bytes as Go's conversions do. */
  function BigEndian(n: nat, w: nat): (r: bytes)
    ensures |r| == w
  {
    if w == 0 then [] else BigEndian(n / 256, w - 1) + [n % 256]
  }

  function FromBigEndian(b: bytes): (n: nat) {
    if b == [] then 0 else 256 * FromBigEndian(b[..|b| - 1]) + b[|b| - 1]
  }

  /** binary.LittleEndian.PutUint32/64. */
  function LittleEndian(n: nat, w: nat): (r: bytes)
    ensures |r| == w
  {
    if w == 0 then [] else [n % 256] + LittleEndian(n / 256, w - 1)
  }

  function FromLittleEndian(b: bytes): (n: nat) {
    if b == [] then 0 else b[0] + 256 * FromLittleEndian(b[1..])
  }

  lemma {:induction false} BigEndianRoundTrip(n: nat, w: nat)
    requires n < Pow256(w)
    ensures FromBigEndian(BigEndian(n, w)) == n
  {
    if w > 0 {
      BigEndianRoundTrip(n / 256, w - 1);
      var r := BigEndian(n, w);
      assert r[..w - 1] == BigEndian(n / 256, w - 1);
    }
  }

  lemma {:induction false} LittleEndianRoundTrip(n: nat, w: nat)
    requires n < Pow256(w)
    ensures FromLittleEndian(LittleEndian(n, w)) == n
  {
    if w > 0 {
      LittleEndianRoundTrip(n / 256, w - 1);
      assert LittleEndian(n, w)[1..] == LittleEndian(n / 256, w - 1);
    }
  }

  /** Big-endian byte order is numeric order: the reason range scans over encoded numbers work. */
  lemma {:induction false} BigEndianOrder(n: nat, m: nat, w: nat)
    requires n < Pow256(w) && m < Pow256(w)
    ensures Lt(BigEndian(n, w), BigEndian(m, w)) <==> n < m
    ensures BigEndian(n, w) == BigEndian(m, w) <==> n == m
  {
    BigEndianRoundTrip(n, w);
    BigEndianRoundTrip(m, w);
    if w > 0 {
      BigEndianOrder(n / 256, m / 256, w - 1);
      LtSameWidth(BigEndian(n / 256, w - 1), [n % 256], BigEndian(m / 256, w - 1), [m % 256]);
    }
  }

  // ---------------------------------------------------------------- two's complement

  const TWO_31: int := 0x8000_0000
  const TWO_32: int := 0x1_0000_0000
  const TWO_63: int := 0x8000_0000_0000_0000
  const TWO_64: int := 0x1_0000_0000_0000_0000

  lemma Pow256Values()
    ensures Pow256(1) == 0x100 && Pow256(2) == 0x1_0000
    ensures Pow256(4) == TWO_32 && Pow256(8) == TWO_64
  {
    assert Pow256(3) == 0x100_0000;
    assert Pow256(5) == 0x100_0000_0000;
    assert Pow256(6) == 0x1_0000_0000_0000;
    assert Pow256(7) == 0x100_0000_0000_0000;
  }

  predicate IsInt64(x: int) { -TWO_63 <= x < TWO_63 }
  predicate IsInt32(x: int) { -TWO_31 <= x < TWO_31 }

  /** Conversion to int64 and int32: what Go's wrapping arithmetic leaves of a mathematical result. */
  function Wrap64(x: int): (r: int)
    ensures IsInt64(r)
    ensures IsInt64(x) ==> r == x
  {
    (x + TWO_63) % TWO_64 - TWO_63
  }

  function Wrap32(x: int): (r: int)
    ensures IsInt32(r)
    ensures IsInt32(x) ==> r == x
  {
    (x + TWO_31) % TWO_32 - TWO_31
  }

  /** uint64(x) and uint32(x) of a signed value. */
  function Unsigned64(x: int): (r: nat)
    requires IsInt64(x)
    ensures r < TWO_64 && Wrap64(r) == x
  {
    if x < 0 then x + TWO_64 else x
  }

  function Unsigned32(x: int): (r: nat)
    requires IsInt32(x)
    ensures r < TWO_32 && Wrap32(r) == x
  {
    if x < 0 then x + TWO_32 else x
  }

  // ---------------------------------------------------------------- varint

  /** binary.PutUvarint. */
  function Uvarint(n: nat): (r: bytes)
    ensures r != []
  {
    if n < 128 then [n] else [n % 128 + 128] + Uvarint(n / 128)
  }

  /** A varint ends at its first byte below 128, so no varint is a proper prefix of another. */
  lemma {:induction false} UvarintPrefixFree(n: nat, m: nat, x: bytes, y: bytes)
    requires Uvarint(n) + x == Uvarint(m) + y
    ensures n == m && x == y
  {
    var l, r := Uvarint(n) + x, Uvarint(m) + y;
    assert l[0] == Uvarint(n)[0] && r[0] == Uvarint(m)[0];
    if n < 128 {
      assert l[1..] == x && r[1..] == y;
    } else {
      assert l[1..] == Uvarint(n / 128) + x && r[1..] == Uvarint(m / 128) + y;
      UvarintPrefixFree(n / 128, m / 128, x, y);
    }
  }
}
