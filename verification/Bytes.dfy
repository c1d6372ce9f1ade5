/** Machine integers, byte strings and the fixed-width fields the firmware formats are made of. */
module Bytes {

  type byte = x: int | 0 <= x < 0x100
  type u16 = x: int | 0 <= x < 0x1_0000
  type u32 = x: int | 0 <= x < 0x1_0000_0000

  const U32_MAX: u32 := 0xFFFF_FFFF

  datatype Option<+T> = None | Some(value: T)

  datatype Result<+T, +E> = Ok(value: T) | Err(error: E)

  /** The truncating `as u32` cast. */
  function AsU32(n: nat): (v: u32)
    ensures n <= U32_MAX as nat ==> v == n
  {
    n % 0x1_0000_0000
  }

  function Le16(v: u16): (b: seq<byte>)
    ensures |b| == 2
  {
    [v % 0x100, v / 0x100]
  }

  function Le32(v: u32): (b: seq<byte>)
    ensures |b| == 4
  {
    [v % 0x100, v / 0x100 % 0x100, v / 0x100 / 0x100 % 0x100, v / 0x100 / 0x100 / 0x100]
  }

  function Be32(v: u32): (b: seq<byte>)
    ensures |b| == 4
  {
    [v / 0x100 / 0x100 / 0x100, v / 0x100 / 0x100 % 0x100, v / 0x100 % 0x100, v % 0x100]
  }

  function Rd16(b: seq<byte>, off: nat): u16
    requires off + 2 <= |b|
  {
    b[off] as int + 0x100 * b[off + 1] as int
  }

  function Join32(b0: byte, b1: byte, b2: byte, b3: byte): u32 {
    b0 as int + 0x100 * (b1 as int + 0x100 * (b2 as int + 0x100 * b3 as int))
  }

  /** One more byte below: the quotient and remainder by 0x100. */
  lemma Digit(hi: nat, lo: byte, v: nat)
    ensures v == lo as int + 0x100 * hi <==> v % 0x100 == lo && v / 0x100 == hi
  {
  }

  lemma Join32Digits(b0: byte, b1: byte, b2: byte, b3: byte, v: u32)
    ensures Join32(b0, b1, b2, b3) == v <==> [b0, b1, b2, b3] == Le32(v)
  {
    var d, s := Le32(v), [b0, b1, b2, b3];
    assert s == d <==> b0 == d[0] && b1 == d[1] && b2 == d[2] && b3 == d[3];
    Digit(b1 as int + 0x100 * (b2 as int + 0x100 * b3 as int), b0, v);
    Digit(b2 as int + 0x100 * b3 as int, b1, v / 0x100);
    Digit(b3, b2, v / 0x100 / 0x100);
  }

  function Rd32(b: seq<byte>, off: nat): u32
    requires off + 4 <= |b|
  {
    Join32(b[off], b[off + 1], b[off + 2], b[off + 3])
  }

  function RdBe32(b: seq<byte>, off: nat): u32
    requires off + 4 <= |b|
  {
    Join32(b[off + 3], b[off + 2], b[off + 1], b[off])
  }

  /** A little-endian field reads v exactly when its four bytes are Le32(v). */
  lemma Rd32Iff(b: seq<byte>, off: nat, v: u32)
    requires off + 4 <= |b|
    ensures Rd32(b, off) == v <==> b[off..off + 4] == Le32(v)
  {
    assert b[off..off + 4] == [b[off], b[off + 1], b[off + 2], b[off + 3]];
    Join32Digits(b[off], b[off + 1], b[off + 2], b[off + 3], v);
  }

  lemma RdBe32Iff(b: seq<byte>, off: nat, v: u32)
    requires off + 4 <= |b|
    ensures RdBe32(b, off) == v <==> b[off..off + 4] == Be32(v)
  {
    var f, d := b[off..off + 4], Le32(v);
    assert f == [b[off], b[off + 1], b[off + 2], b[off + 3]];
    assert Be32(v) == [d[3], d[2], d[1], d[0]];
    Join32Digits(b[off + 3], b[off + 2], b[off + 1], b[off], v);
    assert d == [d[0], d[1], d[2], d[3]];
  }

  /** What the fields are worth, byte by byte. */
  lemma FieldValues(b: seq<byte>, off: nat)
    requires off + 4 <= |b|
    ensures var b0, b1, b2, b3 := b[off] as int, b[off + 1] as int, b[off + 2] as int, b[off + 3] as int;
            && Rd16(b, off) == b0 + 0x100 * b1
            && Rd32(b, off) == b0 + 0x100 * b1 + 0x1_0000 * b2 + 0x100_0000 * b3
            && RdBe32(b, off) == 0x100_0000 * b0 + 0x1_0000 * b1 + 0x100 * b2 + b3
  {
  }

  lemma Rd16Iff(b: seq<byte>, off: nat, v: u16)
    requires off + 2 <= |b|
    ensures Rd16(b, off) == v <==> b[off..off + 2] == Le16(v)
  {
  }

  function Zeros(n: nat): (z: seq<byte>)
    ensures |z| == n && forall k :: 0 <= k < n ==> z[k] == 0
  {
    seq(n, _ => 0)
  }

  ghost predicate AllZero(s: seq<byte>, lo: nat, hi: nat) {
    forall k :: lo <= k < hi && k < |s| ==> s[k] == 0
  }

  /** The bytes of a C string field: those before the first NUL. */
  function UpToNul(f: seq<byte>): (r: seq<byte>)
    ensures r <= f && 0 !in r
    ensures |r| < |f| ==> f[|r|] == 0
  {
    if f == [] || f[0] == 0 then [] else [f[0]] + UpToNul(f[1..])
  }

  /** What a range write leaves behind: t over s from off on. */
  function Overlay(s: seq<byte>, off: nat, t: seq<byte>): (r: seq<byte>)
    requires off + |t| <= |s|
    ensures |r| == |s|
    ensures forall k :: 0 <= k < |s| ==> r[k] == if off <= k < off + |t| then t[k - off] else s[k]
  {
    s[..off] + t + s[off + |t|..]
  }

  /** Sixteen header bytes made of four fields. */
  function Four(a: seq<byte>, b: seq<byte>, c: seq<byte>, d: seq<byte>): (r: seq<byte>)
    requires |a| == |b| == |c| == |d| == 4
    ensures |r| == 16 && r[0..4] == a && r[4..8] == b && r[8..12] == c && r[12..16] == d
  {
    a + b + c + d
  }

  lemma OverlayAppend(s: seq<byte>, off: nat, t: seq<byte>, u: seq<byte>)
    requires off + |t| + |u| <= |s|
    ensures Overlay(Overlay(s, off, t), off + |t|, u) == Overlay(s, off, t + u)
  {
  }

  lemma ConcatEq(a: seq<byte>, b: seq<byte>, c: seq<byte>, d: seq<byte>)
    requires |a| == |c|
    ensures a + b == c + d <==> a == c && b == d
  {
    if a + b == c + d {
      assert (a + b)[..|a|] == a && (c + d)[..|a|] == c;
      assert (a + b)[|a|..] == b && (c + d)[|a|..] == d;
    }
  }

  /** A slice of a slice. */
  lemma Subslice(s: seq<byte>, t: seq<byte>, at: nat, lo: nat, hi: nat)
    requires lo <= hi <= |t| && at + |t| <= |s| && s[at..at + |t|] == t
    ensures s[at + lo..at + hi] == t[lo..hi]
  {
    assert forall k :: lo <= k < hi ==> s[at + k] == t[k];
  }

  /** A byte-range write into a buffer, in place. */
  method Put(a: array<byte>, off: nat, t: seq<byte>)
    requires off + |t| <= a.Length
    modifies a
    ensures a[..] == Overlay(old(a[..]), off, t)
  {
    forall k | 0 <= k < |t| {
      a[off + k] := t[k];
    }
  }

  /** The same write, seen as extending what is already written before off. */
  method PutNext(a: array<byte>, off: nat, t: seq<byte>)
    requires off + |t| <= a.Length
    modifies a
    ensures a[..off + |t|] == old(a[..off]) + t
    ensures forall k :: off + |t| <= k < a.Length ==> a[k] == old(a[k])
  {
    Put(a, off, t);
  }

  // ----- arithmetic

  function Pow2(n: nat): (p: nat)
    ensures p > 0
  {
    if n == 0 then 1 else 2 * Pow2(n - 1)
  }

  lemma NonzeroMultiple(d: int, a: nat)
    requires a > 0 && d != 0
    ensures d * a <= 0 - a || a <= d * a
  {
  }

  /** Division with remainder is unique. */
  lemma QuotientUnique(x: nat, m: nat, q: nat, r: nat)
    requires m > 0 && x == q * m + r && r < m
    ensures x / m == q && x % m == r
  {
    var d := q - x / m;
    assert d * m == x % m - r;
    if d != 0 {
      NonzeroMultiple(d, m);
    }
  }

  /** The cast drops whole multiples of 2^32. */
  lemma AsU32Wraps(n: u32, k: nat)
    ensures AsU32(k * 0x1_0000_0000 + n) == n
  {
    QuotientUnique(k * 0x1_0000_0000 + n, 0x1_0000_0000, k, n);
  }
}
