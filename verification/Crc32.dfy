/** CRC-32 over the reflected polynomial 0xEDB88320: initial value and final inversion all ones. */
module Crc32 {
  import opened Bytes

  /** Register bits, least significant first. */
  type Register = r: seq<bool> | |r| == 32 witness seq(32, _ => false)

  const POLYNOMIAL: u32 := 0xEDB8_8320
  const BYTE_BITS: nat := 8

  function Ones(): Register {
    seq(32, _ => true)
  }

  function ToBits(v: nat): Register {
    seq(32, i requires 0 <= i => v / Pow2(i) % 2 == 1)
  }

  function FromBits(r: seq<bool>): (v: nat)
    ensures v < Pow2(|r|)
  {
    if r == [] then 0 else (if r[0] then 1 else 0) + 2 * FromBits(r[1..])
  }

  lemma Pow2Is32Bit()
    ensures Pow2(32) == 0x1_0000_0000
  {
    assert Pow2(8) == 0x100;
    assert Pow2(14) == 0x4000;
    assert Pow2(20) == 0x10_0000;
    assert Pow2(26) == 0x400_0000;
  }

  function Xor(a: Register, b: Register): Register {
    seq(32, i requires 0 <= i < 32 => a[i] != b[i])
  }

  function Shift(c: Register): Register {
    var half := c[1..] + [false];
    if c[0] then Xor(half, ToBits(POLYNOMIAL)) else half
  }

  /** The register after n shifts. */
  function ShiftBy(c: Register, n: nat): Register {
    if n == 0 then c else Shift(ShiftBy(c, n - 1))
  }

  /** The register after the first n bytes of s. */
  function Feed(s: seq<byte>, n: nat): Register
    requires n <= |s|
  {
    if n == 0 then Ones() else ShiftBy(Xor(Feed(s, n - 1), ToBits(s[n - 1])), BYTE_BITS)
  }

  function Crc32(s: seq<byte>): u32 {
    Pow2Is32Bit();
    FromBits(Xor(Feed(s, |s|), Ones()))
  }

  // ----- every one-byte change is detected

  lemma {:induction false} FromBitsInjective(a: seq<bool>, b: seq<bool>)
    requires |a| == |b| && FromBits(a) == FromBits(b)
    ensures a == b
  {
    if a == [] {
    } else {
      assert a[0] == b[0];
      FromBitsInjective(a[1..], b[1..]);
      assert a == [a[0]] + a[1..] && b == [b[0]] + b[1..];
    }
  }

  lemma XorInjective(a: Register, b: Register, m: Register)
    requires Xor(a, m) == Xor(b, m)
    ensures a == b
  {
    forall i | 0 <= i < 32
      ensures a[i] == b[i]
    {
      assert Xor(a, m)[i] == (a[i] != m[i]);
      assert Xor(b, m)[i] == (b[i] != m[i]);
    }
  }

  lemma XorInjectiveRight(m: Register, a: Register, b: Register)
    requires Xor(m, a) == Xor(m, b)
    ensures a == b
  {
    forall i | 0 <= i < 32
      ensures a[i] == b[i]
    {
      assert Xor(m, a)[i] == (m[i] != a[i]);
      assert Xor(m, b)[i] == (m[i] != b[i]);
    }
  }

  /** The polynomial's top bit is set, so a shift tells by its top bit which bit it dropped. */
  lemma TopBit()
    ensures ToBits(POLYNOMIAL)[31]
  {
    assert Pow2(8) == 0x100;
    assert Pow2(14) == 0x4000;
    assert Pow2(20) == 0x10_0000;
    assert Pow2(26) == 0x400_0000;
    assert Pow2(31) == 0x8000_0000;
    assert ToBits(POLYNOMIAL)[31] == (POLYNOMIAL as nat / Pow2(31) % 2 == 1);
  }

  lemma ShiftShowsLowBit(c: Register)
    ensures Shift(c)[31] == c[0]
    ensures c[1..] + [false] == if c[0] then Xor(Shift(c), ToBits(POLYNOMIAL)) else Shift(c)
  {
    TopBit();
    var half, p := c[1..] + [false], ToBits(POLYNOMIAL);
    assert half[31] == false;
    if c[0] {
      assert Shift(c) == Xor(half, p);
      assert Xor(half, p)[31] == (half[31] != p[31]);
      forall i | 0 <= i < 32
        ensures Xor(Xor(half, p), p)[i] == half[i]
      {
        assert Xor(half, p)[i] == (half[i] != p[i]);
      }
    }
  }

  lemma ShiftInjective(a: Register, b: Register)
    requires Shift(a) == Shift(b)
    ensures a == b
  {
    ShiftShowsLowBit(a);
    ShiftShowsLowBit(b);
    var ha, hb := a[1..] + [false], b[1..] + [false];
    assert ha == hb;
    assert ha[..31] == a[1..] && hb[..31] == b[1..];
    assert a == [a[0]] + a[1..] && b == [b[0]] + b[1..];
  }

  lemma {:induction false} ShiftByInjective(a: Register, b: Register, n: nat)
    requires ShiftBy(a, n) == ShiftBy(b, n)
    ensures a == b
  {
    if n == 0 {
    } else {
      ShiftInjective(ShiftBy(a, n - 1), ShiftBy(b, n - 1));
      ShiftByInjective(a, b, n - 1);
    }
  }

  lemma ToBitsOfByte(x: byte, y: byte)
    requires ToBits(x) == ToBits(y)
    ensures x == y
  {
    var bx, bz := ToBits(x), ToBits(y);
    forall i | 0 <= i < 8
      ensures x as nat / Pow2(i) % 2 == y as nat / Pow2(i) % 2
    {
      assert bx[i] == (x as nat / Pow2(i) % 2 == 1) && bz[i] == (y as nat / Pow2(i) % 2 == 1);
    }
    BytesByBits(x, y);
  }

  lemma BytesByBits(x: byte, y: byte)
    requires forall i :: 0 <= i < 8 ==> x as nat / Pow2(i) % 2 == y as nat / Pow2(i) % 2
    ensures x == y
  {
    SameLowBits(x, y, 8);
    assert Pow2(8) == 0x100;
    QuotientUnique(x, Pow2(8), 0, x);
    QuotientUnique(y, Pow2(8), 0, y);
  }

  lemma {:induction false} SameLowBits(x: nat, y: nat, n: nat)
    requires forall i :: 0 <= i < n ==> x / Pow2(i) % 2 == y / Pow2(i) % 2
    ensures x % Pow2(n) == y % Pow2(n)
  {
    if n == 0 {
    } else {
      SameLowBits(x, y, n - 1);
      LowBits(x, Pow2(n - 1));
      LowBits(y, Pow2(n - 1));
      assert x / Pow2(n - 1) % 2 == y / Pow2(n - 1) % 2;
    }
  }

  lemma LowBits(x: nat, p: nat)
    requires p > 0
    ensures x % (2 * p) == x % p + x / p % 2 * p
  {
    var q, r := x / p, x % p;
    assert x == q * p + r;
    DoubledRemainder(q / 2, q % 2, p, r);
  }

  lemma DoubledRemainder(h: nat, b: nat, p: nat, r: nat)
    requires b < 2 && r < p
    ensures ((2 * h + b) * p + r) % (2 * p) == r + b * p
  {
    SplitProduct(h, b, p);
    assert b == 0 || b == 1;
    QuotientUnique((2 * h + b) * p + r, 2 * p, h, b * p + r);
  }

  lemma SplitProduct(h: nat, b: nat, p: nat)
    ensures (2 * h + b) * p == h * (2 * p) + b * p
  {
  }

  lemma FeedStep(s: seq<byte>, n: nat)
    requires 0 < n <= |s|
    ensures Feed(s, n) == ShiftBy(Xor(Feed(s, n - 1), ToBits(s[n - 1])), BYTE_BITS)
  {
  }

  /** Feeding keeps apart registers that differ before equal bytes, and equal registers before different bytes. */
  lemma StepKeepsApart(c: Register, d: Register, x: byte, y: byte)
    requires (c != d && x == y) || (c == d && x != y)
    ensures ShiftBy(Xor(c, ToBits(x)), BYTE_BITS) != ShiftBy(Xor(d, ToBits(y)), BYTE_BITS)
  {
    if ShiftBy(Xor(c, ToBits(x)), BYTE_BITS) == ShiftBy(Xor(d, ToBits(y)), BYTE_BITS) {
      ShiftByInjective(Xor(c, ToBits(x)), Xor(d, ToBits(y)), BYTE_BITS);
      if x == y {
        XorInjective(c, d, ToBits(x));
      } else {
        XorInjectiveRight(c, ToBits(x), ToBits(y));
        ToBitsOfByte(x, y);
      }
    }
  }

  /** Registers that differ after some byte still differ after any equal bytes that follow. */
  lemma {:induction false} StillDifferent(s: seq<byte>, t: seq<byte>, i: nat, n: nat)
    requires |s| == |t| && i < n <= |s| && s[i] != t[i]
    requires forall k :: 0 <= k < n && k != i ==> s[k] == t[k]
    ensures Feed(s, n) != Feed(t, n)
  {
    if i == n - 1 {
      SameFeed(s, t, i);
    } else {
      StillDifferent(s, t, i, n - 1);
    }
    FeedKeepsApart(s, t, n);
  }

  lemma FeedKeepsApart(s: seq<byte>, t: seq<byte>, n: nat)
    requires 0 < n <= |s| == |t|
    requires (Feed(s, n - 1) != Feed(t, n - 1) && s[n - 1] == t[n - 1])
          || (Feed(s, n - 1) == Feed(t, n - 1) && s[n - 1] != t[n - 1])
    ensures Feed(s, n) != Feed(t, n)
  {
    FeedStep(s, n);
    FeedStep(t, n);
    StepKeepsApart(Feed(s, n - 1), Feed(t, n - 1), s[n - 1], t[n - 1]);
  }

  lemma {:induction false} SameFeed(s: seq<byte>, t: seq<byte>, n: nat)
    requires n <= |s| && n <= |t| && forall k :: 0 <= k < n ==> s[k] == t[k]
    ensures Feed(s, n) == Feed(t, n)
  {
    if n == 0 {
    } else {
      SameFeed(s, t, n - 1);
    }
  }

  /** No change confined to one byte goes unnoticed. */
  lemma OneByteChangeDetected(s: seq<byte>, t: seq<byte>, i: nat)
    requires |s| == |t| && i < |s| && s[i] != t[i] && forall k :: 0 <= k < |s| && k != i ==> s[k] == t[k]
    ensures Crc32(s) != Crc32(t)
  {
    StillDifferent(s, t, i, |s|);
    if Crc32(s) == Crc32(t) {
      FromBitsInjective(Xor(Feed(s, |s|), Ones()), Xor(Feed(t, |t|), Ones()));
      XorInjective(Feed(s, |s|), Feed(t, |t|), Ones());
    }
  }
}
