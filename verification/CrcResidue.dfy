/** What the checksum of data followed by its own checksum is: a law no other polynomial meets. */
module CrcResidue {
  import opened Bytes
  import opened Crc32

  // ----- bits of numbers

  lemma LowestBit(x: seq<bool>)
    requires x != []
    ensures FromBits(x) / Pow2(0) % 2 == if x[0] then 1 else 0
  {
    assert Pow2(0) == 1;
    QuotientUnique(FromBits(x), 2, FromBits(x[1..]), if x[0] then 1 else 0);
  }

  /** Bit i of the number with bits x. */
  lemma {:induction false} BitOf(x: seq<bool>, i: nat)
    ensures FromBits(x) / Pow2(i) % 2 == if i < |x| && x[i] then 1 else 0
    decreases i
  {
    if x == [] {
      ZeroQuotient(Pow2(i));
    } else if i == 0 {
      LowestBit(x);
    } else {
      var rest := x[1..];
      BitOf(rest, i - 1);
      BitAbove(x, i - 1);
      assert i < |x| ==> rest[i - 1] == x[i];
    }
  }

  lemma BitAbove(x: seq<bool>, i: nat)
    requires x != []
    ensures FromBits(x) / Pow2(i + 1) == FromBits(x[1..]) / Pow2(i)
  {
    HalfQuotient(FromBits(x[1..]), if x[0] then 1 else 0, Pow2(i));
  }

  lemma ZeroQuotient(p: nat)
    requires p > 0
    ensures 0 / p == 0
  {
  }

  lemma HalfQuotient(y: nat, b: nat, p: nat)
    requires b < 2 && p > 0
    ensures (b + 2 * y) / (2 * p) == y / p
  {
    var q, r := y / p, y % p;
    assert y == q * p + r;
    assert b + 2 * y == q * (2 * p) + (b + 2 * r);
    QuotientUnique(b + 2 * y, 2 * p, q, b + 2 * r);
  }

  lemma {:induction false} FromBitsConcat(a: seq<bool>, b: seq<bool>)
    ensures FromBits(a + b) == FromBits(a) + Pow2(|a|) * FromBits(b)
  {
    if a == [] {
      assert a + b == b;
    } else {
      FromBitsConcat(a[1..], b);
      assert (a + b)[1..] == a[1..] + b;
      Doubled(Pow2(|a| - 1), FromBits(b));
    }
  }

  lemma Doubled(p: nat, x: nat)
    ensures 2 * (p * x) == (2 * p) * x
  {
  }

  /** A register's number, byte by byte. */
  lemma FromBytes(r: Register)
    ensures FromBits(r[..8]) < 0x100 && FromBits(r[8..16]) < 0x100
    ensures FromBits(r[16..24]) < 0x100 && FromBits(r[24..]) < 0x100
    ensures FromBits(r) == Join32(FromBits(r[..8]), FromBits(r[8..16]), FromBits(r[16..24]), FromBits(r[24..]))
  {
    ByteBound(r[..8]);
    ByteBound(r[8..16]);
    ByteBound(r[16..24]);
    ByteBound(r[24..]);
    LowByte(r, 0);
    LowByte(r, 8);
    LowByte(r, 16);
    assert r[0..] == r && r[0..8] == r[..8];
  }

  lemma ByteBound(x: seq<bool>)
    requires |x| == 8
    ensures FromBits(x) < 0x100
  {
    assert Pow2(8) == 0x100;
  }

  lemma LowByte(x: seq<bool>, n: nat)
    requires n + 8 <= |x|
    ensures FromBits(x[n..]) == FromBits(x[n..n + 8]) + 0x100 * FromBits(x[n + 8..])
  {
    assert Pow2(8) == 0x100;
    FromBitsConcat(x[n..n + 8], x[n + 8..]);
    assert x[n..] == x[n..n + 8] + x[n + 8..];
  }

  /** The bits of m, n places down. */
  function Down(m: Register, n: nat): Register {
    seq(32, i requires 0 <= i => i + n < 32 && m[i + n])
  }

  /** The lowest eight bits of m, and the others. */
  function Low(m: Register): Register {
    seq(32, i requires 0 <= i < 32 => i < BYTE_BITS && m[i])
  }

  function High(m: Register): Register {
    seq(32, i requires 0 <= i < 32 => BYTE_BITS <= i && m[i])
  }

  /** Bits that are not dropped only move down. */
  lemma ShiftXor(a: Register, m: Register)
    requires !m[0]
    ensures Shift(Xor(a, m)) == Xor(Shift(a), Down(m, 1))
  {
    var x, p := Xor(a, m), ToBits(POLYNOMIAL);
    var hx, ha := x[1..] + [false], a[1..] + [false];
    assert x[0] == a[0];
    forall i | 0 <= i < 32
      ensures Shift(x)[i] == Xor(Shift(a), Down(m, 1))[i]
    {
      assert hx[i] == (ha[i] != Down(m, 1)[i]);
      if a[0] {
        assert Shift(x)[i] == (hx[i] != p[i]) && Shift(a)[i] == (ha[i] != p[i]);
      }
    }
  }

  lemma {:induction false} ShiftByXor(a: Register, m: Register, n: nat)
    requires forall i :: 0 <= i < n && i < 32 ==> !m[i]
    ensures ShiftBy(Xor(a, m), n) == Xor(ShiftBy(a, n), Down(m, n))
  {
    if n == 0 {
      assert Down(m, 0) == m;
    } else {
      ShiftByXor(a, m, n - 1);
      ShiftXor(ShiftBy(a, n - 1), Down(m, n - 1));
      assert Down(Down(m, n - 1), 1) == Down(m, n);
    }
  }

  lemma {:induction false} ShiftByAdds(c: Register, m: nat, n: nat)
    ensures ShiftBy(ShiftBy(c, m), n) == ShiftBy(c, m + n)
  {
    if n == 0 {
    } else {
      ShiftByAdds(c, m, n - 1);
    }
  }

  /** A whole word in the register, its first byte shifted out, is that byte fed and the rest of the word. */
  lemma ByteOfWord(r: Register, w: Register)
    ensures ShiftBy(Xor(r, w), BYTE_BITS) == Xor(ShiftBy(Xor(r, Low(w)), BYTE_BITS), Down(w, BYTE_BITS))
  {
    var x := Xor(Xor(r, Low(w)), High(w));
    forall i | 0 <= i < 32
      ensures x[i] == Xor(r, w)[i]
    {
      assert Xor(r, Low(w))[i] == (r[i] != Low(w)[i]);
    }
    assert x == Xor(r, w);
    ShiftByXor(Xor(r, Low(w)), High(w), BYTE_BITS);
    assert Down(High(w), BYTE_BITS) == Down(w, BYTE_BITS);
  }

  /** Registers after k bytes of a word, fed one by one. */
  ghost predicate WordFed(r: Register, w: Register, k: nat, now: Register) {
    ShiftBy(Xor(r, w), BYTE_BITS * k) == Xor(now, Down(w, BYTE_BITS * k))
  }

  lemma WordFedStep(r: Register, w: Register, k: nat, now: Register, b: byte)
    requires k < 4 && WordFed(r, w, k, now) && ToBits(b) == Low(Down(w, BYTE_BITS * k))
    ensures WordFed(r, w, k + 1, ShiftBy(Xor(now, ToBits(b)), BYTE_BITS))
  {
    ShiftByAdds(Xor(r, w), BYTE_BITS * k, BYTE_BITS);
    ByteOfWord(now, Down(w, BYTE_BITS * k));
    assert Down(Down(w, BYTE_BITS * k), BYTE_BITS) == Down(w, BYTE_BITS * (k + 1));
  }

  lemma ByteBits(w: Register, k: nat, b: byte)
    requires k < 4 && b == FromBits(w[8 * k..8 * k + 8])
    ensures ToBits(b) == Low(Down(w, BYTE_BITS * k))
  {
    var x := w[8 * k..8 * k + 8];
    forall i | 0 <= i < 32
      ensures ToBits(b)[i] == Low(Down(w, BYTE_BITS * k))[i]
    {
      BitOf(x, i);
    }
  }

  /** The bytes of t are those of the word in w, lowest first. */
  ghost predicate BytesOf(t: seq<byte>, w: Register) {
    |t| == 4 && forall k :: 0 <= k < 4 ==> t[k] == FromBits(w[8 * k..8 * k + 8])
  }

  lemma FeedByte(u: seq<byte>, n: nat, r: Register, w: Register, k: nat, t: seq<byte>)
    requires k < 4 && BytesOf(t, w) && n + k < |u| && u[n + k] == t[k]
    requires WordFed(r, w, k, Feed(u, n + k))
    ensures WordFed(r, w, k + 1, Feed(u, n + k + 1))
  {
    ByteBits(w, k, t[k]);
    WordFedStep(r, w, k, Feed(u, n + k), t[k]);
    FeedStep(u, n + k + 1);
  }

  lemma ByteAt(u: seq<byte>, n: nat, t: seq<byte>, k: nat)
    requires n + 4 <= |u| && u[n..n + 4] == t && k < 4
    ensures u[n + k] == t[k]
  {
  }

  lemma {:induction false} FeedBytes(u: seq<byte>, n: nat, w: Register, t: seq<byte>, k: nat)
    requires k <= 4 && n + 4 <= |u| && u[n..n + 4] == t && BytesOf(t, w)
    ensures WordFed(Feed(u, n), w, k, Feed(u, n + k))
  {
    if k == 0 {
      assert Down(w, 0) == w;
    } else {
      FeedBytes(u, n, w, t, k - 1);
      ByteAt(u, n, t, k - 1);
      FeedByte(u, n, Feed(u, n), w, k - 1, t);
    }
  }

  /** Feeding the four bytes of a word. */
  lemma FeedWord(s: seq<byte>, t: seq<byte>, w: Register, n: nat)
    requires |t| == 4 && t == Le32(WordOf(w)) && n == 32
    ensures Feed(s + t, |s| + 4) == ShiftBy(Xor(Feed(s, |s|), w), n)
  {
    WordBytes(w, t);
    FeedTail(s, t, w, n);
  }

  lemma FeedTail(s: seq<byte>, t: seq<byte>, w: Register, n: nat)
    requires BytesOf(t, w) && n == 32
    ensures Feed(s + t, |s| + 4) == ShiftBy(Xor(Feed(s, |s|), w), n)
  {
    var u := s + t;
    SameFeed(u, s, |s|);
    FeedBytes(u, |s|, w, t, 4);
    AllFed(Feed(u, |s|), w, Feed(u, |s| + 4), n);
  }

  lemma AllFed(r: Register, w: Register, now: Register, n: nat)
    requires WordFed(r, w, 4, now) && n == 32
    ensures now == ShiftBy(Xor(r, w), n)
  {
    XorZero(now, Down(w, n));
  }

  lemma XorZero(a: Register, z: Register)
    requires forall i :: 0 <= i < 32 ==> !z[i]
    ensures Xor(a, z) == a
  {
  }

  function WordOf(w: Register): u32 {
    Pow2Is32Bit();
    FromBits(w)
  }

  lemma WordBytes(w: Register, t: seq<byte>)
    requires t == Le32(WordOf(w))
    ensures BytesOf(t, w)
  {
    FromBytes(w);
    assert w[..8] == w[0..8] && w[24..] == w[24..32];
    Join32Digits(FromBits(w[0..8]), FromBits(w[8..16]), FromBits(w[16..24]), FromBits(w[24..32]), WordOf(w));
  }

  // ----- registers as machine words, to compute with constants

  /** The register holds the bits of c. */
  ghost predicate IsWord(r: Register, c: bv32) {
    IsByte0(r, c) && IsByte1(r, c) && IsByte2(r, c) && IsByte3(r, c)
  }

  ghost predicate IsByte0(r: Register, c: bv32) {
    && r[0] == (c & 0x1 != 0) && r[1] == (c & 0x2 != 0) && r[2] == (c & 0x4 != 0) && r[3] == (c & 0x8 != 0)
    && r[4] == (c & 0x10 != 0) && r[5] == (c & 0x20 != 0) && r[6] == (c & 0x40 != 0) && r[7] == (c & 0x80 != 0)
  }

  ghost predicate IsByte1(r: Register, c: bv32) {
    && r[8] == (c & 0x100 != 0) && r[9] == (c & 0x200 != 0) && r[10] == (c & 0x400 != 0) && r[11] == (c & 0x800 != 0)
    && r[12] == (c & 0x1000 != 0) && r[13] == (c & 0x2000 != 0)
    && r[14] == (c & 0x4000 != 0) && r[15] == (c & 0x8000 != 0)
  }

  ghost predicate IsByte2(r: Register, c: bv32) {
    && r[16] == (c & 0x1_0000 != 0) && r[17] == (c & 0x2_0000 != 0)
    && r[18] == (c & 0x4_0000 != 0) && r[19] == (c & 0x8_0000 != 0)
    && r[20] == (c & 0x10_0000 != 0) && r[21] == (c & 0x20_0000 != 0)
    && r[22] == (c & 0x40_0000 != 0) && r[23] == (c & 0x80_0000 != 0)
  }

  ghost predicate IsByte3(r: Register, c: bv32) {
    && r[24] == (c & 0x100_0000 != 0) && r[25] == (c & 0x200_0000 != 0)
    && r[26] == (c & 0x400_0000 != 0) && r[27] == (c & 0x800_0000 != 0)
    && r[28] == (c & 0x1000_0000 != 0) && r[29] == (c & 0x2000_0000 != 0)
    && r[30] == (c & 0x4000_0000 != 0) && r[31] == (c & 0x8000_0000 != 0)
  }

  function ShiftWord(c: bv32): bv32 {
    if c & 1 != 0 then (c >> 1) ^ 0xEDB8_8320 else c >> 1
  }

  /** Bit by bit, what a shift does: each bit comes from above, and the polynomial is added for a dropped one. */
  lemma ShiftedByte0(c: bv32, d: bv32)
    requires d == ShiftWord(c)
    ensures d & 0x1 != 0 <==> (c & 0x2 != 0)
    ensures d & 0x2 != 0 <==> (c & 0x4 != 0)
    ensures d & 0x4 != 0 <==> (c & 0x8 != 0)
    ensures d & 0x8 != 0 <==> (c & 0x10 != 0)
    ensures d & 0x10 != 0 <==> (c & 0x20 != 0)
    ensures d & 0x20 != 0 <==> (c & 0x40 != 0) != (c & 1 != 0)
    ensures d & 0x40 != 0 <==> (c & 0x80 != 0)
    ensures d & 0x80 != 0 <==> (c & 0x100 != 0)
  {
  }

  lemma ShiftedByte1(c: bv32, d: bv32)
    requires d == ShiftWord(c)
    ensures d & 0x100 != 0 <==> (c & 0x200 != 0) != (c & 1 != 0)
    ensures d & 0x200 != 0 <==> (c & 0x400 != 0) != (c & 1 != 0)
    ensures d & 0x400 != 0 <==> (c & 0x800 != 0)
    ensures d & 0x800 != 0 <==> (c & 0x1000 != 0)
    ensures d & 0x1000 != 0 <==> (c & 0x2000 != 0)
    ensures d & 0x2000 != 0 <==> (c & 0x4000 != 0)
    ensures d & 0x4000 != 0 <==> (c & 0x8000 != 0)
    ensures d & 0x8000 != 0 <==> (c & 0x1_0000 != 0) != (c & 1 != 0)
  {
  }

  lemma ShiftedByte2(c: bv32, d: bv32)
    requires d == ShiftWord(c)
    ensures d & 0x1_0000 != 0 <==> (c & 0x2_0000 != 0)
    ensures d & 0x2_0000 != 0 <==> (c & 0x4_0000 != 0)
    ensures d & 0x4_0000 != 0 <==> (c & 0x8_0000 != 0)
    ensures d & 0x8_0000 != 0 <==> (c & 0x10_0000 != 0) != (c & 1 != 0)
    ensures d & 0x10_0000 != 0 <==> (c & 0x20_0000 != 0) != (c & 1 != 0)
    ensures d & 0x20_0000 != 0 <==> (c & 0x40_0000 != 0) != (c & 1 != 0)
    ensures d & 0x40_0000 != 0 <==> (c & 0x80_0000 != 0)
    ensures d & 0x80_0000 != 0 <==> (c & 0x100_0000 != 0) != (c & 1 != 0)
  {
  }

  lemma ShiftedByte3(c: bv32, d: bv32)
    requires d == ShiftWord(c)
    ensures d & 0x100_0000 != 0 <==> (c & 0x200_0000 != 0) != (c & 1 != 0)
    ensures d & 0x200_0000 != 0 <==> (c & 0x400_0000 != 0)
    ensures d & 0x400_0000 != 0 <==> (c & 0x800_0000 != 0) != (c & 1 != 0)
    ensures d & 0x800_0000 != 0 <==> (c & 0x1000_0000 != 0) != (c & 1 != 0)
    ensures d & 0x1000_0000 != 0 <==> (c & 0x2000_0000 != 0)
    ensures d & 0x2000_0000 != 0 <==> (c & 0x4000_0000 != 0) != (c & 1 != 0)
    ensures d & 0x4000_0000 != 0 <==> (c & 0x8000_0000 != 0) != (c & 1 != 0)
    ensures d & 0x8000_0000 != 0 <==> c & 1 != 0
  {
  }

  lemma ShiftAt(r: Register, i: nat)
    requires i < 32
    ensures Shift(r)[i] == ((i < 31 && r[i + 1]) != (r[0] && ToBits(POLYNOMIAL)[i]))
  {
    var half, p := r[1..] + [false], ToBits(POLYNOMIAL);
    assert half[i] == (i < 31 && r[i + 1]);
    if r[0] {
      assert Shift(r)[i] == (half[i] != p[i]);
    }
  }

  lemma ShiftIsWord(r: Register, c: bv32)
    requires IsWord(r, c) && IsWord(ToBits(POLYNOMIAL), 0xEDB8_8320)
    ensures IsWord(Shift(r), ShiftWord(c))
  {
    ShiftIsByte0(r, c);
    ShiftIsByte1(r, c);
    ShiftIsByte2(r, c);
    ShiftIsByte3(r, c);
  }

  lemma ShiftIsByte0(r: Register, c: bv32)
    requires IsWord(r, c) && IsByte0(ToBits(POLYNOMIAL), 0xEDB8_8320)
    ensures IsByte0(Shift(r), ShiftWord(c))
  {
    ShiftedByte0(c, ShiftWord(c));
    ShiftAt(r, 0);
    ShiftAt(r, 1);
    ShiftAt(r, 2);
    ShiftAt(r, 3);
    ShiftAt(r, 4);
    ShiftAt(r, 5);
    ShiftAt(r, 6);
    ShiftAt(r, 7);
  }

  lemma ShiftIsByte1(r: Register, c: bv32)
    requires IsWord(r, c) && IsByte1(ToBits(POLYNOMIAL), 0xEDB8_8320)
    ensures IsByte1(Shift(r), ShiftWord(c))
  {
    ShiftedByte1(c, ShiftWord(c));
    ShiftAt(r, 8);
    ShiftAt(r, 9);
    ShiftAt(r, 10);
    ShiftAt(r, 11);
    ShiftAt(r, 12);
    ShiftAt(r, 13);
    ShiftAt(r, 14);
    ShiftAt(r, 15);
  }

  lemma ShiftIsByte2(r: Register, c: bv32)
    requires IsWord(r, c) && IsByte2(ToBits(POLYNOMIAL), 0xEDB8_8320)
    ensures IsByte2(Shift(r), ShiftWord(c))
  {
    ShiftedByte2(c, ShiftWord(c));
    ShiftAt(r, 16);
    ShiftAt(r, 17);
    ShiftAt(r, 18);
    ShiftAt(r, 19);
    ShiftAt(r, 20);
    ShiftAt(r, 21);
    ShiftAt(r, 22);
    ShiftAt(r, 23);
  }

  lemma ShiftIsByte3(r: Register, c: bv32)
    requires IsWord(r, c) && IsByte3(ToBits(POLYNOMIAL), 0xEDB8_8320)
    ensures IsByte3(Shift(r), ShiftWord(c))
  {
    ShiftedByte3(c, ShiftWord(c));
    ShiftAt(r, 24);
    ShiftAt(r, 25);
    ShiftAt(r, 26);
    ShiftAt(r, 27);
    ShiftAt(r, 28);
    ShiftAt(r, 29);
    ShiftAt(r, 30);
    ShiftAt(r, 31);
  }

  function ShiftWordBy(c: bv32, n: nat): bv32 {
    if n == 0 then c else ShiftWord(ShiftWordBy(c, n - 1))
  }

  lemma {:induction false} ShiftByIsWord(r: Register, c: bv32, n: nat)
    requires IsWord(r, c) && IsWord(ToBits(POLYNOMIAL), 0xEDB8_8320)
    ensures IsWord(ShiftBy(r, n), ShiftWordBy(c, n))
  {
    if n == 0 {
    } else {
      ShiftByIsWord(r, c, n - 1);
      ShiftIsWord(ShiftBy(r, n - 1), ShiftWordBy(c, n - 1));
    }
  }

  lemma {:induction false} ShiftWordByAdds(c: bv32, m: nat, n: nat)
    ensures ShiftWordBy(ShiftWordBy(c, m), n) == ShiftWordBy(c, m + n)
  {
    if n == 0 {
    } else {
      ShiftWordByAdds(c, m, n - 1);
    }
  }

  lemma OnesShifted()
    ensures ShiftWordBy(0xFFFF_FFFF, 32) == 0xDEBB_20E3
  {
    assert ShiftWordBy(0xFFFF_FFFF, 8) == 0x2DFD_1072;
    assert ShiftWordBy(0x2DFD_1072, 8) == 0xBE26_ED00;
    assert ShiftWordBy(0xBE26_ED00, 8) == 0x00BE_26ED;
    assert ShiftWordBy(0x00BE_26ED, 8) == 0xDEBB_20E3;
    ShiftWordByAdds(0xFFFF_FFFF, 8, 8);
    ShiftWordByAdds(0xFFFF_FFFF, 16, 8);
    ShiftWordByAdds(0xFFFF_FFFF, 24, 8);
  }

  // ----- the number in a register

  lemma FourBits(x: seq<bool>)
    requires |x| == 4
    ensures FromBits(x) == (if x[0] then 1 else 0) + (if x[1] then 2 else 0) + (if x[2] then 4 else 0)
                         + (if x[3] then 8 else 0)
  {
    assert x[1..][1..] == x[2..] && x[2..][1..] == x[3..] && x[3..][1..] == [];
    assert FromBits(x[3..]) == (if x[3] then 1 else 0);
    assert FromBits(x[2..]) == (if x[2] then 1 else 0) + 2 * FromBits(x[3..]);
    assert FromBits(x[1..]) == (if x[1] then 1 else 0) + 2 * FromBits(x[2..]);
  }

  function Nibble(r: Register, k: nat): nat
    requires k + 4 <= 32
  {
    (if r[k] then 1 else 0) + (if r[k + 1] then 2 else 0) + (if r[k + 2] then 4 else 0) + (if r[k + 3] then 8 else 0)
  }

  lemma ByteIs(r: Register, k: nat, lo: nat, hi: nat)
    requires k + 8 <= 32 && Nibble(r, k) == lo && Nibble(r, k + 4) == hi
    ensures FromBits(r[k..k + 8]) == lo + 16 * hi
  {
    assert Pow2(4) == 16;
    var x, y := r[k..k + 4], r[k + 4..k + 8];
    assert r[k..k + 8] == x + y;
    FromBitsConcat(x, y);
    FourBits(x);
    FourBits(y);
  }

  lemma NumberIs(r: Register, b0: byte, b1: byte, b2: byte, b3: byte)
    requires FromBits(r[0..8]) == b0 && FromBits(r[8..16]) == b1
    requires FromBits(r[16..24]) == b2 && FromBits(r[24..32]) == b3
    ensures FromBits(r) == Join32(b0, b1, b2, b3)
  {
    assert r[..8] == r[0..8] && r[24..] == r[24..32];
    FromBytes(r);
  }

  lemma BitsBack(r: Register)
    ensures ToBits(FromBits(r)) == r
  {
    forall i | 0 <= i < 32
      ensures ToBits(FromBits(r))[i] == r[i]
    {
      BitOf(r, i);
    }
  }

  // ----- the constants

  function PolynomialRegister(): Register {
    [
      false, false, false, false, false, true, false, false,
      true, true, false, false, false, false, false, true,
      false, false, false, true, true, true, false, true,
      true, false, true, true, false, true, true, true]
  }

  lemma PolynomialRegisterIsWord()
    ensures IsWord(PolynomialRegister(), 0xEDB8_8320)
  {
    PolynomialByte0();
    PolynomialByte1();
    PolynomialByte2();
    PolynomialByte3();
  }

  lemma PolynomialByte0()
    ensures IsByte0(PolynomialRegister(), 0xEDB8_8320)
  {
  }

  lemma PolynomialByte1()
    ensures IsByte1(PolynomialRegister(), 0xEDB8_8320)
  {
  }

  lemma PolynomialByte2()
    ensures IsByte2(PolynomialRegister(), 0xEDB8_8320)
  {
  }

  lemma PolynomialByte3()
    ensures IsByte3(PolynomialRegister(), 0xEDB8_8320)
  {
  }

  lemma PolynomialIsWord()
    ensures IsWord(ToBits(POLYNOMIAL), 0xEDB8_8320)
  {
    var r := PolynomialRegister();
    PolynomialRegisterIsWord();
    ByteIs(r, 0, 0x0, 0x2);
    ByteIs(r, 8, 0x3, 0x8);
    ByteIs(r, 16, 0x8, 0xB);
    ByteIs(r, 24, 0xD, 0xE);
    NumberIs(r, 0x20, 0x83, 0xB8, 0xED);
    BitsBack(r);
  }

  lemma OnesAreWord()
    ensures IsWord(Ones(), 0xFFFF_FFFF)
  {
  }

  lemma ComplementIs(r: Register)
    requires IsWord(r, 0xDEBB_20E3)
    ensures FromBits(Xor(r, Ones())) == 0x2144_DF1C
  {
    var x := Xor(r, Ones());
    ByteIs(x, 0, 0xC, 0x1);
    ByteIs(x, 8, 0xF, 0xD);
    ByteIs(x, 16, 0x4, 0x4);
    ByteIs(x, 24, 0x1, 0x2);
    NumberIs(x, 0x1C, 0xDF, 0x44, 0x21);
  }

  lemma OnesResidue(n: nat)
    requires n == 32
    ensures FromBits(Xor(ShiftBy(Ones(), n), Ones())) == 0x2144_DF1C
  {
    PolynomialIsWord();
    OnesAreWord();
    ShiftByIsWord(Ones(), 0xFFFF_FFFF, n);
    OnesShifted();
    ComplementIs(ShiftBy(Ones(), n));
  }

  lemma XorTwice(r: Register, m: Register)
    ensures Xor(r, Xor(r, m)) == m
  {
    forall i | 0 <= i < 32
      ensures Xor(r, Xor(r, m))[i] == m[i]
    {
      assert Xor(r, m)[i] == (r[i] != m[i]);
    }
  }

  lemma Appended(s: seq<byte>, w: Register, n: nat)
    requires w == Xor(Feed(s, |s|), Ones()) && n == 32
    ensures Crc32.Crc32(s + Le32(WordOf(w))) == FromBits(Xor(ShiftBy(Ones(), n), Ones()))
  {
    FeedWord(s, Le32(WordOf(w)), w, n);
    XorTwice(Feed(s, |s|), Ones());
  }

  /** Any data followed by its own checksum has this checksum, which pins the polynomial. */
  lemma Residue(s: seq<byte>)
    ensures Crc32.Crc32(s + Le32(Crc32.Crc32(s))) == 0x2144_DF1C
  {
    var n := BYTE_BITS * 4;
    Appended(s, Xor(Feed(s, |s|), Ones()), n);
    OnesResidue(n);
  }

  lemma {:induction false} AllFalse(x: seq<bool>)
    requires forall i :: 0 <= i < |x| ==> !x[i]
    ensures FromBits(x) == 0
  {
    if x == [] {
    } else {
      AllFalse(x[1..]);
    }
  }

  /** Nothing at all has checksum zero, which pins the initial register. */
  lemma OfNothing()
    ensures Crc32.Crc32([]) == 0
  {
    var x := Xor(Ones(), Ones());
    assert forall i :: 0 <= i < 32 ==> !x[i];
    AllFalse(x);
  }
}
