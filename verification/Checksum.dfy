/** The Novatek 16-bit checksum and the corrective word that makes a region sum to zero. */
module Checksum {
  import opened Bytes

  function Word(s: seq<byte>, i: nat): u16
    requires 2 * i + 2 <= |s|
  {
    Rd16(s, 2 * i)
  }

  /** The unbounded sum, over the first n half-words, of each half-word and its index. */
  function WordSum(s: seq<byte>, n: nat): nat
    requires 2 * n <= |s|
  {
    if n == 0 then 0 else WordSum(s, n - 1) + Word(s, n - 1) as int + (n - 1)
  }

  function Chk(s: seq<byte>): u16 {
    WordSum(s, |s| / 2) % 0x1_0000
  }

  predicate IsValid(s: seq<byte>) {
    Chk(s) == 0
  }

  /** The region with its slot zeroed and then set to the negated checksum. */
  function Solved(s: seq<byte>, slot: nat): (r: seq<byte>)
    requires slot + 2 <= |s|
    ensures |r| == |s|
    ensures forall k :: 0 <= k < |s| && k != slot && k != slot + 1 ==> r[k] == s[k]
  {
    var z := Overlay(s, slot, [0, 0]);
    Overlay(z, slot, Le16((0x1_0000 - Chk(z) as int) % 0x1_0000))
  }

  lemma WrapTwice(x: nat, w: nat, i: nat)
    ensures ((x % 0x1_0000_0000 + w) % 0x1_0000_0000 + i % 0x1_0000_0000) % 0x1_0000_0000
         == (x + w + i) % 0x1_0000_0000
  {
  }

  lemma Narrow(x: nat)
    ensures x % 0x1_0000_0000 % 0x1_0000 == x % 0x1_0000
  {
  }

  /** Wrapping 32-bit arithmetic loses nothing the 16-bit result needs. */
  method NvtChksum(data: seq<byte>) returns (ck: u16)
    ensures ck == Chk(data)
  {
    var n := |data| / 2;
    var sum: u32 := 0;
    for i := 0 to n
      invariant sum == WordSum(data, i) % 0x1_0000_0000
    {
      WrapTwice(WordSum(data, i), Word(data, i), i);
      sum := (sum as int + Word(data, i) as int) % 0x1_0000_0000;
      sum := (sum as int + AsU32(i) as int) % 0x1_0000_0000;
    }
    Narrow(WordSum(data, n));
    ck := sum % 0x1_0000;
  }

  method Solve(data: array<byte>, slot: nat) returns (v: u16)
    requires slot + 2 <= data.Length
    modifies data
    ensures data[..] == Solved(old(data[..]), slot)
    ensures data[slot..slot + 2] == Le16(v)
  {
    ghost var was := data[..];
    data[slot] := 0;
    data[slot + 1] := 0;
    assert data[..] == Overlay(was, slot, [0, 0]);
    var ck := NvtChksum(data[..]);
    v := (0x1_0000 - ck as int) % 0x1_0000;
    Put(data, slot, Le16(v));
    assert forall k :: 0 <= k < 2 ==> data[slot + k] == Le16(v)[k];
  }

  // ----- how the sum reacts to edits

  lemma {:induction false} WordSumAgree(s: seq<byte>, t: seq<byte>, n: nat)
    requires 2 * n <= |s| && 2 * n <= |t|
    requires forall k :: 0 <= k < 2 * n ==> s[k] == t[k]
    ensures WordSum(s, n) == WordSum(t, n)
  {
    if n == 0 {
    } else {
      WordSumAgree(s, t, n - 1);
    }
  }

  ghost predicate DifferOnlyAtWord(s: seq<byte>, t: seq<byte>, w: nat) {
    && |s| == |t|
    && forall k :: 0 <= k < |s| && k != 2 * w && k != 2 * w + 1 ==> s[k] == t[k]
  }

  lemma {:induction false} WordSumEdit(s: seq<byte>, t: seq<byte>, w: nat, n: nat)
    requires DifferOnlyAtWord(s, t, w) && w < n && 2 * n <= |s|
    ensures WordSum(t, n) == WordSum(s, n) - Word(s, w) as int + Word(t, w) as int
  {
    if n == w + 1 {
      WordSumAgree(s, t, w);
    } else {
      WordSumEdit(s, t, w, n - 1);
      assert Word(s, n - 1) == Word(t, n - 1);
    }
  }

  /** Any edit confined to one aligned half-word shows in the checksum. */
  lemma OneWordEditDetected(s: seq<byte>, t: seq<byte>, w: nat)
    requires DifferOnlyAtWord(s, t, w) && 2 * w + 2 <= |s|
    ensures Chk(s) == Chk(t) <==> s == t
  {
    WordSumEdit(s, t, w, |s| / 2);
    if Chk(s) == Chk(t) {
      SameResidue(WordSum(s, |s| / 2), Word(s, w), Word(t, w));
      WordIff(s, w, t, w);
      SameEverywhere(s, t, w);
    }
  }

  lemma WordIff(s: seq<byte>, i: nat, t: seq<byte>, j: nat)
    requires 2 * i + 2 <= |s| && 2 * j + 2 <= |t|
    ensures Word(s, i) == Word(t, j) <==> s[2 * i] == t[2 * j] && s[2 * i + 1] == t[2 * j + 1]
  {
  }

  lemma SameEverywhere(s: seq<byte>, t: seq<byte>, w: nat)
    requires DifferOnlyAtWord(s, t, w) && 2 * w + 2 <= |s| && s[2 * w] == t[2 * w] && s[2 * w + 1] == t[2 * w + 1]
    ensures s == t
  {
  }

  lemma SameResidue(n: int, x: u16, y: u16)
    requires n % 0x1_0000 == (n - x as int + y as int) % 0x1_0000
    ensures x == y
  {
  }

  lemma SolvedIsValid(s: seq<byte>, slot: nat)
    requires slot % 2 == 0 && slot + 2 <= |s|
    ensures IsValid(Solved(s, slot))
  {
    var z := Overlay(s, slot, [0, 0]);
    var r := Solved(s, slot);
    var v: u16 := (0x1_0000 - Chk(z) as int) % 0x1_0000;
    assert Word(z, slot / 2) == 0;
    assert r[slot] == Le16(v)[0] && r[slot + 1] == Le16(v)[1];
    assert Word(r, slot / 2) == v;
    WordSumEdit(z, r, slot / 2, |s| / 2);
    Negated(WordSum(z, |s| / 2));
  }

  lemma Negated(n: nat)
    ensures (n + (0x1_0000 - n % 0x1_0000) % 0x1_0000) % 0x1_0000 == 0
  {
  }

  /** Re-solving is the identity exactly on the regions that are already valid. */
  lemma SolveIdentity(s: seq<byte>, slot: nat)
    requires slot % 2 == 0 && slot + 2 <= |s|
    ensures IsValid(s) <==> Solved(s, slot) == s
    ensures Solved(Solved(s, slot), slot) == Solved(s, slot)
  {
    var r := Solved(s, slot);
    SolvedIsValid(s, slot);
    OneWordEditDetected(s, r, slot / 2);
    SolvedIsValid(r, slot);
    OneWordEditDetected(r, Solved(r, slot), slot / 2);
  }

  /** Of the 0x10000 words an even slot can hold, exactly the solved one makes the region valid. */
  lemma CorrectiveWordUnique(s: seq<byte>, slot: nat, v: u16)
    requires slot % 2 == 0 && slot + 2 <= |s|
    ensures IsValid(Overlay(s, slot, Le16(v))) <==> Overlay(s, slot, Le16(v)) == Solved(s, slot)
  {
    SolvedIsValid(s, slot);
    OneWordEditDetected(Overlay(s, slot, Le16(v)), Solved(s, slot), slot / 2);
  }

  /** Solving reads nothing of what stood in the slot. */
  lemma SolvedIgnoresSlot(s: seq<byte>, t: seq<byte>, slot: nat)
    requires |s| == |t| && slot + 2 <= |s|
    requires forall k :: 0 <= k < |s| && k != slot && k != slot + 1 ==> s[k] == t[k]
    ensures Solved(s, slot) == Solved(t, slot)
  {
    assert Overlay(s, slot, [0, 0]) == Overlay(t, slot, [0, 0]);
  }

  // ----- a slot that is not aligned

  /** The word solving stores. */
  function CorrectiveWord(s: seq<byte>, slot: nat): u16
    requires slot + 2 <= |s|
  {
    (0x1_0000 - Chk(Overlay(s, slot, [0, 0])) as int) % 0x1_0000
  }

  /**
   * What makes an odd slot work: stored across two half-words its bytes swap weights, which is harmless
   * only when they are equal; and a second byte that falls outside the summed region must be zero, like the first.
   */
  predicate OddSlotWorks(s: seq<byte>, slot: nat)
    requires slot + 2 <= |s|
  {
    var v := CorrectiveWord(s, slot);
    if slot + 3 <= |s| then v % 0x100 == v / 0x100 else v == 0
  }

  lemma EvenByteAdds(s: seq<byte>, w: nat, x: byte)
    requires 2 * w < |s| && s[2 * w] == 0
    ensures WordSum(Overlay(s, 2 * w, [x]), |s| / 2) == WordSum(s, |s| / 2) + if 2 * w + 2 <= |s| then x as nat else 0
  {
    var t, n := Overlay(s, 2 * w, [x]), |s| / 2;
    assert t[2 * w] == x;
    if 2 * w + 2 <= |s| {
      LowByteAdds(s, t, w, n);
    } else {
      WordSumAgree(s, t, n);
    }
  }

  lemma LowByteAdds(s: seq<byte>, t: seq<byte>, w: nat, n: nat)
    requires DifferOnlyAtWord(s, t, w) && w < n && 2 * n <= |s| && s[2 * w] == 0 && s[2 * w + 1] == t[2 * w + 1]
    ensures WordSum(t, n) == WordSum(s, n) + t[2 * w] as nat
  {
    WordSumEdit(s, t, w, n);
  }

  lemma OddByteAdds(s: seq<byte>, w: nat, x: byte)
    requires 2 * w + 1 < |s| && s[2 * w + 1] == 0
    ensures WordSum(Overlay(s, 2 * w + 1, [x]), |s| / 2) == WordSum(s, |s| / 2) + 0x100 * x as nat
  {
    var t := Overlay(s, 2 * w + 1, [x]);
    WordSumEdit(s, t, w, |s| / 2);
    assert t[2 * w + 1] == x && t[2 * w] == s[2 * w];
  }

  /** Two bytes written at an odd place weigh 0x100 and 1, the second only if its half-word is complete. */
  lemma OddSlotSum(z: seq<byte>, w: nat, lo: byte, hi: byte)
    requires 2 * w + 3 <= |z| && z[2 * w + 1] == 0 && z[2 * w + 2] == 0
    ensures WordSum(Overlay(z, 2 * w + 1, [lo, hi]), |z| / 2) ==
            WordSum(z, |z| / 2) + 0x100 * lo as nat + if 2 * w + 4 <= |z| then hi as nat else 0
  {
    var t, next := Overlay(z, 2 * w + 1, [lo]), w + 1;
    assert 2 * next == 2 * w + 2 && |t| == |z| && t[2 * next] == 0;
    OddByteAdds(z, w, lo);
    EvenByteAdds(t, next, hi);
    TwoBytes(z, 2 * w + 1, lo, hi);
  }

  lemma TwoBytes(z: seq<byte>, k: nat, lo: byte, hi: byte)
    requires k + 2 <= |z|
    ensures Overlay(z, k, [lo, hi]) == Overlay(Overlay(z, k, [lo]), k + 1, [hi])
  {
  }

  lemma OddBytes(n: nat, lo: byte, hi: byte)
    requires lo as nat + 0x100 * hi as nat == (0x1_0000 - n % 0x1_0000) % 0x1_0000
    ensures (n + 0x100 * lo as nat + hi as nat) % 0x1_0000 == 0 <==> lo == hi
    ensures (n + 0x100 * lo as nat) % 0x1_0000 == 0 <==> lo == 0 && hi == 0
  {
    var q, c := n / 0x1_0000, n % 0x1_0000;
    assert n == q * 0x1_0000 + c;
    SkipMultiple(q, c + 0x100 * lo as nat + hi as nat);
    SkipMultiple(q, c + 0x100 * lo as nat);
    ZeroResidue(c, lo, hi);
  }

  lemma ZeroResidue(c: nat, lo: byte, hi: byte)
    requires c < 0x1_0000 && ((c == 0 && lo == hi == 0) || lo as nat + 0x100 * hi as nat == 0x1_0000 - c)
    ensures (c + 0x100 * lo as nat + hi as nat) % 0x1_0000 == 0 <==> lo == hi
    ensures (c + 0x100 * lo as nat) % 0x1_0000 == 0 <==> lo == 0 && hi == 0
  {
  }

  /** Solving leaves a region alone exactly when it is valid, or an odd slot already holds what solving stores. */
  lemma SolveFixpoint(s: seq<byte>, slot: nat)
    requires slot + 2 <= |s|
    ensures Solved(s, slot) == s <==>
            if slot % 2 == 0 then IsValid(s) else s[slot..slot + 2] == Le16(CorrectiveWord(s, slot))
  {
    if slot % 2 == 0 {
      SolveIdentity(s, slot);
    } else {
      var r, w := Solved(s, slot), Le16(CorrectiveWord(s, slot));
      assert r[slot..slot + 2] == w;
      assert s[slot..slot + 2] == w ==> s[slot] == w[0] && s[slot + 1] == w[1];
    }
  }

  lemma OddSlotIff(s: seq<byte>, w: nat)
    requires 2 * w + 3 <= |s|
    ensures IsValid(Solved(s, 2 * w + 1)) <==> OddSlotWorks(s, 2 * w + 1)
  {
    var z, v, n := Overlay(s, 2 * w + 1, [0, 0]), CorrectiveWord(s, 2 * w + 1), |s| / 2;
    OddSlotSum(z, w, v % 0x100, v / 0x100);
    assert Solved(s, 2 * w + 1) == Overlay(z, 2 * w + 1, [v % 0x100, v / 0x100]);
    ChkIs(z, n, WordSum(z, n));
    ChkIs(Solved(s, 2 * w + 1), n, WordSum(Solved(s, 2 * w + 1), n));
    OddBytes(WordSum(z, n), v % 0x100, v / 0x100);
  }

  /** Solving any slot, aligned or not, makes the region valid in exactly these cases. */
  lemma SolvedValidIff(s: seq<byte>, slot: nat)
    requires slot + 2 <= |s|
    ensures IsValid(Solved(s, slot)) <==> slot % 2 == 0 || OddSlotWorks(s, slot)
  {
    if slot % 2 == 0 {
      SolvedIsValid(s, slot);
    } else {
      assert slot == 2 * (slot / 2) + 1;
      OddSlotIff(s, slot / 2);
    }
  }

  /** An odd slot that does not work. */
  lemma OddSlotExample()
    ensures var s: seq<byte> := [1, 0, 0, 0]; !IsValid(Solved(s, 1))
  {
    var s: seq<byte> := [1, 0, 0, 0];
    var z := Overlay(s, 1, [0, 0]);
    assert z == s;
    assert Word(z, 0) == 1 && Word(z, 1) == 0;
    assert WordSum(z, 1) == 1;
    assert WordSum(z, 2) == 2;
    SolvedValidIff(s, 1);
  }

  // ----- checksum algebra

  lemma Distribute(h: nat, n: nat)
    requires n > 0
    ensures h * n == h * (n - 1) + h && h * (n - 1) >= 0
  {
  }

  lemma ConcatStep(a: seq<byte>, b: seq<byte>, h: nat, n: nat, shift: nat)
    requires |a| == 2 * h && 0 < n && 2 * n <= |b| && h <= shift
    requires WordSum(a + b, h + n - 1) == WordSum(a, h) + WordSum(b, n - 1) + (shift - h)
    ensures WordSum(a + b, h + n) == WordSum(a, h) + WordSum(b, n) + shift
  {
    WordIff(a + b, h + n - 1, b, n - 1);
  }

  /** Concatenation after an even prefix adds one shift term per later half-word. */
  lemma {:induction false} WordSumConcat(a: seq<byte>, b: seq<byte>, h: nat, n: nat, shift: nat)
    requires |a| == 2 * h && 2 * n <= |b| && shift == h * n
    ensures WordSum(a + b, h + n) == WordSum(a, h) + WordSum(b, n) + shift
  {
    if n == 0 {
      WordSumAgree(a + b, a, h);
    } else {
      Distribute(h, n);
      WordSumConcat(a, b, h, n - 1, shift - h);
      ConcatStep(a, b, h, n, shift);
    }
  }

  lemma AddResidues(x: nat, y: nat, z: nat, rx: nat, ry: nat, r: nat)
    requires rx == x % 0x1_0000 && ry == y % 0x1_0000 && r == (x + y + z) % 0x1_0000
    ensures r == (rx + ry + z) % 0x1_0000
  {
    var q := x / 0x1_0000 + y / 0x1_0000;
    assert x + y + z == q * 0x1_0000 + (rx + ry + z);
    SkipMultiple(q, rx + ry + z);
  }

  lemma SkipMultiple(q: nat, r: nat)
    ensures (q * 0x1_0000 + r) % 0x1_0000 == r % 0x1_0000
  {
  }

  /** Checksums of an even prefix and a suffix combine without re-reading either. */
  lemma ChkConcat(a: seq<byte>, b: seq<byte>)
    requires |a| % 2 == 0
    ensures Chk(a + b) == (Chk(a) as int + Chk(b) as int + (|a| / 2) * (|b| / 2)) % 0x1_0000
  {
    var shift: nat := (|a| / 2) * (|b| / 2);
    WordSumConcat(a, b, |a| / 2, |b| / 2, shift);
    ChkOfSum(a, b, |a| / 2, |b| / 2, shift);
  }

  lemma ChkOfSum(a: seq<byte>, b: seq<byte>, h: nat, n: nat, shift: nat)
    requires |a| == 2 * h && n == |b| / 2
    requires WordSum(a + b, h + n) == WordSum(a, h) + WordSum(b, n) + shift
    ensures Chk(a + b) == (Chk(a) as int + Chk(b) as int + shift) % 0x1_0000
  {
    HalfSum(|a|, |b|);
    ChkAdds(a, b, h, n, shift);
  }

  lemma ChkAdds(a: seq<byte>, b: seq<byte>, h: nat, n: nat, shift: nat)
    requires h == |a| / 2 && n == |b| / 2 && h + n == |a + b| / 2
    requires WordSum(a + b, h + n) == WordSum(a, h) + WordSum(b, n) + shift
    ensures Chk(a + b) == (Chk(a) as int + Chk(b) as int + shift) % 0x1_0000
  {
    ChkIs(a, h, WordSum(a, h));
    ChkIs(b, n, WordSum(b, n));
    ChkIs(a + b, h + n, WordSum(a + b, h + n));
    AddResidues(WordSum(a, h), WordSum(b, n), shift, Chk(a), Chk(b), Chk(a + b));
  }

  lemma ChkIs(s: seq<byte>, n: nat, sum: nat)
    requires n == |s| / 2 && sum == WordSum(s, n)
    ensures Chk(s) == sum % 0x1_0000
  {
  }

  lemma HalfSum(x: nat, y: nat)
    requires x % 2 == 0
    ensures (x + y) / 2 == x / 2 + y / 2
  {
  }

  lemma {:induction false} WordSumZeros(z: seq<byte>, n: nat)
    requires 2 * n <= |z| && forall k :: 0 <= k < 2 * n ==> z[k] == 0
    ensures 2 * WordSum(z, n) == n * (n - 1)
  {
    if n == 0 {
    } else {
      WordSumZeros(z, n - 1);
      assert Word(z, n - 1) == 0;
      assert n * (n - 1) == (n - 1) * (n - 2) + 2 * (n - 1);
    }
  }

  lemma ChkZeros(n: nat)
    ensures Chk(Zeros(2 * n)) == n * (n - 1) / 2 % 0x1_0000
  {
    var z := Zeros(2 * n);
    WordSumZeros(z, n);
    ChkIs(z, n, WordSum(z, n));
    HalfOf(WordSum(z, n), n * (n - 1));
  }

  lemma HalfOf(half: nat, x: int)
    requires 2 * half == x
    ensures x / 2 == half
  {
  }

  /** The index term is position-independent in total: swapping two half-words goes unnoticed. */
  lemma SwapUndetected(s: seq<byte>, i: nat, j: nat)
    requires i < j && 2 * j + 2 <= |s|
    ensures Chk(Overlay(Overlay(s, 2 * i, s[2 * j..2 * j + 2]), 2 * j, s[2 * i..2 * i + 2])) == Chk(s)
  {
    var n := |s| / 2;
    var t := Overlay(s, 2 * i, s[2 * j..2 * j + 2]);
    var u := Overlay(t, 2 * j, s[2 * i..2 * i + 2]);
    CopyWord(s, i, s, j);
    CopyWord(t, j, s, i);
    WordIff(t, j, s, j);
    WordSumEdit(s, t, i, n);
    WordSumEdit(t, u, j, n);
  }

  lemma CopyWord(s: seq<byte>, i: nat, t: seq<byte>, j: nat)
    requires 2 * i + 2 <= |s| && 2 * j + 2 <= |t|
    ensures var r := Overlay(s, 2 * i, t[2 * j..2 * j + 2]);
            DifferOnlyAtWord(s, r, i) && Word(r, i) == Word(t, j)
  {
    var r := Overlay(s, 2 * i, t[2 * j..2 * j + 2]);
    WordIff(r, i, t, j);
  }

  /** One half-word is its own checksum, and an odd last byte does not count: the concatenation law does the rest. */
  lemma ChkOfShort(a: byte, b: byte)
    ensures Chk([]) == 0 && Chk([a]) == 0 && Chk([a, b]) == a as int + 0x100 * b as int
  {
    assert WordSum([a, b], 1) == WordSum([a, b], 0) + Word([a, b], 0) as int;
  }

  /** Solving writes one word over the slot, the negation of what the rest sums to with zeros there. */
  lemma SolvedIs(s: seq<byte>, slot: nat)
    requires slot + 2 <= |s|
    ensures var front, back, v := s[..slot], s[slot + 2..], Rd16(Solved(s, slot), slot) as nat;
            Solved(s, slot) == front + Le16(v) + back && (Chk(front + [0, 0] + back) as nat + v) % 0x1_0000 == 0
  {
    var z := Overlay(s, slot, [0, 0]);
    SlotWritten(s, slot, [0, 0]);
    var v := (0x1_0000 - Chk(z) as int) % 0x1_0000;
    SlotWritten(z, slot, Le16(v));
    Rd16Iff(Solved(s, slot), slot, v);
    Cancels(Chk(z));
  }

  lemma SlotWritten(s: seq<byte>, slot: nat, w: seq<byte>)
    requires slot + 2 <= |s| && |w| == 2
    ensures var r := Overlay(s, slot, w);
            r == s[..slot] + w + s[slot + 2..] && r[..slot] == s[..slot] && r[slot..slot + 2] == w
            && r[slot + 2..] == s[slot + 2..]
  {
  }

  lemma Cancels(c: u16)
    ensures (c as int + (0x1_0000 - c as int) % 0x1_0000) % 0x1_0000 == 0
  {
  }
}
