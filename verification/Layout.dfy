/** Where partitions go: the padding rule of `pack` and the alignment `unpack` recovers from an image. */
module Layout {
  import opened Bytes
  import opened Header

  const DEFAULT_ALIGN: nat := 0x40

  // ----- the padding rule

  function DivCeil(x: nat, a: nat): nat
    requires a > 0
  {
    if x % a == 0 then x / a else x / a + 1
  }

  /** The least number of whole units of a that covers x. */
  function RoundUp(x: nat, a: nat): (r: nat)
    requires a > 0
    ensures x <= r < x + a
  {
    if x == 0 then 0 else if x < a then a else a + RoundUp(x - a, a)
  }

  /** The next aligned position at or after cur, alignment being measured from first. */
  function Place(cur: nat, first: nat, align: nat): nat
    requires first <= cur && align > 0
  {
    first + RoundUp(cur - first, align)
  }

  predicate IsMultiple(x: int, a: nat)
    requires a > 0
  {
    x % a == 0
  }

  /** The rounding-up division the program uses lands there. */
  lemma {:induction false} RoundUpIsDivCeil(x: nat, a: nat)
    requires a > 0
    ensures RoundUp(x, a) == DivCeil(x, a) * a
  {
    if x == 0 {
    } else if x < a {
      QuotientUnique(x, a, 0, x);
    } else {
      RoundUpIsDivCeil(x - a, a);
      DivCeilStep(x, a);
      OneMoreUnit(DivCeil(x - a, a), a);
    }
  }

  lemma OneMoreUnit(q: nat, a: nat)
    ensures (q + 1) * a == q * a + a
  {
  }

  lemma DivCeilStep(x: nat, a: nat)
    requires 0 < a <= x
    ensures DivCeil(x, a) == DivCeil(x - a, a) + 1
  {
    var y := x - a;
    var q, r := y / a, y % a;
    assert y == q * a + r;
    assert x == (q + 1) * a + r;
    QuotientUnique(x, a, q + 1, r);
  }

  lemma PlaceBounds(cur: nat, first: nat, align: nat)
    requires first <= cur && align > 0
    ensures var p := Place(cur, first, align); cur <= p < cur + align && IsMultiple(p - first, align)
  {
    RoundUpIsDivCeil(cur - first, align);
    ModOfMultiple(DivCeil(cur - first, align), align);
  }

  lemma ModOfMultiple(q: int, a: nat)
    requires a > 0
    ensures q * a % a == 0
  {
    var d := q - q * a / a;
    assert q * a % a == d * a;
    if d != 0 {
      NonzeroMultiple(d, a);
    }
  }

  /** Two multiples of a less than a apart are equal. */
  lemma CloseMultiples(x: nat, y: nat, a: nat)
    requires a > 0 && IsMultiple(x, a) && IsMultiple(y, a) && x <= y < x + a
    ensures x == y
  {
    var p, q := x / a, y / a;
    assert x == p * a && y == q * a;
    assert y - x == (q - p) * a;
    if q - p != 0 {
      NonzeroMultiple(q - p, a);
    }
  }

  /** The placed position is the only aligned one within one alignment unit. */
  lemma PlaceUnique(cur: nat, first: nat, align: nat, p: nat)
    requires first <= cur && align > 0
    requires cur <= p < cur + align && IsMultiple(p - first, align)
    ensures p == Place(cur, first, align)
  {
    PlaceBounds(cur, first, align);
    var q := Place(cur, first, align);
    if p <= q {
      CloseMultiples(p - first, q - first, align);
    } else {
      CloseMultiples(q - first, p - first, align);
    }
  }

  /** Where the image ends once the first n blobs are in. */
  function End(sizes: seq<nat>, n: nat, first: nat, align: nat): (e: nat)
    requires n <= |sizes| && align > 0
    ensures first <= e
  {
    if n == 0 then first
    else Place(End(sizes, n - 1, first, align), first, align) + sizes[n - 1]
  }

  function Start(sizes: seq<nat>, n: nat, first: nat, align: nat): nat
    requires n <= |sizes| && align > 0
  {
    Place(End(sizes, n, first, align), first, align)
  }

  lemma {:induction false} EndAgree(s: seq<nat>, t: seq<nat>, n: nat, first: nat, align: nat)
    requires n <= |s| && n <= |t| && align > 0 && s[..n] == t[..n]
    ensures End(s, n, first, align) == End(t, n, first, align)
  {
    if n == 0 {
    } else {
      assert s[..n - 1] == s[..n][..n - 1] && t[..n - 1] == t[..n][..n - 1];
      EndAgree(s, t, n - 1, first, align);
      assert s[n - 1] == s[..n][n - 1] && t[n - 1] == t[..n][n - 1];
    }
  }

  lemma StartAligned(sizes: seq<nat>, i: nat, first: nat, align: nat)
    requires i <= |sizes| && align > 0
    ensures first <= Start(sizes, i, first, align) && IsMultiple(Start(sizes, i, first, align) - first, align)
  {
    PlaceBounds(End(sizes, i, first, align), first, align);
  }

  /** Partitions come in order and disjoint, the gap before each shorter than the alignment. */
  lemma {:induction false} StartsOrdered(sizes: seq<nat>, i: nat, j: nat, first: nat, align: nat)
    requires i < j <= |sizes| && align > 0
    ensures first <= End(sizes, i, first, align) <= Start(sizes, i, first, align) < End(sizes, i, first, align) + align
    ensures Start(sizes, i, first, align) + sizes[i] <= End(sizes, j, first, align) <= Start(sizes, j, first, align)
  {
    if j == i + 1 {
    } else {
      StartsOrdered(sizes, i, j - 1, first, align);
    }
  }

  // ----- edits

  lemma PlaceShift(cur: nat, delta: int, first: nat, align: nat)
    requires align > 0 && first <= cur && first <= cur + delta && IsMultiple(delta, align)
    ensures Place(cur + delta, first, align) == Place(cur, first, align) + delta
  {
    PlaceBounds(cur, first, align);
    var p := Place(cur, first, align);
    ModSum(p - first, delta, align);
    PlaceUnique(cur + delta, first, align, p + delta);
  }

  lemma ModSum(x: int, y: int, a: nat)
    requires a > 0 && IsMultiple(x, a) && IsMultiple(y, a)
    ensures IsMultiple(x + y, a) && IsMultiple(x - y, a)
  {
    var p, q := x / a, y / a;
    assert x == p * a && y == q * a;
    assert x + y == (p + q) * a && x - y == (p - q) * a;
    ModOfMultiple(p + q, a);
    ModOfMultiple(p - q, a);
  }

  lemma MultiplesApart(p: nat, q: nat, first: nat, align: nat)
    requires align > 0 && IsMultiple(p - first, align) && IsMultiple(q - first, align)
    ensures IsMultiple(p - q, align)
  {
    ModSum(p - first, q - first, align);
  }

  lemma StartsApart(s: seq<nat>, t: seq<nat>, i: nat, first: nat, align: nat)
    requires i <= |s| && i <= |t| && align > 0
    ensures IsMultiple(Start(t, i, first, align) - Start(s, i, first, align), align)
  {
    StartAligned(s, i, first, align);
    StartAligned(t, i, first, align);
    MultiplesApart(Start(t, i, first, align), Start(s, i, first, align), first, align);
  }

  /** Resizing blob i shifts every later start by one common multiple of the alignment. */
  lemma ResizeShifts(s: seq<nat>, t: seq<nat>, i: nat, j: nat, first: nat, align: nat)
    requires |s| == |t| && i < j <= |s| && align > 0
    requires forall k :: 0 <= k < |s| && k != i ==> s[k] == t[k]
    ensures var shift := Start(t, i + 1, first, align) - Start(s, i + 1, first, align);
            IsMultiple(shift, align) && Start(t, j, first, align) == Start(s, j, first, align) + shift
  {
    var shift := Start(t, i + 1, first, align) - Start(s, i + 1, first, align);
    StartsApart(s, t, i + 1, first, align);
    LaterStartsFollow(s, t, i, j, first, align, shift);
  }

  lemma {:induction false} LaterStartsFollow(s: seq<nat>, t: seq<nat>, i: nat, j: nat, first: nat, align: nat,
                                             shift: int)
    requires |s| == |t| && i < j <= |s| && align > 0
    requires forall k :: i < k < |s| ==> s[k] == t[k]
    requires Start(t, i + 1, first, align) == Start(s, i + 1, first, align) + shift && IsMultiple(shift, align)
    ensures Start(t, j, first, align) == Start(s, j, first, align) + shift
  {
    if j == i + 1 {
    } else {
      LaterStartsFollow(s, t, i, j - 1, first, align, shift);
      NextStartFollows(s, t, j - 1, first, align, shift);
    }
  }

  lemma NextStartFollows(s: seq<nat>, t: seq<nat>, j: nat, first: nat, align: nat, shift: int)
    requires |s| == |t| && j < |s| && s[j] == t[j] && align > 0 && IsMultiple(shift, align)
    requires Start(t, j, first, align) == Start(s, j, first, align) + shift
    ensures Start(t, j + 1, first, align) == Start(s, j + 1, first, align) + shift
  {
    var e := End(s, j + 1, first, align);
    assert End(t, j + 1, first, align) == e + shift;
    PlaceShift(e, shift, first, align);
  }

  // ----- recovering the alignment

  predicate AllAligned(fw: FirmwareHeader, a: nat)
    requires a > 0
  {
    forall i :: 0 <= i < |fw.parts| ==>
      fw.FirstPartitionOffset() <= fw.parts[i].offset
      && IsMultiple(fw.parts[i].offset - fw.FirstPartitionOffset(), a)
  }

  predicate IsCandidate(a: nat) {
    a == 1 || a == 2 || a == 4 || a == 8 || a == 0x10 || a == 0x20 || a == 0x40
  }

  function Largest(fw: FirmwareHeader, a: nat): (r: nat)
    requires IsCandidate(a)
    ensures IsCandidate(r) && r <= a
    ensures AllAligned(fw, r) || r == 1
    ensures forall b: nat :: IsCandidate(b) && b <= a && AllAligned(fw, b) ==> b <= r
  {
    if AllAligned(fw, a) then a else if a / 2 < 2 then 1 else Largest(fw, a / 2)
  }

  /** The largest power of two up to 0x40 that divides every relative offset; 1 when an offset precedes the first. */
  function DerivedAlign(fw: FirmwareHeader): (a: nat)
    ensures IsCandidate(a)
    ensures forall b: nat :: IsCandidate(b) && AllAligned(fw, b) ==> b <= a
    ensures AllAligned(fw, a) || a == 1
  {
    Largest(fw, DEFAULT_ALIGN)
  }

  method DeriveAlign(fw: FirmwareHeader) returns (a: nat)
    ensures a == DerivedAlign(fw)
  {
    a := DEFAULT_ALIGN;
    while true
      invariant IsCandidate(a) && Largest(fw, a) == DerivedAlign(fw)
      decreases a
    {
      if AllAligned(fw, a) {
        return a;
      }
      a := a / 2;
      if a < 2 {
        return 1;
      }
    }
  }

  ghost predicate LaidOutAt(fw: FirmwareHeader, a: nat, i: nat)
    requires a > 0 && i < |fw.parts|
  {
    PreviousEnd(fw, i) >= fw.FirstPartitionOffset()
    && fw.parts[i].offset == Place(PreviousEnd(fw, i), fw.FirstPartitionOffset(), a)
  }

  /** The table of fw is what the padding rule gives for its own sizes under alignment a. */
  ghost predicate LaidOut(fw: FirmwareHeader, a: nat)
    requires a > 0
  {
    forall i :: 0 <= i < |fw.parts| ==> LaidOutAt(fw, a, i)
  }

  function PreviousEnd(fw: FirmwareHeader, i: nat): nat
    requires i <= |fw.parts|
  {
    if i == 0 then fw.FirstPartitionOffset() else fw.parts[i - 1].offset as nat + fw.parts[i - 1].size as nat
  }

  /** An image laid out with any power of two up to 0x40 is laid out the same with the recovered alignment. */
  lemma DerivedAlignKeepsLayout(fw: FirmwareHeader, a: nat)
    requires IsCandidate(a) && LaidOut(fw, a)
    ensures a <= DerivedAlign(fw) && AllAligned(fw, DerivedAlign(fw)) && LaidOut(fw, DerivedAlign(fw))
  {
    LaidOutBounds(fw, a);
    Relay(fw, a, DerivedAlign(fw));
  }

  ghost predicate NearAt(fw: FirmwareHeader, a: nat, i: nat)
    requires i < |fw.parts|
  {
    fw.FirstPartitionOffset() <= PreviousEnd(fw, i) <= fw.parts[i].offset as nat < PreviousEnd(fw, i) + a
  }

  lemma LaidOutBounds(fw: FirmwareHeader, a: nat)
    requires a > 0 && LaidOut(fw, a)
    ensures AllAligned(fw, a) && forall i :: 0 <= i < |fw.parts| ==> NearAt(fw, a, i)
  {
    forall i | 0 <= i < |fw.parts|
      ensures NearAt(fw, a, i)
      ensures IsMultiple(fw.parts[i].offset - fw.FirstPartitionOffset(), a)
    {
      assert LaidOutAt(fw, a, i);
      PlaceBounds(PreviousEnd(fw, i), fw.FirstPartitionOffset(), a);
    }
  }

  lemma Relay(fw: FirmwareHeader, a: nat, d: nat)
    requires 0 < a <= d && AllAligned(fw, d) && forall i :: 0 <= i < |fw.parts| ==> NearAt(fw, a, i)
    ensures LaidOut(fw, d)
  {
    forall i | 0 <= i < |fw.parts|
      ensures LaidOutAt(fw, d, i)
    {
      assert NearAt(fw, a, i);
      PlaceUnique(PreviousEnd(fw, i), fw.FirstPartitionOffset(), d, fw.parts[i].offset);
    }
  }

  // ----- powers of two, and the layout of the stock image

  ghost predicate OnGrid(fw: FirmwareHeader, a: nat)
    requires a > 0
  {
    forall i :: 0 <= i < |fw.parts| ==>
      var rel := fw.parts[i].offset as int - (fw.headerSize as int + 12 * |fw.parts|);
      0 <= rel && rel % a == 0
  }

  lemma OnGridIff(fw: FirmwareHeader, a: nat)
    requires a > 0
    ensures OnGrid(fw, a) <==> AllAligned(fw, a)
  {
  }

  lemma CandidateIs(k: nat)
    requires k <= 6
    ensures IsCandidate(Pow2(k))
  {
  }

  /** The recovered alignment is the largest of 1, 2, 4, .., 0x40 on whose grid all partitions start, or 1. */
  lemma DerivedAlignIs(fw: FirmwareHeader)
    ensures exists k: nat :: k <= 6 && DerivedAlign(fw) == Pow2(k)
    ensures OnGrid(fw, DerivedAlign(fw)) || DerivedAlign(fw) == 1
    ensures forall k: nat :: k <= 6 && OnGrid(fw, Pow2(k)) ==> Pow2(k) <= DerivedAlign(fw)
  {
    var a := DerivedAlign(fw);
    var k: nat := if a == 1 then 0 else if a == 2 then 1 else if a == 4 then 2 else if a == 8 then 3
                  else if a == 0x10 then 4 else if a == 0x20 then 5 else 6;
    assert a == Pow2(k);
    OnGridIff(fw, a);
    forall j: nat | j <= 6 && OnGrid(fw, Pow2(j))
      ensures Pow2(j) <= a
    {
      CandidateIs(j);
      OnGridIff(fw, Pow2(j));
    }
  }

  lemma NextStart(sizes: seq<nat>, i: nat, first: nat, align: nat, start: nat, next: nat)
    requires i < |sizes| && align > 0 && Start(sizes, i, first, align) == start && first <= start
    requires start + sizes[i] <= next < start + sizes[i] + align && IsMultiple(next - first, align)
    ensures Start(sizes, i + 1, first, align) == next
  {
    PlaceUnique(start + sizes[i], first, align, next);
  }

  /** The partition table documented for the stock image. */
  const STOCK_SIZES: seq<nat> := [0x2_6387, 0xC088, 0xF_A530, 0x2C_B924, 0x536_0040, 0x20_0040]
  const STOCK_STARTS: seq<nat> := [0xC8, 0x2_6488, 0x3_2548, 0x12_CA88, 0x3F_83C8, 0x575_8408]

  lemma StockGaps(i: nat)
    requires i < 5
    ensures var e, next := STOCK_STARTS[i] + STOCK_SIZES[i], STOCK_STARTS[i + 1];
            0xC8 <= STOCK_STARTS[i] && e <= next < e + 0x40 && IsMultiple(next - 0xC8, 0x40)
  {
  }

  /** The padding rule puts the six partitions of the stock image where the table says. */
  lemma {:induction false} StockLayout(i: nat, first: nat, align: nat)
    requires i < 6 && first == 0xC8 && align == 0x40
    ensures Start(STOCK_SIZES, i, first, align) == STOCK_STARTS[i]
  {
    if i == 0 {
      PlaceUnique(first, first, align, first);
    } else {
      StockLayout(i - 1, first, align);
      StockGaps(i - 1);
      NextStart(STOCK_SIZES, i - 1, first, align, STOCK_STARTS[i - 1], STOCK_STARTS[i]);
    }
  }
}
