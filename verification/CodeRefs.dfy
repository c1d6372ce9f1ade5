/** The windowed scan for the references to one address, and how it compares with the one-pass index. */
module CodeRefs {
  import opened Bytes
  import opened Arm
  import opened AllRefs

  /** Bytes looked at from the load on. */
  const WINDOW: nat := 48

  predicate AddsTo(insn: u32, r: nat, imm: int) {
    match DecodeAddImm(insn) case Some(a) => a.rn == r && a.imm == imm case None => false
  }

  /** The scan accepts load i through addition j: inside the window, with no other load of the register between. */
  ghost predicate Via(text: Text, i: nat, j: nat, target: int) {
    && i < j < |text.insns| && 4 * (j - i) < WINDOW
    && IsAdrp(text.insns[i]) && PageAt(text, i) == PageOf(target)
    && AddsTo(text.insns[j], RdField(text.insns[i]), target - PageAt(text, i))
    && forall k :: i < k < j ==> !LoadsPage(text.insns[k], RdField(text.insns[i]))
  }

  ghost predicate Reaches(text: Text, i: nat, target: int) {
    exists j: nat :: Via(text, i, j, target)
  }

  ghost function Hits(text: Text, target: int, n: nat): (pcs: seq<nat>)
    requires n <= |text.insns|
  {
    if n == 0 then []
    else Hits(text, target, n - 1) + (if Reaches(text, n - 1, target) then [text.Pc(n - 1)] else [])
  }

  method Scan(text: Text, i: nat, target: int) returns (found: bool)
    requires i < |text.insns| && IsAdrp(text.insns[i]) && PageAt(text, i) == PageOf(target)
    ensures found <==> Reaches(text, i, target)
  {
    var rd, offset := RdField(text.insns[i]), target - PageAt(text, i);
    var j := i + 1;
    while 4 * (j - i) < WINDOW
      invariant i < j
      invariant forall k :: i < k < j && k < |text.insns| ==>
                  !AddsTo(text.insns[k], rd, offset) && !LoadsPage(text.insns[k], rd)
    {
      if j >= |text.insns| {
        break;
      }
      if AddsTo(text.insns[j], rd, offset) {
        assert Via(text, i, j, target);
        return true;
      }
      if LoadsPage(text.insns[j], rd) {
        return false;
      }
      j := j + 1;
    }
    return false;
  }

  method FindRefs(text: Text, target: int) returns (out: seq<nat>)
    ensures out == Hits(text, target, |text.insns|)
  {
    out := [];
    var page := PageOf(target);
    for i := 0 to |text.insns|
      invariant out == Hits(text, target, i)
    {
      var a := DecodeAdrp(text.insns[i], text.Pc(i));
      if a.Some? && a.value.page == page {
        var found := Scan(text, i, target);
        if found {
          out := out + [text.Pc(i)];
        }
      } else {
        assert forall j: nat :: !Via(text, i, j, target);
      }
    }
  }

  /** The scan lists each load once, in order, exactly when it reaches the target. */
  lemma {:induction false} HitsAre(text: Text, target: int, n: nat)
    requires n <= |text.insns|
    ensures forall i: nat :: text.Pc(i) in Hits(text, target, n) <==> i < n && Reaches(text, i, target)
    ensures forall k, l :: 0 <= k < l < |Hits(text, target, n)| ==> Hits(text, target, n)[k] < Hits(text, target, n)[l]
    ensures forall k :: 0 <= k < |Hits(text, target, n)| ==> Hits(text, target, n)[k] < text.Pc(n)
  {
    if n == 0 {
    } else {
      HitsAre(text, target, n - 1);
    }
  }

  /** At most eleven words on, an addition to the loaded register completes the target, with no load of it between. */
  ghost predicate Scans(text: Text, i: nat, j: nat, target: int) {
    && i < j < |text.insns| && j - i <= 11
    && var load, add, pc := text.insns[i], text.insns[j], text.base + 4 * i;
       var page := pc - pc % 0x1000 + AdrpPages(load) * 0x1000;
       && load / 0x100_0000 in {0x90, 0xB0, 0xD0, 0xF0} && 0x9100_0000 <= add < 0x9180_0000
       && add / 0x20 % 0x20 == load % 0x20 && page == target - target % 0x1000
       && page + add / 0x400 % 0x1000 * (if add / 0x40_0000 % 2 == 1 then 0x1000 else 1) == target
       && forall k :: i < k < j ==>
            !(text.insns[k] / 0x100_0000 in {0x90, 0xB0, 0xD0, 0xF0} && text.insns[k] % 0x20 == load % 0x20)
  }

  lemma ViaIs(text: Text, i: nat, j: nat, target: int)
    ensures Via(text, i, j, target) <==> Scans(text, i, j, target)
  {
    if i < j < |text.insns| {
      AdrpIff(text.insns[i]);
      AddImmIff(text.insns[j]);
      forall k | i < k < j
        ensures IsAdrp(text.insns[k]) <==> text.insns[k] / 0x100_0000 in {0x90, 0xB0, 0xD0, 0xF0}
      {
        AdrpIff(text.insns[k]);
      }
    }
  }

  /** What the scan lists, instruction decoding and window spelled out. */
  lemma HitsIs(text: Text, target: int, i: nat)
    ensures text.base + 4 * i in Hits(text, target, |text.insns|) <==> exists j: nat :: Scans(text, i, j, target)
  {
    HitsAre(text, target, |text.insns|);
    assert text.base + 4 * i == text.Pc(i);
    if j: nat :| Via(text, i, j, target) {
      ViaIs(text, i, j, target);
    }
    if j: nat :| Scans(text, i, j, target) {
      ViaIs(text, i, j, target);
    }
  }

  // ----- where the index and the scan agree

  lemma PageAndOffset(page: int, imm: nat, target: int)
    requires page % 0x1000 == 0
    ensures (page + imm == target && imm < 0x1000) <==> (page == PageOf(target) && imm == target - page)
  {
  }

  /**
   * The index and the scan accept the same pairs, once the index's are cut to the window and to unshifted
   * additions, and the scan's to those whose register the tool's own rules never end in between.
   */
  lemma AgreeIff(text: Text, i: nat, j: nat, target: int)
    requires i < j < |text.insns|
    ensures (&& IsPair(text, i, j, target) && j - i <= 11
             && DecodeAddImm(text.insns[j]).value.imm < 0x1000)
       <==> (&& Via(text, i, j, target)
             && forall k :: i < k < j ==> !Ends(text.insns[k], RdField(text.insns[i])))
  {
    if IsAdrp(text.insns[i]) && DecodeAddImm(text.insns[j]).Some? {
      var a := DecodeAddImm(text.insns[j]).value;
      assert PageAt(text, i) == DecodeAdrp(text.insns[i], text.Pc(i)).value.page;
      PagesAligned(text.insns[i], text.Pc(i));
      PageAndOffset(PageAt(text, i), a.imm, target);
      if forall k :: i < k < j ==> !Ends(text.insns[k], RdField(text.insns[i])) {
        LoadsEnd(text, i, j, RdField(text.insns[i]));
      }
    }
  }

  lemma LoadsEnd(text: Text, i: nat, j: nat, r: nat)
    requires j <= |text.insns| && forall k :: i < k < j ==> !Ends(text.insns[k], r)
    ensures forall k :: i < k < j ==> !LoadsPage(text.insns[k], r)
  {
  }

  /** So an index entry from a near, unshifted addition is found by the scan ... */
  lemma IndexedIsScanned(text: Text, i: nat, j: nat, target: int)
    requires IsPair(text, i, j, target) && j - i <= 11 && DecodeAddImm(text.insns[j]).value.imm < 0x1000
    ensures text.Pc(i) in Hits(text, target, |text.insns|)
  {
    AgreeIff(text, i, j, target);
    HitsAre(text, target, |text.insns|);
    assert Via(text, i, j, target);
  }

  /** ... and a scan hit with nothing ending its register in between is in the index. */
  lemma ScannedIsIndexed(text: Text, out: Index, i: nat, j: nat, target: int)
    requires Lists(text, out, |text.insns|) && Via(text, i, j, target)
    requires forall k :: i < k < j ==> !Ends(text.insns[k], RdField(text.insns[i]))
    ensures target in out && text.Pc(i) in out[target]
  {
    AgreeIff(text, i, j, target);
    IndexIff(text, out, target, i);
    assert IsPair(text, i, j, target);
  }

  // ----- and where they differ

  /** An addition the scan can see: inside its window, and unshifted. */
  ghost predicate Near(text: Text, i: nat, j: nat) {
    i < j < |text.insns| && j - i <= 11 && AddsSmall(text.insns[j])
  }

  predicate AddsSmall(insn: u32) {
    match DecodeAddImm(insn) case Some(a) => a.imm < 0x1000 case None => false
  }

  ghost predicate NearPair(text: Text, i: nat, j: nat, target: int) {
    IsPair(text, i, j, target) && Near(text, i, j)
  }

  /** The scan accepts the pair although the index's rules end the register in between. */
  ghost predicate Stale(text: Text, i: nat, j: nat, target: int) {
    Via(text, i, j, target) && exists k :: i < k < j && Ends(text.insns[k], RdField(text.insns[i]))
  }

  lemma ViaIff(text: Text, i: nat, j: nat, target: int)
    ensures Via(text, i, j, target) <==> NearPair(text, i, j, target) || Stale(text, i, j, target)
  {
    if i < j < |text.insns| {
      AgreeIff(text, i, j, target);
    }
  }

  /** The scan lists a load exactly when it has a near pair or a stale one. */
  lemma HitIff(text: Text, i: nat, target: int)
    ensures text.Pc(i) in Hits(text, target, |text.insns|) <==>
            (exists j: nat :: NearPair(text, i, j, target)) || (exists j: nat :: Stale(text, i, j, target))
  {
    HitsAre(text, target, |text.insns|);
    forall j: nat
      ensures Via(text, i, j, target) <==> NearPair(text, i, j, target) || Stale(text, i, j, target)
    {
      ViaIff(text, i, j, target);
    }
    if j: nat :| Via(text, i, j, target) {
      assert NearPair(text, i, j, target) || Stale(text, i, j, target);
    }
  }

  /** What is indexed and not scanned: all its additions are far or shifted, and nothing stale stands in for them. */
  lemma IndexOnlyIff(text: Text, out: Index, i: nat, target: int)
    requires Lists(text, out, |text.insns|)
    ensures (target in out && text.Pc(i) in out[target] && text.Pc(i) !in Hits(text, target, |text.insns|))
       <==> (&& (exists j: nat :: IsPair(text, i, j, target))
             && (forall j: nat :: IsPair(text, i, j, target) ==> !Near(text, i, j))
             && (forall j: nat :: !Stale(text, i, j, target)))
  {
    IndexIff(text, out, target, i);
    HitIff(text, i, target);
    assert forall j: nat :: NearPair(text, i, j, target) <==> IsPair(text, i, j, target) && Near(text, i, j);
  }

  /** What is scanned and not indexed: only stale pairs. */
  lemma ScanOnlyIff(text: Text, out: Index, i: nat, target: int)
    requires Lists(text, out, |text.insns|)
    ensures (text.Pc(i) in Hits(text, target, |text.insns|) && !(target in out && text.Pc(i) in out[target]))
       <==> (exists j: nat :: Stale(text, i, j, target)) && (forall j: nat :: !IsPair(text, i, j, target))
  {
    IndexIff(text, out, target, i);
    HitIff(text, i, target);
    assert forall j: nat :: NearPair(text, i, j, target) ==> IsPair(text, i, j, target);
  }

  // ----- examples of both

  const ADRP_X0: u32 := 0x9000_0000
  const ADD_X0_X0_4: u32 := 0x9100_1000
  const ADD_X0_X0_1_SHIFTED: u32 := 0x9140_0400
  const MOV_X0_X1: u32 := 0xAA01_03E0
  const NOP: u32 := 0xD503_201F

  lemma Decoded()
    ensures IsAdrp(ADRP_X0) && RdField(ADRP_X0) == 0 && AdrpPages(ADRP_X0) == 0
    ensures DecodeAddImm(ADD_X0_X0_4) == Some(AddImm(4, 0, 0))
    ensures DecodeAddImm(ADD_X0_X0_1_SHIFTED) == Some(AddImm(0x1000, 0, 0))
    ensures !IsAdrp(MOV_X0_X1) && DecodeAddImm(MOV_X0_X1).None? && RdField(MOV_X0_X1) == 0 && !IsBl(MOV_X0_X1)
    ensures !IsAdrp(NOP) && DecodeAddImm(NOP).None? && RdField(NOP) == 31
  {
  }

  /** A load, an instruction other than a load that overwrites its register, an addition. */
  ghost predicate IsOverwritten(text: Text, r: nat, imm: nat) {
    && |text.insns| == 3 && LoadsPage(text.insns[0], r) && imm < 0x1000
    && DecodeAddImm(text.insns[2]) == Some(AddImm(imm, r, r))
    && Ends(text.insns[1], r) && !LoadsPage(text.insns[1], r) && DecodeAddImm(text.insns[1]).None?
  }

  /** The scan ignores an overwrite of the register that the index honours. */
  lemma OverwrittenIsScanOnly(text: Text, r: nat, imm: nat, target: int)
    requires IsOverwritten(text, r, imm) && target == PageAt(text, 0) + imm
    ensures Reaches(text, 0, target) && forall j: nat :: !IsPair(text, 0, j, target)
  {
    PagesAligned(text.insns[0], text.Pc(0));
    PageAndOffset(PageAt(text, 0), imm, target);
    assert Via(text, 0, 2, target);
    forall j: nat
      ensures !IsPair(text, 0, j, target)
    {
      assert j == 2 ==> Ends(text.insns[1], r);
    }
  }

  lemma ScanOnly()
    ensures var text := Text([ADRP_X0, MOV_X0_X1, ADD_X0_X0_4], 0);
            Reaches(text, 0, 4) && forall j: nat :: !IsPair(text, 0, j, 4)
  {
    Decoded();
    OverwrittenIsScanOnly(Text([ADRP_X0, MOV_X0_X1, ADD_X0_X0_4], 0), 0, 4, 4);
  }

  /** A load at the start, an addition just past the window, and nothing about its register in between. */
  ghost predicate IsFar(text: Text, r: nat, imm: nat) {
    && |text.insns| == 13 && LoadsPage(text.insns[0], r)
    && DecodeAddImm(text.insns[12]) == Some(AddImm(imm, r, r))
    && forall k :: 0 < k < 12 ==> text.insns[k] == NOP
  }

  /** The scan misses an addition past its window ... */
  lemma FarIsIndexOnly(text: Text, r: nat, imm: nat)
    requires IsFar(text, r, imm) && r != 31
    ensures IsPair(text, 0, 12, PageAt(text, 0) + imm) && !Reaches(text, 0, PageAt(text, 0) + imm)
  {
  }

  /** ... and any shifted addition. */
  lemma ShiftedIsIndexOnly()
    ensures var text := Text([ADRP_X0, ADD_X0_X0_1_SHIFTED], 0);
            IsPair(text, 0, 1, 0x1000) && !Reaches(text, 0, 0x1000)
  {
    var near := Text([ADRP_X0, ADD_X0_X0_1_SHIFTED], 0);
    Decoded();
    assert IsPair(near, 0, 1, 0x1000);
  }
}
