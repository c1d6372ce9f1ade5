/** The two AArch64 instructions the cross-reference tools decode, as bit fields of a 32-bit word. */
module Arm {
  import opened Bytes

  datatype Adrp = Adrp(page: int, rd: nat)

  datatype AddImm = AddImm(imm: nat, rn: nat, rd: nat)

  function PageOf(addr: int): int {
    addr - addr % 0x1000
  }

  function RdField(insn: u32): nat {
    insn % 0x20
  }

  function RnField(insn: u32): nat {
    insn / 0x20 % 0x20
  }

  predicate IsAdrp(insn: u32) {
    insn / 0x8000_0000 % 2 == 1 && insn / 0x100_0000 % 0x20 == 0x10
  }

  /** The signed page count: immhi above immlo, sign-extended from bit 20. */
  function AdrpPages(insn: u32): int {
    var immlo, immhi := insn / 0x2000_0000 % 4, insn / 0x20 % 0x8_0000;
    var imm := immhi * 4 + immlo;
    if imm / 0x10_0000 % 2 == 1 then imm - 0x20_0000 else imm
  }

  function DecodeAdrp(insn: u32, pc: int): Option<Adrp> {
    if IsAdrp(insn) then Some(Adrp(PageOf(pc) + AdrpPages(insn) * 0x1000, RdField(insn))) else None
  }

  function DecodeAddImm(insn: u32): Option<AddImm> {
    if insn / 0x80_0000 % 0x200 != 0x122 then None
    else
      var imm := insn / 0x400 % 0x1000;
      Some(AddImm(if insn / 0x40_0000 % 2 == 1 then imm * 0x1000 else imm, RnField(insn), RdField(insn)))
  }

  predicate IsBl(insn: u32) {
    insn / 0x400_0000 == 0x25
  }

  // ----- the encodings, from the Arm Architecture Reference Manual (DDI 0487), chapter C6.2

  function EncodeAdrp(pages: int, rd: nat): u32
    requires -0x10_0000 <= pages < 0x10_0000 && rd < 0x20
  {
    var imm := pages % 0x20_0000;
    0x8000_0000 + imm % 4 * 0x2000_0000 + 0x1000_0000 + imm / 4 * 0x20 + rd
  }

  function EncodeAddImm(shift: bool, imm12: nat, rn: nat, rd: nat): u32
    requires imm12 < 0x1000 && rn < 0x20 && rd < 0x20
  {
    0x9100_0000 + (if shift then 0x40_0000 else 0) + imm12 * 0x400 + rn * 0x20 + rd
  }

  /** Decoding inverts encoding for every signed page count and register. */
  lemma AdrpRoundTrip(pages: int, rd: nat, pc: int)
    requires -0x10_0000 <= pages < 0x10_0000 && rd < 0x20
    ensures DecodeAdrp(EncodeAdrp(pages, rd), pc) == Some(Adrp(PageOf(pc) + pages * 0x1000, rd))
  {
    AdrpEncodes(pages, rd);
    SignExtend(pages);
    PagesRead(EncodeAdrp(pages, rd), pages % 0x20_0000);
  }

  lemma AdrpEncodes(pages: int, rd: nat)
    requires -0x10_0000 <= pages < 0x10_0000 && rd < 0x20
    ensures var w, imm := EncodeAdrp(pages, rd), pages % 0x20_0000;
            IsAdrp(w) && w / 0x2000_0000 % 4 == imm % 4 && w / 0x20 % 0x8_0000 == imm / 4 && RdField(w) == rd
  {
    var imm := pages % 0x20_0000;
    AdrpFields(imm % 4, imm / 4, rd);
  }

  lemma PagesRead(w: u32, imm: nat)
    requires w / 0x2000_0000 % 4 == imm % 4 && w / 0x20 % 0x8_0000 == imm / 4
    ensures AdrpPages(w) == if imm / 0x10_0000 % 2 == 1 then imm - 0x20_0000 else imm
  {
    assert imm / 4 * 4 + imm % 4 == imm;
  }

  lemma SignExtend(pages: int)
    requires -0x10_0000 <= pages < 0x10_0000
    ensures var imm := pages % 0x20_0000;
            pages == if imm / 0x10_0000 % 2 == 1 then imm - 0x20_0000 else imm
  {
  }

  lemma AdrpFields(immlo: nat, immhi: nat, rd: nat)
    requires immlo < 4 && immhi < 0x8_0000 && rd < 0x20
    ensures var w: u32 := 0x8000_0000 + immlo * 0x2000_0000 + 0x1000_0000 + immhi * 0x20 + rd;
            && IsAdrp(w) && w / 0x2000_0000 % 4 == immlo && w / 0x20 % 0x8_0000 == immhi && RdField(w) == rd
  {
    var w: u32 := 0x8000_0000 + immlo * 0x2000_0000 + 0x1000_0000 + immhi * 0x20 + rd;
    var low := immhi * 0x20 + rd;
    QuotientUnique(w, 0x8000_0000, 1, w - 0x8000_0000);
    QuotientUnique(w, 0x2000_0000, 4 + immlo, 0x1000_0000 + low);
    QuotientUnique(4 + immlo, 4, 1, immlo);
    QuotientUnique(w, 0x100_0000, (4 + immlo) * 0x20 + 0x10, low);
    QuotientUnique((4 + immlo) * 0x20 + 0x10, 0x20, 4 + immlo, 0x10);
    QuotientUnique(w, 0x20, (0x80 + immlo * 0x20 + 0x10) * 0x8_0000 + immhi, rd);
    QuotientUnique((0x80 + immlo * 0x20 + 0x10) * 0x8_0000 + immhi, 0x8_0000, 0x80 + immlo * 0x20 + 0x10, immhi);
  }

  /** An ADRP and a following ADD never disturb each other's decoding: no word is both. */
  lemma AdrpIsNotAdd(insn: u32, pc: int)
    requires DecodeAdrp(insn, pc).Some?
    ensures DecodeAddImm(insn).None?
  {
    AdrpIff(insn);
    AddImmIff(insn);
  }

  lemma AddImmRoundTrip(shift: bool, imm12: nat, rn: nat, rd: nat)
    requires imm12 < 0x1000 && rn < 0x20 && rd < 0x20
    ensures DecodeAddImm(EncodeAddImm(shift, imm12, rn, rd))
         == Some(AddImm(if shift then imm12 * 0x1000 else imm12, rn, rd))
  {
    AddHighFields(if shift then 1 else 0, imm12, rn * 0x20 + rd);
    AddLowFields(0x9100_0000 / 0x400 + (if shift then 0x1000 else 0) + imm12, rn, rd);
  }

  lemma AddHighFields(sh: nat, imm12: nat, low: nat)
    requires sh < 2 && imm12 < 0x1000 && low < 0x400
    ensures var w := 0x9100_0000 + sh * 0x40_0000 + imm12 * 0x400 + low;
            w / 0x80_0000 % 0x200 == 0x122 && w / 0x40_0000 % 2 == sh && w / 0x400 % 0x1000 == imm12
  {
  }

  lemma AddLowFields(high: nat, rn: nat, rd: nat)
    requires rn < 0x20 && rd < 0x20
    ensures var w := high * 0x400 + rn * 0x20 + rd; w / 0x20 % 0x20 == rn && w % 0x20 == rd
  {
    QuotientUnique(high * 0x400 + rn * 0x20 + rd, 0x20, high * 0x20 + rn, rd);
    QuotientUnique(high * 0x20 + rn, 0x20, high, rn);
  }

  lemma PagesAligned(insn: u32, pc: int)
    requires DecodeAdrp(insn, pc).Some?
    ensures DecodeAdrp(insn, pc).value.page % 0x1000 == 0
  {
  }

  // ----- which words decode at all

  /** Bit 31 set and 10000 in bits 24 to 28, bits 29 and 30 being free. */
  lemma AdrpIff(insn: u32)
    ensures IsAdrp(insn) <==> insn / 0x100_0000 in {0x90, 0xB0, 0xD0, 0xF0}
  {
    assert insn / 0x8000_0000 == insn / 0x100_0000 / 0x80;
  }

  lemma AddImmIff(insn: u32)
    ensures DecodeAddImm(insn).Some? <==> 0x9100_0000 <= insn < 0x9180_0000
  {
    assert insn / 0x80_0000 < 0x200;
  }

  lemma BlIff(insn: u32)
    ensures IsBl(insn) <==> 0x9400_0000 <= insn < 0x9800_0000
  {
  }

  lemma SplitLow(insn: u32)
    ensures insn % 0x100_0000 == insn / 0x20 % 0x8_0000 * 0x20 + insn % 0x20
    ensures insn / 0x2000_0000 == insn / 0x100_0000 / 0x20
  {
    var q, r := insn / 0x100_0000, insn % 0x100_0000;
    var x, y := r / 0x20, r % 0x20;
    QuotientUnique(insn, 0x20, q * 0x8_0000 + x, y);
    QuotientUnique(q * 0x8_0000 + x, 0x8_0000, q, x);
    QuotientUnique(insn, 0x2000_0000, q / 0x20, q % 0x20 * 0x100_0000 + r);
  }

  lemma SignExtended(imm: nat)
    requires imm < 0x20_0000
    ensures var pages := if imm / 0x10_0000 % 2 == 1 then imm - 0x20_0000 else imm;
            -0x10_0000 <= pages < 0x10_0000 && pages % 0x20_0000 == imm
  {
  }

  lemma TopByte(top: nat)
    requires top in {0x90, 0xB0, 0xD0, 0xF0}
    ensures top == 0x90 + top / 0x20 % 4 * 0x20
  {
  }

  /** Every word that decodes as ADRP is the encoding of one. */
  lemma AdrpEncoded(insn: u32)
    requires IsAdrp(insn)
    ensures -0x10_0000 <= AdrpPages(insn) < 0x10_0000 && insn == EncodeAdrp(AdrpPages(insn), RdField(insn))
  {
    AdrpIff(insn);
    SplitLow(insn);
    TopByte(insn / 0x100_0000);
    var immlo, immhi := insn / 0x2000_0000 % 4, insn / 0x20 % 0x8_0000;
    SignExtended(immhi * 4 + immlo);
    FromParts(insn, insn / 0x100_0000, immlo, immhi, AdrpPages(insn));
  }

  lemma FromParts(insn: u32, top: nat, immlo: nat, immhi: nat, pages: int)
    requires top == insn / 0x100_0000 == 0x90 + immlo * 0x20 && immlo < 4
    requires insn % 0x100_0000 == immhi * 0x20 + RdField(insn)
    requires -0x10_0000 <= pages < 0x10_0000 && pages % 0x20_0000 == immhi * 4 + immlo
    ensures insn == EncodeAdrp(pages, RdField(insn))
  {
    QuotientUnique(immhi * 4 + immlo, 4, immhi, immlo);
    var low, rd := insn % 0x100_0000, RdField(insn);
    assert insn == top * 0x100_0000 + low;
    SumOfParts(insn, top, low, immlo, immhi, rd);
  }

  lemma SumOfParts(insn: nat, top: nat, low: nat, immlo: nat, immhi: nat, rd: nat)
    requires insn == top * 0x100_0000 + low && top == 0x90 + immlo * 0x20 && low == immhi * 0x20 + rd
    ensures insn == 0x8000_0000 + immlo * 0x2000_0000 + 0x1000_0000 + immhi * 0x20 + rd
  {
  }

  lemma SplitAdd(insn: u32)
    ensures insn == insn / 0x400 * 0x400 + RnField(insn) * 0x20 + RdField(insn)
    ensures insn / 0x400 == insn / 0x40_0000 * 0x1000 + insn / 0x400 % 0x1000
  {
    var q, r := insn / 0x400, insn % 0x400;
    QuotientUnique(insn, 0x20, q * 0x20 + r / 0x20, r % 0x20);
    QuotientUnique(q * 0x20 + r / 0x20, 0x20, q, r / 0x20);
    QuotientUnique(insn, 0x40_0000, q / 0x1000, q % 0x1000 * 0x400 + r);
  }

  /** Likewise for ADD. */
  lemma AddImmEncoded(insn: u32)
    requires DecodeAddImm(insn).Some?
    ensures insn == EncodeAddImm(insn / 0x40_0000 % 2 == 1, insn / 0x400 % 0x1000, RnField(insn), RdField(insn))
  {
    AddImmIff(insn);
    SplitAdd(insn);
    assert insn / 0x40_0000 == 0x244 || insn / 0x40_0000 == 0x245;
  }

  /** A branch of so many words, forwards or backwards. */
  function EncodeBl(words: int): u32
    requires -0x200_0000 <= words < 0x200_0000
  {
    0x9400_0000 + words % 0x400_0000
  }

  lemma BlEncoded(insn: u32)
    ensures IsBl(insn) <==> exists words: int :: -0x200_0000 <= words < 0x200_0000 && insn == EncodeBl(words)
  {
    BlIff(insn);
    if IsBl(insn) {
      var imm := insn - 0x9400_0000;
      var words := if imm < 0x200_0000 then imm else imm - 0x400_0000;
      assert insn == EncodeBl(words);
    }
  }
}
