/** Images that survive the round trip without being canonical: their table overlaps the fixed header. */
module Overlap {
  import opened Bytes
  import opened Checksum
  import opened Header
  import opened Layout
  import opened ManifestModel
  import opened Unpacker
  import opened Rebuilding
  import opened RoundTrip
  import BuildTag
  import UImageContainer

  /** A table at 0x1C, its one entry's offset standing in the total-size field, and 0x58 zero bytes. */
  ghost predicate IsOverlapExample(img: seq<byte>) {
    && |img| == 0x80 && IsValid(img)
    && img[..FIXED_LEN] == FixedHeader(0, 0x1C, 1, 0x28, 0x58) && img[0x28..0x80] == Zeros(0x58)
  }

  lemma OverlapExists() returns (img: seq<byte>)
    ensures IsOverlapExample(img)
  {
    var base := FixedHeader(0, 0x1C, 1, 0x28, 0x58) + Zeros(0x5C);
    img := Solved(base, FW_CHKSUM_OFF);
    assert FW_CHKSUM_OFF % 2 == 0;
    SolvedIsValid(base, FW_CHKSUM_OFF);
    KeptAround(base, img);
  }

  lemma KeptAround(base: seq<byte>, img: seq<byte>)
    requires |base| == |img| == 0x80 && forall k :: 0 <= k < 0x80 && k != 0x24 && k != 0x25 ==> img[k] == base[k]
    ensures img[..0x24] == base[..0x24] && img[0x28..0x80] == base[0x28..0x80]
  {
  }

  lemma OneEntry(img: seq<byte>, tbl: nat)
    requires tbl + 12 <= |img| && Fits(img, EntryAt(img, tbl, 0))
    ensures ReadTable(img, tbl, 1) == Ok([EntryAt(img, tbl, 0)])
  {
    var r := ReadTable(img, tbl, 1);
    assert r.Ok? && r.value == [EntryAt(img, tbl, 0)];
  }

  lemma ExampleParses(img: seq<byte>) returns (fw: FirmwareHeader)
    requires IsOverlapExample(img)
    ensures Parse(img) == Ok(fw) && ReadsFrom(fw, img)
    ensures fw.headerSize == 0x1C && fw.totalSize == 0x28 && |fw.parts| == 1
    ensures fw.parts[0].offset == 0x28 && fw.parts[0].size == 0x58
  {
    FixedIff(img, 0, 0x1C, 1, 0x28, 0x58);
    OneEntry(img, 0x1C);
    ParseReads(img, 0, 0x1C, 0x28, 0x58, [EntryAt(img, 0x1C, 0)]);
    fw := Parse(img).value;
  }

  lemma ZerosUntagged()
    ensures BuildTag.FindTag(Zeros(0x58)).None?
  {
    var z := Zeros(0x58);
    forall t | 0 <= t && t + BuildTag.NVT_TAG_LEN <= |z|
      ensures !BuildTag.TagAt(z, t)
    {
      assert z[t + 0x18..t + 0x1E][0] == 0;
      assert BuildTag.Stamp(0x58)[0] == 0x58;
    }
  }

  lemma ZerosAreWhole(raw: bool)
    ensures PayloadOf(Zeros(0x58), raw) == Some(Zeros(0x58)) && PartFits(Zeros(0x58), Zeros(0x58), raw)
  {
    var z := Zeros(0x58);
    assert z[..4][0] == 0;
    RdBe32Iff(z, 0, UImageContainer.UIMAGE_MAGIC);
    assert z[0..4][0] == 0;
    ZerosUntagged();
  }

  /** A single partition right after the table is laid out by any alignment. */
  lemma SinglePartition(img: seq<byte>, fw: FirmwareHeader, a: nat)
    requires IsCandidate(a) && |fw.parts| == 1 && fw.parts[0].offset as nat == fw.FirstPartitionOffset()
    requires fw.parts[0].offset as nat + fw.parts[0].size as nat == |img|
    ensures CanonicalLayout(img, fw)
  {
    assert GapZero(img, fw, 0);
    assert LaidOutAt(fw, a, 0);
    assert LaidOut(fw, a);
  }

  lemma ExamplePart(img: seq<byte>, fw: FirmwareHeader, raw: bool)
    requires |img| == 0x80 && img[0x28..0x80] == Zeros(0x58) && |fw.parts| == 1 && ReadsFrom(fw, img)
    requires fw.parts[0].offset == 0x28 && fw.parts[0].size == 0x58
    ensures CanonicalPart(img, fw, raw, 0)
  {
    assert BlobAt(img, fw, 0) == Zeros(0x58) && LastSharing(img, fw, raw, 0) == 0;
    ZerosAreWhole(raw);
  }

  lemma OnlyTotalDiffers(img: seq<byte>, fw: FirmwareHeader, raw: bool)
    requires ReadsFrom(fw, img) && |img| == 0x80 && fw.headerSize == 0x1C && |fw.parts| == 1 && IsValid(img)
    requires CanonicalLayout(img, fw) && CanonicalPart(img, fw, raw, 0)
    ensures CanonicalButTotal(img, fw, raw)
  {
    assert fw.FirstPartitionOffset() == 0x28;
  }

  lemma OverlapIsCanonicalButTotal(img: seq<byte>, raw: bool) returns (fw: FirmwareHeader)
    requires IsOverlapExample(img)
    ensures Parse(img) == Ok(fw) && ReadsFrom(fw, img) && fw.totalSize != |img| && CanonicalButTotal(img, fw, raw)
  {
    fw := ExampleParses(img);
    SinglePartition(img, fw, 1);
    ExamplePart(img, fw, raw);
    OnlyTotalDiffers(img, fw, raw);
  }

  /** Below 0x26 an image can survive that is not canonical: here its total size does not read as its length. */
  lemma OverlapSurvives(img: seq<byte>, raw: bool, force: bool, out: Directory)
    requires IsOverlapExample(img) && (force || out == map[])
    ensures RoundTrips(img, raw, force, out) && !Canonical(img, raw)
  {
    var fw := OverlapIsCanonicalButTotal(img, raw);
    CanonicalButTotalIsReproduced(img, fw, raw);
    RoundTripIff(img, raw, force, out);
  }
}
