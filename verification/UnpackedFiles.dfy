/** What unpacking leaves behind: the manifest entry and file of each partition, and the files already there. */
module UnpackedFiles {
  import opened Bytes
  import opened Errors
  import opened Header
  import opened Layout
  import opened ManifestModel
  import opened Unpacker
  import Rebuilding
  import BuildTag
  import CksmContainer
  import UImageContainer
  import Utf8

  // ----- one partition, read byte by byte

  predicate LooksCksm(b: seq<byte>) {
    0x40 <= |b| && b[..4] == [0x43, 0x4B, 0x53, 0x4D]
  }

  predicate LooksUimage(b: seq<byte>) {
    0x40 <= |b| && b[..4] == [0x27, 0x05, 0x19, 0x56]
  }

  predicate LooksDtb(b: seq<byte>) {
    4 <= |b| && b[..4] == [0xD0, 0x0D, 0xFE, 0xED]
  }

  /** The entry of a partition stored as one file. */
  ghost predicate IsWholeEntry(p: Partition, id: u32, b: seq<byte>, ext: string) {
    && p.id == id && p.name == PartitionName(id) && p.file == FileName(id, ext)
    && p.container == Raw && p.cksm == None && p.uimage == None
    && match p.nvtTagOffset
       case None => BuildTag.NoTagBefore(b, |b|)
       case Some(t) => |b| <= U32_MAX as nat ==> BuildTag.IsFirstTag(b, t)
  }

  /** The entry of a CKSM container keeps five of its fields. */
  ghost predicate IsCksmEntry(p: Partition, id: u32, b: seq<byte>)
    requires 0x40 <= |b|
  {
    && p.id == id && p.name == PartitionName(id) && p.file == FileName(id, "ubi")
    && p.container == Cksm && p.nvtTagOffset == None && p.uimage == None
    && p.cksm == Some(CksmTable(Rd32(b, 0x04), Rd32(b, 0x08), Rd32(b, 0x10), Rd32(b, 0x18), Rd32(b, 0x1C)))
  }

  /** The entry of a uImage keeps its name, as text, and seven other fields. */
  ghost predicate IsUimageEntry(p: Partition, id: u32, b: seq<byte>)
    requires 0x40 <= |b|
  {
    && p.id == id && p.name == PartitionName(id) && p.file == FileName(id, "lzma")
    && p.container == Uimage && p.nvtTagOffset == None && p.cksm == None
    && p.uimage == Some(UImageTable(Utf8.Lossy(UpToNul(b[0x20..0x40])), RdBe32(b, 0x08), RdBe32(b, 0x10),
                                    RdBe32(b, 0x14), b[0x1C], b[0x1D], b[0x1E], b[0x1F]))
  }

  /** The stretch of a partition that goes to its file, when it lies inside. */
  function Stretch(b: seq<byte>, raw: bool): (int, int) {
    if raw then (0, |b|)
    else if LooksCksm(b) then (Rd32(b, 0x10), Rd32(b, 0x10) as int + Rd32(b, 0x14) as int)
    else if LooksUimage(b) then (0x40, 0x40 + RdBe32(b, 0x0C) as int)
    else (0, |b|)
  }

  ghost predicate IsEntry(p: Partition, id: u32, b: seq<byte>, raw: bool) {
    if raw then IsWholeEntry(p, id, b, "bin")
    else if LooksCksm(b) then IsCksmEntry(p, id, b)
    else if LooksUimage(b) then IsUimageEntry(p, id, b)
    else IsWholeEntry(p, id, b, if LooksDtb(b) then "dtb" else "bin")
  }

  lemma PayloadIs(b: seq<byte>, raw: bool)
    ensures var (s, e) := Stretch(b, raw);
            PayloadOf(b, raw) == if e <= |b| then Some(b[s..e]) else None
  {
    CksmContainer.ParsesIff(b);
    UImageContainer.ParsesIff(b);
    assert b[0..|b|] == b;
  }

  lemma WholeEntryIs(id: u32, b: seq<byte>, raw: bool)
    requires KindOf(b, raw).Whole?
    ensures IsWholeEntry(EntryFor(id, b, raw), id, b, PayloadExt(b, raw))
  {
    var t := BuildTag.FindTag(b);
  }

  lemma EntryIs(id: u32, b: seq<byte>, raw: bool)
    ensures IsEntry(EntryFor(id, b, raw), id, b, raw)
  {
    CksmContainer.ParsesIff(b);
    UImageContainer.ParsesIff(b);
    if KindOf(b, raw).Whole? {
      WholeEntryIs(id, b, raw);
    }
  }

  // ----- all of them

  lemma {:induction false} WriteAllKeeps(out: Directory, splits: seq<Split>, name: string)
    requires forall i :: 0 <= i < |splits| ==> splits[i].entry.file != name
    ensures name in WriteAll(out, splits) <==> name in out
    ensures name in out ==> WriteAll(out, splits)[name] == out[name]
  {
    if splits == [] {
    } else {
      var n := |splits| - 1;
      assert splits[n].entry.file != name;
      WriteAllKeeps(out, splits[..n], name);
    }
  }

  /** Where the files of u come from. */
  ghost predicate Gathers(u: Unpacked, out: Directory, splits: seq<Split>) {
    u.manifest.partitions == EntriesOf(splits) && u.files == WriteAll(out, splits)
  }

  lemma UnpackGathers(img: seq<byte>, raw: bool, force: bool, out: Directory, u: Unpacked)
      returns (fw: FirmwareHeader, splits: seq<Split>)
    requires Unpack(img, raw, force, out) == Ok(u)
    ensures Parse(img) == Ok(fw) && ReadsFrom(fw, img) && (force || out == map[])
    ensures Gathers(u, out, splits) && Rebuilding.SplitsAre(img, fw, raw, splits)
    ensures u.manifest.firmware == Firmware(fw.version, fw.headerSize, fw.chksumMethod, DerivedAlign(fw))
  {
    fw := Parse(img).value;
    Rebuilding.ParsedReads(img, fw);
    splits := Collect(SplitsOf(img, fw, raw), |fw.parts|).value;
    Rebuilding.CollectedSplits(img, fw, raw, splits);
  }

  /** A file that no partition is written to is there afterwards exactly as it was before. */
  lemma OtherFilesKept(img: seq<byte>, raw: bool, force: bool, out: Directory, u: Unpacked, name: string)
    requires Unpack(img, raw, force, out) == Ok(u)
    requires forall i :: 0 <= i < |u.manifest.partitions| ==> u.manifest.partitions[i].file != name
    ensures name in u.files <==> name in out
    ensures name in out ==> u.files[name] == out[name]
  {
    var fw, splits := UnpackGathers(img, raw, force, out, u);
    forall i | 0 <= i < |splits|
      ensures splits[i].entry.file != name
    {
      assert splits[i].entry == u.manifest.partitions[i];
    }
    WriteAllKeeps(out, splits, name);
  }

  ghost predicate LastToFile(ps: seq<Partition>, i: nat)
    requires i < |ps|
  {
    forall k :: i < k < |ps| ==> ps[k].file != ps[i].file
  }

  ghost predicate HoldsStretch(files: Directory, name: string, b: seq<byte>, raw: bool) {
    var (s, e) := Stretch(b, raw);
    name in files && e <= |b| && files[name] == b[s..e]
  }

  /** Each partition has its entry, and its stretch in its file unless a later partition writes over that. */
  lemma PartitionUnpacked(img: seq<byte>, raw: bool, force: bool, out: Directory, u: Unpacked, fw: FirmwareHeader,
                          i: nat)
    requires Unpack(img, raw, force, out) == Ok(u) && Parse(img) == Ok(fw) && i < |fw.parts|
    ensures |u.manifest.partitions| == |fw.parts| && Fits(img, fw.parts[i])
    ensures IsEntry(u.manifest.partitions[i], fw.parts[i].id, BlobIn(img, fw.parts[i]), raw)
    ensures LastToFile(u.manifest.partitions, i) ==>
              HoldsStretch(u.files, u.manifest.partitions[i].file, BlobIn(img, fw.parts[i]), raw)
  {
    var fw', splits := UnpackGathers(img, raw, force, out, u);
    EntryIs(fw.parts[i].id, BlobIn(img, fw.parts[i]), raw);
    PayloadIs(BlobIn(img, fw.parts[i]), raw);
    if LastToFile(u.manifest.partitions, i) {
      forall k | i < k < |splits|
        ensures splits[k].entry.file != splits[i].entry.file
      {
        assert splits[k].entry == u.manifest.partitions[k];
      }
      Rebuilding.WriteAllLast(out, splits, i);
    }
  }

  /** What is no image is not unpacked, nor is anything into a directory with other files in it, unless forced. */
  lemma UnpackRefuses(img: seq<byte>, raw: bool, force: bool, out: Directory)
    ensures Parse(img).Err? ==> Unpack(img, raw, force, out) == Err(Parse(img).error)
    ensures Parse(img).Ok? && !force && out != map[] ==> Unpack(img, raw, force, out) == Err(OutputNotEmpty)
  {
  }
}
