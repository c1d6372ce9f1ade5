/** What unpacking writes and what packing makes of it, partition by partition. */
module Rebuilding {
  import opened Bytes
  import opened Errors
  import opened Header
  import opened Layout
  import opened ManifestModel
  import opened Packer
  import opened PackedImage
  import opened Unpacker
  import BuildTag
  import CksmContainer
  import UImageContainer

  // ----- one partition

  /** What a partition and the file it is rebuilt from must look like, byte by byte. */
  ghost predicate PartFits(blob: seq<byte>, file: seq<byte>, raw: bool) {
    match KindOf(blob, raw)
    case InCksm(_) => CksmContainer.Fits(blob, file)
    case InUimage(_) => UImageContainer.Fits(blob, file)
    case Whole =>
      match BuildTag.FindTag(blob)
      case None => file == blob
      case Some(t) => BuildTag.FitsTag(blob, t, file)
  }

  lemma RebuildIff(id: u32, blob: seq<byte>, raw: bool, file: seq<byte>)
    requires |blob| <= U32_MAX as nat
    ensures BuildBlob(EntryFor(id, blob, raw), file) == Ok(blob) <==> PartFits(blob, file, raw)
  {
    match KindOf(blob, raw) {
      case InCksm(c) => RebuildInCksmIff(id, c, blob, raw, file);
      case InUimage(u) => RebuildInUimageIff(id, u, blob, raw, file);
      case Whole => RebuildWholeIff(id, blob, raw, file);
    }
  }

  lemma RebuildInCksmIff(id: u32, c: CksmContainer.CksmHeader, blob: seq<byte>, raw: bool, file: seq<byte>)
    requires KindOf(blob, raw) == InCksm(c)
    ensures BuildBlob(EntryFor(id, blob, raw), file) == Ok(blob) <==> PartFits(blob, file, raw)
  {
    RebuildCksmIff(c, blob, file);
  }

  lemma RebuildInUimageIff(id: u32, u: UImageContainer.UImageHeader, blob: seq<byte>, raw: bool, file: seq<byte>)
    requires KindOf(blob, raw) == InUimage(u)
    ensures BuildBlob(EntryFor(id, blob, raw), file) == Ok(blob) <==> PartFits(blob, file, raw)
  {
    assert UImageHeaderOf(UImageTableOf(u)) == u;
    UImageContainer.RebuildIff(blob, file);
  }

  lemma RebuildWholeIff(id: u32, blob: seq<byte>, raw: bool, file: seq<byte>)
    requires KindOf(blob, raw).Whole? && |blob| <= U32_MAX as nat
    ensures BuildBlob(EntryFor(id, blob, raw), file) == Ok(blob) <==> PartFits(blob, file, raw)
  {
    match BuildTag.FindTag(blob) {
      case None =>
      case Some(t) => RebuildTaggedIff(blob, t, file);
    }
  }

  lemma RebuildCksmIff(c: CksmContainer.CksmHeader, blob: seq<byte>, file: seq<byte>)
    requires CksmContainer.Parse(blob) == Some(c)
    ensures var h := CksmHeaderOf(CksmTableOf(c), |file|);
            CksmContainer.Buildable(h, file) && CksmContainer.Built(h, file) == blob <==> CksmContainer.Fits(blob, file)
  {
    CksmContainer.RebuildIff(blob, file);
    var h := CksmHeaderOf(CksmTableOf(c), |file|);
    CksmContainer.LengthIsRecomputed(h, c.dataLength, file);
  }

  lemma RebuildTaggedIff(blob: seq<byte>, t: nat, file: seq<byte>)
    requires BuildTag.FindTag(blob) == Some(t)
    ensures t + BuildTag.NVT_TAG_LEN <= |file| && BuildTag.Fixed(file, t) == blob <==> BuildTag.FitsTag(blob, t, file)
  {
    BuildTag.Aligned2(t);
    BuildTag.FixIff(blob, t, file);
  }

  // ----- files that partitions share

  function BlobAt(img: seq<byte>, fw: FirmwareHeader, i: nat): (b: seq<byte>)
    requires ReadsFrom(fw, img) && i < |fw.parts|
    ensures |b| == fw.parts[i].size
  {
    BlobIn(img, fw.parts[i])
  }

  /** Among the first n names, the last occurrence of name i. */
  function LastSame(names: seq<string>, i: nat, n: nat): (j: nat)
    requires i < n <= |names|
    ensures i <= j < n && names[j] == names[i]
    ensures forall k :: j < k < n ==> names[k] != names[i]
  {
    if names[n - 1] == names[i] then n - 1 else LastSame(names, i, n - 1)
  }

  function NamesOf(img: seq<byte>, fw: FirmwareHeader, raw: bool): (names: seq<string>)
    requires ReadsFrom(fw, img)
    ensures |names| == |fw.parts|
    ensures forall i :: 0 <= i < |names| ==> names[i] == FileName(fw.parts[i].id, PayloadExt(BlobAt(img, fw, i), raw))
  {
    seq(|fw.parts|, i requires 0 <= i < |fw.parts| => FileName(fw.parts[i].id, PayloadExt(BlobAt(img, fw, i), raw)))
  }

  /** The last partition written to the file of partition i. */
  function LastSharing(img: seq<byte>, fw: FirmwareHeader, raw: bool, i: nat): (j: nat)
    requires ReadsFrom(fw, img) && i < |fw.parts|
    ensures i <= j < |fw.parts|
  {
    LastSame(NamesOf(img, fw, raw), i, |fw.parts|)
  }

  lemma {:induction false} WriteAllLast(out: Directory, splits: seq<Split>, j: nat)
    requires j < |splits|
    requires forall k :: j < k < |splits| ==> splits[k].entry.file != splits[j].entry.file
    ensures splits[j].entry.file in WriteAll(out, splits)
    ensures WriteAll(out, splits)[splits[j].entry.file] == splits[j].payload
  {
    if j == |splits| - 1 {
    } else {
      var init := splits[..|splits| - 1];
      assert splits[|splits| - 1].entry.file != splits[j].entry.file;
      WriteAllLast(out, init, j);
    }
  }

  // ----- what unpacking produces

  lemma ParsedReads(img: seq<byte>, fw: FirmwareHeader)
    requires Parse(img) == Ok(fw)
    ensures ReadsFrom(fw, img)
  {
  }

  ghost predicate SplitsAre(img: seq<byte>, fw: FirmwareHeader, raw: bool, splits: seq<Split>)
    requires ReadsFrom(fw, img)
  {
    && |splits| == |fw.parts|
    && forall k :: 0 <= k < |splits| ==>
         && splits[k].entry == EntryFor(fw.parts[k].id, BlobAt(img, fw, k), raw)
         && PayloadOf(BlobAt(img, fw, k), raw) == Some(splits[k].payload)
         && splits[k].entry.file == NamesOf(img, fw, raw)[k]
  }

  lemma CollectedSplits(img: seq<byte>, fw: FirmwareHeader, raw: bool, splits: seq<Split>)
    requires ReadsFrom(fw, img) && Collect(SplitsOf(img, fw, raw), |fw.parts|) == Ok(splits)
    ensures SplitsAre(img, fw, raw, splits)
  {
    forall k | 0 <= k < |splits|
      ensures splits[k].entry == EntryFor(fw.parts[k].id, BlobAt(img, fw, k), raw)
      ensures PayloadOf(BlobAt(img, fw, k), raw) == Some(splits[k].payload)
      ensures splits[k].entry.file == NamesOf(img, fw, raw)[k]
    {
      SplitIs(k, fw.parts[k].id, BlobAt(img, fw, k), raw, splits[k]);
    }
  }

  /** The file of partition i, after everything is written, holds the payload of the last one sharing it. */
  lemma FileHolds(img: seq<byte>, fw: FirmwareHeader, raw: bool, out: Directory, splits: seq<Split>, i: nat)
    requires ReadsFrom(fw, img) && SplitsAre(img, fw, raw, splits) && i < |splits|
    ensures var name, files := splits[i].entry.file, WriteAll(out, splits);
            name in files && PayloadOf(BlobAt(img, fw, LastSharing(img, fw, raw, i)), raw) == Some(files[name])
  {
    WriteAllLast(out, splits, LastSharing(img, fw, raw, i));
  }

  lemma SplitIs(i: nat, id: u32, blob: seq<byte>, raw: bool, s: Split)
    requires SplitBlob(i, id, blob, raw) == Ok(s)
    ensures s.entry == EntryFor(id, blob, raw) && PayloadOf(blob, raw) == Some(s.payload)
    ensures s.entry.file == FileName(id, PayloadExt(blob, raw)) && s.entry.id == id && HasTable(s.entry)
  {
  }

  function ManifestOf(fw: FirmwareHeader, splits: seq<Split>): Manifest {
    Manifest(Firmware(fw.version, fw.headerSize, fw.chksumMethod, DerivedAlign(fw)), EntriesOf(splits))
  }

  lemma CandidateIsPowerOfTwo(a: nat)
    requires IsCandidate(a)
    ensures IsPowerOfTwo(a)
  {
  }

  lemma UnpackedIsAccepted(img: seq<byte>, fw: FirmwareHeader, raw: bool, splits: seq<Split>)
    requires ReadsFrom(fw, img) && SplitsAre(img, fw, raw, splits) && fw.parts != []
    ensures Accepted(ManifestOf(fw, splits)) && |ManifestOf(fw, splits).partitions| == |fw.parts|
  {
    CandidateIsPowerOfTwo(DerivedAlign(fw));
  }

  lemma UnpackedIds(img: seq<byte>, fw: FirmwareHeader, raw: bool, splits: seq<Split>)
    requires ReadsFrom(fw, img) && SplitsAre(img, fw, raw, splits)
    ensures forall i :: 0 <= i < |fw.parts| ==> ManifestOf(fw, splits).partitions[i].id == fw.parts[i].id
  {
  }

  /** What pack builds for partition i: the entry unpack made for it, over the file it now finds. */
  lemma RebuiltFrom(img: seq<byte>, fw: FirmwareHeader, raw: bool, out: Directory, splits: seq<Split>, i: nat)
      returns (file: seq<byte>)
    requires ReadsFrom(fw, img) && SplitsAre(img, fw, raw, splits) && i < |splits|
    requires Accepted(ManifestOf(fw, splits))
    ensures PayloadOf(BlobAt(img, fw, LastSharing(img, fw, raw, i)), raw) == Some(file)
    ensures BlobOf(ManifestOf(fw, splits), WriteAll(out, splits), i)
         == BuildBlob(EntryFor(fw.parts[i].id, BlobAt(img, fw, i), raw), file)
  {
    FileHolds(img, fw, raw, out, splits, i);
    file := WriteAll(out, splits)[splits[i].entry.file];
    assert ManifestOf(fw, splits).partitions[i] == splits[i].entry;
  }

  // ----- what packing makes of it

  /** What partition i builds to from the file it finds, once every partition has been written. */
  function Rebuilt(img: seq<byte>, fw: FirmwareHeader, raw: bool, i: nat): Result<seq<byte>, Error>
    requires ReadsFrom(fw, img) && i < |fw.parts|
  {
    var blob, file := BlobAt(img, fw, i), PayloadOf(BlobAt(img, fw, LastSharing(img, fw, raw, i)), raw);
    if PayloadOf(blob, raw).None? || file.None? then Err(PayloadPastPartition(i))
    else BuildBlob(EntryFor(fw.parts[i].id, blob, raw), file.value)
  }

  function RebuiltAll(img: seq<byte>, fw: FirmwareHeader, raw: bool): (outs: Outcomes)
    requires ReadsFrom(fw, img)
    ensures |outs| == |fw.parts| && forall i :: 0 <= i < |outs| ==> outs[i] == Rebuilt(img, fw, raw, i)
  {
    seq(|fw.parts|, i requires 0 <= i < |fw.parts| => Rebuilt(img, fw, raw, i))
  }

  function RebuiltEntry(fw: FirmwareHeader, blobs: seq<seq<byte>>, i: nat): PartitionEntry
    requires |blobs| == |fw.parts| && i < |blobs|
  {
    var offset := Start(Sizes(blobs), i, fw.FirstPartitionOffset(), DerivedAlign(fw));
    PartitionEntry(fw.parts[i].id, AsU32(offset), AsU32(|blobs[i]|))
  }

  function RebuiltTable(fw: FirmwareHeader, blobs: seq<seq<byte>>): (es: seq<PartitionEntry>)
    requires |blobs| == |fw.parts|
    ensures |es| == |blobs| && forall i :: 0 <= i < |es| ==> es[i] == RebuiltEntry(fw, blobs, i)
  {
    seq(|blobs|, i requires 0 <= i < |blobs| => RebuiltEntry(fw, blobs, i))
  }

  function RebuiltLayout(fw: FirmwareHeader, blobs: seq<seq<byte>>): (lay: seq<byte>)
    ensures |lay| == End(Sizes(blobs), |blobs|, fw.FirstPartitionOffset(), DerivedAlign(fw))
  {
    Laid(blobs, fw.FirstPartitionOffset(), DerivedAlign(fw))
  }

  lemma EntriesAgree(m: Manifest, fw: FirmwareHeader, blobs: seq<seq<byte>>)
    requires |m.partitions| == |blobs| == |fw.parts| && FirstOffset(m) == fw.FirstPartitionOffset()
    requires m.firmware.align == DerivedAlign(fw)
    requires forall i :: 0 <= i < |blobs| ==> m.partitions[i].id == fw.parts[i].id
    ensures Entries(m, blobs) == RebuiltTable(fw, blobs)
  {
    forall i | 0 <= i < |blobs|
      ensures EntryOf(m, blobs, i) == RebuiltEntry(fw, blobs, i)
    {
      assert Offset(m, blobs, i) == Start(Sizes(blobs), i, fw.FirstPartitionOffset(), DerivedAlign(fw));
    }
  }

  lemma UnpackedOutcome(img: seq<byte>, fw: FirmwareHeader, raw: bool, out: Directory, splits: seq<Split>, i: nat)
    requires ReadsFrom(fw, img) && SplitsAre(img, fw, raw, splits) && i < |splits|
    requires Accepted(ManifestOf(fw, splits))
    ensures BlobOf(ManifestOf(fw, splits), WriteAll(out, splits), i) == Rebuilt(img, fw, raw, i)
  {
    var file := RebuiltFrom(img, fw, raw, out, splits, i);
    assert PayloadOf(BlobAt(img, fw, i), raw) == Some(splits[i].payload);
  }

  lemma UnpackedOutcomes(img: seq<byte>, fw: FirmwareHeader, raw: bool, out: Directory, splits: seq<Split>)
    requires ReadsFrom(fw, img) && SplitsAre(img, fw, raw, splits) && Accepted(ManifestOf(fw, splits))
    ensures OutcomesOf(ManifestOf(fw, splits), WriteAll(out, splits)) == RebuiltAll(img, fw, raw)
  {
    forall i | 0 <= i < |splits|
      ensures BlobOf(ManifestOf(fw, splits), WriteAll(out, splits), i) == Rebuilt(img, fw, raw, i)
    {
      UnpackedOutcome(img, fw, raw, out, splits, i);
    }
  }

  lemma NotRebuilt(img: seq<byte>, fw: FirmwareHeader, raw: bool, i: nat)
    requires ReadsFrom(fw, img) && i < |fw.parts| && SplitsOf(img, fw, raw)[i].Err?
    ensures RebuiltAll(img, fw, raw)[i].Err?
  {
    assert PayloadOf(BlobAt(img, fw, i), raw).None?;
  }

  lemma SomePayloadPast(img: seq<byte>, fw: FirmwareHeader, raw: bool)
    requires ReadsFrom(fw, img) && Collect(SplitsOf(img, fw, raw), |fw.parts|).Err?
    ensures !AllBuild(RebuiltAll(img, fw, raw))
  {
    var outs := SplitsOf(img, fw, raw);
    var i :| 0 <= i < |outs| && outs[i].Err?;
    NotRebuilt(img, fw, raw, i);
  }
}
