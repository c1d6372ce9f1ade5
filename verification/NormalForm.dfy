/** Consequences of the round-trip theorem: distinct ids, shared files, and packed images as normal forms. */
module NormalForm {
  import opened Bytes
  import opened Checksum
  import opened Header
  import opened Layout
  import opened ManifestModel
  import opened Packer
  import opened PackedImage
  import opened Unpacker
  import opened Rebuilding
  import opened RoundTrip
  import BuildTag
  import CksmContainer
  import UImageContainer
  import Utf8

  // ----- a partition and its own payload

  /** The shape each container promises, for a partition whose file is its own. */
  ghost predicate PartCanonical(blob: seq<byte>, raw: bool) {
    match KindOf(blob, raw)
    case Whole => BuildTag.FindTag(blob).None? || IsValid(blob)
    case InCksm(c) => HasCksmShape(blob, c)
    case InUimage(_) => UImageContainer.WellShaped(blob)
  }

  /** The payload ends with the partition, what no field names is zero, and the whole sums to zero. */
  ghost predicate HasCksmShape(blob: seq<byte>, c: CksmContainer.CksmHeader) {
    && c.dataOffset as nat + c.dataLength as nat == |blob|
    && CksmContainer.SpareZero(blob, c.dataOffset) && IsValid(blob)
  }

  lemma OwnPayloadFits(blob: seq<byte>, raw: bool)
    requires |blob| <= U32_MAX as nat && PayloadOf(blob, raw).Some?
    ensures PartFits(blob, PayloadOf(blob, raw).value, raw) <==> PartCanonical(blob, raw)
  {
    match KindOf(blob, raw) {
      case InCksm(c) => OwnCksmFits(blob, raw, c);
      case InUimage(u) => OwnUImageFits(blob, raw, u);
      case Whole => WholeFits(blob, raw);
    }
  }

  lemma OwnCksmFits(blob: seq<byte>, raw: bool, c: CksmContainer.CksmHeader)
    requires KindOf(blob, raw) == InCksm(c) && PayloadOf(blob, raw).Some?
    ensures PartFits(blob, PayloadOf(blob, raw).value, raw) <==> PartCanonical(blob, raw)
  {
    OwnCksmPayload(blob, raw, c);
    CksmShape(blob, PayloadOf(blob, raw).value, c);
    CksmPart(blob, PayloadOf(blob, raw).value, raw, c);
  }

  lemma OwnCksmPayload(blob: seq<byte>, raw: bool, c: CksmContainer.CksmHeader)
    requires KindOf(blob, raw) == InCksm(c) && PayloadOf(blob, raw).Some?
    ensures var s, e := c.dataOffset as nat, c.dataOffset as nat + c.dataLength as nat;
            CksmContainer.Parse(blob) == Some(c) && e <= |blob| && PayloadOf(blob, raw) == Some(blob[s..e])
  {
  }

  lemma CksmShape(blob: seq<byte>, file: seq<byte>, c: CksmContainer.CksmHeader)
    requires CksmContainer.Parse(blob) == Some(c) && c.dataOffset as nat + c.dataLength as nat <= |blob|
    requires file == blob[c.dataOffset..c.dataOffset as nat + c.dataLength as nat]
    ensures CksmContainer.Fits(blob, file) <==> HasCksmShape(blob, c)
  {
    CksmContainer.FitsOwnPayload(blob);
  }

  lemma CksmPart(blob: seq<byte>, file: seq<byte>, raw: bool, c: CksmContainer.CksmHeader)
    requires KindOf(blob, raw) == InCksm(c)
    ensures CksmContainer.Parse(blob).Some?
    ensures PartFits(blob, file, raw) <==> CksmContainer.Fits(blob, file)
    ensures PartCanonical(blob, raw) <==> HasCksmShape(blob, c)
  {
  }

  lemma OwnUImageFits(blob: seq<byte>, raw: bool, u: UImageContainer.UImageHeader)
    requires KindOf(blob, raw) == InUimage(u) && PayloadOf(blob, raw).Some? && |blob| <= U32_MAX as nat
    ensures PartFits(blob, PayloadOf(blob, raw).value, raw) <==> PartCanonical(blob, raw)
  {
    UImageContainer.FitsOwnPayload(blob);
  }

  lemma WholeFits(blob: seq<byte>, raw: bool)
    requires KindOf(blob, raw).Whole?
    ensures PartFits(blob, blob, raw) <==> PartCanonical(blob, raw)
  {
  }

  ghost predicate DistinctIds(fw: FirmwareHeader) {
    forall i, j :: 0 <= i < j < |fw.parts| ==> fw.parts[i].id != fw.parts[j].id
  }

  lemma OwnFile(img: seq<byte>, fw: FirmwareHeader, raw: bool, i: nat)
    requires ReadsFrom(fw, img) && DistinctIds(fw) && i < |fw.parts|
    ensures LastSharing(img, fw, raw, i) == i
  {
    var j := LastSharing(img, fw, raw, i);
    FileNameInjective(fw.parts[i].id, PayloadExt(BlobAt(img, fw, i), raw),
                      fw.parts[j].id, PayloadExt(BlobAt(img, fw, j), raw));
  }

  /** The payload lies in the partition, which has its container's shape. */
  ghost predicate OwnPart(img: seq<byte>, fw: FirmwareHeader, raw: bool, i: nat)
    requires ReadsFrom(fw, img) && i < |fw.parts|
  {
    PayloadOf(BlobAt(img, fw, i), raw).Some? && PartCanonical(BlobAt(img, fw, i), raw)
  }

  ghost predicate DistinctCanonical(img: seq<byte>, fw: FirmwareHeader, raw: bool)
    requires ReadsFrom(fw, img)
  {
    CanonicalHeader(img, fw) && CanonicalLayout(img, fw) && forall i :: 0 <= i < |fw.parts| ==> OwnPart(img, fw, raw, i)
  }

  lemma OwnPartIff(img: seq<byte>, fw: FirmwareHeader, raw: bool, i: nat)
    requires Parse(img) == Ok(fw) && ReadsFrom(fw, img) && DistinctIds(fw) && i < |fw.parts|
    requires fw.totalSize == |img|
    ensures CanonicalPart(img, fw, raw, i) <==> OwnPart(img, fw, raw, i)
  {
    OwnFile(img, fw, raw, i);
    if PayloadOf(BlobAt(img, fw, i), raw).Some? {
      OwnPayloadFits(BlobAt(img, fw, i), raw);
    }
  }

  lemma DistinctCanonicalIff(img: seq<byte>, fw: FirmwareHeader, raw: bool)
    requires Parse(img) == Ok(fw) && ReadsFrom(fw, img) && DistinctIds(fw)
    ensures Canonical(img, raw) <==> DistinctCanonical(img, fw, raw)
  {
    if CanonicalHeader(img, fw) {
      forall i | 0 <= i < |fw.parts|
        ensures CanonicalPart(img, fw, raw, i) <==> OwnPart(img, fw, raw, i)
      {
        OwnPartIff(img, fw, raw, i);
      }
    }
  }

  /** With distinct ids the round trip holds exactly when every partition has its container's shape. */
  lemma DistinctRoundTripIff(img: seq<byte>, fw: FirmwareHeader, raw: bool, force: bool, out: Directory)
    requires Parse(img) == Ok(fw) && ReadsFrom(fw, img) && DistinctIds(fw) && (force || out == map[])
    ensures DistinctCanonical(img, fw, raw) ==> RoundTrips(img, raw, force, out)
    ensures TablePastSlot(img) ==> (RoundTrips(img, raw, force, out) <==> DistinctCanonical(img, fw, raw))
  {
    RoundTripIff(img, raw, force, out);
    DistinctCanonicalIff(img, fw, raw);
  }

  lemma SharedIsNotCanonical(img: seq<byte>, fw: FirmwareHeader, i: nat, j: nat)
    requires Parse(img) == Ok(fw) && ReadsFrom(fw, img)
    requires i < j < |fw.parts| && fw.parts[i].id == fw.parts[j].id && fw.parts[i].size != fw.parts[j].size
    ensures !Canonical(img, true)
  {
    if Canonical(img, true) {
      assert CanonicalPart(img, fw, true, i) && CanonicalPart(img, fw, true, j);
      SameLast(NamesOf(img, fw, true), i, j, |fw.parts|);
      WholeSize(img, fw, i);
      WholeSize(img, fw, j);
    }
  }

  /** Two whole partitions of different sizes under one id: the second file replaces the first, and the trip fails. */
  lemma SharedFileLost(img: seq<byte>, fw: FirmwareHeader, i: nat, j: nat, force: bool, out: Directory)
    requires Parse(img) == Ok(fw) && FW_CHKSUM_OFF + 2 <= fw.headerSize && ReadsFrom(fw, img)
    requires i < j < |fw.parts| && fw.parts[i].id == fw.parts[j].id && fw.parts[i].size != fw.parts[j].size
    requires force || out == map[]
    ensures !RoundTrips(img, true, force, out)
  {
    SharedIsNotCanonical(img, fw, i, j);
    RoundTripIff(img, true, force, out);
  }

  lemma SameLast(names: seq<string>, i: nat, j: nat, n: nat)
    requires i < n <= |names| && j < n && names[i] == names[j]
    ensures LastSame(names, i, n) == LastSame(names, j, n)
  {
  }

  /** A whole partition can only be rebuilt from a file of its own size. */
  lemma WholeSize(img: seq<byte>, fw: FirmwareHeader, i: nat)
    requires ReadsFrom(fw, img) && i < |fw.parts| && CanonicalPart(img, fw, true, i)
    ensures fw.parts[LastSharing(img, fw, true, i)].size == fw.parts[i].size
  {
  }

  /** Two whole partitions of id 1, of lengths 0 and 1. */
  function ExampleManifest(): Manifest {
    Manifest(Firmware(0, 0x80, 0, 1), [
      Partition(1, "fdt", "a", Container.Raw, None, None, None),
      Partition(1, "fdt", "b", Container.Raw, None, None, None)])
  }

  function ExampleFiles(): Directory {
    map["a" := [], "b" := [7]]
  }

  /** Such an image exists, and the program itself packs it. */
  lemma SharedFileExample(force: bool, out: Directory) returns (img: seq<byte>, fw: FirmwareHeader)
    requires force || out == map[]
    ensures Pack(ExampleManifest(), ExampleFiles()) == Ok(img) && Parse(img) == Ok(fw) && CanonicalHeader(img, fw)
    ensures !RoundTrips(img, true, force, out)
  {
    var blobs;
    img, blobs := ExamplePacks();
    ExampleParses(ExampleManifest(), OutcomesOf(ExampleManifest(), ExampleFiles()), img, blobs);
    fw := Parse(img).value;
    SharedFileLost(img, fw, 0, 1, force, out);
  }

  lemma ExampleAccepted()
    ensures Accepted(ExampleManifest())
  {
    assert IsPowerOfTwo(1);
  }

  lemma ExampleBuilds() returns (outs: Outcomes, empty: seq<byte>, one: seq<byte>)
    ensures Accepted(ExampleManifest()) && outs == OutcomesOf(ExampleManifest(), ExampleFiles())
    ensures outs == [Ok(empty), Ok(one)] && |empty| == 0 && |one| == 1
  {
    ExampleAccepted();
    empty, one := [], [7];
    outs := OutcomesOf(ExampleManifest(), ExampleFiles());
    assert BlobOf(ExampleManifest(), ExampleFiles(), 0) == Ok(empty);
    assert BlobOf(ExampleManifest(), ExampleFiles(), 1) == Ok(one);
  }

  lemma TwoBlobsPack(m: Manifest, outs: Outcomes, a: seq<byte>, b: seq<byte>) returns (img: seq<byte>)
    requires Covers(m, outs) && outs == [Ok(a), Ok(b)] && |a| == 0 && |b| == 1
    requires m.firmware.headerSize == 0x80 && m.firmware.align == 1
    ensures Assemble(m, outs) == Ok(img) && Packs(m, outs, img, [a, b]) && |img| == 0x99
  {
    TwoBlobs(outs, a, b, FirstOffset(m));
    img := Assemble(m, outs).value;
  }

  lemma ExamplePacks() returns (img: seq<byte>, blobs: seq<seq<byte>>)
    ensures var m := ExampleManifest();
            Accepted(m) && Pack(m, ExampleFiles()) == Ok(img) && Packs(m, OutcomesOf(m, ExampleFiles()), img, blobs)
    ensures |blobs| == 2 && |blobs[0]| == 0 && |blobs[1]| == 1 && |img| == 0x99
  {
    var outs, empty, one := ExampleBuilds();
    blobs := [empty, one];
    img := TwoBlobsPack(ExampleManifest(), outs, empty, one);
  }

  lemma TwoBlobs(outs: Outcomes, a: seq<byte>, b: seq<byte>, first: nat)
    requires outs == [Ok(a), Ok(b)] && |a| == 0 && |b| == 1 && first < U32_MAX as nat
    ensures Blobs(outs, |outs|, first, 1) == Ok([a, b]) && End(Sizes([a, b]), 2, first, 1) == first + 1
  {
    var blobs := [a, b];
    var s := Sizes(blobs);
    assert s[0] == 0 && s[1] == 1;
    assert Start(s, 0, first, 1) == first;
    assert End(s, 1, first, 1) == first;
    assert CollectsAt(outs, blobs, 0, first, 1) && CollectsAt(outs, blobs, 1, first, 1);
    BlobsCollect(outs, blobs, 2, first, 1);
    assert blobs[..2] == blobs;
  }

  lemma ExampleParses(m: Manifest, outs: Outcomes, img: seq<byte>, blobs: seq<seq<byte>>)
    requires Packs(m, outs, img, blobs) && m.firmware.headerSize == 0x80 && m.firmware.align == 1 && |img| == 0x99
    requires |m.partitions| == 2 && m.partitions[0].id == m.partitions[1].id
    requires |blobs| == 2 && |blobs[0]| == 0 && |blobs[1]| == 1
    ensures Parse(img).Ok? && ReadsFrom(Parse(img).value, img)
    ensures var fw := Parse(img).value;
            && fw.headerSize == 0x80 && |fw.parts| == 2 && fw.parts[0].id == fw.parts[1].id
            && fw.parts[0].size == 0 && fw.parts[1].size == 1 && CanonicalHeader(img, fw)
  {
    PackedParses(m, outs, img, blobs);
    var fw := Parse(img).value;
    ParsedReads(img, fw);
    PackedIsCanonical(m, outs, img, blobs, fw);
    assert fw.parts[0] == EntryOf(m, blobs, 0) && fw.parts[1] == EntryOf(m, blobs, 1);
  }

  // ----- packed images

  /** What an entry and its payload need so that the built partition is recognised as what it is. */
  ghost predicate Recoverable(p: Partition, payload: seq<byte>, blob: seq<byte>, raw: bool)
    requires HasTable(p)
  {
    match p.container
    case Cksm =>
      raw || CksmContainer.ReadsBack(CksmHeaderOf(p.cksm.value, |payload|), payload)
    case Uimage =>
      var n := UImageContainer.CutName(p.uimage.value.name);
      if raw then BuildTag.FindTag(blob).None? || IsValid(blob) else 0 !in n && Utf8.Valid(n)
    case Raw =>
      && (!raw ==> CksmContainer.Parse(blob).None? && UImageContainer.Parse(blob).None?)
      && match p.nvtTagOffset
         case Some(t) => t % 2 == 0 || IsValid(blob)
         case None => BuildTag.FindTag(blob).None? || IsValid(blob)
  }

  /** The entry unpack makes for a built partition, and the payload it writes out. */
  ghost predicate Recovers(p: Partition, payload: seq<byte>, blob: seq<byte>, raw: bool)
    requires HasTable(p)
  {
    var q := EntryFor(p.id, blob, raw);
    && q.id == p.id
    && if raw || p.container.Raw? then
         q.container.Raw? && PayloadOf(blob, raw) == Some(blob) && q.nvtTagOffset == TagOffset(blob)
       else if p.container.Cksm? then
         q.container.Cksm? && q.cksm == p.cksm && PayloadOf(blob, raw) == Some(payload)
       else
         && q.container.Uimage? && PayloadOf(blob, raw) == Some(payload)
         && q.uimage == Some(p.uimage.value.(name := UImageContainer.CutName(p.uimage.value.name)))
  }

  lemma CksmRecovers(p: Partition, payload: seq<byte>, blob: seq<byte>)
    requires HasTable(p) && p.container.Cksm? && BuildBlob(p, payload) == Ok(blob)
    requires |blob| <= U32_MAX as nat && Recoverable(p, payload, blob, false)
    ensures Recovers(p, payload, blob, false) && PartCanonical(blob, false)
  {
    var h := CksmHeaderOf(p.cksm.value, |payload|);
    CksmContainer.BuiltIsCanonical(h, payload);
    CksmPayload(blob, h, payload);
    CksmEntry(p, blob, h, payload);
  }

  lemma CksmPayload(blob: seq<byte>, h: CksmContainer.CksmHeader, payload: seq<byte>)
    requires CksmContainer.Parse(blob) == Some(h) && h.dataLength == |payload|
    requires h.dataOffset as nat + |payload| == |blob| && blob[h.dataOffset..] == payload
    ensures PayloadOf(blob, false) == Some(payload)
  {
    assert blob[h.dataOffset..h.dataOffset as nat + |payload|] == blob[h.dataOffset..];
  }

  lemma CksmEntry(p: Partition, blob: seq<byte>, h: CksmContainer.CksmHeader, payload: seq<byte>)
    requires HasTable(p) && p.container.Cksm? && CksmContainer.Parse(blob) == Some(h)
    requires CksmTableOf(h) == p.cksm.value && PayloadOf(blob, false) == Some(payload)
    ensures Recovers(p, payload, blob, false)
  {
  }

  lemma UImageIsNotCksm(blob: seq<byte>)
    requires UImageContainer.Parse(blob).Some?
    ensures CksmContainer.Parse(blob).None?
  {
  }

  lemma UImageRecovers(p: Partition, payload: seq<byte>, blob: seq<byte>)
    requires HasTable(p) && p.container.Uimage? && BuildBlob(p, payload) == Ok(blob)
    requires |blob| <= U32_MAX as nat && Recoverable(p, payload, blob, false)
    ensures Recovers(p, payload, blob, false) && PartCanonical(blob, false)
  {
    var u := UImageHeaderOf(p.uimage.value);
    UImageContainer.ParseBuilt(u, payload);
    UImageIsNotCksm(blob);
    UImageContainer.BuiltIsCanonical(u, payload);
    UImagePayload(blob, payload);
    UImageEntry(p, blob, u.(name := UImageContainer.CutName(u.name)), payload);
  }

  lemma UImagePayload(blob: seq<byte>, payload: seq<byte>)
    requires CksmContainer.Parse(blob).None? && UImageContainer.Parse(blob).Some?
    requires |payload| <= U32_MAX as nat && UImageContainer.Fits(blob, payload)
    ensures PayloadOf(blob, false) == Some(payload) && PartCanonical(blob, false)
  {
    UImageContainer.FitsPayload(blob, payload);
  }

  lemma UImageEntry(p: Partition, blob: seq<byte>, u: UImageContainer.UImageHeader, payload: seq<byte>)
    requires HasTable(p) && p.container.Uimage? && CksmContainer.Parse(blob).None?
    requires UImageContainer.Parse(blob) == Some(u) && PayloadOf(blob, false) == Some(payload)
    requires UImageTableOf(u) == p.uimage.value.(name := UImageContainer.CutName(p.uimage.value.name))
    ensures Recovers(p, payload, blob, false)
  {
  }

  /** Every recoverable partition is recovered, and its bytes are canonical for either mode. */
  lemma PartRecovers(p: Partition, payload: seq<byte>, blob: seq<byte>, raw: bool)
    requires HasTable(p) && BuildBlob(p, payload) == Ok(blob) && |blob| <= U32_MAX as nat
    requires Recoverable(p, payload, blob, raw)
    ensures Recovers(p, payload, blob, raw) && PartCanonical(blob, raw) && PayloadOf(blob, raw).Some?
  {
    if !raw && p.container.Cksm? {
      CksmRecovers(p, payload, blob);
    } else if !raw && p.container.Uimage? {
      UImageRecovers(p, payload, blob);
    } else {
      BlobIsValid(p, payload, blob);
    }
  }

  ghost predicate DistinctPartitions(m: Manifest) {
    forall i, j :: 0 <= i < j < |m.partitions| ==> m.partitions[i].id != m.partitions[j].id
  }

  lemma PackedIdsDistinct(m: Manifest, blobs: seq<seq<byte>>, fw: FirmwareHeader)
    requires DistinctPartitions(m) && m.firmware.align > 0 && |blobs| == |m.partitions| && fw.parts == Entries(m, blobs)
    ensures DistinctIds(fw)
  {
  }

  ghost predicate RecoverableAt(m: Manifest, dir: Directory, blobs: seq<seq<byte>>, raw: bool, i: nat)
    requires i < |m.partitions| && i < |blobs|
  {
    var p := m.partitions[i];
    HasTable(p) && p.file in dir && Recoverable(p, dir[p.file], blobs[i], raw)
  }

  /** Partition i of the image is blob i, and unpacking it gives back the manifest's entry and payload. */
  ghost predicate RecoversAt(m: Manifest, dir: Directory, img: seq<byte>, fw: FirmwareHeader, blob: seq<byte>,
                             raw: bool, i: nat)
    requires i < |m.partitions|
  {
    var p := m.partitions[i];
    && HasTable(p) && p.file in dir && i < |fw.parts| && Fits(img, fw.parts[i]) && BlobIn(img, fw.parts[i]) == blob
    && Recovers(p, dir[p.file], blob, raw)
  }

  lemma PackedRecovers(m: Manifest, dir: Directory, img: seq<byte>, blobs: seq<seq<byte>>, fw: FirmwareHeader,
                       raw: bool, i: nat)
    requires Accepted(m) && Packs(m, OutcomesOf(m, dir), img, blobs) && i < |blobs|
    requires FW_CHKSUM_OFF + 2 <= FirstOffset(m) && fw.parts == Entries(m, blobs)
    requires FirstOffset(m) == fw.FirstPartitionOffset() && RecoverableAt(m, dir, blobs, raw, i)
    ensures RecoversAt(m, dir, img, fw, blobs[i], raw, i)
    ensures PayloadOf(blobs[i], raw).Some? && PartCanonical(blobs[i], raw)
  {
    var outs, p := OutcomesOf(m, dir), m.partitions[i];
    PackedBlobs(m, outs, img, blobs, i);
    PackedTable(m, outs, img, blobs, fw, i);
    assert BlobOf(m, dir, i) == Ok(blobs[i]);
    PartRecovers(p, dir[p.file], blobs[i], raw);
  }

  /**
   * A packed image is a normal form: unpacking it recovers every partition, and packing that again
   * gives the same bytes, whatever tag offset the scan finds.
   */
  lemma PackedIsNormalForm(m: Manifest, dir: Directory, img: seq<byte>, blobs: seq<seq<byte>>, fw: FirmwareHeader,
                           raw: bool, force: bool, out: Directory)
    requires Accepted(m) && Packs(m, OutcomesOf(m, dir), img, blobs) && Parse(img) == Ok(fw)
    requires FW_CHKSUM_OFF + 2 <= m.firmware.headerSize && MIN_IMAGE_LEN <= |img|
    requires IsCandidate(m.firmware.align) && DistinctPartitions(m) && (force || out == map[])
    requires forall i :: 0 <= i < |blobs| ==> RecoverableAt(m, dir, blobs, raw, i)
    ensures RoundTrips(img, raw, force, out)
    ensures forall i :: 0 <= i < |blobs| ==> RecoversAt(m, dir, img, fw, blobs[i], raw, i)
  {
    var outs := OutcomesOf(m, dir);
    PackedIsCanonical(m, outs, img, blobs, fw);
    PackedParses(m, outs, img, blobs);
    ParsedReads(img, fw);
    PackedIdsDistinct(m, blobs, fw);
    forall i | 0 <= i < |blobs|
      ensures RecoversAt(m, dir, img, fw, blobs[i], raw, i)
      ensures PayloadOf(blobs[i], raw).Some? && PartCanonical(blobs[i], raw)
    {
      PackedRecovers(m, dir, img, blobs, fw, raw, i);
    }
    RecoveredRoundTrips(m, dir, img, blobs, fw, raw, force, out);
  }

  lemma RecoveredRoundTrips(m: Manifest, dir: Directory, img: seq<byte>, blobs: seq<seq<byte>>, fw: FirmwareHeader,
                            raw: bool, force: bool, out: Directory)
    requires Parse(img) == Ok(fw) && ReadsFrom(fw, img) && DistinctIds(fw)
    requires CanonicalHeader(img, fw) && CanonicalLayout(img, fw) && (force || out == map[])
    requires |fw.parts| == |blobs| == |m.partitions|
    requires forall i :: 0 <= i < |blobs| ==> RecoversAt(m, dir, img, fw, blobs[i], raw, i)
    requires forall i :: 0 <= i < |blobs| ==> PayloadOf(blobs[i], raw).Some? && PartCanonical(blobs[i], raw)
    ensures RoundTrips(img, raw, force, out)
  {
    forall i | 0 <= i < |fw.parts|
      ensures OwnPart(img, fw, raw, i)
    {
      assert RecoversAt(m, dir, img, fw, blobs[i], raw, i);
    }
    DistinctRoundTripIff(img, fw, raw, force, out);
  }
}
