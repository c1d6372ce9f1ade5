/** The `verify` command: which checks it counts as failures, and what they are good for. */
module Verifier {
  import opened Bytes
  import opened Errors
  import opened Checksum
  import opened Header
  import opened ManifestModel
  import opened Packer
  import opened PackedImage
  import opened Unpacker
  import opened Rebuilding
  import opened RoundTrip
  import opened NormalForm
  import opened UnpackedFiles
  import BuildTag
  import CksmContainer
  import Crc32
  import UImageContainer

  /** A partition with a place for a corrective word. */
  predicate HasSlot(blob: seq<byte>) {
    CksmContainer.Parse(blob).Some? || BuildTag.FindTag(blob).Some?
  }

  function SlotFailures(blob: seq<byte>): nat {
    if Chk(blob) != 0 && HasSlot(blob) then 1 else 0
  }

  function CrcFailures(blob: seq<byte>): nat
    requires UImageContainer.UIMAGE_HDR_LEN <= |blob|
  {
    (if UImageContainer.DataCrcOk(blob) then 0 else 1) + (if UImageContainer.HeaderCrcOk(blob) then 0 else 1)
  }

  function PartFailures(blob: seq<byte>): nat {
    SlotFailures(blob) + if UImageContainer.Parse(blob).Some? then CrcFailures(blob) else 0
  }

  function PartCounts(img: seq<byte>, fw: FirmwareHeader): (counts: seq<nat>)
    requires ReadsFrom(fw, img)
    ensures |counts| == |fw.parts| && forall i :: 0 <= i < |counts| ==> counts[i] == PartFailures(BlobAt(img, fw, i))
  {
    seq(|fw.parts|, i requires 0 <= i < |fw.parts| => PartFailures(BlobAt(img, fw, i)))
  }

  function Total(counts: seq<nat>, n: nat): nat
    requires n <= |counts|
  {
    if n == 0 then 0 else Total(counts, n - 1) + counts[n - 1]
  }

  function Failures(img: seq<byte>, fw: FirmwareHeader): nat
    requires ReadsFrom(fw, img)
  {
    (if fw.totalSize != |img| then 1 else 0) + (if Chk(img) != 0 then 1 else 0) + Total(PartCounts(img, fw), |fw.parts|)
  }

  function Verify(img: seq<byte>): Result<(), Error> {
    match Parse(img)
    case Err(e) => Err(e)
    case Ok(fw) =>
      var bad := Failures(img, fw);
      if bad > 0 then Err(ChecksFailed(bad)) else Ok(())
  }

  method CmdVerify(img: seq<byte>) returns (r: Result<(), Error>)
    ensures r == Verify(img)
  {
    var parsed := ParseHeader(img);
    if parsed.Err? {
      return Err(parsed.error);
    }
    var fw := parsed.value;
    var bad: nat := 0;
    if fw.totalSize != |img| {
      bad := bad + 1;
    }
    var fileCk := NvtChksum(img);
    if fileCk != 0 {
      bad := bad + 1;
    }
    bad := VerifyParts(img, fw, bad, PartCounts(img, fw));
    assert bad == Failures(img, fw);
    if bad > 0 {
      return Err(ChecksFailed(bad));
    }
    return Ok(());
  }

  method VerifyParts(img: seq<byte>, fw: FirmwareHeader, before: nat, ghost counts: seq<nat>) returns (bad: nat)
    requires ReadsFrom(fw, img) && |counts| == |fw.parts|
    requires forall i :: 0 <= i < |counts| ==> CountsAt(img, fw, counts, i)
    ensures bad == before + Total(counts, |fw.parts|)
  {
    bad := before;
    for i := 0 to |fw.parts|
      invariant bad == before + Total(counts, i)
    {
      assert CountsAt(img, fw, counts, i);
      var failed := VerifyAt(img, fw, i, counts);
      bad := bad + failed;
    }
  }

  ghost predicate CountsAt(img: seq<byte>, fw: FirmwareHeader, counts: seq<nat>, i: nat)
    requires ReadsFrom(fw, img) && i < |fw.parts| && i < |counts|
  {
    counts[i] == PartFailures(BlobAt(img, fw, i))
  }

  method VerifyAt(img: seq<byte>, fw: FirmwareHeader, i: nat, ghost counts: seq<nat>) returns (bad: nat)
    requires ReadsFrom(fw, img) && i < |fw.parts| && i < |counts| && CountsAt(img, fw, counts, i)
    ensures bad == counts[i]
  {
    bad := VerifyPartition(BlobIn(img, fw.parts[i]));
  }

  method VerifyPartition(blob: seq<byte>) returns (bad: nat)
    ensures bad == PartFailures(blob)
  {
    bad := VerifySlot(blob);
    var u := UImageContainer.Parse(blob);
    if u.Some? {
      var failed := VerifyCrcs(blob);
      bad := bad + failed;
    }
  }

  method VerifySlot(blob: seq<byte>) returns (bad: nat)
    ensures bad == SlotFailures(blob)
    ensures bad == if SlotSound(blob) then 0 else 1
  {
    HasSlotIff(blob);
    var ck := NvtChksum(blob);
    var tag := BuildTag.FindNvtTag(blob);
    var cksm := CksmContainer.Parse(blob);
    bad := if ck != 0 && (cksm.Some? || tag.Some?) then 1 else 0;
  }

  method VerifyCrcs(blob: seq<byte>) returns (bad: nat)
    requires UImageContainer.UIMAGE_HDR_LEN <= |blob|
    ensures bad == CrcFailures(blob)
  {
    bad := 0;
    var dcrc := RdBe32(blob, 0x18);
    if dcrc != Crc32.Crc32(blob[UImageContainer.UIMAGE_HDR_LEN..]) {
      bad := bad + 1;
    }
    var hcrc := RdBe32(blob, 0x04);
    var h := UImageContainer.Blanked(blob);
    if hcrc != Crc32.Crc32(h) {
      bad := bad + 1;
    }
  }

  // ----- what a clean report means

  /** A CKSM header, or a build tag at any multiple of four. */
  ghost predicate CarriesSlot(b: seq<byte>) {
    LooksCksm(b) || exists t: nat :: t % 4 == 0 && t + 0x20 <= |b| && BuildTag.TagAt(b, t)
  }

  lemma HasSlotIff(b: seq<byte>)
    ensures HasSlot(b) <==> CarriesSlot(b)
  {
    CksmContainer.ParsesIff(b);
  }

  ghost predicate DataSound(b: seq<byte>) {
    LooksUimage(b) ==> RdBe32(b, 0x18) == Crc32.Crc32(b[0x40..])
  }

  /** The header's own CRC field counts as zero. */
  ghost predicate HeaderSound(b: seq<byte>) {
    LooksUimage(b) ==> RdBe32(b, 0x04) == Crc32.Crc32(b[..4] + [0, 0, 0, 0] + b[8..0x40])
  }

  ghost predicate SlotSound(b: seq<byte>) {
    CarriesSlot(b) ==> IsValid(b)
  }

  ghost predicate PartSound(blob: seq<byte>) {
    SlotSound(blob) && DataSound(blob) && HeaderSound(blob)
  }

  ghost predicate AllSound(img: seq<byte>, fw: FirmwareHeader)
    requires ReadsFrom(fw, img)
  {
    forall i :: 0 <= i < |fw.parts| ==> SoundAt(img, fw, i)
  }

  ghost predicate SoundAt(img: seq<byte>, fw: FirmwareHeader, i: nat)
    requires ReadsFrom(fw, img) && i < |fw.parts|
  {
    PartSound(BlobAt(img, fw, i))
  }

  lemma CrcsSoundIff(b: seq<byte>)
    requires 0x40 <= |b|
    ensures UImageContainer.Parse(b).Some? <==> LooksUimage(b)
    ensures LooksUimage(b) ==> (UImageContainer.DataCrcOk(b) <==> DataSound(b))
    ensures LooksUimage(b) ==> (UImageContainer.HeaderCrcOk(b) <==> HeaderSound(b))
  {
    UImageContainer.ParsesIff(b);
    assert UImageContainer.Blanked(b) == b[..4] + [0, 0, 0, 0] + b[8..0x40];
  }

  lemma PartFailuresAre(b: seq<byte>)
    ensures PartFailures(b) == (if SlotSound(b) then 0 else 1) + (if DataSound(b) then 0 else 1)
                               + (if HeaderSound(b) then 0 else 1)
  {
    HasSlotIff(b);
    if 0x40 <= |b| {
      CrcsSoundIff(b);
    }
  }

  lemma PartFailsIff(blob: seq<byte>)
    ensures PartFailures(blob) == 0 <==> PartSound(blob)
  {
    PartFailuresAre(blob);
  }

  lemma SoundAtIff(img: seq<byte>, fw: FirmwareHeader, i: nat)
    requires ReadsFrom(fw, img) && i < |fw.parts|
    ensures PartFailures(BlobAt(img, fw, i)) == 0 <==> SoundAt(img, fw, i)
  {
    PartFailsIff(BlobAt(img, fw, i));
  }

  lemma {:induction false} TotalZeroIff(counts: seq<nat>, n: nat)
    requires n <= |counts|
    ensures Total(counts, n) == 0 <==> forall i :: 0 <= i < n ==> counts[i] == 0
  {
    if n == 0 {
    } else {
      TotalZeroIff(counts, n - 1);
    }
  }

  lemma NoPartFails(img: seq<byte>, fw: FirmwareHeader)
    requires ReadsFrom(fw, img)
    ensures Total(PartCounts(img, fw), |fw.parts|) == 0 <==> AllSound(img, fw)
  {
    var counts := PartCounts(img, fw);
    TotalZeroIff(counts, |fw.parts|);
    forall i | 0 <= i < |fw.parts|
      ensures counts[i] == 0 <==> SoundAt(img, fw, i)
    {
      SoundAtIff(img, fw, i);
    }
  }

  lemma VerifyOkIff(img: seq<byte>)
    ensures Verify(img).Ok? <==>
            && Parse(img).Ok? && IsValid(img) && Parse(img).value.totalSize == |img|
            && ReadsFrom(Parse(img).value, img)
            && AllSound(img, Parse(img).value)
    ensures Parse(img).Err? ==> Verify(img) == Err(Parse(img).error)
  {
    if Parse(img).Ok? {
      NoPartFails(img, Parse(img).value);
    }
  }

  // ----- what the reported number counts

  datatype Check = TotalSize | WholeSum | SlotSum(part: nat) | DataCrc(part: nat) | HeaderCrc(part: nat)

  ghost predicate Fails(img: seq<byte>, fw: FirmwareHeader, c: Check)
    requires ReadsFrom(fw, img)
  {
    match c
    case TotalSize => fw.totalSize != |img|
    case WholeSum => !IsValid(img)
    case SlotSum(i) => i < |fw.parts| && !SlotSound(BlobAt(img, fw, i))
    case DataCrc(i) => i < |fw.parts| && !DataSound(BlobAt(img, fw, i))
    case HeaderCrc(i) => i < |fw.parts| && !HeaderSound(BlobAt(img, fw, i))
  }

  ghost function When(failed: bool, c: Check): set<Check> {
    if failed then {c} else {}
  }

  ghost predicate OfPart(s: set<Check>, i: nat) {
    forall c :: c in s ==> !c.TotalSize? && !c.WholeSum? && c.part == i
  }

  lemma Disjoint(a: set<Check>, b: set<Check>)
    requires forall c :: c in b ==> c !in a
    ensures |a + b| == |a| + |b|
  {
    assert a !! b;
  }

  ghost function Failed(i: nat, slot: bool, data: bool, header: bool): set<Check> {
    When(slot, SlotSum(i)) + (When(data, DataCrc(i)) + When(header, HeaderCrc(i)))
  }

  lemma FailedAre(i: nat, slot: bool, data: bool, header: bool)
    ensures var s := Failed(i, slot, data, header);
            && OfPart(s, i) && (SlotSum(i) in s <==> slot) && (DataCrc(i) in s <==> data)
            && (HeaderCrc(i) in s <==> header)
  {
  }

  lemma FailedCount(i: nat, slot: bool, data: bool, header: bool)
    ensures |Failed(i, slot, data, header)|
         == (if slot then 1 else 0) + (if data then 1 else 0) + (if header then 1 else 0)
  {
    var s, d, h := When(slot, SlotSum(i)), When(data, DataCrc(i)), When(header, HeaderCrc(i));
    Disjoint(d, h);
    Disjoint(s, d + h);
  }

  ghost function PartChecks(b: seq<byte>, i: nat): set<Check> {
    Failed(i, !SlotSound(b), !DataSound(b), !HeaderSound(b))
  }

  ghost function Union(sets: seq<set<Check>>, n: nat): set<Check>
    requires n <= |sets|
  {
    if n == 0 then {} else Union(sets, n - 1) + sets[n - 1]
  }

  lemma {:induction false} UnionMember(sets: seq<set<Check>>, n: nat, c: Check)
    requires n <= |sets| && forall i :: 0 <= i < n ==> OfPart(sets[i], i)
    ensures c in Union(sets, n) <==> !c.TotalSize? && !c.WholeSum? && c.part < n && c in sets[c.part]
  {
    if n == 0 {
    } else {
      UnionMember(sets, n - 1, c);
      assert OfPart(sets[n - 1], n - 1);
    }
  }

  lemma {:induction false} UnionCount(sets: seq<set<Check>>, counts: seq<nat>, n: nat)
    requires n <= |sets| && n <= |counts|
    requires forall i :: 0 <= i < n ==> OfPart(sets[i], i)
    requires forall i :: 0 <= i < n ==> |sets[i]| == counts[i]
    ensures |Union(sets, n)| == Total(counts, n)
  {
    if n == 0 {
    } else {
      var before, last := Union(sets, n - 1), sets[n - 1];
      UnionCount(sets, counts, n - 1);
      forall c | c in last
        ensures c !in before
      {
        UnionMember(sets, n - 1, c);
      }
      Disjoint(before, last);
    }
  }

  ghost predicate HoldsFailed(img: seq<byte>, fw: FirmwareHeader, s: set<Check>, i: nat)
    requires ReadsFrom(fw, img) && i < |fw.parts|
  {
    && OfPart(s, i)
    && (SlotSum(i) in s <==> Fails(img, fw, SlotSum(i)))
    && (DataCrc(i) in s <==> Fails(img, fw, DataCrc(i)))
    && (HeaderCrc(i) in s <==> Fails(img, fw, HeaderCrc(i)))
  }

  lemma PartChecksHold(img: seq<byte>, fw: FirmwareHeader, i: nat)
    requires ReadsFrom(fw, img) && i < |fw.parts|
    ensures HoldsFailed(img, fw, PartChecks(BlobAt(img, fw, i), i), i)
  {
    var b := BlobAt(img, fw, i);
    FailedAre(i, !SlotSound(b), !DataSound(b), !HeaderSound(b));
  }

  lemma PartChecksCount(b: seq<byte>, i: nat)
    ensures |PartChecks(b, i)| == PartFailures(b)
  {
    PartFailuresAre(b);
    FailedCount(i, !SlotSound(b), !DataSound(b), !HeaderSound(b));
  }

  ghost predicate AllHoldFailed(img: seq<byte>, fw: FirmwareHeader, sets: seq<set<Check>>)
    requires ReadsFrom(fw, img)
  {
    |sets| == |fw.parts| && forall i :: 0 <= i < |sets| ==> HoldsFailed(img, fw, sets[i], i)
  }

  lemma PartSets(img: seq<byte>, fw: FirmwareHeader) returns (sets: seq<set<Check>>)
    requires ReadsFrom(fw, img)
    ensures AllHoldFailed(img, fw, sets)
    ensures forall i :: 0 <= i < |sets| ==> |sets[i]| == PartCounts(img, fw)[i]
  {
    sets := seq(|fw.parts|, i requires 0 <= i < |fw.parts| => PartChecks(BlobAt(img, fw, i), i));
    forall i | 0 <= i < |sets|
      ensures HoldsFailed(img, fw, sets[i], i) && |sets[i]| == PartCounts(img, fw)[i]
    {
      PartChecksHold(img, fw, i);
      PartChecksCount(BlobAt(img, fw, i), i);
    }
  }

  ghost function WholeChecks(img: seq<byte>, fw: FirmwareHeader): set<Check> {
    When(fw.totalSize != |img|, TotalSize) + When(!IsValid(img), WholeSum)
  }

  lemma AreOfParts(img: seq<byte>, fw: FirmwareHeader, sets: seq<set<Check>>)
    requires ReadsFrom(fw, img) && AllHoldFailed(img, fw, sets)
    ensures forall i :: 0 <= i < |sets| ==> OfPart(sets[i], i)
  {
    forall i | 0 <= i < |sets|
      ensures OfPart(sets[i], i)
    {
      assert HoldsFailed(img, fw, sets[i], i);
    }
  }

  lemma FailsIff(img: seq<byte>, fw: FirmwareHeader, sets: seq<set<Check>>, c: Check)
    requires ReadsFrom(fw, img) && AllHoldFailed(img, fw, sets)
    ensures c in Union(sets, |sets|) + WholeChecks(img, fw) <==> Fails(img, fw, c)
  {
    AreOfParts(img, fw, sets);
    UnionMember(sets, |sets|, c);
    if !c.TotalSize? && !c.WholeSum? && c.part < |sets| {
      assert HoldsFailed(img, fw, sets[c.part], c.part);
    }
  }

  lemma CountsAll(img: seq<byte>, fw: FirmwareHeader, sets: seq<set<Check>>)
    requires ReadsFrom(fw, img) && AllHoldFailed(img, fw, sets)
    requires forall i :: 0 <= i < |sets| ==> |sets[i]| == PartCounts(img, fw)[i]
    ensures |Union(sets, |sets|) + WholeChecks(img, fw)| == Failures(img, fw)
  {
    AreOfParts(img, fw, sets);
    UnionCount(sets, PartCounts(img, fw), |sets|);
    forall c | c in WholeChecks(img, fw)
      ensures c !in Union(sets, |sets|)
    {
      UnionMember(sets, |sets|, c);
    }
    Disjoint(Union(sets, |sets|), WholeChecks(img, fw));
  }

  /** The number reported is that of the checks that fail. */
  lemma VerifyCounts(img: seq<byte>, fw: FirmwareHeader) returns (failed: set<Check>)
    requires Parse(img) == Ok(fw) && ReadsFrom(fw, img)
    ensures forall c :: c in failed <==> Fails(img, fw, c)
    ensures Verify(img) == if failed == {} then Ok(()) else Err(ChecksFailed(|failed|))
  {
    var sets := PartSets(img, fw);
    failed := Union(sets, |sets|) + WholeChecks(img, fw);
    forall c
      ensures c in failed <==> Fails(img, fw, c)
    {
      FailsIff(img, fw, sets, c);
    }
    CountsAll(img, fw, sets);
  }

  /** Changing any one aligned 16-bit word of a clean image, anywhere, is reported. */
  lemma OneWordChangeFails(img: seq<byte>, img': seq<byte>, w: nat)
    requires Verify(img).Ok? && DifferOnlyAtWord(img, img', w) && 2 * w + 2 <= |img| && img != img'
    ensures Verify(img').Err?
  {
    VerifyOkIff(img);
    VerifyOkIff(img');
    OneWordEditDetected(img, img', w);
  }

  // ----- packed images verify

  lemma SoundBlobs(img: seq<byte>, fw: FirmwareHeader, blobs: seq<seq<byte>>)
    requires ReadsFrom(fw, img) && |blobs| == |fw.parts|
    requires forall i :: 0 <= i < |blobs| ==> BlobAt(img, fw, i) == blobs[i]
    ensures AllSound(img, fw) <==> forall i :: 0 <= i < |blobs| ==> PartSound(blobs[i])
  {
    forall i | 0 <= i < |blobs|
      ensures SoundAt(img, fw, i) <==> PartSound(blobs[i])
    {
      assert BlobAt(img, fw, i) == blobs[i];
    }
  }

  /** What a packed image can still fail on: partitions that only look like something else. */
  lemma PackedVerifyIff(m: Manifest, outs: Outcomes, img: seq<byte>, blobs: seq<seq<byte>>)
    requires Packs(m, outs, img, blobs) && FW_CHKSUM_OFF + 2 <= m.firmware.headerSize && MIN_IMAGE_LEN <= |img|
    requires blobs != []
    ensures Verify(img).Ok? <==> forall i :: 0 <= i < |blobs| ==> PartSound(blobs[i])
  {
    PackedParses(m, outs, img, blobs);
    SealedIsValid(m, blobs);
    var fw := Parse(img).value;
    ParsedReads(img, fw);
    forall i | 0 <= i < |blobs|
      ensures BlobAt(img, fw, i) == blobs[i]
    {
      PackedTable(m, outs, img, blobs, fw, i);
    }
    SoundBlobs(img, fw, blobs);
    VerifyOkIff(img);
  }

  ghost predicate UntaggedOrValid(blob: seq<byte>) {
    BuildTag.FindTag(blob).None? || IsValid(blob)
  }

  lemma SoundWithoutCrcs(b: seq<byte>)
    requires UImageContainer.Parse(b).None?
    requires BuildTag.FindTag(b).Some? || CksmContainer.Parse(b).Some? ==> IsValid(b)
    ensures PartSound(b)
  {
    HasSlotIff(b);
    UImageContainer.ParsesIff(b);
  }

  lemma SoundWithCrcs(b: seq<byte>)
    requires UImageContainer.Parse(b).Some?
    ensures PartSound(b) <==>
            UImageContainer.DataCrcOk(b) && UImageContainer.HeaderCrcOk(b) && UntaggedOrValid(b)
  {
    HasSlotIff(b);
    CrcsSoundIff(b);
    UImageIsNotCksm(b);
  }

  /** Recoverable partitions are sound, a uImage provided it does not also look tagged. */
  lemma RecoverableIsSound(p: Partition, payload: seq<byte>, blob: seq<byte>)
    requires HasTable(p) && BuildBlob(p, payload) == Ok(blob) && |blob| <= U32_MAX as nat
    requires Recoverable(p, payload, blob, false)
    requires p.container.Uimage? ==> UntaggedOrValid(blob)
    ensures PartSound(blob)
  {
    BlobIsValid(p, payload, blob);
    match p.container {
      case Cksm =>
        CksmContainer.BuiltIsCanonical(CksmHeaderOf(p.cksm.value, |payload|), payload);
        if UImageContainer.Parse(blob).Some? {
          UImageIsNotCksm(blob);
        }
        SoundWithoutCrcs(blob);
      case Uimage =>
        UImageContainer.ParseBuilt(UImageHeaderOf(p.uimage.value), payload);
        UImageContainer.BuiltCrcsOk(UImageHeaderOf(p.uimage.value), payload);
        SoundWithCrcs(blob);
      case Raw =>
        SoundWithoutCrcs(blob);
    }
  }

  ghost predicate VerifiableAt(m: Manifest, dir: Directory, blobs: seq<seq<byte>>, i: nat)
    requires i < |m.partitions| && i < |blobs|
  {
    RecoverableAt(m, dir, blobs, false, i) && (m.partitions[i].container.Uimage? ==> UntaggedOrValid(blobs[i]))
  }

  lemma PackedPartSound(m: Manifest, dir: Directory, img: seq<byte>, blobs: seq<seq<byte>>, i: nat)
    requires Accepted(m) && Packs(m, OutcomesOf(m, dir), img, blobs) && i < |blobs|
    requires VerifiableAt(m, dir, blobs, i)
    ensures PartSound(blobs[i])
  {
    PackedBlobs(m, OutcomesOf(m, dir), img, blobs, i);
    assert BlobOf(m, dir, i) == Ok(blobs[i]);
    RecoverableIsSound(m.partitions[i], dir[m.partitions[i].file], blobs[i]);
  }

  lemma PackedSound(m: Manifest, dir: Directory, img: seq<byte>, blobs: seq<seq<byte>>)
    requires Accepted(m) && Packs(m, OutcomesOf(m, dir), img, blobs)
    requires forall i :: 0 <= i < |blobs| ==> VerifiableAt(m, dir, blobs, i)
    ensures blobs != [] && forall i :: 0 <= i < |blobs| ==> PartSound(blobs[i])
  {
    forall i | 0 <= i < |blobs|
      ensures PartSound(blobs[i])
    {
      PackedPartSound(m, dir, img, blobs, i);
    }
  }

  /** A packed image whose partitions are recoverable, and whose uImages do not also look tagged, verifies clean. */
  lemma PackedVerifies(m: Manifest, dir: Directory, img: seq<byte>, blobs: seq<seq<byte>>)
    requires Accepted(m) && Packs(m, OutcomesOf(m, dir), img, blobs)
    requires FW_CHKSUM_OFF + 2 <= m.firmware.headerSize && MIN_IMAGE_LEN <= |img|
    requires forall i :: 0 <= i < |blobs| ==> VerifiableAt(m, dir, blobs, i)
    ensures Verify(img) == Ok(())
  {
    PackedSound(m, dir, img, blobs);
    PackedVerifyIff(m, OutcomesOf(m, dir), img, blobs);
  }

  // ----- repaired edits

  ghost predicate OneByteEdit(s: seq<byte>, t: seq<byte>, k: nat) {
    |s| == |t| && k < |s| && s[k] != t[k] && forall j :: 0 <= j < |s| && j != k ==> s[j] == t[j]
  }

  lemma UImageEditUnsound(blob: seq<byte>, blob': seq<byte>, k: nat)
    requires OneByteEdit(blob, blob', k) && 4 <= k && LooksUimage(blob) && PartSound(blob)
    ensures !PartSound(blob')
  {
    UImageContainer.ParsesIff(blob);
    SoundWithCrcs(blob);
    UImageContainer.OneByteChangeFails(blob, blob', k);
    SoundWithCrcs(blob');
  }

  lemma CleanAt(img: seq<byte>, fw: FirmwareHeader, i: nat)
    requires Verify(img).Ok? && Parse(img) == Ok(fw) && ReadsFrom(fw, img) && i < |fw.parts|
    ensures PartSound(BlobAt(img, fw, i))
  {
    VerifyOkIff(img);
    assert SoundAt(img, fw, i);
  }

  lemma UncleanAt(img: seq<byte>, fw: FirmwareHeader, i: nat)
    requires Parse(img) == Ok(fw) && ReadsFrom(fw, img) && i < |fw.parts| && !PartSound(BlobAt(img, fw, i))
    ensures Verify(img).Err?
  {
    if Verify(img).Ok? {
      CleanAt(img, fw, i);
    }
  }

  /**
   * Re-solving the whole-image word does not hide a one-byte edit inside a uImage partition: whatever
   * else changed outside the table, verify still fails.
   */
  lemma RepairedEditFails(img: seq<byte>, img': seq<byte>, fw: FirmwareHeader, fw': FirmwareHeader, i: nat, k: nat)
    requires Verify(img).Ok? && Parse(img) == Ok(fw) && Parse(img') == Ok(fw') && fw'.parts == fw.parts
    requires i < |fw.parts| && ReadsFrom(fw, img) && ReadsFrom(fw', img')
    requires OneByteEdit(BlobAt(img, fw, i), BlobAt(img', fw', i), k) && 4 <= k
    requires LooksUimage(BlobAt(img, fw, i))
    ensures Verify(img').Err?
  {
    CleanAt(img, fw, i);
    UImageEditUnsound(BlobAt(img, fw, i), BlobAt(img', fw', i), k);
    UncleanAt(img', fw', i);
  }

  /** An edit of half-word w that leaves alone what a partition's corrective word is recognised by. */
  ghost predicate KeepsSlot(b: seq<byte>, w: nat) {
    || (0x40 <= |b| && b[..4] == [0x43, 0x4B, 0x53, 0x4D] && 4 <= 2 * w)
    || exists t: nat :: KeepsTag(b, t, w)
  }

  ghost predicate KeepsTag(b: seq<byte>, t: nat, w: nat) {
    t % 4 == 0 && t + 0x20 <= |b| && BuildTag.TagAt(b, t) && (2 * w + 2 <= t + 0x18 || t + 0x1E <= 2 * w)
  }

  lemma SlotKept(b: seq<byte>, b': seq<byte>, w: nat)
    requires DifferOnlyAtWord(b, b', w) && 2 * w + 2 <= |b| && KeepsSlot(b, w)
    ensures CarriesSlot(b) && CarriesSlot(b')
  {
    if 0x40 <= |b| && b[..4] == [0x43, 0x4B, 0x53, 0x4D] && 4 <= 2 * w {
      assert b'[..4] == b[..4];
    } else {
      var t: nat :| KeepsTag(b, t, w);
      BuildTag.SameTag(b, b', t);
      assert BuildTag.TagAt(b', t);
    }
  }

  lemma SlottedEditUnsound(b: seq<byte>, b': seq<byte>, w: nat)
    requires DifferOnlyAtWord(b, b', w) && 2 * w + 2 <= |b| && b != b' && KeepsSlot(b, w) && PartSound(b)
    ensures !PartSound(b')
  {
    SlotKept(b, b', w);
    OneWordEditDetected(b, b', w);
  }

  /** Nor does it hide the edit of one aligned half-word in a partition with a corrective word of its own. */
  lemma SlottedEditFails(img: seq<byte>, img': seq<byte>, fw: FirmwareHeader, fw': FirmwareHeader, i: nat, w: nat)
    requires Verify(img).Ok? && Parse(img) == Ok(fw) && Parse(img') == Ok(fw') && fw'.parts == fw.parts
    requires i < |fw.parts| && ReadsFrom(fw, img) && ReadsFrom(fw', img')
    requires DifferOnlyAtWord(BlobAt(img, fw, i), BlobAt(img', fw', i), w) && 2 * w + 2 <= |BlobAt(img, fw, i)|
    requires BlobAt(img, fw, i) != BlobAt(img', fw', i) && KeepsSlot(BlobAt(img, fw, i), w)
    ensures Verify(img').Err?
  {
    CleanAt(img, fw, i);
    SlottedEditUnsound(BlobAt(img, fw, i), BlobAt(img', fw', i), w);
    UncleanAt(img', fw', i);
  }
}
