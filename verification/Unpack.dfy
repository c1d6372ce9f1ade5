/** Splitting an image into files and a manifest. */
module Unpacker {
  import opened Bytes
  import opened Errors
  import opened Header
  import opened Layout
  import opened ManifestModel
  import BuildTag
  import CksmContainer
  import UImageContainer

  datatype Unpacked = Unpacked(manifest: Manifest, files: Directory)

  /** One partition's manifest entry and the payload written to its file. */
  datatype Split = Split(entry: Partition, payload: seq<byte>)

  const DTB_MAGIC: seq<byte> := [0xD0, 0x0D, 0xFE, 0xED]

  function PayloadExt(blob: seq<byte>, raw: bool): string {
    if raw then "bin"
    else if CksmContainer.Parse(blob).Some? then "ubi"
    else if UImageContainer.Parse(blob).Some? then "lzma"
    else if 4 <= |blob| && blob[..4] == DTB_MAGIC then "dtb"
    else "bin"
  }

  /** How a partition is taken apart: as a whole file, unless stripped mode recognises its container. */
  datatype Kind = Whole | InCksm(ck: CksmContainer.CksmHeader) | InUimage(ui: UImageContainer.UImageHeader)

  function KindOf(blob: seq<byte>, raw: bool): Kind {
    if raw then Whole
    else match CksmContainer.Parse(blob)
         case Some(c) => InCksm(c)
         case None => match UImageContainer.Parse(blob)
                      case Some(u) => InUimage(u)
                      case None => Whole
  }

  /** None when the container claims a payload that runs past the partition. */
  function PayloadOf(blob: seq<byte>, raw: bool): Option<seq<byte>> {
    match KindOf(blob, raw)
    case Whole => Some(blob)
    case InCksm(c) =>
      var s := c.dataOffset as nat;
      var e := s + c.dataLength as nat;
      if |blob| < e then None else Some(blob[s..e])
    case InUimage(u) =>
      var e := UImageContainer.UIMAGE_HDR_LEN + RdBe32(blob, 0x0C) as nat;
      if |blob| < e then None else Some(blob[UImageContainer.UIMAGE_HDR_LEN..e])
  }

  function TagOffset(blob: seq<byte>): Option<u32> {
    match BuildTag.FindTag(blob) case Some(t) => Some(AsU32(t)) case None => None
  }

  function CksmTableOf(c: CksmContainer.CksmHeader): CksmTable {
    CksmTable(c.version, c.field08, c.dataOffset, c.field18, c.field1C)
  }

  function UImageTableOf(u: UImageContainer.UImageHeader): UImageTable {
    UImageTable(u.name, u.time, u.load, u.entry, u.os, u.arch, u.imgType, u.comp)
  }

  function BaseEntry(id: u32, blob: seq<byte>, raw: bool): Partition {
    Partition(id, PartitionName(id), FileName(id, PayloadExt(blob, raw)), Container.Raw, None, None, None)
  }

  function EntryFor(id: u32, blob: seq<byte>, raw: bool): (p: Partition)
    ensures HasTable(p)
  {
    var base := BaseEntry(id, blob, raw);
    match KindOf(blob, raw)
    case Whole => base.(nvtTagOffset := TagOffset(blob))
    case InCksm(c) => base.(container := Container.Cksm, cksm := Some(CksmTableOf(c)))
    case InUimage(u) => base.(container := Container.Uimage, uimage := Some(UImageTableOf(u)))
  }

  function SplitBlob(i: nat, id: u32, blob: seq<byte>, raw: bool): Result<Split, Error> {
    match PayloadOf(blob, raw)
    case Some(payload) => Ok(Split(EntryFor(id, blob, raw), payload))
    case None => Err(PayloadPastPartition(i))
  }

  function BlobIn(img: seq<byte>, p: PartitionEntry): (b: seq<byte>)
    requires Fits(img, p)
    ensures |b| == p.size
  {
    img[p.offset..p.offset as nat + p.size as nat]
  }

  ghost predicate ReadsFrom(fw: FirmwareHeader, img: seq<byte>) {
    forall i :: 0 <= i < |fw.parts| ==> Fits(img, fw.parts[i])
  }

  type SplitOutcomes = seq<Result<Split, Error>>

  /** What splitting each partition on its own gives. */
  function SplitsOf(img: seq<byte>, fw: FirmwareHeader, raw: bool): (outs: SplitOutcomes)
    requires ReadsFrom(fw, img)
    ensures |outs| == |fw.parts|
    ensures forall i :: 0 <= i < |outs| ==> outs[i] == SplitBlob(i, fw.parts[i].id, BlobIn(img, fw.parts[i]), raw)
  {
    seq(|fw.parts|, i requires 0 <= i < |fw.parts| => SplitBlob(i, fw.parts[i].id, BlobIn(img, fw.parts[i]), raw))
  }

  /** The first n splits, or the first error. */
  function Collect(outs: SplitOutcomes, n: nat): (r: Result<seq<Split>, Error>)
    requires n <= |outs|
    ensures r.Ok? <==> forall i :: 0 <= i < n ==> outs[i].Ok?
    ensures r.Ok? ==> |r.value| == n && forall i :: 0 <= i < n ==> outs[i] == Ok(r.value[i])
  {
    if n == 0 then Ok([])
    else
      var before := Collect(outs, n - 1);
      if before.Err? then before
      else if outs[n - 1].Err? then Err(outs[n - 1].error)
      else Ok(before.value + [outs[n - 1].value])
  }

  function EntriesOf(splits: seq<Split>): (ps: seq<Partition>)
    ensures |ps| == |splits| && forall i :: 0 <= i < |ps| ==> ps[i] == splits[i].entry
  {
    seq(|splits|, i requires 0 <= i < |splits| => splits[i].entry)
  }

  /** Files are written in table order, a later one replacing an earlier one of the same name. */
  function WriteAll(dir: Directory, splits: seq<Split>): Directory {
    if splits == [] then dir
    else
      var last := splits[|splits| - 1];
      WriteAll(dir, splits[..|splits| - 1])[last.entry.file := last.payload]
  }

  function Unpack(img: seq<byte>, raw: bool, force: bool, out: Directory): Result<Unpacked, Error> {
    match Parse(img)
    case Err(e) => Err(e)
    case Ok(fw) =>
      if out != map[] && !force then Err(OutputNotEmpty)
      else
        match Collect(SplitsOf(img, fw, raw), |fw.parts|)
        case Err(e) => Err(e)
        case Ok(splits) =>
          var firmware := Firmware(fw.version, fw.headerSize, fw.chksumMethod, DerivedAlign(fw));
          Ok(Unpacked(Manifest(firmware, EntriesOf(splits)), WriteAll(out, splits)))
  }

  lemma {:induction false} CollectStops(outs: SplitOutcomes, i: nat, n: nat)
    requires i <= n <= |outs| && Collect(outs, i).Err?
    ensures Collect(outs, n) == Collect(outs, i)
  {
    if i == n {
    } else {
      CollectStops(outs, i, n - 1);
    }
  }

  lemma WholeSplit(i: nat, id: u32, blob: seq<byte>, raw: bool)
    requires KindOf(blob, raw).Whole?
    ensures SplitBlob(i, id, blob, raw) == Ok(Split(BaseEntry(id, blob, raw).(nvtTagOffset := TagOffset(blob)), blob))
  {
  }

  lemma CksmSplit(i: nat, id: u32, blob: seq<byte>, c: CksmContainer.CksmHeader)
    requires KindOf(blob, false) == InCksm(c)
    ensures var s, e := c.dataOffset as nat, c.dataOffset as nat + c.dataLength as nat;
            var entry := BaseEntry(id, blob, false).(container := Container.Cksm, cksm := Some(CksmTableOf(c)));
            SplitBlob(i, id, blob, false) ==
            if |blob| < e then Err(PayloadPastPartition(i)) else Ok(Split(entry, blob[s..e]))
  {
  }

  lemma UImageSplit(i: nat, id: u32, blob: seq<byte>, u: UImageContainer.UImageHeader)
    requires KindOf(blob, false) == InUimage(u)
    ensures UImageContainer.UIMAGE_HDR_LEN <= |blob|
    ensures var e := UImageContainer.UIMAGE_HDR_LEN + RdBe32(blob, 0x0C) as nat;
            var entry := BaseEntry(id, blob, false).(container := Container.Uimage, uimage := Some(UImageTableOf(u)));
            SplitBlob(i, id, blob, false) ==
            if |blob| < e then Err(PayloadPastPartition(i))
            else Ok(Split(entry, blob[UImageContainer.UIMAGE_HDR_LEN..e]))
  {
  }

  /** Containers are recognised in order: CKSM, then uImage, then anything. */
  lemma KindCases(blob: seq<byte>, raw: bool)
    ensures var cksm, uimage := CksmContainer.Parse(blob), UImageContainer.Parse(blob);
            KindOf(blob, raw) ==
            if raw then Whole else if cksm.Some? then InCksm(cksm.value)
            else if uimage.Some? then InUimage(uimage.value) else Whole
  {
  }

  method SplitPartition(i: nat, id: u32, blob: seq<byte>, raw: bool) returns (r: Result<Split, Error>)
    ensures r == SplitBlob(i, id, blob, raw)
  {
    var entry := BaseEntry(id, blob, raw);
    var payload := blob;
    var cksm := CksmContainer.Parse(blob);
    var uimage := UImageContainer.Parse(blob);
    KindCases(blob, raw);
    if !raw && cksm.Some? {
      var c := cksm.value;
      CksmSplit(i, id, blob, c);
      entry := entry.(container := Container.Cksm, cksm := Some(CksmTableOf(c)));
      var s := c.dataOffset as nat;
      var e := s + c.dataLength as nat;
      if e > |blob| {
        return Err(PayloadPastPartition(i));
      }
      payload := blob[s..e];
    } else if !raw && uimage.Some? {
      UImageSplit(i, id, blob, uimage.value);
      entry := entry.(container := Container.Uimage, uimage := Some(UImageTableOf(uimage.value)));
      var e := UImageContainer.UIMAGE_HDR_LEN + RdBe32(blob, 0x0C) as nat;
      if e > |blob| {
        return Err(PayloadPastPartition(i));
      }
      payload := blob[UImageContainer.UIMAGE_HDR_LEN..e];
    } else {
      WholeSplit(i, id, blob, raw);
      var t := BuildTag.FindNvtTag(blob);
      if t.Some? {
        entry := entry.(nvtTagOffset := Some(AsU32(t.value.offset)));
      }
    }
    return Ok(Split(entry, payload));
  }

  method CmdUnpack(img: seq<byte>, raw: bool, force: bool, out: Directory) returns (r: Result<Unpacked, Error>)
    ensures r == Unpack(img, raw, force, out)
  {
    var parsed := ParseHeader(img);
    if parsed.Err? {
      return Err(parsed.error);
    }
    var fw := parsed.value;
    if out != map[] && !force {
      return Err(OutputNotEmpty);
    }
    var align := DeriveAlign(fw);
    var split := SplitPartitions(img, fw, raw, out, SplitsOf(img, fw, raw));
    if split.Err? {
      return Err(split.error);
    }
    return Ok(Unpacked(Manifest(Firmware(fw.version, fw.headerSize, fw.chksumMethod, align), split.value.0),
                       split.value.1));
  }

  /** What the loop over the table holds after n partitions. */
  function SplitState(outs: SplitOutcomes, out: Directory, n: nat): Result<(seq<Partition>, Directory), Error>
    requires n <= |outs|
  {
    match Collect(outs, n)
    case Err(e) => Err(e)
    case Ok(splits) => Ok((EntriesOf(splits), WriteAll(out, splits)))
  }

  lemma SplitStateStep(outs: SplitOutcomes, out: Directory, i: nat)
    requires i < |outs| && SplitState(outs, out, i).Ok?
    ensures var (parts, files) := SplitState(outs, out, i).value;
            SplitState(outs, out, i + 1) ==
            match outs[i]
            case Err(e) => Err(e)
            case Ok(s) => Ok((parts + [s.entry], files[s.entry.file := s.payload]))
  {
    var splits := Collect(outs, i).value;
    if outs[i].Ok? {
      var more := splits + [outs[i].value];
      assert more[..i] == splits;
      assert EntriesOf(more) == EntriesOf(splits) + [outs[i].value.entry];
    }
  }

  lemma SplitStateStops(outs: SplitOutcomes, out: Directory, i: nat)
    requires i <= |outs| && SplitState(outs, out, i).Err?
    ensures SplitState(outs, out, |outs|) == SplitState(outs, out, i)
  {
    CollectStops(outs, i, |outs|);
  }

  method SplitPartitions(img: seq<byte>, fw: FirmwareHeader, raw: bool, out: Directory, ghost outs: SplitOutcomes)
      returns (r: Result<(seq<Partition>, Directory), Error>)
    requires ReadsFrom(fw, img) && |outs| == |fw.parts|
    requires forall i :: 0 <= i < |outs| ==> outs[i] == SplitBlob(i, fw.parts[i].id, BlobIn(img, fw.parts[i]), raw)
    ensures r == SplitState(outs, out, |outs|)
  {
    var parts: seq<Partition> := [];
    var files := out;
    for i := 0 to |fw.parts|
      invariant SplitState(outs, out, i) == Ok((parts, files))
    {
      var p := fw.parts[i];
      var split := SplitPartition(i, p.id, BlobIn(img, p), raw);
      SplitStateStep(outs, out, i);
      if split.Err? {
        SplitStateStops(outs, out, i + 1);
        return Err(split.error);
      }
      files := files[split.value.entry.file := split.value.payload];
      parts := parts + [split.value.entry];
    }
    return Ok((parts, files));
  }

  // ----- slices

  /** Where in its partition a payload starts. */
  function PayloadStart(blob: seq<byte>, raw: bool): nat {
    match KindOf(blob, raw)
    case Whole => 0
    case InCksm(c) => c.dataOffset as nat
    case InUimage(_) => UImageContainer.UIMAGE_HDR_LEN
  }

  lemma PayloadStands(blob: seq<byte>, raw: bool)
    requires PayloadOf(blob, raw).Some?
    ensures var at, payload := PayloadStart(blob, raw), PayloadOf(blob, raw).value;
            at + |payload| <= |blob| && blob[at..at + |payload|] == payload
  {
  }

  /** Every payload written out is a stretch of its own partition, at a position no sum of which leaves 64 bits. */
  lemma PayloadIsSlice(img: seq<byte>, p: PartitionEntry, raw: bool) returns (start: nat)
    requires Fits(img, p) && PayloadOf(BlobIn(img, p), raw).Some?
    ensures var payload := PayloadOf(BlobIn(img, p), raw).value;
            && p.offset as nat <= start && start + |payload| <= p.offset as nat + p.size as nat
            && start + |payload| < 0x1_0000_0000_0000_0000
            && img[start..start + |payload|] == payload
  {
    var blob := BlobIn(img, p);
    var at, payload := PayloadStart(blob, raw), PayloadOf(blob, raw).value;
    PayloadStands(blob, raw);
    start := p.offset as nat + at;
    Subslice(img, blob, p.offset, at, at + |payload|);
  }

  // ----- when unpacking succeeds

  lemma {:induction false} CollectFirstErr(outs: SplitOutcomes, i: nat, n: nat)
    requires i < n <= |outs| && outs[i].Err? && forall k :: 0 <= k < i ==> outs[k].Ok?
    ensures Collect(outs, n) == Err(outs[i].error)
  {
    if i == n - 1 {
    } else {
      CollectFirstErr(outs, i, n - 1);
    }
  }

  /** A parsed image unpacks exactly when its containers' payloads all lie inside their partitions. */
  lemma UnpackOkIff(img: seq<byte>, fw: FirmwareHeader, raw: bool, force: bool, out: Directory)
    requires Parse(img) == Ok(fw) && ReadsFrom(fw, img)
    ensures Unpack(img, raw, force, out).Ok? <==>
            && (force || out == map[])
            && forall i :: 0 <= i < |fw.parts| ==> PayloadOf(BlobIn(img, fw.parts[i]), raw).Some?
  {
    var outs := SplitsOf(img, fw, raw);
    forall i | 0 <= i < |outs|
      ensures outs[i].Ok? <==> PayloadOf(BlobIn(img, fw.parts[i]), raw).Some?
    {
    }
  }

  /** Otherwise it reports the first one that does not. */
  lemma UnpackFirstError(img: seq<byte>, fw: FirmwareHeader, raw: bool, force: bool, out: Directory, i: nat)
    requires Parse(img) == Ok(fw) && ReadsFrom(fw, img) && (force || out == map[]) && i < |fw.parts|
    requires PayloadOf(BlobIn(img, fw.parts[i]), raw).None?
    requires forall k :: 0 <= k < i ==> PayloadOf(BlobIn(img, fw.parts[k]), raw).Some?
    ensures Unpack(img, raw, force, out) == Err(PayloadPastPartition(i))
  {
    CollectFirstErr(SplitsOf(img, fw, raw), i, |fw.parts|);
  }
}
