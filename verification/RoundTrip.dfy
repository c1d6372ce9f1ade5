/** When packing what was unpacked gives the same image back, byte for byte. */
module RoundTrip {
  import opened Bytes
  import opened Checksum
  import opened Header
  import opened Layout
  import opened ManifestModel
  import opened Packer
  import opened PackedImage
  import opened Unpacker
  import opened Rebuilding

  // ----- the sealed image, byte by byte

  /** Away from the corrective word, an image shows table over header over layout. */
  ghost predicate BytesStand(img: seq<byte>, lay: seq<byte>, header: seq<byte>, tbl: nat, table: seq<byte>) {
    && |img| == |lay|
    && forall k :: 0 <= k < |img| && k != 0x24 && k != 0x25 ==>
         img[k] == if tbl <= k < tbl + |table| then table[k - tbl] else if k < |header| then header[k] else lay[k]
  }

  /** Sealing gives the valid images that show what was written, wherever the table falls. */
  lemma SealIff(lay: seq<byte>, header: seq<byte>, tbl: nat, table: seq<byte>, img: seq<byte>)
    requires |header| <= |lay| && tbl + |table| <= |lay| && FW_CHKSUM_OFF + 2 <= |lay|
    ensures Seal(lay, header, tbl, table) == img <==> BytesStand(img, lay, header, tbl, table) && IsValid(img)
  {
    var u := Overlay(Overlay(lay, 0, header), tbl, table);
    WrittenStands(lay, header, tbl, table);
    assert FW_CHKSUM_OFF % 2 == 0;
    if BytesStand(img, lay, header, tbl, table) && IsValid(img) {
      SameWhereStanding(img, u, lay, header, tbl, table);
      SolvedIgnoresSlot(u, img, FW_CHKSUM_OFF);
      SolveIdentity(img, FW_CHKSUM_OFF);
    }
    if Solved(u, FW_CHKSUM_OFF) == img {
      SolvedIsValid(u, FW_CHKSUM_OFF);
      SolvedStands(u, lay, header, tbl, table);
    }
  }

  lemma WrittenStands(lay: seq<byte>, header: seq<byte>, tbl: nat, table: seq<byte>)
    requires |header| <= |lay| && tbl + |table| <= |lay|
    ensures BytesStand(Overlay(Overlay(lay, 0, header), tbl, table), lay, header, tbl, table)
  {
  }

  lemma SolvedStands(u: seq<byte>, lay: seq<byte>, header: seq<byte>, tbl: nat, table: seq<byte>)
    requires FW_CHKSUM_OFF + 2 <= |u| && BytesStand(u, lay, header, tbl, table)
    ensures BytesStand(Solved(u, FW_CHKSUM_OFF), lay, header, tbl, table)
  {
    var r := Solved(u, FW_CHKSUM_OFF);
    assert forall k :: 0 <= k < |u| && k != 0x24 && k != 0x25 ==> r[k] == u[k];
  }

  lemma SameWhereStanding(b: seq<byte>, c: seq<byte>, lay: seq<byte>, header: seq<byte>, tbl: nat, table: seq<byte>)
    requires BytesStand(b, lay, header, tbl, table) && BytesStand(c, lay, header, tbl, table)
    ensures |b| == |c| && forall k :: 0 <= k < |b| && k != 0x24 && k != 0x25 ==> b[k] == c[k]
  {
  }

  // ----- the images that come out the same

  ghost predicate RoundTrips(img: seq<byte>, raw: bool, force: bool, out: Directory) {
    match Unpack(img, raw, force, out)
    case Err(_) => false
    case Ok(u) => Pack(u.manifest, u.files) == Ok(img)
  }

  /** Where the table does not cover it, the total size stands as given. */
  ghost predicate TotalStands(img: seq<byte>, total: seq<byte>, tbl: nat, end: nat) {
    |total| == 4 && forall k :: 0x1C <= k < 0x20 && k < |img| && !(tbl <= k < end) ==> img[k] == total[k - 0x1C]
  }

  /** Where the corrective word does not cover it, the table stands. */
  ghost predicate TableStands(img: seq<byte>, tbl: nat, table: seq<byte>) {
    forall k :: tbl <= k < tbl + |table| && k < |img| && k != 0x24 && k != 0x25 ==> img[k] == table[k - tbl]
  }

  /** Everything else is padding and partitions. */
  ghost predicate LayoutStands(img: seq<byte>, lay: seq<byte>, tbl: nat, end: nat) {
    |img| == |lay| && forall k :: FW_CHKSUM_OFF + 2 <= k < |img| && !(tbl <= k < end) ==> img[k] == lay[k]
  }

  ghost predicate Regions(img: seq<byte>, lay: seq<byte>, total: seq<byte>, tbl: nat, table: seq<byte>) {
    && TotalStands(img, total, tbl, tbl + |table|)
    && TableStands(img, tbl, table)
    && LayoutStands(img, lay, tbl, tbl + |table|)
  }

  ghost predicate Shows(img: seq<byte>, fw: FirmwareHeader, blobs: seq<seq<byte>>)
    requires |blobs| == |fw.parts|
  {
    Regions(img, RebuiltLayout(fw, blobs), Le32(AsU32(|img|)), fw.headerSize, Table(RebuiltTable(fw, blobs)))
  }

  ghost predicate Reproduced(img: seq<byte>, raw: bool) {
    match Parse(img)
    case Err(_) => false
    case Ok(fw) =>
      && ReadsFrom(fw, img) && fw.parts != [] && AllBuild(RebuiltAll(img, fw, raw))
      && |img| <= U32_MAX as nat && IsValid(img) && Shows(img, fw, BuiltBlobs(RebuiltAll(img, fw, raw)))
  }

  // ----- and they are exactly those

  /** Two fixed headers that differ in their total size differ in those four bytes only. */
  lemma TotalBytes(v: u32, h: u32, c: u32, t: u32, u: u32, m: u32)
    ensures var f, g := FixedHeader(v, h, c, t, m), FixedHeader(v, h, c, u, m);
            && (forall k :: 0 <= k < FIXED_LEN && !(0x1C <= k < 0x20) ==> f[k] == g[k])
            && (forall k :: 0x1C <= k < 0x20 ==> g[k] == Le32(u)[k - 0x1C])
  {
    var f, g := FixedHeader(v, h, c, t, m), FixedHeader(v, h, c, u, m);
    var front := FW_GUID + Le32(v) + Le32(h) + Le32(c);
    assert f == front + Le32(t) + Le32(m) && g == front + Le32(u) + Le32(m);
  }

  /** Header bytes that are known to stand but for the total size leave the three regions to check. */
  lemma RegionsIff(img: seq<byte>, lay: seq<byte>, header: seq<byte>, total: seq<byte>, tbl: nat, table: seq<byte>)
    requires FIXED_LEN <= |img| && |header| == FIXED_LEN && |total| == 4
    requires forall k :: 0 <= k < FIXED_LEN && !(0x1C <= k < 0x20) ==> img[k] == header[k]
    requires forall k :: 0x1C <= k < 0x20 ==> header[k] == total[k - 0x1C]
    ensures BytesStand(img, lay, header, tbl, table) <==> Regions(img, lay, total, tbl, table)
  {
    if Regions(img, lay, total, tbl, table) {
      RegionsStand(img, lay, header, total, tbl, table);
    }
  }

  lemma RegionsStand(img: seq<byte>, lay: seq<byte>, header: seq<byte>, total: seq<byte>, tbl: nat, table: seq<byte>)
    requires FIXED_LEN <= |img| && |header| == FIXED_LEN && Regions(img, lay, total, tbl, table)
    requires forall k :: 0 <= k < FIXED_LEN && !(0x1C <= k < 0x20) ==> img[k] == header[k]
    requires forall k :: 0x1C <= k < 0x20 ==> header[k] == total[k - 0x1C]
    ensures BytesStand(img, lay, header, tbl, table)
  {
    forall k | 0 <= k < |img| && k != 0x24 && k != 0x25
      ensures img[k] == if tbl <= k < tbl + |table| then table[k - tbl] else if k < |header| then header[k] else lay[k]
    {
    }
  }

  /** Of the header bytes pack writes, only the total size is not what was parsed. */
  lemma ShowsIff(img: seq<byte>, fw: FirmwareHeader, header: seq<byte>, blobs: seq<seq<byte>>)
    requires Parse(img) == Ok(fw) && |blobs| == |fw.parts|
    requires header == FixedHeader(fw.version, fw.headerSize, AsU32(|fw.parts|), AsU32(|img|), fw.chksumMethod)
    ensures BytesStand(img, RebuiltLayout(fw, blobs), header, fw.headerSize, Table(RebuiltTable(fw, blobs)))
       <==> Shows(img, fw, blobs)
  {
    ParsedBytes(img);
    TotalBytes(fw.version, fw.headerSize, |fw.parts|, fw.totalSize, AsU32(|img|), fw.chksumMethod);
    assert forall k :: 0 <= k < FIXED_LEN ==> img[k] == img[..FIXED_LEN][k];
    var total := Le32(AsU32(|img|));
    RegionsIff(img, RebuiltLayout(fw, blobs), header, total, fw.headerSize, Table(RebuiltTable(fw, blobs)));
  }

  lemma AssembleIff(m: Manifest, outs: Outcomes, img: seq<byte>)
    requires Covers(m, outs) && outs != [] && FW_CHKSUM_OFF + 2 <= |img|
    ensures Assemble(m, outs) == Ok(img) <==>
            && AllBuild(outs) && |img| <= U32_MAX as nat && IsValid(img)
            && BytesStand(img, Laid(BuiltBlobs(outs), FirstOffset(m), m.firmware.align), HeaderFor(m, |img|),
                             m.firmware.headerSize, Table(Entries(m, BuiltBlobs(outs))))
  {
    BlobsOkIff(outs, FirstOffset(m), m.firmware.align);
    if AllBuild(outs) && |img| == End(Sizes(BuiltBlobs(outs)), |outs|, FirstOffset(m), m.firmware.align) {
      var blobs := BuiltBlobs(outs);
      SealIff(Laid(blobs, FirstOffset(m), m.firmware.align), HeaderFor(m, |img|), m.firmware.headerSize,
                 Table(Entries(m, blobs)), img);
    }
  }

  lemma AssemblesIff(img: seq<byte>, fw: FirmwareHeader, raw: bool, m: Manifest)
    requires Parse(img) == Ok(fw) && ReadsFrom(fw, img) && fw.parts != [] && |m.partitions| == |fw.parts|
    requires m.firmware == Firmware(fw.version, fw.headerSize, fw.chksumMethod, DerivedAlign(fw))
    requires forall i :: 0 <= i < |fw.parts| ==> m.partitions[i].id == fw.parts[i].id
    ensures Assemble(m, RebuiltAll(img, fw, raw)) == Ok(img) <==> Reproduced(img, raw)
  {
    var outs := RebuiltAll(img, fw, raw);
    AssembleIff(m, outs, img);
    if AllBuild(outs) {
      EntriesAgree(m, fw, BuiltBlobs(outs));
      ShowsIff(img, fw, HeaderFor(m, |img|), BuiltBlobs(outs));
    }
  }

  lemma RepackIff(img: seq<byte>, fw: FirmwareHeader, raw: bool, out: Directory, splits: seq<Split>)
    requires Parse(img) == Ok(fw) && ReadsFrom(fw, img) && SplitsAre(img, fw, raw, splits) && fw.parts != []
    ensures Pack(ManifestOf(fw, splits), WriteAll(out, splits)) == Ok(img) <==> Reproduced(img, raw)
  {
    UnpackedIsAccepted(img, fw, raw, splits);
    UnpackedOutcomes(img, fw, raw, out, splits);
    UnpackedIds(img, fw, raw, splits);
    AssemblesIff(img, fw, raw, ManifestOf(fw, splits));
  }

  lemma SplitsRepackIff(img: seq<byte>, fw: FirmwareHeader, raw: bool, out: Directory, splits: seq<Split>)
    requires Parse(img) == Ok(fw) && ReadsFrom(fw, img) && Collect(SplitsOf(img, fw, raw), |fw.parts|) == Ok(splits)
    ensures Pack(ManifestOf(fw, splits), WriteAll(out, splits)) == Ok(img) <==> Reproduced(img, raw)
  {
    CollectedSplits(img, fw, raw, splits);
    if fw.parts != [] {
      RepackIff(img, fw, raw, out, splits);
    }
  }

  lemma ParsedRoundTripIff(img: seq<byte>, fw: FirmwareHeader, raw: bool, force: bool, out: Directory)
    requires Parse(img) == Ok(fw) && ReadsFrom(fw, img) && (force || out == map[])
    ensures var splits := Collect(SplitsOf(img, fw, raw), |fw.parts|);
            RoundTrips(img, raw, force, out) <==>
            splits.Ok? && Pack(ManifestOf(fw, splits.value), WriteAll(out, splits.value)) == Ok(img)
  {
  }

  /** Unpacking and packing again is the identity exactly on the reproduced images, whatever the header size. */
  lemma ReproducedIff(img: seq<byte>, raw: bool, force: bool, out: Directory)
    requires force || out == map[]
    ensures RoundTrips(img, raw, force, out) <==> Reproduced(img, raw)
  {
    if Parse(img).Ok? {
      var fw := Parse(img).value;
      ParsedReads(img, fw);
      ParsedRoundTripIff(img, fw, raw, force, out);
      var splits := Collect(SplitsOf(img, fw, raw), |fw.parts|);
      if splits.Ok? {
        SplitsRepackIff(img, fw, raw, out, splits.value);
      } else {
        SomePayloadPast(img, fw, raw);
      }
    }
  }

  // ----- canonical images

  ghost predicate CanonicalHeader(img: seq<byte>, fw: FirmwareHeader) {
    fw.parts != [] && fw.totalSize == |img| && AllZero(img, FW_CHKSUM_OFF + 2, fw.headerSize) && IsValid(img)
  }

  ghost predicate GapZero(img: seq<byte>, fw: FirmwareHeader, i: nat)
    requires i < |fw.parts|
  {
    AllZero(img, PreviousEnd(fw, i), fw.parts[i].offset)
  }

  ghost predicate CanonicalLayout(img: seq<byte>, fw: FirmwareHeader) {
    && (exists a: nat :: IsCandidate(a) && LaidOut(fw, a))
    && (forall i :: 0 <= i < |fw.parts| ==> GapZero(img, fw, i))
    && PreviousEnd(fw, |fw.parts|) == |img|
  }

  /** Partition i is rebuilt from whatever its file holds once every partition has been written. */
  ghost predicate CanonicalPart(img: seq<byte>, fw: FirmwareHeader, raw: bool, i: nat)
    requires ReadsFrom(fw, img) && i < |fw.parts|
  {
    var j := LastSharing(img, fw, raw, i);
    var file := PayloadOf(BlobAt(img, fw, j), raw);
    PayloadOf(BlobAt(img, fw, i), raw).Some? && file.Some? && PartFits(BlobAt(img, fw, i), file.value, raw)
  }

  ghost predicate Canonical(img: seq<byte>, raw: bool) {
    match Parse(img)
    case Err(_) => false
    case Ok(fw) =>
      && ReadsFrom(fw, img)
      && CanonicalHeader(img, fw)
      && CanonicalLayout(img, fw)
      && forall i :: 0 <= i < |fw.parts| ==> CanonicalPart(img, fw, raw, i)
  }

  ghost predicate CanonicalButTotal(img: seq<byte>, fw: FirmwareHeader, raw: bool)
    requires ReadsFrom(fw, img)
  {
    && fw.parts != [] && |img| <= U32_MAX as nat && IsValid(img)
    && TotalStands(img, Le32(AsU32(|img|)), fw.headerSize, fw.FirstPartitionOffset())
    && AllZero(img, FW_CHKSUM_OFF + 2, fw.headerSize) && CanonicalLayout(img, fw)
    && forall i :: 0 <= i < |fw.parts| ==> CanonicalPart(img, fw, raw, i)
  }

  // ----- canonical images round-trip

  /** A table laid out by the padding rule agrees, entry by entry, with the layout its sizes give. */
  lemma {:induction false} LayoutMatches(fw: FirmwareHeader, sizes: seq<nat>, a: nat, n: nat)
    requires a > 0 && LaidOut(fw, a) && |sizes| == |fw.parts| && n <= |sizes|
    requires forall i :: 0 <= i < |sizes| ==> sizes[i] == fw.parts[i].size
    ensures End(sizes, n, fw.FirstPartitionOffset(), a) == PreviousEnd(fw, n)
    ensures n < |sizes| ==> Start(sizes, n, fw.FirstPartitionOffset(), a) == fw.parts[n].offset
  {
    if n == 0 {
    } else {
      LayoutMatches(fw, sizes, a, n - 1);
    }
    if n < |sizes| {
      assert LaidOutAt(fw, a, n);
    }
  }

  lemma LaidUniqueAll(r: seq<byte>, blobs: seq<seq<byte>>, first: nat, align: nat)
    requires align > 0 && |r| == End(Sizes(blobs), |blobs|, first, align)
    requires forall i :: 0 <= i < |blobs| ==> HoldsBlob(r, blobs, i, first, align)
    ensures forall k :: first <= k < |r| ==> r[k] == Laid(blobs, first, align)[k]
  {
    forall k | first <= k < |r|
      ensures r[k] == Laid(blobs, first, align)[k]
    {
      LaidUnique(r, blobs, first, align, k);
    }
  }

  function BlobSeq(img: seq<byte>, fw: FirmwareHeader): (blobs: seq<seq<byte>>)
    requires ReadsFrom(fw, img)
    ensures |blobs| == |fw.parts| && forall i :: 0 <= i < |blobs| ==> blobs[i] == BlobAt(img, fw, i)
  {
    seq(|fw.parts|, i requires 0 <= i < |fw.parts| => BlobAt(img, fw, i))
  }

  /** Partition i stands in the image where its manifest will lay it. */
  ghost predicate PlacedAt(img: seq<byte>, fw: FirmwareHeader, i: nat, a: nat)
    requires ReadsFrom(fw, img) && i < |fw.parts| && a > 0
  {
    var blobs, first := BlobSeq(img, fw), fw.FirstPartitionOffset();
    Start(Sizes(blobs), i, first, a) == fw.parts[i].offset && HoldsBlob(img, blobs, i, first, a)
  }

  lemma CanonicalPlaced(img: seq<byte>, fw: FirmwareHeader, i: nat, a: nat)
    requires ReadsFrom(fw, img) && i < |fw.parts| && GapZero(img, fw, i) && a > 0 && LaidOut(fw, a)
    ensures PlacedAt(img, fw, i, a)
  {
    var blobs := BlobSeq(img, fw);
    LayoutMatches(fw, Sizes(blobs), a, i);
    assert blobs[i] == BlobIn(img, fw.parts[i]);
  }

  lemma CanonicalOffsets(img: seq<byte>, fw: FirmwareHeader)
    requires ReadsFrom(fw, img) && CanonicalLayout(img, fw)
    ensures End(Sizes(BlobSeq(img, fw)), |fw.parts|, fw.FirstPartitionOffset(), DerivedAlign(fw)) == |img|
    ensures forall i :: 0 <= i < |fw.parts| ==> PlacedAt(img, fw, i, DerivedAlign(fw))
  {
    var b: nat :| IsCandidate(b) && LaidOut(fw, b);
    DerivedAlignKeepsLayout(fw, b);
    LayoutMatches(fw, Sizes(BlobSeq(img, fw)), DerivedAlign(fw), |fw.parts|);
    forall i | 0 <= i < |fw.parts|
      ensures PlacedAt(img, fw, i, DerivedAlign(fw))
    {
      CanonicalPlaced(img, fw, i, DerivedAlign(fw));
    }
  }

  /** Pack rebuilds partition i exactly when it is canonical. */
  lemma RebuiltIff(img: seq<byte>, fw: FirmwareHeader, raw: bool, i: nat)
    requires ReadsFrom(fw, img) && i < |fw.parts| && |img| <= U32_MAX as nat
    ensures Rebuilt(img, fw, raw, i) == Ok(BlobAt(img, fw, i)) <==> CanonicalPart(img, fw, raw, i)
  {
    var file := PayloadOf(BlobAt(img, fw, LastSharing(img, fw, raw, i)), raw);
    if file.Some? {
      RebuildIff(fw.parts[i].id, BlobAt(img, fw, i), raw, file.value);
    }
  }

  lemma CanonicalBlobs(img: seq<byte>, fw: FirmwareHeader, raw: bool)
    requires ReadsFrom(fw, img) && CanonicalButTotal(img, fw, raw)
    ensures AllBuild(RebuiltAll(img, fw, raw)) && BuiltBlobs(RebuiltAll(img, fw, raw)) == BlobSeq(img, fw)
  {
    var outs := RebuiltAll(img, fw, raw);
    forall i | 0 <= i < |outs|
      ensures outs[i] == Ok(BlobSeq(img, fw)[i])
    {
      RebuiltIff(img, fw, raw, i);
    }
  }

  lemma CanonicalTable(img: seq<byte>, fw: FirmwareHeader)
    requires ReadsFrom(fw, img) && CanonicalLayout(img, fw)
    ensures RebuiltTable(fw, BlobSeq(img, fw)) == fw.parts
    ensures |img| == |RebuiltLayout(fw, BlobSeq(img, fw))|
    ensures forall k :: fw.FirstPartitionOffset() <= k < |img| ==> img[k] == RebuiltLayout(fw, BlobSeq(img, fw))[k]
  {
    var blobs := BlobSeq(img, fw);
    CanonicalOffsets(img, fw);
    forall i | 0 <= i < |blobs|
      ensures RebuiltEntry(fw, blobs, i) == fw.parts[i]
      ensures HoldsBlob(img, blobs, i, fw.FirstPartitionOffset(), DerivedAlign(fw))
    {
      assert PlacedAt(img, fw, i, DerivedAlign(fw)) && |blobs[i]| == fw.parts[i].size;
    }
    LaidUniqueAll(img, blobs, fw.FirstPartitionOffset(), DerivedAlign(fw));
  }

  lemma CanonicalRegions(img: seq<byte>, lay: seq<byte>, total: seq<byte>, tbl: nat, table: seq<byte>)
    requires |img| == |lay| && tbl + |table| <= |img| && TotalStands(img, total, tbl, tbl + |table|)
    requires img[tbl..tbl + |table|] == table && AllZero(img, FW_CHKSUM_OFF + 2, tbl) && AllZero(lay, 0, tbl)
    requires forall k :: tbl + |table| <= k < |img| ==> img[k] == lay[k]
    ensures Regions(img, lay, total, tbl, table)
  {
    assert forall k :: tbl <= k < tbl + |table| ==> img[k] == img[tbl..tbl + |table|][k - tbl];
  }

  lemma CanonicalShows(img: seq<byte>, fw: FirmwareHeader, blobs: seq<seq<byte>>, total: seq<byte>)
    requires fw.FirstPartitionOffset() <= |img|
    requires |img| == |RebuiltLayout(fw, blobs)|
    requires forall k :: fw.FirstPartitionOffset() <= k < |img| ==> img[k] == RebuiltLayout(fw, blobs)[k]
    requires img[fw.headerSize..fw.FirstPartitionOffset()] == Table(fw.parts)
    requires TotalStands(img, total, fw.headerSize, fw.FirstPartitionOffset())
    requires AllZero(img, FW_CHKSUM_OFF + 2, fw.headerSize)
    ensures Regions(img, RebuiltLayout(fw, blobs), total, fw.headerSize, Table(fw.parts))
  {
    LaidFront(blobs, fw.FirstPartitionOffset(), DerivedAlign(fw));
    CanonicalRegions(img, RebuiltLayout(fw, blobs), total, fw.headerSize, Table(fw.parts));
  }

  /** Such an image survives, whatever its total-size field reads as. */
  lemma CanonicalButTotalIsReproduced(img: seq<byte>, fw: FirmwareHeader, raw: bool)
    requires Parse(img) == Ok(fw) && ReadsFrom(fw, img) && CanonicalButTotal(img, fw, raw)
    ensures Reproduced(img, raw)
  {
    CanonicalBlobs(img, fw, raw);
    CanonicalTable(img, fw);
    ParsedBytes(img);
    CanonicalShows(img, fw, BlobSeq(img, fw), Le32(AsU32(|img|)));
  }

  lemma CanonicalTotalStands(img: seq<byte>, fw: FirmwareHeader)
    requires Parse(img) == Ok(fw) && fw.totalSize == |img|
    ensures TotalStands(img, Le32(AsU32(|img|)), fw.headerSize, fw.FirstPartitionOffset())
  {
    Rd32Iff(img, 0x1C, |img|);
    assert forall k :: 0x1C <= k < 0x20 ==> img[k] == img[0x1C..0x20][k - 0x1C];
  }

  lemma CanonicalRoundTrips(img: seq<byte>, raw: bool, force: bool, out: Directory)
    requires Canonical(img, raw) && (force || out == map[])
    ensures RoundTrips(img, raw, force, out)
  {
    var fw := Parse(img).value;
    CanonicalTotalStands(img, fw);
    CanonicalButTotalIsReproduced(img, fw, raw);
    ReproducedIff(img, raw, force, out);
  }

  // ----- images that round-trip are canonical

  /** Entry i of a table describes blob i of a layout. */
  ghost predicate Describes(fw: FirmwareHeader, blobs: seq<seq<byte>>, i: nat, a: nat)
    requires i < |fw.parts| && i < |blobs| && a > 0
  {
    && fw.parts[i].offset == Start(Sizes(blobs), i, fw.FirstPartitionOffset(), a)
    && fw.parts[i].size == |blobs[i]|
  }

  lemma DescribedEnd(fw: FirmwareHeader, blobs: seq<seq<byte>>, n: nat, a: nat)
    requires a > 0 && |blobs| == |fw.parts| && n <= |blobs|
    requires forall i :: 0 <= i < |blobs| ==> Describes(fw, blobs, i, a)
    ensures PreviousEnd(fw, n) == End(Sizes(blobs), n, fw.FirstPartitionOffset(), a)
  {
    if n > 0 {
      assert Describes(fw, blobs, n - 1, a);
    }
  }

  lemma DescribedLayout(fw: FirmwareHeader, blobs: seq<seq<byte>>, img: seq<byte>, a: nat)
    requires IsCandidate(a) && |blobs| == |fw.parts|
    requires forall i :: 0 <= i < |blobs| ==> Describes(fw, blobs, i, a)
    requires forall i :: 0 <= i < |blobs| ==> HoldsBlob(img, blobs, i, fw.FirstPartitionOffset(), a)
    requires |img| == End(Sizes(blobs), |blobs|, fw.FirstPartitionOffset(), a)
    ensures CanonicalLayout(img, fw)
  {
    DescribedEnd(fw, blobs, |blobs|, a);
    forall i | 0 <= i < |blobs|
      ensures GapZero(img, fw, i) && LaidOutAt(fw, a, i)
    {
      DescribedEnd(fw, blobs, i, a);
      assert Describes(fw, blobs, i, a) && HoldsBlob(img, blobs, i, fw.FirstPartitionOffset(), a);
    }
    assert LaidOut(fw, a);
  }

  /** The table of a packed image lists its blobs, and each slice it points at is that blob. */
  lemma PackedTable(m: Manifest, outs: Outcomes, img: seq<byte>, blobs: seq<seq<byte>>, fw: FirmwareHeader, i: nat)
    requires Packs(m, outs, img, blobs) && FW_CHKSUM_OFF + 2 <= FirstOffset(m) && i < |blobs|
    requires fw.parts == Entries(m, blobs) && FirstOffset(m) == fw.FirstPartitionOffset()
    ensures Describes(fw, blobs, i, m.firmware.align) && fw.parts[i].id == m.partitions[i].id
    ensures Fits(img, fw.parts[i]) && BlobIn(img, fw.parts[i]) == blobs[i]
    ensures HoldsBlob(img, blobs, i, FirstOffset(m), m.firmware.align)
  {
    PackedBlobs(m, outs, img, blobs, i);
    PackedHolds(m, outs, img, blobs, i);
    assert fw.parts[i] == EntryOf(m, blobs, i);
  }

  lemma PackedDescribed(m: Manifest, outs: Outcomes, img: seq<byte>, blobs: seq<seq<byte>>, fw: FirmwareHeader)
    requires Packs(m, outs, img, blobs) && FW_CHKSUM_OFF + 2 <= FirstOffset(m) && IsCandidate(m.firmware.align)
    requires fw.parts == Entries(m, blobs) && FirstOffset(m) == fw.FirstPartitionOffset()
    requires |img| == End(Sizes(blobs), |blobs|, FirstOffset(m), m.firmware.align)
    ensures CanonicalLayout(img, fw)
  {
    var first, a := fw.FirstPartitionOffset(), m.firmware.align as nat;
    forall i | 0 <= i < |blobs|
      ensures Describes(fw, blobs, i, a) && HoldsBlob(img, blobs, i, first, a)
    {
      PackedTable(m, outs, img, blobs, fw, i);
    }
    DescribedLayout(fw, blobs, img, a);
  }

  /** Any packed image whose alignment is at most 0x40 has a canonical header and layout. */
  lemma PackedIsCanonical(m: Manifest, outs: Outcomes, img: seq<byte>, blobs: seq<seq<byte>>, fw: FirmwareHeader)
    requires Packs(m, outs, img, blobs) && FW_CHKSUM_OFF + 2 <= m.firmware.headerSize && MIN_IMAGE_LEN <= |img|
    requires IsCandidate(m.firmware.align) && Parse(img) == Ok(fw) && blobs != []
    ensures fw.parts == Entries(m, blobs) && CanonicalHeader(img, fw) && CanonicalLayout(img, fw)
  {
    PackedParses(m, outs, img, blobs);
    SealedHeader(m, blobs);
    SealedIsValid(m, blobs);
    PackedBlobs(m, outs, img, blobs, 0);
    PackedDescribed(m, outs, img, blobs, fw);
  }

  lemma RepackedIsCanonical(img: seq<byte>, fw: FirmwareHeader, raw: bool, out: Directory, splits: seq<Split>)
    requires Parse(img) == Ok(fw) && ReadsFrom(fw, img) && SplitsAre(img, fw, raw, splits)
    requires FW_CHKSUM_OFF + 2 <= fw.headerSize && Pack(ManifestOf(fw, splits), WriteAll(out, splits)) == Ok(img)
    ensures CanonicalHeader(img, fw) && CanonicalLayout(img, fw)
    ensures forall i :: 0 <= i < |fw.parts| ==> CanonicalPart(img, fw, raw, i)
  {
    var m := ManifestOf(fw, splits);
    var outs := OutcomesOf(m, WriteAll(out, splits));
    var blobs := Blobs(outs, |outs|, FirstOffset(m), m.firmware.align).value;
    PackedIsCanonical(m, outs, img, blobs, fw);
    forall i | 0 <= i < |fw.parts|
      ensures CanonicalPart(img, fw, raw, i)
    {
      PackedTable(m, outs, img, blobs, fw, i);
      PackedBlobs(m, outs, img, blobs, i);
      UnpackedOutcome(img, fw, raw, out, splits, i);
      RebuiltIff(img, fw, raw, i);
    }
  }

  lemma RoundTripIsCanonical(img: seq<byte>, raw: bool, force: bool, out: Directory)
    requires RoundTrips(img, raw, force, out) && FW_CHKSUM_OFF + 2 <= Parse(img).value.headerSize
    ensures Canonical(img, raw)
  {
    var fw := Parse(img).value;
    ParsedReads(img, fw);
    ParsedRoundTripIff(img, fw, raw, force, out);
    var splits := Collect(SplitsOf(img, fw, raw), |fw.parts|).value;
    CollectedSplits(img, fw, raw, splits);
    RepackedIsCanonical(img, fw, raw, out, splits);
  }

  /** The partition table leaves the fixed header and the corrective word alone. */
  predicate TablePastSlot(img: seq<byte>) {
    match Parse(img) case Ok(fw) => FW_CHKSUM_OFF + 2 <= fw.headerSize case Err(_) => true
  }

  /**
   * The round trip, in either mode and for any number of partitions. Exactly the reproduced images survive,
   * whatever the header size; canonical images always do; and once the table starts past the corrective word
   * no others do.
   */
  lemma RoundTripIff(img: seq<byte>, raw: bool, force: bool, out: Directory)
    requires force || out == map[]
    ensures RoundTrips(img, raw, force, out) <==> Reproduced(img, raw)
    ensures Canonical(img, raw) ==> RoundTrips(img, raw, force, out)
    ensures TablePastSlot(img) ==> (RoundTrips(img, raw, force, out) <==> Canonical(img, raw))
  {
    ReproducedIff(img, raw, force, out);
    if Canonical(img, raw) {
      CanonicalRoundTrips(img, raw, force, out);
    }
    if TablePastSlot(img) && RoundTrips(img, raw, force, out) {
      RoundTripIsCanonical(img, raw, force, out);
    }
  }
}
