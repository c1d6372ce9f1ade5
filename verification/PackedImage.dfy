/** What a packed image contains: its layout, its nested checksums and the table that reads back. */
module PackedImage {
  import opened Bytes
  import opened Errors
  import opened Checksum
  import opened Header
  import opened Layout
  import opened ManifestModel
  import opened Packer
  import BuildTag
  import CksmContainer
  import UImageContainer

  // ----- the laid-out blobs

  lemma SizesPrefix(blobs: seq<seq<byte>>, i: nat, first: nat, align: nat)
    requires i <= |blobs| && align > 0
    ensures End(Sizes(blobs[..i]), i, first, align) == End(Sizes(blobs), i, first, align)
    ensures Start(Sizes(blobs[..i]), i, first, align) == Start(Sizes(blobs), i, first, align)
  {
    assert Sizes(blobs[..i])[..i] == Sizes(blobs)[..i];
    EndAgree(Sizes(blobs[..i]), Sizes(blobs), i, first, align);
  }

  lemma LaidLength(blobs: seq<seq<byte>>, n: nat, first: nat, align: nat)
    requires align > 0 && n <= |blobs|
    ensures |Laid(blobs[..n], first, align)| == End(Sizes(blobs), n, first, align)
  {
    SizesPrefix(blobs, n, first, align);
  }

  lemma LaidUnfold(blobs: seq<seq<byte>>, first: nat, align: nat)
    requires align > 0 && blobs != []
    ensures var n := |blobs| - 1;
            var s := Sizes(blobs);
            && End(s, n, first, align) <= Start(s, n, first, align)
            && |Laid(blobs[..n], first, align)| == End(s, n, first, align)
            && Laid(blobs, first, align) == Laid(blobs[..n], first, align)
                 + Zeros(Start(s, n, first, align) - End(s, n, first, align)) + blobs[n]
  {
    LaidLength(blobs, |blobs| - 1, first, align);
  }

  lemma {:induction false} LaidPrefix(blobs: seq<seq<byte>>, i: nat, first: nat, align: nat)
    requires align > 0 && i <= |blobs|
    ensures Laid(blobs[..i], first, align) <= Laid(blobs, first, align)
  {
    if i == |blobs| {
      assert blobs[..i] == blobs;
    } else {
      var init := blobs[..|blobs| - 1];
      LaidPrefix(init, i, first, align);
      assert init[..i] == blobs[..i];
      LaidExtends(blobs, blobs[..i], first, align);
    }
  }

  lemma LaidExtends(blobs: seq<seq<byte>>, front: seq<seq<byte>>, first: nat, align: nat)
    requires align > 0 && blobs != []
    requires Laid(front, first, align) <= Laid(blobs[..|blobs| - 1], first, align)
    ensures Laid(front, first, align) <= Laid(blobs, first, align)
  {
    LaidUnfold(blobs, first, align);
    PrefixOfPrefix(Laid(front, first, align), Laid(blobs[..|blobs| - 1], first, align), Laid(blobs, first, align));
  }

  lemma PrefixOfPrefix(a: seq<byte>, b: seq<byte>, c: seq<byte>)
    requires a <= b <= c
    ensures a <= c
  {
  }

  ghost predicate HoldsBlob(r: seq<byte>, blobs: seq<seq<byte>>, i: nat, first: nat, align: nat)
    requires align > 0 && i < |blobs|
  {
    var e, p := End(Sizes(blobs), i, first, align), Start(Sizes(blobs), i, first, align);
    p + |blobs[i]| <= |r| && r[p..p + |blobs[i]|] == blobs[i] && AllZero(r, e, p)
  }

  /** Each blob stands whole at its start, and nothing but zeros between it and what comes before. */
  lemma LaidAt(blobs: seq<seq<byte>>, i: nat, first: nat, align: nat)
    requires align > 0 && i < |blobs|
    ensures HoldsBlob(Laid(blobs, first, align), blobs, i, first, align)
  {
    var front := blobs[..i + 1];
    LaidPrefix(blobs, i + 1, first, align);
    LaidLast(front, first, align);
    FrontEnds(blobs, i, first, align);
    PrefixHolds(Laid(front, first, align), Laid(blobs, first, align), front, blobs, i, first, align);
  }

  lemma FrontEnds(blobs: seq<seq<byte>>, i: nat, first: nat, align: nat)
    requires align > 0 && i < |blobs|
    ensures End(Sizes(blobs[..i + 1]), i, first, align) == End(Sizes(blobs), i, first, align)
  {
    assert Sizes(blobs[..i + 1])[..i] == Sizes(blobs)[..i];
    EndAgree(Sizes(blobs[..i + 1]), Sizes(blobs), i, first, align);
  }

  lemma LaidLast(blobs: seq<seq<byte>>, first: nat, align: nat)
    requires align > 0 && blobs != []
    ensures HoldsBlob(Laid(blobs, first, align), blobs, |blobs| - 1, first, align)
  {
    var n := |blobs| - 1;
    var e, p := End(Sizes(blobs), n, first, align), Start(Sizes(blobs), n, first, align);
    LaidUnfold(blobs, first, align);
    LastShown(Laid(blobs[..n], first, align), blobs[n], Laid(blobs, first, align), e, p);
    HoldsWhen(Laid(blobs, first, align), blobs, n, first, align, e, p);
  }

  lemma HoldsWhen(r: seq<byte>, blobs: seq<seq<byte>>, i: nat, first: nat, align: nat, e: nat, p: nat)
    requires align > 0 && i < |blobs| && e == End(Sizes(blobs), i, first, align)
    requires p == Start(Sizes(blobs), i, first, align)
    requires p + |blobs[i]| <= |r| && r[p..p + |blobs[i]|] == blobs[i] && AllZero(r, e, p)
    ensures HoldsBlob(r, blobs, i, first, align)
  {
  }

  lemma LastShown(pre: seq<byte>, b: seq<byte>, r: seq<byte>, e: nat, p: nat)
    requires |pre| == e <= p && r == pre + Zeros(p - e) + b
    ensures p + |b| <= |r| && r[p..p + |b|] == b && AllZero(r, e, p)
  {
    AppendedStands(pre, p - e, b);
  }

  lemma AppendedStands(pre: seq<byte>, gap: nat, b: seq<byte>)
    ensures var r, p := pre + Zeros(gap) + b, |pre| + gap;
            |r| == p + |b| && r[p..p + |b|] == b && AllZero(r, |pre|, p) && pre <= r
  {
    var r := pre + Zeros(gap) + b;
    assert forall k :: |pre| <= k < |pre| + gap ==> r[k] == Zeros(gap)[k - |pre|];
  }

  lemma PrefixHolds(f: seq<byte>, r: seq<byte>, front: seq<seq<byte>>, blobs: seq<seq<byte>>, i: nat,
                    first: nat, align: nat)
    requires align > 0 && i < |front| && i < |blobs| && front[i] == blobs[i] && f <= r
    requires End(Sizes(front), i, first, align) == End(Sizes(blobs), i, first, align)
    requires HoldsBlob(f, front, i, first, align)
    ensures HoldsBlob(r, blobs, i, first, align)
  {
  }

  lemma LaidFront(blobs: seq<seq<byte>>, first: nat, align: nat)
    requires align > 0
    ensures first <= |Laid(blobs, first, align)| && AllZero(Laid(blobs, first, align), 0, first)
  {
  }

  /** Any byte string with the blobs in place and zeros in the gaps is the laid-out image from first on. */
  lemma {:induction false} LaidUnique(r: seq<byte>, blobs: seq<seq<byte>>, first: nat, align: nat, k: nat)
    requires align > 0 && first <= k < End(Sizes(blobs), |blobs|, first, align) <= |r|
    requires forall i :: 0 <= i < |blobs| ==> HoldsBlob(r, blobs, i, first, align)
    ensures r[k] == Laid(blobs, first, align)[k]
  {
    var n := |blobs| - 1;
    SizesPrefix(blobs, n, first, align);
    if k < End(Sizes(blobs), n, first, align) {
      HoldsInit(r, blobs, first, align);
      LaidUnique(r, blobs[..n], first, align, k);
      LaidUnfold(blobs, first, align);
    } else {
      LaidUniqueLast(r, blobs, first, align, k);
    }
  }

  lemma HoldsInit(r: seq<byte>, blobs: seq<seq<byte>>, first: nat, align: nat)
    requires align > 0 && blobs != []
    requires forall i :: 0 <= i < |blobs| ==> HoldsBlob(r, blobs, i, first, align)
    ensures var init := blobs[..|blobs| - 1];
            forall i :: 0 <= i < |init| ==> HoldsBlob(r, init, i, first, align)
  {
    var init := blobs[..|blobs| - 1];
    forall i | 0 <= i < |init|
      ensures HoldsBlob(r, init, i, first, align)
    {
      assert HoldsBlob(r, blobs, i, first, align);
      assert Sizes(init)[..i] == Sizes(blobs)[..i];
      EndAgree(Sizes(init), Sizes(blobs), i, first, align);
    }
  }

  lemma LaidUniqueLast(r: seq<byte>, blobs: seq<seq<byte>>, first: nat, align: nat, k: nat)
    requires align > 0 && blobs != [] && HoldsBlob(r, blobs, |blobs| - 1, first, align)
    requires End(Sizes(blobs), |blobs| - 1, first, align) <= k < End(Sizes(blobs), |blobs|, first, align) <= |r|
    ensures r[k] == Laid(blobs, first, align)[k]
  {
    LaidLast(blobs, first, align);
    SameWhereHeld(r, Laid(blobs, first, align), blobs, |blobs| - 1, first, align, k);
  }

  /** Two byte strings that hold the same blob agree from the end of the previous one to its own end. */
  lemma SameWhereHeld(r: seq<byte>, s: seq<byte>, blobs: seq<seq<byte>>, i: nat, first: nat, align: nat, k: nat)
    requires align > 0 && i < |blobs| && HoldsBlob(r, blobs, i, first, align) && HoldsBlob(s, blobs, i, first, align)
    requires End(Sizes(blobs), i, first, align) <= k < Start(Sizes(blobs), i, first, align) + |blobs[i]|
    ensures k < |r| && k < |s| && r[k] == s[k]
  {
    SameWhereShown(r, s, blobs[i], End(Sizes(blobs), i, first, align), Start(Sizes(blobs), i, first, align), k);
  }

  lemma SameWhereShown(r: seq<byte>, s: seq<byte>, b: seq<byte>, e: nat, p: nat, k: nat)
    requires p + |b| <= |r| && r[p..p + |b|] == b && AllZero(r, e, p)
    requires p + |b| <= |s| && s[p..p + |b|] == b && AllZero(s, e, p)
    requires e <= k < p + |b|
    ensures r[k] == s[k]
  {
    if p <= k {
      assert r[k] == r[p..p + |b|][k - p];
      assert s[k] == s[p..p + |b|][k - p];
    }
  }

  // ----- the sealed image

  /** The manifest packs, given what its partitions build to, and these are its image and its blobs. */
  ghost predicate Packs(m: Manifest, outs: Outcomes, img: seq<byte>, blobs: seq<seq<byte>>) {
    && Covers(m, outs) && Assemble(m, outs) == Ok(img)
    && Blobs(outs, |outs|, FirstOffset(m), m.firmware.align) == Ok(blobs)
  }

  lemma {:induction false} BlobsAre(outs: Outcomes, n: nat, i: nat, first: nat, align: nat)
    requires align > 0 && i < n <= |outs| && Blobs(outs, n, first, align).Ok?
    ensures var blobs := Blobs(outs, n, first, align).value;
            outs[i] == Ok(blobs[i]) && Start(Sizes(blobs), i, first, align) + |blobs[i]| <= U32_MAX as nat
  {
    var init := Blobs(outs, n - 1, first, align).value;
    SizesSnoc(init, outs[n - 1].value, first, align);
    if i == n - 1 {
    } else {
      BlobsAre(outs, n - 1, i, first, align);
    }
  }

  ghost predicate Untouched(m: Manifest, k: nat) {
    FIXED_LEN + 2 <= k && !(m.firmware.headerSize as nat <= k < FirstOffset(m))
  }

  ghost predicate Sealable(m: Manifest, blobs: seq<seq<byte>>) {
    && m.firmware.align > 0 && |blobs| == |m.partitions|
    && FW_CHKSUM_OFF + 2 <= End(Sizes(blobs), |blobs|, FirstOffset(m), m.firmware.align)
  }

  /** Outside the fixed header, the corrective word and the table, sealing leaves the layout alone. */
  lemma SealedBytes(m: Manifest, blobs: seq<seq<byte>>)
    requires Sealable(m, blobs)
    ensures var r, lay := Sealed(m, blobs), Laid(blobs, FirstOffset(m), m.firmware.align);
            forall k :: 0 <= k < |r| && Untouched(m, k) ==> r[k] == lay[k]
  {
  }

  lemma SealSlices(lay: seq<byte>, header: seq<byte>, tbl: nat, table: seq<byte>)
    requires |header| == FIXED_LEN && FW_CHKSUM_OFF + 2 <= tbl && tbl + |table| <= |lay| && AllZero(lay, 0, tbl)
    ensures var r := Seal(lay, header, tbl, table);
            HasHeader(r, header, tbl, table)
  {
  }

  lemma SealIsValid(lay: seq<byte>, header: seq<byte>, tbl: nat, table: seq<byte>)
    requires |header| <= |lay| && tbl + |table| <= |lay| && FW_CHKSUM_OFF + 2 <= |lay|
    ensures IsValid(Seal(lay, header, tbl, table))
  {
    assert FW_CHKSUM_OFF % 2 == 0;
    SolvedIsValid(Overlay(Overlay(lay, 0, header), tbl, table), FW_CHKSUM_OFF);
  }

  ghost predicate HasHeader(r: seq<byte>, header: seq<byte>, tbl: nat, table: seq<byte>) {
    && FIXED_LEN <= |r| && tbl + |table| <= |r|
    && r[..FIXED_LEN] == header && r[tbl..tbl + |table|] == table && AllZero(r, FW_CHKSUM_OFF + 2, tbl)
  }

  /** With the table beyond the corrective word, header and table stand as written. */
  lemma SealedHeader(m: Manifest, blobs: seq<seq<byte>>)
    requires Sealable(m, blobs) && FW_CHKSUM_OFF + 2 <= m.firmware.headerSize
    ensures var r := Sealed(m, blobs);
            HasHeader(r, HeaderFor(m, |r|), m.firmware.headerSize, Table(Entries(m, blobs)))
  {
    var lay := Laid(blobs, FirstOffset(m), m.firmware.align);
    LaidFront(blobs, FirstOffset(m), m.firmware.align);
    SealSlices(lay, HeaderFor(m, |lay|), m.firmware.headerSize, Table(Entries(m, blobs)));
  }

  lemma SealedIsValid(m: Manifest, blobs: seq<seq<byte>>)
    requires Sealable(m, blobs)
    ensures IsValid(Sealed(m, blobs))
  {
    var lay := Laid(blobs, FirstOffset(m), m.firmware.align);
    SealIsValid(lay, HeaderFor(m, |lay|), m.firmware.headerSize, Table(Entries(m, blobs)));
  }

  lemma SealedHolds(m: Manifest, blobs: seq<seq<byte>>, i: nat)
    requires Sealable(m, blobs) && FW_CHKSUM_OFF + 2 <= FirstOffset(m) && i < |blobs|
    ensures HoldsBlob(Sealed(m, blobs), blobs, i, FirstOffset(m), m.firmware.align)
  {
    var first, a := FirstOffset(m), m.firmware.align as nat;
    var r, lay := Sealed(m, blobs), Laid(blobs, first, a);
    LaidAt(blobs, i, first, a);
    SealedBytes(m, blobs);
    forall k | first <= k < |r|
      ensures r[k] == lay[k]
    {
      assert Untouched(m, k);
    }
    SameFromFirst(lay, r, blobs, i, first, a);
  }

  lemma SameFromFirst(f: seq<byte>, r: seq<byte>, blobs: seq<seq<byte>>, i: nat, first: nat, align: nat)
    requires align > 0 && i < |blobs| && |f| == |r| && HoldsBlob(f, blobs, i, first, align)
    requires forall k :: first <= k < |r| ==> r[k] == f[k]
    ensures HoldsBlob(r, blobs, i, first, align)
  {
  }

  /** Each partition's blob is what it builds to, and ends below 4 GiB. */
  lemma PackedBlobs(m: Manifest, outs: Outcomes, img: seq<byte>, blobs: seq<seq<byte>>, i: nat)
    requires Packs(m, outs, img, blobs) && i < |blobs|
    ensures |blobs| == |outs| && outs[i] == Ok(blobs[i])
    ensures Offset(m, blobs, i) + |blobs[i]| <= U32_MAX as nat
    ensures |img| == End(Sizes(blobs), |blobs|, FirstOffset(m), m.firmware.align)
  {
    BlobsAre(outs, |outs|, i, FirstOffset(m), m.firmware.align);
  }

  /** Blobs come in order, the gap before each shorter than the alignment, and nothing follows the last. */
  lemma PackedLayout(m: Manifest, outs: Outcomes, img: seq<byte>, blobs: seq<seq<byte>>, i: nat)
    requires Packs(m, outs, img, blobs) && i < |blobs|
    ensures OrderedAt(blobs, |img|, i, FirstOffset(m), m.firmware.align)
  {
    PackedBlobs(m, outs, img, blobs, i);
    Ordered(blobs, |img|, i, FirstOffset(m), m.firmware.align);
  }

  ghost predicate OrderedAt(blobs: seq<seq<byte>>, total: nat, i: nat, first: nat, align: nat)
    requires align > 0 && i < |blobs|
  {
    var s := Sizes(blobs);
    var e, off := End(s, i, first, align), Start(s, i, first, align);
    && first <= e <= off < e + align && IsMultiple(off - first, align)
    && (if i + 1 == |blobs| then off + |blobs[i]| == total else off + |blobs[i]| <= Start(s, i + 1, first, align))
  }

  lemma Ordered(blobs: seq<seq<byte>>, total: nat, i: nat, first: nat, align: nat)
    requires align > 0 && i < |blobs| && total == End(Sizes(blobs), |blobs|, first, align)
    ensures OrderedAt(blobs, total, i, first, align)
  {
    StartsOrdered(Sizes(blobs), i, i + 1, first, align);
    StartAligned(Sizes(blobs), i, first, align);
  }

  /** When partitions start past the corrective word, each blob is in the image unharmed, zeros before it. */
  lemma PackedHolds(m: Manifest, outs: Outcomes, img: seq<byte>, blobs: seq<seq<byte>>, i: nat)
    requires Packs(m, outs, img, blobs) && FW_CHKSUM_OFF + 2 <= FirstOffset(m) && i < |blobs|
    ensures HoldsBlob(img, blobs, i, FirstOffset(m), m.firmware.align)
  {
    SealedHolds(m, blobs, i);
  }

  lemma EntryFits(m: Manifest, outs: Outcomes, img: seq<byte>, blobs: seq<seq<byte>>, i: nat)
    requires Packs(m, outs, img, blobs) && FW_CHKSUM_OFF + 2 <= FirstOffset(m) && i < |blobs|
    ensures Fits(img, EntryOf(m, blobs, i))
  {
    PackedBlobs(m, outs, img, blobs, i);
    PackedHolds(m, outs, img, blobs, i);
  }

  lemma PackedLength(m: Manifest, outs: Outcomes, img: seq<byte>, blobs: seq<seq<byte>>)
    requires Packs(m, outs, img, blobs) && blobs != []
    ensures |img| <= U32_MAX as nat
  {
    PackedBlobs(m, outs, img, blobs, |blobs| - 1);
  }

  lemma EntriesFit(m: Manifest, outs: Outcomes, img: seq<byte>, blobs: seq<seq<byte>>)
    requires Packs(m, outs, img, blobs) && FW_CHKSUM_OFF + 2 <= FirstOffset(m) && blobs != []
    ensures |img| <= U32_MAX as nat && forall i :: 0 <= i < |blobs| ==> Fits(img, EntryOf(m, blobs, i))
  {
    PackedLength(m, outs, img, blobs);
    forall i | 0 <= i < |blobs|
      ensures Fits(img, EntryOf(m, blobs, i))
    {
      EntryFits(m, outs, img, blobs, i);
    }
  }

  /** The header of a packed image parses back to the manifest's fields and the computed table. */
  lemma PackedParses(m: Manifest, outs: Outcomes, img: seq<byte>, blobs: seq<seq<byte>>)
    requires Packs(m, outs, img, blobs) && FW_CHKSUM_OFF + 2 <= m.firmware.headerSize && MIN_IMAGE_LEN <= |img|
    requires blobs != []
    ensures |img| <= U32_MAX as nat
    ensures Parse(img) == Ok(FirmwareHeader(m.firmware.version, m.firmware.headerSize, m.firmware.chksumMethod,
                                            Rd32(img, 0x24), |img|, Entries(m, blobs)))
  {
    EntriesFit(m, outs, img, blobs);
    SealedHeader(m, blobs);
    SealedParses(m, img, blobs);
  }

  lemma SealedParses(m: Manifest, img: seq<byte>, blobs: seq<seq<byte>>)
    requires m.firmware.align > 0 && |blobs| == |m.partitions| && MIN_IMAGE_LEN <= |img| <= U32_MAX as nat
    requires HasHeader(img, HeaderFor(m, |img|), m.firmware.headerSize, Table(Entries(m, blobs)))
    requires forall i :: 0 <= i < |blobs| ==> Fits(img, EntryOf(m, blobs, i))
    ensures Parse(img) == Ok(FirmwareHeader(m.firmware.version, m.firmware.headerSize, m.firmware.chksumMethod,
                                            Rd32(img, 0x24), |img|, Entries(m, blobs)))
  {
    var f := m.firmware;
    ParseWritten(img, f.version, f.headerSize, |img|, f.chksumMethod, Entries(m, blobs));
  }

  /** The corrective words nest: the outer one and those inside the partitions all hold at once. */
  lemma NestedChecksums(m: Manifest, dir: Directory, img: seq<byte>, blobs: seq<seq<byte>>, i: nat)
    requires Accepted(m) && Packs(m, OutcomesOf(m, dir), img, blobs)
    requires FW_CHKSUM_OFF + 2 <= FirstOffset(m) && i < |blobs|
    ensures IsValid(img)
    ensures HoldsBlob(img, blobs, i, FirstOffset(m), m.firmware.align)
    ensures m.partitions[i].container.Cksm? ==> IsValid(blobs[i])
    ensures (var p := m.partitions[i];
             p.container.Raw? && p.nvtTagOffset.Some? && p.nvtTagOffset.value % 2 == 0) ==> IsValid(blobs[i])
  {
    SealedIsValid(m, blobs);
    PackedBlobs(m, OutcomesOf(m, dir), img, blobs, i);
    PackedHolds(m, OutcomesOf(m, dir), img, blobs, i);
    var p := m.partitions[i];
    assert BlobOf(m, dir, i) == Ok(blobs[i]);
    BlobIsValid(p, dir[p.file], blobs[i]);
  }

  lemma BlobIsValid(p: Partition, payload: seq<byte>, blob: seq<byte>)
    requires HasTable(p) && BuildBlob(p, payload) == Ok(blob)
    ensures p.container.Cksm? ==> IsValid(blob)
    ensures p.container.Raw? && p.nvtTagOffset.Some? && p.nvtTagOffset.value % 2 == 0 ==> IsValid(blob)
  {
    match p.container {
      case Raw =>
        if p.nvtTagOffset.Some? && p.nvtTagOffset.value % 2 == 0 {
          BuildTag.FixedIsValid(payload, p.nvtTagOffset.value);
        }
      case Cksm =>
        var h := CksmHeaderOf(p.cksm.value, |payload|);
        SolvedIsValid(CksmContainer.Unsolved(h, payload), CksmContainer.CKSM_CHKSUM_OFF);
      case Uimage =>
    }
  }

  // ----- when packing succeeds

  ghost predicate EndsBelow(blobs: seq<seq<byte>>, i: nat, first: nat, align: nat)
    requires align > 0 && i < |blobs|
  {
    Start(Sizes(blobs), i, first, align) + |blobs[i]| <= U32_MAX as nat
  }

  lemma NextPlace(blobs: seq<seq<byte>>, n: nat, first: nat, align: nat)
    requires align > 0 && n < |blobs|
    ensures PlaceNext(blobs[..n], first, align) == Start(Sizes(blobs), n, first, align)
  {
    SizesPrefix(blobs, n, first, align);
  }

  lemma BlobsSnoc(outs: Outcomes, init: seq<seq<byte>>, b: seq<byte>, first: nat, align: nat)
    requires align > 0 && |init| < |outs| && outs[|init|] == Ok(b)
    requires Blobs(outs, |init|, first, align) == Ok(init) && PlaceNext(init, first, align) + |b| <= U32_MAX as nat
    ensures Blobs(outs, |init| + 1, first, align) == Ok(init + [b])
  {
  }

  lemma NextBlob(outs: Outcomes, blobs: seq<seq<byte>>, n: nat, first: nat, align: nat)
    requires align > 0 && n < |blobs| == |outs| && outs[n] == Ok(blobs[n]) && EndsBelow(blobs, n, first, align)
    requires Blobs(outs, n, first, align) == Ok(blobs[..n])
    ensures Blobs(outs, n + 1, first, align) == Ok(blobs[..n + 1])
  {
    NextPlace(blobs, n, first, align);
    BlobsSnoc(outs, blobs[..n], blobs[n], first, align);
    assert blobs[..n + 1] == blobs[..n] + [blobs[n]];
  }

  ghost predicate CollectsAt(outs: Outcomes, blobs: seq<seq<byte>>, i: nat, first: nat, align: nat)
    requires align > 0 && i < |outs| == |blobs|
  {
    outs[i] == Ok(blobs[i]) && EndsBelow(blobs, i, first, align)
  }

  lemma {:induction false} BlobsCollect(outs: Outcomes, blobs: seq<seq<byte>>, n: nat, first: nat, align: nat)
    requires align > 0 && |outs| == |blobs| && n <= |blobs|
    requires forall i :: 0 <= i < n ==> CollectsAt(outs, blobs, i, first, align)
    ensures Blobs(outs, n, first, align) == Ok(blobs[..n])
  {
    if n == 0 {
    } else {
      BlobsCollect(outs, blobs, n - 1, first, align);
      assert CollectsAt(outs, blobs, n - 1, first, align);
      NextBlob(outs, blobs, n - 1, first, align);
    }
  }

  ghost predicate AllBuild(outs: Outcomes) {
    forall i :: 0 <= i < |outs| ==> outs[i].Ok?
  }

  function BuiltBlobs(outs: Outcomes): (blobs: seq<seq<byte>>)
    requires AllBuild(outs)
    ensures |blobs| == |outs| && forall i :: 0 <= i < |outs| ==> outs[i] == Ok(blobs[i])
  {
    seq(|outs|, i requires 0 <= i < |outs| => outs[i].value)
  }

  /** All blobs end below 4 GiB exactly when the image does. */
  lemma AllEndBelowIff(blobs: seq<seq<byte>>, first: nat, align: nat)
    requires align > 0 && blobs != []
    ensures (forall i :: 0 <= i < |blobs| ==> EndsBelow(blobs, i, first, align))
       <==> End(Sizes(blobs), |blobs|, first, align) <= U32_MAX as nat
  {
    var n := |blobs|;
    forall i | 0 <= i < n
      ensures Start(Sizes(blobs), i, first, align) + |blobs[i]| <= End(Sizes(blobs), n, first, align)
    {
      StartsOrdered(Sizes(blobs), i, n, first, align);
    }
    assert EndsBelow(blobs, n - 1, first, align) <==> End(Sizes(blobs), n, first, align) <= U32_MAX as nat;
  }

  /** Blobs come out together exactly when each builds and they all end below 4 GiB. */
  lemma BlobsOkIff(outs: Outcomes, first: nat, align: nat)
    requires align > 0 && outs != []
    ensures Blobs(outs, |outs|, first, align).Ok?
       <==> AllBuild(outs) && End(Sizes(BuiltBlobs(outs)), |outs|, first, align) <= U32_MAX as nat
    ensures Blobs(outs, |outs|, first, align).Ok? ==> Blobs(outs, |outs|, first, align).value == BuiltBlobs(outs)
  {
    if Blobs(outs, |outs|, first, align).Ok? {
      CollectedBuild(outs, Blobs(outs, |outs|, first, align).value, first, align);
    }
    if AllBuild(outs) {
      AllEndBelowIff(BuiltBlobs(outs), first, align);
      if End(Sizes(BuiltBlobs(outs)), |outs|, first, align) <= U32_MAX as nat {
        BuiltCollect(outs, first, align);
      }
    }
  }

  lemma CollectedBuild(outs: Outcomes, blobs: seq<seq<byte>>, first: nat, align: nat)
    requires align > 0 && Blobs(outs, |outs|, first, align) == Ok(blobs)
    ensures AllBuild(outs) && blobs == BuiltBlobs(outs)
    ensures forall i :: 0 <= i < |blobs| ==> EndsBelow(blobs, i, first, align)
  {
    forall i | 0 <= i < |outs|
      ensures outs[i] == Ok(blobs[i]) && EndsBelow(blobs, i, first, align)
    {
      BlobsAre(outs, |outs|, i, first, align);
    }
  }

  lemma BuiltCollect(outs: Outcomes, first: nat, align: nat)
    requires align > 0 && AllBuild(outs)
    requires forall i :: 0 <= i < |outs| ==> EndsBelow(BuiltBlobs(outs), i, first, align)
    ensures Blobs(outs, |outs|, first, align) == Ok(BuiltBlobs(outs))
  {
    var blobs := BuiltBlobs(outs);
    forall i | 0 <= i < |blobs|
      ensures CollectsAt(outs, blobs, i, first, align)
    {
      assert EndsBelow(blobs, i, first, align);
    }
    BlobsCollect(outs, blobs, |blobs|, first, align);
    assert blobs[..|blobs|] == blobs;
  }

  /** What a partition builds to, with the table and the file it needs. */
  ghost predicate BuildsTo(p: Partition, dir: Directory, blob: seq<byte>) {
    && p.file in dir
    && match p.container
       case Raw =>
         (match p.nvtTagOffset
          case None => blob == dir[p.file]
          case Some(t) => |dir[p.file]| >= t as int + 0x20 && blob == BuildTag.Fixed(dir[p.file], t))
       case Cksm =>
         && p.cksm.Some? && p.cksm.value.dataOffset as nat + |dir[p.file]| >= 0x20
         && blob == CksmContainer.Built(CksmHeaderOf(p.cksm.value, |dir[p.file]|), dir[p.file])
       case Uimage =>
         && p.uimage.Some? && blob == UImageContainer.Built(UImageHeaderOf(p.uimage.value), dir[p.file])
  }

  lemma BuildsToHasTable(p: Partition, dir: Directory, blob: seq<byte>)
    requires BuildsTo(p, dir, blob)
    ensures !LacksTable(p)
  {
  }

  lemma BuildsToIff(m: Manifest, dir: Directory, i: nat, blob: seq<byte>)
    requires Accepted(m) && i < |m.partitions|
    ensures BuildsTo(m.partitions[i], dir, blob) <==> OutcomesOf(m, dir)[i] == Ok(blob)
  {
    assert HasTable(m.partitions[i]);
  }

  lemma BuildsToNothing(m: Manifest, dir: Directory, i: nat)
    requires Accepted(m) && i < |m.partitions| && forall b :: !BuildsTo(m.partitions[i], dir, b)
    ensures OutcomesOf(m, dir)[i] == Err(if m.partitions[i].file !in dir then MissingFile(i)
                                         else if m.partitions[i].container.Raw? then TagOutsidePartition else Panic)
  {
    var out := OutcomesOf(m, dir)[i];
    assert HasTable(m.partitions[i]);
    if out.Ok? {
      BuildsToIff(m, dir, i, out.value);
    }
  }

  ghost predicate AllBuiltTo(ps: seq<Partition>, dir: Directory, blobs: seq<seq<byte>>) {
    |blobs| == |ps| && forall i :: 0 <= i < |blobs| ==> BuildsTo(ps[i], dir, blobs[i])
  }

  lemma AllBuiltToHaveTables(ps: seq<Partition>, dir: Directory, blobs: seq<seq<byte>>)
    requires AllBuiltTo(ps, dir, blobs)
    ensures forall i :: 0 <= i < |ps| ==> !LacksTable(ps[i])
  {
    forall i | 0 <= i < |ps|
      ensures !LacksTable(ps[i])
    {
      BuildsToHasTable(ps[i], dir, blobs[i]);
    }
  }

  lemma AllBuiltToIff(m: Manifest, dir: Directory, blobs: seq<seq<byte>>)
    requires Accepted(m)
    ensures AllBuiltTo(m.partitions, dir, blobs)
       <==> AllBuild(OutcomesOf(m, dir)) && blobs == BuiltBlobs(OutcomesOf(m, dir))
  {
    var outs := OutcomesOf(m, dir);
    if |blobs| == |outs| {
      forall i | 0 <= i < |blobs|
        ensures BuildsTo(m.partitions[i], dir, blobs[i]) <==> outs[i] == Ok(blobs[i])
      {
        BuildsToIff(m, dir, i, blobs[i]);
      }
    }
  }

  ghost predicate LengthOk(m: Manifest, blobs: seq<seq<byte>>)
    requires m.firmware.align > 0
  {
    0x26 <= End(Sizes(blobs), |blobs|, FirstOffset(m), m.firmware.align) <= 0xFFFF_FFFF
  }

  /** These blobs make up an image of the right length: one for each partition of a manifest that is accepted. */
  ghost predicate PacksTo(m: Manifest, dir: Directory, blobs: seq<seq<byte>>) {
    && m.partitions != [] && IsSomePower(m.firmware.align) && AllBuiltTo(m.partitions, dir, blobs)
    && LengthOk(m, blobs)
  }

  lemma PacksToIsAccepted(m: Manifest, dir: Directory, blobs: seq<seq<byte>>)
    requires PacksTo(m, dir, blobs)
    ensures Accepted(m)
  {
    AcceptedIff(m);
    AllBuiltToHaveTables(m.partitions, dir, blobs);
  }

  lemma AssembleOkIff(m: Manifest, outs: Outcomes)
    requires Covers(m, outs) && outs != []
    ensures Assemble(m, outs).Ok? <==> AllBuild(outs) && LengthOk(m, BuiltBlobs(outs))
  {
    BlobsOkIff(outs, FirstOffset(m), m.firmware.align);
  }

  lemma AcceptedPackOkIff(m: Manifest, dir: Directory)
    requires Accepted(m)
    ensures Pack(m, dir).Ok? <==> AllBuild(OutcomesOf(m, dir)) && LengthOk(m, BuiltBlobs(OutcomesOf(m, dir)))
  {
    AssembleOkIff(m, OutcomesOf(m, dir));
  }

  lemma AcceptedIff(m: Manifest)
    ensures Accepted(m) <==> && m.partitions != [] && IsSomePower(m.firmware.align)
                             && forall i :: 0 <= i < |m.partitions| ==> !LacksTable(m.partitions[i])
  {
    RejectsIff(m, 0);
  }

  lemma PackOkIf(m: Manifest, dir: Directory, blobs: seq<seq<byte>>)
    requires PacksTo(m, dir, blobs)
    ensures Pack(m, dir).Ok?
  {
    PacksToIsAccepted(m, dir, blobs);
    AllBuiltToIff(m, dir, blobs);
    AcceptedPackOkIff(m, dir);
  }

  lemma PackOkOnlyIf(m: Manifest, dir: Directory) returns (blobs: seq<seq<byte>>)
    requires Pack(m, dir).Ok?
    ensures PacksTo(m, dir, blobs)
  {
    AcceptedIff(m);
    AcceptedPackOkIff(m, dir);
    blobs := BuiltBlobs(OutcomesOf(m, dir));
    AllBuiltToIff(m, dir, blobs);
  }

  /** Packing succeeds exactly when there are such blobs. */
  lemma PackOkIff(m: Manifest, dir: Directory)
    ensures Pack(m, dir).Ok? <==> exists blobs :: PacksTo(m, dir, blobs)
  {
    if blobs :| PacksTo(m, dir, blobs) {
      PackOkIf(m, dir, blobs);
    }
    if Pack(m, dir).Ok? {
      var blobs := PackOkOnlyIf(m, dir);
    }
  }

  /** A manifest that is not accepted is rejected before any file is looked at. */
  lemma PackRejects(m: Manifest, dir: Directory, i: nat)
    ensures m.partitions == [] ==> Pack(m, dir) == Err(NoPartitions)
    ensures m.partitions != [] && !IsSomePower(m.firmware.align) ==> Pack(m, dir) == Err(BadAlign)
    ensures m.partitions != [] && IsSomePower(m.firmware.align) && i < |m.partitions|
              && LacksTable(m.partitions[i]) && (forall k :: 0 <= k < i ==> !LacksTable(m.partitions[k]))
            ==> Pack(m, dir) == Err(MissingContainerTable(i))
  {
    RejectsIff(m, i);
  }

  lemma BlobsErr(outs: Outcomes, blobs: seq<seq<byte>>, i: nat, first: nat, align: nat)
    requires align > 0 && i < |blobs| == |outs| && Blobs(outs, i, first, align) == Ok(blobs[..i])
    ensures outs[i].Err? ==> Blobs(outs, i + 1, first, align) == Err(outs[i].error)
    ensures outs[i] == Ok(blobs[i]) && !EndsBelow(blobs, i, first, align) ==>
              Blobs(outs, i + 1, first, align) == Err(ImageTooLarge(i))
  {
    NextPlace(blobs, i, first, align);
  }

  lemma AssembleErr(m: Manifest, outs: Outcomes, i: nat)
    requires Covers(m, outs) && i <= |outs| && Blobs(outs, i, FirstOffset(m), m.firmware.align).Err?
    ensures Assemble(m, outs) == Err(Blobs(outs, i, FirstOffset(m), m.firmware.align).error)
  {
    BlobsStops(outs, i, |outs|, FirstOffset(m), m.firmware.align);
  }

  lemma AssembleStopsAt(m: Manifest, outs: Outcomes, blobs: seq<seq<byte>>, i: nat)
    requires Covers(m, outs) && i < |blobs| == |outs|
    requires forall k :: 0 <= k < i ==> CollectsAt(outs, blobs, k, FirstOffset(m), m.firmware.align)
    ensures outs[i].Err? ==> Assemble(m, outs) == Err(outs[i].error)
    ensures outs[i] == Ok(blobs[i]) && !EndsBelow(blobs, i, FirstOffset(m), m.firmware.align) ==>
              Assemble(m, outs) == Err(ImageTooLarge(i))
  {
    BlobsCollect(outs, blobs, i, FirstOffset(m), m.firmware.align);
    BlobsErr(outs, blobs, i, FirstOffset(m), m.firmware.align);
    if Blobs(outs, i + 1, FirstOffset(m), m.firmware.align).Err? {
      AssembleErr(m, outs, i + 1);
    }
  }

  ghost predicate BuildsBelow(m: Manifest, dir: Directory, blobs: seq<seq<byte>>, k: nat)
    requires m.firmware.align > 0 && k < |blobs| && k < |m.partitions|
  {
    BuildsTo(m.partitions[k], dir, blobs[k]) && EndsBelow(blobs, k, FirstOffset(m), m.firmware.align)
  }

  /** Otherwise the first partition in order that cannot be built, or that would end past 4 GiB, stops it. */
  lemma PackStopsAt(m: Manifest, dir: Directory, blobs: seq<seq<byte>>, i: nat)
    requires Accepted(m) && i < |blobs| == |m.partitions|
    requires forall k :: 0 <= k < i ==> BuildsBelow(m, dir, blobs, k)
    ensures var p := m.partitions[i];
            && (p.file !in dir ==> Pack(m, dir) == Err(MissingFile(i)))
            && (p.file in dir && (forall b :: !BuildsTo(p, dir, b)) ==>
                  Pack(m, dir) == Err(if p.container.Raw? then TagOutsidePartition else Panic))
            && (BuildsTo(p, dir, blobs[i]) && !EndsBelow(blobs, i, FirstOffset(m), m.firmware.align) ==>
                  Pack(m, dir) == Err(ImageTooLarge(i)))
  {
    var outs := OutcomesOf(m, dir);
    forall k | 0 <= k < i
      ensures CollectsAt(outs, blobs, k, FirstOffset(m), m.firmware.align)
    {
      assert BuildsBelow(m, dir, blobs, k);
      BuildsToIff(m, dir, k, blobs[k]);
    }
    AssembleStopsAt(m, outs, blobs, i);
    BuildsToIff(m, dir, i, blobs[i]);
    if forall b :: !BuildsTo(m.partitions[i], dir, b) {
      BuildsToNothing(m, dir, i);
    }
  }

  lemma AssembleGives(m: Manifest, outs: Outcomes, img: seq<byte>)
    requires Covers(m, outs) && outs != [] && Assemble(m, outs) == Ok(img)
    ensures AllBuild(outs) && Packs(m, outs, img, BuiltBlobs(outs)) && IsValid(img)
    ensures |img| == End(Sizes(BuiltBlobs(outs)), |outs|, FirstOffset(m), m.firmware.align)
  {
    BlobsOkIff(outs, FirstOffset(m), m.firmware.align);
    SealedIsValid(m, BuiltBlobs(outs));
  }

  /** What a successful packing returns is the image of the blobs the partitions build to. */
  lemma PackGives(m: Manifest, dir: Directory, img: seq<byte>, blobs: seq<seq<byte>>)
    requires Pack(m, dir) == Ok(img) && PacksTo(m, dir, blobs)
    ensures Accepted(m) && Packs(m, OutcomesOf(m, dir), img, blobs)
    ensures IsValid(img) && |img| == End(Sizes(blobs), |blobs|, FirstOffset(m), m.firmware.align)
  {
    PacksToIsAccepted(m, dir, blobs);
    AllBuiltToIff(m, dir, blobs);
    AssembleGives(m, OutcomesOf(m, dir), img);
  }

  // ----- edits

  /** Rewriting a file that only partition i uses changes what partition i builds to, and nothing else. */
  lemma RewriteOneFile(m: Manifest, dir: Directory, i: nat, payload: seq<byte>)
    requires Accepted(m) && i < |m.partitions|
    requires forall k :: 0 <= k < |m.partitions| && k != i ==> m.partitions[k].file != m.partitions[i].file
    ensures var dir' := dir[m.partitions[i].file := payload];
            && OutcomesOf(m, dir')[i] == BuildBlob(m.partitions[i], payload)
            && forall k :: 0 <= k < |m.partitions| && k != i ==> OutcomesOf(m, dir')[k] == OutcomesOf(m, dir)[k]
  {
  }

  /**
   * Replacing one partition's blob by one of any length: earlier starts stay, later starts move by one
   * common multiple of the alignment, and every other partition's bytes are the same.
   */
  lemma EditLocality(m: Manifest, outs: Outcomes, img: seq<byte>, b: seq<seq<byte>>,
                     outs': Outcomes, img': seq<byte>, b': seq<seq<byte>>, i: nat, j: nat)
    requires Packs(m, outs, img, b) && Packs(m, outs', img', b') && FW_CHKSUM_OFF + 2 <= FirstOffset(m)
    requires i < |outs| && j < |outs| && i != j
    requires forall k :: 0 <= k < |outs| && k != i ==> outs[k] == outs'[k]
    ensures |b| == |b'| == |outs| && b[j] == b'[j]
    ensures HoldsBlob(img, b, j, FirstOffset(m), m.firmware.align)
    ensures HoldsBlob(img', b', j, FirstOffset(m), m.firmware.align)
    ensures j < i ==> Offset(m, b', j) == Offset(m, b, j)
    ensures i < j ==> var shift := Offset(m, b', i + 1) - Offset(m, b, i + 1);
                      IsMultiple(shift, m.firmware.align) && Offset(m, b', j) == Offset(m, b, j) + shift
  {
    forall k | 0 <= k < |outs| && k != i
      ensures b[k] == b'[k]
    {
      BlobsAre(outs, |outs|, k, FirstOffset(m), m.firmware.align);
      BlobsAre(outs', |outs'|, k, FirstOffset(m), m.firmware.align);
    }
    SealedHolds(m, b, j);
    SealedHolds(m, b', j);
    if j < i {
      SameSizesBefore(b, b', j);
      EndAgree(Sizes(b), Sizes(b'), j, FirstOffset(m), m.firmware.align);
    } else {
      OffsetsShift(m, b, b', i, j);
    }
  }

  lemma OffsetsShift(m: Manifest, b: seq<seq<byte>>, b': seq<seq<byte>>, i: nat, j: nat)
    requires m.firmware.align > 0 && |b| == |b'| && i < j < |b| && forall k :: 0 <= k < |b| && k != i ==> b[k] == b'[k]
    ensures var shift := Offset(m, b', i + 1) - Offset(m, b, i + 1);
            IsMultiple(shift, m.firmware.align) && Offset(m, b', j) == Offset(m, b, j) + shift
  {
    ResizeShifts(Sizes(b), Sizes(b'), i, j, FirstOffset(m), m.firmware.align);
  }

  lemma SameSizesBefore(b: seq<seq<byte>>, b': seq<seq<byte>>, j: nat)
    requires j <= |b| && j <= |b'| && forall k :: 0 <= k < j ==> b[k] == b'[k]
    ensures Sizes(b)[..j] == Sizes(b')[..j]
  {
  }
}
