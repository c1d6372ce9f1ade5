/** Rebuilding an image from a manifest and the files it names. */
module Packer {
  import opened Bytes
  import opened Errors
  import opened Checksum
  import opened Header
  import opened Layout
  import opened ManifestModel
  import BuildTag
  import CksmContainer
  import UImageContainer

  // ----- one partition

  function CksmHeaderOf(c: CksmTable, len: nat): CksmContainer.CksmHeader {
    CksmContainer.CksmHeader(c.version, c.field08, c.dataOffset, AsU32(len), c.field18, c.field1C)
  }

  function UImageHeaderOf(u: UImageTable): UImageContainer.UImageHeader {
    UImageContainer.UImageHeader(u.time, u.load, u.entry, u.os, u.arch, u.imgType, u.comp, u.name)
  }

  /** The partition's bytes: its file, wrapped in its container or with its build tag repaired. */
  function BuildBlob(p: Partition, payload: seq<byte>): Result<seq<byte>, Error>
    requires HasTable(p)
  {
    match p.container
    case Raw =>
      if p.nvtTagOffset.None? then Ok(payload)
      else if |payload| < p.nvtTagOffset.value as nat + BuildTag.NVT_TAG_LEN then Err(TagOutsidePartition)
      else Ok(BuildTag.Fixed(payload, p.nvtTagOffset.value))
    case Cksm =>
      var h := CksmHeaderOf(p.cksm.value, |payload|);
      if CksmContainer.Buildable(h, payload) then Ok(CksmContainer.Built(h, payload)) else Err(Panic)
    case Uimage =>
      Ok(UImageContainer.Built(UImageHeaderOf(p.uimage.value), payload))
  }

  method BuildPartition(p: Partition, payload: seq<byte>) returns (r: Result<seq<byte>, Error>)
    requires HasTable(p)
    ensures r == BuildBlob(p, payload)
  {
    match p.container {
      case Raw =>
        if p.nvtTagOffset.None? {
          return Ok(payload);
        }
        var blob := new byte[|payload|](i requires 0 <= i < |payload| => payload[i]);
        assert blob[..] == payload;
        var fixed := BuildTag.FixNvtTag(blob, p.nvtTagOffset.value);
        if fixed.Err? {
          return Err(TagOutsidePartition);
        }
        return Ok(blob[..]);
      case Cksm =>
        var h := CksmHeaderOf(p.cksm.value, |payload|);
        if !CksmContainer.Buildable(h, payload) {
          return Err(Panic);
        }
        var blob := CksmContainer.Build(h, payload);
        return Ok(blob[..]);
      case Uimage =>
        var blob := UImageContainer.Build(UImageHeaderOf(p.uimage.value), payload);
        return Ok(blob);
    }
  }

  // ----- all partitions

  function Sizes(blobs: seq<seq<byte>>): (s: seq<nat>)
    ensures |s| == |blobs| && forall i :: 0 <= i < |s| ==> s[i] == |blobs[i]|
  {
    seq(|blobs|, i requires 0 <= i < |blobs| => |blobs[i]|)
  }

  /** The image before its header is written: room for header and table, then padded blobs. */
  function Laid(blobs: seq<seq<byte>>, first: nat, align: nat): (r: seq<byte>)
    requires align > 0
    ensures |r| == End(Sizes(blobs), |blobs|, first, align)
  {
    if blobs == [] then Zeros(first)
    else
      var n := |blobs| - 1;
      var prev := Laid(blobs[..n], first, align);
      EndAgree(Sizes(blobs[..n]), Sizes(blobs), n, first, align);
      prev + Zeros(Place(|prev|, first, align) - |prev|) + blobs[n]
  }

  function FirstOffset(m: Manifest): nat {
    m.firmware.headerSize as nat + |m.partitions| * 12
  }

  predicate Accepted(m: Manifest)
    ensures Accepted(m) ==> m.firmware.align > 0
  {
    Rejects(m).None?
  }

  function BlobOf(m: Manifest, dir: Directory, i: nat): Result<seq<byte>, Error>
    requires Accepted(m) && i < |m.partitions|
  {
    var p := m.partitions[i];
    if p.file !in dir then Err(MissingFile(i)) else BuildBlob(p, dir[p.file])
  }

  type Outcomes = seq<Result<seq<byte>, Error>>

  /** What building each partition on its own gives. */
  function OutcomesOf(m: Manifest, dir: Directory): (outs: Outcomes)
    requires Accepted(m)
    ensures |outs| == |m.partitions|
    ensures forall i :: 0 <= i < |outs| ==> outs[i] == BlobOf(m, dir, i)
  {
    seq(|m.partitions|, i requires 0 <= i < |m.partitions| => BlobOf(m, dir, i))
  }

  predicate Covers(m: Manifest, outs: Outcomes) {
    m.firmware.align > 0 && |outs| == |m.partitions|
  }

  /** Where the next blob goes. */
  function PlaceNext(blobs: seq<seq<byte>>, first: nat, align: nat): nat
    requires align > 0
  {
    Start(Sizes(blobs), |blobs|, first, align)
  }

  /** The first n blobs, or the first error met in order: a blob's own, or running past 4 GiB. */
  function Blobs(outs: Outcomes, n: nat, first: nat, align: nat): (r: Result<seq<seq<byte>>, Error>)
    requires n <= |outs| && align > 0
    ensures r.Ok? ==> |r.value| == n
    decreases n
  {
    if n == 0 then Ok([])
    else
      var before := Blobs(outs, n - 1, first, align);
      if before.Err? then before
      else if outs[n - 1].Err? then Err(outs[n - 1].error)
      else
        var blob := outs[n - 1].value;
        if U32_MAX as nat < PlaceNext(before.value, first, align) + |blob| then Err(ImageTooLarge(n - 1))
        else Ok(before.value + [blob])
  }

  function Offset(m: Manifest, blobs: seq<seq<byte>>, i: nat): nat
    requires m.firmware.align > 0 && i <= |blobs|
  {
    Start(Sizes(blobs), i, FirstOffset(m), m.firmware.align)
  }

  function EntryOf(m: Manifest, blobs: seq<seq<byte>>, i: nat): PartitionEntry
    requires m.firmware.align > 0 && i < |blobs| <= |m.partitions|
  {
    PartitionEntry(m.partitions[i].id, AsU32(Offset(m, blobs, i)), AsU32(|blobs[i]|))
  }

  function Entries(m: Manifest, blobs: seq<seq<byte>>): (es: seq<PartitionEntry>)
    requires m.firmware.align > 0 && |blobs| <= |m.partitions|
    ensures |es| == |blobs| && forall i :: 0 <= i < |es| ==> es[i] == EntryOf(m, blobs, i)
  {
    seq(|blobs|, i requires 0 <= i < |blobs| => EntryOf(m, blobs, i))
  }

  function HeaderFor(m: Manifest, total: nat): (b: seq<byte>)
    ensures |b| == FIXED_LEN
  {
    FixedHeader(m.firmware.version, m.firmware.headerSize, AsU32(|m.partitions|), AsU32(total),
                m.firmware.chksumMethod)
  }

  /** A fixed header, then a table, then the corrective word, written over a laid-out image. */
  function Seal(lay: seq<byte>, header: seq<byte>, tbl: nat, table: seq<byte>): (r: seq<byte>)
    requires |header| <= |lay| && tbl + |table| <= |lay| && FW_CHKSUM_OFF + 2 <= |lay|
    ensures |r| == |lay|
  {
    Solved(Overlay(Overlay(lay, 0, header), tbl, table), FW_CHKSUM_OFF)
  }

  function Sealed(m: Manifest, blobs: seq<seq<byte>>): (r: seq<byte>)
    requires m.firmware.align > 0 && |blobs| == |m.partitions|
    requires FW_CHKSUM_OFF + 2 <= End(Sizes(blobs), |blobs|, FirstOffset(m), m.firmware.align)
    ensures |r| == End(Sizes(blobs), |blobs|, FirstOffset(m), m.firmware.align)
  {
    var lay := Laid(blobs, FirstOffset(m), m.firmware.align);
    Seal(lay, HeaderFor(m, |lay|), m.firmware.headerSize, Table(Entries(m, blobs)))
  }

  function Assemble(m: Manifest, outs: Outcomes): Result<seq<byte>, Error>
    requires Covers(m, outs)
  {
    var blobs := Blobs(outs, |outs|, FirstOffset(m), m.firmware.align);
    if blobs.Err? then Err(blobs.error)
    else if End(Sizes(blobs.value), |outs|, FirstOffset(m), m.firmware.align) < FW_CHKSUM_OFF + 2 then Err(Panic)
    else Ok(Sealed(m, blobs.value))
  }

  function Pack(m: Manifest, dir: Directory): Result<seq<byte>, Error> {
    if Rejects(m).Some? then Err(Rejects(m).value) else Assemble(m, OutcomesOf(m, dir))
  }

  // ----- the command

  lemma {:induction false} BlobsStops(outs: Outcomes, i: nat, n: nat, first: nat, align: nat)
    requires align > 0 && i <= n <= |outs| && Blobs(outs, i, first, align).Err?
    ensures Blobs(outs, n, first, align) == Blobs(outs, i, first, align)
  {
    if i == n {
    } else {
      BlobsStops(outs, i, n - 1, first, align);
    }
  }

  lemma SizesSnoc(blobs: seq<seq<byte>>, b: seq<byte>, first: nat, align: nat)
    requires align > 0
    ensures Sizes(blobs + [b])[..|blobs|] == Sizes(blobs)
    ensures forall i :: 0 <= i <= |blobs| ==>
              Start(Sizes(blobs + [b]), i, first, align) == Start(Sizes(blobs), i, first, align)
  {
    var s, t := Sizes(blobs), Sizes(blobs + [b]);
    forall i | 0 <= i <= |blobs|
      ensures Start(t, i, first, align) == Start(s, i, first, align)
    {
      assert t[..i] == s[..i];
      EndAgree(s, t, i, first, align);
    }
  }

  lemma EntriesSnoc(m: Manifest, blobs: seq<seq<byte>>, b: seq<byte>)
    requires m.firmware.align > 0 && |blobs| < |m.partitions|
    ensures var offset := PlaceNext(blobs, FirstOffset(m), m.firmware.align);
            Entries(m, blobs + [b]) ==
            Entries(m, blobs) + [PartitionEntry(m.partitions[|blobs|].id, AsU32(offset), AsU32(|b|))]
  {
    var more := blobs + [b];
    var before, last := Entries(m, blobs), EntryOf(m, more, |blobs|);
    SizesSnoc(blobs, b, FirstOffset(m), m.firmware.align);
    assert Offset(m, more, |blobs|) == PlaceNext(blobs, FirstOffset(m), m.firmware.align);
    forall i | 0 <= i < |more|
      ensures Entries(m, more)[i] == (before + [last])[i]
    {
      if i < |blobs| {
        assert Offset(m, more, i) == Offset(m, blobs, i);
        assert more[i] == blobs[i];
      }
    }
  }

  /** Pads the image to the next aligned start, measured from the first partition. */
  method Grow(image: seq<byte>, firstOff: nat, align: nat) returns (grown: seq<byte>)
    requires align > 0 && firstOff <= |image|
    ensures |grown| == Place(|image|, firstOff, align)
    ensures grown == image + Zeros(|grown| - |image|)
  {
    var rel := |image| - firstOff;
    var padded := firstOff + DivCeil(rel, align) * align;
    RoundUpIsDivCeil(rel, align);
    grown := image + Zeros(padded - |image|);
  }

  /** Pads the image to the next aligned start and appends the blob there, unless it would pass 4 GiB. */
  method PlaceBlob(m: Manifest, image: seq<byte>, blob: seq<byte>, i: nat, ghost blobs: seq<seq<byte>>)
      returns (r: Result<(seq<byte>, nat), Error>)
    requires m.firmware.align > 0 && image == Laid(blobs, FirstOffset(m), m.firmware.align)
    ensures r.Err? <==> U32_MAX as nat < PlaceNext(blobs, FirstOffset(m), m.firmware.align) + |blob|
    ensures r.Err? ==> r.error == ImageTooLarge(i)
    ensures r.Ok? ==> r.value.0 == Laid(blobs + [blob], FirstOffset(m), m.firmware.align)
    ensures r.Ok? ==> r.value.1 == PlaceNext(blobs, FirstOffset(m), m.firmware.align)
  {
    var grown := Grow(image, FirstOffset(m), m.firmware.align);
    if |grown| + |blob| > U32_MAX as nat {
      return Err(ImageTooLarge(i));
    }
    assert (blobs + [blob])[..|blobs|] == blobs;
    return Ok((grown + blob, |grown|));
  }

  /** What the layout loop holds after n partitions. */
  function LayState(m: Manifest, outs: Outcomes, n: nat): Result<(seq<byte>, seq<PartitionEntry>), Error>
    requires Covers(m, outs) && n <= |outs|
  {
    match Blobs(outs, n, FirstOffset(m), m.firmware.align)
    case Err(e) => Err(e)
    case Ok(blobs) => Ok((Laid(blobs, FirstOffset(m), m.firmware.align), Entries(m, blobs)))
  }

  method AddPartition(m: Manifest, dir: Directory, ghost outs: Outcomes, i: nat, image: seq<byte>,
                      table: seq<PartitionEntry>)
      returns (r: Result<(seq<byte>, seq<PartitionEntry>), Error>)
    requires Accepted(m) && Covers(m, outs) && i < |outs| && outs[i] == BlobOf(m, dir, i)
    requires LayState(m, outs, i) == Ok((image, table))
    ensures r == LayState(m, outs, i + 1)
  {
    ghost var blobs := Blobs(outs, i, FirstOffset(m), m.firmware.align).value;
    var p := m.partitions[i];
    if p.file !in dir {
      return Err(MissingFile(i));
    }
    var built := BuildPartition(p, dir[p.file]);
    if built.Err? {
      return Err(built.error);
    }
    var placed := PlaceBlob(m, image, built.value, i, blobs);
    if placed.Err? {
      return Err(placed.error);
    }
    EntriesSnoc(m, blobs, built.value);
    return Ok((placed.value.0, table + [PartitionEntry(p.id, AsU32(placed.value.1), AsU32(|built.value|))]));
  }

  method LayPartitions(m: Manifest, dir: Directory, ghost outs: Outcomes)
      returns (r: Result<(seq<byte>, seq<PartitionEntry>), Error>)
    requires Accepted(m) && Covers(m, outs) && forall i :: 0 <= i < |outs| ==> outs[i] == BlobOf(m, dir, i)
    ensures r == LayState(m, outs, |outs|)
  {
    var image: seq<byte> := Zeros(FirstOffset(m));
    var table: seq<PartitionEntry> := [];
    for i := 0 to |m.partitions|
      invariant LayState(m, outs, i) == Ok((image, table))
    {
      var next := AddPartition(m, dir, outs, i, image, table);
      if next.Err? {
        BlobsStops(outs, i + 1, |outs|, FirstOffset(m), m.firmware.align);
        return next;
      }
      image, table := next.value.0, next.value.1;
    }
    return Ok((image, table));
  }

  method CmdPack(m: Manifest, dir: Directory) returns (r: Result<seq<byte>, Error>)
    ensures r == Pack(m, dir)
  {
    var rejected := Rejects(m);
    if rejected.Some? {
      return Err(rejected.value);
    }
    var laid := LayPartitions(m, dir, OutcomesOf(m, dir));
    if laid.Err? {
      return Err(laid.error);
    }
    var (image, table) := laid.value;
    if |image| < FW_CHKSUM_OFF + 2 {
      return Err(Panic);
    }
    var out := WriteHeaderAndTable(m, image, table);
    var ck := Solve(out, FW_CHKSUM_OFF);
    return Ok(out[..]);
  }

  lemma TableGrows(base: seq<byte>, tbl: nat, table: seq<PartitionEntry>, i: nat)
    requires i < |table| && tbl + |table| * 12 <= |base|
    ensures Overlay(Overlay(base, tbl, Table(table[..i])), tbl + i * 12, EntryBytes(table[i]))
         == Overlay(base, tbl, Table(table[..i + 1]))
  {
    assert table[..i + 1][..i] == table[..i];
    OverlayAppend(base, tbl, Table(table[..i]), EntryBytes(table[i]));
  }

  lemma NothingWritten(base: seq<byte>, tbl: nat)
    requires tbl <= |base|
    ensures Overlay(base, tbl, Table([])) == base
  {
  }

  method WriteTable(out: array<byte>, tbl: nat, table: seq<PartitionEntry>)
    requires tbl + |table| * 12 <= out.Length
    modifies out
    ensures out[..] == Overlay(old(out[..]), tbl, Table(table))
  {
    ghost var base := out[..];
    assert table[..0] == [];
    NothingWritten(base, tbl);
    for i := 0 to |table|
      invariant out[..] == Overlay(base, tbl, Table(table[..i]))
    {
      WriteEntry(out, tbl + i * 12, table[i]);
      TableGrows(base, tbl, table, i);
    }
    assert table[..|table|] == table;
  }

  method WriteHeaderAndTable(m: Manifest, image: seq<byte>, table: seq<PartitionEntry>) returns (out: array<byte>)
    requires FW_CHKSUM_OFF + 2 <= |image| && m.firmware.headerSize as nat + |table| * 12 <= |image|
    ensures fresh(out)
    ensures out[..] == Overlay(Overlay(image, 0, HeaderFor(m, |image|)), m.firmware.headerSize, Table(table))
  {
    out := new byte[|image|](i requires 0 <= i < |image| => image[i]);
    assert out[..] == image;
    WriteFixed(out, m);
    WriteTable(out, m.firmware.headerSize, table);
  }

  /** Six range writes, one after the other, are the fixed header. */
  lemma FixedWrites(was: seq<byte>, v: u32, h: u32, c: u32, t: u32, m: u32)
    requires FIXED_LEN <= |was|
    ensures Overlay(Overlay(Overlay(Overlay(Overlay(Overlay(was, 0x00, FW_GUID), 0x10, Le32(v)), 0x14, Le32(h)),
                                    0x18, Le32(c)), 0x1C, Le32(t)), 0x20, Le32(m))
         == Overlay(was, 0, FixedHeader(v, h, c, t, m))
  {
    var four := Four(Le32(v), Le32(h), Le32(c), Le32(t));
    OverlayAppend(was, 0, FW_GUID, Le32(v));
    OverlayAppend(was, 0, FW_GUID + Le32(v), Le32(h));
    OverlayAppend(was, 0, FW_GUID + Le32(v) + Le32(h), Le32(c));
    OverlayAppend(was, 0, FW_GUID + Le32(v) + Le32(h) + Le32(c), Le32(t));
    assert FW_GUID + four == FW_GUID + Le32(v) + Le32(h) + Le32(c) + Le32(t);
    OverlayAppend(was, 0, FW_GUID + four, Le32(m));
  }

  method WriteFixed(out: array<byte>, m: Manifest)
    requires FIXED_LEN <= out.Length
    modifies out
    ensures out[..] == Overlay(old(out[..]), 0, HeaderFor(m, out.Length))
  {
    ghost var was := out[..];
    var f := m.firmware;
    var count, total := AsU32(|m.partitions|), AsU32(out.Length);
    Put(out, 0x00, FW_GUID);
    Put(out, 0x10, Le32(f.version));
    Put(out, 0x14, Le32(f.headerSize));
    Put(out, 0x18, Le32(count));
    Put(out, 0x1C, Le32(total));
    Put(out, 0x20, Le32(f.chksumMethod));
    FixedWrites(was, f.version, f.headerSize, count, total, f.chksumMethod);
  }

  method WriteEntry(out: array<byte>, e: nat, p: PartitionEntry)
    requires e + 12 <= out.Length
    modifies out
    ensures out[..] == Overlay(old(out[..]), e, EntryBytes(p))
  {
    ghost var was := out[..];
    Put(out, e, Le32(p.offset));
    Put(out, e + 4, Le32(p.size));
    Put(out, e + 8, Le32(p.id));
    OverlayAppend(was, e, Le32(p.offset), Le32(p.size));
    OverlayAppend(was, e, Le32(p.offset) + Le32(p.size), Le32(p.id));
  }
}
