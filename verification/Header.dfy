/** The NVTPACK fixed header and partition table. */
module Header {
  import opened Bytes
  import opened Errors

  const FW_GUID: seq<byte> := [
    0x07, 0x2E, 0x01, 0xD6, 0xBC, 0x10, 0x91, 0x4F, 0xB2, 0x8A, 0x35, 0x2F, 0x82, 0x26, 0x1A, 0x50]
  const MIN_IMAGE_LEN: nat := 0x80
  const FIXED_LEN: nat := 0x24
  const FW_CHKSUM_OFF: nat := 0x24

  datatype PartitionEntry = PartitionEntry(id: u32, offset: u32, size: u32)

  datatype FirmwareHeader = FirmwareHeader(
    version: u32, headerSize: u32, chksumMethod: u32, chksumValue: u32, totalSize: u32, parts: seq<PartitionEntry>)
  {
    function FirstPartitionOffset(): nat {
      headerSize as nat + |parts| * 12
    }
  }

  function EntryAt(data: seq<byte>, tbl: nat, i: nat): PartitionEntry
    requires tbl + (i + 1) * 12 <= |data|
  {
    var e := tbl + i * 12;
    PartitionEntry(Rd32(data, e + 8), Rd32(data, e), Rd32(data, e + 4))
  }

  predicate Fits(data: seq<byte>, p: PartitionEntry) {
    p.offset as nat + p.size as nat <= |data|
  }

  /** Entries 0 to n, or the index of the first one that runs past the end of the file. */
  function ReadTable(data: seq<byte>, tbl: nat, n: nat): (r: Result<seq<PartitionEntry>, Error>)
    requires tbl + n * 12 <= |data|
    ensures r.Ok? <==> forall i :: 0 <= i < n ==> Fits(data, EntryAt(data, tbl, i))
    ensures r.Ok? ==> |r.value| == n && forall i :: 0 <= i < n ==> r.value[i] == EntryAt(data, tbl, i)
    ensures r.Err? ==> && r.error.PartitionPastEnd? && r.error.index < n
                       && !Fits(data, EntryAt(data, tbl, r.error.index))
                       && forall i :: 0 <= i < r.error.index ==> Fits(data, EntryAt(data, tbl, i))
  {
    if n == 0 then Ok([])
    else
      var r := ReadTable(data, tbl, n - 1);
      if r.Err? then r
      else if Fits(data, EntryAt(data, tbl, n - 1)) then Ok(r.value + [EntryAt(data, tbl, n - 1)])
      else Err(PartitionPastEnd(n - 1))
  }

  function Parse(data: seq<byte>): Result<FirmwareHeader, Error> {
    if |data| < MIN_IMAGE_LEN then Err(FileTooSmall)
    else if data[..16] != FW_GUID then Err(BadGuid)
    else
      var tbl, count := Rd32(data, 0x14), Rd32(data, 0x18);
      if |data| < tbl as nat + count as nat * 12 then Err(TableTruncated)
      else
        var parts := ReadTable(data, tbl, count);
        if parts.Err? then Err(parts.error)
        else Ok(FirmwareHeader(Rd32(data, 0x10), tbl, Rd32(data, 0x20), Rd32(data, 0x24), Rd32(data, 0x1C),
                               parts.value))
  }

  method ParseHeader(data: seq<byte>) returns (r: Result<FirmwareHeader, Error>)
    ensures r == Parse(data)
  {
    if |data| < MIN_IMAGE_LEN {
      return Err(FileTooSmall);
    }
    if data[..16] != FW_GUID {
      return Err(BadGuid);
    }
    var tbl, count := Rd32(data, 0x14), Rd32(data, 0x18);
    if |data| < tbl as nat + count as nat * 12 {
      return Err(TableTruncated);
    }
    var parts: seq<PartitionEntry> := [];
    var i: nat := 0;
    while i < count
      invariant i <= count && ReadTable(data, tbl, i) == Ok(parts)
    {
      var p := EntryAt(data, tbl, i);
      if p.offset as nat + p.size as nat > |data| {
        ReadTableStops(data, tbl, i, count);
        return Err(PartitionPastEnd(i));
      }
      parts := parts + [p];
      i := i + 1;
    }
    return Ok(FirmwareHeader(Rd32(data, 0x10), tbl, Rd32(data, 0x20), Rd32(data, 0x24), Rd32(data, 0x1C), parts));
  }

  lemma ReadTableStops(data: seq<byte>, tbl: nat, i: nat, n: nat)
    requires i < n && tbl + n * 12 <= |data|
    requires ReadTable(data, tbl, i).Ok? && !Fits(data, EntryAt(data, tbl, i))
    ensures ReadTable(data, tbl, n) == Err(PartitionPastEnd(i))
  {
  }

  /** The identifier D6012E07-10BC-4F91-B28A-352F82261A50, the first three groups as little-endian numbers. */
  lemma GuidIs()
    ensures FW_GUID == Le32(0xD601_2E07) + Le16(0x10BC) + Le16(0x4F91)
                       + [0xB2, 0x8A, 0x35, 0x2F, 0x82, 0x26, 0x1A, 0x50]
  {
  }

  /** Entry i of a table at tbl keeps inside the file: offset and size are the first two of its three words. */
  predicate StaysInside(data: seq<byte>, tbl: nat, i: nat) {
    tbl + 12 * i + 12 <= |data| && Rd32(data, tbl + 12 * i) as int + Rd32(data, tbl + 12 * i + 4) as int <= |data|
  }

  predicate HasGuid(data: seq<byte>) {
    0x80 <= |data| && data[..16] == FW_GUID
  }

  predicate HoldsTable(data: seq<byte>) {
    HasGuid(data) && Rd32(data, 0x14) as int + 12 * Rd32(data, 0x18) as int <= |data|
  }

  lemma FitsIff(data: seq<byte>, tbl: nat, i: nat)
    requires tbl + (i + 1) * 12 <= |data|
    ensures Fits(data, EntryAt(data, tbl, i)) <==> StaysInside(data, tbl, i)
  {
  }

  lemma TableReadsIff(data: seq<byte>, tbl: nat, count: nat, i: nat)
    requires tbl + count * 12 <= |data|
    ensures ReadTable(data, tbl, count).Ok? <==> forall k :: 0 <= k < count ==> StaysInside(data, tbl, k)
    ensures ReadTable(data, tbl, count) == Err(PartitionPastEnd(i)) <==>
              i < count && !StaysInside(data, tbl, i) && forall k :: 0 <= k < i ==> StaysInside(data, tbl, k)
  {
    forall k | 0 <= k < count
      ensures Fits(data, EntryAt(data, tbl, k)) <==> StaysInside(data, tbl, k)
    {
      FitsIff(data, tbl, k);
    }
    assert ReadTable(data, tbl, count).Err? ==> ReadTable(data, tbl, count).error.PartitionPastEnd?;
  }

  /** Which files parse, and which error each of the others gives. */
  lemma ParseIs(data: seq<byte>, i: nat)
    ensures Parse(data) == Err(FileTooSmall) <==> |data| < 0x80
    ensures Parse(data) == Err(BadGuid) <==> 0x80 <= |data| && data[..16] != FW_GUID
    ensures Parse(data) == Err(TableTruncated) <==> HasGuid(data) && !HoldsTable(data)
    ensures Parse(data).Ok? <==>
              HoldsTable(data) && forall k :: 0 <= k < Rd32(data, 0x18) ==> StaysInside(data, Rd32(data, 0x14), k)
    ensures Parse(data) == Err(PartitionPastEnd(i)) <==>
              && HoldsTable(data) && i < Rd32(data, 0x18) && !StaysInside(data, Rd32(data, 0x14), i)
              && forall k :: 0 <= k < i ==> StaysInside(data, Rd32(data, 0x14), k)
  {
    if HoldsTable(data) {
      TableReadsIff(data, Rd32(data, 0x14), Rd32(data, 0x18), i);
    }
  }

  lemma ParsedFields(data: seq<byte>, fw: FirmwareHeader)
    requires Parse(data) == Ok(fw)
    ensures 0x80 <= |data| && fw.version == Rd32(data, 0x10) && fw.headerSize == Rd32(data, 0x14)
    ensures |fw.parts| == Rd32(data, 0x18) && fw.totalSize == Rd32(data, 0x1C)
    ensures fw.chksumMethod == Rd32(data, 0x20) && fw.chksumValue == Rd32(data, 0x24)
    ensures forall i :: 0 <= i < |fw.parts| ==>
              var e := fw.headerSize as nat + 12 * i;
              && e + 12 <= |data| && fw.parts[i].offset == Rd32(data, e) && fw.parts[i].size == Rd32(data, e + 4)
              && fw.parts[i].id == Rd32(data, e + 8)
  {
  }

  /** Every slice that an accepted table leads to is inside the file, and no sum leaves 64 bits. */
  lemma ParsedIsSafe(data: seq<byte>)
    requires Parse(data).Ok?
    ensures var fw := Parse(data).value;
            && MIN_IMAGE_LEN <= |data|
            && fw.FirstPartitionOffset() <= |data|
            && fw.headerSize as nat + |fw.parts| * 12 < 0x1_0000_0000_0000_0000
            && forall i :: 0 <= i < |fw.parts| ==>
                 && fw.parts[i].offset as nat + fw.parts[i].size as nat <= |data|
                 && fw.parts[i].offset as nat + fw.parts[i].size as nat < 0x1_0000_0000_0000_0000
  {
  }

  // ----- writing

  function FixedHeader(version: u32, headerSize: u32, count: u32, total: u32, chksumMethod: u32): (b: seq<byte>)
    ensures |b| == FIXED_LEN
  {
    FW_GUID + Four(Le32(version), Le32(headerSize), Le32(count), Le32(total)) + Le32(chksumMethod)
  }

  function EntryBytes(p: PartitionEntry): (b: seq<byte>)
    ensures |b| == 12
  {
    Le32(p.offset) + Le32(p.size) + Le32(p.id)
  }

  function Table(es: seq<PartitionEntry>): (b: seq<byte>)
    ensures |b| == |es| * 12
  {
    if es == [] then [] else Table(es[..|es| - 1]) + EntryBytes(es[|es| - 1])
  }

  /** The fixed header of a file is the one written for v, h, c, t, m exactly when it reads as them. */
  lemma FixedIff(b: seq<byte>, v: u32, h: u32, c: u32, t: u32, m: u32)
    requires FIXED_LEN <= |b|
    ensures b[..FIXED_LEN] == FixedHeader(v, h, c, t, m) <==>
            && b[..16] == FW_GUID && Rd32(b, 0x10) == v && Rd32(b, 0x14) == h && Rd32(b, 0x18) == c
            && Rd32(b, 0x1C) == t && Rd32(b, 0x20) == m
  {
    Rd32Iff(b, 0x10, v);
    Rd32Iff(b, 0x14, h);
    Rd32Iff(b, 0x18, c);
    Rd32Iff(b, 0x1C, t);
    Rd32Iff(b, 0x20, m);
    FixedSlices(b, v, h, c, t, m);
  }

  lemma FixedSlices(b: seq<byte>, v: u32, h: u32, c: u32, t: u32, m: u32)
    requires FIXED_LEN <= |b|
    ensures b[..FIXED_LEN] == FixedHeader(v, h, c, t, m) <==>
            && b[..16] == FW_GUID && b[0x10..0x14] == Le32(v) && b[0x14..0x18] == Le32(h)
            && b[0x18..0x1C] == Le32(c) && b[0x1C..0x20] == Le32(t) && b[0x20..0x24] == Le32(m)
  {
    var f := FixedHeader(v, h, c, t, m);
    var mid := Four(Le32(v), Le32(h), Le32(c), Le32(t));
    assert f[..16] == FW_GUID && f[16..32] == mid && f[32..36] == Le32(m);
    assert b[..FIXED_LEN] == b[..16] + b[16..32] + b[0x20..0x24];
    assert b[16..32] == b[0x10..0x14] + b[0x14..0x18] + b[0x18..0x1C] + b[0x1C..0x20];
    if b[..FIXED_LEN] == f {
      assert b[..16] == f[..16] && b[16..32] == f[16..32] && b[0x20..0x24] == f[32..36];
      Subslice(b, mid, 16, 0, 4);
      Subslice(b, mid, 16, 4, 8);
      Subslice(b, mid, 16, 8, 12);
      Subslice(b, mid, 16, 12, 16);
    }
  }

  lemma EntryIff(b: seq<byte>, tbl: nat, i: nat, p: PartitionEntry)
    requires tbl + (i + 1) * 12 <= |b|
    ensures b[tbl + i * 12..tbl + (i + 1) * 12] == EntryBytes(p) <==> EntryAt(b, tbl, i) == p
  {
    var e := tbl + i * 12;
    Rd32Iff(b, e, p.offset);
    Rd32Iff(b, e + 4, p.size);
    Rd32Iff(b, e + 8, p.id);
    assert b[e..e + 12] == b[e..e + 4] + b[e + 4..e + 8] + b[e + 8..e + 12];
    ConcatEq(b[e..e + 4] + b[e + 4..e + 8], b[e + 8..e + 12], Le32(p.offset) + Le32(p.size), Le32(p.id));
    ConcatEq(b[e..e + 4], b[e + 4..e + 8], Le32(p.offset), Le32(p.size));
  }

  ghost predicate ReadsAs(b: seq<byte>, tbl: nat, es: seq<PartitionEntry>)
    requires tbl + |es| * 12 <= |b|
  {
    forall i :: 0 <= i < |es| ==> EntryAt(b, tbl, i) == es[i]
  }

  /** A stretch of a file is the table of es exactly when it reads entry by entry as es. */
  lemma {:induction false} TableIff(b: seq<byte>, tbl: nat, es: seq<PartitionEntry>)
    requires tbl + |es| * 12 <= |b|
    ensures b[tbl..tbl + |es| * 12] == Table(es) <==> ReadsAs(b, tbl, es)
  {
    if es == [] {
    } else {
      var n := |es| - 1;
      var init := es[..n];
      TableIff(b, tbl, init);
      EntryIff(b, tbl, n, es[n]);
      var front, back := b[tbl..tbl + n * 12], b[tbl + n * 12..tbl + (n + 1) * 12];
      assert b[tbl..tbl + |es| * 12] == front + back;
      ConcatEq(front, back, Table(init), EntryBytes(es[n]));
      ReadsAsLast(b, tbl, es);
    }
  }

  lemma ReadsAsLast(b: seq<byte>, tbl: nat, es: seq<PartitionEntry>)
    requires es != [] && tbl + |es| * 12 <= |b|
    ensures var n := |es| - 1;
            ReadsAs(b, tbl, es) <==> ReadsAs(b, tbl, es[..n]) && EntryAt(b, tbl, n) == es[n]
  {
  }

  /** A file that carries a written header and table parses as exactly what was written. */
  lemma ParseWritten(b: seq<byte>, v: u32, h: u32, t: u32, m: u32, es: seq<PartitionEntry>)
    requires MIN_IMAGE_LEN <= |b| && |es| <= U32_MAX && h as nat + |es| * 12 <= |b|
    requires b[..FIXED_LEN] == FixedHeader(v, h, |es|, t, m)
    requires b[h..h as nat + |es| * 12] == Table(es)
    requires forall i :: 0 <= i < |es| ==> Fits(b, es[i])
    ensures Parse(b) == Ok(FirmwareHeader(v, h, m, Rd32(b, 0x24), t, es))
  {
    FixedIff(b, v, h, |es|, t, m);
    TableIff(b, h, es);
    TableReads(b, h, es);
    ParseReads(b, v, h, t, m, es);
  }

  lemma ParseReads(b: seq<byte>, v: u32, h: u32, t: u32, m: u32, es: seq<PartitionEntry>)
    requires MIN_IMAGE_LEN <= |b| && |es| <= U32_MAX && h as nat + |es| * 12 <= |b|
    requires b[..16] == FW_GUID && Rd32(b, 0x10) == v && Rd32(b, 0x14) == h && Rd32(b, 0x18) == |es|
    requires Rd32(b, 0x1C) == t && Rd32(b, 0x20) == m && ReadTable(b, h, |es|) == Ok(es)
    ensures Parse(b) == Ok(FirmwareHeader(v, h, m, Rd32(b, 0x24), t, es))
  {
  }

  lemma TableReads(b: seq<byte>, tbl: nat, es: seq<PartitionEntry>)
    requires tbl + |es| * 12 <= |b| && ReadsAs(b, tbl, es)
    requires forall i :: 0 <= i < |es| ==> Fits(b, es[i])
    ensures ReadTable(b, tbl, |es|) == Ok(es)
  {
    var r := ReadTable(b, tbl, |es|);
    assert forall i :: 0 <= i < |es| ==> Fits(b, EntryAt(b, tbl, i));
    assert r.value == es;
  }

  /** Conversely, what was parsed is what the file carries. */
  lemma ParsedBytes(b: seq<byte>)
    requires Parse(b).Ok?
    ensures var fw := Parse(b).value;
            && b[..FIXED_LEN] == FixedHeader(fw.version, fw.headerSize, |fw.parts|, fw.totalSize, fw.chksumMethod)
            && fw.FirstPartitionOffset() <= |b|
            && b[fw.headerSize..fw.FirstPartitionOffset()] == Table(fw.parts)
            && |fw.parts| <= U32_MAX
  {
    var fw := Parse(b).value;
    FixedIff(b, fw.version, fw.headerSize, |fw.parts|, fw.totalSize, fw.chksumMethod);
    TableIff(b, fw.headerSize, fw.parts);
  }
}
