/** The CKSM container that wraps the rootfs and app partitions. */
module CksmContainer {
  import opened Bytes
  import opened Checksum

  const CKSM_MAGIC: seq<byte> := [0x43, 0x4B, 0x53, 0x4D]
  const CKSM_HDR_LEN: nat := 0x40
  const CKSM_CHKSUM_OFF: nat := 0x0C
  /** Length of the fields `build` writes; a shorter buffer makes it panic. */
  const CKSM_FIELDS_LEN: nat := 0x20

  datatype CksmHeader = CksmHeader(
    version: u32, field08: u32, dataOffset: u32, dataLength: u32, field18: u32, field1C: u32)

  function Parse(part: seq<byte>): (h: Option<CksmHeader>)
    ensures h.Some? <==> CKSM_HDR_LEN <= |part| && part[..4] == CKSM_MAGIC
  {
    if |part| < CKSM_HDR_LEN || part[..4] != CKSM_MAGIC then None
    else Some(CksmHeader(Rd32(part, 0x04), Rd32(part, 0x08), Rd32(part, 0x10), Rd32(part, 0x14),
                         Rd32(part, 0x18), Rd32(part, 0x1C)))
  }

  /** A partition is a CKSM container when it holds a whole header that begins with "CKSM". */
  lemma ParsesIff(part: seq<byte>)
    ensures Parse(part).Some? <==> 0x40 <= |part| && part[..4] == [0x43, 0x4B, 0x53, 0x4D]
  {
  }

  function Front(h: CksmHeader): (f: seq<byte>)
    ensures |f| == 0x10
  {
    Four(CKSM_MAGIC, Le32(h.version), Le32(h.field08), Zeros(4))
  }

  function Back(h: CksmHeader, len: nat): (f: seq<byte>)
    ensures |f| == 0x10
  {
    Four(Le32(h.dataOffset), Le32(AsU32(len)), Le32(h.field18), Le32(h.field1C))
  }

  function Fields(h: CksmHeader, len: nat): (f: seq<byte>)
    ensures |f| == CKSM_FIELDS_LEN
  {
    Front(h) + Back(h, len)
  }

  predicate Buildable(h: CksmHeader, payload: seq<byte>) {
    CKSM_FIELDS_LEN <= h.dataOffset as nat + |payload|
  }

  /** Fields first, then the payload over whatever it reaches, then the corrective word. */
  function Unsolved(h: CksmHeader, payload: seq<byte>): (out: seq<byte>)
    requires Buildable(h, payload)
    ensures |out| == h.dataOffset as nat + |payload|
    ensures forall k :: 0 <= k < |out| ==>
                          out[k] == if h.dataOffset as nat <= k then payload[k - h.dataOffset as nat]
                                    else if k < CKSM_FIELDS_LEN then Fields(h, |payload|)[k] else 0
  {
    var off := h.dataOffset as nat;
    Overlay(Overlay(Zeros(off + |payload|), 0, Fields(h, |payload|)), off, payload)
  }

  function Built(h: CksmHeader, payload: seq<byte>): (out: seq<byte>)
    requires Buildable(h, payload)
    ensures |out| == h.dataOffset as nat + |payload|
  {
    Solved(Unsolved(h, payload), CKSM_CHKSUM_OFF)
  }

  /** Of the bytes laid out by `build` only the two at 0x0C are solved for. */
  lemma BuiltBytes(h: CksmHeader, payload: seq<byte>, k: nat)
    requires Buildable(h, payload) && k < |Built(h, payload)| && k != 0x0C && k != 0x0D
    ensures Built(h, payload)[k] == if h.dataOffset as nat <= k then payload[k - h.dataOffset as nat]
                                    else if k < 0x20 then Fields(h, |payload|)[k] else 0
    ensures IsValid(Built(h, payload))
  {
    assert CKSM_CHKSUM_OFF % 2 == 0;
    SolvedIsValid(Unsolved(h, payload), CKSM_CHKSUM_OFF);
  }

  method WriteFront(out: array<byte>, h: CksmHeader)
    requires 0x10 <= out.Length && forall k :: 0x0C <= k < 0x10 ==> out[k] == 0
    modifies out
    ensures out[..0x10] == Front(h) && forall k :: 0x10 <= k < out.Length ==> out[k] == old(out[k])
  {
    PutNext(out, 0x00, CKSM_MAGIC);
    PutNext(out, 0x04, Le32(h.version));
    PutNext(out, 0x08, Le32(h.field08));
    assert out[..0x0C] == CKSM_MAGIC + Le32(h.version) + Le32(h.field08);
    assert out[..0x10] == out[..0x0C] + Zeros(4);
  }

  method WriteBack(out: array<byte>, h: CksmHeader, len: nat)
    requires 0x20 <= out.Length
    modifies out
    ensures out[..0x20] == old(out[..0x10]) + Back(h, len)
    ensures forall k :: 0x20 <= k < out.Length ==> out[k] == old(out[k])
  {
    ghost var was := out[..0x10];
    PutNext(out, 0x10, Le32(h.dataOffset));
    PutNext(out, 0x14, Le32(AsU32(len)));
    assert out[..0x18] == was + (Le32(h.dataOffset) + Le32(AsU32(len)));
    PutNext(out, 0x18, Le32(h.field18));
    assert out[..0x1C] == was + (Le32(h.dataOffset) + Le32(AsU32(len)) + Le32(h.field18));
    PutNext(out, 0x1C, Le32(h.field1C));
    assert out[..0x20] == was + (Le32(h.dataOffset) + Le32(AsU32(len)) + Le32(h.field18) + Le32(h.field1C));
  }

  method WriteFields(out: array<byte>, h: CksmHeader, len: nat)
    requires CKSM_FIELDS_LEN <= out.Length && forall k :: 0 <= k < out.Length ==> out[k] == 0
    modifies out
    ensures out[..] == Overlay(Zeros(out.Length), 0, Fields(h, len))
  {
    WriteFront(out, h);
    WriteBack(out, h, len);
    assert out[0x20..] == Zeros(out.Length - 0x20);
    assert out[..] == out[..0x20] + out[0x20..];
    FieldsOverZeros(Fields(h, len), out.Length);
  }

  lemma FieldsOverZeros(f: seq<byte>, n: nat)
    requires |f| <= n
    ensures f + Zeros(n - |f|) == Overlay(Zeros(n), 0, f)
  {
  }

  method WriteUnsolved(h: CksmHeader, payload: seq<byte>) returns (out: array<byte>)
    requires Buildable(h, payload)
    ensures fresh(out) && out[..] == Unsolved(h, payload)
  {
    var off := h.dataOffset as nat;
    out := new byte[off + |payload|](_ => 0);
    WriteFields(out, h, |payload|);
    Put(out, off, payload);
  }

  method Build(h: CksmHeader, payload: seq<byte>) returns (out: array<byte>)
    requires Buildable(h, payload)
    ensures fresh(out) && out[..] == Built(h, payload)
  {
    out := WriteUnsolved(h, payload);
    var _ := Solve(out, CKSM_CHKSUM_OFF);
  }

  lemma FieldSlices(h: CksmHeader, len: nat)
    ensures var f := Fields(h, len);
            && f[0x00..0x04] == CKSM_MAGIC && f[0x04..0x08] == Le32(h.version)
            && f[0x08..0x0C] == Le32(h.field08) && f[0x0C..0x10] == Zeros(4)
            && f[0x10..0x14] == Le32(h.dataOffset) && f[0x14..0x18] == Le32(AsU32(len))
            && f[0x18..0x1C] == Le32(h.field18) && f[0x1C..0x20] == Le32(h.field1C)
  {
  }

  /** A blob whose header fields are those of h parses as h. */
  lemma ParseFields(b: seq<byte>, h: CksmHeader, len: nat)
    requires CKSM_HDR_LEN <= |b|
    requires b[..0x0C] == Fields(h, len)[..0x0C] && b[0x10..0x20] == Fields(h, len)[0x10..0x20]
    ensures Parse(b) == Some(h.(dataLength := AsU32(len)))
  {
    var f := Fields(h, len);
    FieldSlices(h, len);
    Field(b, f, 0x00, 0x00, 0x0C);
    Field(b, f, 0x04, 0x00, 0x0C);
    Field(b, f, 0x08, 0x00, 0x0C);
    Field(b, f, 0x10, 0x10, 0x20);
    Field(b, f, 0x14, 0x10, 0x20);
    Field(b, f, 0x18, 0x10, 0x20);
    Field(b, f, 0x1C, 0x10, 0x20);
    Rd32Iff(b, 0x04, h.version);
    Rd32Iff(b, 0x08, h.field08);
    Rd32Iff(b, 0x10, h.dataOffset);
    Rd32Iff(b, 0x14, AsU32(len));
    Rd32Iff(b, 0x18, h.field18);
    Rd32Iff(b, 0x1C, h.field1C);
  }

  lemma Field(b: seq<byte>, f: seq<byte>, off: nat, lo: nat, hi: nat)
    requires lo <= off && off + 4 <= hi <= |f| && hi <= |b| && b[lo..hi] == f[lo..hi]
    ensures b[off..off + 4] == f[off..off + 4]
  {
    forall k | off <= k < off + 4
      ensures b[k] == f[k]
    {
      assert b[lo..hi][k - lo] == f[lo..hi][k - lo];
    }
  }

  /** What a partition and a payload file must look like for `build` to reproduce the partition. */
  ghost predicate Fits(part: seq<byte>, payload: seq<byte>)
    requires Parse(part).Some?
  {
    Agrees(part, payload) && IsValid(part)
  }

  ghost predicate Agrees(part: seq<byte>, payload: seq<byte>)
    requires Parse(part).Some?
  {
    var off := Rd32(part, 0x10) as nat;
    && off + |payload| == |part|
    && (forall k :: off <= k < |part| && k != 0x0C && k != 0x0D ==> part[k] == payload[k - off])
    && (forall k :: 0x14 <= k < 0x18 && k < off ==> part[k] == Le32(AsU32(|payload|))[k - 0x14])
    && SpareZero(part, off)
  }

  /** The header bytes no field names are zero, as far as the payload does not reach. */
  ghost predicate SpareZero(part: seq<byte>, off: nat)
    requires off <= |part|
  {
    forall k :: (0x0E <= k < 0x10 || CKSM_FIELDS_LEN <= k) && k < off ==> part[k] == 0
  }

  lemma RebuildIff(part: seq<byte>, payload: seq<byte>)
    requires Parse(part).Some?
    ensures Buildable(Parse(part).value, payload) && Built(Parse(part).value, payload) == part
       <==> Fits(part, payload)
  {
    var h := Parse(part).value;
    var off := h.dataOffset as nat;
    if off + |payload| == |part| {
      var u := Unsolved(h, payload);
      if Fits(part, payload) {
        UnsolvedAgrees(part, payload);
        SolvedIgnoresSlot(u, part, CKSM_CHKSUM_OFF);
        SolveIdentity(part, CKSM_CHKSUM_OFF);
      }
      if Solved(u, CKSM_CHKSUM_OFF) == part {
        SolvedIsValid(u, CKSM_CHKSUM_OFF);
        UnsolvedAgreesOnly(part, payload);
      }
    }
  }

  lemma UnsolvedAgrees(part: seq<byte>, payload: seq<byte>)
    requires Parse(part).Some? && Agrees(part, payload)
    ensures var u := Unsolved(Parse(part).value, payload);
            forall k :: 0 <= k < |part| && k != 0x0C && k != 0x0D ==> u[k] == part[k]
  {
    var u := Unsolved(Parse(part).value, payload);
    forall k | 0 <= k < |part| && k != 0x0C && k != 0x0D
      ensures u[k] == part[k]
    {
      UnsolvedAgreesAt(part, payload, k);
    }
  }

  lemma UnsolvedAgreesAt(part: seq<byte>, payload: seq<byte>, k: nat)
    requires Parse(part).Some? && Agrees(part, payload) && k < |part| && k != 0x0C && k != 0x0D
    ensures Unsolved(Parse(part).value, payload)[k] == part[k]
  {
    var h := Parse(part).value;
    if k < h.dataOffset as nat && k < CKSM_FIELDS_LEN {
      FieldsOfParsed(part, |payload|);
      assert Unsolved(h, payload)[k] == Fields(h, |payload|)[k];
    }
  }

  lemma UnsolvedAgreesOnly(part: seq<byte>, payload: seq<byte>)
    requires Parse(part).Some?
    requires Parse(part).value.dataOffset as nat + |payload| == |part|
    requires var u := Unsolved(Parse(part).value, payload);
             forall k :: 0 <= k < |part| && k != 0x0C && k != 0x0D ==> u[k] == part[k]
    ensures Agrees(part, payload)
  {
    var h := Parse(part).value;
    FieldsOfParsed(part, |payload|);
    AgreesWhen(part, payload, Unsolved(h, payload), Fields(h, |payload|), h.dataOffset, Le32(AsU32(|payload|)));
  }

  lemma AgreesWhen(part: seq<byte>, payload: seq<byte>, u: seq<byte>, f: seq<byte>, off: nat, len: seq<byte>)
    requires Parse(part).Some? && off == Rd32(part, 0x10) && len == Le32(AsU32(|payload|))
    requires off + |payload| == |part| == |u| && |f| == CKSM_FIELDS_LEN
    requires forall k :: off <= k < |u| ==> u[k] == payload[k - off]
    requires forall k :: 0 <= k < off ==> u[k] == if k < CKSM_FIELDS_LEN then f[k] else 0
    requires forall k :: 0 <= k < |u| && k != 0x0C && k != 0x0D ==> u[k] == part[k]
    requires forall k :: 0x0C <= k < 0x10 ==> f[k] == 0
    requires forall k :: 0x14 <= k < 0x18 ==> f[k] == len[k - 0x14]
    ensures Agrees(part, payload)
  {
    TailAgrees(part, payload, u, off);
    MiddleAgrees(part, len, u, f, off);
  }

  lemma TailAgrees(part: seq<byte>, payload: seq<byte>, u: seq<byte>, off: nat)
    requires off + |payload| == |part| == |u|
    requires forall k :: off <= k < |u| ==> u[k] == payload[k - off]
    requires forall k :: 0 <= k < |u| && k != 0x0C && k != 0x0D ==> u[k] == part[k]
    ensures forall k :: off <= k < |part| && k != 0x0C && k != 0x0D ==> part[k] == payload[k - off]
  {
  }

  lemma MiddleAgrees(part: seq<byte>, len: seq<byte>, u: seq<byte>, f: seq<byte>, off: nat)
    requires |u| == |part| && off <= |u| && |f| == CKSM_FIELDS_LEN && |len| == 4
    requires forall k :: 0 <= k < off ==> u[k] == if k < CKSM_FIELDS_LEN then f[k] else 0
    requires forall k :: 0 <= k < |u| && k != 0x0C && k != 0x0D ==> u[k] == part[k]
    requires forall k :: 0x0C <= k < 0x10 ==> f[k] == 0
    requires forall k :: 0x14 <= k < 0x18 ==> f[k] == len[k - 0x14]
    ensures (forall k :: 0x14 <= k < 0x18 && k < off ==> part[k] == len[k - 0x14]) && SpareZero(part, off)
  {
  }

  /** Outside its length field, its corrective word and two spare bytes, a parsed header is its fields. */
  lemma FieldsOfParsed(part: seq<byte>, len: nat)
    requires Parse(part).Some?
    ensures var f := Fields(Parse(part).value, len);
            && (forall k :: (0 <= k < 0x0C || 0x10 <= k < 0x14 || 0x18 <= k < 0x20) ==> f[k] == part[k])
            && (forall k :: 0x0C <= k < 0x10 ==> f[k] == 0)
            && (forall k :: 0x14 <= k < 0x18 ==> f[k] == Le32(AsU32(len))[k - 0x14])
  {
    var h := Parse(part).value;
    Rd32Iff(part, 0x04, h.version);
    Rd32Iff(part, 0x08, h.field08);
    Rd32Iff(part, 0x10, h.dataOffset);
    Rd32Iff(part, 0x18, h.field18);
    Rd32Iff(part, 0x1C, h.field1C);
    var f := Fields(h, len);
    FieldSlices(h, len);
    SlicesAgree(f, part);
    assert forall k :: 0x0C <= k < 0x10 ==> f[k] == f[0x0C..0x10][k - 0x0C];
    assert forall k :: 0x14 <= k < 0x18 ==> f[k] == f[0x14..0x18][k - 0x14];
  }

  lemma SlicesAgree(f: seq<byte>, part: seq<byte>)
    requires |f| == CKSM_FIELDS_LEN <= |part|
    requires f[0x00..0x04] == part[..4] && f[0x04..0x08] == part[0x04..0x08] && f[0x08..0x0C] == part[0x08..0x0C]
    requires f[0x10..0x14] == part[0x10..0x14] && f[0x18..0x1C] == part[0x18..0x1C] && f[0x1C..0x20] == part[0x1C..0x20]
    ensures forall k :: (0 <= k < 0x0C || 0x10 <= k < 0x14 || 0x18 <= k < 0x20) ==> f[k] == part[k]
  {
    assert f[0x00..0x0C] == f[0x00..0x04] + f[0x04..0x08] + f[0x08..0x0C];
    assert part[0x00..0x0C] == part[..4] + part[0x04..0x08] + part[0x08..0x0C];
    assert f[0x18..0x20] == f[0x18..0x1C] + f[0x1C..0x20];
    assert part[0x18..0x20] == part[0x18..0x1C] + part[0x1C..0x20];
    assert forall k :: 0 <= k < 0x0C ==> f[k] == f[0x00..0x0C][k] && part[k] == part[0x00..0x0C][k];
    assert forall k :: 0x10 <= k < 0x14 ==> f[k] == f[0x10..0x14][k - 0x10] && part[k] == part[0x10..0x14][k - 0x10];
    assert forall k :: 0x18 <= k < 0x20 ==> f[k] == f[0x18..0x20][k - 0x18] && part[k] == part[0x18..0x20][k - 0x18];
  }

  /** With the partition's own payload, the condition is the container's documented shape. */
  lemma FitsOwnPayload(part: seq<byte>)
    requires Parse(part).Some?
    requires Parse(part).value.dataOffset as nat + Parse(part).value.dataLength as nat <= |part|
    ensures var h := Parse(part).value;
            var off, end := h.dataOffset as nat, h.dataOffset as nat + h.dataLength as nat;
            Fits(part, part[off..end]) <==>
            && end == |part|
            && SpareZero(part, off)
            && IsValid(part)
  {
    var h := Parse(part).value;
    var off, end := h.dataOffset as nat, h.dataOffset as nat + h.dataLength as nat;
    Rd32Iff(part, 0x14, h.dataLength);
    if end == |part| {
      assert AsU32(|part[off..end]|) == h.dataLength;
      forall k | 0x14 <= k < 0x18
        ensures part[k] == Le32(h.dataLength)[k - 0x14]
      {
        assert part[k] == part[0x14..0x18][k - 0x14];
      }
    }
  }

  /** `build` writes the payload's own length, whatever the header it is given says. */
  lemma LengthIsRecomputed(h: CksmHeader, len: u32, payload: seq<byte>)
    ensures var g := h.(dataLength := len);
            Buildable(h, payload) == Buildable(g, payload)
            && (Buildable(h, payload) ==> Built(h, payload) == Built(g, payload))
  {
    var g := h.(dataLength := len);
    assert Front(h) == Front(g) && Back(h, |payload|) == Back(g, |payload|);
    if Buildable(h, payload) {
      assert Unsolved(h, payload) == Unsolved(g, payload);
    }
  }

  // ----- small data offsets, where the payload overwrites header fields

  /** Field bytes f under a payload that starts at off, the corrective word aside. */
  ghost predicate Covered(b: seq<byte>, f: seq<byte>, payload: seq<byte>, off: nat) {
    && |b| == off + |payload| && |f| == CKSM_FIELDS_LEN <= |b|
    && forall k :: 0 <= k < |b| && k != 0x0C && k != 0x0D ==>
                     b[k] == if off <= k then payload[k - off] else if k < CKSM_FIELDS_LEN then f[k] else 0
  }

  lemma SolvedIsCovered(u: seq<byte>, f: seq<byte>, payload: seq<byte>, off: nat)
    requires Covered(u, f, payload, off)
    ensures Covered(Solved(u, CKSM_CHKSUM_OFF), f, payload, off)
  {
    var b := Solved(u, CKSM_CHKSUM_OFF);
    assert forall k :: 0 <= k < |u| && k != 0x0C && k != 0x0D ==> b[k] == u[k];
  }

  lemma BuiltIsCovered(h: CksmHeader, payload: seq<byte>)
    requires Buildable(h, payload)
    ensures Covered(Built(h, payload), Fields(h, |payload|), payload, h.dataOffset)
  {
    SolvedIsCovered(Unsolved(h, payload), Fields(h, |payload|), payload, h.dataOffset);
  }

  /** Where the payload reaches into bytes lo to hi of the fields, it repeats them. */
  ghost predicate Repeats(f: seq<byte>, payload: seq<byte>, off: nat, lo: nat, hi: nat) {
    forall k :: lo <= k < hi && off <= k && k < |f| && k < off + |payload| ==> payload[k - off] == f[k]
  }

  lemma RangeIff(b: seq<byte>, f: seq<byte>, payload: seq<byte>, off: nat, lo: nat, hi: nat)
    requires Covered(b, f, payload, off) && lo <= hi <= CKSM_FIELDS_LEN && (hi <= 0x0C || 0x0E <= lo)
    ensures b[lo..hi] == f[lo..hi] <==> Repeats(f, payload, off, lo, hi)
  {
    if b[lo..hi] == f[lo..hi] {
      forall k | lo <= k < hi && off <= k
        ensures payload[k - off] == f[k]
      {
        assert b[lo..hi][k - lo] == f[lo..hi][k - lo];
      }
    }
  }

  ghost predicate RepeatsFields(h: CksmHeader, payload: seq<byte>) {
    var f, off := Fields(h, |payload|), h.dataOffset as nat;
    Repeats(f, payload, off, 0x00, 0x0C) && Repeats(f, payload, off, 0x10, 0x20)
  }

  ghost predicate RepeatsMagicAndOffset(h: CksmHeader, payload: seq<byte>) {
    var f, off := Fields(h, |payload|), h.dataOffset as nat;
    Repeats(f, payload, off, 0x00, 0x04) && Repeats(f, payload, off, 0x10, 0x14)
  }

  /** The corrective word leaves the payload bytes it lands on as they were. */
  ghost predicate SlotSpared(u: seq<byte>, payload: seq<byte>, off: nat)
    requires CKSM_FIELDS_LEN <= |u| == off + |payload|
  {
    && (off <= 0x0C ==> IsValid(u))
    && (off == 0x0D ==> CorrectiveWord(u, CKSM_CHKSUM_OFF) / 0x100 == payload[0])
  }

  lemma ParseFieldsIff(b: seq<byte>, h: CksmHeader, len: nat)
    requires CKSM_HDR_LEN <= |b|
    ensures Parse(b) == Some(h.(dataLength := AsU32(len))) <==>
            b[0x00..0x0C] == Fields(h, len)[0x00..0x0C] && b[0x10..0x20] == Fields(h, len)[0x10..0x20]
  {
    if b[0x00..0x0C] == Fields(h, len)[0x00..0x0C] && b[0x10..0x20] == Fields(h, len)[0x10..0x20] {
      ParseFields(b, h, len);
    }
    if Parse(b) == Some(h.(dataLength := AsU32(len))) {
      ParsedFields(b, h, len);
    }
  }

  lemma ParsedFields(b: seq<byte>, h: CksmHeader, len: nat)
    requires Parse(b) == Some(h.(dataLength := AsU32(len)))
    ensures b[0x00..0x0C] == Fields(h, len)[0x00..0x0C] && b[0x10..0x20] == Fields(h, len)[0x10..0x20]
  {
    var f := Fields(h, len);
    FieldsOfParsed(b, len);
    assert Fields(Parse(b).value, len) == f;
    Rd32Iff(b, 0x14, AsU32(len));
    assert forall k :: 0x14 <= k < 0x18 ==> b[k] == b[0x14..0x18][k - 0x14];
  }

  lemma TailAfterSlot(u: seq<byte>, payload: seq<byte>)
    requires CKSM_FIELDS_LEN <= |u| && u[0x0D..] == payload
    ensures Solved(u, CKSM_CHKSUM_OFF)[0x0D..] == payload <==> CorrectiveWord(u, CKSM_CHKSUM_OFF) / 0x100 == payload[0]
  {
    var b, w := Solved(u, CKSM_CHKSUM_OFF), Le16(CorrectiveWord(u, CKSM_CHKSUM_OFF));
    assert b[0x0D] == w[1];
    assert forall k :: 0x0E <= k < |u| ==> b[k] == u[k];
    if b[0x0D] == payload[0] {
      forall k | 0 <= k < |payload|
        ensures b[0x0D..][k] == payload[k]
      {
        assert payload[k] == u[0x0D + k];
      }
    }
  }

  lemma TailBeforeSlot(u: seq<byte>, payload: seq<byte>, off: nat)
    requires CKSM_FIELDS_LEN <= |u| && off <= 0x0C && u[off..] == payload
    ensures Solved(u, CKSM_CHKSUM_OFF)[off..] == payload <==> IsValid(u)
  {
    SolveIdentity(u, CKSM_CHKSUM_OFF);
    SameFront(u, off);
    SameTail(Solved(u, CKSM_CHKSUM_OFF), u, off);
  }

  lemma SameFront(u: seq<byte>, off: nat)
    requires CKSM_FIELDS_LEN <= |u| && off <= 0x0C
    ensures Solved(u, CKSM_CHKSUM_OFF)[..off] == u[..off]
  {
    var b := Solved(u, CKSM_CHKSUM_OFF);
    assert forall k :: 0 <= k < off ==> b[k] == u[k];
  }

  lemma SameTail(b: seq<byte>, u: seq<byte>, off: nat)
    requires |b| == |u| && off <= |u| && b[..off] == u[..off]
    ensures b[off..] == u[off..] <==> b == u
  {
    assert b == b[..off] + b[off..] && u == u[..off] + u[off..];
  }

  lemma SlotSparedIff(u: seq<byte>, payload: seq<byte>, off: nat)
    requires CKSM_FIELDS_LEN <= |u| && off <= |u| && u[off..] == payload
    ensures Solved(u, CKSM_CHKSUM_OFF)[off..] == payload <==> SlotSpared(u, payload, off)
  {
    if off <= 0x0C {
      TailBeforeSlot(u, payload, off);
    } else if off == 0x0D {
      TailAfterSlot(u, payload);
    } else {
      assert Solved(u, CKSM_CHKSUM_OFF)[off..] == u[off..];
    }
  }

  /** Nothing the payload covers comes out different, and the whole is long enough to be recognised. */
  ghost predicate ReadsBack(h: CksmHeader, payload: seq<byte>) {
    && Buildable(h, payload) && CKSM_HDR_LEN <= h.dataOffset as nat + |payload|
    && RepeatsFields(h, payload) && SlotSpared(Unsolved(h, payload), payload, h.dataOffset)
  }

  lemma UnsolvedTail(h: CksmHeader, payload: seq<byte>)
    requires Buildable(h, payload)
    ensures Unsolved(h, payload)[h.dataOffset..] == payload
  {
  }

  /** Parsing and slicing give back header and payload exactly when nothing the payload covers comes out different. */
  lemma ParseBuiltIff(h: CksmHeader, payload: seq<byte>)
    requires Buildable(h, payload)
    ensures (Parse(Built(h, payload)) == Some(h.(dataLength := AsU32(|payload|)))
             && Built(h, payload)[h.dataOffset..] == payload)
       <==> ReadsBack(h, payload)
  {
    UnsolvedTail(h, payload);
    SlotSparedIff(Unsolved(h, payload), payload, h.dataOffset);
    BuiltParseIff(h, payload);
  }

  lemma BuiltParseIff(h: CksmHeader, payload: seq<byte>)
    requires Buildable(h, payload)
    ensures Parse(Built(h, payload)) == Some(h.(dataLength := AsU32(|payload|))) <==>
            CKSM_HDR_LEN <= h.dataOffset as nat + |payload| && RepeatsFields(h, payload)
  {
    var b, f, off := Built(h, payload), Fields(h, |payload|), h.dataOffset as nat;
    if CKSM_HDR_LEN <= |b| {
      ParseFieldsIff(b, h, |payload|);
      BuiltIsCovered(h, payload);
      RangeIff(b, f, payload, off, 0x00, 0x0C);
      RangeIff(b, f, payload, off, 0x10, 0x20);
    }
  }

  /** Bytes that read back the data offset agree with the payload everywhere else. */
  lemma CoveredAgrees(b: seq<byte>, f: seq<byte>, payload: seq<byte>, off: nat)
    requires Parse(b).Some? && Covered(b, f, payload, off)
    requires f[0x0C..0x10] == Zeros(4) && f[0x14..0x18] == Le32(AsU32(|payload|))
    ensures Agrees(b, payload) <==> Rd32(b, 0x10) == off
  {
    SpareUnderPayload(b, f, payload, off);
    var len := Le32(AsU32(|payload|));
    forall k | 0x14 <= k < 0x18 && k < off
      ensures b[k] == len[k - 0x14]
    {
      assert b[k] == f[k] == f[0x14..0x18][k - 0x14];
    }
  }

  lemma SpareUnderPayload(b: seq<byte>, f: seq<byte>, payload: seq<byte>, off: nat)
    requires Covered(b, f, payload, off) && f[0x0C..0x10] == Zeros(4)
    ensures SpareZero(b, off)
  {
    assert f[0x0E] == f[0x0C..0x10][2] && f[0x0F] == f[0x0C..0x10][3];
  }

  /** A built container is recognised and rebuilds from its own payload exactly when magic and offset survive in it. */
  lemma BuiltIsCanonicalIff(h: CksmHeader, payload: seq<byte>)
    requires Buildable(h, payload)
    ensures (Parse(Built(h, payload)).Some? && Fits(Built(h, payload), payload))
       <==> (CKSM_HDR_LEN <= h.dataOffset as nat + |payload| && RepeatsMagicAndOffset(h, payload))
  {
    var b, f, off := Built(h, payload), Fields(h, |payload|), h.dataOffset as nat;
    BuiltIsCovered(h, payload);
    FieldSlices(h, |payload|);
    SolvedIsValid(Unsolved(h, payload), CKSM_CHKSUM_OFF);
    RangeIff(b, f, payload, off, 0x00, 0x04);
    RangeIff(b, f, payload, off, 0x10, 0x14);
    RecognisedIff(b, f, payload, h.dataOffset);
  }

  lemma RecognisedIff(b: seq<byte>, f: seq<byte>, payload: seq<byte>, off: u32)
    requires Covered(b, f, payload, off) && IsValid(b) && f[0x00..0x04] == CKSM_MAGIC && f[0x10..0x14] == Le32(off)
    requires f[0x0C..0x10] == Zeros(4) && f[0x14..0x18] == Le32(AsU32(|payload|))
    ensures (Parse(b).Some? && Fits(b, payload))
       <==> (CKSM_HDR_LEN <= |b| && b[0x00..0x04] == f[0x00..0x04] && b[0x10..0x14] == f[0x10..0x14])
  {
    assert b[..4] == b[0x00..0x04];
    Rd32Iff(b, 0x10, off);
    if Parse(b).Some? {
      CoveredAgrees(b, f, payload, off);
    }
  }

  /** What reads back is also in the shape that rebuilds from its own payload. */
  lemma BuiltIsCanonical(h: CksmHeader, payload: seq<byte>)
    requires ReadsBack(h, payload) && |payload| <= U32_MAX
    ensures var b := Built(h, payload);
            && Parse(b) == Some(h.(dataLength := |payload|)) && b[h.dataOffset..] == payload
            && Fits(b, payload) && SpareZero(b, h.dataOffset)
  {
    ParseBuiltIff(h, payload);
    BuiltIsCanonicalIff(h, payload);
  }

  /** In particular whenever the payload starts past the fields. */
  lemma ParseBuilt(h: CksmHeader, payload: seq<byte>)
    requires CKSM_FIELDS_LEN <= h.dataOffset && CKSM_HDR_LEN <= h.dataOffset as nat + |payload|
    requires |payload| <= U32_MAX
    ensures Parse(Built(h, payload)) == Some(h.(dataLength := |payload|))
    ensures Built(h, payload)[h.dataOffset..] == payload
    ensures IsValid(Built(h, payload))
  {
    BuiltIsCanonical(h, payload);
  }
}
