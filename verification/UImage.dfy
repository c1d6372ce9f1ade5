/** The U-Boot legacy uImage container that wraps the kernel partition. */
module UImageContainer {
  import opened Bytes
  import Crc32
  import Utf8

  const UIMAGE_MAGIC: u32 := 0x2705_1956
  const UIMAGE_HDR_LEN: nat := 0x40
  const NAME_LEN: nat := 32

  /** The name is held as the UTF-8 bytes of the string. */
  datatype UImageHeader = UImageHeader(
    time: u32, load: u32, entry: u32, os: byte, arch: byte, imgType: byte, comp: byte, name: seq<byte>)

  function Parse(part: seq<byte>): (h: Option<UImageHeader>)
    ensures h.Some? <==> UIMAGE_HDR_LEN <= |part| && RdBe32(part, 0) == UIMAGE_MAGIC
  {
    if |part| < UIMAGE_HDR_LEN || RdBe32(part, 0) != UIMAGE_MAGIC then None
    else Some(UImageHeader(RdBe32(part, 0x08), RdBe32(part, 0x10), RdBe32(part, 0x14),
                           part[0x1C], part[0x1D], part[0x1E], part[0x1F],
                           Utf8.Lossy(UpToNul(part[0x20..0x40]))))
  }

  lemma MagicBytes()
    ensures Be32(UIMAGE_MAGIC) == [0x27, 0x05, 0x19, 0x56]
  {
  }

  /** A partition is a uImage when it holds a whole header that begins with the four magic bytes. */
  lemma ParsesIff(part: seq<byte>)
    ensures Parse(part).Some? <==> 0x40 <= |part| && part[..4] == [0x27, 0x05, 0x19, 0x56]
  {
    MagicBytes();
    if 0x40 <= |part| {
      RdBe32Iff(part, 0, UIMAGE_MAGIC);
      assert part[0..4] == part[..4];
    }
  }

  /** The name as stored: at most 31 bytes, so that a NUL always follows. */
  function CutName(name: seq<byte>): (n: seq<byte>)
    ensures |n| < NAME_LEN && n <= name && (n == name || |n| == 31)
  {
    if |name| < NAME_LEN then name else name[..31]
  }

  function NameField(name: seq<byte>): (f: seq<byte>)
    ensures |f| == NAME_LEN
  {
    CutName(name) + Zeros(NAME_LEN - |CutName(name)|)
  }

  function Front(h: UImageHeader, len: u32, hcrc: u32): (b: seq<byte>)
    ensures |b| == 0x10
  {
    Four(Be32(UIMAGE_MAGIC), Be32(hcrc), Be32(h.time), Be32(len))
  }

  function Middle(h: UImageHeader, dcrc: u32): (b: seq<byte>)
    ensures |b| == 0x10
  {
    Four(Be32(h.load), Be32(h.entry), Be32(dcrc), [h.os, h.arch, h.imgType, h.comp])
  }

  function HeaderBytes(h: UImageHeader, len: u32, dcrc: u32, hcrc: u32): (b: seq<byte>)
    ensures |b| == UIMAGE_HDR_LEN
  {
    Front(h, len, hcrc) + (Middle(h, dcrc) + NameField(h.name))
  }

  /** The header checksum is taken with its own field zero. */
  function Built(h: UImageHeader, payload: seq<byte>): (out: seq<byte>)
    ensures |out| == UIMAGE_HDR_LEN + |payload|
  {
    var len, dcrc := AsU32(|payload|), Crc32.Crc32(payload);
    HeaderBytes(h, len, dcrc, Crc32.Crc32(HeaderBytes(h, len, dcrc, 0))) + payload
  }

  method WriteFront(a: array<byte>, h: UImageHeader, len: u32)
    requires 0x10 <= a.Length && forall k :: 0 <= k < 0x10 ==> a[k] == 0
    modifies a
    ensures a[..0x10] == Front(h, len, 0) && forall k :: 0x10 <= k < a.Length ==> a[k] == old(a[k])
  {
    PutNext(a, 0x00, Be32(UIMAGE_MAGIC));
    assert Be32(0) == Zeros(4);
    assert a[..0x08] == a[..0x04] + Zeros(4);
    PutNext(a, 0x08, Be32(h.time));
    assert a[..0x0C] == Be32(UIMAGE_MAGIC) + Be32(0) + Be32(h.time);
    PutNext(a, 0x0C, Be32(len));
  }

  method WriteMiddle(a: array<byte>, h: UImageHeader, dcrc: u32)
    requires 0x20 <= a.Length
    modifies a
    ensures a[..0x20] == old(a[..0x10]) + Middle(h, dcrc)
    ensures forall k :: 0x20 <= k < a.Length ==> a[k] == old(a[k])
  {
    ghost var was := a[..0x10];
    PutNext(a, 0x10, Be32(h.load));
    PutNext(a, 0x14, Be32(h.entry));
    assert a[..0x18] == was + (Be32(h.load) + Be32(h.entry));
    PutNext(a, 0x18, Be32(dcrc));
    assert a[..0x1C] == was + (Be32(h.load) + Be32(h.entry) + Be32(dcrc));
    WriteKind(a, h);
    assert a[..0x20] == was + (Be32(h.load) + Be32(h.entry) + Be32(dcrc) + [h.os, h.arch, h.imgType, h.comp]);
  }

  method WriteKind(a: array<byte>, h: UImageHeader)
    requires 0x20 <= a.Length
    modifies a
    ensures a[..0x20] == old(a[..0x1C]) + [h.os, h.arch, h.imgType, h.comp]
    ensures forall k :: 0x20 <= k < a.Length ==> a[k] == old(a[k])
  {
    a[0x1C] := h.os;
    a[0x1D] := h.arch;
    a[0x1E] := h.imgType;
    a[0x1F] := h.comp;
  }

  lemma PaddedName(a: seq<byte>, front: seq<byte>, n: seq<byte>)
    requires |a| == UIMAGE_HDR_LEN && |front| == 0x20 && |n| < NAME_LEN && a[..0x20 + |n|] == front + n
    requires forall k :: 0x20 + |n| <= k < |a| ==> a[k] == 0
    ensures a == front + (n + Zeros(NAME_LEN - |n|))
  {
    assert a == a[..0x20 + |n|] + a[0x20 + |n|..];
  }

  method WriteHeader(a: array<byte>, h: UImageHeader, len: u32, dcrc: u32)
    requires a.Length == UIMAGE_HDR_LEN && forall k :: 0 <= k < a.Length ==> a[k] == 0
    modifies a
    ensures a[..] == HeaderBytes(h, len, dcrc, 0)
  {
    WriteFront(a, h, len);
    WriteMiddle(a, h, dcrc);
    var n := CutName(h.name);
    ghost var front := a[..0x20];
    PutNext(a, 0x20, n);
    PaddedName(a[..], front, n);
    assert front + (n + Zeros(NAME_LEN - |n|)) == Front(h, len, 0) + (Middle(h, dcrc) + NameField(h.name));
  }

  method Build(h: UImageHeader, payload: seq<byte>) returns (out: seq<byte>)
    ensures out == Built(h, payload)
  {
    var a := new byte[UIMAGE_HDR_LEN](_ => 0);
    var len, dcrc := AsU32(|payload|), Crc32.Crc32(payload);
    WriteHeader(a, h, len, dcrc);
    var hcrc := Crc32.Crc32(a[..]);
    HeaderCrcField(h, len, dcrc, hcrc);
    Put(a, 0x04, Be32(hcrc));
    out := a[..] + payload;
  }

  lemma HeaderCrcField(h: UImageHeader, len: u32, dcrc: u32, hcrc: u32)
    ensures Overlay(HeaderBytes(h, len, dcrc, 0), 0x04, Be32(hcrc)) == HeaderBytes(h, len, dcrc, hcrc)
  {
  }

  // ----- reading a header back

  /** Where each field of a header stands. */
  lemma FieldSlices(h: UImageHeader, len: u32, dcrc: u32, hcrc: u32)
    ensures var b := HeaderBytes(h, len, dcrc, hcrc);
            && b[0x00..0x04] == Be32(UIMAGE_MAGIC) && b[0x04..0x08] == Be32(hcrc)
            && b[0x08..0x0C] == Be32(h.time) && b[0x0C..0x10] == Be32(len)
            && b[0x10..0x14] == Be32(h.load) && b[0x14..0x18] == Be32(h.entry)
            && b[0x18..0x1C] == Be32(dcrc) && b[0x1C..0x20] == [h.os, h.arch, h.imgType, h.comp]
            && b[0x20..0x40] == NameField(h.name)
  {
  }

  /** A header is determined by its nine fields. */
  lemma SlicesDetermine(b: seq<byte>, c: seq<byte>)
    requires |b| == |c| == UIMAGE_HDR_LEN
    requires b[0x00..0x04] == c[0x00..0x04] && b[0x04..0x08] == c[0x04..0x08]
    requires b[0x08..0x0C] == c[0x08..0x0C] && b[0x0C..0x10] == c[0x0C..0x10]
    requires b[0x10..0x14] == c[0x10..0x14] && b[0x14..0x18] == c[0x14..0x18]
    requires b[0x18..0x1C] == c[0x18..0x1C] && b[0x1C..0x20] == c[0x1C..0x20]
    requires b[0x20..0x40] == c[0x20..0x40]
    ensures b == c
  {
  }

  /** The two checks `verify` makes on a uImage partition. */
  predicate DataCrcOk(part: seq<byte>)
    requires UIMAGE_HDR_LEN <= |part|
  {
    RdBe32(part, 0x18) == Crc32.Crc32(part[UIMAGE_HDR_LEN..])
  }

  /** The header as its own CRC sees it, the CRC field zeroed. */
  function Blanked(part: seq<byte>): (h: seq<byte>)
    requires UIMAGE_HDR_LEN <= |part|
    ensures |h| == UIMAGE_HDR_LEN
    ensures forall k :: 0 <= k < UIMAGE_HDR_LEN ==> h[k] == if 4 <= k < 8 then 0 else part[k]
  {
    Overlay(part[..UIMAGE_HDR_LEN], 0x04, Zeros(4))
  }

  predicate HeaderCrcOk(part: seq<byte>)
    requires UIMAGE_HDR_LEN <= |part|
  {
    RdBe32(part, 0x04) == Crc32.Crc32(Blanked(part))
  }

  /** A built container parses back to its header, the name read as stored. */
  lemma ParseBuilt(h: UImageHeader, payload: seq<byte>)
    requires 0 !in CutName(h.name) && Utf8.Valid(CutName(h.name))
    ensures var b := Built(h, payload);
            && Parse(b) == Some(h.(name := CutName(h.name)))
            && RdBe32(b, 0x0C) == AsU32(|payload|) && b[UIMAGE_HDR_LEN..] == payload
  {
    var len, dcrc := AsU32(|payload|), Crc32.Crc32(payload);
    var hcrc := Crc32.Crc32(HeaderBytes(h, len, dcrc, 0));
    var b := HeaderBytes(h, len, dcrc, hcrc) + payload;
    WordsReadBack(b, h, len, dcrc, hcrc);
    NameReadsBack(h.name);
    assert b[UIMAGE_HDR_LEN..] == payload;
  }

  lemma WordsReadBack(b: seq<byte>, h: UImageHeader, len: u32, dcrc: u32, hcrc: u32)
    requires HeaderBytes(h, len, dcrc, hcrc) <= b
    ensures RdBe32(b, 0x00) == UIMAGE_MAGIC && RdBe32(b, 0x04) == hcrc && RdBe32(b, 0x08) == h.time
    ensures RdBe32(b, 0x0C) == len && RdBe32(b, 0x10) == h.load && RdBe32(b, 0x14) == h.entry
    ensures RdBe32(b, 0x18) == dcrc
    ensures b[0x1C] == h.os && b[0x1D] == h.arch && b[0x1E] == h.imgType && b[0x1F] == h.comp
    ensures b[0x20..0x40] == NameField(h.name)
  {
    var hb := HeaderBytes(h, len, dcrc, hcrc);
    FieldSlices(h, len, dcrc, hcrc);
    ReadField(b, hb, 0x00, UIMAGE_MAGIC);
    ReadField(b, hb, 0x04, hcrc);
    ReadField(b, hb, 0x08, h.time);
    ReadField(b, hb, 0x0C, len);
    ReadField(b, hb, 0x10, h.load);
    ReadField(b, hb, 0x14, h.entry);
    ReadField(b, hb, 0x18, dcrc);
    SameSlice(b, hb, 0x1C, 0x20);
    OneByteFields(b, h);
    SameSlice(b, hb, 0x20, 0x40);
  }

  lemma SameSlice(b: seq<byte>, hb: seq<byte>, lo: nat, hi: nat)
    requires lo <= hi <= |hb| && hb <= b
    ensures b[lo..hi] == hb[lo..hi]
  {
  }

  lemma OneByteFields(b: seq<byte>, h: UImageHeader)
    requires 0x20 <= |b|
    requires b[0x1C..0x20] == [h.os, h.arch, h.imgType, h.comp]
    ensures b[0x1C] == h.os && b[0x1D] == h.arch && b[0x1E] == h.imgType && b[0x1F] == h.comp
  {
  }

  lemma NameReadsBack(name: seq<byte>)
    requires 0 !in CutName(name) && Utf8.Valid(CutName(name))
    ensures Utf8.Lossy(UpToNul(NameField(name))) == CutName(name)
  {
    UpToNulPadded(CutName(name), NAME_LEN - |CutName(name)|);
    Utf8.LossyPrefixIff(CutName(name));
  }

  /** The name reads back as stored exactly when the cut leaves it NUL-free and splits no character. */
  lemma NameReadsBackIff(name: seq<byte>)
    ensures Utf8.Lossy(UpToNul(NameField(name))) == CutName(name) <==> 0 !in CutName(name) && Utf8.Valid(CutName(name))
  {
    var c := CutName(name);
    FieldReadsBackIff(c, NAME_LEN - |c|);
    assert NameField(name) == c + Zeros(NAME_LEN - |c|);
  }

  lemma FieldReadsBackIff(c: seq<byte>, pad: nat)
    ensures Utf8.Lossy(UpToNul(c + Zeros(pad))) == c <==> 0 !in c && Utf8.Valid(c)
  {
    Utf8.LossyNulFree(UpToNul(c + Zeros(pad)));
    if 0 !in c {
      UpToNulPadded(c, pad);
      Utf8.LossySameIff(c);
    }
  }

  /** Parsing a built container recovers every field, the name cut to 31 bytes, exactly when the name reads back. */
  lemma ParseBuiltIff(h: UImageHeader, payload: seq<byte>)
    ensures Parse(Built(h, payload)) == Some(h.(name := CutName(h.name)))
       <==> 0 !in CutName(h.name) && Utf8.Valid(CutName(h.name))
    ensures Parse(Built(h, payload)).Some?
  {
    var len, dcrc := AsU32(|payload|), Crc32.Crc32(payload);
    var hcrc := Crc32.Crc32(HeaderBytes(h, len, dcrc, 0));
    WordsReadBack(HeaderBytes(h, len, dcrc, hcrc) + payload, h, len, dcrc, hcrc);
    NameReadsBackIff(h.name);
  }

  lemma BuiltCrcsOk(h: UImageHeader, payload: seq<byte>)
    ensures DataCrcOk(Built(h, payload)) && HeaderCrcOk(Built(h, payload))
  {
    var b := Built(h, payload);
    var len, dcrc := AsU32(|payload|), Crc32.Crc32(payload);
    var hcrc := Crc32.Crc32(HeaderBytes(h, len, dcrc, 0));
    var hb := HeaderBytes(h, len, dcrc, hcrc);
    WordsReadBack(b, h, len, dcrc, hcrc);
    assert b[UIMAGE_HDR_LEN..] == payload && b[..UIMAGE_HDR_LEN] == hb;
    ZeroedCrcField(h, len, dcrc, hcrc);
  }

  lemma ZeroedCrcField(h: UImageHeader, len: u32, dcrc: u32, hcrc: u32)
    ensures Overlay(HeaderBytes(h, len, dcrc, hcrc), 0x04, Zeros(4)) == HeaderBytes(h, len, dcrc, 0)
  {
  }

  lemma ReadField(b: seq<byte>, hb: seq<byte>, off: nat, v: u32)
    requires off + 4 <= |hb| && hb <= b && hb[off..off + 4] == Be32(v)
    ensures RdBe32(b, off) == v
  {
  }

  lemma {:induction false} UpToNulPadded(n: seq<byte>, pad: nat)
    requires 0 !in n
    ensures UpToNul(n + Zeros(pad)) == n
  {
    if n == [] {
    } else {
      assert (n + Zeros(pad))[1..] == n[1..] + Zeros(pad);
      UpToNulPadded(n[1..], pad);
    }
  }

  // ----- when rebuilding a parsed partition is the identity

  /** The name field survives being read as text and written back, cut to 31 bytes. */
  predicate NameSurvives(f: seq<byte>)
    requires |f| == NAME_LEN
  {
    var n := UpToNul(f);
    && |n| < NAME_LEN
    && f[|n|..] == Zeros(NAME_LEN - |n|)
    && (Utf8.Valid(n) || (|n| == 31 && Utf8.EndsInReplacementLead(n)))
  }

  predicate Fits(part: seq<byte>, payload: seq<byte>)
    requires UIMAGE_HDR_LEN <= |part|
  {
    && part[UIMAGE_HDR_LEN..] == payload
    && RdBe32(part, 0x0C) == AsU32(|payload|)
    && DataCrcOk(part)
    && HeaderCrcOk(part)
    && NameSurvives(part[0x20..0x40])
  }

  lemma NameFieldIff(f: seq<byte>)
    requires |f| == NAME_LEN
    ensures NameField(Utf8.Lossy(UpToNul(f))) == f <==> NameSurvives(f)
  {
    if NameSurvives(f) {
      NameSurvivesIf(f);
    }
    if NameField(Utf8.Lossy(UpToNul(f))) == f {
      NameSurvivesOnlyIf(f);
    }
  }

  lemma NameSurvivesOnlyIf(f: seq<byte>)
    requires |f| == NAME_LEN && NameField(Utf8.Lossy(UpToNul(f))) == f
    ensures NameSurvives(f)
  {
    var name := Utf8.Lossy(UpToNul(f));
    Utf8.LossyNulFree(UpToNul(f));
    FieldStarts(f, name);
    ShortLossy(UpToNul(f));
  }

  lemma FieldStarts(f: seq<byte>, name: seq<byte>)
    requires f == NameField(name) && 0 !in name
    ensures var c := CutName(name); UpToNul(f) == c && f[|c|..] == Zeros(NAME_LEN - |c|)
  {
    var c := CutName(name);
    assert 0 !in c;
    UpToNulPadded(c, NAME_LEN - |c|);
  }

  lemma NameSurvivesIf(f: seq<byte>)
    requires |f| == NAME_LEN && NameSurvives(f)
    ensures NameField(Utf8.Lossy(UpToNul(f))) == f
  {
    var n := UpToNul(f);
    Utf8.LossyPrefixIff(n);
    assert CutName(Utf8.Lossy(n)) == n;
    assert f == n + f[|n|..];
  }

  /** A name that reads back longer than stored has been cut at 31 bytes. */
  lemma ShortLossy(n: seq<byte>)
    requires n == CutName(Utf8.Lossy(n))
    ensures Utf8.Valid(n) || (|n| == 31 && Utf8.EndsInReplacementLead(n))
  {
    Utf8.LossyPrefixIff(n);
    if |n| < 31 {
      assert Utf8.Lossy(n) == n;
      Utf8.LossySameIff(n);
    }
  }

  lemma RebuildIff(part: seq<byte>, payload: seq<byte>)
    requires Parse(part).Some?
    ensures Built(Parse(part).value, payload) == part <==> Fits(part, payload)
  {
    var h := Parse(part).value;
    if Built(h, payload) == part {
      RebuiltFits(part, payload);
    }
    if Fits(part, payload) {
      FittingRebuilds(part, payload);
    }
  }

  lemma FittingRebuilds(part: seq<byte>, payload: seq<byte>)
    requires Parse(part).Some? && Fits(part, payload)
    ensures Built(Parse(part).value, payload) == part
  {
    var h := Parse(part).value;
    var hb, len, dcrc, hcrc := part[..UIMAGE_HDR_LEN], AsU32(|payload|), Crc32.Crc32(payload), RdBe32(part, 0x04);
    HeaderOfParsed(part, hb, len, dcrc, hcrc);
    ZeroedCrcField(h, len, dcrc, hcrc);
    Halves(part, payload);
  }

  lemma Halves(part: seq<byte>, payload: seq<byte>)
    requires UIMAGE_HDR_LEN <= |part| && part[UIMAGE_HDR_LEN..] == payload
    ensures part == part[..UIMAGE_HDR_LEN] + payload
  {
  }

  lemma RebuiltFits(part: seq<byte>, payload: seq<byte>)
    requires Parse(part).Some? && Built(Parse(part).value, payload) == part
    ensures Fits(part, payload)
  {
    var h := Parse(part).value;
    var len, dcrc := AsU32(|payload|), Crc32.Crc32(payload);
    var hb := HeaderBytes(h, len, dcrc, Crc32.Crc32(HeaderBytes(h, len, dcrc, 0)));
    assert part == hb + payload;
    WordsReadBack(part, h, len, dcrc, Crc32.Crc32(HeaderBytes(h, len, dcrc, 0)));
    BuiltCrcsOk(h, payload);
    NameFieldIff(part[0x20..0x40]);
  }

  lemma HeaderOfParsed(part: seq<byte>, hb: seq<byte>, len: u32, dcrc: u32, hcrc: u32)
    requires Parse(part).Some? && hb == part[..UIMAGE_HDR_LEN]
    requires RdBe32(part, 0x0C) == len && RdBe32(part, 0x18) == dcrc && RdBe32(part, 0x04) == hcrc
    requires NameSurvives(part[0x20..0x40])
    ensures hb == HeaderBytes(Parse(part).value, len, dcrc, hcrc)
  {
    NameFieldIff(part[0x20..0x40]);
    HeaderOfFields(part, hb, Parse(part).value, len, dcrc, hcrc);
  }

  /** A header whose fields read as those of h is the header written for h. */
  lemma HeaderOfFields(b: seq<byte>, hb: seq<byte>, h: UImageHeader, len: u32, dcrc: u32, hcrc: u32)
    requires |hb| == UIMAGE_HDR_LEN && hb <= b && b[0x20..0x40] == NameField(h.name)
    requires RdBe32(b, 0x00) == UIMAGE_MAGIC && RdBe32(b, 0x04) == hcrc && RdBe32(b, 0x08) == h.time
    requires RdBe32(b, 0x0C) == len && RdBe32(b, 0x10) == h.load && RdBe32(b, 0x14) == h.entry
    requires RdBe32(b, 0x18) == dcrc
    requires b[0x1C] == h.os && b[0x1D] == h.arch && b[0x1E] == h.imgType && b[0x1F] == h.comp
    ensures hb == HeaderBytes(h, len, dcrc, hcrc)
  {
    FieldSlices(h, len, dcrc, hcrc);
    WordAsWritten(b, hb, 0x00, UIMAGE_MAGIC);
    WordAsWritten(b, hb, 0x04, hcrc);
    WordAsWritten(b, hb, 0x08, h.time);
    WordAsWritten(b, hb, 0x0C, len);
    WordAsWritten(b, hb, 0x10, h.load);
    WordAsWritten(b, hb, 0x14, h.entry);
    WordAsWritten(b, hb, 0x18, dcrc);
    FrontAsRead(b, hb);
    SlicesDetermine(hb, HeaderBytes(h, len, dcrc, hcrc));
  }

  lemma FrontAsRead(b: seq<byte>, hb: seq<byte>)
    requires |hb| == UIMAGE_HDR_LEN && hb <= b
    ensures hb[0x1C..0x20] == [b[0x1C], b[0x1D], b[0x1E], b[0x1F]] && hb[0x20..0x40] == b[0x20..0x40]
  {
  }

  lemma WordAsWritten(b: seq<byte>, hb: seq<byte>, off: nat, v: u32)
    requires off + 4 <= |hb| && hb <= b && RdBe32(b, off) == v
    ensures hb[off..off + 4] == Be32(v)
  {
    assert b[off..off + 4] == hb[off..off + 4];
    RdBe32Iff(b, off, v);
  }

  /** Only the first 31 bytes of the name reach the header. */
  lemma NameIsCut(h: UImageHeader, payload: seq<byte>)
    ensures Built(h.(name := CutName(h.name)), payload) == Built(h, payload)
  {
  }

  /** A built container is in the shape that rebuilds from its own payload. */
  lemma BuiltIsCanonical(h: UImageHeader, payload: seq<byte>)
    requires 0 !in CutName(h.name) && Utf8.Valid(CutName(h.name))
    ensures Fits(Built(h, payload), payload)
  {
    ParseBuilt(h, payload);
    NameIsCut(h, payload);
    RebuildIff(Built(h, payload), payload);
  }

  /** The documented shape of a container: its size field covers the rest, both CRCs hold, the name is clean. */
  predicate WellShaped(part: seq<byte>)
    requires UIMAGE_HDR_LEN <= |part|
  {
    UIMAGE_HDR_LEN + RdBe32(part, 0x0C) as nat == |part| && DataCrcOk(part) && HeaderCrcOk(part)
    && NameSurvives(part[0x20..0x40])
  }

  /** With the partition's own payload, the condition is that shape. */
  lemma FitsOwnPayload(part: seq<byte>)
    requires UIMAGE_HDR_LEN <= |part| <= U32_MAX as nat && UIMAGE_HDR_LEN + RdBe32(part, 0x0C) as nat <= |part|
    ensures Fits(part, part[UIMAGE_HDR_LEN..UIMAGE_HDR_LEN + RdBe32(part, 0x0C) as nat]) <==> WellShaped(part)
  {
    var end := UIMAGE_HDR_LEN + RdBe32(part, 0x0C) as nat;
    var own := part[UIMAGE_HDR_LEN..end];
    assert AsU32(|own|) == RdBe32(part, 0x0C);
    if end == |part| {
      assert own == part[UIMAGE_HDR_LEN..];
    }
  }

  lemma FitsPayload(part: seq<byte>, payload: seq<byte>)
    requires UIMAGE_HDR_LEN <= |part| && |payload| <= U32_MAX as nat && Fits(part, payload)
    ensures WellShaped(part) && part[UIMAGE_HDR_LEN..UIMAGE_HDR_LEN + RdBe32(part, 0x0C) as nat] == payload
  {
    PayloadLength(part, payload, RdBe32(part, 0x0C));
  }

  lemma PayloadLength(part: seq<byte>, payload: seq<byte>, len: u32)
    requires UIMAGE_HDR_LEN <= |part| && |payload| <= U32_MAX as nat && part[UIMAGE_HDR_LEN..] == payload
    requires len == AsU32(|payload|)
    ensures UIMAGE_HDR_LEN + len as nat == |part| && part[UIMAGE_HDR_LEN..UIMAGE_HDR_LEN + len as nat] == payload
  {
  }

  // ----- what the two checks catch

  lemma HeaderByteChangeFails(part: seq<byte>, part': seq<byte>, i: nat)
    requires UIMAGE_HDR_LEN <= |part| == |part'| && i < UIMAGE_HDR_LEN && part[i] != part'[i]
    requires forall k :: 0 <= k < |part| && k != i ==> part[k] == part'[k]
    requires HeaderCrcOk(part)
    ensures !HeaderCrcOk(part')
  {
    if 4 <= i < 8 {
      assert Blanked(part) == Blanked(part');
      WordChanges(part, part', i);
    } else {
      assert part[4..8] == part'[4..8];
      SameWord(part, part', 4);
      Crc32.OneByteChangeDetected(Blanked(part), Blanked(part'), i);
    }
  }

  lemma SameWord(part: seq<byte>, part': seq<byte>, off: nat)
    requires off + 4 <= |part| == |part'| && part[off..off + 4] == part'[off..off + 4]
    ensures RdBe32(part, off) == RdBe32(part', off)
  {
  }

  lemma WordChanges(part: seq<byte>, part': seq<byte>, i: nat)
    requires 8 <= |part| == |part'| && 4 <= i < 8 && part[i] != part'[i]
    ensures RdBe32(part, 4) != RdBe32(part', 4)
  {
    RdBe32Iff(part, 4, RdBe32(part', 4));
    RdBe32Iff(part', 4, RdBe32(part', 4));
    assert part[4..8][i - 4] == part[i] && part'[4..8][i - 4] == part'[i];
  }

  lemma DataByteChangeFails(part: seq<byte>, part': seq<byte>, i: nat)
    requires UIMAGE_HDR_LEN <= |part| == |part'| && UIMAGE_HDR_LEN <= i < |part| && part[i] != part'[i]
    requires forall k :: 0 <= k < |part| && k != i ==> part[k] == part'[k]
    requires DataCrcOk(part)
    ensures !DataCrcOk(part')
  {
    var s, t := part[UIMAGE_HDR_LEN..], part'[UIMAGE_HDR_LEN..];
    assert part[0x18..0x1C] == part'[0x18..0x1C];
    SameWord(part, part', 0x18);
    assert s[i - UIMAGE_HDR_LEN] == part[i] && t[i - UIMAGE_HDR_LEN] == part'[i];
    Crc32.OneByteChangeDetected(s, t, i - UIMAGE_HDR_LEN);
  }

  lemma StillRecognised(part: seq<byte>, part': seq<byte>)
    requires Parse(part).Some? && |part| == |part'| && forall k :: 0 <= k < 4 ==> part[k] == part'[k]
    ensures Parse(part').Some?
  {
    assert part[0..4] == part'[0..4];
    SameWord(part, part', 0);
  }

  /** Past the magic, a one-byte change leaves a container recognisable and fails a check it passed before. */
  lemma OneByteChangeFails(part: seq<byte>, part': seq<byte>, i: nat)
    requires Parse(part).Some? && |part| == |part'| && 4 <= i < |part| && part[i] != part'[i]
    requires forall k :: 0 <= k < |part| && k != i ==> part[k] == part'[k]
    requires DataCrcOk(part) && HeaderCrcOk(part)
    ensures Parse(part').Some? && !(if i < UIMAGE_HDR_LEN then HeaderCrcOk(part') else DataCrcOk(part'))
  {
    StillRecognised(part, part');
    if UIMAGE_HDR_LEN <= i {
      DataByteChangeFails(part, part', i);
    } else {
      HeaderByteChangeFails(part, part', i);
    }
  }
}
