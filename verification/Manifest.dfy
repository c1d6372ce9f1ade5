/** The manifest of a split firmware: its fields, its textual integers, its file names and its validation. */
module ManifestModel {
  import opened Bytes
  import opened Errors

  type u64 = x: int | 0 <= x < 0x1_0000_0000_0000_0000

  datatype Container = Raw | Cksm | Uimage

  datatype CksmTable = CksmTable(version: u32, field08: u32, dataOffset: u32, field18: u32, field1C: u32)

  /** The name is held as the UTF-8 bytes of the string. */
  datatype UImageTable = UImageTable(
    name: seq<byte>, time: u32, load: u32, entry: u32, os: byte, arch: byte, imgType: byte, comp: byte)

  datatype Partition = Partition(
    id: u32, name: string, file: string, container: Container, nvtTagOffset: Option<u32>,
    cksm: Option<CksmTable>, uimage: Option<UImageTable>)

  datatype Firmware = Firmware(version: u32, headerSize: u32, chksumMethod: u32, align: u64)

  datatype Manifest = Manifest(firmware: Firmware, partitions: seq<Partition>)

  /** The files beside a manifest, by name. */
  type Directory = map<string, seq<byte>>

  // ----- validation

  predicate IsPowerOfTwo(n: nat) {
    n == 1 || (n % 2 == 0 && 0 < n && IsPowerOfTwo(n / 2))
  }

  predicate HasTable(p: Partition) {
    && (p.container.Cksm? ==> p.cksm.Some?)
    && (p.container.Uimage? ==> p.uimage.Some?)
  }

  function FirstWithoutTable(ps: seq<Partition>, i: nat): (r: Option<nat>)
    requires i <= |ps|
    ensures r.None? <==> forall k :: i <= k < |ps| ==> HasTable(ps[k])
    ensures r.Some? ==> i <= r.value < |ps| && !HasTable(ps[r.value])
                        && forall k :: i <= k < r.value ==> HasTable(ps[k])
    decreases |ps| - i
  {
    if i == |ps| then None else if !HasTable(ps[i]) then Some(i) else FirstWithoutTable(ps, i + 1)
  }

  /** None when the manifest is accepted. */
  function Rejects(m: Manifest): (r: Option<Error>)
    ensures r.None? <==> && m.partitions != [] && IsPowerOfTwo(m.firmware.align)
                         && forall k :: 0 <= k < |m.partitions| ==> HasTable(m.partitions[k])
  {
    if m.partitions == [] then Some(NoPartitions)
    else if m.firmware.align == 0 || !IsPowerOfTwo(m.firmware.align) then Some(BadAlign)
    else match FirstWithoutTable(m.partitions, 0)
         case Some(i) => Some(MissingContainerTable(i))
         case None => None
  }

  ghost predicate IsSomePower(n: nat) {
    exists k: nat :: n == Pow2(k)
  }

  lemma {:induction false} PowerOfTwoIff(n: nat)
    ensures IsPowerOfTwo(n) <==> IsSomePower(n)
  {
    if k: nat :| n == Pow2(k) {
      PowersAre(k);
    }
    if IsPowerOfTwo(n) && n != 1 {
      PowerOfTwoIff(n / 2);
      var k: nat :| n / 2 == Pow2(k);
      assert n == Pow2(k + 1);
    } else {
      assert Pow2(0) == 1;
    }
  }

  lemma {:induction false} PowersAre(k: nat)
    ensures IsPowerOfTwo(Pow2(k))
  {
    if k == 0 {
    } else {
      PowersAre(k - 1);
    }
  }

  ghost predicate LacksTable(p: Partition) {
    (p.container == Cksm && p.cksm == None) || (p.container == Uimage && p.uimage == None)
  }

  /** Exactly which manifests are accepted, and what each of the others is rejected with. */
  lemma RejectsIff(m: Manifest, i: nat)
    ensures var ps, power := m.partitions, IsSomePower(m.firmware.align);
            && (Rejects(m) == None <==> ps != [] && power && forall k :: 0 <= k < |ps| ==> !LacksTable(ps[k]))
            && (Rejects(m) == Some(NoPartitions) <==> ps == [])
            && (Rejects(m) == Some(BadAlign) <==> ps != [] && !power)
            && (Rejects(m) == Some(MissingContainerTable(i)) <==>
                ps != [] && power && i < |ps| && LacksTable(ps[i]) && forall k :: 0 <= k < i ==> !LacksTable(ps[k]))
  {
    PowerOfTwoIff(m.firmware.align);
    assert forall k :: 0 <= k < |m.partitions| ==> (HasTable(m.partitions[k]) <==> !LacksTable(m.partitions[k]));
  }

  // ----- integers as text

  predicate IsDigitChar(c: char) {
    '0' <= c <= '9' || 'a' <= c <= 'f'
  }

  function DigitChar(d: nat): (c: char)
    requires d < 16
    ensures IsDigitChar(c) && DigitValue(c) == Some(d)
  {
    if d < 10 then ('0' as nat + d) as char else ('a' as nat + d - 10) as char
  }

  function DigitValue(c: char): Option<nat> {
    if '0' <= c <= '9' then Some(c as nat - '0' as nat)
    else if 'a' <= c <= 'f' then Some(c as nat - 'a' as nat + 10)
    else if 'A' <= c <= 'F' then Some(c as nat - 'A' as nat + 10)
    else None
  }

  function Print(n: nat, radix: nat): (s: string)
    requires radix == 10 || radix == 16
    ensures s != []
  {
    if n < radix then [DigitChar(n)] else Shrinks(n, radix); Print(n / radix, radix) + [DigitChar(n % radix)]
  }

  lemma Shrinks(n: nat, radix: nat)
    requires (radix == 10 || radix == 16) && radix <= n
    ensures n / radix < n
  {
  }

  function Pad(s: string, width: nat): (r: string)
    ensures |r| >= width && |r| >= |s|
  {
    if |s| < width then seq(width - |s|, _ => '0') + s else s
  }

  /** The value of a digit string; the source's overflow and bad-digit errors are one None here. */
  function Number(s: string, radix: nat): Option<nat> {
    if s == [] then Some(0)
    else
      match (Number(s[..|s| - 1], radix), DigitValue(s[|s| - 1]))
      case (Some(hi), Some(d)) => if d < radix then Some(hi * radix + d) else None
      case _ => None
  }

  function FromRadix(s: string, radix: nat): Option<u32> {
    var digits := if s != [] && s[0] == '+' then s[1..] else s;
    if digits == [] then None
    else match Number(digits, radix)
         case Some(n) => if n <= U32_MAX then Some(n) else None
         case None => None
  }

  /** The characters with the Unicode White_Space property. */
  predicate IsSpace(c: char) {
    || '\t' <= c <= '\r' || c == ' ' || c == '\U{85}' || c == '\U{A0}' || c == '\U{1680}'
    || '\U{2000}' <= c <= '\U{200A}' || c == '\U{2028}' || c == '\U{2029}' || c == '\U{202F}'
    || c == '\U{205F}' || c == '\U{3000}'
  }

  function TrimStart(s: string): string {
    if s != [] && IsSpace(s[0]) then TrimStart(s[1..]) else s
  }

  function TrimEnd(s: string): string {
    if s != [] && IsSpace(s[|s| - 1]) then TrimEnd(s[..|s| - 1]) else s
  }

  /** Hexadecimal after 0x or 0X, decimal otherwise. */
  function ReadTrimmed(t: string): Option<u32> {
    if 2 <= |t| && (t[..2] == "0x" || t[..2] == "0X") then FromRadix(t[2..], 16) else FromRadix(t, 10)
  }

  /** Reading a manifest integer. */
  function ReadU32(s: string): Option<u32> {
    ReadTrimmed(TrimEnd(TrimStart(s)))
  }

  function ShowHex32(v: u32): string {
    "0x" + Pad(Print(v, 16), 8)
  }

  function ShowHex32Opt(v: Option<u32>): Option<string> {
    match v case Some(x) => Some("0x" + Print(x, 16)) case None => None
  }

  function ReadHex32Opt(s: Option<string>): Result<Option<u32>, ()> {
    match s
    case None => Ok(None)
    case Some(t) => match ReadU32(t) case Some(v) => Ok(Some(v)) case None => Err(())
  }

  predicate IsDigits(s: string) {
    s != [] && forall k :: 0 <= k < |s| ==> IsDigitChar(s[k])
  }

  lemma {:induction false} PrintIsDigits(n: nat, radix: nat)
    requires radix == 10 || radix == 16
    ensures IsDigits(Print(n, radix))
  {
    if n < radix {
    } else {
      Shrinks(n, radix);
      PrintIsDigits(n / radix, radix);
    }
  }

  lemma DivMod(n: nat, radix: nat)
    requires radix == 10 || radix == 16
    ensures n / radix * radix + n % radix == n
  {
  }

  lemma NumberSnoc(s: string, c: char, hi: nat, d: nat, radix: nat)
    requires Number(s, radix) == Some(hi) && DigitValue(c) == Some(d) && d < radix
    ensures Number(s + [c], radix) == Some(hi * radix + d)
  {
    var t := s + [c];
    assert t[..|t| - 1] == s && t[|t| - 1] == c;
  }

  lemma NumberPrintStep(n: nat, radix: nat)
    requires (radix == 10 || radix == 16) && radix <= n && Number(Print(n / radix, radix), radix) == Some(n / radix)
    ensures Number(Print(n / radix, radix) + [DigitChar(n % radix)], radix) == Some(n)
  {
    NumberSnoc(Print(n / radix, radix), DigitChar(n % radix), n / radix, n % radix, radix);
    DivMod(n, radix);
  }

  lemma {:induction false} NumberPrint(n: nat, radix: nat)
    requires radix == 10 || radix == 16
    ensures Number(Print(n, radix), radix) == Some(n)
  {
    if n < radix {
      assert Number([], radix) == Some(0);
    } else {
      Shrinks(n, radix);
      NumberPrint(n / radix, radix);
      NumberPrintStep(n, radix);
    }
  }

  lemma {:induction false} NumberZeros(zeros: nat, radix: nat)
    requires radix == 10 || radix == 16
    ensures Number(seq(zeros, _ => '0'), radix) == Some(0)
  {
    if zeros == 0 {
    } else {
      NumberZeros(zeros - 1, radix);
      var z, y := seq(zeros, _ => '0'), seq(zeros - 1, _ => '0');
      assert z[..|z| - 1] == y && z[|z| - 1] == '0';
    }
  }

  lemma {:induction false} NumberPadded(zeros: nat, s: string, radix: nat)
    requires radix == 10 || radix == 16
    ensures Number(seq(zeros, _ => '0') + s, radix) == Number(s, radix)
  {
    var z := seq(zeros, _ => '0');
    if s == [] {
      NumberZeros(zeros, radix);
      assert z + s == z;
    } else {
      NumberPadded(zeros, s[..|s| - 1], radix);
      assert (z + s)[..|z + s| - 1] == z + s[..|s| - 1];
      assert (z + s)[|z + s| - 1] == s[|s| - 1];
    }
  }

  ghost predicate AllSpace(s: string) {
    forall k :: 0 <= k < |s| ==> IsSpace(s[k])
  }

  lemma {:induction false} TrimStartDrops(w: string, s: string)
    requires AllSpace(w) && s != [] && !IsSpace(s[0])
    ensures TrimStart(w + s) == s
  {
    if w == [] {
      assert w + s == s;
    } else {
      assert (w + s)[1..] == w[1..] + s;
      TrimStartDrops(w[1..], s);
    }
  }

  lemma {:induction false} TrimEndDrops(s: string, w: string)
    requires AllSpace(w) && s != [] && !IsSpace(s[|s| - 1])
    ensures TrimEnd(s + w) == s
  {
    if w == [] {
      assert s + w == s;
    } else {
      assert (s + w)[..|s + w| - 1] == s + w[..|w| - 1];
      TrimEndDrops(s, w[..|w| - 1]);
    }
  }

  lemma TrimKeeps(w: string, s: string, w': string)
    requires AllSpace(w) && AllSpace(w') && s != [] && !IsSpace(s[0]) && !IsSpace(s[|s| - 1])
    ensures TrimEnd(TrimStart(w + s + w')) == s
  {
    assert w + s + w' == w + (s + w');
    TrimStartDrops(w, s + w');
    TrimEndDrops(s, w');
  }

  lemma FromRadixPrinted(zeros: nat, v: u32, radix: nat)
    requires radix == 10 || radix == 16
    ensures FromRadix(seq(zeros, _ => '0') + Print(v, radix), radix) == Some(v)
  {
    var digits := seq(zeros, _ => '0') + Print(v, radix);
    PrintIsDigits(v, radix);
    assert digits[0] == '0' || digits[0] == Print(v, radix)[0];
    assert digits[0] != '+';
    NumberPadded(zeros, Print(v, radix), radix);
    NumberPrint(v, radix);
  }

  function HexText(zeros: nat, v: u32): string {
    "0x" + (seq(zeros, _ => '0') + Print(v, 16))
  }

  lemma HexTextReads(zeros: nat, v: u32)
    ensures ReadTrimmed(HexText(zeros, v)) == Some(v)
  {
    var text := HexText(zeros, v);
    assert text[2..] == seq(zeros, _ => '0') + Print(v, 16) && text[..2] == "0x";
    FromRadixPrinted(zeros, v, 16);
  }

  lemma HexTextEnds(zeros: nat, v: u32)
    ensures var text := HexText(zeros, v); text[0] == '0' && IsDigitChar(text[|text| - 1])
  {
    var text, d := HexText(zeros, v), Print(v, 16);
    PrintIsDigits(v, 16);
    assert text[|text| - 1] == d[|d| - 1];
  }

  /** Hexadecimal text reads back, with any number of leading zeros and any surrounding white space. */
  lemma ReadHex(w: string, zeros: nat, v: u32, w': string)
    requires AllSpace(w) && AllSpace(w')
    ensures ReadU32(w + HexText(zeros, v) + w') == Some(v)
  {
    HexTextEnds(zeros, v);
    TrimKeeps(w, HexText(zeros, v), w');
    HexTextReads(zeros, v);
  }

  lemma ReadBareHex(zeros: nat, v: u32)
    ensures ReadU32(HexText(zeros, v)) == Some(v)
  {
    ReadHex("", zeros, v, "");
    assert "" + HexText(zeros, v) + "" == HexText(zeros, v);
  }

  lemma FromDecimalPrinted(v: u32)
    ensures FromRadix(Print(v, 10), 10) == Some(v)
  {
    FromRadixPrinted(0, v, 10);
    assert seq(0, _ => '0') + Print(v, 10) == Print(v, 10);
  }

  lemma DecimalReads(v: u32)
    ensures ReadTrimmed(Print(v, 10)) == Some(v)
  {
    PrintIsDigits(v, 10);
    DigitsAreNotHex(Print(v, 10));
    FromDecimalPrinted(v);
  }

  lemma DigitsAreNotHex(s: string)
    requires IsDigits(s)
    ensures 2 <= |s| ==> s[..2] != "0x" && s[..2] != "0X"
  {
    if 2 <= |s| {
      assert s[..2][1] == s[1] && IsDigitChar(s[1]);
    }
  }

  /** Decimal text reads back too. */
  lemma ReadDecimal(v: u32)
    ensures ReadU32(Print(v, 10)) == Some(v)
  {
    var text := Print(v, 10);
    PrintIsDigits(v, 10);
    TrimKeeps("", text, "");
    assert "" + text + "" == text;
    DecimalReads(v);
  }

  lemma Hex32RoundTrip(v: u32)
    ensures ReadU32(ShowHex32(v)) == Some(v)
  {
    var d := Print(v, 16);
    var zeros := if |d| < 8 then 8 - |d| else 0;
    ReadBareHex(zeros, v);
    assert Pad(d, 8) == seq(zeros, _ => '0') + d;
  }

  lemma Hex32OptRoundTrip(v: Option<u32>)
    ensures ReadHex32Opt(ShowHex32Opt(v)) == Ok(v)
  {
    if v.Some? {
      ReadBareHex(0, v.value);
      assert seq(0, _ => '0') + Print(v.value, 16) == Print(v.value, 16);
    }
  }

  // ----- names

  function PartitionName(id: u32): string {
    match id
    case 0 => "loader"
    case 1 => "fdt"
    case 2 => "fdt.restore"
    case 3 => "atf"
    case 4 => "uboot"
    case 5 => "uenv"
    case 6 => "kernel"
    case 7 => "rootfs"
    case 8 => "pstore"
    case 9 => "app"
    case 10 => "par"
    case _ => "id" + Print(id, 10)
  }

  function FileName(id: u32, ext: string): string {
    Pad(Print(id, 10), 2) + "-" + PartitionName(id) + "." + ext
  }

  function UpToDash(s: string): string {
    if s == [] || s[0] == '-' then [] else [s[0]] + UpToDash(s[1..])
  }

  lemma {:induction false} UpToDashOf(d: string, rest: string)
    requires forall k :: 0 <= k < |d| ==> IsDigitChar(d[k])
    ensures UpToDash(d + "-" + rest) == d
  {
    if d == [] {
      assert (d + "-" + rest)[0] == '-';
    } else {
      assert (d + "-" + rest)[1..] == d[1..] + "-" + rest;
      assert (d + "-" + rest)[0] == d[0] && IsDigitChar(d[0]);
      UpToDashOf(d[1..], rest);
    }
  }

  lemma FileNameShowsId(id: u32, ext: string)
    ensures Number(UpToDash(FileName(id, ext)), 10) == Some(id)
  {
    var d := Print(id, 10);
    var p := Pad(d, 2);
    PrintIsDigits(id, 10);
    assert FileName(id, ext) == p + "-" + (PartitionName(id) + "." + ext);
    UpToDashOf(p, PartitionName(id) + "." + ext);
    NumberPrint(id, 10);
    if |d| < 2 {
      NumberPadded(2 - |d|, d, 10);
    }
  }

  /** Partitions with different ids never share a file, whatever their extensions. */
  lemma FileNameInjective(id: u32, ext: string, id': u32, ext': string)
    requires FileName(id, ext) == FileName(id', ext')
    ensures id == id'
  {
    FileNameShowsId(id, ext);
    FileNameShowsId(id', ext');
  }
}
