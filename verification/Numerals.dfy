/** Exactly which texts a manifest integer may be written as, and with what value. */
module Numerals {
  import opened Bytes
  import opened ManifestModel

  ghost predicate IsFace(c: char, d: nat) {
    d < 16 && (c == "0123456789abcdef"[d] || c == "0123456789ABCDEF"[d])
  }

  /** The text s, character by character, shows the digits ds. */
  ghost predicate Shows(s: string, ds: seq<nat>, radix: nat) {
    |s| == |ds| && forall k :: 0 <= k < |s| ==> ds[k] < radix && IsFace(s[k], ds[k])
  }

  function Power(base: nat, e: nat): nat {
    if e == 0 then 1 else base * Power(base, e - 1)
  }

  /** The place-value sum, most significant digit first. */
  function Value(ds: seq<nat>, radix: nat): nat {
    if ds == [] then 0 else ds[0] * Power(radix, |ds| - 1) + Value(ds[1..], radix)
  }

  /** One or more digits, a plus sign allowed in front. */
  ghost predicate Denotes(s: string, radix: nat, v: nat) {
    exists ds: seq<nat> :: ds != [] && Value(ds, radix) == v && ShowsSigned(s, ds, radix)
  }

  ghost predicate ShowsSigned(s: string, ds: seq<nat>, radix: nat) {
    Shows(s, ds, radix) || (s != [] && s[0] == '+' && Shows(s[1..], ds, radix))
  }

  /** Hexadecimal after 0x or 0X, or else decimal. */
  ghost predicate Reads(t: string, v: nat) {
    (2 <= |t| && t[0] == '0' && (t[1] == 'x' || t[1] == 'X') && Denotes(t[2..], 16, v)) || Denotes(t, 10, v)
  }

  ghost predicate Spaced(w: string, t: string, w': string, s: string) {
    s == w + t + w' && AllSpace(w) && AllSpace(w')
  }

  // ----- digits

  lemma FaceIff(c: char, d: nat)
    ensures IsFace(c, d) <==> DigitValue(c) == Some(d)
  {
    if d < 16 {
      LowerFace(d);
      UpperFace(d);
    }
  }

  lemma LowerFace(d: nat)
    requires d < 16
    ensures "0123456789abcdef"[d] == if d < 10 then ('0' as int + d) as char else ('a' as int + d - 10) as char
  {
  }

  lemma UpperFace(d: nat)
    requires d < 16
    ensures "0123456789ABCDEF"[d] == if d < 10 then ('0' as int + d) as char else ('A' as int + d - 10) as char
  {
  }

  /** The characters that count as white space, by code point. */
  lemma SpaceCodes(c: char)
    ensures IsSpace(c) <==>
            || c as int in {0x09, 0x0A, 0x0B, 0x0C, 0x0D, 0x20, 0x85, 0xA0, 0x1680}
            || c as int in {0x2028, 0x2029, 0x202F, 0x205F, 0x3000}
            || 0x2000 <= c as int <= 0x200A
  {
  }

  // ----- the value of a digit string

  lemma {:induction false} ValueSnoc(ds: seq<nat>, d: nat, radix: nat)
    ensures Value(ds + [d], radix) == Value(ds, radix) * radix + d
  {
    if ds == [] {
      assert [d][1..] == [] && Power(radix, 0) == 1;
    } else {
      var n := |ds| - 1;
      ValueSnoc(ds[1..], d, radix);
      assert (ds + [d])[1..] == ds[1..] + [d];
      Distribute(ds[0], Power(radix, n), Value(ds[1..], radix), radix, d);
    }
  }

  lemma Distribute(a: nat, p: nat, rest: nat, radix: nat, d: nat)
    ensures a * (radix * p) + (rest * radix + d) == (a * p + rest) * radix + d
  {
  }

  lemma ShowsSnoc(s: string, ds: seq<nat>, radix: nat)
    requires s != [] && |s| == |ds|
    ensures var n := |s| - 1;
            Shows(s, ds, radix) <==> Shows(s[..n], ds[..n], radix) && ds[n] < radix && IsFace(s[n], ds[n])
  {
  }

  /** The same sum as the program builds it up, digit by digit. */
  function Horner(ds: seq<nat>, radix: nat): nat {
    if ds == [] then 0 else Horner(ds[..|ds| - 1], radix) * radix + ds[|ds| - 1]
  }

  lemma {:induction false} HornerIsValue(ds: seq<nat>, radix: nat)
    ensures Horner(ds, radix) == Value(ds, radix)
  {
    if ds == [] {
    } else {
      var n := |ds| - 1;
      HornerIsValue(ds[..n], radix);
      ValueSnoc(ds[..n], ds[n], radix);
      assert ds == ds[..n] + [ds[n]];
    }
  }

  lemma HornerStep(s: string, ds: seq<nat>, radix: nat)
    requires s != [] && |s| == |ds| && ds[|s| - 1] < radix && DigitValue(s[|s| - 1]) == Some(ds[|s| - 1])
    requires Number(s[..|s| - 1], radix) == Some(Horner(ds[..|s| - 1], radix))
    ensures Number(s, radix) == Some(Horner(ds, radix))
  {
  }

  lemma {:induction false} ShownIsHorner(s: string, ds: seq<nat>, radix: nat)
    requires Shows(s, ds, radix)
    ensures Number(s, radix) == Some(Horner(ds, radix))
  {
    if s == [] {
    } else {
      var n := |s| - 1;
      ShowsSnoc(s, ds, radix);
      ShownIsHorner(s[..n], ds[..n], radix);
      FaceIff(s[n], ds[n]);
      HornerStep(s, ds, radix);
    }
  }

  lemma ShownIsNumber(s: string, ds: seq<nat>, radix: nat)
    requires Shows(s, ds, radix)
    ensures Number(s, radix) == Some(Value(ds, radix))
  {
    ShownIsHorner(s, ds, radix);
    HornerIsValue(ds, radix);
  }

  lemma {:induction false} NumberIsShown(s: string, radix: nat) returns (ds: seq<nat>)
    requires Number(s, radix).Some?
    ensures Shows(s, ds, radix)
  {
    if s == [] {
      ds := [];
    } else {
      var n := |s| - 1;
      var init := NumberIsShown(s[..n], radix);
      var d := DigitValue(s[n]).value;
      FaceIff(s[n], d);
      ds := init + [d];
      assert ds[..n] == init;
      ShowsSnoc(s, ds, radix);
    }
  }

  lemma FromRadixIff(s: string, radix: nat, v: u32)
    ensures FromRadix(s, radix) == Some(v) <==> Denotes(s, radix, v)
  {
    if FromRadix(s, radix) == Some(v) {
      var digits := if s != [] && s[0] == '+' then s[1..] else s;
      var ds := NumberIsShown(digits, radix);
      ShownIsNumber(digits, ds, radix);
      assert ShowsSigned(s, ds, radix);
    }
    if ds: seq<nat> :| ds != [] && Value(ds, radix) == v && ShowsSigned(s, ds, radix) {
      DenotedReads(s, ds, radix, v);
    }
  }

  lemma DenotedReads(s: string, ds: seq<nat>, radix: nat, v: u32)
    requires ds != [] && Value(ds, radix) == v && ShowsSigned(s, ds, radix)
    ensures FromRadix(s, radix) == Some(v)
  {
    if Shows(s, ds, radix) {
      FaceIff(s[0], ds[0]);
      ShownIsNumber(s, ds, radix);
    } else {
      ShownIsNumber(s[1..], ds, radix);
    }
  }

  // ----- the prefix and the white space

  lemma ReadTrimmedIff(t: string, v: u32)
    ensures ReadTrimmed(t) == Some(v) <==> Reads(t, v)
  {
    FromRadixIff(t, 10, v);
    if 2 <= |t| {
      FromRadixIff(t[2..], 16, v);
      assert t[..2] == [t[0], t[1]];
      if t[0] == '0' && (t[1] == 'x' || t[1] == 'X') {
        NotDecimal(t, v);
      }
    }
  }

  lemma NotDecimal(t: string, v: nat)
    requires 2 <= |t| && t[0] == '0' && (t[1] == 'x' || t[1] == 'X')
    ensures !Denotes(t, 10, v)
  {
    if ds: seq<nat> :| ds != [] && Value(ds, 10) == v && ShowsSigned(t, ds, 10) {
      FaceIff(t[1], ds[1]);
    }
  }

  lemma {:induction false} TrimStartSplits(s: string) returns (w: string)
    ensures s == w + TrimStart(s) && AllSpace(w)
  {
    if s != [] && IsSpace(s[0]) {
      w := TrimStartSplits(s[1..]);
      w := [s[0]] + w;
    } else {
      w := [];
    }
  }

  lemma {:induction false} TrimEndSplits(s: string) returns (w: string)
    ensures s == TrimEnd(s) + w && AllSpace(w)
  {
    if s != [] && IsSpace(s[|s| - 1]) {
      w := TrimEndSplits(s[..|s| - 1]);
      w := w + [s[|s| - 1]];
    } else {
      w := [];
    }
  }

  lemma DenotesEnds(s: string, radix: nat, v: nat)
    requires Denotes(s, radix, v)
    ensures s != [] && !IsSpace(s[0]) && !IsSpace(s[|s| - 1])
  {
    var ds: seq<nat> :| ds != [] && Value(ds, radix) == v && ShowsSigned(s, ds, radix);
    FaceIff(s[|s| - 1], ds[|ds| - 1]);
    FaceIff(s[0], ds[0]);
  }

  lemma ReadsEnds(t: string, v: nat)
    requires Reads(t, v)
    ensures t != [] && !IsSpace(t[0]) && !IsSpace(t[|t| - 1])
  {
    if Denotes(t, 10, v) {
      DenotesEnds(t, 10, v);
    } else {
      DenotesEnds(t[2..], 16, v);
    }
  }

  /** A text reads as v exactly when, white space around it aside, it is a numeral of value v. */
  lemma ReadU32Iff(s: string, v: u32)
    ensures ReadU32(s) == Some(v) <==> exists w, t, w' :: Spaced(w, t, w', s) && Reads(t, v)
  {
    if ReadU32(s) == Some(v) {
      var w := TrimStartSplits(s);
      var w' := TrimEndSplits(TrimStart(s));
      var t := TrimEnd(TrimStart(s));
      ReadTrimmedIff(t, v);
      assert Spaced(w, t, w', s);
    }
    if w, t, w' :| Spaced(w, t, w', s) && Reads(t, v) {
      ReadsEnds(t, v);
      TrimKeeps(w, t, w');
      ReadTrimmedIff(t, v);
    }
  }

  /** An optional number is absent, or present as such a text; any other text is an error. */
  lemma ReadHex32OptIff(s: Option<string>, v: u32)
    ensures ReadHex32Opt(s) == Ok(None) <==> s == None
    ensures ReadHex32Opt(s) == Ok(Some(v)) <==>
            s.Some? && exists w, t, w' :: Spaced(w, t, w', s.value) && Reads(t, v)
  {
    if s.Some? {
      ReadU32Iff(s.value, v);
    }
  }

  // ----- how numbers and files are written

  ghost predicate IsLower(s: string) {
    forall k :: 0 <= k < |s| ==> '0' <= s[k] <= '9' || 'a' <= s[k] <= 'f'
  }

  /** Lower-case digits, and no leading zero but for zero itself. */
  lemma {:induction false} PrintShape(n: nat, radix: nat)
    requires radix == 10 || radix == 16
    ensures IsLower(Print(n, radix)) && (n > 0 ==> Print(n, radix)[0] != '0')
  {
    PrintIsDigits(n, radix);
    if n < radix {
    } else {
      Shrinks(n, radix);
      PrintShape(n / radix, radix);
    }
  }

  lemma {:induction false} PrintLength(n: nat, k: nat)
    requires 0 < k && n < Power(16, k)
    ensures |Print(n, 16)| <= k
  {
    if n < 16 {
    } else {
      assert 1 < k;
      PrintLength(n / 16, k - 1);
    }
  }

  /** The ten characters of a padded number; with its value reading back, they can be no others. */
  lemma ShowHex32Shape(v: u32)
    ensures |ShowHex32(v)| == 10 && ShowHex32(v)[..2] == "0x" && IsLower(ShowHex32(v)[2..])
  {
    assert Power(16, 4) == 0x1_0000;
    assert Power(16, 8) == 0x1_0000_0000;
    PrintLength(v, 8);
    PrintShape(v, 16);
    PaddedShape(Print(v, 16));
  }

  /** The optional form is not padded. */
  lemma ShowHex32OptShape(v: u32)
    ensures var s := ShowHex32Opt(Some(v));
            && s.Some? && 3 <= |s.value| && s.value[..2] == "0x" && IsLower(s.value[2..])
            && (v > 0 ==> s.value[2] != '0')
  {
    PrintShape(v, 16);
    assert ("0x" + Print(v, 16))[2..] == Print(v, 16);
  }

  lemma PaddedShape(d: string)
    requires |d| <= 8 && IsLower(d)
    ensures |"0x" + Pad(d, 8)| == 10 && ("0x" + Pad(d, 8))[..2] == "0x" && ("0x" + Pad(d, 8))[2..] == Pad(d, 8)
    ensures IsLower(Pad(d, 8))
  {
  }

  const NAMES: seq<string> := [
    "loader", "fdt", "fdt.restore", "atf", "uboot", "uenv", "kernel", "rootfs", "pstore", "app"]

  lemma NamesAre(id: u32)
    requires id < 10
    ensures PartitionName(id) == NAMES[id]
  {
  }

  lemma SmallNumber(id: u32)
    requires id < 10
    ensures Pad(Print(id, 10), 2) == ['0', "0123456789"[id]]
  {
  }

  lemma LargeNumber(id: u32)
    requires 10 <= id
    ensures Pad(Print(id, 10), 2) == Print(id, 10)
  {
    Shrinks(id, 10);
  }

  /** The file of a partition: its id in at least two digits, the name for it, and the extension. */
  lemma FileNameIs(id: u32, ext: string)
    ensures id < 10 ==> FileName(id, ext) == ['0', "0123456789"[id]] + "-" + NAMES[id] + "." + ext
    ensures id == 10 ==> FileName(id, ext) == Print(id, 10) + "-" + "par" + "." + ext
    ensures id > 10 ==> FileName(id, ext) == Print(id, 10) + "-" + ("id" + Print(id, 10)) + "." + ext
  {
    if id < 10 {
      NamesAre(id);
      SmallNumber(id);
    } else {
      LargeNumber(id);
    }
  }
}
