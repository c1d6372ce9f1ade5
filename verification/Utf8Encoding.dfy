/** Well-formed text and replaced bytes in terms of the encoding of characters itself. */
module Utf8Encoding {
  import opened Bytes
  import opened Utf8

  /** The code points that characters have: all but the surrogates. */
  predicate IsScalar(c: nat) {
    c < 0xD800 || 0xE000 <= c < 0x11_0000
  }

  function Tail(x: nat): byte {
    0x80 + x % 0x40
  }

  /** The bytes of one character, the shortest form. */
  function Encode(c: nat): seq<byte>
    requires IsScalar(c)
  {
    if c < 0x80 then [c]
    else if c < 0x800 then [0xC0 + c / 0x40, Tail(c)]
    else if c < 0x1_0000 then [0xE0 + c / 0x1000, Tail(c / 0x40), Tail(c)]
    else [0xF0 + c / 0x4_0000, Tail(c / 0x1000), Tail(c / 0x40), Tail(c)]
  }

  function EncodeAll(cs: seq<nat>): seq<byte>
    requires forall k :: 0 <= k < |cs| ==> IsScalar(cs[k])
  {
    if cs == [] then [] else Encode(cs[0]) + EncodeAll(cs[1..])
  }

  ghost predicate AllScalars(cs: seq<nat>) {
    forall k :: 0 <= k < |cs| ==> IsScalar(cs[k])
  }

  /** The bytes are those of some character, or the first few of them. */
  ghost predicate Begins(p: seq<byte>) {
    exists c: nat :: IsScalar(c) && p <= Encode(c)
  }

  // ----- one character

  lemma SecondOfThree(c: nat)
    requires IsScalar(c) && 0x800 <= c < 0x1_0000
    ensures SequenceLength(0xE0 + c / 0x1000) == 3 && SecondFits(0xE0 + c / 0x1000, Tail(c / 0x40))
  {
  }

  lemma SecondOfFour(c: nat)
    requires IsScalar(c) && 0x1_0000 <= c
    ensures SequenceLength(0xF0 + c / 0x4_0000) == 4 && SecondFits(0xF0 + c / 0x4_0000, Tail(c / 0x1000))
  {
  }

  lemma EncodeStarts(c: nat, b: seq<byte>)
    requires IsScalar(c) && Encode(c) <= b
    ensures StartsWell(b) && Matched(b) == |Encode(c)|
  {
    var e := Encode(c);
    assert forall k :: 0 <= k < |e| ==> b[k] == e[k];
    if 0x800 <= c < 0x1_0000 {
      SecondOfThree(c);
    } else if 0x1_0000 <= c {
      SecondOfFour(c);
    }
  }

  lemma TwoBytes(b0: byte, b1: byte) returns (c: nat)
    requires 0xC2 <= b0 < 0xE0 && 0x80 <= b1 < 0xC0
    ensures IsScalar(c) && Encode(c) == [b0, b1]
  {
    c := (b0 - 0xC0) * 0x40 + (b1 - 0x80);
  }

  lemma ThreeDigits(x0: nat, x1: nat, x2: nat)
    requires x1 < 0x40 && x2 < 0x40
    ensures var c := x0 * 0x1000 + x1 * 0x40 + x2;
            c / 0x1000 == x0 && Tail(c / 0x40) == 0x80 + x1 && Tail(c) == 0x80 + x2
  {
    var c := x0 * 0x1000 + x1 * 0x40 + x2;
    QuotientUnique(c, 0x1000, x0, x1 * 0x40 + x2);
    QuotientUnique(c, 0x40, x0 * 0x40 + x1, x2);
    QuotientUnique(x0 * 0x40 + x1, 0x40, x0, x1);
  }

  lemma ThreeBytes(b0: byte, b1: byte, b2: byte) returns (c: nat)
    requires 0xE0 <= b0 < 0xF0 && SecondFits(b0, b1) && 0x80 <= b2 < 0xC0
    ensures IsScalar(c) && Encode(c) == [b0, b1, b2]
  {
    c := (b0 - 0xE0) * 0x1000 + (b1 - 0x80) * 0x40 + (b2 - 0x80);
    ThreeDigits(b0 - 0xE0, b1 - 0x80, b2 - 0x80);
    assert 0x800 <= c < 0x1_0000 && IsScalar(c);
  }

  lemma FourBytes(b0: byte, b1: byte, b2: byte, b3: byte) returns (c: nat)
    requires 0xF0 <= b0 < 0xF5 && SecondFits(b0, b1) && 0x80 <= b2 < 0xC0 && 0x80 <= b3 < 0xC0
    ensures IsScalar(c) && Encode(c) == [b0, b1, b2, b3]
  {
    var x0, x1 := b0 - 0xF0, b1 - 0x80;
    c := (x0 * 0x40 + x1) * 0x1000 + (b2 - 0x80) * 0x40 + (b3 - 0x80);
    ThreeDigits(x0 * 0x40 + x1, b2 - 0x80, b3 - 0x80);
    QuotientUnique(x0 * 0x40 + x1, 0x40, x0, x1);
    QuotientUnique(c, 0x4_0000, x0, x1 * 0x1000 + (b2 - 0x80) * 0x40 + (b3 - 0x80));
    assert 0x1_0000 <= c < 0x11_0000;
  }

  lemma DecodeStart(b: seq<byte>) returns (c: nat)
    requires b != [] && StartsWell(b)
    ensures IsScalar(c) && Encode(c) == b[..Matched(b)]
  {
    if SequenceLength(b[0]) == 1 {
      c := b[0];
    } else if SequenceLength(b[0]) == 2 {
      c := TwoBytes(b[0], b[1]);
    } else if SequenceLength(b[0]) == 3 {
      c := ThreeBytes(b[0], b[1], b[2]);
    } else {
      c := FourBytes(b[0], b[1], b[2], b[3]);
    }
  }

  // ----- whole texts

  /** Well-formed text is exactly what encoding a sequence of characters gives. */
  lemma {:induction false} EncodedIsValid(cs: seq<nat>)
    requires AllScalars(cs)
    ensures Valid(EncodeAll(cs))
  {
    if cs == [] {
    } else {
      var b, e := EncodeAll(cs), Encode(cs[0]);
      EncodedIsValid(cs[1..]);
      EncodeStarts(cs[0], b);
      assert b[|e|..] == EncodeAll(cs[1..]);
      LossyStep(b);
    }
  }

  lemma {:induction false} DecodeAll(b: seq<byte>) returns (cs: seq<nat>)
    requires Valid(b)
    ensures AllScalars(cs) && EncodeAll(cs) == b
  {
    if b == [] {
      cs := [];
    } else {
      LossyStep(b);
      var c := DecodeStart(b);
      var rest := DecodeAll(b[Matched(b)..]);
      cs := [c] + rest;
      assert cs[1..] == rest;
    }
  }

  lemma ValidIff(b: seq<byte>)
    ensures Valid(b) <==> exists cs: seq<nat> :: AllScalars(cs) && EncodeAll(cs) == b
  {
    if Valid(b) {
      var cs := DecodeAll(b);
    }
    if cs: seq<nat> :| AllScalars(cs) && EncodeAll(cs) == b {
      EncodedIsValid(cs);
    }
  }

  // ----- what is replaced

  lemma ReplacementIs()
    ensures REPLACEMENT == Encode(0xFFFD)
  {
  }

  /** A second byte that may follow any lead byte. */
  function AnySecond(lead: byte): byte {
    if lead == 0xE0 then 0xA0 else if lead == 0xF0 then 0x90 else 0x80
  }

  lemma BeginsWhenMatched(b: seq<byte>)
    requires b != [] && 2 <= SequenceLength(b[0])
    ensures Begins(b[..Matched(b)])
  {
    var n, len := Matched(b), SequenceLength(b[0]);
    var second := if 2 <= n then b[1] else AnySecond(b[0]);
    var fill := [b[0], second, if 3 <= n then b[2] else 0x80, if 4 <= n then b[3] else 0x80];
    var whole := fill[..len];
    assert whole[0] == b[0] && whole[1] == fill[1];
    assert StartsWell(whole);
    var c := DecodeStart(whole);
    assert b[..n] == whole[..n];
  }

  lemma PrefixMatches(p: seq<byte>, e: seq<byte>)
    requires p != [] && p <= e && StartsWell(e) && Matched(e) == |e|
    ensures Matched(p) == |p|
  {
  }

  lemma MatchesAtLeast(p: seq<byte>, b: seq<byte>)
    requires p != [] && p <= b && Matched(p) == |p|
    ensures |p| <= Matched(b)
  {
  }

  lemma NoneBegins(b: seq<byte>)
    requires b != [] && Matched(b) < |b|
    ensures !Begins(b[..Matched(b) + 1])
  {
    var p := b[..Matched(b) + 1];
    if c: nat :| IsScalar(c) && p <= Encode(c) {
      EncodeStarts(c, Encode(c));
      PrefixMatches(p, Encode(c));
      MatchesAtLeast(p, b);
    }
  }

  /**
   * Decoding takes a whole character off the front when there is one. Otherwise one replacement character stands
   * for the longest front that begins some character, or for a single byte.
   */
  lemma MatchedIs(b: seq<byte>)
    requires b != []
    ensures StartsWell(b) <==> exists c: nat :: IsScalar(c) && Encode(c) <= b
    ensures forall c: nat :: IsScalar(c) && Encode(c) <= b ==> Matched(b) == |Encode(c)|
    ensures !StartsWell(b) ==> Matched(b) == 1 || Begins(b[..Matched(b)])
    ensures !StartsWell(b) && Matched(b) < |b| ==> !Begins(b[..Matched(b) + 1])
  {
    if StartsWell(b) {
      var c := DecodeStart(b);
      assert Encode(c) <= b;
    } else {
      if Matched(b) > 1 {
        BeginsWhenMatched(b);
      }
      if Matched(b) < |b| {
        NoneBegins(b);
      }
    }
    forall c: nat | IsScalar(c) && Encode(c) <= b
      ensures StartsWell(b) && Matched(b) == |Encode(c)|
    {
      EncodeStarts(c, b);
    }
  }
}
