/** Lossy UTF-8 decoding, on bytes: what a name field becomes when it is read into a string. */
module Utf8 {
  import opened Bytes

  const REPLACEMENT: seq<byte> := [0xEF, 0xBF, 0xBD]

  predicate Continues(b: seq<byte>, i: nat) {
    i < |b| && 0x80 <= b[i] < 0xC0
  }

  /** The ranges a second byte may take after each lead byte (table 3-7 of the Unicode standard). */
  predicate SecondFits(lead: byte, second: byte) {
    if lead == 0xE0 then 0xA0 <= second < 0xC0
    else if lead == 0xED then 0x80 <= second < 0xA0
    else if lead == 0xF0 then 0x90 <= second < 0xC0
    else if lead == 0xF4 then 0x80 <= second < 0x90
    else 0x80 <= second < 0xC0
  }

  function SequenceLength(lead: byte): nat {
    if lead < 0x80 then 1
    else if lead < 0xC2 then 0
    else if lead < 0xE0 then 2
    else if lead < 0xF0 then 3
    else if lead < 0xF5 then 4
    else 0
  }

  /** How many of the bytes at the start of b belong to one (possibly cut short) sequence. */
  function Matched(b: seq<byte>): (n: nat)
    requires b != []
    ensures 1 <= n <= |b|
    ensures SequenceLength(b[0]) > 0 ==> n <= SequenceLength(b[0])
    ensures SequenceLength(b[0]) == 0 ==> n == 1
  {
    var len := SequenceLength(b[0]);
    if len < 2 || |b| < 2 || !SecondFits(b[0], b[1]) then 1
    else if len < 3 || !Continues(b, 2) then 2
    else if len < 4 || !Continues(b, 3) then 3
    else 4
  }

  predicate StartsWell(b: seq<byte>)
    requires b != []
  {
    Matched(b) == SequenceLength(b[0])
  }

  predicate Valid(b: seq<byte>)
  {
    b == [] || (StartsWell(b) && Valid(b[Matched(b)..]))
  }

  function Lossy(b: seq<byte>): seq<byte> {
    if b == [] then []
    else (if StartsWell(b) then b[..Matched(b)] else REPLACEMENT) + Lossy(b[Matched(b)..])
  }

  /** Valid text but for one or two final bytes that begin a replacement character. */
  predicate EndsInReplacementLead(b: seq<byte>) {
    EndsInFirst(b) || EndsInFirstTwo(b)
  }

  predicate EndsInFirst(b: seq<byte>) {
    1 <= |b| && b[|b| - 1] == 0xEF && Valid(b[..|b| - 1])
  }

  predicate EndsInFirstTwo(b: seq<byte>) {
    2 <= |b| && b[|b| - 2..] == [0xEF, 0xBF] && Valid(b[..|b| - 2])
  }

  /** Decoding takes one sequence at a time. */
  lemma LossyStep(b: seq<byte>)
    requires b != []
    ensures var n := Matched(b);
            && b == b[..n] + b[n..]
            && Lossy(b) == (if StartsWell(b) then b[..n] else REPLACEMENT) + Lossy(b[n..])
            && (Valid(b) <==> StartsWell(b) && Valid(b[n..]))
  {
  }

  lemma CancelFront(a: seq<byte>, x: seq<byte>, y: seq<byte>)
    ensures a + x <= a + y <==> x <= y
    ensures a + x == a + y <==> x == y
  {
    assert (a + x)[|a|..] == x && (a + y)[|a|..] == y;
    if a + x <= a + y {
      var p := (a + y)[..|a + x|];
      assert p == a + x && p[|a|..] == y[..|x|];
    }
  }

  /** Decoding keeps a byte string as a prefix of its result in these cases only. */
  lemma {:induction false} LossyPrefixIff(b: seq<byte>)
    ensures b <= Lossy(b) <==> Valid(b) || EndsInReplacementLead(b)
    ensures Valid(b) ==> Lossy(b) == b
  {
    if b == [] {
    } else {
      var n := Matched(b);
      LossyPrefixIff(b[n..]);
      LossyStep(b);
      if StartsWell(b) {
        CancelFront(b[..n], b[n..], Lossy(b[n..]));
        LeadCarriesOver(b);
      } else {
        BadStart(b);
      }
    }
  }

  /** Decoding changes every byte string that is not valid text. */
  lemma {:induction false} LossySameIff(b: seq<byte>)
    ensures Lossy(b) == b <==> Valid(b)
  {
    if b == [] {
    } else {
      var n := Matched(b);
      LossySameIff(b[n..]);
      LossyStep(b);
      if StartsWell(b) {
        CancelFront(b[..n], b[n..], Lossy(b[n..]));
      } else {
        ReplacementStartsWell(b);
      }
    }
  }

  /** After a well-formed first sequence, validity of b cut short is validity of the rest cut short. */
  lemma CutCarriesOver(b: seq<byte>, drop: nat)
    requires b != [] && StartsWell(b) && 1 <= drop <= 2 && drop <= |b| - Matched(b)
    ensures Valid(b[..|b| - drop]) <==> Valid(b[Matched(b)..][..|b| - Matched(b) - drop])
  {
    PrefixStart(b, drop);
  }

  lemma LeadCarriesOver(b: seq<byte>)
    requires b != [] && StartsWell(b)
    ensures EndsInReplacementLead(b) <==> EndsInReplacementLead(b[Matched(b)..])
  {
    FirstCarriesOver(b);
    FirstTwoCarryOver(b);
  }

  lemma FirstCarriesOver(b: seq<byte>)
    requires b != [] && StartsWell(b)
    ensures EndsInFirst(b) <==> EndsInFirst(b[Matched(b)..])
  {
    var rest := b[Matched(b)..];
    if 1 <= |rest| {
      CutCarriesOver(b, 1);
      assert b[|b| - 1] == rest[|rest| - 1];
    } else {
      ShortTail(b);
    }
  }

  lemma FirstTwoCarryOver(b: seq<byte>)
    requires b != [] && StartsWell(b)
    ensures EndsInFirstTwo(b) <==> EndsInFirstTwo(b[Matched(b)..])
  {
    var rest := b[Matched(b)..];
    if 2 <= |rest| {
      CutCarriesOver(b, 2);
      assert b[|b| - 2..] == rest[|rest| - 2..];
    } else {
      ShortTail(b);
    }
  }

  /** A complete sequence never ends in the first bytes of a replacement character. */
  lemma ShortTail(b: seq<byte>)
    requires b != [] && StartsWell(b)
    ensures Matched(b) == |b| ==> b[|b| - 1] != 0xEF
    ensures |b| <= Matched(b) + 1 && 2 <= |b| ==> b[|b| - 2..] != [0xEF, 0xBF]
  {
  }

  /** Dropping final bytes that lie beyond the first sequence does not change how b starts. */
  lemma PrefixStart(b: seq<byte>, drop: nat)
    requires b != [] && StartsWell(b) && 1 <= drop <= 2
    requires drop <= |b|
    ensures var p := b[..|b| - drop];
            if Matched(b) <= |b| - drop
            then p != [] && StartsWell(p) && Matched(p) == Matched(b)
                 && p[Matched(b)..] == b[Matched(b)..][..|b| - Matched(b) - drop]
            else true
  {
  }

  lemma BadStart(b: seq<byte>)
    requires b != [] && !StartsWell(b)
    ensures b <= Lossy(b) <==> EndsInReplacementLead(b)
  {
    if 3 <= |b| {
      ReplacementStartsWell(b);
      PrefixStartsWell(b[..|b| - 1], b);
      PrefixStartsWell(b[..|b| - 2], b);
      if b <= Lossy(b) {
        CommonPrefix(REPLACEMENT, b, Lossy(b));
      }
    } else if |b| == 2 {
      PrefixStartsWell(b[..1], b);
      assert b <= Lossy(b) <==> b == REPLACEMENT[..2];
    } else {
      assert b <= Lossy(b) <==> b == REPLACEMENT[..1];
    }
  }

  lemma ReplacementStartsWell(b: seq<byte>)
    ensures REPLACEMENT <= b ==> StartsWell(b)
  {
  }

  lemma CommonPrefix(a: seq<byte>, b: seq<byte>, l: seq<byte>)
    requires a <= l && b <= l && |a| <= |b|
    ensures a <= b
  {
  }

  lemma PrefixStartsWell(p: seq<byte>, b: seq<byte>)
    requires p <= b && p != []
    ensures StartsWell(p) ==> StartsWell(b)
  {
  }

  /** Decoding neither adds nor removes NUL bytes. */
  lemma {:induction false} LossyNulFree(b: seq<byte>)
    requires 0 !in b
    ensures 0 !in Lossy(b)
  {
    if b == [] {
    } else {
      LossyNulFree(b[Matched(b)..]);
    }
  }
}
