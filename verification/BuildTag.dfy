/** The Novatek build tag inside the atf and uboot partitions: finding it and repairing it. */
module BuildTag {
  import opened Bytes
  import opened Checksum
  import opened Errors

  const NVT_TAG_MAGIC: u16 := 0xAA55
  const NVT_TAG_LEN: nat := 0x20
  const NVT_TAG_CHKSUM_OFF: nat := 0x1E

  datatype NvtTag = NvtTag(offset: nat, tag: seq<byte>, version: seq<byte>, date: seq<byte>)

  /** The size field and the magic of a tag in a partition of len bytes. */
  function Stamp(len: nat): (s: seq<byte>)
    ensures |s| == 6
  {
    Le32(AsU32(len)) + Le16(NVT_TAG_MAGIC)
  }

  predicate TagAt(part: seq<byte>, t: nat)
    requires t + NVT_TAG_LEN <= |part|
  {
    part[t + 0x18..t + 0x1E] == Stamp(|part|)
  }

  lemma TagAtReads(part: seq<byte>, t: nat)
    requires t + NVT_TAG_LEN <= |part|
    ensures TagAt(part, t) <==> Rd32(part, t + 0x18) == AsU32(|part|) && Rd16(part, t + 0x1C) == NVT_TAG_MAGIC
  {
    Rd32Iff(part, t + 0x18, AsU32(|part|));
    Rd16Iff(part, t + 0x1C, NVT_TAG_MAGIC);
    var size, magic := part[t + 0x18..t + 0x1C], part[t + 0x1C..t + 0x1E];
    assert part[t + 0x18..t + 0x1E] == size + magic;
    var s := Stamp(|part|);
    assert s[..4] == Le32(AsU32(|part|)) && s[4..] == Le16(NVT_TAG_MAGIC);
    if size + magic == s {
      assert size == s[..4] && magic == s[4..];
    }
  }

  /** A tag is recognised by its size field, which must be the partition's length, and its magic. */
  lemma TagAtIff(part: seq<byte>, t: nat)
    requires t + 0x20 <= |part|
    ensures TagAt(part, t) <==>
            Rd32(part, t + 0x18) == |part| % 0x1_0000_0000 && part[t + 0x1C] == 0x55 && part[t + 0x1D] == 0xAA
  {
    TagAtReads(part, t);
  }

  ghost predicate NoTagBefore(part: seq<byte>, t: nat) {
    forall u :: 0 <= u < t && u % 4 == 0 && u + NVT_TAG_LEN <= |part| ==> !TagAt(part, u)
  }

  lemma NextWindow(part: seq<byte>, t: nat)
    requires t % 4 == 0 && NoTagBefore(part, t)
    requires t + NVT_TAG_LEN <= |part| ==> !TagAt(part, t)
    ensures NoTagBefore(part, t + 4)
  {
  }

  function TagText(part: seq<byte>, t: nat): NvtTag
    requires t + NVT_TAG_LEN <= |part|
  {
    NvtTag(t, UpToNul(part[t..t + 0x08]), UpToNul(part[t + 0x08..t + 0x10]), UpToNul(part[t + 0x10..t + 0x18]))
  }

  /** Three strings of eight bytes each, cut at their first NUL: tag, version and date, in this order. */
  lemma TagTextIs(part: seq<byte>, t: nat)
    requires t + 0x20 <= |part|
    ensures var text := TagText(part, t);
            && text.offset == t
            && IsCString(text.tag, part[t..t + 8])
            && IsCString(text.version, part[t + 8..t + 0x10])
            && IsCString(text.date, part[t + 0x10..t + 0x18])
  {
  }

  /** The bytes of f before its first NUL, or all of them. */
  ghost predicate IsCString(s: seq<byte>, f: seq<byte>) {
    s <= f && 0 !in s && (s == f || (|s| < |f| && f[|s|] == 0))
  }

  ghost predicate IsFirstTag(part: seq<byte>, t: nat) {
    t % 4 == 0 && t + NVT_TAG_LEN <= |part| && TagAt(part, t) && NoTagBefore(part, t)
  }

  /** The first 4-aligned match, if there is any. */
  function FindFrom(part: seq<byte>, off: nat): (r: Option<nat>)
    requires off % 4 == 0 && NoTagBefore(part, off)
    ensures r.None? ==> NoTagBefore(part, |part|)
    ensures r.Some? ==> IsFirstTag(part, r.value)
    decreases |part| - off
  {
    if |part| < off + NVT_TAG_LEN then None
    else if TagAt(part, off) then Some(off)
    else
      NextWindow(part, off);
      FindFrom(part, off + 4)
  }

  function FindTag(part: seq<byte>): (r: Option<nat>)
    ensures r.None? ==> NoTagBefore(part, |part|)
    ensures r.Some? ==> IsFirstTag(part, r.value)
  {
    FindFrom(part, 0)
  }

  lemma FirstTagIsFound(part: seq<byte>, t: nat)
    requires IsFirstTag(part, t)
    ensures FindTag(part) == Some(t)
  {
  }

  method FindNvtTag(part: seq<byte>) returns (r: Option<NvtTag>)
    ensures r == match FindTag(part) case None => None case Some(t) => Some(TagText(part, t))
  {
    var off := 0;
    while off + NVT_TAG_LEN <= |part|
      invariant off % 4 == 0 && NoTagBefore(part, off)
      decreases |part| - off
    {
      TagAtReads(part, off);
      if Rd32(part, off + 0x18) == AsU32(|part|) && Rd16(part, off + 0x1C) == NVT_TAG_MAGIC {
        FirstTagIsFound(part, off);
        return Some(TagText(part, off));
      }
      NextWindow(part, off);
      off := off + 4;
    }
    return None;
  }

  function Stamped(part: seq<byte>, t: nat): (r: seq<byte>)
    requires t + NVT_TAG_LEN <= |part|
    ensures |r| == |part|
  {
    Overlay(part, t + 0x18, Stamp(|part|))
  }

  function Fixed(part: seq<byte>, t: nat): (r: seq<byte>)
    requires t + NVT_TAG_LEN <= |part|
    ensures |r| == |part|
  {
    Solved(Stamped(part, t), t + NVT_TAG_CHKSUM_OFF)
  }

  method FixNvtTag(part: array<byte>, tagOff: nat) returns (r: Result<u16, Error>)
    modifies part
    ensures r.Err? <==> part.Length < tagOff + NVT_TAG_LEN
    ensures r.Err? ==> part[..] == old(part[..])
    ensures r.Ok? ==> part[..] == Fixed(old(part[..]), tagOff)
    ensures r.Ok? ==> part[tagOff + 0x1E..tagOff + 0x20] == Le16(r.value)
  {
    if tagOff + NVT_TAG_LEN > part.Length {
      return Err(TagOutsidePartition);
    }
    Put(part, tagOff + 0x18, Le32(AsU32(part.Length)));
    Put(part, tagOff + 0x1C, Le16(NVT_TAG_MAGIC));
    assert part[..] == Stamped(old(part[..]), tagOff);
    var v := Solve(part, tagOff + NVT_TAG_CHKSUM_OFF);
    return Ok(v);
  }

  // ----- what the repair guarantees

  lemma FixedBytes(part: seq<byte>, t: nat)
    requires t + NVT_TAG_LEN <= |part|
    ensures forall k :: 0 <= k < |part| && !(t + 0x18 <= k < t + 0x20) ==> Fixed(part, t)[k] == part[k]
    ensures TagAt(Fixed(part, t), t)
  {
    var s := Stamped(part, t);
    assert forall k :: 0 <= k < |part| && k != t + 0x1E && k != t + 0x1F ==> Fixed(part, t)[k] == s[k];
    StampStands(s, Fixed(part, t), t, Stamp(|part|));
  }

  lemma StampStands(s: seq<byte>, f: seq<byte>, t: nat, stamp: seq<byte>)
    requires |s| == |f| && t + NVT_TAG_LEN <= |f| && |stamp| == 6
    requires forall k :: t + 0x18 <= k < t + 0x1E ==> f[k] == s[k] && s[k] == stamp[k - (t + 0x18)]
    ensures f[t + 0x18..t + 0x1E] == stamp
  {
  }

  /** Any even tag offset inside the partition: the repaired region sums to zero. */
  lemma FixedIsValid(part: seq<byte>, t: nat)
    requires t % 2 == 0 && t + NVT_TAG_LEN <= |part|
    ensures IsValid(Fixed(part, t))
    ensures Fixed(Fixed(part, t), t) == Fixed(part, t)
  {
    SlotParity(t);
    SolvedIsValid(Stamped(part, t), t + NVT_TAG_CHKSUM_OFF);
    FixedBytes(part, t);
    FixIff(Fixed(part, t), t, Fixed(part, t));
  }

  /** Nothing checks the parity of a manifest's tag offset: an odd one repairs the checksum only by luck. */
  lemma FixedValidIff(part: seq<byte>, t: nat)
    requires t + NVT_TAG_LEN <= |part|
    ensures IsValid(Fixed(part, t)) <==> t % 2 == 0 || OddSlotWorks(Stamped(part, t), t + NVT_TAG_CHKSUM_OFF)
  {
    SolvedValidIff(Stamped(part, t), t + NVT_TAG_CHKSUM_OFF);
    SlotParity(t);
  }

  lemma SlotParity(t: nat)
    ensures (t + NVT_TAG_CHKSUM_OFF) % 2 == t % 2
  {
  }

  /** What repairing at t leaves alone: a valid partition, or at an odd offset one holding the word stored there. */
  ghost predicate Settled(part: seq<byte>, t: nat)
    requires t + NVT_TAG_LEN <= |part|
  {
    if t % 2 == 0 then IsValid(part)
    else part[t + NVT_TAG_CHKSUM_OFF..t + 0x20] == Le16(CorrectiveWord(part, t + NVT_TAG_CHKSUM_OFF))
  }

  ghost predicate SameButTag(part: seq<byte>, t: nat, file: seq<byte>) {
    |file| == |part| && forall k :: 0 <= k < |part| && !(t + 0x18 <= k < t + 0x20) ==> file[k] == part[k]
  }

  /** A file repairs to a tagged partition exactly when they differ only in the eight repaired bytes. */
  lemma FixIff(part: seq<byte>, t: nat, file: seq<byte>)
    requires t + NVT_TAG_LEN <= |part| && TagAt(part, t)
    ensures |file| == |part| && Fixed(file, t) == part <==> SameButTag(part, t, file) && Settled(part, t)
  {
    SettledIff(part, t);
    if SameButTag(part, t, file) {
      RepairedIsSolved(part, t, file);
    }
    if |file| == |part| && Fixed(file, t) == part {
      FixedBytes(file, t);
      RepairSettles(file, t);
    }
  }

  lemma RepairedIsSolved(part: seq<byte>, t: nat, file: seq<byte>)
    requires t + NVT_TAG_LEN <= |part| && TagAt(part, t) && SameButTag(part, t, file)
    ensures Fixed(file, t) == Solved(part, t + NVT_TAG_CHKSUM_OFF)
  {
    StampedAgrees(part, t, file);
    SolvedIgnoresSlot(Stamped(file, t), part, t + NVT_TAG_CHKSUM_OFF);
  }

  lemma RepairSettles(file: seq<byte>, t: nat)
    requires t + NVT_TAG_LEN <= |file|
    ensures Solved(Fixed(file, t), t + NVT_TAG_CHKSUM_OFF) == Fixed(file, t)
  {
    SolvedIgnoresSlot(Fixed(file, t), Stamped(file, t), t + NVT_TAG_CHKSUM_OFF);
  }

  lemma SettledIff(part: seq<byte>, t: nat)
    requires t + NVT_TAG_LEN <= |part|
    ensures Settled(part, t) <==> Solved(part, t + NVT_TAG_CHKSUM_OFF) == part
  {
    SlotParity(t);
    SolveFixpoint(part, t + NVT_TAG_CHKSUM_OFF);
  }

  ghost predicate FitsTag(part: seq<byte>, t: nat, file: seq<byte>) {
    SameButTag(part, t, file) && IsValid(part)
  }

  lemma StampedAgrees(part: seq<byte>, t: nat, file: seq<byte>)
    requires t + NVT_TAG_LEN <= |part| && TagAt(part, t) && SameButTag(part, t, file)
    ensures forall k :: 0 <= k < |part| && k != t + 0x1E && k != t + 0x1F ==> Stamped(file, t)[k] == part[k]
  {
  }

  /** Repairing at the tag that was found keeps it, with its strings, as the tag that is found. */
  lemma FixAtFoundTag(part: seq<byte>, t: nat)
    requires FindTag(part) == Some(t)
    ensures FindTag(Fixed(part, t)) == Some(t)
    ensures TagText(Fixed(part, t), t) == TagText(part, t)
    ensures Fixed(part, t) == part <==> IsValid(part)
  {
    var f := Fixed(part, t);
    FixedBytes(part, t);
    FixedKeepsMissesBefore(part, t);
    FirstTagIsFound(f, t);
    SameText(f, part, t);
    Aligned2(t);
    FixIff(part, t, part);
  }

  lemma FixedKeepsMissesBefore(part: seq<byte>, t: nat)
    requires IsFirstTag(part, t)
    ensures NoTagBefore(Fixed(part, t), t)
  {
    var f := Fixed(part, t);
    assert FitsTagExceptSlot(f, part, t) by {
      StampedIsSame(part, t);
    }
    forall u | 0 <= u < t && u % 4 == 0 && u + NVT_TAG_LEN <= |f|
      ensures !TagAt(f, u)
    {
      Aligned4(u, t);
      SameTag(f, part, u);
    }
  }

  lemma Aligned4(u: nat, t: nat)
    requires u < t && u % 4 == 0 && t % 4 == 0
    ensures u + 4 <= t
  {
  }

  lemma Aligned2(t: nat)
    requires t % 4 == 0
    ensures t % 2 == 0
  {
    assert t == 2 * (2 * (t / 4));
    Even(2 * (t / 4));
  }

  lemma Even(k: nat)
    ensures 2 * k % 2 == 0
  {
  }

  lemma SameTag(f: seq<byte>, g: seq<byte>, u: nat)
    requires |f| == |g| && u + NVT_TAG_LEN <= |f|
    requires forall k :: u + 0x18 <= k < u + 0x1E ==> f[k] == g[k]
    ensures TagAt(f, u) == TagAt(g, u)
  {
  }

  lemma SameText(f: seq<byte>, g: seq<byte>, t: nat)
    requires |f| == |g| && t + NVT_TAG_LEN <= |f|
    requires forall k :: t <= k < t + 0x18 ==> f[k] == g[k]
    ensures TagText(f, t) == TagText(g, t)
  {
    assert f[t..t + 0x08] == g[t..t + 0x08];
    assert f[t + 0x08..t + 0x10] == g[t + 0x08..t + 0x10];
    assert f[t + 0x10..t + 0x18] == g[t + 0x10..t + 0x18];
  }

  ghost predicate FitsTagExceptSlot(f: seq<byte>, part: seq<byte>, t: nat) {
    |f| == |part| && forall k :: 0 <= k < |part| && k != t + 0x1E && k != t + 0x1F ==> f[k] == part[k]
  }

  lemma StampedIsSame(part: seq<byte>, t: nat)
    requires t + NVT_TAG_LEN <= |part| && TagAt(part, t)
    ensures Stamped(part, t) == part
  {
  }

  /** After any edit or resize, repairing at an aligned offset leaves a tag there, or one before it. */
  lemma FixAnywhere(part: seq<byte>, t: nat)
    requires t % 4 == 0 && t + NVT_TAG_LEN <= |part|
    ensures var f := Fixed(part, t);
            IsValid(f) && FindTag(f).Some? && FindTag(f).value <= t
            && (FindTag(f).value == t <==> NoTagBefore(f, t))
  {
    var f := Fixed(part, t);
    Aligned2(t);
    FixedIsValid(part, t);
    FixedBytes(part, t);
    if NoTagBefore(f, t) {
      FirstTagIsFound(f, t);
    }
  }
}
