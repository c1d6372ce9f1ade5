/** The one-pass index of addresses computed by ADRP+ADD pairs. */
module AllRefs {
  import opened Bytes
  import opened Arm

  /** What the text section is to the tools: its words and its load address. */
  datatype Text = Text(insns: seq<u32>, base: nat) {
    function Pc(i: nat): nat {
      base + i * 4
    }
  }

  type Pending = map<nat, (int, nat)>
  type Index = map<int, seq<nat>>

  // ----- the rules of the tool

  /** An instruction after which the page last loaded into r is no longer tracked as it was. */
  predicate Ends(insn: u32, r: nat) {
    if IsAdrp(insn) then RdField(insn) == r
    else match DecodeAddImm(insn)
         case Some(a) => a.rd == r && a.rn != r
         case None => RdField(insn) == r && !IsBl(insn)
  }

  predicate LoadsPage(insn: u32, r: nat) {
    IsAdrp(insn) && RdField(insn) == r
  }

  /** Instruction i loads a page into r and nothing between it and instruction j ends that. */
  ghost predicate Live(text: Text, i: nat, j: nat, r: nat) {
    && i < j <= |text.insns| && LoadsPage(text.insns[i], r)
    && forall k :: i < k < j ==> !Ends(text.insns[k], r)
  }

  function PageAt(text: Text, i: nat): int
    requires i < |text.insns|
  {
    PageOf(text.Pc(i)) + AdrpPages(text.insns[i]) * 0x1000
  }

  /** The load that is still live for r before instruction j; there is never more than one. */
  function Source(text: Text, j: nat, r: nat): (i: Option<nat>)
    requires j <= |text.insns|
    ensures i.Some? ==> Live(text, i.value, j, r)
    ensures forall k: nat :: Live(text, k, j, r) ==> i == Some(k)
  {
    if j == 0 then None
    else if LoadsPage(text.insns[j - 1], r) then Some(j - 1)
    else if Ends(text.insns[j - 1], r) then None
    else Source(text, j - 1, r)
  }

  /** The address computed at instruction j: an ADD-immediate onto a live page. */
  function Computed(text: Text, j: nat): Option<(int, nat)>
    requires j < |text.insns|
  {
    match DecodeAddImm(text.insns[j])
    case None => None
    case Some(a) =>
      match Source(text, j, a.rn)
      case None => None
      case Some(i) => Some((PageAt(text, i) + a.imm, i))
  }

  /** Instruction by instruction, the load with which it computes target, if it does. */
  function Loads(text: Text, target: int): (loads: seq<Option<nat>>)
    ensures |loads| == |text.insns| && forall j :: 0 <= j < |loads| ==> loads[j] == LoadFor(text, target, j)
  {
    seq(|text.insns|, j requires 0 <= j < |text.insns| => LoadFor(text, target, j))
  }

  function LoadFor(text: Text, target: int, j: nat): Option<nat>
    requires j < |text.insns|
  {
    match Computed(text, j)
    case None => None
    case Some((t, i)) => if t == target then Some(i) else None
  }

  /** The entries among the first n, each with its place. */
  function Collected(loads: seq<Option<nat>>, n: nat): seq<(nat, nat)>
    requires n <= |loads|
  {
    if n == 0 then []
    else Collected(loads, n - 1) + if loads[n - 1].Some? then [(loads[n - 1].value, n - 1)] else []
  }

  /** The loads and additions, in order of the addition, that compute target within the first n instructions. */
  function Pairs(text: Text, target: int, n: nat): seq<(nat, nat)>
    requires n <= |text.insns|
  {
    Collected(Loads(text, target), n)
  }

  function Pcs(text: Text, pairs: seq<(nat, nat)>): (pcs: seq<nat>)
    ensures |pcs| == |pairs| && forall k :: 0 <= k < |pcs| ==> pcs[k] == text.Pc(pairs[k].0)
  {
    seq(|pairs|, k requires 0 <= k < |pairs| => text.Pc(pairs[k].0))
  }

  ghost predicate TracksAt(text: Text, pend: Pending, n: nat, r: nat)
    requires n <= |text.insns|
  {
    match Source(text, n, r)
    case None => r !in pend
    case Some(i) => r in pend && pend[r] == (PageAt(text, i), text.Pc(i))
  }

  ghost predicate Tracks(text: Text, pend: Pending, n: nat)
    requires n <= |text.insns|
  {
    forall r: nat :: TracksAt(text, pend, n, r)
  }

  ghost predicate Lists(text: Text, out: Index, n: nat)
    requires n <= |text.insns|
  {
    forall t: int :: ListsAt(text, out, n, t)
  }

  ghost predicate ListsAt(text: Text, out: Index, n: nat, t: int)
    requires n <= |text.insns|
  {
    if t in out then out[t] == Pcs(text, Pairs(text, t, n)) && out[t] != [] else Pairs(text, t, n) == []
  }

  // ----- one step

  /** How one instruction changes the pages being tracked. */
  function Advance(insn: u32, pc: nat, pend: Pending): Pending {
    var rd := RdField(insn);
    match DecodeAdrp(insn, pc)
    case Some(a) => pend[a.rd := (a.page, pc)]
    case None => if Ends(insn, rd) then pend - {rd} else pend
  }

  function Record(out: Index, t: int, pc: nat): Index {
    out[t := (if t in out then out[t] else []) + [pc]]
  }

  /** What one instruction adds to the index. */
  function Recorded(insn: u32, pend: Pending, out: Index): Index {
    match DecodeAddImm(insn)
    case Some(a) => if a.rn in pend then Record(out, pend[a.rn].0 + a.imm, pend[a.rn].1) else out
    case None => out
  }

  lemma TracksStep(text: Text, pend: Pending, n: nat)
    requires n < |text.insns| && Tracks(text, pend, n)
    ensures Tracks(text, Advance(text.insns[n], text.Pc(n), pend), n + 1)
  {
    var next, m := Advance(text.insns[n], text.Pc(n), pend), n + 1;
    forall r: nat
      ensures TracksAt(text, next, m, r)
    {
      assert TracksAt(text, pend, n, r);
      if Ends(text.insns[n], r) {
        EndsOnlyRd(text.insns[n], r);
      }
    }
  }

  lemma EndsOnlyRd(insn: u32, r: nat)
    requires Ends(insn, r)
    ensures r == RdField(insn)
  {
  }

  lemma ListsStep(text: Text, pend: Pending, out: Index, n: nat)
    requires n < |text.insns| && Tracks(text, pend, n) && Lists(text, out, n)
    ensures Lists(text, Recorded(text.insns[n], pend, out), n + 1)
  {
    var m := n + 1;
    match Computed(text, n) {
      case None =>
        NothingComputed(text, pend, n);
        forall t: int
          ensures ListsAt(text, out, m, t)
        {
          assert ListsAt(text, out, n, t);
        }
      case Some(hit) =>
        var rn := DecodeAddImm(text.insns[n]).value.rn;
        assert TracksAt(text, pend, n, rn);
        var next := Record(out, hit.0, text.Pc(hit.1));
        forall t: int
          ensures ListsAt(text, next, m, t)
        {
          RecordStep(text, out, n, t, hit);
        }
    }
  }

  lemma NothingComputed(text: Text, pend: Pending, n: nat)
    requires n < |text.insns| && Tracks(text, pend, n) && Computed(text, n).None?
    ensures DecodeAddImm(text.insns[n]).Some? ==> DecodeAddImm(text.insns[n]).value.rn !in pend
  {
    match DecodeAddImm(text.insns[n]) {
      case None =>
      case Some(a) => assert TracksAt(text, pend, n, a.rn);
    }
  }

  lemma RecordStep(text: Text, out: Index, n: nat, t: int, hit: (int, nat))
    requires n < |text.insns| && Lists(text, out, n) && Computed(text, n) == Some(hit)
    ensures ListsAt(text, Record(out, hit.0, text.Pc(hit.1)), n + 1, t)
  {
    assert ListsAt(text, out, n, t);
    if t == hit.0 {
      var before := Pairs(text, t, n);
      assert Pcs(text, before + [(hit.1, n)]) == Pcs(text, before) + [text.Pc(hit.1)];
    }
  }

  // ----- the pass

  method Step(insn: u32, pc: nat, pend: Pending, out: Index) returns (pend': Pending, out': Index)
    ensures pend' == Advance(insn, pc, pend)
    ensures out' == Recorded(insn, pend, out)
  {
    pend', out' := pend, out;
    var a := DecodeAdrp(insn, pc);
    if a.Some? {
      AdrpIsNotAdd(insn, pc);
      pend' := pend[a.value.rd := (a.value.page, pc)];
      return;
    }
    var ai := DecodeAddImm(insn);
    if ai.Some? {
      var AddImm(imm, rn, rd) := ai.value;
      if rn in pend {
        var (page, apc) := pend[rn];
        out' := Record(out, page + imm, apc);
      }
      if rd in pend && rd != rn {
        pend' := pend - {rd};
      }
      return;
    }
    var rd := RdField(insn);
    if rd in pend && !IsBl(insn) {
      pend' := pend - {rd};
    }
  }

  lemma StepKeeps(text: Text, pend: Pending, out: Index, n: nat, pend': Pending, out': Index)
    requires n < |text.insns| && Tracks(text, pend, n) && Lists(text, out, n)
    requires pend' == Advance(text.insns[n], text.Pc(n), pend) && out' == Recorded(text.insns[n], pend, out)
    ensures Tracks(text, pend', n + 1) && Lists(text, out', n + 1)
  {
    TracksStep(text, pend, n);
    ListsStep(text, pend, out, n);
  }

  method Build(text: Text) returns (out: Index)
    ensures Lists(text, out, |text.insns|)
  {
    var pend: Pending := map[];
    out := map[];
    for i := 0 to |text.insns|
      invariant Tracks(text, pend, i) && Lists(text, out, i)
    {
      ghost var was, before := pend, out;
      pend, out := Step(text.insns[i], text.Pc(i), pend, out);
      StepKeeps(text, was, before, i, pend, out);
    }
  }

  // ----- what the index lists

  /** The pair computes target by the tool's rules: load, live until the addition, right sum. */
  ghost predicate IsPair(text: Text, i: nat, j: nat, target: int) {
    && i < j < |text.insns| && DecodeAddImm(text.insns[j]).Some?
    && var a := DecodeAddImm(text.insns[j]).value;
       Live(text, i, j, a.rn) && PageAt(text, i) + a.imm == target
  }

  lemma {:induction false} CollectedIff(loads: seq<Option<nat>>, n: nat, i: nat, j: nat)
    requires n <= |loads|
    ensures (i, j) in Collected(loads, n) <==> j < n && loads[j] == Some(i)
  {
    if n == 0 {
    } else {
      CollectedIff(loads, n - 1, i, j);
    }
  }

  ghost predicate Ordered(pairs: seq<(nat, nat)>) {
    forall k, l :: 0 <= k < l < |pairs| ==> pairs[k].1 < pairs[l].1
  }

  lemma OrderedSnoc(pairs: seq<(nat, nat)>, p: (nat, nat))
    requires Ordered(pairs) && forall k :: 0 <= k < |pairs| ==> pairs[k].1 < p.1
    ensures Ordered(pairs + [p])
  {
  }

  lemma {:induction false} CollectedOrdered(loads: seq<Option<nat>>, n: nat)
    requires n <= |loads|
    ensures Ordered(Collected(loads, n)) && forall k :: 0 <= k < |Collected(loads, n)| ==> Collected(loads, n)[k].1 < n
  {
    if n == 0 {
    } else {
      var before := Collected(loads, n - 1);
      CollectedOrdered(loads, n - 1);
      if loads[n - 1].Some? {
        OrderedSnoc(before, (loads[n - 1].value, n - 1));
      } else {
        assert Collected(loads, n) == before;
      }
    }
  }

  lemma LoadIff(text: Text, i: nat, j: nat, target: int)
    requires j < |text.insns|
    ensures IsPair(text, i, j, target) <==> LoadFor(text, target, j) == Some(i)
  {
  }

  lemma PairIff(text: Text, target: int, n: nat, i: nat, j: nat)
    requires n <= |text.insns|
    ensures (i, j) in Pairs(text, target, n) <==> IsPair(text, i, j, target) && j < n
  {
    CollectedIff(Loads(text, target), n, i, j);
    if j < n {
      LoadIff(text, i, j, target);
    }
  }

  /** Exactly the pairs are listed, in order of their additions, each addition once. */
  lemma PairsAre(text: Text, target: int, n: nat)
    requires n <= |text.insns|
    ensures forall i: nat, j: nat :: (i, j) in Pairs(text, target, n) <==> IsPair(text, i, j, target) && j < n
    ensures Ordered(Pairs(text, target, n))
  {
    forall i: nat, j: nat
      ensures (i, j) in Pairs(text, target, n) <==> IsPair(text, i, j, target) && j < n
    {
      PairIff(text, target, n, i, j);
    }
    CollectedOrdered(Loads(text, target), n);
  }

  /** The index lists a load's pc under a target exactly when some addition makes them a pair. */
  lemma IndexIff(text: Text, out: Index, target: int, i: nat)
    requires Lists(text, out, |text.insns|)
    ensures (target in out && text.Pc(i) in out[target]) <==> exists j: nat :: IsPair(text, i, j, target)
  {
    if target in out && text.Pc(i) in out[target] {
      ListedHasPair(text, out, target, i);
    }
    if j: nat :| IsPair(text, i, j, target) {
      PairIsListed(text, out, target, i, j);
    }
  }

  lemma PairAt(text: Text, target: int, n: nat, k: nat)
    requires n <= |text.insns| && k < |Pairs(text, target, n)|
    ensures IsPair(text, Pairs(text, target, n)[k].0, Pairs(text, target, n)[k].1, target)
  {
    var p := Pairs(text, target, n)[k];
    assert (p.0, p.1) in Pairs(text, target, n);
    PairIff(text, target, n, p.0, p.1);
  }

  lemma ListedHasPair(text: Text, out: Index, target: int, i: nat)
    requires Lists(text, out, |text.insns|) && target in out && text.Pc(i) in out[target]
    ensures exists j: nat :: IsPair(text, i, j, target)
  {
    var n := |text.insns|;
    assert ListsAt(text, out, n, target);
    var k :| 0 <= k < |out[target]| && out[target][k] == text.Pc(i);
    PairAt(text, target, n, k);
    SamePc(text, Pairs(text, target, n)[k].0, i);
  }

  lemma SamePc(text: Text, i: nat, j: nat)
    requires text.Pc(i) == text.Pc(j)
    ensures i == j
  {
  }

  lemma PairIsListed(text: Text, out: Index, target: int, i: nat, j: nat)
    requires Lists(text, out, |text.insns|) && IsPair(text, i, j, target)
    ensures target in out && text.Pc(i) in out[target]
  {
    var pairs := Pairs(text, target, |text.insns|);
    assert ListsAt(text, out, |text.insns|, target);
    PairIff(text, target, |text.insns|, i, j);
    var k :| 0 <= k < |pairs| && pairs[k] == (i, j);
    assert out[target][k] == text.Pc(i);
  }

  // ----- the same, in terms of the words alone

  /** The low five bits name r, and the word is neither a call nor an addition to r itself. */
  predicate Overwrites(w: u32, r: nat) {
    && w % 0x20 == r && !(0x9400_0000 <= w < 0x9800_0000)
    && !(0x9100_0000 <= w < 0x9180_0000 && w / 0x20 % 0x20 == r)
  }

  lemma EndsIff(w: u32, r: nat)
    ensures Ends(w, r) <==> Overwrites(w, r)
  {
    AdrpIff(w);
    AddImmIff(w);
    BlIff(w);
  }

  /** Word i is an ADRP, word j adds to its register, none in between overwrites that, and the sum is the target. */
  ghost predicate Computes(text: Text, i: nat, j: nat, target: int) {
    && i < j < |text.insns|
    && var load, add, pc := text.insns[i], text.insns[j], text.base + 4 * i;
       && load / 0x100_0000 in {0x90, 0xB0, 0xD0, 0xF0} && 0x9100_0000 <= add < 0x9180_0000
       && add / 0x20 % 0x20 == load % 0x20
       && (forall k :: i < k < j ==> !Overwrites(text.insns[k], load % 0x20))
       && target == pc - pc % 0x1000 + AdrpPages(load) * 0x1000
                    + add / 0x400 % 0x1000 * (if add / 0x40_0000 % 2 == 1 then 0x1000 else 1)
  }

  lemma PairIs(text: Text, i: nat, j: nat, target: int)
    ensures IsPair(text, i, j, target) <==> Computes(text, i, j, target)
  {
    if i < j < |text.insns| {
      var r := RdField(text.insns[i]);
      AdrpIff(text.insns[i]);
      AddImmIff(text.insns[j]);
      forall k | i < k < j
        ensures Ends(text.insns[k], r) <==> Overwrites(text.insns[k], r)
      {
        EndsIff(text.insns[k], r);
      }
    }
  }

  /** What the index lists, instruction decoding and tracking rules spelled out. */
  lemma IndexIs(text: Text, out: Index, target: int, i: nat)
    requires Lists(text, out, |text.insns|)
    ensures (target in out && text.base + 4 * i in out[target]) <==> exists j: nat :: Computes(text, i, j, target)
  {
    IndexIff(text, out, target, i);
    forall j: nat
      ensures IsPair(text, i, j, target) <==> Computes(text, i, j, target)
    {
      PairIs(text, i, j, target);
    }
    if j: nat :| IsPair(text, i, j, target) {
      assert Computes(text, i, j, target);
    }
    if j: nat :| Computes(text, i, j, target) {
      assert IsPair(text, i, j, target);
    }
  }

  /** Each entry comes from a pair of its own, in the order of the additions, and no pair is left out. */
  lemma IndexLists(text: Text, out: Index, target: int) returns (pairs: seq<(nat, nat)>)
    requires Lists(text, out, |text.insns|)
    ensures target in out <==> pairs != []
    ensures target in out ==> |out[target]| == |pairs|
    ensures forall k :: 0 <= k < |pairs| && target in out ==> out[target][k] == text.base + 4 * pairs[k].0
    ensures forall i: nat, j: nat :: (i, j) in pairs <==> Computes(text, i, j, target)
    ensures forall k, l :: 0 <= k < l < |pairs| ==> pairs[k].1 < pairs[l].1
  {
    var n := |text.insns|;
    pairs := Pairs(text, target, n);
    assert ListsAt(text, out, n, target);
    PairsAre(text, target, n);
    forall i: nat, j: nat
      ensures (i, j) in pairs <==> Computes(text, i, j, target)
    {
      PairIs(text, i, j, target);
    }
  }

  lemma EncodedPair(text: Text, i: nat, j: nat, pages: int, r: nat, imm12: nat, rd: nat)
    requires i < j < |text.insns|
    requires -0x10_0000 <= pages < 0x10_0000 && imm12 < 0x1000 && r < 0x20 && rd < 0x20
    requires text.insns[i] == EncodeAdrp(pages, r) && text.insns[j] == EncodeAddImm(false, imm12, r, rd)
    requires forall k :: i < k < j ==> !Ends(text.insns[k], r)
    ensures IsPair(text, i, j, PageOf(text.Pc(i)) + pages * 0x1000 + imm12)
  {
    var w, pc := EncodeAdrp(pages, r), text.Pc(i);
    AdrpRoundTrip(pages, r, pc);
    assert DecodeAdrp(w, pc) == Some(Adrp(PageOf(pc) + AdrpPages(w) * 0x1000, RdField(w)));
    AddImmRoundTrip(false, imm12, r, rd);
  }

  lemma CallsEndNothing(text: Text, i: nat, j: nat, r: nat)
    requires j <= |text.insns| && forall k :: i < k < j ==> 0x9400_0000 <= text.insns[k] < 0x9800_0000
    ensures forall k :: i < k < j ==> !Ends(text.insns[k], r)
  {
    forall k | i < k < j
      ensures !Ends(text.insns[k], r)
    {
      EndsIff(text.insns[k], r);
    }
  }

  /** In particular calls between a load and an addition change nothing. */
  lemma CallsKeepPages(text: Text, out: Index, i: nat, j: nat, pages: int, r: nat, imm12: nat, rd: nat)
    requires Lists(text, out, |text.insns|) && i < j < |text.insns|
    requires -0x10_0000 <= pages < 0x10_0000 && imm12 < 0x1000 && r < 0x20 && rd < 0x20
    requires text.insns[i] == EncodeAdrp(pages, r) && text.insns[j] == EncodeAddImm(false, imm12, r, rd)
    requires forall k :: i < k < j ==> 0x9400_0000 <= text.insns[k] < 0x9800_0000
    ensures var target := PageOf(text.Pc(i)) + pages * 0x1000 + imm12;
            target in out && text.Pc(i) in out[target]
  {
    CallsEndNothing(text, i, j, r);
    EncodedPair(text, i, j, pages, r, imm12, rd);
    PairIsListed(text, out, PageOf(text.Pc(i)) + pages * 0x1000 + imm12, i, j);
  }
}
