/** Naming a handler after the first function-name literal its own code refers to. */
module HandlerNames {
  import opened Bytes

  /** A referenced identifier-looking string and the address that refers to it. */
  datatype Site = Site(pc: nat, text: string)

  const FAMILIES: seq<string> := ["WiFiCmd", "WifiCmd", "XML_", "OTA_", "System_", "CarDV", "Storage"]
  const LAST_SPAN: nat := 0x800

  predicate InFamily(s: string) {
    exists f :: f in FAMILIES && f <= s
  }

  /** Dictionary order on strings, by code point. */
  predicate StringLess(s: string, t: string) {
    if t == [] then false
    else if s == [] then true
    else if s[0] != t[0] then s[0] < t[0]
    else StringLess(s[1..], t[1..])
  }

  /** The order in which sites are sorted and searched: by address, then by text. */
  predicate SiteLess(a: Site, b: Site) {
    a.pc < b.pc || (a.pc == b.pc && StringLess(a.text, b.text))
  }

  ghost predicate SortedSites(sites: seq<Site>) {
    forall i, j :: 0 <= i < j < |sites| ==> !SiteLess(sites[j], sites[i])
  }

  ghost predicate Increasing(starts: seq<nat>) {
    forall i, j :: 0 <= i < j < |starts| ==> starts[i] < starts[j]
  }

  // ----- where functions start

  /** The masked word of a frame-saving function prologue. */
  predicate IsPrologue(w: u32) {
    w / 0x40_0000 == 0xA980_0000 / 0x40_0000 && w % 0x8000 == 0x7BFD
  }

  /** Prologue addresses, table handlers and posted handlers, zero meaning none. */
  ghost function StartSet(code: seq<u32>, base: nat, handlers: set<nat>, posted: set<nat>): set<nat> {
    (set i | 0 <= i < |code| && IsPrologue(code[i]) :: base + i * 4) + (handlers - {0}) + (posted - {0})
  }

  ghost predicate IsStarts(starts: seq<nat>, code: seq<u32>, base: nat, handlers: set<nat>, posted: set<nat>) {
    Increasing(starts) && forall x :: x in starts <==> x in StartSet(code, base, handlers, posted)
  }

  // ----- the reference: plain linear searches

  /** The first start after fn; past the last one, a fixed span. */
  function EndOf(starts: seq<nat>, fn: nat, i: nat): (e: nat)
    requires i <= |starts|
    ensures fn < e
    decreases |starts| - i
  {
    if i == |starts| then fn + LAST_SPAN else if fn < starts[i] then starts[i] else EndOf(starts, fn, i + 1)
  }

  predicate Names(s: Site, fn: nat, end: nat) {
    fn <= s.pc < end && InFamily(s.text)
  }

  /** The first site, in order, that can name a function occupying [fn, end). */
  function FirstNaming(sites: seq<Site>, fn: nat, end: nat, k: nat): (r: Option<nat>)
    requires k <= |sites|
    ensures match r
            case Some(n) => && k <= n < |sites| && Names(sites[n], fn, end)
                            && forall l :: k <= l < n ==> !Names(sites[l], fn, end)
            case None => forall l :: k <= l < |sites| ==> !Names(sites[l], fn, end)
    decreases |sites| - k
  {
    if k == |sites| then None else if Names(sites[k], fn, end) then Some(k) else FirstNaming(sites, fn, end, k + 1)
  }

  function NameOf(starts: seq<nat>, sites: seq<Site>, fn: nat): Option<string> {
    if fn == 0 then None
    else match FirstNaming(sites, fn, EndOf(starts, fn, 0), 0)
         case Some(k) => Some(sites[k].text)
         case None => None
  }

  // ----- the bisected lookup

  method BisectRight(a: seq<nat>, x: nat) returns (lo: nat)
    requires Increasing(a)
    ensures lo <= |a|
    ensures forall i :: 0 <= i < lo ==> a[i] <= x
    ensures forall i :: lo <= i < |a| ==> x < a[i]
  {
    lo := 0;
    var hi := |a|;
    while lo < hi
      invariant lo <= hi <= |a|
      invariant forall i :: 0 <= i < lo ==> a[i] <= x
      invariant forall i :: hi <= i < |a| ==> x < a[i]
    {
      var mid := (lo + hi) / 2;
      if x < a[mid] {
        hi := mid;
      } else {
        lo := mid + 1;
      }
    }
  }

  method BisectLeft(a: seq<Site>, x: Site) returns (lo: nat)
    requires SortedSites(a) && x.text == ""
    ensures lo <= |a|
    ensures forall i :: 0 <= i < lo ==> a[i].pc < x.pc
    ensures forall i :: lo <= i < |a| ==> x.pc <= a[i].pc
  {
    lo := 0;
    var hi := |a|;
    while lo < hi
      invariant lo <= hi <= |a|
      invariant forall i :: 0 <= i < lo ==> a[i].pc < x.pc
      invariant forall i :: hi <= i < |a| ==> x.pc <= a[i].pc
    {
      var mid := (lo + hi) / 2;
      assert forall i :: 0 <= i < mid ==> !SiteLess(a[mid], a[i]);
      assert forall i :: mid < i < |a| ==> !SiteLess(a[i], a[mid]);
      if SiteLess(a[mid], x) {
        lo := mid + 1;
      } else {
        hi := mid;
      }
    }
  }

  lemma {:induction false} EndOfSkips(starts: seq<nat>, fn: nat, i: nat, n: nat)
    requires i <= n <= |starts| && forall k :: i <= k < n ==> starts[k] <= fn
    ensures EndOf(starts, fn, i) == EndOf(starts, fn, n)
    decreases n - i
  {
    if i == n {
    } else {
      EndOfSkips(starts, fn, i + 1, n);
    }
  }

  lemma FirstNamingSkips(sites: seq<Site>, fn: nat, end: nat, k: nat, n: nat)
    requires k <= n <= |sites| && forall l :: k <= l < n ==> !Names(sites[l], fn, end)
    ensures FirstNaming(sites, fn, end, k) == FirstNaming(sites, fn, end, n)
    decreases n - k
  {
  }

  /** Two bisections and a bounded walk find what the full linear search finds. */
  method Lookup(starts: seq<nat>, sites: seq<Site>, fn: nat) returns (name: Option<string>)
    requires Increasing(starts) && SortedSites(sites)
    ensures name == NameOf(starts, sites, fn)
  {
    if fn == 0 {
      return None;
    }
    var i := BisectRight(starts, fn);
    var end := if i < |starts| then starts[i] else fn + LAST_SPAN;
    EndOfSkips(starts, fn, 0, i);
    var k := BisectLeft(sites, Site(fn, ""));
    ghost var from := k;
    FirstNamingSkips(sites, fn, end, 0, k);
    while k < |sites| && sites[k].pc < end
      invariant from <= k <= |sites|
      invariant FirstNaming(sites, fn, end, k) == FirstNaming(sites, fn, end, 0)
    {
      if InFamily(sites[k].text) {
        return Some(sites[k].text);
      }
      k := k + 1;
    }
    NoneBeyond(sites, fn, end, k);
    return None;
  }

  lemma NoneBeyond(sites: seq<Site>, fn: nat, end: nat, k: nat)
    requires SortedSites(sites) && k <= |sites| && (k < |sites| ==> end <= sites[k].pc)
    ensures FirstNaming(sites, fn, end, k) == None
  {
  }

  // ----- the answer, spelled out

  /** A span ends at the least start above the function, or 0x800 bytes on when there is none. */
  lemma {:induction false} EndOfIs(starts: seq<nat>, fn: nat, i: nat)
    requires Increasing(starts) && i <= |starts|
    ensures var e := EndOf(starts, fn, i);
            if forall k :: i <= k < |starts| ==> starts[k] <= fn then e == fn + 0x800
            else e in starts && fn < e && forall k :: i <= k < |starts| && fn < starts[k] ==> e <= starts[k]
    decreases |starts| - i
  {
    if i < |starts| && starts[i] <= fn {
      EndOfIs(starts, fn, i + 1);
    }
  }

  lemma InFamilyIff(s: string)
    ensures InFamily(s) <==>
            || "WiFiCmd" <= s || "WifiCmd" <= s || "XML_" <= s || "OTA_" <= s || "System_" <= s || "CarDV" <= s
            || "Storage" <= s
  {
    assert FAMILIES == ["WiFiCmd", "WifiCmd", "XML_", "OTA_", "System_", "CarDV", "Storage"];
    if InFamily(s) {
      var f :| f in FAMILIES && f <= s;
      var k :| 0 <= k < 7 && FAMILIES[k] == f;
    } else {
      assert FAMILIES[0] in FAMILIES && FAMILIES[1] in FAMILIES && FAMILIES[2] in FAMILIES && FAMILIES[3] in FAMILIES;
      assert FAMILIES[4] in FAMILIES && FAMILIES[5] in FAMILIES && FAMILIES[6] in FAMILIES;
    }
  }

  /** A function's name is the text of the first site inside its span that belongs to a family. */
  lemma NameOfIff(starts: seq<nat>, sites: seq<Site>, fn: nat, t: string)
    requires fn != 0
    ensures NameOf(starts, sites, fn) == Some(t) <==>
            exists k: nat :: k < |sites| && sites[k].text == t && IsFirstNaming(sites, fn, EndOf(starts, fn, 0), k)
  {
    var end := EndOf(starts, fn, 0);
    var first := FirstNaming(sites, fn, end, 0);
    if first.Some? {
      assert IsFirstNaming(sites, fn, end, first.value);
    }
  }

  ghost predicate IsFirstNaming(sites: seq<Site>, fn: nat, end: nat, k: nat) {
    && k < |sites| && fn <= sites[k].pc < end && InFamily(sites[k].text)
    && forall l :: 0 <= l < k ==> !(fn <= sites[l].pc < end && InFamily(sites[l].text))
  }

  /** The order compares at the first difference; a proper prefix comes first. */
  lemma {:induction false} StringLessIff(s: string, t: string)
    ensures StringLess(s, t) <==> s < t || exists k: nat :: DiffersAt(s, t, k) && s[k] < t[k]
  {
    if s == [] || t == [] {
    } else if s[0] != t[0] {
      assert s[0] < t[0] ==> DiffersAt(s, t, 0);
    } else {
      StringLessIff(s[1..], t[1..]);
      assert s == [s[0]] + s[1..] && t == [t[0]] + t[1..];
      if k: nat :| DiffersAt(s[1..], t[1..], k) && s[1..][k] < t[1..][k] {
        DifferenceShifts(s, t, k);
      }
      if k: nat :| DiffersAt(s, t, k) && s[k] < t[k] {
        DifferenceShifts(s, t, k - 1);
      }
    }
  }

  lemma DifferenceShifts(s: string, t: string, k: nat)
    requires s != [] && t != [] && s[0] == t[0]
    ensures DiffersAt(s, t, k + 1) <==> DiffersAt(s[1..], t[1..], k)
  {
    var u, v := s[1..], t[1..];
    if DiffersAt(s, t, k + 1) {
      assert forall i :: 0 <= i < k ==> u[i] == s[i + 1] && v[i] == t[i + 1];
    }
    if DiffersAt(u, v, k) {
      assert forall i :: 0 < i < k + 1 ==> s[i] == u[i - 1] && t[i] == v[i - 1];
    }
  }

  ghost predicate DiffersAt(s: string, t: string, k: nat) {
    k < |s| && k < |t| && s[k] != t[k] && forall i :: 0 <= i < k ==> s[i] == t[i]
  }

  /** The prologues are the words that store x29 and x30 below the stack pointer, by any of the 128 amounts. */
  lemma IsPrologueIff(w: u32)
    ensures IsPrologue(w) <==> exists amount: nat :: amount < 0x80 && w == 0xA980_7BFD + amount * 0x8000
  {
    if IsPrologue(w) {
      var amount := w / 0x8000 - 0xA980_0000 / 0x8000;
      assert w == w / 0x8000 * 0x8000 + 0x7BFD;
      assert w / 0x8000 / 0x80 == w / 0x40_0000;
      assert amount < 0x80 && w == 0xA980_7BFD + amount * 0x8000;
    }
  }

  /** Of several texts at one address the least that belongs to a family gives the name. */
  lemma TieGoesToLeast(starts: seq<nat>, sites: seq<Site>, fn: nat, k: nat, l: nat)
    requires SortedSites(sites) && k < |sites| && l < |sites|
    requires IsFirstNaming(sites, fn, EndOf(starts, fn, 0), k)
    requires sites[l].pc == sites[k].pc && InFamily(sites[l].text)
    ensures !StringLess(sites[l].text, sites[k].text)
  {
    assert k <= l;
    if k == l {
      Irreflexive(sites[k].text);
    }
  }

  lemma {:induction false} Irreflexive(s: string)
    ensures !StringLess(s, s)
  {
    if s == [] {
    } else {
      Irreflexive(s[1..]);
    }
  }

  /** Function starts are the prologues of the text section and the known handlers, zero being none. */
  lemma StartsIff(starts: seq<nat>, code: seq<u32>, base: nat, handlers: set<nat>, posted: set<nat>, x: nat)
    requires IsStarts(starts, code, base, handlers, posted)
    ensures x in starts <==>
            || (exists i: nat :: i < |code| && IsPrologue(code[i]) && x == base + 4 * i)
            || (x != 0 && (x in handlers || x in posted))
  {
    if i: nat :| i < |code| && IsPrologue(code[i]) && x == base + 4 * i {
      assert base + i * 4 in StartSet(code, base, handlers, posted);
    }
  }

  /** No span reaches past the next word that is a prologue. */
  lemma SpanStopsAtPrologue(starts: seq<nat>, code: seq<u32>, base: nat, handlers: set<nat>, posted: set<nat>,
                            fn: nat, i: nat, amount: nat)
    requires IsStarts(starts, code, base, handlers, posted)
    requires i < |code| && fn < base + 4 * i && amount < 0x80 && code[i] == 0xA980_7BFD + amount * 0x8000
    ensures EndOf(starts, fn, 0) <= base + 4 * i
  {
    IsPrologueIff(code[i]);
    StartsIff(starts, code, base, handlers, posted, base + 4 * i);
    SpanEnds(starts, fn, base + 4 * i);
  }

  // ----- handlers do not share sites

  lemma {:induction false} EndBeforeNextStart(starts: seq<nat>, fn: nat, next: nat, i: nat)
    requires i <= |starts| && fn < next && next in starts[i..] && Increasing(starts)
    ensures EndOf(starts, fn, i) <= next
    decreases |starts| - i
  {
    if starts[i] <= fn {
      assert starts[i..][1..] == starts[i + 1..];
      EndBeforeNextStart(starts, fn, next, i + 1);
    } else {
      var k :| 0 <= k < |starts[i..]| && starts[i..][k] == next;
      assert starts[i + k] == next;
    }
  }

  /** A site can name at most one of the known handlers. */
  lemma HandlersShareNoSite(starts: seq<nat>, code: seq<u32>, base: nat, handlers: set<nat>, posted: set<nat>,
                            f: nat, g: nat, s: Site)
    requires IsStarts(starts, code, base, handlers, posted)
    requires f in handlers + posted && g in handlers + posted && f != 0 && g != 0
    requires Names(s, f, EndOf(starts, f, 0)) && Names(s, g, EndOf(starts, g, 0))
    ensures f == g
  {
    assert f in StartSet(code, base, handlers, posted) && g in StartSet(code, base, handlers, posted);
    SpanEnds(starts, f, g);
    SpanEnds(starts, g, f);
  }

  lemma SpanEnds(starts: seq<nat>, f: nat, g: nat)
    requires Increasing(starts) && g in starts
    ensures f < g ==> EndOf(starts, f, 0) <= g
  {
    assert starts[0..] == starts;
    if f < g {
      EndBeforeNextStart(starts, f, g, 0);
    }
  }
}
