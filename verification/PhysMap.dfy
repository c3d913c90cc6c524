/** The physical memory map of `kernel/mm/pmm.c`: built from the entries the boot loader
    reports, checked for overlap, sorted in place, and then walked page by page. */
module PhysMap {
  import opened Numeric
  import Pmm

  const PMAP_SIZE: nat := 10
  const BIOS_END: int := 0x100000
  const MEMORY_AVAILABLE: int := 1
  const MEMORY_RESERVED: int := 2
  /** What `pmm_next_phys_page` returns behind the last page. */
  const END: int := 1

  datatype Kind = Available | Reserved

  /** An entry of the boot loader's memory map; all fields are 64-bit values. */
  datatype Entry = Entry(addr: int, len: int, kind: int)

  /** One element of `pmap`, its bitmap apart. */
  datatype Area = Area(addr: int, pages: int, kind: Kind) {
    function Stop(): int { addr + pages * 0x1000 }
    /** The end as the code computes it, in 64 bits. */
    function Stop64(): int { (addr + pages * 0x1000) % U64 }
  }

  predicate Accepts(e: Entry) {
    (e.kind == MEMORY_AVAILABLE && e.addr >= BIOS_END) || e.kind == MEMORY_RESERVED
  }

  // ---- one entry ----------------------------------------------------------------------------

  function StartOf(e: Entry, kernelEnd: int): int {
    PageAddr(if e.kind == MEMORY_AVAILABLE then Max(kernelEnd, e.addr) else e.addr)
  }

  /** `addr_stop` of `pmap_insert`, with every operation in 64 bits. */
  function StopOf(e: Entry, kernelEnd: int): int {
    var start := StartOf(e, kernelEnd);
    var len := Sub64(e.len, Sub64(start, e.addr));
    RoundUp(Sub64((start + len) % U64, 1), 0x1000) % U64
  }

  function AreaOf(e: Entry, kernelEnd: int): Area {
    var start := StartOf(e, kernelEnd);
    Area(start, Sub64(StopOf(e, kernelEnd), start) / 0x1000, if e.kind == MEMORY_AVAILABLE then Available else Reserved)
  }

  /** 64-bit values, no address wrap-around, and something left of the entry above the kernel. */
  predicate Regular(e: Entry, kernelEnd: int) {
    0 <= e.addr && 0 <= e.len && 0 <= kernelEnd < U64 && e.addr + e.len <= U64 - 0x1000
        && StartOf(e, kernelEnd) < e.addr + e.len
  }

  predicate AreaOk(a: Area) {
    && 0 <= a.addr && PageAligned(a.addr) && a.pages > 0 && a.Stop() < U64
    && (a.kind.Available? ==> a.addr >= BIOS_END)
  }

  /** The area of a regular entry is the entry rounded outward to whole pages, the part of
      an available one below the kernel's end cut off. */
  lemma {:induction false} AreaOfRegular(e: Entry, kernelEnd: int)
    requires Regular(e, kernelEnd) && Accepts(e)
    ensures var a := AreaOf(e, kernelEnd);
            && AreaOk(a) && a.Stop64() == a.Stop() == StopOf(e, kernelEnd)
            && e.addr + e.len <= a.Stop() < e.addr + e.len + 0x1000
            && var from := if a.kind.Available? then Max(kernelEnd, e.addr) else e.addr;
               a.addr <= from < a.addr + 0x1000
  {
    PageAddrAligned(if e.kind == MEMORY_AVAILABLE then Max(kernelEnd, e.addr) else e.addr);
    StopOfRegular(e, kernelEnd);
    PagesApart(StartOf(e, kernelEnd), StopOf(e, kernelEnd));
  }

  lemma {:induction false} StopOfRegular(e: Entry, kernelEnd: int)
    requires Regular(e, kernelEnd)
    ensures var stop := StopOf(e, kernelEnd);
            PageAligned(stop) && e.addr + e.len <= stop < e.addr + e.len + 0x1000 && stop < U64
  {
    var start := StartOf(e, kernelEnd);
    PageAddrAligned(if e.kind == MEMORY_AVAILABLE then Max(kernelEnd, e.addr) else e.addr);
    assert (start + Sub64(e.len, Sub64(start, e.addr))) % U64 == e.addr + e.len;
    RoundUpCeiling(e.addr + e.len, 0x1000, 0);
    assert StopOf(e, kernelEnd) == RoundUp(e.addr + e.len - 1, 0x1000);
  }

  /** Whatever the entry, `size_in_pages` spells the same end as `addr_stop`. */
  lemma {:induction false} StopSpelled(e: Entry, kernelEnd: int)
    requires 0 <= kernelEnd < U64 && 0 <= e.addr < U64 && 0 <= e.len < U64
    ensures AreaOf(e, kernelEnd).Stop64() == StopOf(e, kernelEnd)
  {
    var start, stop := StartOf(e, kernelEnd), StopOf(e, kernelEnd);
    PageAddrAligned(if e.kind == MEMORY_AVAILABLE then Max(kernelEnd, e.addr) else e.addr);
    var x := Sub64((start + Sub64(e.len, Sub64(start, e.addr))) % U64, 1);
    assert PageAligned(RoundUp(x, 0x1000));
    assert PageAligned(stop);
    PagesApart(start, stop);
    PagesApart(start, stop + U64);
  }

  // ---- overlap ------------------------------------------------------------------------------

  /** The test of `pmap_insert` against an earlier element. */
  predicate Clash(a: Area, b: Area) {
    !(a.addr >= b.Stop64() || a.Stop64() <= b.addr)
  }

  predicate PageOf(a: Area, p: int) {
    a.addr <= p < a.Stop() && PageAligned(p)
  }

  /** Two areas clash exactly when they share a page. */
  lemma {:induction false} ClashMeaning(a: Area, b: Area)
    requires AreaOk(a) && AreaOk(b)
    ensures Clash(a, b) <==> exists p :: PageOf(a, p) && PageOf(b, p)
  {
    if Clash(a, b) {
      assert PageOf(a, Max(a.addr, b.addr)) && PageOf(b, Max(a.addr, b.addr));
    }
  }

  ghost predicate NoClash(s: seq<Area>) {
    forall i, j :: 0 <= i < |s| && 0 <= j < |s| && i != j ==> !Clash(s[i], s[j])
  }

  /** The areas of the accepted entries, in the order they are reported. */
  function AreasOf(es: seq<Entry>, kernelEnd: int): seq<Area> {
    if es == [] then []
    else
      var before := AreasOf(es[..|es| - 1], kernelEnd);
      if Accepts(es[|es| - 1]) then before + [AreaOf(es[|es| - 1], kernelEnd)] else before
  }

  // ---- what a memory map says ---------------------------------------------------------------

  /** Entries that count: reserved ones (type 2), and available ones (type 1) from 1 MiB on. */
  predicate Counts(e: Entry) {
    e.kind == 2 || (e.kind == 1 && e.addr >= 0x10_0000)
  }

  /** The entry reaches into the page at `p`; what is available below the kernel's end does
      not count. */
  predicate Reaches(e: Entry, kernelEnd: int, p: int) {
    && p % 0x1000 == 0 && e.addr < p + 0x1000 && p < e.addr + e.len
    && (e.kind == 1 ==> kernelEnd < p + 0x1000)
  }

  /** No entry that counts runs to the end of the address space, or is all below the page in
      which it, or the kernel, begins. */
  ghost predicate AllSane(es: seq<Entry>, kernelEnd: int) {
    forall i :: 0 <= i < |es| && Counts(es[i]) ==>
      && es[i].addr + es[i].len <= U64 - 0x1000 && es[i].addr / 0x1000 * 0x1000 < es[i].addr + es[i].len
      && (es[i].kind == 1 ==> kernelEnd / 0x1000 * 0x1000 < es[i].addr + es[i].len)
  }

  /** The page at `p` is reported, as memory of this kind. */
  ghost predicate Reported(es: seq<Entry>, kernelEnd: int, p: int, kind: Kind) {
    exists i :: 0 <= i < |es| && Counts(es[i]) && Reaches(es[i], kernelEnd, p)
                && (es[i].kind == 1 <==> kind == Available)
  }

  /** No page is reported by two entries. */
  ghost predicate NoPageTwice(es: seq<Entry>, kernelEnd: int) {
    forall i, j, p :: 0 <= i < j < |es| && Counts(es[i]) && Counts(es[j]) ==>
      !(Reaches(es[i], kernelEnd, p) && Reaches(es[j], kernelEnd, p))
  }

  ghost function Counted(es: seq<Entry>): set<int> {
    set i | 0 <= i < |es| && Counts(es[i])
  }

  lemma {:induction false} SaneIsRegular(es: seq<Entry>, kernelEnd: int, i: nat)
    requires AllSane(es, kernelEnd) && i < |es| && 0 <= kernelEnd < U64 && 0 <= es[i].addr && 0 <= es[i].len
    ensures Accepts(es[i]) <==> Counts(es[i])
    ensures Accepts(es[i]) ==> Regular(es[i], kernelEnd)
  {
    FloorIsPageAddr(es[i].addr);
    FloorIsPageAddr(kernelEnd);
  }

  lemma {:induction false} FloorIsPageAddr(a: int)
    ensures a / 0x1000 * 0x1000 == PageAddr(a)
  {}

  /** The pages of an area are those its entry reaches into. */
  lemma {:induction false} AreaPages(e: Entry, kernelEnd: int, p: int)
    requires Accepts(e) && Regular(e, kernelEnd)
    ensures PageOf(AreaOf(e, kernelEnd), p) <==> Reaches(e, kernelEnd, p)
  {
    AreaOfRegular(e, kernelEnd);
    var a := AreaOf(e, kernelEnd);
    if PageAligned(p) {
      Between(a.addr, if a.kind.Available? then Max(kernelEnd, e.addr) else e.addr, p);
      StopPage(a.Stop(), e.addr + e.len, p);
    }
  }

  lemma {:induction false} Between(a: int, x: int, p: int)
    requires PageAligned(a) && PageAligned(p) && a <= x < a + 0x1000
    ensures a <= p <==> x < p + 0x1000
  {}

  lemma {:induction false} StopPage(stop: int, x: int, p: int)
    requires PageAligned(stop) && PageAligned(p) && x <= stop < x + 0x1000
    ensures p < stop <==> p < x
  {}

  // ---- sorting ------------------------------------------------------------------------------

  ghost predicate SortedUpTo(s: seq<Area>, k: nat) {
    k <= |s| && forall i, j :: 0 <= i < k && i < j < |s| ==> s[i].addr <= s[j].addr
  }

  function Swapped(s: seq<Area>, i: nat, j: nat): seq<Area>
    requires i < |s| && j < |s|
  {
    s[i := s[j]][j := s[i]]
  }

  ghost predicate DistinctStarts(s: seq<Area>) {
    forall i, j :: 0 <= i < |s| && 0 <= j < |s| && i != j ==> s[i].addr != s[j].addr
  }

  /** A permutation, with what that means for clashes and starts. */
  ghost predicate Rearranged(s: seq<Area>, t: seq<Area>) {
    multiset(t) == multiset(s) && (NoClash(s) ==> NoClash(t)) && (DistinctStarts(s) <==> DistinctStarts(t))
  }

  lemma {:induction false} RearrangedTwice(s: seq<Area>, t: seq<Area>, u: seq<Area>)
    requires Rearranged(s, t) && Rearranged(t, u)
    ensures Rearranged(s, u)
  {}

  lemma {:induction false} SwapKeeps(s: seq<Area>, i: nat, j: nat)
    requires i < |s| && j < |s|
    ensures Rearranged(s, Swapped(s, i, j))
  {
    SwapPermutes(s, i, j);
    SwapClashes(s, i, j);
    SwapDistinct(s, i, j);
    SwapDistinct(Swapped(s, i, j), i, j);
    assert Swapped(Swapped(s, i, j), i, j) == s;
  }

  lemma {:induction false} SwapPermutes(s: seq<Area>, i: nat, j: nat)
    requires i < |s| && j < |s|
    ensures multiset(Swapped(s, i, j)) == multiset(s)
  {}

  lemma {:induction false} SwapClashes(s: seq<Area>, i: nat, j: nat)
    requires i < |s| && j < |s|
    ensures NoClash(s) ==> NoClash(Swapped(s, i, j))
  {}

  lemma {:induction false} SwapDistinct(s: seq<Area>, i: nat, j: nat)
    requires i < |s| && j < |s|
    ensures DistinctStarts(s) ==> DistinctStarts(Swapped(s, i, j))
  {}

  lemma {:induction false} SwapExtends(s: seq<Area>, k: nat, m: nat)
    requires SortedUpTo(s, k) && k <= m < |s| && forall j :: k <= j < |s| ==> s[m].addr <= s[j].addr
    ensures SortedUpTo(Swapped(s, k, m), k + 1)
  {}

  /** Sorted, in place and disjoint: what the frame allocator relies on. */
  ghost predicate InOrder(s: seq<Area>) {
    && (forall i :: 0 <= i < |s| ==> AreaOk(s[i]))
    && (forall i, j :: 0 <= i < j < |s| ==> s[i].Stop() <= s[j].addr)
  }

  lemma {:induction false} SortedInOrder(s: seq<Area>)
    requires SortedUpTo(s, |s|) && NoClash(s) && forall i :: 0 <= i < |s| ==> AreaOk(s[i])
    ensures InOrder(s)
  {
    forall i, j | 0 <= i < j < |s| ensures s[i].Stop() <= s[j].addr {
      assert !Clash(s[i], s[j]) && AreaOk(s[i]) && AreaOk(s[j]);
    }
  }

  /** Such a map is the layout the frame allocator is set up with. */
  lemma {:induction false} LayoutOfMap(s: seq<Area>, pmap: seq<Pmm.PhysRegion>)
    requires InOrder(s) && |pmap| == |s|
    requires forall i :: 0 <= i < |s| ==> pmap[i].addr == s[i].addr && pmap[i].pages == s[i].pages
    requires forall i :: 0 <= i < |s| ==> (pmap[i].Available? <==> s[i].kind.Available?)
    ensures Pmm.Layout(pmap)
  {}

  // ---- the pages of a map -------------------------------------------------------------------

  ghost predicate PageOfKind(s: seq<Area>, p: int, kind: Kind) {
    exists i :: 0 <= i < |s| && PageOf(s[i], p) && s[i].kind == kind
  }

  ghost predicate HasPage(s: seq<Area>, p: int) {
    exists i :: 0 <= i < |s| && PageOf(s[i], p)
  }

  lemma {:induction false} HasPageStep(s: seq<Area>, i: nat)
    requires i < |s|
    ensures forall p :: HasPage(s[..i + 1], p) <==> HasPage(s[..i], p) || PageOf(s[i], p)
  {}

  lemma {:induction false} InPrefix(s: seq<Area>, i: nat, j: nat, p: int)
    requires j < i <= |s| && PageOf(s[j], p)
    ensures HasPage(s[..i], p)
  {}

  lemma {:induction false} NextPageAbove(a: int, p: int)
    requires PageAligned(a) && PageAligned(p) && a < p
    ensures a + 0x1000 <= p
  {}

  lemma {:induction false} StartsThere(a: Area, addr: int)
    requires AreaOk(a) && 0 <= addr && PageAligned(addr) && addr + 0x1000 < a.Stop()
    ensures PageOf(a, Max(addr + 0x1000, a.addr)) && Max(addr + 0x1000, a.addr) > 1
  {}

  /** Pages above `addr` in the other areas come later. */
  lemma {:induction false} NotEarlier(s: seq<Area>, i: nat, j: nat, addr: int, p: int)
    requires InOrder(s) && i < |s| && j < |s| && PageAligned(addr) && addr < p && PageOf(s[j], p)
    requires forall q :: HasPage(s[..i], q) ==> q <= addr
    ensures Max(addr + 0x1000, s[i].addr) <= p
  {
    NextPageAbove(addr, p);
    if j < i { InPrefix(s, i, j, p); }
    if j > i { Behind(s, i, j); }
  }

  lemma {:induction false} Behind(s: seq<Area>, i: nat, j: nat)
    requires InOrder(s) && i < j < |s|
    ensures s[i].addr <= s[j].addr
  {
    assert s[i].Stop() <= s[j].addr && AreaOk(s[i]);
  }

  /** The first area that reaches beyond the page at `addr` holds the next page. */
  lemma {:induction false} FirstPage(s: seq<Area>, i: nat, addr: int)
    requires InOrder(s) && i < |s| && 0 <= addr && PageAligned(addr) && addr + 0x1000 < s[i].Stop()
    requires forall p :: HasPage(s[..i], p) ==> p <= addr
    ensures var pa := Max(addr + 0x1000, s[i].addr);
            && PageOfKind(s, pa, s[i].kind) && addr < pa && pa != END
            && forall p :: HasPage(s, p) && p > addr ==> pa <= p
  {
    assert AreaOk(s[i]);
    StartsThere(s[i], addr);
    forall p | HasPage(s, p) && p > addr ensures Max(addr + 0x1000, s[i].addr) <= p {
      var j :| 0 <= j < |s| && PageOf(s[j], p);
      NotEarlier(s, i, j, addr, p);
    }
  }

  // ---- the map and what was reported ----------------------------------------------------------

  /** The areas show exactly the reported pages, each with its kind. */
  lemma {:induction false} AreasPages(es: seq<Entry>, kernelEnd: int, p: int, kind: Kind)
    requires AllSane(es, kernelEnd) && 0 <= kernelEnd < U64
    requires forall i :: 0 <= i < |es| ==> 0 <= es[i].addr && 0 <= es[i].len
    ensures PageOfKind(AreasOf(es, kernelEnd), p, kind) <==> Reported(es, kernelEnd, p, kind)
  {
    if es != [] {
      var n := |es| - 1;
      var before, e := es[..n], es[n];
      SaneBefore(es, kernelEnd);
      AreasPages(before, kernelEnd, p, kind);
      SaneIsRegular(es, kernelEnd, n);
      ReportedStep(es, kernelEnd, p, kind);
      if Accepts(e) {
        AreaPages(e, kernelEnd, p);
        KindStep(AreasOf(before, kernelEnd), AreaOf(e, kernelEnd), p, kind);
      }
    }
  }

  lemma {:induction false} SaneBefore(es: seq<Entry>, kernelEnd: int)
    requires AllSane(es, kernelEnd) && es != []
    ensures AllSane(es[..|es| - 1], kernelEnd)
  {}

  lemma {:induction false} ReportedStep(es: seq<Entry>, kernelEnd: int, p: int, kind: Kind)
    requires es != []
    ensures var e := es[|es| - 1];
            Reported(es, kernelEnd, p, kind) <==>
            Reported(es[..|es| - 1], kernelEnd, p, kind)
            || (Counts(e) && Reaches(e, kernelEnd, p) && (e.kind == 1 <==> kind == Available))
  {
    var n := |es| - 1;
    if i :| 0 <= i < n && Counts(es[i]) && Reaches(es[i], kernelEnd, p) && (es[i].kind == 1 <==> kind == Available) {
      assert es[..n][i] == es[i];
    }
  }

  lemma {:induction false} KindStep(s: seq<Area>, a: Area, p: int, kind: Kind)
    ensures PageOfKind(s + [a], p, kind) <==> PageOfKind(s, p, kind) || (PageOf(a, p) && a.kind == kind)
  {
    var t := s + [a];
    assert t[|s|] == a;
    if i :| 0 <= i < |s| && PageOf(s[i], p) && s[i].kind == kind { assert t[i] == s[i]; }
  }

  lemma {:induction false} CountStep(es: seq<Entry>)
    requires es != []
    ensures |Counted(es)| == |Counted(es[..|es| - 1])| + if Counts(es[|es| - 1]) then 1 else 0
  {
    var n := |es| - 1;
    assert Counted(es) == Counted(es[..n]) + if Counts(es[n]) then {n} else {};
  }

  /** As many areas as entries that count; they do not clash exactly when no page is
      reported twice, and then they start at different addresses. */
  lemma {:induction false} AreasApart(es: seq<Entry>, kernelEnd: int)
    requires AllSane(es, kernelEnd) && 0 <= kernelEnd < U64
    requires forall i :: 0 <= i < |es| ==> 0 <= es[i].addr && 0 <= es[i].len
    ensures var s := AreasOf(es, kernelEnd);
            && |s| == |Counted(es)| && (forall i :: 0 <= i < |s| ==> AreaOk(s[i]))
            && (NoClash(s) <==> NoPageTwice(es, kernelEnd)) && (NoClash(s) ==> DistinctStarts(s))
  {
    if es != [] {
      var n := |es| - 1;
      var before, e := es[..n], es[n];
      SaneBefore(es, kernelEnd);
      AreasApart(before, kernelEnd);
      CountStep(es);
      SaneIsRegular(es, kernelEnd, n);
      if Accepts(e) {
        OneMoreApart(es, kernelEnd);
      } else {
        OneMoreIgnored(es, kernelEnd);
      }
    }
  }

  lemma {:induction false} OneMoreIgnored(es: seq<Entry>, kernelEnd: int)
    requires es != [] && !Counts(es[|es| - 1])
    ensures NoPageTwice(es, kernelEnd) <==> NoPageTwice(es[..|es| - 1], kernelEnd)
  {
    var n := |es| - 1;
    if NoPageTwice(es[..n], kernelEnd) {
      forall i, j, p | 0 <= i < j < |es| && Counts(es[i]) && Counts(es[j])
        ensures !(Reaches(es[i], kernelEnd, p) && Reaches(es[j], kernelEnd, p))
      {
        assert es[..n][i] == es[i] && es[..n][j] == es[j];
      }
    }
  }

  lemma {:induction false} OneMoreApart(es: seq<Entry>, kernelEnd: int)
    requires AllSane(es, kernelEnd) && 0 <= kernelEnd < U64 && es != [] && Accepts(es[|es| - 1])
    requires forall i :: 0 <= i < |es| ==> 0 <= es[i].addr && 0 <= es[i].len
    requires var s := AreasOf(es[..|es| - 1], kernelEnd);
             && (forall i :: 0 <= i < |s| ==> AreaOk(s[i])) && (NoClash(s) ==> DistinctStarts(s))
             && (NoClash(s) <==> NoPageTwice(es[..|es| - 1], kernelEnd))
    ensures var s := AreasOf(es, kernelEnd);
            && (forall i :: 0 <= i < |s| ==> AreaOk(s[i])) && (NoClash(s) ==> DistinctStarts(s))
            && (NoClash(s) <==> NoPageTwice(es, kernelEnd))
  {
    var n := |es| - 1;
    var before, s, a := es[..n], AreasOf(es[..n], kernelEnd), AreaOf(es[n], kernelEnd);
    SaneBefore(es, kernelEnd);
    SaneIsRegular(es, kernelEnd, n);
    AreaOfRegular(es[n], kernelEnd);
    NewcomerApart(s, a);
    TwiceStep(es, kernelEnd);
    if p, i :| 0 <= i < |s| && PageOf(s[i], p) && PageOf(a, p) {
      AreasPages(before, kernelEnd, p, s[i].kind);
      AreaPages(es[n], kernelEnd, p);
    }
    if i, p :| 0 <= i < n && Counts(es[i]) && Reaches(es[i], kernelEnd, p) && Reaches(es[n], kernelEnd, p) {
      var kind := if es[i].kind == 1 then Available else Reserved;
      assert before[i] == es[i] && Reported(before, kernelEnd, p, kind);
      AreasPages(before, kernelEnd, p, kind);
      AreaPages(es[n], kernelEnd, p);
    }
  }

  /** One area more clashes with none exactly when it shares no page with any. */
  lemma {:induction false} NewcomerApart(s: seq<Area>, a: Area)
    requires AreaOk(a) && (forall i :: 0 <= i < |s| ==> AreaOk(s[i])) && (NoClash(s) ==> DistinctStarts(s))
    ensures NoClash(s + [a]) <==> NoClash(s) && forall i, p :: 0 <= i < |s| ==> !(PageOf(s[i], p) && PageOf(a, p))
    ensures NoClash(s + [a]) ==> DistinctStarts(s + [a])
  {
    var t := s + [a];
    forall i | 0 <= i < |s|
      ensures Clash(a, s[i]) <==> exists p :: PageOf(s[i], p) && PageOf(a, p)
      ensures Clash(s[i], a) <==> Clash(a, s[i])
    {
      ClashMeaning(a, s[i]);
      ClashMeaning(s[i], a);
    }
    assert forall i :: 0 <= i < |s| ==> t[i] == s[i];
    if NoClash(t) {
      assert NoClash(s) by {
        forall i, j | 0 <= i < |s| && 0 <= j < |s| && i != j ensures !Clash(s[i], s[j]) { assert !Clash(t[i], t[j]); }
      }
      forall i | 0 <= i < |s| ensures !Clash(a, s[i]) && s[i].addr != a.addr {
        assert !Clash(t[|s|], t[i]);
        assert PageOf(s[i], s[i].addr);
      }
    }
  }

  lemma {:induction false} TwiceStep(es: seq<Entry>, kernelEnd: int)
    requires es != [] && Counts(es[|es| - 1])
    ensures var n := |es| - 1;
            NoPageTwice(es, kernelEnd) <==>
            && NoPageTwice(es[..n], kernelEnd)
            && forall i, p :: 0 <= i < n && Counts(es[i]) ==>
                 !(Reaches(es[i], kernelEnd, p) && Reaches(es[n], kernelEnd, p))
  {
    var n := |es| - 1;
    assert forall i :: 0 <= i < n ==> es[..n][i] == es[i];
    if NoPageTwice(es[..n], kernelEnd)
       && forall i, p :: 0 <= i < n && Counts(es[i]) ==>
            !(Reaches(es[i], kernelEnd, p) && Reaches(es[n], kernelEnd, p)) {
      forall i, j, p | 0 <= i < j < |es| && Counts(es[i]) && Counts(es[j])
        ensures !(Reaches(es[i], kernelEnd, p) && Reaches(es[j], kernelEnd, p))
      {
        if j < n { assert es[..n][i] == es[i] && es[..n][j] == es[j]; }
      }
    }
    if NoPageTwice(es, kernelEnd) {
      forall i, j, p | 0 <= i < j < n && Counts(es[..n][i]) && Counts(es[..n][j])
        ensures !(Reaches(es[..n][i], kernelEnd, p) && Reaches(es[..n][j], kernelEnd, p))
      {
        assert es[..n][i] == es[i] && es[..n][j] == es[j];
      }
    }
  }

  /** The order of areas makes no difference to their pages. */
  lemma {:induction false} SamePages(s: seq<Area>, t: seq<Area>, p: int, kind: Kind)
    requires multiset(s) == multiset(t)
    ensures PageOfKind(s, p, kind) <==> PageOfKind(t, p, kind)
  {
    if i :| 0 <= i < |s| && PageOf(s[i], p) && s[i].kind == kind {
      assert s[i] in multiset(t);
      var j :| 0 <= j < |t| && t[j] == s[i];
    }
    if i :| 0 <= i < |t| && PageOf(t[i], p) && t[i].kind == kind {
      assert t[i] in multiset(s);
      var j :| 0 <= j < |s| && s[j] == t[i];
    }
  }

  // ---- the table ----------------------------------------------------------------------------

  class Table {
    const pmap: array<Area>
    var size: nat

    constructor ()
      ensures size == 0 && pmap.Length == PMAP_SIZE && fresh(pmap)
    {
      pmap, size := new Area[PMAP_SIZE](_ => Area(0, 0, Available)), 0;
    }

    ghost predicate Ready()
      reads this, pmap
    {
      size <= pmap.Length && InOrder(pmap[..size])
    }

    /** The inner loop of `pmap_sort`: the first smallest element from `start` on. */
    method SmallestFrom(start: nat) returns (m: nat)
      requires start < size <= pmap.Length
      ensures start <= m < size
      ensures forall j :: start <= j < size ==> pmap[m].addr <= pmap[j].addr
      ensures forall j :: start <= j < m ==> pmap[m].addr < pmap[j].addr
    {
      m := start;
      for j := start + 1 to size
        invariant start <= m < j
        invariant forall i :: start <= i < j ==> pmap[m].addr <= pmap[i].addr
        invariant forall i :: start <= i < m ==> pmap[m].addr < pmap[i].addr
      {
        if pmap[m].addr > pmap[j].addr {
          m := j;
        }
      }
    }

    /** `pmm_next_phys_page`: the lowest page of the map above `addr`, or the end marker
        when there is none. */
    method NextPhysPage(addr: int) returns (pa: int, kind: Kind)
      requires Ready() && 0 <= addr < U64 - 0x1000 && PageAligned(addr)
      ensures pa == 1 ==> kind == Available && forall p :: HasPage(pmap[..size], p) ==> p <= addr
      ensures pa != 1 ==> addr < pa && PageOfKind(pmap[..size], pa, kind)
      ensures pa != 1 ==> forall p :: HasPage(pmap[..size], p) && p > addr ==> pa <= p
    {
      var next := addr + 0x1000;
      for i := 0 to size
        invariant forall p :: HasPage(pmap[..i], p) ==> p <= addr
      {
        HasPageStep(pmap[..size], i);
        assert pmap[..size][..i] == pmap[..i] && pmap[..size][..i + 1] == pmap[..i + 1];
        if next < pmap[i].Stop() {
          FirstPage(pmap[..size], i, addr);
          return Max(next, pmap[i].addr), pmap[i].kind;
        }
      }
      return END, Available;
    }

    /** One turn of the outer loop of `pmap_sort`: the smallest element goes to `start`. */
    method PlaceSmallest(start: nat)
      requires start < size <= pmap.Length && SortedUpTo(pmap[..size], start)
      modifies pmap
      ensures SortedUpTo(pmap[..size], start + 1) && Rearranged(old(pmap[..size]), pmap[..size])
    {
      ghost var s := pmap[..size];
      var m := SmallestFrom(start);
      assert forall j :: start <= j < |s| ==> s[m].addr <= s[j].addr;
      SwapKeeps(s, start, m);
      SwapExtends(s, start, m);
      pmap[start], pmap[m] := pmap[m], pmap[start];
      assert pmap[..size] == Swapped(s, start, m);
    }

    /** `pmap_sort`, in place: a sorted permutation. */
    method Sort()
      requires size <= pmap.Length
      modifies pmap
      ensures SortedUpTo(pmap[..size], size) && Rearranged(old(pmap[..size]), pmap[..size])
    {
      ghost var was := pmap[..size];
      var range := size;
      while range > 1
        invariant range <= size && (size > 0 ==> range > 0)
        invariant SortedUpTo(pmap[..size], size - range) && Rearranged(was, pmap[..size])
      {
        ghost var s := pmap[..size];
        PlaceSmallest(size - range);
        RearrangedTwice(was, s, pmap[..size]);
        range := range - 1;
      }
    }

    /** `pmap_insert`; false is the overlap panic. */
    method Insert(e: Entry, kernelEnd: int, index: nat) returns (ok: bool)
      requires index < pmap.Length && 0 <= kernelEnd < U64 && 0 <= e.addr < U64 && 0 <= e.len < U64
      modifies pmap
      ensures pmap[..index] == old(pmap[..index]) && pmap[index] == AreaOf(e, kernelEnd)
      ensures ok <==> forall i :: 0 <= i < index ==> !Clash(pmap[index], pmap[i])
    {
      var start, stop := StartOf(e, kernelEnd), StopOf(e, kernelEnd);
      var kind := if e.kind == MEMORY_AVAILABLE then Available else Reserved;
      pmap[index] := Area(start, Sub64(stop, start) / 0x1000, kind);
      StopSpelled(e, kernelEnd);
      for i := 0 to index
        invariant forall j :: 0 <= j < i ==> !Clash(pmap[index], pmap[j])
      {
        if !(pmap[index].addr >= pmap[i].Stop64() || stop <= pmap[i].addr) {
          assert Clash(pmap[index], pmap[i]);
          return false;
        }
      }
      ok := true;
    }

    /** `pmap_sorted`, the assertion at the end of `pmap_init`. */
    method IsSorted() returns (b: bool)
      requires size <= pmap.Length && SortedUpTo(pmap[..size], size)
      ensures b <==> DistinctStarts(pmap[..size])
    {
      var i := 1;
      while i < size
        invariant 1 <= i && (i <= size || size == 0)
        invariant forall j, k :: 0 <= j < k < i && k < size ==> pmap[j].addr < pmap[k].addr
      {
        if pmap[i].addr <= pmap[i - 1].addr {
          assert pmap[..size][i].addr == pmap[..size][i - 1].addr;
          return false;
        }
        i := i + 1;
      }
      b := true;
    }

    /** `pmap_init`; false is a panic. It panics exactly when there are too many accepted
        entries, two of them clash, or two of them start at the same address (which takes an
        empty one); otherwise the table is a sorted permutation. */
    method Init(es: seq<Entry>, kernelEnd: int) returns (ok: bool)
      requires pmap.Length == PMAP_SIZE && 0 <= kernelEnd < U64
      requires forall i :: 0 <= i < |es| ==> 0 <= es[i].addr < U64 && 0 <= es[i].len < U64
      modifies this, pmap
      ensures ok <==> var s := AreasOf(es, kernelEnd); |s| <= PMAP_SIZE && NoClash(s) && DistinctStarts(s)
      ensures ok ==> size <= pmap.Length && multiset(pmap[..size]) == multiset(AreasOf(es, kernelEnd))
      ensures ok ==> SortedUpTo(pmap[..size], size) && NoClash(pmap[..size])
      ensures ok && (forall i :: 0 <= i < |es| && Accepts(es[i]) ==> Regular(es[i], kernelEnd)) ==> Ready()
      ensures AllSane(es, kernelEnd) ==> (ok <==> |Counted(es)| <= 10 && NoPageTwice(es, kernelEnd))
      ensures ok && AllSane(es, kernelEnd) ==>
                Ready() && forall p, kind :: PageOfKind(pmap[..size], p, kind) <==> Reported(es, kernelEnd, p, kind)
    {
      if AllSane(es, kernelEnd) { AreasApart(es, kernelEnd); }
      ok := Collect(es, kernelEnd);
      if ok {
        ghost var s := pmap[..size];
        Sort();
        ok := IsSorted();
        MapShown(s, pmap[..size], es, kernelEnd);
      }
    }

    /** The loop of `pmap_init`. */
    method Collect(es: seq<Entry>, kernelEnd: int) returns (ok: bool)
      requires pmap.Length == PMAP_SIZE && 0 <= kernelEnd < U64
      requires forall i :: 0 <= i < |es| ==> 0 <= es[i].addr < U64 && 0 <= es[i].len < U64
      modifies this, pmap
      ensures ok <==> |AreasOf(es, kernelEnd)| <= PMAP_SIZE && NoClash(AreasOf(es, kernelEnd))
      ensures ok ==> size <= pmap.Length && pmap[..size] == AreasOf(es, kernelEnd)
    {
      var index := 0;
      for i := 0 to |es|
        invariant index <= pmap.Length && pmap[..index] == AreasOf(es[..i], kernelEnd) && NoClash(pmap[..index])
      {
        ghost var before := AreasOf(es[..i], kernelEnd);
        AreasStep(es, kernelEnd, i);
        if Accepts(es[i]) {
          if index >= PMAP_SIZE {
            return false;
          }
          var fits := Insert(es[i], kernelEnd, index);
          assert pmap[..index + 1] == before + [AreaOf(es[i], kernelEnd)];
          ClashStep(before, AreaOf(es[i], kernelEnd), AreasOf(es, kernelEnd));
          index := index + 1;
          if !fits {
            return false;
          }
        }
      }
      assert es[..|es|] == es;
      size := index;
      ok := true;
    }
  }

  /** The sorted table and the entries it was made from. */
  lemma {:induction false} MapShown(s: seq<Area>, t: seq<Area>, es: seq<Entry>, kernelEnd: int)
    requires s == AreasOf(es, kernelEnd) && multiset(s) == multiset(t) && SortedUpTo(t, |t|) && NoClash(t)
    requires 0 <= kernelEnd < U64 && forall i :: 0 <= i < |es| ==> 0 <= es[i].addr && 0 <= es[i].len
    ensures (forall i :: 0 <= i < |es| && Accepts(es[i]) ==> Regular(es[i], kernelEnd)) ==> InOrder(t)
    ensures AllSane(es, kernelEnd) ==>
              InOrder(t) && forall p, kind :: PageOfKind(t, p, kind) <==> Reported(es, kernelEnd, p, kind)
  {
    if AllSane(es, kernelEnd) {
      forall i | 0 <= i < |es| && Accepts(es[i]) ensures Regular(es[i], kernelEnd) {
        SaneIsRegular(es, kernelEnd, i);
      }
      forall p, kind ensures PageOfKind(t, p, kind) <==> Reported(es, kernelEnd, p, kind) {
        AreasPages(es, kernelEnd, p, kind);
        SamePages(s, t, p, kind);
      }
    }
    if forall i :: 0 <= i < |es| && Accepts(es[i]) ==> Regular(es[i], kernelEnd) {
      AreasRegular(es, kernelEnd);
      MembersKept(s, t);
      SortedInOrder(t);
    }
  }

  lemma {:induction false} MembersKept(s: seq<Area>, t: seq<Area>)
    requires multiset(s) == multiset(t) && forall a :: a in s ==> AreaOk(a)
    ensures forall i :: 0 <= i < |t| ==> AreaOk(t[i])
  {
    forall i | 0 <= i < |t| ensures AreaOk(t[i]) {
      assert t[i] in multiset(t);
    }
  }

  lemma {:induction false} AreasStep(es: seq<Entry>, kernelEnd: int, i: nat)
    requires i < |es|
    ensures AreasOf(es[..i + 1], kernelEnd) ==
            AreasOf(es[..i], kernelEnd) + if Accepts(es[i]) then [AreaOf(es[i], kernelEnd)] else []
    ensures AreasOf(es[..i + 1], kernelEnd) <= AreasOf(es, kernelEnd)
  {
    assert es[..i + 1][..i] == es[..i];
    AreasGrow(es, kernelEnd, i + 1);
  }

  /** One more area: the check against the earlier ones decides. */
  lemma {:induction false} ClashStep(s: seq<Area>, a: Area, all: seq<Area>)
    requires NoClash(s) && s + [a] <= all
    ensures NoClash(s + [a]) <==> forall i :: 0 <= i < |s| ==> !Clash(a, s[i])
    ensures NoClash(all) ==> NoClash(s + [a])
  {
    var t := s + [a];
    if forall i :: 0 <= i < |s| ==> !Clash(a, s[i]) {
      forall i, j | 0 <= i < |t| && 0 <= j < |t| && i != j ensures !Clash(t[i], t[j]) {
        if j == |s| { assert !Clash(a, s[i]); }
      }
    }
    if NoClash(t) {
      forall i | 0 <= i < |s| ensures !Clash(a, s[i]) { assert !Clash(t[|s|], t[i]); }
    }
    if NoClash(all) {
      forall i, j | 0 <= i < |t| && 0 <= j < |t| && i != j ensures !Clash(t[i], t[j]) { assert !Clash(all[i], all[j]); }
    }
  }

  /** Later entries only add areas behind the ones already there. */
  lemma {:induction false} AreasGrow(es: seq<Entry>, kernelEnd: int, n: nat)
    requires n <= |es|
    ensures AreasOf(es[..n], kernelEnd) <= AreasOf(es, kernelEnd)
    decreases |es|
  {
    if n == |es| {
      assert es[..n] == es;
    } else {
      AreasGrow(es[..|es| - 1], kernelEnd, n);
      assert es[..|es| - 1][..n] == es[..n];
    }
  }

  lemma {:induction false} AreasRegular(es: seq<Entry>, kernelEnd: int)
    ensures (forall i :: 0 <= i < |es| && Accepts(es[i]) ==> Regular(es[i], kernelEnd)) ==>
              forall a :: a in AreasOf(es, kernelEnd) ==> AreaOk(a)
  {
    if es != [] && forall i :: 0 <= i < |es| && Accepts(es[i]) ==> Regular(es[i], kernelEnd) {
      AreasRegular(es[..|es| - 1], kernelEnd);
      var e := es[|es| - 1];
      if Accepts(e) { AreaOfRegular(e, kernelEnd); }
    }
  }
}
