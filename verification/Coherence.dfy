/** What ties the region list of a space to its leaf entries, and which frame plays
    which part. Pure facts; `Vmm` keeps them true while the kernel runs. */
module Coherence {
  import opened Folding
  import opened Numeric
  import opened RegionSpec
  import opened PageTable

  /** Flag values the kernel maps with: flag bits only, present bit set. */
  predicate FlagsOk(f: int) {
    0 < f < PAGE && Present(f)
  }

  /** A range within one half of the canonical address space. */
  predicate CanonicalSpan(a: int, b: int) {
    (0 <= a <= b <= LOWER_STOP) || (HIGHER_START <= a <= b < U64)
  }

  predicate PlacedOk(r: Range) {
    PageAligned(r.start) && PageAligned(r.stop) && CanonicalSpan(r.start, r.stop) && FlagsOk(r.flags)
  }

  ghost predicate AllPlaced(s: seq<Range>) {
    forall i :: 0 <= i < |s| ==> PlacedOk(s[i])
  }

  /** The leaf entry of an address; 0 when it is not mapped. */
  function LeafAt(l: Leaves, root: int, va: int): int {
    Entry(l, root, PageNo(va))
  }

  /** The entry maps a frame with flags `f`; flags 0 stand for "not mapped". */
  predicate Carries(e: int, f: int) {
    if f == 0 then e == 0 else e != 0 && e % 0x1000 == f
  }

  /** A page lies in a region with flags `f` exactly when its leaf entry is a frame
      or-ed with `f`; the leaf of any other page is 0. */
  ghost predicate Coherent(l: Leaves, root: int, s: seq<Range>) {
    && Tidy(s) && AllPlaced(s)
    && (forall va, f {:trigger Has(s, va, f)} :: PageVa(va) && Has(s, va, f) ==> Carries(LeafAt(l, root, va), f))
    && (forall va {:trigger LeafAt(l, root, va)} :: PageVa(va) && LeafAt(l, root, va) != 0 ==>
          Has(s, va, LeafAt(l, root, va) % 0x1000))
  }

  /** The same, as one equivalence. */
  lemma {:induction false} CoherentMeaning(l: Leaves, root: int, s: seq<Range>, va: int, f: int)
    requires Coherent(l, root, s) && PageVa(va)
    ensures Has(s, va, f) <==> LeafAt(l, root, va) != 0 && LeafAt(l, root, va) % 0x1000 == f
  {}

  /** The leaves of `[start, stop)` of one space now carry `f`; every other leaf,
      of this space or another, is as it was. */
  ghost predicate Rewritten(l0: Leaves, l: Leaves, root: int, start: int, stop: int, f: int) {
    forall r, va {:trigger LeafAt(l, r, va)} :: PageVa(va) ==>
      if r == root && start <= va < stop then Carries(LeafAt(l, r, va), f)
      else LeafAt(l, r, va) == LeafAt(l0, r, va)
  }

  lemma {:induction false} RewrittenNothing(l: Leaves, root: int, start: int, f: int)
    ensures Rewritten(l, l, root, start, start, f)
  {}

  /** Mapping the next page extends the rewritten range by that page. */
  lemma {:induction false} RewrittenStep(l0: Leaves, l1: Leaves, root: int, start: int, va: int, f: int, e: int)
    requires PageVa(va) && start <= va && Rewritten(l0, l1, root, start, va, f) && Carries(e, f)
    ensures Rewritten(l0, Updated(l1, root, PageNo(va), e), root, start, va + PAGE, f)
  {
    var l2 := Updated(l1, root, PageNo(va), e);
    forall r, w | PageVa(w)
      ensures if r == root && start <= w < va + PAGE then Carries(LeafAt(l2, r, w), f)
              else LeafAt(l2, r, w) == LeafAt(l0, r, w)
    {
      if r == root && PageNo(w) == PageNo(va) {
        PageNoInjective(w, va);
      } else {
        assert LeafAt(l2, r, w) == LeafAt(l1, r, w);
        if va < w { AlignedApart(va, w); }
      }
    }
  }

  lemma {:induction false} AlignedApart(v: int, w: int)
    requires PageAligned(v) && PageAligned(w) && v < w
    ensures v + PAGE <= w && PageAligned(v + PAGE)
  {}

  // ---- coherence is kept ------------------------------------------------------------

  lemma {:induction false} CoherentFilled(l0: Leaves, l: Leaves, root: int, s: seq<Range>, t: seq<Range>, r: Range)
    requires Coherent(l0, root, s)
    requires Tidy(t) && AllPlaced(t) && View(t) == View(s) + Cells(r)
    requires Rewritten(l0, l, root, r.start, r.stop, r.flags) && FlagsOk(r.flags)
    ensures Coherent(l, root, t)
  {
    forall va, f | PageVa(va) && Has(t, va, f) ensures Carries(LeafAt(l, root, va), f) {
      assert (va, f) in View(t);
      if Covers(r, va) {
        NewFlagsOnly(s, t, r, va, f);
      } else {
        assert Has(s, va, f);
      }
    }
    forall va | PageVa(va) && LeafAt(l, root, va) != 0 ensures Has(t, va, LeafAt(l, root, va) % 0x1000) {
      if Covers(r, va) {
        assert (va, r.flags) in View(t);
      } else {
        assert LeafAt(l0, root, va) == LeafAt(l, root, va);
        assert (va, LeafAt(l, root, va) % 0x1000) in View(t);
      }
    }
  }

  /** Inside the new range the list holds the new flags only. */
  lemma {:induction false} NewFlagsOnly(s: seq<Range>, t: seq<Range>, r: Range, va: int, f: int)
    requires Tidy(t) && View(t) == View(s) + Cells(r) && Covers(r, va) && Has(t, va, f)
    ensures f == r.flags
  {
    assert (va, r.flags) in View(t);
    ViewIsFunction(t, va, f, r.flags);
  }

  lemma {:induction false} CoherentCleared(l0: Leaves, l: Leaves, root: int, s: seq<Range>, t: seq<Range>, lo: int,
                                           hi: int)
    requires Coherent(l0, root, s)
    requires Tidy(t) && AllPlaced(t) && View(t) == View(s) - Below(lo, hi)
    requires Rewritten(l0, l, root, lo, hi, 0)
    ensures Coherent(l, root, t)
  {
    forall va, f | PageVa(va) && Has(t, va, f) ensures Carries(LeafAt(l, root, va), f) {
      assert (va, f) in View(t);
      assert Has(s, va, f);
    }
    forall va | PageVa(va) && LeafAt(l, root, va) != 0 ensures Has(t, va, LeafAt(l, root, va) % 0x1000) {
      assert LeafAt(l0, root, va) == LeafAt(l, root, va);
      assert (va, LeafAt(l, root, va) % 0x1000) in View(t);
    }
  }

  /** The leaves of the other spaces are as they were. */
  ghost predicate Elsewhere(l0: Leaves, l: Leaves, root: int) {
    forall r, va {:trigger LeafAt(l, r, va)} :: PageVa(va) && r != root ==> LeafAt(l, r, va) == LeafAt(l0, r, va)
  }

  /** Other spaces keep their coherence when their leaves are left alone. */
  lemma {:induction false} CoherentElsewhere(l0: Leaves, l: Leaves, root: int, other: int, s: seq<Range>)
    requires Coherent(l0, other, s) && other != root && Elsewhere(l0, l, root)
    ensures Coherent(l, other, s)
  {}

  lemma {:induction false} SplicedPlaced(s: seq<Range>, k: nat, r: Range)
    requires Sorted(s) && AllPlaced(s) && k <= |s| && PlacedOk(r) && r.start < r.stop
    ensures AllPlaced(Spliced(s, k, r))
  {}

  lemma {:induction false} RemnantsPlaced(s: seq<Range>, k: nat, lo: int, hi: int)
    requires AllPlaced(s) && k < |s| && s[k].start <= lo < hi <= s[k].stop && PageAligned(lo) && PageAligned(hi)
    ensures AllPlaced(s[..k] + Remnants(s[k], lo, hi) + s[k + 1..])
  {}

  // ---- how a list changes, by meaning -------------------------------------------------

  ghost predicate OverlapsAny(s: seq<Range>, r: Range) {
    exists i :: 0 <= i < |s| && Overlap(r, s[i])
  }

  /** A region with the flags of `r` starts where `r` ends. */
  ghost predicate TouchesNext(s: seq<Range>, r: Range) {
    exists i :: 0 <= i < |s| && s[i].start == r.stop && s[i].flags == r.flags
  }

  /** The list gained exactly `r`. */
  ghost predicate Grew(s: seq<Range>, t: seq<Range>, r: Range) {
    forall u {:trigger UnfoldChanges(u)} :: UnfoldChanges(u) ==>
      Tidy(t) && AllPlaced(t) && View(t) == View(s) + Cells(r) && View(s) !! Cells(r)
  }

  /** The list lost exactly the addresses of `[lo, hi)`. */
  ghost predicate Shrank(s: seq<Range>, t: seq<Range>, lo: int, hi: int) {
    forall u {:trigger UnfoldChanges(u)} :: UnfoldChanges(u) ==>
      Tidy(t) && AllPlaced(t) && View(t) == View(s) - Below(lo, hi)
  }

  /** Where the region that took `r` in ends: later than `r` exactly when it swallowed
      the region behind. */
  ghost predicate Reaches(s: seq<Range>, r: Range, stop: int) {
    forall u {:trigger UnfoldChanges(u)} :: UnfoldChanges(u) ==>
      && r.stop <= stop && PageAligned(stop) && CanonicalSpan(r.start, stop)
      && (r.stop < stop <==> TouchesNext(s, r))
  }

  lemma {:induction false} InsertGrows(s: seq<Range>, k: nat, r: Range)
    requires Tidy(s) && AllPlaced(s) && k <= |s| && !Collides(s, k, r) && PlacedOk(r) && r.start < r.stop
    ensures Grew(s, Spliced(s, k, r), r) && !OverlapsAny(s, r)
  {
    InsertCorrect(s, k, r);
    SplicedPlaced(s, k, r);
    forall i | 0 <= i < |s| ensures !Overlap(r, s[i]) { OrderAround(s, k, r, i); }
    forall c: (int, int) | c in Cells(r) ensures c !in View(s) { NotHeld(s, r, c.0, c.1); }
  }

  lemma {:induction false} InsertReaches(s: seq<Range>, k: nat, r: Range)
    requires Tidy(s) && AllPlaced(s) && k <= |s| && !Collides(s, k, r) && PlacedOk(r) && r.start < r.stop
    ensures Reaches(s, r, Joined(s, k, r).stop)
  {}

  lemma {:induction false} AddGrows(s: seq<Range>, r: Range)
    requires Tidy(s) && AllPlaced(s) && PlacedOk(r) && r.start < r.stop
    ensures Add(s, r).Panic? <==> OverlapsAny(s, r)
    ensures Add(s, r).Done? ==> Grew(s, Add(s, r).value, r) && Reaches(s, r, Joined(s, AddIndex(s, r, 0), r).stop)
  {
    AddPanicsIffOverlap(s, r);
    if Add(s, r).Done? {
      InsertGrows(s, AddIndex(s, r, 0), r);
      InsertReaches(s, AddIndex(s, r, 0), r);
    }
  }

  lemma {:induction false} RemoveShrinks(s: seq<Range>, lo: int, hi: int)
    requires Tidy(s) && AllPlaced(s) && lo < hi && PageAligned(lo) && PageAligned(hi)
    ensures Remove(s, lo, hi).Done? <==> Uniform(s, lo, hi)
    ensures Remove(s, lo, hi).Done? ==> Shrank(s, Remove(s, lo, hi).value, lo, hi) && CanonicalSpan(lo, hi)
  {
    RemoveCorrect(s, lo, hi);
    if Remove(s, lo, hi).Done? {
      RemoveClosedForm(s, lo, hi);
      RemnantsPlaced(s, FindIndex(s, lo, 0), lo, hi);
      assert PlacedOk(s[FindIndex(s, lo, 0)]);
    }
  }

  /** Growing and shrinking by the same range restores the very same list. */
  lemma {:induction false} GrewThenShrank(s: seq<Range>, t: seq<Range>, u: seq<Range>, r: Range)
    requires Tidy(s) && Grew(s, t, r) && Shrank(t, u, r.start, r.stop) && !OverlapsAny(s, r)
    ensures u == s
  {
    assert UnfoldChanges(true);
    forall c: (int, int) | c in View(s) ensures c !in Below(r.start, r.stop) {
      var i := HasByIndex(s, c.0, c.1);
      assert !Overlap(r, s[i]);
    }
    TidyUnique(u, s);
  }

  lemma {:induction false} GrewKeepsCoherence(l0: Leaves, l: Leaves, root: int, s: seq<Range>, t: seq<Range>, r: Range)
    requires Coherent(l0, root, s) && Grew(s, t, r) && PlacedOk(r) && Rewritten(l0, l, root, r.start, r.stop, r.flags)
    ensures Coherent(l, root, t)
  {
    assert UnfoldChanges(true);
    CoherentFilled(l0, l, root, s, t, r);
  }

  /** The requested pages have no leaf before the insertion. */
  lemma {:induction false} GrewWasUnmapped(l: Leaves, root: int, s: seq<Range>, r: Range, va: int)
    requires Coherent(l, root, s) && !OverlapsAny(s, r) && PageVa(va) && Covers(r, va)
    ensures LeafAt(l, root, va) == 0
  {}

  lemma {:induction false} NotHeld(s: seq<Range>, r: Range, va: int, f: int)
    requires !OverlapsAny(s, r) && Covers(r, va)
    ensures !Has(s, va, f)
  {}

  /** A mapping loop that runs to the end of the region meets a page in use exactly
      when the insertion merged with the region behind. */
  lemma {:induction false} UsedExactlyByMerge(l: Leaves, root: int, s: seq<Range>, r: Range, stop: int)
    requires Coherent(l, root, s) && PlacedOk(r) && r.start < r.stop && !OverlapsAny(s, r) && Reaches(s, r, stop)
    ensures TouchesNext(s, r) ==> PageVa(r.stop) && r.start <= r.stop < stop && LeafAt(l, root, r.stop) != 0
    ensures !TouchesNext(s, r) ==>
              stop == r.stop && forall va :: PageVa(va) && r.start <= va < stop ==> LeafAt(l, root, va) == 0
  {
    assert UnfoldChanges(true);
    if i :| 0 <= i < |s| && s[i].start == r.stop && s[i].flags == r.flags {
      assert PlacedOk(s[i]);
      HeldIsMapped(l, root, s, i, r.stop);
    } else {
      forall va | PageVa(va) && r.start <= va < stop ensures LeafAt(l, root, va) == 0 {
        GrewWasUnmapped(l, root, s, r, va);
      }
    }
  }

  /** A removable range lies under one flags value, so all its pages are mapped. */
  lemma {:induction false} UniformIsMapped(l: Leaves, root: int, s: seq<Range>, lo: int, hi: int)
    requires Coherent(l, root, s) && Uniform(s, lo, hi)
    ensures forall va :: PageVa(va) && lo <= va < hi ==> LeafAt(l, root, va) != 0
  {
    var f :| Cells(Range(lo, hi, f)) <= View(s);
    forall va | PageVa(va) && lo <= va < hi ensures LeafAt(l, root, va) != 0 {
      assert (va, f) in Cells(Range(lo, hi, f));
      var i := HasByIndex(s, va, f);
      HeldIsMapped(l, root, s, i, va);
    }
  }

  lemma {:induction false} OrderAround(s: seq<Range>, k: nat, r: Range, i: nat)
    requires Sorted(s) && k <= |s| && !Collides(s, k, r) && i < |s|
    ensures if i < k then s[i].stop <= r.start else r.stop <= s[i].start
  {}

  /** A page of a region has a leaf. */
  lemma {:induction false} HeldIsMapped(l: Leaves, root: int, s: seq<Range>, i: nat, va: int)
    requires Coherent(l, root, s) && i < |s| && PageVa(va) && Covers(s[i], va)
    ensures LeafAt(l, root, va) != 0 && LeafAt(l, root, va) % 0x1000 == s[i].flags
  {
    assert Has(s, va, s[i].flags);
    assert PlacedOk(s[i]);
  }

  // ---- roles of frames ----------------------------------------------------------------

  /** Anonymous pages: which frame was allocated for which page of which space. */
  type Anon = map<(int, int), int>

  ghost predicate OneToOne(anon: Anon) {
    forall k, l :: k in anon && l in anon && anon[k] == anon[l] ==> k == l
  }

  ghost predicate Backs(l: Leaves, anon: Anon) {
    forall k :: k in anon ==> k in l && PageAddr(l[k]) == anon[k]
  }

  /** Every frame has one role: free, table page, or leaf of one anonymous page. */
  ghost predicate Roles(l: Leaves, tables: set<int>, free: set<int>, anon: Anon) {
    tables !! free && anon.Values !! free && anon.Values !! tables && OneToOne(anon) && Backs(l, anon)
  }

  lemma {:induction false} AnonAdded(anon: Anon, k: (int, int), pa: int)
    requires k !in anon && pa !in anon.Values && OneToOne(anon)
    ensures anon[k := pa].Values == anon.Values + {pa} && OneToOne(anon[k := pa])
  {
    var b := anon[k := pa];
    assert k in b;
    forall v | v in anon.Values ensures v in b.Values {
      var j :| j in anon && anon[j] == v;
      assert j in b && b[j] == v;
    }
    forall x, y | x in b && y in b && b[x] == b[y] ensures x == y {
      if x != k { assert anon[x] in anon.Values; }
      if y != k { assert anon[y] in anon.Values; }
    }
  }

  /** A freshly allocated frame mapped at an unmapped page becomes anonymous. */
  lemma {:induction false} RolesMapped(l: Leaves, tables: set<int>, free: set<int>, anon: Anon, tables': set<int>,
                                       free': set<int>, root: int, page: int, pa: int, e: int)
    requires Roles(l, tables, free, anon) && tables' !! free'
    requires pa in free && PageAddr(e) == pa && e != 0 && Entry(l, root, page) == 0
    requires (free - {pa}) + tables == free' + tables'
    requires forall k :: k in l ==> l[k] != 0
    ensures (root, page) !in anon && Roles(Updated(l, root, page, e), tables', free', anon[(root, page) := pa])
    ensures free' + tables' + anon[(root, page) := pa].Values == free + tables + anon.Values
  {
    assert (root, page) !in l;
    AnonAdded(anon, (root, page), pa);
  }

  /** A page mapped to a frame the caller names changes no role. */
  lemma {:induction false} RolesKept(l: Leaves, tables: set<int>, free: set<int>, anon: Anon, tables': set<int>,
                                     free': set<int>, root: int, page: int, e: int)
    requires Roles(l, tables, free, anon) && tables' !! free' && free + tables == free' + tables'
    requires e != 0 && Entry(l, root, page) == 0 && forall k :: k in l ==> l[k] != 0
    ensures Roles(Updated(l, root, page, e), tables', free', anon)
  {}
}
