/** The placement search of `vmm_alloc_between` (`kernel/mm/vmm.c`), as written,
    with its unsigned subtraction, against an independent definition of the
    lowest place at which a padded request is free. */
module FirstFit {
  import opened Numeric
  import opened RegionSpec

  const PADDING: int := 2 * 0x1000

  /** The loop of `vmm_alloc_between` from list position `k` with `va` in hand. */
  function Search(s: seq<Range>, lower: int, need: int, va: int, k: nat): (p: (int, nat))
    requires k <= |s|
    ensures k <= p.1 <= |s|
    decreases |s| - k
  {
    if k == |s| then (va, k)
    else if s[k].stop < lower then Search(s, lower, need, s[k].stop, k + 1)
    else if Sub64(s[k].start, Max(va, lower)) >= need then (Max(va, lower), k)
    else Search(s, lower, need, s[k].stop, k + 1)
  }

  /** Where the padded request goes, and the list position it is inserted at. */
  function Place(s: seq<Range>, lower: int, need: int): (p: (int, nat))
    ensures p.1 <= |s|
  {
    Search(s, lower, need, lower, 0)
  }

  /** `need` bytes from `x` on touch no region. */
  predicate Vacant(s: seq<Range>, x: int, need: int) {
    forall i :: 0 <= i < |s| ==> x + need <= s[i].start || s[i].stop <= x
  }

  /** A region starts below `lower` and reaches it: the subtraction wraps. */
  predicate Straddles(s: seq<Range>, lower: int) {
    exists i :: 0 <= i < |s| && s[i].start < lower <= s[i].stop
  }

  /** There are regions and all of them end below `lower`. */
  predicate AllBelow(s: seq<Range>, lower: int) {
    s != [] && forall i :: 0 <= i < |s| ==> s[i].stop < lower
  }

  /** The independent specification: the lowest vacant place at or above `lower`. */
  ghost predicate LowestVacant(s: seq<Range>, lower: int, need: int, va: int) {
    && lower <= va
    && Vacant(s, va, need)
    && forall x :: lower <= x && Vacant(s, x, need) ==> va <= x
  }

  /** The address in hand when the loop reaches position `k`. */
  function Behind(s: seq<Range>, lower: int, k: nat): int
    requires k <= |s|
  {
    if k == 0 then lower else s[k - 1].stop
  }

  lemma {:induction false} SearchVacant(s: seq<Range>, lower: int, need: int, k: nat)
    requires Sorted(s) && k <= |s| && need > 0 && !Straddles(s, lower)
    ensures var (va, n) := Search(s, lower, need, Behind(s, lower, k), k);
            && (n > 0 ==> s[n - 1].stop <= va)
            && (n < |s| ==> lower <= va && va + need <= s[n].start)
            && (n == |s| ==> va == Behind(s, lower, |s|))
    decreases |s| - k
  {
    if k < |s| {
      assert s[k].start < lower ==> s[k].stop < lower;
      assert s[k].start < s[k].stop;
      SearchVacant(s, lower, need, k + 1);
    }
  }

  lemma {:induction false} SearchLeast(s: seq<Range>, lower: int, need: int, k: nat, x: int)
    requires Sorted(s) && k <= |s| && need > 0 && !Straddles(s, lower)
    requires lower <= x && Vacant(s, x, need) && Behind(s, lower, k) <= x
    ensures Search(s, lower, need, Behind(s, lower, k), k).0 <= x
    decreases |s| - k
  {
    if k < |s| {
      assert s[k].start < lower ==> s[k].stop < lower;
      assert k > 0 ==> s[k - 1].stop <= s[k].start;
      if s[k].stop < lower || Sub64(s[k].start, Max(Behind(s, lower, k), lower)) < need {
        assert s[k].stop <= x;
        SearchLeast(s, lower, need, k + 1, x);
      }
    }
  }

  lemma {:induction false} AllBelowReachesEnd(s: seq<Range>, lower: int, need: int, k: nat)
    requires k <= |s| && AllBelow(s, lower)
    ensures Search(s, lower, need, Behind(s, lower, k), k).1 == |s|
    decreases |s| - k
  {
    if k < |s| { AllBelowReachesEnd(s, lower, need, k + 1); }
  }

  lemma {:induction false} VacantBetween(s: seq<Range>, va: int, need: int, n: nat)
    requires Sorted(s) && n <= |s|
    requires n > 0 ==> s[n - 1].stop <= va
    requires n < |s| ==> va + need <= s[n].start
    ensures Vacant(s, va, need)
  {}

  /** Whatever the list, the place found is not inside the region before it. */
  lemma {:induction false} PrevBelow(s: seq<Range>, lower: int, need: int, k: nat)
    requires k <= |s|
    ensures var (va, n) := Search(s, lower, need, Behind(s, lower, k), k); n > 0 && n > k ==> s[n - 1].stop <= va
    ensures var (va, n) := Search(s, lower, need, Behind(s, lower, k), k); n == k && k > 0 ==> s[n - 1].stop <= va
    decreases |s| - k
  {
    if k < |s| { PrevBelow(s, lower, need, k + 1); }
  }

  /** Away from a straddling region the search is a complete first-fit: it lands on
      the lowest vacant place unless every region ends below `lower`, and in that
      one case it lands just behind the last region, below `lower`. */
  lemma {:induction false} PlaceIsLowest(s: seq<Range>, lower: int, need: int)
    requires Sorted(s) && need > 0 && !Straddles(s, lower)
    ensures var (va, n) := Place(s, lower, need);
            && Vacant(s, va, need)
            && (n > 0 ==> s[n - 1].stop <= va)
            && (n < |s| ==> va + need <= s[n].start)
            && (LowestVacant(s, lower, need, va) <==> !AllBelow(s, lower))
            && (AllBelow(s, lower) ==> va == s[|s| - 1].stop)
  {
    var (va, n) := Place(s, lower, need);
    SearchVacant(s, lower, need, 0);
    VacantBetween(s, va, need, n);
    if !AllBelow(s, lower) {
      forall x | lower <= x && Vacant(s, x, need) ensures va <= x {
        SearchLeast(s, lower, need, 0, x);
      }
      if n == |s| && s != [] {
        var i :| 0 <= i < |s| && lower <= s[i].stop;
        if i < |s| - 1 { assert s[i].stop <= s[|s| - 1].start; }
      }
    } else {
      AllBelowReachesEnd(s, lower, need, 0);
    }
  }

  /** The address found is `lower` or the end of a region. */
  lemma {:induction false} SearchOrigin(s: seq<Range>, lower: int, need: int, va: int, k: nat)
    requires k <= |s| && (va == lower || exists i :: 0 <= i < |s| && s[i].stop == va)
    ensures var p := Search(s, lower, need, va, k).0; p == lower || exists i :: 0 <= i < |s| && s[i].stop == p
    decreases |s| - k
  {
    if k < |s| { SearchOrigin(s, lower, need, s[k].stop, k + 1); }
  }

  /** A straddling region makes the subtraction wrap: the search stops at `lower`,
      inside or right behind that region, and the insertion collides. */
  lemma {:induction false} StraddleFound(s: seq<Range>, lower: int, need: int, k: nat, i: nat)
    requires Sorted(s) && k <= i < |s| && s[i].start < lower <= s[i].stop
    requires lower - s[i].start + need <= U64
    ensures Search(s, lower, need, Behind(s, lower, k), k) == (lower, i)
    decreases i - k
  {
    assert k < i ==> s[k].stop <= s[i].start;
    if k < i {
      StraddleFound(s, lower, need, k + 1, i);
    } else {
      assert i > 0 ==> s[i - 1].stop <= s[i].start;
    }
  }

  // ---- the whole of it, in 64 bits ---------------------------------------------------------

  /** `size_in_bytes` */
  function Bytes(pages: nat): (b: int)
    ensures 0 <= b < U64
  {
    pages % PAGES64 * 0x1000
  }

  /** `size_in_bytes + padding` */
  function Need(pages: nat): (n: int)
    ensures 0 <= n < U64
  {
    Add64(Bytes(pages), PADDING)
  }

  /** The range that is inserted for the place `va`. */
  function Request(va: int, pages: nat, flags: int): Range {
    var start := Add64(va, PAGE);
    Range(start, Add64(start, Bytes(pages)), flags)
  }

  /** The result of `vmm_alloc_between` up to the page mapping. `Inverted` is a range that
      ends at or below its start: it goes into the list, and no page is mapped. */
  datatype Placement = NoPlace | Overlapping | Placed(r: Range, at: nat) | Inverted(r: Range, at: nat)

  /** Lines 312 to 340: search, the limit test, then `vmm_insert_range`. */
  function AllocBetween(s: seq<Range>, lower: int, upper: int, pages: nat, flags: int): Placement {
    var (va, k) := Place(s, lower, Need(pages));
    var r := Request(va, pages, flags);
    if Add64(va, Need(pages)) >= upper then NoPlace
    else if Collides(s, k, r) then Overlapping
    else if r.start < r.stop then Placed(r, k)
    else Inverted(r, k)
  }

  /** A list of 64-bit addresses, none at the very end of the address space. */
  ghost predicate In64(s: seq<Range>) {
    forall i :: 0 <= i < |s| ==> 0 <= s[i].start && s[i].stop <= U64 - 0x1000
  }

  /** What is asked for: the lowest place at or above `lower` that is free with a page to
      spare on either side, if it ends below `upper`; nothing otherwise. */
  ghost predicate Meets(s: seq<Range>, lower: int, upper: int, pages: nat, flags: int, p: Placement) {
    var need := (pages + 2) * 0x1000;
    match p
    case Placed(r, _) =>
      && LowestVacant(s, lower, need, r.start - 0x1000) && r.start - 0x1000 + need < upper
      && r == Range(r.start, r.start + pages * 0x1000, flags)
    case NoPlace => forall x :: lower <= x && Vacant(s, x, need) ==> x + need >= upper
    case Overlapping => false
    case Inverted(_, _) => false
  }

  /** The limit test lets the request through although a region reaches `lower` from below,
      or all regions end below it, or the place and the padded request pass 2^64. */
  ghost predicate Derails(s: seq<Range>, lower: int, upper: int, pages: nat) {
    var va := Place(s, lower, Need(pages)).0;
    && Add64(va, Need(pages)) < upper
    && (Straddles(s, lower) || AllBelow(s, lower) || va + pages * 0x1000 + PADDING >= U64)
  }

  lemma {:induction false} NeedBounds(pages: nat)
    ensures pages * 0x1000 + PADDING < U64 ==> Need(pages) == pages * 0x1000 + PADDING && Bytes(pages) == pages * 0x1000
    ensures Need(pages) <= pages * 0x1000 + PADDING
  {
    if pages < PAGES64 {
      assert pages % PAGES64 == pages;
    }
  }

  /** `vmm_alloc_between` does what is asked exactly when it does not derail. */
  lemma {:induction false} AllocBetweenExact(s: seq<Range>, lower: int, upper: int, pages: nat, flags: int)
    requires Tidy(s) && In64(s) && 0 <= lower <= U64 - 0x1000 && 0 <= upper < U64 && pages > 0
    ensures Meets(s, lower, upper, pages, flags, AllocBetween(s, lower, upper, pages, flags)) <==>
            !Derails(s, lower, upper, pages)
  {
    NeedBounds(pages);
    if Derails(s, lower, upper, pages) {
      DerailedFails(s, lower, upper, pages, flags);
    } else if AllocBetween(s, lower, upper, pages, flags).NoPlace? {
      NoPlaceMeets(s, lower, upper, pages);
    } else {
      PlacedMeets(s, lower, upper, pages, flags);
    }
  }

  lemma {:induction false} NoPlaceMeets(s: seq<Range>, lower: int, upper: int, pages: nat)
    requires Tidy(s) && In64(s) && 0 <= lower && 0 <= upper < U64 && pages > 0
    requires Add64(Place(s, lower, Need(pages)).0, Need(pages)) >= upper
    ensures Meets(s, lower, upper, pages, 0, NoPlace)
  {
    var need := pages * 0x1000 + PADDING;
    NeedBounds(pages);
    if need < U64 {
      var p := Place(s, lower, need).0;
      PlaceIn64(s, lower, need);
      if Straddles(s, lower) {
        var i :| 0 <= i < |s| && s[i].start < lower <= s[i].stop;
        if lower + need <= U64 { StraddleFound(s, lower, need, 0, i); }
      } else {
        PlaceIsLowest(s, lower, need);
      }
    }
  }

  lemma {:induction false} PlaceIn64(s: seq<Range>, lower: int, need: int)
    requires In64(s) && Sorted(s) && 0 <= lower
    ensures 0 <= Place(s, lower, need).0 && (lower <= U64 - 0x1000 ==> Place(s, lower, need).0 <= U64 - 0x1000)
  {
    SearchOrigin(s, lower, need, lower, 0);
  }

  lemma {:induction false} PlacedMeets(s: seq<Range>, lower: int, upper: int, pages: nat, flags: int)
    requires Tidy(s) && In64(s) && 0 <= lower && 0 <= upper < U64 && pages > 0 && !Derails(s, lower, upper, pages)
    requires !AllocBetween(s, lower, upper, pages, flags).NoPlace?
    ensures Meets(s, lower, upper, pages, flags, AllocBetween(s, lower, upper, pages, flags))
  {
    NeedBounds(pages);
    PlaceIn64(s, lower, Need(pages));
    PlaceIsLowest(s, lower, Need(pages));
  }

  lemma {:induction false} DerailedFails(s: seq<Range>, lower: int, upper: int, pages: nat, flags: int)
    requires Tidy(s) && In64(s) && 0 <= lower <= U64 - 0x1000 && 0 <= upper < U64 && pages > 0
    requires Derails(s, lower, upper, pages)
    ensures !Meets(s, lower, upper, pages, flags, AllocBetween(s, lower, upper, pages, flags))
  {
    var need, p := pages * 0x1000 + PADDING, Place(s, lower, Need(pages)).0;
    if p + need >= U64 {
      WrappedFails(s, lower, upper, pages, flags);
    } else if Straddles(s, lower) {
      StraddlingFails(s, lower, upper, pages, flags);
    } else {
      NeedBounds(pages);
      PlaceIn64(s, lower, need);
      PlaceIsLowest(s, lower, need);
    }
  }

  lemma {:induction false} WrappedFails(s: seq<Range>, lower: int, upper: int, pages: nat, flags: int)
    requires Tidy(s) && In64(s) && 0 <= lower <= U64 - 0x1000 && 0 <= upper < U64
    requires var va := Place(s, lower, Need(pages)).0;
             Add64(va, Need(pages)) < upper && va + pages * 0x1000 + PADDING >= U64
    ensures !Meets(s, lower, upper, pages, flags, AllocBetween(s, lower, upper, pages, flags))
  {
    PlaceIn64(s, lower, Need(pages));
  }

  lemma {:induction false} StraddlingFails(s: seq<Range>, lower: int, upper: int, pages: nat, flags: int)
    requires Tidy(s) && In64(s) && 0 <= lower && 0 <= upper < U64 && Straddles(s, lower)
    requires var va := Place(s, lower, Need(pages)).0;
             Add64(va, Need(pages)) < upper && va + pages * 0x1000 + PADDING < U64
    ensures !Meets(s, lower, upper, pages, flags, AllocBetween(s, lower, upper, pages, flags))
  {
    var need := pages * 0x1000 + PADDING;
    PlaceIn64(s, lower, Need(pages));
    NeedBounds(pages);
    if lower + need <= U64 {
      var i :| 0 <= i < |s| && s[i].start < lower <= s[i].stop;
      StraddleFound(s, lower, need, 0, i);
    }
  }

  /** A request that does not derail goes between its neighbours, joining neither. */
  lemma {:induction false} PlacedAlone(s: seq<Range>, lower: int, pages: nat, flags: int)
    requires Sorted(s) && In64(s) && 0 <= lower && !Straddles(s, lower) && Bytes(pages) + PADDING < U64
    requires Place(s, lower, Need(pages)).0 + Need(pages) < U64
    ensures var (va, k) := Place(s, lower, Need(pages));
            var r := Request(va, pages, flags);
            && r == Range(va + PAGE, va + PAGE + Bytes(pages), flags) && Vacant(s, va, Bytes(pages) + PADDING)
            && !Collides(s, k, r) && !JoinsPrev(s, k, r) && !JoinsNext(s, k, r)
  {
    PlaceIn64(s, lower, Need(pages));
    PlaceIsLowest(s, lower, Need(pages));
  }

  /** The guard pages: nothing is mapped in the page before or after a placed request. */
  lemma {:induction false} GuardPages(s: seq<Range>, lower: int, upper: int, pages: nat, flags: int, a: int, f: int)
    requires Tidy(s) && In64(s) && 0 <= lower <= U64 - 0x1000 && 0 <= upper < U64 && pages > 0
    requires AllocBetween(s, lower, upper, pages, flags).Placed? && !Derails(s, lower, upper, pages)
    ensures var p := AllocBetween(s, lower, upper, pages, flags);
            && View(Spliced(s, p.at, p.r)) == View(s) + Cells(p.r)
            && Spliced(s, p.at, p.r) == s[..p.at] + [p.r] + s[p.at..]
            && (Has(Spliced(s, p.at, p.r), a, f) && p.r.start - PAGE <= a < p.r.stop + PAGE ==>
                  Covers(p.r, a) && f == flags)
  {
    NeedBounds(pages);
    PlaceIn64(s, lower, Need(pages));
    PlacedAlone(s, lower, pages, flags);
    var p := AllocBetween(s, lower, upper, pages, flags);
    InsertCorrect(s, p.at, p.r);
    var t := Spliced(s, p.at, p.r);
    if Has(t, a, f) && p.r.start - PAGE <= a < p.r.stop + PAGE {
      assert (a, f) in View(t);
      if (a, f) in View(s) {
        var i := HasByIndex(s, a, f);
      }
    }
  }

  /** All three departures happen: a region reaching `lower` panics the kernel although the
      space above is empty; regions below `lower` pull the result below it; and 65 GiB asked
      of the kernel's heap window, which has 64, end in an inverted region behind the kernel. */
  lemma {:induction false} Departures()
    ensures AllocBetween([Range(0x1000, 0x5000, 3)], 0x5000, 0x100000, 1, 3) == Overlapping
    ensures AllocBetween([Range(0x1000, 0x5000, 3)], 0x8000, 0x100000, 1, 3) == Placed(Range(0x6000, 0x7000, 3), 1)
    ensures var kspace := [Range(0xffff_8000_0000_1000, 0xffff_8001_0000_0000, 0x103),
                           Range(0xffff_ffff_8010_0000, 0xffff_ffff_8040_0000, 0x103)];
            AllocBetween(kspace, 0xffff_ffef_8000_0000, 0xffff_ffff_8000_0000, 0x104_0000, 0x103) ==
            Inverted(Range(0xffff_ffff_8040_1000, 0xf_c040_1000, 0x103), 2)
  {}
}
