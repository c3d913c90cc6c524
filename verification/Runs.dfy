/** Whole runs of the virtual memory manager: any sequence of requests on any number of
    spaces keeps region lists and page tables in agreement and every frame in its one
    role, also while frames show up in more than one place: in the direct mapping, in
    copied spaces, and where `vmm_map` put them. */
module Runs {
  import opened Folding
  import opened Numeric
  import opened Sequences
  import opened RegionSpec
  import opened RegionList
  import opened FirstFit
  import opened PageTable
  import opened Coherence
  import opened Vmm
  import opened Requests

  // ---- allocating and freeing again -----------------------------------------------------

  /** Freeing the range that an allocation took, seen from the state `b` and the list `s`
      before it: succeeds if `pmm_free` takes back what `pmm_alloc` handed out, and then
      restores the region list, the anonymous pages and every leaf; the free set only loses
      the new table pages. */
  method FreeAgain(vm: VirtualMemory, space: Space, pages: nat, q: Range, ghost s: seq<Range>, ghost b: Before)
    returns (r: Result)
    requires vm.Valid() && vm.Agrees(space) && PlacedOk(q) && q.start < q.stop == End(q.start, pages)
    requires Tidy(s) && Grew(s, space.ranges, q) && !OverlapsAny(s, q)
    requires FilledUpTo(b.l, b.an, vm.mmu.leaves, vm.anon, space.root, q.start, q.stop, q.flags)
    requires Roles(b.l, b.t, b.f, b.an) && b.t <= vm.mmu.tables && vm.Used() == b.Used()
    modifies vm`anon, vm.mmu, vm.mmu.pmm`avail, vm.mmu.pmm`free, vm.mmu.pmm.maps, vm.mmu.pmm.arrays, space, space.nodes
    ensures r == Ok(q.start) || r == BadFrame
    ensures b.f <= vm.mmu.pmm.managed ==> r.Ok?
    ensures r.Ok? ==> vm.Valid() && vm.Agrees(space) && space.ranges == s && vm.anon == b.an
    ensures r.Ok? ==> vm.mmu.tables == old(vm.mmu.tables) && vm.mmu.pmm.free == b.f - (vm.mmu.tables - b.t)
    ensures r.Ok? ==> forall root, w :: PageVa(w) ==> LeafAt(vm.mmu.leaves, root, w) == LeafAt(b.l, root, w)
  {
    assert UnfoldChanges(true);
    assert UnfoldRoles(true);
    ghost var s1, l1, an1, f1 := space.ranges, vm.mmu.leaves, vm.anon, vm.mmu.pmm.free;
    HeldAfterGrowth(s, s1, q);
    AllAnonymous(l1, vm.mmu.tables, f1, an1, space.root, q.start, q.stop);
    NewFrames(l1, vm.mmu.tables, f1, an1, b.an, b.f, b.t, space.root, q.start, q.stop);
    r := vm.Free(space, q.start, pages);
    if r.Ok? {
      GrewThenShrank(s, s1, space.ranges, q);
      ShownAndKept(l1, an1, space.root, q.start, q.stop);
      RolesRestored(b.f, b.t, b.an.Values, vm.mmu.pmm.free, vm.mmu.tables);
      LeavesRestored(b.l, b.an, l1, an1, space.root, q.start, q.stop, q.flags);
    }
  }

  /** The frames of pages that just became anonymous were free before. */
  lemma {:induction false} NewFrames(l: Leaves, tables: set<int>, free: set<int>, an: Anon, an0: Anon, f0: set<int>,
                                     t0: set<int>, root: int, lo: int, hi: int)
    requires Roles(l, tables, free, an) && PageKeys(root, lo, hi) <= an.Keys && an - PageKeys(root, lo, hi) == an0
    requires free + tables + an.Values == f0 + t0 + an0.Values && t0 <= tables
    ensures Shown(l, root, lo, hi) <= f0
  {
    forall va | lo <= va < hi && PageVa(va) ensures PageAddr(LeafAt(l, root, va)) in f0 {
      assert (root, PageNo(va)) in PageKeys(root, lo, hi);
      AnonymousOwned(l, tables, free, an, root, lo, hi, va);
    }
  }

  lemma {:induction false} SpanEnds(q: Range, va: int, pages: nat, flags: int)
    requires q == Span(va, pages, flags) && pages > 0 && PlacedOk(q)
    ensures q.start == va < q.stop == End(q.start, pages)
  {
    EndAligned(va, pages);
  }

  /** The two invariants of `Vmm`, opened. */
  lemma {:induction false} Opened(vm: VirtualMemory, space: Space)
    requires vm.Valid() && vm.Agrees(space)
    ensures Roles(vm.mmu.leaves, vm.mmu.tables, vm.mmu.pmm.free, vm.anon)
    ensures space.Linked() && Coherent(vm.mmu.leaves, space.root, space.ranges)
  {
    assert UnfoldRoles(true);
  }

  /** `vmm_alloc_at` and `vmm_free` of the same range. */
  method AllocThenFree(vm: VirtualMemory, space: Space, va: int, pages: nat, flags: int) returns (r: Result)
    requires vm.Valid() && vm.Agrees(space) && va != 0 && pages > 0 && PlacedOk(Span(va, pages, flags))
    modifies vm`anon, vm.mmu, vm.mmu.pmm`avail, vm.mmu.pmm`free, vm.mmu.pmm.maps, vm.mmu.pmm.arrays, space, space.nodes
    ensures r == Ok(va) || r == Overlaps || r == OutOfMemory || r == AlreadyUsed || r == BadFrame
    ensures r.BadFrame? ==> !(old(vm.mmu.pmm.free) <= vm.mmu.pmm.managed)
    ensures r.Ok? ==> vm.Valid() && vm.Agrees(space) && space.ranges == old(space.ranges) && vm.anon == old(vm.anon)
    ensures r.Ok? ==> vm.mmu.pmm.free == old(vm.mmu.pmm.free) - (vm.mmu.tables - old(vm.mmu.tables))
    ensures r.Ok? ==> old(vm.mmu.tables) <= vm.mmu.tables
    ensures r.Ok? ==>
              forall root, w :: PageVa(w) ==> LeafAt(vm.mmu.leaves, root, w) == LeafAt(old(vm.mmu.leaves), root, w)
  {
    ghost var s, b := space.ranges, Before(vm.mmu.leaves, vm.anon, vm.mmu.pmm.free, vm.mmu.tables, vm.mmu.at.Keys);
    var q := Span(va, pages, flags);
    r := AllocSpan(vm, space, va, pages, flags, q, b);
    if r.Ok? {
      r := FreeAgain(vm, space, pages, q, s, b);
    }
  }

  /** `vmm_alloc_at`, and what it leaves for `FreeAgain`. */
  method AllocSpan(vm: VirtualMemory, space: Space, va: int, pages: nat, flags: int, ghost q: Range, ghost b: Before)
    returns (r: Result)
    requires vm.Valid() && vm.Agrees(space) && va != 0 && pages > 0 && q == Span(va, pages, flags) && PlacedOk(q)
    requires b == Before(vm.mmu.leaves, vm.anon, vm.mmu.pmm.free, vm.mmu.tables, vm.mmu.at.Keys)
    modifies vm`anon, vm.mmu, vm.mmu.pmm`avail, vm.mmu.pmm`free, vm.mmu.pmm.maps, vm.mmu.pmm.arrays, space, space.nodes
    ensures r == Ok(va) || r == Overlaps || r == OutOfMemory || r == AlreadyUsed
    ensures r.Ok? ==> vm.Valid() && vm.Agrees(space) && q.start == va < q.stop == End(q.start, pages)
    ensures r.Ok? ==> Tidy(old(space.ranges)) && !OverlapsAny(old(space.ranges), q)
    ensures r.Ok? ==> Grew(old(space.ranges), space.ranges, q)
    ensures r.Ok? ==> FilledUpTo(b.l, b.an, vm.mmu.leaves, vm.anon, space.root, q.start, q.stop, q.flags)
    ensures r.Ok? ==> Roles(b.l, b.t, b.f, b.an) && b.t <= vm.mmu.tables && vm.Used() == b.Used()
    ensures forall j :: 0 <= j < |space.nodes| ==> space.nodes[j] in old(space.nodes) || fresh(space.nodes[j])
  {
    SpanEnds(q, va, pages, flags);
    Opened(vm, space);
    r := vm.AllocAt(space, va, pages, flags);
  }

  /** `vmm_alloc_between` and `vmm_free` of the range it chose. */
  method AllocBetweenThenFree(vm: VirtualMemory, space: Space, lower: int, upper: int, pages: nat, flags: int)
    returns (r: Result)
    requires vm.Valid() && vm.Agrees(space) && Searchable(space.ranges, lower, upper, pages, flags)
    modifies vm`anon, vm.mmu, vm.mmu.pmm`avail, vm.mmu.pmm`free, vm.mmu.pmm.maps, vm.mmu.pmm.arrays, space, space.nodes
    ensures r.Ok? || r == Null || r == Overlaps || r == OutOfMemory || r == BadFrame || r.Backwards?
    ensures r.Backwards? <==> FirstFit.AllocBetween(old(space.ranges), lower, upper, pages, flags).Inverted?
    ensures r.BadFrame? ==> !(old(vm.mmu.pmm.free) <= vm.mmu.pmm.managed)
    ensures r.Ok? ==> vm.Valid() && vm.Agrees(space) && space.ranges == old(space.ranges) && vm.anon == old(vm.anon)
    ensures r.Ok? ==> vm.mmu.pmm.free == old(vm.mmu.pmm.free) - (vm.mmu.tables - old(vm.mmu.tables))
    ensures r.Ok? ==> old(vm.mmu.tables) <= vm.mmu.tables
    ensures r.Ok? ==>
              forall root, w :: PageVa(w) ==> LeafAt(vm.mmu.leaves, root, w) == LeafAt(old(vm.mmu.leaves), root, w)
  {
    ghost var s, b := space.ranges, Before(vm.mmu.leaves, vm.anon, vm.mmu.pmm.free, vm.mmu.tables, vm.mmu.at.Keys);
    ghost var p := FirstFit.AllocBetween(s, lower, upper, pages, flags);
    r := AllocPlaced(vm, space, lower, upper, pages, flags, p, b);
    if r.Ok? {
      var q := Range(r.va, End(r.va, pages), flags);
      r := FreeAgain(vm, space, pages, q, s, b);
    }
  }

  /** `vmm_alloc_between`, and what it leaves for `FreeAgain`. */
  method AllocPlaced(vm: VirtualMemory, space: Space, lower: int, upper: int, pages: nat, flags: int,
                     ghost p: Placement, ghost b: Before)
    returns (r: Result)
    requires vm.Valid() && vm.Agrees(space) && Searchable(space.ranges, lower, upper, pages, flags)
    requires b == Before(vm.mmu.leaves, vm.anon, vm.mmu.pmm.free, vm.mmu.tables, vm.mmu.at.Keys)
    requires p == FirstFit.AllocBetween(space.ranges, lower, upper, pages, flags)
    modifies vm`anon, vm.mmu, vm.mmu.pmm`avail, vm.mmu.pmm`free, vm.mmu.pmm.maps, vm.mmu.pmm.arrays, space, space.nodes
    ensures r.Ok? || r == Null || r == Overlaps || r == OutOfMemory || r.Backwards?
    ensures r.Backwards? <==> p.Inverted?
    ensures r.Ok? ==> p.Placed? && PlacedOk(p.r) && p.r == Range(r.va, End(r.va, pages), flags) && r.va < p.r.stop
    ensures r.Ok? ==> vm.Valid() && vm.Agrees(space) && Tidy(old(space.ranges)) && !OverlapsAny(old(space.ranges), p.r)
    ensures r.Ok? ==> Grew(old(space.ranges), space.ranges, p.r)
    ensures r.Ok? ==> FilledUpTo(b.l, b.an, vm.mmu.leaves, vm.anon, space.root, p.r.start, p.r.stop, p.r.flags)
    ensures r.Ok? ==> Roles(b.l, b.t, b.f, b.an) && b.t <= vm.mmu.tables && vm.Used() == b.Used()
    ensures forall j :: 0 <= j < |space.nodes| ==> space.nodes[j] in old(space.nodes) || fresh(space.nodes[j])
  {
    Opened(vm, space);
    PlacedRequest(space.ranges, lower, upper, pages, flags, p);
    r := vm.AllocBetween(space, lower, upper, pages, flags);
  }

  lemma {:induction false} PlacedRequest(s: seq<Range>, lower: int, upper: int, pages: nat, flags: int, p: Placement)
    requires Tidy(s) && AllPlaced(s) && Searchable(s, lower, upper, pages, flags)
    requires p == FirstFit.AllocBetween(s, lower, upper, pages, flags)
    ensures p.Placed? ==> PlacedOk(p.r) && p.r == Range(p.r.start, End(p.r.start, pages), flags) && p.r.start < p.r.stop
    ensures p.Placed? ==> !OverlapsAny(s, p.r)
  {
    if p.Placed? { PlaceFits(s, lower, upper, pages, flags); }
  }

  lemma {:induction false} HeldAfterGrowth(s: seq<Range>, t: seq<Range>, r: Range)
    requires Grew(s, t, r)
    ensures Uniform(t, r.start, r.stop)
  {
    assert UnfoldChanges(true);
  }

  lemma {:induction false} RolesRestored(f0: set<int>, t0: set<int>, a: set<int>, f: set<int>, t: set<int>)
    requires f0 !! t0 && f !! t && a !! f0 && a !! t0 && a !! f && a !! t && t0 <= t && f + t + a == f0 + t0 + a
    ensures f == f0 - (t - t0)
  {
  }

  lemma {:induction false} LeavesRestored(l0: Leaves, an0: Anon, l1: Leaves, an1: Anon, root: int, start: int,
                                          stop: int, flags: int)
    requires FilledUpTo(l0, an0, l1, an1, root, start, stop, flags)
    ensures forall r, w :: PageVa(w) ==> LeafAt(l1 - PageKeys(root, start, stop), r, w) == LeafAt(l0, r, w)
  {
    assert UnfoldChanges(true);
    DrainedRewritten(l1, root, start, stop);
  }

  // ---- a frame with two users -------------------------------------------------------------

  /** There is no frame for a page, or not enough for its tables and those of another. */
  ghost predicate LacksBoth(f: set<int>, places: set<Slot>, one: set<Slot>, two: set<Slot>) {
    forall u {:trigger UnfoldCounts(u)} :: UnfoldCounts(u) ==> |f| < 1 + |one + two - places|
  }

  /** `vmm_map` takes any frame, and `vmm_free` does not ask who owns the frames it frees:
      map the frame of an allocated page a second time, free that mapping, and the frame is
      free while the first page still uses it. All it takes is two pages that are vacant and
      memory for them. */
  method FreedInUse(vm: VirtualMemory, space: Space, va: int, vb: int, flags: int) returns (r: Result, frame: int)
    requires vm.Valid() && vm.Agrees(space) && vm.Releasable() && va != 0 && va != vb
    requires PlacedOk(Span(va, 1, flags)) && PlacedOk(Span(vb, 1, flags))
    modifies vm`anon, vm.mmu, vm.mmu.pmm`avail, vm.mmu.pmm`free, vm.mmu.pmm.maps, vm.mmu.pmm.arrays, space, space.nodes
    ensures r.Ok? || r == Overlaps || r == OutOfMemory || r == AlreadyUsed
    ensures r.Ok? <==> CanShare(old(space.ranges), old(vm.mmu.pmm.free), old(vm.mmu.at.Keys), space.root, va, vb, flags)
    ensures r.Ok? ==> frame in vm.mmu.pmm.free && frame in vm.anon.Values && !vm.Valid()
    ensures r.Ok? ==> vm.Agrees(space) && PageAddr(LeafAt(vm.mmu.leaves, space.root, va)) == frame
  {
    r := AllocFirst(vm, space, va, vb, flags);
    if !r.Ok? {
      return r, 0;
    }
    r, frame := MapAgain(vm, space, va, vb, flags);
  }

  /** The first call, and what it leaves for the second. */
  method AllocFirst(vm: VirtualMemory, space: Space, va: int, vb: int, flags: int) returns (r: Result)
    requires vm.Valid() && vm.Agrees(space) && vm.Releasable() && va != 0 && va != vb
    requires PlacedOk(Span(va, 1, flags)) && PlacedOk(Span(vb, 1, flags))
    modifies vm`anon, vm.mmu, vm.mmu.pmm`avail, vm.mmu.pmm`free, vm.mmu.pmm.maps, vm.mmu.pmm.arrays, space, space.nodes
    ensures r.Ok? || r == Overlaps || r == OutOfMemory || r == AlreadyUsed
    ensures !r.Ok? ==>
              !CanShare(old(space.ranges), old(vm.mmu.pmm.free), old(vm.mmu.at.Keys), space.root, va, vb, flags)
    ensures r.Ok? ==> !OverlapsAny(old(space.ranges), Span(va, 1, flags))
    ensures r.Ok? ==> !TouchesNext(old(space.ranges), Span(va, 1, flags))
    ensures r.Ok? ==> vm.Valid() && vm.Agrees(space) && vm.Releasable() && (space.root, PageNo(va)) in vm.anon
    ensures r.Ok? ==>
              (OverlapsAny(space.ranges, Span(vb, 1, flags)) <==> OverlapsAny(old(space.ranges), Span(vb, 1, flags)))
    ensures r.Ok? ==>
              (LacksTables(vm.mmu.pmm.free, vm.mmu.at.Keys, Path(space.root, vb)) <==>
               LacksBoth(old(vm.mmu.pmm.free), old(vm.mmu.at.Keys), Path(space.root, va), Path(space.root, vb)))
    ensures forall j :: 0 <= j < |space.nodes| ==> space.nodes[j] in old(space.nodes) || fresh(space.nodes[j])
  {
    ghost var s := space.ranges;
    ghost var b := Before(vm.mmu.leaves, vm.anon, vm.mmu.pmm.free, vm.mmu.tables, vm.mmu.at.Keys);
    BeforeFirst(vm, space, va, vb, flags, b);
    r := vm.AllocAt(space, va, 1, flags);
    if r.Ok? {
      AfterFirst(vm, space, va, vb, flags, s, b);
    }
  }

  lemma {:induction false} BeforeFirst(vm: VirtualMemory, space: Space, va: int, vb: int, flags: int, b: Before)
    requires vm.Valid() && vm.Agrees(space) && PlacedOk(Span(va, 1, flags))
    requires b == Before(vm.mmu.leaves, vm.anon, vm.mmu.pmm.free, vm.mmu.tables, vm.mmu.at.Keys)
    ensures b.Sound() && Tidy(space.ranges)
    ensures Lacks(b.f, b.p, space.root, Span(va, 1, flags)) ==>
              LacksBoth(b.f, b.p, Path(space.root, va), Path(space.root, vb))
  {
    assert UnfoldRoles(true);
    vm.mmu.TableCount();
    OnePageTables(space.root, va, flags);
    LacksFirst(b.f, b.p, space.root, Span(va, 1, flags), Path(space.root, va), Path(space.root, vb));
  }

  lemma {:induction false} AfterFirst(vm: VirtualMemory, space: Space, va: int, vb: int, flags: int, s: seq<Range>,
                                      b: Before)
    requires vm.Valid() && PlacedOk(Span(va, 1, flags)) && PlacedOk(Span(vb, 1, flags)) && va != vb
    requires b.Sound() && Tidy(s) && Grew(s, space.ranges, Span(va, 1, flags)) && vm.Used() == b.Used()
    requires vm.mmu.at.Keys == b.p + TablesFor(space.root, Span(va, 1, flags)) && b.t <= vm.mmu.tables
    requires var q := Span(va, 1, flags);
             FilledUpTo(b.l, b.an, vm.mmu.leaves, vm.anon, space.root, q.start, q.stop, q.flags)
    ensures (space.root, PageNo(va)) in vm.anon
    ensures b.f + b.an.Values <= vm.mmu.pmm.managed ==> vm.Releasable()
    ensures OverlapsAny(space.ranges, Span(vb, 1, flags)) <==> OverlapsAny(s, Span(vb, 1, flags))
    ensures LacksTables(vm.mmu.pmm.free, vm.mmu.at.Keys, Path(space.root, vb)) <==>
            LacksBoth(b.f, b.p, Path(space.root, va), Path(space.root, vb))
  {
    assert UnfoldChanges(true);
    assert UnfoldRoles(true);
    var c := Before(vm.mmu.leaves, vm.anon, vm.mmu.pmm.free, vm.mmu.tables, vm.mmu.at.Keys);
    vm.mmu.TableCount();
    OnePage(c.l, space.root, va);
    OnePageTables(space.root, va, flags);
    OthersFewer(b.f, b.t, b.an.Values, c.f, c.t, c.an.Values);
    PagesDiffer(va, vb);
    OverlapAfter(s, space.ranges, Span(va, 1, flags), Span(vb, 1, flags));
    LacksSecond(b, c, (space.root, PageNo(va)), Path(space.root, va), Path(space.root, vb));
  }

  lemma {:induction false} PagesDiffer(a: int, b: int)
    requires PageAligned(a) && PageAligned(b) && a != b
    ensures a + 0x1000 <= b || b + 0x1000 <= a
  {}

  /** The two pages are vacant, the first one is not right before a region with these flags,
      and there are frames for it and for the tables of both. */
  ghost predicate CanShare(s: seq<Range>, f: set<int>, places: set<Slot>, root: int, va: int, vb: int, flags: int) {
    && !OverlapsAny(s, Span(va, 1, flags)) && !TouchesNext(s, Span(va, 1, flags))
    && !OverlapsAny(s, Span(vb, 1, flags)) && !LacksBoth(f, places, Path(root, va), Path(root, vb))
  }

  lemma {:induction false} LacksFirst(f: set<int>, places: set<Slot>, root: int, r: Range, one: set<Slot>,
                                      two: set<Slot>)
    requires |PageKeys(root, r.start, r.stop)| == 1 && TablesFor(root, r) == one
    ensures Lacks(f, places, root, r) ==> LacksBoth(f, places, one, two)
  {
    assert UnfoldCounts(true);
    NoMore(one - places, one + two - places);
  }

  /** What is left after the first page decides about the tables of the second. */
  lemma {:induction false} LacksSecond(b: Before, c: Before, k: (int, int), one: set<Slot>, two: set<Slot>)
    requires b.Sound() && c.Sound() && c.Used() == b.Used() && c.p == b.p + one && k in c.an && c.an - {k} == b.an
    ensures LacksTables(c.f, c.p, two) <==> LacksBoth(b.f, b.p, one, two)
  {
    assert UnfoldCounts(true);
    UsedCount(b);
    UsedCount(c);
    KeysAdded(b.an, c.an, {k});
    TwoParts(b.p, one, two);
  }

  lemma {:induction false} OnePageTables(root: int, va: int, flags: int)
    requires PageVa(va)
    ensures TablesFor(root, Span(va, 1, flags)) == Path(root, va)
    ensures |PageKeys(root, Span(va, 1, flags).start, Span(va, 1, flags).stop)| == 1
  {
    OnePage(map[], root, va);
    PathsStep(root, va, va);
  }

  /** Adding one page blocks another exactly when it was blocked before. */
  lemma {:induction false} OverlapAfter(s: seq<Range>, t: seq<Range>, q: Range, r: Range)
    requires Tidy(s) && Grew(s, t, q) && r.start < r.stop && !Overlap(r, q)
    ensures OverlapsAny(t, r) <==> OverlapsAny(s, r)
  {
    assert UnfoldChanges(true);
    if i :| 0 <= i < |t| && Overlap(r, t[i]) {
      var a := Max(r.start, t[i].start);
      assert (a, t[i].flags) in View(t);
      var j := HasByIndex(s, a, t[i].flags);
      assert Overlap(r, s[j]);
    }
    if i :| 0 <= i < |s| && Overlap(r, s[i]) {
      var a := Max(r.start, s[i].start);
      assert (a, s[i].flags) in View(s);
      var j := HasByIndex(t, a, s[i].flags);
      assert Overlap(r, t[j]);
    }
  }

  /** The other two calls, for an anonymous page `va`. */
  method MapAgain(vm: VirtualMemory, space: Space, va: int, vb: int, flags: int) returns (r: Result, frame: int)
    requires vm.Valid() && vm.Agrees(space) && vm.Releasable() && PageVa(va) && va != vb && PlacedOk(Span(vb, 1, flags))
    requires (space.root, PageNo(va)) in vm.anon
    modifies vm`anon, vm.mmu, vm.mmu.pmm`avail, vm.mmu.pmm`free, vm.mmu.pmm.maps, vm.mmu.pmm.arrays, space, space.nodes
    ensures r.Ok? || r == Overlaps || r == OutOfMemory
    ensures r.Overlaps? <==> OverlapsAny(old(space.ranges), Span(vb, 1, flags))
    ensures r.OutOfMemory? ==> LacksTables(old(vm.mmu.pmm.free), old(vm.mmu.at.Keys), Path(space.root, vb))
    ensures r.Ok? ==> !LacksTables(old(vm.mmu.pmm.free), old(vm.mmu.at.Keys), Path(space.root, vb))
    ensures r.Ok? ==> frame in vm.mmu.pmm.free && frame in vm.anon.Values && !vm.Valid()
    ensures r.Ok? ==> vm.Agrees(space) && PageAddr(LeafAt(vm.mmu.leaves, space.root, va)) == frame
  {
    r, frame := MapShared(vm, space, va, vb, flags);
    if r.Ok? {
      r := FreeMapped(vm, space, va, vb, frame);
    }
  }

  /** The frame of `va` mapped at `vb` too. */
  method MapShared(vm: VirtualMemory, space: Space, va: int, vb: int, flags: int) returns (r: Result, frame: int)
    requires vm.Valid() && vm.Agrees(space) && vm.Releasable() && PageVa(va) && va != vb && PlacedOk(Span(vb, 1, flags))
    requires (space.root, PageNo(va)) in vm.anon
    modifies vm.mmu, vm.mmu.pmm`avail, vm.mmu.pmm`free, vm.mmu.pmm.maps, vm.mmu.pmm.arrays, space, space.nodes
    ensures r.Ok? || r == Overlaps || r == OutOfMemory
    ensures r.Overlaps? <==> OverlapsAny(old(space.ranges), Span(vb, 1, flags))
    ensures r.OutOfMemory? ==> LacksTables(old(vm.mmu.pmm.free), old(vm.mmu.at.Keys), Path(space.root, vb))
    ensures r.Ok? ==> !LacksTables(old(vm.mmu.pmm.free), old(vm.mmu.at.Keys), Path(space.root, vb))
    ensures r.Ok? ==> vm.Valid() && vm.Agrees(space) && Uniform(space.ranges, vb, vb + 0x1000)
    ensures r.Ok? ==> frame in vm.mmu.pmm.managed
    ensures r.Ok? ==> vm.anon[(space.root, PageNo(va))] == frame && (space.root, PageNo(vb)) !in vm.anon
    ensures r.Ok? ==> PageAddr(LeafAt(vm.mmu.leaves, space.root, vb)) == frame
    ensures forall j :: 0 <= j < |space.nodes| ==> space.nodes[j] in old(space.nodes) || fresh(space.nodes[j])
  {
    ghost var s := space.ranges;
    frame := FrameOf(vm, space, va, Span(vb, 1, flags));
    r := vm.Map(space, vb, frame, flags);
    if r.Ok? {
      HeldAfterGrowth(s, space.ranges, Span(vb, 1, flags));
    }
  }

  /** The frame of an anonymous page, from the page tables. */
  method FrameOf(vm: VirtualMemory, space: Space, va: int, ghost r: Range) returns (frame: int)
    requires vm.Valid() && vm.Agrees(space) && vm.Releasable() && PageVa(va) && (space.root, PageNo(va)) in vm.anon
    requires PageVa(r.start) && r.start < r.stop
    ensures vm.Valid() && vm.Agrees(space) && PageAligned(frame) && frame in vm.mmu.pmm.managed
    ensures frame == vm.anon[(space.root, PageNo(va))]
    ensures !OverlapsAny(space.ranges, r) ==> (space.root, PageNo(r.start)) !in vm.anon
  {
    assert UnfoldRoles(true);
    ghost var l, an := vm.mmu.leaves, vm.anon;
    frame := vm.mmu.Translate(space.root, va);
    PageAddrAligned(LeafAt(l, space.root, va));
    assert frame == an[(space.root, PageNo(va))] && frame in an.Values;
    vm.mmu.LeavesNonZero();
    NotYetAnonymous(l, vm.mmu.tables, vm.mmu.pmm.free, an, space.root, space.ranges, r);
  }

  lemma {:induction false} NotYetAnonymous(l: Leaves, tables: set<int>, free: set<int>, an: Anon, root: int,
                                           s: seq<Range>, r: Range)
    requires Roles(l, tables, free, an) && Coherent(l, root, s) && PageVa(r.start) && r.start < r.stop
    requires forall k :: k in l ==> l[k] != 0
    ensures !OverlapsAny(s, r) ==> (root, PageNo(r.start)) !in an
  {
    if !OverlapsAny(s, r) { GrewWasUnmapped(l, root, s, r, r.start); }
  }

  /** The last step: `vb` shows the frame of the anonymous page `va`. */
  method FreeMapped(vm: VirtualMemory, space: Space, va: int, vb: int, frame: int) returns (r: Result)
    requires vm.Valid() && vm.Agrees(space) && PageVa(va) && PageVa(vb) && va != vb
    requires Uniform(space.ranges, vb, vb + 0x1000) && vb + 0x1000 < U64
    requires (space.root, PageNo(va)) in vm.anon && vm.anon[(space.root, PageNo(va))] == frame
    requires (space.root, PageNo(vb)) !in vm.anon && PageAddr(LeafAt(vm.mmu.leaves, space.root, vb)) == frame
    requires frame in vm.mmu.pmm.managed
    modifies vm`anon, vm.mmu, vm.mmu.pmm`avail, vm.mmu.pmm`free, vm.mmu.pmm.maps, vm.mmu.pmm.arrays, space, space.nodes
    ensures r.Ok? && frame in vm.mmu.pmm.free && frame in vm.anon.Values && !vm.Valid()
    ensures vm.Agrees(space) && PageAddr(LeafAt(vm.mmu.leaves, space.root, va)) == frame
  {
    assert UnfoldChanges(true);
    ghost var k, keys, l, an := (space.root, PageNo(va)), PageKeys(space.root, vb, vb + 0x1000), vm.mmu.leaves, vm.anon;
    OnePage(l, space.root, vb);
    if PageNo(va) == PageNo(vb) { PageNoInjective(va, vb); }
    assert k in an - keys && (an - keys)[k] == frame;
    assert frame in an.Values;
    assert !Owned(l, vm.mmu.tables, an, space.root, vb, vb + 0x1000);
    EndAligned(vb, 1);
    r := vm.Free(space, vb, 1);
    assert vm.anon == an - keys && vm.mmu.leaves == l - keys;
  }

  lemma {:induction false} OnePage(l: Leaves, root: int, va: int)
    requires PageVa(va)
    ensures PageKeys(root, va, va + 0x1000) == {(root, PageNo(va))}
    ensures Shown(l, root, va, va + 0x1000) == {PageAddr(LeafAt(l, root, va))}
  {
    PageKeysStep(root, va, va);
    ShownStep(l, root, va, va);
  }

  // ---- requests on one space --------------------------------------------------------------

  /** The anonymous pages of all other spaces stay. */
  ghost predicate AnonElsewhere(an0: Anon, an: Anon, root: int) {
    forall k :: k in an0 && k.0 != root ==> k in an
  }

  /** Outside `shared`, only anonymous pages show managed frames. */
  ghost predicate ForeignOutside(l: Leaves, an: Anon, managed: set<int>, shared: set<(int, int)>) {
    forall root, va {:trigger LeafAt(l, root, va)} ::
      PageVa(va) && LeafAt(l, root, va) != 0 && (root, PageNo(va)) !in an && (root, PageNo(va)) !in shared ==>
        PageAddr(LeafAt(l, root, va)) !in managed
  }

  /** The page that a request lets show a managed frame it does not own. */
  ghost function Shares(managed: set<int>, root: int, q: Request): set<(int, int)> {
    if q.MapTo? && q.pa in managed then {(root, PageNo(q.va))} else {}
  }

  /** Only pages that were allocated are released. */
  ghost predicate Careful(root: int, shared: set<(int, int)>, q: Request) {
    q.Release? ==> PageKeys(root, q.va, End(q.va, q.pages)) !! shared
  }

  /** The invariant of a run, for one space; `shared` are the pages that may show managed
      frames without owning them. */
  ghost predicate Sound(vm: VirtualMemory, space: Space, shared: set<(int, int)>)
    reads vm, vm.mmu, vm.mmu.pmm, vm.mmu.pmm.maps, vm.mmu.pmm.arrays, space, space.nodes
  {
    vm.Valid() && vm.Agrees(space) && ForeignOutside(vm.mmu.leaves, vm.anon, vm.mmu.pmm.managed, shared)
  }

  lemma {:induction false} ForeignFilled(l0: Leaves, an0: Anon, l: Leaves, an: Anon, managed: set<int>,
                                         shared: set<(int, int)>, root: int, q: Range)
    requires ForeignOutside(l0, an0, managed, shared)
    requires FilledUpTo(l0, an0, l, an, root, q.start, q.stop, q.flags)
    ensures ForeignOutside(l, an, managed, shared)
  {
    assert UnfoldChanges(true);
  }

  lemma {:induction false} ForeignDrained(l: Leaves, an: Anon, managed: set<int>, shared: set<(int, int)>, root: int,
                                          start: int, stop: int)
    requires ForeignOutside(l, an, managed, shared)
    ensures var keys := PageKeys(root, start, stop); ForeignOutside(l - keys, an - keys, managed, shared)
  {
    var keys := PageKeys(root, start, stop);
    forall r, va | PageVa(va) && LeafAt(l - keys, r, va) != 0 && (r, PageNo(va)) !in an - keys
        && (r, PageNo(va)) !in shared
      ensures PageAddr(LeafAt(l - keys, r, va)) !in managed
    {
      assert LeafAt(l - keys, r, va) == LeafAt(l, r, va);
    }
  }

  lemma {:induction false} ForeignMapped(l: Leaves, an: Anon, managed: set<int>, shared: set<(int, int)>, root: int,
                                         va: int, pa: int, flags: int)
    requires ForeignOutside(l, an, managed, shared) && PageVa(va) && PageAligned(pa) && FlagsOk(flags)
    ensures ForeignOutside(Updated(l, root, PageNo(va), LeafEntry(pa, flags)), an, managed,
                           shared + Shares(managed, root, MapTo(va, pa, flags)))
  {
    var l2 := Updated(l, root, PageNo(va), LeafEntry(pa, flags));
    var sh := shared + Shares(managed, root, MapTo(va, pa, flags));
    forall r, w | PageVa(w) && LeafAt(l2, r, w) != 0 && (r, PageNo(w)) !in an && (r, PageNo(w)) !in sh
      ensures PageAddr(LeafAt(l2, r, w)) !in managed
    {
      if (r, PageNo(w)) != (root, PageNo(va)) { assert LeafAt(l2, r, w) == LeafAt(l, r, w); }
    }
  }

  /** A careful release that gets through was one of anonymous pages. */
  lemma {:induction false} ReleasedAnonymous(l: Leaves, an: Anon, managed: set<int>, shared: set<(int, int)>,
                                             root: int, lo: int, hi: int)
    requires ForeignOutside(l, an, managed, shared) && PageKeys(root, lo, hi) !! shared
             && Shown(l, root, lo, hi) <= managed
    requires forall va :: PageVa(va) && lo <= va < hi ==> LeafAt(l, root, va) != 0
    ensures PageKeys(root, lo, hi) <= an.Keys
  {
    forall k | k in PageKeys(root, lo, hi) ensures k in an.Keys {
      var va :| lo <= va < hi && PageVa(va) && k == (root, PageNo(va));
      assert PageAddr(LeafAt(l, root, va)) in Shown(l, root, lo, hi);
    }
  }

  /** The page shows a frame of the set. */
  ghost predicate Shows(l: Leaves, frames: set<int>, root: int, va: int) {
    LeafAt(l, root, va) != 0 && PageAddr(LeafAt(l, root, va)) in frames
  }

  /** Releasing pages of one's own leaves their frames free but shown elsewhere: the pages
      that show a free frame afterwards are, outside the range, those that did before and
      the shared ones that show a frame of the range. */
  lemma {:induction false} FreeButShown(l: Leaves, t: set<int>, f: set<int>, an: Anon, managed: set<int>,
                                        shared: set<(int, int)>, root: int, lo: int, hi: int)
    requires Roles(l, t, f, an) && ForeignOutside(l, an, managed, shared)
    requires PageKeys(root, lo, hi) <= an.Keys && Shown(l, root, lo, hi) <= managed
    ensures LeftOver(l, f, l - PageKeys(root, lo, hi), f + Shown(l, root, lo, hi), shared, root, lo, hi)
  {
    var keys, gone := PageKeys(root, lo, hi), Shown(l, root, lo, hi);
    forall r, va | PageVa(va)
      ensures Shows(l - keys, f + gone, r, va) <==>
              (r, PageNo(va)) !in keys && (Shows(l, f, r, va) || ((r, PageNo(va)) in shared && Shows(l, gone, r, va)))
    {
      if (r, PageNo(va)) !in keys {
        assert LeafAt(l - keys, r, va) == LeafAt(l, r, va);
        if Shows(l, gone, r, va) { NotAnonymous(l, t, f, an, root, lo, hi, r, va); }
      }
    }
  }

  ghost predicate LeftOver(l: Leaves, f: set<int>, l': Leaves, f': set<int>, shared: set<(int, int)>, root: int,
                           lo: int, hi: int)
  {
    forall r, va {:trigger Shows(l', f', r, va)} :: PageVa(va) ==>
      (Shows(l', f', r, va) <==>
       && (r, PageNo(va)) !in PageKeys(root, lo, hi)
       && (Shows(l, f, r, va) || ((r, PageNo(va)) in shared && Shows(l, Shown(l, root, lo, hi), r, va))))
  }

  lemma {:induction false} NotAnonymous(l: Leaves, t: set<int>, f: set<int>, an: Anon, root: int, lo: int, hi: int,
                                        r: int, va: int)
    requires Roles(l, t, f, an) && PageKeys(root, lo, hi) <= an.Keys && PageVa(va)
    requires (r, PageNo(va)) !in PageKeys(root, lo, hi) && PageAddr(LeafAt(l, r, va)) in Shown(l, root, lo, hi)
    ensures (r, PageNo(va)) !in an
  {
    var w :| lo <= w < hi && PageVa(w) && PageAddr(LeafAt(l, r, va)) == PageAddr(LeafAt(l, root, w));
    assert (root, PageNo(w)) in PageKeys(root, lo, hi);
    AnonymousOwned(l, t, f, an, root, lo, hi, w);
  }

  /** Between calls only shared pages show free frames. */
  lemma {:induction false} FreeShownShared(vm: VirtualMemory, space: Space, shared: set<(int, int)>, r: int, va: int)
    requires Sound(vm, space, shared) && vm.Releasable() && PageVa(va) && Shows(vm.mmu.leaves, vm.mmu.pmm.free, r, va)
    ensures (r, PageNo(va)) in shared
  {
    Opened(vm, space);
    assert LeafAt(vm.mmu.leaves, r, va) != 0;
  }

  /** One request, made only when its arguments are what the code demands. */
  method Perform(vm: VirtualMemory, space: Space, q: Request, ghost shared: set<(int, int)>) returns (r: Result)
    requires Sound(vm, space, shared) && Careful(space.root, shared, q)
    modifies vm`anon, vm.mmu, vm.mmu.pmm`avail, vm.mmu.pmm`free, vm.mmu.pmm.maps, vm.mmu.pmm.arrays, space, space.nodes
    ensures CarriedOut(q, old(space.ranges), space.ranges, old(vm.Now()), vm.Now(), r, space.root,
                       vm.mmu.pmm.managed)
    ensures r.Ok? || r.Null? ==> Sound(vm, space, shared + Shares(vm.mmu.pmm.managed, space.root, q))
    ensures r.Ok? || r.Null? ==> vm.Used() == old(vm.Used()) && vm.mmu.roots == old(vm.mmu.roots)
    ensures r.Ok? || r.Null? ==> old(vm.mmu.tables) <= vm.mmu.tables
    ensures r.Ok? || r.Null? ==> Elsewhere(old(vm.mmu.leaves), vm.mmu.leaves, space.root)
    ensures r.Ok? || r.Null? ==> AnonElsewhere(old(vm.anon), vm.anon, space.root)
    ensures forall n :: n in space.nodes ==> n in old(space.nodes) || fresh(n)
  {
    match q
    case At(va, pages, flags) => r := PerformAt(vm, space, va, pages, flags, shared);
    case Between(lower, upper, pages, flags) => r := PerformBetween(vm, space, lower, upper, pages, flags, shared);
    case MapTo(va, pa, flags) => r := PerformMap(vm, space, va, pa, flags, shared);
    case Release(va, pages) => r := PerformRelease(vm, space, va, pages, shared);
  }

  method PerformAt(vm: VirtualMemory, space: Space, va: int, pages: nat, flags: int, ghost shared: set<(int, int)>)
    returns (r: Result)
    requires Sound(vm, space, shared)
    modifies vm`anon, vm.mmu, vm.mmu.pmm`avail, vm.mmu.pmm`free, vm.mmu.pmm.maps, vm.mmu.pmm.arrays, space, space.nodes
    ensures CarriedOut(At(va, pages, flags), old(space.ranges), space.ranges, old(vm.Now()), vm.Now(), r, space.root,
                       vm.mmu.pmm.managed)
    ensures r.Ok? || r.Null? ==> Sound(vm, space, shared + Shares(vm.mmu.pmm.managed, space.root, At(va, pages, flags)))
    ensures r.Ok? || r.Null? ==> vm.Used() == old(vm.Used()) && vm.mmu.roots == old(vm.mmu.roots)
    ensures r.Ok? || r.Null? ==> old(vm.mmu.tables) <= vm.mmu.tables
    ensures r.Ok? || r.Null? ==> Elsewhere(old(vm.mmu.leaves), vm.mmu.leaves, space.root)
    ensures r.Ok? || r.Null? ==> AnonElsewhere(old(vm.anon), vm.anon, space.root)
    ensures forall n :: n in space.nodes ==> n in old(space.nodes) || fresh(n)
  {
    ghost var s, b, p := space.ranges, vm.Now(), Span(va, pages, flags);
    if va == 0 || pages == 0 || !PlacedOk(Span(va, pages, flags)) {
      NotMade(At(va, pages, flags), s, b, space.root, vm.mmu.pmm.managed);
      return Null;
    }
    vm.SoundNow(b);
    r := vm.AllocAt(space, va, pages, flags);
    if r.Ok? {
      AfterFill(vm, b, shared, space.root, s, space.ranges, p);
    }
    AtCarried(va, pages, flags, s, space.ranges, b, vm.Now(), r, space.root, vm.mmu.pmm.managed);
  }

  /** What filling a range keeps, and the free frames after it. */
  lemma {:induction false} AfterFill(vm: VirtualMemory, b: Before, shared: set<(int, int)>, root: int, s: seq<Range>,
                                     t: seq<Range>, p: Range)
    requires vm.Valid() && b.Sound() && vm.Used() == b.Used() && b.t <= vm.mmu.tables && !Lacks(b.f, b.p, root, p)
    requires FilledUpTo(b.l, b.an, vm.mmu.leaves, vm.anon, root, p.start, p.stop, p.flags) && Grew(s, t, p)
    requires ForeignOutside(b.l, b.an, vm.mmu.pmm.managed, shared)
    ensures Filled(b, vm.Now(), root, p) && Gained(s, t, p)
    ensures ForeignOutside(vm.mmu.leaves, vm.anon, vm.mmu.pmm.managed, shared)
    ensures Elsewhere(b.l, vm.mmu.leaves, root) && AnonElsewhere(b.an, vm.anon, root)
  {
    vm.SoundNow(vm.Now());
    FilledFrames(b, vm.Now(), root, p);
    GrewGained(s, t, p);
    ForeignFilled(b.l, b.an, vm.mmu.leaves, vm.anon, vm.mmu.pmm.managed, shared, root, p);
    assert UnfoldChanges(true);
  }

  method PerformBetween(vm: VirtualMemory, space: Space, lower: int, upper: int, pages: nat, flags: int,
                        ghost shared: set<(int, int)>)
    returns (r: Result)
    requires Sound(vm, space, shared)
    modifies vm`anon, vm.mmu, vm.mmu.pmm`avail, vm.mmu.pmm`free, vm.mmu.pmm.maps, vm.mmu.pmm.arrays, space, space.nodes
    ensures CarriedOut(Between(lower, upper, pages, flags), old(space.ranges), space.ranges, old(vm.Now()), vm.Now(), r,
                       space.root, vm.mmu.pmm.managed)
    ensures r.Ok? || r.Null? ==>
              Sound(vm, space, shared + Shares(vm.mmu.pmm.managed, space.root, Between(lower, upper, pages, flags)))
    ensures r.Ok? || r.Null? ==> vm.Used() == old(vm.Used()) && vm.mmu.roots == old(vm.mmu.roots)
    ensures r.Ok? || r.Null? ==> old(vm.mmu.tables) <= vm.mmu.tables
    ensures r.Ok? || r.Null? ==> Elsewhere(old(vm.mmu.leaves), vm.mmu.leaves, space.root)
    ensures r.Ok? || r.Null? ==> AnonElsewhere(old(vm.anon), vm.anon, space.root)
    ensures forall n :: n in space.nodes ==> n in old(space.nodes) || fresh(n)
  {
    Opened(vm, space);
    ghost var s, b := space.ranges, vm.Now();
    if !(FlagsOk(flags) && PageAligned(lower) && CanonicalSpan(lower, upper)) {
      NotMade(Between(lower, upper, pages, flags), s, b, space.root, vm.mmu.pmm.managed);
      return Null;
    }
    ghost var p := FirstFit.AllocBetween(s, lower, upper, pages, flags);
    var placed, q := LookUp(space, lower, upper, pages, flags);
    if placed && !CanonicalSpan(q.start, q.stop) {
      NotMade(Between(lower, upper, pages, flags), s, b, space.root, vm.mmu.pmm.managed);
      return Null;
    }
    vm.SoundNow(b);
    r := vm.AllocBetween(space, lower, upper, pages, flags);
    if r.Ok? {
      AfterFill(vm, b, shared, space.root, s, space.ranges, p.r);
    }
    BetweenCarried(lower, upper, pages, flags, s, space.ranges, b, vm.Now(), r, space.root, vm.mmu.pmm.managed);
  }

  /** Where `vmm_alloc_between` would put the range: its arguments alone do not tell whether
      that is within canonical addresses. */
  method LookUp(space: Space, lower: int, upper: int, pages: nat, flags: int)
    returns (placed: bool, q: Range)
    requires space.Linked()
    ensures placed <==> FirstFit.AllocBetween(space.ranges, lower, upper, pages, flags).Placed?
    ensures placed ==> q == FirstFit.AllocBetween(space.ranges, lower, upper, pages, flags).r
  {
    assert UnfoldLinks(true);
    var va, prev, cur, k := FindPlace(space, lower, Need(pages));
    q := FirstFit.Request(va, pages, flags);
    assert prev != null ==> prev.Value() == space.ranges[k - 1];
    assert cur != null ==> cur.Value() == space.ranges[k];
    var hits := (cur != null && q.stop > cur.start) || (prev != null && q.start < prev.stop);
    placed := Add64(va, Need(pages)) < upper && !hits && q.start < q.stop;
  }

  method PerformMap(vm: VirtualMemory, space: Space, va: int, pa: int, flags: int, ghost shared: set<(int, int)>)
    returns (r: Result)
    requires Sound(vm, space, shared)
    modifies vm.mmu, vm.mmu.pmm`avail, vm.mmu.pmm`free, vm.mmu.pmm.maps, vm.mmu.pmm.arrays, space, space.nodes
    ensures CarriedOut(MapTo(va, pa, flags), old(space.ranges), space.ranges, old(vm.Now()), vm.Now(), r, space.root,
                       vm.mmu.pmm.managed)
    ensures r.Ok? || r.Null? ==> Sound(vm, space, shared + Shares(vm.mmu.pmm.managed, space.root, MapTo(va, pa, flags)))
    ensures r.Ok? || r.Null? ==> vm.Used() == old(vm.Used()) && vm.mmu.roots == old(vm.mmu.roots)
    ensures r.Ok? || r.Null? ==> old(vm.mmu.tables) <= vm.mmu.tables
    ensures r.Ok? || r.Null? ==> Elsewhere(old(vm.mmu.leaves), vm.mmu.leaves, space.root)
    ensures r.Ok? || r.Null? ==> AnonElsewhere(old(vm.anon), vm.anon, space.root)
    ensures forall n :: n in space.nodes ==> n in old(space.nodes) || fresh(n)
  {
    ghost var s, b := space.ranges, vm.Now();
    if !PlacedOk(Span(va, 1, flags)) || !PageAligned(pa) {
      NotMade(MapTo(va, pa, flags), s, b, space.root, vm.mmu.pmm.managed);
      return Null;
    }
    vm.SoundNow(b);
    r := vm.Map(space, va, pa, flags);
    if r.Ok? {
      AfterMap(vm, b, shared, space.root, s, space.ranges, va, pa, flags);
    }
    MapCarried(va, pa, flags, s, space.ranges, b, vm.Now(), r, space.root, vm.mmu.pmm.managed);
  }

  lemma {:induction false} AfterMap(vm: VirtualMemory, b: Before, shared: set<(int, int)>, root: int, s: seq<Range>,
                                    t: seq<Range>, va: int, pa: int, flags: int)
    requires vm.Valid() && b.Sound() && vm.Used() == b.Used() && b.t <= vm.mmu.tables && vm.anon == b.an
    requires PlacedOk(Span(va, 1, flags)) && PageAligned(pa) && Grew(s, t, Span(va, 1, flags))
    requires vm.mmu.leaves == Updated(b.l, root, PageNo(va), LeafEntry(pa, flags))
    requires ForeignOutside(b.l, b.an, vm.mmu.pmm.managed, shared)
    ensures Gained(s, t, Span(va, 1, flags)) && vm.mmu.pmm.free == b.f - (vm.mmu.tables - b.t)
    ensures ForeignOutside(vm.mmu.leaves, vm.anon, vm.mmu.pmm.managed,
                           shared + Shares(vm.mmu.pmm.managed, root, MapTo(va, pa, flags)))
    ensures Elsewhere(b.l, vm.mmu.leaves, root) && AnonElsewhere(b.an, vm.anon, root)
  {
    GrewGained(s, t, Span(va, 1, flags));
    vm.SoundNow(vm.Now());
    MappedFrames(b, vm.Now());
    ForeignMapped(b.l, vm.anon, vm.mmu.pmm.managed, shared, root, va, pa, flags);
  }

  method PerformRelease(vm: VirtualMemory, space: Space, va: int, pages: nat, ghost shared: set<(int, int)>)
    returns (r: Result)
    requires Sound(vm, space, shared) && Careful(space.root, shared, Release(va, pages))
    modifies vm`anon, vm.mmu, vm.mmu.pmm`avail, vm.mmu.pmm`free, vm.mmu.pmm.maps, vm.mmu.pmm.arrays, space, space.nodes
    ensures r.Ok? ==>
              LeftOver(old(vm.mmu.leaves), old(vm.mmu.pmm.free), vm.mmu.leaves, vm.mmu.pmm.free, shared, space.root,
                       va, End(va, pages))
    ensures CarriedOut(Release(va, pages), old(space.ranges), space.ranges, old(vm.Now()), vm.Now(), r, space.root,
                       vm.mmu.pmm.managed)
    ensures r.Ok? || r.Null? ==> Sound(vm, space, shared + Shares(vm.mmu.pmm.managed, space.root, Release(va, pages)))
    ensures r.Ok? || r.Null? ==> vm.Used() == old(vm.Used()) && vm.mmu.roots == old(vm.mmu.roots)
    ensures r.Ok? || r.Null? ==> old(vm.mmu.tables) <= vm.mmu.tables
    ensures r.Ok? || r.Null? ==> Elsewhere(old(vm.mmu.leaves), vm.mmu.leaves, space.root)
    ensures r.Ok? || r.Null? ==> AnonElsewhere(old(vm.anon), vm.anon, space.root)
    ensures forall n :: n in space.nodes ==> n in old(space.nodes) || fresh(n)
  {
    if !PageAligned(va) || !(0 <= va < U64) {
      return Null;
    }
    if va < End(va, pages) {
      r := ReleaseRange(vm, space, va, pages, shared);
    } else {
      r := ReleaseNothing(vm, space, va, pages, shared);
    }
  }

  method ReleaseRange(vm: VirtualMemory, space: Space, va: int, pages: nat, ghost shared: set<(int, int)>)
    returns (r: Result)
    requires Sound(vm, space, shared) && Careful(space.root, shared, Release(va, pages))
    requires PageAligned(va) && 0 <= va < U64 && va < End(va, pages)
    modifies vm`anon, vm.mmu, vm.mmu.pmm`avail, vm.mmu.pmm`free, vm.mmu.pmm.maps, vm.mmu.pmm.arrays, space, space.nodes
    ensures r.Ok? ==>
              LeftOver(old(vm.mmu.leaves), old(vm.mmu.pmm.free), vm.mmu.leaves, vm.mmu.pmm.free, shared, space.root,
                       va, End(va, pages))
    ensures CarriedOut(Release(va, pages), old(space.ranges), space.ranges, old(vm.Now()), vm.Now(), r, space.root,
                       vm.mmu.pmm.managed)
    ensures r.Ok? || r.Null? ==> Sound(vm, space, shared + Shares(vm.mmu.pmm.managed, space.root, Release(va, pages)))
    ensures r.Ok? || r.Null? ==> vm.Used() == old(vm.Used()) && vm.mmu.roots == old(vm.mmu.roots)
    ensures r.Ok? || r.Null? ==> old(vm.mmu.tables) <= vm.mmu.tables
    ensures r.Ok? || r.Null? ==> Elsewhere(old(vm.mmu.leaves), vm.mmu.leaves, space.root)
    ensures r.Ok? || r.Null? ==> AnonElsewhere(old(vm.anon), vm.anon, space.root)
    ensures forall n :: n in space.nodes ==> n in old(space.nodes) || fresh(n)
  {
    ghost var s, b, stop := space.ranges, vm.Now(), End(va, pages);
    Opened(vm, space);
    vm.SoundNow(b);
    if Uniform(s, va, stop) { UniformIsMapped(b.l, space.root, s, va, stop); }
    r := vm.Free(space, va, pages);
    if r.Ok? {
      ShrankDropped(s, space.ranges, va, stop);
      DrainedEmptied(b, vm.Now(), space.root, va, stop, vm.mmu.pmm.managed);
      ReleasedAnonymous(b.l, b.an, vm.mmu.pmm.managed, shared, space.root, va, stop);
      AfterRelease(vm, b, shared, space.root, va, stop);
    }
  }

  /** A release of anonymous pages keeps roles, frames and the pages of others. */
  lemma {:induction false} AfterRelease(vm: VirtualMemory, b: Before, shared: set<(int, int)>, root: int, lo: int,
                                        hi: int)
    requires b.Sound() && ForeignOutside(b.l, b.an, vm.mmu.pmm.managed, shared) && vm.mmu.tables == b.t
    requires DrainedUpTo(b.l, b.an, b.f, vm.mmu.leaves, vm.anon, vm.mmu.pmm.free, root, lo, hi)
    requires PageKeys(root, lo, hi) <= b.an.Keys && Shown(b.l, root, lo, hi) <= vm.mmu.pmm.managed
    ensures ForeignOutside(vm.mmu.leaves, vm.anon, vm.mmu.pmm.managed, shared) && vm.Used() == b.Used()
    ensures Owned(b.l, b.t, b.an, root, lo, hi) && Elsewhere(b.l, vm.mmu.leaves, root)
    ensures AnonElsewhere(b.an, vm.anon, root)
    ensures LeftOver(b.l, b.f, vm.mmu.leaves, vm.mmu.pmm.free, shared, root, lo, hi)
  {
    assert UnfoldChanges(true);
    AllAnonymous(b.l, b.t, b.f, b.an, root, lo, hi);
    ShownAndKept(b.l, b.an, root, lo, hi);
    ForeignDrained(b.l, b.an, vm.mmu.pmm.managed, shared, root, lo, hi);
    FreeButShown(b.l, b.t, b.f, b.an, vm.mmu.pmm.managed, shared, root, lo, hi);
    DrainedRewritten(b.l, root, lo, hi);
  }

  method ReleaseNothing(vm: VirtualMemory, space: Space, va: int, pages: nat, ghost shared: set<(int, int)>)
    returns (r: Result)
    requires Sound(vm, space, shared)
    requires PageAligned(va) && 0 <= va < U64 && End(va, pages) <= va
    modifies vm`anon, vm.mmu, vm.mmu.pmm`avail, vm.mmu.pmm`free, vm.mmu.pmm.maps, vm.mmu.pmm.arrays, space, space.nodes
    ensures r.Ok? ==>
              LeftOver(old(vm.mmu.leaves), old(vm.mmu.pmm.free), vm.mmu.leaves, vm.mmu.pmm.free, shared, space.root,
                       va, End(va, pages))
    ensures CarriedOut(Release(va, pages), old(space.ranges), space.ranges, old(vm.Now()), vm.Now(), r, space.root,
                       vm.mmu.pmm.managed)
    ensures r.Ok? || r.Null? ==> Sound(vm, space, shared + Shares(vm.mmu.pmm.managed, space.root, Release(va, pages)))
    ensures r.Ok? || r.Null? ==> vm.Used() == old(vm.Used()) && vm.mmu.roots == old(vm.mmu.roots)
    ensures r.Ok? || r.Null? ==> old(vm.mmu.tables) <= vm.mmu.tables
    ensures r.Ok? || r.Null? ==> Elsewhere(old(vm.mmu.leaves), vm.mmu.leaves, space.root)
    ensures r.Ok? || r.Null? ==> AnonElsewhere(old(vm.anon), vm.anon, space.root)
    ensures forall n :: n in space.nodes ==> n in old(space.nodes) || fresh(n)
  {
    ghost var s, b := space.ranges, vm.Now();
    Opened(vm, space);
    TakableMeaning(s, va, End(va, pages));
    r := vm.Free(space, va, pages);
    if r.Backwards? && End(va, pages) == va {
      EmptiedNothing(b, space.root, va, vm.mmu.pmm.managed);
      LeftOverNothing(b.l, b.f, shared, space.root, va);
      RemoveBackwards(s, va, va);
      r := Ok(va);
    }
  }

  lemma {:induction false} LeftOverNothing(l: Leaves, f: set<int>, shared: set<(int, int)>, root: int, va: int)
    ensures LeftOver(l, f, l, f, shared, root, va, va)
  {
    assert PageKeys(root, va, va) == {} && Shown(l, root, va, va) == {};
  }

  // ---- runs on any number of spaces ---------------------------------------------------------

  ghost predicate AllApart(spaces: seq<Space>)
    reads spaces
  {
    forall i, j :: 0 <= i < j < |spaces| ==> spaces[i].root != spaces[j].root && Apart(spaces[i], spaces[j])
  }

  ghost function Nodes(spaces: seq<Space>): set<Region>
    reads spaces
  {
    set i, n | 0 <= i < |spaces| && n in spaces[i].nodes :: n
  }

  /** The invariant: all spaces agree with their tables, and each frame has its one role. */
  ghost predicate Good(vm: VirtualMemory, spaces: seq<Space>, shared: set<(int, int)>)
    reads vm, vm.mmu, vm.mmu.pmm, vm.mmu.pmm.maps, vm.mmu.pmm.arrays, spaces, Nodes(spaces)
  {
    forall u {:trigger UnfoldKernel(u)} :: UnfoldKernel(u) ==>
      && vm.Valid() && AllApart(spaces) && ForeignOutside(vm.mmu.leaves, vm.anon, vm.mmu.pmm.managed, shared)
      && forall i :: 0 <= i < |spaces| ==>
           (forall n :: n in spaces[i].nodes ==> n in Nodes(spaces)) && vm.Agrees(spaces[i])
  }

  /** One request on one of the spaces: the lists of the others stay as they are. */
  method PerformBeside(vm: VirtualMemory, spaces: seq<Space>, i: nat, q: Request, ghost shared: set<(int, int)>)
    returns (r: Result)
    requires i < |spaces| && Sound(vm, spaces[i], shared) && Careful(spaces[i].root, shared, q)
    requires AllApart(spaces) && forall j :: 0 <= j < |spaces| ==> spaces[j].Linked()
    modifies vm`anon, vm.mmu, vm.mmu.pmm`avail, vm.mmu.pmm`free, vm.mmu.pmm.maps, vm.mmu.pmm.arrays, spaces[i],
             spaces[i].nodes
    ensures CarriedOut(q, old(spaces[i].ranges), spaces[i].ranges, old(vm.Now()), vm.Now(), r, spaces[i].root,
                       vm.mmu.pmm.managed)
    ensures r.Ok? || r.Null? ==> Sound(vm, spaces[i], shared + Shares(vm.mmu.pmm.managed, spaces[i].root, q))
    ensures r.Ok? || r.Null? ==> vm.Used() == old(vm.Used()) && vm.mmu.roots == old(vm.mmu.roots)
    ensures r.Ok? || r.Null? ==> old(vm.mmu.tables) <= vm.mmu.tables
    ensures r.Ok? || r.Null? ==> Elsewhere(old(vm.mmu.leaves), vm.mmu.leaves, spaces[i].root)
    ensures r.Ok? || r.Null? ==> AnonElsewhere(old(vm.anon), vm.anon, spaces[i].root)
    ensures AllApart(spaces)
    ensures forall j :: 0 <= j < |spaces| && j != i ==>
              spaces[j].Linked() && spaces[j].ranges == old(spaces[j].ranges)
    ensures forall n :: n in spaces[i].nodes ==> n in old(spaces[i].nodes) || fresh(n)
  {
    ghost var lists := Lists(spaces);
    ApartBefore(spaces, i);
    r := Perform(vm, spaces[i], q, shared);
    forall j | 0 <= j < |spaces| && j != i ensures spaces[j].Linked() {
      StaysLinked(spaces[j]);
    }
    ApartAfter(spaces, lists, i);
  }

  /** The nodes of each space. */
  ghost function Lists(spaces: seq<Space>): seq<seq<Region>>
    reads spaces
  {
    seq(|spaces|, k requires 0 <= k < |spaces| reads spaces => spaces[k].nodes)
  }

  ghost predicate Disjoint(a: seq<Region>, b: seq<Region>) {
    forall n :: n in a ==> n !in b
  }

  /** What holds of the others whatever happens to space `i`. */
  ghost predicate OthersApart(spaces: seq<Space>, lists: seq<seq<Region>>, i: nat) {
    && |lists| == |spaces|
    && (forall j, k :: 0 <= j < k < |spaces| ==> spaces[j] != spaces[k] && spaces[j].root != spaces[k].root)
    && (forall j, k :: 0 <= j < k < |spaces| && j != i && k != i ==> Disjoint(lists[j], lists[k]))
  }

  lemma {:induction false} ApartBefore(spaces: seq<Space>, i: nat)
    requires AllApart(spaces) && i < |spaces|
    ensures OthersApart(spaces, Lists(spaces), i)
    ensures forall j :: 0 <= j < |spaces| && j != i ==> Disjoint(spaces[i].nodes, Lists(spaces)[j])
  {
    forall j, k | 0 <= j < k < |spaces| ensures Disjoint(spaces[j].nodes, spaces[k].nodes) {
      assert Apart(spaces[j], spaces[k]);
    }
  }

  lemma {:induction false} ApartAfter(spaces: seq<Space>, lists: seq<seq<Region>>, i: nat)
    requires i < |spaces| && OthersApart(spaces, lists, i)
    requires forall j :: 0 <= j < |spaces| && j != i ==>
               spaces[j].nodes == lists[j] && Disjoint(spaces[i].nodes, lists[j])
    ensures AllApart(spaces)
  {
    forall j, k | 0 <= j < k < |spaces| ensures Apart(spaces[j], spaces[k]) {
      if j != i && k != i { assert Disjoint(lists[j], lists[k]); }
    }
  }

  ghost function Ranges(spaces: seq<Space>): seq<seq<Range>>
    reads spaces
  {
    seq(|spaces|, k requires 0 <= k < |spaces| reads spaces => spaces[k].ranges)
  }

  /** Every space agrees with its tables, were its list the one given. */
  ghost predicate AllMatch(l: Leaves, known: set<int>, spaces: seq<Space>, lists: seq<seq<Range>>) {
    && |lists| == |spaces|
    && forall u {:trigger UnfoldKernel(u)} :: UnfoldKernel(u) ==>
         forall j :: 0 <= j < |spaces| ==> spaces[j].root in known && Coherent(l, spaces[j].root, lists[j])
  }

  lemma {:induction false} OpenAll(vm: VirtualMemory, spaces: seq<Space>, shared: set<(int, int)>)
    requires Good(vm, spaces, shared)
    ensures AllMatch(vm.mmu.leaves, vm.mmu.roots, spaces, Ranges(spaces))
    ensures vm.Valid() && AllApart(spaces) && ForeignOutside(vm.mmu.leaves, vm.anon, vm.mmu.pmm.managed, shared)
    ensures forall j :: 0 <= j < |spaces| ==> spaces[j].Linked() && vm.Agrees(spaces[j])
  {
    assert UnfoldKernel(true);
    assert UnfoldRoles(true);
  }

  /** The others agree with their tables as before. */
  lemma {:induction false} CloseAll(vm: VirtualMemory, spaces: seq<Space>, shared: set<(int, int)>, i: nat, l: Leaves,
                                    known: set<int>, lists: seq<seq<Range>>)
    requires i < |spaces| && vm.Valid() && vm.Agrees(spaces[i]) && AllApart(spaces)
    requires ForeignOutside(vm.mmu.leaves, vm.anon, vm.mmu.pmm.managed, shared)
    requires AllMatch(l, known, spaces, lists) && known <= vm.mmu.roots && Elsewhere(l, vm.mmu.leaves, spaces[i].root)
    requires forall j :: 0 <= j < |spaces| && j != i ==> spaces[j].Linked() && spaces[j].ranges == lists[j]
    ensures Good(vm, spaces, shared)
  {
    assert UnfoldKernel(true);
    forall j | 0 <= j < |spaces| ensures vm.Agrees(spaces[j]) {
      if j != i {
        assert UnfoldRoles(true);
        CoherentElsewhere(l, vm.mmu.leaves, spaces[i].root, spaces[j].root, spaces[j].ranges);
      }
    }
  }

  /** One request on one of the spaces: the invariant is kept. */
  method PerformOn(vm: VirtualMemory, spaces: seq<Space>, i: nat, q: Request, ghost shared: set<(int, int)>)
    returns (r: Result)
    requires Good(vm, spaces, shared) && i < |spaces| && Careful(spaces[i].root, shared, q)
    modifies vm`anon, vm.mmu, vm.mmu.pmm`avail, vm.mmu.pmm`free, vm.mmu.pmm.maps, vm.mmu.pmm.arrays, spaces[i],
             spaces[i].nodes
    ensures CarriedOut(q, old(spaces[i].ranges), spaces[i].ranges, old(vm.Now()), vm.Now(), r, spaces[i].root,
                       vm.mmu.pmm.managed)
    ensures r.Ok? || r.Null? ==> Good(vm, spaces, shared + Shares(vm.mmu.pmm.managed, spaces[i].root, q))
    ensures r.Ok? || r.Null? ==> vm.Used() == old(vm.Used()) && vm.mmu.roots == old(vm.mmu.roots)
    ensures r.Ok? || r.Null? ==> old(vm.mmu.tables) <= vm.mmu.tables
    ensures r.Ok? || r.Null? ==> AnonElsewhere(old(vm.anon), vm.anon, spaces[i].root)
    ensures forall j :: 0 <= j < |spaces| && j != i ==> spaces[j].ranges == old(spaces[j].ranges)
    ensures forall n :: n in Nodes(spaces) ==> n in old(Nodes(spaces)) || fresh(n)
  {
    ghost var l0, known, lists := vm.mmu.leaves, vm.mmu.roots, Ranges(spaces);
    OpenAll(vm, spaces, shared);
    r := PerformBeside(vm, spaces, i, q, shared);
    if r.Ok? || r.Null? {
      CloseAll(vm, spaces, shared + Shares(vm.mmu.pmm.managed, spaces[i].root, q), i, l0, known, lists);
    }
  }

  /** Every release of the run is careful, and every call names a space. */
  ghost predicate AllCareful(managed: set<int>, roots: seq<int>, shared: set<(int, int)>, calls: seq<Call>)
    decreases |calls|
  {
    calls != [] ==>
      && calls[0].space < |roots| && Careful(roots[calls[0].space], shared, calls[0].q)
      && AllCareful(managed, roots, shared + Shares(managed, roots[calls[0].space], calls[0].q), calls[1..])
  }

  /** The pages that show managed frames without owning them when the run is over. */
  ghost function SharedAfter(managed: set<int>, roots: seq<int>, shared: set<(int, int)>, calls: seq<Call>)
    : set<(int, int)>
    requires AllCareful(managed, roots, shared, calls)
    decreases |calls|
  {
    if calls == [] then shared
    else SharedAfter(managed, roots, shared + Shares(managed, roots[calls[0].space], calls[0].q), calls[1..])
  }

  ghost function Roots(spaces: seq<Space>): seq<int> {
    seq(|spaces|, i requires 0 <= i < |spaces| => spaces[i].root)
  }

  ghost function Held(vm: VirtualMemory, spaces: seq<Space>): Memory
    reads vm, vm.mmu, vm.mmu.pmm, spaces
  {
    Memory(Ranges(spaces), vm.Now())
  }

  ghost function Around(vm: VirtualMemory, spaces: seq<Space>): Fixed
    reads vm, vm.mmu, vm.mmu.pmm
  {
    Fixed(Roots(spaces), vm.mmu.pmm.managed)
  }

  lemma {:induction false} StillReleasable(vm: VirtualMemory, f0: set<int>, t0: set<int>, a0: set<int>)
    requires vm.Valid() && vm.Used() == f0 + t0 + a0 && t0 <= vm.mmu.tables
    ensures f0 + a0 <= vm.mmu.pmm.managed ==> vm.Releasable()
  {
    assert UnfoldRoles(true);
    OthersFewer(f0, t0, a0, vm.mmu.pmm.free, vm.mmu.tables, vm.anon.Values);
  }

  lemma {:induction false} NodesIn(spaces: seq<Space>)
    ensures forall i :: 0 <= i < |spaces| ==> forall n :: n in spaces[i].nodes ==> n in Nodes(spaces)
  {}

  /** Every run: after any number of requests, on any of the spaces, all region lists agree
      with their page tables, and every frame has kept its one role and none was lost. Each
      request was carried out as its arguments, the list of its space and the free frames say,
      and the map of each space is what it was at first, plus and minus the ranges of the
      requests. A run that stops early stops with an answer that these account for. */
  method Run(vm: VirtualMemory, spaces: seq<Space>, calls: seq<Call>, ghost shared: set<(int, int)>)
    returns (r: Result, rs: seq<Result>, ghost states: seq<Memory>)
    requires Good(vm, spaces, shared) && AllCareful(vm.mmu.pmm.managed, Roots(spaces), shared, calls)
    modifies vm`anon, vm.mmu, vm.mmu.pmm`avail, vm.mmu.pmm`free, vm.mmu.pmm.maps, vm.mmu.pmm.arrays, spaces,
             Nodes(spaces)
    ensures |rs| <= |calls| && Traced(states, calls[..|rs|], rs, Around(vm, spaces))
    ensures states[0] == old(Held(vm, spaces))
    ensures r.Ok? <==> |rs| == |calls|
    ensures !r.Ok? ==> Stopped(states[|rs|], calls[|rs|], r, Around(vm, spaces))
    ensures r.Ok? ==> states[|rs|] == Held(vm, spaces)
    ensures r.Ok? ==>
              forall i :: 0 <= i < |spaces| ==>
                View(spaces[i].ranges) == Expected(View(old(spaces[i].ranges)), i, calls, rs)
    ensures r.Ok? ==> Good(vm, spaces, SharedAfter(vm.mmu.pmm.managed, Roots(spaces), shared, calls))
    ensures r.Ok? ==> vm.Used() == old(vm.Used()) && vm.mmu.roots == old(vm.mmu.roots)
    ensures r.Ok? ==> (old(vm.Releasable()) ==> vm.Releasable())
    ensures forall n :: n in Nodes(spaces) ==> n in old(Nodes(spaces)) || fresh(n)
  {
    NodesIn(spaces);
    ghost var sh, managed, roots := shared, vm.mmu.pmm.managed, Roots(spaces);
    ghost var f0, t0, a0 := vm.mmu.pmm.free, vm.mmu.tables, vm.anon.Values;
    ghost var w := Around(vm, spaces);
    rs, states := [], [Held(vm, spaces)];
    var n := 0;
    while n < |calls|
      invariant 0 <= n == |rs| <= |calls| && Good(vm, spaces, sh) && AllCareful(managed, roots, sh, calls[n..])
      invariant Traced(states, calls[..n], rs, w) && states[0] == old(Held(vm, spaces)) && states[n] == Held(vm, spaces)
      invariant SharedAfter(managed, roots, sh, calls[n..]) == SharedAfter(managed, roots, shared, calls)
      invariant vm.Used() == old(vm.Used()) && vm.mmu.roots == old(vm.mmu.roots) && t0 <= vm.mmu.tables
      invariant forall x :: x in Nodes(spaces) ==> x in old(Nodes(spaces)) || fresh(x)
    {
      var call := calls[n];
      NodesIn(spaces);
      assert calls[n..][1..] == calls[n + 1..];
      r := PerformCall(vm, spaces, call, sh);
      if !r.Ok? && !r.Null? {
        return;
      }
      TracedMore(states, calls, rs, w, n, r, Held(vm, spaces));
      sh := sh + Shares(managed, roots[call.space], call.q);
      rs, states, n := rs + [r], states + [Held(vm, spaces)], n + 1;
    }
    OpenAll(vm, spaces, sh);
    StillReleasable(vm, f0, t0, a0);
    assert calls[..n] == calls;
    forall i | 0 <= i < |spaces| ensures View(spaces[i].ranges) == Expected(View(old(spaces[i].ranges)), i, calls, rs) {
      TraceViews(states, calls, rs, w, i);
    }
    r := Ok(0);
  }

  /** One call of a run, seen from the lists of all spaces. */
  method PerformCall(vm: VirtualMemory, spaces: seq<Space>, call: Call, ghost shared: set<(int, int)>)
    returns (r: Result)
    requires Good(vm, spaces, shared) && call.space < |spaces| && Careful(spaces[call.space].root, shared, call.q)
    modifies vm`anon, vm.mmu, vm.mmu.pmm`avail, vm.mmu.pmm`free, vm.mmu.pmm.maps, vm.mmu.pmm.arrays,
             spaces[call.space], spaces[call.space].nodes
    ensures if r.Ok? || r.Null? then Stepped(old(Held(vm, spaces)), call, r, Held(vm, spaces), Around(vm, spaces))
            else Stopped(old(Held(vm, spaces)), call, r, Around(vm, spaces))
    ensures r.Ok? || r.Null? ==>
              Good(vm, spaces, shared + Shares(vm.mmu.pmm.managed, spaces[call.space].root, call.q))
    ensures r.Ok? || r.Null? ==> vm.Used() == old(vm.Used()) && vm.mmu.roots == old(vm.mmu.roots)
    ensures r.Ok? || r.Null? ==> old(vm.mmu.tables) <= vm.mmu.tables
    ensures forall n :: n in Nodes(spaces) ==> n in old(Nodes(spaces)) || fresh(n)
  {
    ghost var x := Held(vm, spaces);
    r := PerformOn(vm, spaces, call.space, call.q, shared);
    StepOrStop(x, call, r, Held(vm, spaces), Around(vm, spaces));
  }
}
