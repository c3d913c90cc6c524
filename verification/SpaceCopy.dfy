/** `vmm_copy_regions` with `mmu_copy_pages`, and `mmu_test_compare_mapping`, the
    kernel's own test of what a correct copy is. */
module SpaceCopy {
  import opened Folding
  import opened Numeric
  import opened RegionSpec
  import opened RegionList
  import opened PageTable
  import opened Coherence
  import opened Mmu
  import opened Vmm

  // ---- copying, on values -------------------------------------------------------------

  /** Space `dst` shows what `src` showed in `l0`, on the addresses that `s` holds, and
      nothing elsewhere; all other spaces are as they were. */
  ghost predicate CopiedOn(l0: Leaves, l: Leaves, dst: int, src: int, s: seq<Range>, start: int, stop: int) {
    forall r, va {:trigger LeafAt(l, r, va)} :: PageVa(va) ==>
      LeafAt(l, r, va) ==
      if r != dst then LeafAt(l0, r, va)
      else if Held(s, va) || start <= va < stop then LeafAt(l0, src, va) else 0
  }

  ghost predicate Held(s: seq<Range>, va: int) {
    exists i :: 0 <= i < |s| && Covers(s[i], va)
  }

  lemma {:induction false} CopiedNothing(l: Leaves, dst: int, src: int)
    requires Coherent(l, dst, [])
    ensures CopiedOn(l, l, dst, src, [], 0, 0)
  {}

  lemma {:induction false} CopiedStart(l0: Leaves, l: Leaves, dst: int, src: int, s: seq<Range>, start: int)
    requires CopiedOn(l0, l, dst, src, s, 0, 0)
    ensures CopiedOn(l0, l, dst, src, s, start, start)
  {}

  lemma {:induction false} CopiedStep(l0: Leaves, l: Leaves, dst: int, src: int, s: seq<Range>, start: int, va: int)
    requires CopiedOn(l0, l, dst, src, s, start, va) && start <= va && PageVa(va) && src != dst
    ensures CopiedOn(l0, Updated(l, dst, PageNo(va), LeafAt(l0, src, va)), dst, src, s, start, va + PAGE)
  {
    var l2 := Updated(l, dst, PageNo(va), LeafAt(l0, src, va));
    forall r, w | PageVa(w)
      ensures LeafAt(l2, r, w) ==
              if r != dst then LeafAt(l0, r, w)
              else if Held(s, w) || start <= w < va + PAGE then LeafAt(l0, src, w) else 0
    {
      if r == dst && PageNo(w) == PageNo(va) {
        PageNoInjective(w, va);
      } else {
        assert LeafAt(l2, r, w) == LeafAt(l, r, w);
        if va < w { AlignedApart(va, w); }
      }
    }
  }

  lemma {:induction false} CopiedRegion(l0: Leaves, l: Leaves, dst: int, src: int, s: seq<Range>, i: nat)
    requires i < |s| && CopiedOn(l0, l, dst, src, s[..i], s[i].start, s[i].stop)
    ensures CopiedOn(l0, l, dst, src, s[..i + 1], 0, 0)
  {}

  /** A finished copy is coherent with the same region list. */
  lemma {:induction false} CopiedCoherent(l0: Leaves, l: Leaves, dst: int, src: int, s: seq<Range>)
    requires Coherent(l0, src, s) && CopiedOn(l0, l, dst, src, s, 0, 0)
    ensures Coherent(l, dst, s)
    ensures forall va :: PageVa(va) ==> LeafAt(l, dst, va) == LeafAt(l0, src, va)
  {}

  /** Adding the regions of a tidy list in order rebuilds the list. */
  lemma {:induction false} RebuiltInOrder(s: seq<Range>, i: nat)
    requires Tidy(s) && i < |s|
    ensures Add(s[..i], s[i]) == Done(s[..i + 1])
  {
    TidySlice(s, 0, i);
    AddIndexAt(s[..i], s[i], i);
    assert s[..i][..i] + [s[i]] + s[..i][i..] == s[..i + 1];
  }

  lemma {:induction false} UnmappedSoFar(l0: Leaves, l: Leaves, dst: int, src: int, s: seq<Range>, i: nat, start: int,
                                         va: int)
    requires Sorted(s) && i < |s| && CopiedOn(l0, l, dst, src, s[..i], start, va) && PageVa(va) && Covers(s[i], va)
    ensures LeafAt(l, dst, va) == 0
  {}

  /** The tables that the pages of a list need. */
  ghost function TablesOf(root: int, s: seq<Range>): set<Slot> {
    if s == [] then {} else TablesOf(root, s[..|s| - 1]) + TablesFor(root, s[|s| - 1])
  }

  lemma {:induction false} TablesStep(root: int, s: seq<Range>, i: nat)
    requires i < |s|
    ensures TablesOf(root, s[..i + 1]) == TablesOf(root, s[..i]) + TablesFor(root, s[i])
  {
    assert s[..i + 1][..i] == s[..i];
  }

  lemma {:induction false} TablesGrow(root: int, s: seq<Range>, i: nat, j: nat)
    requires i <= j <= |s|
    ensures TablesOf(root, s[..i]) <= TablesOf(root, s[..j])
    decreases j - i
  {
    if i < j {
      TablesStep(root, s, i);
      TablesGrow(root, s, i + 1, j);
    }
  }

  // ---- the methods ---------------------------------------------------------------------

  /** One turn of the loop of `mmu_copy_pages`. */
  method CopyPage(vm: VirtualMemory, dst: int, src: int, va: int, flags: int) returns (r: Result)
    requires vm.Valid() && dst in vm.mmu.roots && src in vm.mmu.roots && PageVa(va) && FlagsOk(flags)
    requires Carries(LeafAt(vm.mmu.leaves, src, va), flags) && LeafAt(vm.mmu.leaves, dst, va) == 0
    modifies vm.mmu, vm.mmu.pmm`avail, vm.mmu.pmm`free, vm.mmu.pmm.maps, vm.mmu.pmm.arrays
    ensures r == Ok(va) || r == OutOfMemory
    ensures r.OutOfMemory? ==> LacksTables(old(vm.mmu.pmm.free), old(vm.mmu.at.Keys), Path(dst, va))
    ensures r.Ok? ==> vm.Valid() && vm.Used() == old(vm.Used()) && vm.mmu.roots == old(vm.mmu.roots)
    ensures r.Ok? ==> vm.mmu.at.Keys == old(vm.mmu.at.Keys) + Path(dst, va) && old(vm.mmu.tables) <= vm.mmu.tables
    ensures r.Ok? ==> vm.mmu.leaves == Updated(old(vm.mmu.leaves), dst, PageNo(va), LeafAt(old(vm.mmu.leaves), src, va))
  {
    assert UnfoldRoles(true);
    ghost var l, t, f, p := vm.mmu.leaves, vm.mmu.tables, vm.mmu.pmm.free, vm.mmu.at.Keys;
    vm.mmu.LeavesNonZero();
    vm.mmu.TableCount();
    var pa := vm.mmu.Translate(src, va);
    SameEntry(LeafAt(l, src, va), flags);
    var ok, prior := vm.mmu.MapPage(dst, va, pa, flags);
    vm.mmu.TableCount();
    WalkCost(f, t, p, vm.mmu.pmm.free, vm.mmu.tables, vm.mmu.at.Keys, Path(dst, va), LeafSlot(dst, PageNo(va)), ok);
    if !ok {
      return OutOfMemory;
    }
    if prior != 0 {
      return AlreadyUsed;
    }
    RolesKept(l, t, f, vm.anon, vm.mmu.tables, vm.mmu.pmm.free, dst, PageNo(va), LeafAt(l, src, va));
    r := Ok(va);
  }

  lemma {:induction false} SameEntry(e: int, flags: int)
    requires e % 0x1000 == flags
    ensures PageAligned(PageAddr(e)) && 0 <= flags < PAGE && LeafEntry(PageAddr(e), flags) == e
  {}

  /** What the copy of region `i` of `src` may rely on. */
  ghost predicate Copying(l0: Leaves, src: int, dst: int, s: seq<Range>, i: nat) {
    src != dst && Coherent(l0, src, s) && i < |s|
  }

  /** One turn of that loop, seen from the state `l0` in which the copy began. */
  method CopyNext(vm: VirtualMemory, dst: int, src: int, va: int, flags: int, ghost b: Before, ghost done: set<Slot>,
                  ghost s: seq<Range>, ghost i: nat)
    returns (r: Result)
    requires Copying(b.l, src, dst, s, i) && flags == s[i].flags
    requires vm.Built(b, done + Paths(dst, s[i].start, va)) && dst in vm.mmu.roots && src in vm.mmu.roots
    requires PageVa(va) && Covers(s[i], va) && CopiedOn(b.l, vm.mmu.leaves, dst, src, s[..i], s[i].start, va)
    modifies vm.mmu, vm.mmu.pmm`avail, vm.mmu.pmm`free, vm.mmu.pmm.maps, vm.mmu.pmm.arrays
    ensures r == Ok(va) || r == OutOfMemory
    ensures r.OutOfMemory? ==> LacksTables(b.f, b.p, done + TablesFor(dst, s[i]))
    ensures r.Ok? ==> vm.Built(b, done + Paths(dst, s[i].start, va + PAGE)) && vm.mmu.roots == old(vm.mmu.roots)
    ensures r.Ok? ==> CopiedOn(b.l, vm.mmu.leaves, dst, src, s[..i], s[i].start, va + PAGE)
    ensures va + PAGE <= s[i].stop && PageAligned(va + PAGE)
  {
    ghost var l, all := vm.mmu.leaves, done + TablesFor(dst, s[i]);
    assert PlacedOk(s[i]);
    AlignedApart(va, s[i].stop);
    HeldIsMapped(b.l, src, s, i, va);
    PathsNext(done, dst, s[i].start, va);
    PathsNext(b.p + done, dst, s[i].start, va);
    UnmappedSoFar(b.l, l, dst, src, s, i, s[i].start, va);
    assert LeafAt(l, src, va) == LeafAt(b.l, src, va);
    ShortOfTables(vm, b, done, dst, s[i], va);
    r := CopyPage(vm, dst, src, va, flags);
    if r.Ok? {
      CopiedStep(b.l, l, dst, src, s[..i], s[i].start, va);
    }
  }

  lemma {:induction false} ShortOfTables(vm: VirtualMemory, b: Before, done: set<Slot>, root: int, r: Range, va: int)
    requires r.start <= va && PageVa(va) && va + PAGE <= r.stop && vm.Built(b, done + Paths(root, r.start, va))
    ensures LacksTables(vm.mmu.pmm.free, vm.mmu.at.Keys, Path(root, va)) ==>
              LacksTables(b.f, b.p, done + TablesFor(root, r))
  {
    if LacksTables(vm.mmu.pmm.free, vm.mmu.at.Keys, Path(root, va)) {
      vm.BuiltTooFew(b, done + Paths(root, r.start, va), Path(root, va));
      PathsNext(done, root, r.start, va);
      assert Paths(root, r.start, va + PAGE) <= Paths(root, r.start, r.stop);
      LacksMore(b.f, b.p, done + Paths(root, r.start, va + PAGE), done + TablesFor(root, r));
    }
  }

  /** `mmu_copy_pages` for region `i` of the source. */
  method CopyPages(vm: VirtualMemory, dst: int, src: int, region: Range, ghost b: Before, ghost s: seq<Range>,
                   ghost i: nat)
    returns (r: Result)
    requires Copying(b.l, src, dst, s, i) && region == s[i] && dst in vm.mmu.roots && src in vm.mmu.roots
    requires vm.Built(b, TablesOf(dst, s[..i])) && CopiedOn(b.l, vm.mmu.leaves, dst, src, s[..i], 0, 0)
    modifies vm.mmu, vm.mmu.pmm`avail, vm.mmu.pmm`free, vm.mmu.pmm.maps, vm.mmu.pmm.arrays
    ensures r.Ok? || r == OutOfMemory
    ensures r.OutOfMemory? ==> LacksTables(b.f, b.p, TablesOf(dst, s[..i + 1]))
    ensures r.Ok? ==> vm.Built(b, TablesOf(dst, s[..i + 1])) && vm.mmu.roots == old(vm.mmu.roots)
    ensures r.Ok? ==> CopiedOn(b.l, vm.mmu.leaves, dst, src, s[..i + 1], 0, 0)
  {
    ghost var done := TablesOf(dst, s[..i]);
    assert PlacedOk(s[i]);
    CopiedStart(b.l, vm.mmu.leaves, dst, src, s[..i], s[i].start);
    TablesStep(dst, s, i);
    assert done + Paths(dst, s[i].start, s[i].start) == done;
    var va := region.start;
    while va < region.stop
      invariant region.start <= va <= region.stop && PageAligned(va)
      invariant vm.Built(b, done + Paths(dst, s[i].start, va)) && vm.mmu.roots == old(vm.mmu.roots)
      invariant CopiedOn(b.l, vm.mmu.leaves, dst, src, s[..i], s[i].start, va)
    {
      r := CopyNext(vm, dst, src, va, region.flags, b, done, s, i);
      if !r.Ok? {
        return;
      }
      va := va + PAGE;
    }
    CopiedRegion(b.l, vm.mmu.leaves, dst, src, s, i);
    r := Ok(region.start);
  }

  /** The `vmm_add_range` of that loop: the next region goes to the end of the copy. */
  method AddNext(dst: Space, src: Space, x: Region, ghost i: nat) returns (region: Range, next: Region?)
    requires src.Linked() && dst.Linked() && Apart(dst, src) && Tidy(src.ranges)
    requires i < |src.nodes| == |src.ranges| && x == src.nodes[i] && dst.ranges == src.ranges[..i]
    modifies dst, dst.nodes
    ensures dst.Linked() && dst.ranges == src.ranges[..i + 1] && Apart(dst, src)
    ensures src.Linked() && unchanged(src) && region == src.ranges[i] && next == At(src.nodes, i + 1)
    ensures forall n :: n in dst.nodes ==> n in old(dst.nodes) || fresh(n)
  {
    region, next := src.Visit(x, i);
    RebuiltInOrder(src.ranges, i);
    assert forall n :: n in src.nodes ==> n !in dst.nodes;
    var y := dst.AddRange(region);
    StaysLinked(src);
  }

  /** One turn of the loop of `vmm_copy_regions`. */
  method CopyRegion(vm: VirtualMemory, dst: Space, src: Space, x: Region, ghost b: Before, ghost i: nat)
    returns (r: Result, next: Region?)
    requires src.Linked() && src.root in vm.mmu.roots && dst.root in vm.mmu.roots && Apart(dst, src)
    requires Copying(b.l, src.root, dst.root, src.ranges, i) && |src.nodes| == |src.ranges| && x == src.nodes[i]
    requires vm.Built(b, TablesOf(dst.root, src.ranges[..i])) && dst.Linked() && dst.ranges == src.ranges[..i]
    requires CopiedOn(b.l, vm.mmu.leaves, dst.root, src.root, src.ranges[..i], 0, 0)
    modifies vm.mmu, vm.mmu.pmm`avail, vm.mmu.pmm`free, vm.mmu.pmm.maps, vm.mmu.pmm.arrays, dst, dst.nodes
    ensures r.Ok? || r == OutOfMemory
    ensures r.OutOfMemory? ==> LacksTables(b.f, b.p, TablesOf(dst.root, src.ranges[..i + 1]))
    ensures r.Ok? ==> vm.Built(b, TablesOf(dst.root, src.ranges[..i + 1])) && vm.mmu.roots == old(vm.mmu.roots)
    ensures r.Ok? ==> dst.Linked() && dst.ranges == src.ranges[..i + 1] && Apart(dst, src)
    ensures r.Ok? ==> CopiedOn(b.l, vm.mmu.leaves, dst.root, src.root, src.ranges[..i + 1], 0, 0)
    ensures src.Linked() && unchanged(src) && next == At(src.nodes, i + 1)
    ensures forall n :: n in dst.nodes ==> n in old(dst.nodes) || fresh(n)
  {
    var region;
    region, next := AddNext(dst, src, x, i);
    r := CopyPagesOf(vm, dst, src, region, b, i);
  }

  /** `mmu_copy_pages` leaves both lists alone. */
  method CopyPagesOf(vm: VirtualMemory, dst: Space, src: Space, region: Range, ghost b: Before, ghost i: nat)
    returns (r: Result)
    requires Copying(b.l, src.root, dst.root, src.ranges, i) && region == src.ranges[i]
    requires src.Linked() && dst.Linked() && src.root in vm.mmu.roots && dst.root in vm.mmu.roots
    requires vm.Built(b, TablesOf(dst.root, src.ranges[..i]))
    requires CopiedOn(b.l, vm.mmu.leaves, dst.root, src.root, src.ranges[..i], 0, 0)
    modifies vm.mmu, vm.mmu.pmm`avail, vm.mmu.pmm`free, vm.mmu.pmm.maps, vm.mmu.pmm.arrays
    ensures r.Ok? || r == OutOfMemory
    ensures r.OutOfMemory? ==> LacksTables(b.f, b.p, TablesOf(dst.root, src.ranges[..i + 1]))
    ensures r.Ok? ==> vm.Built(b, TablesOf(dst.root, src.ranges[..i + 1])) && vm.mmu.roots == old(vm.mmu.roots)
    ensures r.Ok? ==> CopiedOn(b.l, vm.mmu.leaves, dst.root, src.root, src.ranges[..i + 1], 0, 0)
    ensures src.Linked() && dst.Linked()
  {
    r := CopyPages(vm, dst.root, src.root, region, b, src.ranges, i);
  }

  /** The loop of `vmm_copy_regions`. */
  method CopyAll(vm: VirtualMemory, dst: Space, src: Space, first: Region?, ghost b: Before) returns (r: Result)
    requires first == At(src.nodes, 0) && |src.nodes| == |src.ranges| && src.root in vm.mmu.roots
    requires vm.Built(b, {}) && Coherent(b.l, src.root, src.ranges) && src.Linked()
    requires dst.Linked() && dst.ranges == [] && dst.root in vm.mmu.roots && src.root != dst.root && Apart(dst, src)
    requires CopiedOn(b.l, vm.mmu.leaves, dst.root, src.root, [], 0, 0)
    modifies vm.mmu, vm.mmu.pmm`avail, vm.mmu.pmm`free, vm.mmu.pmm.maps, vm.mmu.pmm.arrays, dst, dst.nodes
    ensures r.Ok? || r == OutOfMemory
    ensures r.OutOfMemory? ==> LacksTables(b.f, b.p, TablesOf(dst.root, old(src.ranges)))
    ensures r.Ok? ==> vm.Built(b, TablesOf(dst.root, src.ranges)) && vm.mmu.roots == old(vm.mmu.roots)
    ensures r.Ok? ==> src.Linked() && dst.Linked() && dst.ranges == src.ranges == old(src.ranges)
    ensures r.Ok? ==> CopiedOn(b.l, vm.mmu.leaves, dst.root, src.root, src.ranges, 0, 0)
    ensures forall n :: n in dst.nodes ==> n in old(dst.nodes) || fresh(n)
  {
    ghost var s, k := src.ranges, 0;
    assert s[..0] == [] && s[..|s|] == s;
    var region := first;
    while region != null
      invariant k <= |src.nodes| == |s| && region == At(src.nodes, k)
      invariant src.Linked() && src.ranges == s && src.nodes == old(src.nodes)
      invariant vm.Built(b, TablesOf(dst.root, s[..k])) && vm.mmu.roots == old(vm.mmu.roots)
      invariant dst.Linked() && dst.ranges == s[..k] && Apart(dst, src)
      invariant forall n :: n in dst.nodes ==> n in old(dst.nodes) || fresh(n)
      invariant CopiedOn(b.l, vm.mmu.leaves, dst.root, src.root, s[..k], 0, 0)
      decreases |src.nodes| - k
    {
      assert forall j :: 0 <= j < |dst.nodes| ==> dst.nodes[j] in old(dst.nodes) || fresh(dst.nodes[j]);
      r, region := CopyRegion(vm, dst, src, region, b, k);
      if !r.Ok? {
        TablesGrow(dst.root, s, k + 1, |s|);
        LacksMore(b.f, b.p, TablesOf(dst.root, s[..k + 1]), TablesOf(dst.root, s));
        return;
      }
      k := k + 1;
    }
    r := Ok(0);
  }

  /** `vmm_copy_regions` into an empty space: it panics exactly when there are fewer free
      frames than the copy needs tables, and the copy is indistinguishable from its source. */
  method CopyRegions(vm: VirtualMemory, dst: Space, src: Space) returns (r: Result)
    requires vm.Valid() && vm.Agrees(src) && vm.Agrees(dst) && dst.ranges == [] && src.root != dst.root
             && Apart(dst, src)
    modifies vm.mmu, vm.mmu.pmm`avail, vm.mmu.pmm`free, vm.mmu.pmm.maps, vm.mmu.pmm.arrays, dst, dst.nodes
    ensures r.Ok? || r == OutOfMemory
    ensures r.Ok? <==> !LacksTables(old(vm.mmu.pmm.free), old(vm.mmu.at.Keys), TablesOf(dst.root, old(src.ranges)))
    ensures r.Ok? ==> vm.Valid() && vm.Used() == old(vm.Used()) && vm.Agrees(dst) && vm.Agrees(src)
    ensures r.Ok? ==> dst.ranges == src.ranges == old(src.ranges) && vm.mmu.roots == old(vm.mmu.roots)
    ensures r.Ok? ==> Elsewhere(old(vm.mmu.leaves), vm.mmu.leaves, dst.root) && old(vm.mmu.tables) <= vm.mmu.tables
    ensures forall n :: n in dst.nodes ==> n in old(dst.nodes) || fresh(n)
    ensures r.Ok? ==> forall va :: PageVa(va) ==>
              LeafAt(vm.mmu.leaves, dst.root, va) == LeafAt(vm.mmu.leaves, src.root, va) ==
              LeafAt(old(vm.mmu.leaves), src.root, va)
  {
    assert UnfoldRoles(true);
    ghost var b := Before(vm.mmu.leaves, vm.anon, vm.mmu.pmm.free, vm.mmu.tables, vm.mmu.at.Keys);
    ghost var s := src.ranges;
    CopiedNothing(b.l, dst.root, src.root);
    vm.BuiltNothing(b);
    var first := src.First();
    r := CopyAll(vm, dst, src, first, b);
    if r.Ok? {
      vm.BuiltEnough(b, TablesOf(dst.root, s));
      CopiedCoherent(b.l, vm.mmu.leaves, dst.root, src.root, s);
      SourceKept(b.l, vm.mmu.leaves, dst.root, src.root, s);
    }
  }

  lemma {:induction false} SourceKept(l0: Leaves, l: Leaves, dst: int, src: int, s: seq<Range>)
    requires Coherent(l0, src, s) && src != dst && CopiedOn(l0, l, dst, src, s, 0, 0)
    ensures Coherent(l, src, s)
    ensures forall va :: PageVa(va) ==> LeafAt(l, src, va) == LeafAt(l0, src, va)
  {}

  // ---- the kernel's own comparison -----------------------------------------------------

  /** What `mmu_test_compare_mapping` accepts. */
  ghost predicate SameMapping(mmu: PageTables, a: Space, b: Space)
    reads mmu, a, b
  {
    && a.ranges == b.ranges
    && forall i :: 0 <= i < |a.ranges| ==> SameOn(mmu, a.root, b.root, a.ranges[i].start, a.ranges[i].stop)
  }

  ghost predicate SameOn(mmu: PageTables, a: int, b: int, start: int, stop: int)
    reads mmu
  {
    forall va :: PageVa(va) && start <= va < stop ==> mmu.TranslationOf(a, va) == mmu.TranslationOf(b, va)
  }

  /** The inner loop of the comparison. */
  method ComparePages(mmu: PageTables, a: int, b: int, region: Range) returns (ok: bool)
    requires mmu.Shape() && a in mmu.roots && b in mmu.roots && PlacedOk(region)
    ensures ok <==> SameOn(mmu, a, b, region.start, region.stop)
  {
    var va := region.start;
    while va < region.stop
      invariant region.start <= va && PageAligned(va) && (va <= region.stop || region.stop < region.start)
      invariant SameOn(mmu, a, b, region.start, va)
    {
      AlignedApart(va, region.stop);
      var pa1 := mmu.Translate(a, va);
      var pa2 := mmu.Translate(b, va);
      if pa1 != pa2 {
        return false;
      }
      SameOnStep(mmu, a, b, region.start, va);
      va := va + PAGE;
    }
    ok := true;
  }

  lemma {:induction false} SameOnStep(mmu: PageTables, a: int, b: int, start: int, va: int)
    requires PageVa(va) && SameOn(mmu, a, b, start, va) && mmu.TranslationOf(a, va) == mmu.TranslationOf(b, va)
    ensures SameOn(mmu, a, b, start, va + PAGE)
  {}

  /** `mmu_test_compare_mapping`; false stands for a panic. */
  method CompareMapping(mmu: PageTables, a: Space, b: Space) returns (ok: bool)
    requires mmu.Shape() && a.Linked() && b.Linked() && AllPlaced(a.ranges) && AllPlaced(b.ranges)
    requires a.root in mmu.roots && b.root in mmu.roots
    ensures ok <==> SameMapping(mmu, a, b)
  {
    var r1, r2 := null, null;
    r1 := a.First();
    r2 := b.First();
    ghost var k := 0;
    while r1 != null && r2 != null
      invariant k <= |a.nodes| == |a.ranges| && k <= |b.nodes| == |b.ranges|
      invariant r1 == At(a.nodes, k) && r2 == At(b.nodes, k) && SameSoFar(mmu, a, b, k)
      decreases |a.nodes| - k
    {
      var same;
      same, r1, r2 := CompareRegion(mmu, a, b, r1, r2, k);
      if !same {
        return false;
      }
      k := k + 1;
    }
    ok := r1 == null && r2 == null;
    if ok {
      assert a.ranges[..k] == a.ranges && b.ranges[..k] == b.ranges;
    }
  }

  /** The comparison has not failed on the first `k` regions. */
  ghost predicate SameSoFar(mmu: PageTables, a: Space, b: Space, k: nat)
    reads mmu, a, b
  {
    && k <= |a.ranges| && k <= |b.ranges| && a.ranges[..k] == b.ranges[..k]
    && forall i :: 0 <= i < k ==> SameOn(mmu, a.root, b.root, a.ranges[i].start, a.ranges[i].stop)
  }

  /** One turn of the outer loop of the comparison. */
  method CompareRegion(mmu: PageTables, a: Space, b: Space, r1: Region, r2: Region, ghost k: nat)
    returns (same: bool, n1: Region?, n2: Region?)
    requires mmu.Shape() && a.Linked() && b.Linked() && AllPlaced(a.ranges) && AllPlaced(b.ranges)
    requires a.root in mmu.roots && b.root in mmu.roots && SameSoFar(mmu, a, b, k)
    requires k < |a.nodes| == |a.ranges| && k < |b.nodes| == |b.ranges| && r1 == a.nodes[k] && r2 == b.nodes[k]
    ensures same ==> SameSoFar(mmu, a, b, k + 1) && n1 == At(a.nodes, k + 1) && n2 == At(b.nodes, k + 1)
    ensures !same ==> !SameMapping(mmu, a, b)
  {
    var v1, v2;
    v1, n1 := a.Visit(r1, k);
    v2, n2 := b.Visit(r2, k);
    assert PlacedOk(a.ranges[k]);
    if v1.start != v2.start || v1.stop != v2.stop || v1.flags != v2.flags {
      return false, n1, n2;
    }
    same := ComparePages(mmu, a.root, b.root, v1);
  }

  /** A copy made by `vmm_copy_regions` is accepted. */
  lemma {:induction false} CopyAccepted(vm: VirtualMemory, dst: Space, src: Space)
    requires vm.Valid() && vm.Agrees(dst) && vm.Agrees(src) && dst.ranges == src.ranges
    requires forall va :: PageVa(va) ==> LeafAt(vm.mmu.leaves, dst.root, va) == LeafAt(vm.mmu.leaves, src.root, va)
    ensures SameMapping(vm.mmu, src, dst)
  {
    assert UnfoldRoles(true);
    var s := src.ranges;
    forall i, va | 0 <= i < |s| && PageVa(va) && s[i].start <= va < s[i].stop
      ensures vm.mmu.TranslationOf(src.root, va) == vm.mmu.TranslationOf(dst.root, va)
    {
      HeldIsMapped(vm.mmu.leaves, src.root, s, i, va);
      assert LeafAt(vm.mmu.leaves, dst.root, va) == LeafAt(vm.mmu.leaves, src.root, va);
      vm.mmu.LeafHasTables(src.root, va);
      vm.mmu.LeafHasTables(dst.root, va);
    }
  }
}
