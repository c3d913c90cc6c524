/** The kernel heap on top of the virtual memory manager: containers are regions of the
    kernel's space of their own, so what the heap asks of the VMM is what the VMM delivers,
    and handing a container back never panics. */
module HeapOnVmm {
  import opened Folding
  import opened Numeric
  import opened Sequences
  import opened RegionSpec
  import opened RegionList
  import opened FirstFit
  import opened PageTable
  import opened Coherence
  import opened Vmm
  import opened Requests
  import opened Runs
  import opened KheapSpec
  import opened Kheap
  import Heaps = KheapRuns

  const FLAGS: int := 0x103    // PAGE_KERNEL_RW

  ghost function RangeOf(c: Container): Range {
    Range(c.addr, c.Stop(), FLAGS)
  }

  /** Every container is a region by itself, made of anonymous pages. */
  ghost predicate Backed(s: seq<Range>, an: Anon, root: int, h: seq<Container>) {
    forall k :: 0 <= k < |h| ==> RangeOf(h[k]) in s && PageKeys(root, h[k].addr, h[k].Stop()) <= an.Keys
  }

  /** All regions lie in the higher half, as those of the kernel's space do. */
  ghost predicate High(s: seq<Range>) {
    forall i :: 0 <= i < |s| ==> HIGHER_START <= s[i].start
  }

  /** Bounds for the heap: any in the higher half. */
  predicate HeapBounds(lower: int, upper: int) {
    PageAligned(lower) && HIGHER_START <= lower < U64 - PAGE && lower <= upper < U64
  }

  /** The invariant of a heap in its space. */
  ghost predicate Ready(heap: KernelHeap, vm: VirtualMemory, space: Space, shared: set<(int, int)>)
    reads heap, vm, vm.mmu, vm.mmu.pmm, vm.mmu.pmm.maps, vm.mmu.pmm.arrays, space, space.nodes
  {
    forall u {:trigger UnfoldHeap(u)} :: UnfoldHeap(u) ==>
      && heap.Valid() && Sound(vm, space, shared) && vm.Releasable() && High(space.ranges)
      && Backed(space.ranges, vm.anon, space.root, heap.model)
  }

  /** The pages of a container are mapped for the kernel, to read and write. */
  lemma {:induction false} ContainerMapped(heap: KernelHeap, vm: VirtualMemory, space: Space, shared: set<(int, int)>,
                                           k: nat, va: int)
    requires Ready(heap, vm, space, shared) && k < |heap.model| && PageVa(va)
    requires heap.model[k].addr <= va < heap.model[k].addr + heap.model[k].pages * 0x1000
    ensures ForKernel(LeafAt(vm.mmu.leaves, space.root, va), true)
  {
    ReadyParts(heap, vm, space, shared);
    Opened(vm, space);
    HeldForKernel(vm.mmu.leaves, space.root, space.ranges, RangeOf(heap.model[k]), va);
  }

  lemma {:induction false} ReadyParts(heap: KernelHeap, vm: VirtualMemory, space: Space, shared: set<(int, int)>)
    requires Ready(heap, vm, space, shared)
    ensures heap.Valid() && Sound(vm, space, shared) && vm.Releasable() && High(space.ranges)
    ensures Backed(space.ranges, vm.anon, space.root, heap.model)
  {
    assert UnfoldHeap(true);
  }

  lemma {:induction false} ReadyAgain(heap: KernelHeap, vm: VirtualMemory, space: Space, shared: set<(int, int)>)
    requires heap.Valid() && Sound(vm, space, shared) && vm.Releasable() && High(space.ranges)
    requires Backed(space.ranges, vm.anon, space.root, heap.model)
    ensures Ready(heap, vm, space, shared)
  {}

  lemma {:induction false} HeldForKernel(l: Leaves, root: int, s: seq<Range>, r: Range, va: int)
    requires Coherent(l, root, s) && r in s && r.flags == FLAGS && r.start <= va < r.stop && PageVa(va)
    ensures ForKernel(LeafAt(l, root, va), true)
  {
    var e := LeafAt(l, root, va);
    var i :| 0 <= i < |s| && s[i] == r;
    HeldIsMapped(l, root, s, i, va);
    FlagsDecide(e - e % 0x1000, e % 0x1000);
  }

  // ---- a new container ------------------------------------------------------------------------

  /** The pages `create_container` asks the VMM for. */
  function Asked(size: int): (n: nat)
    requires size >= 0
  {
    Max(MIN_PAGES, Wanted(size))
  }

  /** What `vmm_alloc_between` finds for them. */
  ghost function Offer(s: seq<Range>, lower: int, upper: int, size: int): Placement
    requires size >= 0
  {
    FirstFit.AllocBetween(s, lower, upper, Asked(size), FLAGS)
  }

  /** Thanks to the guard pages a placed request becomes a region of its own. */
  lemma {:induction false} PlacedInserted(s: seq<Range>, t: seq<Range>, lower: int, upper: int, pages: nat, flags: int)
    requires Tidy(s) && AllPlaced(s) && Searchable(s, lower, upper, pages, flags)
    requires var p := FirstFit.AllocBetween(s, lower, upper, pages, flags); p.Placed? && Grew(s, t, p.r)
    ensures var p := FirstFit.AllocBetween(s, lower, upper, pages, flags); p.at <= |s| && t == InsertedAt(s, p.at, p.r)
  {
    assert UnfoldChanges(true);
    PlaceFits(s, lower, upper, pages, flags);
    var p := FirstFit.AllocBetween(s, lower, upper, pages, flags);
    InsertedAlone(s, t, p.at, p.r);
  }

  lemma {:induction false} InsertedAlone(s: seq<Range>, t: seq<Range>, k: nat, r: Range)
    requires Tidy(s) && Tidy(t) && View(t) == View(s) + Cells(r) && k <= |s| && r.start < r.stop
    requires !Collides(s, k, r) && !JoinsPrev(s, k, r) && !JoinsNext(s, k, r)
    ensures t == InsertedAt(s, k, r)
  {
    InsertCorrect(s, k, r);
    TidyUnique(t, Spliced(s, k, r));
    SplicedCases(s, k, r);
  }

  /** What the VMM delivers is what the heap asks for. */
  lemma {:induction false} DeliversGrant(s: seq<Range>, an: Anon, root: int, h: seq<Container>, lower: int,
                                         upper: int, size: int)
    requires KheapSpec.Inv(h) && Backed(s, an, root, h) && Tidy(s) && AllPlaced(s) && High(s)
    requires size >= 0 && HeapBounds(lower, upper) && Offer(s, lower, upper, size).Placed?
    ensures var q := Offer(s, lower, upper, size).r;
            && q.start > 0 && Heaps.GrantOk(h, q.start, PagesFor(size))
            && q == RangeOf(NewContainer(q.start, PagesFor(size)))
  {
    var p := Offer(s, lower, upper, size);
    PlacedHigh(s, lower, upper, Asked(size), FLAGS);
    PlaceFits(s, lower, upper, Asked(size), FLAGS);
    forall k | 0 <= k < |h| ensures p.r.stop <= h[k].addr || h[k].Stop() <= p.r.start {
      assert WellFormed(h[k]) && RangeOf(h[k]) in s;
      var i :| 0 <= i < |s| && s[i] == RangeOf(h[k]);
      NotBetween(s, p.at, p.r, i);
    }
  }

  lemma {:induction false} NotBetween(s: seq<Range>, k: nat, r: Range, i: nat)
    requires Sorted(s) && k <= |s| && i < |s| && !Collides(s, k, r)
    ensures if i < k then s[i].stop <= r.start else r.stop <= s[i].start
  {}

  /** In the higher half a request is placed in the higher half; it does not wrap around to
      address 0. */
  lemma {:induction false} PlacedHigh(s: seq<Range>, lower: int, upper: int, pages: nat, flags: int)
    requires Tidy(s) && AllPlaced(s) && High(s) && HeapBounds(lower, upper) && FlagsOk(flags)
    ensures Searchable(s, lower, upper, pages, flags)
    ensures var p := FirstFit.AllocBetween(s, lower, upper, pages, flags); p.Placed? ==> HIGHER_START <= p.r.start
  {}

  lemma {:induction false} HighGrown(s: seq<Range>, t: seq<Range>, r: Range)
    requires High(s) && Grew(s, t, r) && HIGHER_START <= r.start
    ensures High(t)
  {
    assert UnfoldChanges(true);
    forall i | 0 <= i < |t| ensures HIGHER_START <= t[i].start {
      assert (t[i].start, t[i].flags) in View(t);
      if (t[i].start, t[i].flags) in View(s) { var j := HasByIndex(s, t[i].start, t[i].flags); }
    }
  }

  lemma {:induction false} HighShrunk(s: seq<Range>, i: nat)
    requires High(s) && i < |s|
    ensures High(RemovedAt(s, i))
  {}

  lemma {:induction false} BackedGrown(s: seq<Range>, an: Anon, root: int, h: seq<Container>, k: nat, r: Range,
                                       an': Anon)
    requires Backed(s, an, root, h) && k <= |s| && an.Keys <= an'.Keys
    ensures Backed(InsertedAt(s, k, r), an', root, h) && r in InsertedAt(s, k, r)
  {
    var t := InsertedAt(s, k, r);
    assert t[k] == r;
    forall q | q in s ensures q in t {
      var i :| 0 <= i < |s| && s[i] == q;
      assert t[if i < k then i else i + 1] == q;
    }
  }

  /** The `vmm_alloc_between` of `create_container`: each outcome exactly when the offer and
      the free frames say so. */
  method Grant(vm: VirtualMemory, space: Space, lower: int, upper: int, size: int, ghost h: seq<Container>,
               ghost shared: set<(int, int)>)
    returns (r: Result)
    requires Sound(vm, space, shared) && vm.Releasable() && High(space.ranges) && size >= 0 && HeapBounds(lower, upper)
    requires KheapSpec.Inv(h) && Backed(space.ranges, vm.anon, space.root, h)
    modifies vm`anon, vm.mmu, vm.mmu.pmm`avail, vm.mmu.pmm`free, vm.mmu.pmm.maps, vm.mmu.pmm.arrays, space, space.nodes
    ensures var offer := Offer(old(space.ranges), lower, upper, size);
            Follows(r, offer, old(vm.mmu.pmm.free), old(vm.mmu.at.Keys), space.root)
    ensures r.Ok? || r.Null? ==>
              Sound(vm, space, shared) && High(space.ranges) && Backed(space.ranges, vm.anon, space.root, h)
    ensures r.Ok? ==> Gained(old(space.ranges), space.ranges, Offer(old(space.ranges), lower, upper, size).r)
    ensures r.Null? ==> space.ranges == old(space.ranges)
    ensures CarriedOut(Between(lower, upper, Asked(size), FLAGS), old(space.ranges), space.ranges, old(vm.Now()),
                       vm.Now(), r, space.root, vm.mmu.pmm.managed)
    ensures r.Ok? || r.Null? ==> Quiet(old(vm.Used()), old(vm.mmu.roots), old(vm.mmu.tables), vm)
    ensures r.Ok? || r.Null? ==> Aside(old(vm.mmu.leaves), old(vm.anon), vm.mmu.leaves, vm.anon, space.root)
    ensures r.Ok? ==>
              && r.va > 0 && Heaps.GrantOk(h, r.va, PagesFor(size))
              && Backed(space.ranges, vm.anon, space.root, [NewContainer(r.va, PagesFor(size))] + h)
    ensures forall n :: n in space.nodes ==> n in old(space.nodes) || fresh(n)
  {
    assert UnfoldChanges(true);
    ghost var s, b, p := space.ranges, vm.Now(), Offer(space.ranges, lower, upper, size);
    Opened(vm, space);
    vm.SoundNow(b);
    PlacedHigh(s, lower, upper, Asked(size), FLAGS);
    r := vm.AllocBetween(space, lower, upper, Asked(size), FLAGS);
    if r.Ok? {
      HighGrown(s, space.ranges, p.r);
      GrantBacked(s, space.ranges, b.an, vm.anon, space.root, h, lower, upper, size);
      AfterFill(vm, b, shared, space.root, s, space.ranges, p.r);
    }
    BetweenCarried(lower, upper, Asked(size), FLAGS, s, space.ranges, b, vm.Now(), r, space.root, vm.mmu.pmm.managed);
  }

  /** The outcome of the allocation that a placement leads to. */
  ghost predicate Follows(r: Result, p: Placement, free: set<int>, places: set<Slot>, root: int) {
    match p
    case NoPlace => r == Null
    case Overlapping => r == Overlaps
    case Inverted(q, _) => r == Backwards(q.start)
    case Placed(q, _) => r == if Lacks(free, places, root, q) then OutOfMemory else Ok(q.start)
  }

  /** No frame got lost, no table freed, and `pmm_free` would take back all the others. */
  ghost predicate Quiet(used: set<int>, roots: set<int>, tables: set<int>, vm: VirtualMemory)
    reads vm, vm.mmu, vm.mmu.pmm
  {
    vm.Used() == used && vm.mmu.roots == roots && tables <= vm.mmu.tables
  }

  /** Nothing happened to the pages of other spaces. */
  ghost predicate Aside(l0: Leaves, an0: Anon, l: Leaves, an: Anon, root: int) {
    Elsewhere(l0, l, root) && AnonElsewhere(an0, an, root)
  }

  lemma {:induction false} GrantBacked(s: seq<Range>, t: seq<Range>, an: Anon, an': Anon, root: int,
                                       h: seq<Container>, lower: int, upper: int, size: int)
    requires Tidy(s) && AllPlaced(s) && High(s) && size >= 0 && HeapBounds(lower, upper)
    requires Offer(s, lower, upper, size).Placed?
    requires KheapSpec.Inv(h) && Backed(s, an, root, h) && Grew(s, t, Offer(s, lower, upper, size).r)
    requires var q := Offer(s, lower, upper, size).r;
             PageKeys(root, q.start, q.stop) <= an'.Keys && an' - PageKeys(root, q.start, q.stop) == an
    ensures var a := Offer(s, lower, upper, size).r.start;
            && a > 0 && Heaps.GrantOk(h, a, PagesFor(size))
            && Backed(t, an', root, h) && Backed(t, an', root, [NewContainer(a, PagesFor(size))] + h)
  {
    var p := Offer(s, lower, upper, size);
    PlacedHigh(s, lower, upper, Asked(size), FLAGS);
    PlacedInserted(s, t, lower, upper, Asked(size), FLAGS);
    DeliversGrant(s, an, root, h, lower, upper, size);
    assert an.Keys <= an'.Keys;
    BackedGrown(s, an, root, h, p.at, p.r, an');
  }

  lemma {:induction false} BackedAlike(s: seq<Range>, an: Anon, root: int, h: seq<Container>, g: seq<Container>)
    requires Backed(s, an, root, h) && |g| == |h|
    requires forall k :: 0 <= k < |h| ==> g[k].addr == h[k].addr && g[k].pages == h[k].pages
    ensures Backed(s, an, root, g)
  {
    forall k | 0 <= k < |g| ensures RangeOf(g[k]) in s && PageKeys(root, g[k].addr, g[k].Stop()) <= an.Keys {
      assert RangeOf(h[k]) in s && RangeOf(g[k]) == RangeOf(h[k]);
    }
  }

  /** `kmalloc`, with the VMM called when no container has room: every outcome exactly when
      the heap, the offer of the VMM and the free frames say so. `r` is not `Ok` when the VMM
      panics, or when it returns an address that is not mapped. */
  method Kmalloc(heap: KernelHeap, vm: VirtualMemory, space: Space, lower: int, upper: int, size: int,
                 ghost shared: set<(int, int)>)
    returns (ans: Heaps.Answer, r: Result, ghost grant: Option<int>)
    requires Ready(heap, vm, space, shared) && 0 <= size < U64 && HeapBounds(lower, upper)
    modifies heap, vm`anon, vm.mmu, vm.mmu.pmm`avail, vm.mmu.pmm`free, vm.mmu.pmm.maps, vm.mmu.pmm.arrays, space,
             space.nodes
    ensures r.Ok? ==> Ready(heap, vm, space, shared)
    ensures r.Ok? ==> (heap.model, ans) == Heaps.Kmalloc(old(heap.model), size, grant)
    ensures r.Ok? && grant.Some? ==> Heaps.GrantOk(old(heap.model), grant.value, PagesFor(size))
    ensures r.Ok? ==>
              Granted(old(space.ranges), space.ranges, Offer(old(space.ranges), lower, upper, size), grant)
    ensures !Heaps.NoRoom(old(heap.model), size) || !r.Ok? ==> grant.None?
    ensures Delivered(old(heap.model), size, lower, upper, old(space.ranges), space.ranges, old(vm.Now()), vm.Now(),
                      grant, r, space.root, vm.mmu.pmm.managed)
    ensures var offer := Offer(old(space.ranges), lower, upper, size);
            Outcome(old(heap.model), size, ans, r, offer, old(vm.mmu.pmm.free), old(vm.mmu.at.Keys), space.root)
    ensures r.Ok? ==> Quiet(old(vm.Used()), old(vm.mmu.roots), old(vm.mmu.tables), vm)
    ensures r.Ok? ==> Aside(old(vm.mmu.leaves), old(vm.anon), vm.mmu.leaves, vm.anon, space.root)
    ensures forall n :: n in space.nodes ==> n in old(space.nodes) || fresh(n)
  {
    var b := TryFirst(heap, vm, space, size, shared);
    if b != 0 {
      return Heaps.Got(b + HEADER), Ok(0), None;
    }
    ans, r, grant := Grow(heap, vm, space, lower, upper, size, shared);
  }

  /** What was granted is what was offered, and the list gained exactly that; or nothing was
      granted, and the list is as before. */
  ghost predicate Granted(s: seq<Range>, t: seq<Range>, offer: Placement, grant: Option<int>) {
    match grant
    case None => t == s
    case Some(a) => offer.Placed? && a == offer.r.start && Gained(s, t, offer.r)
  }

  /** The call of the VMM that `kmalloc` makes, if there is no room without it. */
  ghost predicate Delivered(h: seq<Container>, size: int, lower: int, upper: int, s: seq<Range>, t: seq<Range>,
                            b: Before, c: Before, grant: Option<int>, r: Result, root: int, managed: set<int>)
    requires size >= 0
  {
    if !Heaps.NoRoom(h, size) then t == s && c == b
    else
      var answer := if grant.Some? then Ok(grant.value) else if r.Ok? then Null else r;
      CarriedOut(Between(lower, upper, Asked(size), FLAGS), s, t, b, c, answer, root, managed)
  }

  /** When `kmalloc` ends how. */
  ghost predicate Outcome(h: seq<Container>, size: int, ans: Heaps.Answer, r: Result, offer: Placement,
                          free: set<int>, places: set<Slot>, root: int)
  {
    if !Heaps.NoRoom(h, size) then r.Ok? && ans.Got?
    else match offer
      case NoPlace => r.Ok? && ans == Heaps.NoMemory
      case Overlapping => r == Overlaps
      case Inverted(q, _) => r == Backwards(q.start)
      case Placed(q, _) =>
        if Lacks(free, places, root, q) then r == OutOfMemory
        else r.Ok? && if Servable(size) then ans.Got? else ans == Heaps.Impossible
  }

  /** The search for room in the containers there are. */
  method TryFirst(heap: KernelHeap, vm: VirtualMemory, space: Space, size: int, ghost shared: set<(int, int)>)
    returns (b: int)
    requires Ready(heap, vm, space, shared) && size >= 0
    modifies heap
    ensures Ready(heap, vm, space, shared)
    ensures var h := old(heap.model);
            if b == 0 then heap.model == h && Heaps.NoRoom(h, size)
            else
              && (heap.model, Heaps.Got(b + HEADER)) == Heaps.Kmalloc(h, size, None)
              && !Heaps.NoRoom(h, size)
  {
    assert UnfoldHeap(true);
    ghost var h := heap.model;
    b := heap.TryContainers(size);
    Tried(h, heap.model, size, b);
    BackedAlike(space.ranges, vm.anon, space.root, h, heap.model);
  }

  lemma {:induction false} Tried(h: seq<Container>, g: seq<Container>, size: int, b: int)
    requires var k := Heaps.FindContainer(h, size, 0);
             if k == |h| then b == 0 && g == h
             else
               var i := FindFit(h[k].blocks, size, 0);
               b == h[k].blocks[i].addr > 0 && g == h[k := Allocated(h[k], i, size)]
    ensures b == 0 ==> g == h && Heaps.NoRoom(h, size)
    ensures b != 0 ==>
              && (g, Heaps.Got(b + HEADER)) == Heaps.Kmalloc(h, size, None)
              && !Heaps.NoRoom(h, size)
    ensures |g| == |h| && forall k :: 0 <= k < |h| ==> g[k].addr == h[k].addr && g[k].pages == h[k].pages
  {}

  /** The rest of `kmalloc`, when no container has room. */
  method Grow(heap: KernelHeap, vm: VirtualMemory, space: Space, lower: int, upper: int, size: int,
              ghost shared: set<(int, int)>)
    returns (ans: Heaps.Answer, r: Result, ghost grant: Option<int>)
    requires Ready(heap, vm, space, shared) && 0 <= size < U64 && HeapBounds(lower, upper)
    requires Heaps.NoRoom(heap.model, size)
    modifies heap, vm`anon, vm.mmu, vm.mmu.pmm`avail, vm.mmu.pmm`free, vm.mmu.pmm.maps, vm.mmu.pmm.arrays, space,
             space.nodes
    ensures r.Ok? ==> Ready(heap, vm, space, shared)
    ensures r.Ok? ==> (heap.model, ans) == Heaps.Kmalloc(old(heap.model), size, grant)
    ensures r.Ok? && grant.Some? ==> Heaps.GrantOk(old(heap.model), grant.value, PagesFor(size))
    ensures r.Ok? ==>
              Granted(old(space.ranges), space.ranges, Offer(old(space.ranges), lower, upper, size), grant)
    ensures !Heaps.NoRoom(old(heap.model), size) || !r.Ok? ==> grant.None?
    ensures Delivered(old(heap.model), size, lower, upper, old(space.ranges), space.ranges, old(vm.Now()), vm.Now(),
                      grant, r, space.root, vm.mmu.pmm.managed)
    ensures var offer := Offer(old(space.ranges), lower, upper, size);
            Outcome(old(heap.model), size, ans, r, offer, old(vm.mmu.pmm.free), old(vm.mmu.at.Keys), space.root)
    ensures r.Ok? ==> Quiet(old(vm.Used()), old(vm.mmu.roots), old(vm.mmu.tables), vm)
    ensures r.Ok? ==> Aside(old(vm.mmu.leaves), old(vm.anon), vm.mmu.leaves, vm.anon, space.root)
    ensures forall n :: n in space.nodes ==> n in old(space.nodes) || fresh(n)
  {
    assert UnfoldHeap(true);
    ghost var h, f, t, a := heap.model, vm.mmu.pmm.free, vm.mmu.tables, vm.anon.Values;
    grant := None;
    r := Grant(vm, space, lower, upper, size, h, shared);
    if !r.Ok? && !r.Null? {
      return Heaps.NoMemory, r, None;
    }
    StillReleasable(vm, f, t, a);
    var g := if r.Ok? then Some(r.va) else None;
    grant := g;
    ans := UseGrant(heap, vm, space, size, g, shared);
    r := Ok(0);
  }

  /** `kmalloc` with the answer of the VMM at hand. */
  method UseGrant(heap: KernelHeap, vm: VirtualMemory, space: Space, size: int, grant: Option<int>,
                  ghost shared: set<(int, int)>)
    returns (ans: Heaps.Answer)
    requires Ready(heap, vm, space, shared) && 0 <= size < U64
    requires Heaps.NoRoom(heap.model, size)
    requires grant.Some? ==>
               && grant.value > 0 && Heaps.GrantOk(heap.model, grant.value, PagesFor(size))
               && Backed(space.ranges, vm.anon, space.root, [NewContainer(grant.value, PagesFor(size))] + heap.model)
    modifies heap
    ensures Ready(heap, vm, space, shared) && (heap.model, ans) == Heaps.Kmalloc(old(heap.model), size, grant)
    ensures if grant.None? then ans == Heaps.NoMemory else if Servable(size) then ans.Got? else ans == Heaps.Impossible
  {
    assert UnfoldHeap(true);
    ghost var h := heap.model;
    ans := heap.GrowHeap(size, grant);
    BackedAfter(space.ranges, vm.anon, space.root, h, size, grant);
  }

  lemma {:induction false} BackedAfter(s: seq<Range>, an: Anon, root: int, h: seq<Container>, size: int,
                                       grant: Option<int>)
    requires Backed(s, an, root, h) && 0 <= size < U64 && Heaps.NoRoom(h, size)
    requires grant.Some? ==> PagesFor(size) > 0 && Backed(s, an, root, [NewContainer(grant.value, PagesFor(size))] + h)
    ensures Backed(s, an, root, Heaps.Kmalloc(h, size, grant).0)
    ensures var ans := Heaps.Kmalloc(h, size, grant).1;
            if grant.None? then ans == Heaps.NoMemory
            else if Servable(size) then ans.Got? else ans == Heaps.Impossible
  {
    if grant.Some? {
      FreshContainerFits(grant.value, size);
      BackedAlike(s, an, root, [NewContainer(grant.value, PagesFor(size))] + h, Heaps.Kmalloc(h, size, grant).0);
    }
  }

  // ---- a container handed back ------------------------------------------------------------------

  /** Removing a whole region takes exactly its element out of the list. */
  lemma {:induction false} RegionRemoved(s: seq<Range>, t: seq<Range>, i: nat)
    requires Tidy(s) && i < |s| && Shrank(s, t, s[i].start, s[i].stop)
    ensures Uniform(s, s[i].start, s[i].stop) && t == RemovedAt(s, i)
  {
    assert UnfoldChanges(true);
    var a, b := s[i].start, s[i].stop;
    HeldByRegion(s, i);
    RemoveCorrect(s, a, b);
    RemoveClosedForm(s, a, b);
    TidyUnique(t, Remove(s, a, b).value);
    var k := FindIndex(s, a, 0);
    assert Covers(s[k], a) && Covers(s[i], a);
    SameRegion(s, k, i, a);
    assert Remnants(s[i], a, b) == [];
  }

  lemma {:induction false} HeldByRegion(s: seq<Range>, i: nat)
    requires i < |s|
    ensures Uniform(s, s[i].start, s[i].stop)
  {
    assert Cells(Range(s[i].start, s[i].stop, s[i].flags)) <= View(s);
  }

  lemma {:induction false} SameRegion(s: seq<Range>, i: nat, j: nat, a: int)
    requires Sorted(s) && i < |s| && j < |s| && Covers(s[i], a) && Covers(s[j], a)
    ensures i == j
  {}

  lemma {:induction false} KeysApart(root: int, a: int, b: int, c: int, d: int)
    requires b <= c || d <= a
    ensures PageKeys(root, a, b) !! PageKeys(root, c, d)
  {
    forall k | k in PageKeys(root, a, b) ensures k !in PageKeys(root, c, d) {
      var v :| a <= v < b && PageVa(v) && k == (root, PageNo(v));
      forall w | c <= w < d && PageVa(w) ensures PageNo(w) != PageNo(v) {
        if PageNo(w) == PageNo(v) { PageNoInjective(v, w); }
      }
    }
  }

  lemma {:induction false} BackedShrunk(s: seq<Range>, an: Anon, root: int, h: seq<Container>, k: nat, i: nat)
    requires KheapSpec.Inv(h) && k < |h| && i < |s| && s[i] == RangeOf(h[k]) && Backed(s, an, root, h)
    ensures Backed(RemovedAt(s, i), an - PageKeys(root, h[k].addr, h[k].Stop()), root, h[..k] + h[k + 1..])
  {
    var g, t, keys := h[..k] + h[k + 1..], RemovedAt(s, i), PageKeys(root, h[k].addr, h[k].Stop());
    forall l | 0 <= l < |g| ensures RangeOf(g[l]) in t && PageKeys(root, g[l].addr, g[l].Stop()) <= (an - keys).Keys {
      var m := if l < k then l else l + 1;
      assert g[l] == h[m] && RangeOf(h[m]) in s;
      ContainersApart(h, k, m);
      KeysApart(root, h[m].addr, h[m].Stop(), h[k].addr, h[k].Stop());
      var j :| 0 <= j < |s| && s[j] == RangeOf(h[m]);
      assert t[if j < i then j else j - 1] == RangeOf(h[m]);
    }
  }

  /** The `vmm_free` of `remove_container` never panics. */
  method GiveBack(vm: VirtualMemory, space: Space, addr: int, pages: int, ghost h: seq<Container>, ghost k: nat,
                  ghost shared: set<(int, int)>)
    returns (r: Result)
    requires Sound(vm, space, shared) && vm.Releasable() && High(space.ranges)
    requires KheapSpec.Inv(h) && Backed(space.ranges, vm.anon, space.root, h)
    requires k < |h| && addr == h[k].addr && pages == h[k].pages
    modifies vm`anon, vm.mmu, vm.mmu.pmm`avail, vm.mmu.pmm`free, vm.mmu.pmm.maps, vm.mmu.pmm.arrays, space, space.nodes
    ensures r.Ok? && Sound(vm, space, shared) && vm.Releasable() && High(space.ranges)
    ensures Backed(space.ranges, vm.anon, space.root, h[..k] + h[k + 1..])
    ensures Dropped(old(space.ranges), space.ranges, h[k].addr, h[k].Stop())
    ensures CarriedOut(Release(addr, pages), old(space.ranges), space.ranges, old(vm.Now()), vm.Now(), Ok(addr),
                       space.root, vm.mmu.pmm.managed)
    ensures Quiet(old(vm.Used()), old(vm.mmu.roots), old(vm.mmu.tables), vm)
    ensures Aside(old(vm.mmu.leaves), old(vm.anon), vm.mmu.leaves, vm.anon, space.root)
    ensures forall n :: n in space.nodes ==> n in old(space.nodes) || fresh(n)
  {
    assert UnfoldChanges(true);
    ghost var s, l, an, root := space.ranges, vm.mmu.leaves, vm.anon, space.root;
    ghost var b, f, t := vm.Now(), vm.mmu.pmm.free, vm.mmu.tables;
    Opened(vm, space);
    ghost var i := ContainerRegion(s, an, root, h, k);
    ghost var stop := s[i].stop;
    AllAnonymous(l, t, f, an, root, addr, stop);
    r := vm.Free(space, addr, pages);
    ShrankDropped(s, space.ranges, addr, stop);
    DrainedEmptied(b, vm.Now(), root, addr, stop, vm.mmu.pmm.managed);
    RegionRemoved(s, space.ranges, i);
    HighShrunk(s, i);
    BackedShrunk(s, an, root, h, k, i);
    ShownAndKept(l, an, root, addr, stop);
    ForeignDrained(l, an, vm.mmu.pmm.managed, shared, root, addr, stop);
    DrainedRewritten(l, root, addr, stop);
    StillReleasable(vm, f, t, an.Values);
  }

  /** The region that a container is. */
  lemma {:induction false} ContainerRegion(s: seq<Range>, an: Anon, root: int, h: seq<Container>, k: nat)
    returns (i: nat)
    requires Tidy(s) && AllPlaced(s) && KheapSpec.Inv(h) && Backed(s, an, root, h) && k < |h| && h[k].pages >= 0
    ensures i < |s| && s[i] == RangeOf(h[k]) && s[i].stop == End(h[k].addr, h[k].pages) && s[i].start < s[i].stop
    ensures 0 <= s[i].start < U64 && PageAligned(s[i].start) && Uniform(s, s[i].start, s[i].stop)
    ensures PageKeys(root, s[i].start, s[i].stop) <= an.Keys
  {
    assert WellFormed(h[k]) && RangeOf(h[k]) in s;
    i :| 0 <= i < |s| && s[i] == RangeOf(h[k]);
    assert PlacedOk(s[i]);
    HeldByRegion(s, i);
    EndAligned(h[k].addr, h[k].pages);
  }

  /** The list lost exactly the container that goes back, if one does, and its frames are free. */
  ghost predicate HandedBack(s: seq<Range>, t: seq<Range>, b: Before, c: Before, back: Option<(int, int)>, root: int,
                             managed: set<int>)
  {
    match back
    case None => t == s && c == b
    case Some((addr, pages)) =>
      && pages >= 0 && Dropped(s, t, addr, addr + pages * 0x1000)
      && CarriedOut(Release(addr, pages), s, t, b, c, Ok(addr), root, managed)
  }

  /** `kfree` of a live pointer, with the back link written: it never panics. */
  method Kfree(heap: KernelHeap, vm: VirtualMemory, space: Space, ptr: int, ghost k: nat, ghost i: nat,
               ghost shared: set<(int, int)>)
    returns (r: Result)
    requires Ready(heap, vm, space, shared) && Heaps.At(heap.model, k, i)
    requires heap.model[k].blocks[i].used && ptr == heap.model[k].blocks[i].Data()
    modifies heap, vm`anon, vm.mmu, vm.mmu.pmm`avail, vm.mmu.pmm`free, vm.mmu.pmm.maps, vm.mmu.pmm.arrays, space,
             space.nodes
    ensures r.Ok? && Ready(heap, vm, space, shared) && heap.model == Heaps.Kfree(old(heap.model), k, i).0
    ensures HandedBack(old(space.ranges), space.ranges, old(vm.Now()), vm.Now(), Heaps.Kfree(old(heap.model), k, i).1,
                       space.root, vm.mmu.pmm.managed)
    ensures Quiet(old(vm.Used()), old(vm.mmu.roots), old(vm.mmu.tables), vm)
    ensures Aside(old(vm.mmu.leaves), old(vm.anon), vm.mmu.leaves, vm.anon, space.root)
    ensures forall n :: n in space.nodes ==> n in old(space.nodes) || fresh(n)
  {
    ReadyParts(heap, vm, space, shared);
    ghost var h := heap.model;
    var back := heap.Kfree(ptr, true, k, i);
    if back.Some? {
      r := GiveBack(vm, space, back.value.0, back.value.1, h, k, shared);
    } else {
      BackedAlike(space.ranges, vm.anon, space.root, h, heap.model);
      r := Ok(0);
    }
    ReadyAgain(heap, vm, space, shared);
  }
}
