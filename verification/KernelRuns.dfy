/** Whole runs of the kernel's memory management: heap calls in the kernel's space, new
    spaces, copies of the kernel's space into them, and requests on them, in any order. The
    kernel keeps to the higher half and processes to the lower one; that alone makes every
    release careful. */
module KernelRuns {
  import opened Folding
  import opened Numeric
  import opened Sequences
  import opened RegionSpec
  import opened RegionList
  import opened PageTable
  import opened Coherence
  import opened Vmm
  import opened FirstFit
  import opened Requests
  import opened Runs
  import opened Kheap
  import opened HeapOnVmm
  import Kernel
  import SpaceCopy
  import DirectMap
  import Phys = PhysMap
  import KheapSpec
  import Heaps = KheapRuns

  /** Space 0 is the kernel's. */
  datatype Event =
    | On(space: nat, q: Request)
    | Malloc(size: int)
    | Free(n: nat)          // kfree of the n-th live pointer
    | Create(grow: bool)    // vmm_create_space
    | Copy(to: nat)         // vmm_copy_regions of the kernel's space

  // ---- the invariant ------------------------------------------------------------------------

  ghost predicate HighPage(page: int) {
    exists va :: PageVa(va) && HIGHER_START <= va && PageNo(va) == page
  }

  ghost predicate AllHigh(shared: set<(int, int)>) {
    forall k :: k in shared ==> HighPage(k.1)
  }

  /** `live` lists the live allocations, each once. */
  ghost predicate Tracks(live: seq<(int, int)>, h: Heaps.Heap) {
    && (forall i, j :: 0 <= i < j < |live| ==> live[i] != live[j])
    && (forall x :: x in live <==> x in Heaps.Live(h))
  }

  /** All spaces agree with their tables, every frame has its one role, `pmm_free` would take
      back each frame handed out, the heap's containers are regions of the kernel's space,
      and only pages of the higher half show frames they do not own. */
  ghost predicate Whole(heap: KernelHeap, vm: VirtualMemory, spaces: seq<Space>, live: seq<(int, int)>,
                        shared: set<(int, int)>)
    reads heap, vm, vm.mmu, vm.mmu.pmm, vm.mmu.pmm.maps, vm.mmu.pmm.arrays, spaces, Nodes(spaces)
  {
    && spaces != []
    && forall u {:trigger UnfoldKernel(u)} :: UnfoldKernel(u) ==>
         && Good(vm, spaces, shared) && AllHigh(shared)
         && Ready(heap, vm, spaces[0], shared) && Tracks(live, heap.model)
  }

  lemma {:induction false} OpenWhole(heap: KernelHeap, vm: VirtualMemory, spaces: seq<Space>, live: seq<(int, int)>,
                                     shared: set<(int, int)>)
    requires Whole(heap, vm, spaces, live, shared)
    ensures Good(vm, spaces, shared) && AllHigh(shared) && Ready(heap, vm, spaces[0], shared)
    ensures Tracks(live, heap.model) && KheapSpec.Inv(heap.model)
  {
    assert UnfoldKernel(true) && UnfoldHeap(true);
  }

  lemma {:induction false} OpenParts(heap: KernelHeap, vm: VirtualMemory, spaces: seq<Space>, live: seq<(int, int)>,
                                     shared: set<(int, int)>)
    requires Whole(heap, vm, spaces, live, shared)
    ensures Good(vm, spaces, shared) && AllHigh(shared) && Tracks(live, heap.model) && vm.Releasable()
    ensures heap.Valid() && High(spaces[0].ranges)
    ensures Backed(spaces[0].ranges, vm.anon, spaces[0].root, heap.model)
  {
    assert UnfoldKernel(true) && UnfoldHeap(true);
  }

  lemma {:induction false} CloseWhole(heap: KernelHeap, vm: VirtualMemory, spaces: seq<Space>, live: seq<(int, int)>,
                                      shared: set<(int, int)>)
    requires spaces != [] && Good(vm, spaces, shared) && AllHigh(shared) && Ready(heap, vm, spaces[0], shared)
    requires Tracks(live, heap.model)
    ensures Whole(heap, vm, spaces, live, shared)
  {}

  lemma {:induction false} ReadySound(heap: KernelHeap, vm: VirtualMemory, space: Space, shared: set<(int, int)>)
    requires Ready(heap, vm, space, shared)
    ensures Sound(vm, space, shared)
  {
    assert UnfoldHeap(true);
  }

  // ---- what events do ---------------------------------------------------------------------------

  /** The memory of all spaces, what stays the same about them, the heap, and the live
      allocations. */
  datatype Shape = Shape(mem: Memory, w: Fixed, heap: Heaps.Heap, live: seq<(int, int)>)

  /** The answer of the VMM, and that of `kmalloc`. */
  datatype Reply = Reply(r: Result, ans: Heaps.Answer)

  ghost function ShapeOf(heap: KernelHeap, vm: VirtualMemory, spaces: seq<Space>, live: seq<(int, int)>): Shape
    reads heap, vm, vm.mmu, vm.mmu.pmm, spaces
  {
    Shape(Held(vm, spaces), Around(vm, spaces), heap.model, live)
  }

  /** Of the lists, only the kernel's may have changed. */
  ghost predicate OthersSame(x: Shape, y: Shape) {
    && |x.mem.lists| == |x.w.roots| > 0 && y.w == x.w && |y.mem.lists| == |x.mem.lists|
    && forall j :: 0 < j < |x.mem.lists| ==> y.mem.lists[j] == x.mem.lists[j]
  }

  /** What `kmalloc` asks of the VMM. */
  function Wish(lower: int, upper: int, size: int): Request
    requires size >= 0
  {
    Between(lower, upper, Asked(size), FLAGS)
  }

  /** `kmalloc`: the VMM is asked exactly when every free block is too short; what it offers
      becomes a container, and null is the answer exactly when it offers nothing. */
  ghost predicate Malloced(x: Shape, y: Shape, size: int, lower: int, upper: int, ans: Heaps.Answer)
    requires size >= 0
  {
    && OthersSame(x, y) && !ans.Impossible?
    && var s, t := x.mem.lists[0], y.mem.lists[0];
       exists grant ::
         && (y.heap, ans) == Heaps.Kmalloc(x.heap, size, grant)
         && Granted(s, t, Offer(s, lower, upper, size), grant)
         && Delivered(x.heap, size, lower, upper, s, t, x.mem.now, y.mem.now, grant, Ok(0), x.w.roots[0], x.w.managed)
         && (!Heaps.NoRoom(x.heap, size) ==> grant.None? && ans.Got?)
         && (Heaps.NoRoom(x.heap, size) ==> (grant.Some? <==> Offer(s, lower, upper, size).Placed?))
         && y.live == if ans.Got? then x.live + [(ans.ptr, size)] else x.live
  }

  /** `kfree` of the n-th live allocation: its block is released, and its container goes back
      with the last one. */
  ghost predicate Freed(x: Shape, y: Shape, n: nat) {
    && OthersSame(x, y) && n < |x.live| && y.live == x.live[..n] + x.live[n + 1..]
    && exists k: nat, i: nat ::
         && Heaps.At(x.heap, k, i) && x.heap[k].blocks[i].used
         && x.live[n] == (x.heap[k].blocks[i].Data(), x.heap[k].blocks[i].req)
         && y.heap == Heaps.Kfree(x.heap, k, i).0
         && HandedBack(x.mem.lists[0], y.mem.lists[0], x.mem.now, y.mem.now, Heaps.Kfree(x.heap, k, i).1, x.w.roots[0],
                       x.w.managed)
  }

  /** One space more, its table out of the lowest free frame but for the one that the object
      allocator may take. */
  ghost predicate Added(x: Memory, w: Fixed, y: Memory, v: Fixed, grow: bool) {
    && v.managed == w.managed && y.lists == x.lists + [[]] && |x.lists| == |w.roots|
    && |v.roots| == |y.lists| && v.roots[..|x.lists|] == w.roots && y.now.l == x.now.l && y.now.an == x.now.an
    && var root := v.roots[|x.lists|];
       exists block ::
         && (if grow then exists f :: block == {f} && Kernel.LowestOf(f, x.now.f) else block == {})
         && Kernel.LowestOf(root, x.now.f - block) && y.now.f == x.now.f - block - {root}
  }

  /** `vmm_create_space`: one more space, empty. */
  ghost predicate Created(x: Shape, y: Shape, grow: bool) {
    (y.heap, y.live) == (x.heap, x.live) && Added(x.mem, x.w, y.mem, y.w, grow)
  }

  /** `vmm_copy_regions` of the kernel's space: its list, and its leaves. */
  ghost predicate Copied(x: Shape, y: Shape, to: nat) {
    && 0 < to < |x.mem.lists| == |x.w.roots| && (y.heap, y.live, y.w) == (x.heap, x.live, x.w)
    && y.mem.lists == x.mem.lists[to := x.mem.lists[0]] && y.mem.now.an == x.mem.now.an
    && y.mem.now.Used() == x.mem.now.Used()
    && Kernel.Mirrored(x.mem.now.l, y.mem.now.l, x.w.roots[to], x.w.roots[0])
  }

  /** The copy of the kernel's space needs more tables than there are free frames. */
  ghost predicate TooManyTables(x: Shape, to: nat) {
    && 0 < to < |x.mem.lists| == |x.w.roots| && x.mem.lists[to] == []
    && LacksTables(x.mem.now.f, x.mem.now.p, SpaceCopy.TablesOf(x.w.roots[to], x.mem.lists[0]))
  }

  /** What an event makes of memory, heap and live allocations. */
  ghost predicate Happened(x: Shape, e: Event, a: Reply, lower: int, upper: int, y: Shape) {
    match e
    case On(i, q) =>
      if 0 < i < |x.mem.lists| && Allowed(q) then
        Stepped(x.mem, Call(i, q), a.r, y.mem, x.w) && (a.r.Ok? || a.r.Null?) && y == x.(mem := y.mem)
      else y == x
    case Malloc(size) => if 0 <= size < U64 then Malloced(x, y, size, lower, upper, a.ans) else y == x
    case Free(n) => if n < |x.live| then Freed(x, y, n) else y == x
    case Create(grow) => Created(x, y, grow)
    case Copy(to) => if 0 < to < |x.mem.lists| && x.mem.lists[to] == [] then Copied(x, y, to) else y == x
  }

  /** Why the kernel ends at an event. */
  ghost predicate Ended(x: Shape, e: Event, a: Reply, lower: int, upper: int) {
    match e
    case On(i, q) => Allowed(q) && Stopped(x.mem, Call(i, q), a.r, x.w)
    case Malloc(size) =>
      && 0 <= size < U64 && |x.mem.lists| == |x.w.roots| > 0 && Heaps.NoRoom(x.heap, size)
      && var offer := Offer(x.mem.lists[0], lower, upper, size);
         if !a.r.Ok? then Stopped(x.mem, Call(0, Wish(lower, upper, size)), a.r, x.w)
         else
           && a.ans.Impossible? && !KheapSpec.Servable(size) && offer.Placed?
           && !Lacks(x.mem.now.f, x.mem.now.p, x.w.roots[0], offer.r)
    case Free(_) => false
    case Create(grow) => a.r == OutOfMemory && if grow then AtMostOne(x.mem.now.f) else x.mem.now.f == {}
    case Copy(to) => a.r == OutOfMemory && TooManyTables(x, to)
  }

  /** What an event did, or why it was the last; kept folded. */
  ghost predicate Explained(x: Shape, e: Event, a: Reply, ok: bool, lower: int, upper: int, y: Shape) {
    forall u {:trigger UnfoldKernel(u)} :: UnfoldKernel(u) ==>
      if ok then Happened(x, e, a, lower, upper, y) else Ended(x, e, a, lower, upper)
  }

  lemma {:induction false} ExplainedMeaning(x: Shape, e: Event, a: Reply, ok: bool, lower: int, upper: int, y: Shape)
    ensures Explained(x, e, a, ok, lower, upper, y) <==>
            if ok then Happened(x, e, a, lower, upper, y) else Ended(x, e, a, lower, upper)
  {
    assert UnfoldKernel(true);
  }

  lemma {:induction false} RequestExplained(x: Shape, i: nat, q: Request, a: Reply, lower: int, upper: int, y: Shape)
    requires 0 < i < |x.mem.lists| && Allowed(q) && y == x.(mem := y.mem)
    requires if a.r.Ok? || a.r.Null? then Stepped(x.mem, Call(i, q), a.r, y.mem, x.w)
             else Stopped(x.mem, Call(i, q), a.r, x.w)
    ensures Explained(x, On(i, q), a, a.r.Ok? || a.r.Null?, lower, upper, y)
  {}

  lemma {:induction false} MallocExplained(x: Shape, size: int, a: Reply, lower: int, upper: int, y: Shape)
    requires 0 <= size < U64
    requires if a.r.Ok? && !a.ans.Impossible? then Malloced(x, y, size, lower, upper, a.ans)
             else Ended(x, Malloc(size), a, lower, upper)
    ensures Explained(x, Malloc(size), a, a.r.Ok? && !a.ans.Impossible?, lower, upper, y)
  {}

  lemma {:induction false} FreeExplained(x: Shape, n: nat, a: Reply, lower: int, upper: int, y: Shape)
    requires n < |x.live| && Freed(x, y, n)
    ensures Explained(x, Free(n), a, true, lower, upper, y)
  {}

  lemma {:induction false} CreateExplained(x: Shape, grow: bool, a: Reply, lower: int, upper: int, y: Shape)
    requires a.r.Ok? || a.r == OutOfMemory
    requires a.r.Ok? ==> Created(x, y, grow)
    requires a.r.OutOfMemory? ==> if grow then AtMostOne(x.mem.now.f) else x.mem.now.f == {}
    ensures Explained(x, Create(grow), a, a.r.Ok?, lower, upper, y)
  {}

  lemma {:induction false} CopyExplained(x: Shape, to: nat, a: Reply, lower: int, upper: int, y: Shape)
    requires 0 < to < |x.mem.lists| && (a.r.Ok? || a.r.Null? || a.r == OutOfMemory)
    requires if x.mem.lists[to] == [] then !a.r.Null? else a.r.Null?
    requires a.r.Ok? ==> Copied(x, y, to)
    requires a.r.Null? ==> y == x
    requires a.r.OutOfMemory? ==> TooManyTables(x, to)
    ensures Explained(x, Copy(to), a, a.r.Ok? || a.r.Null?, lower, upper, y)
  {}

  /** The arguments name no space, no pointer, or a request that is not allowed. */
  predicate Skipped(e: Event, spaces: nat, live: nat) {
    match e
    case On(i, q) => !(0 < i < spaces && Allowed(q))
    case Malloc(size) => !(0 <= size < U64)
    case Free(n) => n >= live
    case Create(_) => false
    case Copy(to) => !(0 < to < spaces)
  }

  lemma {:induction false} SkipExplained(x: Shape, e: Event, a: Reply, lower: int, upper: int)
    requires Skipped(e, |x.mem.lists|, |x.live|)
    ensures Explained(x, e, a, true, lower, upper, x)
  {}

  // ---- requests on processes ------------------------------------------------------------------

  /** What a process may ask: releases in the lower half; other mappings in the higher one. */
  predicate Allowed(q: Request) {
    match q
    case Release(va, pages) => 0 <= va && End(va, pages) <= LOWER_STOP
    case MapTo(va, _, _) => HIGHER_START <= va < U64 && PageAligned(va)
    case _ => true
  }

  /** Only two kinds of requests are passed over: a `vmm_map` outside the higher half, and a
      release that ends outside the lower one. */
  lemma {:induction false} AllowedSpelled(q: Request)
    ensures q.At? || q.Between? ==> Allowed(q)
    ensures q.MapTo? ==> (Allowed(q) <==> 0xffff_8000_0000_0000 <= q.va < U64 && q.va % 0x1000 == 0)
    ensures q.Release? && 0 <= q.va && q.va + q.pages * 0x1000 <= 0x8000_0000_0000 ==> Allowed(q)
    ensures q.Release? && 0 <= q.va < U64 && Allowed(q) ==>
              q.va + q.pages * 0x1000 <= 0x8000_0000_0000 || q.va + q.pages * 0x1000 >= U64
  {
    if q.Release? && q.pages < 0x10_0000_0000_0000 {
      assert q.pages % 0x10_0000_0000_0000 == q.pages;
    }
  }

  lemma {:induction false} LowIsCareful(root: int, shared: set<(int, int)>, q: Request)
    requires AllHigh(shared) && Allowed(q)
    ensures Careful(root, shared, q)
  {
    if q.Release? {
      forall k | k in PageKeys(root, q.va, End(q.va, q.pages)) ensures k !in shared {
        var va :| q.va <= va < End(q.va, q.pages) && PageVa(va) && k == (root, PageNo(va));
        if HighPage(k.1) {
          var w :| PageVa(w) && HIGHER_START <= w && PageNo(w) == k.1;
          PageNoInjective(va, w);
        }
      }
    }
  }

  lemma {:induction false} SharesHigh(managed: set<int>, root: int, shared: set<(int, int)>, q: Request)
    requires AllHigh(shared) && Allowed(q)
    ensures AllHigh(shared + Shares(managed, root, q))
  {
    if q.MapTo? { assert PageVa(q.va); }
  }

  lemma {:induction false} BackedAside(s: seq<Range>, an: Anon, an': Anon, root: int, other: int,
                                       h: seq<KheapSpec.Container>)
    requires Backed(s, an, root, h) && AnonElsewhere(an, an', other) && root != other
    ensures Backed(s, an', root, h)
  {
    forall k | 0 <= k < |h| ensures PageKeys(root, h[k].addr, h[k].Stop()) <= an'.Keys {
      assert PageKeys(root, h[k].addr, h[k].Stop()) <= an.Keys;
    }
  }

  method OnProcess(heap: KernelHeap, vm: VirtualMemory, spaces: seq<Space>, i: nat, q: Request,
                   ghost live: seq<(int, int)>, ghost shared: set<(int, int)>)
    returns (r: Result, ghost shared': set<(int, int)>)
    requires Whole(heap, vm, spaces, live, shared) && 0 < i < |spaces| && Allowed(q)
    modifies vm`anon, vm.mmu, vm.mmu.pmm`avail, vm.mmu.pmm`free, vm.mmu.pmm.maps, vm.mmu.pmm.arrays, spaces[i],
             spaces[i].nodes
    ensures r.Ok? || r.Null? ==> Whole(heap, vm, spaces, live, shared') && vm.Used() == old(vm.Used())
    ensures if r.Ok? || r.Null? then Stepped(old(Held(vm, spaces)), Call(i, q), r, Held(vm, spaces), Around(vm, spaces))
            else Stopped(old(Held(vm, spaces)), Call(i, q), r, Around(vm, spaces))
    ensures forall n :: n in Nodes(spaces) ==> n in old(Nodes(spaces)) || fresh(n)
  {
    OpenParts(heap, vm, spaces, live, shared);
    ghost var managed, root, an := vm.mmu.pmm.managed, spaces[i].root, vm.anon;
    ghost var x, f, t := Held(vm, spaces), vm.mmu.pmm.free, vm.mmu.tables;
    shared' := shared + Shares(managed, root, q);
    LowIsCareful(root, shared, q);
    SharesHigh(managed, root, shared, q);
    r := PerformOn(vm, spaces, i, q, shared);
    StepOrStop(x, Call(i, q), r, Held(vm, spaces), Around(vm, spaces));
    if r.Ok? || r.Null? {
      OpenAll(vm, spaces, shared');
      StillReleasable(vm, f, t, an.Values);
      assert spaces[0].root != spaces[i].root;
      BackedAside(spaces[0].ranges, an, vm.anon, spaces[0].root, root, heap.model);
      StaysWhole(heap, vm, spaces, live, shared');
    }
  }

  // ---- heap calls ---------------------------------------------------------------------------

  /** `kmalloc`: the lists of the other spaces stay as they are. */
  method MallocBeside(heap: KernelHeap, vm: VirtualMemory, spaces: seq<Space>, lower: int, upper: int, size: int,
                      ghost shared: set<(int, int)>)
    returns (ans: Heaps.Answer, r: Result, ghost grant: KheapSpec.Option<int>)
    requires spaces != [] && Ready(heap, vm, spaces[0], shared) && 0 <= size < U64 && HeapBounds(lower, upper)
    requires AllApart(spaces) && forall j :: 0 <= j < |spaces| ==> spaces[j].Linked()
    modifies heap, vm`anon, vm.mmu, vm.mmu.pmm`avail, vm.mmu.pmm`free, vm.mmu.pmm.maps, vm.mmu.pmm.arrays, spaces[0],
             spaces[0].nodes
    ensures r.Ok? ==> Ready(heap, vm, spaces[0], shared)
    ensures r.Ok? ==> (heap.model, ans) == Heaps.Kmalloc(old(heap.model), size, grant)
    ensures var offer := Offer(old(spaces[0].ranges), lower, upper, size);
            && HeapOnVmm.Outcome(old(heap.model), size, ans, r, offer, old(vm.mmu.pmm.free), old(vm.mmu.at.Keys),
                                 spaces[0].root)
            && (r.Ok? ==> Granted(old(spaces[0].ranges), spaces[0].ranges, offer, grant))
    ensures !Heaps.NoRoom(old(heap.model), size) || !r.Ok? ==> grant.None?
    ensures Delivered(old(heap.model), size, lower, upper, old(spaces[0].ranges), spaces[0].ranges, old(vm.Now()),
                      vm.Now(), grant, r, spaces[0].root, vm.mmu.pmm.managed)
    ensures r.Ok? && grant.Some? ==> Heaps.GrantOk(old(heap.model), grant.value, KheapSpec.PagesFor(size))
    ensures r.Ok? ==> Quiet(old(vm.Used()), old(vm.mmu.roots), old(vm.mmu.tables), vm)
    ensures r.Ok? ==> Aside(old(vm.mmu.leaves), old(vm.anon), vm.mmu.leaves, vm.anon, spaces[0].root)
    ensures AllApart(spaces)
    ensures forall j :: 0 < j < |spaces| ==> spaces[j].Linked() && spaces[j].ranges == old(spaces[j].ranges)
    ensures forall n :: n in Nodes(spaces) ==> n in old(Nodes(spaces)) || fresh(n)
  {
    ghost var lists := Lists(spaces);
    ApartBefore(spaces, 0);
    ans, r, grant := Kmalloc(heap, vm, spaces[0], lower, upper, size, shared);
    forall j | 0 < j < |spaces| ensures spaces[j].Linked() {
      StaysLinked(spaces[j]);
    }
    ApartAfter(spaces, lists, 0);
  }

  lemma {:induction false} TracksMore(live: seq<(int, int)>, h: Heaps.Heap, size: int, grant: KheapSpec.Option<int>)
    requires Tracks(live, h) && KheapSpec.Inv(h) && 0 <= size < U64
    requires grant.Some? ==> Heaps.GrantOk(h, grant.value, KheapSpec.PagesFor(size))
    ensures var (g, ans) := Heaps.Kmalloc(h, size, grant);
            if ans.Got? then Tracks(live + [(ans.ptr, size)], g) else Tracks(live, g)
  {
    Heaps.KmallocCorrect(h, size, grant);
  }

  lemma {:induction false} MallocShape(x: Shape, y: Shape, size: int, lower: int, upper: int, ans: Heaps.Answer,
                                       r: Result, grant: KheapSpec.Option<int>)
    requires 0 <= size < U64 && |x.mem.lists| == |x.w.roots| == |y.mem.lists| > 0
    requires HeapOnVmm.Outcome(x.heap, size, ans, r, Offer(x.mem.lists[0], lower, upper, size), x.mem.now.f,
                               x.mem.now.p, x.w.roots[0])
    requires r.Ok? ==> (y.heap, ans) == Heaps.Kmalloc(x.heap, size, grant) && OthersSame(x, y)
    requires r.Ok? ==> Granted(x.mem.lists[0], y.mem.lists[0], Offer(x.mem.lists[0], lower, upper, size), grant)
    requires Delivered(x.heap, size, lower, upper, x.mem.lists[0], y.mem.lists[0], x.mem.now, y.mem.now, grant, r,
                       x.w.roots[0], x.w.managed)
    requires !Heaps.NoRoom(x.heap, size) || !r.Ok? ==> grant.None?
    requires y.live == if ans.Got? then x.live + [(ans.ptr, size)] else x.live
    ensures if r.Ok? && !ans.Impossible? then Malloced(x, y, size, lower, upper, ans)
            else Ended(x, Malloc(size), Reply(r, ans), lower, upper)
  {
    Heaps.KmallocLands(x.heap, size, grant);
  }

  /** `kmalloc` between other calls. */
  method OnMalloc(heap: KernelHeap, vm: VirtualMemory, spaces: seq<Space>, lower: int, upper: int, size: int,
                  live: seq<(int, int)>, ghost shared: set<(int, int)>)
    returns (ans: Heaps.Answer, r: Result, live': seq<(int, int)>)
    requires Whole(heap, vm, spaces, live, shared) && 0 <= size < U64 && HeapBounds(lower, upper)
    modifies heap, vm`anon, vm.mmu, vm.mmu.pmm`avail, vm.mmu.pmm`free, vm.mmu.pmm.maps, vm.mmu.pmm.arrays, spaces[0],
             spaces[0].nodes
    ensures r.Ok? ==> Whole(heap, vm, spaces, live', shared) && vm.Used() == old(vm.Used())
    ensures var x, y := old(ShapeOf(heap, vm, spaces, live)), ShapeOf(heap, vm, spaces, live');
            if r.Ok? && !ans.Impossible? then Malloced(x, y, size, lower, upper, ans)
            else Ended(x, Malloc(size), Reply(r, ans), lower, upper)
    ensures forall n :: n in Nodes(spaces) ==> n in old(Nodes(spaces)) || fresh(n)
  {
    ghost var l, known, lists, h := vm.mmu.leaves, vm.mmu.roots, Ranges(spaces), heap.model;
    OpenWhole(heap, vm, spaces, live, shared);
    OpenAll(vm, spaces, shared);
    ghost var grant, x := KheapSpec.None, ShapeOf(heap, vm, spaces, live);
    ans, r, grant := MallocBeside(heap, vm, spaces, lower, upper, size, shared);
    live' := if ans.Got? then live + [(ans.ptr, size)] else live;
    MallocShape(x, ShapeOf(heap, vm, spaces, live'), size, lower, upper, ans, r, grant);
    if r.Ok? {
      TracksMore(live, h, size, grant);
      ReadySound(heap, vm, spaces[0], shared);
      CloseAll(vm, spaces, shared, 0, l, known, lists);
      CloseWhole(heap, vm, spaces, live', shared);
    }
  }

  method FreeBeside(heap: KernelHeap, vm: VirtualMemory, spaces: seq<Space>, ptr: int, ghost k: nat, ghost i: nat,
                    ghost shared: set<(int, int)>)
    returns (r: Result)
    requires spaces != [] && Ready(heap, vm, spaces[0], shared) && Heaps.At(heap.model, k, i)
    requires heap.model[k].blocks[i].used && ptr == heap.model[k].blocks[i].Data()
    requires AllApart(spaces) && forall j :: 0 <= j < |spaces| ==> spaces[j].Linked()
    modifies heap, vm`anon, vm.mmu, vm.mmu.pmm`avail, vm.mmu.pmm`free, vm.mmu.pmm.maps, vm.mmu.pmm.arrays, spaces[0],
             spaces[0].nodes
    ensures r.Ok? && Ready(heap, vm, spaces[0], shared) && heap.model == Heaps.Kfree(old(heap.model), k, i).0
    ensures HandedBack(old(spaces[0].ranges), spaces[0].ranges, old(vm.Now()), vm.Now(),
                       Heaps.Kfree(old(heap.model), k, i).1, spaces[0].root, vm.mmu.pmm.managed)
    ensures Quiet(old(vm.Used()), old(vm.mmu.roots), old(vm.mmu.tables), vm)
    ensures Aside(old(vm.mmu.leaves), old(vm.anon), vm.mmu.leaves, vm.anon, spaces[0].root)
    ensures AllApart(spaces)
    ensures forall j :: 0 < j < |spaces| ==> spaces[j].Linked() && spaces[j].ranges == old(spaces[j].ranges)
    ensures forall n :: n in Nodes(spaces) ==> n in old(Nodes(spaces)) || fresh(n)
  {
    ghost var lists := Lists(spaces);
    ApartBefore(spaces, 0);
    r := Kfree(heap, vm, spaces[0], ptr, k, i, shared);
    forall j | 0 < j < |spaces| ensures spaces[j].Linked() {
      StaysLinked(spaces[j]);
    }
    ApartAfter(spaces, lists, 0);
  }

  lemma {:induction false} TracksFewer(live: seq<(int, int)>, h: Heaps.Heap, n: nat, k: nat, i: nat)
    requires Tracks(live, h) && KheapSpec.Inv(h) && n < |live| && Heaps.At(h, k, i) && h[k].blocks[i].used
    requires live[n] == (h[k].blocks[i].Data(), h[k].blocks[i].req)
    ensures Tracks(live[..n] + live[n + 1..], Heaps.Kfree(h, k, i).0)
  {
    Heaps.KfreeCorrect(h, k, i);
    OneTakenOut(live, n);
  }

  lemma {:induction false} OneTakenOut(live: seq<(int, int)>, n: nat)
    requires n < |live| && forall i, j :: 0 <= i < j < |live| ==> live[i] != live[j]
    ensures var rest := live[..n] + live[n + 1..];
            && (forall i, j :: 0 <= i < j < |rest| ==> rest[i] != rest[j])
            && (forall x :: x in rest <==> x in live && x != live[n])
  {
    var rest := live[..n] + live[n + 1..];
    forall x ensures x in rest <==> x in live && x != live[n] {
      if x in live && x != live[n] {
        var j :| 0 <= j < |live| && live[j] == x;
        assert rest[if j < n then j else j - 1] == x;
      }
    }
  }

  lemma {:induction false} FreeShape(x: Shape, y: Shape, n: nat, k: nat, i: nat)
    requires OthersSame(x, y) && n < |x.live| && y.live == x.live[..n] + x.live[n + 1..]
    requires Heaps.At(x.heap, k, i) && x.heap[k].blocks[i].used
    requires x.live[n] == (x.heap[k].blocks[i].Data(), x.heap[k].blocks[i].req)
    requires y.heap == Heaps.Kfree(x.heap, k, i).0
    requires HandedBack(x.mem.lists[0], y.mem.lists[0], x.mem.now, y.mem.now, Heaps.Kfree(x.heap, k, i).1, x.w.roots[0],
                        x.w.managed)
    ensures Freed(x, y, n)
  {}

  /** `kfree` of a live pointer never panics. */
  method OnFree(heap: KernelHeap, vm: VirtualMemory, spaces: seq<Space>, n: nat, live: seq<(int, int)>,
                ghost shared: set<(int, int)>)
    returns (r: Result, live': seq<(int, int)>)
    requires Whole(heap, vm, spaces, live, shared) && n < |live|
    modifies heap, vm`anon, vm.mmu, vm.mmu.pmm`avail, vm.mmu.pmm`free, vm.mmu.pmm.maps, vm.mmu.pmm.arrays, spaces[0],
             spaces[0].nodes
    ensures r.Ok? && Whole(heap, vm, spaces, live', shared) && vm.Used() == old(vm.Used())
    ensures Freed(old(ShapeOf(heap, vm, spaces, live)), ShapeOf(heap, vm, spaces, live'), n)
    ensures forall x :: x in Nodes(spaces) ==> x in old(Nodes(spaces)) || fresh(x)
  {
    ghost var l, known, lists, h := vm.mmu.leaves, vm.mmu.roots, Ranges(spaces), heap.model;
    OpenWhole(heap, vm, spaces, live, shared);
    OpenAll(vm, spaces, shared);
    assert live[n] in live;
    ghost var k, i := Heaps.LiveHasBlock(h, live[n].0, live[n].1);
    ghost var x := ShapeOf(heap, vm, spaces, live);
    TracksFewer(live, h, n, k, i);
    r := FreeBeside(heap, vm, spaces, live[n].0, k, i, shared);
    live' := live[..n] + live[n + 1..];
    ghost var y := ShapeOf(heap, vm, spaces, live');
    assert OthersSame(x, y);
    FreeShape(x, y, n, k, i);
    ReadySound(heap, vm, spaces[0], shared);
    CloseAll(vm, spaces, shared, 0, l, known, lists);
    CloseWhole(heap, vm, spaces, live', shared);
  }

  // ---- spaces ---------------------------------------------------------------------------------

  lemma {:induction false} StaysWhole(heap: KernelHeap, vm: VirtualMemory, spaces: seq<Space>, live: seq<(int, int)>,
                                      shared: set<(int, int)>)
    requires spaces != [] && Good(vm, spaces, shared) && AllHigh(shared) && vm.Releasable()
    requires heap.Valid() && High(spaces[0].ranges) && Tracks(live, heap.model)
    requires Backed(spaces[0].ranges, vm.anon, spaces[0].root, heap.model)
    ensures Whole(heap, vm, spaces, live, shared)
  {
    OpenAll(vm, spaces, shared);
  }

  lemma {:induction false} AddedOne(vm: VirtualMemory, x: Memory, w: Fixed, spaces: seq<Space>, space: Space,
                                    grow: bool, block: set<int>)
    requires w == Around(vm, spaces) && x.lists == Ranges(spaces) && space.ranges == []
    requires vm.mmu.leaves == x.now.l && vm.anon == x.now.an
    requires vm.mmu.pmm.free == x.now.f - block - {space.root} && Kernel.LowestOf(space.root, x.now.f - block)
    requires if grow then exists f :: block == {f} && Kernel.LowestOf(f, x.now.f) else block == {}
    ensures Added(x, w, Held(vm, spaces + [space]), Around(vm, spaces + [space]), grow)
  {
    var all := spaces + [space];
    assert Ranges(all) == Ranges(spaces) + [[]] && Roots(all) == Roots(spaces) + [space.root];
    assert Roots(all)[..|spaces|] == Roots(spaces);
  }

  /** `vmm_create_space`, seen from all spaces. */
  method NewBeside(vm: VirtualMemory, spaces: seq<Space>, grow: bool, ghost shared: set<(int, int)>)
    returns (r: Result, spaces': seq<Space>, ghost block: set<int>)
    requires Good(vm, spaces, shared)
    modifies vm.mmu, vm.mmu.pmm`avail, vm.mmu.pmm`free, vm.mmu.pmm.maps, vm.mmu.pmm.arrays
    ensures r.Ok? || r == OutOfMemory
    ensures r.OutOfMemory? <==> if grow then AtMostOne(old(vm.mmu.pmm.free)) else old(vm.mmu.pmm.free) == {}
    ensures r.Ok? ==> Good(vm, spaces', shared) && (old(vm.Releasable()) ==> vm.Releasable())
    ensures r.Ok? ==> vm.Used() == old(vm.Used()) - block && block <= old(vm.Used())
    ensures r.Ok? ==>
              Added(old(Held(vm, spaces)), old(Around(vm, spaces)), Held(vm, spaces'), Around(vm, spaces'), grow)
    ensures r.Ok? ==> |spaces'| == |spaces| + 1 && spaces'[..|spaces|] == spaces
    ensures forall x :: x in spaces' ==> x in spaces || fresh(x)
    ensures r.Ok? ==> forall n :: n in Nodes(spaces') ==> n in old(Nodes(spaces)) || fresh(n)
  {
    ghost var x, w := Held(vm, spaces), Around(vm, spaces);
    spaces' := spaces;
    var space;
    r, space, block := Kernel.CreateSpace(vm, spaces, grow, shared);
    if r.Ok? {
      spaces' := spaces + [space];
      AddedOne(vm, x, w, spaces, space, grow, block);
    }
  }

  /** `vmm_create_space` */
  method OnCreate(heap: KernelHeap, vm: VirtualMemory, spaces: seq<Space>, grow: bool, ghost live: seq<(int, int)>,
                  ghost shared: set<(int, int)>)
    returns (r: Result, spaces': seq<Space>, ghost block: set<int>)
    requires Whole(heap, vm, spaces, live, shared)
    modifies vm.mmu, vm.mmu.pmm`avail, vm.mmu.pmm`free, vm.mmu.pmm.maps, vm.mmu.pmm.arrays
    ensures r.Ok? || r == OutOfMemory
    ensures r.Ok? ==> Whole(heap, vm, spaces', live, shared)
    ensures r.Ok? ==> vm.Used() == old(vm.Used()) - block && block <= old(vm.Used())
    ensures r.Ok? ==> Created(old(ShapeOf(heap, vm, spaces, live)), ShapeOf(heap, vm, spaces', live), grow)
    ensures r.OutOfMemory? <==> if grow then AtMostOne(old(vm.mmu.pmm.free)) else old(vm.mmu.pmm.free) == {}
    ensures forall x :: x in spaces' ==> x in spaces || fresh(x)
    ensures r.Ok? ==> forall n :: n in Nodes(spaces') ==> n in old(Nodes(spaces)) || fresh(n)
  {
    OpenParts(heap, vm, spaces, live, shared);
    r, spaces', block := NewBeside(vm, spaces, grow, shared);
    if r.Ok? {
      assert spaces'[0] == spaces'[..|spaces|][0];
      StaysWhole(heap, vm, spaces', live, shared);
    }
  }

  lemma {:induction false} CopiedHigh(vm: VirtualMemory, space: Space, shared: set<(int, int)>)
    requires vm.Valid() && vm.Agrees(space) && High(space.ranges) && AllHigh(shared)
    ensures AllHigh(shared + Kernel.PagesOf(vm.mmu.leaves, space.root))
  {
    assert UnfoldRoles(true);
    vm.mmu.LeavesNonZero();
    forall k | k in Kernel.PagesOf(vm.mmu.leaves, space.root) ensures HighPage(k.1) {
      assert Kernel.HasAddress(k.1);
      var va :| PageVa(va) && PageNo(va) == k.1;
      assert LeafAt(vm.mmu.leaves, space.root, va) != 0;
      var i := HasByIndex(space.ranges, va, LeafAt(vm.mmu.leaves, space.root, va) % 0x1000);
    }
  }

  lemma {:induction false} CopyWhole(heap: KernelHeap, vm: VirtualMemory, spaces: seq<Space>, to: nat,
                                     live: seq<(int, int)>, shared: set<(int, int)>, shared': set<(int, int)>)
    requires to < |spaces| && Good(vm, spaces, shared') && vm.Releasable() && spaces[to].ranges == spaces[0].ranges
    requires AllHigh(shared) && shared' == shared + Kernel.PagesOf(vm.mmu.leaves, spaces[to].root)
    requires heap.Valid() && High(spaces[0].ranges) && Tracks(live, heap.model)
    requires Backed(spaces[0].ranges, vm.anon, spaces[0].root, heap.model)
    ensures Whole(heap, vm, spaces, live, shared')
  {
    OpenAll(vm, spaces, shared');
    CopiedHigh(vm, spaces[to], shared);
    StaysWhole(heap, vm, spaces, live, shared');
  }

  lemma {:induction false} OneReplaced(a: seq<seq<Range>>, b: seq<seq<Range>>, to: nat)
    requires to < |a| == |b| && forall k :: 0 <= k < |a| && k != to ==> b[k] == a[k]
    ensures b == a[to := b[to]]
  {}

  /** The lists after `vmm_copy_regions`. */
  method CopyLists(vm: VirtualMemory, spaces: seq<Space>, to: nat, ghost shared: set<(int, int)>) returns (r: Result)
    requires Good(vm, spaces, shared) && 0 < to < |spaces| && spaces[to].ranges == []
    modifies vm.mmu, vm.mmu.pmm`avail, vm.mmu.pmm`free, vm.mmu.pmm.maps, vm.mmu.pmm.arrays, spaces[to],
             spaces[to].nodes
    ensures r.Ok? || r == OutOfMemory
    ensures r.Ok? <==>
              !LacksTables(old(vm.mmu.pmm.free), old(vm.mmu.at.Keys),
                           SpaceCopy.TablesOf(spaces[to].root, old(spaces[0].ranges)))
    ensures r.Ok? ==> Good(vm, spaces, shared + Kernel.PagesOf(vm.mmu.leaves, spaces[to].root))
    ensures r.Ok? ==> vm.Used() == old(vm.Used()) && (old(vm.Releasable()) ==> vm.Releasable())
    ensures r.Ok? ==> Ranges(spaces) == old(Ranges(spaces))[to := old(spaces[0].ranges)]
    ensures r.Ok? ==> spaces[to].ranges == spaces[0].ranges == old(spaces[0].ranges)
    ensures r.Ok? ==> Kernel.Mirrored(old(vm.mmu.leaves), vm.mmu.leaves, spaces[to].root, spaces[0].root)
    ensures forall n :: n in Nodes(spaces) ==> n in old(Nodes(spaces)) || fresh(n)
  {
    ghost var was := Ranges(spaces);
    r := Kernel.CopySpace(vm, spaces, to, 0, shared);
    if r.Ok? {
      OneReplaced(was, Ranges(spaces), to);
    }
  }

  /** `vmm_copy_regions` of the kernel's space into an empty one. */
  method CopyInto(heap: KernelHeap, vm: VirtualMemory, spaces: seq<Space>, to: nat, ghost live: seq<(int, int)>,
                  ghost shared: set<(int, int)>)
    returns (r: Result, ghost shared': set<(int, int)>)
    requires Whole(heap, vm, spaces, live, shared) && 0 < to < |spaces| && spaces[to].ranges == []
    modifies vm.mmu, vm.mmu.pmm`avail, vm.mmu.pmm`free, vm.mmu.pmm.maps, vm.mmu.pmm.arrays, spaces[to],
             spaces[to].nodes
    ensures r.Ok? || r == OutOfMemory
    ensures r.Ok? ==> Whole(heap, vm, spaces, live, shared') && vm.Used() == old(vm.Used())
    ensures r.Ok? ==> Copied(old(ShapeOf(heap, vm, spaces, live)), ShapeOf(heap, vm, spaces, live), to)
    ensures r.Ok? <==>
              !LacksTables(old(vm.mmu.pmm.free), old(vm.mmu.at.Keys),
                           SpaceCopy.TablesOf(spaces[to].root, old(spaces[0].ranges)))
    ensures forall n :: n in Nodes(spaces) ==> n in old(Nodes(spaces)) || fresh(n)
  {
    OpenParts(heap, vm, spaces, live, shared);
    r := CopyLists(vm, spaces, to, shared);
    shared' := shared + Kernel.PagesOf(vm.mmu.leaves, spaces[to].root);
    if r.Ok? {
      CopyWhole(heap, vm, spaces, to, live, shared, shared');
    }
  }

  lemma {:induction false} LinkedAll(heap: KernelHeap, vm: VirtualMemory, spaces: seq<Space>, live: seq<(int, int)>,
                                     shared: set<(int, int)>)
    requires Whole(heap, vm, spaces, live, shared)
    ensures forall j :: 0 <= j < |spaces| ==> spaces[j].Linked()
  {
    OpenWhole(heap, vm, spaces, live, shared);
    OpenAll(vm, spaces, shared);
  }

  /** The same, unless that space is in use already. */
  method OnCopy(heap: KernelHeap, vm: VirtualMemory, spaces: seq<Space>, to: nat, ghost live: seq<(int, int)>,
                ghost shared: set<(int, int)>)
    returns (r: Result, ghost shared': set<(int, int)>)
    requires Whole(heap, vm, spaces, live, shared) && 0 < to < |spaces|
    modifies vm.mmu, vm.mmu.pmm`avail, vm.mmu.pmm`free, vm.mmu.pmm.maps, vm.mmu.pmm.arrays, spaces[to],
             spaces[to].nodes
    ensures r.Ok? || r.Null? || r == OutOfMemory
    ensures r.Ok? || r.Null? ==> Whole(heap, vm, spaces, live, shared') && vm.Used() == old(vm.Used())
    ensures if old(spaces[to].ranges) == [] then !r.Null? else r.Null?
    ensures r.Ok? ==> Copied(old(ShapeOf(heap, vm, spaces, live)), ShapeOf(heap, vm, spaces, live), to)
    ensures r.Null? ==> Held(vm, spaces) == old(Held(vm, spaces))
    ensures r.OutOfMemory? ==> TooManyTables(old(ShapeOf(heap, vm, spaces, live)), to)
    ensures forall n :: n in Nodes(spaces) ==> n in old(Nodes(spaces)) || fresh(n)
  {
    LinkedAll(heap, vm, spaces, live, shared);
    var first := spaces[to].First();
    if first != null {
      return Null, shared;
    }
    assert spaces[to].ranges == [];
    r, shared' := CopyInto(heap, vm, spaces, to, live, shared);
  }

  // ---- the start ------------------------------------------------------------------------------

  lemma {:induction false} DirectHigh(vm: VirtualMemory, space: Space, s: seq<Phys.Area>)
    requires vm.Agrees(space) && DirectMap.Reachable(s) && Kernel.Direct(map[], vm.mmu.leaves, space.root, s)
    ensures High(space.ranges) && AllHigh(DirectMap.DirectKeys(space.root, s, U64))
  {
    assert UnfoldRoles(true);
    forall i | 0 <= i < |space.ranges| ensures HIGHER_START <= space.ranges[i].start {
      var va := space.ranges[i].start;
      assert PlacedOk(space.ranges[i]);
      HeldIsMapped(vm.mmu.leaves, space.root, space.ranges, i, va);
      assert (space.root, PageNo(va)) in DirectMap.DirectKeys(space.root, s, U64);
      var p :| 0 < p < U64 && Phys.HasPage(s, p) && PageNo(va) == PageNo(DirectMap.DirectVa(p));
      DirectMap.DirectPage(s, p);
      PageNoInjective(va, DirectMap.DirectVa(p));
    }
    forall k | k in DirectMap.DirectKeys(space.root, s, U64) ensures HighPage(k.1) {
      var p :| 0 < p < U64 && Phys.HasPage(s, p) && k.1 == PageNo(DirectMap.DirectVa(p));
      DirectMap.DirectPage(s, p);
    }
  }

  /** Right after `pmm_init`: no page is mapped, and the frame at the limit may be free. */
  ghost predicate Booting(vm: VirtualMemory)
    reads vm, vm.mmu, vm.mmu.pmm, vm.mmu.pmm.maps, vm.mmu.pmm.arrays
  {
    vm.Valid() && vm.mmu.leaves == map[] && vm.anon == map[] && Kernel.ButForLimit(vm)
  }

  /** The kernel's space with the direct mapping in it, and an empty heap: the invariant
      holds from the start, for every map of the physical memory. */
  method Boot(vm: VirtualMemory, table: Phys.Table, ghost s: seq<Phys.Area>)
    returns (ok: bool, heap: KernelHeap, spaces: seq<Space>, ghost shared: set<(int, int)>)
    requires Booting(vm) && table.Ready() && s == table.pmap[..table.size] && DirectMap.Reachable(s)
    modifies vm.mmu, vm.mmu.pmm`avail, vm.mmu.pmm`free, vm.mmu.pmm.maps, vm.mmu.pmm.arrays
    ensures ok ==> Whole(heap, vm, spaces, [], shared) && fresh(heap) && forall x :: x in spaces ==> fresh(x)
    ensures ok ==> DirectMap.MappedByKind(vm.mmu.leaves, spaces[0].root, s)
    ensures !ok ==>
              || AtMostOne(old(vm.mmu.pmm.free)) || (forall p :: Phys.HasPage(s, p) ==> p <= 0)
              || exists root :: Short(old(vm.mmu.pmm.free), root, s)
  {
    shared := {};
    heap := new KernelHeap();
    var space := FirstSpace(vm);
    if space == null {
      return false, heap, [], shared;
    }
    spaces := [space];
    assert Kernel.Mappable(space, s);
    ghost var was, f, places := old(vm.mmu.pmm.free), vm.mmu.pmm.free, vm.mmu.at.Keys;
    var m, stop := Kernel.MapPhysical(vm, spaces, 0, table, s, {});
    ok := m.Mapped?;
    BootEnds(m, was, f, places, vm.mmu.leaves, space.root, s);
    if ok {
      shared := {} + DirectMap.DirectKeys(space.root, s, U64);
      OpenAll(vm, spaces, shared);
      DirectHigh(vm, space, s);
      StaysWhole(heap, vm, spaces, [], shared);
    }
  }

  /** The kernel's space, still empty; null stands for want of memory. */
  method FirstSpace(vm: VirtualMemory) returns (space: Space?)
    requires Booting(vm)
    modifies vm.mmu, vm.mmu.pmm`avail, vm.mmu.pmm`free, vm.mmu.pmm.maps, vm.mmu.pmm.arrays
    ensures space != null ==> fresh(space) && Good(vm, [space], {}) && space.ranges == [] && vm.Releasable()
    ensures space != null ==> space.nodes == [] && vm.mmu.leaves == map[]
    ensures space == null <==> AtMostOne(old(vm.mmu.pmm.free))
    ensures space != null ==> TwoGone(old(vm.mmu.pmm.free), vm.mmu.pmm.free)
  {
    Kernel.GoodAtStart(vm);
    var r;
    ghost var block;
    r, space, block := Kernel.CreateSpace(vm, [], true, {});
    if r.Ok? {
      assert [] + [space] == [space];
      assert TwoGone(old(vm.mmu.pmm.free), vm.mmu.pmm.free);
    }
  }

  ghost predicate TwoGone(f: set<int>, f': set<int>) {
    exists a, b :: a in f && b in f && a != b && f' == f - {a} - {b}
  }

  /** Two frames for the first space, and the tables of the direct mapping, are too many. */
  ghost predicate Short(f: set<int>, root: int, s: seq<Phys.Area>) {
    |f| < 2 + |DirectMap.DirectTables(root, s, U64)|
  }

  lemma {:induction false} BootEnds(m: DirectMap.Mapping, was: set<int>, f: set<int>, places: set<Slot>, l: Leaves,
                                    root: int, s: seq<Phys.Area>)
    requires Kernel.MappingDone(m, f, places, l, root, s) && TwoGone(was, f)
    ensures m.Mapped? ==> DirectMap.MappedByKind(l, root, s)
    ensures !m.Mapped? ==> (forall p :: Phys.HasPage(s, p) ==> p <= 0) || Short(was, root, s)
  {
    assert UnfoldChanges(true) && UnfoldCounts(true);
    var a, b :| a in was && b in was && a != b && f == was - {a} - {b};
    assert |was| == |f| + 2;
    if LacksTables(f, places, DirectMap.DirectTables(root, s, U64)) {
      NoMore(DirectMap.DirectTables(root, s, U64) - places, DirectMap.DirectTables(root, s, U64));
    }
  }

  // ---- runs -----------------------------------------------------------------------------------

  /** One event; an event with arguments the code does not admit is passed over. Not `ok`
      stands for the end of the kernel: a panic, or a page fault in the heap. */
  method Step(heap: KernelHeap, vm: VirtualMemory, spaces: seq<Space>, live: seq<(int, int)>, lower: int, upper: int,
              e: Event, ghost shared: set<(int, int)>)
    returns (ok: bool, a: Reply, spaces': seq<Space>, live': seq<(int, int)>, ghost shared': set<(int, int)>,
             ghost block: set<int>)
    requires Whole(heap, vm, spaces, live, shared) && HeapBounds(lower, upper)
    modifies heap, vm`anon, vm.mmu, vm.mmu.pmm`avail, vm.mmu.pmm`free, vm.mmu.pmm.maps, vm.mmu.pmm.arrays, spaces,
             Nodes(spaces)
    ensures Explained(old(ShapeOf(heap, vm, spaces, live)), e, a, ok, lower, upper, ShapeOf(heap, vm, spaces', live'))
    ensures ok ==> Whole(heap, vm, spaces', live', shared')
    ensures ok ==> block <= old(vm.Used()) && vm.Used() == old(vm.Used()) - block
    ensures forall x :: x in spaces' ==> x in spaces || fresh(x)
    ensures ok ==> forall n :: n in Nodes(spaces') ==> n in old(Nodes(spaces)) || fresh(n)
  {
    NodesIn(spaces);
    ghost var x := ShapeOf(heap, vm, spaces, live);
    spaces', live', shared', block := spaces, live, shared, {};
    ok, a := true, Reply(Null, Heaps.NoMemory);
    if Skipped(e, |spaces|, |live|) {
      SkipExplained(x, e, a, lower, upper);
      return;
    }
    match e
    case On(i, q) =>
      var r;
      r, shared' := OnProcess(heap, vm, spaces, i, q, live, shared);
      ok, a := r.Ok? || r.Null?, a.(r := r);
      RequestExplained(x, i, q, a, lower, upper, ShapeOf(heap, vm, spaces, live));
    case Malloc(size) =>
      var ans, r;
      ans, r, live' := OnMalloc(heap, vm, spaces, lower, upper, size, live, shared);
      ok, a := r.Ok? && !ans.Impossible?, Reply(r, ans);
      MallocExplained(x, size, a, lower, upper, ShapeOf(heap, vm, spaces, live'));
    case Free(n) =>
      var r;
      r, live' := OnFree(heap, vm, spaces, n, live, shared);
      a := a.(r := r);
      FreeExplained(x, n, a, lower, upper, ShapeOf(heap, vm, spaces, live'));
    case Create(grow) =>
      var r;
      r, spaces', block := OnCreate(heap, vm, spaces, grow, live, shared);
      ok, a := r.Ok?, a.(r := r);
      CreateExplained(x, grow, a, lower, upper, ShapeOf(heap, vm, spaces', live));
    case Copy(to) =>
      var r;
      r, shared' := OnCopy(heap, vm, spaces, to, live, shared);
      ok, a := r.Ok? || r.Null?, a.(r := r);
      CopyExplained(x, to, a, lower, upper, ShapeOf(heap, vm, spaces, live));
  }

  /** The shapes before each event and after the last, going by the answers. */
  ghost predicate Chronicle(shapes: seq<Shape>, events: seq<Event>, replies: seq<Reply>, lower: int, upper: int) {
    && |shapes| == |events| + 1 == |replies| + 1
    && forall n :: 0 <= n < |events| ==>
         Explained(shapes[n], events[n], replies[n], true, lower, upper, shapes[n + 1])
  }

  lemma {:induction false} ChronicleMore(shapes: seq<Shape>, events: seq<Event>, replies: seq<Reply>, lower: int,
                                         upper: int, n: nat, a: Reply, y: Shape)
    requires n < |events| && Chronicle(shapes, events[..n], replies, lower, upper)
    requires Explained(shapes[n], events[n], a, true, lower, upper, y)
    ensures Chronicle(shapes + [y], events[..n + 1], replies + [a], lower, upper)
  {
    var s, e, r := shapes + [y], events[..n + 1], replies + [a];
    forall m | 0 <= m < |e| ensures Explained(s[m], e[m], r[m], true, lower, upper, s[m + 1]) {
      if m < n { assert e[m] == events[..n][m] && s[m + 1] == shapes[m + 1]; }
    }
  }

  /** Every run of the kernel's memory management: each event did to lists, heap and live
      allocations what it stands for, and a run that ends early ends for a stated reason. As
      long as it did not end, all region lists agree with their page tables, every frame has
      its one role and none was lost but to the object allocator, the heap is in shape with
      its live allocations apart, and its containers are regions of the kernel's space. */
  method RunKernel(heap: KernelHeap, vm: VirtualMemory, spaces: seq<Space>, live: seq<(int, int)>, lower: int,
                   upper: int, events: seq<Event>, ghost shared: set<(int, int)>)
    returns (ok: bool, all: seq<Space>, live': seq<(int, int)>, replies: seq<Reply>, ghost shapes: seq<Shape>,
             ghost shared': set<(int, int)>, ghost blocks: set<int>)
    requires Whole(heap, vm, spaces, live, shared) && HeapBounds(lower, upper)
    modifies heap, vm`anon, vm.mmu, vm.mmu.pmm`avail, vm.mmu.pmm`free, vm.mmu.pmm.maps, vm.mmu.pmm.arrays, spaces,
             Nodes(spaces)
    ensures |shapes| > 0 && shapes[0] == old(ShapeOf(heap, vm, spaces, live))
    ensures ok ==> Chronicle(shapes, events, replies, lower, upper)
    ensures ok ==> shapes[|events|] == ShapeOf(heap, vm, all, live')
    ensures !ok ==>
              && 0 < |replies| <= |events| && |shapes| == |replies|
              && Chronicle(shapes, events[..|shapes| - 1], replies[..|shapes| - 1], lower, upper)
              && Ended(shapes[|shapes| - 1], events[|shapes| - 1], replies[|shapes| - 1], lower, upper)
    ensures ok ==> Whole(heap, vm, all, live', shared')
    ensures ok ==> blocks <= old(vm.Used()) && vm.Used() == old(vm.Used()) - blocks
  {
    all, live', shared', blocks := spaces, live, shared, {};
    replies, shapes := [], [ShapeOf(heap, vm, spaces, live)];
    var n := 0;
    ok := true;
    while n < |events|
      invariant 0 <= n <= |events| && ok && Whole(heap, vm, all, live', shared')
      invariant Chronicle(shapes, events[..n], replies, lower, upper) && shapes[n] == ShapeOf(heap, vm, all, live')
      invariant shapes[0] == old(ShapeOf(heap, vm, spaces, live))
      invariant blocks <= old(vm.Used()) && vm.Used() == old(vm.Used()) - blocks
      invariant forall x :: x in all ==> x in spaces || fresh(x)
      invariant forall x :: x in Nodes(all) ==> x in old(Nodes(spaces)) || fresh(x)
    {
      assert forall j :: 0 <= j < |all| ==> all[j] in spaces || fresh(all[j]);
      ghost var block, was := {}, replies;
      var a;
      ok, a, all, live', shared', block := Step(heap, vm, all, live', lower, upper, events[n], shared');
      ghost var y := ShapeOf(heap, vm, all, live');
      replies := replies + [a];
      if !ok {
        assert replies[..n] == was;
        ExplainedMeaning(shapes[n], events[n], a, false, lower, upper, y);
        return;
      }
      ChronicleMore(shapes, events, was, lower, upper, n, a, y);
      shapes := shapes + [y];
      blocks, n := blocks + block, n + 1;
    }
    assert events[..n] == events;
  }
}
