/** `vmm_init_direct_mapping` of `kernel/mm/vmm.c`: every page of physical memory but page 0
    is mapped at a fixed distance, with the region list and the page tables in step. */
module DirectMap {
  import opened Folding
  import opened Numeric
  import opened RegionSpec
  import opened RegionList
  import opened PageTable
  import opened Coherence
  import opened Vmm
  import Phys = PhysMap

  const KERNEL_RW: int := 0x103
  const KERNEL_RO: int := 0x101

  /** `DM_P2V` */
  function DirectVa(pa: int): int { HIGHER_START + pa }

  function KernelFlags(kind: Phys.Kind): int {
    if kind.Available? then KERNEL_RW else KERNEL_RO
  }

  datatype Mapping =
    | Mapped
    | Unaligned              // the end marker reaches an alignment assertion: no page to map
    | Failed(why: Result)

  /** The pages below `pa` are mapped, and nothing else has changed. */
  ghost predicate DirectUpTo(l0: Leaves, l: Leaves, root: int, s: seq<Phys.Area>, pa: int) {
    && (forall p, kind :: Phys.PageOfKind(s, p, kind) && 0 < p < pa ==>
        LeafAt(l, root, DirectVa(p)) == LeafEntry(p, KernelFlags(kind)))
    && (forall r, page :: (r, page) !in DirectKeys(root, s, pa) ==> Entry(l, r, page) == Entry(l0, r, page))
  }

  ghost function DirectKeys(root: int, s: seq<Phys.Area>, pa: int): set<(int, int)> {
    set p | 0 < p < pa && Phys.HasPage(s, p) :: (root, PageNo(DirectVa(p)))
  }

  /** All pages of the map have a canonical address in the direct mapping. */
  ghost predicate Reachable(s: seq<Phys.Area>) {
    forall p :: Phys.HasPage(s, p) ==> 0 <= p && DirectVa(p) + 0x1000 < U64
  }

  lemma {:induction false} OneKind(s: seq<Phys.Area>, p: int, k: Phys.Kind, k': Phys.Kind)
    requires Phys.InOrder(s) && Phys.PageOfKind(s, p, k) && Phys.PageOfKind(s, p, k')
    ensures k == k'
  {}

  lemma {:induction false} DirectNothing(l: Leaves, root: int, s: seq<Phys.Area>, pa: int)
    requires forall p :: Phys.HasPage(s, p) && p > 0 ==> pa <= p
    ensures DirectUpTo(l, l, root, s, pa)
  {
    forall p, kind | Phys.PageOfKind(s, p, kind) ensures !(0 < p < pa) {
      KindHasPage(s, p, kind);
    }
  }

  lemma {:induction false} KindHasPage(s: seq<Phys.Area>, p: int, kind: Phys.Kind)
    requires Phys.PageOfKind(s, p, kind)
    ensures Phys.HasPage(s, p) && PageAligned(p)
  {}

  lemma {:induction false} DirectApart(s: seq<Phys.Area>, p: int, q: int)
    requires Reachable(s) && Phys.HasPage(s, p) && Phys.HasPage(s, q) && p != q
    ensures PageNo(DirectVa(p)) != PageNo(DirectVa(q))
  {}

  lemma {:induction false} DirectPage(s: seq<Phys.Area>, p: int)
    requires Reachable(s) && Phys.HasPage(s, p)
    ensures PageVa(DirectVa(p)) && PageAligned(p)
  {}

  lemma {:induction false} DirectStep(l0: Leaves, l: Leaves, root: int, s: seq<Phys.Area>, pa: int, kind: Phys.Kind,
                                      next: int)
    requires Phys.InOrder(s) && Reachable(s) && DirectUpTo(l0, l, root, s, pa) && Phys.PageOfKind(s, pa, kind)
             && 0 < pa < next
    requires forall p :: Phys.HasPage(s, p) && p > pa ==> next <= p
    ensures DirectUpTo(l0, Updated(l, root, PageNo(DirectVa(pa)), LeafEntry(pa, KernelFlags(kind))), root, s, next)
  {
    KindHasPage(s, pa, kind);
    var m := Updated(l, root, PageNo(DirectVa(pa)), LeafEntry(pa, KernelFlags(kind)));
    forall p, k | Phys.PageOfKind(s, p, k) && 0 < p < next
        ensures LeafAt(m, root, DirectVa(p)) == LeafEntry(p, KernelFlags(k)) {
      KindHasPage(s, p, k);
      if p == pa { OneKind(s, p, k, kind); } else { DirectApart(s, p, pa); }
    }
    assert (root, PageNo(DirectVa(pa))) in DirectKeys(root, s, next);
    forall r, page | (r, page) !in DirectKeys(root, s, next) ensures Entry(m, r, page) == Entry(l0, r, page) {
      assert (r, page) !in DirectKeys(root, s, pa);
    }
  }

  /** Nothing held in `[lo, hi)`: no region overlaps a request there. */
  lemma {:induction false} NothingInTheWay(s: seq<Range>, r: Range)
    requires Tidy(s) && r.start < r.stop && forall va, f :: Has(s, va, f) ==> !Covers(r, va)
    ensures !OverlapsAny(s, r)
  {
    forall i | 0 <= i < |s| ensures !Overlap(r, s[i]) {
      var va := Max(r.start, s[i].start);
      if Covers(s[i], va) { assert Has(s, va, s[i].flags); }
    }
  }

  /** The list holds what it held, and addresses of the direct mapping below `pa`. */
  ghost predicate HeldUpTo(was: seq<Range>, now: seq<Range>, pa: int) {
    forall va, f :: Has(now, va, f) ==> Has(was, va, f) || va < DirectVa(pa)
  }

  /** No region lies over a page to be mapped. */
  ghost predicate WayClear(s: seq<Range>, pages: seq<Phys.Area>) {
    forall u {:trigger UnfoldChanges(u)} :: UnfoldChanges(u) ==>
      forall va, f, p :: Has(s, va, f) && Phys.HasPage(pages, p) ==> !(DirectVa(p) <= va < DirectVa(p) + 0x1000)
  }

  lemma {:induction false} NextIsClear(l0: Leaves, was: seq<Range>, l: Leaves, now: seq<Range>, root: int,
                                       pages: seq<Phys.Area>, pa: int, flags: int)
    requires Tidy(now) && WayClear(was, pages) && DoneUpTo(l0, was, l, now, root, pages, pa) && Phys.HasPage(pages, pa)
    ensures !OverlapsAny(now, Span(DirectVa(pa), 1, flags))
  {
    assert UnfoldChanges(true);
    var r := Span(DirectVa(pa), 1, flags);
    forall va, f | Has(now, va, f) ensures !Covers(r, va) {
      assert Has(was, va, f) || va < DirectVa(pa);
    }
    NothingInTheWay(now, r);
  }

  lemma {:induction false} HeldStep(was: seq<Range>, now: seq<Range>, after: seq<Range>, pa: int, flags: int, next: int)
    requires HeldUpTo(was, now, pa) && Grew(now, after, Span(DirectVa(pa), 1, flags)) && pa + 0x1000 <= next
    ensures HeldUpTo(was, after, next)
  {
    assert UnfoldChanges(true);
    forall va, f | Has(after, va, f) ensures Has(was, va, f) || va < DirectVa(next) {
      assert (va, f) in View(after);
      if (va, f) in View(now) { assert Has(now, va, f); }
    }
  }

  ghost predicate Ascending(s: seq<int>) {
    forall i, j :: 0 <= i < j < |s| ==> s[i] < s[j]
  }

  /** Each page below `pa` but page 0 has been visited once, in ascending order. */
  ghost predicate VisitedUpTo(visited: seq<int>, s: seq<Phys.Area>, pa: int) {
    forall u {:trigger UnfoldChanges(u)} :: UnfoldChanges(u) ==>
      Ascending(visited) && forall p :: p in visited <==> 0 < p < pa && Phys.HasPage(s, p)
  }

  /** The last page visited is mapped at `stop`. */
  ghost predicate EndsAt(visited: seq<int>, stop: int) {
    visited != [] && stop == DirectVa(visited[|visited| - 1])
  }

  /** `next` comes behind `pa`, and no page in between. */
  ghost predicate Follows(s: seq<Phys.Area>, pa: int, next: int) {
    pa + 0x1000 <= next && forall p :: Phys.HasPage(s, p) && p > pa ==> next <= p
  }

  lemma {:induction false} VisitStep(visited: seq<int>, s: seq<Phys.Area>, pa: int, next: int)
    requires VisitedUpTo(visited, s, pa) && Phys.HasPage(s, pa) && 0 < pa && Follows(s, pa, next)
    ensures VisitedUpTo(visited + [pa], s, next)
  {
    assert UnfoldChanges(true);
    var v := visited + [pa];
    forall i, j | 0 <= i < j < |v| ensures v[i] < v[j] {
      if j == |visited| { assert v[i] in visited; }
    }
    forall p ensures p in v <==> 0 < p < next && Phys.HasPage(s, p) {}
  }

  /** The state of the loop before it maps the page at `pa`. */
  ghost predicate DoneUpTo(l0: Leaves, was: seq<Range>, l: Leaves, now: seq<Range>, root: int, s: seq<Phys.Area>,
                           pa: int) {
    forall u {:trigger UnfoldChanges(u)} :: UnfoldChanges(u) ==>
      DirectUpTo(l0, l, root, s, pa) && HeldUpTo(was, now, pa)
  }

  lemma {:induction false} DoneStep(l0: Leaves, was: seq<Range>, l: Leaves, now: seq<Range>, after: seq<Range>,
                                    root: int, s: seq<Phys.Area>, pa: int, kind: Phys.Kind, next: int)
    requires DoneUpTo(l0, was, l, now, root, s, pa) && Grew(now, after, Span(DirectVa(pa), 1, KernelFlags(kind)))
    requires Phys.InOrder(s) && Reachable(s) && Phys.PageOfKind(s, pa, kind) && 0 < pa && Follows(s, pa, next)
    ensures var e := LeafEntry(pa, KernelFlags(kind));
            DoneUpTo(l0, was, Updated(l, root, PageNo(DirectVa(pa)), e), after, root, s, next)
  {
    assert UnfoldChanges(true);
    DirectStep(l0, l, root, s, pa, kind, next);
    HeldStep(was, now, after, pa, KernelFlags(kind), next);
  }

  lemma {:induction false} AllDone(l0: Leaves, was: seq<Range>, l: Leaves, now: seq<Range>, root: int,
                                   s: seq<Phys.Area>)
    requires DoneUpTo(l0, was, l, now, root, s, U64)
    ensures DirectUpTo(l0, l, root, s, U64)
  {
    assert UnfoldChanges(true);
  }

  /** The tables for the direct mapping of the pages below `pa`. */
  ghost function DirectTables(root: int, s: seq<Phys.Area>, pa: int): set<Slot> {
    set p, x | 0 < p < pa && Phys.HasPage(s, p) && x in Path(root, DirectVa(p)) :: x
  }

  lemma {:induction false} TablesStep(root: int, s: seq<Phys.Area>, pa: int, next: int)
    requires 0 < pa && Phys.HasPage(s, pa) && Follows(s, pa, next)
    ensures DirectTables(root, s, next) == DirectTables(root, s, pa) + Path(root, DirectVa(pa))
  {
    forall p | 0 < p < next && Phys.HasPage(s, p) ensures p <= pa {}
  }

  /** `vmm_map`, seen from the state `b` in which the loop began. */
  method MapBuilt(vm: VirtualMemory, space: Space, va: int, pa: int, flags: int, ghost b: Before,
                  ghost done: set<Slot>)
    returns (m: Result)
    requires vm.Built(b, done) && vm.Agrees(space) && PlacedOk(Span(va, 1, flags)) && PageAligned(pa)
    requires !OverlapsAny(space.ranges, Span(va, 1, flags))
    modifies vm.mmu, vm.mmu.pmm`avail, vm.mmu.pmm`free, vm.mmu.pmm.maps, vm.mmu.pmm.arrays, space, space.nodes
    ensures m.Ok? || m == OutOfMemory
    ensures m.OutOfMemory? ==> LacksTables(b.f, b.p, done + Path(space.root, va))
    ensures m.Ok? ==> vm.Built(b, done + Path(space.root, va)) && vm.Agrees(space) && vm.mmu.roots == old(vm.mmu.roots)
    ensures m.Ok? ==> Grew(old(space.ranges), space.ranges, Span(va, 1, flags))
    ensures m.Ok? ==> vm.mmu.leaves == Updated(old(vm.mmu.leaves), space.root, PageNo(va), LeafEntry(pa, flags))
    ensures forall n :: n in space.nodes ==> n in old(space.nodes) || fresh(n)
  {
    ghost var path := Path(space.root, va);
    vm.BuiltKept(b, done);
    vm.BuiltTooFew(b, done, path);
    m := vm.Map(space, va, pa, flags);
    if m.Ok? {
      vm.BuiltNext(b, done, path);
    }
  }

  /** The body of the loop but for its last line. */
  method MapNext(vm: VirtualMemory, space: Space, pa: int, kind: Phys.Kind, ghost b: Before, ghost was: seq<Range>,
                 ghost s: seq<Phys.Area>)
    returns (m: Result)
    requires vm.Built(b, DirectTables(space.root, s, pa)) && vm.Agrees(space)
    requires DoneUpTo(b.l, was, vm.mmu.leaves, space.ranges, space.root, s, pa)
    requires Phys.InOrder(s) && Reachable(s) && WayClear(was, s) && Phys.PageOfKind(s, pa, kind) && pa > 0
    modifies vm.mmu, vm.mmu.pmm`avail, vm.mmu.pmm`free, vm.mmu.pmm.maps, vm.mmu.pmm.arrays, space, space.nodes
    ensures m.Ok? || m == OutOfMemory
    ensures m.OutOfMemory? ==>
              LacksTables(b.f, b.p, DirectTables(space.root, s, pa) + Path(space.root, DirectVa(pa)))
    ensures m.Ok? ==> vm.Agrees(space) && vm.mmu.roots == old(vm.mmu.roots)
    ensures m.Ok? ==>
              forall next :: Follows(s, pa, next) ==>
                  && vm.Built(b, DirectTables(space.root, s, next))
                  && DoneUpTo(b.l, was, vm.mmu.leaves, space.ranges, space.root, s, next)
    ensures forall n :: n in space.nodes ==> n in old(space.nodes) || fresh(n)
  {
    ghost var now, l := space.ranges, vm.mmu.leaves;
    var flags := KernelFlags(kind);
    KindHasPage(s, pa, kind);
    ListKept(vm, space);
    NextIsClear(b.l, was, l, now, space.root, s, pa, flags);
    m := MapBuilt(vm, space, DirectVa(pa), pa, flags, b, DirectTables(space.root, s, pa));
    if m.Ok? {
      forall next | Follows(s, pa, next)
        ensures vm.Built(b, DirectTables(space.root, s, next))
        ensures DoneUpTo(b.l, was, vm.mmu.leaves, space.ranges, space.root, s, next)
      {
        TablesStep(space.root, s, pa, next);
        DoneStep(b.l, was, l, now, space.ranges, space.root, s, pa, kind, next);
      }
    }
  }

  lemma {:induction false} ListKept(vm: VirtualMemory, space: Space)
    requires vm.Agrees(space)
    ensures Tidy(space.ranges)
  {
    assert UnfoldRoles(true);
  }

  /** The page behind `pa`; the end marker stands for one beyond all addresses. */
  method NextPage(table: Phys.Table, pa: int, ghost s: seq<Phys.Area>) returns (next: int, kind: Phys.Kind)
    requires table.Ready() && s == table.pmap[..table.size] && 0 <= pa < U64 - 0x1000 && PageAligned(pa) && Reachable(s)
    ensures next == Phys.END ==> Follows(s, pa, U64) && forall p :: Phys.HasPage(s, p) ==> p <= pa
    ensures next != Phys.END ==>
              Follows(s, pa, next) && Phys.PageOfKind(s, next, kind) && PageAligned(next) && Phys.HasPage(s, next)
                  && next < U64 - 0x1000
  {
    next, kind := table.NextPhysPage(pa);
    assert table.pmap[..table.size] == s;
    if next != Phys.END {
      KindHasPage(s, next, kind);
      DirectPage(s, next);
      Phys.NextPageAbove(pa, next);
    }
  }

  /** One turn of the loop: map the page at `pa`, look up the one behind it. */
  method Turn(vm: VirtualMemory, space: Space, table: Phys.Table, pa: int, kind: Phys.Kind, ghost b: Before,
              ghost was: seq<Range>, ghost s: seq<Phys.Area>)
    returns (m: Result, next: int, kind': Phys.Kind)
    requires vm.Built(b, DirectTables(space.root, s, pa)) && vm.Agrees(space)
    requires DoneUpTo(b.l, was, vm.mmu.leaves, space.ranges, space.root, s, pa)
    requires Reachable(s) && WayClear(was, s) && Phys.PageOfKind(s, pa, kind) && 0 < pa < U64 - 0x1000
             && PageAligned(pa) && Phys.HasPage(s, pa)
    requires table.Ready() && s == table.pmap[..table.size]
    modifies vm.mmu, vm.mmu.pmm`avail, vm.mmu.pmm`free, vm.mmu.pmm.maps, vm.mmu.pmm.arrays, space, space.nodes
    ensures m.Ok? || m == OutOfMemory
    ensures m.OutOfMemory? ==> LacksTables(b.f, b.p, DirectTables(space.root, s, U64))
    ensures m.Ok? ==> vm.Agrees(space) && table.Ready() && table.pmap[..table.size] == s
    ensures m.Ok? ==> vm.mmu.roots == old(vm.mmu.roots)
    ensures m.Ok? ==>
              var bound := if next == Phys.END then U64 else next;
              && vm.Built(b, DirectTables(space.root, s, bound)) && Follows(s, pa, bound)
              && DoneUpTo(b.l, was, vm.mmu.leaves, space.ranges, space.root, s, bound)
    ensures m.Ok? && next != Phys.END ==>
              Phys.PageOfKind(s, next, kind') && PageAligned(next) && Phys.HasPage(s, next) && next < U64 - 0x1000
    ensures forall n :: n in space.nodes ==> n in old(space.nodes) || fresh(n)
  {
    next, kind' := Phys.END, kind;
    m := MapNext(vm, space, pa, kind, b, was, s);
    if m.Ok? {
      next, kind' := NextPage(table, pa, s);
    } else {
      PathInAll(space.root, s, pa);
      LacksMore(b.f, b.p, DirectTables(space.root, s, pa) + Path(space.root, DirectVa(pa)),
                DirectTables(space.root, s, U64));
    }
  }

  lemma {:induction false} PathInAll(root: int, s: seq<Phys.Area>, pa: int)
    requires 0 < pa < U64 && Phys.HasPage(s, pa)
    ensures DirectTables(root, s, pa) + Path(root, DirectVa(pa)) <= DirectTables(root, s, U64)
  {}

  /** The loop, from its first page on. */
  method MapAll(vm: VirtualMemory, space: Space, table: Phys.Table, first: int, firstKind: Phys.Kind, ghost b: Before,
                ghost s: seq<Phys.Area>)
    returns (r: Mapping, stop: int, ghost visited: seq<int>)
    requires vm.Built(b, DirectTables(space.root, s, first)) && vm.Agrees(space) && vm.mmu.leaves == b.l
    requires table.Ready() && s == table.pmap[..table.size] && Reachable(s) && WayClear(space.ranges, s)
    requires Phys.PageOfKind(s, first, firstKind) && 0 < first < U64 - 0x1000 && PageAligned(first)
             && Phys.HasPage(s, first)
    requires DoneUpTo(vm.mmu.leaves, space.ranges, vm.mmu.leaves, space.ranges, space.root, s, first)
             && VisitedUpTo([], s, first)
    modifies vm.mmu, vm.mmu.pmm`avail, vm.mmu.pmm`free, vm.mmu.pmm.maps, vm.mmu.pmm.arrays, space, space.nodes
    ensures r == Mapped || r == Failed(OutOfMemory)
    ensures r.Failed? ==> LacksTables(b.f, b.p, DirectTables(space.root, s, U64))
    ensures r.Mapped? ==> vm.Built(b, DirectTables(space.root, s, U64))
    ensures r.Mapped? ==> vm.Agrees(space) && vm.mmu.roots == old(vm.mmu.roots)
    ensures r.Mapped? ==> EndsAt(visited, stop)
    ensures forall n :: n in space.nodes ==> n in old(space.nodes) || fresh(n)
    ensures r.Mapped? ==>
              DirectUpTo(old(vm.mmu.leaves), vm.mmu.leaves, space.root, s, U64) && VisitedUpTo(visited, s, U64)
  {
    ghost var was := space.ranges;
    var pa, kind := first, firstKind;
    visited, stop := [], 0;
    while true
      invariant vm.Built(b, DirectTables(space.root, s, pa)) && vm.Agrees(space)
      invariant table.Ready() && table.pmap[..table.size] == s && vm.mmu.roots == old(vm.mmu.roots)
      invariant Phys.PageOfKind(s, pa, kind) && 0 < pa < U64 - 0x1000 && PageAligned(pa) && Phys.HasPage(s, pa)
      invariant DoneUpTo(b.l, was, vm.mmu.leaves, space.ranges, space.root, s, pa) && VisitedUpTo(visited, s, pa)
      invariant forall n :: n in space.nodes ==> n in old(space.nodes) || fresh(n)
      decreases U64 - pa
    {
      assert forall j :: 0 <= j < |space.nodes| ==> space.nodes[j] in old(space.nodes) || fresh(space.nodes[j]);
      var m, next, kind' := Turn(vm, space, table, pa, kind, b, was, s);
      if !m.Ok? {
        return Failed(m), stop, visited;
      }
      stop := DirectVa(pa);
      VisitStep(visited, s, pa, if next == Phys.END then U64 else next);
      visited := visited + [pa];
      if next == Phys.END {
        AllDone(b.l, was, vm.mmu.leaves, space.ranges, space.root, s);
        return Mapped, stop, visited;
      }
      pa, kind := next, kind';
    }
  }

  /** The page the loop starts with; nothing is mapped yet. */
  method FirstPage(vm: VirtualMemory, space: Space, table: Phys.Table, ghost s: seq<Phys.Area>)
    returns (pa: int, kind: Phys.Kind)
    requires table.Ready() && s == table.pmap[..table.size] && Reachable(s)
    ensures DirectTables(space.root, s, if pa == Phys.END then U64 else pa) == {}
    ensures pa == Phys.END <==> forall p :: Phys.HasPage(s, p) ==> p <= 0
    ensures pa != Phys.END ==>
              0 < pa < U64 - 0x1000 && PageAligned(pa) && Phys.PageOfKind(s, pa, kind) && Phys.HasPage(s, pa)
    ensures pa != Phys.END ==> DoneUpTo(vm.mmu.leaves, space.ranges, vm.mmu.leaves, space.ranges, space.root, s, pa)
    ensures pa != Phys.END ==> VisitedUpTo([], s, pa)
  {
    pa, kind := NextPage(table, 0, s);
    assert forall p :: Phys.HasPage(s, p) && p > 0 ==> pa != Phys.END && pa <= p;
    if pa != Phys.END {
      DirectNothing(vm.mmu.leaves, space.root, s, pa);
    }
  }

  /** A leaf that maps the page at `p` for the kernel, in every space. */
  predicate KernelLeaf(e: int, p: int, writable: bool) {
    e / 0x1000 * 0x1000 == p && ForKernel(e, writable)
  }

  /** At a fixed distance each page but page 0 is mapped: to write where memory is available,
      only to read where it is reserved. */
  ghost predicate MappedByKind(l: Leaves, root: int, s: seq<Phys.Area>) {
    forall i, p :: 0 <= i < |s| && Phys.PageOf(s[i], p) && p > 0 ==>
      KernelLeaf(LeafAt(l, root, 0xffff_8000_0000_0000 + p), p, s[i].kind == Phys.Available)
  }

  lemma {:induction false} KernelLeafOf(p: int, kind: Phys.Kind)
    requires PageAligned(p)
    ensures KernelLeaf(LeafEntry(p, KernelFlags(kind)), p, kind == Phys.Available)
  {
    FlagsDecide(p, KernelFlags(kind));
  }

  lemma {:induction false} AllByKind(l0: Leaves, l: Leaves, root: int, s: seq<Phys.Area>)
    requires DirectUpTo(l0, l, root, s, U64) && Reachable(s)
    ensures MappedByKind(l, root, s)
  {
    forall i, p | 0 <= i < |s| && Phys.PageOf(s[i], p) && p > 0
      ensures KernelLeaf(LeafAt(l, root, 0xffff_8000_0000_0000 + p), p, s[i].kind == Phys.Available)
    {
      assert Phys.HasPage(s, p) && Phys.PageOfKind(s, p, s[i].kind) && DirectVa(p) == 0xffff_8000_0000_0000 + p;
      DirectPage(s, p);
      KernelLeafOf(p, s[i].kind);
    }
  }

  /** From the boot loader's entries to the page tables: every page but page 0 of an entry
      that counts is mapped, to write exactly if the entry is an available one. */
  lemma {:induction false} ReportedMapped(l: Leaves, root: int, s: seq<Phys.Area>, es: seq<Phys.Entry>,
                                          kernelEnd: int, i: nat, p: int)
    requires MappedByKind(l, root, s)
    requires forall p, kind :: Phys.PageOfKind(s, p, kind) <==> Phys.Reported(es, kernelEnd, p, kind)
    requires i < |es| && Phys.Counts(es[i]) && Phys.Reaches(es[i], kernelEnd, p) && p > 0
    ensures KernelLeaf(LeafAt(l, root, 0xffff_8000_0000_0000 + p), p, es[i].kind == 1)
  {
    var kind := if es[i].kind == 1 then Phys.Available else Phys.Reserved;
    assert Phys.Reported(es, kernelEnd, p, kind);
    var k :| 0 <= k < |s| && Phys.PageOf(s[k], p) && s[k].kind == kind;
  }

  lemma {:induction false} AllBuilt(vm: VirtualMemory, b: Before, done: set<Slot>)
    requires vm.Built(b, done)
    ensures vm.Valid() && vm.Used() == b.Used() && b.t <= vm.mmu.tables && !LacksTables(b.f, b.p, done)
  {
    vm.BuiltKept(b, done);
    vm.BuiltEnough(b, done);
  }

  /** `vmm_init_direct_mapping`: fails only when there is no page but page 0, or fewer free
      frames than the mapping needs tables; maps each page of the map once, in ascending
      order, and nothing else. `stop` is `kernel_dm_stop`. */
  method InitDirectMapping(vm: VirtualMemory, space: Space, table: Phys.Table, ghost s: seq<Phys.Area>)
    returns (r: Mapping, stop: int, ghost visited: seq<int>)
    requires vm.Valid() && vm.Agrees(space) && table.Ready() && s == table.pmap[..table.size] && Reachable(s)
    requires WayClear(space.ranges, s)
    modifies vm.mmu, vm.mmu.pmm`avail, vm.mmu.pmm`free, vm.mmu.pmm.maps, vm.mmu.pmm.arrays, space, space.nodes
    ensures r == Mapped || r == Unaligned || r == Failed(OutOfMemory)
    ensures r.Unaligned? <==> forall p :: Phys.HasPage(s, p) ==> p <= 0
    ensures r.Failed? <==> LacksTables(old(vm.mmu.pmm.free), old(vm.mmu.at.Keys), DirectTables(space.root, s, U64))
    ensures r.Mapped? ==> vm.Valid() && vm.Agrees(space) && vm.Used() == old(vm.Used())
    ensures r.Mapped? ==> vm.mmu.roots == old(vm.mmu.roots) && old(vm.mmu.tables) <= vm.mmu.tables
    ensures r.Mapped? ==> EndsAt(visited, stop)
    ensures forall n :: n in space.nodes ==> n in old(space.nodes) || fresh(n)
    ensures r.Mapped? ==> DirectUpTo(old(vm.mmu.leaves), vm.mmu.leaves, space.root, s, U64)
    ensures r.Mapped? ==> VisitedUpTo(visited, s, U64)
    ensures r.Mapped? ==> MappedByKind(vm.mmu.leaves, space.root, s)
  {
    ghost var b := Before(vm.mmu.leaves, vm.anon, vm.mmu.pmm.free, vm.mmu.tables, vm.mmu.at.Keys);
    vm.BuiltNothing(b);
    var pa, kind := FirstPage(vm, space, table, s);
    if pa == Phys.END {
      vm.BuiltEnough(b, {});
      return Unaligned, 0, [];
    }
    r, stop, visited := MapAll(vm, space, table, pa, kind, b, s);
    if r.Mapped? {
      AllBuilt(vm, b, DirectTables(space.root, s, U64));
      AllByKind(b.l, vm.mmu.leaves, space.root, s);
    }
  }
}
