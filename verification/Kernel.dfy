/** What else happens to spaces between runs: creating them, copying one into another, and
    the direct mapping. Each keeps the invariant of runs; a copy and the direct mapping add
    pages that show frames they do not own. */
module Kernel {
  import opened Folding
  import opened Numeric
  import opened RegionSpec
  import opened RegionList
  import opened PageTable
  import opened Coherence
  import Pmm
  import opened Vmm
  import opened Runs
  import SpaceCopy
  import DirectMap
  import Phys = PhysMap

  /** Before the first space there is nothing to disagree with. */
  lemma {:induction false} GoodAtStart(vm: VirtualMemory)
    requires vm.Valid() && vm.mmu.leaves == map[]
    ensures Good(vm, [], {})
  {}

  // ---- creating a space ---------------------------------------------------------------------

  /** Frames moved from the free set to the tables keep the roles of all others. */
  lemma {:induction false} RolesMoved(l: Leaves, t: set<int>, f: set<int>, an: Anon, t': set<int>, f': set<int>)
    requires Roles(l, t, f, an) && t' !! f' && f + t == f' + t'
    ensures Roles(l, t', f', an) && f' + t' + an.Values == f + t + an.Values
  {
    assert an.Values !! f + t;
  }

  lemma {:induction false} RolesFewer(l: Leaves, t: set<int>, f: set<int>, an: Anon, f': set<int>, taken: set<int>)
    requires Roles(l, t, f, an) && taken <= f && f' == f - taken
    ensures Roles(l, t, f', an) && f' + t + an.Values == f + t + an.Values - taken
  {
    assert taken !! t && taken !! an.Values;
  }

  ghost predicate LowestOf(f: int, s: set<int>) {
    f in s && forall g :: g in s ==> f <= g
  }

  /** `pmm_alloc` hands out the frame at the limit, which `pmm_free` refuses; but that one is
      the lowest, so it is the first to go. */
  lemma {:induction false} LimitIsFirst(pmm: Pmm.FrameAllocator, free: set<int>, first: int)
    requires pmm.Valid() && free <= pmm.managed + {pmm.limit} && LowestOf(first, free) && PageAligned(first)
    ensures free - {first} <= pmm.managed
  {
    assert UnfoldFrames(true);
    assert first in pmm.managed <==> pmm.Releasable(first);
  }

  /** `pmm_free` would take back every frame but the one at the limit. */
  ghost predicate ButForLimit(vm: VirtualMemory)
    reads vm, vm.mmu, vm.mmu.pmm
  {
    vm.mmu.pmm.free <= vm.mmu.pmm.managed + {vm.mmu.pmm.limit} && vm.anon.Values <= vm.mmu.pmm.managed
  }

  /** The `block_alloc` of `vmm_create_space`: when the blocks of the object allocator are
      full (`grow`), a frame becomes a new block and leaves the roles that are tracked. */
  method NewObject(vm: VirtualMemory, grow: bool) returns (ok: bool, ghost block: set<int>)
    requires vm.Valid()
    modifies vm.mmu.pmm`avail, vm.mmu.pmm`free, vm.mmu.pmm.maps, vm.mmu.pmm.arrays
    ensures vm.Valid() && block <= old(vm.mmu.pmm.free) && vm.mmu.pmm.free == old(vm.mmu.pmm.free) - block
    ensures ok <==> grow ==> old(vm.mmu.pmm.free) != {}
    ensures grow ==> (vm.mmu.pmm.free == {} <==> AtMostOne(old(vm.mmu.pmm.free)))
    ensures vm.Used() == old(vm.Used()) - block
    ensures if ok && grow then exists f :: block == {f} && LowestOf(f, old(vm.mmu.pmm.free)) else block == {}
    ensures old(vm.mmu.pmm.free) <= vm.mmu.pmm.managed + {vm.mmu.pmm.limit} && grow ==>
              vm.mmu.pmm.free <= vm.mmu.pmm.managed
  {
    ok, block := true, {};
    if grow {
      assert UnfoldRoles(true);
      ghost var f := vm.mmu.pmm.free;
      var pa := vm.mmu.pmm.Alloc();
      ok := pa != 0;
      if ok {
        block := {pa};
        assert LowestOf(pa, f);
        if f <= vm.mmu.pmm.managed + {vm.mmu.pmm.limit} { LimitIsFirst(vm.mmu.pmm, f, pa); }
      }
      RolesFewer(vm.mmu.leaves, vm.mmu.tables, f, vm.anon, vm.mmu.pmm.free, block);
    }
  }

  /** The `mmu_init` of `vmm_create_space`. */
  method NewSpace(vm: VirtualMemory) returns (r: Result, space: Space?)
    requires vm.Valid()
    modifies vm.mmu, vm.mmu.pmm`avail, vm.mmu.pmm`free, vm.mmu.pmm.maps, vm.mmu.pmm.arrays
    ensures (r.Ok? || r == OutOfMemory) && (r.Ok? <==> space != null)
    ensures r.Ok? ==> fresh(space) && space.ranges == [] && space.nodes == []
    ensures r.Ok? ==>
              vm.Valid() && vm.Agrees(space) && vm.Used() == old(vm.Used()) && vm.mmu.leaves == old(vm.mmu.leaves)
    ensures r.Ok? ==> space.root !in old(vm.mmu.roots) && vm.mmu.roots == old(vm.mmu.roots) + {space.root}
    ensures r.Ok? ==>
              vm.mmu.pmm.free == old(vm.mmu.pmm.free) - {space.root} && LowestOf(space.root, old(vm.mmu.pmm.free))
    ensures r.OutOfMemory? <==> old(vm.mmu.pmm.free) == {}
    ensures r.Ok? && old(vm.mmu.pmm.free) <= vm.mmu.pmm.managed + {vm.mmu.pmm.limit} ==>
              vm.mmu.pmm.free <= vm.mmu.pmm.managed
  {
    assert UnfoldRoles(true);
    ghost var t, f := vm.mmu.tables, vm.mmu.pmm.free;
    var root := vm.mmu.NewRoot();
    if root == 0 {
      return OutOfMemory, null;
    }
    if f <= vm.mmu.pmm.managed + {vm.mmu.pmm.limit} { LimitIsFirst(vm.mmu.pmm, f, root); }
    RolesMoved(vm.mmu.leaves, t, f, vm.anon, vm.mmu.tables, vm.mmu.pmm.free);
    space := new Space(root);
    r := Ok(0);
  }

  /** Both parts of `vmm_create_space`, whatever other spaces there are. */
  method MakeSpace(vm: VirtualMemory, grow: bool) returns (r: Result, space: Space?, ghost block: set<int>)
    requires vm.Valid()
    modifies vm.mmu, vm.mmu.pmm`avail, vm.mmu.pmm`free, vm.mmu.pmm.maps, vm.mmu.pmm.arrays
    ensures (r.Ok? || r == OutOfMemory) && (r.Ok? <==> space != null)
    ensures r.OutOfMemory? <==> if grow then AtMostOne(old(vm.mmu.pmm.free)) else old(vm.mmu.pmm.free) == {}
    ensures r.Ok? ==> fresh(space) && space.ranges == [] && space.nodes == [] && vm.mmu.leaves == old(vm.mmu.leaves)
    ensures r.Ok? ==> vm.Valid() && vm.Agrees(space)
    ensures r.Ok? ==> space.root !in old(vm.mmu.roots) && vm.mmu.roots == old(vm.mmu.roots) + {space.root}
    ensures r.Ok? ==> if grow then exists f :: block == {f} && LowestOf(f, old(vm.mmu.pmm.free)) else block == {}
    ensures r.Ok? ==> block <= old(vm.Used()) && vm.Used() == old(vm.Used()) - block
    ensures r.Ok? ==> LowestOf(space.root, old(vm.mmu.pmm.free) - block)
    ensures r.Ok? ==> vm.mmu.pmm.free == old(vm.mmu.pmm.free) - block - {space.root}
    ensures r.Ok? && old(ButForLimit(vm)) ==> vm.Releasable()
  {
    space := null;
    var ok;
    ok, block := NewObject(vm, grow);
    if !ok {
      return OutOfMemory, space, block;
    }
    r, space := NewSpace(vm);
  }

  lemma {:induction false} GoodWith(vm: VirtualMemory, spaces: seq<Space>, space: Space, shared: set<(int, int)>,
                                    known: set<int>, lists: seq<seq<Range>>)
    requires vm.Valid() && AllApart(spaces) && ForeignOutside(vm.mmu.leaves, vm.anon, vm.mmu.pmm.managed, shared)
    requires vm.Agrees(space) && space.nodes == [] && space !in spaces && space.root !in known
    requires AllMatch(vm.mmu.leaves, known, spaces, lists) && known <= vm.mmu.roots
    requires forall i :: 0 <= i < |spaces| ==> spaces[i].Linked() && spaces[i].ranges == lists[i]
    ensures Good(vm, spaces + [space], shared)
  {
    assert UnfoldRoles(true) && UnfoldKernel(true);
    var all := spaces + [space];
    forall i, j | 0 <= i < j < |all| ensures all[i].root != all[j].root && Apart(all[i], all[j]) {
      if j == |spaces| { assert all[i] == spaces[i] && spaces[i].root in known; }
    }
  }

  /** `vmm_create_space`: an empty space beside the others, out of one free frame for its
      top-level table, and one before it when the object allocator needs a new block. The
      first space made after `pmm_init` takes the frame at the limit for good; from then on
      `pmm_free` would take back every frame handed out. */
  method CreateSpace(vm: VirtualMemory, spaces: seq<Space>, grow: bool, ghost shared: set<(int, int)>)
    returns (r: Result, space: Space?, ghost block: set<int>)
    requires Good(vm, spaces, shared)
    modifies vm.mmu, vm.mmu.pmm`avail, vm.mmu.pmm`free, vm.mmu.pmm.maps, vm.mmu.pmm.arrays
    ensures (r.Ok? || r == OutOfMemory) && (r.Ok? <==> space != null)
    ensures r.OutOfMemory? <==> if grow then AtMostOne(old(vm.mmu.pmm.free)) else old(vm.mmu.pmm.free) == {}
    ensures r.Ok? ==> fresh(space) && space.ranges == [] && space.nodes == [] && vm.mmu.leaves == old(vm.mmu.leaves)
    ensures r.Ok? ==> Good(vm, spaces + [space], shared)
    ensures r.Ok? ==> if grow then exists f :: block == {f} && LowestOf(f, old(vm.mmu.pmm.free)) else block == {}
    ensures r.Ok? ==> block <= old(vm.Used()) && vm.Used() == old(vm.Used()) - block
    ensures r.Ok? ==> LowestOf(space.root, old(vm.mmu.pmm.free) - block)
    ensures r.Ok? ==> vm.mmu.pmm.free == old(vm.mmu.pmm.free) - block - {space.root}
    ensures r.Ok? && old(ButForLimit(vm)) ==> vm.Releasable()
  {
    ghost var known, lists := vm.mmu.roots, Ranges(spaces);
    OpenAll(vm, spaces, shared);
    r, space, block := MakeSpace(vm, grow);
    if r.Ok? {
      forall i | 0 <= i < |spaces| ensures spaces[i].Linked() {
        StaysLinked(spaces[i]);
      }
      GoodWith(vm, spaces, space, shared, known, lists);
    }
  }

  // ---- copying ------------------------------------------------------------------------------

  /** The mapped pages of one space. */
  ghost function PagesOf(l: Leaves, root: int): set<(int, int)> {
    set k | k in l && k.0 == root && HasAddress(k.1)
  }

  ghost predicate HasAddress(page: int) {
    exists va :: PageVa(va) && PageNo(va) == page
  }

  lemma {:induction false} ForeignCopied(l0: Leaves, l: Leaves, an: Anon, managed: set<int>, shared: set<(int, int)>,
                                         root: int)
    requires ForeignOutside(l0, an, managed, shared) && Elsewhere(l0, l, root)
    ensures ForeignOutside(l, an, managed, shared + PagesOf(l, root))
  {
    forall r, va | PageVa(va) && LeafAt(l, r, va) != 0 && (r, PageNo(va)) !in an
        && (r, PageNo(va)) !in shared + PagesOf(l, root)
      ensures PageAddr(LeafAt(l, r, va)) !in managed
    {
      assert HasAddress(PageNo(va));
      assert r != root;
      assert LeafAt(l, r, va) == LeafAt(l0, r, va);
    }
  }

  /** Every page of `dst` has the leaf that `src` had, and nothing else changed. */
  ghost predicate Mirrored(l0: Leaves, l: Leaves, dst: int, src: int) {
    forall u {:trigger UnfoldChanges(u)} :: UnfoldChanges(u) ==>
      (forall va :: PageVa(va) ==> LeafAt(l, dst, va) == LeafAt(l0, src, va)) && Elsewhere(l0, l, dst)
  }

  lemma {:induction false} MirroredNow(l0: Leaves, l: Leaves, dst: int, src: int)
    requires forall va :: PageVa(va) ==> LeafAt(l, dst, va) == LeafAt(l, src, va) == LeafAt(l0, src, va)
    requires Elsewhere(l0, l, dst)
    ensures Mirrored(l0, l, dst, src)
  {}

  /** The copy itself: the lists of the other spaces stay as they are. */
  method CopyBeside(vm: VirtualMemory, spaces: seq<Space>, j: nat, i: nat) returns (r: Result)
    requires i < |spaces| && j < |spaces| && i != j && vm.Valid() && vm.Agrees(spaces[i]) && vm.Agrees(spaces[j])
    requires spaces[j].ranges == [] && AllApart(spaces) && forall k :: 0 <= k < |spaces| ==> spaces[k].Linked()
    modifies vm.mmu, vm.mmu.pmm`avail, vm.mmu.pmm`free, vm.mmu.pmm.maps, vm.mmu.pmm.arrays, spaces[j], spaces[j].nodes
    ensures r.Ok? || r == OutOfMemory
    ensures r.Ok? ==>
              vm.Valid() && vm.Agrees(spaces[j]) && vm.Used() == old(vm.Used()) && vm.mmu.roots == old(vm.mmu.roots)
    ensures r.Ok? <==>
              !LacksTables(old(vm.mmu.pmm.free), old(vm.mmu.at.Keys),
                           SpaceCopy.TablesOf(spaces[j].root, old(spaces[i].ranges)))
    ensures r.Ok? ==> old(vm.mmu.tables) <= vm.mmu.tables
    ensures r.Ok? ==>
              spaces[j].ranges == spaces[i].ranges && Elsewhere(old(vm.mmu.leaves), vm.mmu.leaves, spaces[j].root)
    ensures r.Ok? ==> Mirrored(old(vm.mmu.leaves), vm.mmu.leaves, spaces[j].root, spaces[i].root)
    ensures AllApart(spaces)
    ensures forall k :: 0 <= k < |spaces| && k != j ==>
              spaces[k].Linked() && spaces[k].ranges == old(spaces[k].ranges)
    ensures forall n :: n in Nodes(spaces) ==> n in old(Nodes(spaces)) || fresh(n)
  {
    ghost var l, lists := vm.mmu.leaves, Lists(spaces);
    ApartBefore(spaces, j);
    assert Apart(spaces[j], spaces[i]);
    r := SpaceCopy.CopyRegions(vm, spaces[j], spaces[i]);
    if r.Ok? { MirroredNow(l, vm.mmu.leaves, spaces[j].root, spaces[i].root); }
    forall k | 0 <= k < |spaces| && k != j ensures spaces[k].Linked() {
      StaysLinked(spaces[k]);
    }
    ApartAfter(spaces, lists, j);
  }

  /** `vmm_copy_regions` from space `i` into the empty space `j`: the copy's pages show the
      frames of the source without owning them. */
  method CopySpace(vm: VirtualMemory, spaces: seq<Space>, j: nat, i: nat, ghost shared: set<(int, int)>)
    returns (r: Result)
    requires Good(vm, spaces, shared) && i < |spaces| && j < |spaces| && i != j && spaces[j].ranges == []
    modifies vm.mmu, vm.mmu.pmm`avail, vm.mmu.pmm`free, vm.mmu.pmm.maps, vm.mmu.pmm.arrays, spaces[j], spaces[j].nodes
    ensures r.Ok? || r == OutOfMemory
    ensures r.Ok? <==>
              !LacksTables(old(vm.mmu.pmm.free), old(vm.mmu.at.Keys),
                           SpaceCopy.TablesOf(spaces[j].root, old(spaces[i].ranges)))
    ensures r.Ok? ==> Good(vm, spaces, shared + PagesOf(vm.mmu.leaves, spaces[j].root)) && vm.Used() == old(vm.Used())
    ensures r.Ok? ==> spaces[j].ranges == spaces[i].ranges == old(spaces[i].ranges)
    ensures r.Ok? ==> Mirrored(old(vm.mmu.leaves), vm.mmu.leaves, spaces[j].root, spaces[i].root)
    ensures r.Ok? ==> (old(vm.Releasable()) ==> vm.Releasable())
    ensures forall k :: 0 <= k < |spaces| && k != j ==> spaces[k].ranges == old(spaces[k].ranges)
    ensures forall n :: n in Nodes(spaces) ==> n in old(Nodes(spaces)) || fresh(n)
  {
    ghost var l0, f0, t0, a0 := vm.mmu.leaves, vm.mmu.pmm.free, vm.mmu.tables, vm.anon.Values;
    ghost var known, lists := vm.mmu.roots, Ranges(spaces);
    OpenAll(vm, spaces, shared);
    r := CopyBeside(vm, spaces, j, i);
    if r.Ok? {
      StillReleasable(vm, f0, t0, a0);
      ForeignCopied(l0, vm.mmu.leaves, vm.anon, vm.mmu.pmm.managed, shared, spaces[j].root);
      CloseAll(vm, spaces, shared + PagesOf(vm.mmu.leaves, spaces[j].root), j, l0, known, lists);
    }
  }

  // ---- the direct mapping ---------------------------------------------------------------------

  lemma {:induction false} ForeignDirect(l0: Leaves, l: Leaves, an: Anon, managed: set<int>, shared: set<(int, int)>,
                                         root: int, s: seq<Phys.Area>)
    requires ForeignOutside(l0, an, managed, shared) && Direct(l0, l, root, s)
    ensures Elsewhere(l0, l, root) && ForeignOutside(l, an, managed, shared + DirectMap.DirectKeys(root, s, U64))
  {
    forall r, va | PageVa(va) && (r, PageNo(va)) !in DirectMap.DirectKeys(root, s, U64)
        ensures LeafAt(l, r, va) == LeafAt(l0, r, va) {}
  }

  ghost predicate Direct(l0: Leaves, l: Leaves, root: int, s: seq<Phys.Area>) {
    DirectMap.DirectUpTo(l0, l, root, s, U64)
  }

  /** How the direct mapping ends, and when. */
  ghost predicate Ends(r: DirectMap.Mapping, free: set<int>, places: set<Slot>, root: int, s: seq<Phys.Area>) {
    if forall p :: Phys.HasPage(s, p) ==> p <= 0 then r == DirectMap.Unaligned
    else if LacksTables(free, places, DirectMap.DirectTables(root, s, U64)) then r == DirectMap.Failed(OutOfMemory)
    else r == DirectMap.Mapped
  }

  /** That, and the leaves it left; kept folded. */
  ghost predicate MappingDone(r: DirectMap.Mapping, free: set<int>, places: set<Slot>, l: Leaves, root: int,
                              s: seq<Phys.Area>)
  {
    forall u {:trigger UnfoldChanges(u)} :: UnfoldChanges(u) ==>
      Ends(r, free, places, root, s) && (r.Mapped? ==> DirectMap.MappedByKind(l, root, s))
  }

  /** No page of the map lies outside the direct mapping or under a region of the space. */
  ghost predicate Mappable(space: Space, s: seq<Phys.Area>)
    reads space
  {
    DirectMap.Reachable(s) && DirectMap.WayClear(space.ranges, s)
  }

  method MapInto(vm: VirtualMemory, space: Space, table: Phys.Table, ghost s: seq<Phys.Area>)
    returns (r: DirectMap.Mapping, stop: int)
    requires vm.Valid() && vm.Agrees(space) && table.Ready() && s == table.pmap[..table.size] && Mappable(space, s)
    modifies vm.mmu, vm.mmu.pmm`avail, vm.mmu.pmm`free, vm.mmu.pmm.maps, vm.mmu.pmm.arrays, space, space.nodes
    ensures r == DirectMap.Mapped || r == DirectMap.Unaligned || r == DirectMap.Failed(OutOfMemory)
    ensures r.Mapped? ==> vm.Valid() && vm.Agrees(space) && vm.Used() == old(vm.Used())
    ensures r.Mapped? ==> vm.mmu.roots == old(vm.mmu.roots) && old(vm.mmu.tables) <= vm.mmu.tables
    ensures r.Mapped? ==> Direct(old(vm.mmu.leaves), vm.mmu.leaves, space.root, s)
    ensures MappingDone(r, old(vm.mmu.pmm.free), old(vm.mmu.at.Keys), vm.mmu.leaves, space.root, s)
    ensures forall n :: n in space.nodes ==> n in old(space.nodes) || fresh(n)
  {
    ghost var visited;
    r, stop, visited := DirectMap.InitDirectMapping(vm, space, table, s);
  }

  /** The mapping itself: the lists of the other spaces stay as they are. */
  method MapBeside(vm: VirtualMemory, spaces: seq<Space>, i: nat, table: Phys.Table, ghost s: seq<Phys.Area>)
    returns (r: DirectMap.Mapping, stop: int)
    requires i < |spaces| && vm.Valid() && vm.Agrees(spaces[i]) && AllApart(spaces)
    requires forall k :: 0 <= k < |spaces| ==> spaces[k].Linked()
    requires table.Ready() && s == table.pmap[..table.size] && Mappable(spaces[i], s)
    modifies vm.mmu, vm.mmu.pmm`avail, vm.mmu.pmm`free, vm.mmu.pmm.maps, vm.mmu.pmm.arrays, spaces[i], spaces[i].nodes
    ensures r == DirectMap.Mapped || r == DirectMap.Unaligned || r == DirectMap.Failed(OutOfMemory)
    ensures r.Mapped? ==>
              vm.Valid() && vm.Agrees(spaces[i]) && vm.Used() == old(vm.Used()) && vm.mmu.roots == old(vm.mmu.roots)
    ensures r.Mapped? ==> old(vm.mmu.tables) <= vm.mmu.tables
    ensures r.Mapped? ==> Direct(old(vm.mmu.leaves), vm.mmu.leaves, spaces[i].root, s)
    ensures MappingDone(r, old(vm.mmu.pmm.free), old(vm.mmu.at.Keys), vm.mmu.leaves, spaces[i].root, s)
    ensures r.Mapped? ==> AllApart(spaces)
    ensures r.Mapped? ==>
              forall k :: 0 <= k < |spaces| && k != i ==>
                spaces[k].Linked() && spaces[k].ranges == old(spaces[k].ranges)
  {
    assert UnfoldRoles(true);
    ghost var lists := Lists(spaces);
    ApartBefore(spaces, i);
    r, stop := MapInto(vm, spaces[i], table, s);
    if r.Mapped? {
      forall k | 0 <= k < |spaces| && k != i ensures spaces[k].Linked() {
        StaysLinked(spaces[k]);
      }
      ApartAfter(spaces, lists, i);
    }
  }

  /** `vmm_init_direct_mapping` in space `i`: the pages of the direct mapping show all frames
      without owning them. */
  method MapPhysical(vm: VirtualMemory, spaces: seq<Space>, i: nat, table: Phys.Table, ghost s: seq<Phys.Area>,
                     ghost shared: set<(int, int)>)
    returns (r: DirectMap.Mapping, stop: int)
    requires Good(vm, spaces, shared) && i < |spaces|
    requires table.Ready() && s == table.pmap[..table.size] && Mappable(spaces[i], s)
    modifies vm.mmu, vm.mmu.pmm`avail, vm.mmu.pmm`free, vm.mmu.pmm.maps, vm.mmu.pmm.arrays, spaces[i], spaces[i].nodes
    ensures r == DirectMap.Mapped || r == DirectMap.Unaligned || r == DirectMap.Failed(OutOfMemory)
    ensures r.Mapped? ==> vm.Used() == old(vm.Used()) && (old(vm.Releasable()) ==> vm.Releasable())
    ensures r.Mapped? ==> Good(vm, spaces, shared + DirectMap.DirectKeys(spaces[i].root, s, U64))
    ensures r.Mapped? ==> Direct(old(vm.mmu.leaves), vm.mmu.leaves, spaces[i].root, s)
    ensures MappingDone(r, old(vm.mmu.pmm.free), old(vm.mmu.at.Keys), vm.mmu.leaves, spaces[i].root, s)
  {
    ghost var l0, f0, t0, a0 := vm.mmu.leaves, vm.mmu.pmm.free, vm.mmu.tables, vm.anon.Values;
    ghost var known, lists := vm.mmu.roots, Ranges(spaces);
    OpenAll(vm, spaces, shared);
    r, stop := MapBeside(vm, spaces, i, table, s);
    if r.Mapped? {
      StillReleasable(vm, f0, t0, a0);
      ForeignDirect(l0, vm.mmu.leaves, vm.anon, vm.mmu.pmm.managed, shared, spaces[i].root, s);
      CloseAll(vm, spaces, shared + DirectMap.DirectKeys(spaces[i].root, s, U64), i, l0, known, lists);
    }
  }
}
