/** `kernel/arch/x86_64/mm/mmu.c`: mapping, unmapping and translating pages. */
module Mmu {
  import opened Folding
  import opened Numeric
  import opened Sequences
  import opened PageTable
  import opened Pmm

  class PageTables {
    const pmm: FrameAllocator
    var mem: Mem
    /** Which frame holds the table of which place. */
    ghost var at: map<Slot, int>
    /** What the tables amount to: the top-level tables, all table pages, and the
        leaf entries other than 0. */
    ghost var roots: set<int>
    ghost var tables: set<int>
    ghost var leaves: Leaves

    constructor (pmm: FrameAllocator)
      requires pmm.Valid()
      ensures Valid() && this.pmm == pmm && roots == {} && tables == {} && leaves == map[]
    {
      this.pmm := pmm;
      mem, at := map[], map[];
      roots, tables, leaves := {}, {}, map[];
    }

    ghost predicate Valid()
      reads this, pmm, pmm.maps, pmm.arrays
    {
      && pmm.Valid() && Shape() && tables !! pmm.free
    }

    ghost predicate Shape()
      reads this
    {
      FitsFolded(mem, at, leaves, tables, roots)
    }

    ghost predicate HasTables(root: int, va: int)
      reads this
    {
      LeafSlot(root, PageNo(va)) in at
    }

    /** What `mmu_translate_4k` returns: all ones when a table is missing, and the frame
        of the leaf entry otherwise, present or not. */
    ghost function TranslationOf(root: int, va: int): int
      reads this
    {
      if HasTables(root, va) then PageAddr(Entry(leaves, root, PageNo(va))) else U64 - 1
    }

    /** A page with a leaf entry has its tables. */
    lemma {:induction false} LeafHasTables(root: int, va: int)
      requires Shape() && (root, PageNo(va)) in leaves
      ensures HasTables(root, va)
    {
      assert UnfoldTables(true);
      assert Leaf(mem, at, root, PageNo(va)) == Entry(leaves, root, PageNo(va));
      assert leaves[(root, PageNo(va))] != 0;
    }

    /** No table is shared, so tables and their places are equally many. */
    lemma {:induction false} TableCount()
      requires Shape()
      ensures EquallyMany(tables, at.Keys)
    {
      assert UnfoldTables(true);
      AsMany(at);
    }

    lemma {:induction false} LeavesNonZero()
      requires Shape()
      ensures forall k :: k in leaves ==> leaves[k] != 0
    {
      assert UnfoldTables(true);
    }

    /** One level of the walk in `mmu_map_page`: the table behind entry `i` of table
        `t`, created on the way when absent. 0 stands for the out-of-memory panic. */
    method Descend(t: int, i: int, perm: int, ghost s: Slot) returns (child: int)
      requires pmm.Valid() && Rooted(mem, at) && (Child(s, i) in at || at.Values !! pmm.free)
      requires s in at && at[s] == t && s.level > 1 && 0 <= i < 512 && 0 <= perm < PAGE
      modifies this`mem, this`at, pmm`avail, pmm`free, pmm.maps, pmm.arrays
      ensures pmm.Valid() && Rooted(mem, at) && Walked(old(mem), old(at), old(pmm.free), mem, at, pmm.free)
      ensures Guarded(old(mem), old(at), mem, at, perm)
      ensures old(at.Values !! pmm.free) ==> at.Values !! pmm.free
      ensures child == 0 ==> pmm.free == {} && old(Child(s, i) !in at) && at == old(at)
      ensures child != 0 ==> Child(s, i) in at && at[Child(s, i)] == child && at.Keys == old(at.Keys) + {Child(s, i)}
      ensures old(Child(s, i) in at) ==> mem == old(mem) && at == old(at) && pmm.free == old(pmm.free)
    {
      EntryOf(mem, at, s, i);
      WalkedNothing(mem, at, pmm.free);
      GuardedNothing(mem, at, perm);
      if !Present(mem[t][i]) {
        ghost var f := pmm.free;
        child := pmm.Alloc();
        if child == 0 {
          return;
        }
        AddTable(t, i, child, perm, s, f);
      }
      EntryOf(mem, at, s, i);
      child := PageAddr(mem[t][i]);
    }

    /** The new table `c`, zeroed, and the entry that leads to it. */
    method AddTable(t: int, i: int, c: int, perm: int, ghost s: Slot, ghost f: set<int>)
      requires Rooted(mem, at) && at.Values !! f && Child(s, i) !in at && c in f && c > 0 && PageAligned(c)
      requires s in at && at[s] == t && s.level > 1 && 0 <= i < 512 && 0 <= perm < PAGE
      modifies this`mem, this`at
      ensures Rooted(mem, at) && Walked(old(mem), old(at), f, mem, at, f - {c}) && at.Values !! f - {c}
      ensures Guarded(old(mem), old(at), mem, at, perm) && at == old(at)[Child(s, i) := c]
    {
      var e := TableEntry(c, perm);
      GrowWalked(mem, at, f, s, i, c, e);
      GrowGuarded(mem, at, s, i, c, perm);
      mem := mem[c := Zeros()];
      mem := mem[t := mem[t][i := e]];
      at := at[Child(s, i) := c];
    }

    /** `mmu_map_page`: returns the entry that was there before; not `ok` stands
        for the out-of-memory panic. Where the tables exist, no frame is taken. */
    method MapPage(root: int, va: int, pa: int, perm: int) returns (ok: bool, prior: int)
      requires pmm.Valid() && Shape() && (tables !! pmm.free || HasTables(root, va))
      requires root in roots && 0 <= va < U64 && PageAligned(pa) && 0 <= perm < PAGE
      modifies this, pmm`avail, pmm`free, pmm.maps, pmm.arrays
      ensures pmm.Valid() && Shape() && (old(tables !! pmm.free) ==> tables !! pmm.free)
      ensures roots == old(roots) && old(tables) <= tables
      ensures pmm.free + tables == old(pmm.free + tables)
      ensures ok ==> prior == Entry(old(leaves), root, PageNo(va))
      ensures ok ==> leaves == Updated(old(leaves), root, PageNo(va), LeafEntry(pa, perm))
      ensures !ok ==> pmm.free == {} && leaves == old(leaves)
      ensures if ok then at.Keys == old(at.Keys) + Path(root, va)
              else !HasTables(root, va) && at.Keys <= old(at.Keys) + Path(root, va)
      ensures old(HasTables(root, va)) ==> ok && tables == old(tables) && pmm.free == old(pmm.free)
      ensures Guarded(old(mem), old(at), mem, at, perm)
    {
      prior := 0;
      ghost var m, a := mem, at;
      var pt := Reach(root, va, perm);
      if pt == 0 {
        return false, prior;
      }
      ghost var m1 := mem;
      prior := WriteEntry(root, va, pt, LeafEntry(pa, perm));
      GuardedTrans(m, a, m1, at, mem, at, perm);
      ok := true;
    }

    /** The page allows `b` (2 to write, 4 to the user) with its leaf and all tables on the way. */
    ghost predicate Effective(root: int, va: int, b: int)
      requires b != 0
      reads this
    {
      EffectiveIn(mem, at, leaves, root, va, b)
    }

    /** `mmu_map_page` and what the page allows then: what was asked for, as far as the tables
        that were there already let it through. What other pages allow stays the same. */
    method MapAllowing(root: int, va: int, pa: int, perm: int) returns (ok: bool)
      requires Valid() && root in roots && 0 <= va < U64 && PageAligned(pa) && 0 <= perm < PAGE
      modifies this, pmm`avail, pmm`free, pmm.maps, pmm.arrays
      ensures Valid() && roots == old(roots) && (ok ==> at.Keys == old(at.Keys) + Path(root, va))
      ensures ok ==> (Effective(root, va, 2) <==> old(Grants(mem, at, root, va, perm, 2)))
      ensures ok ==> (Effective(root, va, 4) <==> old(Grants(mem, at, root, va, perm, 4)))
      ensures ok ==> EffectiveKept(old(mem), old(at), old(leaves), mem, at, leaves, root, va)
      ensures Guarded(old(mem), old(at), mem, at, perm)
    {
      ghost var m, a, l := mem, at, leaves;
      var prior;
      ok, prior := MapPage(root, va, pa, perm);
      if ok {
        EffectiveAfter(m, a, mem, at, leaves, root, va, pa, perm, 2);
        EffectiveAfter(m, a, mem, at, leaves, root, va, pa, perm, 4);
        OthersEffective(m, a, l, mem, at, leaves, root, va, perm);
      }
    }

    /** Two pages under one new last-level table: what the first request does not ask for the
        second does not get, whatever it asks for. */
    method MapTwo(root: int, va: int, vb: int, pa: int, pb: int, first: int, second: int) returns (ok: bool)
      requires Valid() && root in roots && 0 <= va < U64 && 0 <= vb < U64
      requires PageAligned(pa) && PageAligned(pb) && 0 <= first < PAGE && 0 <= second < PAGE
      requires LeafSlot(root, PageNo(va)) == LeafSlot(root, PageNo(vb)) && LeafSlot(root, PageNo(va)) !in at
      modifies this, pmm`avail, pmm`free, pmm.maps, pmm.arrays
      ensures Valid() && roots == old(roots)
      ensures ok ==> (Effective(root, vb, 2) <==> Allows(second, 2) && old(Grants(mem, at, root, vb, first, 2)))
      ensures ok ==> (Effective(root, vb, 4) <==> Allows(second, 4) && old(Grants(mem, at, root, vb, first, 4)))
    {
      ghost var m, a := mem, at;
      SamePath(root, va, vb);
      ok := MapAllowing(root, va, pa, first);
      if ok {
        FirstDecides(m, a, mem, at, root, va, vb, first, second, 2);
        FirstDecides(m, a, mem, at, root, va, vb, first, second, 4);
        ok := MapAllowing(root, vb, pb, second);
      }
    }

    lemma {:induction false} SamePath(root: int, va: int, vb: int)
      requires 0 <= va < U64 && 0 <= vb < U64 && LeafSlot(root, PageNo(va)) == LeafSlot(root, PageNo(vb))
      ensures Path(root, va) == Path(root, vb)
    {
      SlotsChain(root, va);
      SlotsChain(root, vb);
    }

    /** The walk, seen from the leaves: it changes none. */
    method Reach(root: int, va: int, perm: int) returns (pt: int)
      requires pmm.Valid() && Shape() && (tables !! pmm.free || HasTables(root, va))
      requires root in roots && 0 <= va < U64 && 0 <= perm < PAGE
      modifies this`mem, this`at, this`tables, pmm`avail, pmm`free, pmm.maps, pmm.arrays
      ensures pmm.Valid() && Shape() && (old(tables !! pmm.free) ==> tables !! pmm.free)
      ensures old(tables) <= tables && pmm.free + tables == old(pmm.free + tables)
      ensures pt == 0 ==> pmm.free == {} && old(!HasTables(root, va))
      ensures pt != 0 ==> HasTables(root, va) && at[LeafSlot(root, PageNo(va))] == pt
      ensures if pt != 0 then at.Keys == old(at.Keys) + Path(root, va)
              else !HasTables(root, va) && at.Keys <= old(at.Keys) + Path(root, va)
      ensures old(HasTables(root, va)) ==> tables == old(tables) && pmm.free == old(pmm.free)
      ensures Guarded(old(mem), old(at), mem, at, perm)
    {
      ghost var m, a, f := mem, at, pmm.free;
      Fitting(m, a, leaves, tables, roots);
      pt := FindTable(root, va, perm);
      FitsWalked(m, a, f, mem, at, pmm.free, leaves, roots);
      tables := at.Values;
    }

    /** The last two statements of `mmu_map_page`. */
    method WriteEntry(root: int, va: int, pt: int, e: int) returns (prior: int)
      requires Shape() && 0 <= va < U64 && HasTables(root, va) && at[LeafSlot(root, PageNo(va))] == pt
      modifies this`mem, this`leaves
      ensures Shape() && prior == Entry(old(leaves), root, PageNo(va))
              && leaves == Updated(old(leaves), root, PageNo(va), e)
      ensures forall perm :: Guarded(old(mem), at, mem, at, perm)
    {
      assert UnfoldTables(true);
      ghost var m, page := mem, PageNo(va);
      SlotsChain(root, va);
      WriteMaps(m, at, root, page, e);
      forall perm ensures Guarded(m, at, Written(m, pt, PtIndex(va), e), at, perm) {
        WriteGuarded(m, at, LeafSlot(root, page), PtIndex(va), e, perm);
      }
      ViewsMapped(m, at, Written(m, pt, PtIndex(va), e), at, root, page, e, leaves);
      prior := mem[pt][PtIndex(va)];
      assert prior == Leaf(m, at, root, page);
      mem := mem[pt := mem[pt][PtIndex(va) := e]];
      leaves := Updated(leaves, root, page, e);
    }

    /** The walk of `mmu_map_page` down to the last-level table. */
    method FindTable(root: int, va: int, perm: int) returns (pt: int)
      requires pmm.Valid() && Rooted(mem, at) && (HasTables(root, va) || at.Values !! pmm.free)
      requires Slot(root, 4, 0) in at && at[Slot(root, 4, 0)] == root && 0 <= va < U64 && 0 <= perm < PAGE
      modifies this`mem, this`at, pmm`avail, pmm`free, pmm.maps, pmm.arrays
      ensures pmm.Valid() && Rooted(mem, at) && Walked(old(mem), old(at), old(pmm.free), mem, at, pmm.free)
      ensures Guarded(old(mem), old(at), mem, at, perm)
      ensures pt == 0 ==> pmm.free == {} && old(!HasTables(root, va))
      ensures pt != 0 ==> HasTables(root, va) && at[LeafSlot(root, PageNo(va))] == pt
      ensures if pt != 0 then at.Keys == old(at.Keys) + Path(root, va)
              else !HasTables(root, va) && at.Keys <= old(at.Keys) + Path(root, va)
      ensures old(HasTables(root, va)) ==> mem == old(mem) && at == old(at) && pmm.free == old(pmm.free)
    {
      ghost var m0, a0, f0 := mem, at, pmm.free;
      SlotsChain(root, va);
      ghost var s4, s1 := Slot(root, 4, 0), LeafSlot(root, PageNo(va));
      PathPresent(mem, at, s1);
      pt := Descend(root, Pml4Index(va), perm, s4);
      ghost var m1, a1, f1 := mem, at, pmm.free;
      if pt != 0 {
        pt := FindBelow(root, pt, va, perm);
        WalkedTrans(m0, a0, f0, m1, a1, f1, mem, at, pmm.free);
        GuardedTrans(m0, a0, m1, a1, mem, at, perm);
      }
    }

    method FindBelow(root: int, pdpt: int, va: int, perm: int) returns (pt: int)
      requires pmm.Valid() && Rooted(mem, at) && (HasTables(root, va) || at.Values !! pmm.free) && 0 <= va < U64
               && 0 <= perm < PAGE
      requires Slot(root, 3, Prefix3(va)) in at && at[Slot(root, 3, Prefix3(va))] == pdpt
      modifies this`mem, this`at, pmm`avail, pmm`free, pmm.maps, pmm.arrays
      ensures pmm.Valid() && Rooted(mem, at) && Walked(old(mem), old(at), old(pmm.free), mem, at, pmm.free)
      ensures Guarded(old(mem), old(at), mem, at, perm)
      ensures pt == 0 ==> pmm.free == {} && old(!HasTables(root, va))
      ensures pt != 0 ==> HasTables(root, va) && at[LeafSlot(root, PageNo(va))] == pt
      ensures var below := {Slot(root, 2, Prefix2(va)), LeafSlot(root, PageNo(va))};
              if pt != 0 then at.Keys == old(at.Keys) + below
              else !HasTables(root, va) && at.Keys <= old(at.Keys) + below
      ensures old(HasTables(root, va)) ==> mem == old(mem) && at == old(at) && pmm.free == old(pmm.free)
    {
      ghost var m0, a0, f0 := mem, at, pmm.free;
      SlotsChain(root, va);
      ghost var s3, s2, s1 := Slot(root, 3, Prefix3(va)), Slot(root, 2, Prefix2(va)), LeafSlot(root, PageNo(va));
      PathPresent(mem, at, s1);
      pt := Descend(pdpt, PdptIndex(va), perm, s3);
      ghost var m1, a1, f1 := mem, at, pmm.free;
      if pt != 0 {
        pt := Descend(pt, PdtIndex(va), perm, s2);
        WalkedTrans(m0, a0, f0, m1, a1, f1, mem, at, pmm.free);
        GuardedTrans(m0, a0, m1, a1, mem, at, perm);
      }
    }

    /** `mmu_init`: the top-level table of a new space; 0 stands for the
        out-of-memory panic. */
    method NewRoot() returns (root: int)
      requires Valid()
      modifies this, pmm`avail, pmm`free, pmm.maps, pmm.arrays
      ensures Valid() && leaves == old(leaves) && pmm.free + tables == old(pmm.free + tables)
      ensures root == 0 ==> old(pmm.free) == {} && roots == old(roots)
      ensures root != 0 ==> root !in old(roots) && roots == old(roots) + {root}
      ensures root != 0 ==> root in old(pmm.free) && PageAligned(root)
      ensures root != 0 ==> pmm.free == old(pmm.free) - {root} && forall f :: f in old(pmm.free) ==> root <= f
      ensures root != 0 ==> forall page :: Entry(leaves, root, page) == 0
    {
      Fitting(mem, at, leaves, tables, roots);
      ghost var f := pmm.free;
      root := pmm.Alloc();
      if root != 0 {
        FitsRoot(mem, at, f, leaves, roots, root);
        mem := mem[root := Zeros()];
        at := at[Slot(root, 4, 0) := root];
        tables, roots := at.Values, roots + {root};
      }
    }

    /** `mmu_unmap_page`: write an empty entry, give the old frame back; tables stay.
        Not `ok` stands for a panic: of `pmm_free` when the allocator does not manage the
        frame, which is always so for an unmapped page, or for want of memory there. */
    method UnmapPage(root: int, va: int) returns (ok: bool, prior: int)
      requires pmm.Valid() && Shape() && (tables !! pmm.free || HasTables(root, va)) && root in roots && 0 <= va < U64
      modifies this, pmm`avail, pmm`free, pmm.maps, pmm.arrays
      ensures ok <==> (root, PageNo(va)) in old(leaves) && PageAddr(old(leaves)[(root, PageNo(va))]) in pmm.managed
      ensures ok ==> prior == old(leaves)[(root, PageNo(va))] && prior != 0
      ensures pmm.Valid() && Shape() && roots == old(roots) && leaves == Updated(old(leaves), root, PageNo(va), 0)
      ensures (root, PageNo(va)) in old(leaves) ==>
                tables == old(tables) && pmm.free == old(pmm.free) + if ok then {PageAddr(prior)} else {}
    {
      LeavesNonZero();
      if (root, PageNo(va)) in leaves { LeafHasTables(root, va); }
      pmm.ZeroUnmanaged();
      ok, prior := MapPage(root, va, 0, 0);
      if ok {
        PageAddrAligned(prior);
        ok := pmm.Free(PageAddr(prior));
      }
    }

    /** `mmu_translate_4k` of an aligned address, as its assertion demands. */
    method Translate(root: int, va: int) returns (pa: int)
      requires Shape() && root in roots && 0 <= va < U64 && PageAligned(va)
      ensures pa == TranslationOf(root, va)
      ensures (root, PageNo(va)) in leaves ==> pa == PageAddr(Entry(leaves, root, PageNo(va)))
    {
      assert UnfoldTables(true);
      SlotsChain(root, va);
      ghost var s4, s3 := Slot(root, 4, 0), Slot(root, 3, Prefix3(va));
      ghost var s2, s1 := Slot(root, 2, Prefix2(va)), LeafSlot(root, PageNo(va));
      if (root, PageNo(va)) in leaves { LeafHasTables(root, va); }
      PathPresent(mem, at, s1);
      assert Shaped(mem, at, s4) && Points(mem, at, s4, Pml4Index(va));
      if !Present(mem[root][Pml4Index(va)]) {
        return U64 - 1;
      }
      var pdpt := PageAddr(mem[root][Pml4Index(va)]);
      assert Shaped(mem, at, s3) && Points(mem, at, s3, PdptIndex(va));
      if !Present(mem[pdpt][PdptIndex(va)]) {
        return U64 - 1;
      }
      var pdt := PageAddr(mem[pdpt][PdptIndex(va)]);
      assert Shaped(mem, at, s2) && Points(mem, at, s2, PdtIndex(va));
      if !Present(mem[pdt][PdtIndex(va)]) {
        return U64 - 1;
      }
      var pt := PageAddr(mem[pdt][PdtIndex(va)]);
      assert Shaped(mem, at, s1);
      pa := PageAddr(mem[pt][PtIndex(va)]);
      assert Leaf(mem, at, root, PageNo(va)) == mem[pt][PtIndex(va)];
    }
  }
}
