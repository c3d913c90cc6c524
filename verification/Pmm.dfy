/** The physical page allocator of `kernel/mm/pmm.c`: a table of sorted disjoint
    memory regions, each available one with its own bitmap, used as a set of free
    frames. The table does not change after initialisation. */
module Pmm {
  import opened Folding
  import opened Numeric
  import opened Bitmaps

  datatype PhysRegion = Available(addr: int, pages: nat, bitmap: Bitmap) | Reserved(addr: int, pages: nat) {
    function Stop(): int { addr + pages * 0x1000 }
  }

  /** `pmap` is sorted by address, with disjoint page-aligned extents. */
  ghost predicate Layout(pmap: seq<PhysRegion>) {
    && (forall i :: 0 <= i < |pmap| ==> PageAligned(pmap[i].addr) && pmap[i].addr >= 0)
    && (forall i :: 0 <= i < |pmap| && pmap[i].Available? ==> pmap[i].addr > 0)
    && (forall i, j :: 0 <= i < j < |pmap| ==> pmap[i].Stop() <= pmap[j].addr)
  }

  ghost function Objects(r: PhysRegion): set<object> {
    if r.Available? then {r.bitmap, r.bitmap.words} else {}
  }

  /** No two regions share a bitmap or its words. */
  ghost predicate SeparateBitmaps(pmap: seq<PhysRegion>) {
    forall i, j :: 0 <= i < j < |pmap| ==> Objects(pmap[i]) !! Objects(pmap[j])
  }

  lemma {:induction false} Apart(pmap: seq<PhysRegion>, i: nat)
    requires SeparateBitmaps(pmap) && i < |pmap| && pmap[i].Available?
    ensures forall k :: 0 <= k < |pmap| && k != i ==>
              pmap[i].bitmap !in Objects(pmap[k]) && pmap[i].bitmap.words !in Objects(pmap[k])
  {}

  /** The set bits of a region's bitmap are its available pages. */
  ghost predicate Mirrors(r: PhysRegion, a: set<nat>)
    reads Objects(r)
  {
    match r
    case Available(_, pages, bm) => bm.Valid() && bm.len == pages && a == bm.usable
    case Reserved(_, _) => a == {}
  }

  /** The frames of one region whose page numbers are listed. */
  ghost function RegionFrames(r: PhysRegion, a: set<nat>): set<int> {
    set j | j in a :: r.addr + j * 0x1000
  }

  ghost function Frames(pmap: seq<PhysRegion>, avail: seq<set<nat>>): set<int>
    requires |pmap| == |avail|
  {
    if pmap == [] then {} else RegionFrames(pmap[0], avail[0]) + Frames(pmap[1..], avail[1..])
  }

  ghost predicate Listed(pmap: seq<PhysRegion>, avail: seq<set<nat>>, f: int)
    requires |pmap| == |avail|
  {
    exists i, j :: 0 <= i < |pmap| && j in avail[i] && f == pmap[i].addr + j * 0x1000
  }

  lemma {:induction false} FramesListed(pmap: seq<PhysRegion>, avail: seq<set<nat>>, f: int)
    requires |pmap| == |avail|
    ensures f in Frames(pmap, avail) <==> Listed(pmap, avail, f)
  {
    if pmap != [] {
      FramesListed(pmap[1..], avail[1..], f);
      if Listed(pmap[1..], avail[1..], f) {
        var i, j :| 0 <= i < |pmap| - 1 && j in avail[1..][i] && f == pmap[1..][i].addr + j * 0x1000;
        assert j in avail[i + 1] && f == pmap[i + 1].addr + j * 0x1000;
      }
      if Listed(pmap, avail, f) {
        var i, j :| 0 <= i < |pmap| && j in avail[i] && f == pmap[i].addr + j * 0x1000;
        if i > 0 { assert j in avail[1..][i - 1] && f == pmap[1..][i - 1].addr + j * 0x1000; }
      }
    }
  }

  ghost predicate InRange(pmap: seq<PhysRegion>, avail: seq<set<nat>>) {
    |pmap| == |avail| && forall i, j :: 0 <= i < |pmap| && j in avail[i] ==> j < pmap[i].pages
  }

  /** A frame belongs to one region and has one page number there. */
  lemma {:induction false} FramesDiffer(pmap: seq<PhysRegion>, i: nat, j: nat, k: nat, l: nat)
    requires Layout(pmap) && i < |pmap| && k < |pmap| && j < pmap[i].pages && l < pmap[k].pages
    requires (i, j) != (k, l)
    ensures pmap[i].addr + j * 0x1000 != pmap[k].addr + l * 0x1000
  {}

  lemma {:induction false} FramesRemove(pmap: seq<PhysRegion>, avail: seq<set<nat>>, i: nat, j: nat)
    requires Layout(pmap) && InRange(pmap, avail) && i < |pmap| && j in avail[i]
    ensures Frames(pmap, avail[i := avail[i] - {j}]) == Frames(pmap, avail) - {pmap[i].addr + j * 0x1000}
  {
    var next := avail[i := avail[i] - {j}];
    forall f ensures f in Frames(pmap, next) <==> f in Frames(pmap, avail) && f != pmap[i].addr + j * 0x1000 {
      FramesListed(pmap, avail, f);
      FramesListed(pmap, next, f);
      if Listed(pmap, avail, f) && f != pmap[i].addr + j * 0x1000 {
        var k, l :| 0 <= k < |pmap| && l in avail[k] && f == pmap[k].addr + l * 0x1000;
        assert l in next[k];
      }
      if Listed(pmap, next, f) {
        var k, l :| 0 <= k < |pmap| && l in next[k] && f == pmap[k].addr + l * 0x1000;
        assert l in avail[k] && (k, l) != (i, j);
        FramesDiffer(pmap, i, j, k, l);
      }
    }
  }

  lemma {:induction false} FramesAdd(pmap: seq<PhysRegion>, avail: seq<set<nat>>, i: nat, j: nat)
    requires |pmap| == |avail| && i < |pmap|
    ensures Frames(pmap, avail[i := avail[i] + {j}]) == Frames(pmap, avail) + {pmap[i].addr + j * 0x1000}
  {
    var next := avail[i := avail[i] + {j}];
    assert j in next[i];
    forall f ensures f in Frames(pmap, next) <==> f in Frames(pmap, avail) || f == pmap[i].addr + j * 0x1000 {
      FramesListed(pmap, avail, f);
      FramesListed(pmap, next, f);
      if Listed(pmap, avail, f) {
        var k, l :| 0 <= k < |pmap| && l in avail[k] && f == pmap[k].addr + l * 0x1000;
        assert l in next[k];
      }
      if Listed(pmap, next, f) {
        var k, l :| 0 <= k < |pmap| && l in next[k] && f == pmap[k].addr + l * 0x1000;
        assert (k == i && l == j) || l in avail[k];
      }
    }
  }

  /** The first available page of the first region that has one is the lowest free frame. */
  lemma {:induction false} FirstIsLowest(pmap: seq<PhysRegion>, avail: seq<set<nat>>, i: nat, j: nat)
    requires Layout(pmap) && InRange(pmap, avail) && i < |pmap| && j in avail[i]
    requires forall k :: 0 <= k < i ==> avail[k] == {}
    requires forall l :: l in avail[i] ==> j <= l
    ensures pmap[i].addr + j * 0x1000 in Frames(pmap, avail)
    ensures forall f :: f in Frames(pmap, avail) ==> pmap[i].addr + j * 0x1000 <= f
  {
    FramesListed(pmap, avail, pmap[i].addr + j * 0x1000);
    forall f | f in Frames(pmap, avail) ensures pmap[i].addr + j * 0x1000 <= f {
      FramesListed(pmap, avail, f);
      var k, l :| 0 <= k < |pmap| && l in avail[k] && f == pmap[k].addr + l * 0x1000;
      FrameOrder(pmap, i, j, k, l);
    }
  }

  lemma {:induction false} FrameProper(pmap: seq<PhysRegion>, i: nat, j: nat)
    requires Layout(pmap) && i < |pmap| && pmap[i].Available?
    ensures pmap[i].addr + j * 0x1000 > 0 && PageAligned(pmap[i].addr + j * 0x1000)
  {}

  lemma {:induction false} FrameOrder(pmap: seq<PhysRegion>, i: nat, j: nat, k: nat, l: nat)
    requires Layout(pmap) && i <= k < |pmap| && j < pmap[i].pages && l < pmap[k].pages && (i == k ==> j <= l)
    ensures pmap[i].addr + j * 0x1000 <= pmap[k].addr + l * 0x1000
  {}

  lemma {:induction false} NoneListed(pmap: seq<PhysRegion>, avail: seq<set<nat>>)
    requires |pmap| == |avail| && forall k :: 0 <= k < |pmap| ==> avail[k] == {}
    ensures Frames(pmap, avail) == {}
  {
    if pmap != [] { NoneListed(pmap[1..], avail[1..]); }
  }

  ghost function ManagedFrames(pmap: seq<PhysRegion>, limit: int): set<int> {
    set i, j | 0 <= i < |pmap| && pmap[i].Available? && j in Interval(0, pmap[i].pages)
        && pmap[i].addr + j * 0x1000 > limit
      :: pmap[i].addr + j * 0x1000
  }

  lemma {:induction false} ManagedFramesExact(pmap: seq<PhysRegion>, limit: int, ptr: int)
    requires Layout(pmap) && PageAligned(ptr)
    ensures ptr in ManagedFrames(pmap, limit) <==> ptr > limit && exists i :: 0 <= i < |pmap| && Contains(pmap[i], ptr)
  {
    if i :| 0 <= i < |pmap| && Contains(pmap[i], ptr) {
      PagesApart(pmap[i].addr, ptr);
      assert (ptr - pmap[i].addr) / 0x1000 in Interval(0, pmap[i].pages);
    }
  }

  class FrameAllocator {
    const pmap: seq<PhysRegion>
    /** `V2P(pmm_vma_stop)`: frames up to here are never released. */
    const limit: int
    ghost const maps: set<Bitmap>
    ghost const arrays: set<array<nat>>
    /** The frames `pmm_free` accepts: strictly above the limit, in available memory. */
    ghost const managed: set<int>
    /** Free page numbers of each region, and the free frames they stand for. */
    ghost var avail: seq<set<nat>>
    ghost var free: set<int>

    /** The state after `pmm_init`, given bitmaps that do not overlap in memory; `open`
        are the pages still free in each region. */
    constructor (pmap: seq<PhysRegion>, limit: int, ghost open: seq<set<nat>>)
      requires Layout(pmap) && SeparateBitmaps(pmap) && |open| == |pmap| && limit >= 0
      requires forall i :: 0 <= i < |pmap| ==> Mirrors(pmap[i], open[i])
      ensures Valid() && this.pmap == pmap && this.limit == limit && free == Frames(pmap, open)
    {
      this.pmap, this.limit := pmap, limit;
      maps := set i | 0 <= i < |pmap| && pmap[i].Available? :: pmap[i].bitmap;
      arrays := set i | 0 <= i < |pmap| && pmap[i].Available? :: pmap[i].bitmap.words;
      managed := ManagedFrames(pmap, limit);
      avail := open;
      free := Frames(pmap, open);
      new;
      forall ptr | PageAligned(ptr) ensures ptr in managed <==> Releasable(ptr) {
        ManagedFramesExact(pmap, limit, ptr);
      }
      assert Fixed();
    }

    /** The part of the invariant that never changes. */
    ghost predicate Fixed() {
      && Layout(pmap) && SeparateBitmaps(pmap) && limit >= 0
      && (forall i :: 0 <= i < |pmap| && pmap[i].Available? ==>
          pmap[i].bitmap in maps && pmap[i].bitmap.words in arrays)
      && (forall ptr {:trigger Releasable(ptr)} :: PageAligned(ptr) ==> (ptr in managed <==> Releasable(ptr)))
    }

    ghost predicate Valid()
      reads this, maps, arrays
    {
      forall u {:trigger UnfoldFrames(u)} :: UnfoldFrames(u) ==> Inv()
    }

    ghost predicate Inv()
      reads this, maps, arrays
    {
      && Fixed()
      && |avail| == |pmap|
      && (forall i :: 0 <= i < |pmap| ==> Mirrors(pmap[i], avail[i]))
      && free == Frames(pmap, avail)
    }

    lemma {:induction false} ValidInRange()
      requires Inv()
      ensures InRange(pmap, avail)
    {
      assert UnfoldBits(true);
      forall i, j | 0 <= i < |pmap| && j in avail[i] ensures j < pmap[i].pages {
        assert Mirrors(pmap[i], avail[i]);
      }
    }

    /** `pmm_alloc`: the lowest free frame, or 0 exactly when there is none. */
    method Alloc() returns (pa: int)
      requires Valid()
      modifies this`avail, this`free, maps, arrays
      ensures Valid()
      ensures old(free) == {} ==> pa == 0 && free == {}
      ensures old(free) != {} ==> pa in old(free) && pa > 0 && PageAligned(pa) && free == old(free) - {pa}
      ensures old(free) != {} ==> forall f :: f in old(free) ==> pa <= f
    {
      assert UnfoldFrames(true);
      ghost var was := avail;
      ValidInRange();
      var i := 0;
      while i < |pmap|
        invariant 0 <= i <= |pmap| && Inv() && avail == was && free == old(free)
        invariant forall k :: 0 <= k < i ==> avail[k] == {}
      {
        if pmap[i].Available? {
          assert Mirrors(pmap[i], avail[i]);
          var j := TakeFrom(i);
          if j != pmap[i].bitmap.len {
            FirstIsLowest(pmap, was, i, j);
            FrameProper(pmap, i, j);
            return pmap[i].addr + j * 0x1000;
          }
        } else {
          assert Mirrors(pmap[i], avail[i]);
        }
        i := i + 1;
      }
      NoneListed(pmap, avail);
      pa := 0;
    }

    /** One turn of the loop of `pmm_alloc`: search the bitmap of region `i`. */
    method TakeFrom(i: nat) returns (j: nat)
      requires Inv() && i < |pmap| && pmap[i].Available?
      modifies this`avail, this`free, maps, arrays
      ensures Inv()
      ensures j == pmap[i].bitmap.len ==> old(avail[i]) == {} && avail == old(avail) && free == old(free)
      ensures j != pmap[i].bitmap.len ==> j in old(avail[i]) && forall l :: l in old(avail[i]) ==> j <= l
      ensures j != pmap[i].bitmap.len ==> free == old(free) - {pmap[i].addr + j * 0x1000}
    {
      ValidInRange();
      var bm := pmap[i].bitmap;
      assert Mirrors(pmap[i], avail[i]);
      ghost var was := avail;
      Apart(pmap, i);
      j := bm.FindAndSet(bm.len);
      forall k | 0 <= k < |pmap| && k != i ensures Mirrors(pmap[k], was[k]) {}
      if j != bm.len {
        FramesRemove(pmap, was, i, j);
        MirrorsAgain(was, i, was[i] - {j});
        free := free - {pmap[i].addr + j * 0x1000};
        avail := was[i := was[i] - {j}];
      } else {
        MirrorsAgain(was, i, was[i]);
      }
    }

    lemma {:induction false} MirrorsAgain(was: seq<set<nat>>, i: nat, a: set<nat>)
      requires |was| == |pmap| && i < |pmap| && Mirrors(pmap[i], a)
      requires forall k :: 0 <= k < |pmap| && k != i ==> Mirrors(pmap[k], was[k])
      ensures forall k :: 0 <= k < |pmap| ==> Mirrors(pmap[k], was[i := a][k])
    {}

    /** `pmm_free`; false stands for a panic. */
    method Free(ptr: int) returns (ok: bool)
      requires Valid() && PageAligned(ptr)
      modifies this`avail, this`free, maps, arrays
      ensures ok <==> ptr in managed
      ensures Valid() && free == if ok then old(free) + {ptr} else old(free)
    {
      assert UnfoldFrames(true);
      assert ptr in managed <==> Releasable(ptr);
      if ptr <= limit {
        return false;
      }
      var i := 0;
      while i < |pmap|
        invariant 0 <= i <= |pmap|
        invariant forall k :: 0 <= k < i ==> !Contains(pmap[k], ptr)
      {
        if pmap[i].Available? && !(ptr >= pmap[i].Stop() || ptr < pmap[i].addr) {
          assert Contains(pmap[i], ptr);
          var j := (ptr - pmap[i].addr) / 0x1000;
          PagesApart(pmap[i].addr, ptr);
          PutBack(i, j);
          return true;
        }
        i := i + 1;
      }
      ok := false;
    }

    /** The end of `pmm_free`: release page `j` of region `i`. */
    method PutBack(i: nat, j: nat)
      requires Inv() && i < |pmap| && pmap[i].Available? && j < pmap[i].pages
      modifies this`avail, this`free, maps, arrays
      ensures Inv() && free == old(free) + {pmap[i].addr + j * 0x1000}
    {
      var bm := pmap[i].bitmap;
      assert Mirrors(pmap[i], avail[i]);
      ghost var was := avail;
      FramesAdd(pmap, was, i, j);
      Apart(pmap, i);
      bm.Unset(j);
      forall k | 0 <= k < |pmap| && k != i ensures Mirrors(pmap[k], was[k]) {}
      MirrorsAgain(was, i, was[i] + {j});
      free := free + {pmap[i].addr + j * 0x1000};
      avail := was[i := was[i] + {j}];
    }

    lemma {:induction false} ZeroUnmanaged()
      requires Valid()
      ensures 0 !in managed
    {
      assert UnfoldFrames(true);
      assert 0 in managed <==> Releasable(0);
    }

    ghost predicate Releasable(ptr: int) {
      ptr > limit && exists i :: 0 <= i < |pmap| && Contains(pmap[i], ptr)
    }
  }

  predicate Contains(r: PhysRegion, ptr: int) {
    r.Available? && r.addr <= ptr < r.Stop()
  }
}
