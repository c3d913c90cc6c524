/** `kernel/mm/vmm.c`: allocating, mapping and freeing virtual ranges. The region
    list and the page tables of a space are kept in agreement, and every frame in
    exactly one role. */
module Vmm {
  import opened Folding
  import opened Numeric
  import opened Sequences
  import opened RegionSpec
  import opened RegionList
  import opened FirstFit
  import opened PageTable
  import opened Coherence
  import opened Mmu

  /** What a call of the virtual memory manager ends in; all but the first two and the
      last are panics. */
  datatype Result =
    | Ok(va: int)
    | Null
    | Overlaps        // vmm_insert_range
    | OutOfMemory     // pmm_xalloc
    | AlreadyUsed     // "overwrite of an already used virtual address"
    | NoSuchRange     // vmm_remove_range
    | NotMapped       // "trying to unmap a non mapped va"
    | BadFrame        // pmm_free
    | Backwards(va: int)   // no panic: a range ending at or below its start; no page is touched

  /** The pages of `[lo, hi)` of one space. */
  ghost function PageKeys(root: int, lo: int, hi: int): set<(int, int)> {
    set va | lo <= va < hi && PageVa(va) :: (root, PageNo(va))
  }

  lemma {:induction false} PageKeysStep(root: int, lo: int, va: int)
    requires lo <= va && PageVa(va)
    ensures PageKeys(root, lo, va + PAGE) == PageKeys(root, lo, va) + {(root, PageNo(va))}
    ensures (root, PageNo(va)) !in PageKeys(root, lo, va)
  {
    forall k | k in PageKeys(root, lo, va + PAGE) ensures k in PageKeys(root, lo, va) + {(root, PageNo(va))} {
      var w :| lo <= w < va + PAGE && PageVa(w) && k == (root, PageNo(w));
      if w > va { AlignedApart(va, w); }
    }
    forall w | lo <= w < va && PageVa(w) ensures PageNo(w) != PageNo(va) {
      if PageNo(w) == PageNo(va) { PageNoInjective(w, va); }
    }
  }

  /** The pages of `[start, va)` got a frame each: they were unmapped in `l0`, and the
      anonymous pages `an0` were joined by exactly these. */
  ghost predicate FilledUpTo(l0: Leaves, an0: Anon, l: Leaves, an: Anon, root: int, start: int, va: int, flags: int) {
    forall u {:trigger UnfoldChanges(u)} :: UnfoldChanges(u) ==>
      && Rewritten(l0, l, root, start, va, flags)
      && PageKeys(root, start, va) <= an.Keys && an - PageKeys(root, start, va) == an0
      && (forall w :: PageVa(w) && start <= w < va ==> LeafAt(l0, root, w) == 0)
  }

  lemma {:induction false} FilledNothing(l: Leaves, an: Anon, root: int, start: int, flags: int)
    ensures FilledUpTo(l, an, l, an, root, start, start, flags)
  {}

  lemma {:induction false} FilledStep(l0: Leaves, an0: Anon, l: Leaves, an: Anon, root: int, start: int, va: int,
                                      flags: int, e: int, an': Anon)
    requires FilledUpTo(l0, an0, l, an, root, start, va, flags) && start <= va && PageVa(va) && Carries(e, flags)
    requires (root, PageNo(va)) in an' && an' - {(root, PageNo(va))} == an && LeafAt(l, root, va) == 0
    ensures FilledUpTo(l0, an0, Updated(l, root, PageNo(va), e), an', root, start, va + PAGE, flags)
  {
    assert UnfoldChanges(true);
    assert LeafAt(l, root, va) == LeafAt(l0, root, va);
    RewrittenStep(l0, l, root, start, va, flags, e);
    PageKeysStep(root, start, va);
    assert an' - PageKeys(root, start, va + PAGE) == an - PageKeys(root, start, va);
    forall w | PageVa(w) && start <= w < va + PAGE ensures LeafAt(l0, root, w) == 0 {
      if va < w { AlignedApart(va, w); }
    }
  }

  /** The frames that the pages of `[lo, hi)` show. */
  ghost function Shown(l: Leaves, root: int, lo: int, hi: int): set<int> {
    set va | lo <= va < hi && PageVa(va) :: PageAddr(LeafAt(l, root, va))
  }

  /** The pages of `[start, va)` are unmapped now, and the frames they showed are free. */
  ghost predicate DrainedUpTo(l0: Leaves, an0: Anon, f0: set<int>, l: Leaves, an: Anon, f: set<int>, root: int,
                              start: int, va: int) {
    forall u {:trigger UnfoldChanges(u)} :: UnfoldChanges(u) ==>
      && l == l0 - PageKeys(root, start, va) && an == an0 - PageKeys(root, start, va)
      && f == f0 + Shown(l0, root, start, va)
  }

  lemma {:induction false} DrainedStep(l0: Leaves, an0: Anon, f0: set<int>, l: Leaves, an: Anon, f: set<int>,
                                       root: int, start: int, va: int)
    requires DrainedUpTo(l0, an0, f0, l, an, f, root, start, va) && start <= va && PageVa(va)
    ensures var k := (root, PageNo(va));
            DrainedUpTo(l0, an0, f0, l - {k}, an - {k}, f + {PageAddr(LeafAt(l0, root, va))}, root, start, va + PAGE)
  {
    PageKeysStep(root, start, va);
    ShownStep(l0, root, start, va);
  }

  lemma {:induction false} ShownStep(l: Leaves, root: int, lo: int, va: int)
    requires lo <= va && PageVa(va)
    ensures Shown(l, root, lo, va + PAGE) == Shown(l, root, lo, va) + {PageAddr(LeafAt(l, root, va))}
  {
    forall w | lo <= w < va + PAGE && PageVa(w) ensures w <= va {
      if va < w { AlignedApart(va, w); }
    }
  }

  lemma {:induction false} DrainedRewritten(l: Leaves, root: int, lo: int, hi: int)
    ensures Rewritten(l, l - PageKeys(root, lo, hi), root, lo, hi, 0)
  {
    forall r, va | PageVa(va)
      ensures (r, PageNo(va)) in PageKeys(root, lo, hi) <==> r == root && lo <= va < hi
    {
      if (r, PageNo(va)) in PageKeys(root, lo, hi) {
        var w :| lo <= w < hi && PageVa(w) && (r, PageNo(va)) == (root, PageNo(w));
        PageNoInjective(va, w);
      }
    }
  }

  // ---- what a range costs -----------------------------------------------------------------

  ghost predicate AtMostOne(s: set<int>) {
    s == {} || exists x :: s == {x}
  }

  ghost function TablesFor(root: int, r: Range): set<Slot> {
    Paths(root, r.start, r.stop)
  }

  /** The frames it takes to map a range with the tables `places` at hand: one for each page
      and one for each missing table. */
  ghost function Cost(places: set<Slot>, root: int, r: Range): nat {
    |PageKeys(root, r.start, r.stop)| + |Paths(root, r.start, r.stop) - places|
  }

  /** The free frames `f` do not suffice for that. */
  ghost predicate Lacks(f: set<int>, places: set<Slot>, root: int, r: Range) {
    forall u {:trigger UnfoldCounts(u)} :: UnfoldCounts(u) ==> |f| < Cost(places, root, r)
  }

  lemma {:induction false} LacksMeaning(f: set<int>, places: set<Slot>, root: int, r: Range)
    ensures Lacks(f, places, root, r) <==> |f| < Cost(places, root, r)
  {
    assert UnfoldCounts(true);
  }

  ghost predicate LacksTables(f: set<int>, places: set<Slot>, path: set<Slot>) {
    forall u {:trigger UnfoldCounts(u)} :: UnfoldCounts(u) ==> |f| < |path - places|
  }

  /** A walk gets to the end exactly when there are frames for all the tables it misses. */
  lemma {:induction false} WalkCost(f: set<int>, t: set<int>, p: set<Slot>, f': set<int>, t': set<int>, p': set<Slot>,
                                    path: set<Slot>, leaf: Slot, ok: bool)
    requires f + t == f' + t' && f !! t && f' !! t' && EquallyMany(t, p) && EquallyMany(t', p') && leaf in path
    requires if ok then p' == p + path else p' <= p + path && leaf !in p' && f' == {}
    ensures ok <==> !LacksTables(f, p, path)
  {
    assert UnfoldCounts(true);
    assert |f + t| == |f| + |t| && |f' + t'| == |f'| + |t'|;
    assert p + path == p + (path - p) && |p + (path - p)| == |p| + |path - p|;
    if !ok { NoMore(p' + {leaf}, p + path); }
  }

  lemma {:induction false} LacksMore(f: set<int>, places: set<Slot>, one: set<Slot>, all: set<Slot>)
    requires LacksTables(f, places, one) && one <= all
    ensures LacksTables(f, places, all)
  {
    assert UnfoldCounts(true);
    NoMore(one - places, all - places);
  }

  /** A state of the frames: leaves, anonymous pages, free frames, tables and their places. */
  datatype Before = Before(l: Leaves, an: Anon, f: set<int>, t: set<int>, p: set<Slot>) {
    ghost function Used(): set<int> { f + t + an.Values }

    ghost predicate Sound() { Roles(l, t, f, an) && EquallyMany(t, p) }
  }

  lemma {:induction false} PathsStep(root: int, lo: int, va: int)
    requires lo <= va && PageVa(va)
    ensures Paths(root, lo, va + PAGE) == Paths(root, lo, va) + Path(root, va)
  {
    forall w | lo <= w < va + PAGE && PageVa(w) ensures w <= va {
      if va < w { AlignedApart(va, w); }
    }
  }

  lemma {:induction false} PathsNext(p: set<Slot>, root: int, lo: int, va: int)
    requires lo <= va && PageVa(va)
    ensures p + Paths(root, lo, va) + Path(root, va) == p + Paths(root, lo, va + PAGE)
  {
    PathsStep(root, lo, va);
  }

  lemma {:induction false} OneAdded(an: Anon, k: (int, int), pa: int)
    requires k !in an
    ensures an[k := pa] - {k} == an
  {}

  lemma {:induction false} UsedCount(b: Before)
    requires b.Sound()
    ensures |b.Used()| == |b.f| + |b.p| + |b.an.Keys|
  {
    assert UnfoldCounts(true);
    AsMany(b.an);
    assert |b.f + b.t| == |b.f| + |b.t| && |b.f + b.t + b.an.Values| == |b.f + b.t| + |b.an.Values|;
  }

  lemma {:induction false} BuiltCount(b: Before, c: Before, done: set<Slot>)
    requires b.Sound() && c.Sound() && c.Used() == b.Used() && c.an == b.an && c.p == b.p + done
    ensures |b.f| == |c.f| + |done - b.p|
  {
    UsedCount(b);
    UsedCount(c);
    TwoParts(b.p, done, {});
  }

  lemma {:induction false} TwoParts(p: set<Slot>, one: set<Slot>, two: set<Slot>)
    ensures |p + one| == |p| + |one - p| && |one + two - p| == |one - p| + |two - (p + one)|
  {
    var x, y := one - p, two - (p + one);
    assert p + one == p + x && |p + x| == |p| + |x|;
    assert one + two - p == x + y && |x + y| == |x| + |y|;
  }

  lemma {:induction false} KeysAdded(an0: Anon, an: Anon, keys: set<(int, int)>)
    requires keys <= an.Keys && an - keys == an0
    ensures |an.Keys| == |an0.Keys| + |keys|
  {
    assert an0.Keys == an.Keys - keys;
  }

  /** Having mapped all of the range, there were frames enough. */
  lemma {:induction false} Enough(b: Before, c: Before, root: int, r: Range)
    requires b.Sound() && c.Sound() && c.Used() == b.Used() && c.p == b.p + Paths(root, r.start, r.stop)
    requires PageKeys(root, r.start, r.stop) <= c.an.Keys && c.an - PageKeys(root, r.start, r.stop) == b.an
    ensures !Lacks(b.f, b.p, root, r)
  {
    var paths := Paths(root, r.start, r.stop);
    LacksMeaning(b.f, b.p, root, r);
    UsedCount(b);
    UsedCount(c);
    KeysAdded(b.an, c.an, PageKeys(root, r.start, r.stop));
    TwoParts(b.p, paths, {});
  }

  lemma {:induction false} FilledEnough(b: Before, c: Before, root: int, r: Range)
    requires b.Sound() && c.Sound() && c.Used() == b.Used() && c.p == b.p + Paths(root, r.start, r.stop)
    requires FilledUpTo(b.l, b.an, c.l, c.an, root, r.start, r.stop, r.flags)
    ensures !Lacks(b.f, b.p, root, r)
  {
    assert UnfoldChanges(true);
    Enough(b, c, root, r);
  }

  /** Having stopped at `va` with no frame left, there were too few for the range. */
  lemma {:induction false} TooFew(b: Before, t: set<int>, p: set<Slot>, an: Anon, lost: set<int>, root: int, va: int,
                                  r: Range)
    requires b.Sound() && EquallyMany(t, p) && OneToOne(an) && b.Used() == t + lost + an.Values && AtMostOne(lost)
    requires PageKeys(root, r.start, va) <= an.Keys && an - PageKeys(root, r.start, va) == b.an
    requires r.start <= va < r.stop && PageVa(va) && PageAligned(r.stop) && p <= b.p + Paths(root, r.start, va + PAGE)
    requires lost != {} ==> LeafSlot(root, PageNo(va)) !in p
    ensures Lacks(b.f, b.p, root, r)
  {
    assert UnfoldCounts(true);
    UsedCount(b);
    AsMany(an);
    KeysAdded(b.an, an, PageKeys(root, r.start, va));
    MoreKeys(root, r.start, va, r.stop);
    PlacesBound(b.p, p, root, r.start, va, r.stop, lost != {});
    UnionBound(t, lost, an.Values);
  }

  lemma {:induction false} UnionBound(a: set<int>, b: set<int>, c: set<int>)
    requires AtMostOne(b)
    ensures |a + b + c| <= |a| + |c| + if b == {} then 0 else 1
  {
    assert |a + b| <= |a| + |b| && |a + b + c| <= |a + b| + |c|;
  }

  lemma {:induction false} MoreKeys(root: int, lo: int, va: int, hi: int)
    requires lo <= va < hi && PageVa(va)
    ensures |PageKeys(root, lo, va)| + 1 <= |PageKeys(root, lo, hi)|
  {
    PageKeysStep(root, lo, va);
    assert PageKeys(root, lo, va) + {(root, PageNo(va))} <= PageKeys(root, lo, hi);
    NoMore(PageKeys(root, lo, va) + {(root, PageNo(va))}, PageKeys(root, lo, hi));
  }

  lemma {:induction false} PlacesBound(p0: set<Slot>, p: set<Slot>, root: int, lo: int, va: int, hi: int, short: bool)
    requires lo <= va < hi && PageVa(va) && PageAligned(hi) && p <= p0 + Paths(root, lo, va + PAGE)
    requires short ==> LeafSlot(root, PageNo(va)) !in p
    ensures |p| + (if short then 1 else 0) <= |p0| + |Paths(root, lo, hi) - p0|
  {
    var all := p0 + Paths(root, lo, hi);
    AlignedApart(va, hi);
    assert Paths(root, lo, va + PAGE) <= Paths(root, lo, hi);
    assert LeafSlot(root, PageNo(va)) in Path(root, va);
    PathsStep(root, lo, va);
    assert all == p0 + (Paths(root, lo, hi) - p0) && |all| == |p0| + |Paths(root, lo, hi) - p0|;
    if short {
      NoMore(p + {LeafSlot(root, PageNo(va))}, all);
    } else {
      NoMore(p, all);
    }
  }

  // ---- who owns a frame ---------------------------------------------------------------

  /** No page of the range that was not allocated by this layer shows a table page or the
      frame of an anonymous page outside the range. */
  ghost predicate Owned(l: Leaves, tables: set<int>, an: Anon, root: int, lo: int, hi: int) {
    forall va :: PageVa(va) && lo <= va < hi && (root, PageNo(va)) !in an ==>
      var f := PageAddr(LeafAt(l, root, va)); f !in tables && f !in (an - PageKeys(root, lo, hi)).Values
  }

  /** Freeing the frames that a range shows leaves every frame one role exactly when the
      range owns them. */
  lemma {:induction false} DrainedRoles(l: Leaves, tables: set<int>, free: set<int>, an: Anon, root: int, lo: int,
                                        hi: int)
    requires Roles(l, tables, free, an)
    ensures var keys := PageKeys(root, lo, hi);
            Roles(l - keys, tables, free + Shown(l, root, lo, hi), an - keys) <==> Owned(l, tables, an, root, lo, hi)
  {
    var keys := PageKeys(root, lo, hi);
    FewerAnonymous(an, keys);
    if Owned(l, tables, an, root, lo, hi) {
      forall f | f in Shown(l, root, lo, hi) ensures f !in tables && f !in (an - keys).Values {
        var va :| lo <= va < hi && PageVa(va) && f == PageAddr(LeafAt(l, root, va));
        if (root, PageNo(va)) in an { AnonymousOwned(l, tables, free, an, root, lo, hi, va); }
      }
    }
  }

  lemma {:induction false} AnonymousOwned(l: Leaves, tables: set<int>, free: set<int>, an: Anon, root: int, lo: int,
                                          hi: int, va: int)
    requires Roles(l, tables, free, an) && PageVa(va) && lo <= va < hi && (root, PageNo(va)) in an
    ensures var f := PageAddr(LeafAt(l, root, va));
            f in an.Values && f !in tables && f !in (an - PageKeys(root, lo, hi)).Values
  {
    var k := (root, PageNo(va));
    assert k in PageKeys(root, lo, hi) && an[k] == PageAddr(LeafAt(l, root, va));
  }

  /** A range of anonymous pages owns its frames. */
  lemma {:induction false} AllAnonymous(l: Leaves, tables: set<int>, free: set<int>, an: Anon, root: int, lo: int,
                                        hi: int)
    requires Roles(l, tables, free, an) && PageKeys(root, lo, hi) <= an.Keys
    ensures Owned(l, tables, an, root, lo, hi) && Shown(l, root, lo, hi) <= an.Values
  {
    forall va | PageVa(va) && lo <= va < hi
        ensures (root, PageNo(va)) in an && PageAddr(LeafAt(l, root, va)) in an.Values {
      assert (root, PageNo(va)) in PageKeys(root, lo, hi);
      AnonymousOwned(l, tables, free, an, root, lo, hi, va);
    }
  }

  /** The frames of an anonymous range and those of the other anonymous pages. */
  lemma {:induction false} ShownAndKept(l: Leaves, an: Anon, root: int, lo: int, hi: int)
    requires Backs(l, an) && PageKeys(root, lo, hi) <= an.Keys
    ensures Shown(l, root, lo, hi) + (an - PageKeys(root, lo, hi)).Values == an.Values
  {
    var keys := PageKeys(root, lo, hi);
    FewerAnonymous(an, keys);
    forall va | lo <= va < hi && PageVa(va) ensures PageAddr(LeafAt(l, root, va)) in an.Values {
      assert (root, PageNo(va)) in keys && an[(root, PageNo(va))] == PageAddr(LeafAt(l, root, va));
    }
    forall f | f in an.Values ensures f in Shown(l, root, lo, hi) + (an - keys).Values {
      var k :| k in an && an[k] == f;
      if k in keys {
        var va :| lo <= va < hi && PageVa(va) && k == (root, PageNo(va));
      } else {
        assert k in an - keys && (an - keys)[k] == f;
      }
    }
  }

  function Span(va: int, pages: nat, flags: int): Range {
    Range(va, va + pages * 0x1000, flags)
  }

  ghost predicate WellKept(space: Space)
    reads space, space.nodes
  {
    && space.Linked()
    && forall u {:trigger UnfoldRoles(u)} :: UnfoldRoles(u) ==> Tidy(space.ranges) && AllPlaced(space.ranges)
  }

  /** `Coherent`, kept folded. */
  ghost predicate Agreeing(l: Leaves, root: int, s: seq<Range>) {
    forall u {:trigger UnfoldRoles(u)} :: UnfoldRoles(u) ==> Coherent(l, root, s)
  }

  /** `vmm_add_range` on a well-kept list, by meaning; null stands for the panic. */
  method PutIn(space: Space, req: Range) returns (region: Region?)
    requires WellKept(space) && PlacedOk(req) && req.start < req.stop
    modifies space, space.nodes
    ensures region == null <==> OverlapsAny(old(space.ranges), req)
    ensures region != null ==> space.Linked() && Grew(old(space.ranges), space.ranges, req)
    ensures region != null ==> Reaches(old(space.ranges), req, region.stop)
    ensures forall n :: n in space.nodes ==> n in old(space.nodes) || fresh(n)
  {
    assert UnfoldRoles(true);
    AddGrows(space.ranges, req);
    region := space.AddRange(req);
  }

  /** `vmm_remove_range` on a well-kept list, by meaning; false stands for a panic. */
  method TakeOut(space: Space, lo: int, hi: int) returns (ok: bool)
    requires WellKept(space) && lo < hi && PageAligned(lo) && PageAligned(hi)
    modifies space, space.nodes
    ensures ok <==> Uniform(old(space.ranges), lo, hi)
    ensures ok ==> space.Linked() && Shrank(old(space.ranges), space.ranges, lo, hi) && CanonicalSpan(lo, hi)
    ensures forall n :: n in space.nodes ==> n in old(space.nodes) || fresh(n)
  {
    assert UnfoldRoles(true);
    RemoveShrinks(space.ranges, lo, hi);
    ok := space.RemoveRange(lo, hi);
  }

  /** The search loop of `vmm_alloc_between`. */
  method FindPlace(space: Space, lower: int, need: int) returns (va: int, prev: Region?, cur: Region?, ghost k: nat)
    requires space.Linked()
    ensures va == Place(space.ranges, lower, need).0 && cur == At(space.nodes, Place(space.ranges, lower, need).1)
    ensures k == Place(space.ranges, lower, need).1 && k <= |space.nodes| == |space.ranges|
    ensures prev == At(space.nodes, k - 1) && cur == At(space.nodes, k)
  {
    assert UnfoldLinks(true);
    va, prev, cur, k := lower, null, space.region, 0;
    while cur != null
      invariant k <= |space.nodes| && prev == At(space.nodes, k - 1) && cur == At(space.nodes, k)
      invariant Search(space.ranges, lower, need, va, k) == Place(space.ranges, lower, need)
      decreases |space.nodes| - k
    {
      assert cur.Value() == space.ranges[k];
      if cur.stop >= lower {
        va := Max(va, lower);
        if Sub64(cur.start, va) >= need {
          break;
        }
      }
      va := cur.stop;
      prev := cur;
      cur := cur.next;
      k := k + 1;
    }
  }

  /** `vmm_insert_range` on a well-kept list, by meaning. */
  method PutBetween(space: Space, prev: Region?, next: Region?, req: Range, ghost k: nat) returns (region: Region?)
    requires WellKept(space) && k <= |space.nodes| == |space.ranges| && prev == At(space.nodes, k - 1)
             && next == At(space.nodes, k)
    modifies space, space.nodes
    ensures region == null <==> Collides(old(space.ranges), k, req)
    ensures region != null ==> space.Linked() && space.ranges == Spliced(old(space.ranges), k, req)
    ensures region != null && PlacedOk(req) && req.start < req.stop ==>
              && space.Linked() && Grew(old(space.ranges), space.ranges, req) && !OverlapsAny(old(space.ranges), req)
              && Reaches(old(space.ranges), req, region.stop)
    ensures forall n :: n in space.nodes ==> n in old(space.nodes) || fresh(n)
  {
    assert UnfoldRoles(true);
    if !Collides(space.ranges, k, req) && PlacedOk(req) && req.start < req.stop {
      InsertGrows(space.ranges, k, req);
      InsertReaches(space.ranges, k, req);
    }
    region := space.InsertRange(prev, next, req, k);
  }

  class VirtualMemory {
    const mmu: PageTables
    /** The frames allocated for pages, and the page each one backs. */
    ghost var anon: Anon

    ghost predicate Valid()
      reads this, mmu, mmu.pmm, mmu.pmm.maps, mmu.pmm.arrays
    {
      forall u {:trigger UnfoldRoles(u)} :: UnfoldRoles(u) ==> Inv()
    }

    ghost predicate Inv()
      reads this, mmu, mmu.pmm, mmu.pmm.maps, mmu.pmm.arrays
    {
      mmu.Valid() && Roles(mmu.leaves, mmu.tables, mmu.pmm.free, anon)
    }

    /** `pmm_free` would take back every frame that is free or backs an anonymous page. */
    ghost predicate Releasable()
      reads this, mmu, mmu.pmm
    {
      mmu.pmm.free + anon.Values <= mmu.pmm.managed
    }

    constructor (mmu: PageTables)
      requires mmu.Valid()
      ensures Valid() && this.mmu == mmu && anon == map[]
    {
      this.mmu := mmu;
      anon := map[];
    }

    /** All frames that have a role. */
    ghost function Used(): set<int>
      reads this, mmu, mmu.pmm
    {
      mmu.pmm.free + mmu.tables + anon.Values
    }

    /** The state of leaves and frames. */
    ghost function Now(): Before
      reads this, mmu, mmu.pmm
    {
      Before(mmu.leaves, anon, mmu.pmm.free, mmu.tables, mmu.at.Keys)
    }

    /** The space's region list and page tables agree. */
    ghost predicate Agrees(space: Space)
      reads this, mmu, space, space.nodes
    {
      forall u {:trigger UnfoldRoles(u)} :: UnfoldRoles(u) ==> Matches(space)
    }

    ghost predicate Matches(space: Space)
      reads this, mmu, space, space.nodes
    {
      space.Linked() && space.root in mmu.roots && Coherent(mmu.leaves, space.root, space.ranges)
    }

    /** Since the state `b` the tables `done` were reached, new or not, and nothing else
        happened to frames. */
    ghost predicate Built(b: Before, done: set<Slot>)
      reads this, mmu, mmu.pmm, mmu.pmm.maps, mmu.pmm.arrays
    {
      forall u {:trigger UnfoldRoles(u)} :: UnfoldRoles(u) ==>
        && Inv() && b.Sound() && Used() == b.Used() && anon == b.an
        && mmu.at.Keys == b.p + done && b.t <= mmu.tables
    }

    lemma {:induction false} BuiltNothing(b: Before)
      requires Valid() && b == Before(mmu.leaves, anon, mmu.pmm.free, mmu.tables, mmu.at.Keys)
      ensures Built(b, {})
    {
      assert UnfoldRoles(true);
      mmu.TableCount();
    }

    lemma {:induction false} BuiltKept(b: Before, done: set<Slot>)
      requires Built(b, done)
      ensures Valid() && b.Sound() && Used() == b.Used() && anon == b.an && mmu.at.Keys == b.p + done
      ensures b.t <= mmu.tables
    {
      assert UnfoldRoles(true);
    }

    lemma {:induction false} BuiltNext(b: Before, done: set<Slot>, path: set<Slot>)
      requires Valid() && b.Sound() && Used() == b.Used() && anon == b.an && mmu.at.Keys == b.p + done + path
      requires b.t <= mmu.tables
      ensures Built(b, done + path)
    {
      assert UnfoldRoles(true);
    }

    /** There were frames for all tables reached. */
    lemma {:induction false} BuiltEnough(b: Before, done: set<Slot>)
      requires Built(b, done)
      ensures !LacksTables(b.f, b.p, done)
    {
      assert UnfoldRoles(true) && UnfoldCounts(true);
      mmu.TableCount();
      BuiltCount(b, Before(mmu.leaves, anon, mmu.pmm.free, mmu.tables, mmu.at.Keys), done);
    }

    /** When there are none for the next page, there were too few from the start. */
    lemma {:induction false} BuiltTooFew(b: Before, done: set<Slot>, path: set<Slot>)
      requires Built(b, done)
      ensures LacksTables(mmu.pmm.free, mmu.at.Keys, path) ==> LacksTables(b.f, b.p, done + path)
    {
      assert UnfoldRoles(true) && UnfoldCounts(true);
      mmu.TableCount();
      BuiltCount(b, Before(mmu.leaves, anon, mmu.pmm.free, mmu.tables, mmu.at.Keys), done);
      TwoParts(b.p, done, path);
    }

    lemma {:induction false} Opening(space: Space)
      requires Agrees(space)
      ensures WellKept(space) && space.root in mmu.roots && Agreeing(mmu.leaves, space.root, space.ranges)
    {
      assert UnfoldRoles(true);
    }

    lemma {:induction false} Closing(space: Space)
      requires space.Linked() && space.root in mmu.roots
      ensures Agrees(space) <==> Agreeing(mmu.leaves, space.root, space.ranges)
    {
      assert UnfoldRoles(true);
    }

    /** One turn of the mapping loop: a new frame for one page. When memory runs out on the
        way, `lost` is the frame that was taken for the page, if any. */
    method FillPage(root: int, va: int, flags: int) returns (r: Result, ghost lost: set<int>)
      requires Valid() && root in mmu.roots && PageVa(va) && FlagsOk(flags)
      modifies this`anon, mmu, mmu.pmm`avail, mmu.pmm`free, mmu.pmm.maps, mmu.pmm.arrays
      ensures r == Ok(va) || r == OutOfMemory || r == AlreadyUsed
      ensures r.Ok? ==> Valid() && Used() == old(Used()) && mmu.roots == old(mmu.roots) && old(mmu.tables) <= mmu.tables
      ensures r.Ok? ==> exists e :: Carries(e, flags) && mmu.leaves == Updated(old(mmu.leaves), root, PageNo(va), e)
      ensures r.Ok? ==> (root, PageNo(va)) !in old(anon) && (root, PageNo(va)) in anon
      ensures r.Ok? ==> anon - {(root, PageNo(va))} == old(anon) && mmu.at.Keys == old(mmu.at.Keys) + Path(root, va)
      ensures r.Ok? ==> LeafAt(old(mmu.leaves), root, va) == 0
      ensures r.AlreadyUsed? ==> LeafAt(old(mmu.leaves), root, va) != 0
      ensures r.OutOfMemory? ==> mmu.Shape() && anon == old(anon) && old(mmu.pmm.free + mmu.tables) == mmu.tables + lost
      ensures r.OutOfMemory? ==> mmu.at.Keys <= old(mmu.at.Keys) + Path(root, va) && AtMostOne(lost)
      ensures r.OutOfMemory? ==> lost != {} ==> LeafSlot(root, PageNo(va)) !in mmu.at.Keys
    {
      assert UnfoldRoles(true);
      ghost var l, t, f := mmu.leaves, mmu.tables, mmu.pmm.free;
      mmu.LeavesNonZero();
      lost := {};
      var pa := mmu.pmm.Alloc();
      if pa == 0 {
        return OutOfMemory, lost;
      }
      var ok, prior := mmu.MapPage(root, va, pa, flags);
      if !ok {
        return OutOfMemory, {pa};
      }
      if prior != 0 {
        return AlreadyUsed, lost;
      }
      RolesMapped(l, t, f, anon, mmu.tables, mmu.pmm.free, root, PageNo(va), pa, LeafEntry(pa, flags));
      OneAdded(anon, (root, PageNo(va)), pa);
      anon := anon[(root, PageNo(va)) := pa];
      r := Ok(va);
    }

    /** The same turn, seen from the loop that started at `start` in state `b`. */
    method FillNext(root: int, va: int, flags: int, ghost b: Before, ghost start: int, ghost stop: int)
      returns (r: Result)
      requires Valid() && root in mmu.roots && FlagsOk(flags)
      requires start <= va < stop && PageVa(va) && PageAligned(stop)
      requires FilledUpTo(b.l, b.an, mmu.leaves, anon, root, start, va, flags)
      requires b.Sound() && Used() == b.Used() && mmu.at.Keys == b.p + Paths(root, start, va)
      modifies this`anon, mmu, mmu.pmm`avail, mmu.pmm`free, mmu.pmm.maps, mmu.pmm.arrays
      ensures r == Ok(va) || r == OutOfMemory || r == AlreadyUsed
      ensures r.Ok? ==> Valid() && Used() == old(Used()) && mmu.roots == old(mmu.roots) && old(mmu.tables) <= mmu.tables
      ensures r.Ok? ==> FilledUpTo(b.l, b.an, mmu.leaves, anon, root, start, va + PAGE, flags)
      ensures r.Ok? ==> mmu.at.Keys == b.p + Paths(root, start, va + PAGE)
      ensures r.AlreadyUsed? ==> LeafAt(b.l, root, va) != 0
      ensures r.OutOfMemory? ==> Lacks(b.f, b.p, root, Range(start, stop, flags))
      ensures va + PAGE <= stop && PageAligned(va + PAGE)
    {
      assert UnfoldChanges(true);
      assert UnfoldRoles(true);
      AlignedApart(va, stop);
      ghost var l, an := mmu.leaves, anon;
      assert LeafAt(l, root, va) == LeafAt(b.l, root, va);
      PathsNext(b.p, root, start, va);
      ghost var lost;
      r, lost := FillPage(root, va, flags);
      if r.Ok? {
        ghost var e :| Carries(e, flags) && mmu.leaves == Updated(l, root, PageNo(va), e);
        FilledStep(b.l, b.an, l, an, root, start, va, flags, e, anon);
      }
      if r.OutOfMemory? {
        mmu.TableCount();
        TooFew(b, mmu.tables, mmu.at.Keys, an, lost, root, va, Range(start, stop, flags));
      }
    }

    lemma {:induction false} SoundNow(b: Before)
      requires Valid() && b == Before(mmu.leaves, anon, mmu.pmm.free, mmu.tables, mmu.at.Keys)
      ensures b.Sound()
    {
      assert UnfoldRoles(true);
      mmu.TableCount();
    }

    /** The mapping loop shared by `vmm_alloc_between` and `vmm_alloc_at`. Memory runs out
        exactly when there are fewer free frames than pages and missing tables. */
    method Fill(root: int, start: int, stop: int, flags: int) returns (r: Result)
      requires Valid() && root in mmu.roots && start <= stop && PlacedOk(Range(start, stop, flags))
      modifies this`anon, mmu, mmu.pmm`avail, mmu.pmm`free, mmu.pmm.maps, mmu.pmm.arrays
      ensures r == Ok(start) || r == OutOfMemory || r == AlreadyUsed
      ensures r.Ok? ==> Valid() && Used() == old(Used()) && mmu.roots == old(mmu.roots) && old(mmu.tables) <= mmu.tables
      ensures r.Ok? ==> FilledUpTo(old(mmu.leaves), old(anon), mmu.leaves, anon, root, start, stop, flags)
      ensures r.Ok? ==> mmu.at.Keys == old(mmu.at.Keys) + TablesFor(root, Range(start, stop, flags))
      ensures r.AlreadyUsed? ==> exists va :: PageVa(va) && start <= va < stop && LeafAt(old(mmu.leaves), root, va) != 0
      ensures r.OutOfMemory? ==> Lacks(old(mmu.pmm.free), old(mmu.at.Keys), root, Range(start, stop, flags))
      ensures r.Ok? ==> !Lacks(old(mmu.pmm.free), old(mmu.at.Keys), root, Range(start, stop, flags))
    {
      ghost var b := Before(mmu.leaves, anon, mmu.pmm.free, mmu.tables, mmu.at.Keys);
      SoundNow(b);
      FilledNothing(b.l, b.an, root, start, flags);
      var va := start;
      while va < stop
        invariant start <= va <= stop && PageAligned(va)
        invariant Valid() && Used() == old(Used()) && mmu.roots == old(mmu.roots) && old(mmu.tables) <= mmu.tables
        invariant FilledUpTo(b.l, b.an, mmu.leaves, anon, root, start, va, flags)
        invariant mmu.at.Keys == b.p + Paths(root, start, va)
      {
        r := FillNext(root, va, flags, b, start, stop);
        if !r.Ok? {
          return;
        }
        va := va + PAGE;
      }
      ghost var c := Before(mmu.leaves, anon, mmu.pmm.free, mmu.tables, mmu.at.Keys);
      SoundNow(c);
      FilledEnough(b, c, root, Range(start, stop, flags));
      r := Ok(start);
    }

    /** What both allocators do after the insertion. The loop runs to the end of the
        region that took the request in, so a merge with the next region makes it run
        into pages that are in use; nothing else does. */
    method FillRegion(root: int, req: Range, stop: int, ghost was: seq<Range>, ghost now: seq<Range>)
      returns (r: Result)
      requires Valid() && root in mmu.roots && Agreeing(mmu.leaves, root, was)
      requires PlacedOk(req) && req.start < req.stop && !OverlapsAny(was, req) && Grew(was, now, req)
               && Reaches(was, req, stop)
      modifies this`anon, mmu, mmu.pmm`avail, mmu.pmm`free, mmu.pmm.maps, mmu.pmm.arrays
      ensures r == Ok(req.start) || r == OutOfMemory || r == AlreadyUsed
      ensures r.Ok? ==> Valid() && Used() == old(Used()) && mmu.roots == old(mmu.roots) && old(mmu.tables) <= mmu.tables
      ensures r.Ok? ==> FilledUpTo(old(mmu.leaves), old(anon), mmu.leaves, anon, root, req.start, req.stop, req.flags)
      ensures r.Ok? ==> Agreeing(mmu.leaves, root, now)
      ensures if TouchesNext(was, req) then !r.Ok? else !r.AlreadyUsed?
      ensures r.OutOfMemory? && !TouchesNext(was, req) ==>
                Lacks(old(mmu.pmm.free), old(mmu.at.Keys), root, req)
      ensures r.Ok? ==> !Lacks(old(mmu.pmm.free), old(mmu.at.Keys), root, req)
      ensures r.Ok? ==> mmu.at.Keys == old(mmu.at.Keys) + TablesFor(root, req)
    {
      assert UnfoldRoles(true);
      assert UnfoldChanges(true);
      ghost var l0 := mmu.leaves;
      UsedExactlyByMerge(l0, root, was, req, stop);
      r := Fill(root, req.start, stop, req.flags);
      if r.Ok? && !TouchesNext(was, req) {
        GrewKeepsCoherence(l0, mmu.leaves, root, was, now, req);
      }
    }

    /** The same, seen from the space: list and leaves agree again. */
    method FillSpace(space: Space, req: Range, stop: int, ghost was: seq<Range>) returns (r: Result)
      requires Valid() && space.Linked() && space.root in mmu.roots && Agreeing(mmu.leaves, space.root, was)
      requires PlacedOk(req) && req.start < req.stop && !OverlapsAny(was, req)
      requires Grew(was, space.ranges, req) && Reaches(was, req, stop)
      modifies this`anon, mmu, mmu.pmm`avail, mmu.pmm`free, mmu.pmm.maps, mmu.pmm.arrays
      ensures r == Ok(req.start) || r == OutOfMemory || r == AlreadyUsed
      ensures r.Ok? ==>
                Valid() && Agrees(space) && Used() == old(Used()) && mmu.roots == old(mmu.roots)
                    && old(mmu.tables) <= mmu.tables
      ensures r.Ok? ==>
                FilledUpTo(old(mmu.leaves), old(anon), mmu.leaves, anon, space.root, req.start, req.stop, req.flags)
      ensures if TouchesNext(was, req) then !r.Ok? else !r.AlreadyUsed?
      ensures r.OutOfMemory? && !TouchesNext(was, req) ==>
                Lacks(old(mmu.pmm.free), old(mmu.at.Keys), space.root, req)
      ensures r.Ok? ==> !Lacks(old(mmu.pmm.free), old(mmu.at.Keys), space.root, req)
      ensures r.Ok? ==> mmu.at.Keys == old(mmu.at.Keys) + TablesFor(space.root, req)
    {
      r := FillRegion(space.root, req, stop, was, space.ranges);
      if r.Ok? {
        Closing(space);
      }
    }

    /** `vmm_alloc_at` at an address other than 0. */
    method AllocRange(space: Space, req: Range) returns (r: Result)
      requires Valid() && Agrees(space) && PlacedOk(req) && req.start < req.stop
      modifies this`anon, mmu, mmu.pmm`avail, mmu.pmm`free, mmu.pmm.maps, mmu.pmm.arrays, space, space.nodes
      ensures r == Ok(req.start) || r == Overlaps || r == OutOfMemory || r == AlreadyUsed
      ensures r.Overlaps? <==> OverlapsAny(old(space.ranges), req)
      ensures !r.Overlaps? ==> if TouchesNext(old(space.ranges), req) then !r.Ok? else !r.AlreadyUsed?
      ensures r.OutOfMemory? && !TouchesNext(old(space.ranges), req) ==>
                Lacks(old(mmu.pmm.free), old(mmu.at.Keys), space.root, req)
      ensures r.Ok? ==> !Lacks(old(mmu.pmm.free), old(mmu.at.Keys), space.root, req)
      ensures r.Ok? ==> Valid() && Agrees(space) && Grew(old(space.ranges), space.ranges, req)
      ensures r.Ok? ==> Used() == old(Used()) && mmu.roots == old(mmu.roots) && old(mmu.tables) <= mmu.tables
      ensures r.Ok? ==> mmu.at.Keys == old(mmu.at.Keys) + TablesFor(space.root, req)
      ensures r.Ok? ==>
                FilledUpTo(old(mmu.leaves), old(anon), mmu.leaves, anon, space.root, req.start, req.stop, req.flags)
      ensures forall n :: n in space.nodes ==> n in old(space.nodes) || fresh(n)
    {
      Opening(space);
      ghost var was := space.ranges;
      var region := PutIn(space, req);
      if region == null {
        return Overlaps;
      }
      r := FillSpace(space, req, region.stop, was);
    }

    /** `vmm_alloc_at`. A request that ends where a region with its flags starts never
        succeeds; any other request that overlaps nothing fails only for want of memory. */
    method AllocAt(space: Space, va: int, pages: nat, flags: int) returns (r: Result)
      requires Valid() && Agrees(space) && pages > 0 && PlacedOk(Span(va, pages, flags))
      modifies this`anon, mmu, mmu.pmm`avail, mmu.pmm`free, mmu.pmm.maps, mmu.pmm.arrays, space, space.nodes
      ensures r == Ok(va) || r == Null || r == Overlaps || r == OutOfMemory || r == AlreadyUsed
      ensures r.Null? <==> va == 0
      ensures r.Overlaps? <==> va != 0 && OverlapsAny(old(space.ranges), Span(va, pages, flags))
      ensures r.AlreadyUsed? ==> TouchesNext(old(space.ranges), Span(va, pages, flags))
      ensures r.Ok? ==> !TouchesNext(old(space.ranges), Span(va, pages, flags))
      ensures r.Ok? ==> !Lacks(old(mmu.pmm.free), old(mmu.at.Keys), space.root, Span(va, pages, flags))
      ensures r.OutOfMemory? && !TouchesNext(old(space.ranges), Span(va, pages, flags)) ==>
                Lacks(old(mmu.pmm.free), old(mmu.at.Keys), space.root, Span(va, pages, flags))
      ensures r.Ok? ==> mmu.at.Keys == old(mmu.at.Keys) + TablesFor(space.root, Span(va, pages, flags))
      ensures r.Ok? ==> Valid() && Agrees(space) && Grew(old(space.ranges), space.ranges, Span(va, pages, flags))
      ensures r.Ok? ==> Used() == old(Used()) && mmu.roots == old(mmu.roots) && old(mmu.tables) <= mmu.tables
      ensures r.Ok? ==>
                var q := Span(va, pages, flags);
                FilledUpTo(old(mmu.leaves), old(anon), mmu.leaves, anon, space.root, q.start, q.stop, q.flags)
      ensures forall n :: n in space.nodes ==> n in old(space.nodes) || fresh(n)
    {
      if va == 0 {
        return Null;
      }
      r := AllocRange(space, Span(va, pages, flags));
    }

    /** `vmm_map`: one page to a frame the caller names. */
    method Map(space: Space, va: int, pa: int, flags: int) returns (r: Result)
      requires Valid() && Agrees(space) && PlacedOk(Span(va, 1, flags)) && PageAligned(pa)
      modifies mmu, mmu.pmm`avail, mmu.pmm`free, mmu.pmm.maps, mmu.pmm.arrays, space, space.nodes
      ensures r == Ok(va) || r == Overlaps || r == OutOfMemory
      ensures r.Overlaps? <==> OverlapsAny(old(space.ranges), Span(va, 1, flags))
      ensures r.OutOfMemory? ==> LacksTables(old(mmu.pmm.free), old(mmu.at.Keys), Path(space.root, va))
      ensures r.Ok? ==> !LacksTables(old(mmu.pmm.free), old(mmu.at.Keys), Path(space.root, va))
      ensures r.Ok? ==> mmu.at.Keys == old(mmu.at.Keys) + Path(space.root, va)
      ensures r.Ok? ==> Valid() && Agrees(space) && Grew(old(space.ranges), space.ranges, Span(va, 1, flags))
      ensures r.Ok? ==> Used() == old(Used()) && mmu.roots == old(mmu.roots) && old(mmu.tables) <= mmu.tables
      ensures r.Ok? ==> mmu.leaves == Updated(old(mmu.leaves), space.root, PageNo(va), LeafEntry(pa, flags))
      ensures r.Ok? ==> Rewritten(old(mmu.leaves), mmu.leaves, space.root, va, va + PAGE, flags)
      ensures forall n :: n in space.nodes ==> n in old(space.nodes) || fresh(n)
    {
      Opening(space);
      ghost var was := space.ranges;
      var req := Span(va, 1, flags);
      var region := PutIn(space, req);
      if region == null {
        return Overlaps;
      }
      r := MapSpace(space, va, pa, flags, was);
    }

    /** The rest of `vmm_map`, seen from the space: list and leaves agree again. */
    method MapSpace(space: Space, va: int, pa: int, flags: int, ghost was: seq<Range>) returns (r: Result)
      requires Valid() && space.Linked() && space.root in mmu.roots && Agreeing(mmu.leaves, space.root, was)
      requires PlacedOk(Span(va, 1, flags)) && PageAligned(pa)
      requires !OverlapsAny(was, Span(va, 1, flags)) && Grew(was, space.ranges, Span(va, 1, flags))
      modifies mmu, mmu.pmm`avail, mmu.pmm`free, mmu.pmm.maps, mmu.pmm.arrays
      ensures r == Ok(va) || r == OutOfMemory
      ensures r.OutOfMemory? ==> LacksTables(old(mmu.pmm.free), old(mmu.at.Keys), Path(space.root, va))
      ensures r.Ok? ==> !LacksTables(old(mmu.pmm.free), old(mmu.at.Keys), Path(space.root, va))
      ensures r.Ok? ==> mmu.at.Keys == old(mmu.at.Keys) + Path(space.root, va)
      ensures r.Ok? ==> Valid() && Agrees(space)
      ensures r.Ok? ==> Used() == old(Used()) && mmu.roots == old(mmu.roots) && old(mmu.tables) <= mmu.tables
      ensures r.Ok? ==> mmu.leaves == Updated(old(mmu.leaves), space.root, PageNo(va), LeafEntry(pa, flags))
      ensures r.Ok? ==> Rewritten(old(mmu.leaves), mmu.leaves, space.root, va, va + PAGE, flags)
    {
      r := MapOne(space.root, va, pa, flags, was, space.ranges);
      if r.Ok? {
        Closing(space);
      }
    }

    /** `vmm_map` after the insertion. */
    method MapOne(root: int, va: int, pa: int, flags: int, ghost was: seq<Range>, ghost now: seq<Range>)
      returns (r: Result)
      requires Valid() && root in mmu.roots && Agreeing(mmu.leaves, root, was)
      requires PlacedOk(Span(va, 1, flags)) && PageAligned(pa)
      requires !OverlapsAny(was, Span(va, 1, flags)) && Grew(was, now, Span(va, 1, flags))
      modifies mmu, mmu.pmm`avail, mmu.pmm`free, mmu.pmm.maps, mmu.pmm.arrays
      ensures r == Ok(va) || r == OutOfMemory
      ensures r.OutOfMemory? ==> LacksTables(old(mmu.pmm.free), old(mmu.at.Keys), Path(root, va))
      ensures r.Ok? ==> !LacksTables(old(mmu.pmm.free), old(mmu.at.Keys), Path(root, va))
      ensures r.Ok? ==> mmu.at.Keys == old(mmu.at.Keys) + Path(root, va)
      ensures r.Ok? ==> Valid() && Agreeing(mmu.leaves, root, now)
      ensures r.Ok? ==> Used() == old(Used()) && mmu.roots == old(mmu.roots) && old(mmu.tables) <= mmu.tables
      ensures r.Ok? ==> mmu.leaves == Updated(old(mmu.leaves), root, PageNo(va), LeafEntry(pa, flags))
      ensures r.Ok? ==> Rewritten(old(mmu.leaves), mmu.leaves, root, va, va + PAGE, flags)
    {
      assert UnfoldRoles(true);
      ghost var l, t, f, req := mmu.leaves, mmu.tables, mmu.pmm.free, Span(va, 1, flags);
      ghost var e := LeafEntry(pa, flags);
      mmu.LeavesNonZero();
      GrewWasUnmapped(l, root, was, req, va);
      EntryCarries(pa, flags);
      ghost var p := mmu.at.Keys;
      mmu.TableCount();
      var ok, prior := mmu.MapPage(root, va, pa, flags);
      mmu.TableCount();
      WalkCost(f, t, p, mmu.pmm.free, mmu.tables, mmu.at.Keys, Path(root, va), LeafSlot(root, PageNo(va)), ok);
      if !ok {
        return OutOfMemory;
      }
      if prior != 0 {
        return AlreadyUsed;
      }
      RolesKept(l, t, f, anon, mmu.tables, mmu.pmm.free, root, PageNo(va), e);
      RewrittenNothing(l, root, va, flags);
      RewrittenStep(l, l, root, va, va, flags, e);
      GrewKeepsCoherence(l, mmu.leaves, root, was, now, req);
      r := Ok(va);
    }

    /** One turn of the unmapping loop of `vmm_free`. */
    method DrainPage(root: int, va: int) returns (r: Result)
      requires mmu.pmm.Valid() && mmu.Shape() && root in mmu.roots && PageVa(va) && LeafAt(mmu.leaves, root, va) != 0
      modifies this`anon, mmu, mmu.pmm`avail, mmu.pmm`free, mmu.pmm.maps, mmu.pmm.arrays
      ensures r == if PageAddr(LeafAt(old(mmu.leaves), root, va)) in mmu.pmm.managed then Ok(va) else BadFrame
      ensures r.Ok? ==> mmu.pmm.Valid() && mmu.Shape() && mmu.roots == old(mmu.roots) && mmu.tables == old(mmu.tables)
      ensures r.Ok? ==> mmu.leaves == old(mmu.leaves) - {(root, PageNo(va))} && anon == old(anon) - {(root, PageNo(va))}
      ensures r.Ok? ==> mmu.pmm.free == old(mmu.pmm.free) + {PageAddr(LeafAt(old(mmu.leaves), root, va))}
    {
      mmu.LeafHasTables(root, va);
      var ok, prior := mmu.UnmapPage(root, va);
      if !ok {
        return BadFrame;
      }
      if prior == 0 {
        return NotMapped;
      }
      anon := anon - {(root, PageNo(va))};
      r := Ok(va);
    }

    /** The same turn, seen from the loop that started at `start` in state `l0`, `an0`, `f0`. */
    method DrainNext(root: int, va: int, ghost l0: Leaves, ghost an0: Anon, ghost f0: set<int>, ghost start: int,
                     ghost stop: int)
      returns (r: Result)
      requires mmu.pmm.Valid() && mmu.Shape() && root in mmu.roots && start <= va < stop && PageVa(va)
               && PageAligned(stop)
      requires DrainedUpTo(l0, an0, f0, mmu.leaves, anon, mmu.pmm.free, root, start, va) && LeafAt(l0, root, va) != 0
      modifies this`anon, mmu, mmu.pmm`avail, mmu.pmm`free, mmu.pmm.maps, mmu.pmm.arrays
      ensures r == if PageAddr(LeafAt(l0, root, va)) in mmu.pmm.managed then Ok(va) else BadFrame
      ensures r.Ok? ==> mmu.pmm.Valid() && mmu.Shape() && mmu.roots == old(mmu.roots) && mmu.tables == old(mmu.tables)
      ensures r.Ok? ==> DrainedUpTo(l0, an0, f0, mmu.leaves, anon, mmu.pmm.free, root, start, va + PAGE)
      ensures va + PAGE <= stop && PageAligned(va + PAGE)
    {
      assert UnfoldChanges(true);
      AlignedApart(va, stop);
      PageKeysStep(root, start, va);
      ghost var l, an, f := mmu.leaves, anon, mmu.pmm.free;
      assert LeafAt(l, root, va) == LeafAt(l0, root, va);
      r := DrainPage(root, va);
      if r.Ok? {
        DrainedStep(l0, an0, f0, l, an, f, root, start, va);
      }
    }

    /** The unmapping loop of `vmm_free`: it gets through exactly when the allocator
        manages every frame shown, whoever else may use it. */
    method Drain(root: int, start: int, stop: int) returns (r: Result)
      requires mmu.pmm.Valid() && mmu.Shape() && root in mmu.roots && start <= stop
      requires PageAligned(start) && PageAligned(stop) && CanonicalSpan(start, stop)
      requires forall va :: PageVa(va) && start <= va < stop ==> LeafAt(mmu.leaves, root, va) != 0
      modifies this`anon, mmu, mmu.pmm`avail, mmu.pmm`free, mmu.pmm.maps, mmu.pmm.arrays
      ensures r == if Shown(old(mmu.leaves), root, start, stop) <= mmu.pmm.managed then Ok(start) else BadFrame
      ensures r.Ok? ==> mmu.pmm.Valid() && mmu.Shape() && mmu.roots == old(mmu.roots) && mmu.tables == old(mmu.tables)
      ensures r.Ok? ==>
                DrainedUpTo(old(mmu.leaves), old(anon), old(mmu.pmm.free), mmu.leaves, anon, mmu.pmm.free,
                            root, start, stop)
    {
      ghost var l0, an0, f0 := mmu.leaves, anon, mmu.pmm.free;
      var va := start;
      while va < stop
        invariant start <= va <= stop && PageAligned(va)
        invariant mmu.pmm.Valid() && mmu.Shape() && mmu.roots == old(mmu.roots) && mmu.tables == old(mmu.tables)
        invariant DrainedUpTo(l0, an0, f0, mmu.leaves, anon, mmu.pmm.free, root, start, va)
        invariant Shown(l0, root, start, va) <= mmu.pmm.managed
      {
        ShownStep(l0, root, start, va);
        r := DrainNext(root, va, l0, an0, f0, start, stop);
        if !r.Ok? {
          assert PageAddr(LeafAt(l0, root, va)) in Shown(l0, root, start, stop);
          return;
        }
        va := va + PAGE;
      }
      r := Ok(start);
    }

    /** `vmm_free` after the removal, which took the list from `was` to `now`. */
    method DrainRange(root: int, va: int, stop: int, ghost was: seq<Range>, ghost now: seq<Range>) returns (r: Result)
      requires Valid() && root in mmu.roots && Agreeing(mmu.leaves, root, was)
      requires va < stop && PageAligned(va) && PageAligned(stop) && CanonicalSpan(va, stop)
      requires Uniform(was, va, stop) && Shrank(was, now, va, stop)
      modifies this`anon, mmu, mmu.pmm`avail, mmu.pmm`free, mmu.pmm.maps, mmu.pmm.arrays
      ensures r == if Shown(old(mmu.leaves), root, va, stop) <= mmu.pmm.managed then Ok(va) else BadFrame
      ensures r.Ok? ==> (Valid() <==> Owned(old(mmu.leaves), mmu.tables, old(anon), root, va, stop))
      ensures r.Ok? ==> mmu.roots == old(mmu.roots) && mmu.tables == old(mmu.tables)
      ensures r.Ok? ==>
                DrainedUpTo(old(mmu.leaves), old(anon), old(mmu.pmm.free), mmu.leaves, anon, mmu.pmm.free,
                            root, va, stop)
      ensures r.Ok? ==> Agreeing(mmu.leaves, root, now)
    {
      assert UnfoldChanges(true);
      assert UnfoldRoles(true);
      ghost var l0, an0 := mmu.leaves, anon;
      UniformIsMapped(l0, root, was, va, stop);
      DrainedRoles(l0, mmu.tables, mmu.pmm.free, an0, root, va, stop);
      r := Drain(root, va, stop);
      if r.Ok? {
        DrainedRewritten(l0, root, va, stop);
        CoherentCleared(l0, mmu.leaves, root, was, now, va, stop);
        FewerAnonymous(an0, PageKeys(root, va, stop));
      }
    }

    /** `vmm_free` of a range that ends above its start. The range must be held under one
        flags value, and the allocator must manage every frame it shows; then the range is
        unmapped and these frames are free. Nobody asks who else uses them: each frame still
        has one role exactly when the range owned its frames. */
    method FreeRange(space: Space, va: int, stop: int) returns (r: Result)
      requires Valid() && Agrees(space) && va < stop && PageAligned(va) && PageAligned(stop)
      modifies this`anon, mmu, mmu.pmm`avail, mmu.pmm`free, mmu.pmm.maps, mmu.pmm.arrays, space, space.nodes
      ensures r == Ok(va) || r == NoSuchRange || r == BadFrame
      ensures r.NoSuchRange? <==> !Uniform(old(space.ranges), va, stop)
      ensures !r.NoSuchRange? ==> (r.Ok? <==> Shown(old(mmu.leaves), space.root, va, stop) <= mmu.pmm.managed)
      ensures r.Ok? ==> Agrees(space) && Shrank(old(space.ranges), space.ranges, va, stop)
      ensures r.Ok? ==> mmu.roots == old(mmu.roots) && mmu.tables == old(mmu.tables)
      ensures r.Ok? ==>
                DrainedUpTo(old(mmu.leaves), old(anon), old(mmu.pmm.free), mmu.leaves, anon, mmu.pmm.free,
                            space.root, va, stop)
      ensures r.Ok? ==> (Valid() <==> Owned(old(mmu.leaves), mmu.tables, old(anon), space.root, va, stop))
      ensures forall n :: n in space.nodes ==> n in old(space.nodes) || fresh(n)
    {
      Opening(space);
      ghost var was := space.ranges;
      var ok := TakeOut(space, va, stop);
      if !ok {
        return NoSuchRange;
      }
      r := DrainRange(space.root, va, stop, was, space.ranges);
      if r.Ok? {
        Closing(space);
      }
    }

    /** `vmm_free` of a range whose end wraps to its start or below: no page is unmapped. */
    method FreeBackwards(space: Space, va: int, stop: int) returns (r: Result)
      requires Valid() && Agrees(space) && stop <= va
      modifies space, space.nodes
      ensures r == Backwards(va) || r == NoSuchRange
      ensures r.NoSuchRange? <==> Remove(old(space.ranges), va, stop).Panic?
      ensures r.Backwards? ==> space.Linked() && Done(space.ranges) == Remove(old(space.ranges), va, stop)
      ensures r.Backwards? ==> Valid() && (Agrees(space) <==> stop == va)
      ensures forall n :: n in space.nodes ==> n in old(space.nodes) || fresh(n)
    {
      Opening(space);
      BackwardsAgrees(mmu.leaves, space.root, space.ranges, va, stop);
      var ok := space.RemoveRange(va, stop);
      if !ok {
        return NoSuchRange;
      }
      Closing(space);
      r := Backwards(va);
    }

    /** `vmm_free` */
    method Free(space: Space, va: int, pages: nat) returns (r: Result)
      requires Valid() && Agrees(space) && PageAligned(va) && 0 <= va < U64
      modifies this`anon, mmu, mmu.pmm`avail, mmu.pmm`free, mmu.pmm.maps, mmu.pmm.arrays, space, space.nodes
      ensures var stop := End(va, pages);
              if va < stop then
                && (r == Ok(va) || r == NoSuchRange || r == BadFrame)
                && (r.NoSuchRange? <==> !Uniform(old(space.ranges), va, stop))
                && (!r.NoSuchRange? ==>
                      (r.Ok? <==> Shown(old(mmu.leaves), space.root, va, stop) <= mmu.pmm.managed))
              else
                && (r == Backwards(va) || r == NoSuchRange)
                && (r.NoSuchRange? <==> Remove(old(space.ranges), va, stop).Panic?)
      ensures r.Ok? ==> Agrees(space) && Shrank(old(space.ranges), space.ranges, va, End(va, pages))
      ensures r.Ok? ==> mmu.roots == old(mmu.roots) && mmu.tables == old(mmu.tables)
      ensures r.Ok? ==>
                DrainedUpTo(old(mmu.leaves), old(anon), old(mmu.pmm.free), mmu.leaves, anon, mmu.pmm.free,
                            space.root, va, End(va, pages))
      ensures r.Ok? ==> (Valid() <==> Owned(old(mmu.leaves), mmu.tables, old(anon), space.root, va, End(va, pages)))
      ensures r.Backwards? ==> space.Linked() && Done(space.ranges) == Remove(old(space.ranges), va, End(va, pages))
      ensures r.Backwards? ==> Valid() && (Agrees(space) <==> End(va, pages) == va)
      ensures r.Backwards? ==> Now() == old(Now()) && mmu.roots == old(mmu.roots)
      ensures forall n :: n in space.nodes ==> n in old(space.nodes) || fresh(n)
    {
      var stop := Add64(va, Bytes(pages));
      EndAligned(va, pages);
      if va < stop {
        r := FreeRange(space, va, stop);
      } else {
        r := FreeBackwards(space, va, stop);
      }
    }

    /** `vmm_alloc_between`: each outcome exactly when the placement says so, memory
        permitting. A placed request becomes a region; an inverted one ends up in the list
        with no page mapped, and list and tables disagree. */
    method AllocBetween(space: Space, lower: int, upper: int, pages: nat, flags: int) returns (r: Result)
      requires Valid() && Agrees(space) && Searchable(space.ranges, lower, upper, pages, flags)
      modifies this`anon, mmu, mmu.pmm`avail, mmu.pmm`free, mmu.pmm.maps, mmu.pmm.arrays, space, space.nodes
      ensures r == Null || r == Overlaps || r == OutOfMemory || r.Ok? || r.Backwards?
      ensures r.Null? <==> FirstFit.AllocBetween(old(space.ranges), lower, upper, pages, flags).NoPlace?
      ensures r.Overlaps? <==> FirstFit.AllocBetween(old(space.ranges), lower, upper, pages, flags).Overlapping?
      ensures r.Backwards? <==> FirstFit.AllocBetween(old(space.ranges), lower, upper, pages, flags).Inverted?
      ensures r.Null? ==> Valid() && Agrees(space) && space.ranges == old(space.ranges)
      ensures r.Null? ==> Now() == old(Now()) && Used() == old(Used()) && mmu.roots == old(mmu.roots)
      ensures r.Backwards? ==>
                var p := FirstFit.AllocBetween(old(space.ranges), lower, upper, pages, flags);
                r.va == p.r.start && space.Linked() && space.ranges == Spliced(old(space.ranges), p.at, p.r)
      ensures r.Backwards? ==> mmu.leaves == old(mmu.leaves) && !Agrees(space)
      ensures r.Ok? || r.OutOfMemory? ==>
                var q := FirstFit.AllocBetween(old(space.ranges), lower, upper, pages, flags).r;
                && (r.Ok? <==> !Lacks(old(mmu.pmm.free), old(mmu.at.Keys), space.root, q))
                && (r.Ok? ==> r.va == q.start && Grew(old(space.ranges), space.ranges, q))
                && (r.Ok? ==> mmu.at.Keys == old(mmu.at.Keys) + TablesFor(space.root, q))
                && (r.Ok? ==>
                      FilledUpTo(old(mmu.leaves), old(anon), mmu.leaves, anon, space.root, q.start, q.stop, q.flags))
      ensures r.Ok? ==> Valid() && Agrees(space)
      ensures r.Ok? ==> Used() == old(Used()) && mmu.roots == old(mmu.roots) && old(mmu.tables) <= mmu.tables
      ensures forall n :: n in space.nodes ==> n in old(space.nodes) || fresh(n)
    {
      Opening(space);
      ghost var was := space.ranges;
      var stop, req;
      r, req, stop := PlaceRange(space, lower, upper, pages, flags);
      if r.Ok? {
        r := FillSpace(space, req, stop, was);
      } else if r.Backwards? {
        InvertedDisagrees(mmu.leaves, space.root, was, lower, upper, pages, flags);
        Closing(space);
      } else if r.Null? {
        Closing(space);
      }
    }
  }

  /** Where the range of `vmm_free` ends, in 64 bits. */
  function End(va: int, pages: nat): int {
    Add64(va, Bytes(pages))
  }

  lemma {:induction false} EndAligned(va: int, pages: nat)
    requires PageAligned(va)
    ensures PageAligned(End(va, pages))
    ensures 0 <= va && va + pages * 0x1000 < U64 ==> End(va, pages) == va + pages * 0x1000
  {
    if 0 <= va && va + pages * 0x1000 < U64 { assert pages % PAGES64 == pages; }
  }

  /** What `vmm_alloc_between` needs: bounds in one half of the address space, and a place
      that is. */
  ghost predicate Searchable(s: seq<Range>, lower: int, upper: int, pages: nat, flags: int) {
    && FlagsOk(flags) && PageAligned(lower) && CanonicalSpan(lower, upper)
    && var p := FirstFit.AllocBetween(s, lower, upper, pages, flags);
       p.Placed? ==> CanonicalSpan(p.r.start, p.r.stop)
  }

  /** The part of `vmm_alloc_between` before the mapping loop. */
  method PlaceRange(space: Space, lower: int, upper: int, pages: nat, flags: int)
    returns (r: Result, req: Range, stop: int)
    requires WellKept(space) && Searchable(space.ranges, lower, upper, pages, flags)
    modifies space, space.nodes
    ensures var p := FirstFit.AllocBetween(old(space.ranges), lower, upper, pages, flags);
            match p
            case NoPlace => r == Null && space.Linked() && space.ranges == old(space.ranges)
            case Overlapping => r == Overlaps
            case Inverted(q, k) =>
              r == Backwards(q.start) && space.Linked() && k <= |old(space.ranges)|
              && space.ranges == Spliced(old(space.ranges), k, q)
            case Placed(q, k) =>
              && r == Ok(q.start) && req == q && space.Linked() && Grew(old(space.ranges), space.ranges, q)
              && PlacedOk(q) && q.start < q.stop && Reaches(old(space.ranges), q, stop)
              && !OverlapsAny(old(space.ranges), q) && !TouchesNext(old(space.ranges), q)
    ensures forall n :: n in space.nodes ==> n in old(space.nodes) || fresh(n)
  {
    assert UnfoldRoles(true);
    ghost var was := space.ranges;
    stop := 0;
    var va, prev, cur, k := FindPlace(space, lower, Need(pages));
    SameSum(was, lower, pages);
    req := Request(va, pages, flags);
    if Add64(Add64(va, Bytes(pages)), PADDING) >= upper {
      return Null, req, stop;
    }
    r, stop := InsertPlaced(space, prev, cur, req, lower, upper, pages, flags, k);
  }

  /** The insertion, once the limit test is passed. */
  method InsertPlaced(space: Space, prev: Region?, cur: Region?, req: Range, ghost lower: int, ghost upper: int,
                      ghost pages: nat, flags: int, ghost k: nat)
    returns (r: Result, stop: int)
    requires WellKept(space) && Searchable(space.ranges, lower, upper, pages, flags)
    requires k <= |space.nodes| == |space.ranges|
    requires prev == At(space.nodes, k - 1) && cur == At(space.nodes, k)
    requires !FirstFit.AllocBetween(space.ranges, lower, upper, pages, flags).NoPlace?
    requires req == Request(Place(space.ranges, lower, Need(pages)).0, pages, flags)
    requires k == Place(space.ranges, lower, Need(pages)).1
    modifies space, space.nodes
    ensures match FirstFit.AllocBetween(old(space.ranges), lower, upper, pages, flags)
            case NoPlace => false
            case Overlapping => r == Overlaps
            case Inverted(q, k) =>
              r == Backwards(q.start) && space.Linked() && k <= |old(space.ranges)|
              && space.ranges == Spliced(old(space.ranges), k, q)
            case Placed(q, k) =>
              && r == Ok(q.start) && q == req && space.Linked() && Grew(old(space.ranges), space.ranges, q)
              && PlacedOk(q) && q.start < q.stop && Reaches(old(space.ranges), q, stop)
              && !OverlapsAny(old(space.ranges), q) && !TouchesNext(old(space.ranges), q)
    ensures forall n :: n in space.nodes ==> n in old(space.nodes) || fresh(n)
  {
    assert UnfoldRoles(true);
    ghost var p := FirstFit.AllocBetween(space.ranges, lower, upper, pages, flags);
    if p.Placed? { PlaceFits(space.ranges, lower, upper, pages, flags); }
    stop := 0;
    var region := PutBetween(space, prev, cur, req, k);
    if region == null {
      return Overlaps, stop;
    }
    if req.start >= req.stop {
      return Backwards(req.start), stop;
    }
    r, stop := Ok(req.start), region.stop;
  }

  lemma {:induction false} SameSum(s: seq<Range>, lower: int, pages: nat)
    requires Sorted(s) && AllPlaced(s) && CanonicalSpan(lower, lower) && PageAligned(lower)
    ensures var va := Place(s, lower, Need(pages)).0; Add64(Add64(va, Bytes(pages)), PADDING) == Add64(va, Need(pages))
  {
    PlacedIn64(s);
    PlaceIn64(s, lower, Need(pages));
  }

  lemma {:induction false} PlacedIn64(s: seq<Range>)
    requires AllPlaced(s)
    ensures In64(s)
  {
    forall i | 0 <= i < |s| ensures 0 <= s[i].start && s[i].stop <= U64 - 0x1000 { assert PlacedOk(s[i]); }
  }

  /** A placed request goes in without touching another region. */
  lemma {:induction false} PlaceFits(s: seq<Range>, lower: int, upper: int, pages: nat, flags: int)
    requires Tidy(s) && AllPlaced(s) && Searchable(s, lower, upper, pages, flags)
    requires FirstFit.AllocBetween(s, lower, upper, pages, flags).Placed?
    ensures var p := FirstFit.AllocBetween(s, lower, upper, pages, flags);
            PlacedOk(p.r) && p.r.start < p.r.stop && p.r.stop == p.r.start + Bytes(pages) && !TouchesNext(s, p.r)
            && p.at <= |s| && !JoinsPrev(s, p.at, p.r) && !JoinsNext(s, p.at, p.r)
  {
    var p := FirstFit.AllocBetween(s, lower, upper, pages, flags);
    PlacedIn64(s);
    RequestAligned(s, lower, pages, flags);
    NoJoin(s, lower, upper, pages, flags);
    TouchIsJoin(s, p.at, p.r);
  }

  lemma {:induction false} NoJoinPrev(s: seq<Range>, lower: int, pages: nat, flags: int)
    requires Sorted(s) && In64(s) && 0 <= lower <= U64 - 0x1000
    ensures var (va, k) := Place(s, lower, Need(pages)); !JoinsPrev(s, k, Request(va, pages, flags))
  {
    PrevBelow(s, lower, Need(pages), 0);
    PlaceIn64(s, lower, Need(pages));
  }

  lemma {:induction false} NoJoin(s: seq<Range>, lower: int, upper: int, pages: nat, flags: int)
    requires Tidy(s) && AllPlaced(s) && Searchable(s, lower, upper, pages, flags)
    requires FirstFit.AllocBetween(s, lower, upper, pages, flags).Placed?
    ensures var p := FirstFit.AllocBetween(s, lower, upper, pages, flags);
            p.at <= |s| && !JoinsPrev(s, p.at, p.r) && !JoinsNext(s, p.at, p.r)
  {
    var (va, k) := Place(s, lower, Need(pages));
    var r := Request(va, pages, flags);
    PlacedIn64(s);
    NoJoinPrev(s, lower, pages, flags);
    PlaceIn64(s, lower, Need(pages));
    assert Bytes(pages) == r.stop - r.start <= LOWER_STOP;
    if i :| 0 <= i < |s| && s[i].start < lower <= s[i].stop {
      assert PlacedOk(s[i]);
      StraddleFound(s, lower, Need(pages), 0, i);
    } else {
      SearchVacant(s, lower, Need(pages), 0);
    }
  }

  /** An inverted range makes the list disagree with leaves that agreed before. */
  lemma {:induction false} InvertedDisagrees(l: Leaves, root: int, s: seq<Range>, lower: int, upper: int, pages: nat,
                                             flags: int)
    requires Agreeing(l, root, s) && Searchable(s, lower, upper, pages, flags)
    requires FirstFit.AllocBetween(s, lower, upper, pages, flags).Inverted?
    ensures var p := FirstFit.AllocBetween(s, lower, upper, pages, flags);
            p.at <= |s| && !Agreeing(l, root, Spliced(s, p.at, p.r))
  {
    assert UnfoldRoles(true);
    var p := FirstFit.AllocBetween(s, lower, upper, pages, flags);
    var k, r := p.at, p.r;
    PlacedIn64(s);
    NoJoinPrev(s, lower, pages, flags);
    SplicedCases(s, k, r);
    if JoinsNext(s, k, r) {
      JoinedDownwards(s, lower, upper, pages, flags);
      LostStart(l, root, s, k, r.start);
    } else {
      assert InsertedAt(s, k, r)[k] == r;
    }
  }

  /** The region behind may take an inverted range in; it then starts later than before. */
  lemma {:induction false} JoinedDownwards(s: seq<Range>, lower: int, upper: int, pages: nat, flags: int)
    requires Tidy(s) && AllPlaced(s) && Searchable(s, lower, upper, pages, flags)
    requires var p := FirstFit.AllocBetween(s, lower, upper, pages, flags); p.Inverted? && JoinsNext(s, p.at, p.r)
    ensures var p := FirstFit.AllocBetween(s, lower, upper, pages, flags); s[p.at].start < p.r.start
  {
    var p := FirstFit.AllocBetween(s, lower, upper, pages, flags);
    PlacedIn64(s);
    PlaceIn64(s, lower, Need(pages));
    if p.r.start == p.r.stop {
      assert Bytes(pages) == 0;
      EmptyApart(s, lower, pages, flags);
    }
  }

  /** An empty request ends below the region behind it. */
  lemma {:induction false} EmptyApart(s: seq<Range>, lower: int, pages: nat, flags: int)
    requires Tidy(s) && AllPlaced(s) && In64(s) && CanonicalSpan(lower, lower) && PageAligned(lower)
    requires Bytes(pages) == 0
    ensures var (va, k) := Place(s, lower, Need(pages)); !JoinsNext(s, k, Request(va, pages, flags))
  {
    PlaceIn64(s, lower, Need(pages));
    if i :| 0 <= i < |s| && s[i].start < lower <= s[i].stop {
      assert PlacedOk(s[i]);
      StraddleFound(s, lower, Need(pages), 0, i);
    } else {
      SearchVacant(s, lower, Need(pages), 0);
    }
  }

  /** A region that starts later than before lets go of a page that is still mapped. */
  lemma {:induction false} LostStart(l: Leaves, root: int, s: seq<Range>, k: nat, start: int)
    requires Coherent(l, root, s) && k < |s| && s[k].start < start
    ensures !Coherent(l, root, s[k := s[k].(start := start)])
  {
    var t, a := s[k := s[k].(start := start)], s[k].start;
    assert PlacedOk(s[k]);
    HeldIsMapped(l, root, s, k, a);
    if Coherent(l, root, t) {
      var i := HasByIndex(t, a, LeafAt(l, root, a) % 0x1000);
      assert i != k;
      NotBoth(s, i, k, a);
    }
  }

  /** A region that starts earlier than before claims a page that is not mapped with it. */
  lemma {:induction false} GainedStart(l: Leaves, root: int, s: seq<Range>, k: nat, start: int)
    requires Coherent(l, root, s) && k < |s| && start < s[k].start
    ensures !Coherent(l, root, s[k := s[k].(start := start)])
  {
    var t := s[k := s[k].(start := start)];
    if Coherent(l, root, t) {
      assert PlacedOk(t[k]) && PlacedOk(s[k]);
      HeldIsMapped(l, root, t, k, start);
      var i := HasByIndex(s, start, LeafAt(l, root, start) % 0x1000);
      StartTaken(s, i, k, start);
    }
  }

  lemma {:induction false} StartTaken(s: seq<Range>, i: nat, k: nat, start: int)
    requires Sorted(s) && i < |s| && k < |s| && Covers(s[i], start) && start < s[k].start
    ensures !Sorted(s[k := s[k].(start := start)])
  {
    var t := s[k := s[k].(start := start)];
    assert i != k && t[i] == s[i] && t[k].start == start;
  }

  lemma {:induction false} BackwardsAgrees(l: Leaves, root: int, s: seq<Range>, va: int, stop: int)
    requires Agreeing(l, root, s) && stop <= va
    ensures Remove(s, va, stop).Done? ==> (Agreeing(l, root, Remove(s, va, stop).value) <==> stop == va)
  {
    assert UnfoldRoles(true);
    RemoveBackwards(s, va, stop);
    if Remove(s, va, stop).Done? && stop < va {
      GainedStart(l, root, s, FindIndex(s, va, 0), stop);
    }
  }

  lemma {:induction false} NotBoth(s: seq<Range>, i: nat, k: nat, a: int)
    requires Sorted(s) && i < |s| && k < |s| && Covers(s[i], a) && Covers(s[k], a)
    ensures i == k
  {}

  lemma {:induction false} TouchIsJoin(s: seq<Range>, k: nat, r: Range)
    requires Sorted(s) && k <= |s| && !Collides(s, k, r) && r.start < r.stop
    ensures TouchesNext(s, r) <==> JoinsNext(s, k, r)
  {}

  lemma {:induction false} RequestAligned(s: seq<Range>, lower: int, pages: nat, flags: int)
    requires AllPlaced(s) && PageAligned(lower)
    ensures var va := Place(s, lower, Need(pages)).0;
            var r := Request(va, pages, flags);
            PageAligned(va) && PageAligned(r.start) && PageAligned(r.stop)
  {
    SearchOrigin(s, lower, Need(pages), lower, 0);
    var va := Place(s, lower, Need(pages)).0;
    if i :| 0 <= i < |s| && s[i].stop == va { assert PlacedOk(s[i]); }
    SumAligned(va, PAGE);
    SumAligned(Request(va, pages, flags).start, Bytes(pages));
  }

  lemma {:induction false} SumAligned(a: int, b: int)
    requires PageAligned(a) && PageAligned(b)
    ensures PageAligned(Add64(a, b))
  {}

  /** While tables only grow and no frame gets lost, the other frames only get fewer. */
  lemma {:induction false} OthersFewer(f0: set<int>, t0: set<int>, a0: set<int>, f: set<int>, t: set<int>, a: set<int>)
    requires f + t + a == f0 + t0 + a0 && t0 <= t && t !! f && t !! a
    ensures f + a <= f0 + a0
  {}

  lemma {:induction false} FewerAnonymous(an: Anon, keys: set<(int, int)>)
    ensures (an - keys).Values <= an.Values
  {
    forall v | v in (an - keys).Values ensures v in an.Values {
      var k :| k in an - keys && (an - keys)[k] == v;
      assert k in an;
    }
  }

  lemma {:induction false} EntryCarries(pa: int, flags: int)
    requires PageAligned(pa) && FlagsOk(flags)
    ensures Carries(LeafEntry(pa, flags), flags)
  {}
}
