/** `kmalloc` and `kfree` on the whole heap, and what holds over every run of them. */
module KheapRuns {
  import opened Numeric
  import opened KheapSpec

  type Heap = seq<Container>

  // ---- live allocations ------------------------------------------------------------------

  /** The live allocations of a block list: payload address and requested size. */
  ghost function LiveIn(s: seq<Block>): set<(int, int)> {
    if s == [] then {} else (if s[0].used then {(s[0].Data(), s[0].req)} else {}) + LiveIn(s[1..])
  }

  ghost function Live(h: Heap): set<(int, int)> {
    if h == [] then {} else LiveIn(h[0].blocks) + Live(h[1..])
  }

  lemma {:induction false} LiveOne(b: Block)
    ensures LiveIn([b]) == if b.used then {(b.Data(), b.req)} else {}
  {}

  lemma {:induction false} LiveConcat(s: seq<Block>, t: seq<Block>)
    ensures LiveIn(s + t) == LiveIn(s) + LiveIn(t)
  {
    if s == [] {
      assert s + t == t;
    } else {
      assert (s + t)[1..] == s[1..] + t;
      LiveConcat(s[1..], t);
    }
  }

  lemma {:induction false} LiveHeapConcat(g: Heap, h: Heap)
    ensures Live(g + h) == Live(g) + Live(h)
  {
    if g == [] {
      assert g + h == h;
    } else {
      assert (g + h)[1..] == g[1..] + h;
      LiveHeapConcat(g[1..], h);
    }
  }

  lemma {:induction false} LiveIndex(s: seq<Block>, p: int, r: int) returns (i: nat)
    requires (p, r) in LiveIn(s)
    ensures i < |s| && s[i].used && s[i].Data() == p && s[i].req == r
  {
    if s[0].used && (p, r) == (s[0].Data(), s[0].req) {
      i := 0;
    } else {
      i := LiveIndex(s[1..], p, r);
      i := i + 1;
    }
  }

  lemma {:induction false} NotLiveIn(s: seq<Block>, p: int, r: int)
    requires forall i :: 0 <= i < |s| && s[i].used ==> s[i].Data() != p
    ensures (p, r) !in LiveIn(s)
  {
    if s != [] {
      forall i | 0 <= i < |s[1..]| && s[1..][i].used ensures s[1..][i].Data() != p { assert s[1..][i] == s[i + 1]; }
      NotLiveIn(s[1..], p, r);
    }
  }

  lemma {:induction false} LiveSplice(s: seq<Block>, f: nat, k: nat, m: seq<Block>)
    requires f <= k <= |s|
    ensures LiveIn(s) == LiveIn(s[..f]) + LiveIn(s[f..k]) + LiveIn(s[k..])
    ensures LiveIn(s[..f] + m + s[k..]) == LiveIn(s[..f]) + LiveIn(m) + LiveIn(s[k..])
  {
    assert s == s[..f] + s[f..k] + s[k..];
    LiveConcat(s[..f] + s[f..k], s[k..]);
    LiveConcat(s[..f], s[f..k]);
    LiveConcat(s[..f] + m, s[k..]);
    LiveConcat(s[..f], m);
  }

  lemma {:induction false} AllocLive(c: Container, i: nat, size: int)
    requires i < |c.blocks| && Fits(c.blocks[i], size)
    ensures LiveIn(Allocated(c, i, size).blocks) == LiveIn(c.blocks) + {(c.blocks[i].Data(), size)}
  {
    var s := c.blocks;
    LiveSplice(s, i, i + 1, Carved(s[i], size));
    assert s[i..i + 1] == [s[i]];
    LiveOne(s[i]);
    CarvedLive(s[i], size);
  }

  lemma {:induction false} CarvedLive(b: Block, size: int)
    ensures LiveIn(Carved(b, size)) == {(b.Data(), size)}
  {
    var m := Carved(b, size);
    LiveOne(m[0]);
    if |m| == 2 {
      LiveOne(m[1]);
      LiveConcat([m[0]], [m[1]]);
      assert m == [m[0]] + [m[1]];
    } else {
      assert m == [m[0]];
    }
  }

  /** Releasing a block takes its allocation out of the live set and no other. */
  lemma {:induction false} ReleaseLive(c: Container, i: nat)
    requires WellFormed(c) && i < |c.blocks| && c.blocks[i].used
    ensures LiveIn(Released(c, i).blocks) == LiveIn(c.blocks) - {(c.blocks[i].Data(), c.blocks[i].req)}
  {
    var s := c.blocks;
    var f, l := First(s, i), Last(s, i);
    LiveSplice(s, f, l + 1, [Merged(s, i)]);
    LiveOne(Merged(s, i));
    LiveAround(s, i);
    NotLiveBefore(s, i, f, c.addr + HEADER, c.Stop());
    NotLiveBehind(s, i, l + 1, c.addr + HEADER, c.Stop());
    OnlyDrop(LiveIn(s[..f]), LiveIn(s[l + 1..]), (s[i].Data(), s[i].req));
  }

  lemma {:induction false} OnlyDrop(a: set<(int, int)>, b: set<(int, int)>, x: (int, int))
    requires x !in a && x !in b
    ensures a + {} + b == (a + {x} + b) - {x}
  {}

  lemma {:induction false} LiveAround(s: seq<Block>, i: nat)
    requires i < |s| && s[i].used
    ensures LiveIn(s[First(s, i)..Last(s, i) + 1]) == {(s[i].Data(), s[i].req)}
  {
    var p := if MergesBack(s, i) then [s[i - 1]] else [];
    var n := if MergesForward(s, i) then [s[i + 1]] else [];
    assert s[First(s, i)..Last(s, i) + 1] == p + [s[i]] + n;
    LiveConcat(p + [s[i]], n);
    LiveConcat(p, [s[i]]);
    LiveOne(s[i]);
    if p != [] { LiveOne(s[i - 1]); }
    if n != [] { LiveOne(s[i + 1]); }
  }

  /** No block before or behind block `i` has its payload. */
  lemma {:induction false} NotLiveBefore(s: seq<Block>, i: nat, f: nat, lo: int, hi: int)
    requires Packed(s, lo, hi) && f <= i < |s|
    ensures forall r :: (s[i].Data(), r) !in LiveIn(s[..f])
  {
    var t := s[..f];
    forall j | 0 <= j < |t| ensures t[j].Data() != s[i].Data() { DistinctBlocks(s, i, j, lo, hi); }
    forall r ensures (s[i].Data(), r) !in LiveIn(t) { NotLiveIn(t, s[i].Data(), r); }
  }

  lemma {:induction false} NotLiveBehind(s: seq<Block>, i: nat, k: nat, lo: int, hi: int)
    requires Packed(s, lo, hi) && i < k <= |s|
    ensures forall r :: (s[i].Data(), r) !in LiveIn(s[k..])
  {
    var t := s[k..];
    forall j | 0 <= j < |t| ensures t[j].Data() != s[i].Data() { DistinctBlocks(s, i, k + j, lo, hi); }
    forall r ensures (s[i].Data(), r) !in LiveIn(t) { NotLiveIn(t, s[i].Data(), r); }
  }

  lemma {:induction false} DistinctBlocks(s: seq<Block>, i: nat, j: nat, lo: int, hi: int)
    requires Packed(s, lo, hi) && i < |s| && j < |s| && i != j
    ensures s[i].End() <= s[j].addr || s[j].End() <= s[i].addr
    ensures s[i].Data() != s[j].Data()
  {}

  // ---- safety of live allocations ---------------------------------------------------------

  /** Where a block sits. */
  ghost predicate At(h: Heap, k: nat, i: nat) {
    k < |h| && i < |h[k].blocks|
  }

  lemma {:induction false} LiveHasBlock(h: Heap, p: int, r: int) returns (k: nat, i: nat)
    requires (p, r) in Live(h)
    ensures At(h, k, i) && h[k].blocks[i].used && h[k].blocks[i].Data() == p && h[k].blocks[i].req == r
  {
    if (p, r) in LiveIn(h[0].blocks) {
      k := 0;
      i := LiveIndex(h[0].blocks, p, r);
    } else {
      k, i := LiveHasBlock(h[1..], p, r);
      k := k + 1;
    }
  }

  /** Two different blocks of the heap do not touch each other, headers included. */
  lemma {:induction false} BlocksApart(h: Heap, k: nat, i: nat, l: nat, j: nat)
    requires Inv(h) && At(h, k, i) && At(h, l, j) && (k, i) != (l, j)
    ensures h[k].blocks[i].End() <= h[l].blocks[j].addr || h[l].blocks[j].End() <= h[k].blocks[i].addr
  {}

  /** Every live payload is 16-byte aligned, lies inside its block, and touches neither
      another live payload nor any block or container header. */
  lemma {:induction false} LivePayloadsSafe(h: Heap, p: int, r: int)
    requires Inv(h) && (p, r) in Live(h)
    ensures p % 16 == 0 && r >= 0
    ensures forall q, s :: (q, s) in Live(h) && q != p ==> p + r <= q || q + s <= p
    ensures forall k: nat, i: nat :: At(h, k, i) ==> p + r <= h[k].blocks[i].addr || h[k].blocks[i].addr + HEADER <= p
    ensures forall k :: 0 <= k < |h| ==> p + r <= h[k].addr || h[k].addr + HEADER <= p
  {
    var k, i := LiveHasBlock(h, p, r);
    var c := h[k];
    assert BlockOk(c.blocks[i], c.addr + HEADER, c.Stop());
    forall q, s | (q, s) in Live(h) && q != p ensures p + r <= q || q + s <= p {
      var l, j := LiveHasBlock(h, q, s);
      assert BlockOk(h[l].blocks[j], h[l].addr + HEADER, h[l].Stop());
      BlocksApart(h, k, i, l, j);
    }
    forall l: nat, j: nat | At(h, l, j) ensures p + r <= h[l].blocks[j].addr || h[l].blocks[j].addr + HEADER <= p {
      if (l, j) != (k, i) {
        assert BlockOk(h[l].blocks[j], h[l].addr + HEADER, h[l].Stop());
        BlocksApart(h, k, i, l, j);
      }
    }
    forall l | 0 <= l < |h| ensures p + r <= h[l].addr || h[l].addr + HEADER <= p {
      assert WellFormed(h[l]) && BlockOk(h[l].blocks[0], h[l].addr + HEADER, h[l].Stop());
      if l != k { assert Apart(c, h[l]) || Apart(h[l], c); }
    }
  }

  // ---- the two operations -------------------------------------------------------------------

  predicate HasFit(c: Container, size: int) {
    FindFit(c.blocks, size, 0) < |c.blocks|
  }

  /** The container loop of `kmalloc`. */
  function FindContainer(h: Heap, size: int, k: nat): (n: nat)
    requires k <= |h|
    ensures k <= n <= |h| && (n < |h| ==> HasFit(h[n], size)) && forall j :: k <= j < n ==> !HasFit(h[j], size)
    decreases |h| - k
  {
    if k == |h| || HasFit(h[k], size) then k else FindContainer(h, size, k + 1)
  }

  datatype Answer = Got(ptr: int) | NoMemory | Impossible

  /** `kmalloc`; `grant` is what `vmm_alloc_between` would return. */
  function Kmalloc(h: Heap, size: int, grant: Option<int>): (Heap, Answer) {
    var k := FindContainer(h, size, 0);
    if k < |h| then
      var i := FindFit(h[k].blocks, size, 0);
      (h[k := Allocated(h[k], i, size)], Got(h[k].blocks[i].Data()))
    else match grant
      case None => (h, NoMemory)
      case Some(a) =>
        var c := NewContainer(a, PagesFor(size));
        var i := FindFit(c.blocks, size, 0);
        if i < |c.blocks| then ([Allocated(c, i, size)] + h, Got(c.blocks[i].Data())) else ([c] + h, Impossible)
  }

  /** `kfree` of block `i` of container `k`, and what goes back to the VMM. */
  function Kfree(h: Heap, k: nat, i: nat): (Heap, Option<(int, int)>)
    requires k < |h| && i < |h[k].blocks|
  {
    if UsedCount(h[k].blocks) == 1 then (h[..k] + h[k + 1..], Some((h[k].addr, h[k].pages)))
    else (h[k := Released(h[k], i)], None)
  }

  /** What the VMM guarantees for a range it hands out: page-aligned, in nobody's use. */
  ghost predicate GrantOk(h: Heap, a: int, pages: int) {
    pages > 0 && PageAligned(a) && forall k :: 0 <= k < |h| ==> a + pages * 0x1000 <= h[k].addr || h[k].Stop() <= a
  }

  /** `kmalloc` gets a container that turns out too small. */
  ghost predicate Wraps(h: Heap, size: int, grant: Option<int>) {
    NoRoom(h, size) && grant.Some? && !Servable(size)
  }

  /** Every free block of the heap is shorter than `size`. */
  ghost predicate NoRoom(h: Heap, size: int) {
    forall k :: 0 <= k < |h| ==> Full(h[k].blocks, size)
  }

  lemma {:induction false} NoRoomMeaning(h: Heap, size: int)
    ensures NoRoom(h, size) <==> FindContainer(h, size, 0) == |h|
    ensures var k := FindContainer(h, size, 0);
            k < |h| ==>
              && FirstFreeFit(h[k].blocks, FindFit(h[k].blocks, size, 0), size)
              && forall l :: 0 <= l < k ==> Full(h[l].blocks, size)
  {
    forall k | 0 <= k < |h| ensures HasFit(h[k], size) <==> !Full(h[k].blocks, size) {
      FindFitMeaning(h[k].blocks, size);
    }
    var k := FindContainer(h, size, 0);
    if k < |h| { FindFitMeaning(h[k].blocks, size); }
  }

  /** Where an allocation lands: in the first free block that is long enough, container by
      container. Only when there is none does the heap need a new container. */
  ghost predicate Lands(h: Heap, g: Heap, size: int, ptr: int, k: nat, i: nat) {
    && k < |h| && FirstFreeFit(h[k].blocks, i, size) && (forall l :: 0 <= l < k ==> Full(h[l].blocks, size))
    && ptr == h[k].blocks[i].addr + 40
    && |g| == |h| && (forall l :: 0 <= l < |h| && l != k ==> g[l] == h[l])
    && g[k].addr == h[k].addr && g[k].pages == h[k].pages
    && i < |g[k].blocks| && g[k].blocks[..i] == h[k].blocks[..i] && g[k].blocks[i].used
  }

  lemma {:induction false} KmallocLands(h: Heap, size: int, grant: Option<int>)
    ensures var (g, ans) := Kmalloc(h, size, grant);
            && (!NoRoom(h, size) ==> ans.Got? && exists k: nat, i: nat :: Lands(h, g, size, ans.ptr, k, i))
            && (NoRoom(h, size) && grant.None? ==> (g, ans) == (h, NoMemory))
            && (NoRoom(h, size) && grant.Some? ==>
                  !ans.NoMemory? && |g| == |h| + 1 && g[1..] == h && g[0].addr == grant.value)
  {
    NoRoomMeaning(h, size);
    var k := FindContainer(h, size, 0);
    if k < |h| {
      var i := FindFit(h[k].blocks, size, 0);
      CarvedCost(h[k].blocks[i], size);
      var (g, ans) := Kmalloc(h, size, grant);
      assert Lands(h, g, size, ans.ptr, k, i);
    }
  }

  /** While its container stays, a block just freed has room for as much again: no new
      container is needed for any size up to its own. */
  lemma {:induction false} RoomAfterFree(h: Heap, k: nat, i: nat, size: int)
    requires At(h, k, i) && size <= h[k].blocks[i].size && Kfree(h, k, i).1.None?
    requires forall j :: 0 <= j < |h[k].blocks| ==> h[k].blocks[j].size >= 0
    ensures !NoRoom(Kfree(h, k, i).0, size) && Kmalloc(Kfree(h, k, i).0, size, None).1.Got?
  {
    var g := Kfree(h, k, i).0;
    MergedSize(h[k].blocks, i);
    var b := g[k].blocks[First(h[k].blocks, i)];
    assert b == Merged(h[k].blocks, i) && !b.used && b.size >= size;
    KmallocLands(g, size, None);
  }

  lemma {:induction false} LiveReplace(h: Heap, k: nat, c: Container)
    requires k < |h|
    ensures Live(h[k := c]) == Live(h[..k]) + LiveIn(c.blocks) + Live(h[k + 1..])
  {
    assert h[k := c] == h[..k] + [c] + h[k + 1..];
    LiveHeapConcat(h[..k] + [c], h[k + 1..]);
    LiveHeapConcat(h[..k], [c]);
    assert [c][1..] == [];
  }

  /** `kmalloc` keeps the invariant and adds exactly the new allocation to the live ones. The
      "impossible" panic is met exactly when nothing fits, the VMM grants, and the size is one
      of the last few below 2^64. */
  lemma {:induction false} KmallocCorrect(h: Heap, size: int, grant: Option<int>)
    requires Inv(h) && 0 <= size < U64 && (grant.Some? ==> GrantOk(h, grant.value, PagesFor(size)))
    ensures var (g, ans) := Kmalloc(h, size, grant);
            && Inv(g) && (ans == Impossible <==> Wraps(h, size, grant)) && (ans == Impossible ==> Live(g) == Live(h))
            && (ans == NoMemory ==> g == h && grant == None)
            && (ans.Got? ==> Live(g) == Live(h) + {(ans.ptr, size)} && forall r :: (ans.ptr, r) !in Live(h))
  {
    NoRoomMeaning(h, size);
    var k := FindContainer(h, size, 0);
    if k < |h| {
      MallocInside(h, k, size);
    } else if grant.Some? {
      MallocFresh(h, size, grant.value);
    }
  }

  lemma {:induction false} MallocFresh(h: Heap, size: int, a: int)
    requires Inv(h) && 0 <= size < U64 && GrantOk(h, a, PagesFor(size)) && NoRoom(h, size)
    ensures var (g, ans) := Kmalloc(h, size, Some(a));
            && Inv(g) && (ans == Impossible <==> !Servable(size)) && (ans == Impossible ==> Live(g) == Live(h))
            && !ans.NoMemory?
            && (ans.Got? ==> Live(g) == Live(h) + {(ans.ptr, size)} && forall r :: (ans.ptr, r) !in Live(h))
  {
    var c := NewContainer(a, PagesFor(size));
    NoRoomMeaning(h, size);
    NewContainerOk(a, PagesFor(size));
    FreshContainerFits(a, size);
    GrownHeap(h, c);
    LiveOne(c.blocks[0]);
    assert ([c] + h)[1..] == h;
    if Servable(size) {
      MallocInside([c] + h, 0, size);
      assert ([c] + h)[0 := Allocated(c, 0, size)] == [Allocated(c, 0, size)] + h;
    }
  }

  lemma {:induction false} GrownHeap(h: Heap, c: Container)
    requires Inv(h) && WellFormed(c) && GrantOk(h, c.addr, c.pages)
    ensures Inv([c] + h)
  {}

  lemma {:induction false} MallocInside(h: Heap, k: nat, size: int)
    requires Inv(h) && k < |h| && size >= 0 && HasFit(h[k], size)
    ensures var i := FindFit(h[k].blocks, size, 0);
            var p := h[k].blocks[i].Data();
            && Inv(h[k := Allocated(h[k], i, size)])
            && Live(h[k := Allocated(h[k], i, size)]) == Live(h) + {(p, size)}
            && forall r :: (p, r) !in Live(h)
  {
    var c, i := h[k], FindFit(h[k].blocks, size, 0);
    KeepsOthers(h, k);
    AllocKeeps(c, i, size);
    AllocLive(c, i, size);
    LiveReplace(h, k, Allocated(c, i, size));
    LiveReplace(h, k, c);
    assert h[k := c] == h;
    forall r ensures (c.blocks[i].Data(), r) !in Live(h) {
      NotYetLive(h, k, i, r);
    }
  }

  lemma {:induction false} NotYetLive(h: Heap, k: nat, i: nat, r: int)
    requires Inv(h) && At(h, k, i) && !h[k].blocks[i].used
    ensures (h[k].blocks[i].Data(), r) !in Live(h)
  {
    if (h[k].blocks[i].Data(), r) in Live(h) {
      var l, j := LiveHasBlock(h, h[k].blocks[i].Data(), r);
      DataDiffer(h, k, i, l, j);
    }
  }

  lemma {:induction false} DataDiffer(h: Heap, k: nat, i: nat, l: nat, j: nat)
    requires Inv(h) && At(h, k, i) && At(h, l, j) && (k, i) != (l, j)
    ensures h[k].blocks[i].Data() != h[l].blocks[j].Data()
  {}

  /** `kfree` keeps the invariant, drops exactly the freed allocation, and returns a
      container to the VMM exactly when that was its last one. */
  lemma {:induction false} KfreeCorrect(h: Heap, k: nat, i: nat)
    requires Inv(h) && At(h, k, i) && h[k].blocks[i].used
    ensures var (g, back) := Kfree(h, k, i);
            && Inv(g) && Live(g) == Live(h) - {(h[k].blocks[i].Data(), h[k].blocks[i].req)}
            && (back.Some? <==> LiveIn(h[k].blocks) == {(h[k].blocks[i].Data(), h[k].blocks[i].req)})
            && (back.Some? ==> back.value == (h[k].addr, h[k].pages))
  {
    var c := h[k];
    SoleLive(c, i);
    KeepsOthers(h, k);
    ReleaseKeeps(c, i);
    LiveAfterRelease(h, k, i);
  }

  lemma {:induction false} LiveAfterRelease(h: Heap, k: nat, i: nat)
    requires Inv(h) && At(h, k, i) && h[k].blocks[i].used
    ensures Live(h[k := Released(h[k], i)]) == Live(h) - {(h[k].blocks[i].Data(), h[k].blocks[i].req)}
    ensures LiveIn(h[k].blocks) == {(h[k].blocks[i].Data(), h[k].blocks[i].req)} ==>
              Live(h[..k] + h[k + 1..]) == Live(h) - {(h[k].blocks[i].Data(), h[k].blocks[i].req)}
  {
    var c := h[k];
    var front, back, x := h[..k], h[k + 1..], (c.blocks[i].Data(), c.blocks[i].req);
    NotLiveElsewhere(front, h, k, i, 0);
    NotLiveElsewhere(back, h, k, i, k + 1);
    WithoutOne(Live(front), LiveIn(c.blocks), Live(back), x);
    ReleaseLive(c, i);
    LiveReplace(h, k, Released(c, i));
    LiveReplace(h, k, c);
    assert h[k := c] == h;
    LiveHeapConcat(front, back);
  }

  lemma {:induction false} WithoutOne(a: set<(int, int)>, m: set<(int, int)>, b: set<(int, int)>, x: (int, int))
    requires x !in a && x !in b
    ensures a + (m - {x}) + b == a + m + b - {x} && (m == {x} ==> a + b == a + m + b - {x})
  {}

  lemma {:induction false} KeepsOthers(h: Heap, k: nat)
    requires Inv(h) && k < |h|
    ensures Inv(h[..k] + h[k + 1..])
    ensures forall c :: WellFormed(c) && c.addr == h[k].addr && c.pages == h[k].pages ==> Inv(h[k := c])
  {}

  lemma {:induction false} NotLiveElsewhere(g: Heap, h: Heap, k: nat, i: nat, f: nat)
    requires Inv(h) && At(h, k, i) && f + |g| <= |h| && forall l :: 0 <= l < |g| ==> g[l] == h[f + l] && f + l != k
    ensures forall r :: (h[k].blocks[i].Data(), r) !in Live(g)
  {
    if g != [] {
      forall l | 0 <= l < |g[1..]| ensures g[1..][l] == h[f + 1 + l] && f + 1 + l != k {
        assert g[l + 1] == h[f + (l + 1)] && f + (l + 1) != k;
      }
      NotLiveElsewhere(g[1..], h, k, i, f + 1);
      assert g[0] == h[f + 0] && f + 0 != k;
      forall j | 0 <= j < |h[f].blocks| ensures h[f].blocks[j].Data() != h[k].blocks[i].Data() {
        DataDiffer(h, k, i, f, j);
      }
      forall r ensures (h[k].blocks[i].Data(), r) !in LiveIn(g[0].blocks) {
        NotLiveIn(g[0].blocks, h[k].blocks[i].Data(), r);
      }
    }
  }

  /** A container has one used block exactly when it has one live allocation. */
  lemma {:induction false} SoleLive(c: Container, i: nat)
    requires WellFormed(c) && i < |c.blocks| && c.blocks[i].used
    ensures UsedCount(c.blocks) == 1 <==> LiveIn(c.blocks) == {(c.blocks[i].Data(), c.blocks[i].req)}
  {
    var s := c.blocks;
    UsedSplice(s, i, i + 1, []);
    LiveSplice(s, i, i + 1, []);
    assert s[i..i + 1] == [s[i]];
    UsedOne(s[i]);
    LiveOne(s[i]);
    NoneLive(s[..i]);
    NoneLive(s[i + 1..]);
    NotLiveBefore(s, i, i, c.addr + HEADER, c.Stop());
    NotLiveBehind(s, i, i + 1, c.addr + HEADER, c.Stop());
  }

  lemma {:induction false} NoneLive(s: seq<Block>)
    ensures LiveIn(s) == {} <==> UsedCount(s) == 0
  {
    if s != [] { NoneLive(s[1..]); }
  }

  // ---- runs -------------------------------------------------------------------------------

  /** The heap with the pages taken from and given back to the VMM so far. */
  datatype State = State(heap: Heap, taken: int, given: int)

  datatype Call =
    | Init(pages: int, grant: Option<int>)     // kheap_init
    | Malloc(size: int, grant: Option<int>)    // kmalloc
    | Free(k: nat, i: nat)                     // kfree of a live pointer: block i of container k

  /** What the callers and the VMM have to respect; a run ends with a panic. */
  ghost predicate Legal(s: State, call: Call) {
    match call
    case Init(pages, grant) => grant.Some? ==> GrantOk(s.heap, grant.value, PagesOf(pages))
    case Malloc(size, grant) =>
      && 0 <= size < U64 && !Wraps(s.heap, size, grant)
      && (grant.Some? ==> GrantOk(s.heap, grant.value, PagesFor(size)))
    case Free(k, i) => At(s.heap, k, i) && s.heap[k].blocks[i].used
  }

  ghost function Next(s: State, call: Call): State
    requires Legal(s, call)
  {
    match call
    case Init(pages, None) => s
    case Init(pages, Some(a)) =>
      State([NewContainer(a, PagesOf(pages))] + s.heap, s.taken + PagesOf(pages), s.given)
    case Malloc(size, grant) =>
      var (h, ans) := Kmalloc(s.heap, size, grant);
      State(h, s.taken + (if |h| > |s.heap| then PagesFor(size) else 0), s.given)
    case Free(k, i) =>
      var (h, back) := Kfree(s.heap, k, i);
      State(h, s.taken, s.given + (if back.Some? then back.value.1 else 0))
  }

  function Pages(h: Heap): int {
    if h == [] then 0 else h[0].pages + Pages(h[1..])
  }

  /** A container without used blocks has never been used. */
  ghost predicate NoLeftovers(h: Heap) {
    forall k :: 0 <= k < |h| && UsedCount(h[k].blocks) == 0 ==> h[k] == NewContainer(h[k].addr, h[k].pages)
  }

  ghost predicate Good(s: State) {
    Inv(s.heap) && NoLeftovers(s.heap) && s.taken - s.given == Pages(s.heap)
  }

  lemma {:induction false} PagesConcat(g: Heap, h: Heap)
    ensures Pages(g + h) == Pages(g) + Pages(h)
  {
    if g == [] {
      assert g + h == h;
    } else {
      assert (g + h)[1..] == g[1..] + h;
      PagesConcat(g[1..], h);
    }
  }

  lemma {:induction false} PagesReplace(h: Heap, k: nat, c: Container)
    requires k < |h|
    ensures Pages(h) == Pages(h[..k] + h[k + 1..]) + h[k].pages
    ensures c.pages == h[k].pages ==> Pages(h[k := c]) == Pages(h)
  {
    assert h == h[..k] + [h[k]] + h[k + 1..] && h[k := c] == h[..k] + [c] + h[k + 1..];
    PagesConcat(h[..k] + [h[k]], h[k + 1..]);
    PagesConcat(h[..k], [h[k]]);
    PagesConcat(h[..k] + [c], h[k + 1..]);
    PagesConcat(h[..k], [c]);
    PagesConcat(h[..k], h[k + 1..]);
    assert [h[k]][1..] == [] && [c][1..] == [];
  }

  lemma {:induction false} PagesPrepend(c: Container, h: Heap)
    ensures Pages([c] + h) == c.pages + Pages(h)
  {}

  lemma {:induction false} NextGood(s: State, call: Call)
    requires Good(s) && Legal(s, call)
    ensures Good(Next(s, call))
  {
    match call
    case Init(pages, None) =>
    case Init(pages, Some(a)) =>
      var c := NewContainer(a, PagesOf(pages));
      NewContainerOk(a, PagesOf(pages));
      GrownHeap(s.heap, c);
      PagesPrepend(c, s.heap);
    case Malloc(size, grant) => MallocGood(s, size, grant);
    case Free(k, i) => FreeGood(s, k, i);
  }

  lemma {:induction false} MallocGood(s: State, size: int, grant: Option<int>)
    requires Good(s) && Legal(s, Malloc(size, grant))
    ensures Good(Next(s, Malloc(size, grant)))
  {
    var h := s.heap;
    NoRoomMeaning(h, size);
    KmallocCorrect(h, size, grant);
    var k := FindContainer(h, size, 0);
    if k < |h| {
      var i := FindFit(h[k].blocks, size, 0);
      AllocKeeps(h[k], i, size);
      PagesReplace(h, k, Allocated(h[k], i, size));
    } else if grant.Some? {
      var c := NewContainer(grant.value, PagesFor(size));
      FreshContainerFits(grant.value, size);
      NewContainerOk(grant.value, PagesFor(size));
      AllocKeeps(c, 0, size);
      PagesPrepend(Allocated(c, 0, size), h);
    }
  }

  lemma {:induction false} FreeGood(s: State, k: nat, i: nat)
    requires Good(s) && Legal(s, Free(k, i))
    ensures Good(Next(s, Free(k, i)))
  {
    var h := s.heap;
    KfreeCorrect(h, k, i);
    ReleaseKeeps(h[k], i);
    PagesReplace(h, k, Released(h[k], i));
  }

  /** A run: each state follows from the one before by a legal call. */
  ghost predicate IsRun(states: seq<State>, calls: seq<Call>) {
    && |states| == |calls| + 1 && states[0] == State([], 0, 0)
    && forall n :: 0 <= n < |calls| ==> Legal(states[n], calls[n]) && states[n + 1] == Next(states[n], calls[n])
  }

  /** The invariant holds in every state of every run. */
  lemma {:induction false} RunGood(states: seq<State>, calls: seq<Call>, n: nat)
    requires IsRun(states, calls) && n < |states|
    ensures Good(states[n])
  {
    if n > 0 {
      RunGood(states, calls, n - 1);
      assert Legal(states[n - 1], calls[n - 1]) && states[n - 1 + 1] == Next(states[n - 1], calls[n - 1]);
      NextGood(states[n - 1], calls[n - 1]);
    }
  }

  // ---- what slack costs -----------------------------------------------------------------------

  /** The bytes of the containers that are neither header nor payload of a block. */
  function Lost(h: Heap): int {
    if h == [] then 0 else h[0].pages * 0x1000 - 40 - Footprint(h[0].blocks) + Lost(h[1..])
  }

  lemma {:induction false} LostConcat(g: Heap, h: Heap)
    ensures Lost(g + h) == Lost(g) + Lost(h)
  {
    if g == [] {
      assert g + h == h;
    } else {
      assert (g + h)[1..] == g[1..] + h;
      LostConcat(g[1..], h);
    }
  }

  lemma {:induction false} LostReplace(h: Heap, k: nat, m: Heap)
    requires k < |h|
    ensures Lost(h) == Lost(h[..k] + h[k + 1..]) + Lost([h[k]])
    ensures Lost(h[..k] + m + h[k + 1..]) == Lost(h[..k] + h[k + 1..]) + Lost(m)
  {
    assert h == h[..k] + [h[k]] + h[k + 1..];
    LostConcat(h[..k] + [h[k]], h[k + 1..]);
    LostConcat(h[..k], [h[k]]);
    LostConcat(h[..k] + m, h[k + 1..]);
    LostConcat(h[..k], m);
    LostConcat(h[..k], h[k + 1..]);
  }

  lemma {:induction false} LostOne(c: Container)
    ensures Lost([c]) == c.pages * 0x1000 - 40 - Footprint(c.blocks)
    ensures WellFormed(c) ==> Lost([c]) >= 0
  {
    assert [c][1..] == [];
    if WellFormed(c) {
      assert BlockOk(c.blocks[0], c.addr + HEADER, c.Stop());
      FootprintBound(c.blocks, c.addr + HEADER, c.Stop());
    }
  }

  lemma {:induction false} LostPositive(h: Heap)
    requires forall k :: 0 <= k < |h| ==> WellFormed(h[k])
    ensures Lost(h) >= 0
  {
    if h != [] {
      assert h == [h[0]] + h[1..];
      LostConcat([h[0]], h[1..]);
      LostOne(h[0]);
      LostPositive(h[1..]);
    }
  }

  lemma {:induction false} LostFresh(a: int, pages: int)
    ensures Lost([NewContainer(a, pages)]) == 0
  {
    LostOne(NewContainer(a, pages));
    FootprintOne(NewContainer(a, pages).blocks[0]);
  }

  lemma {:induction false} LostAllocated(h: Heap, k: nat, i: nat, size: int)
    requires k < |h| && i < |h[k].blocks|
    ensures Lost(h) <= Lost(h[k := Allocated(h[k], i, size)]) <= Lost(h) + 16
  {
    var d := Allocated(h[k], i, size);
    LostReplace(h, k, [d]);
    assert h[k := d] == h[..k] + [d] + h[k + 1..];
    AllocCost(h[k], i, size);
    LostOne(h[k]);
    LostOne(d);
  }

  /** A call adds at most 16 lost bytes, and only `kmalloc` adds any. */
  lemma {:induction false} LostStep(s: State, call: Call)
    requires Good(s) && Legal(s, call)
    ensures Lost(Next(s, call).heap) <= Lost(s.heap) + if call.Malloc? then 16 else 0
  {
    var h := s.heap;
    match call
    case Init(pages, grant) =>
      if grant.Some? {
        LostFresh(grant.value, PagesOf(pages));
        LostConcat([NewContainer(grant.value, PagesOf(pages))], h);
      }
    case Malloc(size, grant) => LostMalloc(h, size, grant);
    case Free(k, i) =>
      LostOne(h[k]);
      LostReplace(h, k, [Released(h[k], i)]);
      assert h[k := Released(h[k], i)] == h[..k] + [Released(h[k], i)] + h[k + 1..];
      LostOne(Released(h[k], i));
      ReleaseCost(h[k], i);
  }

  lemma {:induction false} LostMalloc(h: Heap, size: int, grant: Option<int>)
    requires 0 <= size < U64 && (grant.Some? ==> PagesFor(size) > 0) && !Wraps(h, size, grant)
    ensures Lost(Kmalloc(h, size, grant).0) <= Lost(h) + 16
  {
    NoRoomMeaning(h, size);
    var k := FindContainer(h, size, 0);
    if k < |h| {
      LostAllocated(h, k, FindFit(h[k].blocks, size, 0), size);
    } else if grant.Some? {
      var c := NewContainer(grant.value, PagesFor(size));
      FreshContainerFits(grant.value, size);
      LostFresh(grant.value, PagesFor(size));
      LostAllocated([c], 0, 0, size);
      assert [c][0 := Allocated(c, 0, size)] == [Allocated(c, 0, size)];
      LostConcat([Allocated(c, 0, size)], h);
    }
  }

  lemma {:induction false} LostThen(states: seq<State>, calls: seq<Call>, n: nat)
    requires IsRun(states, calls) && n < |calls| && Good(states[n])
    ensures Lost(states[n + 1].heap) <= Lost(states[n].heap) + if calls[n].Malloc? then 16 else 0
  {
    LostStep(states[n], calls[n]);
  }

  function Mallocs(calls: seq<Call>): nat {
    if calls == [] then 0 else Mallocs(calls[..|calls| - 1]) + if calls[|calls| - 1].Malloc? then 1 else 0
  }

  lemma {:induction false} MallocsStep(calls: seq<Call>, n: nat)
    requires n < |calls|
    ensures Mallocs(calls[..n + 1]) == Mallocs(calls[..n]) + if calls[n].Malloc? then 1 else 0
  {
    assert calls[..n + 1][..n] == calls[..n];
  }

  lemma {:induction false} RunPositive(states: seq<State>, calls: seq<Call>, n: nat)
    requires IsRun(states, calls) && n < |states|
    ensures 0 <= Lost(states[n].heap)
  {
    RunGood(states, calls, n);
    LostPositive(states[n].heap);
  }

  lemma {:induction false} RunBound(states: seq<State>, calls: seq<Call>, n: nat)
    requires IsRun(states, calls) && n < |states|
    ensures Lost(states[n].heap) <= 16 * Mallocs(calls[..n])
  {
    if n > 0 {
      RunBound(states, calls, n - 1);
      RunGood(states, calls, n - 1);
      LostThen(states, calls, n - 1);
      MallocsStep(calls, n - 1);
    }
  }

  /** In every state of every run the containers are headers and payloads of blocks but for
      at most 16 bytes for each `kmalloc` so far. */
  lemma {:induction false} RunLost(states: seq<State>, calls: seq<Call>, n: nat)
    requires IsRun(states, calls) && n < |states|
    ensures 0 <= Lost(states[n].heap) <= 16 * Mallocs(calls[..n])
  {
    RunPositive(states, calls, n);
    RunBound(states, calls, n);
  }

  // ---- what is left when nothing is live ------------------------------------------------------

  /** Where a `kmalloc` lands: the container it allocates from. */
  ghost function Landing(h: Heap, size: int, grant: Option<int>): set<int> {
    var k := FindContainer(h, size, 0);
    if k < |h| then {h[k].addr} else if grant.Some? then {grant.value} else {}
  }

  /** The containers of `kheap_init` that no `kmalloc` has landed in yet. */
  ghost function Waiting(states: seq<State>, calls: seq<Call>, n: nat): set<int>
    requires n <= |calls| && |states| == |calls| + 1
  {
    if n == 0 then {}
    else
      var before := Waiting(states, calls, n - 1);
      match calls[n - 1]
      case Init(_, grant) => if grant.Some? then before + {grant.value} else before
      case Malloc(size, grant) => before - Landing(states[n - 1].heap, size, grant)
      case Free(_, _) => before
  }

  /** `w` are the addresses of the containers without used blocks. */
  ghost predicate IdleAt(h: Heap, w: set<int>) {
    && (forall k :: 0 <= k < |h| ==> (UsedCount(h[k].blocks) == 0 <==> h[k].addr in w))
    && (forall a :: a in w ==> HasContainer(h, a))
  }

  ghost predicate HasContainer(h: Heap, a: int) {
    exists k :: 0 <= k < |h| && h[k].addr == a
  }

  lemma {:induction false} AddressesDiffer(h: Heap)
    requires Inv(h)
    ensures forall k, l :: 0 <= k < l < |h| ==> h[k].addr != h[l].addr
  {
    forall k, l | 0 <= k < l < |h| ensures h[k].addr != h[l].addr { assert WellFormed(h[k]) && WellFormed(h[l])
        && Apart(h[k], h[l]); }
  }

  lemma {:induction false} IdleReplaced(h: Heap, w: set<int>, k: nat, c: Container)
    requires IdleAt(h, w) && k < |h| && c.addr == h[k].addr && UsedCount(c.blocks) > 0
    requires forall i, j :: 0 <= i < j < |h| ==> h[i].addr != h[j].addr
    ensures IdleAt(h[k := c], w - {c.addr})
  {
    var g := h[k := c];
    forall a | a in w - {c.addr} ensures HasContainer(g, a) {
      var l :| 0 <= l < |h| && h[l].addr == a;
      assert g[l].addr == a;
    }
  }

  lemma {:induction false} IdleRemoved(h: Heap, w: set<int>, k: nat)
    requires IdleAt(h, w) && k < |h| && UsedCount(h[k].blocks) > 0
    ensures IdleAt(h[..k] + h[k + 1..], w)
  {
    var g := h[..k] + h[k + 1..];
    forall a | a in w ensures HasContainer(g, a) {
      var l :| 0 <= l < |h| && h[l].addr == a;
      assert g[if l < k then l else l - 1].addr == a;
    }
  }

  lemma {:induction false} IdlePrepended(h: Heap, w: set<int>, c: Container)
    requires IdleAt(h, w) && forall k :: 0 <= k < |h| ==> h[k].addr != c.addr
    ensures IdleAt([c] + h, if UsedCount(c.blocks) == 0 then w + {c.addr} else w - {c.addr})
  {
    var g := [c] + h;
    forall k | 0 <= k < |h| ensures g[k + 1] == h[k] {}
    assert g[0] == c;
    forall a | a in w && a != c.addr ensures HasContainer(g, a) {
      var l :| 0 <= l < |h| && h[l].addr == a;
      assert g[l + 1].addr == a;
    }
  }

  /** In every state of a run the containers without used blocks are exactly the ones of
      `kheap_init` still waiting for their first allocation. */
  lemma {:induction false} IdleIsWaiting(states: seq<State>, calls: seq<Call>, n: nat)
    requires IsRun(states, calls) && n < |states|
    ensures IdleAt(states[n].heap, Waiting(states, calls, n))
  {
    if n > 0 {
      IdleIsWaiting(states, calls, n - 1);
      RunGood(states, calls, n - 1);
      RunGood(states, calls, n);
      assert Legal(states[n - 1], calls[n - 1]) && states[n - 1 + 1] == Next(states[n - 1], calls[n - 1]);
      IdleStep(states[n - 1], calls[n - 1], Waiting(states, calls, n - 1));
    }
  }

  lemma {:induction false} IdleStep(s: State, call: Call, w: set<int>)
    requires Good(s) && Legal(s, call) && Good(Next(s, call)) && IdleAt(s.heap, w)
    ensures IdleAt(Next(s, call).heap,
                   match call
                   case Init(_, grant) => if grant.Some? then w + {grant.value} else w
                   case Malloc(size, grant) => w - Landing(s.heap, size, grant)
                   case Free(_, _) => w)
  {
    match call
    case Init(pages, grant) => IdleInit(s, pages, grant, w);
    case Malloc(size, grant) => IdleMalloc(s, size, grant, w);
    case Free(k, i) => IdleFree(s, k, i, w);
  }

  lemma {:induction false} IdleInit(s: State, pages: int, grant: Option<int>, w: set<int>)
    requires Good(s) && Legal(s, Init(pages, grant)) && Good(Next(s, Init(pages, grant))) && IdleAt(s.heap, w)
    ensures IdleAt(Next(s, Init(pages, grant)).heap, if grant.Some? then w + {grant.value} else w)
  {
    if grant.Some? {
      var c := NewContainer(grant.value, PagesOf(pages));
      NewContainerOk(grant.value, PagesOf(pages));
      NewAddress(s.heap, c);
      IdlePrepended(s.heap, w, c);
    }
  }

  lemma {:induction false} IdleFree(s: State, k: nat, i: nat, w: set<int>)
    requires Good(s) && Legal(s, Free(k, i)) && IdleAt(s.heap, w)
    ensures IdleAt(Next(s, Free(k, i)).heap, w)
  {
    var h := s.heap;
    AddressesDiffer(h);
    ReleaseKeeps(h[k], i);
    UsedZero(h[k].blocks);
    if UsedCount(h[k].blocks) == 1 {
      IdleRemoved(h, w, k);
    } else {
      assert h[k].addr !in w && w - {h[k].addr} == w;
      IdleReplaced(h, w, k, Released(h[k], i));
    }
  }

  /** The address of a container in front of a heap in shape is new. */
  lemma {:induction false} NewAddress(h: Heap, c: Container)
    requires Inv([c] + h)
    ensures forall k :: 0 <= k < |h| ==> h[k].addr != c.addr
  {
    var g := [c] + h;
    AddressesDiffer(g);
    forall k | 0 <= k < |h| ensures h[k].addr != c.addr { assert g[k + 1] == h[k] && g[0] == c; }
  }

  lemma {:induction false} IdleMalloc(s: State, size: int, grant: Option<int>, w: set<int>)
    requires Good(s) && Legal(s, Malloc(size, grant)) && Good(Next(s, Malloc(size, grant))) && IdleAt(s.heap, w)
    ensures IdleAt(Next(s, Malloc(size, grant)).heap, w - Landing(s.heap, size, grant))
  {
    var h, k := s.heap, FindContainer(s.heap, size, 0);
    NoRoomMeaning(h, size);
    AddressesDiffer(h);
    if k < |h| {
      var i := FindFit(h[k].blocks, size, 0);
      AllocKeeps(h[k], i, size);
      IdleReplaced(h, w, k, Allocated(h[k], i, size));
    } else if grant.Some? {
      var c := NewContainer(grant.value, PagesFor(size));
      FreshContainerFits(grant.value, size);
      NewContainerOk(grant.value, PagesFor(size));
      AllocKeeps(c, 0, size);
      NewAddress(h, Allocated(c, 0, size));
      IdlePrepended(h, w, Allocated(c, 0, size));
    }
  }

  lemma {:induction false} NothingLiveIn(h: Heap, k: nat)
    requires Live(h) == {} && k < |h|
    ensures UsedCount(h[k].blocks) == 0
    decreases k
  {
    if k == 0 {
      NoneLive(h[0].blocks);
    } else {
      assert h[1..][k - 1] == h[k];
      NothingLiveIn(h[1..], k - 1);
    }
  }

  /** When everything has been freed, the containers left are the untouched ones of
      `kheap_init`, and the pages out are theirs. So all pages are back with the VMM exactly
      when some `kmalloc` landed in each of these containers. */
  lemma {:induction false} AllFreedAllBack(states: seq<State>, calls: seq<Call>, n: nat)
    requires IsRun(states, calls) && n < |states| && Live(states[n].heap) == {}
    ensures var h, w := states[n].heap, Waiting(states, calls, n);
            && (forall k :: 0 <= k < |h| ==> h[k] == NewContainer(h[k].addr, h[k].pages) && h[k].addr in w)
            && (forall a :: a in w ==> HasContainer(h, a))
            && states[n].taken - states[n].given == Pages(h)
            && (states[n].taken == states[n].given <==> w == {})
  {
    var h, w := states[n].heap, Waiting(states, calls, n);
    RunGood(states, calls, n);
    IdleIsWaiting(states, calls, n);
    forall k | 0 <= k < |h| ensures h[k] == NewContainer(h[k].addr, h[k].pages) && h[k].addr in w {
      NothingLiveIn(h, k);
    }
    PagesPositive(h);
    EmptyTogether(h, w);
  }

  lemma {:induction false} EmptyTogether(h: Heap, w: set<int>)
    requires (forall a :: a in w ==> HasContainer(h, a)) && forall k :: 0 <= k < |h| ==> h[k].addr in w
    ensures h == [] <==> w == {}
  {
    if h != [] { assert h[0].addr in w; }
    if h == [] {
      assert w == set a | a in w && HasContainer(h, a);
    }
  }

  lemma {:induction false} PagesPositive(h: Heap)
    requires Inv(h)
    ensures if h == [] then Pages(h) == 0 else Pages(h) > 0
  {
    if h != [] {
      assert WellFormed(h[0]);
      assert Inv(h[1..]) by {
        assert forall i :: 0 <= i < |h[1..]| ==> h[1..][i] == h[i + 1];
      }
      PagesPositive(h[1..]);
    }
  }

  /** Without `kheap_init` no container waits: the balance is even as soon as nothing is live. */
  lemma {:induction false} NoneWaiting(states: seq<State>, calls: seq<Call>, n: nat)
    requires n <= |calls| && |states| == |calls| + 1 && forall i :: 0 <= i < n ==> !calls[i].Init?
    ensures Waiting(states, calls, n) == {}
  {
    if n > 0 { NoneWaiting(states, calls, n - 1); }
  }
}
