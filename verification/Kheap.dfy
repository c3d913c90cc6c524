/** `kernel/mm/kheap.c` as it works on memory: block and container headers stored by
    address, linked by `prev` and `next`, rewritten in place. */
module Kheap {
  import opened Numeric
  import opened KheapSpec
  import opened KheapRuns

  datatype BlockHeader = BlockHeader(size: int, used: bool, prev: int, next: int, container: int)

  datatype ContainerHeader = ContainerHeader(size: int, usedBlocks: int, prev: int, next: int, block: int)

  type Blocks = map<int, BlockHeader>
  type Containers = map<int, ContainerHeader>

  // ---- what the headers in memory show ------------------------------------------------------

  function BlockAt(c: Container, i: int): int {
    if 0 <= i < |c.blocks| then c.blocks[i].addr else 0
  }

  function ContainerAt(h: Heap, k: int): int {
    if 0 <= k < |h| then h[k].addr else 0
  }

  function HeaderOf(c: Container, i: nat): BlockHeader
    requires i < |c.blocks|
  {
    BlockHeader(c.blocks[i].size, c.blocks[i].used, BlockAt(c, i - 1), BlockAt(c, i + 1), c.addr)
  }

  function ContainerHeaderOf(h: Heap, k: nat): ContainerHeader
    requires k < |h|
  {
    var size := h[k].pages * 0x1000 - HEADER;
    ContainerHeader(size, UsedCount(h[k].blocks), ContainerAt(h, k - 1), ContainerAt(h, k + 1), h[k].addr + HEADER)
  }

  /** The count of used blocks of container `a` changed. */
  function Counted(m: Containers, a: int, n: int): Containers
    requires a in m
  {
    m[a := m[a].(usedBlocks := m[a].usedBlocks + n)]
  }

  ghost predicate ShowsBlocks(m: Blocks, c: Container) {
    forall i :: 0 <= i < |c.blocks| ==> Shown(m, c, i)
  }

  ghost predicate Shown(m: Blocks, c: Container, i: nat)
    requires i < |c.blocks|
  {
    c.blocks[i].addr in m && m[c.blocks[i].addr] == HeaderOf(c, i)
  }

  ghost predicate ShowsContainers(m: Containers, h: Heap) {
    forall k :: 0 <= k < |h| ==> Listed(m, h, k)
  }

  ghost predicate Listed(m: Containers, h: Heap, k: nat)
    requires k < |h|
  {
    h[k].addr in m && m[h[k].addr] == ContainerHeaderOf(h, k)
  }

  ghost predicate ShowsHeap(bm: Blocks, cm: Containers, head: int, h: Heap) {
    && head == ContainerAt(h, 0) && ShowsContainers(cm, h)
    && (forall k :: 0 <= k < |h| ==> ShowsBlocks(bm, h[k]))
  }

  /** `m2` differs from `m` at most at addresses of `[lo, hi)`. */
  ghost predicate AgreeOutside(m: Blocks, m2: Blocks, lo: int, hi: int) {
    forall a :: a in m && !(lo <= a < hi) ==> a in m2 && m2[a] == m[a]
  }

  /** Writes inside one container leave the blocks of all others as they were. */
  lemma {:induction false} OthersShown(m: Blocks, m2: Blocks, h: Heap, k: nat, l: nat)
    requires Inv(h) && k < |h| && l < |h| && l != k && ShowsBlocks(m, h[l])
             && AgreeOutside(m, m2, h[k].addr, h[k].Stop())
    ensures ShowsBlocks(m2, h[l])
  {
    forall i: nat | i < |h[l].blocks| ensures Shown(m2, h[l], i) {
      assert Shown(m, h[l], i) && BlockOk(h[l].blocks[i], h[l].addr + HEADER, h[l].Stop());
      ContainersApart(h, k, l);
    }
  }

  lemma {:induction false} ContainersApart(h: Heap, k: nat, l: nat)
    requires Inv(h) && k < |h| && l < |h| && k != l
    ensures Apart(h[k], h[l]) && h[k].addr != h[l].addr
  {}

  /** Changing one container in place: its header gets the new count of used blocks. */
  lemma {:induction false} ReplacedShown(bm: Blocks, cm: Containers, head: int, h: Heap, k: nat, bm2: Blocks,
                                         c: Container)
    requires Inv(h) && ShowsHeap(bm, cm, head, h) && k < |h| && c.addr == h[k].addr && c.pages == h[k].pages
    requires AgreeOutside(bm, bm2, c.addr, c.Stop()) && ShowsBlocks(bm2, c)
    ensures Listed(cm, h, k)
    ensures ShowsHeap(bm2, cm[c.addr := cm[c.addr].(usedBlocks := UsedCount(c.blocks))], head, h[k := c])
  {
    forall l: nat | l < |h| && l != k ensures h[l].addr != c.addr { ContainersApart(h, k, l); }
    ContainersReplaced(cm, h, k, c);
    var g := h[k := c];
    forall l: nat | l < |g| ensures ShowsBlocks(bm2, g[l]) {
      if l != k { OthersShown(bm, bm2, h, k, l); }
    }
  }

  lemma {:induction false} ContainersReplaced(cm: Containers, h: Heap, k: nat, c: Container)
    requires ShowsContainers(cm, h) && k < |h| && c.addr == h[k].addr && c.pages == h[k].pages
    requires forall l :: 0 <= l < |h| && l != k ==> h[l].addr != c.addr
    ensures Listed(cm, h, k)
    ensures ShowsContainers(cm[c.addr := cm[c.addr].(usedBlocks := UsedCount(c.blocks))], h[k := c])
  {
    assert Listed(cm, h, k);
    var g, w := h[k := c], cm[c.addr := cm[c.addr].(usedBlocks := UsedCount(c.blocks))];
    forall l: nat | l < |g| ensures Listed(w, g, l) { assert Listed(cm, h, l); }
  }

  // ---- splitting, on memory --------------------------------------------------------------

  /** The header writes of `try_alloc_block` on block `i`. */
  function CarvedIn(m: Blocks, c: Container, i: nat, size: int): Blocks
    requires i < |c.blocks| && c.blocks[i].addr in m && (i + 1 < |c.blocks| ==> c.blocks[i + 1].addr in m)
  {
    var b := c.blocks[i];
    if NextDataAt(b, size) >= b.End() then m[b.addr := m[b.addr].(used := true)]
    else
      var n, x := NextDataAt(b, size) - HEADER, BlockAt(c, i + 1);
      var m1 := m[n := BlockHeader(b.End() - NextDataAt(b, size), false, b.addr, x, c.addr)];
      var m2 := if i + 1 < |c.blocks| then m1[x := m1[x].(prev := n)] else m1;
      m2[b.addr := m[b.addr].(used := true, next := n, size := size)]
  }

  ghost predicate DistinctAddresses(s: seq<Block>) {
    forall i, j :: 0 <= i < j < |s| ==> s[i].addr != s[j].addr
  }

  lemma {:induction false} PackedDistinct(s: seq<Block>, lo: int, hi: int)
    requires Packed(s, lo, hi)
    ensures DistinctAddresses(s)
  {}

  lemma {:induction false} CarvedShown(m: Blocks, c: Container, i: nat, size: int)
    requires WellFormed(c) && ShowsBlocks(m, c) && i < |c.blocks| && Fits(c.blocks[i], size) && size >= 0
    ensures Shown(m, c, i) && (i + 1 < |c.blocks| ==> Shown(m, c, i + 1))
    ensures ShowsBlocks(CarvedIn(m, c, i, size), Allocated(c, i, size))
    ensures AgreeOutside(m, CarvedIn(m, c, i, size), c.addr, c.Stop())
  {
    assert Shown(m, c, i) && (i + 1 < |c.blocks| ==> Shown(m, c, i + 1));
    var s := c.blocks;
    assert BlockOk(s[i], c.addr + HEADER, c.Stop());
    assert i + 1 < |s| ==> BlockOk(s[i + 1], c.addr + HEADER, c.Stop());
    NextDataBounds(s[i], size);
    PackedDistinct(s, c.addr + HEADER, c.Stop());
    if |Carved(s[i], size)| == 1 {
      WholeShown(m, c, i, size);
    } else {
      NewBlockElsewhere(c, i, size);
      SplitShown(m, c, i, size);
    }
  }

  lemma {:induction false} NewBlockElsewhere(c: Container, i: nat, size: int)
    requires WellFormed(c) && i < |c.blocks| && Fits(c.blocks[i], size) && size >= 0
    requires |Carved(c.blocks[i], size)| != 1
    ensures forall j :: 0 <= j < |c.blocks| ==> c.blocks[j].addr != NextDataAt(c.blocks[i], size) - HEADER
  {
    NextDataBounds(c.blocks[i], size);
    forall j | 0 <= j < |c.blocks| ensures c.blocks[j].addr != NextDataAt(c.blocks[i], size) - HEADER {
      SplitElsewhere(c, i, j, NextDataAt(c.blocks[i], size) - HEADER);
    }
  }

  lemma {:induction false} WholeShown(m: Blocks, c: Container, i: nat, size: int)
    requires DistinctAddresses(c.blocks) && ShowsBlocks(m, c) && i < |c.blocks| && |Carved(c.blocks[i], size)| == 1
    requires Shown(m, c, i) && (i + 1 < |c.blocks| ==> Shown(m, c, i + 1))
    ensures ShowsBlocks(CarvedIn(m, c, i, size), Allocated(c, i, size))
  {
    var s, d := c.blocks, Allocated(c, i, size);
    assert d.blocks == s[i := s[i].(used := true, req := size)];
    forall j: nat | j < |d.blocks| ensures Shown(CarvedIn(m, c, i, size), d, j) {
      assert Shown(m, c, j);
    }
  }

  lemma {:induction false} SplitShown(m: Blocks, c: Container, i: nat, size: int)
    requires DistinctAddresses(c.blocks) && ShowsBlocks(m, c) && i < |c.blocks| && |Carved(c.blocks[i], size)| == 2
    requires Shown(m, c, i) && (i + 1 < |c.blocks| ==> Shown(m, c, i + 1))
    requires forall j :: 0 <= j < |c.blocks| ==> c.blocks[j].addr != NextDataAt(c.blocks[i], size) - HEADER
    ensures ShowsBlocks(CarvedIn(m, c, i, size), Allocated(c, i, size))
  {
    var s, d, w := c.blocks, Allocated(c, i, size), CarvedIn(m, c, i, size);
    var cut := Carved(s[i], size);
    SplitIndices(s, i, cut);
    forall j: nat | j < |d.blocks| ensures Shown(w, d, j) {
      if j < i {
        assert Shown(m, c, j);
      } else if j > i + 1 {
        assert Shown(m, c, j - 1);
      }
    }
  }

  lemma {:induction false} SplitIndices(s: seq<Block>, i: nat, cut: seq<Block>)
    requires i < |s| && |cut| == 2
    ensures var t := s[..i] + cut + s[i + 1..];
            && |t| == |s| + 1 && t[i] == cut[0] && t[i + 1] == cut[1]
            && (forall j :: 0 <= j < i ==> t[j] == s[j]) && (forall j :: i + 2 <= j < |t| ==> t[j] == s[j - 1])
  {}

  /** A header carved out of block `i` is at no block's address. */
  lemma {:induction false} SplitElsewhere(c: Container, i: nat, j: nat, n: int)
    requires WellFormed(c) && i < |c.blocks| && j < |c.blocks| && c.blocks[i].addr < n < c.blocks[i].End()
    ensures c.blocks[j].addr != n
  {}

  // ---- merging, on memory -------------------------------------------------------------------

  /** Blocks `j` and `j + 1` made one. */
  function MergeAt(c: Container, j: nat): Container
    requires j + 1 < |c.blocks|
  {
    c.(blocks := c.blocks[..j] + [Swallow(c.blocks[j], c.blocks[j + 1])] + c.blocks[j + 2..])
  }

  /** The header writes of one merge in `kfree`: block `p` swallows the one behind it.
      `link` says whether the block behind that gets its `prev` rewritten: lines 174 to
      176 do so, lines 165 to 167 do not. */
  function JoinIn(m: Blocks, p: int, link: bool): Blocks
    requires p in m && m[p].next in m
  {
    var b := m[m[p].next];
    var m1 := m[p := m[p].(next := b.next, size := m[p].size + b.size + HEADER)];
    if link && b.next in m1 && b.next != 0 then m1[b.next := m1[b.next].(prev := p)] else m1
  }

  ghost predicate Positive(s: seq<Block>) {
    forall i :: 0 <= i < |s| ==> s[i].addr > 0
  }

  lemma {:induction false} MergeIndices(s: seq<Block>, j: nat, x: Block)
    requires j + 1 < |s|
    ensures var t := s[..j] + [x] + s[j + 2..];
            && |t| == |s| - 1 && t[j] == x
            && (forall i :: 0 <= i < j ==> t[i] == s[i]) && (forall i :: j < i < |t| ==> t[i] == s[i + 1])
  {}

  /** A merge that rewrites the back link shows the merged container. */
  lemma {:induction false} JoinShown(m: Blocks, c: Container, j: nat)
    requires DistinctAddresses(c.blocks) && Positive(c.blocks) && ShowsBlocks(m, c) && j + 1 < |c.blocks|
             && !c.blocks[j].used
    ensures Shown(m, c, j) && Shown(m, c, j + 1)
    ensures ShowsBlocks(JoinIn(m, c.blocks[j].addr, true), MergeAt(c, j))
  {
    var s, d := c.blocks, MergeAt(c, j);
    assert Shown(m, c, j) && Shown(m, c, j + 1) && (j + 2 < |s| ==> Shown(m, c, j + 2));
    MergeIndices(s, j, Swallow(s[j], s[j + 1]));
    forall i: nat | i < |d.blocks| ensures Shown(JoinIn(m, s[j].addr, true), d, i) {
      if i < j { assert Shown(m, c, i); }
      if i > j { assert Shown(m, c, i + 1); }
    }
  }

  /** Without the back link it does so exactly when nothing lies behind the two blocks;
      otherwise the `prev` of the block behind still names the swallowed one. */
  lemma {:induction false} UnlinkedJoin(m: Blocks, c: Container, j: nat)
    requires DistinctAddresses(c.blocks) && Positive(c.blocks) && ShowsBlocks(m, c) && j + 1 < |c.blocks|
             && !c.blocks[j].used
    ensures Shown(m, c, j) && Shown(m, c, j + 1)
    ensures ShowsBlocks(JoinIn(m, c.blocks[j].addr, false), MergeAt(c, j)) <==> j + 2 == |c.blocks|
    ensures j + 2 < |c.blocks| ==> Shown(m, c, j + 2)
    ensures j + 2 < |c.blocks| ==>
              JoinIn(m, c.blocks[j].addr, false)[c.blocks[j + 2].addr].prev == c.blocks[j + 1].addr
  {
    var s, d := c.blocks, MergeAt(c, j);
    JoinShown(m, c, j);
    assert j + 2 < |s| ==> Shown(m, c, j + 2);
    MergeIndices(s, j, Swallow(s[j], s[j + 1]));
    var w := JoinIn(m, s[j].addr, false);
    if j + 2 < |s| {
      assert d.blocks[j + 1] == s[j + 2];
      assert !Shown(w, d, j + 1);
    } else {
      assert w == JoinIn(m, s[j].addr, true);
    }
  }

  /** A second, linking merge at the same block repairs what an unlinked one left. */
  lemma {:induction false} SecondJoinRepairs(m: Blocks, c: Container, j: nat)
    requires DistinctAddresses(c.blocks) && Positive(c.blocks) && ShowsBlocks(m, c) && j + 2 < |c.blocks|
             && !c.blocks[j].used
    ensures Shown(m, c, j) && Shown(m, c, j + 1) && Shown(m, c, j + 2)
    ensures var p := c.blocks[j].addr;
            ShowsBlocks(JoinIn(JoinIn(m, p, false), p, true), MergeAt(MergeAt(c, j), j))
  {
    var s, p := c.blocks, c.blocks[j].addr;
    var d := MergeAt(c, j);
    var e := MergeAt(d, j);
    JoinShown(m, c, j);
    assert Shown(m, c, j + 2);
    MergeIndices(s, j, Swallow(s[j], s[j + 1]));
    var w := JoinIn(m, p, true);
    MergedDistinct(c, j);
    JoinShown(w, d, j);
    MergeIndices(d.blocks, j, Swallow(d.blocks[j], d.blocks[j + 1]));
    var u, v := JoinIn(w, p, true), JoinIn(JoinIn(m, p, false), p, true);
    forall i: nat | i < |e.blocks| ensures Shown(v, e, i) {
      assert Shown(u, e, i) && e.blocks[i].addr != s[j + 2].addr;
    }
  }

  lemma {:induction false} MergedDistinct(c: Container, j: nat)
    requires DistinctAddresses(c.blocks) && Positive(c.blocks) && j + 1 < |c.blocks|
    ensures DistinctAddresses(MergeAt(c, j).blocks) && Positive(MergeAt(c, j).blocks) && !MergeAt(c, j).blocks[j].used
  {}

  // ---- release, on memory -------------------------------------------------------------------

  function Unmarked(c: Container, i: nat): Container
    requires i < |c.blocks|
  {
    c.(blocks := c.blocks[i := c.blocks[i].(used := false, req := 0)])
  }

  /** The header writes of `kfree` on a block that is not the last used one. `repair` adds
      the write that lines 165 to 167 leave out. */
  function FreedIn(m: Blocks, c: Container, i: nat, repair: bool): Blocks
    requires ShowsBlocks(m, c) && i < |c.blocks| && DistinctAddresses(c.blocks) && Positive(c.blocks)
  {
    UnmarkShown(m, c, i);
    var m0, d := m[c.blocks[i].addr := m[c.blocks[i].addr].(used := false)], Unmarked(c, i);
    if MergesBack(c.blocks, i) then
      UnlinkedJoin(m0, d, i - 1);
      var p := c.blocks[i - 1].addr;
      var m1 := JoinIn(m0, p, repair);
      if MergesForward(c.blocks, i) then JoinIn(m1, p, true) else m1
    else if MergesForward(c.blocks, i) then
      JoinShown(m0, d, i);
      JoinIn(m0, c.blocks[i].addr, true)
    else m0
  }

  lemma {:induction false} UnmarkShown(m: Blocks, c: Container, i: nat)
    requires ShowsBlocks(m, c) && i < |c.blocks| && DistinctAddresses(c.blocks) && Positive(c.blocks)
    ensures Shown(m, c, i)
    ensures ShowsBlocks(m[c.blocks[i].addr := m[c.blocks[i].addr].(used := false)], Unmarked(c, i))
    ensures DistinctAddresses(Unmarked(c, i).blocks) && Positive(Unmarked(c, i).blocks)
  {
    assert Shown(m, c, i);
    var m0, d := m[c.blocks[i].addr := m[c.blocks[i].addr].(used := false)], Unmarked(c, i);
    forall j: nat | j < |d.blocks| ensures Shown(m0, d, j) {
      assert Shown(m, c, j);
    }
  }

  /** The one case in which the missing write matters: a free block before, a used one behind. */
  predicate Dangling(s: seq<Block>, i: nat)
    requires i < |s|
  {
    MergesBack(s, i) && i + 1 < |s| && s[i + 1].used
  }

  lemma {:induction false} ReleasedIsMerges(c: Container, i: nat)
    requires i < |c.blocks|
    ensures var d, b, f := Unmarked(c, i), MergesBack(c.blocks, i), MergesForward(c.blocks, i);
            && (!b && !f ==> Released(c, i) == d)
            && (!b && f ==> Released(c, i) == MergeAt(d, i))
            && (b && !f ==> Released(c, i) == MergeAt(d, i - 1))
            && (b && f ==> |MergeAt(d, i - 1).blocks| > i && Released(c, i) == MergeAt(MergeAt(d, i - 1), i - 1))
  {
    var s, d := c.blocks, Unmarked(c, i);
    assert s[i + 1..] == d.blocks[i + 1..] && s[..i] == d.blocks[..i];
    if MergesBack(s, i) {
      MergeIndices(d.blocks, i - 1, Swallow(d.blocks[i - 1], d.blocks[i]));
    }
    if MergesBack(s, i) && MergesForward(s, i) {
      var e := MergeAt(d, i - 1);
      assert e.blocks[..i - 1] == s[..i - 1] && e.blocks[i + 1..] == s[i + 2..];
    }
  }

  /** `kfree` leaves headers that show the released container, correctly linked both
      ways, exactly when the missing write was not needed or is added. */
  lemma {:induction false} FreedShown(m: Blocks, c: Container, i: nat, repair: bool)
    requires ShowsBlocks(m, c) && i < |c.blocks| && DistinctAddresses(c.blocks) && Positive(c.blocks)
    ensures ShowsBlocks(FreedIn(m, c, i, repair), Released(c, i)) <==> repair || !Dangling(c.blocks, i)
  {
    UnmarkShown(m, c, i);
    ReleasedIsMerges(c, i);
    var m0, d := m[c.blocks[i].addr := m[c.blocks[i].addr].(used := false)], Unmarked(c, i);
    if MergesBack(c.blocks, i) {
      JoinShown(m0, d, i - 1);
      UnlinkedJoin(m0, d, i - 1);
      MergedDistinct(d, i - 1);
      if MergesForward(c.blocks, i) {
        SecondJoinRepairs(m0, d, i - 1);
        JoinShown(JoinIn(m0, d.blocks[i - 1].addr, true), MergeAt(d, i - 1), i - 1);
      }
    } else if MergesForward(c.blocks, i) {
      JoinShown(m0, d, i);
    }
  }

  lemma {:induction false} WithinContainer(c: Container)
    requires WellFormed(c)
    ensures forall j :: 0 <= j < |c.blocks| ==> c.addr <= c.blocks[j].addr < c.Stop()
  {}

  lemma {:induction false} JoinInside(m: Blocks, p: int, link: bool, lo: int, hi: int)
    requires p in m && m[p].next in m && lo <= p < hi
    requires m[m[p].next].next == 0 || lo <= m[m[p].next].next < hi
    ensures AgreeOutside(m, JoinIn(m, p, link), lo, hi)
  {}

  /** The writes stay inside the container. */
  lemma {:induction false} FreedInside(m: Blocks, c: Container, i: nat, repair: bool, lo: int, hi: int)
    requires ShowsBlocks(m, c) && i < |c.blocks| && DistinctAddresses(c.blocks) && Positive(c.blocks)
    requires forall j :: 0 <= j < |c.blocks| ==> lo <= c.blocks[j].addr < hi
    ensures AgreeOutside(m, FreedIn(m, c, i, repair), lo, hi)
  {
    FreedSteps(m, c, i, repair);
    var s, b := c.blocks, c.blocks[i].addr;
    var m0 := m[b := m[b].(used := false)];
    assert (i > 0 ==> Shown(m, c, i - 1)) && (i + 1 < |s| ==> Shown(m, c, i + 1));
    if MergesBack(s, i) {
      JoinInside(m0, s[i - 1].addr, repair, lo, hi);
    }
    if MergesForward(s, i) {
      var q := if MergesBack(s, i) then s[i - 1].addr else b;
      var m1 := if MergesBack(s, i) then JoinIn(m0, q, repair) else m0;
      JoinInside(m1, q, true, lo, hi);
    }
  }

  /** What the two merge tests of `kfree` read: the headers around the unmarked block
      `i` lead to the neighbours, also after an unlinked merge with the one before. */
  lemma {:induction false} FreedSteps(m: Blocks, c: Container, i: nat, repair: bool)
    requires ShowsBlocks(m, c) && i < |c.blocks| && DistinctAddresses(c.blocks) && Positive(c.blocks)
    ensures Shown(m, c, i)
    ensures var s := c.blocks;
            var b := s[i].addr;
            var m0 := m[b := m[b].(used := false)];
            && MayMergeBack(m0, b) && (m0[b].prev != 0 && !m0[m0[b].prev].used <==> MergesBack(s, i))
            && var q := if MergesBack(s, i) then m0[b].prev else b;
               var m1 := if MergesBack(s, i) then JoinIn(m0, q, repair) else m0;
               && MayMergeForward(m1, q) && (m1[q].next != 0 && !m1[m1[q].next].used <==> MergesForward(s, i))
               && FreedIn(m, c, i, repair) == if MergesForward(s, i) then JoinIn(m1, q, true) else m1
  {
    UnmarkShown(m, c, i);
    var s, d := c.blocks, Unmarked(c, i);
    var m0 := m[s[i].addr := m[s[i].addr].(used := false)];
    assert Shown(m0, d, i) && (i > 0 ==> Shown(m0, d, i - 1));
    assert (i + 1 < |s| ==> Shown(m0, d, i + 1)) && (i + 2 < |s| ==> Shown(m0, d, i + 2));
  }

  ghost predicate MayMergeBack(m: Blocks, b: int) {
    && b in m && (m[b].next != 0 ==> m[b].next in m)
    && (m[b].prev != 0 ==> m[b].prev in m && m[b].prev != b && m[m[b].prev].next == b)
  }

  ghost predicate MayMergeForward(m: Blocks, b: int) {
    && b in m
    && (m[b].next != 0 ==> m[b].next in m && m[b].next != b && (m[m[b].next].next != 0 ==> m[m[b].next].next in m))
  }

  // ---- the container list, on memory ----------------------------------------------------------

  /** The writes of `remove_container`, `head` apart. */
  function UnlinkedIn(m: Containers, c: int): Containers
    requires c in m
  {
    var p, n := m[c].prev, m[c].next;
    var m1 := if p in m && p != 0 then m[p := m[p].(next := n)] else m;
    if n in m1 && n != 0 then m1[n := m1[n].(prev := p)] else m1
  }

  ghost predicate DistinctContainers(h: Heap) {
    (forall k :: 0 <= k < |h| ==> h[k].addr > 0) && (forall k, l :: 0 <= k < l < |h| ==> h[k].addr != h[l].addr)
  }

  lemma {:induction false} RemoveIndices(h: Heap, k: nat)
    requires k < |h|
    ensures var g := h[..k] + h[k + 1..];
            && |g| == |h| - 1
            && (forall l :: 0 <= l < k ==> g[l] == h[l]) && (forall l :: k <= l < |g| ==> g[l] == h[l + 1])
  {}

  lemma {:induction false} ContainersUnlinked(m: Containers, h: Heap, k: nat)
    requires ShowsContainers(m, h) && k < |h| && DistinctContainers(h)
    ensures Listed(m, h, k)
    ensures ShowsContainers(UnlinkedIn(m, h[k].addr), h[..k] + h[k + 1..])
    ensures ContainerAt(h[..k] + h[k + 1..], 0) ==
            if m[h[k].addr].prev == 0 then m[h[k].addr].next else ContainerAt(h, 0)
  {
    var g := h[..k] + h[k + 1..];
    RemoveIndices(h, k);
    assert Listed(m, h, k) && (k > 0 ==> Listed(m, h, k - 1)) && (k + 1 < |h| ==> Listed(m, h, k + 1));
    var w := UnlinkedIn(m, h[k].addr);
    forall l: nat | l < |g| ensures Listed(w, g, l) {
      if l < k { assert Listed(m, h, l); } else { assert Listed(m, h, l + 1); }
    }
  }

  /** The writes of `create_container` to container headers. */
  function PrependedIn(m: Containers, head: int, a: int, pages: int): Containers {
    var m1 := m[a := ContainerHeader(pages * 0x1000 - HEADER, 0, 0, head, a + HEADER)];
    if head in m1 && head != 0 then m1[head := m1[head].(prev := a)] else m1
  }

  lemma {:induction false} ContainersPrepended(m: Containers, h: Heap, a: int, pages: int)
    requires ShowsContainers(m, h) && DistinctContainers([NewContainer(a, pages)] + h)
    ensures ShowsContainers(PrependedIn(m, ContainerAt(h, 0), a, pages), [NewContainer(a, pages)] + h)
  {
    var c := NewContainer(a, pages);
    var g, w := [c] + h, PrependedIn(m, ContainerAt(h, 0), a, pages);
    assert forall l :: 1 <= l < |g| ==> g[l] == h[l - 1];
    assert forall l :: 0 <= l < |g| ==> ContainerAt(g, l + 1) == ContainerAt(h, l);
    UsedOne(c.blocks[0]);
    assert h != [] ==> Listed(m, h, 0) && g[0].addr != g[1].addr;
    assert Listed(w, g, 0);
    forall l: nat | 0 < l < |g| ensures Listed(w, g, l) {
      assert Listed(m, h, l - 1) && g[0].addr != g[l].addr;
      assert l > 1 ==> g[1].addr != g[l].addr && ContainerAt(g, l - 1) == ContainerAt(h, l - 2);
    }
  }

  /** What the carving of block `i` of container `k` needs and leaves. */
  lemma {:induction false} CarveKeeps(bm: Blocks, cm: Containers, head: int, h: Heap, k: nat, i: nat, size: int)
    requires Inv(h) && DistinctContainers(h) && ShowsHeap(bm, cm, head, h)
    requires k < |h| && size >= 0 && i < |h[k].blocks| && Fits(h[k].blocks[i], size)
    ensures var c := h[k];
            var d, s := Allocated(c, i, size), c.blocks;
            && Listed(cm, h, k) && Shown(bm, c, i) && s[i].addr > 0
            && (i + 1 < |s| ==> Shown(bm, c, i + 1) && s[i].addr < s[i + 1].addr)
            && NextDataAt(s[i], size) - HEADER > s[i].addr && (i + 1 < |s| ==> s[i].End() <= s[i + 1].addr)
            && Inv(h[k := d]) && DistinctContainers(h[k := d])
            && ShowsHeap(CarvedIn(bm, c, i, size), Counted(cm, c.addr, 1), head, h[k := d])
  {
    var c := h[k];
    assert WellFormed(c) && ShowsBlocks(bm, c) && Listed(cm, h, k);
    assert BlockOk(c.blocks[i], c.addr + HEADER, c.Stop());
    BlocksPositive(h, k);
    CarvedShown(bm, c, i, size);
    PackedDistinct(c.blocks, c.addr + HEADER, c.Stop());
    NextDataBounds(c.blocks[i], size);
    AllocKeeps(c, i, size);
    ReplacedShown(bm, cm, head, h, k, CarvedIn(bm, c, i, size), Allocated(c, i, size));
    KeepsOthers(h, k);
  }

  // ---- the kernel heap --------------------------------------------------------------------------

  class KernelHeap {
    /** The headers in memory, by address, and the head of the container list. */
    var blocks: Blocks
    var containers: Containers
    var heap: int
    ghost var model: Heap

    constructor ()
      ensures Valid() && model == []
    {
      blocks, containers, heap, model := map[], map[], 0, [];
    }

    ghost predicate Valid()
      reads this
    {
      Inv(model) && DistinctContainers(model) && ShowsHeap(blocks, containers, heap, model)
    }

    /** The loop of `try_alloc_block`. */
    method SearchBlock(c: int, size: int, ghost k: nat) returns (b: int, ghost i: nat)
      requires Valid() && k < |model| && model[k].addr == c
      ensures b == BlockAt(model[k], FindFit(model[k].blocks, size, 0)) && i == FindFit(model[k].blocks, size, 0)
    {
      assert Listed(containers, model, k) && ShowsBlocks(blocks, model[k]) && WellFormed(model[k]);
      BlocksPositive(model, k);
      b, i := containers[c].block, 0;
      while b != 0
        invariant i <= |model[k].blocks| && b == BlockAt(model[k], i)
        invariant forall j :: 0 <= j < i ==> !Fits(model[k].blocks[j], size)
        decreases |model[k].blocks| - i
      {
        assert Shown(blocks, model[k], i);
        if !blocks[b].used && blocks[b].size >= size {
          break;
        }
        b := blocks[b].next;
        i := i + 1;
      }
    }

    /** `try_alloc_block`; 0 when no block fits. */
    method TryAllocBlock(c: int, size: int, ghost k: nat) returns (b: int)
      requires Valid() && k < |model| && model[k].addr == c && size >= 0
      modifies this
      ensures Valid()
      ensures b == 0 <==> Full(old(model[k]).blocks, size)
      ensures b == 0 ==> model == old(model)
      ensures b != 0 ==>
                exists i: nat :: FirstFreeFit(old(model[k]).blocks, i, size) && b == old(model[k]).blocks[i].addr
      ensures b != 0 ==>
                var i := FindFit(old(model[k]).blocks, size, 0);
                b == old(model[k]).blocks[i].addr && model == old(model)[k := Allocated(old(model[k]), i, size)]
    {
      ghost var i;
      b, i := SearchBlock(c, size, k);
      BlocksPositive(model, k);
      FindFitMeaning(model[k].blocks, size);
      if b == 0 {
        return;
      }
      assert FirstFreeFit(model[k].blocks, i, size) && b == model[k].blocks[i].addr;
      CarveBlock(b, size, k, i);
    }

    /** The rest of `try_alloc_block`, from the label `found_block`. */
    method CarveBlock(b: int, size: int, ghost k: nat, ghost i: nat)
      requires Valid() && k < |model| && size >= 0 && i < |model[k].blocks| && Fits(model[k].blocks[i], size)
               && b == model[k].blocks[i].addr
      modifies this
      ensures Valid() && model == old(model)[k := Allocated(old(model[k]), i, size)]
    {
      ghost var c, cm := model[k], containers;
      CarveKeeps(blocks, containers, heap, model, k, i, size);
      var cont := blocks[b].container;
      containers := containers[cont := containers[cont].(usedBlocks := containers[cont].usedBlocks + 1)];
      assert containers == Counted(cm, c.addr, 1);
      SplitBlock(b, size, c, i);
      model := model[k := Allocated(c, i, size)];
    }

    /** Its writes to block headers. */
    method SplitBlock(b: int, size: int, ghost c: Container, ghost i: nat)
      requires i < |c.blocks| && b == c.blocks[i].addr > 0 && Shown(blocks, c, i)
               && NextDataAt(c.blocks[i], size) - HEADER > b
      requires i + 1 < |c.blocks| ==>
                 Shown(blocks, c, i + 1) && c.blocks[i].End() <= c.blocks[i + 1].addr && b < c.blocks[i + 1].addr
      modifies this`blocks
      ensures blocks == CarvedIn(old(blocks), c, i, size)
    {
      blocks := blocks[b := blocks[b].(used := true)];
      var end := b + HEADER + blocks[b].size;
      var nextEnd := RoundUp(b + HEADER + size + HEADER, 16);
      if nextEnd >= end {
        return;
      }
      var n := nextEnd - HEADER;
      blocks := blocks[n := BlockHeader(end - nextEnd, false, b, blocks[b].next, blocks[b].container)];
      blocks := blocks[b := blocks[b].(next := n)];
      var x := blocks[n].next;
      if x != 0 {
        blocks := blocks[x := blocks[x].(prev := n)];
      }
      blocks := blocks[b := blocks[b].(size := size)];
    }

    /** `create_container`; `grant` is the answer of the VMM. */
    method CreateContainer(wanted: int, grant: Option<int>) returns (c: int)
      requires Valid() && (grant.Some? ==> grant.value > 0 && GrantOk(model, grant.value, PagesOf(wanted)))
      modifies this
      ensures Valid()
      ensures grant.None? ==> c == 0 && model == old(model)
      ensures grant.Some? ==> c == grant.value && model == [NewContainer(c, PagesOf(wanted))] + old(model)
    {
      if grant.None? {
        return 0;
      }
      var pages := PagesOf(wanted);
      c := grant.value;
      CreateKeeps(blocks, containers, heap, model, c, pages);
      model := [NewContainer(c, pages)] + model;
      WriteHeaders(c, pages);
    }

    /** The headers of a new container and of its one block. */
    method WriteHeaders(c: int, pages: int)
      requires heap != 0 ==> heap in containers && heap != c
      modifies this`blocks, this`containers, this`heap
      ensures blocks == old(blocks)[c + HEADER := BlockHeader(pages * 0x1000 - 2 * HEADER, false, 0, 0, c)]
      ensures containers == PrependedIn(old(containers), old(heap), c, pages) && heap == c
    {
      containers := containers[c := ContainerHeader(pages * 0x1000 - HEADER, 0, 0, heap, c + HEADER)];
      if heap != 0 {
        containers := containers[heap := containers[heap].(prev := c)];
      }
      heap := c;
      blocks := blocks[c + HEADER := BlockHeader(containers[c].size - HEADER, false, 0, 0, c)];
    }

    /** `remove_container`, and the range it hands back to the VMM. */
    method RemoveContainer(c: int, ghost h: Heap, ghost k: nat) returns (pages: int)
      requires DistinctContainers(h) && ShowsHeap(blocks, containers, heap, h) && k < |h| && c == h[k].addr
      modifies this`containers, this`heap
      ensures ShowsHeap(blocks, containers, heap, h[..k] + h[k + 1..]) && pages == h[k].pages
    {
      ghost var m := containers;
      ContainersUnlinked(m, h, k);
      RemoveIndices(h, k);
      assert (k > 0 ==> Listed(m, h, k - 1)) && (k + 1 < |h| ==> Listed(m, h, k + 1));
      var prev, next := containers[c].prev, containers[c].next;
      if prev == 0 {
        heap := next;
      } else {
        containers := containers[prev := containers[prev].(next := next)];
      }
      if next != 0 {
        containers := containers[next := containers[next].(prev := prev)];
      }
      assert containers == UnlinkedIn(m, c);
      pages := (containers[c].size + HEADER) / 0x1000;
    }

    /** `remove_container` as `kfree` calls it: `h` is the heap with the freed block unmarked. */
    method DropContainer(c: int, ghost h: Heap, ghost k: nat, ghost i: nat) returns (pages: int)
      requires DistinctContainers(h) && ShowsHeap(blocks, containers, heap, h) && k < |h| && c == h[k].addr
      requires Inv(model) && DistinctContainers(model) && At(model, k, i) && h == model[k := Unmarked(model[k], i)]
      modifies this`containers, this`heap, this`model
      ensures Valid() && model == old(model)[..k] + old(model)[k + 1..] && pages == old(model)[k].pages
    {
      RemovedKeeps(model, k, i);
      pages := RemoveContainer(c, h, k);
      model := model[..k] + model[k + 1..];
    }

    /** `kmalloc`: exactly the answer and the new heap of the specification. */
    method Kmalloc(size: int, grant: Option<int>) returns (ans: Answer)
      requires Valid() && 0 <= size < U64
      requires grant.Some? ==> grant.value > 0 && GrantOk(model, grant.value, PagesFor(size))
      modifies this
      ensures Valid()
      ensures (model, ans) == KheapRuns.Kmalloc(old(model), size, grant)
      ensures ans == Impossible <==> Wraps(old(model), size, grant)
      ensures ans == NoMemory <==> NoRoom(old(model), size) && grant.None?
      ensures !NoRoom(old(model), size) ==>
                exists k: nat, i: nat :: Lands(old(model), model, size, ans.ptr, k, i)
      ensures NoRoom(old(model), size) && grant.Some? ==> |model| == |old(model)| + 1
    {
      KmallocLands(model, size, grant);
      NoRoomMeaning(model, size);
      var b := TryContainers(size);
      if b != 0 {
        return Got(b + HEADER);
      }
      ans := GrowHeap(size, grant);
    }

    /** `kmalloc` when no container has room. */
    method GrowHeap(size: int, grant: Option<int>) returns (ans: Answer)
      requires Valid() && 0 <= size < U64 && NoRoom(model, size)
      requires grant.Some? ==> grant.value > 0 && GrantOk(model, grant.value, PagesFor(size))
      modifies this
      ensures Valid()
      ensures (model, ans) == KheapRuns.Kmalloc(old(model), size, grant)
      ensures ans == Impossible <==> Wraps(old(model), size, grant)
    {
      ghost var h := model;
      NoRoomMeaning(h, size);
      var c := CreateContainer(Add64(size, HEADER) / 0x1000 + 2, grant);
      if c == 0 {
        return NoMemory;
      }
      ghost var d := NewContainer(c, PagesFor(size));
      FreshContainerFits(c, size);
      assert model[0] == d;
      var b := TryAllocBlock(c, size, 0);
      if b == 0 {
        return Impossible;
      }
      assert model == [Allocated(d, 0, size)] + h;
      ans := Got(b + HEADER);
    }

    /** The loop of `kmalloc`. */
    method TryContainers(size: int) returns (b: int)
      requires Valid() && size >= 0
      modifies this
      ensures Valid()
      ensures var k, h := FindContainer(old(model), size, 0), old(model);
              if k == |h| then b == 0 && model == h
              else
                var i := FindFit(h[k].blocks, size, 0);
                b == h[k].blocks[i].addr > 0 && model == h[k := Allocated(h[k], i, size)]
    {
      b := 0;
      var c := heap;
      ghost var k := 0;
      while c != 0
        invariant Valid() && model == old(model) && k <= |model| && c == ContainerAt(model, k) && b == 0
        invariant forall l :: 0 <= l < k ==> !HasFit(model[l], size)
        decreases |model| - k
      {
        assert Listed(containers, model, k);
        BlocksPositive(model, k);
        b := TryAllocBlock(c, size, k);
        if b != 0 {
          return;
        }
        assert Listed(containers, model, k);
        c := containers[c].next;
        k := k + 1;
      }
    }

    /** Lines 164 to 169 of `kfree`; `repair` adds the write to the block behind. */
    method MergeBack(b: int, total: int, repair: bool) returns (q: int)
      requires MayMergeBack(blocks, b) && total == blocks[b].size + HEADER
      modifies this`blocks
      ensures var p, m := old(blocks[b].prev), old(blocks);
              if p != 0 && !m[p].used then q == p && blocks == JoinIn(m, p, repair) else q == b && blocks == m
    {
      q := b;
      var p := blocks[b].prev;
      if p != 0 && !blocks[p].used {
        var next := blocks[b].next;
        blocks := blocks[p := blocks[p].(next := next, size := blocks[p].size + total)];
        if repair && next != 0 {
          blocks := blocks[next := blocks[next].(prev := p)];
        }
        q := p;
      }
    }

    /** Lines 172 to 177 of `kfree`. */
    method MergeForward(b: int)
      requires MayMergeForward(blocks, b)
      modifies this`blocks
      ensures var n, m := old(blocks[b].next), old(blocks);
              blocks == if n != 0 && !m[n].used then JoinIn(m, b, true) else m
    {
      var n := blocks[b].next;
      if n != 0 && !blocks[n].used {
        blocks := blocks[b := blocks[b].(size := blocks[b].size + blocks[n].size + HEADER)];
        blocks := blocks[b := blocks[b].(next := blocks[n].next)];
        var next := blocks[b].next;
        if next != 0 {
          blocks := blocks[next := blocks[next].(prev := b)];
        }
      }
    }

    /** `kfree` of a live pointer. With `repair` false this is the code as written: it keeps
        the double links exactly when the container is released or the block does not lie
        between a free block before it and a used one behind it. */
    method Kfree(ptr: int, repair: bool, ghost k: nat, ghost i: nat) returns (back: Option<(int, int)>)
      requires Valid() && At(model, k, i) && model[k].blocks[i].used && ptr == model[k].blocks[i].Data()
      modifies this
      ensures (model, back) == KheapRuns.Kfree(old(model), k, i)
      ensures Valid() <==> back.Some? || repair || !Dangling(old(model[k].blocks), i)
    {
      var b := ptr - HEADER;
      ghost var m, cm := blocks, containers;
      var total, cont := Unmark(b, k, i);
      if containers[cont].usedBlocks == 0 {
        var pages := DropContainer(cont, model[k := Unmarked(model[k], i)], k, i);
        return Some((cont, pages));
      }
      MergeBlock(b, total, repair, m, cm, k, i);
      return None;
    }

    /** Lines 154 to 157 of `kfree`: the block is marked free and taken off the count. */
    method Unmark(b: int, ghost k: nat, ghost i: nat) returns (total: int, cont: int)
      requires Valid() && At(model, k, i) && model[k].blocks[i].used && b == model[k].blocks[i].addr
      modifies this`blocks, this`containers
      ensures Inv(model) && DistinctContainers(model) && ShowsHeap(old(blocks), old(containers), heap, model)
      ensures var h := model[k := Unmarked(model[k], i)];
              DistinctContainers(h) && ShowsHeap(blocks, containers, heap, h)
      ensures b in old(blocks) && blocks == old(blocks)[b := old(blocks)[b].(used := false)]
      ensures total == old(blocks)[b].size + HEADER && cont == model[k].addr && cont in old(containers)
      ensures containers == Counted(old(containers), cont, -1)
      ensures containers[cont].usedBlocks == UsedCount(model[k].blocks) - 1
    {
      UnmarkKeeps(blocks, containers, heap, model, k, i);
      total := blocks[b].size + HEADER;
      blocks := blocks[b := blocks[b].(used := false)];
      cont := blocks[b].container;
      containers := containers[cont := containers[cont].(usedBlocks := containers[cont].usedBlocks - 1)];
    }

    /** The rest of `kfree` when the container stays. */
    method MergeBlock(b: int, total: int, repair: bool, ghost m: Blocks, ghost cm: Containers, ghost k: nat,
                      ghost i: nat)
      requires Inv(model) && DistinctContainers(model) && ShowsHeap(m, cm, heap, model)
      requires At(model, k, i) && model[k].blocks[i].used && b == model[k].blocks[i].addr && b in m
      requires blocks == m[b := m[b].(used := false)] && total == m[b].size + HEADER && model[k].addr in cm
      requires containers == Counted(cm, model[k].addr, -1)
      modifies this`blocks, this`model
      ensures model == old(model)[k := Released(old(model[k]), i)]
      ensures Valid() <==> repair || !Dangling(old(model[k].blocks), i)
    {
      ghost var c := model[k];
      FreedKeeps(m, cm, heap, model, k, i, repair);
      model := model[k := Released(c, i)];
      MergeFreed(b, total, repair, m, c, i);
    }

    /** The merges of `kfree`. */
    method MergeFreed(b: int, total: int, repair: bool, ghost m: Blocks, ghost c: Container, ghost i: nat)
      requires ShowsBlocks(m, c) && i < |c.blocks| && DistinctAddresses(c.blocks) && Positive(c.blocks)
      requires b == c.blocks[i].addr && b in m && blocks == m[b := m[b].(used := false)] && total == m[b].size + HEADER
      modifies this`blocks
      ensures blocks == FreedIn(m, c, i, repair)
    {
      FreedSteps(m, c, i, repair);
      var q := MergeBack(b, total, repair);
      MergeForward(q);
    }
  }

  /** A fresh container in front of the others. */
  lemma {:induction false} CreateKeeps(bm: Blocks, cm: Containers, head: int, h: Heap, a: int, pages: int)
    requires Inv(h) && DistinctContainers(h) && ShowsHeap(bm, cm, head, h) && a > 0 && pages > 0 && GrantOk(h, a, pages)
    ensures var g := [NewContainer(a, pages)] + h;
            && (head != 0 ==> head in cm && head != a) && Inv(g) && DistinctContainers(g)
            && var w := bm[a + HEADER := BlockHeader(pages * 0x1000 - 2 * HEADER, false, 0, 0, a)];
               ShowsHeap(w, PrependedIn(cm, head, a, pages), a, g)
  {
    var c := NewContainer(a, pages);
    var g, w := [c] + h, bm[a + HEADER := BlockHeader(pages * 0x1000 - 2 * HEADER, false, 0, 0, a)];
    NewContainerOk(a, pages);
    GrownHeap(h, c);
    forall l: nat | 0 < l < |g| ensures g[l].addr != a { ContainersApart(g, 0, l); }
    assert DistinctContainers(g);
    assert h != [] ==> Listed(cm, h, 0) && g[1].addr == h[0].addr;
    ContainersPrepended(cm, h, a, pages);
    forall l: nat | l < |g| ensures ShowsBlocks(w, g[l]) {
      if l == 0 { assert Shown(w, c, 0); } else { OthersShown(bm, w, g, 0, l); }
    }
  }

  /** The first two writes of `kfree`, and what they leave for `remove_container`. */
  lemma {:induction false} UnmarkKeeps(bm: Blocks, cm: Containers, head: int, h: Heap, k: nat, i: nat)
    requires Inv(h) && DistinctContainers(h) && ShowsHeap(bm, cm, head, h) && At(h, k, i) && h[k].blocks[i].used
    ensures var c, b := h[k], h[k].blocks[i].addr;
            && Listed(cm, h, k) && Shown(bm, c, i) && cm[c.addr].usedBlocks == UsedCount(c.blocks)
            && DistinctContainers(h[k := Unmarked(c, i)])
            && ShowsHeap(bm[b := bm[b].(used := false)], Counted(cm, c.addr, -1), head, h[k := Unmarked(c, i)])
  {
    var c := h[k];
    assert WellFormed(c) && ShowsBlocks(bm, c) && Listed(cm, h, k);
    BlocksPositive(h, k);
    PackedDistinct(c.blocks, c.addr + HEADER, c.Stop());
    UnmarkShown(bm, c, i);
    WithinContainer(c);
    UnmarkedCount(c.blocks, i);
    var b := c.blocks[i].addr;
    ReplacedShown(bm, cm, head, h, k, bm[b := bm[b].(used := false)], Unmarked(c, i));
  }

  lemma {:induction false} UnmarkedCount(s: seq<Block>, i: nat)
    requires i < |s| && s[i].used
    ensures UsedCount(s[i := s[i].(used := false, req := 0)]) == UsedCount(s) - 1
  {
    var b := s[i].(used := false, req := 0);
    UsedSplice(s, i, i + 1, [b]);
    assert s[i..i + 1] == [s[i]] && s[i := b] == s[..i] + [b] + s[i + 1..];
    UsedOne(s[i]);
    UsedOne(b);
  }

  lemma {:induction false} RemovedKeeps(h: Heap, k: nat, i: nat)
    requires Inv(h) && DistinctContainers(h) && At(h, k, i)
    ensures Inv(h[..k] + h[k + 1..]) && DistinctContainers(h[..k] + h[k + 1..])
    ensures var g := h[k := Unmarked(h[k], i)]; g[..k] + g[k + 1..] == h[..k] + h[k + 1..]
  {
    RemoveIndices(h, k);
    KeepsOthers(h, k);
  }

  /** The merges of `kfree`: what they read, and when the headers they leave are right. */
  lemma {:induction false} FreedKeeps(bm: Blocks, cm: Containers, head: int, h: Heap, k: nat, i: nat, repair: bool)
    requires Inv(h) && DistinctContainers(h) && ShowsHeap(bm, cm, head, h) && At(h, k, i) && h[k].blocks[i].used
    ensures var c := h[k];
            && Listed(cm, h, k) && ShowsBlocks(bm, c) && DistinctAddresses(c.blocks) && Positive(c.blocks)
            && Inv(h[k := Released(c, i)]) && DistinctContainers(h[k := Released(c, i)])
            && (ShowsHeap(FreedIn(bm, c, i, repair), Counted(cm, c.addr, -1), head, h[k := Released(c, i)])
                <==> repair || !Dangling(c.blocks, i))
  {
    var c := h[k];
    var d := Released(c, i);
    assert WellFormed(c) && ShowsBlocks(bm, c) && Listed(cm, h, k);
    BlocksPositive(h, k);
    FreedWithin(bm, c, i, repair);
    ReleaseKeeps(c, i);
    KeepsOthers(h, k);
    if repair || !Dangling(c.blocks, i) {
      ReplacedShown(bm, cm, head, h, k, FreedIn(bm, c, i, repair), d);
    } else {
      assert h[k := d][k] == d && !ShowsBlocks(FreedIn(bm, c, i, repair), d);
    }
  }

  lemma {:induction false} FreedWithin(bm: Blocks, c: Container, i: nat, repair: bool)
    requires WellFormed(c) && ShowsBlocks(bm, c) && Positive(c.blocks) && i < |c.blocks| && c.blocks[i].used
    ensures DistinctAddresses(c.blocks) && AgreeOutside(bm, FreedIn(bm, c, i, repair), c.addr, c.Stop())
    ensures ShowsBlocks(FreedIn(bm, c, i, repair), Released(c, i)) <==> repair || !Dangling(c.blocks, i)
  {
    PackedDistinct(c.blocks, c.addr + HEADER, c.Stop());
    FreedShown(bm, c, i, repair);
    WithinContainer(c);
    FreedInside(bm, c, i, repair, c.addr, c.Stop());
  }

  lemma {:induction false} BlocksPositive(h: Heap, k: nat)
    requires Inv(h) && DistinctContainers(h) && k < |h|
    ensures Positive(h[k].blocks)
  {}

  // ---- a run that meets the missing write ----------------------------------------------------

  const A := Block(0x1028, 16, true, 16)
  const B := Block(0x1068, 16, true, 16)

  /** The state after `n` calls: three allocations of 16 bytes, then the first one freed. */
  function Sample(n: nat): State {
    var blocks :=
      if n == 1 then [A, RestFrom(0x1068)]
      else if n == 2 then [A, B, RestFrom(0x10a8)]
      else if n == 3 then [A, B, B.(addr := 0x10a8), RestFrom(0x10e8)]
      else [A.(used := false, req := 0), B, B.(addr := 0x10a8), RestFrom(0x10e8)];
    if n == 0 then State([], 0, 0) else State([Container(0x1000, 5, blocks)], 5, 0)
  }

  function RestFrom(a: int): Block { Block(a, 0x6000 - a - HEADER, false, 0) }

  function SampleCall(n: nat): Call {
    if n == 0 then Malloc(16, Some(0x1000)) else if n < 3 then Malloc(16, None) else Free(0, 0)
  }

  lemma {:induction false} FirstMalloc()
    ensures Legal(Sample(0), SampleCall(0)) && Next(Sample(0), SampleCall(0)) == Sample(1)
  {
    var c := NewContainer(0x1000, 5);
    FreshContainerFits(0x1000, 16);
    assert PagesFor(16) == 5;
    assert NextDataAt(c.blocks[0], 16) == 0x1090;
    assert Carved(c.blocks[0], 16) == [A, RestFrom(0x1068)];
    assert Allocated(c, 0, 16).blocks == [A, RestFrom(0x1068)];
  }

  lemma {:induction false} LaterMalloc(n: nat)
    requires n == 1 || n == 2
    ensures Legal(Sample(n), SampleCall(n)) && Next(Sample(n), SampleCall(n)) == Sample(n + 1)
  {
    var c := Sample(n).heap[0];
    assert Fits(c.blocks[n], 16) && !Fits(c.blocks[0], 16) && !Fits(c.blocks[n - 1], 16);
    assert FindFit(c.blocks, 16, 0) == n;
    assert NextDataAt(c.blocks[n], 16) == if n == 1 then 0x10d0 else 0x1110;
    assert Allocated(c, n, 16).blocks == Sample(n + 1).heap[0].blocks;
  }

  lemma {:induction false} FirstFree()
    ensures Legal(Sample(3), SampleCall(3)) && Next(Sample(3), SampleCall(3)) == Sample(4)
  {
    var c := Sample(3).heap[0];
    var s := c.blocks;
    TwoUsed(s, 1);
    assert Released(c, 0).blocks == Sample(4).heap[0].blocks;
  }

  /** The missing write matters in a run of five calls: the block freed last has a free
      one before and a used one behind it. */
  lemma {:induction false} DanglingReached() returns (states: seq<State>, calls: seq<Call>)
    ensures IsRun(states, calls) && |calls| == 4 && At(states[4].heap, 0, 1)
    ensures var s := states[4].heap[0].blocks;
            s[1].used && UsedCount(s) > 1 && Dangling(s, 1)
  {
    states, calls := seq(5, n requires n >= 0 => Sample(n)), seq(4, n requires n >= 0 => SampleCall(n));
    forall n | 0 <= n < 4 ensures Legal(states[n], calls[n]) && states[n + 1] == Next(states[n], calls[n]) {
      SampleStep(n);
    }
    assert states[4] == Sample(4);
    SampleDangles();
  }

  lemma {:induction false} SampleStep(n: nat)
    requires n < 4
    ensures Legal(Sample(n), SampleCall(n)) && Next(Sample(n), SampleCall(n)) == Sample(n + 1)
  {
    if n == 0 {
      FirstMalloc();
    } else if n < 3 {
      LaterMalloc(n);
    } else {
      FirstFree();
    }
  }

  lemma {:induction false} SampleDangles()
    ensures At(Sample(4).heap, 0, 1)
    ensures var s := Sample(4).heap[0].blocks; s[1].used && UsedCount(s) > 1 && Dangling(s, 1)
  {
    TwoUsed(Sample(4).heap[0].blocks, 1);
  }

  lemma {:induction false} TwoUsed(s: seq<Block>, i: nat)
    requires i + 1 < |s| && s[i].used && s[i + 1].used
    ensures UsedCount(s) > 1
  {
    UsedSplice(s, i, i + 2, []);
    assert s[i..i + 2] == [s[i]] + [s[i + 1]];
    UsedConcat([s[i]], [s[i + 1]]);
    UsedOne(s[i]);
    UsedOne(s[i + 1]);
  }
}
