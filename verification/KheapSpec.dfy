/** The kernel heap of `kernel/mm/kheap.c`, on values: containers of address-ordered
    blocks. A block at `addr` has a 40-byte header followed by `size` bytes of payload;
    `req` is what the caller asked for. */
module KheapSpec {
  import opened Numeric

  const HEADER: int := 40      // sizeof(struct block) and sizeof(struct container)
  const MIN_PAGES: int := 5    // KHEAP_MIN_ALLOC_IN_PAGES

  datatype Block = Block(addr: int, size: int, used: bool, req: int) {
    function Data(): int { addr + 40 }
    function End(): int { addr + 40 + size }
  }

  datatype Container = Container(addr: int, pages: int, blocks: seq<Block>) {
    function Stop(): int { addr + pages * 0x1000 }
  }

  datatype Option<+T> = None | Some(value: T)

  // ---- geometry ------------------------------------------------------------------------

  predicate BlockOk(b: Block, lo: int, hi: int) {
    lo <= b.addr && b.End() <= hi && 0 <= b.size && b.Data() % 16 == 0 && (b.used ==> 0 <= b.req <= b.size)
  }

  /** Blocks in ascending order within `[lo, hi]`, none reaching into the next header. */
  ghost predicate Packed(s: seq<Block>, lo: int, hi: int) {
    && (forall i :: 0 <= i < |s| ==> BlockOk(s[i], lo, hi))
    && (forall i, j :: 0 <= i < j < |s| ==> s[i].End() <= s[j].addr)
  }

  /** Of two neighbours one is in use. */
  ghost predicate Coalesced(s: seq<Block>) {
    forall i, j :: 0 <= i < j < |s| && j == i + 1 ==> s[i].used || s[j].used
  }

  function UsedCount(s: seq<Block>): nat {
    if s == [] then 0 else (if s[0].used then 1 else 0) + UsedCount(s[1..])
  }

  ghost predicate WellFormed(c: Container) {
    && PageAligned(c.addr) && c.pages > 0
    && c.blocks != [] && c.blocks[0].addr == c.addr + HEADER
    && Packed(c.blocks, c.addr + HEADER, c.Stop()) && Coalesced(c.blocks)
  }

  /** The invariant of the heap: well-formed containers in disjoint page ranges. */
  ghost predicate Inv(h: seq<Container>) {
    && (forall i :: 0 <= i < |h| ==> WellFormed(h[i]))
    && (forall i, j :: 0 <= i < j < |h| ==> Apart(h[i], h[j]))
  }

  predicate Apart(c: Container, d: Container) {
    c.Stop() <= d.addr || d.Stop() <= c.addr
  }

  lemma {:induction false} PackedSplice(s: seq<Block>, i: nat, k: nat, m: seq<Block>, lo: int, hi: int)
    requires Packed(s, lo, hi) && i <= k < |s| && Packed(m, s[i].addr, s[k].End())
    ensures Packed(s[..i] + m + s[k + 1..], lo, hi)
  {}

  lemma {:induction false} CoalescedSplice(s: seq<Block>, i: nat, k: nat, m: seq<Block>)
    requires Coalesced(s) && i <= k < |s| && Coalesced(m) && m != []
    requires i > 0 ==> s[i - 1].used || m[0].used
    requires k + 1 < |s| ==> m[|m| - 1].used || s[k + 1].used
    ensures Coalesced(s[..i] + m + s[k + 1..])
  {}

  lemma {:induction false} UsedConcat(s: seq<Block>, t: seq<Block>)
    ensures UsedCount(s + t) == UsedCount(s) + UsedCount(t)
  {
    if s == [] {
      assert s + t == t;
    } else {
      assert (s + t)[1..] == s[1..] + t;
      UsedConcat(s[1..], t);
    }
  }

  lemma {:induction false} UsedSplice(s: seq<Block>, i: nat, k: nat, m: seq<Block>)
    requires i <= k <= |s|
    ensures UsedCount(s) == UsedCount(s[..i]) + UsedCount(s[i..k]) + UsedCount(s[k..])
    ensures UsedCount(s[..i] + m + s[k..]) == UsedCount(s[..i]) + UsedCount(m) + UsedCount(s[k..])
  {
    assert s == s[..i] + s[i..k] + s[k..];
    UsedConcat(s[..i] + s[i..k], s[k..]);
    UsedConcat(s[..i], s[i..k]);
    UsedConcat(s[..i] + m, s[k..]);
    UsedConcat(s[..i], m);
  }

  lemma {:induction false} UsedZero(s: seq<Block>)
    ensures UsedCount(s) == 0 <==> forall i :: 0 <= i < |s| ==> !s[i].used
  {
    if s != [] {
      var t := s[1..];
      UsedZero(t);
      assert forall i :: 0 <= i < |t| ==> t[i] == s[i + 1];
      assert forall i :: 1 <= i < |s| ==> s[i] in t;
      if forall i :: 0 <= i < |s| ==> !s[i].used {
        forall i | 0 <= i < |t| ensures !t[i].used { assert !s[i + 1].used; }
      }
    }
  }

  lemma {:induction false} UsedOne(b: Block)
    ensures UsedCount([b]) == if b.used then 1 else 0
  {}

  /** Replacing blocks `f` to `l` by others in the same place keeps a container in shape. */
  lemma {:induction false} SpliceKeeps(c: Container, f: nat, l: nat, m: seq<Block>)
    requires WellFormed(c) && f <= l < |c.blocks| && m != [] && m[0].addr == c.blocks[f].addr
    requires Packed(m, c.blocks[f].addr, c.blocks[l].End()) && Coalesced(m)
    requires f > 0 ==> c.blocks[f - 1].used || m[0].used
    requires l + 1 < |c.blocks| ==> m[|m| - 1].used || c.blocks[l + 1].used
    ensures WellFormed(c.(blocks := c.blocks[..f] + m + c.blocks[l + 1..]))
  {
    var s := c.blocks;
    PackedSplice(s, f, l, m, c.addr + HEADER, c.Stop());
    CoalescedSplice(s, f, l, m);
    assert f > 0 ==> (s[..f] + m + s[l + 1..])[0] == s[0];
  }

  // ---- allocation ------------------------------------------------------------------------

  predicate Fits(b: Block, size: int) {
    !b.used && b.size >= size
  }

  /** The search loop of `try_alloc_block`. */
  function FindFit(s: seq<Block>, size: int, k: nat): (n: nat)
    requires k <= |s|
    ensures k <= n <= |s| && (n < |s| ==> Fits(s[n], size)) && forall j :: k <= j < n ==> !Fits(s[j], size)
    decreases |s| - k
  {
    if k == |s| || Fits(s[k], size) then k else FindFit(s, size, k + 1)
  }

  /** Every free block is shorter than `size`. */
  ghost predicate Full(s: seq<Block>, size: int) {
    forall i :: 0 <= i < |s| && !s[i].used ==> s[i].size < size
  }

  /** Block `i` is free and long enough, and all free ones before it are shorter. */
  ghost predicate FirstFreeFit(s: seq<Block>, i: nat, size: int) {
    && i < |s| && !s[i].used && size <= s[i].size
    && forall j :: 0 <= j < i && !s[j].used ==> s[j].size < size
  }

  lemma {:induction false} FindFitMeaning(s: seq<Block>, size: int)
    ensures FindFit(s, size, 0) == |s| <==> Full(s, size)
    ensures FindFit(s, size, 0) < |s| ==> FirstFreeFit(s, FindFit(s, size, 0), size)
  {
    var n := FindFit(s, size, 0);
    forall j | 0 <= j < n && !s[j].used ensures s[j].size < size { assert !Fits(s[j], size); }
  }

  /** End of the header that a split would put behind `size` bytes of block `b`. */
  function NextDataAt(b: Block, size: int): int {
    RoundUp(b.Data() + size + HEADER, 16)
  }

  /** What becomes of the block found: used as it is, or split in two. */
  function Carved(b: Block, size: int): seq<Block> {
    if NextDataAt(b, size) >= b.End() then [b.(used := true, req := size)]
    else [Block(b.addr, size, true, size), Block(NextDataAt(b, size) - HEADER, b.End() - NextDataAt(b, size), false, 0)]
  }

  function Allocated(c: Container, i: nat, size: int): Container
    requires i < |c.blocks|
  {
    c.(blocks := c.blocks[..i] + Carved(c.blocks[i], size) + c.blocks[i + 1..])
  }

  lemma {:induction false} NextDataBounds(b: Block, size: int)
    ensures NextDataAt(b, size) % 16 == 0
    ensures b.Data() + size + HEADER < NextDataAt(b, size) <= b.Data() + size + HEADER + 16
  {}

  /** The split leaves 1 to 16 bytes unused between payload and next header, and never
      reaches beyond the old end of the block. */
  lemma {:induction false} CarvedPacked(b: Block, size: int, lo: int, hi: int)
    requires BlockOk(b, lo, hi) && Fits(b, size) && size >= 0
    ensures Packed(Carved(b, size), b.addr, b.End()) && Coalesced(Carved(b, size))
    ensures Carved(b, size) != [] && Carved(b, size)[0].used && Carved(b, size)[0].addr == b.addr
    ensures Carved(b, size)[0].req == size && UsedCount(Carved(b, size)) == 1
  {
    NextDataBounds(b, size);
    var m := Carved(b, size);
    UsedOne(m[0]);
    if |m| == 2 {
      UsedOne(m[1]);
      UsedConcat([m[0]], [m[1]]);
      assert m == [m[0]] + [m[1]];
    } else {
      assert m == [m[0]];
    }
  }

  lemma {:induction false} AllocKeeps(c: Container, i: nat, size: int)
    requires WellFormed(c) && i < |c.blocks| && Fits(c.blocks[i], size) && size >= 0
    ensures WellFormed(Allocated(c, i, size))
    ensures UsedCount(Allocated(c, i, size).blocks) == UsedCount(c.blocks) + 1
  {
    var s, lo, hi := c.blocks, c.addr + HEADER, c.Stop();
    var m := Carved(s[i], size);
    assert BlockOk(s[i], lo, hi);
    CarvedPacked(s[i], size, lo, hi);
    assert i + 1 < |s| ==> s[i].used || s[i + 1].used;
    SpliceKeeps(c, i, i, m);
    UsedSplice(s, i, i + 1, m);
    assert s[i..i + 1] == [s[i]];
    UsedOne(s[i]);
  }

  // ---- what an allocation costs ------------------------------------------------------------

  /** The bytes of blocks and their headers. */
  function Footprint(s: seq<Block>): int {
    if s == [] then 0 else s[0].size + 40 + Footprint(s[1..])
  }

  lemma {:induction false} FootprintConcat(s: seq<Block>, t: seq<Block>)
    ensures Footprint(s + t) == Footprint(s) + Footprint(t)
  {
    if s == [] {
      assert s + t == t;
    } else {
      assert (s + t)[1..] == s[1..] + t;
      FootprintConcat(s[1..], t);
    }
  }

  lemma {:induction false} FootprintSplice(s: seq<Block>, i: nat, k: nat, m: seq<Block>)
    requires i <= k <= |s|
    ensures Footprint(s) == Footprint(s[..i]) + Footprint(s[i..k]) + Footprint(s[k..])
    ensures Footprint(s[..i] + m + s[k..]) == Footprint(s[..i]) + Footprint(m) + Footprint(s[k..])
  {
    assert s == s[..i] + s[i..k] + s[k..];
    FootprintConcat(s[..i] + s[i..k], s[k..]);
    FootprintConcat(s[..i], s[i..k]);
    FootprintConcat(s[..i] + m, s[k..]);
    FootprintConcat(s[..i], m);
  }

  lemma {:induction false} FootprintOne(b: Block)
    ensures Footprint([b]) == b.size + 40
  {
    assert [b][1..] == [];
  }

  lemma {:induction false} FootprintTwo(b: Block, d: Block)
    ensures Footprint([b, d]) == b.size + 40 + d.size + 40
  {
    assert [b, d][1..] == [d];
    FootprintOne(d);
  }

  /** The bytes lost behind an allocation: none when the block is used whole. */
  function Slack(b: Block, size: int): int {
    if NextDataAt(b, size) >= b.End() then 0 else NextDataAt(b, size) - (b.addr + 40 + size + 40)
  }

  /** A split keeps the start and the end of the block, gives the caller what was asked for,
      and loses 1 to 16 bytes; a block used whole loses none. */
  lemma {:induction false} CarvedCost(b: Block, size: int)
    ensures var m := Carved(b, size);
            && Footprint(m) == b.size + 40 - Slack(b, size) && 0 <= Slack(b, size) <= 16
            && m[0].addr == b.addr && m[|m| - 1].addr + 40 + m[|m| - 1].size == b.addr + 40 + b.size
            && (|m| == 1 ==> m[0].size == b.size && Slack(b, size) == 0)
            && (|m| > 1 ==> |m| == 2 && m[0].size == size && !m[1].used && Slack(b, size) > 0)
  {
    NextDataBounds(b, size);
    var m := Carved(b, size);
    if |m| == 1 { FootprintOne(m[0]); } else { FootprintTwo(m[0], m[1]); }
  }

  lemma {:induction false} AllocCost(c: Container, i: nat, size: int)
    requires i < |c.blocks|
    ensures Footprint(Allocated(c, i, size).blocks) == Footprint(c.blocks) - Slack(c.blocks[i], size)
    ensures 0 <= Slack(c.blocks[i], size) <= 16
  {
    var s := c.blocks;
    FootprintSplice(s, i, i + 1, Carved(s[i], size));
    assert s[i..i + 1] == [s[i]];
    FootprintOne(s[i]);
    CarvedCost(s[i], size);
  }

  /** Blocks and headers fit in their place. */
  lemma {:induction false} FootprintBound(s: seq<Block>, lo: int, hi: int)
    requires Packed(s, lo, hi) && lo <= hi
    ensures 0 <= Footprint(s) <= hi - lo
  {
    if s != [] {
      assert BlockOk(s[0], lo, hi);
      FootprintBound(s[1..], s[0].End(), hi);
    }
  }

  /** `create_container`: a fresh container holds one free block. */
  function NewContainer(addr: int, pages: int): Container {
    Container(addr, pages, [Block(addr + HEADER, pages * 0x1000 - 2 * HEADER, false, 0)])
  }

  /** The pages of a container for which `wanted` are asked: as many as its byte count
      spells in 64 bits. */
  function PagesOf(wanted: int): int {
    Max(MIN_PAGES, wanted) % PAGES64
  }

  /** The pages `kmalloc` asks for when nothing fits. */
  function Wanted(size: int): int {
    Add64(size, HEADER) / 0x1000 + 2
  }

  function PagesFor(size: int): int {
    PagesOf(Wanted(size))
  }

  /** Neither the byte count nor the page count of a container for `size` bytes wraps. */
  predicate Servable(size: int) {
    size + HEADER + 0x2000 < U64
  }

  lemma {:induction false} NewContainerOk(addr: int, pages: int)
    requires PageAligned(addr) && pages > 0
    ensures WellFormed(NewContainer(addr, pages)) && UsedCount(NewContainer(addr, pages).blocks) == 0
  {}

  /** A fresh container has room for every size but those at which 64-bit sums wrap; there
      `kmalloc` panics with "the impossible is possible". */
  lemma {:induction false} FreshContainerFits(addr: int, size: int)
    requires 0 <= size < U64 && PagesFor(size) > 0
    ensures FindFit(NewContainer(addr, PagesFor(size)).blocks, size, 0) == if Servable(size) then 0 else 1
  {
    var wanted := Wanted(size);
    if Servable(size) {
      assert MIN_PAGES <= Max(MIN_PAGES, wanted) < PAGES64;
    } else {
      WrappedPages(size);
    }
  }

  lemma {:induction false} WrappedPages(size: int)
    requires 0 <= size < U64 && !Servable(size)
    ensures PagesFor(size) <= MIN_PAGES
  {
    var x := size + HEADER;
    if x < U64 {
      assert PAGES64 <= x / 0x1000 + 2 <= PAGES64 + 1;
    } else {
      assert Wanted(size) == 2;
    }
  }

  /** The largest size of all: a container of five pages, and no room in it. */
  lemma {:induction false} LargestSize(addr: int)
    ensures PagesFor(U64 - 1) == 5 && FindFit(NewContainer(addr, 5).blocks, U64 - 1, 0) == 1
  {
    assert Wanted(U64 - 1) == 2;
    FreshContainerFits(addr, U64 - 1);
  }

  // ---- release -----------------------------------------------------------------------------

  /** Block `b` swallowed into `p`, its header included. */
  function Swallow(p: Block, b: Block): Block {
    Block(p.addr, p.size + b.size + HEADER, false, 0)
  }

  predicate MergesBack(s: seq<Block>, i: nat)
    requires i < |s|
  {
    i > 0 && !s[i - 1].used
  }

  predicate MergesForward(s: seq<Block>, i: nat)
    requires i < |s|
  {
    i + 1 < |s| && !s[i + 1].used
  }

  /** The free block that remains of block `i` and the free neighbours it merges with. */
  function Merged(s: seq<Block>, i: nat): Block
    requires i < |s|
  {
    var b := s[i].(used := false, req := 0);
    var p := if MergesBack(s, i) then Swallow(s[i - 1], b) else b;
    if MergesForward(s, i) then Swallow(p, s[i + 1]) else p
  }

  function First(s: seq<Block>, i: nat): nat
    requires i < |s|
  {
    if MergesBack(s, i) then i - 1 else i
  }

  function Last(s: seq<Block>, i: nat): nat
    requires i < |s|
  {
    if MergesForward(s, i) then i + 1 else i
  }

  function Released(c: Container, i: nat): Container
    requires i < |c.blocks|
  {
    c.(blocks := c.blocks[..First(c.blocks, i)] + [Merged(c.blocks, i)] + c.blocks[Last(c.blocks, i) + 1..])
  }

  /** A release gives back the block, and each free neighbour with its header; nothing more
      is lost. */
  lemma {:induction false} MergedSize(s: seq<Block>, i: nat)
    requires i < |s|
    ensures Merged(s, i).size ==
            s[i].size + (if i > 0 && !s[i - 1].used then s[i - 1].size + 40 else 0)
            + (if i + 1 < |s| && !s[i + 1].used then s[i + 1].size + 40 else 0)
    ensures Merged(s, i).addr == if i > 0 && !s[i - 1].used then s[i - 1].addr else s[i].addr
    ensures !Merged(s, i).used
  {}

  lemma {:induction false} ReleaseCost(c: Container, i: nat)
    requires i < |c.blocks|
    ensures Footprint(Released(c, i).blocks) == Footprint(c.blocks)
  {
    var s := c.blocks;
    var p := if MergesBack(s, i) then [s[i - 1]] else [];
    var n := if MergesForward(s, i) then [s[i + 1]] else [];
    FootprintSplice(s, First(s, i), Last(s, i) + 1, [Merged(s, i)]);
    assert s[First(s, i)..Last(s, i) + 1] == p + [s[i]] + n;
    FootprintThree(p, s[i], n);
    FootprintOne(Merged(s, i));
    if p != [] { FootprintOne(s[i - 1]); }
    if n != [] { FootprintOne(s[i + 1]); }
    MergedSize(s, i);
  }

  lemma {:induction false} FootprintThree(p: seq<Block>, b: Block, n: seq<Block>)
    ensures Footprint(p + [b] + n) == Footprint(p) + (b.size + 40) + Footprint(n)
  {
    FootprintConcat(p + [b], n);
    FootprintConcat(p, [b]);
    FootprintOne(b);
  }

  /** `kfree` right after the `kmalloc` of it: the block is back, shorter by what was lost
      behind the allocation. */
  lemma {:induction false} FreedAgain(c: Container, i: nat, size: int)
    requires WellFormed(c) && i < |c.blocks| && Fits(c.blocks[i], size)
    ensures var b := c.blocks[i];
            Released(Allocated(c, i, size), i).blocks ==
            c.blocks[i := Block(b.addr, b.size - Slack(b, size), false, 0)]
  {
    var s, m := c.blocks, Carved(c.blocks[i], size);
    var d := Allocated(c, i, size);
    assert i > 0 ==> s[i - 1].used && d.blocks[i - 1] == s[i - 1];
    assert i + 1 < |s| ==> s[i + 1].used;
    CarvedCost(s[i], size);
    assert d.blocks[i] == m[0];
    if |m| == 1 {
      assert i + 1 < |s| ==> d.blocks[i + 1] == s[i + 1];
      assert d.blocks[i + 1..] == s[i + 1..];
    } else {
      assert d.blocks[i + 1] == m[1] && d.blocks[i + 2..] == s[i + 1..];
    }
    assert d.blocks[..i] == s[..i];
    MergedSize(d.blocks, i);
    assert s[i := Merged(d.blocks, i)] == s[..i] + [Merged(d.blocks, i)] + s[i + 1..];
  }

  /** A merge loses the slack between the blocks, so it never grows beyond the last one. */
  lemma {:induction false} MergedPacked(s: seq<Block>, i: nat, lo: int, hi: int)
    requires Packed(s, lo, hi) && i < |s|
    ensures Packed([Merged(s, i)], s[First(s, i)].addr, s[Last(s, i)].End())
  {}

  lemma {:induction false} ReleaseKeeps(c: Container, i: nat)
    requires WellFormed(c) && i < |c.blocks| && c.blocks[i].used
    ensures WellFormed(Released(c, i))
    ensures UsedCount(Released(c, i).blocks) == UsedCount(c.blocks) - 1
  {
    ReleasedShape(c, i);
    ReleasedCount(c.blocks, i);
  }

  lemma {:induction false} ReleasedShape(c: Container, i: nat)
    requires WellFormed(c) && i < |c.blocks| && c.blocks[i].used
    ensures WellFormed(Released(c, i))
  {
    var s := c.blocks;
    MergedPacked(s, i, c.addr + HEADER, c.Stop());
    NeighboursUsed(s, i);
    SpliceKeeps(c, First(s, i), Last(s, i), [Merged(s, i)]);
  }

  /** Beyond the free neighbours that are merged in, blocks are in use. */
  lemma {:induction false} NeighboursUsed(s: seq<Block>, i: nat)
    requires Coalesced(s) && i < |s|
    ensures First(s, i) > 0 ==> s[First(s, i) - 1].used
    ensures Last(s, i) + 1 < |s| ==> s[Last(s, i) + 1].used
  {}

  lemma {:induction false} ReleasedCount(s: seq<Block>, i: nat)
    requires i < |s| && s[i].used
    ensures UsedCount(s[..First(s, i)] + [Merged(s, i)] + s[Last(s, i) + 1..]) == UsedCount(s) - 1
  {
    UsedSplice(s, First(s, i), Last(s, i) + 1, [Merged(s, i)]);
    UsedOne(Merged(s, i));
    UsedAround(s, i);
  }

  lemma {:induction false} UsedAround(s: seq<Block>, i: nat)
    requires i < |s| && s[i].used
    ensures UsedCount(s[First(s, i)..Last(s, i) + 1]) == 1
  {
    var p := if MergesBack(s, i) then [s[i - 1]] else [];
    var n := if MergesForward(s, i) then [s[i + 1]] else [];
    assert s[First(s, i)..Last(s, i) + 1] == p + [s[i]] + n;
    UsedConcat(p + [s[i]], n);
    UsedConcat(p, [s[i]]);
    UsedOne(s[i]);
    if p != [] { UsedOne(s[i - 1]); }
    if n != [] { UsedOne(s[i + 1]); }
  }
}
