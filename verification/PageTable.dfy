/** The four-level page tables of `kernel/arch/x86_64/mm/mmu.c` as words in
    physical memory: section 5.3.3 of the AMD64 Architecture Programmer's Manual,
    Volume 2 (4-Kbyte page translation). Tables are named by their physical frame;
    the direct mapping through which the kernel reaches them is left implicit. */
module PageTable {
  import opened Folding
  import opened Numeric

  /** The memory of the frames used as tables: 512 entries each. */
  type Mem = map<int, seq<int>>

  const PRESENT: int := 0x1
  const GLOBAL: int := 0x100

  predicate Present(e: int) { e % 2 == 1 }

  /** `perm & ~PAGE_GLOBAL` */
  function WithoutGlobal(perm: int): (r: int)
    requires 0 <= perm < PAGE
    ensures 0 <= r < PAGE
  {
    if perm / 0x100 % 2 == 1 then perm - GLOBAL else perm
  }

  lemma {:induction false} FrameWithFlags(frame: int, r: int)
    requires PageAligned(frame) && 0 <= r < PAGE
    ensures (frame + r) % 0x1000 == r && (frame + r) % 2 == r % 2
  {
    Parity(2048 * (frame / 0x1000), r);
  }

  lemma {:induction false} Parity(k: int, r: int)
    ensures (2 * k + r) % 2 == r % 2
  {}

  /** `PAGE_PRESENT | p` */
  function WithPresent(p: int): (r: int)
    requires 0 <= p < PAGE
    ensures 0 <= r < PAGE && Present(r)
  {
    if Present(p) then p else p + PRESENT
  }

  /** `frame | PAGE_PRESENT | perm_wo_g` for an aligned frame and flag bits only. */
  function TableEntry(frame: int, perm: int): (e: int)
    requires PageAligned(frame) && 0 <= perm < PAGE
    ensures Present(e) && PageAddr(e) == frame
  {
    FrameWithFlags(frame, WithPresent(WithoutGlobal(perm)));
    frame + WithPresent(WithoutGlobal(perm))
  }

  /** `pa | perm` for an aligned frame and flag bits only. */
  function LeafEntry(pa: int, perm: int): (e: int)
    requires PageAligned(pa) && 0 <= perm < PAGE
    ensures PageAddr(e) == pa && e % 0x1000 == perm
  {
    pa + perm
  }

  // ---- what entries allow ----------------------------------------------------------------------

  /** An entry's bit of weight `b`: 1 present, 2 writable, 4 user, 0x100 global. */
  predicate Allows(e: int, b: int)
    requires b != 0
  {
    e / b % 2 == 1
  }

  /** Present, for the kernel alone, in every space; to write if `writable`; and nothing else. */
  predicate ForKernel(e: int, writable: bool) {
    && Allows(e, 1) && (Allows(e, 2) <==> writable) && !Allows(e, 4) && Allows(e, 0x100)
    && e % 0x1000 == if writable then 0x103 else 0x101
  }

  lemma {:induction false} FlagsDecide(frame: int, r: int)
    requires PageAligned(frame) && 0 <= r < PAGE
    ensures Allows(frame + r, 1) <==> Allows(r, 1)
    ensures Allows(frame + r, 2) <==> Allows(r, 2)
    ensures Allows(frame + r, 4) <==> Allows(r, 4)
    ensures Allows(frame + r, 0x100) <==> Allows(r, 0x100)
  {
    var k := frame / 0x1000;
    assert frame + r == 0x1000 * k + r;
    Halves(0x800 * k, r, 1);
    Halves(0x400 * k, r, 2);
    Halves(0x200 * k, r, 4);
    Halves(8 * k, r, 0x100);
  }

  lemma {:induction false} Halves(k: int, r: int, b: int)
    requires b == 1 || b == 2 || b == 4 || b == 0x100
    ensures (2 * b * k + r) / b % 2 == r / b % 2
  {
    assert (2 * b * k + r) / b == 2 * k + r / b;
  }

  /** A table's entry lets through what the request asked for; it is never global. */
  lemma {:induction false} TableEntryAllows(frame: int, perm: int)
    requires PageAligned(frame) && 0 <= perm < PAGE
    ensures var e := TableEntry(frame, perm);
            && Allows(e, 1) && (Allows(e, 2) <==> Allows(perm, 2)) && (Allows(e, 4) <==> Allows(perm, 4))
            && !Allows(e, 0x100)
  {
    FlagsDecide(frame, WithPresent(WithoutGlobal(perm)));
    PermBits(perm);
  }

  lemma {:induction false} PermBits(perm: int)
    requires 0 <= perm < PAGE
    ensures var r := WithPresent(WithoutGlobal(perm));
            && Allows(r, 1) && (Allows(r, 2) <==> Allows(perm, 2)) && (Allows(r, 4) <==> Allows(perm, 4))
            && !Allows(r, 0x100)
  {
    var k, q := perm / 0x100, perm % 0x100;
    var k', q' := k - k % 2, if q % 2 == 1 then q else q + 1;
    assert WithPresent(WithoutGlobal(perm)) == 0x100 * k' + q';
    LowBits(k, q);
    LowBits(k', q');
    assert q' / 2 == q / 2 && q' / 4 == q / 4;
  }

  lemma {:induction false} LowBits(k: int, q: int)
    requires 0 <= q < 0x100
    ensures var r := 0x100 * k + q;
            && r / 0x100 == k && r % 2 == q % 2 && r / 2 % 2 == q / 2 % 2 && r / 4 % 2 == q / 4 % 2
  {
    Halves(0x80 * k, q, 1);
    Halves(0x40 * k, q, 2);
    Halves(0x20 * k, q, 4);
  }

  // ---- tables and the tree they form ------------------------------------------

  /** The place of a table in the tree: level 4 is the root, level 1 holds leaf
      entries; `prefix` spells the indices that lead to it. */
  datatype Slot = Slot(root: int, level: int, prefix: int)

  function Child(s: Slot, i: int): Slot { Slot(s.root, s.level - 1, s.prefix * 512 + i) }

  function Parent(s: Slot): Slot { Slot(s.root, s.level + 1, s.prefix / 512) }

  lemma {:induction false} ParentOfChild(s: Slot, i: int)
    requires 0 <= i < 512
    ensures Parent(Child(s, i)) == s
    ensures Child(s, i).prefix % 512 == i
  {}

  /** `at` tells which frame holds the table of which place. A table page is the
      table of one place, so nothing is shared or aliased, and an entry is present
      exactly when the table below it exists. */
  ghost predicate Tree(mem: Mem, at: map<Slot, int>) {
    && (forall s :: s in at ==> Shaped(mem, at, s))
    && (forall s, t :: s in at && t in at && at[s] == at[t] ==> s == t)
    && (forall s, i :: s in at && s.level > 1 && 0 <= i < 512 ==> Points(mem, at, s, i))
  }

  ghost predicate Shaped(mem: Mem, at: map<Slot, int>, s: Slot)
    requires s in at
  {
    && 1 <= s.level <= 4 && 0 <= s.prefix
    && (s.level == 4 ==> s.prefix == 0 && at[s] == s.root)
    && (s.level < 4 ==> Parent(s) in at)
    && at[s] > 0 && PageAligned(at[s]) && at[s] in mem && |mem[at[s]]| == 512
  }

  ghost predicate Points(mem: Mem, at: map<Slot, int>, s: Slot, i: int)
    requires s in at && 0 <= i < 512
  {
    && at[s] in mem && |mem[at[s]]| == 512
    && (Present(mem[at[s]][i]) <==> Child(s, i) in at)
    && (Child(s, i) in at ==> PageAddr(mem[at[s]][i]) == at[Child(s, i)])
  }

  /** The place of the last-level table that translates a page. */
  function LeafSlot(root: int, page: int): Slot { Slot(root, 1, page / 512) }

  /** The leaf entry of a page; 0 when a table on the way is absent. */
  ghost function Leaf(mem: Mem, at: map<Slot, int>, root: int, page: int): int
    requires Tree(mem, at)
  {
    var s := LeafSlot(root, page);
    if s in at then assert Shaped(mem, at, s); mem[at[s]][page % 512] else 0
  }

  function Zeros(): (z: seq<int>)
    ensures |z| == 512 && forall i :: 0 <= i < 512 ==> z[i] == 0
  {
    seq(512, i => 0)
  }

  // ---- growing the tree and writing a leaf --------------------------------------

  /** A zeroed table `c` hooked into entry `i` of table `s`. */
  function Grown(mem: Mem, t: int, i: int, c: int, e: int): Mem
    requires t in mem && 0 <= i < |mem[t]|
  {
    mem[c := Zeros()][t := mem[t][i := e]]
  }

  lemma {:induction false} GrowKeepsTree(mem: Mem, at: map<Slot, int>, s: Slot, i: int, c: int, e: int)
    requires Tree(mem, at) && s in at && s.level > 1 && 0 <= i < 512 && Child(s, i) !in at
    requires c !in at.Values && c > 0 && PageAligned(c) && Present(e) && PageAddr(e) == c
    ensures Shaped(mem, at, s)
    ensures Tree(Grown(mem, at[s], i, c, e), at[Child(s, i) := c])
  {
    assert Shaped(mem, at, s);
    var m, n := Grown(mem, at[s], i, c, e), Child(s, i);
    var b := at[n := c];
    ParentOfChild(s, i);
    assert at[s] in at.Values;
    forall u | u in b ensures Shaped(m, b, u) {
      if u != n { assert Shaped(mem, at, u); assert at[u] in at.Values; }
    }
    forall u, v | u in b && v in b && b[u] == b[v] ensures u == v {
      if u != n { assert at[u] in at.Values; }
      if v != n { assert at[v] in at.Values; }
    }
    forall u, j | u in b && u.level > 1 && 0 <= j < 512 ensures Points(m, b, u, j) {
      GrowPoints(mem, at, s, i, c, e, u, j);
    }
  }

  lemma {:induction false} GrowPoints(mem: Mem, at: map<Slot, int>, s: Slot, i: int, c: int, e: int, u: Slot, j: int)
    requires Tree(mem, at) && s in at && s.level > 1 && 0 <= i < 512 && Child(s, i) !in at
    requires c !in at.Values && c > 0 && PageAligned(c) && Present(e) && PageAddr(e) == c
    requires Shaped(mem, at, s)
    requires (u in at || u == Child(s, i)) && u.level > 1 && 0 <= j < 512
    ensures Points(Grown(mem, at[s], i, c, e), at[Child(s, i) := c], u, j)
  {
    ParentOfChild(s, i);
    ParentOfChild(u, j);
    assert at[s] in at.Values;
    if u in at {
      assert at[u] in at.Values;
      assert Points(mem, at, u, j) && Shaped(mem, at, u);
    } else if Child(u, j) in at {
      assert Shaped(mem, at, Child(u, j));
    }
  }

  /** A new table changes no leaf entry, in this space or another. */
  lemma {:induction false} GrowKeepsLeaves(mem: Mem, at: map<Slot, int>, s: Slot, i: int, c: int, e: int, root: int,
                                           page: int)
    requires Tree(mem, at) && s in at && s.level > 1 && 0 <= i < 512 && Child(s, i) !in at
    requires c !in at.Values && Shaped(mem, at, s) && Tree(Grown(mem, at[s], i, c, e), at[Child(s, i) := c])
    ensures Leaf(Grown(mem, at[s], i, c, e), at[Child(s, i) := c], root, page) == Leaf(mem, at, root, page)
  {}

  /** Writing one leaf entry changes the leaf of that page and of no other. */
  function Written(mem: Mem, t: int, i: int, e: int): Mem
    requires t in mem && 0 <= i < |mem[t]|
  {
    mem[t := mem[t][i := e]]
  }

  lemma {:induction false} WriteLeaf(mem: Mem, at: map<Slot, int>, root: int, page: int, e: int)
    requires Tree(mem, at) && LeafSlot(root, page) in at
    ensures Shaped(mem, at, LeafSlot(root, page))
    ensures var m := Written(mem, at[LeafSlot(root, page)], page % 512, e);
            && Tree(m, at)
            && Leaf(m, at, root, page) == e
  {
    var s := LeafSlot(root, page);
    assert Shaped(mem, at, s);
    var m := Written(mem, at[s], page % 512, e);
    forall u | u in at ensures Shaped(m, at, u) {
      assert Shaped(mem, at, u);
    }
    forall u, j | u in at && u.level > 1 && 0 <= j < 512 ensures Points(m, at, u, j) {
      assert Points(mem, at, u, j) && at[u] != at[s];
    }
  }

  lemma {:induction false} WriteLeafFrame(mem: Mem, at: map<Slot, int>, root: int, page: int, e: int, root': int,
                                          page': int)
    requires Tree(mem, at) && LeafSlot(root, page) in at && (root, page) != (root', page')
    requires Shaped(mem, at, LeafSlot(root, page))
    requires Tree(Written(mem, at[LeafSlot(root, page)], page % 512, e), at)
    ensures Leaf(Written(mem, at[LeafSlot(root, page)], page % 512, e), at, root', page') == Leaf(mem, at, root', page')
  {}

  // ---- what a walk may do to the tables -------------------------------------------

  /** The tables grew out of the free frames `f` and no leaf entry changed. */
  ghost predicate Extends(m: Mem, a: map<Slot, int>, f: set<int>, m': Mem, a': map<Slot, int>, f': set<int>) {
    && Tree(m, a) && Tree(m', a') && SubMap(a, a')
    && f + a.Values == f' + a'.Values && a'.Values !! f'
    && SameLeaves(m, a, m', a')
  }

  ghost predicate SubMap(a: map<Slot, int>, b: map<Slot, int>) {
    forall s :: s in a ==> s in b && b[s] == a[s]
  }

  ghost predicate SameLeaves(m: Mem, a: map<Slot, int>, m': Mem, a': map<Slot, int>)
    requires Tree(m, a) && Tree(m', a')
  {
    forall root, page :: Leaf(m', a', root, page) == Leaf(m, a, root, page)
  }

  lemma {:induction false} ExtendsTrans(m0: Mem, a0: map<Slot, int>, f0: set<int>, m1: Mem, a1: map<Slot, int>,
                                        f1: set<int>, m2: Mem, a2: map<Slot, int>, f2: set<int>)
    requires Extends(m0, a0, f0, m1, a1, f1) && Extends(m1, a1, f1, m2, a2, f2)
    ensures Extends(m0, a0, f0, m2, a2, f2)
  {}

  /** `Tree` and, from disjoint frames on, `Extends`, kept folded for the walk. */
  ghost predicate Rooted(m: Mem, a: map<Slot, int>) {
    forall u {:trigger UnfoldTables(u)} :: UnfoldTables(u) ==> Tree(m, a)
  }

  ghost predicate Walked(m: Mem, a: map<Slot, int>, f: set<int>, m': Mem, a': map<Slot, int>, f': set<int>) {
    forall u {:trigger UnfoldTables(u)} :: UnfoldTables(u) && a.Values !! f ==> Extends(m, a, f, m', a', f')
  }

  lemma {:induction false} WalkedNothing(m: Mem, a: map<Slot, int>, f: set<int>)
    requires Rooted(m, a)
    ensures Walked(m, a, f, m, a, f)
  {
    assert UnfoldTables(true);
  }

  lemma {:induction false} WalkedTrans(m0: Mem, a0: map<Slot, int>, f0: set<int>, m1: Mem, a1: map<Slot, int>,
                                       f1: set<int>, m2: Mem, a2: map<Slot, int>, f2: set<int>)
    requires Walked(m0, a0, f0, m1, a1, f1) && Walked(m1, a1, f1, m2, a2, f2)
    ensures Walked(m0, a0, f0, m2, a2, f2)
  {
    assert UnfoldTables(true);
    if a0.Values !! f0 { ExtendsTrans(m0, a0, f0, m1, a1, f1, m2, a2, f2); }
  }

  lemma {:induction false} GrowExtends(m: Mem, a: map<Slot, int>, f: set<int>, s: Slot, i: int, c: int, e: int)
    requires Tree(m, a) && a.Values !! f && s in a && s.level > 1 && 0 <= i < 512 && Child(s, i) !in a
    requires c in f && c > 0 && PageAligned(c) && Present(e) && PageAddr(e) == c
    ensures Shaped(m, a, s)
    ensures Extends(m, a, f, Grown(m, a[s], i, c, e), a[Child(s, i) := c], f - {c})
  {
    GrowKeepsTree(m, a, s, i, c, e);
    ValuesAfterUpdate(a, Child(s, i), c);
    forall root, page
      ensures Leaf(Grown(m, a[s], i, c, e), a[Child(s, i) := c], root, page) == Leaf(m, a, root, page)
    {
      GrowKeepsLeaves(m, a, s, i, c, e, root, page);
    }
  }

  lemma {:induction false} ValuesAfterUpdate(a: map<Slot, int>, s: Slot, c: int)
    requires s !in a
    ensures a[s := c].Values == a.Values + {c}
  {
    var b := a[s := c];
    assert s in b;
    forall v | v in a.Values ensures v in b.Values {
      var k :| k in a && a[k] == v;
      assert k in b && b[k] == v;
    }
  }

  /** One leaf was written and every other leaf kept. */
  ghost predicate Mapped(m: Mem, a: map<Slot, int>, m': Mem, a': map<Slot, int>, root: int, page: int, e: int)
    requires Tree(m, a) && Tree(m', a')
  {
    && Leaf(m', a', root, page) == e
    && forall r, p :: (r, p) != (root, page) ==> Leaf(m', a', r, p) == Leaf(m, a, r, p)
  }

  lemma {:induction false} WriteMaps(m: Mem, a: map<Slot, int>, root: int, page: int, e: int)
    requires Tree(m, a) && LeafSlot(root, page) in a
    ensures Shaped(m, a, LeafSlot(root, page))
    ensures var w := Written(m, a[LeafSlot(root, page)], page % 512, e);
            Tree(w, a) && Mapped(m, a, w, a, root, page, e)
  {
    WriteLeaf(m, a, root, page, e);
    forall r, p | (r, p) != (root, page)
      ensures Leaf(Written(m, a[LeafSlot(root, page)], page % 512, e), a, r, p) == Leaf(m, a, r, p)
    {
      WriteLeafFrame(m, a, root, page, e, r, p);
    }
  }

  /** What an entry of a table above the last level says. */
  lemma {:induction false} EntryOf(m: Mem, a: map<Slot, int>, s: Slot, i: int)
    requires Rooted(m, a) && s in a && s.level > 1 && 0 <= i < 512
    ensures a[s] in m && |m[a[s]]| == 512 && (Present(m[a[s]][i]) <==> Child(s, i) in a)
    ensures Child(s, i) in a ==> PageAddr(m[a[s]][i]) == a[Child(s, i)] > 0
  {
    assert UnfoldTables(true);
    assert Shaped(m, a, s) && Points(m, a, s, i);
    if Child(s, i) in a { assert Shaped(m, a, Child(s, i)); }
  }

  lemma {:induction false} GrowWalked(m: Mem, a: map<Slot, int>, f: set<int>, s: Slot, i: int, c: int, e: int)
    requires Rooted(m, a) && a.Values !! f && s in a && s.level > 1 && 0 <= i < 512 && Child(s, i) !in a
    requires c in f && c > 0 && PageAligned(c) && Present(e) && PageAddr(e) == c
    ensures a[s] in m && |m[a[s]]| == 512 && a[s] != c
    ensures var m', a' := Grown(m, a[s], i, c, e), a[Child(s, i) := c];
            Rooted(m', a') && Walked(m, a, f, m', a', f - {c}) && a'.Values !! f - {c}
  {
    assert UnfoldTables(true);
    assert a[s] in a.Values;
    GrowExtends(m, a, f, s, i, c, e);
  }

  /** Under an existing last-level table all the tables above exist too. */
  lemma {:induction false} PathPresent(m: Mem, a: map<Slot, int>, s: Slot)
    requires Rooted(m, a) && s.level == 1
    ensures s in a ==> Parent(s) in a && Parent(Parent(s)) in a && Parent(Parent(Parent(s))) in a
  {
    assert UnfoldTables(true);
  }

  // ---- the leaves as a finite map --------------------------------------------------

  /** The pages with a leaf entry other than 0. */
  type Leaves = map<(int, int), int>

  function Entry(l: Leaves, root: int, page: int): int {
    if (root, page) in l then l[(root, page)] else 0
  }

  function Updated(l: Leaves, root: int, page: int, e: int): Leaves {
    if e == 0 then l - {(root, page)} else l[(root, page) := e]
  }

  ghost predicate Views(m: Mem, a: map<Slot, int>, l: Leaves)
    requires Tree(m, a)
  {
    && (forall k {:trigger l[k]} :: k in l ==> l[k] != 0)
    && (forall root, page {:trigger Leaf(m, a, root, page)} :: Leaf(m, a, root, page) == Entry(l, root, page))
  }

  lemma {:induction false} ViewsExtended(m: Mem, a: map<Slot, int>, f: set<int>, m': Mem, a': map<Slot, int>,
                                         f': set<int>, l: Leaves)
    requires Extends(m, a, f, m', a', f') && Views(m, a, l)
    ensures Views(m', a', l)
  {}

  /** Tables, their frames, the top-level ones and the leaves go together. */
  ghost predicate Fits(m: Mem, a: map<Slot, int>, l: Leaves, tables: set<int>, roots: set<int>) {
    && Tree(m, a) && Views(m, a, l) && tables == a.Values
    && (forall root :: root in roots ==> Slot(root, 4, 0) in a)
  }

  ghost predicate FitsFolded(m: Mem, a: map<Slot, int>, l: Leaves, tables: set<int>, roots: set<int>) {
    forall u {:trigger UnfoldTables(u)} :: UnfoldTables(u) ==> Fits(m, a, l, tables, roots)
  }

  lemma {:induction false} Fitting(m: Mem, a: map<Slot, int>, l: Leaves, tables: set<int>, roots: set<int>)
    requires FitsFolded(m, a, l, tables, roots)
    ensures Rooted(m, a) && tables == a.Values
    ensures forall root :: root in roots ==> Slot(root, 4, 0) in a && a[Slot(root, 4, 0)] == root
  {
    assert UnfoldTables(true);
    forall root | root in roots ensures a[Slot(root, 4, 0)] == root { assert Shaped(m, a, Slot(root, 4, 0)); }
  }

  /** A walk keeps that, and loses no frame. */
  lemma {:induction false} FitsWalked(m: Mem, a: map<Slot, int>, f: set<int>, m': Mem, a': map<Slot, int>,
                                      f': set<int>, l: Leaves, roots: set<int>)
    requires FitsFolded(m, a, l, a.Values, roots) && Walked(m, a, f, m', a', f')
    requires a.Values !! f || (m', a', f') == (m, a, f)
    ensures FitsFolded(m', a', l, a'.Values, roots)
    ensures a.Values <= a'.Values && f' + a'.Values == f + a.Values && (a.Values !! f ==> a'.Values !! f')
  {
    assert UnfoldTables(true);
    if a.Values !! f {
      ViewsExtended(m, a, f, m', a', f', l);
      ValuesGrow(a, a');
    }
  }

  lemma {:induction false} ValuesGrow(a: map<Slot, int>, b: map<Slot, int>)
    requires SubMap(a, b)
    ensures a.Values <= b.Values
  {
    forall v | v in a.Values ensures v in b.Values {
      var s :| s in a && a[s] == v;
      assert s in b && b[s] == v;
    }
  }

  lemma {:induction false} ViewsMapped(m: Mem, a: map<Slot, int>, m': Mem, a': map<Slot, int>, root: int, page: int,
                                       e: int, l: Leaves)
    requires Tree(m, a) && Tree(m', a') && Mapped(m, a, m', a', root, page, e) && Views(m, a, l)
    ensures Views(m', a', Updated(l, root, page, e))
  {
    forall r, p ensures Leaf(m', a', r, p) == Entry(Updated(l, root, page, e), r, p) {
      assert Leaf(m, a, r, p) == Entry(l, r, p);
    }
  }

  ghost predicate EmptySpace(m: Mem, a: map<Slot, int>, root: int)
    requires Tree(m, a)
  {
    forall page :: Leaf(m, a, root, page) == 0
  }

  lemma {:induction false} RootIsTable(m: Mem, a: map<Slot, int>, c: int)
    requires Tree(m, a) && Slot(c, 4, 0) in a
    ensures c in a.Values
  {}

  /** A zeroed frame as the top-level table of a new, empty space. */
  lemma {:induction false} NewSpace(m: Mem, a: map<Slot, int>, f: set<int>, c: int)
    requires Tree(m, a) && a.Values !! f && c in f && c > 0 && PageAligned(c)
    ensures Extends(m, a, f, m[c := Zeros()], a[Slot(c, 4, 0) := c], f - {c})
    ensures Slot(c, 4, 0) !in a && EmptySpace(m[c := Zeros()], a[Slot(c, 4, 0) := c], c)
  {
    var n := Slot(c, 4, 0);
    var m', b := m[c := Zeros()], a[n := c];
    if n in a { RootIsTable(m, a, c); }
    ValuesAfterUpdate(a, n, c);
    NoOrphans(m, a, c);
    forall u | u in b ensures Shaped(m', b, u) {
      if u != n { assert Shaped(m, a, u) && a[u] in a.Values; }
    }
    forall u, v | u in b && v in b && b[u] == b[v] ensures u == v {
      if u != n { assert a[u] in a.Values; }
      if v != n { assert a[v] in a.Values; }
    }
    forall u, j | u in b && u.level > 1 && 0 <= j < 512 ensures Points(m', b, u, j) {
      if u != n { assert Points(m, a, u, j) && a[u] in a.Values; }
    }
    forall root, page ensures Leaf(m', b, root, page) == Leaf(m, a, root, page) {
      var u := LeafSlot(root, page);
      if u in a { assert a[u] in a.Values; }
    }
  }

  /** No table belongs to a space whose root is not a table. */
  lemma {:induction false} NoOrphans(m: Mem, a: map<Slot, int>, c: int)
    requires Tree(m, a) && Slot(c, 4, 0) !in a
    ensures forall s :: s in a ==> s.root != c
  {}

  // ---- the indices of an address -------------------------------------------------------------------

  /** The tables that translate `va`, from the top level down. */
  function Prefix3(va: int): int { Pml4Index(va) }

  function Prefix2(va: int): int { Pml4Index(va) * 512 + PdptIndex(va) }

  function Prefix1(va: int): int { Prefix2(va) * 512 + PdtIndex(va) }

  lemma {:induction false} PrefixesSpellPage(va: int)
    requires 0 <= va < U64
    ensures Prefix1(va) == PageNo(va) / 512 && PtIndex(va) == PageNo(va) % 512
    ensures 0 <= Pml4Index(va) < 512 && 0 <= PdptIndex(va) < 512 && 0 <= PdtIndex(va) < 512 && 0 <= PtIndex(va) < 512
    ensures Prefix1(va) / 512 == Prefix2(va) && Prefix2(va) / 512 == Prefix3(va) && Prefix3(va) / 512 == 0
  {
    IndicesSpellPageNo(va);
    var p := PageNo(va) / 512;
    assert p == (p / 512) * 512 + p % 512;
    assert p / 512 == (p / 512 / 512) * 512 + p / 512 % 512;
  }

  /** The tables below the root that translate `va`, and those that translate a range. */
  ghost function Path(root: int, va: int): set<Slot> {
    {Slot(root, 3, Prefix3(va)), Slot(root, 2, Prefix2(va)), LeafSlot(root, PageNo(va))}
  }

  ghost function Paths(root: int, lo: int, hi: int): set<Slot> {
    set va, s | lo <= va < hi && PageVa(va) && s in Path(root, va) :: s
  }

  ghost predicate EquallyMany(t: set<int>, p: set<Slot>) {
    forall u {:trigger UnfoldCounts(u)} :: UnfoldCounts(u) ==> |t| == |p|
  }

  /** The places of the tables that translate `va`, each the child of the one above. */
  lemma {:induction false} SlotsChain(root: int, va: int)
    requires 0 <= va < U64
    ensures Child(Slot(root, 4, 0), Pml4Index(va)) == Slot(root, 3, Prefix3(va))
    ensures Child(Slot(root, 3, Prefix3(va)), PdptIndex(va)) == Slot(root, 2, Prefix2(va))
    ensures Child(Slot(root, 2, Prefix2(va)), PdtIndex(va)) == LeafSlot(root, PageNo(va))
    ensures Parent(LeafSlot(root, PageNo(va))) == Slot(root, 2, Prefix2(va))
    ensures Parent(Slot(root, 2, Prefix2(va))) == Slot(root, 3, Prefix3(va))
    ensures PtIndex(va) == PageNo(va) % 512
    ensures 0 <= Pml4Index(va) < 512 && 0 <= PdptIndex(va) < 512 && 0 <= PdtIndex(va) < 512 && 0 <= PtIndex(va) < 512
  {
    PrefixesSpellPage(va);
  }

  /** A zeroed top-level table out of the free frames. */
  lemma {:induction false} FitsRoot(m: Mem, a: map<Slot, int>, f: set<int>, l: Leaves, roots: set<int>, c: int)
    requires FitsFolded(m, a, l, a.Values, roots) && a.Values !! f && c in f && c > 0 && PageAligned(c)
    ensures var m', a' := m[c := Zeros()], a[Slot(c, 4, 0) := c];
            && FitsFolded(m', a', l, a'.Values, roots + {c}) && c !in roots
            && a'.Values !! f - {c} && a'.Values + (f - {c}) == a.Values + f
    ensures forall page :: Entry(l, c, page) == 0
  {
    assert UnfoldTables(true);
    var m', a' := m[c := Zeros()], a[Slot(c, 4, 0) := c];
    NewSpace(m, a, f, c);
    ViewsExtended(m, a, f, m', a', f - {c}, l);
    forall page ensures Entry(l, c, page) == 0 {
      assert Leaf(m', a', c, page) == 0;
    }
  }

  // ---- permissions across the levels -----------------------------------------------------------

  /** The entry that leads to the table of place `s`. */
  ghost function EntryTo(m: Mem, a: map<Slot, int>, s: Slot): int {
    var p := Parent(s);
    if p in a && a[p] in m && |m[a[p]]| == 512 then m[a[p]][s.prefix % 512] else 0
  }

  /** The entries to tables there were are kept, and each new one allows what `perm` does. */
  ghost predicate Guarded(m: Mem, a: map<Slot, int>, m': Mem, a': map<Slot, int>, perm: int) {
    forall u {:trigger UnfoldTables(u)} :: UnfoldTables(u) ==>
      forall s :: s in a' && s.level < 4 ==>
        if s in a then EntryTo(m', a', s) == EntryTo(m, a, s)
        else
          && (Allows(EntryTo(m', a', s), 2) <==> Allows(perm, 2))
          && (Allows(EntryTo(m', a', s), 4) <==> Allows(perm, 4))
  }

  lemma {:induction false} GuardedNothing(m: Mem, a: map<Slot, int>, perm: int)
    ensures Guarded(m, a, m, a, perm)
  {}

  lemma {:induction false} GuardedTrans(m0: Mem, a0: map<Slot, int>, m1: Mem, a1: map<Slot, int>, m2: Mem,
                                        a2: map<Slot, int>, perm: int)
    requires Guarded(m0, a0, m1, a1, perm) && Guarded(m1, a1, m2, a2, perm) && a0.Keys <= a1.Keys
    ensures Guarded(m0, a0, m2, a2, perm)
  {
    assert UnfoldTables(true);
  }

  lemma {:induction false} OnlyChild(u: Slot, s: Slot, i: int)
    ensures Parent(u) == s && u.prefix % 512 == i ==> u == Child(s, i)
  {}

  lemma {:induction false} GrowGuarded(m: Mem, a: map<Slot, int>, s: Slot, i: int, c: int, perm: int)
    requires Rooted(m, a) && s in a && s.level > 1 && 0 <= i < 512 && Child(s, i) !in a
    requires c !in a.Values && PageAligned(c) && 0 <= perm < PAGE
    ensures a[s] in m && |m[a[s]]| == 512
    ensures Guarded(m, a, Grown(m, a[s], i, c, TableEntry(c, perm)), a[Child(s, i) := c], perm)
  {
    assert UnfoldTables(true);
    assert Shaped(m, a, s) && a[s] in a.Values;
    var m', a' := Grown(m, a[s], i, c, TableEntry(c, perm)), a[Child(s, i) := c];
    ParentOfChild(s, i);
    TableEntryAllows(c, perm);
    forall u | u in a' && u.level < 4 && u != Child(s, i) ensures EntryTo(m', a', u) == EntryTo(m, a, u) {
      assert Shaped(m, a, u) && Shaped(m, a, Parent(u)) && a[Parent(u)] in a.Values;
      OnlyChild(u, s, i);
    }
  }

  /** Writing a last-level entry changes no entry to a table. */
  lemma {:induction false} WriteGuarded(m: Mem, a: map<Slot, int>, s: Slot, i: int, e: int, perm: int)
    requires Rooted(m, a) && s in a && s.level == 1 && 0 <= i < 512
    ensures a[s] in m && |m[a[s]]| == 512 && Guarded(m, a, Written(m, a[s], i, e), a, perm)
  {
    assert UnfoldTables(true);
    assert Shaped(m, a, s);
    forall u | u in a && u.level < 4 ensures EntryTo(Written(m, a[s], i, e), a, u) == EntryTo(m, a, u) {
      assert Shaped(m, a, u) && Shaped(m, a, Parent(u));
    }
  }

  /** All three tables on the way to a page let through bit `b`. */
  ghost predicate LetThrough(m: Mem, a: map<Slot, int>, root: int, va: int, b: int)
    requires b != 0
  {
    forall s :: s in Path(root, va) ==> s in a && Allows(EntryTo(m, a, s), b)
  }

  /** After a walk: the tables that were there decide as before, the new ones as asked. */
  lemma {:induction false} LetThroughAfter(m: Mem, a: map<Slot, int>, m': Mem, a': map<Slot, int>, perm: int,
                                           root: int, va: int, b: int)
    requires Guarded(m, a, m', a', perm) && Path(root, va) <= a'.Keys && (b == 2 || b == 4)
    ensures LetThrough(m', a', root, va, b) <==>
            forall s :: s in Path(root, va) ==> Allows(if s in a then EntryTo(m, a, s) else perm, b)
  {
    assert UnfoldTables(true);
  }

  lemma {:induction false} LetThroughKept(m: Mem, a: map<Slot, int>, m': Mem, a': map<Slot, int>, perm: int,
                                          root: int, va: int, b: int)
    requires Guarded(m, a, m', a', perm) && Path(root, va) <= a.Keys <= a'.Keys && (b == 2 || b == 4)
    ensures LetThrough(m', a', root, va, b) <==> LetThrough(m, a, root, va, b)
  {
    assert UnfoldTables(true);
  }

  /** A page allows what its leaf and all tables on the way let through. */
  ghost predicate EffectiveIn(m: Mem, a: map<Slot, int>, l: Leaves, root: int, va: int, b: int)
    requires b != 0
  {
    Allows(Entry(l, root, PageNo(va)), b) && LetThrough(m, a, root, va, b)
  }

  /** A request is granted `b` if it asks for it and the tables that are there let it through. */
  ghost predicate Grants(m: Mem, a: map<Slot, int>, root: int, va: int, perm: int, b: int)
    requires b != 0
  {
    Allows(perm, b) && forall s :: s in Path(root, va) && s in a ==> Allows(EntryTo(m, a, s), b)
  }

  lemma {:induction false} EffectiveAfter(m: Mem, a: map<Slot, int>, m': Mem, a': map<Slot, int>, l': Leaves,
                                          root: int, va: int, pa: int, perm: int, b: int)
    requires Guarded(m, a, m', a', perm) && Path(root, va) <= a'.Keys && (b == 2 || b == 4)
    requires PageAligned(pa) && 0 <= perm < PAGE && Entry(l', root, PageNo(va)) == LeafEntry(pa, perm)
    ensures EffectiveIn(m', a', l', root, va, b) <==> Grants(m, a, root, va, perm, b)
  {
    LetThroughAfter(m, a, m', a', perm, root, va, b);
    FlagsDecide(pa, perm);
  }

  /** What the pages with tables allow is as before. */
  ghost predicate EffectiveKept(m: Mem, a: map<Slot, int>, l: Leaves, m': Mem, a': map<Slot, int>, l': Leaves,
                                root: int, va: int)
  {
    forall r, w, b :: (b == 2 || b == 4) && Path(r, w) <= a.Keys && (r, PageNo(w)) != (root, PageNo(va)) ==>
      (EffectiveIn(m', a', l', r, w, b) <==> EffectiveIn(m, a, l, r, w, b))
  }

  lemma {:induction false} OthersEffective(m: Mem, a: map<Slot, int>, l: Leaves, m': Mem, a': map<Slot, int>,
                                           l': Leaves, root: int, va: int, perm: int)
    requires Guarded(m, a, m', a', perm) && a.Keys <= a'.Keys
    requires forall r, page :: (r, page) != (root, PageNo(va)) ==> Entry(l', r, page) == Entry(l, r, page)
    ensures EffectiveKept(m, a, l, m', a', l', root, va)
  {
    forall r, w, b | (b == 2 || b == 4) && Path(r, w) <= a.Keys && (r, PageNo(w)) != (root, PageNo(va))
      ensures EffectiveIn(m', a', l', r, w, b) <==> EffectiveIn(m, a, l, r, w, b)
    {
      LetThroughKept(m, a, m', a', perm, r, w, b);
    }
  }

  /** Two requests under one new last-level table: what the first does not ask for the second
      is not granted. */
  lemma {:induction false} FirstDecides(m: Mem, a: map<Slot, int>, m': Mem, a': map<Slot, int>, root: int, va: int,
                                        vb: int, first: int, second: int, b: int)
    requires Guarded(m, a, m', a', first) && Path(root, vb) <= a'.Keys && (b == 2 || b == 4)
    requires LeafSlot(root, PageNo(vb)) !in a
    ensures Grants(m', a', root, vb, second, b) <==> Allows(second, b) && Grants(m, a, root, vb, first, b)
  {
    LetThroughAfter(m, a, m', a', first, root, vb, b);
  }
}
