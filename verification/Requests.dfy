/** Requests to the virtual memory manager and what each of them answers and does, stated on
    region lists, leaves and frames; and what a sequence of them makes of the page-to-flags
    maps of the spaces. */
module Requests {
  import opened Folding
  import opened Numeric
  import opened RegionSpec
  import opened FirstFit
  import opened PageTable
  import opened Coherence
  import opened Vmm

  datatype Request =
    | At(va: int, pages: nat, flags: int)
    | Between(lower: int, upper: int, pages: nat, flags: int)
    | MapTo(va: int, pa: int, flags: int)
    | Release(va: int, pages: nat)

  // ---- the region list ------------------------------------------------------------------------

  /** The list gained the pages of `r`, or lost those of `[lo, hi)`, and nothing else. */
  ghost predicate Gained(s: seq<Range>, t: seq<Range>, r: Range) {
    Tidy(t) && View(t) == View(s) + Cells(r)
  }

  ghost predicate Dropped(s: seq<Range>, t: seq<Range>, lo: int, hi: int) {
    Tidy(t) && View(t) == View(s) - Below(lo, hi)
  }

  /** The arguments keep the assertions of the code, and do not lead outside the canonical
      addresses. */
  ghost predicate Admitted(q: Request, s: seq<Range>) {
    match q
    case At(va, pages, flags) => pages > 0 && PlacedOk(Span(va, pages, flags))
    case Between(lower, upper, pages, flags) => Searchable(s, lower, upper, pages, flags)
    case MapTo(va, pa, flags) => PlacedOk(Span(va, 1, flags)) && PageAligned(pa)
    case Release(va, _) => PageAligned(va) && 0 <= va < U64
  }

  /** For the three requests that name their range: alignment, flags that are present, and a
      range within one half of the canonical addresses. */
  lemma {:induction false} AdmittedSpelled(s: seq<Range>, va: int, pages: nat, pa: int, flags: int)
    ensures Admitted(At(va, pages, flags), s) <==>
            && pages > 0 && va % 0x1000 == 0 && 0 < flags < 0x1000 && flags % 2 == 1
            && (0 <= va <= 0x8000_0000_0000 - pages * 0x1000
                || 0xffff_8000_0000_0000 <= va < 0x1_0000_0000_0000_0000 - pages * 0x1000)
    ensures Admitted(MapTo(va, pa, flags), s) <==> Admitted(At(va, 1, flags), s) && pa % 0x1000 == 0
    ensures Admitted(Release(va, pages), s) <==> va % 0x1000 == 0 && 0 <= va < 0x1_0000_0000_0000_0000
  {
    if pages > 0 { assert (va + pages * 0x1000) % 0x1000 == va % 0x1000; }
  }

  /** Some region holds `va`, and starts there unless nothing is to be taken away. */
  ghost predicate Takable(s: seq<Range>, va: int, stop: int) {
    exists i :: 0 <= i < |s| && Covers(s[i], va) && (stop == va || s[i].start == va)
  }

  /** The answer `r` to a request on the list `s`, and the list `t` it leaves. A request that
      is not admitted is not made. What memory runs out for, and which frames are managed,
      the list alone does not tell. */
  ghost predicate Answered(q: Request, s: seq<Range>, t: seq<Range>, r: Result) {
    if !Admitted(q, s) then r == Null && t == s
    else match q
      case At(va, pages, flags) =>
        var p := Span(va, pages, flags);
        if va == 0 then r == Null && t == s
        else if OverlapsAny(s, p) then r == Overlaps
        else if TouchesNext(s, p) then r == OutOfMemory || r == AlreadyUsed
        else r == OutOfMemory || (r == Ok(va) && Gained(s, t, p))
      case Between(lower, upper, pages, flags) =>
        (match FirstFit.AllocBetween(s, lower, upper, pages, flags)
         case NoPlace => r == Null && t == s
         case Overlapping => r == Overlaps
         case Inverted(p, _) => r == Backwards(p.start)
         case Placed(p, _) => r == OutOfMemory || (r == Ok(p.start) && Gained(s, t, p)))
      case MapTo(va, _, flags) =>
        if OverlapsAny(s, Span(va, 1, flags)) then r == Overlaps
        else r == OutOfMemory || (r == Ok(va) && Gained(s, t, Span(va, 1, flags)))
      case Release(va, pages) =>
        var stop := End(va, pages);
        if va < stop then
          if Uniform(s, va, stop) then r == BadFrame || (r == Ok(va) && Dropped(s, t, va, stop)) else r == NoSuchRange
        else if !Takable(s, va, stop) then r == NoSuchRange
        else if stop == va then r == Ok(va) && t == s
        else r == Backwards(va)
  }

  // ---- leaves and frames ------------------------------------------------------------------------

  /** From `b` to `c` the pages of `p`, unmapped before, each got a frame that was free; other
      frames left the free set only to become tables, and there were enough for both. */
  ghost predicate Filled(b: Before, c: Before, root: int, p: Range) {
    && FilledUpTo(b.l, b.an, c.l, c.an, root, p.start, p.stop, p.flags)
    && Shown(c.l, root, p.start, p.stop) <= b.f
    && c.f == b.f - Shown(c.l, root, p.start, p.stop) - (c.t - b.t) && b.t <= c.t
    && !Lacks(b.f, b.p, root, p)
  }

  /** From `b` to `c` the pages of `[lo, hi)` lost their leaves, and the frames they showed,
      all of them managed, became free. */
  ghost predicate Emptied(b: Before, c: Before, root: int, lo: int, hi: int, managed: set<int>) {
    && (forall va :: PageVa(va) && lo <= va < hi ==> LeafAt(c.l, root, va) == 0)
    && (forall r, va :: PageVa(va) && !(r == root && lo <= va < hi) ==> LeafAt(c.l, r, va) == LeafAt(b.l, r, va))
    && c.an == b.an - PageKeys(root, lo, hi)
    && c.f == b.f + Shown(b.l, root, lo, hi) && c.t == b.t && Shown(b.l, root, lo, hi) <= managed
  }

  /** What a request on the list `s` answered with `r` does to leaves and frames, and what
      the lack of memory or of a managed frame means. */
  ghost predicate Effected(q: Request, s: seq<Range>, b: Before, c: Before, r: Result, root: int, managed: set<int>) {
    && (r.Null? ==> c == b)
    && match q
       case At(va, pages, flags) =>
         && (r.Ok? ==> Filled(b, c, root, Span(va, pages, flags)))
         && (r.OutOfMemory? && !TouchesNext(s, Span(va, pages, flags)) ==>
               Lacks(b.f, b.p, root, Span(va, pages, flags)))
       case Between(lower, upper, pages, flags) =>
         var p := FirstFit.AllocBetween(s, lower, upper, pages, flags);
         && (r.Ok? ==> p.Placed? && Filled(b, c, root, p.r))
         && (r.OutOfMemory? ==> p.Placed? && Lacks(b.f, b.p, root, p.r))
       case MapTo(va, pa, flags) =>
         && (r.Ok? ==>
               && PageAligned(pa) && FlagsOk(flags)
               && c.l == Updated(b.l, root, PageNo(va), LeafEntry(pa, flags)) && c.an == b.an
               && c.f == b.f - (c.t - b.t) && b.t <= c.t && !LacksTables(b.f, b.p, Path(root, va)))
         && (r.OutOfMemory? ==> LacksTables(b.f, b.p, Path(root, va)))
       case Release(va, pages) =>
         && (r.Ok? ==> Emptied(b, c, root, va, End(va, pages), managed))
         && (r.BadFrame? ==> !(Shown(b.l, root, va, End(va, pages)) <= managed))
  }

  /** Both, kept folded. */
  ghost predicate CarriedOut(q: Request, s: seq<Range>, t: seq<Range>, b: Before, c: Before, r: Result, root: int,
                             managed: set<int>)
  {
    forall u {:trigger UnfoldChanges(u)} :: UnfoldChanges(u) ==>
      Answered(q, s, t, r) && Effected(q, s, b, c, r, root, managed)
  }

  lemma {:induction false} CarriedOutMeaning(q: Request, s: seq<Range>, t: seq<Range>, b: Before, c: Before,
                                             r: Result, root: int, managed: set<int>)
    ensures CarriedOut(q, s, t, b, c, r, root, managed) <==>
            Answered(q, s, t, r) && Effected(q, s, b, c, r, root, managed)
  {
    assert UnfoldChanges(true);
  }

  // ---- lemmas for each kind ----------------------------------------------------------------------

  lemma {:induction false} GrewGained(s: seq<Range>, t: seq<Range>, p: Range)
    requires Grew(s, t, p)
    ensures Gained(s, t, p)
  {
    assert UnfoldChanges(true);
  }

  lemma {:induction false} ShrankDropped(s: seq<Range>, t: seq<Range>, lo: int, hi: int)
    requires Shrank(s, t, lo, hi)
    ensures Dropped(s, t, lo, hi)
  {
    assert UnfoldChanges(true);
  }

  /** The frames that filled a range were free, and the rest of what is gone are tables. */
  lemma {:induction false} FilledFrames(b: Before, c: Before, root: int, p: Range)
    requires b.Sound() && c.Sound() && c.Used() == b.Used() && b.t <= c.t && !Lacks(b.f, b.p, root, p)
    requires FilledUpTo(b.l, b.an, c.l, c.an, root, p.start, p.stop, p.flags)
    ensures Filled(b, c, root, p)
  {
    assert UnfoldChanges(true);
    ShownAndKept(c.l, c.an, root, p.start, p.stop);
    ShownApart(c, root, p.start, p.stop);
    TakenFrames(b.f, b.t, b.an.Values, c.f, c.t, Shown(c.l, root, p.start, p.stop));
  }

  lemma {:induction false} ShownApart(c: Before, root: int, lo: int, hi: int)
    requires c.Sound() && PageKeys(root, lo, hi) <= c.an.Keys
    ensures Shown(c.l, root, lo, hi) <= c.an.Values
    ensures Shown(c.l, root, lo, hi) !! (c.an - PageKeys(root, lo, hi)).Values
  {
    forall va | lo <= va < hi && PageVa(va)
      ensures PageAddr(LeafAt(c.l, root, va)) in c.an.Values
      ensures PageAddr(LeafAt(c.l, root, va)) !in (c.an - PageKeys(root, lo, hi)).Values
    {
      assert (root, PageNo(va)) in PageKeys(root, lo, hi);
      AnonymousOwned(c.l, c.t, c.f, c.an, root, lo, hi, va);
    }
  }

  lemma {:induction false} TakenFrames(f0: set<int>, t0: set<int>, a0: set<int>, f: set<int>, t: set<int>, x: set<int>)
    requires f + t + (x + a0) == f0 + t0 + a0 && t0 <= t && x !! a0
    requires f0 !! t0 && f0 !! a0 && t0 !! a0 && f !! t && f !! (x + a0) && t !! (x + a0)
    ensures x <= f0 && f == f0 - x - (t - t0)
  {}

  lemma {:induction false} MappedFrames(b: Before, c: Before)
    requires b.Sound() && c.Sound() && c.Used() == b.Used() && b.t <= c.t && c.an == b.an
    ensures c.f == b.f - (c.t - b.t)
  {
    TakenFrames(b.f, b.t, b.an.Values, c.f, c.t, {});
  }

  lemma {:induction false} DrainedEmptied(b: Before, c: Before, root: int, lo: int, hi: int, managed: set<int>)
    requires DrainedUpTo(b.l, b.an, b.f, c.l, c.an, c.f, root, lo, hi) && c.t == b.t
    requires Shown(b.l, root, lo, hi) <= managed
    ensures Emptied(b, c, root, lo, hi, managed)
  {
    assert UnfoldChanges(true);
    DrainedRewritten(b.l, root, lo, hi);
  }

  /** Nothing to release is nothing released. */
  lemma {:induction false} EmptiedNothing(b: Before, root: int, va: int, managed: set<int>)
    ensures Emptied(b, b, root, va, va, managed)
  {
    assert PageKeys(root, va, va) == {} && Shown(b.l, root, va, va) == {};
  }

  lemma {:induction false} TakableMeaning(s: seq<Range>, va: int, stop: int)
    requires Tidy(s) && stop <= va
    ensures Remove(s, va, stop).Done? <==> Takable(s, va, stop)
  {
    RemoveBackwards(s, va, stop);
    var k := FindIndex(s, va, 0);
    if i :| 0 <= i < |s| && Covers(s[i], va) && (stop == va || s[i].start == va) {
      assert k < |s|;
      NotBoth(s, i, k, va);
    }
  }

  lemma {:induction false} AtCarried(va: int, pages: nat, flags: int, s: seq<Range>, t: seq<Range>, b: Before,
                                     c: Before, r: Result, root: int, managed: set<int>)
    requires pages > 0 && PlacedOk(Span(va, pages, flags)) && va != 0
    requires r == Ok(va) || r == Overlaps || r == OutOfMemory || r == AlreadyUsed
    requires r.Overlaps? <==> OverlapsAny(s, Span(va, pages, flags))
    requires r.AlreadyUsed? ==> TouchesNext(s, Span(va, pages, flags))
    requires r.OutOfMemory? && !TouchesNext(s, Span(va, pages, flags)) ==> Lacks(b.f, b.p, root, Span(va, pages, flags))
    requires r.Ok? ==> !TouchesNext(s, Span(va, pages, flags)) && Gained(s, t, Span(va, pages, flags))
    requires r.Ok? ==> Filled(b, c, root, Span(va, pages, flags))
    ensures CarriedOut(At(va, pages, flags), s, t, b, c, r, root, managed)
  {}

  lemma {:induction false} BetweenCarried(lower: int, upper: int, pages: nat, flags: int, s: seq<Range>,
                                          t: seq<Range>, b: Before, c: Before, r: Result, root: int,
                                          managed: set<int>)
    requires Admitted(Between(lower, upper, pages, flags), s)
    requires var p := FirstFit.AllocBetween(s, lower, upper, pages, flags);
             match p
             case NoPlace => r == Null && t == s && c == b
             case Overlapping => r == Overlaps
             case Inverted(q, _) => r == Backwards(q.start)
             case Placed(q, _) =>
               if Lacks(b.f, b.p, root, q) then r == OutOfMemory
               else r == Ok(q.start) && Gained(s, t, q) && Filled(b, c, root, q)
    ensures CarriedOut(Between(lower, upper, pages, flags), s, t, b, c, r, root, managed)
  {}

  lemma {:induction false} MapCarried(va: int, pa: int, flags: int, s: seq<Range>, t: seq<Range>, b: Before,
                                      c: Before, r: Result, root: int, managed: set<int>)
    requires PlacedOk(Span(va, 1, flags)) && PageAligned(pa)
    requires r == Ok(va) || r == Overlaps || r == OutOfMemory
    requires r.Overlaps? <==> OverlapsAny(s, Span(va, 1, flags))
    requires r.OutOfMemory? ==> LacksTables(b.f, b.p, Path(root, va))
    requires r.Ok? ==> !LacksTables(b.f, b.p, Path(root, va)) && Gained(s, t, Span(va, 1, flags))
    requires r.Ok? ==> c.l == Updated(b.l, root, PageNo(va), LeafEntry(pa, flags)) && c.an == b.an
    requires r.Ok? ==> c.f == b.f - (c.t - b.t) && b.t <= c.t
    ensures CarriedOut(MapTo(va, pa, flags), s, t, b, c, r, root, managed)
  {}

  lemma {:induction false} NotMade(q: Request, s: seq<Range>, b: Before, root: int, managed: set<int>)
    requires !Admitted(q, s) || (q.At? && q.va == 0)
    ensures CarriedOut(q, s, s, b, b, Null, root, managed)
  {}

  // ---- runs of requests ---------------------------------------------------------------------------

  /** A request and the space it is made on. */
  datatype Call = Call(space: nat, q: Request)

  /** The region lists of all spaces, and the leaves, tables and frames. */
  datatype Memory = Memory(lists: seq<seq<Range>>, now: Before)

  /** What does not change during a run: the roots of the spaces, and the frames that can be
      given back. */
  datatype Fixed = Fixed(roots: seq<int>, managed: set<int>)

  /** One call, seen from all spaces. */
  ghost predicate Stepped(x: Memory, call: Call, r: Result, y: Memory, w: Fixed) {
    && call.space < |x.lists| == |y.lists| == |w.roots|
    && CarriedOut(call.q, x.lists[call.space], y.lists[call.space], x.now, y.now, r, w.roots[call.space], w.managed)
    && forall j :: 0 <= j < |x.lists| && j != call.space ==> y.lists[j] == x.lists[j]
  }

  /** The answer with which a run stops at a call. */
  ghost predicate Stopped(x: Memory, call: Call, r: Result, w: Fixed) {
    && call.space < |x.lists| == |w.roots| && !r.Ok? && !r.Null?
    && exists t, c :: CarriedOut(call.q, x.lists[call.space], t, x.now, c, r, w.roots[call.space], w.managed)
  }

  lemma {:induction false} StepOrStop(x: Memory, call: Call, r: Result, y: Memory, w: Fixed)
    requires call.space < |x.lists| == |y.lists| == |w.roots|
    requires CarriedOut(call.q, x.lists[call.space], y.lists[call.space], x.now, y.now, r, w.roots[call.space],
                        w.managed)
    requires forall j :: 0 <= j < |x.lists| && j != call.space ==> y.lists[j] == x.lists[j]
    ensures if r.Ok? || r.Null? then Stepped(x, call, r, y, w) else Stopped(x, call, r, w)
  {}

  /** The memory before each call and after the last, going by the answers. */
  ghost predicate Traced(states: seq<Memory>, calls: seq<Call>, rs: seq<Result>, w: Fixed) {
    && |states| == |calls| + 1 == |rs| + 1
    && (forall n :: 0 <= n < |rs| ==> rs[n].Ok? || rs[n].Null?)
    && forall n :: 0 <= n < |calls| ==> Stepped(states[n], calls[n], rs[n], states[n + 1], w)
  }

  lemma {:induction false} TracedMore(states: seq<Memory>, calls: seq<Call>, rs: seq<Result>, w: Fixed, n: nat,
                                      r: Result, y: Memory)
    requires n < |calls| && Traced(states, calls[..n], rs, w) && (r.Ok? || r.Null?)
    requires Stepped(states[n], calls[n], r, y, w)
    ensures Traced(states + [y], calls[..n + 1], rs + [r], w)
  {
    var s, c, a := states + [y], calls[..n + 1], rs + [r];
    forall m | 0 <= m < |c| ensures Stepped(s[m], c[m], a[m], s[m + 1], w) {
      if m < n { assert c[m] == calls[..n][m] && s[m + 1] == states[m + 1]; }
    }
  }

  /** What a call that was answered with success makes of the page-to-flags map. */
  ghost function Changed(v: iset<(int, int)>, q: Request, r: Result): iset<(int, int)>
    requires r.Ok?
  {
    match q
    case At(va, pages, flags) => v + Cells(Range(va, va + pages * 0x1000, flags))
    case Between(_, _, pages, flags) => v + Cells(Range(r.va, End(r.va, pages), flags))
    case MapTo(va, _, flags) => v + Cells(Range(va, va + 0x1000, flags))
    case Release(va, pages) => v - Below(va, End(va, pages))
  }

  /** The map of space `i` after the calls, plus and minus their ranges in order. */
  ghost function Expected(v: iset<(int, int)>, i: nat, calls: seq<Call>, rs: seq<Result>): iset<(int, int)>
    requires |rs| == |calls| && forall n :: 0 <= n < |rs| ==> rs[n].Ok? || rs[n].Null?
    decreases |calls|
  {
    if calls == [] then v
    else
      var n := |calls| - 1;
      var w := Expected(v, i, calls[..n], rs[..n]);
      if calls[n].space != i || rs[n].Null? then w else Changed(w, calls[n].q, rs[n])
  }

  lemma {:induction false} AnsweredView(q: Request, s: seq<Range>, t: seq<Range>, r: Result)
    requires Answered(q, s, t, r) && (r.Ok? || r.Null?)
    ensures View(t) == if r.Null? then View(s) else Changed(View(s), q, r)
  {
    if r.Ok? && q.Release? && End(q.va, q.pages) == q.va {
      assert Below(q.va, q.va) == iset{};
    }
  }

  lemma {:induction false} TracedBefore(states: seq<Memory>, calls: seq<Call>, rs: seq<Result>, w: Fixed)
    requires Traced(states, calls, rs, w) && calls != []
    ensures var n := |calls| - 1; Traced(states[..n + 1], calls[..n], rs[..n], w)
  {
    var n := |calls| - 1;
    forall m | 0 <= m < n
      ensures Stepped(states[..n + 1][m], calls[..n][m], rs[..n][m], states[..n + 1][m + 1], w)
    {
      assert Stepped(states[m], calls[m], rs[m], states[m + 1], w);
    }
  }

  /** A trace that goes by the answers ends in the expected maps. */
  lemma {:induction false} TraceViews(states: seq<Memory>, calls: seq<Call>, rs: seq<Result>, w: Fixed, i: nat)
    requires Traced(states, calls, rs, w) && i < |states[0].lists|
    ensures |states[|calls|].lists| == |states[0].lists|
    ensures View(states[|calls|].lists[i]) == Expected(View(states[0].lists[i]), i, calls, rs)
  {
    if calls != [] {
      var n := |calls| - 1;
      TracedBefore(states, calls, rs, w);
      TraceViews(states[..n + 1], calls[..n], rs[..n], w, i);
      StepViews(states[n], calls[n], rs[n], states[n + 1], w, i);
    }
  }

  lemma {:induction false} StepViews(x: Memory, call: Call, r: Result, y: Memory, w: Fixed, i: nat)
    requires Stepped(x, call, r, y, w) && i < |x.lists| && (r.Ok? || r.Null?)
    ensures View(y.lists[i]) ==
            if call.space != i || r.Null? then View(x.lists[i]) else Changed(View(x.lists[i]), call.q, r)
  {
    assert UnfoldChanges(true);
    if call.space == i { AnsweredView(call.q, x.lists[i], y.lists[i], r); }
  }
}
