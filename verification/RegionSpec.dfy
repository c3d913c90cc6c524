/** The virtual region list of `kernel/mm/vmm.c`, on values.

    A list is a sequence of half-open ranges with flags. Its meaning is the set of
    (address, flags) pairs it holds. The functions below do what the C functions
    do to the list; the lemmas say what that means for the held pairs. */
module RegionSpec {
  import opened Numeric
  import opened Sequences

  datatype Range = Range(start: int, stop: int, flags: int)

  /** `panic` is an outcome of its own. */
  datatype Outcome<+T> = Done(value: T) | Panic

  predicate Covers(r: Range, a: int) {
    r.start <= a < r.stop
  }

  predicate Overlap(r: Range, q: Range) {
    r.start < q.stop && q.start < r.stop
  }

  ghost predicate Has(s: seq<Range>, a: int, f: int) {
    exists i :: 0 <= i < |s| && Covers(s[i], a) && s[i].flags == f
  }

  /** What a list means: the pairs (address, flags) that it holds. */
  ghost function View(s: seq<Range>): iset<(int, int)> {
    iset c: (int, int) | Has(s, c.0, c.1)
  }

  ghost function Cells(r: Range): iset<(int, int)> {
    iset c: (int, int) | Covers(r, c.0) && c.1 == r.flags
  }

  ghost predicate Sorted(s: seq<Range>) {
    && (forall i :: 0 <= i < |s| ==> s[i].start < s[i].stop)
    && (forall i, j :: 0 <= i < j < |s| ==> s[i].stop <= s[j].start)
  }

  /** No two neighbours could be merged. */
  ghost predicate Merged(s: seq<Range>) {
    forall i, j :: 0 <= i < j < |s| && j == i + 1 && s[i].stop == s[j].start ==> s[i].flags != s[j].flags
  }

  ghost predicate Tidy(s: seq<Range>) {
    Sorted(s) && Merged(s)
  }

  // ---- what the C functions do ------------------------------------------------

  predicate JoinsPrev(s: seq<Range>, k: nat, r: Range)
    requires k <= |s|
  {
    k > 0 && r.start == s[k - 1].stop && r.flags == s[k - 1].flags
  }

  predicate JoinsNext(s: seq<Range>, k: nat, r: Range)
    requires k <= |s|
  {
    k < |s| && r.stop == s[k].start && s[k].flags == r.flags
  }

  /** The single range that replaces `r` and the neighbours it joins. */
  function Joined(s: seq<Range>, k: nat, r: Range): Range
    requires k <= |s|
  {
    Range(if JoinsPrev(s, k, r) then s[k - 1].start else r.start,
          if JoinsNext(s, k, r) then s[k].stop else r.stop,
          r.flags)
  }

  /** The test `vmm_insert_range` makes against the two neighbours. */
  predicate Collides(s: seq<Range>, k: nat, r: Range)
    requires k <= |s|
  {
    (k < |s| && r.stop > s[k].start) || (k > 0 && r.start < s[k - 1].stop)
  }

  function Spliced(s: seq<Range>, k: nat, r: Range): seq<Range>
    requires k <= |s|
  {
    s[..if JoinsPrev(s, k, r) then k - 1 else k] + [Joined(s, k, r)] + s[if JoinsNext(s, k, r) then k + 1 else k..]
  }

  /** The four merge cases of `vmm_insert_range`, as the code writes them. */
  lemma {:induction false} SplicedCases(s: seq<Range>, k: nat, r: Range)
    requires k <= |s|
    ensures var j := Joined(s, k, r);
            Spliced(s, k, r) ==
            if JoinsPrev(s, k, r) then
              if JoinsNext(s, k, r) then RemovedAt(s[k - 1 := j], k) else s[k - 1 := j]
            else
              if JoinsNext(s, k, r) then s[k := j] else InsertedAt(s, k, r)
  {}

  /** `vmm_insert_range` between list positions `k - 1` and `k`. */
  function Insert(s: seq<Range>, k: nat, r: Range): Outcome<seq<Range>>
    requires k <= |s|
  {
    if Collides(s, k, r) then Panic else Done(Spliced(s, k, r))
  }

  /** Where the search loop of `vmm_add_range` stops, with its two-sided test. */
  predicate StopsAt(s: seq<Range>, r: Range, k: nat)
    requires k < |s|
  {
    (k == 0 || r.start > s[k - 1].start) && r.stop < s[k].stop
  }

  function AddIndex(s: seq<Range>, r: Range, k: nat): (n: nat)
    requires k <= |s|
    ensures k <= n <= |s|
    ensures n < |s| ==> StopsAt(s, r, n)
    ensures forall j :: k <= j < n ==> !StopsAt(s, r, j)
    decreases |s| - k
  {
    if k == |s| || StopsAt(s, r, k) then k else AddIndex(s, r, k + 1)
  }

  lemma {:induction false} AddIndexUnique(s: seq<Range>, r: Range, k: nat)
    requires k <= |s| && (k < |s| ==> StopsAt(s, r, k)) && forall j :: 0 <= j < k ==> !StopsAt(s, r, j)
    ensures k == AddIndex(s, r, 0)
  {}

  /** `vmm_add_range` */
  function Add(s: seq<Range>, r: Range): Outcome<seq<Range>> {
    Insert(s, AddIndex(s, r, 0), r)
  }

  /** The search loop of `vmm_remove_range`. */
  function FindIndex(s: seq<Range>, a: int, k: nat): (n: nat)
    requires k <= |s|
    ensures k <= n <= |s|
    ensures n < |s| ==> Covers(s[n], a)
    ensures forall j :: k <= j < n ==> !Covers(s[j], a)
    decreases |s| - k
  {
    if k == |s| || Covers(s[k], a) then k else FindIndex(s, a, k + 1)
  }

  /** The two re-insertions of the split case. */
  function AddBoth(s: seq<Range>, q: Range, a: int, b: int): Outcome<seq<Range>> {
    match Add(s, q.(stop := a))
    case Panic => Panic
    case Done(t) => Add(t, q.(start := b))
  }

  /** `vmm_remove_range`: drop, shrink on either side, or split by two re-insertions. */
  function Remove(s: seq<Range>, a: int, b: int): Outcome<seq<Range>> {
    var k := FindIndex(s, a, 0);
    if k == |s| || b > s[k].stop then Panic
    else if s[k].start == a && s[k].stop == b then Done(RemovedAt(s, k))
    else if s[k].start == a then Done(s[k := s[k].(start := b)])
    else if s[k].stop == b then Done(s[k := s[k].(stop := a)])
    else AddBoth(RemovedAt(s, k), s[k], a, b)
  }

  // ---- the view of a list -----------------------------------------------------

  lemma {:induction false} ViewConcat(s: seq<Range>, t: seq<Range>)
    ensures View(s + t) == View(s) + View(t)
  {
    forall a, f
      ensures Has(s + t, a, f) <==> Has(s, a, f) || Has(t, a, f)
    {
      if Has(s, a, f) {
        var i :| 0 <= i < |s| && Covers(s[i], a) && s[i].flags == f;
        assert (s + t)[i] == s[i];
      }
      if Has(t, a, f) {
        var i :| 0 <= i < |t| && Covers(t[i], a) && t[i].flags == f;
        assert (s + t)[|s| + i] == t[i];
      }
    }
  }

  lemma {:induction false} ViewSingle(r: Range)
    ensures View([r]) == Cells(r)
  {
    assert forall c: (int, int) :: Has([r], c.0, c.1) <==> Covers(r, c.0) && c.1 == r.flags by {
      forall c: (int, int) | Covers(r, c.0) && c.1 == r.flags ensures Has([r], c.0, c.1) {
        assert Covers([r][0], c.0);
      }
    }
  }

  lemma {:induction false} ViewSplice(s: seq<Range>, r: Range, t: seq<Range>)
    ensures View(s + [r] + t) == View(s) + Cells(r) + View(t)
  {
    ViewConcat(s + [r], t);
    ViewConcat(s, [r]);
    ViewSingle(r);
  }

  /** Cutting a list at a region separates what that region holds from the rest. */
  lemma {:induction false} ViewAt(s: seq<Range>, k: nat)
    requires k < |s|
    ensures View(s) == View(s[..k]) + Cells(s[k]) + View(s[k + 1..])
  {}

  lemma {:induction false} HasByIndex(s: seq<Range>, a: int, f: int) returns (i: nat)
    requires Has(s, a, f)
    ensures i < |s| && Covers(s[i], a) && s[i].flags == f
  {
    i :| 0 <= i < |s| && Covers(s[i], a) && s[i].flags == f;
  }

  /** On a sorted list an address has at most one flags value. */
  lemma {:induction false} ViewIsFunction(s: seq<Range>, a: int, f: int, g: int)
    requires Sorted(s) && Has(s, a, f) && Has(s, a, g)
    ensures f == g
  {}

  // ---- tidiness of pieces -----------------------------------------------------

  /** `t` may follow `s` without overlapping it or merging with it. */
  ghost predicate Follows(s: seq<Range>, t: seq<Range>) {
    s != [] && t != [] ==>
      var p, n := s[|s| - 1], t[0];
      p.stop <= n.start && (p.stop == n.start ==> p.flags != n.flags)
  }

  lemma {:induction false} TidyConcat(s: seq<Range>, t: seq<Range>)
    requires Tidy(s) && Tidy(t) && Follows(s, t)
    ensures Tidy(s + t)
  {
    var u := s + t;
    forall i, j | 0 <= i < j < |u| ensures u[i].stop <= u[j].start {
      if i < |s| <= j { InOrderAcross(s, t, i, j - |s|); }
    }
    forall i, j | 0 <= i < j < |u| && j == i + 1 && u[i].stop == u[j].start ensures u[i].flags != u[j].flags {
      if j == |s| { assert u[i] == s[|s| - 1] && u[j] == t[0]; }
    }
  }

  lemma {:induction false} InOrderAcross(s: seq<Range>, t: seq<Range>, i: nat, j: nat)
    requires Sorted(s) && Sorted(t) && Follows(s, t) && i < |s| && j < |t|
    ensures s[i].stop <= t[j].start
  {
    assert s[i].stop <= s[|s| - 1].stop by { if i < |s| - 1 { assert s[i].stop <= s[|s| - 1].start; } }
    assert t[0].start <= t[j].start by { if 0 < j { assert t[0].stop <= t[j].start; } }
  }

  lemma {:induction false} TidySlice(s: seq<Range>, i: nat, j: nat)
    requires Tidy(s) && i <= j <= |s|
    ensures Tidy(s[i..j])
  {}

  lemma {:induction false} TidySplice(s: seq<Range>, m: seq<Range>, t: seq<Range>)
    requires Tidy(s) && Tidy(m) && Tidy(t) && Follows(s, m) && Follows(m, t) && (m == [] ==> Follows(s, t))
    ensures Tidy(s + m + t)
  {
    TidyConcat(s, m);
    assert if m == [] then s + m == s else (s + m)[|s + m| - 1] == m[|m| - 1];
    TidyConcat(s + m, t);
  }

  // ---- insertion --------------------------------------------------------------

  /** `vmm_insert_range` keeps the list tidy and adds exactly the new range,
      whichever of the four merge cases applies. */
  lemma {:induction false} InsertCorrect(s: seq<Range>, k: nat, r: Range)
    requires Tidy(s) && k <= |s| && r.start < r.stop && !Collides(s, k, r)
    ensures Tidy(Spliced(s, k, r))
    ensures View(Spliced(s, k, r)) == View(s) + Cells(r)
  {
    InsertTidy(s, k, r);
    var lo := if JoinsPrev(s, k, r) then k - 1 else k;
    var hi := if JoinsNext(s, k, r) then k + 1 else k;
    ViewSplice(s[..lo], Joined(s, k, r), s[hi..]);
    ViewThreeWay(s, lo, k, hi);
    JoinedCells(s, k, r, lo, hi);
  }

  lemma {:induction false} ViewThreeWay(s: seq<Range>, lo: nat, k: nat, hi: nat)
    requires lo <= k <= hi <= |s|
    ensures View(s) == View(s[..lo]) + View(s[lo..k]) + View(s[k..hi]) + View(s[hi..])
  {
    assert s == s[..lo] + s[lo..k] + s[k..hi] + s[hi..];
    ViewConcat(s[..lo] + s[lo..k] + s[k..hi], s[hi..]);
    ViewConcat(s[..lo] + s[lo..k], s[k..hi]);
    ViewConcat(s[..lo], s[lo..k]);
  }

  lemma {:induction false} JoinedCells(s: seq<Range>, k: nat, r: Range, lo: nat, hi: nat)
    requires Sorted(s) && k <= |s| && r.start < r.stop && !Collides(s, k, r)
    requires lo == (if JoinsPrev(s, k, r) then k - 1 else k)
    requires hi == (if JoinsNext(s, k, r) then k + 1 else k)
    ensures Cells(Joined(s, k, r)) == View(s[lo..k]) + Cells(r) + View(s[k..hi])
  {
    if lo < k { ViewSingle(s[lo]); assert s[lo..k] == [s[lo]]; } else { assert s[lo..k] == []; }
    if k < hi { ViewSingle(s[k]); assert s[k..hi] == [s[k]]; } else { assert s[k..hi] == []; }
  }

  lemma {:induction false} InsertTidy(s: seq<Range>, k: nat, r: Range)
    requires Tidy(s) && k <= |s| && r.start < r.stop && !Collides(s, k, r)
    ensures Tidy(Spliced(s, k, r))
  {
    var lo := if JoinsPrev(s, k, r) then k - 1 else k;
    var hi := if JoinsNext(s, k, r) then k + 1 else k;
    JoinedBetween(s, k, r, lo, hi);
    TidyAround(s, lo, Joined(s, k, r), hi);
  }

  lemma {:induction false} TidyAround(s: seq<Range>, lo: nat, q: Range, hi: nat)
    requires Tidy(s) && lo <= hi <= |s| && q.start < q.stop && Follows(s[..lo], [q]) && Follows([q], s[hi..])
    ensures Tidy(s[..lo] + [q] + s[hi..])
  {
    TidySlice(s, 0, lo);
    TidySlice(s, hi, |s|);
    TidySplice(s[..lo], [q], s[hi..]);
  }

  lemma {:induction false} JoinedBetween(s: seq<Range>, k: nat, r: Range, lo: nat, hi: nat)
    requires Tidy(s) && k <= |s| && r.start < r.stop && !Collides(s, k, r)
    requires lo == (if JoinsPrev(s, k, r) then k - 1 else k) && hi == (if JoinsNext(s, k, r) then k + 1 else k)
    ensures var q := Joined(s, k, r); q.start < q.stop && Follows(s[..lo], [q]) && Follows([q], s[hi..])
  {}

  /** `vmm_add_range` panics exactly when the new range overlaps some region. */
  lemma {:induction false} AddPanicsIffOverlap(s: seq<Range>, r: Range)
    requires Sorted(s) && r.start < r.stop
    ensures Add(s, r).Panic? <==> exists i :: 0 <= i < |s| && Overlap(r, s[i])
  {
    var k := AddIndex(s, r, 0);
    if Collides(s, k, r) {
      if k == |s| && r.stop <= s[k - 1].start {
        SwallowedOverlap(s, r, k - 1);
      } else if k < |s| && r.stop > s[k].start {
        assert Overlap(r, s[k]);
      } else {
        assert Overlap(r, s[k - 1]);
      }
    } else {
      assert forall i :: 0 <= i < k ==> s[i].stop <= r.start;
      assert forall i :: k <= i < |s| ==> r.stop <= s[i].start;
    }
  }

  /** The loop can only walk past a region lying wholly above the range when the
      range swallows the start of an earlier one. */
  lemma {:induction false} SwallowedOverlap(s: seq<Range>, r: Range, i: nat)
    requires Sorted(s) && r.start < r.stop && i < |s|
    requires forall j :: 0 <= j <= i ==> !StopsAt(s, r, j)
    requires r.stop <= s[i].start
    ensures exists j :: 0 <= j < |s| && Overlap(r, s[j])
  {
    assert !StopsAt(s, r, i) && s[i].start < s[i].stop;
    if r.stop > s[i - 1].start {
      assert Overlap(r, s[i - 1]);
    } else {
      SwallowedOverlap(s, r, i - 1);
    }
  }

  lemma {:induction false} AddCorrect(s: seq<Range>, r: Range)
    requires Tidy(s) && r.start < r.stop
    ensures Add(s, r).Panic? <==> exists i :: 0 <= i < |s| && Overlap(r, s[i])
    ensures Add(s, r).Done? ==> Tidy(Add(s, r).value) && View(Add(s, r).value) == View(s) + Cells(r)
    ensures Add(s, r).Done? ==> View(s) !! Cells(r)
  {
    AddPanicsIffOverlap(s, r);
    if Add(s, r).Done? {
      InsertCorrect(s, AddIndex(s, r, 0), r);
      forall c: (int, int) | c in View(s) ensures c !in Cells(r) {
        var i := HasByIndex(s, c.0, c.1);
        assert !Overlap(r, s[i]);
      }
    }
  }

  // ---- removal ----------------------------------------------------------------

  /** All addresses of `[a, b)` are held under one flags value. */
  ghost predicate Uniform(s: seq<Range>, a: int, b: int) {
    exists f :: Cells(Range(a, b, f)) <= View(s)
  }

  ghost function Below(a: int, b: int): iset<(int, int)> {
    iset c: (int, int) | a <= c.0 < b
  }

  lemma {:induction false} CoveringIndexUnique(s: seq<Range>, i: nat, j: nat, a: int)
    requires Sorted(s) && i < |s| && j < |s| && Covers(s[i], a) && Covers(s[j], a)
    ensures i == j
  {}

  /** Only the next region can hold the address where a region stops. */
  lemma {:induction false} StopCoveredByNext(s: seq<Range>, k: nat, j: nat)
    requires Sorted(s) && k < |s| && j < |s| && Covers(s[j], s[k].stop)
    ensures j == k + 1 && s[j].start == s[k].stop
  {
    assert s[k].start < s[k].stop;
    assert k + 1 < |s| ==> s[k].stop <= s[k + 1].start < s[k + 1].stop;
  }

  lemma {:induction false} UniformWithinRegion(s: seq<Range>, k: nat, a: int, b: int)
    requires Tidy(s) && k < |s| && Covers(s[k], a) && a < b && Uniform(s, a, b)
    ensures b <= s[k].stop
  {
    var f :| Cells(Range(a, b, f)) <= View(s);
    assert (a, f) in Cells(Range(a, b, f));
    var i := HasByIndex(s, a, f);
    CoveringIndexUnique(s, i, k, a);
    var e := Min(s[k].stop, b - 1);
    assert (e, f) in Cells(Range(a, b, f));
    var j := HasByIndex(s, e, f);
    if e == s[k].stop {
      StopCoveredByNext(s, k, j);
    }
  }

  /** On a tidy list the removal succeeds exactly on ranges held under one flags value. */
  lemma {:induction false} RemovePanicsIff(s: seq<Range>, a: int, b: int)
    requires Tidy(s) && a < b
    ensures FindIndex(s, a, 0) < |s| && b <= s[FindIndex(s, a, 0)].stop <==> Uniform(s, a, b)
  {
    var k := FindIndex(s, a, 0);
    if k < |s| && b <= s[k].stop {
      ViewAt(s, k);
      assert Cells(Range(a, b, s[k].flags)) <= Cells(s[k]);
    }
    if Uniform(s, a, b) {
      var f :| Cells(Range(a, b, f)) <= View(s);
      assert (a, f) in Cells(Range(a, b, f));
      var i := HasByIndex(s, a, f);
      UniformWithinRegion(s, k, a, b);
    }
  }

  /** Regions other than the one holding `a` hold nothing in the removed range. */
  lemma {:induction false} OthersUntouched(s: seq<Range>, k: nat, a: int, b: int)
    requires Sorted(s) && k < |s| && s[k].start <= a < b <= s[k].stop
    ensures View(s) - Below(a, b) == View(s[..k]) + (Cells(s[k]) - Below(a, b)) + View(s[k + 1..])
  {}

  /** The search stops at `k` when everything before lies below and position `k` above. */
  lemma {:induction false} AddIndexAt(s: seq<Range>, r: Range, k: nat)
    requires Sorted(s) && k <= |s| && r.start < r.stop
    requires k > 0 ==> s[k - 1].stop <= r.start
    requires k < |s| ==> r.stop <= s[k].start
    ensures AddIndex(s, r, 0) == k
  {
    assert forall j :: 0 <= j < k ==> s[j].stop <= r.start;
    assert k > 0 ==> s[k - 1].start < s[k - 1].stop;
    assert k < |s| ==> StopsAt(s, r, k);
  }

  /** Splitting: the two re-insertions land side by side where the region was. */
  lemma {:induction false} SplitLeft(s: seq<Range>, k: nat, a: int)
    requires Tidy(s) && k < |s| && s[k].start < a < s[k].stop
    ensures Add(RemovedAt(s, k), s[k].(stop := a)) == Done(s[k := s[k].(stop := a)])
  {
    var w, l := RemovedAt(s, k), s[k].(stop := a);
    assert Sorted(w);
    assert k > 0 ==> w[k - 1] == s[k - 1];
    assert k < |w| ==> w[k] == s[k + 1];
    AddIndexAt(w, l, k);
    assert w[..k] == s[..k] && w[k..] == s[k + 1..];
    assert k > 0 ==> s[k - 1].stop <= s[k].start;
    assert !JoinsPrev(w, k, l) && !JoinsNext(w, k, l);
    assert s[k := l] == s[..k] + [l] + s[k + 1..];
  }

  lemma {:induction false} SplitRight(s: seq<Range>, k: nat, a: int, b: int)
    requires Tidy(s) && k < |s| && s[k].start < a < b < s[k].stop
    ensures var l, r := s[k].(stop := a), s[k].(start := b);
            Add(s[k := l], r) == Done(s[..k] + [l, r] + s[k + 1..])
  {
    var l, r := s[k].(stop := a), s[k].(start := b);
    var t := s[k := l];
    assert Sorted(t);
    assert k + 1 < |t| ==> t[k + 1] == s[k + 1];
    AddIndexAt(t, r, k + 1);
    assert t[..k + 1] == s[..k] + [l] && t[k + 1..] == s[k + 1..];
    assert !JoinsPrev(t, k + 1, r) && !JoinsNext(t, k + 1, r);
    assert s[..k] + [l] + [r] + s[k + 1..] == s[..k] + [l, r] + s[k + 1..];
  }

  /** Taking nothing out of the middle of a region splits it and joins it again. */
  lemma {:induction false} SplitNothing(s: seq<Range>, k: nat, a: int)
    requires Tidy(s) && k < |s| && s[k].start < a < s[k].stop
    ensures Add(s[k := s[k].(stop := a)], s[k].(start := a)) == Done(s)
  {
    var l, r := s[k].(stop := a), s[k].(start := a);
    var t := s[k := l];
    assert Sorted(t);
    assert k + 1 < |t| ==> t[k + 1] == s[k + 1];
    AddIndexAt(t, r, k + 1);
    assert t[..k] == s[..k] && t[k + 1..] == s[k + 1..];
    assert JoinsPrev(t, k + 1, r) && !JoinsNext(t, k + 1, r);
    assert Joined(t, k + 1, r) == s[k];
    assert s == s[..k] + [s[k]] + s[k + 1..];
  }

  lemma {:induction false} SplitBackwards(s: seq<Range>, k: nat, a: int, b: int)
    requires Tidy(s) && k < |s| && s[k].start < a < s[k].stop && b <= a
    ensures AddBoth(RemovedAt(s, k), s[k], a, b) == if b == a then Done(s) else Panic
  {
    SplitLeft(s, k, a);
    if b == a {
      SplitNothing(s, k, a);
    } else {
      OverlapsLeft(s, k, a, b);
    }
  }

  lemma {:induction false} OverlapsLeft(s: seq<Range>, k: nat, a: int, b: int)
    requires Tidy(s) && k < |s| && s[k].start < a < s[k].stop && b < a
    ensures Add(s[k := s[k].(stop := a)], s[k].(start := b)).Panic?
  {
    var t, r := s[k := s[k].(stop := a)], s[k].(start := b);
    assert Sorted(t) && Overlap(r, t[k]);
    AddPanicsIffOverlap(t, r);
  }

  /** `vmm_remove_range` with an end that is not above the start: nothing changes when the
      two are equal; otherwise it panics, unless a region starts there, which then starts
      at that end instead. */
  lemma {:induction false} RemoveBackwards(s: seq<Range>, a: int, b: int)
    requires Tidy(s) && b <= a
    ensures var k := FindIndex(s, a, 0);
            && (Remove(s, a, b).Done? <==> k < |s| && (b == a || s[k].start == a))
            && (Remove(s, a, b).Done? ==> Remove(s, a, b).value == if b == a then s else s[k := s[k].(start := b)])
  {
    var k := FindIndex(s, a, 0);
    if k < |s| && s[k].start < a { SplitBackwards(s, k, a, b); }
  }

  /** The closed form of a successful removal. */
  function Remnants(q: Range, a: int, b: int): seq<Range> {
    (if q.start < a then [q.(stop := a)] else []) + (if b < q.stop then [q.(start := b)] else [])
  }

  lemma {:induction false} RemoveClosedForm(s: seq<Range>, a: int, b: int)
    requires Tidy(s) && a < b && Remove(s, a, b).Done?
    ensures var k := FindIndex(s, a, 0);
            && k < |s| && s[k].start <= a < b <= s[k].stop
            && Remove(s, a, b).value == s[..k] + Remnants(s[k], a, b) + s[k + 1..]
  {
    var k := FindIndex(s, a, 0);
    if s[k].start < a && b < s[k].stop {
      SplitClosed(s, k, a, b);
    } else {
      OneRemnant(s, k, a, b);
    }
  }

  lemma {:induction false} SplitClosed(s: seq<Range>, k: nat, a: int, b: int)
    requires Tidy(s) && k < |s| && s[k].start < a < b < s[k].stop
    ensures AddBoth(RemovedAt(s, k), s[k], a, b) == Done(s[..k] + Remnants(s[k], a, b) + s[k + 1..])
  {
    SplitLeft(s, k, a);
    SplitRight(s, k, a, b);
    assert Remnants(s[k], a, b) == [s[k].(stop := a), s[k].(start := b)];
  }

  lemma {:induction false} OneRemnant(s: seq<Range>, k: nat, a: int, b: int)
    requires k < |s| && (s[k].start == a < b <= s[k].stop || s[k].start <= a < b == s[k].stop)
    ensures s[..k] + Remnants(s[k], a, b) + s[k + 1..] ==
            if s[k].start == a && s[k].stop == b then RemovedAt(s, k)
            else if s[k].start == a then s[k := s[k].(start := b)]
            else s[k := s[k].(stop := a)]
  {
    var q := s[k];
    if q.start == a && q.stop == b {
      assert Remnants(q, a, b) == [];
    } else if q.start == a {
      assert Remnants(q, a, b) == [q.(start := b)];
    } else {
      assert Remnants(q, a, b) == [q.(stop := a)];
    }
  }

  lemma {:induction false} RemnantsTidy(s: seq<Range>, k: nat, a: int, b: int)
    requires Tidy(s) && k < |s| && s[k].start <= a < b <= s[k].stop
    ensures Tidy(s[..k] + Remnants(s[k], a, b) + s[k + 1..])
  {
    TidySlice(s, 0, k);
    TidySlice(s, k + 1, |s|);
    RemnantsBetween(s, k, a, b);
    TidySplice(s[..k], Remnants(s[k], a, b), s[k + 1..]);
  }

  lemma {:induction false} RemnantsBetween(s: seq<Range>, k: nat, a: int, b: int)
    requires Tidy(s) && k < |s| && s[k].start <= a < b <= s[k].stop
    ensures var m := Remnants(s[k], a, b);
            && Tidy(m) && Follows(s[..k], m) && Follows(m, s[k + 1..]) && (m == [] ==> Follows(s[..k], s[k + 1..]))
  {
    assert k > 0 ==> s[k - 1].stop <= s[k].start;
    assert k + 1 < |s| ==> s[k].stop <= s[k + 1].start;
  }

  lemma {:induction false} RemnantsMeaning(s: seq<Range>, k: nat, a: int, b: int)
    requires Tidy(s) && k < |s| && s[k].start <= a < b <= s[k].stop
    ensures View(s[..k] + Remnants(s[k], a, b) + s[k + 1..]) == View(s) - Below(a, b)
  {
    var m := Remnants(s[k], a, b);
    ViewConcat(s[..k] + m, s[k + 1..]);
    ViewConcat(s[..k], m);
    OthersUntouched(s, k, a, b);
    RemnantsView(s[k], a, b);
  }

  lemma {:induction false} RemnantsView(q: Range, a: int, b: int)
    requires q.start <= a < b <= q.stop
    ensures View(Remnants(q, a, b)) == Cells(q) - Below(a, b)
  {
    var l := if q.start < a then [q.(stop := a)] else [];
    var r := if b < q.stop then [q.(start := b)] else [];
    ViewConcat(l, r);
    ViewSingle(q.(stop := a));
    ViewSingle(q.(start := b));
  }

  /** `vmm_remove_range` of a nonempty range on a tidy list. */
  lemma {:induction false} RemoveCorrect(s: seq<Range>, a: int, b: int)
    requires Tidy(s) && a < b
    ensures Remove(s, a, b).Done? <==> Uniform(s, a, b)
    ensures Remove(s, a, b).Done? ==>
              Tidy(Remove(s, a, b).value) && View(Remove(s, a, b).value) == View(s) - Below(a, b)
  {
    RemovePanicsIff(s, a, b);
    var k := FindIndex(s, a, 0);
    if Uniform(s, a, b) {
      if s[k].start < a && b < s[k].stop {
        SplitLeft(s, k, a);
        SplitRight(s, k, a, b);
      }
      RemoveClosedForm(s, a, b);
      RemnantsTidy(s, k, a, b);
      RemnantsMeaning(s, k, a, b);
    }
  }

  // ---- uniqueness -------------------------------------------------------------

  /** A tidy list is the only tidy list with its meaning. */
  lemma {:induction false} TidyUnique(s: seq<Range>, t: seq<Range>)
    requires Tidy(s) && Tidy(t) && View(s) == View(t)
    ensures s == t
  {
    if s == [] || t == [] {
      if s != [] { FirstCell(s); }
      if t != [] { FirstCell(t); }
    } else {
      FirstCell(s);
      FirstCell(t);
      FirstStop(s, t);
      FirstStop(t, s);
      assert s[0] == t[0];
      TailView(s);
      TailView(t);
      TidyUnique(s[1..], t[1..]);
      assert s == [s[0]] + s[1..] && t == [t[0]] + t[1..];
    }
  }

  /** The first region starts at the least held address. */
  lemma {:induction false} FirstCell(s: seq<Range>)
    requires Tidy(s) && s != []
    ensures (s[0].start, s[0].flags) in View(s)
    ensures forall c: (int, int) :: c in View(s) ==> s[0].start <= c.0
    ensures forall c: (int, int) :: c in View(s) && c.0 == s[0].start ==> c.1 == s[0].flags
  {}

  lemma {:induction false} FirstStop(s: seq<Range>, t: seq<Range>)
    requires Tidy(s) && Tidy(t) && s != [] && t != [] && View(s) == View(t)
    requires s[0].start == t[0].start && s[0].flags == t[0].flags
    ensures s[0].stop >= t[0].stop
  {
    var e := Min(s[0].stop, t[0].stop - 1);
    assert Covers(t[0], e);
    assert (e, t[0].flags) in View(t);
    var j := HasByIndex(s, e, t[0].flags);
    if e == s[0].stop {
      StopCoveredByNext(s, 0, j);
    }
  }

  lemma {:induction false} TailView(s: seq<Range>)
    requires Tidy(s) && s != []
    ensures View(s[1..]) == View(s) - Cells(s[0])
    ensures Tidy(s[1..])
  {}

  /** Adding a range and removing it again restores the very same list, also
      when the insertion merged with both neighbours. */
  lemma {:induction false} AddThenRemove(s: seq<Range>, r: Range)
    requires Tidy(s) && r.start < r.stop && Add(s, r).Done?
    ensures Remove(Add(s, r).value, r.start, r.stop) == Done(s)
  {
    AddCorrect(s, r);
    var t := Add(s, r).value;
    assert Cells(Range(r.start, r.stop, r.flags)) <= View(t);
    RemoveCorrect(t, r.start, r.stop);
    forall c: (int, int) | c in View(s) ensures c !in Below(r.start, r.stop) {
      var i := HasByIndex(s, c.0, c.1);
      assert !Overlap(r, s[i]);
    }
    TidyUnique(Remove(t, r.start, r.stop).value, s);
  }
}
