/** The doubly linked region list of `kernel/mm/vmm.c`: nodes updated in place,
    proved to do to the list what `RegionSpec` says. Region objects come from
    `new` instead of the block allocator of the kernel. */
module RegionList {
  import opened Folding
  import opened Sequences
  import opened RegionSpec

  class Region {
    var start: int
    var stop: int
    var flags: int
    var next: Region?
    var prev: Region?

    constructor (r: Range, prev: Region?, next: Region?)
      ensures Value() == r && this.prev == prev && this.next == next
    {
      start, stop, flags := r.start, r.stop, r.flags;
      this.prev, this.next := prev, next;
    }

    function Value(): Range
      reads this
    {
      Range(start, stop, flags)
    }
  }

  ghost function At(s: seq<Region>, i: int): Region? {
    if 0 <= i < |s| then s[i] else null
  }

  ghost predicate Shows(s: seq<Region>, v: seq<Range>)
    reads s
  {
    |s| == |v| && forall i :: 0 <= i < |s| ==> s[i].Value() == v[i]
  }

  ghost predicate Forward(s: seq<Region>)
    reads s
  {
    forall i {:trigger s[i].next} :: 0 <= i < |s| ==> s[i].next == At(s, i + 1)
  }

  ghost predicate Backward(s: seq<Region>)
    reads s
  {
    forall i {:trigger s[i].prev} :: 0 <= i < |s| ==> s[i].prev == At(s, i - 1)
  }

  // ---- linking one node in or out ---------------------------------------------

  lemma {:induction false} ForwardInserted(s: seq<Region>, k: nat, x: Region)
    requires k <= |s| && x.next == At(s, k)
    requires forall i {:trigger s[i].next} :: 0 <= i < |s| ==> s[i].next == if i == k - 1 then x else At(s, i + 1)
    ensures Forward(InsertedAt(s, k, x))
  {}

  lemma {:induction false} BackwardInserted(s: seq<Region>, k: nat, x: Region)
    requires k <= |s| && x.prev == At(s, k - 1)
    requires forall i {:trigger s[i].prev} :: 0 <= i < |s| ==> s[i].prev == if i == k then x else At(s, i - 1)
    ensures Backward(InsertedAt(s, k, x))
  {}

  lemma {:induction false} ShowsInserted(s: seq<Region>, v: seq<Range>, k: nat, x: Region)
    requires k <= |s| && Shows(s, v)
    ensures Shows(InsertedAt(s, k, x), InsertedAt(v, k, x.Value()))
  {}

  lemma {:induction false} ForwardRemoved(s: seq<Region>, k: nat)
    requires k < |s|
    requires forall i {:trigger s[i].next} :: 0 <= i < |s| ==>
               s[i].next == if i == k - 1 then At(s, k + 1) else At(s, i + 1)
    ensures Forward(RemovedAt(s, k))
  {}

  lemma {:induction false} BackwardRemoved(s: seq<Region>, k: nat)
    requires k < |s|
    requires forall i {:trigger s[i].prev} :: 0 <= i < |s| ==>
               s[i].prev == if i == k + 1 then At(s, k - 1) else At(s, i - 1)
    ensures Backward(RemovedAt(s, k))
  {}

  lemma {:induction false} ShowsRemoved(s: seq<Region>, v: seq<Range>, k: nat)
    requires k < |s| && Shows(s, v)
    ensures Shows(RemovedAt(s, k), RemovedAt(v, k))
  {}

  class Space {
    /** Physical address of the top-level page table. */
    const root: int
    var region: Region?
    /** The nodes in list order, and the values they hold. */
    ghost var nodes: seq<Region>
    ghost var ranges: seq<Range>

    constructor (root: int)
      ensures Linked() && ranges == [] && this.root == root && nodes == []
    {
      this.root := root;
      region := null;
      nodes, ranges := [], [];
    }

    /** `next` and `prev` are inverse to each other along the whole list. */
    ghost predicate Linked()
      reads this, nodes
    {
      forall u {:trigger UnfoldLinks(u)} :: UnfoldLinks(u) ==> Links()
    }

    ghost predicate Links()
      reads this, nodes
    {
      && Distinct(nodes) && region == At(nodes, 0)
      && Forward(nodes) && Backward(nodes) && Shows(nodes, ranges)
    }

    /** `vmm_create_region` */
    method CreateRegion(r: Range, prev: Region?, next: Region?, ghost k: nat) returns (x: Region)
      requires Links() && k <= |nodes| && prev == At(nodes, k - 1) && next == At(nodes, k)
      modifies this, nodes`next, nodes`prev
      ensures Links() && fresh(x) && nodes == InsertedAt(old(nodes), k, x)
      ensures ranges == InsertedAt(old(ranges), k, r)
      ensures forall n :: n in nodes ==> n in old(nodes) || n == x
    {
      x := new Region(r, prev, next);
      if prev == null {
        region := x;
      }
      if x.prev != null {
        x.prev.next := x;
      }
      if x.next != null {
        x.next.prev := x;
      }
      ghost var was, held := nodes, ranges;
      nodes, ranges := InsertedAt(was, k, x), InsertedAt(held, k, r);
      DistinctInserted(was, k, x);
      ForwardInserted(was, k, x);
      BackwardInserted(was, k, x);
      ShowsInserted(was, held, k, x);
    }

    /** `vmm_remove_region` */
    method RemoveRegion(x: Region, ghost k: nat)
      requires Links() && k < |nodes| && x == nodes[k]
      modifies this, nodes`next, nodes`prev
      ensures Links() && nodes == RemovedAt(old(nodes), k) && ranges == RemovedAt(old(ranges), k)
      ensures forall n :: n in nodes ==> n in old(nodes)
    {
      if x.prev == null && x.next == null {
        region := null;
      } else {
        if region == x {
          region := x.next;
        }
        if x.prev != null {
          x.prev.next := x.next;
        }
        if x.next != null {
          x.next.prev := x.prev;
        }
      }
      ghost var was, held := nodes, ranges;
      nodes, ranges := RemovedAt(was, k), RemovedAt(held, k);
      DistinctRemoved(was, k);
      ForwardRemoved(was, k);
      BackwardRemoved(was, k);
      ShowsRemoved(was, held, k);
    }

    /** Changes the bounds of one region, as the merge and shrink cases do. */
    method Resize(x: Region, start: int, stop: int, ghost k: nat)
      requires Links() && k < |nodes| && x == nodes[k]
      modifies x`start, x`stop, this`ranges
      ensures Links() && ranges == old(ranges)[k := Range(start, stop, x.flags)]
    {
      x.start, x.stop := start, stop;
      ranges := ranges[k := x.Value()];
    }

    /** `vmm_insert_range`; null stands for the overlap panic. */
    method InsertRange(prev: Region?, next: Region?, r: Range, ghost k: nat) returns (x: Region?)
      requires Linked() && k <= |nodes| == |ranges| && prev == At(nodes, k - 1) && next == At(nodes, k)
      modifies this, nodes
      ensures x == null <==> Collides(old(ranges), k, r)
      ensures x == null ==> unchanged(this) && unchanged(old(nodes))
      ensures x != null ==> Linked() && ranges == Spliced(old(ranges), k, r)
      ensures x != null ==> x in nodes && x.Value() == Joined(old(ranges), k, r)
      ensures forall n :: n in nodes ==> n in old(nodes) || fresh(n)
    {
      assert UnfoldLinks(true);
      assert prev != null ==> prev.Value() == ranges[k - 1];
      assert next != null ==> next.Value() == ranges[k];
      SplicedCases(ranges, k, r);
      if next != null && r.stop > next.start {
        return null;
      }
      if prev != null && r.start < prev.stop {
        return null;
      }
      var withPrev := prev != null && r.start == prev.stop && r.flags == prev.flags;
      var withNext := next != null && r.stop == next.start && next.flags == r.flags;
      if withPrev && withNext {
        Resize(prev, prev.start, next.stop, k - 1);
        RemoveRegion(next, k);
        return prev;
      }
      if withPrev {
        Resize(prev, prev.start, r.stop, k - 1);
        return prev;
      }
      if withNext {
        Resize(next, r.start, next.stop, k);
        return next;
      }
      x := CreateRegion(r, prev, next, k);
    }

    /** `vmm_add_range`; null stands for the overlap panic. */
    method AddRange(r: Range) returns (x: Region?)
      requires Linked()
      modifies this, nodes
      ensures x == null <==> Add(old(ranges), r).Panic?
      ensures x == null ==> unchanged(this) && unchanged(old(nodes))
      ensures x != null ==> Linked() && Done(ranges) == Add(old(ranges), r)
      ensures x != null ==> x in nodes
      ensures x != null ==> x.Value() == Joined(old(ranges), AddIndex(old(ranges), r, 0), r)
      ensures forall n :: n in nodes ==> n in old(nodes) || fresh(n)
    {
      assert UnfoldLinks(true);
      if region == null {
        x := CreateRegion(r, null, null, 0);
        return;
      }
      var prev: Region?, cur: Region? := null, region;
      ghost var k := 0;
      while cur != null
        invariant k <= |nodes| && prev == At(nodes, k - 1) && cur == At(nodes, k)
        invariant forall j :: 0 <= j < k ==> !StopsAt(ranges, r, j)
        decreases |nodes| - k
      {
        assert cur.Value() == ranges[k] && (prev != null ==> prev.Value() == ranges[k - 1]);
        var afterPrev := prev == null || r.start > prev.start;
        var beforeCur := r.stop < cur.stop;
        if afterPrev && beforeCur {
          break;
        }
        prev := cur;
        cur := cur.next;
        k := k + 1;
      }
      AddIndexUnique(ranges, r, k);
      x := InsertRange(prev, cur, r, k);
    }

    lemma {:induction false} SameLength()
      requires Linked()
      ensures |nodes| == |ranges|
    {
      assert UnfoldLinks(true);
    }

    /** The first node, and what a node holds and points to: one step of a list walk. */
    method First() returns (x: Region?)
      requires Linked()
      ensures x == At(nodes, 0) && |nodes| == |ranges|
    {
      assert UnfoldLinks(true);
      x := region;
    }

    method Visit(x: Region, ghost k: nat) returns (v: Range, next: Region?)
      requires Linked() && k < |nodes| == |ranges| && x == nodes[k]
      ensures v == ranges[k] && next == At(nodes, k + 1)
    {
      assert UnfoldLinks(true);
      v, next := x.Value(), x.next;
    }

    /** The search loop of `vmm_remove_range`. */
    method FindRegion(a: int) returns (x: Region?, ghost k: nat)
      requires Linked()
      ensures x == At(nodes, FindIndex(ranges, a, 0)) && k == FindIndex(ranges, a, 0)
    {
      assert UnfoldLinks(true);
      x, k := region, 0;
      while x != null
        invariant k <= |nodes| && x == At(nodes, k)
        invariant forall j :: 0 <= j < k ==> !Covers(ranges[j], a)
        decreases |nodes| - k
      {
        if a >= x.start && a < x.stop {
          break;
        }
        x := x.next;
        k := k + 1;
      }
    }

    /** `vmm_remove_range`; false stands for a panic. */
    method RemoveRange(a: int, b: int) returns (ok: bool)
      requires Linked()
      modifies this, nodes
      ensures ok <==> Remove(old(ranges), a, b).Done?
      ensures ok ==> Linked() && Done(ranges) == Remove(old(ranges), a, b)
      ensures forall n :: n in nodes ==> n in old(nodes) || fresh(n)
    {
      assert UnfoldLinks(true);
      var x, k := FindRegion(a);
      if x == null {
        return false;
      }
      assert x.Value() == ranges[k];
      if b > x.stop {
        return false;
      }
      if x.start == a && x.stop == b {
        RemoveRegion(x, k);
        return true;
      }
      if x.start == a {
        Resize(x, b, x.stop, k);
        return true;
      }
      if x.stop == b {
        Resize(x, x.start, a, k);
        return true;
      }
      ok := SplitRegion(x, a, b, k);
    }

    /** The split case: take the region out and add what is left on either side. */
    method SplitRegion(x: Region, a: int, b: int, ghost k: nat) returns (ok: bool)
      requires Links() && k < |nodes| && x == nodes[k]
      modifies this, nodes
      ensures ok <==> AddBoth(RemovedAt(old(ranges), k), old(ranges)[k], a, b).Done?
      ensures ok ==> Linked() && Done(ranges) == AddBoth(RemovedAt(old(ranges), k), old(ranges)[k], a, b)
      ensures forall n :: n in nodes ==> n in old(nodes) || fresh(n)
    {
      var r := x.Value();
      RemoveRegion(x, k);
      var y := AddRange(r.(stop := a));
      if y == null {
        return false;
      }
      assert forall i :: 0 <= i < |nodes| ==> nodes[i] in old(nodes) || fresh(nodes[i]);
      y := AddRange(r.(start := b));
      ok := y != null;
    }
  }

  /** The lists of two spaces share no node. */
  ghost predicate Apart(a: Space, b: Space)
    reads a, b
  {
    a != b && forall n :: n in a.nodes ==> n !in b.nodes
  }

  twostate lemma {:induction false} StaysLinked(space: Space)
    requires old(space.Linked()) && unchanged(space) && forall n :: n in space.nodes ==> unchanged(n)
    ensures space.Linked()
  {
    assert UnfoldLinks(true);
    assert forall i :: 0 <= i < |space.nodes| ==> space.nodes[i] in space.nodes;
  }
}
