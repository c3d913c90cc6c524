/** The intrusive circular list of `kernel/lib/list/list.h`. A ring is the sequence of its
    nodes from the list head on; the elements are all but the head. */
module Lists {
  import opened Sequences

  class Node {
    var next: Node?
    var prev: Node?

    constructor ()
      ensures next == null && prev == null
    {
      next, prev := null, null;
    }
  }

  /** The node behind position `i` of a ring, and the one before it. */
  ghost function Behind(s: seq<Node>, i: nat): Node
    requires i < |s|
  {
    if i + 1 < |s| then s[i + 1] else s[0]
  }

  ghost function Before(s: seq<Node>, i: nat): Node
    requires i < |s|
  {
    if i > 0 then s[i - 1] else s[|s| - 1]
  }

  ghost predicate Forward(s: seq<Node>)
    reads s
  {
    forall i {:trigger s[i].next} :: 0 <= i < |s| ==> s[i].next == Behind(s, i)
  }

  ghost predicate Backward(s: seq<Node>)
    reads s
  {
    forall i {:trigger s[i].prev} :: 0 <= i < |s| ==> s[i].prev == Before(s, i)
  }

  ghost predicate Ring(s: seq<Node>)
    reads s
  {
    Distinct(s) && Forward(s) && Backward(s)
  }

  /** Around a ring, `next` and `prev` undo each other. */
  lemma {:induction false} MutuallyInverse(s: seq<Node>, i: nat)
    requires Ring(s) && i < |s|
    ensures s[i].next != null && s[i].next.prev == s[i] && s[i].prev != null && s[i].prev.next == s[i]
  {}

  /** A ring has no distinguished node: any of its nodes can serve as the head. */
  lemma {:induction false} Rotated(s: seq<Node>, k: nat)
    requires Ring(s) && k < |s|
    ensures Ring(s[k..] + s[..k])
  {}

  // ---- linking in and out ------------------------------------------------------------------

  lemma {:induction false} ForwardInserted(s: seq<Node>, k: nat, x: Node)
    requires 0 < k <= |s| && x.next == Behind(s, k - 1)
    requires forall i {:trigger s[i].next} :: 0 <= i < |s| ==> s[i].next == if i == k - 1 then x else Behind(s, i)
    ensures Forward(InsertedAt(s, k, x))
  {}

  lemma {:induction false} BackwardInserted(s: seq<Node>, k: nat, x: Node)
    requires 0 < k <= |s| && x.prev == s[k - 1]
    requires forall i {:trigger s[i].prev} :: 0 <= i < |s| ==>
               s[i].prev == if s[i] == Behind(s, k - 1) then x else Before(s, i)
    requires Distinct(s)
    ensures Backward(InsertedAt(s, k, x))
  {}

  lemma {:induction false} ForwardRemoved(s: seq<Node>, k: nat)
    requires Distinct(s) && k < |s|
    requires forall i {:trigger s[i].next} :: 0 <= i < |s| && i != k ==>
               s[i].next == if s[i] == Before(s, k) then Behind(s, k) else Behind(s, i)
    ensures Forward(RemovedAt(s, k))
  {}

  lemma {:induction false} BackwardRemoved(s: seq<Node>, k: nat)
    requires Distinct(s) && k < |s|
    requires forall i {:trigger s[i].prev} :: 0 <= i < |s| && i != k ==>
               s[i].prev == if s[i] == Behind(s, k) then Before(s, k) else Before(s, i)
    ensures Backward(RemovedAt(s, k))
  {}

  /** `INIT_LIST_HEAD` */
  method Init(head: Node)
    modifies head
    ensures Ring([head])
  {
    head.next := head;
    head.prev := head;
  }

  /** `__list_add` at position `k` of the ring. */
  method AddBetween(el: Node, prev: Node, next: Node, ghost s: seq<Node>, ghost k: nat)
    requires Ring(s) && 0 < k <= |s| && prev == s[k - 1] && next == Behind(s, k - 1) && el !in s
    modifies el, prev`next, next`prev
    ensures Ring(InsertedAt(s, k, el))
  {
    next.prev := el;
    el.next := next;
    el.prev := prev;
    prev.next := el;
    DistinctInserted(s, k, el);
    ForwardInserted(s, k, el);
    BackwardInserted(s, k, el);
  }

  /** `list_add`: in front of all elements. */
  method Add(el: Node, head: Node, ghost els: seq<Node>)
    requires Ring([head] + els) && el !in [head] + els
    modifies el, [head] + els
    ensures Ring([head] + ([el] + els))
  {
    ghost var s := [head] + els;
    assert s[0] == head && s[0].next == Behind(s, 0);
    AddBetween(el, head, head.next, s, 1);
    assert InsertedAt(s, 1, el) == [head] + ([el] + els);
  }

  /** `list_add_tail`: behind all elements. */
  method AddTail(el: Node, head: Node, ghost els: seq<Node>)
    requires Ring([head] + els) && el !in [head] + els
    modifies el, [head] + els
    ensures Ring([head] + (els + [el]))
  {
    ghost var s := [head] + els;
    assert s[0] == head && s[0].prev == Before(s, 0);
    AddBetween(el, head.prev, head, s, |s|);
    assert InsertedAt(s, |s|, el) == [head] + (els + [el]);
  }

  /** `list_del` of the node at position `k`. */
  method Del(entry: Node, ghost s: seq<Node>, ghost k: nat)
    requires Ring(s) && k < |s| && entry == s[k]
    modifies s
    ensures Ring(RemovedAt(s, k)) && entry.next == null && entry.prev == null
  {
    assert s[k].next == Behind(s, k) && s[k].prev == Before(s, k);
    var prev, next := entry.prev, entry.next;
    next.prev := prev;
    prev.next := next;
    entry.next := null;
    entry.prev := null;
    DistinctRemoved(s, k);
    ForwardRemoved(s, k);
    BackwardRemoved(s, k);
  }

  /** `list_empty` */
  method IsEmpty(head: Node, ghost els: seq<Node>) returns (b: bool)
    requires Ring([head] + els)
    ensures b <==> els == []
  {
    ghost var s := [head] + els;
    assert s[0] == head && s[0].next == Behind(s, 0) && (els != [] ==> s[1] == els[0] && s[0] != s[1]);
    b := head.next == head;
  }

  // ---- traversal ------------------------------------------------------------------------------

  /** The ring half way through the traversal: the first `i` elements visited. */
  ghost function Midway(head: Node, els: seq<Node>, doomed: set<Node>, i: nat): seq<Node>
    requires i <= |els|
  {
    [head] + Kept(els[..i], doomed) + els[i..]
  }

  lemma {:induction false} MidwayStep(head: Node, els: seq<Node>, doomed: set<Node>, i: nat)
    requires i < |els|
    ensures var s, k := Midway(head, els, doomed, i), 1 + |Kept(els[..i], doomed)|;
            && k < |s| && s[k] == els[i] && Behind(s, k) == (if i + 1 < |els| then els[i + 1] else head)
            && Midway(head, els, doomed, i + 1) == if els[i] in doomed then RemovedAt(s, k) else s
  {
    var front, x, back := [head] + Kept(els[..i], doomed), els[i], els[i + 1..];
    MidwayParts(head, els, doomed, i);
    OneBetween(front, x, back);
    assert i + 1 < |els| ==> back[0] == els[i + 1];
  }

  lemma {:induction false} MidwayParts(head: Node, els: seq<Node>, doomed: set<Node>, i: nat)
    requires i < |els|
    ensures var front, x, back := [head] + Kept(els[..i], doomed), els[i], els[i + 1..];
            && Midway(head, els, doomed, i) == front + [x] + back
            && Midway(head, els, doomed, i + 1) == if x in doomed then front + back else front + [x] + back
  {
    KeptStep(els, doomed, i);
    assert els[i..] == [els[i]] + els[i + 1..];
  }

  lemma {:induction false} OneBetween(front: seq<Node>, x: Node, back: seq<Node>)
    requires front != []
    ensures var s := front + [x] + back;
            && s[|front|] == x && RemovedAt(s, |front|) == front + back
            && Behind(s, |front|) == if back != [] then back[0] else front[0]
  {}

  /** Only nodes of the list are in the ring, and deleted ones no more. */
  lemma {:induction false} MidwayWithin(head: Node, els: seq<Node>, doomed: set<Node>, i: nat)
    requires i <= |els| && Distinct([head] + els)
    ensures var s := Midway(head, els, doomed, i); forall l :: 0 <= l < |s| ==> s[l] in [head] + els
    ensures forall j :: 0 <= j < i && els[j] in doomed ==> els[j] !in Midway(head, els, doomed, i)
  {
    var all := [head] + els;
    forall x | x in Midway(head, els, doomed, i) ensures x in all {
      MidwayOnly(head, els, doomed, i, x);
      if x in els {
        var l :| 0 <= l < |els| && els[l] == x;
        assert all[l + 1] == x;
      } else {
        assert all[0] == x;
      }
    }
    forall j | 0 <= j < i && els[j] in doomed ensures els[j] !in Midway(head, els, doomed, i) {
      assert els[j] == all[j + 1] && all[0] == head;
      MidwayOnly(head, els, doomed, i, els[j]);
      forall l | 0 <= l < |els[i..]| ensures els[i..][l] != els[j] { assert els[i..][l] == all[i + l + 1]; }
    }
  }

  lemma {:induction false} MidwayOnly(head: Node, els: seq<Node>, doomed: set<Node>, i: nat, x: Node)
    requires i <= |els|
    ensures x in Midway(head, els, doomed, i) ==> x == head || x in els
    ensures x in Midway(head, els, doomed, i) ==> x == head || x in els[i..] || x !in doomed
  {
    KeptMeaning(els[..i], doomed, x);
    assert x in Midway(head, els, doomed, i) ==> x == head || x in Kept(els[..i], doomed) || x in els[i..];
  }

  /** The doomed among the first `i` elements are out of the list. */
  ghost predicate Unlinked(els: seq<Node>, doomed: set<Node>, i: nat)
    requires i <= |els|
    reads els
  {
    forall j :: 0 <= j < i && els[j] in doomed ==> els[j].next == null && els[j].prev == null
  }

  /** One turn of the loop. */
  method Visit(pos: Node, doomed: set<Node>, ghost head: Node, ghost els: seq<Node>, ghost i: nat)
    requires i < |els| && pos == els[i] && Ring(Midway(head, els, doomed, i)) && Unlinked(els, doomed, i)
             && Distinct([head] + els)
    modifies Midway(head, els, doomed, i)
    ensures Ring(Midway(head, els, doomed, i + 1)) && Unlinked(els, doomed, i + 1)
  {
    MidwayStep(head, els, doomed, i);
    MidwayWithin(head, els, doomed, i);
    if pos in doomed {
      Del(pos, Midway(head, els, doomed, i), 1 + |Kept(els[..i], doomed)|);
    }
  }

  /** The successor the loop reads before its body runs. */
  lemma {:induction false} SuccessorOf(head: Node, els: seq<Node>, doomed: set<Node>, i: nat)
    requires i < |els| && Ring(Midway(head, els, doomed, i))
    ensures els[i].next == if i + 1 < |els| then els[i + 1] else head
  {
    MidwayStep(head, els, doomed, i);
    var s, k := Midway(head, els, doomed, i), 1 + |Kept(els[..i], doomed)|;
    assert s[k].next == Behind(s, k);
  }

  lemma {:induction false} Start(head: Node, els: seq<Node>, doomed: set<Node>)
    requires Ring([head] + els)
    ensures Midway(head, els, doomed, 0) == [head] + els && head !in els
    ensures head.next == (if els == [] then head else els[0])
    ensures els != [] ==> els[0].next == if 1 < |els| then els[1] else head
  {
    var s := [head] + els;
    assert els[..0] == [] && els[0..] == els;
    assert s[0].next == Behind(s, 0);
    forall j | 0 <= j < |els| ensures els[j] != head { assert s[0] != s[j + 1]; }
    if els != [] { assert s[1].next == Behind(s, 1); }
  }

  lemma {:induction false} Finish(head: Node, els: seq<Node>, doomed: set<Node>)
    ensures Midway(head, els, doomed, |els|) == [head] + Kept(els, doomed)
  {
    assert els[..|els|] == els;
  }

  lemma {:induction false} HeadLinked(head: Node, els: seq<Node>, doomed: set<Node>, i: nat)
    requires i <= |els| && Ring(Midway(head, els, doomed, i))
    ensures head.next != null
  {
    assert Midway(head, els, doomed, i)[0].next != null;
  }

  /** `list_for_each_safe` with a body that deletes the nodes of any set it likes: every
      original element is visited once, in order, and the others remain. */
  method ForEachSafe(head: Node, doomed: set<Node>, ghost els: seq<Node>) returns (visited: seq<Node>)
    requires Ring([head] + els)
    modifies [head] + els
    ensures visited == els && Ring([head] + Kept(els, doomed))
    ensures forall n :: n in els && n in doomed ==> n.next == null && n.prev == null
  {
    visited := [];
    ghost var i := 0;
    Start(head, els, doomed);
    var pos := head.next;
    var n := pos.next;
    while pos != head
      invariant i <= |els| && visited == els[..i] && pos == (if i < |els| then els[i] else head)
      invariant Ring(Midway(head, els, doomed, i))
      invariant i < |els| ==> n == if i + 1 < |els| then els[i + 1] else head
      invariant Unlinked(els, doomed, i)
      decreases |els| - i
    {
      MidwayWithin(head, els, doomed, i);
      visited := visited + [pos];
      Visit(pos, doomed, head, els, i);
      i := i + 1;
      if i < |els| { SuccessorOf(head, els, doomed, i); } else { HeadLinked(head, els, doomed, i); }
      pos := n;
      n := pos.next;
    }
    Finish(head, els, doomed);
  }
}
