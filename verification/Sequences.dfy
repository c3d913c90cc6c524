/** Sequence operations shared by the linked structures. */
module Sequences {

  ghost predicate Distinct<T>(s: seq<T>) {
    forall i, j :: 0 <= i < j < |s| ==> s[i] != s[j]
  }

  function InsertedAt<T>(s: seq<T>, k: nat, x: T): seq<T>
    requires k <= |s|
  {
    s[..k] + [x] + s[k..]
  }

  function RemovedAt<T>(s: seq<T>, k: nat): seq<T>
    requires k < |s|
  {
    s[..k] + s[k + 1..]
  }

  lemma {:induction false} DistinctInserted<T>(s: seq<T>, k: nat, x: T)
    requires k <= |s| && Distinct(s) && x !in s
    ensures Distinct(InsertedAt(s, k, x))
  {}

  lemma {:induction false} DistinctRemoved<T>(s: seq<T>, k: nat)
    requires k < |s| && Distinct(s)
    ensures Distinct(RemovedAt(s, k))
    ensures forall y :: y in RemovedAt(s, k) <==> y in s && y != s[k]
  {}

  /** The elements that are not doomed, in their order. */
  ghost function Kept<T>(els: seq<T>, doomed: set<T>): seq<T> {
    if els == [] then [] else Kept(els[..|els| - 1], doomed) + if els[|els| - 1] in doomed then [] else [els[|els| - 1]]
  }

  lemma {:induction false} KeptStep<T>(els: seq<T>, doomed: set<T>, i: nat)
    requires i < |els|
    ensures Kept(els[..i + 1], doomed) == Kept(els[..i], doomed) + if els[i] in doomed then [] else [els[i]]
  {
    assert els[..i + 1][..i] == els[..i];
  }

  lemma {:induction false} KeptMeaning<T>(els: seq<T>, doomed: set<T>, x: T)
    ensures x in Kept(els, doomed) <==> x in els && x !in doomed
    ensures multiset(Kept(els, doomed))[x] <= multiset(els)[x]
  {
    if els != [] {
      var i := |els| - 1;
      KeptMeaning(els[..i], doomed, x);
      assert els == els[..i] + [els[i]];
    }
  }

  /** A one-to-one map has as many values as keys. */
  lemma {:induction false} AsMany<K, V>(m: map<K, V>)
    requires forall k, l :: k in m && l in m && m[k] == m[l] ==> k == l
    ensures |m.Values| == |m.Keys|
    decreases |m.Keys|
  {
    if k :| k in m {
      var n := m - {k};
      AsMany(n);
      assert n.Keys == m.Keys - {k};
      assert n.Values == m.Values - {m[k]} by {
        forall v | v in m.Values && v != m[k] ensures v in n.Values {
          var l :| l in m && m[l] == v;
          assert l in n && n[l] == v;
        }
        forall v | v in n.Values ensures v in m.Values && v != m[k] {
          var l :| l in n && n[l] == v;
          assert l in m;
        }
      }
      assert m[k] in m.Values;
    } else {
      assert m == map[];
    }
  }

  lemma {:induction false} NoMore<T>(s: set<T>, t: set<T>)
    requires s <= t
    ensures |s| <= |t|
  {
    assert t == s + (t - s);
  }
}
