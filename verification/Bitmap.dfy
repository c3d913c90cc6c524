/** `kernel/lib/bitmap/bitmap.c`: 64-bit words, most significant bit first, in
    which a set bit means "free". There are `len / 64 + 1` words, so the last one
    always carries spare bits beyond `len`. */
module Bitmaps {
  import opened Folding
  import opened Numeric
  import opened Words

  /** Index `k` of the bitmap is set. */
  predicate Holds(ws: seq<nat>, k: nat) {
    k / 64 < |ws| && Top(ws[k / 64], k % 64)
  }

  predicate Within(lo: nat, k: nat, hi: nat) {
    lo <= k < hi
  }

  ghost function Interval(lo: nat, hi: nat): set<nat> {
    set k: nat | k < hi && Within(lo, k, hi)
  }

  lemma {:induction false} IntervalSize(lo: nat, hi: nat)
    requires lo <= hi
    ensures |Interval(lo, hi)| == hi - lo
  {
    if lo < hi {
      IntervalSize(lo, hi - 1);
      assert Interval(lo, hi) == Interval(lo, hi - 1) + {hi - 1};
    }
  }

  /** The indices that stand for something, and the spare tail. */
  ghost function Usable(bits: set<nat>, len: nat): set<nat> {
    set k | k in bits && k < len
  }

  ghost function Spare(bits: set<nat>, len: nat): set<nat> {
    set k | k in bits && k >= len
  }

  lemma {:induction false} UsableAdd(bits: set<nat>, len: nat, j: nat)
    requires j < len
    ensures Usable(bits + {j}, len) == Usable(bits, len) + {j}
  {}

  /** Word `j` is `w` when exactly `bits` are set. */
  ghost predicate WordShows(bits: set<nat>, j: nat, w: nat) {
    forall k: nat {:trigger k in bits} :: k / 64 == j ==> (k in bits <==> Top(w, k % 64))
  }

  ghost predicate SameBeyond(a: set<nat>, b: set<nat>, j: nat) {
    forall k: nat {:trigger k in b} :: k / 64 != j ==> (k in a <==> k in b)
  }

  lemma {:induction false} BitOnShown(bits: set<nat>, j: nat, w: nat, b: nat)
    requires WordShows(bits, j, w) && b < 64
    ensures WordShows(bits + {64 * j + b}, j, Or(w, Pow2(63 - b))) && SameBeyond(bits, bits + {64 * j + b}, j)
  {
    forall k: nat | k / 64 == j ensures k in bits + {64 * j + b} <==> Top(Or(w, Pow2(63 - b)), k % 64) {
      TopUpdates(w, b, k % 64);
    }
  }

  lemma {:induction false} BitOffShown(bits: set<nat>, j: nat, w: nat, b: nat)
    requires WordShows(bits, j, w) && b < 64
    ensures WordShows(bits - {64 * j + b}, j, AndNot(w, Pow2(63 - b))) && SameBeyond(bits, bits - {64 * j + b}, j)
  {
    forall k: nat | k / 64 == j ensures k in bits - {64 * j + b} <==> Top(AndNot(w, Pow2(63 - b)), k % 64) {
      TopUpdates(w, b, k % 64);
    }
  }

  lemma {:induction false} WrittenShown(bits: set<nat>, w: nat, i: nat)
    requires WordShows(bits, i / 64, w)
    ensures WordShows(bits + ReleasedAsWritten(i), i / 64, UnsetWritten(w, i % 64))
    ensures SameBeyond(bits, bits + ReleasedAsWritten(i), i / 64)
  {
    forall k: nat ensures k in ReleasedAsWritten(i) <==> k / 64 == i / 64 && Touched(i % 64, k % 64) {
      ReleasedIndex(i, k);
    }
    forall k: nat | k / 64 == i / 64
      ensures k in bits + ReleasedAsWritten(i) <==> Top(UnsetWritten(w, i % 64), k % 64)
    {
      UnsetWrittenBits(w, i % 64, k % 64);
    }
  }

  class Bitmap {
    const len: nat
    const words: array<nat>
    /** Every set index, spare tail included, and those below `len`. */
    ghost var bits: set<nat>
    ghost var usable: set<nat>

    ghost predicate Valid()
      reads this, words
    {
      forall u {:trigger UnfoldBits(u)} :: UnfoldBits(u) ==> Shape() && usable == Usable(bits, len)
    }

    ghost predicate Shape()
      reads this, words
    {
      && words.Length == len / 64 + 1
      && (forall i :: 0 <= i < words.Length ==> words[i] < U64)
      && (forall k: nat {:trigger Holds(words[..], k)} :: k in bits <==> Holds(words[..], k))
    }

    /** `bitmap_init`: every bit is set. */
    constructor (len: nat)
      ensures Valid() && this.len == len && fresh(words)
      ensures usable == Interval(0, len)
      ensures |Spare(bits, len)| == 64 - len % 64
    {
      this.len := len;
      words := new nat[len / 64 + 1](i => U64 - 1);
      bits := Interval(0, 64 * (len / 64 + 1));
      usable := Interval(0, len);
      new;
      forall k: nat
        ensures k in bits <==> Holds(words[..], k)
      {
        AllBitsSet(63 - k % 64);
      }
      IntervalSize(len, 64 * (len / 64 + 1));
      assert Spare(bits, len) == Interval(len, 64 * (len / 64 + 1));
    }

    /** Writes one word; `now` are the bits it leaves set. */
    method Store(j: nat, w: nat, ghost now: set<nat>)
      requires Shape() && j < words.Length && w < U64 && WordShows(now, j, w) && SameBeyond(bits, now, j)
      modifies this`bits, words
      ensures Shape() && bits == now
    {
      ghost var was := words[..];
      words[j] := w;
      bits := now;
      forall k: nat
        ensures k in bits <==> Holds(words[..], k)
      {
        assert k in old(bits) <==> Holds(was, k);
      }
    }

    lemma {:induction false} WordShown(j: nat)
      requires Shape() && j < words.Length
      ensures WordShows(bits, j, words[j])
    {
      forall k: nat | k / 64 == j ensures k in bits <==> Top(words[j], k % 64) {
        assert k in bits <==> Holds(words[..], k);
      }
    }

    /** Clears one bit: `bitmap[i] &= ~((u64)1 << (63 - b))`. */
    method ClearBit(i: nat, b: nat)
      requires Shape() && i < words.Length && b < 64
      modifies this`bits, words
      ensures Shape() && bits == old(bits) - {64 * i + b}
    {
      WordShown(i);
      BitOffShown(bits, i, words[i], b);
      AndNotBound(words[i], Pow2(63 - b));
      Store(i, AndNot(words[i], Pow2(63 - b)), bits - {64 * i + b});
    }

    /** `bitmap_find_and_set`. `junk` is what the local `index` holds before it is
        assigned: the code returns it when every word is zero. */
    method FindAndSet(junk: nat) returns (index: nat)
      requires Valid()
      modifies this`bits, this`usable, words
      ensures Valid()
      ensures old(usable) != {} ==> index in old(usable) && usable == old(usable) - {index}
      ensures old(usable) != {} ==> (forall k :: k in old(usable) ==> index <= k) && index < len
      ensures old(usable) == {} ==> usable == {}
      ensures old(usable) == {} ==> (index == len <==> old(bits) != {} || junk >= len)
      ensures old(usable) == {} && old(bits) != {} ==> |Spare(bits, len)| == |Spare(old(bits), len)| - 1
    {
      assert UnfoldBits(true);
      ghost var before, took := bits, 0;
      index, took := Search(junk);
      if before != {} {
        SearchMeaning(before, len, took, bits);
        assert took < len ==> took in Usable(before, len);
      }
      usable := Usable(bits, len);
    }

    /** The body of that function, in terms of all set bits. */
    method Search(junk: nat) returns (index: nat, ghost took: nat)
      requires Shape()
      modifies this`bits, words
      ensures Shape()
      ensures old(bits) == {} ==> bits == {} && index == Min(junk, len)
      ensures old(bits) != {} ==> took in old(bits) && bits == old(bits) - {took} && index == Min(took, len)
      ensures old(bits) != {} ==> forall k :: k in old(bits) ==> took <= k
    {
      index, took := junk, 0;
      var i := 0;
      while i < words.Length
        invariant 0 <= i <= words.Length && Shape() && bits == old(bits) && index == junk
        invariant forall j :: 0 <= j < i ==> words[j] == 0
      {
        if words[i] != 0 {
          NonZeroHasTop(words[i]);
          var b := Clz(words[i], 0);
          FirstSetIndex(words[..], i, b);
          took := 64 * i + b;
          assert Holds(words[..], took);
          forall k | k in bits ensures took <= k { assert Holds(words[..], k); }
          ClearBit(i, b);
          index := 64 * i + b;
          return Min(index, len), took;
        }
        i := i + 1;
      }
      forall k: nat ensures k !in bits {
        ZeroHasNoBit(63 - k % 64);
        assert k in bits <==> Holds(words[..], k);
      }
      index := Min(index, len);
    }

    /** `bitmap_unset` with the `(u64)1` of line 49. */
    method Unset(i: nat)
      requires Valid()
      modifies this`bits, this`usable, words
      ensures Valid() && bits == if i < len then old(bits) + {i} else old(bits)
      ensures usable == if i < len then old(usable) + {i} else old(usable)
    {
      assert UnfoldBits(true);
      if i >= len {
        return;
      }
      var j, b := i / 64, i % 64;
      WordShown(j);
      BitOnShown(bits, j, words[j], b);
      OrBound64(words[j], 63 - b);
      UsableAdd(bits, len, i);
      Store(j, Or(words[j], Pow2(63 - b)), bits + {64 * j + b});
      usable := usable + {i};
    }

    /** `bitmap_unset` as line 62 is written. */
    method UnsetAsWritten(i: nat)
      requires Valid()
      modifies this`bits, this`usable, words
      ensures Valid() && bits == if i < len then old(bits) + ReleasedAsWritten(i) else old(bits)
    {
      assert UnfoldBits(true);
      if i >= len {
        return;
      }
      var j, b := i / 64, i % 64;
      WordShown(j);
      WrittenShown(bits, words[j], i);
      UnsetWrittenBound(words[j], b);
      Store(j, UnsetWritten(words[j], b), bits + ReleasedAsWritten(i));
      usable := Usable(bits, len);
    }
  }

  lemma {:induction false} FirstSetIndex(ws: seq<nat>, i: nat, b: nat)
    requires i < |ws| && b < 64 && Top(ws[i], b) && forall c :: 0 <= c < b ==> !Top(ws[i], c)
    requires forall j :: 0 <= j < i ==> ws[j] == 0
    ensures Holds(ws, 64 * i + b)
    ensures forall k: nat :: Holds(ws, k) ==> 64 * i + b <= k
  {
    assert (64 * i + b) / 64 == i && (64 * i + b) % 64 == b;
    forall k: nat | Holds(ws, k) ensures 64 * i + b <= k {
      ZeroHasNoBit(63 - k % 64);
      assert k / 64 >= i;
    }
  }

  lemma {:induction false} AllBitsSet(n: nat)
    requires n < 64
    ensures Bit(U64 - 1, n)
  {
    WordBound(64);
    BitOnes(64, n);
  }

  lemma {:induction false} OrBound64(w: nat, n: nat)
    requires w < U64 && n < 64
    ensures Or(w, Pow2(n)) < U64
  {
    WordBound(64);
    Pow2Monotone(n, 63);
    OrBound(w, Pow2(n), 64);
  }

  /** What a search does for the caller: it finds an index exactly when one is free,
      and a failing search eats exactly one spare bit. */
  lemma {:induction false} SearchMeaning(bits: set<nat>, len: nat, took: nat, after: set<nat>)
    requires took in bits && after == bits - {took} && forall k :: k in bits ==> took <= k
    ensures Min(took, len) == len <==> Usable(bits, len) == {}
    ensures took < len ==> Usable(after, len) == Usable(bits, len) - {took} && Spare(after, len) == Spare(bits, len)
    ensures took >= len ==> Usable(after, len) == {} && |Spare(after, len)| == |Spare(bits, len)| - 1
  {
    if took < len {
      assert took in Usable(bits, len);
    } else {
      assert Spare(after, len) == Spare(bits, len) - {took};
      assert took in Spare(bits, len);
    }
  }

  // ---- line 62 as written -------------------------------------------------------

  /** `1 << n` on a 32-bit `int`, widened to 64 bits. Shifting into the sign bit
      smears it over the upper half; C leaves larger counts undefined, and the
      x86-64 shift instruction reduces them modulo 32. */
  function IntShift(n: nat): nat {
    var c := n % 32;
    if c == 31 then Ones(c, c + 33) else Pow2(c)
  }

  /** Ones in bits `lo` to `hi - 1`. */
  function Ones(lo: nat, hi: nat): nat {
    AndNot(Pow2(hi) - 1, Pow2(lo) - 1)
  }

  /** Line 62 on the word holding bit `k`. */
  function UnsetWritten(w: nat, k: nat): nat
    requires k < 64
  {
    Or(w, IntShift(63 - k))
  }

  lemma {:induction false} OnesBits(lo: nat, hi: nat, n: nat)
    ensures Bit(Ones(lo, hi), n) <==> lo <= n < hi
  {
    BitAndNot(Pow2(hi) - 1, Pow2(lo) - 1, n);
    BitOnes(hi, n);
    BitOnes(lo, n);
  }

  lemma {:induction false} IntShiftBits(n: nat, m: nat)
    requires n < 64 && m < 64
    ensures Bit(IntShift(n), m) <==> if n % 32 == 31 then 31 <= m else m == n % 32
  {
    var c := n % 32;
    OnesBits(c, c + 33, m);
    BitPow2(c, m);
  }

  lemma {:induction false} ShiftCount(k: nat)
    requires k < 64
    ensures (63 - k) % 32 == 31 - k % 32
  {}

  /** The bits line 62 sets when asked for bit `k`. */
  predicate Touched(k: nat, m: nat) {
    if k % 32 == 0 then m <= 32 else m == k % 32 + 32
  }

  lemma {:induction false} UnsetWrittenBits(w: nat, k: nat, m: nat)
    requires k < 64 && m < 64
    ensures Top(UnsetWritten(w, k), m) <==> Top(w, m) || Touched(k, m)
  {
    ShiftCount(k);
    BitOr(w, IntShift(63 - k), 63 - m);
    IntShiftBits(63 - k, 63 - m);
  }

  lemma {:induction false} UnsetWrittenBound(w: nat, k: nat)
    requires k < 64 && w < U64
    ensures UnsetWritten(w, k) < U64
  {
    IntShiftBound(63 - k, 64);
    OrBelow(w, IntShift(63 - k), 64);
  }

  lemma {:induction false} OrBelow(w: nat, x: nat, width: nat)
    requires w < U64 && x < U64 && width == 64
    ensures Or(w, x) < U64
  {
    WordBound(width);
    OrBound(w, x, width);
  }

  lemma {:induction false} IntShiftBound(n: nat, width: nat)
    requires n < width == 64
    ensures IntShift(n) < U64
  {
    WordBound(width);
    if n % 32 == 31 {
      OnesBound(n % 32, width);
    } else {
      Pow2Monotone(n % 32, width - 1);
    }
  }

  lemma {:induction false} OnesBound(lo: nat, hi: nat)
    ensures Ones(lo, hi) < Pow2(hi)
  {
    AndNotBound(Pow2(hi) - 1, Pow2(lo) - 1);
  }

  /** The indices that line 62 releases when asked for `i`. */
  ghost function ReleasedAsWritten(i: nat): set<nat> {
    var base := 64 * (i / 64);
    if i % 32 == 0 then Interval(base, base + 33) else {base + i % 32 + 32}
  }

  lemma {:induction false} ReleasedIndex(i: nat, k: nat)
    ensures k in ReleasedAsWritten(i) <==> k / 64 == i / 64 && Touched(i % 64, k % 64)
  {
    SameRemainder(i);
    WordOf(k, 64 * (i / 64));
  }

  lemma {:induction false} SameRemainder(i: nat)
    ensures i % 64 % 32 == i % 32
  {}

  lemma {:induction false} WordOf(k: nat, base: nat)
    requires base % 64 == 0
    ensures k / 64 == base / 64 <==> base <= k < base + 64
    ensures k / 64 == base / 64 ==> k == base + k % 64
    ensures base <= k < base + 64 ==> k % 64 == k - base
  {}

  /** So the release is exact exactly for the upper 31 indices of each word. */
  lemma {:induction false} ReleasedAsWrittenExact(i: nat)
    ensures ReleasedAsWritten(i) == {i} <==> i % 64 >= 33
  {
    var base := 64 * (i / 64);
    if i % 32 == 0 {
      assert base in Interval(base, base + 33) && base + 32 in Interval(base, base + 33);
    } else {
      assert base + i % 32 + 32 in ReleasedAsWritten(i);
    }
  }

  /** Line 62 frees the intended bit and no other, whatever the word, exactly when
      that bit is one of 33 to 63 of its word. */
  ghost predicate ExactUnset(k: nat)
    requires k < 64
  {
    forall w: nat, m: nat :: m < 64 ==> (Top(UnsetWritten(w, k), m) <==> m == k || Top(w, m))
  }

  lemma {:induction false} UnsetAsWrittenExact(k: nat)
    requires k < 64
    ensures ExactUnset(k) <==> k >= 33
  {
    if k >= 33 {
      forall w: nat, m: nat | m < 64
        ensures Top(UnsetWritten(w, k), m) <==> m == k || Top(w, m)
      {
        UnsetWrittenBits(w, k, m);
        TouchedUpper(k, m);
      }
    } else {
      forall n: nat ensures !Bit(0, n) { ZeroHasNoBit(n); }
      var m := UnsetInexact(0, k);
    }
  }

  lemma {:induction false} UnsetInexact(w: nat, k: nat) returns (m: nat)
    requires k < 33 && forall n: nat :: !Bit(w, n)
    ensures m < 64 && m != k && Top(UnsetWritten(w, k), m) && !Top(w, m)
  {
    m := if k == 32 then 0 else k % 32 + 32;
    assert Touched(k, m);
    UnsetWrittenBits(w, k, m);
  }

  lemma {:induction false} TouchedUpper(k: nat, m: nat)
    requires 33 <= k < 64
    ensures Touched(k, m) <==> m == k
  {}

  /** For instance, releasing index 0 of a fully taken word releases indices 0 to 32. */
  lemma {:induction false} UnsetZeroReleases33(w: nat, k: nat, m: nat)
    requires w == 0 && k == 0 && m < 64
    ensures Top(UnsetWritten(w, k), m) <==> m <= 32
  {
    UnsetWrittenBits(w, k, m);
    ZeroHasNoBit(63 - m);
  }
}
