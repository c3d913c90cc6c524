/** Bitwise operations on machine words, as functions on natural numbers. */
module Words {
  import opened Numeric

  /** `1 << n` */
  function Pow2(n: nat): (r: nat)
    ensures r > 0
  {
    if n == 0 then 1 else 2 * Pow2(n - 1)
  }

  /** Bit `n`, counted from the least significant end. */
  predicate Bit(w: nat, n: nat) {
    if n == 0 then w % 2 == 1 else Bit(w / 2, n - 1)
  }

  /** `a | b` */
  function Or(a: nat, b: nat): nat {
    if a == 0 && b == 0 then 0
    else 2 * Or(a / 2, b / 2) + if a % 2 == 1 || b % 2 == 1 then 1 else 0
  }

  /** `a & ~b` */
  function AndNot(a: nat, b: nat): nat {
    if a == 0 then 0
    else 2 * AndNot(a / 2, b / 2) + if a % 2 == 1 && b % 2 == 0 then 1 else 0
  }

  lemma {:induction false} ZeroHasNoBit(n: nat)
    ensures !Bit(0, n)
  {
    if n > 0 { ZeroHasNoBit(n - 1); }
  }

  lemma {:induction false} BitOr(a: nat, b: nat, n: nat)
    ensures Bit(Or(a, b), n) <==> Bit(a, n) || Bit(b, n)
  {
    if a == 0 && b == 0 {
      ZeroHasNoBit(n);
    } else if n > 0 {
      BitOr(a / 2, b / 2, n - 1);
      assert Or(a, b) / 2 == Or(a / 2, b / 2);
    }
  }

  lemma {:induction false} BitAndNot(a: nat, b: nat, n: nat)
    ensures Bit(AndNot(a, b), n) <==> Bit(a, n) && !Bit(b, n)
  {
    if a == 0 {
      ZeroHasNoBit(n);
    } else if n > 0 {
      BitAndNot(a / 2, b / 2, n - 1);
      assert AndNot(a, b) / 2 == AndNot(a / 2, b / 2);
    }
  }

  lemma {:induction false} BitPow2(m: nat, n: nat)
    ensures Bit(Pow2(m), n) <==> m == n
  {
    if m == 0 {
      if n > 0 { ZeroHasNoBit(n - 1); }
    } else {
      assert Pow2(m) / 2 == Pow2(m - 1);
      if n > 0 { BitPow2(m - 1, n - 1); }
    }
  }

  lemma {:induction false} OrBound(a: nat, b: nat, n: nat)
    requires a < Pow2(n) && b < Pow2(n)
    ensures Or(a, b) < Pow2(n)
  {
    if n > 0 { OrBound(a / 2, b / 2, n - 1); }
  }

  lemma {:induction false} AndNotBound(a: nat, b: nat)
    ensures AndNot(a, b) <= a
  {
    if a > 0 { AndNotBound(a / 2, b / 2); }
  }

  /** A word is zero exactly when it has no set bit. */
  lemma {:induction false} NoBitIsZero(w: nat, n: nat)
    requires w < Pow2(n) && forall k :: 0 <= k < n ==> !Bit(w, k)
    ensures w == 0
  {
    if n > 0 {
      assert !Bit(w, 0);
      forall k | 0 <= k < n - 1 ensures !Bit(w / 2, k) {
        assert !Bit(w, k + 1);
      }
      NoBitIsZero(w / 2, n - 1);
    }
  }

  /** All bits of `2^n - 1` below `n` are set. */
  lemma {:induction false} BitOnes(n: nat, k: nat)
    ensures Bit(Pow2(n) - 1, k) <==> k < n
  {
    if n == 0 {
      ZeroHasNoBit(k);
    } else {
      assert Pow2(n) - 1 == 2 * (Pow2(n - 1) - 1) + 1;
      assert (Pow2(n) - 1) / 2 == Pow2(n - 1) - 1;
      if k > 0 { BitOnes(n - 1, k - 1); }
    }
  }

  lemma {:induction false} Pow2Monotone(m: nat, n: nat)
    requires m <= n
    ensures Pow2(m) <= Pow2(n)
  {
    if m < n { Pow2Monotone(m, n - 1); }
  }

  // ---- leading zeros ------------------------------------------------------------

  /** Bit `k` of a 64-bit word, counted from the most significant end. */
  predicate Top(w: nat, k: nat)
    requires k < 64
  {
    Bit(w, 63 - k)
  }

  /** `__builtin_clzll` from bit `k` on. */
  function Clz(w: nat, k: nat): (r: nat)
    requires k <= 64 && exists i :: k <= i < 64 && Top(w, i)
    ensures k <= r < 64 && Top(w, r) && forall i :: k <= i < r ==> !Top(w, i)
    decreases 64 - k
  {
    if Top(w, k) then k else Clz(w, k + 1)
  }

  /** The first power that 64 bits do not hold. */
  lemma {:induction false} WordBound(width: nat)
    requires width == 64
    ensures Pow2(width) == U64
  {
    Squared(width / 64, 2);
    Squared(width / 32, 4);
    Squared(width / 16, 16);
    Squared(width / 8, 256);
    Squared(width / 4, 0x1_0000);
    Squared(width / 2, 0x1_0000_0000);
  }

  lemma {:induction false} Squared(n: nat, x: nat)
    requires Pow2(n) == x
    ensures Pow2(2 * n) == x * x
  {
    Pow2Sum(n, n);
  }

  lemma {:induction false} Pow2Sum(m: nat, n: nat)
    ensures Pow2(m + n) == Pow2(m) * Pow2(n)
  {
    if n > 0 { Pow2Sum(m, n - 1); }
  }

  lemma {:induction false} NonZeroHasTop(w: nat)
    requires 0 < w < U64
    ensures exists k :: 0 <= k < 64 && Top(w, k)
  {
    if forall k :: 0 <= k < 64 ==> !Top(w, k) {
      forall n | 0 <= n < 64 ensures !Bit(w, n) {
        assert !Top(w, 63 - n);
      }
      WordBound(64);
      NoBitIsZero(w, 64);
    }
  }

  /** `|= 1 << (63 - k)` and `&= ~(1 << (63 - k))` change bit `k` and no other. */
  lemma {:induction false} TopUpdates(w: nat, k: nat, m: nat)
    requires k < 64 && m < 64
    ensures Top(Or(w, Pow2(63 - k)), m) <==> m == k || Top(w, m)
    ensures Top(AndNot(w, Pow2(63 - k)), m) <==> m != k && Top(w, m)
  {
    BitOr(w, Pow2(63 - k), 63 - m);
    BitAndNot(w, Pow2(63 - k), 63 - m);
    BitPow2(63 - k, 63 - m);
  }
}
