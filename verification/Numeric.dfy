/** Arithmetic macros of the kernel: `kernel/lib/math/math.h` and the address
    macros of `kernel/arch/x86_64/mm/paging.h`.

    All quantities are unbounded integers standing for `u64` values; masks and
    shifts by constants are written as remainders and quotients by powers of two. */
module Numeric {

  const PAGE: int := 0x1000
  /** Number of pages in a 48-bit address space. */
  const PAGES: int := 0x10_0000_0000
  const U64: int := 0x1_0000_0000_0000_0000
  /** Byte counts of 64 bits spell page counts modulo this. */
  const PAGES64: int := 0x10_0000_0000_0000

  /** `(u64)a - b` for 64-bit operands. */
  function Sub64(a: int, b: int): int {
    if a >= b then a - b else a - b + U64
  }

  /** `(u64)a + b` for 64-bit operands. */
  function Add64(a: int, b: int): int {
    if a + b >= U64 then a + b - U64 else a + b
  }

  /** `ROUNDUP`: `(nb + sz) & ~(sz - 1)` for a power of two `sz`. */
  function RoundUp(nb: int, sz: int): (r: int)
    requires sz > 0
  {
    (nb + sz) - (nb + sz) % sz
  }

  predicate IsAligned(a: int, n: int)
    requires n > 0
  {
    a % n == 0
  }

  function Max(a: int, b: int): int { if a > b then a else b }

  function Min(a: int, b: int): int { if a < b then a else b }

  /** `ROUNDUP` is strictly upward: an aligned argument moves by a whole step. */
  lemma {:induction false} RoundUpIsNextMultiple(nb: int, sz: int, m: int)
    requires sz > 0
    ensures nb < RoundUp(nb, sz) <= nb + sz
    ensures IsAligned(RoundUp(nb, sz), sz)
    ensures nb < m && IsAligned(m, sz) ==> RoundUp(nb, sz) <= m
  {
    var q, t := (nb + sz) / sz, m / sz;
    assert RoundUp(nb, sz) == q * sz;
    MultipleIsAligned(q, sz);
    if nb < m && IsAligned(m, sz) {
      assert m == t * sz;
      MultipleAbove(q, t, sz, nb);
    }
  }

  lemma {:induction false} MultipleIsAligned(q: int, sz: int)
    requires sz > 0
    ensures (q * sz) % sz == 0
  {
    var x := q * sz;
    var d, r := x / sz, x % sz;
    assert x == d * sz + r && (q - d) * sz == r;
    if q - d >= 1 { MulMonotone(1, q - d, sz); }
    if q - d <= -1 { MulMonotone(q - d, -1, sz); }
  }

  lemma {:induction false} MultipleAbove(q: int, t: int, sz: int, nb: int)
    requires sz > 0 && nb < t * sz && q * sz <= nb + sz
    ensures q * sz <= t * sz
  {
    if t + 1 <= q { MulMonotone(t + 1, q, sz); }
    if q <= t { MulMonotone(q, t, sz); }
  }

  lemma {:induction false} MulMonotone(a: int, b: int, n: int)
    requires a <= b && n >= 0
    ensures a * n <= b * n
  {}

  /** Hence `ROUNDUP(x - 1, n)` is the usual ceiling, as the physical map uses it. */
  lemma {:induction false} RoundUpCeiling(x: int, sz: int, m: int)
    requires sz > 0
    ensures x <= RoundUp(x - 1, sz) < x + sz
    ensures IsAligned(RoundUp(x - 1, sz), sz)
    ensures x <= m && IsAligned(m, sz) ==> RoundUp(x - 1, sz) <= m
    ensures IsAligned(x, sz) ==> RoundUp(x - 1, sz) == x
  {
    RoundUpIsNextMultiple(x - 1, sz, m);
    RoundUpIsNextMultiple(x - 1, sz, x);
  }

  // ---- address macros --------------------------------------------------------

  /** `PAGE_ADDR(a, PAGE_SIZE_IN_BYTES)` */
  function PageAddr(a: int): int { a - a % PAGE }

  /** `IS_ALIGNED(a, PAGE_SIZE_IN_BYTES)` */
  predicate PageAligned(a: int) { a % 0x1000 == 0 }

  lemma {:induction false} PageAddrAligned(a: int)
    ensures PageAligned(PageAddr(a)) && PageAddr(a) <= a < PageAddr(a) + PAGE
  {}

  lemma {:induction false} PagesApart(a: int, b: int)
    requires PageAligned(a) && PageAligned(b)
    ensures b == a + (b - a) / 0x1000 * 0x1000
  {}

  function Pml4Index(va: int): int { (va / 0x80_0000_0000) % 512 }

  function PdptIndex(va: int): int { (va / 0x4000_0000) % 512 }

  function PdtIndex(va: int): int { (va / 0x20_0000) % 512 }

  function PtIndex(va: int): int { (va / 0x1000) % 512 }

  const LOWER_STOP: int := 0x8000_0000_0000
  const HIGHER_START: int := 0xffff_8000_0000_0000

  /** The addresses the processor can translate: bits 48 to 63 repeat bit 47. */
  predicate Canonical(va: int) {
    0 <= va < LOWER_STOP || HIGHER_START <= va < U64
  }

  /** An aligned canonical address, the only kind the MMU code is called with. */
  predicate PageVa(va: int) {
    Canonical(va) && PageAligned(va)
  }

  /** The 36-bit number that the four table indices spell out. */
  function PageNo(va: int): int { (va / PAGE) % PAGES }

  lemma {:induction false} IndicesSpellPageNo(va: int)
    requires 0 <= va < U64
    ensures 0 <= PageNo(va) < 0x10_0000_0000
    ensures PageNo(va) % 512 == PtIndex(va)
    ensures PageNo(va) / 512 % 512 == PdtIndex(va)
    ensures PageNo(va) / 512 / 512 % 512 == PdptIndex(va)
    ensures PageNo(va) / 512 / 512 / 512 == Pml4Index(va)
  {
    SplitShift(va);
    LowIndex(va / 0x1000);
  }

  lemma {:induction false} SplitShift(va: int)
    ensures va / 0x20_0000 == va / 0x1000 / 512
    ensures va / 0x4000_0000 == va / 0x1000 / 512 / 512
    ensures va / 0x80_0000_0000 == va / 0x1000 / 512 / 512 / 512
  {}

  /** The indices of a page number do not depend on bits above the 36th. */
  lemma {:induction false} LowIndex(p: int)
    ensures var n := p % 0x10_0000_0000;
            && n % 512 == p % 512
            && n / 512 % 512 == p / 512 % 512
            && n / 512 / 512 % 512 == p / 512 / 512 % 512
            && n / 512 / 512 / 512 == p / 512 / 512 / 512 % 512
  {
    var n, h := p % 0x10_0000_0000, p / 0x10_0000_0000;
    assert p == 512 * (0x800_0000 * h) + n;
    assert p / 512 == 512 * (0x4_0000 * h) + n / 512;
    assert p / 512 / 512 == 512 * (512 * h) + n / 512 / 512;
    assert p / 512 / 512 / 512 == 512 * h + n / 512 / 512 / 512;
    AddMultiple(0x800_0000 * h, n);
    AddMultiple(0x4_0000 * h, n / 512);
    AddMultiple(512 * h, n / 512 / 512);
    AddMultiple(h, n / 512 / 512 / 512);
  }

  lemma {:induction false} AddMultiple(k: int, n: int)
    ensures (512 * k + n) % 512 == n % 512
  {}

  /** Two aligned canonical addresses with the same four indices are the same. */
  lemma {:induction false} IndicesInjective(v: int, w: int)
    requires PageVa(v) && PageVa(w)
    requires Pml4Index(v) == Pml4Index(w) && PdptIndex(v) == PdptIndex(w)
    requires PdtIndex(v) == PdtIndex(w) && PtIndex(v) == PtIndex(w)
    ensures v == w
  {
    IndicesSpellPageNo(v);
    IndicesSpellPageNo(w);
    assert PageNo(v) == PageNo(w);
    PageNoInjective(v, w);
  }

  lemma {:induction false} PageNoInjective(v: int, w: int)
    requires PageVa(v) && PageVa(w) && PageNo(v) == PageNo(w)
    ensures v == w
  {
    PageNoValue(v);
    PageNoValue(w);
    PageIndexInjective(v, w);
  }

  lemma {:induction false} PageNoValue(va: int)
    ensures PageNo(va) == va / 0x1000 % 0x10_0000_0000
  {}

  lemma {:induction false} PageIndexInjective(v: int, w: int)
    requires PageVa(v) && PageVa(w) && v / 0x1000 % 0x10_0000_0000 == w / 0x1000 % 0x10_0000_0000
    ensures v == w
  {
    assert v == (v / 0x1000) * 0x1000 && w == (w / 0x1000) * 0x1000;
  }
}
