/** Number printing of `kernel/lib/printk/printk.c`: digits are written into a local buffer
    from its end, with an 8-bit index that may wrap, and then put out from there on. */
module Printk {
  import opened Numeric

  const HEX_ALPHA: string := "0123456789abcdef"

  const LOG_LOOKUP: seq<int> := [64, 41, 32, 28, 25, 23, 22, 21, 20, 19, 18, 18, 17, 17, 16]

  /** `U64_MAX_LOG_BASE` */
  function Width(base: int): int
    requires 2 <= base <= 16
  {
    LOG_LOOKUP[base - 2]
  }

  /** An 8-bit value. */
  function Wrap8(i: int): int { i % 256 }

  // ---- what a digit string means ----------------------------------------------------------

  function DigitValue(c: char): int {
    if '0' <= c <= '9' then c as int - '0' as int
    else if 'a' <= c <= 'f' then c as int - 'a' as int + 10
    else -1
  }

  ghost predicate Digits(s: string, base: int) {
    forall i :: 0 <= i < |s| ==> 0 <= DigitValue(s[i]) < base
  }

  function Value(s: string, base: int): int {
    if s == [] then 0 else Value(s[..|s| - 1], base) * base + DigitValue(s[|s| - 1])
  }

  /** A number in the usual notation: digits, and no zero in front of others. */
  ghost predicate Numeral(s: string, base: int) {
    s != [] && Digits(s, base) && (|s| > 1 ==> DigitValue(s[0]) != 0)
  }

  function Pow(b: int, n: nat): int {
    if n == 0 then 1 else b * Pow(b, n - 1)
  }

  lemma {:induction false} PowAdd(b: int, m: nat, n: nat)
    ensures Pow(b, m + n) == Pow(b, m) * Pow(b, n)
  {
    if m > 0 {
      PowAdd(b, m - 1, n);
      calc {
        Pow(b, m + n);
        b * Pow(b, m - 1 + n);
        b * (Pow(b, m - 1) * Pow(b, n));
        Pow(b, m) * Pow(b, n);
      }
    }
  }

  /** Powers by squaring. */
  lemma {:induction false} PowTwice(b: int, n: nat, x: int)
    requires Pow(b, n) == x
    ensures Pow(b, 2 * n) == x * x && Pow(b, 2 * n + 1) == b * (x * x)
  {
    PowAdd(b, n, n);
    assert Pow(b, 2 * n + 1) == b * Pow(b, 2 * n);
  }

  /** The digits of a 64-bit number fit into the buffer, for every base of the table, and the
      largest needs all of it. */
  lemma {:induction false} WidthSuffices(base: int)
    requires 2 <= base <= 16
    ensures 0 < Width(base) <= 64 && Pow(base, Width(base) - 1) < U64 <= Pow(base, Width(base))
  {
    if base <= 4 { WidthUpTo4(base); } else if base <= 10 { WidthUpTo10(base); } else { WidthUpTo16(base); }
  }

  lemma {:induction false} WidthUpTo4(base: int)
    requires 2 <= base <= 4
    ensures Pow(base, Width(base) - 1) < U64 <= Pow(base, Width(base))
  {
    match base
    case 2 =>
      PowTwice(2, 1, 2); PowTwice(2, 2, 4); PowTwice(2, 4, 16); PowTwice(2, 8, 256);
      PowTwice(2, 16, 65536); PowTwice(2, 32, 4294967296);
    case 3 =>
      PowTwice(3, 1, 3); PowTwice(3, 2, 9); PowTwice(3, 5, 243); PowTwice(3, 10, 59049); PowTwice(3, 20, 3486784401);
    case 4 =>
      PowTwice(4, 1, 4); PowTwice(4, 2, 16); PowTwice(4, 4, 256); PowTwice(4, 8, 65536); PowTwice(4, 16, 4294967296);
  }

  lemma {:induction false} WidthUpTo10(base: int)
    requires 5 <= base <= 10
    ensures Pow(base, Width(base) - 1) < U64 <= Pow(base, Width(base))
  {
    match base
    case 5 => PowTwice(5, 1, 5); PowTwice(5, 3, 125); PowTwice(5, 7, 78125); PowTwice(5, 14, 6103515625);
    case 6 => PowTwice(6, 1, 6); PowTwice(6, 3, 216); PowTwice(6, 6, 46656); PowTwice(6, 12, 2176782336);
    case 7 => PowTwice(7, 1, 7); PowTwice(7, 2, 49); PowTwice(7, 5, 16807); PowTwice(7, 11, 1977326743);
    case 8 => PowTwice(8, 1, 8); PowTwice(8, 2, 64); PowTwice(8, 5, 32768); PowTwice(8, 11, 8589934592);
    case 9 => PowTwice(9, 1, 9); PowTwice(9, 2, 81); PowTwice(9, 5, 59049); PowTwice(9, 10, 3486784401);
    case 10 => PowTwice(10, 1, 10); PowTwice(10, 2, 100); PowTwice(10, 5, 100000); PowTwice(10, 10, 10000000000);
  }

  lemma {:induction false} WidthUpTo16(base: int)
    requires 11 <= base <= 16
    ensures Pow(base, Width(base) - 1) < U64 <= Pow(base, Width(base))
  {
    match base
    case 11 => PowTwice(11, 1, 11); PowTwice(11, 2, 121); PowTwice(11, 4, 14641); PowTwice(11, 9, 2357947691);
    case 12 => PowTwice(12, 1, 12); PowTwice(12, 2, 144); PowTwice(12, 4, 20736); PowTwice(12, 9, 5159780352);
    case 13 => PowTwice(13, 1, 13); PowTwice(13, 2, 169); PowTwice(13, 4, 28561); PowTwice(13, 9, 10604499373);
    case 14 => PowTwice(14, 1, 14); PowTwice(14, 2, 196); PowTwice(14, 4, 38416); PowTwice(14, 8, 1475789056);
    case 15 => PowTwice(15, 1, 15); PowTwice(15, 2, 225); PowTwice(15, 4, 50625); PowTwice(15, 8, 2562890625);
    case 16 => PowTwice(16, 1, 16); PowTwice(16, 2, 256); PowTwice(16, 4, 65536); PowTwice(16, 8, 4294967296);
  }

  lemma {:induction false} Distribute(q: int, b: int, d: int, p: int)
    ensures (q * b + d) * p == q * (b * p) + d * p
  {}

  lemma {:induction false} ValueCons(c: char, s: string, base: int)
    ensures Value([c] + s, base) == DigitValue(c) * Pow(base, |s|) + Value(s, base)
  {
    if s == [] {
      assert [c] + s == [c] && [c][..0] == [];
    } else {
      var t, d := s[..|s| - 1], DigitValue(s[|s| - 1]);
      assert ([c] + s)[..|s|] == [c] + t;
      ValueCons(c, t, base);
      Distribute(DigitValue(c), Pow(base, |t|), Value(t, base), base);
    }
  }

  lemma {:induction false} OneMoreDigit(v: int, p: int, base: int, d: int)
    requires 0 <= v < p && 0 <= d < base
    ensures 0 <= v * base + d < base * p
  {
    MulMonotone(v + 1, p, base);
    MulMonotone(0, v, base);
  }

  lemma {:induction false} ValueBounds(s: string, base: int)
    requires base >= 2 && Digits(s, base)
    ensures 0 <= Value(s, base) < Pow(base, |s|)
  {
    if s != [] {
      var t := s[..|s| - 1];
      ValueBounds(t, base);
      OneMoreDigit(Value(t, base), Pow(base, |t|), base, DigitValue(s[|s| - 1]));
    }
  }

  // ---- a number has one numeral -------------------------------------------------------------

  lemma {:induction false} PowGrows(b: int, m: nat, n: nat)
    requires b >= 1 && m <= n
    ensures 1 <= Pow(b, m) <= Pow(b, n)
  {
    if m < n {
      PowGrows(b, m, n - 1);
      MulMonotone(1, b, Pow(b, n - 1));
    } else if m > 0 {
      PowGrows(b, m - 1, n - 1);
      MulMonotone(1, b, Pow(b, m - 1));
    }
  }

  lemma {:induction false} LeadingDigit(s: string, base: int)
    requires base >= 2 && Numeral(s, base) && |s| > 1
    ensures Value(s, base) >= Pow(base, |s| - 1)
  {
    var t := s[1..];
    assert s == [s[0]] + t;
    ValueCons(s[0], t, base);
    ValueBounds(t, base);
    PowGrows(base, 0, |t|);
    MulMonotone(1, DigitValue(s[0]), Pow(base, |t|));
  }

  lemma {:induction false} ShorterIsLess(s: string, t: string, base: int)
    requires base >= 2 && Numeral(s, base) && Numeral(t, base) && |s| < |t|
    ensures Value(s, base) < Value(t, base)
  {
    ValueBounds(s, base);
    LeadingDigit(t, base);
    PowGrows(base, |s|, |t| - 1);
  }

  lemma {:induction false} SameQuotient(v: int, d: int, w: int, e: int, base: int)
    requires 0 <= d < base && 0 <= e < base && v * base + d == w * base + e
    ensures v == w && d == e
  {
    if v + 1 <= w { MulMonotone(v + 1, w, base); }
    if w + 1 <= v { MulMonotone(w + 1, v, base); }
  }

  lemma {:induction false} SameLastDigit(s: string, t: string, base: int)
    requires base >= 2 && Digits(s, base) && Digits(t, base) && |s| == |t| > 0 && Value(s, base) == Value(t, base)
    ensures var n := |s| - 1; s[n] == t[n] && Value(s[..n], base) == Value(t[..n], base)
  {
    var n := |s| - 1;
    SameQuotient(Value(s[..n], base), DigitValue(s[n]), Value(t[..n], base), DigitValue(t[n]), base);
  }

  lemma {:induction false} SameLength(s: string, t: string, base: int)
    requires base >= 2 && Digits(s, base) && Digits(t, base) && |s| == |t| && Value(s, base) == Value(t, base)
    ensures s == t
  {
    if s != [] {
      var n := |s| - 1;
      SameLastDigit(s, t, base);
      SameLength(s[..n], t[..n], base);
      assert s == s[..n] + [s[n]] && t == t[..n] + [t[n]];
    }
  }

  /** Two numerals of the same value are the same string. */
  lemma {:induction false} NumeralUnique(s: string, t: string, base: int)
    requires base >= 2 && Numeral(s, base) && Numeral(t, base) && Value(s, base) == Value(t, base)
    ensures s == t
  {
    if |s| < |t| { ShorterIsLess(s, t, base); }
    if |t| < |s| { ShorterIsLess(t, s, base); }
    SameLength(s, t, base);
  }

  // ---- printing -------------------------------------------------------------------------------

  lemma {:induction false} HexDigit(d: int)
    requires 0 <= d < 16
    ensures DigitValue(HEX_ALPHA[d]) == d
  {}

  /** What is left of `n` after `k` digits, and these digits. */
  ghost function Rest(n: int, base: int, k: nat): int
    requires base >= 2
  {
    if k == 0 then n else Rest(n, base, k - 1) / base
  }

  ghost function Tail(n: int, base: int, k: nat): string
    requires 2 <= base <= 16
  {
    if k == 0 then [] else [HEX_ALPHA[Rest(n, base, k - 1) % base]] + Tail(n, base, k - 1)
  }

  lemma {:induction false} Regroup(x: int, base: int, p: int, v: int)
    requires base >= 2
    ensures x * p + v == x / base * (base * p) + (x % base * p + v)
  {}

  lemma {:induction false} TailShape(n: int, base: int, k: nat)
    requires 2 <= base <= 16 && 0 <= n
    ensures |Tail(n, base, k)| == k && Digits(Tail(n, base, k), base) && 0 <= Rest(n, base, k)
  {
    if k > 0 {
      TailShape(n, base, k - 1);
      QuotientShrinks(Rest(n, base, k - 1), base);
      HexDigit(Rest(n, base, k - 1) % base);
    }
  }

  lemma {:induction false} TailValue(n: int, base: int, k: nat)
    requires 2 <= base <= 16 && 0 <= n
    ensures n == Rest(n, base, k) * Pow(base, k) + Value(Tail(n, base, k), base)
  {
    if k > 0 {
      TailShape(n, base, k - 1);
      TailValue(n, base, k - 1);
      var x, done := Rest(n, base, k - 1), Tail(n, base, k - 1);
      HexDigit(x % base);
      ValueCons(HEX_ALPHA[x % base], done, base);
      Regroup(x, base, Pow(base, k - 1), Value(done, base));
    }
  }

  /** Nothing is left of a 64-bit number when the buffer is full. */
  lemma {:induction false} StillRoom(n: int, base: int, k: nat)
    requires 2 <= base <= 16 && 0 <= n < U64 && Rest(n, base, k) > 0
    ensures k < Width(base)
  {
    WidthSuffices(base);
    TailShape(n, base, k);
    TailValue(n, base, k);
    ValueBounds(Tail(n, base, k), base);
    if k >= Width(base) {
      PowGrows(base, Width(base), k);
      MulMonotone(1, Rest(n, base, k), Pow(base, k));
    }
  }

  /** When nothing is left, the digits are all of the number. */
  lemma {:induction false} TailNumeral(n: int, base: int, k: nat)
    requires 2 <= base <= 16 && 0 <= n && k > 0 && Rest(n, base, k) == 0 && (k > 1 ==> Rest(n, base, k - 1) > 0)
    ensures Numeral(Tail(n, base, k), base) && Value(Tail(n, base, k), base) == n
  {
    TailShape(n, base, k);
    TailShape(n, base, k - 1);
    TailValue(n, base, k);
    var x := Rest(n, base, k - 1);
    HexDigit(x % base);
    SmallQuotient(x, base);
  }

  lemma {:induction false} SmallQuotient(x: int, base: int)
    requires base >= 2 && x >= 0 && x / base == 0
    ensures x % base == x
  {}

  /** The first loop of `putnbr`: fills the end of the buffer and returns where it starts. */
  method FillDigits(nbr: int, base: int, a: array<char>) returns (i: int, ghost k: nat)
    requires 2 <= base <= 16 && 0 <= nbr < U64 && a.Length == Width(base)
    modifies a
    ensures 0 <= i < a.Length && k == a.Length - i && a[i..] == Tail(nbr, base, k)
    ensures Rest(nbr, base, k) == 0 && (k > 1 ==> Rest(nbr, base, k - 1) > 0)
  {
    var log, rest := Width(base), nbr;
    LogSmall(base);
    i := Wrap8(log - 1);
    k := 0;
    while true
      invariant 0 <= k < log && i == log - 1 - k
      invariant rest == Rest(nbr, base, k) && (k > 0 ==> rest > 0) && rest >= 0 && a[log - k..] == Tail(nbr, base, k)
      decreases rest
    {
      ghost var done := a[log - k..];
      a[i] := HEX_ALPHA[rest % base];
      assert a[i..] == [HEX_ALPHA[rest % base]] + done;
      i := Wrap8(i - 1);
      QuotientShrinks(rest, base);
      rest := rest / base;
      k := k + 1;
      if rest == 0 {
        break;
      }
      StillRoom(nbr, base, k);
    }
    i := Wrap8(i + 1);
    assert i == log - k;
  }

  lemma {:induction false} LogSmall(base: int)
    requires 2 <= base <= 16
    ensures 0 < Width(base) <= 64
  {}

  lemma {:induction false} QuotientShrinks(x: int, base: int)
    requires base >= 2 && x >= 0
    ensures 0 <= x / base && (x / base > 0 ==> x / base < x)
  {}

  /** The second loop, of `putnbr` and `putptr` alike. */
  method Emit(a: array<char>, start: int) returns (out: string)
    requires 0 <= start <= a.Length < 256
    ensures out == a[start..]
  {
    var i := start;
    out := [];
    while i <= a.Length - 1
      invariant start <= i <= a.Length && out == a[start..i]
    {
      out := out + [a[i]];
      i := Wrap8(i + 1);
    }
  }

  /** `putnbr`: prints the numeral of `nbr`; by `NumeralUnique` there is no other. */
  method PutNbr(nbr: int, base: int) returns (out: string)
    requires 2 <= base <= 16 && 0 <= nbr < U64
    ensures Numeral(out, base) && Value(out, base) == nbr
  {
    LogSmall(base);
    var a := new char[Width(base)](_ => '0');
    var i, k := FillDigits(nbr, base, a);
    TailNumeral(nbr, base, k);
    out := Emit(a, i);
  }

  /** Sixteen digits hold every 64-bit value. */
  lemma {:induction false} TailOf16(n: int)
    requires 0 <= n < U64
    ensures Digits(Tail(n, 16, Width(16)), 16) && Value(Tail(n, 16, Width(16)), 16) == n
            && |Tail(n, 16, Width(16))| == 16
  {
    TailShape(n, 16, Width(16));
    TailValue(n, 16, Width(16));
    if Rest(n, 16, Width(16)) > 0 { StillRoom(n, 16, Width(16)); }
  }

  /** The first loop of `putptr`: all of the buffer. */
  method FillPtr(ptr: int, a: array<char>) returns (i: int)
    requires 0 <= ptr < U64 && a.Length == Width(16)
    modifies a
    ensures i == 0 && a[..] == Tail(ptr, 16, Width(16))
  {
    var log, rest := Width(16), ptr;
    assert log == 16;
    i := Wrap8(log - 1);
    ghost var k: nat := 0;
    while true
      invariant 0 <= k < log && i == log - 1 - k && rest == Rest(ptr, 16, k) && a[log - k..] == Tail(ptr, 16, k)
      decreases log - k
    {
      ghost var done := a[log - k..];
      a[i] := HEX_ALPHA[rest % 16];
      assert a[i..] == [HEX_ALPHA[rest % 16]] + done;
      i := Wrap8(i - 1);
      assert i == if k == log - 1 then 255 else log - 2 - k;
      rest := rest / 16;
      k := k + 1;
      if i == 255 {
        break;
      }
    }
    i := Wrap8(i + 1);
    assert k == log && a[log - k..] == a[..];
  }

  /** `putptr`: always sixteen digits. */
  method PutPtr(ptr: int) returns (out: string)
    requires 0 <= ptr < U64
    ensures |out| == 18 && out[..2] == "0x" && Digits(out[2..], 16) && Value(out[2..], 16) == ptr
  {
    var a := new char[Width(16)](_ => '0');
    var i := FillPtr(ptr, a);
    var digits := Emit(a, i);
    TailOf16(ptr);
    assert digits == a[..];
    out := ['0', 'x'] + digits;
    assert out[2..] == digits;
  }
}
