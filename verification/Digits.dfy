/** Digit arrays: the number that a little-endian run of BDIGITs stands for.

    bignum.c keeps an integer as an array of digits in base 2^BITSPERDIG and passes
    pieces of such arrays around as a pointer and a length.  A `Span` is that pair.
 */
module Digits {

  /** SIZEOF_BDIGIT * CHAR_BIT; the source is built with 16, 32 or 64. */
  type DigitBits = n: nat | 16 <= n && n % 8 == 0 witness 32

  /** Left without a value, so everything below holds for every digit width. */
  const BITSPERDIG: DigitBits

  function Pow2(e: nat): (r: nat)
    ensures r > 0
  {
    if e == 0 then 1 else 2 * Pow2(e - 1)
  }

  /** BIGRAD, the radix. */
  const B: int := Pow2(BITSPERDIG)

  /** A BDIGIT. */
  type Digit = d: nat | d < B witness (WitnessDigit(); 0)

  /** B to the n. */
  function Pw(n: nat): (r: nat)
    ensures r > 0
  {
    BPositive();
    if n == 0 then 1 else B * Pw(n - 1)
  }

  lemma PwZero()
    ensures Pw(0) == 1
  {
  }

  /** v shifted left by k digits: v * B^k. */
  function Shl(v: int, k: nat): int
  {
    v * Pw(k)
  }

  /** The value of the digits s[lo], ..., s[hi-1], least significant first. */
  function Val(s: seq<Digit>, lo: int, hi: int): nat
    decreases hi
  {
    if 0 <= lo < hi <= |s| then
      ShlNat(s[hi - 1], hi - 1 - lo);
      Val(s, lo, hi - 1) + Shl(s[hi - 1], hi - 1 - lo)
    else 0
  }

  lemma WitnessDigit()
    ensures 0 < B
  {
  }

  lemma BPositive()
    ensures B >= 65536
  {
    Pow2Monotone(16, BITSPERDIG);
    assert Pow2(4) == 16 && Pow2(8) == 16 * Pow2(4) && Pow2(12) == 16 * Pow2(8) && Pow2(16) == 16 * Pow2(12);
  }

  lemma Pow2Monotone(a: nat, b: nat)
    requires a <= b
    ensures Pow2(a) <= Pow2(b)
  {
    if a < b { Pow2Monotone(a, b - 1); }
  }

  lemma Pow2Zero()
    ensures Pow2(0) == 1
  {
  }

  lemma Pow2Next(e: nat)
    ensures Pow2(e + 1) == 2 * Pow2(e)
  {
  }

  lemma {:induction false} Pow2Add(a: nat, b: nat)
    ensures Pow2(a + b) == Pow2(a) * Pow2(b)
  {
    if a != 0 {
      Pow2Add(a - 1, b);
      MulAssoc(2, Pow2(a - 1), Pow2(b));
    }
  }

  lemma {:induction false} PwAdd(a: nat, b: nat)
    ensures Pw(a + b) == Pw(a) * Pw(b)
  {
    if a != 0 {
      PwAdd(a - 1, b);
      MulAssoc(B, Pw(a - 1), Pw(b));
    }
  }

  lemma MulAssoc(a: int, b: int, c: int)
    ensures a * (b * c) == (a * b) * c
  {
  }

  lemma {:induction false} PwMonotone(a: nat, b: nat)
    requires a <= b
    ensures Pw(a) <= Pw(b)
  {
    if a < b {
      PwMonotone(a, b - 1);
      BPositive();
      MulLe(1, B, Pw(b - 1));
    }
  }

  lemma MulLe(a: int, b: int, c: int)
    requires a <= b && 0 <= c
    ensures a * c <= b * c
  {
  }

  lemma ShlNat(v: int, k: nat)
    requires 0 <= v
    ensures 0 <= Shl(v, k)
  {
    MulLe(0, v, Pw(k));
  }

  lemma ValEmpty(s: seq<Digit>, lo: int)
    ensures Val(s, lo, lo) == 0
  {
  }

  lemma ValSnoc(s: seq<Digit>, lo: int, hi: int)
    requires 0 <= lo <= hi < |s|
    ensures Val(s, lo, hi + 1) == Val(s, lo, hi) + Shl(s[hi], hi - lo)
  {
  }

  lemma ValSingle(s: seq<Digit>, lo: int)
    requires 0 <= lo < |s|
    ensures Val(s, lo, lo + 1) == s[lo]
  {
    ShlUnit(s[lo]);
  }

  /** The same digits, possibly elsewhere, have the same value. */
  lemma {:induction false} ValSame(s: seq<Digit>, lo: int, t: seq<Digit>, to: int, n: nat)
    requires 0 <= lo && lo + n <= |s| && 0 <= to && to + n <= |t|
    requires forall k | lo <= k < lo + n :: s[k] == t[k - lo + to]
    ensures Val(s, lo, lo + n) == Val(t, to, to + n)
  {
    if n > 0 { ValSame(s, lo, t, to, n - 1); }
  }

  /** A part of an array whose digits did not change keeps its value. */
  lemma {:induction false} Kept(s: seq<Digit>, t: seq<Digit>, lo: int, hi: int)
    requires |s| == |t| && forall k | lo <= k < hi && 0 <= k < |s| :: t[k] == s[k]
    ensures Val(t, lo, hi) == Val(s, lo, hi)
    decreases hi
  {
    if 0 <= lo < hi <= |s| { Kept(s, t, lo, hi - 1); }
  }

  /** n digits hold exactly the numbers below B^n. */
  lemma {:induction false} ValBound(s: seq<Digit>, lo: int, hi: int)
    requires lo <= hi
    ensures Val(s, lo, hi) < Pw(hi - lo)
    decreases hi
  {
    if 0 <= lo < hi <= |s| {
      ValBound(s, lo, hi - 1);
      BoundStep(Val(s, lo, hi - 1), s[hi - 1], Pw(hi - 1 - lo));
    }
  }

  lemma BoundStep(v: int, d: int, p: int)
    requires v < p && d < B
    requires 0 <= p
    ensures v + d * p < B * p
  {
    MulLe(d, B - 1, p);
    assert (B - 1) * p == B * p - p;
  }

  /** A run cut in two. */
  lemma {:induction false} ValSplit(s: seq<Digit>, lo: int, mid: int, hi: int)
    requires 0 <= lo <= mid <= hi <= |s|
    ensures Val(s, lo, hi) == Val(s, lo, mid) + Shl(Val(s, mid, hi), mid - lo)
    decreases hi
  {
    hide Shl;
    if mid == hi {
      ShlZero(mid - lo);
    } else {
      ValSplit(s, lo, mid, hi - 1);
      ShlAdd(Val(s, mid, hi - 1), Shl(s[hi - 1], hi - 1 - mid), mid - lo);
      ShlShl(s[hi - 1], hi - 1 - mid, mid - lo);
    }
  }

  lemma ValCons(s: seq<Digit>, lo: int, hi: int)
    requires 0 <= lo < hi <= |s|
    ensures Val(s, lo, hi) == s[lo] + B * Val(s, lo + 1, hi)
  {
    hide Val;
    ValSplit(s, lo, lo + 1, hi);
    ValSingle(s, lo);
    ShlNext(Val(s, lo + 1, hi), 0);
    ShlUnit(B * Val(s, lo + 1, hi));
  }

  lemma {:induction false} ValZero(s: seq<Digit>, lo: int, hi: int)
    requires forall k | lo <= k < hi && 0 <= k < |s| :: s[k] == 0
    ensures Val(s, lo, hi) == 0
    decreases hi
  {
    if 0 <= lo < hi <= |s| {
      ValZero(s, lo, hi - 1);
      ShlZero(hi - 1 - lo);
    }
  }

  /** Only zero digits stand for 0. */
  lemma {:induction false} ZeroVal(s: seq<Digit>, lo: int, hi: int)
    requires 0 <= lo <= hi <= |s| && Val(s, lo, hi) == 0
    ensures forall k | lo <= k < hi :: s[k] == 0
    decreases hi
  {
    if lo < hi {
      ShlNat(s[hi - 1], hi - 1 - lo);
      if s[hi - 1] != 0 { MulLe(1, s[hi - 1], Pw(hi - 1 - lo)); }
      ZeroVal(s, lo, hi - 1);
    }
  }

  /** Digits beyond the size of the value are zero. */
  lemma HighZero(s: seq<Digit>, lo: int, hi: int, m: nat)
    requires 0 <= lo && lo + m <= hi <= |s| && Val(s, lo, hi) < Pw(m)
    ensures forall k | lo + m <= k < hi :: s[k] == 0
  {
    hide Val;
    var v := Val(s, lo + m, hi);
    ValSplit(s, lo, lo + m, hi);
    if v != 0 { MulLe(1, v, Pw(m)); }
    ZeroVal(s, lo + m, hi);
  }

  /** A value congruent to an in-range one modulo m is that value. */
  lemma ModUnique(a: int, b: int, k: int, m: int)
    requires a == b + k * m && 0 <= a < m && 0 <= b < m
    ensures k == 0 && a == b
  {
    if k >= 1 { MulLe(1, k, m); }
    if k <= -1 { MulLe(k, -1, m); }
  }

  /** Two runs of the same length with the same value have the same digits. */
  lemma {:induction false} ValInjective(s: seq<Digit>, lo: int, t: seq<Digit>, to: int, n: nat)
    requires 0 <= lo && lo + n <= |s| && 0 <= to && to + n <= |t|
    requires Val(s, lo, lo + n) == Val(t, to, to + n)
    ensures forall k | lo <= k < lo + n :: s[k] == t[k - lo + to]
  {
    if n > 0 {
      var m := n - 1;
      ValBound(s, lo, lo + m);
      ValBound(t, to, to + m);
      InjStep(Val(s, lo, lo + m), Val(t, to, to + m), s[lo + m], t[to + m], Pw(m));
      ValInjective(s, lo, t, to, m);
    }
  }

  lemma InjStep(a: int, b: int, c: int, d: int, p: int)
    requires 0 <= a < p && 0 <= b < p && a + c * p == b + d * p
    ensures a == b && c == d
  {
    ModUnique(a, b, d - c, p);
  }

  /** BIGDN: arithmetic right shift by a digit. */
  function BigDn(n: int): int
  {
    BPositive();
    n / B
  }

  /** BIGLO: the low digit, also of a negative number in two's complement. */
  function BigLo(n: int): Digit
  {
    BPositive();
    n % B
  }

  lemma LoDn(n: int)
    ensures n == BigLo(n) + B * BigDn(n)
  {
    BPositive();
  }

  /** The carry out of a digit step is bounded by the sum that produced it. */
  lemma DnRange(n: int, lo: int, hi: int)
    requires lo * B <= n < hi * B
    ensures lo <= BigDn(n) < hi
  {
    LoDn(n);
    BPositive();
    if BigDn(n) < lo { MulLe(BigDn(n), lo - 1, B); }
    if BigDn(n) >= hi { MulLe(hi, BigDn(n), B); }
  }

  /** BDIGIT_DBL, an unsigned double digit. */
  type Dbl = n: nat | n < B * B witness (BPositive(); 0)

  /** BDIGIT_DBL_SIGNED. */
  type DblSigned = n: int | -(B * B) <= 2 * n < B * B witness (BPositive(); 0)

  lemma SmallFits(n: int)
    requires -4 * B <= n <= 4 * B
    ensures n < B * B && -(B * B) <= 2 * n < B * B
  {
    BPositive();
    MulLe(65536, B, B);
  }

  /** The digits that a span had at some moment: those of s from lo to hi. */
  datatype Run = Run(s: seq<Digit>, lo: nat, hi: nat)
  {
    predicate Ok() { lo <= hi <= |s| }

    function Len(): int { hi - lo }

    function Num(): nat { Val(s, lo, hi) }
  }

  /** The digit at position i of a run that is continued by zeros. */
  function Dig(r: Run, i: nat): Digit
  {
    BPositive();
    if r.lo + i < r.hi <= |r.s| then r.s[r.lo + i] else 0
  }

  /** The value of the first i digits of a run that is continued by zeros. */
  function Pre(r: Run, i: nat): nat
  {
    Val(r.s, r.lo, if r.lo + i <= r.hi then r.lo + i else r.hi)
  }

  lemma PreStep(r: Run, i: nat)
    requires r.Ok()
    ensures Pre(r, i + 1) == Pre(r, i) + Shl(Dig(r, i), i)
  {
    hide Shl;
    if r.lo + i >= r.hi { ShlZero(i); }
  }

  lemma PreZero(r: Run)
    requires r.Ok()
    ensures Pre(r, 0) == 0
  {
  }

  lemma PreAll(r: Run, i: nat)
    requires r.Ok() && r.Len() <= i
    ensures Pre(r, i) == r.Num()
  {
  }

  lemma PreVal(r: Run, i: nat)
    requires r.Ok() && i <= r.Len()
    ensures Pre(r, i) == Val(r.s, r.lo, r.lo + i)
  {
  }

  lemma ShlAdd(a: int, b: int, k: nat)
    ensures Shl(a + b, k) == Shl(a, k) + Shl(b, k)
  {
  }

  lemma ShlZero(k: nat)
    ensures Shl(0, k) == 0
  {
  }

  lemma ShlUnit(v: int)
    ensures Shl(v, 0) == v
  {
  }

  lemma ShlShl(v: int, j: nat, k: nat)
    ensures Shl(Shl(v, j), k) == Shl(v, j + k)
  {
    PwAdd(j, k);
    MulAssoc(v, Pw(j), Pw(k));
  }

  lemma ShlNext(v: int, k: nat)
    ensures Shl(B * v, k) == Shl(v, k + 1)
  {
    MulAssoc(v, B, Pw(k));
  }

  /** A product kept apart from the rest of the arithmetic. */
  function Mul(a: int, b: int): int
  {
    a * b
  }

  lemma MulDef(a: int, b: int)
    ensures Mul(a, b) == a * b
  {
  }

  lemma MulComm(a: int, b: int)
    ensures Mul(a, b) == Mul(b, a)
  {
  }

  lemma MulAdd(a: int, b: int, c: int)
    ensures Mul(a, b + c) == Mul(a, b) + Mul(a, c)
  {
  }

  lemma MulShl(a: int, b: int, k: nat)
    ensures Mul(a, Shl(b, k)) == Shl(a * b, k) == Shl(Mul(a, b), k)
  {
    MulAssoc(a, b, Pw(k));
  }

  /** The product of a number and a growing prefix. */
  lemma MulPreStep(x: int, s: Run, i: nat)
    requires s.Ok()
    ensures Mul(x, Pre(s, i + 1)) == Mul(x, Pre(s, i)) + Shl(x * Dig(s, i), i)
  {
    hide Mul, Shl, Pre;
    PreStep(s, i);
    MulAdd(x, Pre(s, i), Shl(Dig(s, i), i));
    MulShl(x, Dig(s, i), i);
  }

  /** carry + x * y + z of digits fits in a double digit, and so does its high half in a digit. */
  lemma MulAddFits(n: Digit, x: Digit, y: Digit, z: Digit)
    ensures 0 <= n as int + x as int * y <= n as int + x as int * y + z < B * B
    ensures 0 <= BigDn(n as int + x as int * y + z) < B
  {
    MulLe(x, B - 1, y);
    MulLe(y, B - 1, B - 1);
    assert (B - 1) * (B - 1) + 2 * (B - 1) == B * B - 1;
    MulLe(0, x, y);
    DnRange(n as int + x as int * y + z, 0, B);
  }

  /** One digit of a carry loop: num is the carry in, lo the digit stored, hi the carry out. */
  lemma CarryStep(done: int, num: int, i: nat, rhs: int, add: int, lo: int, hi: int)
    requires done + Shl(num, i) == rhs
    requires num + add == lo + B * hi
    ensures done + Shl(lo, i) + Shl(hi, i + 1) == rhs + Shl(add, i)
  {
    hide Shl;
    ShlAdd(num, add, i);
    ShlAdd(lo, B * hi, i);
    ShlNext(hi, i);
  }

  /** A pointer and a length: the digits a[lo], ..., a[hi-1]. */
  datatype Span = Span(a: array<Digit>, lo: nat, hi: nat)
  {
    ghost predicate Ok() { lo <= hi <= a.Length }

    function Len(): (n: int) { hi - lo }

    ghost function Num(): (v: nat)
      reads a
    {
      Val(a[..], lo, hi)
    }

    ghost function Snap(): (r: Run)
      reads a
    {
      Run(a[..], lo, hi)
    }

    /** ptr + k, length n - k */
    function Drop(k: nat): (s: Span)
    { Span(a, lo + k, hi) }

    /** ptr + i, length j - i */
    function Sub(i: nat, j: nat): (s: Span)
    { Span(a, lo + i, lo + j) }

    /** ptr, length k */
    function Take(k: nat): (s: Span)
    { Span(a, lo, lo + k) }
  }

  ghost predicate Disjoint(s: Span, t: Span)
  {
    s.a != t.a || s.hi <= t.lo || t.hi <= s.lo
  }

  /** The operand may be read digit by digit while z is written digit by digit. */
  ghost predicate Readable(z: Span, x: Span)
  {
    Disjoint(z, x) || (z.a == x.a && z.lo == x.lo)
  }

  /** The operand may be read digit by digit while z is written digit by digit, both from the top down. */
  ghost predicate ReadableDown(z: Span, x: Span)
  {
    Disjoint(z, x) || (z.a == x.a && x.lo <= z.lo)
  }

  /** Everything of z's array outside z is what it was. */
  twostate predicate Frame(z: Span)
    reads z.a
  {
    forall k | 0 <= k < z.a.Length && (k < z.lo || z.hi <= k) :: z.a[k] == old(z.a[k])
  }
}
