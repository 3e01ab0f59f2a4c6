/** Shifts by less than a digit (bignum.c, bary_small_lshift and bary_small_rshift). */
module BaryShift {
  import opened Digits
  import opened BaryMulBasic

  /** Below a digit, powers of two divide the radix. */
  lemma ShiftRadix(s: nat)
    requires s < BITSPERDIG
    ensures Pow2(s) * Pow2(BITSPERDIG - s) == B && Pow2(s) < B && 2 <= Pow2(BITSPERDIG - s)
  {
    Pow2Add(s, BITSPERDIG - s);
    Pow2Monotone(1, BITSPERDIG - s);
    MulLe(2, Pow2(BITSPERDIG - s), Pow2(s));
  }

  lemma LshiftFits(num: int, d: Digit, p: int)
    requires 0 <= num < p < B
    ensures 0 <= num + p * d < B * B
    ensures 0 <= BigDn(num + p * d) < p
  {
    MulLe(d, B - 1, p);
    MulLe(0, d, p);
    MulLe(p, B, B);
    assert p * (B - 1) == p * B - p;
    DnRange(num + p * d, 0, p);
  }

  /** z = x * 2^shift without the digit shifted out, which is returned.  The carry num stays
      below 2^shift, so the bitwise or of the source is a sum. */
  method BarySmallLshift(z: Span, x: Span, shift: nat) returns (out: Digit)
    requires z.Ok() && x.Ok() && z.Len() == x.Len() && Readable(z, x)
    requires shift < BITSPERDIG
    modifies z.a
    ensures out < Pow2(shift)
    ensures z.Num() + Shl(out, z.Len()) == Pow2(shift) * old(x.Num())
    ensures Frame(z)
  {
    hide Shl, Val, Pre, Pw, Mul, Pow2;
    ghost var X := x.Snap();
    var p := Pow2(shift);
    ShiftRadix(shift);
    var num: Digit := 0;
    var i := 0;
    PreZero(X); ShlUnit(0); MulDef(p, 0);
    ValEmpty(z.a[..], z.lo);
    while i < x.Len()
      invariant 0 <= i <= x.Len() && num < p
      invariant Val(z.a[..], z.lo, z.lo + i) + Shl(num, i) == Mul(p, Pre(X, i))
      invariant Frame(z.Take(i))
    {
      var xi := x.a[x.lo + i];
      assert xi == Dig(X, i);
      MulPreStep(p, X, i);
      LshiftFits(num, xi, p);
      var sum: Dbl := num + p * xi;
      num := StoreStep(z, i, sum, num, p * xi, Mul(p, Pre(X, i)));
      i := i + 1;
    }
    PreAll(X, i);
    MulDef(p, X.Num());
    out := num;
  }

  lemma DivUnique(n: int, p: int, t: int, v: int)
    requires 0 < p && n == p * t + v && 0 <= v < p
    ensures n / p == t && n % p == v
  {
    var q := n / p;
    assert n == p * q + n % p;
    ModUnique(n % p, v, t - q, p);
  }

  lemma DivMod(n: int, p: int)
    requires 0 < p
    ensures n == p * (n / p) + n % p && 0 <= n % p < p
  {
  }

  /** The quotient by p of the digit pair prev, x, where p divides the radix. */
  lemma PairQuotient(prev: int, x: int, p: int, q: int, a: int, b: int, u: int, v: int)
    requires 0 < p && p * q == B && 0 <= v < p
    requires prev == p * a + b && x == p * u + v
    ensures (B * prev + x) / p == B * a + (b * q + u)
  {
    calc {
      B * prev + x;
      B * (p * a + b) + x;
      { assert B * (p * a) == p * (B * a); assert B * b == p * (b * q); }
      p * (B * a) + p * (b * q) + p * u + v;
      p * (B * a + (b * q + u)) + v;
    }
    DivUnique(B * prev + x, p, B * a + (b * q + u), v);
  }

  /** Its low digit takes the low bits b of prev and the high bits u of x. */
  lemma PairLow(p: int, q: int, a: int, b: int, u: int)
    requires 0 < p && p * q == B && 0 <= b < p && 0 <= u < q
    ensures BigLo(B * a + (b * q + u)) == b * q + u
  {
    var t := b * q + u;
    MulLe(b, p - 1, q);
    MulLe(0, b, q);
    assert (p - 1) * q == B - q;
    var n := B * a + t;
    LoDn(n);
    assert n - B * BigDn(n) == t + (a - BigDn(n)) * B;
    ModUnique(BigLo(n), t, a - BigDn(n), B);
  }

  lemma QuotientBound(x: int, p: int, q: int)
    requires 0 < p && 0 <= x < p * q
    ensures 0 <= x / p < q
  {
    var u := x / p;
    DivMod(x, p);
    if u >= q { MulLe(q, u, p); }
    if u < 0 { MulLe(u, -1, p); }
  }

  /** What a shift by log2 p drops from x. */
  function Dropped(x: int, p: int): int
    requires p > 0
  {
    x % p
  }

  /** The digit stored by a right shift, prev being the digit above x. */
  function Shifted(prev: Digit, x: Digit, p: int): Digit
    requires p > 0
  {
    BigLo((B * prev + x) / p)
  }

  /** One digit of a right shift: prev is the digit above x. */
  lemma RshiftDigit(prev: Digit, x: Digit, p: nat, q: nat)
    requires 0 < p && p * q == B
    ensures Shifted(prev, x, p) * p + Dropped(x, p) == Dropped(prev, p) * B + x
    ensures 0 <= B * prev + x < B * B
  {
    hide BigLo, BigDn;
    var a, b, u, v := prev / p, prev % p, x / p, x % p;
    DivMod(prev, p); DivMod(x, p);
    QuotientBound(x, p, q);
    PairQuotient(prev, x, p, q, a, b, u, v);
    PairLow(p, q, a, b, u);
    PairValue(p, q, b, u, v, x);
    PairFits(prev, x);
  }

  lemma PairValue(p: int, q: int, b: int, u: int, v: int, x: int)
    requires p * q == B && x == p * u + v
    ensures (b * q + u) * p + v == b * B + x
  {
    assert (b * q + u) * p == b * (p * q) + p * u;
  }

  lemma PairFits(prev: Digit, x: Digit)
    ensures 0 <= B * prev + x < B * B
  {
    MulLe(prev, B - 1, B);
    MulLe(0, prev, B);
    assert B * (B - 1) == B * B - B;
  }

  method ShiftPair(prev: Digit, x: Digit, p: nat) returns (d: Digit)
    requires p > 0
    ensures d == Shifted(prev, x, p)
  {
    PairFits(prev, x);
    var num: Dbl := B * prev + x;
    d := BigLo(num / p);
  }

  lemma RshiftStep(d: Digit, after: int, X: Run, m: nat, h: int, p: nat, r: int)
    requires X.Ok() && 0 < m <= X.Len() && 0 < p
    requires Mul(after, p) + r == Val(X.s, X.lo + m, X.hi) + Shl(h, X.Len() - m)
    requires d * p + Dropped(X.s[X.lo + m - 1], p) == r * B + X.s[X.lo + m - 1]
    ensures Mul(d + B * after, p) + Dropped(X.s[X.lo + m - 1], p)
         == Val(X.s, X.lo + m - 1, X.hi) + Shl(h, X.Len() - m + 1)
  {
    hide Val, Shl, Dropped;
    var x := X.s[X.lo + m - 1];
    ValCons(X.s, X.lo + m - 1, X.hi);
    ShlNext(h, X.Len() - m);
    MulShl(B, h, X.Len() - m);
    RshiftAlgebra(d, after, p, r, Dropped(x, p), x, Val(X.s, X.lo + m, X.hi), Shl(h, X.Len() - m));
  }

  lemma RshiftAlgebra(d: int, a: int, p: int, r: int, e: int, x: int, y: int, s: int)
    requires a * p + r == y + s && d * p + e == r * B + x
    ensures (d + B * a) * p + e == x + B * y + B * s
  {
    assert (d + B * a) * p == d * p + B * (a * p);
    assert B * (y + s) == B * y + B * s;
    assert B * (a * p + r) == B * (a * p) + r * B;
  }

  /** z = (higher * B^n + x) >> shift, modulo B^n: the low bits of x are dropped and the low
      bits of higher come in at the top.  Digits are adjacent, so the bitwise or is a sum. */
  method BarySmallRshift(z: Span, x: Span, shift: nat, higher: Digit)
    requires z.Ok() && x.Ok() && z.Len() == x.Len() && ReadableDown(z, x)
    requires shift < BITSPERDIG
    modifies z.a
    ensures z.Len() > 0 ==>
      z.Num() * Pow2(shift) + Dropped(old(x.a[x.lo]), Pow2(shift))
      == old(x.Num()) + Shl(Dropped(higher, Pow2(shift)), z.Len())
    ensures Frame(z)
  {
    hide Shl, Val, Pw, Mul, Pow2, Dropped, Shifted;
    ghost var X := x.Snap();
    var p := Pow2(shift);
    ghost var q := Pow2(BITSPERDIG - shift);
    ShiftRadix(shift);
    var m := x.Len();
    var prev := higher;
    ValEmpty(z.a[..], z.hi); ValEmpty(X.s, X.hi);
    ShlUnit(Dropped(higher, p)); MulDef(0, p);
    while m > 0
      invariant 0 <= m <= x.Len()
      invariant prev == if m == X.Len() then higher else X.s[X.lo + m]
      invariant Mul(Val(z.a[..], z.lo + m, z.hi), p) + Dropped(prev, p)
             == Val(X.s, X.lo + m, X.hi) + Shl(Dropped(higher, p), X.Len() - m)
      invariant Frame(z.Drop(m))
    {
      var xm := x.a[x.lo + m - 1];
      assert xm == X.s[X.lo + m - 1];
      RshiftDigit(prev, xm, p, q);
      ghost var after := Val(z.a[..], z.lo + m, z.hi);
      var d := ShiftPair(prev, xm, p);
      RshiftStep(d, after, X, m, Dropped(higher, p), p, Dropped(prev, p));
      prev := xm;
      PushDigit(z, m - 1, d);
      m := m - 1;
    }
    MulDef(z.Num(), p);
  }

  /** z[i] = d, below digits that are already there. */
  method PushDigit(z: Span, i: nat, d: Digit)
    requires z.Ok() && i < z.Len()
    modifies z.a
    ensures Val(z.a[..], z.lo + i, z.hi) == d + B * old(Val(z.a[..], z.lo + i + 1, z.hi))
    ensures z.a[z.lo + i] == d
    ensures forall k | 0 <= k < z.a.Length && k != z.lo + i :: z.a[k] == old(z.a[k])
  {
    hide Val;
    z.a[z.lo + i] := d;
    Kept(old(z.a[..]), z.a[..], z.lo + i + 1, z.hi);
    ValCons(z.a[..], z.lo + i, z.hi);
  }
}
