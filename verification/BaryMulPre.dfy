/** What the multiplication dispatcher settles without recursion (bignum.c, bary_mul_precheck). */
module BaryMulPre {
  import opened Digits
  import opened BaryAdd
  import opened BaryMulBasic
  import opened BaryShift
  import opened KaratsubaSteps

  lemma JoinVal(z: Span, k: nat)
    requires z.Ok() && k <= z.Len()
    ensures z.Num() == z.Take(k).Num() + Shl(z.Drop(k).Num(), k)
  {
    hide Val, Shl;
    ValSplit(z.a[..], z.lo, z.lo + k, z.hi);
  }

  /** t is part of x. */
  ghost predicate Within(t: Span, x: Span)
  {
    t.a == x.a && x.lo <= t.lo <= t.hi <= x.hi
  }

  /** BARY_TRUNC: drop the leading (most significant) zero digits. */
  method BaryTrunc(x: Span) returns (t: Span)
    requires x.Ok()
    ensures Within(t, x) && t.lo == x.lo && t.Num() == x.Num()
    ensures t.Len() > 0 ==> t.a[t.hi - 1] != 0
    ensures forall k | t.hi <= k < x.hi :: x.a[k] == 0
  {
    var n := x.hi;
    while n > x.lo && x.a[n - 1] == 0
      invariant x.lo <= n <= x.hi
      invariant forall k | n <= k < x.hi :: x.a[k] == 0
    {
      n := n - 1;
    }
    t := Span(x.a, x.lo, n);
    JoinVal(x, n - x.lo);
    ValZero(x.a[..], n, x.hi);
    ShlZero(n - x.lo);
  }

  /** Drop the leading and then the trailing zero digits; k counts the latter. */
  method TrimZeros(x: Span) returns (t: Span, k: nat)
    requires x.Ok()
    ensures Within(t, x) && t.lo == x.lo + k && t.Ok()
    ensures x.Num() == Shl(t.Num(), k)
    ensures t.Len() > 0 ==> t.a[t.hi - 1] != 0 && t.a[t.lo] != 0
    ensures t.Len() == 0 ==> k == 0 && x.Num() == 0
  {
    hide Shl, Val, Pw;
    var u := BaryTrunc(x);
    k := 0;
    ShlUnit(u.Num());
    while u.lo + k < u.hi && u.a[u.lo + k] == 0
      invariant u.lo + k <= u.hi
      invariant u.Len() > 0 ==> u.lo + k < u.hi
      invariant forall j | u.lo <= j < u.lo + k :: u.a[j] == 0
    {
      k := k + 1;
    }
    t := u.Drop(k);
    JoinVal(u, k);
    ValZero(u.a[..], u.lo, u.lo + k);
    if t.Len() == 0 {
      assert u.Len() == 0;
      ValEmpty(u.a[..], u.lo);
    }
  }

  /** bit_length: the number of bits up to and including the highest one that is set. */
  function BitLength(d: nat): (n: nat)
    ensures d > 0 ==> n > 0 && Pow2(n - 1) <= d < Pow2(n)
    ensures d == 0 ==> n == 0
  {
    if d == 0 then 0 else 1 + BitLength(d / 2)
  }

  /** POW2_P for a non-zero digit: only its highest bit is set. */
  predicate IsPow2(d: nat)
    requires d > 0
  {
    d == Pow2(BitLength(d) - 1)
  }

  lemma BitLengthDigit(d: Digit)
    requires d > 0
    ensures BitLength(d) - 1 < BITSPERDIG
  {
    var n: nat := BitLength(d) - 1;
    if BITSPERDIG <= n { Pow2Monotone(BITSPERDIG, n); }
  }

  /** A single-digit factor. */
  method MulSmall(z: Span, x: Span, y: Span)
    requires z.Ok() && x.Ok() && y.Ok()
    requires x.Len() + y.Len() <= z.Len() && Disjoint(z, x) && Disjoint(z, y)
    requires x.Len() <= 1 && x.Len() <= y.Len()
    requires x.Len() == 1 ==> x.a[x.lo] != 0
    modifies z.a
    ensures z.Num() == old(x.Num()) * old(y.Num())
    ensures Frame(z)
  {
    hide Shl, Val, Pw, Pow2;
    if x.Len() == 0 {
      ValEmpty(x.a[..], x.lo);
      BdigitsZero(z);
      return;
    }
    var d := x.a[x.lo];
    ValSingle(x.a[..], x.lo);
    ghost var vy := y.Num();
    assert x.Num() * vy == d * vy;
    if d == 1 {
      CopyPadded(z, y);
      return;
    }
    if IsPow2(d) {
      MulPow2(z, d, y);
      return;
    }
    if y.Len() == 1 && y.a[y.lo] == 1 {
      ValSingle(y.a[..], y.lo);
      CopyPadded(z, x);
      return;
    }
    BaryMulNormal(z, x, y);
  }

  /** Zero what lies above the first n digits. */
  method ZeroAbove(z: Span, n: nat)
    requires z.Ok() && n <= z.Len()
    modifies z.a
    ensures z.Num() == old(z.Take(n).Num())
    ensures forall k | z.lo + n <= k < z.hi :: z.a[k] == 0
    ensures Frame(z.Drop(n))
  {
    hide Shl, Val, Pw;
    BdigitsZero(z.Drop(n));
    Kept(old(z.a[..]), z.a[..], z.lo, z.lo + n);
    JoinVal(z, n);
    ShlZero(n);
  }

  /** Copy y and zero the rest of z. */
  method CopyPadded(z: Span, y: Span)
    requires z.Ok() && y.Ok() && y.Len() <= z.Len() && Disjoint(z, y)
    modifies z.a
    ensures z.Num() == old(y.Num())
    ensures Frame(z)
  {
    hide Shl, Val, Pw;
    var n := y.Len();
    CopyDigits(z.Take(n), y);
    ZeroAbove(z, n);
  }

  /** z = d * y for a power of two d: a shift. */
  method MulPow2(z: Span, d: Digit, y: Span)
    requires z.Ok() && y.Ok() && y.Len() < z.Len() && Disjoint(z, y)
    requires d > 0 && IsPow2(d)
    modifies z.a
    ensures z.Num() == d * old(y.Num())
    ensures Frame(z)
  {
    hide Shl, Val, Pw, Pow2;
    var n := y.Len();
    ghost var v := d * y.Num();
    BitLengthDigit(d);
    var top := BarySmallLshift(z.Take(n), y, BitLength(d) - 1);
    SetDigit(z, n, top);
    ZeroAbove(z, n + 1);
  }
}
