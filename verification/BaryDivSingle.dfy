/** Division by a single digit (bignum.c, bigdivrem_single1). */
module BaryDivSingle {
  import opened Digits
  import opened BaryShift
  import opened BaryMulPre

  /** The pair (t, x) divided by y > t: one quotient digit. */
  lemma QuotientDigit(t: int, x: Digit, y: int)
    requires 0 <= t < y <= B
    ensures 0 <= B * t + x < B * B
    ensures 0 <= (B * t + x) / y < B
    ensures (B * t + x) / y * y + (B * t + x) % y == B * t + x && 0 <= (B * t + x) % y < y
  {
    var n := B * t + x;
    PairBelow(t, x, y);
    DivMod(n, y);
    QuotientBound(n, y, B);
  }

  lemma PairBelow(t: int, x: Digit, y: int)
    requires 0 <= t < y <= B
    ensures 0 <= B * t + x < y * B <= B * B
  {
    MulLe(t, y - 1, B);
    MulLe(0, t, B);
    MulLe(y, B, B);
    assert (y - 1) * B == y * B - B;
  }

  lemma QuotientStep(q: int, t: int, y: int, v: int, s: int, x: int, d: int, r: int)
    requires Mul(q, y) + t == v + s
    requires d * y + r == B * t + x
    ensures Mul(d + B * q, y) + r == x + B * v + B * s
  {
    assert (d + B * q) * y == d * y + B * (q * y);
    assert B * (q * y + t) == B * (v + s);
  }

  /** The loop of bigdivrem_single1: q = (higher * B^n + x) / y from the top digit down. */
  method DivLoop(q: Span, x: Span, higher: Digit, y: Digit) returns (r: Digit)
    requires q.Ok() && x.Ok() && q.Len() == x.Len() && ReadableDown(q, x)
    requires higher < y
    modifies q.a
    ensures r < y
    ensures Mul(q.Num(), y) + r == old(x.Num()) + Shl(higher, x.Len())
    ensures Frame(q)
  {
    hide Shl, Val, Pw, Mul;
    ghost var X := x.Snap();
    var m := x.Len();
    var t: Digit := higher;
    ValEmpty(q.a[..], q.hi); ValEmpty(X.s, X.hi);
    ShlUnit(higher); MulDef(0, y);
    while m > 0
      invariant 0 <= m <= x.Len() && t < y
      invariant Mul(Val(q.a[..], q.lo + m, q.hi), y) + t == Val(X.s, X.lo + m, X.hi) + Shl(higher, X.Len() - m)
      invariant Frame(q.Drop(m))
    {
      t := DivDigit(q, x, m - 1, t, higher, y, X);
      m := m - 1;
    }
    r := t;
  }

  method DivDigit(q: Span, x: Span, m: nat, t: Digit, ghost higher: Digit, y: Digit, ghost X: Run) returns (r: Digit)
    requires q.Ok() && x.Ok() && q.Len() == x.Len() == X.Len() && X.Ok() && m < q.Len() && t < y
    requires x.a[x.lo + m] == X.s[X.lo + m]
    requires Mul(Val(q.a[..], q.lo + m + 1, q.hi), y) + t == Val(X.s, X.lo + m + 1, X.hi) + Shl(higher, X.Len() - m - 1)
    modifies q.a
    ensures r < y
    ensures Mul(Val(q.a[..], q.lo + m, q.hi), y) + r == Val(X.s, X.lo + m, X.hi) + Shl(higher, X.Len() - m)
    ensures forall k | 0 <= k < q.a.Length && k != q.lo + m :: q.a[k] == old(q.a[k])
  {
    hide Shl, Val, Pw, Mul;
    var xm := x.a[x.lo + m];
    QuotientDigit(t, xm, y);
    var t2: Dbl := B * t + xm;
    ghost var above := Val(q.a[..], q.lo + m + 1, q.hi);
    PushDigit(q, m, t2 / y);
    r := t2 % y;
    ValCons(X.s, X.lo + m, X.hi);
    ShlNext(higher, X.Len() - m - 1); MulShl(B, higher, X.Len() - m - 1); MulDef(B, Shl(higher, X.Len() - m - 1));
    QuotientStep(above, t, y, Val(X.s, X.lo + m + 1, X.hi), Shl(higher, X.Len() - m - 1), xm, t2 / y, r);
  }

  /** bigdivrem_single1: q = (higher * B^n + x) / y; the result is the remainder. */
  method BigDivRemSingle1(q: Span, x: Span, higher: Digit, y: Digit) returns (r: Digit)
    requires q.Ok() && x.Ok() && q.Len() == x.Len() && ReadableDown(q, x)
    requires 0 < x.Len() && higher < y
    modifies q.a
    ensures r < y
    ensures Mul(q.Num(), y) + r == old(x.Num()) + Shl(higher, x.Len())
    ensures Frame(q)
  {
    if IsPow2(y) {
      r := DivPow2(q, x, higher, y);
    } else {
      r := DivLoop(q, x, higher, y);
    }
  }

  /** By a power of two: a shift.  The low bits of x, masked out by y - 1 in the source, are the remainder. */
  method DivPow2(q: Span, x: Span, higher: Digit, y: Digit) returns (r: Digit)
    requires q.Ok() && x.Ok() && q.Len() == x.Len() && ReadableDown(q, x)
    requires 0 < x.Len() && higher < y && IsPow2(y)
    modifies q.a
    ensures r < y
    ensures Mul(q.Num(), y) + r == old(x.Num()) + Shl(higher, x.Len())
    ensures Frame(q)
  {
    hide Shl, Val, Pw, Pow2, BitLength;
    BitLengthDigit(y);
    var s := BitLength(y) - 1;
    DivMod(x.a[x.lo], y);
    DivUnique(higher, y, 0, higher);
    r := LowBits(x.a[x.lo], y);
    BarySmallRshift(q, x, s, higher);
  }

  function LowBits(x: Digit, y: Digit): (r: Digit)
    requires y > 0
    ensures r == Dropped(x, y) && r < y
  {
    DivMod(x, y);
    x % y
  }

  /** bigdivrem_single */
  method BigDivRemSingle(q: Span, x: Span, y: Digit) returns (r: Digit)
    requires q.Ok() && x.Ok() && q.Len() == x.Len() && ReadableDown(q, x)
    requires 0 < x.Len() && 0 < y
    modifies q.a
    ensures r < y
    ensures Mul(q.Num(), y) + r == old(x.Num())
    ensures Frame(q)
  {
    hide Shl, Val;
    BPositive();
    ShlZero(x.Len());
    r := BigDivRemSingle1(q, x, 0, y);
  }
}
