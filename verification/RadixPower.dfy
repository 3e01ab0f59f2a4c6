/** Powers of a base that fill whole digits (bignum.c, maxpow_in_bdigit_dbl and power_cache_get_power). */
module RadixPower {
  import opened Digits
  import opened BarySigned
  import opened BarySquare
  import opened BaryMulPre
  import opened BaryMul
  import opened BaryDiv
  import opened RadixString

  /** The largest exponent with which b stays below a double digit, if it is at least n. */
  function ExponentFrom(b: Base, n: nat): (e: nat)
    requires Power(b, n) < B * B
    ensures n <= e && Power(b, e) < B * B <= Power(b, e + 1)
    decreases B * B - Power(b, n)
  {
    MulLe(2, b, Power(b, n));
    if b * Power(b, n) < B * B then ExponentFrom(b, n + 1) else n
  }

  lemma BaseFits(b: Base)
    ensures Power(b, 1) == b && 36 < B && B < B * B && Power(b, 1) < B * B
  {
    BPositive();
    assert Power(b, 1) == b * Power(b, 0);
    MulLe(36, B, B);
  }

  /** The exponent that maxpow_in_bdigit_dbl returns. */
  function Exponent(b: Base): (e: nat)
    ensures 1 <= e && Power(b, e) < B * B <= Power(b, e + 1)
  {
    BaseFits(b);
    ExponentFrom(b, 1)
  }

  lemma ExponentUnique(b: Base, e: nat)
    requires Power(b, e) < B * B <= Power(b, e + 1)
    ensures e == Exponent(b)
  {
    var f := Exponent(b);
    if e < f { PowerMonotone(b, e + 1, f); }
    if f < e { PowerMonotone(b, f + 1, e); }
  }

  /** maxpow_in_bdigit_dbl */
  method MaxPow(b: Base) returns (maxpow: Dbl, exponent: nat)
    ensures exponent == Exponent(b) && maxpow == Power(b, exponent)
  {
    hide Power;
    BaseFits(b);
    maxpow, exponent := b, 1;
    while b * maxpow < B * B
      invariant maxpow == Power(b, exponent)
      decreases B * B - maxpow
    {
      PowerNext(b, exponent);
      MulLe(2, b, maxpow);
      maxpow, exponent := b * maxpow, exponent + 1;
    }
    PowerNext(b, exponent);
    ExponentUnique(b, exponent);
  }

  lemma PowerNext(b: Base, n: nat)
    ensures Power(b, n + 1) == b * Power(b, n) && Power(b, n) > 0
  {
  }

  /** How many digits of base b the power of this level stands for. */
  function NumDigits(b: Base, level: nat): nat
  {
    Exponent(b) * Pow2(level)
  }

  /** maxpow_in_bdigit_dbl(b) ** (2 ** level) */
  function LevelPower(b: Base, level: nat): (p: nat)
    ensures p > 0
  {
    Power(b, NumDigits(b, level))
  }

  lemma LevelNext(b: Base, level: nat)
    ensures NumDigits(b, level + 1) == 2 * NumDigits(b, level)
    ensures LevelPower(b, level + 1) == LevelPower(b, level) * LevelPower(b, level)
  {
    hide Power;
    var n := NumDigits(b, level);
    assert Exponent(b) * (2 * Pow2(level)) == 2 * (Exponent(b) * Pow2(level));
    PowerAdd(b, n, n);
  }

  /** The lowest power has two digits, the upper one of which is not zero. */
  lemma LevelZero(b: Base)
    ensures NumDigits(b, 0) == Exponent(b) && B <= LevelPower(b, 0) < B * B
  {
    hide Power, Exponent;
    BaseFits(b);
    PowerNext(b, Exponent(b));
    NotBelow(b, Power(b, Exponent(b)));
  }

  lemma NotBelow(b: int, p: int)
    requires B * B <= b * p && b <= B && 0 <= p
    ensures B <= p
  {
    MulLe(b, B, p);
    if p < B { MulLe(p + 1, B, B); }
  }

  lemma {:induction false} LevelMonotone(b: Base, i: nat, j: nat)
    requires i <= j
    ensures NumDigits(b, i) <= NumDigits(b, j) && LevelPower(b, i) <= LevelPower(b, j)
  {
    hide Power;
    Pow2Monotone(i, j);
    MulLe(Pow2(i), Pow2(j), Exponent(b));
    PowerMonotone(b, NumDigits(b, i), NumDigits(b, j));
  }

  /** bigtrunc(bigsq(x)) */
  method Square(x: Span) returns (z: Span)
    requires x.Ok()
    ensures z.Ok() && fresh(z.a) && z.Num() == x.Num() * x.Num() && (z.Len() > 0 ==> z.a[z.hi - 1] != 0)
  {
    BPositive();
    var n := x.Len();
    var a := new Digit[2 * n](_ => 0);
    z := Span(a, 0, 2 * n);
    if n < NAIVE_MUL_DIGITS {
      BarySqFast(z, x);
    } else {
      BaryMul.BaryMul(z, x, x);
    }
    z := BaryTrunc(z);
  }

  /** power_cache_get_power, each time computed anew */
  method GetPower(b: Base, level: nat) returns (p: Span, numdigits: nat)
    ensures p.Ok() && fresh(p.a) && 2 <= p.Len() && p.a[p.hi - 1] != 0
    ensures p.Num() == LevelPower(b, level) && numdigits == NumDigits(b, level)
  {
    hide Val, Shl, Pw, LevelPower, NumDigits, Exponent;
    BPositive();
    LevelZero(b);
    if level == 0 {
      var dd;
      dd, numdigits := MaxPow(b);
      var a := new Digit[2](_ => 0);
      p := Span(a, 0, 2);
      assert dd == LevelPower(b, 0) by { LevelZeroIs(b); }
      StoreDouble(p, dd);
      TwoDigitTop(p);
    } else {
      p, numdigits := GetPower(b, level - 1);
      p := Square(p);
      numdigits := numdigits * 2;
      LevelNext(b, level - 1);
      LevelMonotone(b, 0, level);
      TwoDigitLen(p);
    }
  }

  lemma LevelZeroIs(b: Base)
    ensures LevelPower(b, 0) == Power(b, Exponent(b))
  {
    hide Power;
  }

  lemma TwoDigitTop(p: Span)
    requires p.Ok() && p.Len() == 2 && B <= p.Num()
    ensures p.a[p.hi - 1] != 0
  {
    ValCons(p.a[..], p.lo, p.hi);
    ValSingle(p.a[..], p.lo + 1);
  }

  lemma TwoDigitLen(p: Span)
    requires p.Ok() && B <= p.Num()
    ensures 2 <= p.Len()
  {
    hide Val;
    PwNext(0);
    if p.Len() < 2 { SpanBound(p, 1); }
  }
}
