/** Printing in a base that is not a power of two (bignum.c, big2str_generic and big2str_karatsuba). */
module BigToStr {
  import opened Digits
  import opened BaryAdd
  import opened BarySigned
  import opened BaryShift
  import opened KaratsubaSteps
  import opened BaryMulPre
  import opened BaryDiv
  import opened BigIsqrt
  import opened RadixString
  import opened RadixPower

  /** With base two or more, bits are never fewer than digits. */
  lemma {:induction false} NumeralLength(b: Base, v: nat, k: nat)
    requires v < Pow2(k)
    ensures |Numeral(b, v)| <= k
  {
    if v > 0 {
      FrontLast(b, v);
      MulLe(2, b, Front(b, v));
      NumeralLength(b, Front(b, v), k - 1);
    }
  }

  lemma DoubleBits()
    ensures Pow2(2 * BITSPERDIG) == B * B
  {
    Pow2Add(BITSPERDIG, BITSPERDIG);
  }

  /** big2str_struct */
  class Printer {
    const negative: bool
    const base: Base
    const numdigits: nat
    var result: array?<char>
    var ptr: nat

    constructor (base: Base, negative: bool)
      ensures Valid() && result == null && this.base == base && this.negative == negative
    {
      var _, n := MaxPow(base);
      this.base, this.negative, numdigits := base, negative, n;
      result, ptr := null, 0;
    }

    ghost predicate Valid()
      reads this
    {
      numdigits == Exponent(base) && (result != null ==> ptr <= result.Length)
    }

    function Sign(): string
    {
      if negative then "-" else ""
    }

    ghost function Buffer(): set<object>
      reads this
    {
      if result == null then {} else {result}
    }

    /** What has been written so far. */
    ghost function Text(): string
      reads this, Buffer()
    {
      if result == null || ptr > result.Length then "" else result[..ptr]
    }

    /** Is there room for n more characters? */
    ghost predicate Room(n: nat)
      reads this
    {
      result != null ==> ptr + n <= result.Length
    }

    /** Once writing has begun, v is written with n digits.  Before that, nothing is written for zero, and the
        shortest numeral for anything else, after a buffer has been allocated that has room for the sign, this
        numeral and taillen characters. */
    twostate predicate Wrote(v: nat, n: nat, taillen: nat)
      reads this, Buffer()
    {
      if old(result) != null then
        result == old(result) && Text() == old(Text()) + Padded(base, v, n)
      else if v == 0 then
        result == null
      else
        && result != null && fresh(result) && result.Length == 1 + |Numeral(base, v)| + taillen
        && Text() == Sign() + Numeral(base, v)
    }

    /** big2str_alloc */
    method Alloc(len: nat)
      requires Valid()
      modifies this`result, this`ptr
      ensures Valid() && result != null && fresh(result) && result.Length == len + 1 && Text() == Sign()
    {
      result := new char[len + 1];
      ptr := 0;
      if negative {
        result[0] := '-';
        ptr := 1;
      }
    }

    /** MEMCPY to the output */
    method Emit(s: string)
      requires Valid() && result != null && Room(|s|)
      modifies this`ptr, result
      ensures Valid() && result == old(result) && ptr == old(ptr) + |s| && Text() == old(Text()) + s
    {
      var at := ptr;
      forall i | 0 <= i < |s| { result[at + i] := s[i]; }
      ptr := at + |s|;
    }

    /** memset of zeros, if writing has begun */
    method Pad(n: nat)
      requires Valid() && Room(n)
      modifies this`ptr, Buffer()
      ensures Valid() && result == old(result)
      ensures result != null ==> ptr == old(ptr) + n && Text() == old(Text()) + Zeros(n)
    {
      if result != null { Emit(Zeros(n)); }
    }

    /** big2str_2bdigits */
    method TwoDigits(x: Span, taillen: nat)
      requires Valid() && x.Ok() && x.Len() <= 2
      requires result != null ==> x.Num() < LevelPower(base, 0) && Room(numdigits)
      modifies this`result, this`ptr, Buffer()
      ensures Valid() && Wrote(x.Num(), numdigits, taillen)
    {
      hide Power, LevelPower, Exponent, Numeral, Padded;
      var num := UpToTwoDigits(x);
      if result == null {
        if num == 0 { return; }
        var digits := Convert(base, num);
        Alloc(|digits| + taillen);
        Emit(digits);
      } else {
        var digits := ConvertPadded(base, num, numdigits);
        Emit(digits);
      }
    }

    /** big2str_karatsuba: x is in the first xn digits of w, whose other digits are scratch. */
    method Karatsuba(w: Span, xn: nat, level: nat, taillen: nat)
      requires Valid() && w.Ok() && xn <= w.Len() && (xn > 0 ==> w.a[w.lo + xn - 1] != 0)
      requires w.Take(xn).Num() < LevelPower(base, level)
      requires level > 0 ==> xn + level + LenOf(LevelPower(base, level - 1)) <= w.Len()
      requires Room(NumDigits(base, level) + taillen)
      modifies w.a, this`result, this`ptr, Buffer()
      ensures Valid() && Wrote(old(w.Take(xn).Num()), NumDigits(base, level), taillen)
      ensures Frame(w)
      decreases level, 2
    {
      hide Val, Shl, Pw, LevelPower, NumDigits, Exponent, Numeral, Padded, LenOf;
      LevelZero(base);
      if xn == 0 {
        ValEmpty(w.a[..], w.lo);
        PaddedZero(base, NumDigits(base, level));
        Pad(NumDigits(base, level));
        return;
      }
      TopNonZero(w.Take(xn));
      if level == 0 {
        TwoDigitsOnly(w.Take(xn), base);
        TwoDigits(w.Take(xn), taillen);
        return;
      }
      var lower, b, less := Descend(w.Take(xn), level);
      if less {
        PadAndPrint(w.Take(xn), level, taillen);
      } else {
        Halves(w, xn, level, lower, b, taillen);
      }
    }

    /** The largest level below the given one whose power is not above x, or the lowest one and the news that
        x is below even that. */
    method Descend(x: Span, level: nat) returns (lower: nat, b: Span, less: bool)
      requires x.Ok() && 0 < x.Len() && x.a[x.hi - 1] != 0 && 0 < level && x.Num() < LevelPower(base, level)
      ensures lower < level && x.Num() < LevelPower(base, lower + 1)
      ensures less ==> lower == 0 && x.Num() < LevelPower(base, 0)
      ensures !less ==> LevelPower(base, lower) <= x.Num()
      ensures b.Ok() && fresh(b.a) && 2 <= b.Len() && b.a[b.hi - 1] != 0 && b.Num() == LevelPower(base, lower)
    {
      hide Val, Shl, Pw, LevelPower, NumDigits, Exponent;
      lower := level - 1;
      var n;
      b, n := GetPower(base, lower);
      less := Less(x, b);
      while 0 < lower && less
        invariant 0 <= lower < level && x.Num() < LevelPower(base, lower + 1)
        invariant less == (x.Num() < LevelPower(base, lower))
        invariant b.Ok() && fresh(b.a) && 2 <= b.Len() && b.a[b.hi - 1] != 0 && b.Num() == LevelPower(base, lower)
        decreases lower
      {
        lower := lower - 1;
        b, n := GetPower(base, lower);
        less := Less(x, b);
      }
    }

    /** Less than two digits' worth: zeros in front if writing has begun. */
    method PadAndPrint(x: Span, level: nat, taillen: nat)
      requires Valid() && x.Ok() && 0 < x.Len() && x.a[x.hi - 1] != 0 && x.Num() < LevelPower(base, 0)
      requires Room(NumDigits(base, level) + taillen)
      modifies this`result, this`ptr, Buffer()
      ensures Valid() && Wrote(x.Num(), NumDigits(base, level), taillen)
    {
      hide Val, Shl, Pw, LevelPower, NumDigits, Exponent, Numeral, Padded;
      LevelMonotone(base, 0, level);
      LevelZero(base);
      LevelZeroIs(base);
      TwoDigitsOnly(x, base);
      ghost var z := NumDigits(base, level) - numdigits;
      PaddedMore(base, x.Num(), z, numdigits);
      Pad(NumDigits(base, level) - numdigits);
      TwoDigits(x, taillen);
    }

    /** Divide by the power b of the lower level, then print the quotient, then the remainder. */
    method Halves(w: Span, xn: nat, level: nat, lower: nat, b: Span, taillen: nat)
      requires Valid() && w.Ok() && 0 < xn <= w.Len() && w.a[w.lo + xn - 1] != 0 && lower < level
      requires b.Ok() && b.a != w.a && 2 <= b.Len() && b.a[b.hi - 1] != 0 && b.Num() == LevelPower(base, lower)
      requires LevelPower(base, lower) <= w.Take(xn).Num() < LevelPower(base, lower + 1)
      requires xn + level + LenOf(LevelPower(base, level - 1)) <= w.Len()
      requires Room(NumDigits(base, level) + taillen)
      modifies w.a, this`result, this`ptr, Buffer()
      ensures Valid() && Wrote(old(w.Take(xn).Num()), NumDigits(base, level), taillen)
      ensures Frame(w)
      decreases level, 1
    {
      hide Val, Shl, Pw, LevelPower, NumDigits, Exponent, Numeral, Padded, LenOf, Mul, Printer.Text, Zeros;
      ghost var v := w.Take(xn).Num();
      LevelNext(base, lower);
      LevelMonotone(base, lower + 1, level);
      Scratch(base, b, lower, level);
      LongEnough(b, w.Take(xn));
      Pad(NumDigits(base, level) - 2 * NumDigits(base, lower));
      DivideInPlace(w, xn, b);
      var bn := b.Len();
      ghost var q, r := w.Sub(bn, xn + 1).Num(), w.Take(bn).Num();
      MulDef(q, b.Num());
      QuotientSmall(q, r, LevelPower(base, lower), v);
      SplitText(base, v, q, r, lower, level);
      PrintBoth(w, bn, xn + 1, lower, taillen);
      ghost var z := Zeros(NumDigits(base, level) - 2 * NumDigits(base, lower));
      Joined(old(Text()), z, Padded(base, q, NumDigits(base, lower)) + Padded(base, r, NumDigits(base, lower)));
    }

    /** Print the quotient, which begins at digit bn of w, and then the remainder, which lies below. */
    method PrintBoth(w: Span, bn: nat, end: nat, lower: nat, taillen: nat)
      requires Valid() && w.Ok() && bn <= end <= w.Len()
      requires 0 < w.Sub(bn, end).Num() < LevelPower(base, lower) && w.Take(bn).Num() < LevelPower(base, lower)
      requires lower > 0 ==> end + lower + LenOf(LevelPower(base, lower - 1)) <= w.Len()
      requires Room(2 * NumDigits(base, lower) + taillen)
      modifies w.a, this`result, this`ptr, Buffer()
      ensures Valid() && Frame(w)
      ensures var q, r, n := old(w.Sub(bn, end).Num()), old(w.Take(bn).Num()), NumDigits(base, lower);
              if old(result) != null then
                result == old(result) && Text() == old(Text()) + (Padded(base, q, n) + Padded(base, r, n))
              else
                && result != null && fresh(result) && result.Length == 1 + (|Numeral(base, q)| + n) + taillen
                && Text() == Sign() + (Numeral(base, q) + Padded(base, r, n))
      decreases lower + 1, 0
    {
      hide Val, Shl, Pw, LevelPower, NumDigits, Exponent, Numeral, Padded, LenOf, Mul, Printer.Text;
      var n := NumDigits(base, lower);
      ghost var q, r := w.Sub(bn, end).Num(), w.Take(bn).Num();
      var qs := BaryTrunc(w.Sub(bn, end));
      if result != null { TextLength(); }
      Karatsuba(w.Drop(bn), qs.Len(), lower, n + taillen);
      Kept(old(w.a[..]), w.a[..], w.lo, w.lo + bn);
      TextLength();
      var rs := BaryTrunc(w.Take(bn));
      Karatsuba(w, rs.Len(), lower, taillen);
      Joined(if old(result) != null then old(Text()) else Sign(),
             if old(result) != null then Padded(base, q, n) else Numeral(base, q), Padded(base, r, n));
    }

    lemma TextLength()
      requires Valid() && result != null
      ensures |Text()| == ptr
    {
    }
  }

  lemma Joined(t: string, a: string, b: string)
    ensures (t + a) + b == t + (a + b)
  {
  }

  /** How many digits a number has. */
  ghost function LenOf(v: nat): nat
  {
    if v == 0 then 0 else DnSmaller(v); 1 + LenOf(BigDn(v))
  }

  lemma DnSmaller(v: nat)
    ensures 0 <= BigDn(v) && (0 < v ==> BigDn(v) < v)
  {
    BPositive();
    LoDn(v);
    DnSmallerInt(BigLo(v), BigDn(v), v);
  }

  lemma DnSmallerInt(lo: int, dn: int, v: int)
    requires v == lo + B * dn && 0 <= lo < B && 0 <= v && 2 <= B
    ensures 0 <= dn && (0 < v ==> dn < v)
  {
    if dn < 0 { MulLe(dn, -1, B); }
    if 0 < dn { MulLe(2, B, dn); }
  }

  lemma {:induction false} LenOfBound(v: nat, n: nat)
    requires 0 < n && Pw(n - 1) <= v < Pw(n)
    ensures LenOf(v) == n
    decreases n
  {
    hide BigDn;
    DnSmaller(v);
    if n == 1 {
      DnRange(v, 0, 1);
    } else {
      PwNext(n - 1); PwNext(n - 2);
      DnRange(v, Pw(n - 2), Pw(n - 1));
      LenOfBound(BigDn(v), n - 1);
    }
  }

  /** A number without leading zeros occupies as many digits as it has. */
  lemma SpanLen(x: Span)
    requires x.Ok() && 0 < x.Len() && x.a[x.hi - 1] != 0
    ensures x.Len() == LenOf(x.Num())
  {
    hide Val, Pw, LenOf;
    TopSplit(x.a[..], x.lo, x.hi);
    MulLe(1, x.a[x.hi - 1], Pw(x.Len() - 1));
    SpanBound(x, x.Len());
    LenOfBound(x.Num(), x.Len());
  }

  lemma {:induction false} LenOfMonotone(u: nat, v: nat)
    requires u <= v
    ensures LenOf(u) <= LenOf(v)
    decreases v
  {
    hide BigDn, BigLo;
    if u > 0 {
      DnSmaller(u); DnSmaller(v);
      LoDn(u); LoDn(v);
      if BigDn(u) > BigDn(v) { MulLe(BigDn(v) + 1, BigDn(u), B); }
      LenOfMonotone(BigDn(u), BigDn(v));
    }
  }

  /** The scratch area holds the shifted power at every level. */
  lemma Scratch(base: Base, b: Span, lower: nat, level: nat)
    requires b.Ok() && 2 <= b.Len() && b.a[b.hi - 1] != 0 && b.Num() == LevelPower(base, lower) && lower < level
    ensures b.Len() <= LenOf(LevelPower(base, level - 1))
    ensures lower > 0 ==> LenOf(LevelPower(base, lower - 1)) <= LenOf(LevelPower(base, level - 1))
  {
    hide Val, LevelPower, LenOf;
    SpanLen(b);
    LevelMonotone(base, lower, level - 1);
    LenOfMonotone(LevelPower(base, lower), LevelPower(base, level - 1));
    if lower > 0 {
      LevelMonotone(base, lower - 1, level - 1);
      LenOfMonotone(LevelPower(base, lower - 1), LevelPower(base, level - 1));
    }
  }

  lemma LongEnough(b: Span, x: Span)
    requires b.Ok() && x.Ok() && 0 < b.Len() && b.a[b.hi - 1] != 0 && b.Num() <= x.Num()
    ensures b.Len() <= x.Len()
  {
    hide Val;
    if x.Len() < b.Len() { ShorterBelow(x, b); }
  }

  lemma TwoDigitsOnly(x: Span, base: Base)
    requires x.Ok() && 0 < x.Len() && x.a[x.hi - 1] != 0 && x.Num() < LevelPower(base, 0)
    ensures x.Len() <= 2
  {
    hide Val, LevelPower;
    LevelZero(base);
    PwNext(0); PwNext(1);
    if 2 < x.Len() {
      TopSplit(x.a[..], x.lo, x.hi);
      MulLe(1, x.a[x.hi - 1], Pw(x.Len() - 1));
      PwMonotone(2, x.Len() - 1);
    }
  }

  /** xn < bn || (xn == bn && bary_cmp(x, b) < 0) */
  method Less(x: Span, b: Span) returns (less: bool)
    requires x.Ok() && b.Ok() && 0 < x.Len() && x.a[x.hi - 1] != 0 && 0 < b.Len() && b.a[b.hi - 1] != 0
    ensures less == (x.Num() < b.Num())
  {
    hide Val;
    if x.Len() < b.Len() {
      ShorterBelow(x, b);
      return true;
    }
    if b.Len() < x.Len() {
      ShorterBelow(b, x);
      return false;
    }
    var c := BaryCmp(x, b);
    less := c < 0;
  }

  lemma QuotientSmall(q: nat, r: nat, p: nat, v: nat)
    requires q * p + r == v && r < p && p <= v < p * p
    ensures 0 < q < p
  {
    if q >= p { MulLe(p, q, p); }
  }

  /** The text of a number is that of its quotient and of its remainder by a level power. */
  lemma SplitText(base: Base, v: nat, q: nat, r: nat, lower: nat, level: nat)
    requires q * LevelPower(base, lower) + r == v && r < LevelPower(base, lower) && 0 < q && lower < level
    requires v < LevelPower(base, lower + 1)
    ensures 2 * NumDigits(base, lower) <= NumDigits(base, level)
    ensures var n, z := NumDigits(base, lower), NumDigits(base, level) - 2 * NumDigits(base, lower);
            && Padded(base, v, NumDigits(base, level)) == Zeros(z) + (Padded(base, q, n) + Padded(base, r, n))
            && Numeral(base, v) == Numeral(base, q) + Padded(base, r, n)
  {
    hide Padded, Numeral, Power, NumDigits;
    var n := NumDigits(base, lower);
    LevelNext(base, lower);
    LevelMonotone(base, lower + 1, level);
    PaddedSplit(base, v, q, r, n, n);
    NumeralSplit(base, v, q, r, n);
    PaddedMore(base, v, NumDigits(base, level) - 2 * n, 2 * n);
  }

  /** Divide the number in the first xn digits of w by b, in place: the remainder takes its low digits, the
      quotient those above; the shifted divisor is kept in the scratch area beyond. */
  method DivideInPlace(w: Span, xn: nat, b: Span)
    requires w.Ok() && b.Ok() && b.a != w.a && 0 < b.Len() <= xn && b.a[b.hi - 1] != 0
    requires xn + 1 + b.Len() <= w.Len()
    modifies w.a
    ensures Mul(w.Sub(b.Len(), xn + 1).Num(), b.Num()) + w.Take(b.Len()).Num() == old(w.Take(xn).Num())
    ensures w.Take(b.Len()).Num() < b.Num()
    ensures Frame(w)
  {
    hide Shl, Val, Pw, Mul, Pow2, Dropped;
    var bn := b.Len();
    var shift := Nlz(b.a[b.hi - 1]);
    ghost var p, x, y := Pow2(shift), w.Take(xn).Num(), b.Num();
    Normalized(b.a[b.hi - 1]);
    var tds := ShiftBoth(w, xn, b, shift);
    ghost var backs := BigDivRemRestoring(w.Take(xn + 1), tds);
    ghost var Q := w.Sub(bn, xn + 1).Num();
    ShiftCancels(p, Q, y, w.Take(bn).Num(), x);
    ghost var R := x - Mul(Q, y);
    label D:
    if shift != 0 {
      UnshiftRemainder(w, bn, shift, R);
      Kept(old@D(w.a[..]), w.a[..], w.lo + bn, w.lo + xn + 1);
    } else {
      Pow2Zero();
      MulDef(1, R);
    }
  }

  /** Shift the divisor, into the scratch area, and the dividend, so that the top bit of the divisor is set. */
  method ShiftBoth(w: Span, xn: nat, b: Span, shift: nat) returns (tds: Span)
    requires w.Ok() && b.Ok() && b.a != w.a && 0 < b.Len() <= xn && b.a[b.hi - 1] != 0 && shift == Nlz(b.a[b.hi - 1])
    requires xn + 1 + b.Len() <= w.Len()
    modifies w.a
    ensures tds.Ok() && tds.Len() == b.Len() && (tds == b || tds == w.Sub(xn + 1, xn + 1 + b.Len()))
    ensures tds.Num() == Mul(Pow2(shift), b.Num()) && w.Take(xn + 1).Num() == Mul(Pow2(shift), old(w.Take(xn).Num()))
    ensures w.a[w.lo + xn] < tds.a[tds.hi - 1]
    ensures Frame(w)
  {
    hide Shl, Val, Pw, Mul, Pow2;
    var x := w.Take(xn);
    Normalized(b.a[b.hi - 1]);
    if shift == 0 {
      Pow2Zero();
      MulDef(1, b.Num()); MulDef(1, x.Num());
      tds := b;
      SetDigit(w.Take(xn + 1), xn, 0);
      ShlZero(xn);
    } else {
      tds := w.Sub(xn + 1, xn + 1 + b.Len());
      NormalizeDivisor(tds, b);
      Kept(old(w.a[..]), w.a[..], x.lo, x.hi);
      label L:
      MulDef(Pow2(shift), x.Num());
      var top := BarySmallLshift(x, x, shift);
      SetDigit(w.Take(xn + 1), xn, top);
      Kept(old@L(w.a[..]), w.a[..], tds.lo, tds.hi);
    }
  }

  method UnshiftRemainder(w: Span, bn: nat, shift: nat, ghost R: nat)
    requires w.Ok() && 0 < bn <= w.Len() && 0 < shift < BITSPERDIG && w.Take(bn).Num() == Mul(Pow2(shift), R)
    modifies w.a
    ensures w.Take(bn).Num() == R
    ensures Frame(w.Take(bn))
  {
    hide Shl, Val, Pw, Mul, Pow2, Dropped;
    ghost var p := Pow2(shift);
    BPositive();
    MulDef(p, R);
    ShlZero(bn); DroppedRange(0, p); DroppedRange(w.a[w.lo], p);
    ghost var d := w.a[w.lo];
    BarySmallRshift(w.Take(bn), w.Take(bn), shift, 0);
    RemainderExact(p, w.Take(bn).Num(), Dropped(d, p), R);
  }

  /** bary2bdigitdbl */
  method UpToTwoDigits(x: Span) returns (num: Dbl)
    requires x.Ok() && x.Len() <= 2
    ensures num == x.Num()
  {
    hide Val;
    BPositive();
    SmallFits(0);
    if x.Len() == 2 {
      num := TwoDigitNumber(x);
    } else if x.Len() == 1 {
      ValSingle(x.a[..], x.lo);
      MulLe(1, B, B);
      num := x.a[x.lo];
    } else {
      ValEmpty(x.a[..], x.lo);
      num := 0;
    }
  }

  /** The digits of a number, from the last one to the first, at the end of a buffer with one place for each bit. */
  method Convert(b: Base, v: Dbl) returns (s: string)
    requires v > 0
    ensures s == Numeral(b, v)
  {
    hide Front, Last;
    var size := 2 * BITSPERDIG;
    var buf := new char[size];
    var j, num: nat := size, v;
    DoubleBits();
    NumeralLength(b, v, size);
    assert Numeral(b, v) == Numeral(b, num) + buf[j..];
    while num > 0
      invariant |Numeral(b, num)| <= j <= size
      invariant Numeral(b, v) == Numeral(b, num) + buf[j..]
      decreases num
    {
      ghost var rest := buf[j..];
      j := j - 1;
      buf[j] := DigitChar(Last(b, num));
      assert buf[j..] == [DigitChar(Last(b, num))] + rest;
      num := Front(b, num);
    }
    s := buf[j..];
  }

  /** The last n digits of a number, written from the last one to the first. */
  method ConvertPadded(b: Base, v: nat, n: nat) returns (s: string)
    ensures s == Padded(b, v, n)
  {
    hide Front, Last;
    var p := new char[n];
    var j, num := n, v;
    while j > 0
      invariant 0 <= j <= n
      invariant Padded(b, v, n) == Padded(b, num, j) + p[j..]
    {
      ghost var rest := p[j..];
      j := j - 1;
      p[j] := DigitChar(Last(b, num));
      assert p[j..] == [DigitChar(Last(b, num))] + rest;
      num := Front(b, num);
    }
    s := p[..];
  }

  /** How a magnitude is written with its sign; zero is "0". */
  function Printed(base: Base, negative: bool, v: nat): string
  {
    if v == 0 then "0" else (if negative then "-" else "") + Numeral(base, v)
  }

  /** big2str_generic */
  method Generic(x: Span, base: Base, negative: bool) returns (s: string, ghost ds: seq<nat>)
    requires x.Ok()
    ensures s == Printed(base, negative, x.Num())
    ensures x.Num() == 0 ==> s == "0"
    ensures x.Num() != 0 ==> s != "" && (s[0] == '-' <==> negative) && Spells(if negative then s[1..] else s, ds)
    ensures Weigh(base, ds) == x.Num() && (forall k | 0 <= k < |ds| :: ds[k] < base)
    ensures x.Num() != 0 ==> ds != [] && ds[0] != 0
  {
    hide Printed;
    s := Print(x, base, negative);
    ds := PrintedSpells(base, negative, x.Num());
  }

  /** The text has the sign in front exactly if there is one, and spells digits that weigh the magnitude. */
  lemma PrintedSpells(base: Base, negative: bool, v: nat) returns (ds: seq<nat>)
    ensures var s := Printed(base, negative, v);
            && (v == 0 ==> s == "0")
            && (v != 0 ==> s != "" && (s[0] == '-' <==> negative) && Spells(if negative then s[1..] else s, ds))
    ensures Weigh(base, ds) == v && (forall k | 0 <= k < |ds| :: ds[k] < base)
    ensures v != 0 ==> ds != [] && ds[0] != 0
  {
    hide Weigh, Numeral;
    ds := NumeralSpells(base, v);
    if v != 0 {
      NoSignDigit(ds[0]);
      var t := Numeral(base, v);
      assert "" + t == t && ("-" + t)[1..] == t;
    }
  }

  method Print(x: Span, base: Base, negative: bool) returns (s: string)
    requires x.Ok()
    ensures s == Printed(base, negative, x.Num())
  {
    hide Val, Shl, Pw, LevelPower, NumDigits, Exponent, Numeral, Padded, LenOf;
    var x1 := BaryTrunc(x);
    var xn := x1.Len();
    ValEmpty(x.a[..], x.lo);
    if xn == 0 { return "0"; }
    TopNonZero(x1);
    var level, power := ChooseLevel(x1, base);
    var printer := new Printer(base, negative);
    if level == 0 {
      TwoDigitsOnly(x1, base);
      printer.TwoDigits(x1, 0);
    } else {
      BPositive();
      var wn := level + power.Len();
      var wds := new Digit[xn + wn](_ => 0);
      var w := Span(wds, 0, xn + wn);
      CopyDigits(w.Take(xn), x1);
      TopKept(w.Take(xn), x1);
      printer.Karatsuba(w, xn, level, 0);
    }
    s := printer.result[..printer.ptr];
    assert s == printer.Text();
  }

  lemma NoSignDigit(d: nat)
    requires d < 36
    ensures LOWER[d] != '-'
  {
    DigitTables(d);
  }

  /** A level whose power is above x, and a power that tells how much scratch that needs. */
  method ChooseLevel(x: Span, base: Base) returns (level: nat, power: Span)
    requires x.Ok() && 0 < x.Len() && x.a[x.hi - 1] != 0
    ensures x.Num() < LevelPower(base, level)
    ensures power.Ok() && (level > 0 ==> LenOf(LevelPower(base, level - 1)) <= power.Len())
  {
    hide Val, Shl, Pw, LevelPower, NumDigits, Exponent, LenOf;
    var xn := x.Len();
    level := 0;
    var n;
    power, n := GetPower(base, level);
    SpanLen(power);
    while power.Len() <= (xn + 1) / 2
      invariant power.Ok() && 2 <= power.Len() == LenOf(LevelPower(base, level)) && power.a[power.hi - 1] != 0
      invariant power.Num() == LevelPower(base, level)
      decreases xn - power.Len()
    {
      LongerSquare(base, level);
      level := level + 1;
      power, n := GetPower(base, level);
      SpanLen(power);
    }
    LevelEnough(x, power, base, level);
    if power.Len() <= xn {
      level := level + 1;
    } else if level > 0 {
      LevelMonotone(base, level - 1, level);
      LenOfMonotone(LevelPower(base, level - 1), LevelPower(base, level));
    }
  }

  /** The power of the next level is longer. */
  lemma LongerSquare(base: Base, level: nat)
    ensures LenOf(LevelPower(base, level)) < LenOf(LevelPower(base, level + 1))
  {
    hide LevelPower, LenOf;
    var p := LevelPower(base, level);
    LevelNext(base, level);
    LevelZero(base);
    LevelMonotone(base, 0, level);
    BPositive();
    MulLe(B, p, p);
    LenOfShift(p);
    LenOfMonotone(B * p, p * p);
  }

  lemma LenOfShift(v: nat)
    requires 0 < v
    ensures B * v >= 0 && LenOf(B * v) == 1 + LenOf(v)
  {
    hide BigDn;
    BPositive();
    MulLe(1, B, v);
    DnRange(B * v, v, v + 1);
  }

  /** A power longer than x is above x; one longer than half of x is so when squared. */
  lemma LevelEnough(x: Span, power: Span, base: Base, level: nat)
    requires x.Ok() && 0 < x.Len() && power.Ok() && 0 < power.Len() && power.a[power.hi - 1] != 0
    requires power.Num() == LevelPower(base, level) && (x.Len() + 1) / 2 < power.Len()
    ensures x.Len() < power.Len() ==> x.Num() < LevelPower(base, level)
    ensures x.Num() < LevelPower(base, level + 1)
  {
    hide Val, Pw, LevelPower;
    var m := power.Len() - 1;
    TopSplit(power.a[..], power.lo, power.hi);
    MulLe(1, power.a[power.hi - 1], Pw(m));
    if x.Len() < power.Len() { SpanBound(x, m); }
    SpanBound(x, m + m);
    PwAdd(m, m);
    Squares(Pw(m), power.Num());
    LevelNext(base, level);
  }

  /** Equal numbers in equally many digits have equal top digits. */
  lemma TopKept(w: Span, x: Span)
    requires w.Ok() && x.Ok() && 0 < x.Len() == w.Len() && w.Num() == x.Num()
    ensures w.a[w.hi - 1] == x.a[x.hi - 1]
  {
    hide Val;
    ValInjective(w.a[..], w.lo, x.a[..], x.lo, x.Len());
    assert w.a[..][w.hi - 1] == x.a[..][w.hi - 1 - w.lo + x.lo];
  }
}
