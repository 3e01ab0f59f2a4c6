/** Reading digits in a base that is not a power of two (bignum.c, str2big_normal and str2big_karatsuba). */
module StrToBig {
  import opened Digits
  import opened BarySigned
  import opened BaryMulBasic
  import opened BaryShift
  import opened KaratsubaSteps
  import opened BaryMulPre
  import opened BaryMul
  import opened BaryDiv
  import opened RadixString
  import opened RadixPower
  import opened BigToStr

  lemma DigitFits(num: Digit, d: Digit, base: Base)
    ensures 0 <= num as int + base * d < B * B && 0 <= BigDn(num as int + base * d) < B
    ensures 0 <= base < B
  {
    BPositive();
    MulAddFits(num, base, d, 0);
  }

  /** z = z * base + c; the digits of z from blen on are zero, before and after. */
  method MulAddDigit(z: Span, blen: nat, base: Base, c: nat) returns (blen': nat)
    requires z.Ok() && blen <= z.Len() && c < base && base * z.Num() + c < Pw(z.Len())
    requires forall k | z.lo + blen <= k < z.hi :: z.a[k] == 0
    modifies z.a
    ensures z.Num() == base * old(z.Num()) + c
    ensures blen <= blen' <= z.Len() && forall k | z.lo + blen' <= k < z.hi :: z.a[k] == 0
    ensures Frame(z)
  {
    hide Shl, Val, Pre, Pw, Mul;
    ghost var Z := z.Snap();
    BPositive();
    var num: Digit, i := c, 0;
    blen' := blen;
    PreZero(Z); ShlUnit(c); MulDef(base, 0);
    ValEmpty(z.a[..], z.lo);
    while i < blen' || num != 0
      invariant 0 <= i <= blen' <= z.Len() && blen <= blen'
      invariant forall k | z.lo + i <= k < z.hi :: z.a[k] == Z.s[k]
      invariant Val(z.a[..], z.lo, z.lo + i) + Shl(num, i) == Mul(base, Pre(Z, i)) + c
      invariant Frame(z.Take(i))
      decreases z.Len() - i
    {
      if i == blen' {
        CarryRoom(Z, i, base, c, num, Val(z.a[..], z.lo, z.lo + i));
        blen' := blen' + 1;
      }
      var d := z.a[z.lo + i];
      assert d == Dig(Z, i);
      MulPreStep(base, Z, i);
      DigitFits(num, d, base);
      var sum: Dbl := num + base * d;
      num := StoreStep(z, i, sum, num, base * d, Mul(base, Pre(Z, i)) + c);
      i := i + 1;
    }
    HighSame(Z, i);
    ShlZero(i);
    MulDef(base, Z.Num());
    ValZero(z.a[..], z.lo + i, z.hi);
    JoinVal(z, i);
  }

  /** Zeros above: the prefix is the number. */
  lemma HighSame(Z: Run, i: nat)
    requires Z.Ok() && i <= Z.Len() && forall k | Z.lo + i <= k < Z.hi :: Z.s[k] == 0
    ensures Pre(Z, i) == Z.Num()
  {
    hide Val, Shl;
    PreVal(Z, i);
    ValSplit(Z.s, Z.lo, Z.lo + i, Z.hi);
    ValZero(Z.s, Z.lo + i, Z.hi);
    ShlZero(i);
  }

  /** A carry that is left needs another digit, and there is one. */
  lemma CarryRoom(Z: Run, i: nat, base: Base, c: nat, num: Digit, v: nat)
    requires Z.Ok() && i <= Z.Len() && num != 0 && (forall k | Z.lo + i <= k < Z.hi :: Z.s[k] == 0)
    requires v + Shl(num, i) == Mul(base, Pre(Z, i)) + c && base * Z.Num() + c < Pw(Z.Len())
    ensures i < Z.Len()
  {
    hide Pre, Val, Pw;
    HighSame(Z, i);
    MulLe(1, num, Pw(i));
  }

  /** str2big_normal */
  method Normal(base: Base, s: string, numBdigits: nat) returns (z: Span)
    requires InBase(base, s) && numBdigits == 2 * RoomOf(Count(s, |s|), Exponent(base))
    ensures z.Ok() && fresh(z.a) && z.Len() == numBdigits && z.Num() == Value(base, s, |s|)
  {
    hide Val, Pw, Power, RoomOf, Exponent;
    BPositive();
    RoomEnough(base, Count(s, |s|));
    var zds := new Digit[numBdigits](_ => 0);
    z := Span(zds, 0, numBdigits);
    var blen := if numBdigits == 0 then 0 else 1;
    ValZero(z.a[..], 0, numBdigits);
    for p := 0 to |s|
      invariant blen <= z.Len() && forall k | blen <= k < z.hi :: z.a[k] == 0
      invariant z.Num() == Value(base, s, p)
    {
      var c := ConvDigit(s[p]);
      if c < 0 { continue; }
      PrefixFits(base, s, p + 1, numBdigits);
      blen := MulAddDigit(z, blen, base, c);
    }
  }

  lemma {:induction false} CountMonotone(s: string, m: nat, n: nat)
    requires m <= n <= |s|
    ensures Count(s, m) <= Count(s, n)
  {
    if m < n { CountMonotone(s, m, n - 1); }
  }

  lemma PrefixFits(base: Base, s: string, n: nat, numBdigits: nat)
    requires n <= |s| && InBase(base, s) && Power(base, Count(s, |s|)) <= Pw(numBdigits)
    ensures Value(base, s, n) < Pw(numBdigits)
  {
    hide Pw, Power, Value, Count;
    ValueBound(base, s, n);
    CountMonotone(s, n, |s|);
    PowerMonotone(base, Count(s, n), Count(s, |s|));
  }

  /** The number that the characters from position p on stand for, and how many digits there are. */
  ghost function SuffixValue(b: Base, s: string, p: nat): nat
    requires p <= |s|
    decreases |s| - p
  {
    if p == |s| then 0
    else if ConvDigit(s[p]) < 0 then SuffixValue(b, s, p + 1)
    else ConvDigit(s[p]) * Power(b, SuffixCount(s, p + 1)) + SuffixValue(b, s, p + 1)
  }

  ghost function SuffixCount(s: string, p: nat): nat
    requires p <= |s|
    decreases |s| - p
  {
    if p == |s| then 0 else SuffixCount(s, p + 1) + if ConvDigit(s[p]) < 0 then 0 else 1
  }

  lemma {:induction false} SuffixSplit(b: Base, s: string, p: nat)
    requires p <= |s|
    ensures Value(b, s, |s|) == Value(b, s, p) * Power(b, SuffixCount(s, p)) + SuffixValue(b, s, p)
    decreases |s| - p
  {
    hide ConvDigit;
    if p < |s| {
      SuffixSplit(b, s, p + 1);
      if ConvDigit(s[p]) >= 0 {
        SuffixAlgebra(Value(b, s, p), b, ConvDigit(s[p]), Power(b, SuffixCount(s, p + 1)));
      }
    }
  }

  lemma SuffixAlgebra(v: int, b: int, c: int, w: int)
    ensures (v * b + c) * w == v * (b * w) + c * w
  {
    assert (v * b + c) * w == v * b * w + c * w;
    assert v * b * w == v * (b * w);
  }

  /** The number whose digits, from position from to position end, come in blocks of unit digits, each block
      being worth p times the one below it. */
  ghost function Blocks(s: seq<Digit>, from: nat, end: nat, unit: nat, p: nat): nat
    requires 0 < unit
    decreases end - from
  {
    if end <= from then 0
    else
      Val(s, from, if from + unit <= end then from + unit else end) + p * Blocks(s, from + unit, end, unit, p)
  }

  /** i is k blocks after from. */
  ghost predicate Aligned(from: nat, i: nat, unit: nat, k: nat)
    decreases k
  {
    if k == 0 then i == from else Aligned(from + unit, i, unit, k - 1)
  }

  lemma {:induction false} AlignedNext(from: nat, i: nat, unit: nat, k: nat)
    requires Aligned(from, i, unit, k)
    ensures Aligned(from, i + unit, unit, k + 1) && from <= i
    decreases k
  {
    if k > 0 { AlignedNext(from + unit, i, unit, k - 1); }
  }

  /** One more block on top, possibly a short one. */
  lemma {:induction false} BlocksSnoc(s: seq<Digit>, from: nat, i: nat, len: nat, unit: nat, p: nat, k: nat)
    requires 0 < unit && Aligned(from, i, unit, k) && len <= unit && i + len <= |s|
    ensures Blocks(s, from, i + len, unit, p) == Blocks(s, from, i, unit, p) + Power(p, k) * Val(s, i, i + len)
    decreases k
  {
    hide Val;
    if k == 0 {
      ValEmpty(s, i);
      assert Blocks(s, i + unit, i + len, unit, p) == 0;
    } else {
      AlignedNext(from + unit, i, unit, k - 1);
      BlocksSnoc(s, from + unit, i, len, unit, p, k - 1);
      SnocAlgebra(p, Blocks(s, from + unit, i, unit, p), Power(p, k - 1), Val(s, i, i + len));
    }
  }

  lemma SnocAlgebra(p: int, a: int, w: int, v: int)
    ensures p * (a + w * v) == p * a + (p * w) * v
  {
    assert p * (w * v) == (p * w) * v;
  }

  /** Digits that did not change. */
  lemma {:induction false} BlocksKept(s: seq<Digit>, t: seq<Digit>, from: nat, end: nat, unit: nat, p: nat)
    requires 0 < unit && |s| == |t| && forall k | from <= k < end && k < |s| :: t[k] == s[k]
    ensures Blocks(t, from, end, unit, p) == Blocks(s, from, end, unit, p)
    decreases end - from
  {
    if from < end {
      BlocksKept(s, t, from + unit, end, unit, p);
      Kept(s, t, from, if from + unit <= end then from + unit else end);
    }
  }

  /** roomof */
  function RoomOf(n: nat, unit: nat): nat
    requires 0 < unit
  {
    (n + unit - 1) / unit
  }

  lemma RoomOfFacts(n: nat, unit: nat)
    requires 0 < unit
    ensures RoomOf(0, unit) == 0
    ensures 0 < n ==> 1 <= RoomOf(n, unit)
    ensures 0 < n <= unit ==> RoomOf(n, unit) == 1
    ensures RoomOf(n + unit, unit) == RoomOf(n, unit) + 1
  {
    var m := n + unit - 1;
    DivUnique(unit - 1, unit, 0, unit - 1);
    DivMod(m, unit);
    if 0 < n {
      if m / unit < 1 { MulLe(m / unit, 0, unit); }
    }
    if 0 < n <= unit { DivUnique(m, unit, 1, n - 1); }
    DivUnique(m + unit, unit, m / unit + 1, m % unit);
  }

  /** Where the reader is: cb is base to the number of digits in dd, and w the worth of the pair that comes next. */
  ghost predicate Grouped(base: Base, s: string, p: nat, u: seq<Digit>, i: nat, k: nat, dd: nat, cb: nat, g: nat, m: nat)
    requires p <= |s|
  {
    var e, M, c := Exponent(base), LevelPower(base, 0), Count(s, p);
    && i <= |u| && Aligned(0, i, 2, k) && g < e
    && cb == Power(base, g) && dd < cb
    && m == (if e - g <= c then e - g else c)
    && (c == 0 ==> g == 0)
    && (c > 0 ==> Power(base, SuffixCount(s, p)) == Power(M, k) * cb)
    && SuffixValue(base, s, p) == Blocks(u, 0, i, 2, M) + Power(M, k) * dd
    && i + 2 * RoomOf(c + g, e) == |u|
    && Below(u, 0, i, 2, M)
  }

  /** Every block is less than p. */
  ghost predicate Below(s: seq<Digit>, from: nat, end: nat, unit: nat, p: nat)
    requires 0 < unit
    decreases end - from
  {
    from < end ==>
      && Val(s, from, if from + unit <= end then from + unit else end) < p
      && Below(s, from + unit, end, unit, p)
  }

  lemma {:induction false} BelowSnoc(s: seq<Digit>, from: nat, i: nat, len: nat, unit: nat, p: nat, k: nat)
    requires 0 < unit && Aligned(from, i, unit, k) && len <= unit && i + len <= |s|
    requires Below(s, from, i, unit, p) && Val(s, i, i + len) < p
    ensures Below(s, from, i + len, unit, p)
    decreases k
  {
    hide Val;
    if k > 0 {
      AlignedNext(from + unit, i, unit, k - 1);
      BelowSnoc(s, from + unit, i, len, unit, p, k - 1);
    }
  }

  lemma {:induction false} BelowAt(s: seq<Digit>, from: nat, i: nat, end: nat, unit: nat, p: nat, k: nat)
    requires 0 < unit && Aligned(from, i, unit, k) && i < end && Below(s, from, end, unit, p)
    ensures Val(s, i, if i + unit <= end then i + unit else end) < p
    decreases k
  {
    hide Val;
    if k > 0 {
      AlignedNext(from + unit, i, unit, k - 1);
      BelowAt(s, from + unit, i, end, unit, p, k - 1);
    }
  }

  lemma {:induction false} BelowKept(s: seq<Digit>, t: seq<Digit>, from: nat, end: nat, unit: nat, p: nat)
    requires 0 < unit && |s| == |t| && (forall k | from <= k < end && k < |s| :: t[k] == s[k]) && Below(s, from, end, unit, p)
    ensures Below(t, from, end, unit, p)
    decreases end - from
  {
    hide Val;
    if from < end {
      BelowKept(s, t, from + unit, end, unit, p);
      Kept(s, t, from, if from + unit <= end then from + unit else end);
    }
  }

  /** A digit joins the pair that is being made. */
  lemma TakeDigit(base: Base, s: string, p: nat, u: seq<Digit>, i: nat, k: nat, dd: nat, cb: nat, g: nat, m: nat, c: nat)
    requires 0 < p <= |s| && Grouped(base, s, p, u, i, k, dd, cb, g, m) && c < base && ConvDigit(s[p - 1]) == c
    ensures 0 < m && 0 < Count(s, p) == Count(s, p - 1) + 1
    ensures 0 <= dd + c * cb < base * cb == Power(base, g + 1)
    ensures Power(base, SuffixCount(s, p - 1)) == Power(LevelPower(base, 0), k) * (base * cb)
    ensures SuffixValue(base, s, p - 1) == Blocks(u, 0, i, 2, LevelPower(base, 0)) + Power(LevelPower(base, 0), k) * (dd + c * cb)
  {
    hide Blocks, Below, ConvDigit, LevelPower, Exponent, Value;
    PowerNext(base, g);
    PowerNext(base, SuffixCount(s, p));
    var w := Power(LevelPower(base, 0), k);
    TakeAlgebra(base, w, cb, c, dd);
  }

  lemma TakeAlgebra(b: int, w: int, cb: int, c: int, dd: int)
    requires 0 <= c < b && 0 <= dd < cb
    ensures b * (w * cb) == w * (b * cb)
    ensures c * (w * cb) + w * dd == w * (dd + c * cb)
    ensures 0 <= dd + c * cb < b * cb
  {
    assert w * (dd + c * cb) == w * dd + w * (c * cb);
    assert w * (c * cb) == c * (w * cb);
    MulLe(c + 1, b, cb);
    MulLe(0, c, cb);
  }

  /** The pair is not complete yet. */
  lemma KeepDigit(base: Base, s: string, p: nat, u: seq<Digit>, i: nat, k: nat, dd: nat, cb: nat, g: nat, m: nat, c: nat)
    requires 0 < p <= |s| && Grouped(base, s, p, u, i, k, dd, cb, g, m) && c < base && ConvDigit(s[p - 1]) == c && m != 1
    ensures dd + c * cb >= 0 && Grouped(base, s, p - 1, u, i, k, dd + c * cb, base * cb, g + 1, m - 1)
  {
    hide Blocks, Below, ConvDigit, LevelPower, Exponent, Value, Power, SuffixCount, SuffixValue, Count;
    TakeDigit(base, s, p, u, i, k, dd, cb, g, m, c);
  }

  /** The pair is complete: it is full, or the digits are used up. */
  lemma CompletePair(base: Base, s: string, p: nat, u: seq<Digit>, i: nat, k: nat, dd: nat, cb: nat, g: nat, m: nat, c: nat,
                     t: seq<Digit>)
    requires 0 < p <= |s| && Grouped(base, s, p, u, i, k, dd, cb, g, m) && c < base && ConvDigit(s[p - 1]) == c && m == 1
    requires |t| == |u| && i + 2 <= |u| && Val(t, i, i + 2) == dd + c * cb && forall j | 0 <= j < i :: t[j] == u[j]
    ensures Grouped(base, s, p - 1, t, i + 2, k + 1, 0, 1, 0,
                    if Exponent(base) <= Count(s, p - 1) then Exponent(base) else Count(s, p - 1))
  {
    hide Blocks, Below, ConvDigit, LevelPower, Exponent, Value, Power, SuffixCount, SuffixValue, Count, RoomOf, Val;
    var e, M := Exponent(base), LevelPower(base, 0);
    TakeDigit(base, s, p, u, i, k, dd, cb, g, m, c);
    LevelZeroIs(base);
    PowerMonotone(base, g + 1, e);
    AlignedNext(0, i, 2, k);
    BlocksKept(u, t, 0, i, 2, M);
    BelowKept(u, t, 0, i, 2, M);
    BlocksSnoc(t, 0, i, 2, 2, M, k);
    BelowSnoc(t, 0, i, 2, 2, M, k);
    RoomOfFacts(Count(s, p - 1), e);
    RoomOfFacts(Count(s, p) + g, e);
    PowerStep(M, k);
    PowerZero(base);
  }

  lemma PowerStep(p: nat, k: nat)
    ensures Power(p, k + 1) == p * Power(p, k) == Power(p, k) * p
    ensures Power(p, k + 1) * 1 == Power(p, k + 1) && Power(p, k + 1) * 0 == 0
  {
  }

  /** The digits from the last one on, as many at a time as fit in two digits of a number. */
  method Pairs(base: Base, s: string, numBdigits: nat) returns (u: array<Digit>)
    requires InBase(base, s) && numBdigits == 2 * RoomOf(Count(s, |s|), Exponent(base))
    ensures fresh(u) && u.Length == numBdigits
    ensures Blocks(u[..], 0, numBdigits, 2, LevelPower(base, 0)) == Value(base, s, |s|)
    ensures Below(u[..], 0, numBdigits, 2, LevelPower(base, 0))
  {
    hide Blocks, Below, ConvDigit, LevelPower, Exponent, Value, Power, SuffixCount, SuffixValue, Count, RoomOf, Val, Grouped;
    BPositive();
    u := new Digit[numBdigits](_ => 0);
    var maxpow, perPair := MaxPow(base);
    var remaining := Count(s, |s|);
    var m := if remaining < perPair then remaining else perPair;
    var i, p := 0, |s|;
    SmallFits(1);
    var dd: Dbl, cb: Dbl := 0, 1;
    ghost var k, g := 0, 0;
    GroupStart(base, s, u[..], m);
    while 0 < p
      invariant 0 <= p <= |s| && u.Length == numBdigits
      invariant Grouped(base, s, p, u[..], i, k, dd, cb, g, m) && remaining == Count(s, p)
      decreases p
    {
      var c := ConvDigit(s[p - 1]);
      p := p - 1;
      if c < 0 {
        SkipChar(base, s, p + 1, u[..], i, k, dd, cb, g, m);
        continue;
      }
      GroupFacts(base, s, p + 1, u[..], i, k, dd, cb, g, m, c);
      remaining := remaining - 1;
      if m == 1 {
        ghost var before, d, e := u[..], dd as int, cb as int;
        StorePair(u, i, dd + c * cb);
        CompletePair(base, s, p + 1, before, i, k, d, e, g, m, c, u[..]);
        i, k, g := i + 2, k + 1, 0;
        dd, cb := 0, 1;
        m := if remaining < perPair then remaining else perPair;
      } else {
        KeepDigit(base, s, p + 1, u[..], i, k, dd, cb, g, m, c);
        dd, cb := dd + c * cb, base * cb;
        m, g := m - 1, g + 1;
      }
    }
    GroupEnd(base, s, u[..], i, k, dd, cb, g, m);
  }

  method StorePair(u: array<Digit>, i: nat, dd: Dbl)
    requires i + 2 <= u.Length
    modifies u
    ensures Val(u[..], i, i + 2) == dd && forall j | 0 <= j < u.Length && j != i && j != i + 1 :: u[j] == old(u[j])
  {
    hide Val;
    StoreDouble(Span(u, i, i + 2), dd);
  }

  lemma GroupStart(base: Base, s: string, u: seq<Digit>, m: nat)
    requires |u| == 2 * RoomOf(Count(s, |s|), Exponent(base))
    requires m == if Count(s, |s|) < Exponent(base) then Count(s, |s|) else Exponent(base)
    ensures Grouped(base, s, |s|, u, 0, 0, 0, 1, 0, m)
  {
    hide Exponent, Count, RoomOf, LevelPower;
  }

  lemma GroupEnd(base: Base, s: string, u: seq<Digit>, i: nat, k: nat, dd: nat, cb: nat, g: nat, m: nat)
    requires Grouped(base, s, 0, u, i, k, dd, cb, g, m)
    ensures i == |u| && Blocks(u, 0, i, 2, LevelPower(base, 0)) == Value(base, s, |s|)
    ensures Below(u, 0, i, 2, LevelPower(base, 0))
  {
    hide Exponent, RoomOf, LevelPower, Blocks, Below, Power;
    PowerZero(base);
    RoomOfFacts(0, Exponent(base));
    SuffixSplit(base, s, 0);
    assert Power(LevelPower(base, 0), k) * 0 == 0;
  }

  lemma SkipChar(base: Base, s: string, p: nat, u: seq<Digit>, i: nat, k: nat, dd: nat, cb: nat, g: nat, m: nat)
    requires 0 < p <= |s| && Grouped(base, s, p, u, i, k, dd, cb, g, m) && ConvDigit(s[p - 1]) < 0
    ensures Grouped(base, s, p - 1, u, i, k, dd, cb, g, m) && Count(s, p - 1) == Count(s, p)
  {
    hide Exponent, RoomOf, LevelPower, Blocks, Below, Power;
  }

  /** The pair and its base fit in a double digit, and there is a place for the pair. */
  lemma GroupFacts(base: Base, s: string, p: nat, u: seq<Digit>, i: nat, k: nat, dd: nat, cb: nat, g: nat, m: nat, c: nat)
    requires 0 < p <= |s| && Grouped(base, s, p, u, i, k, dd, cb, g, m) && InBase(base, s) && ConvDigit(s[p - 1]) == c
    ensures c < base && 0 < m && 0 <= dd + c * cb < B * B && 0 <= base * cb < B * B
    ensures i + 2 <= |u| && Count(s, p) == Count(s, p - 1) + 1
  {
    hide Exponent, RoomOf, LevelPower, Blocks, Below, Power, SuffixCount, SuffixValue, ConvDigit, Value;
    TakeDigit(base, s, p, u, i, k, dd, cb, g, m, c);
    LevelZero(base);
    LevelZeroIs(base);
    PowerMonotone(base, g + 1, Exponent(base));
    RoomOfFacts(Count(s, p) + g, Exponent(base));
  }

  /** v[i..e] = u[i..mid] + power * u[mid..e] */
  method CombinePair(v: array<Digit>, u: array<Digit>, i: nat, mid: nat, e: nat, power: Span)
    requires v != u && power.a != v && power.Ok() && i <= mid <= e <= u.Length == v.Length
    requires power.Len() <= mid - i && power.Num() <= Pw(mid - i) && Val(u[..], i, mid) < power.Num()
    modifies v
    ensures Val(v[..], i, e) == Val(u[..], i, mid) + power.Num() * Val(u[..], mid, e)
    ensures forall j | 0 <= j < v.Length && (j < i || e <= j) :: v[j] == old(v[j])
  {
    hide Val, Shl, Pw, Mul;
    var z := Span(v, i, e);
    ghost var lo, hi := Val(u[..], i, mid), Val(u[..], mid, e);
    MulDef(power.Num(), hi);
    BaryMul.BaryMul(z, power, Span(u, mid, e));
    var carry := BaryAdd.BaryAdd(z, z, Span(u, i, mid));
    ValBound(u[..], mid, e);
    CombineFits(lo, hi, power.Num(), mid - i, e - mid);
    ValBound(v[..], i, e);
    NoCarry(z.Num(), carry, e - i, lo + Mul(power.Num(), hi));
  }

  lemma CombineFits(lo: nat, hi: nat, p: nat, m: nat, n: nat)
    requires lo < p <= Pw(m) && hi < Pw(n)
    ensures lo + Mul(p, hi) < Pw(m + n)
  {
    hide Pw;
    PwAdd(m, n);
    MulLe(hi + 1, Pw(n), p);
    MulLe(p, Pw(m), Pw(n));
    assert p * (hi + 1) == p * hi + p;
  }

  /** One block of the next level; the last one may be short, or have no upper half. */
  method CombineBlock(v: array<Digit>, u: array<Digit>, i: nat, unit: nat, power: Span) returns (e: nat)
    requires v != u && power.a != v && power.Ok() && i < u.Length == v.Length && 0 < unit
    requires power.Len() <= unit && power.Num() <= Pw(unit)
    requires Val(u[..], i, Cut(i + unit, u.Length)) < power.Num()
    modifies v
    ensures e == Cut(i + 2 * unit, u.Length)
    ensures Val(v[..], i, e) == Val(u[..], i, Cut(i + unit, e)) + power.Num() * Val(u[..], Cut(i + unit, e), e)
    ensures forall j | 0 <= j < v.Length && (j < i || e <= j) :: v[j] == old(v[j])
  {
    hide Val, Pw;
    var n := u.Length;
    if 2 * unit <= n - i {
      e := i + 2 * unit;
      CombinePair(v, u, i, i + unit, e, power);
    } else if unit <= n - i {
      e := n;
      CombinePair(v, u, i, i + unit, e, power);
    } else {
      e := n;
      ValEmpty(u[..], n);
      CopyDigits(Span(v, i, n), Span(u, i, n));
    }
  }

  function Cut(i: nat, n: nat): nat
  {
    if i <= n then i else n
  }

  /** Two blocks of one level make one block of the next. */
  lemma MergeStep(u: seq<Digit>, v: seq<Digit>, i: nat, unit: nat, p: nat, k: nat, n: nat)
    requires 0 < unit && i < n == |u| == |v| && Aligned(0, i, 2 * unit, k) && Aligned(0, i, unit, 2 * k)
    requires Blocks(v, 0, i, 2 * unit, p * p) == Blocks(u, 0, i, unit, p) && Below(v, 0, i, 2 * unit, p * p)
    requires Below(u, 0, n, unit, p)
    requires var e := Cut(i + 2 * unit, n);
             Val(v, i, e) == Val(u, i, Cut(i + unit, e)) + p * Val(u, Cut(i + unit, e), e)
    ensures var e := Cut(i + 2 * unit, n);
            && Blocks(v, 0, e, 2 * unit, p * p) == Blocks(u, 0, e, unit, p) && Below(v, 0, e, 2 * unit, p * p)
            && Aligned(0, i + 2 * unit, 2 * unit, k + 1) && Aligned(0, i + 2 * unit, unit, 2 * (k + 1))
  {
    hide Val, Blocks, Below, Power, Aligned;
    var e := Cut(i + 2 * unit, n);
    var mid := Cut(i + unit, e);
    var lo, hi := Val(u, i, mid), Val(u, mid, e);
    AlignedNext(0, i, 2 * unit, k);
    AlignedNext(0, i, unit, 2 * k);
    AlignedNext(0, i + unit, unit, 2 * k + 1);
    BlocksSnoc(v, 0, i, e - i, 2 * unit, p * p, k);
    BlocksSnoc(u, 0, i, mid - i, unit, p, 2 * k);
    BelowAt(u, 0, i, n, unit, p, 2 * k);
    if mid < e {
      BlocksSnoc(u, 0, mid, e - mid, unit, p, 2 * k + 1);
      BelowAt(u, 0, mid, n, unit, p, 2 * k + 1);
    } else {
      ValEmpty(u, e);
    }
    MergeAlgebra(p, k, lo, hi);
    BelowSnoc(v, 0, i, e - i, 2 * unit, p * p, k);
  }

  lemma MergeAlgebra(p: nat, k: nat, lo: nat, hi: nat)
    ensures Power(p * p, k) * (lo + p * hi) == Power(p, 2 * k) * lo + Power(p, 2 * k + 1) * hi
    ensures lo < p && hi < p ==> lo + p * hi < p * p
  {
    hide Power;
    PowerSquare(p, k);
    PowerStep(p, 2 * k);
    MergeInt(p, Power(p, 2 * k), lo, hi);
  }

  lemma MergeInt(p: int, w: int, lo: int, hi: int)
    ensures w * (lo + p * hi) == w * lo + (p * w) * hi
    ensures 0 <= lo < p && hi < p ==> lo + p * hi < p * p
  {
    assert w * (lo + p * hi) == w * lo + w * (p * hi);
    assert w * (p * hi) == (p * w) * hi;
    if 0 <= lo < p && hi < p { MulLe(hi + 1, p, p); }
  }

  lemma {:induction false} PowerSquare(p: nat, k: nat)
    ensures Power(p * p, k) == Power(p, 2 * k)
  {
    if k > 0 {
      PowerSquare(p, k - 1);
      assert Power(p, 2 * k) == p * (p * Power(p, 2 * k - 2));
      MulAssoc(p, p, Power(p, 2 * k - 2));
    }
  }

  /** One level: v takes blocks of twice the size. */
  method CombineLevel(v: array<Digit>, u: array<Digit>, unit: nat, power: Span)
    requires v != u && power.a != v && power.Ok() && u.Length == v.Length && 0 < unit
    requires power.Len() <= unit && power.Num() <= Pw(unit) && Below(u[..], 0, u.Length, unit, power.Num())
    modifies v
    ensures var p := power.Num();
            && Blocks(v[..], 0, v.Length, 2 * unit, p * p) == Blocks(u[..], 0, u.Length, unit, p)
            && Below(v[..], 0, v.Length, 2 * unit, p * p)
  {
    hide Val, Blocks, Below, Pw, Aligned, Cut;
    var n := u.Length;
    ghost var p, k := power.Num(), 0;
    LevelStart(v[..], u[..], unit, p);
    var i := 0;
    while i < n
      invariant 0 <= i && Aligned(0, i, 2 * unit, k) && Aligned(0, i, unit, 2 * k)
      invariant Blocks(v[..], 0, Cut(i, n), 2 * unit, p * p) == Blocks(u[..], 0, Cut(i, n), unit, p)
      invariant Below(v[..], 0, Cut(i, n), 2 * unit, p * p)
      decreases n - i
    {
      CutFacts(i, unit, n);
      BelowAt(u[..], 0, i, n, unit, p, 2 * k);
      ghost var before := v[..];
      var e := CombineBlock(v, u, i, unit, power);
      BlocksKept(before, v[..], 0, i, 2 * unit, p * p);
      BelowKept(before, v[..], 0, i, 2 * unit, p * p);
      MergeStep(u[..], v[..], i, unit, p, k, n);
      i, k := i + 2 * unit, k + 1;
    }
    CutFacts(i, unit, n);
  }

  lemma CutFacts(i: nat, unit: nat, n: nat)
    ensures i < n ==> Cut(i, n) == i && Cut(i + unit, n) == (if i + unit <= n then i + unit else n)
    ensures i >= n ==> Cut(i, n) == n
  {
  }

  lemma LevelStart(v: seq<Digit>, u: seq<Digit>, unit: nat, p: nat)
    requires 0 < unit
    ensures Blocks(v, 0, Cut(0, |v|), 2 * unit, p * p) == 0 == Blocks(u, 0, Cut(0, |v|), unit, p)
    ensures Below(v, 0, Cut(0, |v|), 2 * unit, p * p)
    ensures Aligned(0, 0, 2 * unit, 0) && Aligned(0, 0, unit, 0)
  {
    assert Cut(0, |v|) == 0;
  }

  /** str2big_karatsuba */
  method Karatsuba(base: Base, s: string, numBdigits: nat) returns (z: Span)
    requires InBase(base, s) && numBdigits == 2 * RoomOf(Count(s, |s|), Exponent(base))
    ensures z.Ok() && fresh(z.a) && z.Num() == Value(base, s, |s|)
    ensures z.Len() > 0 ==> z.a[z.hi - 1] != 0
  {
    hide Val, Blocks, Below, Pw, LevelPower, Value, Exponent, RoomOf, Count;
    BPositive();
    var u := Pairs(base, s, numBdigits);
    var v := new Digit[numBdigits](_ => 0);
    var level := 0;
    var power, nd := GetPower(base, level);
    var unit := 2;
    LevelZero(base);
    PwNext(1); PwNext(0); PwZero();
    while unit < numBdigits
      invariant 2 <= unit && u.Length == v.Length == numBdigits && u != v && fresh(u) && fresh(v)
      invariant power.Ok() && power.a != u && power.a != v && 0 < power.Len() && power.a[power.hi - 1] != 0
      invariant power.Num() == LevelPower(base, level) < Pw(unit)
      invariant Blocks(u[..], 0, numBdigits, unit, LevelPower(base, level)) == Value(base, s, |s|)
      invariant Below(u[..], 0, numBdigits, unit, LevelPower(base, level))
      decreases numBdigits - unit
    {
      PowerLen(power, unit);
      CombineLevel(v, u, unit, power);
      LevelNext(base, level);
      SquareBelow(LevelPower(base, level), unit);
      level := level + 1;
      power, nd := GetPower(base, level);
      u, v := v, u;
      unit := unit * 2;
    }
    OneBlock(u[..], unit, LevelPower(base, level));
    z := BaryTrunc(Span(u, 0, numBdigits));
  }

  lemma PowerLen(power: Span, unit: nat)
    requires power.Ok() && 0 < power.Len() && power.a[power.hi - 1] != 0 && power.Num() < Pw(unit)
    ensures power.Len() <= unit
  {
    hide Val, Pw;
    TopSplit(power.a[..], power.lo, power.hi);
    MulLe(1, power.a[power.hi - 1], Pw(power.Len() - 1));
    if unit < power.Len() { PwMonotone(unit, power.Len() - 1); }
  }

  lemma SquareBelow(p: nat, unit: nat)
    requires p < Pw(unit)
    ensures p * p < Pw(2 * unit)
  {
    hide Pw;
    PwAdd(unit, unit);
    SquareLess(p, Pw(unit));
  }

  lemma SquareLess(p: nat, q: nat)
    requires p < q
    ensures p * p < q * q
  {
    MulLe(p, q, p);
    MulLe(p + 1, q, q);
  }

  lemma OneBlock(u: seq<Digit>, unit: nat, p: nat)
    requires 0 < unit && |u| <= unit
    ensures Blocks(u, 0, |u|, unit, p) == Val(u, 0, |u|)
  {
    assert Blocks(u, unit, |u|, unit, p) == 0;
    assert p * 0 == 0;
  }

  /** Two digits for every group of as many digits as fit in them are enough. */
  lemma RoomEnough(base: Base, c: nat)
    ensures Power(base, c) <= Pw(2 * RoomOf(c, Exponent(base)))
    decreases c
  {
    hide Pw, Power, Exponent, RoomOf;
    var e := Exponent(base);
    RoomOfFacts(c, e);
    PwZero(); PwNext(0); PwNext(1);
    PowerZero(base);
    if c == 0 {
    } else if c <= e {
      PowerMonotone(base, c, e);
    } else {
      RoomOfFacts(c - e, e);
      RoomEnough(base, c - e);
      PowerAdd(base, e, c - e);
      PwAdd(2, 2 * RoomOf(c - e, e));
      MulBoth(Power(base, e), Pw(2), Power(base, c - e), Pw(2 * RoomOf(c - e, e)));
    }
  }

  lemma MulBoth(a: nat, b: nat, c: nat, d: nat)
    requires a <= b && c <= d
    ensures a * c <= b * d
  {
    MulLe(a, b, c);
    MulLe(c, d, b);
  }

  /** The end of rb_int_parse_cstr, for digits that have been scanned: whichever reader is used, the number is the
      positional value of the digits. */
  method Read(base: Base, s: string) returns (z: Span)
    requires InBase(base, s)
    ensures z.Ok() && fresh(z.a) && z.Num() == Value(base, s, |s|)
    ensures forall ds: seq<nat> :: SpellsAnyCase(s, ds) ==> z.Num() == Weigh(base, ds)
  {
    hide Val, RoomOf, Exponent, Value, Count, SpellsAnyCase, Weigh;
    forall ds: seq<nat> | SpellsAnyCase(s, ds) ensures Value(base, s, |s|) == Weigh(base, ds) { WholeSpelled(base, s, ds); }
    var maxpow, perPair := MaxPow(base);
    var numBdigits := 2 * RoomOf(Count(s, |s|), perPair);
    if numBdigits < KARATSUBA_MUL_DIGITS {
      z := Normal(base, s, numBdigits);
    } else {
      z := Karatsuba(base, s, numBdigits);
    }
  }

  /** What the printer writes, after the sign, is read back as the same magnitude. */
  method PrintAndRead(x: Span, base: Base, negative: bool) returns (s: string, z: Span)
    requires x.Ok()
    ensures s == Printed(base, negative, x.Num())
    ensures z.Ok() && z.Num() == x.Num()
  {
    hide Val, Value, Count, Numeral;
    ghost var ds;
    s, ds := Generic(x, base, negative);
    ghost var v := x.Num();
    ValueNumeral(base, v);
    NumeralNoSign(base, v);
    ZeroText(base);
    assert "" + Numeral(base, v) == Numeral(base, v);
    if |s| > 0 && s[0] == '-' {
      assert s[1..] == Numeral(base, v);
      z := Read(base, s[1..]);
    } else {
      z := Read(base, s);
    }
  }

  lemma ZeroText(base: Base)
    ensures InBase(base, "0") && Value(base, "0", 1) == 0
  {
    assert Value(base, "0", 0) == 0;
  }

  /** A numeral does not begin with a sign. */
  lemma NumeralNoSign(base: Base, v: nat)
    requires InBase(base, Numeral(base, v)) && Count(Numeral(base, v), |Numeral(base, v)|) == |Numeral(base, v)|
    ensures 0 < v ==> 0 < |Numeral(base, v)| && Numeral(base, v)[0] != '-'
  {
    if 0 < v { FirstIsDigit(Numeral(base, v), |Numeral(base, v)|); }
  }

  lemma {:induction false} FirstIsDigit(s: string, n: nat)
    requires 0 < n <= |s| && Count(s, n) == n
    ensures ConvDigit(s[0]) >= 0
  {
    CountAtMost(s, n - 1);
    if n > 1 { FirstIsDigit(s, n - 1); }
  }

  lemma {:induction false} CountAtMost(s: string, n: nat)
    requires n <= |s|
    ensures Count(s, n) <= n
  {
    if n > 0 { CountAtMost(s, n - 1); }
  }
}
