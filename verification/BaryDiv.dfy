/** Long division with a trial quotient and add-back (bignum.c, bigdivrem1 to bary_divmod;
    Knuth, The Art of Computer Programming, vol. 2, section 4.3.1, Algorithm D). */
module BaryDiv {
  import opened Digits
  import opened BaryAdd
  import opened BarySigned
  import opened BaryMulBasic
  import opened BaryMulPre
  import opened BaryMulSub
  import opened BaryShift
  import opened BaryDivSingle
  import opened KaratsubaSteps

  /** The trial quotient digit from the two top digits h, l of the dividend and the top digit t of the divisor. */
  function Trial(h: Digit, l: Digit, t: Digit): (q: Digit)
    requires 0 < t && h <= t
    ensures q * t <= B * h + l
    ensures B * h + l < (q + 1) * t || (h == t && q == B - 1)
  {
    BPositive();
    if h == t then
      assert (B - 1) * t == B * t - t;
      B - 1
    else
      QuotientDigit(h, l, t);
      assert ((B * h + l) / t + 1) * t == (B * h + l) / t * t + t;
      (B * h + l) / t
  }

  /** The trial quotient is not too small. */
  lemma TrialUpper(q: int, w: int, wlow: int, t: int, ylow: int, p: int)
    requires 0 <= q && 0 <= wlow < p && 0 <= ylow && w < (q + 1) * t
    ensures w * p + wlow < (q + 1) * (t * p + ylow)
  {
    MulLe(w + 1, (q + 1) * t, p);
    assert (q + 1) * t * p == (q + 1) * (t * p);
    MulLe(0, ylow, q + 1);
    assert (w + 1) * p == w * p + p;
    assert (q + 1) * (t * p + ylow) == (q + 1) * (t * p) + (q + 1) * ylow;
  }

  /** The remainder it leaves is above -B^n: one borrow is enough. */
  lemma TrialLower(q: int, w: int, wlow: int, t: int, ylow: int, p: int)
    requires 0 <= q < B && 0 <= wlow && 0 <= ylow < p && q * t <= w
    ensures q * (t * p + ylow) < w * p + wlow + B * p
  {
    MulLe(q * t, w, p);
    assert q * t * p == q * (t * p);
    assert q * (t * p + ylow) == q * (t * p) + q * ylow;
    MulLe(q, B - 1, ylow);
    MulLe(ylow, p, B - 1);
    assert (B - 1) * p == B * p - p;
  }

  /** With a normalized divisor the trial quotient is at most two too large. */
  lemma TrialTwo(q: int, w: int, wlow: int, t: int, ylow: int, p: int)
    requires 0 <= q < B && 0 < t && B <= 2 * t && 0 <= wlow && 0 <= ylow < p
    requires q * t <= w
    ensures (q - 2) * (t * p + ylow) < w * p + wlow
  {
    MulLe(q * t, w, p);
    MulLe(q, 2 * t - 1, p);
    MulLe(q, 2 * t - 1, ylow);
    assert q * t * p == q * (t * p);
    assert (2 * t - 1) * p == 2 * (t * p) - p;
    assert (q - 2) * (t * p + ylow) == q * (t * p) + q * ylow - 2 * (t * p) - 2 * ylow;
    MulLe(ylow, p - 1, q);
    assert q * (p - 1) == q * p - q;
  }

  /** The number formed by the top digits t and the rest. */
  lemma TopSplit(s: seq<Digit>, lo: int, hi: int)
    requires 0 <= lo < hi <= |s|
    ensures Val(s, lo, hi) == s[hi - 1] * Pw(hi - 1 - lo) + Val(s, lo, hi - 1)
    ensures 0 <= Val(s, lo, hi - 1) < Pw(hi - 1 - lo)
  {
    ValSnoc(s, lo, hi - 1);
    ValBound(s, lo, hi - 1);
  }

  /** The top digit of the dividend is at most that of the divisor. */
  lemma TopOrder(w: Span, y: Span)
    requires w.Ok() && y.Ok() && 0 < y.Len() && w.Len() == y.Len() + 1
    requires w.Drop(1).Num() < y.Num()
    ensures w.a[w.hi - 1] <= y.a[y.hi - 1]
  {
    hide Val, Pw;
    var n := y.Len();
    TopSplit(w.a[..], w.lo + 1, w.hi);
    TopSplit(y.a[..], y.lo, y.hi);
    var h, t := w.a[w.hi - 1], y.a[y.hi - 1];
    if h > t { MulLe(t as int + 1, h, Pw(n - 1)); }
  }

  /** How far off the trial quotient can be. */
  lemma TrialRange(w: Span, y: Span, q: Digit)
    requires w.Ok() && y.Ok() && 0 < y.Len() && w.Len() == y.Len() + 1
    requires y.a[y.hi - 1] != 0 && w.Drop(1).Num() < y.Num()
    requires w.a[w.hi - 1] <= y.a[y.hi - 1] && q == Trial(w.a[w.hi - 1], w.a[w.hi - 2], y.a[y.hi - 1])
    ensures w.Num() < Mul(q as int + 1, y.Num())
    ensures Mul(q, y.Num()) < w.Num() + Pw(y.Len())
    ensures B <= 2 * y.a[y.hi - 1] as int ==> Mul(q - 2, y.Num()) < w.Num()
  {
    hide Val, Pw;
    var n := y.Len();
    var h, l, t := w.a[w.hi - 1], w.a[w.hi - 2], y.a[y.hi - 1];
    var p, ylow, wlow := Pw(n - 1), Val(y.a[..], y.lo, y.hi - 1), Val(w.a[..], w.lo, w.hi - 2);
    TopSplit(y.a[..], y.lo, y.hi);
    TopSplit(w.a[..], w.lo, w.hi);
    TopSplit(w.a[..], w.lo, w.hi - 1);
    PwNext(n - 1);
    ValCons(w.a[..], w.lo, w.hi);
    var v := B * h + l;
    assert w.Num() == v * p + wlow by { TwoDigits(h, l, p); }
    TrialLower(q, v, wlow, t, ylow, p);
    if B <= 2 * t as int { TrialTwo(q, v, wlow, t, ylow, p); }
    if v < (q + 1) * t {
      TrialUpper(q, v, wlow, t, ylow, p);
    } else {
      BelowMultiple(w.a[w.lo], w.Drop(1).Num(), y.Num());
    }
  }

  lemma PwNext(n: nat)
    ensures Pw(n + 1) == B * Pw(n)
  {
  }

  lemma TwoDigits(h: int, l: int, p: int)
    ensures h * (B * p) + l * p == (B * h + l) * p
  {
  }

  lemma BelowMultiple(d: Digit, v: int, y: int)
    requires v < y
    ensures d + B * v < B * y
  {
    MulLe(v, y - 1, B);
    assert (y - 1) * B == y * B - B;
  }

  /** The borrow left by the trial subtraction is 0 or -1. */
  lemma BorrowRange(v: int, num: int, n: nat, d: int, y: int)
    requires 0 <= v < Pw(n) && v + Shl(num, n) == d && -(Pw(n) as int) < d < y < Pw(n)
    ensures -1 <= num <= 0
  {
    if num >= 1 { MulLe(1, num, Pw(n)); }
    if num <= -2 { MulLe(num, -2, Pw(n)); }
  }

  /** A zero trial quotient: the dividend is below the divisor and its top digit is 0. */
  lemma TrialZero(w: Span, y: Span)
    requires w.Ok() && y.Ok() && 0 < y.Len() && w.Len() == y.Len() + 1
    requires w.Num() < Mul(1, y.Num())
    ensures Val(w.a[..], w.lo, w.hi - 1) == w.Num() < y.Num()
  {
    hide Val, Pw, Shl;
    MulDef(1, y.Num());
    ValBound(y.a[..], y.lo, y.hi);
    HighZero(w.a[..], w.lo, w.hi, y.Len());
    ValSnoc(w.a[..], w.lo, w.hi - 1);
    ShlZero(y.Len());
  }

  /** The add-back loop: while the remainder is negative, add the divisor and lower the quotient.  num is taken
      from the carry of the addition, which is sound because it was -1. */
  method AddBack(r: Span, y: Span, q0: Digit, num0: int, ghost W: int) returns (q: Digit, ghost backs: nat)
    requires r.Ok() && y.Ok() && Disjoint(r, y) && r.Len() == y.Len() && -1 <= num0 <= 0
    requires r.Num() + Shl(num0, r.Len()) == W - Mul(q0, y.Num())
    requires W < Mul(q0 as int + 1, y.Num()) && 0 <= W
    modifies r.a
    ensures r.Num() == W - Mul(q, old(y.Num())) < old(y.Num())
    ensures q <= q0 && backs == q0 - q
    ensures backs > 0 ==> W < Mul(q as int + 1, old(y.Num()))
    ensures Frame(r)
  {
    hide Shl, Val, Pw, Mul;
    ghost var Y := y.Num();
    var num := num0;
    q, backs := q0, 0;
    while num != 0
      invariant -1 <= num <= 0 && q <= q0 && backs == q0 - q
      invariant r.Num() + Shl(num, r.Len()) == W - Mul(q, Y)
      invariant W < Mul(q as int + 1, Y)
      invariant Frame(r)
      decreases q
    {
      Kept(old(y.a[..]), y.a[..], y.lo, y.hi);
      NegativeRemainder(r.Num(), q, r.Len(), W, Y, r.a[..], r.lo, r.hi);
      q := q - 1;
      backs := backs + 1;
      var c := BaryAdd.BaryAdd(r, r, y);
      num := c as int - 1;
      ShlAdd(c, -1, r.Len());
    }
    ShlZero(r.Len());
    MulAdd(Y, q, 1); MulComm(Y, q as int + 1); MulComm(Y, q); MulDef(Y, 1);
  }

  lemma NegativeRemainder(v: int, q: Digit, n: nat, W: int, Y: int, s: seq<Digit>, lo: int, hi: int)
    requires 0 <= lo <= hi <= |s| && v == Val(s, lo, hi) && n == hi - lo
    requires v + Shl(-1, n) == W - Mul(q, Y) && 0 <= W
    ensures q > 0 && W < Mul(q, Y) && Mul(q as int - 1, Y) == Mul(q, Y) - Y
  {
    ValBound(s, lo, hi);
    assert (q as int - 1) * Y == q * Y - Y;
  }

  /** One quotient digit: the yn + 1 digits w are divided by y, whose multiple B * y they lie below.  The remainder
      replaces the lower yn digits of w; the top digit is left for the caller to overwrite.  backs counts the
      add-backs. */
  method DivStep(w: Span, y: Span) returns (q: Digit, ghost backs: nat)
    requires w.Ok() && y.Ok() && Disjoint(w, y) && 0 < y.Len() && w.Len() == y.Len() + 1
    requires y.a[y.hi - 1] != 0 && w.Drop(1).Num() < y.Num()
    modifies w.a
    ensures Mul(q, old(y.Num())) + Val(w.a[..], w.lo, w.hi - 1) == old(w.Num())
    ensures Val(w.a[..], w.lo, w.hi - 1) < old(y.Num())
    ensures B <= 2 * old(y.a[y.hi - 1]) as int ==> backs <= 2
    ensures Frame(w.Take(y.Len()))
  {
    hide Shl, Val, Pw, Mul, Trial;
    var n := y.Len();
    ghost var W, Y := w.Num(), y.Num();
    TopOrder(w, y);
    q := Trial(w.a[w.hi - 1], w.a[w.hi - 2], y.a[y.hi - 1]);
    TrialRange(w, y, q);
    ValBound(y.a[..], y.lo, y.hi);
    backs := 0;
    if q != 0 {
      ghost var q0 := q;
      var num := BigDivRemMulSub(w, q, y);
      Kept(old(y.a[..]), y.a[..], y.lo, y.hi);
      ValBound(w.a[..], w.lo, w.hi - 1);
      NextMultiple(q, Y);
      BorrowRange(Val(w.a[..], w.lo, w.hi - 1), num, n, W - Mul(q, Y), Y);
      q, backs := AddBack(w.Take(n), y, q, num, W);
      AtMostTwo(q0, q, W, Y);
    } else {
      MulDef(0, Y);
      TrialZero(w, y);
    }
  }

  lemma NextMultiple(q: int, y: int)
    ensures Mul(q + 1, y) == Mul(q, y) + y
  {
  }

  lemma AtMostTwo(q0: int, q: int, W: int, Y: int)
    requires 0 <= q <= q0 && 0 <= Y && (q0 > q ==> W < Mul(q + 1, Y))
    ensures Mul(q0 - 2, Y) < W ==> q0 - q <= 2
  {
    if q0 - q > 2 { MulLe(q + 1, q0 - 2, Y); }
  }

  /** How often the divisor was added back for each quotient digit. */
  ghost predicate AllAtMostTwo(backs: seq<nat>)
  {
    forall i | 0 <= i < |backs| :: backs[i] <= 2
  }

  /** bigdivrem1: the quotient digits are left above the remainder, in place of the dividend. */
  method BigDivRem1(z: Span, y: Span) returns (ghost backs: seq<nat>)
    requires z.Ok() && y.Ok() && Disjoint(z, y) && 0 < y.Len() < z.Len()
    requires y.a[y.hi - 1] != 0 && Val(z.a[..], z.hi - y.Len(), z.hi) < y.Num()
    modifies z.a
    ensures Mul(z.Drop(y.Len()).Num(), old(y.Num())) + z.Take(y.Len()).Num() == old(z.Num())
    ensures z.Take(y.Len()).Num() < old(y.Num())
    ensures |backs| == z.Len() - y.Len() && (B <= 2 * old(y.a[y.hi - 1]) as int ==> AllAtMostTwo(backs))
    ensures Frame(z)
  {
    hide Shl, Val, Pw, Mul;
    ghost var V, Y := z.Num(), y.Num();
    var n := y.Len();
    var k := z.Len();
    backs := [];
    ValEmpty(z.a[..], z.hi); ShlZero(k - n); MulDef(0, Y);
    while k > n
      invariant n <= k <= z.Len()
      invariant Mul(Shl(Val(z.a[..], z.lo + k, z.hi), k - n), Y) + Val(z.a[..], z.lo, z.lo + k) == V
      invariant Val(z.a[..], z.lo + k - n, z.lo + k) < Y
      invariant |backs| == z.Len() - k && (B <= 2 * old(y.a[y.hi - 1]) as int ==> AllAtMostTwo(backs))
      invariant Frame(z)
    {
      Kept(old(y.a[..]), y.a[..], y.lo, y.hi);
      ghost var b := DivDigitAt(z, y, k, V);
      backs := backs + [b];
      k := k - 1;
    }
    ShlUnit(Val(z.a[..], z.lo + n, z.hi));
  }

  /** One round of bigdivrem1: divide the window below position k and store the quotient digit on top of it. */
  method DivDigitAt(z: Span, y: Span, k: nat, ghost V: int) returns (ghost backs: nat)
    requires z.Ok() && y.Ok() && Disjoint(z, y) && 0 < y.Len() < k <= z.Len()
    requires y.a[y.hi - 1] != 0
    requires Mul(Shl(Val(z.a[..], z.lo + k, z.hi), k - y.Len()), y.Num()) + Val(z.a[..], z.lo, z.lo + k) == V
    requires Val(z.a[..], z.lo + k - y.Len(), z.lo + k) < y.Num()
    modifies z.a
    ensures Mul(Shl(Val(z.a[..], z.lo + k - 1, z.hi), k - 1 - y.Len()), old(y.Num())) + Val(z.a[..], z.lo, z.lo + k - 1) == V
    ensures Val(z.a[..], z.lo + k - 1 - y.Len(), z.lo + k - 1) < old(y.Num())
    ensures B <= 2 * old(y.a[y.hi - 1]) as int ==> backs <= 2
    ensures Frame(z.Sub(k - 1 - y.Len(), k))
  {
    hide Shl, Val, Pw, Mul;
    var n := y.Len();
    var m := k - 1 - n;
    var w := z.Sub(m, k);
    ghost var Y, W, Q, low := y.Num(), w.Num(), Val(z.a[..], z.lo + k, z.hi), Val(z.a[..], z.lo, z.lo + m);
    ValSplit(z.a[..], z.lo, z.lo + m, z.lo + k);
    var q;
    q, backs := DivStep(w, y);
    ghost var r := Val(z.a[..], z.lo + m, z.lo + k - 1);
    label L:
    z.a[z.lo + k - 1] := q;
    Kept(old(z.a[..]), z.a[..], z.lo + k, z.hi);
    Kept(old(z.a[..]), z.a[..], z.lo, z.lo + m);
    Kept(old@L(z.a[..]), z.a[..], z.lo + m, z.lo + k - 1);
    ValCons(z.a[..], z.lo + k - 1, z.hi);
    ValSplit(z.a[..], z.lo, z.lo + m, z.lo + k - 1);
    DigitAlgebra(Q, q, m, Y, W, r);
  }

  lemma DigitAlgebra(Q: int, q: int, m: nat, Y: int, W: int, r: int)
    requires Mul(q, Y) + r == W
    ensures Mul(Shl(q + B * Q, m), Y) + Shl(r, m) == Mul(Shl(Q, m + 1), Y) + Shl(W, m)
  {
    hide Mul, Shl;
    ShlAdd(q, B * Q, m); ShlNext(Q, m);
    MulComm(Shl(q + B * Q, m), Y); MulComm(Shl(Q, m + 1), Y);
    MulAdd(Y, Shl(q, m), Shl(Q, m + 1));
    MulShl(Y, q, m); MulComm(Y, q);
    ShlAdd(Mul(q, Y), r, m);
  }

  /** bigdivrem_restoring: low zero digits of the divisor are skipped; a divisor with one other digit needs no
      trial quotients.  Afterwards z holds the remainder and, above it, the quotient. */
  method BigDivRemRestoring(z: Span, y: Span) returns (ghost backs: seq<nat>)
    requires z.Ok() && y.Ok() && Disjoint(z, y) && 0 < y.Len() < z.Len()
    requires z.a[z.hi - 1] < y.a[y.hi - 1]
    modifies z.a
    ensures Mul(z.Drop(y.Len()).Num(), old(y.Num())) + z.Take(y.Len()).Num() == old(z.Num())
    ensures z.Take(y.Len()).Num() < old(y.Num())
    ensures B <= 2 * old(y.a[y.hi - 1]) as int ==> AllAtMostTwo(backs)
    ensures Frame(z)
  {
    hide Shl, Val, Pw, Mul, AllAtMostTwo;
    NoneBack();
    var k := LowZeros(y);
    var n := y.Len();
    JoinVal(z, k);
    ghost var Y, low := y.Drop(k).Num(), z.Take(k).Num();
    backs := [];
    if k + 1 == n {
      ValSingle(y.a[..], y.lo + k);
      DivOneDigit(z.Drop(k), y.a[y.lo + k]);
      ValSingle(z.a[..], z.lo + k);
    } else {
      TopBelow(z, y, k);
      backs := BigDivRem1(z.Drop(k), y.Drop(k));
    }
    Kept(old(z.a[..]), z.a[..], z.lo, z.lo + k);
    JoinVal(z.Take(n), k);
    ValBound(z.a[..], z.lo, z.lo + k);
    SkipZeros(z.Drop(n).Num(), Y, k, Val(z.a[..], z.lo + k, z.lo + n), low);
  }

  /** How many low digits of the divisor are zero. */
  method LowZeros(y: Span) returns (k: nat)
    requires y.Ok() && 0 < y.Len() && y.a[y.hi - 1] != 0
    ensures k < y.Len() && y.a[y.lo + k] != 0 && y.Num() == Shl(y.Drop(k).Num(), k)
  {
    hide Shl, Val;
    k := 0;
    while y.a[y.lo + k] == 0
      invariant 0 <= k < y.Len()
      invariant forall j | y.lo <= j < y.lo + k :: y.a[j] == 0
      decreases y.Len() - k
    {
      k := k + 1;
    }
    JoinVal(y, k);
    ValZero(y.a[..], y.lo, y.lo + k);
  }

  lemma NoneBack()
    ensures AllAtMostTwo([])
  {
  }

  /** The top digits of the dividend lie below the divisor. */
  lemma TopBelow(z: Span, y: Span, k: nat)
    requires z.Ok() && y.Ok() && k < y.Len() < z.Len() && z.a[z.hi - 1] < y.a[y.hi - 1]
    ensures Val(z.a[..], z.hi - (y.Len() - k), z.hi) < y.Drop(k).Num()
  {
    hide Val, Pw;
    var m := y.Len() - k;
    TopSplit(z.a[..], z.hi - m, z.hi);
    TopSplit(y.a[..], y.lo + k, y.hi);
    MulLe(z.a[z.hi - 1] as int + 1, y.a[y.hi - 1], Pw(m - 1));
  }

  lemma SkipZeros(Q: int, Y: int, k: nat, r: int, low: int)
    requires 0 <= low < Pw(k) && 0 <= r < Y
    ensures Mul(Q, Shl(Y, k)) + (low + Shl(r, k)) == low + Shl(Mul(Q, Y) + r, k)
    ensures low + Shl(r, k) < Shl(Y, k)
  {
    MulShl(Q, Y, k);
    ShlAdd(Mul(Q, Y), r, k);
    MulLe(r + 1, Y, Pw(k));
  }

  /** The divisor is the digit d (times a power of the radix already skipped): the quotient is written one
      digit above the dividend it is computed from. */
  method DivOneDigit(z: Span, d: Digit)
    requires z.Ok() && 1 < z.Len() && z.a[z.hi - 1] < d
    modifies z.a
    ensures Mul(z.Drop(1).Num(), d) + z.a[z.lo] == old(z.Num())
    ensures z.a[z.lo] < d
    ensures Frame(z)
  {
    hide Shl, Val, Pw, Mul;
    ValSnoc(z.a[..], z.lo, z.hi - 1);
    var r := BigDivRemSingle1(z.Drop(1), Span(z.a, z.lo, z.hi - 1), z.a[z.hi - 1], d);
    label L:
    z.a[z.lo] := r;
    Kept(old@L(z.a[..]), z.a[..], z.lo + 1, z.hi);
  }

  /** nlz: the number of leading zero bits of a non-zero digit. */
  function Nlz(d: Digit): (s: nat)
    requires d > 0
    ensures s < BITSPERDIG
  {
    BitLengthDigit(d);
    BITSPERDIG - BitLength(d)
  }

  /** Shifting by nlz sets the top bit and loses nothing. */
  lemma Normalized(d: Digit)
    requires d > 0
    ensures B <= 2 * (d * Pow2(Nlz(d)))
    ensures (d as int + 1) * Pow2(Nlz(d)) <= B
    ensures 2 * Pow2(Nlz(d)) <= B
  {
    hide Pow2;
    BitLengthDigit(d);
    var n, s := BitLength(d), Nlz(d);
    Pow2Add(n, s);
    Pow2Next(n - 1);
    Pow2Next(s);
    Pow2Monotone(s + 1, BITSPERDIG);
    NormalizedDigit(d, Pow2(n - 1), Pow2(s), B);
  }

  lemma NormalizedDigit(d: int, h: int, s: int, b: int)
    requires h <= d < 2 * h && 0 < s && (2 * h) * s == b
    ensures b <= 2 * (d * s) && (d + 1) * s <= b
  {
    MulLe(h, d, s);
    MulLe(d + 1, 2 * h, s);
    assert (2 * h) * s == 2 * (h * s);
  }

  /** The normalized divisor still fits and has a large top digit. */
  lemma NormalizedTop(y: int, t: Digit, ylow: int, n: nat, p: int)
    requires t > 0 && p == Pow2(Nlz(t)) && y == t * Pw(n) + ylow && 0 <= ylow < Pw(n)
    ensures 0 <= p * y < Pw(n + 1)
    ensures p * y >= t * p * Pw(n)
  {
    Normalized(t);
    var w := Pw(n);
    NormalizedInt(y, t, ylow, w, p);
    MulLe((t as int + 1) * p, B, w);
  }

  lemma NormalizedInt(y: int, t: int, ylow: int, w: int, p: int)
    requires 0 < p && 0 <= t && y == t * w + ylow && 0 <= ylow < w
    ensures t * p * w <= p * y < (t + 1) * p * w
    ensures 0 <= p * y
  {
    MulLe(t * w, y, p);
    MulLe(y, (t + 1) * w - 1, p);
    assert t * w * p == t * p * w;
    assert ((t + 1) * w - 1) * p == (t + 1) * p * w - p;
    assert y * p == p * y;
    MulLe(0, t, w);
    MulLe(0, y, p);
  }

  /** Shift the divisor so that its top bit is set. */
  method NormalizeDivisor(yy: Span, y: Span)
    requires yy.Ok() && y.Ok() && Disjoint(yy, y) && 0 < y.Len() == yy.Len() && y.a[y.hi - 1] != 0
    modifies yy.a
    ensures yy.Num() == Mul(Pow2(Nlz(old(y.a[y.hi - 1]))), old(y.Num()))
    ensures B <= 2 * yy.a[yy.hi - 1] as int
    ensures Frame(yy)
  {
    hide Shl, Val, Pw, Mul, Pow2;
    var n := y.Len();
    var t := y.a[y.hi - 1];
    ghost var p := Pow2(Nlz(t));
    TopSplit(y.a[..], y.lo, y.hi);
    NormalizedTop(y.Num(), t, Val(y.a[..], y.lo, y.hi - 1), n - 1, p);
    ghost var Y := y.Num();
    MulDef(p, Y);
    var out := BarySmallLshift(yy, y, Nlz(t));
    NoCarry(yy.Num(), out, n, p * Y);
    TopSplit(yy.a[..], yy.lo, yy.hi);
    Normalized(t);
    TopLarge(yy.a[yy.hi - 1], t * p, Pw(n - 1), Val(yy.a[..], yy.lo, yy.hi - 1));
  }

  lemma TopLarge(d: int, h: int, w: int, low: int)
    requires low < w && d * w + low >= h * w && 0 < w
    ensures d >= h
  {
    if d < h { MulLe(d + 1, h, w); }
  }

  /** An optional result buffer: qds or rds, or a null pointer. */
  datatype Buffer = NoBuffer | Buffer(s: Span)

  ghost predicate Usable(b: Buffer, n: int, x: Span, y: Span)
  {
    b.Buffer? ==> b.s.Ok() && n <= b.s.Len() && Disjoint(b.s, x) && Disjoint(b.s, y)
  }

  ghost function Arrays(b: Buffer): set<object>
  {
    if b.Buffer? then {b.s.a} else {}
  }

  /** Everything of the buffer's array outside the buffer is what it was. */
  twostate predicate BufferFrame(b: Buffer)
    reads Arrays(b)
  {
    b.Buffer? ==> Frame(b.s)
  }

  ghost predicate Inside(b: Buffer, a: array<Digit>, k: int)
  {
    b.Buffer? && b.s.a == a && b.s.lo <= k < b.s.hi
  }

  /** Everything of the array of b outside b and c is what it was. */
  twostate predicate FrameBut(b: Buffer, c: Buffer)
    reads Arrays(b)
  {
    b.Buffer? ==> forall k | 0 <= k < b.s.a.Length && !Inside(b, b.s.a, k) && !Inside(c, b.s.a, k) :: b.s.a[k] == old(b.s.a[k])
  }

  /** The dividend, shifted, with a digit more on top: in the quotient buffer if that is large enough. */
  method NormalizeDividend(q: Buffer, x: Span, shift: nat) returns (zz: Span)
    requires x.Ok() && 0 < x.Len() && shift < BITSPERDIG
    requires q.Buffer? ==> q.s.Ok() && Disjoint(q.s, x)
    modifies Arrays(q)
    ensures zz.Ok() && zz.Len() == x.Len() + 1
    ensures fresh(zz.a) || (q.Buffer? && zz == q.s.Take(x.Len() + 1) && x.Len() + 1 <= q.s.Len())
    ensures zz.Num() == Mul(Pow2(shift), old(x.Num())) && zz.a[zz.hi - 1] < Pow2(shift)
    ensures BufferFrame(q)
  {
    hide Shl, Val, Pw, Mul, Pow2;
    var n := x.Len();
    BPositive();
    if q.Buffer? && n + 1 <= q.s.Len() {
      zz := q.s.Take(n + 1);
    } else {
      var a := new Digit[n + 1](_ => 0);
      zz := Span(a, 0, n + 1);
    }
    ShiftDividend(zz, x, shift);
  }

  method ShiftDividend(zz: Span, x: Span, shift: nat)
    requires zz.Ok() && x.Ok() && Disjoint(zz, x) && zz.Len() == x.Len() + 1 && shift < BITSPERDIG
    modifies zz.a
    ensures zz.Num() == Mul(Pow2(shift), old(x.Num())) && zz.a[zz.hi - 1] < Pow2(shift)
    ensures Frame(zz)
  {
    hide Shl, Val, Pw, Mul, Pow2;
    var n := x.Len();
    MulDef(Pow2(shift), x.Num());
    if shift != 0 {
      var top := BarySmallLshift(zz.Take(n), x, shift);
      SetDigit(zz, n, top);
    } else {
      Pow2Zero();
      CopyDigits(zz.Take(n), x);
      ShlZero(n);
      SetDigit(zz, n, (BPositive(); 0));
    }
  }

  /** The shift cancels from quotient and remainder. */
  lemma ShiftCancels(p: int, Q: int, y: int, r: int, x: int)
    requires 0 < p && Mul(Q, Mul(p, y)) + r == Mul(p, x) && 0 <= r < Mul(p, y)
    ensures r == Mul(p, x - Mul(Q, y)) && 0 <= x - Mul(Q, y) < y
  {
    var d := x - Q * y;
    assert Q * (p * y) == p * (Q * y);
    assert p * (x - Q * y) == p * x - p * (Q * y);
    if d < 0 { MulLe(d, -1, p); }
    if d >= y { MulLe(y, d, p); }
  }

  /** Undo the shift on the remainder; nothing but zero bits is dropped. */
  method DeliverRemainder(r: Span, zz: Span, n: nat, shift: nat, ghost R: nat)
    requires r.Ok() && zz.Ok() && Disjoint(r, zz) && 0 < n <= r.Len() && n <= zz.Len() && shift < BITSPERDIG
    requires zz.Take(n).Num() == Mul(Pow2(shift), R)
    modifies r.a
    ensures r.Num() == R
    ensures Frame(r)
  {
    hide Shl, Val, Pw, Mul, Pow2, Dropped;
    BPositive();
    ghost var p := Pow2(shift);
    MulDef(p, R);
    if shift != 0 {
      ShlZero(n); DroppedRange(0, p); DroppedRange(zz.a[zz.lo], p);
      BarySmallRshift(r.Take(n), zz.Take(n), shift, 0);
      RemainderExact(p, r.Take(n).Num(), Dropped(zz.a[zz.lo], p), R);
    } else {
      Pow2Zero();
      CopyDigits(r.Take(n), zz.Take(n));
    }
    ZeroAbove(r, n);
  }

  lemma DroppedRange(x: int, p: int)
    requires 0 < p
    ensures 0 <= Dropped(x, p) < p && Dropped(0, p) == 0
  {
    DivMod(x, p);
    DivUnique(0, p, 0, 0);
  }

  lemma RemainderExact(p: int, v: int, e: int, R: int)
    requires 0 < p && v * p + e == p * R && 0 <= e < p
    ensures v == R
  {
    ModUnique(e, 0, R - v, p);
    if v < R { MulLe(v + 1, R, p); }
    if v > R { MulLe(R + 1, v, p); }
  }

  /** MEMMOVE to a lower or unrelated place. */
  method MoveDown(z: Span, x: Span)
    requires z.Ok() && x.Ok() && z.Len() == x.Len() && (z.a != x.a || z.lo <= x.lo)
    modifies z.a
    ensures z.Num() == old(x.Num())
    ensures Frame(z)
  {
    var i := z.lo;
    while i < z.hi
      invariant z.lo <= i <= z.hi
      invariant forall k | z.lo <= k < i :: z.a[k] == old(x.a[k - z.lo + x.lo])
      invariant Frame(Span(z.a, z.lo, i))
    {
      z.a[i] := x.a[i - z.lo + x.lo];
      i := i + 1;
    }
    ValSame(z.a[..], z.lo, old(x.a[..]), x.lo, z.Len());
  }

  /** bary_divmod_normal: x = Q * y + R with R below y.  The shifted divisor is kept in the remainder buffer and the
      shifted dividend in the quotient buffer where there are such buffers. */
  method BaryDivModNormal(q: Buffer, r: Buffer, x: Span, y: Span)
    returns (ghost Q: nat, ghost R: nat, ghost backs: seq<nat>)
    requires x.Ok() && y.Ok() && 0 < y.Len() <= x.Len() && y.a[y.hi - 1] != 0
    requires Usable(q, x.Len() - y.Len() + 1, x, y) && Usable(r, y.Len(), x, y)
    requires q.Buffer? && r.Buffer? ==> Disjoint(q.s, r.s)
    modifies Arrays(q), Arrays(r)
    ensures Q * old(y.Num()) + R == old(x.Num()) && R < old(y.Num())
    ensures q.Buffer? ==> q.s.Num() == Q
    ensures r.Buffer? ==> r.s.Num() == R
    ensures AllAtMostTwo(backs)
    ensures FrameBut(q, r) && FrameBut(r, q)
  {
    hide Shl, Val, Pw, Mul, Pow2, AllAtMostTwo;
    var n := y.Len();
    ghost var X, Y := x.Num(), y.Num();
    var shift := Nlz(y.a[y.hi - 1]);
    ghost var p := Pow2(shift);
    Normalized(y.a[y.hi - 1]);
    var zz, yy := NormalizeBoth(q, r, x, y, shift);
    label L:
    backs := BigDivRemRestoring(zz, yy);
    assert FrameBut(q, r) && FrameBut(r, q);
    Q := zz.Drop(n).Num();
    ShiftCancels(p, Q, Y, zz.Take(n).Num(), X);
    R := X - Mul(Q, Y);
    MulDef(Q, Y);
    DeliverBoth(q, r, zz, n, shift, Q, R);
  }

  /** Shift dividend and divisor into the buffers, or into new ones. */
  method NormalizeBoth(q: Buffer, r: Buffer, x: Span, y: Span, shift: nat) returns (zz: Span, yy: Span)
    requires x.Ok() && y.Ok() && 0 < y.Len() <= x.Len() && y.a[y.hi - 1] != 0 && shift == Nlz(y.a[y.hi - 1])
    requires Usable(q, x.Len() - y.Len() + 1, x, y) && Usable(r, y.Len(), x, y)
    requires q.Buffer? && r.Buffer? ==> Disjoint(q.s, r.s)
    modifies Arrays(q), Arrays(r)
    ensures zz.Ok() && zz.Len() == x.Len() + 1 && zz.Num() == Mul(Pow2(shift), old(x.Num())) && zz.a[zz.hi - 1] < Pow2(shift)
    ensures yy.Ok() && yy.Len() == y.Len() && yy.Num() == Mul(Pow2(shift), old(y.Num())) && B <= 2 * yy.a[yy.hi - 1] as int
    ensures Disjoint(zz, yy) && (r.Buffer? ==> Disjoint(zz, r.s))
    ensures fresh(zz.a) || (q.Buffer? && zz == q.s.Take(x.Len() + 1) && x.Len() + 1 <= q.s.Len())
    ensures FrameBut(q, r) && FrameBut(r, q)
  {
    hide Shl, Val, Pw, Mul, Pow2;
    zz := NormalizeDividend(q, x, shift);
    Kept(old(y.a[..]), y.a[..], y.lo, y.hi);
    label L:
    yy := DivisorBuffer(r, y, shift);
    Kept(old@L(zz.a[..]), zz.a[..], zz.lo, zz.hi);
  }

  /** Bring remainder and quotient to where they belong. */
  method DeliverBoth(q: Buffer, r: Buffer, zz: Span, n: nat, shift: nat, ghost Q: nat, ghost R: nat)
    requires zz.Ok() && 0 < n < zz.Len() && shift < BITSPERDIG
    requires q.Buffer? ==> q.s.Ok() && zz.Len() - n <= q.s.Len()
    requires q.Buffer? ==> zz.a != q.s.a || zz == q.s.Take(zz.Len())
    requires r.Buffer? ==> r.s.Ok() && n <= r.s.Len() && Disjoint(r.s, zz)
    requires q.Buffer? && r.Buffer? ==> Disjoint(q.s, r.s)
    requires zz.Drop(n).Num() == Q && zz.Take(n).Num() == Mul(Pow2(shift), R)
    modifies Arrays(q), Arrays(r)
    ensures q.Buffer? ==> q.s.Num() == Q
    ensures r.Buffer? ==> r.s.Num() == R
    ensures FrameBut(q, r) && FrameBut(r, q)
  {
    hide Shl, Val, Pw, Mul, Pow2;
    if r.Buffer? {
      DeliverRemainder(r.s, zz, n, shift, R);
      Kept(old(zz.a[..]), zz.a[..], zz.lo + n, zz.hi);
    }
    label L:
    if q.Buffer? {
      var j := zz.Len() - n;
      MoveDown(q.s.Take(j), zz.Drop(n));
      ZeroAbove(q.s, j);
      if r.Buffer? { Kept(old@L(r.s.a[..]), r.s.a[..], r.s.lo, r.s.hi); }
    }
  }

  /** The shifted divisor, or the divisor itself if its top bit is already set. */
  method DivisorBuffer(r: Buffer, y: Span, shift: nat) returns (yy: Span)
    requires y.Ok() && 0 < y.Len() && y.a[y.hi - 1] != 0 && shift == Nlz(y.a[y.hi - 1])
    requires r.Buffer? ==> r.s.Ok() && y.Len() <= r.s.Len() && Disjoint(r.s, y)
    modifies Arrays(r)
    ensures yy.Ok() && yy.Len() == y.Len()
    ensures fresh(yy.a) || yy == y || (r.Buffer? && yy == r.s.Take(y.Len()))
    ensures yy.Num() == Mul(Pow2(shift), old(y.Num())) && B <= 2 * yy.a[yy.hi - 1] as int
    ensures BufferFrame(r)
  {
    hide Shl, Val, Pw, Mul, Pow2;
    if shift != 0 {
      if r.Buffer? {
        yy := r.s.Take(y.Len());
      } else {
        BPositive();
        var a := new Digit[y.Len()](_ => 0);
        yy := Span(a, 0, y.Len());
      }
      NormalizeDivisor(yy, y);
    } else {
      Normalized(y.a[y.hi - 1]);
      Pow2Zero();
      MulDef(1, y.Num());
      yy := y;
    }
  }

  /** The dividend is shorter, or has a smaller top digit: it is below the divisor. */
  lemma SmallDividend(x: Span, y: Span)
    requires x.Ok() && y.Ok() && 0 < x.Len() && 0 < y.Len() && y.a[y.hi - 1] != 0
    requires x.Len() < y.Len() || (x.Len() == y.Len() && x.a[x.hi - 1] < y.a[y.hi - 1])
    ensures x.Num() < y.Num()
  {
    hide Val, Pw;
    ghost var t, p := y.a[y.hi - 1], Pw(y.Len() - 1);
    TopSplit(y.a[..], y.lo, y.hi);
    if x.Len() < y.Len() {
      SpanBound(x, y.Len() - 1);
      BelowTop(0, x.Num(), t, y.Take(y.Len() - 1).Num(), p);
    } else {
      TopSplit(x.a[..], x.lo, x.hi);
      BelowTop(x.a[x.hi - 1], x.Take(x.Len() - 1).Num(), t, y.Take(y.Len() - 1).Num(), p);
    }
  }

  lemma BelowTop(a: int, u: int, b: int, v: int, p: int)
    requires a < b && u < p && 0 <= v && 0 <= p
    ensures a * p + u < b * p + v
  {
    MulLe(a + 1, b, p);
  }

  /** The results are apart from the operands and from one another. */
  ghost predicate Apart(q: Span, r: Span, x: Span, y: Span)
  {
    Disjoint(q, r) && Disjoint(q, x) && Disjoint(q, y) && Disjoint(r, x) && Disjoint(r, y)
  }

  /** bary_divmod: x = q * y + r with r below y, for every non-zero y; false stands for the ZeroDivisionError. */
  method BaryDivMod(q: Span, r: Span, x: Span, y: Span) returns (ok: bool)
    requires q.Ok() && r.Ok() && x.Ok() && y.Ok() && x.Len() <= q.Len() && y.Len() <= r.Len() && Apart(q, r, x, y)
    modifies q.a, r.a
    ensures ok <==> old(y.Num()) != 0
    ensures ok ==> q.Num() * old(y.Num()) + r.Num() == old(x.Num()) && r.Num() < old(y.Num())
    ensures !ok ==> q.a[..] == old(q.a[..]) && r.a[..] == old(r.a[..])
    ensures FrameBut(Buffer(q), Buffer(r)) && FrameBut(Buffer(r), Buffer(q))
  {
    hide Shl, Val, Pw, Mul;
    var y1 := BaryTrunc(y);
    ValEmpty(y.a[..], y.lo);
    if y1.Len() == 0 { return false; }
    TopNonZero(y1);
    ok := true;
    var x1 := BaryTrunc(x);
    if x1.Len() == 0 {
      ValEmpty(x.a[..], x.lo);
      DivModSmall(q, r, x1);
    } else if x1.Len() < y1.Len() || (x1.Len() == y1.Len() && x1.a[x1.hi - 1] < y1.a[y1.hi - 1]) {
      SmallDividend(x1, y1);
      DivModSmall(q, r, x1);
    } else if y1.Len() == 1 {
      DivModOneDigit(q, r, x1, y1);
    } else if x1.Len() == 2 && y1.Len() == 2 {
      DivModDouble(q, r, x1, y1);
    } else {
      ghost var Q, R, backs := BaryDivModNormal(Buffer(q), Buffer(r), x1, y1);
    }
  }

  lemma TopNonZero(y: Span)
    requires y.Ok() && 0 < y.Len() && y.a[y.hi - 1] != 0
    ensures y.Num() != 0
  {
    hide Val;
    if y.Num() == 0 { ZeroVal(y.a[..], y.lo, y.hi); }
  }

  /** The dividend is the remainder. */
  method DivModSmall(q: Span, r: Span, x: Span)
    requires q.Ok() && r.Ok() && x.Ok() && x.Len() <= r.Len() && Disjoint(q, r) && Disjoint(q, x) && Disjoint(r, x)
    modifies q.a, r.a
    ensures q.Num() == 0 && r.Num() == old(x.Num())
    ensures FrameBut(Buffer(q), Buffer(r)) && FrameBut(Buffer(r), Buffer(q))
  {
    hide Val;
    CopyPadded(r, x);
    label L:
    BdigitsZero(q);
    Kept(old@L(r.a[..]), r.a[..], r.lo, r.hi);
  }

  method DivModOneDigit(q: Span, r: Span, x: Span, y: Span)
    requires q.Ok() && r.Ok() && x.Ok() && y.Ok() && 0 < x.Len() <= q.Len() && y.Len() == 1 <= r.Len() && y.a[y.lo] != 0
    requires Apart(q, r, x, y)
    modifies q.a, r.a
    ensures q.Num() * old(y.Num()) + r.Num() == old(x.Num()) && r.Num() < old(y.Num())
    ensures FrameBut(Buffer(q), Buffer(r)) && FrameBut(Buffer(r), Buffer(q))
  {
    hide Shl, Val, Pw;
    ValSingle(y.a[..], y.lo);
    var d := QuotientOneDigit(q, x, y.a[y.lo]);
    label L:
    r.a[r.lo] := d;
    ValSingle(r.a[..], r.lo);
    ZeroAbove(r, 1);
    Kept(old@L(q.a[..]), q.a[..], q.lo, q.hi);
  }

  method QuotientOneDigit(q: Span, x: Span, y: Digit) returns (d: Digit)
    requires q.Ok() && x.Ok() && 0 < x.Len() <= q.Len() && y != 0 && Disjoint(q, x)
    modifies q.a
    ensures q.Num() * y + d == old(x.Num()) && d < y
    ensures Frame(q)
  {
    hide Shl, Val, Pw;
    var n := x.Len();
    CopyDigits(q.Take(n), x);
    ZeroAbove(q, n);
    Kept(old(x.a[..]), x.a[..], x.lo, x.hi);
    d := BigDivRemSingle(q.Take(n), x, y);
    ValZero(q.a[..], q.lo + n, q.hi);
    JoinVal(q, n);
    ShlZero(n);
  }

  method DivModDouble(q: Span, r: Span, x: Span, y: Span)
    requires q.Ok() && r.Ok() && x.Ok() && y.Ok() && x.Len() == 2 <= q.Len() && y.Len() == 2 <= r.Len() && y.Num() != 0
    requires Apart(q, r, x, y)
    modifies q.a, r.a
    ensures q.Num() * old(y.Num()) + r.Num() == old(x.Num()) && r.Num() < old(y.Num())
    ensures FrameBut(Buffer(q), Buffer(r)) && FrameBut(Buffer(r), Buffer(q))
  {
    hide Val;
    var dx := TwoDigitNumber(x);
    var dy := TwoDigitNumber(y);
    DivMod(dx, dy);
    QuotientFits(dx, dy);
    StoreDouble(q, dx / dy);
    label L:
    StoreDouble(r, dx % dy);
    Kept(old@L(q.a[..]), q.a[..], q.lo, q.hi);
  }

  lemma QuotientFits(x: Dbl, y: Dbl)
    requires y > 0
    ensures 0 <= x / y < B * B && 0 <= x % y < B * B
  {
    DivMod(x, y);
    MulLe(1, y, B * B);
    QuotientBound(x, y, B * B);
  }

  /** bary2bdigitdbl of two digits */
  method TwoDigitNumber(x: Span) returns (d: Dbl)
    requires x.Ok() && x.Len() == 2
    ensures d == x.Num()
  {
    hide Val;
    ValCons(x.a[..], x.lo, x.hi);
    ValSingle(x.a[..], x.lo + 1);
    PairFits(x.a[x.lo + 1], x.a[x.lo]);
    d := x.a[x.lo] + B * x.a[x.lo + 1];
  }

  /** Two digits and zeros above. */
  method StoreDouble(z: Span, d: Dbl)
    requires z.Ok() && 2 <= z.Len()
    modifies z.a
    ensures z.Num() == d
    ensures Frame(z)
  {
    hide Val;
    LoDn(d);
    DnRange(d, 0, B);
    z.a[z.lo] := BigLo(d);
    z.a[z.lo + 1] := BigDn(d);
    ValCons(z.a[..], z.lo, z.lo + 2);
    ValSingle(z.a[..], z.lo + 1);
    ZeroAbove(z, 2);
  }
}
