/** Integer square root by Newton's iteration (bignum.c, rb_big_isqrt, and numeric.c, DEFINE_INT_SQRT). */
module BigIsqrt {
  import opened Digits
  import opened BarySigned
  import opened BaryShift
  import opened BaryMulPre
  import opened BaryDiv

  /** bary_cmp: the sign of x - y. */
  method BaryCmp(x: Span, y: Span) returns (c: int)
    requires x.Ok() && y.Ok()
    ensures c == if x.Num() < y.Num() then -1 else if x.Num() == y.Num() then 0 else 1
  {
    hide Val, Shl, Pw;
    var x1 := BaryTrunc(x);
    var y1 := BaryTrunc(y);
    if x1.Len() < y1.Len() {
      ShorterBelow(x1, y1);
      return -1;
    }
    if x1.Len() > y1.Len() {
      ShorterBelow(y1, x1);
      return 1;
    }
    var n := x1.Len();
    var i := n;
    while i > 0 && x1.a[x1.lo + i - 1] == y1.a[y1.lo + i - 1]
      invariant 0 <= i <= n
      invariant forall k | x1.lo + i <= k < x1.hi :: x1.a[..][k] == y1.a[..][k - x1.lo + y1.lo]
    {
      i := i - 1;
    }
    SameAbove(x1, y1, i);
    if i == 0 {
      ValEmpty(x1.a[..], x1.lo); ValEmpty(y1.a[..], y1.lo);
      return 0;
    }
    if x1.a[x1.lo + i - 1] < y1.a[y1.lo + i - 1] {
      SmallDividendAt(x1.Take(i), y1.Take(i));
      c := -1;
    } else {
      SmallDividendAt(y1.Take(i), x1.Take(i));
      c := 1;
    }
  }

  /** Of two numbers without leading zeros the shorter one is smaller. */
  lemma ShorterBelow(x: Span, y: Span)
    requires x.Ok() && y.Ok() && x.Len() < y.Len() && y.a[y.hi - 1] != 0
    ensures x.Num() < y.Num()
  {
    hide Val, Pw;
    TopSplit(y.a[..], y.lo, y.hi);
    SpanBound(x, y.Len() - 1);
    BelowTop(0, x.Num(), y.a[y.hi - 1], y.Take(y.Len() - 1).Num(), Pw(y.Len() - 1));
  }

  lemma SmallDividendAt(x: Span, y: Span)
    requires x.Ok() && y.Ok() && 0 < x.Len() == y.Len() && x.a[x.hi - 1] < y.a[y.hi - 1]
    ensures x.Num() < y.Num()
  {
    hide Val, Pw;
    SmallDividend(x, y);
  }

  /** Equal digits from position i up: only the digits below decide. */
  lemma SameAbove(x: Span, y: Span, i: nat)
    requires x.Ok() && y.Ok() && x.Len() == y.Len() && i <= x.Len()
    requires forall k | x.lo + i <= k < x.hi :: x.a[..][k] == y.a[..][k - x.lo + y.lo]
    ensures x.Num() - y.Num() == x.Take(i).Num() - y.Take(i).Num()
  {
    hide Val, Shl;
    JoinVal(x, i);
    JoinVal(y, i);
    ValSame(x.a[..], x.lo + i, y.a[..], y.lo + i, x.Len() - i);
  }

  /** r is the integer square root of n. */
  predicate IsRoot(r: nat, n: nat)
  {
    r * r <= n < (r + 1) * (r + 1)
  }

  /** x is at or above the integer square root of n. */
  predicate AboveRoot(x: nat, n: nat)
  {
    n < (x + 1) * (x + 1)
  }

  /** Only one number is the root. */
  lemma RootUnique(r: nat, s: nat, n: nat)
    requires IsRoot(r, n) && IsRoot(s, n)
    ensures r == s
  {
    if r < s { Squares(r + 1, s); }
    if s < r { Squares(s + 1, r); }
  }

  lemma Squares(a: nat, b: nat)
    requires a <= b
    ensures a * a <= b * b
  {
    MulLe(a, b, a);
    MulLe(a, b, b);
  }

  /** A step of the iteration from above the root stays above it, and goes down. */
  lemma NewtonStep(n: nat, x: nat, t: nat, next: nat)
    requires IsQuotient(t, n, x) && t < x
    requires 2 * next <= x + t <= 2 * next + 1
    ensures next < x && AboveRoot(next, n)
  {
    MeanSquare(x, t + 1);
    assert x * (t + 1) == t * x + x;
    Squares(x + (t + 1), 2 * (next + 1));
    assert (2 * (next + 1)) * (2 * (next + 1)) == 4 * ((next + 1) * (next + 1));
  }

  /** The square of a sum is at least four times the product. */
  lemma MeanSquare(a: int, b: int)
    ensures 4 * (a * b) <= (a + b) * (a + b)
  {
    SquareNat(a - b);
    assert (a + b) * (a + b) - 4 * (a * b) == (a - b) * (a - b);
  }

  lemma SquareNat(a: int)
    ensures 0 <= a * a
  {
  }

  /** t is n / x. */
  predicate IsQuotient(t: nat, n: nat, x: nat)
  {
    t * x <= n < t * x + x
  }

  /** At the end the iterate is not above the root either. */
  lemma NewtonEnd(n: nat, x: nat, t: nat)
    requires IsQuotient(t, n, x) && x <= t && AboveRoot(x, n)
    ensures IsRoot(x, n)
  {
    MulLe(x, t, x);
  }

  /** An estimate at or above the root has a non-zero top digit, which the division relies on. */
  lemma EstimateTop(n: Span, x: Span)
    requires n.Ok() && x.Ok() && 2 < n.Len() && n.a[n.hi - 1] != 0 && x.Len() == (n.Len() + 1) / 2
    requires AboveRoot(x.Num(), n.Num())
    ensures x.a[x.hi - 1] != 0
  {
    hide Val, Pw;
    var h := x.Len() - 1;
    var p := Pw(h);
    TopSplit(n.a[..], n.lo, n.hi);
    MulLe(1, n.a[n.hi - 1], Pw(n.Len() - 1));
    PwAdd(h, h);
    PwMonotone(h + h, n.Len() - 1);
    if x.a[x.hi - 1] == 0 {
      TopSplit(x.a[..], x.lo, x.hi);
      assert 0 * p == 0;
      Squares(x.Num() + 1, p);
    }
  }

  /** x = (x + t) / 2 in place: the carry of the sum comes back in as the top bit. */
  method Average(x: Span, t: Span)
    requires x.Ok() && t.Ok() && 0 < x.Len() && t.Len() <= x.Len() && x.a != t.a
    modifies x.a
    ensures 2 * x.Num() <= old(x.Num()) + t.Num() <= 2 * x.Num() + 1
    ensures Frame(x)
  {
    hide Val, Shl, Pw, Dropped;
    var carry := BaryAdd.BaryAdd(x, x, t);
    BPositive();
    HalfBit(carry);
    HalfBit(x.a[x.lo]);
    BarySmallRshift(x, x, 1, carry);
  }

  lemma HalfBit(d: int)
    requires 0 <= d
    ensures Pow2(1) == 2 && 0 <= Dropped(d, 2) <= 1 && (d <= 1 ==> Dropped(d, 2) == d)
  {
    assert Pow2(1) == 2 * Pow2(0);
  }

  /** From below the root the iteration does not even start. */
  lemma NewtonBelow(n: nat, x: nat, t: nat)
    requires IsQuotient(t, n, x) && !AboveRoot(x, n)
    ensures x <= t && !IsRoot(x, n)
  {
    assert (x + 1) * (x + 1) == (x + 1) * x + (x + 1);
    if t < x { MulLe(t + 1, x, x); }
  }

  /** The loop of rb_big_isqrt, from any estimate in x: it ends with the root of n if and only if the estimate was not
      below the root.  An estimate below the root is left as it is. */
  method BigIsqrt(n: Span, x: Span)
    requires n.Ok() && x.Ok() && 2 < n.Len() && n.a[n.hi - 1] != 0 && x.Len() == (n.Len() + 1) / 2 && x.a != n.a
    requires x.a[x.hi - 1] != 0
    modifies x.a
    ensures IsRoot(x.Num(), n.Num()) <==> AboveRoot(old(x.Num()), n.Num())
    ensures !AboveRoot(old(x.Num()), n.Num()) ==> x.Num() == old(x.Num())
    ensures Frame(x)
  {
    hide Val, Shl, Pw, IsRoot, AboveRoot, IsQuotient;
    BPositive();
    var a := new Digit[x.Len() + 1](_ => 0);
    var t := Span(a, 0, x.Len() + 1);
    var less := Divide(t, n, x);
    if !AboveRoot(x.Num(), n.Num()) { NewtonBelow(n.Num(), x.Num(), t.Num()); }
    while less
      invariant IsQuotient(t.Num(), n.Num(), x.Num()) && less == (t.Num() < x.Num())
      invariant AboveRoot(x.Num(), n.Num()) <==> AboveRoot(old(x.Num()), n.Num())
      invariant !AboveRoot(old(x.Num()), n.Num()) ==> !less && x.Num() == old(x.Num())
      invariant Frame(x)
      decreases x.Num()
    {
      var t1 := BaryTrunc(t);
      QuotientLength(t1, x);
      ghost var before, quotient := x.Num(), t.Num();
      Average(x, t1);
      NewtonStep(n.Num(), before, quotient, x.Num());
      EstimateTop(n, x);
      less := Divide(t, n, x);
    }
    if AboveRoot(x.Num(), n.Num()) {
      NewtonEnd(n.Num(), x.Num(), t.Num());
    } else {
      NewtonBelow(n.Num(), x.Num(), t.Num());
    }
  }

  /** t = n / x; is that below x? */
  method Divide(t: Span, n: Span, x: Span) returns (less: bool)
    requires n.Ok() && x.Ok() && 2 < n.Len() && x.Len() == (n.Len() + 1) / 2 && x.a != n.a && x.a[x.hi - 1] != 0
    requires t.Ok() && t.Len() == x.Len() + 1 && t.a != n.a && t.a != x.a
    modifies t.a
    ensures IsQuotient(t.Num(), n.Num(), x.Num())
    ensures less == (t.Num() < x.Num())
  {
    hide Val, Shl, Pw;
    ghost var Q, R, backs := BaryDivModNormal(Buffer(t), NoBuffer, n, x);
    var c := BaryCmp(t, x);
    less := c < 0;
  }

  /** A quotient below the iterate needs no more digits than it. */
  lemma QuotientLength(t: Span, x: Span)
    requires t.Ok() && x.Ok() && t.Num() < x.Num() && (t.Len() > 0 ==> t.a[t.hi - 1] != 0)
    ensures t.Len() <= x.Len()
  {
    hide Val;
    if x.Len() < t.Len() { ShorterBelow(x, t); }
  }

  /** The integer way of rb_bdigit_dbl_isqrt, which takes numbers that need not be exact as floating-point numbers: the
      first estimate is the mean of a power of two and its quotient, and so not below the root. */
  method DblIsqrt(n: Dbl) returns (x: Digit)
    requires n > 0
    ensures IsRoot(x, n)
  {
    hide Pow2, IsRoot, AboveRoot, IsQuotient, Quotient;
    var b := BitLength(n);
    BitLengthDbl(n);
    FirstEstimate(n, b);
    x := Quotient(n, Pow2(b / 2 + 1)) + Pow2((b - 1) / 2);
    var t: nat := Quotient(n, x);
    while t < x
      invariant 0 < x && 0 <= t && IsQuotient(t, n, x) && AboveRoot(x, n)
      decreases x
    {
      ghost var before := x;
      x := (x + t) / 2;
      NewtonStep(n, before, t, x);
      RootPositive(x, n);
      t := Quotient(n, x);
    }
    NewtonEnd(n, x, t);
  }

  function Quotient(n: nat, x: nat): (t: nat)
    requires 0 < x
    ensures IsQuotient(t, n, x)
  {
    DivMod(n, x);
    n / x
  }

  lemma RootPositive(x: nat, n: nat)
    requires AboveRoot(x, n) && 0 < n
    ensures 0 < x
  {
  }

  lemma BitLengthDbl(n: Dbl)
    requires n > 0
    ensures BitLength(n) <= 2 * BITSPERDIG
  {
    hide Pow2;
    Pow2Add(BITSPERDIG, BITSPERDIG);
    if BitLength(n) > 2 * BITSPERDIG { Pow2Monotone(2 * BITSPERDIG, BitLength(n) - 1); }
  }

  /** The first estimate fits into a digit, and is not below the root. */
  lemma FirstEstimate(n: nat, b: nat)
    requires 0 < b <= 2 * BITSPERDIG && Pow2(b - 1) <= n < Pow2(b)
    ensures var x := Quotient(n, Pow2(b / 2 + 1)) + Pow2((b - 1) / 2);
            0 < x < B && AboveRoot(x, n)
  {
    hide Pow2;
    var p, q := Pow2((b - 1) / 2), Pow2(b / 2 + 1);
    DivMod(n, q);
    Pow2Add(b / 2 + 1, (b - 1) / 2);
    QuotientBound(n, q, p);
    Pow2Next((b - 1) / 2);
    Pow2Monotone((b - 1) / 2 + 1, BITSPERDIG);
    if b % 2 == 0 { Pow2Next((b - 1) / 2 + 1); }
    MeanAbove(n, p, q, n / q + p + 1);
  }

  lemma MeanAbove(n: nat, p: nat, q: nat, y: nat)
    requires 0 < p && (q == 2 * p || q == 4 * p) && q * y > q * p + n
    ensures n < y * y
  {
    MeanSquare(q * p, n);
    Squares(q * p + n + 1, q * y);
    SquareGrows(q * p + n);
    SquareFactor(q, y);
    ProductFactor(q, p, n);
    if q * (y * y) <= 4 * (p * n) { MulLe(q * (y * y), 4 * (p * n), q); }
    MeanDivided(n, p, q, y * y);
  }

  lemma SquareGrows(a: nat)
    ensures a * a < (a + 1) * (a + 1)
  {
  }

  lemma SquareFactor(q: int, y: int)
    ensures (q * y) * (q * y) == q * (y * y) * q
  {
    assert (q * y) * (q * y) == q * (y * (q * y));
    assert y * (q * y) == (y * y) * q;
    assert q * ((y * y) * q) == q * (y * y) * q;
  }

  lemma ProductFactor(q: int, p: int, n: int)
    ensures 4 * ((q * p) * n) == 4 * (p * n) * q
  {
    assert (q * p) * n == (p * n) * q;
  }

  lemma MeanDivided(n: nat, p: nat, q: nat, s: nat)
    requires 0 < p && (q == 2 * p || q == 4 * p) && 4 * (p * n) < q * s
    ensures n < s
  {
    if s <= n {
      MulLe(s, n, 4 * p);
      MulLe(q, 4 * p, s);
    }
  }
}
