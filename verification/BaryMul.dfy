/** Fast multiplication: Karatsuba, Toom-3, slicing of unbalanced operands, and the dispatcher
    that chooses among them (bignum.c, bary_mul_balance_with_mulfunc to bary_mul). */
module BaryMul {
  import opened Digits
  import opened BaryAdd
  import opened BarySigned
  import opened BaryMulBasic
  import opened BarySquare
  import opened BaryMulPre
  import opened KaratsubaSteps
  import opened Toom3Steps

  const KARATSUBA_MUL_DIGITS := 70
  const TOOM3_MUL_DIGITS := 150
  const NAIVE_MUL_DIGITS := KARATSUBA_MUL_DIGITS

  predicate KaratsubaBalanced(xn: nat, yn: nat) { yn / 2 < xn }
  predicate Toom3Balanced(xn: nat, yn: nat) { (yn + 2) / 3 * 2 < xn }

  /** The mulfunc argument of bary_mul_balance_with_mulfunc. */
  datatype MulFunc = KaratsubaStart | Toom3Start

  /** bary_short_mul */
  method BaryShortMul(z: Span, x: Span, y: Span)
    requires z.Ok() && x.Ok() && y.Ok() && x.Len() + y.Len() <= z.Len() && Disjoint(z, x) && Disjoint(z, y)
    modifies z.a
    ensures z.Num() == Mul(old(x.Num()), old(y.Num()))
    ensures Frame(z)
  {
    if x.Len() == 1 && y.Len() == 1 {
      MulSingle(z, x, y);
    } else {
      BaryMulNormal(z, x, y);
    }
  }

  /** bary_mul_single, on the digits of one-digit runs. */
  method MulSingle(z: Span, x: Span, y: Span)
    requires z.Ok() && x.Ok() && y.Ok() && x.Len() == 1 == y.Len() && 2 <= z.Len() && Disjoint(z, x) && Disjoint(z, y)
    modifies z.a
    ensures z.Num() == Mul(old(x.Num()), old(y.Num()))
    ensures Frame(z)
  {
    hide Shl, Val, Pw, Mul;
    var d, e := x.a[x.lo], y.a[y.lo];
    BPositive();
    ValSingle(x.a[..], x.lo); ValSingle(y.a[..], y.lo);
    MulDef(d, e);
    MulAddFits(0, d, e, 0);
    var n: Dbl := d as int * e;
    LoDn(n);
    z.a[z.lo] := BigLo(n);
    z.a[z.lo + 1] := BigDn(n);
    ValCons(z.a[..], z.lo, z.lo + 2);
    ValSingle(z.a[..], z.lo + 1);
    ZeroAbove(z, 2);
  }

  /** The fallback of bary_mul_karatsuba_branch: square or schoolbook. */
  method MulFallback(z: Span, x: Span, y: Span)
    requires z.Ok() && x.Ok() && y.Ok() && x.Len() + y.Len() <= z.Len() && Disjoint(z, x) && Disjoint(z, y)
    modifies z.a
    ensures z.Num() == Mul(old(x.Num()), old(y.Num()))
    ensures Frame(z)
  {
    if x == y {
      BarySqFast(z, x);
    } else {
      BaryShortMul(z, x, y);
    }
  }

  /** bary_sparse_p: whether at least two of the three digits sampled are zero. */
  method BarySparseP(x: Span) returns (sparse: bool)
    requires x.Ok() && x.Len() > 0
    ensures var n := x.Len();
      sparse <==> multiset([x.a[x.lo + 2 * n / 5], x.a[x.lo + n / 2], x.a[x.lo + 3 * n / 5]])[0] >= 2
  {
    var n := x.Len();
    var c := 0;
    if x.a[x.lo + 2 * n / 5] != 0 { c := c + 1; }
    if c <= 1 && x.a[x.lo + n / 2] != 0 { c := c + 1; }
    if c <= 1 && x.a[x.lo + 3 * n / 5] != 0 { c := c + 1; }
    sparse := c <= 1;
  }

  lemma ShlProduct(a: int, j: nat, b: int, k: nat)
    ensures Mul(Shl(a, j), Shl(b, k)) == Shl(Mul(a, b), j + k)
  {
    hide Mul, Shl;
    MulShl(Shl(a, j), b, k);
    MulComm(Shl(a, j), b);
    MulShl(b, a, j);
    MulComm(a, b);
    ShlShl(Mul(a, b), j, k);
  }

  /** bary_mul_karatsuba_start and bary_mul_toom3_start: strip zero digits, order the operands,
      settle the small cases. */
  method MulStart(f: MulFunc, z: Span, x: Span, y: Span)
    requires z.Ok() && x.Ok() && y.Ok() && x.Len() + y.Len() <= z.Len() && Disjoint(z, x) && Disjoint(z, y)
    modifies z.a
    ensures z.Num() == Mul(old(x.Num()), old(y.Num()))
    ensures Frame(z)
    decreases x.Len() + y.Len(), 11
  {
    hide Shl, Val, Pw, Mul;
    var x1, kx := TrimZeros(x);
    var y1, ky := TrimZeros(y);
    ShlProduct(x1.Num(), kx, y1.Num(), ky);
    MulShifted(f, z, kx + ky, x1, y1);
  }

  /** z = x * y * B^k */
  method MulShifted(f: MulFunc, z: Span, k: nat, x: Span, y: Span)
    requires z.Ok() && x.Ok() && y.Ok() && x.Len() + y.Len() + k <= z.Len() && Disjoint(z, x) && Disjoint(z, y)
    requires x.Len() > 0 ==> x.a[x.lo] != 0
    requires y.Len() > 0 ==> y.a[y.lo] != 0
    modifies z.a
    ensures z.Num() == Shl(Mul(old(x.Num()), old(y.Num())), k)
    ensures Frame(z)
    decreases x.Len() + y.Len(), 10
  {
    hide Shl, Val, Pw, Mul;
    BdigitsZero(z.Take(k));
    Kept(old(x.a[..]), x.a[..], x.lo, x.hi);
    Kept(old(y.a[..]), y.a[..], y.lo, y.hi);
    label L:
    MulOrdered(f, z.Drop(k), x, y);
    Kept(old@L(z.a[..]), z.a[..], z.lo, z.lo + k);
    JoinVal(z, k);
  }

  /** Make sure that y is the longer one; settle the small cases. */
  method MulOrdered(f: MulFunc, z: Span, x: Span, y: Span)
    requires z.Ok() && x.Ok() && y.Ok() && x.Len() + y.Len() <= z.Len() && Disjoint(z, x) && Disjoint(z, y)
    requires x.Len() > 0 ==> x.a[x.lo] != 0
    requires y.Len() > 0 ==> y.a[y.lo] != 0
    modifies z.a
    ensures z.Num() == Mul(old(x.Num()), old(y.Num()))
    ensures Frame(z)
    decreases x.Len() + y.Len(), 9
  {
    hide Shl, Val, Pw, Mul;
    var s, l := x, y;
    if x.Len() > y.Len() { s, l := y, x; }
    MulComm(x.Num(), y.Num());
    if s.Len() <= 1 {
      MulDef(s.Num(), l.Num());
      MulSmall(z, s, l);
    } else {
      MulBranch(f, z, s, l);
    }
  }

  /** bary_mul_karatsuba_branch and bary_mul_toom3_branch. */
  method MulBranch(f: MulFunc, z: Span, x: Span, y: Span)
    requires z.Ok() && x.Ok() && y.Ok() && x.Len() + y.Len() <= z.Len() && Disjoint(z, x) && Disjoint(z, y)
    requires 2 <= x.Len() <= y.Len()
    modifies z.a
    ensures z.Num() == Mul(old(x.Num()), old(y.Num()))
    ensures Frame(z)
    decreases x.Len() + y.Len(), 8
  {
    if f == KaratsubaStart || x.Len() < TOOM3_MUL_DIGITS {
      KaratsubaBranch(z, x, y);
    } else if !Toom3Balanced(x.Len(), y.Len()) {
      MulBalance(Toom3Start, z, x, y);
    } else {
      Toom3(z, x, y);
    }
  }

  method KaratsubaBranch(z: Span, x: Span, y: Span)
    requires z.Ok() && x.Ok() && y.Ok() && x.Len() + y.Len() <= z.Len() && Disjoint(z, x) && Disjoint(z, y)
    requires 2 <= x.Len() <= y.Len()
    modifies z.a
    ensures z.Num() == Mul(old(x.Num()), old(y.Num()))
    ensures Frame(z)
    decreases x.Len() + y.Len(), 7
  {
    if x.Len() < KARATSUBA_MUL_DIGITS {
      MulFallback(z, x, y);
      return;
    }
    var xsparse := BarySparseP(x);
    if xsparse {
      MulFallback(z, x, y);
      return;
    }
    var ysparse := BarySparseP(y);
    if ysparse {
      MulComm(x.Num(), y.Num());
      BaryShortMul(z, y, x);
    } else if !KaratsubaBalanced(x.Len(), y.Len()) {
      MulBalance(KaratsubaStart, z, x, y);
    } else {
      Karatsuba(z, x, y);
    }
  }

  /** bary_mul_balance_with_mulfunc: slice the longer operand. */
  method MulBalance(f: MulFunc, z: Span, x: Span, y: Span)
    requires z.Ok() && x.Ok() && y.Ok() && x.Len() + y.Len() <= z.Len() && Disjoint(z, x) && Disjoint(z, y)
    requires 0 < x.Len() < y.Len()
    modifies z.a
    ensures z.Num() == Mul(old(x.Num()), old(y.Num()))
    ensures Frame(z)
    decreases x.Len() + y.Len(), 1
  {
    hide Shl, Val, Pw, Pre, Mul;
    ghost var vx, Y := x.Num(), y.Snap();
    BdigitsZero(z.Take(x.Len()));
    var n := 0;
    PreZero(Y); MulDef(vx, 0);
    while n < y.Len()
      invariant 0 <= n <= y.Len()
      invariant z.Take(n + x.Len()).Num() == Mul(vx, Pre(Y, n))
      invariant Frame(z)
    {
      Kept(old(x.a[..]), x.a[..], x.lo, x.hi);
      var r := BalanceStep(f, z, x, y, n, Y);
      n := n + r;
    }
    ZeroAbove(z, y.Len() + x.Len());
    PreAll(Y, Y.Len());
    MulDef(vx, Y.Num());
  }

  /** The body of the loop over the slices of y. */
  method BalanceStep(f: MulFunc, z: Span, x: Span, y: Span, n: nat, ghost Y: Run) returns (r: nat)
    requires z.Ok() && x.Ok() && y.Ok() && x.Len() + y.Len() <= z.Len() && Disjoint(z, x) && Disjoint(z, y)
    requires 0 < x.Len() < y.Len() && n < y.Len()
    requires TailIs(y, 0, Y)
    requires z.Take(n + x.Len()).Num() == Mul(x.Num(), Pre(Y, n))
    modifies z.a
    ensures 0 < r && n + r <= y.Len()
    ensures z.Take(n + r + x.Len()).Num() == Mul(old(x.Num()), Pre(Y, n + r))
    ensures Frame(z)
    decreases x.Len() + y.Len(), 0
  {
    hide Shl, Val, Pw, Pre, Mul;
    r := if x.Len() > y.Len() - n then y.Len() - n else x.Len();
    var s := y.Sub(n, n + r);
    Kept(Y.s, y.a[..], s.lo, s.hi);
    SliceValue(x.Num(), Y, n, r);
    SliceFits(x.Snap(), Y, n + r);
    BalanceSlice(f, z, x, s, n);
    assert n + x.Len() + s.Len() == n + r + x.Len();
  }

  lemma SliceValue(vx: int, Y: Run, n: nat, r: nat)
    requires Y.Ok() && n + r <= Y.Len()
    ensures Mul(vx, Pre(Y, n)) + Shl(Mul(vx, Val(Y.s, Y.lo + n, Y.lo + n + r)), n) == Mul(vx, Pre(Y, n + r))
  {
    hide Shl, Val, Mul;
    var v := Val(Y.s, Y.lo + n, Y.lo + n + r);
    ValSplit(Y.s, Y.lo, Y.lo + n, Y.lo + n + r);
    MulAdd(vx, Pre(Y, n), Shl(v, n));
    MulShl(vx, v, n);
  }

  lemma SliceFits(X: Run, Y: Run, m: nat)
    requires X.Ok() && Y.Ok() && m <= Y.Len()
    ensures Mul(X.Num(), Pre(Y, m)) < Pw(m + X.Len())
  {
    ProductFits(X, Run(Y.s, Y.lo, Y.lo + m), m, m + X.Len());
  }

  /** One slice: the product of x and the slice s is added at position n.  It is computed further up in z
      when there is room, otherwise in place with the overlap saved in a work area. */
  method BalanceSlice(f: MulFunc, z: Span, x: Span, s: Span, n: nat)
    requires z.Ok() && x.Ok() && s.Ok() && Disjoint(z, x) && Disjoint(z, s)
    requires n + x.Len() + s.Len() <= z.Len()
    requires z.Take(n + x.Len()).Num() + Shl(Mul(x.Num(), s.Num()), n) < Pw(n + x.Len() + s.Len())
    modifies z.a
    ensures z.Take(n + x.Len() + s.Len()).Num() == old(z.Take(n + x.Len()).Num()) + Shl(old(Mul(x.Num(), s.Num())), n)
    ensures Frame(z)
    decreases x.Len() + s.Len(), 13
  {
    hide Shl, Val, Pw, Mul;
    var tn := x.Len() + s.Len();
    var d := z.Drop(n);
    ghost var w, p, goal := d.Take(x.Len()).Num(), Mul(x.Num(), s.Num()), z.Take(n + x.Len()).Num() + Shl(Mul(x.Num(), s.Num()), n);
    JoinVal(z.Take(n + x.Len()), n);
    var c;
    if 2 * tn <= d.Len() {
      c := SliceAbove(f, d, x, s);
    } else {
      c := SliceInPlace(f, d, x, s);
    }
    Kept(old(z.a[..]), z.a[..], z.lo, z.lo + n);
    JoinVal(z.Take(n + tn), n);
    assert d.Take(tn).Num() + Shl(c, tn) == w + p;
    ShlAdd(d.Take(tn).Num(), Shl(c, tn), n); ShlShl(c, tn, n); ShlAdd(w, p, n);
    NoCarry(z.Take(n + tn).Num(), c, n + tn, goal);
  }

  method SliceAbove(f: MulFunc, z: Span, x: Span, s: Span) returns (c: nat)
    requires z.Ok() && x.Ok() && s.Ok() && Disjoint(z, x) && Disjoint(z, s)
    requires 2 * (x.Len() + s.Len()) <= z.Len()
    modifies z.a
    ensures c <= 1
    ensures z.Take(x.Len() + s.Len()).Num() + Shl(c, x.Len() + s.Len())
         == old(z.Take(x.Len()).Num()) + old(Mul(x.Num(), s.Num()))
    ensures Frame(z)
    decreases x.Len() + s.Len(), 12
  {
    hide Shl, Val, Pw, Mul;
    var xn, tn := x.Len(), x.Len() + s.Len();
    MulStart(f, z.Sub(tn, 2 * tn), x, s);
    Kept(old(z.a[..]), z.a[..], z.lo, z.lo + xn);
    c := FoldSlice(z, xn, tn);
  }

  /** Clear the digits above the first xn and add the product that lies above tn. */
  method FoldSlice(z: Span, xn: nat, tn: nat) returns (c: nat)
    requires z.Ok() && xn <= tn && 2 * tn <= z.Len()
    modifies z.a
    ensures c <= 1
    ensures z.Take(tn).Num() + Shl(c, tn) == old(z.Take(xn).Num()) + old(z.Sub(tn, 2 * tn).Num())
    ensures Frame(z.Take(tn))
  {
    hide Shl, Val, Pw, Mul;
    var t, u := z.Sub(tn, 2 * tn), z.Take(tn);
    BdigitsZero(z.Sub(xn, tn));
    Kept(old(t.a[..]), t.a[..], t.lo, t.hi);
    Kept(old(z.a[..]), z.a[..], z.lo, z.lo + xn);
    JoinVal(u, xn);
    ShlZero(xn);
    c := BaryAdd.BaryAdd(u, u, t);
  }

  method SliceInPlace(f: MulFunc, z: Span, x: Span, s: Span) returns (c: nat)
    requires z.Ok() && x.Ok() && s.Ok() && Disjoint(z, x) && Disjoint(z, s)
    requires x.Len() + s.Len() <= z.Len()
    modifies z.a
    ensures c <= 1
    ensures z.Take(x.Len() + s.Len()).Num() + Shl(c, x.Len() + s.Len())
         == old(z.Take(x.Len()).Num()) + old(Mul(x.Num(), s.Num()))
    ensures Frame(z)
    decreases x.Len() + s.Len(), 12
  {
    hide Shl, Val, Pw, Mul;
    var xn, tn := x.Len(), x.Len() + s.Len();
    BPositive();
    var work := new Digit[xn](_ => 0);
    var w := Span(work, 0, xn);
    CopyDigits(w, z.Take(xn));
    var u := z.Take(tn);
    label L:
    MulStart(f, u, x, s);
    Kept(old@L(w.a[..]), w.a[..], w.lo, w.hi);
    c := BaryAdd.BaryAdd(u, u, w);
  }

  /** bary_mul_karatsuba: an odd top digit is split off and multiplied in at the end. */
  method Karatsuba(z: Span, x: Span, y: Span)
    requires z.Ok() && x.Ok() && y.Ok() && x.Len() + y.Len() <= z.Len() && Disjoint(z, x) && Disjoint(z, y)
    requires 2 <= x.Len() <= y.Len() < 2 * x.Len()
    modifies z.a
    ensures z.Num() == Mul(old(x.Num()), old(y.Num()))
    ensures Frame(z)
    decreases x.Len() + y.Len(), 6
  {
    var yn, xn := y.Len(), x.Len();
    if yn % 2 == 0 {
      KaratsubaEven(z, x, y, x == y);
    } else if yn - 1 < xn {
      KaratsubaOddBoth(z, x, y);
    } else {
      KaratsubaOdd(z, x, y, false);
    }
  }

  /** y has an odd number of digits: its top digit is multiplied in at the end.
      x has either an even number or at most as many as what is left of y. */
  method KaratsubaOdd(z: Span, x: Span, y: Span, sq: bool)
    requires z.Ok() && x.Ok() && y.Ok() && x.Len() + y.Len() <= z.Len() && Disjoint(z, x) && Disjoint(z, y)
    requires y.Len() % 2 == 1 && y.Len() / 2 < x.Len() < y.Len() && (sq ==> x == y.Take(y.Len() - 1))
    modifies z.a
    ensures z.Num() == Mul(old(x.Num()), old(y.Num()))
    ensures Frame(z)
    decreases x.Len() + y.Len(), 4
  {
    hide Shl, Val, Pw, Mul;
    var y0 := y.Take(y.Len() - 1);
    KaratsubaEven(z, x, y0, sq);
    Kept(old(x.a[..]), x.a[..], x.lo, x.hi);
    Kept(old(y.a[..]), y.a[..], y.lo, y.hi);
    Kept(old(y0.a[..]), y0.a[..], y0.lo, y0.hi);
    OddTop(z, x, y);
  }

  /** Both have the same odd number of digits. */
  method KaratsubaOddBoth(z: Span, x: Span, y: Span)
    requires z.Ok() && x.Ok() && y.Ok() && x.Len() + y.Len() <= z.Len() && Disjoint(z, x) && Disjoint(z, y)
    requires x.Len() == y.Len() >= 3 && y.Len() % 2 == 1
    modifies z.a
    ensures z.Num() == Mul(old(x.Num()), old(y.Num()))
    ensures Frame(z)
    decreases x.Len() + y.Len(), 5
  {
    hide Shl, Val, Pw, Mul;
    var x0 := x.Take(x.Len() - 1);
    KaratsubaOdd(z, x0, y, x == y);
    Kept(old(x.a[..]), x.a[..], x.lo, x.hi);
    Kept(old(y.a[..]), y.a[..], y.lo, y.hi);
    Kept(old(x0.a[..]), x0.a[..], x0.lo, x0.hi);
    MulComm(x0.Num(), y.Num());
    MulComm(x.Num(), y.Num());
    OddTop(z, y, x);
  }

  lemma TopDigitSplit(y: Span)
    requires y.Ok() && 0 < y.Len()
    ensures y.Num() == y.Take(y.Len() - 1).Num() + Shl(y.a[y.hi - 1], y.Len() - 1)
  {
    hide Shl, Val;
    ValSnoc(y.a[..], y.lo, y.hi - 1);
  }

  lemma NumProductFits(x: Span, y: Span, n: nat)
    requires x.Ok() && y.Ok() && x.Len() + y.Len() <= n
    ensures 0 <= Mul(x.Num(), y.Num()) < Pw(n)
  {
    ValBound(x.a[..], x.lo, x.hi);
    ValBound(y.a[..], y.lo, y.hi);
    PwAdd(x.Len(), y.Len());
    PwMonotone(x.Len() + y.Len(), n);
    LtMul(x.Num(), Pw(x.Len()), y.Num(), Pw(y.Len()));
  }

  /** With the product of x and the lower digits of y in z, multiply in the top digit of y. */
  method OddTop(z: Span, x: Span, y: Span)
    requires z.Ok() && x.Ok() && y.Ok() && 0 < y.Len() && x.Len() + y.Len() <= z.Len() && Disjoint(z, x) && Disjoint(z, y)
    requires z.Num() == Mul(x.Num(), y.Take(y.Len() - 1).Num())
    modifies z.a
    ensures z.Num() == Mul(old(x.Num()), old(y.Num()))
    ensures Frame(z)
  {
    hide Shl, Val, Pw, Mul;
    var n := y.Len() - 1;
    var d := y.a[y.hi - 1];
    ghost var vx, y0, goal := x.Num(), y.Take(n).Num(), Mul(x.Num(), y.Num());
    NumProductFits(x, y, z.Len());
    TopDigitSplit(y);
    MulAdd(vx, y0, Shl(d, n)); MulShl(vx, d, n);
    ghost var p := d * vx;
    assert vx * d == p;
    var c := AddRow(z, d, x, n);
    assert z.Num() + Shl(c, z.Len()) == Mul(vx, y0) + Shl(p, n);
    NoCarry(z.Num(), c, z.Len(), goal);
  }

  /** The even case: y has 2n digits, x more than n. */
  method KaratsubaEven(z: Span, x: Span, y: Span, sq: bool)
    requires z.Ok() && x.Ok() && y.Ok() && x.Len() + y.Len() <= z.Len() && Disjoint(z, x) && Disjoint(z, y)
    requires y.Len() % 2 == 0 && y.Len() / 2 < x.Len() <= y.Len() && (sq ==> x == y)
    modifies z.a
    ensures z.Num() == Mul(old(x.Num()), old(y.Num()))
    ensures Frame(z)
    decreases x.Len() + y.Len(), 3
  {
    hide Shl, Val, Pw, Mul;
    var n := y.Len() / 2;
    BPositive();
    var work := new Digit[n](_ => 0);
    var w := Span(work, 0, n);
    ghost var x0, x1, y0, y1 := x.Take(n).Num(), x.Drop(n).Num(), y.Take(n).Num(), y.Drop(n).Num();
    JoinVal(x, n); JoinVal(y, n);
    NumProductFits(x, y, z.Len());
    var borrow, c1, c2;
    ghost var w1;
    borrow, c1, c2, w1 := KaratsubaLow(z, x, y, n, sq, w);
    Kept(old(x.a[..]), x.a[..], x.lo + n, x.hi);
    Kept(old(y.a[..]), y.a[..], y.lo + n, y.hi);
    ghost var lo, v := z.Take(2 * n).Num(), w.Num();
    ghost var q := KaratsubaHigh(z, x.Drop(n), y.Drop(n), n, w, c2, c1 as int - borrow);
    ValBound(z.a[..], z.lo, z.hi);
    KaratsubaTotal(n, x0, x1, y0, y1, borrow, c1, c2, w1, lo, v, z.Num(), q, z.Len());
  }

  /** The first half of bary_mul_karatsuba.  Left behind: x0*y0 with the low half w1 of the sum of x0*y0 and the
      middle product folded in, in zds0,zds1, and the high half of that sum in wds. */
  method KaratsubaLow(z: Span, x: Span, y: Span, n: nat, sq: bool, w: Span)
    returns (borrow: nat, c1: nat, c2: nat, ghost w1: int)
    requires z.Ok() && x.Ok() && y.Ok() && w.Ok() && Disjoint(z, x) && Disjoint(z, y)
    requires w.a != z.a && w.a != x.a && w.a != y.a && w.Len() == n
    requires y.Len() == 2 * n && n < x.Len() <= 2 * n && 3 * n < z.Len() && (sq ==> x == y)
    modifies z.a, w.a
    ensures borrow <= 1 && c1 <= 1 && c2 <= 1
    ensures w1 + Shl(w.Num(), n) + Shl(c1, 2 * n)
         == Shl(borrow, 2 * n) + Mul(old(x.Take(n).Num()), old(y.Take(n).Num()))
            - Mul(old(x.Take(n).Num()) - old(x.Drop(n).Num()), old(y.Take(n).Num()) - old(y.Drop(n).Num()))
    ensures z.Take(2 * n).Num() + Shl(c2, 2 * n) == Mul(old(x.Take(n).Num()), old(y.Take(n).Num())) + Shl(w1, n)
    ensures Frame(z)
    decreases x.Len() + y.Len(), 2
  {
    hide Shl, Val, Pw, Mul;
    ghost var e := Mul(x.Take(n).Num() - x.Drop(n).Num(), y.Take(n).Num() - y.Drop(n).Num());
    borrow := MiddleProduct(z.Take(3 * n), x, y, n, sq);
    Kept(old(x.a[..]), x.a[..], x.lo, x.lo + n);
    Kept(old(y.a[..]), y.a[..], y.lo, y.lo + n);
    c1, c2, w1 := LowProduct(z.Take(3 * n), x.Take(n), y.Take(n), n, w, Shl(borrow, 2 * n) - e);
  }

  /** Save the low half of the middle product (m in all), compute x*y below it, and fold. */
  method LowProduct(z: Span, x: Span, y: Span, n: nat, w: Span, ghost m: int) returns (c1: nat, c2: nat, ghost w1: int)
    requires z.Ok() && x.Ok() && y.Ok() && w.Ok() && Disjoint(z, x) && Disjoint(z, y)
    requires w.a != z.a && w.a != x.a && w.a != y.a
    requires w.Len() == x.Len() == y.Len() == n && z.Len() == 3 * n && z.Sub(n, 3 * n).Num() == m
    modifies z.a, w.a
    ensures c1 <= 1 && c2 <= 1
    ensures w1 + Shl(w.Num(), n) + Shl(c1, 2 * n) == m + Mul(old(x.Num()), old(y.Num()))
    ensures z.Take(2 * n).Num() + Shl(c2, 2 * n) == Mul(old(x.Num()), old(y.Num())) + Shl(w1, n)
    ensures Frame(z)
    decreases x.Len() + y.Len(), 12
  {
    hide Shl, Val, Pw, Mul;
    JoinVal(z.Sub(n, 3 * n), n);
    CopyDigits(w, z.Sub(n, 2 * n));
    MulStart(KaratsubaStart, z.Take(2 * n), x, y);
    Kept(old(z.a[..]), z.a[..], z.lo + 2 * n, z.lo + 3 * n);
    c1, c2, w1 := FoldLowAll(z, n, w);
  }

  /** carry1 and carry2: the sum of the product below and the middle product replaces the latter; its low half
      w1 is added to zds1, its high half is moved to wds. */
  method FoldLowAll(z: Span, n: nat, w: Span) returns (c1: nat, c2: nat, ghost w1: int)
    requires z.Ok() && w.Ok() && w.a != z.a && w.Len() == n && z.Len() == 3 * n
    modifies z.a, w.a
    ensures c1 <= 1 && c2 <= 1
    ensures w1 + Shl(w.Num(), n) + Shl(c1, 2 * n)
         == old(w.Num()) + Shl(old(z.Sub(2 * n, 3 * n).Num()), n) + old(z.Take(2 * n).Num())
    ensures z.Take(2 * n).Num() + Shl(c2, 2 * n) == old(z.Take(2 * n).Num()) + Shl(w1, n)
    ensures Frame(z)
  {
    hide Shl, Val, Pw;
    ghost var a1 := z.Sub(n, 2 * n).Num();
    JoinVal(z.Take(2 * n), n);
    c1, c2 := FoldLow(z, n, w);
    w1 := w.Num();
    Kept(old(z.a[..]), z.a[..], z.lo, z.lo + n);
    JoinVal(z.Take(2 * n), n);
    ShlAdd(a1, w1, n); ShlAdd(z.Sub(n, 2 * n).Num(), Shl(c2, n), n); ShlShl(c2, n, n);
    CopyDigits(w, z.Sub(2 * n, 3 * n));
  }

  /** The second half of bary_mul_karatsuba: x*y (the high halves) above, folded down; then the sum in wds and
      the carries. */
  method KaratsubaHigh(z: Span, x: Span, y: Span, n: nat, w: Span, c2: nat, k: int) returns (ghost q: int)
    requires z.Ok() && x.Ok() && y.Ok() && w.Ok() && Disjoint(z, x) && Disjoint(z, y)
    requires w.a != z.a && w.Len() == n && 0 < x.Len() <= n == y.Len() && x.Len() + 3 * n <= z.Len()
    requires c2 <= 1 && -1 <= k <= 1
    modifies z.a
    ensures z.Num() == old(z.Take(2 * n).Num()) + Shl(Mul(old(x.Num()), old(y.Num())), n)
      + Shl(Mul(old(x.Num()), old(y.Num())), 2 * n) + Shl(w.Num() + c2, 2 * n) + Shl(k, 3 * n) + Shl(q, z.Len())
    ensures Frame(z)
    decreases x.Len() + y.Len(), 13
  {
    hide Shl, Val, Pw, Mul;
    var c3 := HighProduct(z, x, y, n);
    q := AddMiddleAll(z, n, w, c2, k + c3);
    ShlAdd(k, c3, 3 * n);
  }

  method AddMiddleAll(z: Span, n: nat, w: Span, c2: nat, k: int) returns (ghost q: int)
    requires z.Ok() && w.Ok() && w.a != z.a && w.Len() == n && 3 * n < z.Len()
    requires c2 <= 1 && -1 <= k <= 2
    modifies z.a
    ensures z.Num() == old(z.Num()) + Shl(w.Num() + c2, 2 * n) + Shl(k, 3 * n) + Shl(q, z.Len())
    ensures Frame(z)
  {
    hide Shl, Val, Pw;
    var m := z.Len() - 2 * n;
    JoinVal(z, 2 * n);
    q := AddMiddle(z.Drop(2 * n), n, w, c2, k);
    JoinVal(z, 2 * n);
    Kept(old(z.a[..]), z.a[..], z.lo, z.lo + 2 * n);
    ghost var t, u := old(z.Drop(2 * n).Num()), w.Num() + c2;
    ShlAdd(t, u + Shl(k, n) + Shl(q, m), 2 * n);
    ShlAdd(u + Shl(k, n), Shl(q, m), 2 * n); ShlShl(q, m, 2 * n);
    ShlAdd(u, Shl(k, n), 2 * n); ShlShl(k, n, 2 * n);
  }

  /** zds2,zds3 = x*y, then zds1 += its low half and zds2 += its high half. */
  method HighProduct(z: Span, x: Span, y: Span, n: nat) returns (c3: nat)
    requires z.Ok() && x.Ok() && y.Ok() && Disjoint(z, x) && Disjoint(z, y)
    requires 0 < x.Len() <= n == y.Len() && x.Len() + 3 * n <= z.Len()
    modifies z.a
    ensures c3 <= 1
    ensures z.Num() + Shl(c3, 3 * n) == old(z.Take(2 * n).Num())
      + Shl(Mul(old(x.Num()), old(y.Num())), n) + Shl(Mul(old(x.Num()), old(y.Num())), 2 * n)
    ensures Frame(z)
    decreases x.Len() + y.Len(), 12
  {
    hide Shl, Val, Pw, Mul;
    NumProductFits(x, y, 2 * n);
    MulStart(KaratsubaStart, z.Drop(2 * n), x, y);
    Kept(old(z.a[..]), z.a[..], z.lo, z.lo + 2 * n);
    c3 := FoldHighAll(z, n);
  }

  /** carry3: with a number below B^2n in zds2,zds3. */
  method FoldHighAll(z: Span, n: nat) returns (c3: nat)
    requires z.Ok() && 3 * n < z.Len() && z.Drop(2 * n).Num() < Pw(2 * n)
    modifies z.a
    ensures c3 <= 1
    ensures z.Num() + Shl(c3, 3 * n)
         == old(z.Take(2 * n).Num()) + Shl(old(z.Drop(2 * n).Num()), n) + Shl(old(z.Drop(2 * n).Num()), 2 * n)
    ensures Frame(z)
  {
    hide Shl, Val, Pw;
    var e := if 4 * n < z.Len() then 4 * n else z.Len();
    ghost var z1, c0, m, c := z.Sub(n, 2 * n).Num(), z.Sub(2 * n, 3 * n).Num(), z.Drop(3 * n).Num(), z.Drop(2 * n).Num();
    JoinVal(z.Take(2 * n), n);
    JoinVal(z.Drop(2 * n), n);
    HighHalf(z, n, e);
    c3 := FoldHigh(z, n, e);
    Kept(old(z.a[..]), z.a[..], z.lo, z.lo + n);
    Kept(old(z.a[..]), z.a[..], z.lo + 3 * n, z.hi);
    FoldHighSum(z, n, z1, c0, m, c3);
  }

  /** The digits of zds3 up to e are all of the high half. */
  lemma HighHalf(z: Span, n: nat, e: nat)
    requires z.Ok() && 3 * n < z.Len() && z.Drop(2 * n).Num() < Pw(2 * n)
    requires e == if 4 * n < z.Len() then 4 * n else z.Len()
    ensures z.Sub(3 * n, e).Num() == z.Drop(3 * n).Num()
  {
    hide Shl, Val, Pw;
    JoinVal(z.Drop(3 * n), e - 3 * n);
    if e == 4 * n {
      HighZero(z.a[..], z.lo + 2 * n, z.hi, 2 * n);
    }
    ValZero(z.a[..], z.lo + e, z.hi);
    ShlZero(e - 3 * n);
  }

  lemma FoldHighSum(z: Span, n: nat, z1: int, c0: int, m: int, c3: int)
    requires z.Ok() && 3 * n < z.Len()
    requires z.Sub(n, 2 * n).Num() + Shl(z.Sub(2 * n, 3 * n).Num(), n) + Shl(c3, 2 * n) == z1 + c0 + Shl(c0, n) + Shl(m, n)
    requires z.Drop(3 * n).Num() == m
    ensures z.Num() + Shl(c3, 3 * n)
      == z.Take(n).Num() + Shl(z1, n) + Shl(c0 + Shl(m, n), n) + Shl(c0 + Shl(m, n), 2 * n)
  {
    hide Shl, Val, Pw;
    var b1, b2 := z.Sub(n, 2 * n).Num(), z.Sub(2 * n, 3 * n).Num();
    JoinVal(z, 2 * n); JoinVal(z.Take(2 * n), n); JoinVal(z.Drop(2 * n), n);
    ShlAdd(b2, Shl(m, n), 2 * n); ShlShl(m, n, 2 * n);
    ShlAdd(b1 + Shl(b2, n), Shl(c3, 2 * n), n); ShlAdd(b1, Shl(b2, n), n); ShlShl(b2, n, n); ShlShl(c3, 2 * n, n);
    ShlAdd(z1 + c0 + Shl(c0, n), Shl(m, n), n); ShlAdd(z1 + c0, Shl(c0, n), n); ShlAdd(z1, c0, n);
    ShlShl(c0, n, n);
    ShlAdd(c0, Shl(m, n), n); ShlAdd(c0, Shl(m, n), 2 * n); ShlShl(m, n, n);
  }

  /** All the carries and the borrow cancel. */
  lemma KaratsubaSum(n: nat, x0: int, x1: int, y0: int, y1: int, borrow: int, c1: int, c2: int, w1: int, lo: int, v: int)
    requires w1 + Shl(v, n) + Shl(c1, 2 * n) == Shl(borrow, 2 * n) + Mul(x0, y0) - Mul(x0 - x1, y0 - y1)
    requires lo + Shl(c2, 2 * n) == Mul(x0, y0) + Shl(w1, n)
    ensures lo + Shl(Mul(x1, y1), n) + Shl(Mul(x1, y1), 2 * n) + Shl(v + c2, 2 * n) + Shl(c1 - borrow, 3 * n)
      == Mul(x0, y0) + Shl(Mul(x0, y0) + Mul(x1, y1) - Mul(x0 - x1, y0 - y1), n) + Shl(Mul(x1, y1), 2 * n)
  {
    hide Shl, Mul;
    var a, c, e := Mul(x0, y0), Mul(x1, y1), Mul(x0 - x1, y0 - y1);
    ShlAdd(v, c2, 2 * n); ShlAdd(c1 - borrow, borrow, 3 * n);
    ShlAdd(w1 + Shl(v, n), Shl(c1, 2 * n), n); ShlAdd(w1, Shl(v, n), n); ShlShl(v, n, n); ShlShl(c1, 2 * n, n);
    ShlAdd(Shl(borrow, 2 * n), a - e, n); ShlShl(borrow, 2 * n, n);
    ShlAdd(a - e, c, n);
  }

  lemma KaratsubaIdentity(n: nat, x0: int, x1: int, y0: int, y1: int)
    ensures Mul(x0, y0) + Shl(Mul(x0, y0) + Mul(x1, y1) - Mul(x0 - x1, y0 - y1), n) + Shl(Mul(x1, y1), 2 * n)
      == Mul(x0 + Shl(x1, n), y0 + Shl(y1, n))
  {
    hide Pw;
    PwAdd(n, n);
    MiddleTerm(Pw(n), x0, x1, y0, y1);
  }

  /** What is left in z is the product. */
  lemma KaratsubaTotal(n: nat, x0: int, x1: int, y0: int, y1: int, borrow: int, c1: int, c2: int, w1: int, lo: int, v: int,
                       total: int, q: int, zn: nat)
    requires w1 + Shl(v, n) + Shl(c1, 2 * n) == Shl(borrow, 2 * n) + Mul(x0, y0) - Mul(x0 - x1, y0 - y1)
    requires lo + Shl(c2, 2 * n) == Mul(x0, y0) + Shl(w1, n)
    requires total == lo + Shl(Mul(x1, y1), n) + Shl(Mul(x1, y1), 2 * n) + Shl(v + c2, 2 * n) + Shl(c1 - borrow, 3 * n) + Shl(q, zn)
    requires 0 <= total < Pw(zn) && 0 <= Mul(x0 + Shl(x1, n), y0 + Shl(y1, n)) < Pw(zn)
    ensures total == Mul(x0 + Shl(x1, n), y0 + Shl(y1, n))
  {
    hide Shl, Mul, Pw;
    KaratsubaSum(n, x0, x1, y0, y1, borrow, c1, c2, w1, lo, v);
    KaratsubaIdentity(n, x0, x1, y0, y1);
    ModUniqueShl(total, Mul(x0 + Shl(x1, n), y0 + Shl(y1, n)), q, zn);
  }

  /** zds1,zds2 = |x0-x1| * |y0-y1|; the result says whether the factors have the same sign. */
  method MiddleMagnitude(z: Span, x: Span, y: Span, n: nat, sq: bool) returns (sub: bool)
    requires z.Ok() && x.Ok() && y.Ok() && Disjoint(z, x) && Disjoint(z, y)
    requires y.Len() == 2 * n && n < x.Len() <= 2 * n && 3 * n == z.Len() && (sq ==> x == y)
    modifies z.a
    ensures z.Sub(n, 3 * n).Num() ==
      Mul(Abs(old(x.Take(n).Num()) - old(x.Drop(n).Num())), Abs(old(y.Take(n).Num()) - old(y.Drop(n).Num())))
    ensures sq ==> sub
    ensures !sq ==> (sub <==> (old(x.Take(n).Num()) < old(x.Drop(n).Num()) <==> old(y.Take(n).Num()) < old(y.Drop(n).Num())))
    ensures Frame(z)
    decreases x.Len() + y.Len(), 0
  {
    hide Shl, Val, Pw, Mul;
    var z0, z12 := z.Take(n), z.Sub(n, 3 * n);
    var negx := AbsSub(z0, x.Take(n), x.Drop(n));
    sub := !negx;
    if sq {
      sub := true;
      MulStart(KaratsubaStart, z12, z0, z0);
    } else {
      Kept(old(y.a[..]), y.a[..], y.lo, y.lo + n);
      Kept(old(y.a[..]), y.a[..], y.lo + n, y.hi);
      var negy := MulDifference(z12, z0, y, n);
      if negy { sub := !sub; }
    }
  }

  /** z = x * |y0-y1|, the difference being computed in a work area; the result says whether it is negative. */
  method MulDifference(z: Span, x: Span, y: Span, n: nat) returns (neg: bool)
    requires z.Ok() && x.Ok() && y.Ok() && Disjoint(z, x) && Disjoint(z, y)
    requires y.Len() == 2 * n && x.Len() == n && z.Len() == 2 * n
    modifies z.a
    ensures z.Num() == Mul(old(x.Num()), Abs(old(y.Take(n).Num()) - old(y.Drop(n).Num())))
    ensures neg <==> old(y.Take(n).Num()) < old(y.Drop(n).Num())
    ensures Frame(z)
    decreases x.Len() + n, 12
  {
    hide Shl, Val, Pw, Mul;
    BPositive();
    var work := new Digit[n](_ => 0);
    var w := Span(work, 0, n);
    neg := AbsSub(w, y.Take(n), y.Drop(n));
    MulStart(KaratsubaStart, z, x, w);
  }

  /** zds1,zds2 = -(x0-x1)*(y0-y1), modulo their room; the result says whether that was negative. */
  method MiddleProduct(z: Span, x: Span, y: Span, n: nat, sq: bool) returns (borrow: nat)
    requires z.Ok() && x.Ok() && y.Ok() && Disjoint(z, x) && Disjoint(z, y)
    requires y.Len() == 2 * n && n < x.Len() <= 2 * n && 3 * n == z.Len() && (sq ==> x == y)
    modifies z.a
    ensures borrow <= 1
    ensures z.Sub(n, 3 * n).Num() == Shl(borrow, 2 * n) - Mul(
      old(x.Take(n).Num()) - old(x.Drop(n).Num()), old(y.Take(n).Num()) - old(y.Drop(n).Num()))
    ensures Frame(z)
    decreases x.Len() + y.Len(), 1
  {
    hide Shl, Val, Pw, Mul;
    ghost var dx, dy := x.Take(n).Num() - x.Drop(n).Num(), y.Take(n).Num() - y.Drop(n).Num();
    var sub := MiddleMagnitude(z, x, y, n, sq);
    ProductSign(dx, dy);
    borrow := 0;
    ShlZero(2 * n);
    if sub {
      var zero := Bary2comp(z.Sub(n, 3 * n));
      borrow := if zero == 1 then 0 else 1;
    }
  }

  lemma ProductSign(a: int, b: int)
    ensures Mul(a, b) == if (a < 0) == (b < 0) then Mul(Abs(a), Abs(b)) else -Mul(Abs(a), Abs(b))
  {
  }

  /** bary_mul_toom3: both operands are cut in three pieces of n digits. */
  method Toom3(z: Span, x: Span, y: Span)
    requires z.Ok() && x.Ok() && y.Ok() && x.Len() + y.Len() <= z.Len() && Disjoint(z, x) && Disjoint(z, y)
    requires x.Len() <= y.Len() && Toom3Balanced(x.Len(), y.Len())
    modifies z.a
    ensures z.Num() == Mul(old(x.Num()), old(y.Num()))
    ensures Frame(z)
    decreases x.Len() + y.Len(), 6
  {
    hide Shl, Val, Pw, Mul;
    var n := (y.Len() + 2) / 3;
    BPositive();
    var work := new Digit[6 * n + 6](_ => 0);
    var u := Span(work, 0, 3 * n + 3);
    var zz := Span(work, 0, 6 * n + 1);
    var p2, p3 := Evaluate(u, x, n);
    var v, q2, q3 := u, p2, p3;
    if x != y {
      v := Span(work, 3 * n + 3, 6 * n + 6);
      label L:
      q2, q3 := Evaluate(v, y, n);
      KeptThree(old@L(work[..]), work[..], n);
    }
    var t0, t1, t2, t3, t4 := Toom3Points(x, y, u, v, n);
    Toom3Product(zz, x, y, t0, t1, t2, p2 == q2, t3, p3 == q3, t4, n,
      u.Sub(n + 1, 2 * n + 2).Num(), p2, v.Sub(n + 1, 2 * n + 2).Num(), q2,
      u.Sub(2 * n + 2, 3 * n + 3).Num(), p3, v.Sub(2 * n + 2, 3 * n + 3).Num(), q3);
    NumProductFits(x, y, z.Len());
    StoreTrunc(z, zz);
  }

  lemma KeptThree(s: seq<Digit>, t: seq<Digit>, n: nat)
    requires |s| == |t| == 6 * n + 6 && forall k | 0 <= k < 3 * n + 3 :: t[k] == s[k]
    ensures Val(t, 0, n + 1) == Val(s, 0, n + 1)
    ensures Val(t, n + 1, 2 * n + 2) == Val(s, n + 1, 2 * n + 2)
    ensures Val(t, 2 * n + 2, 3 * n + 3) == Val(s, 2 * n + 2, 3 * n + 3)
  {
    hide Val;
    Kept(s, t, 0, n + 1);
    Kept(s, t, n + 1, 2 * n + 2);
    Kept(s, t, 2 * n + 2, 3 * n + 3);
  }

  /** Step 1: the products of the evaluated factors. */
  method Toom3Points(x: Span, y: Span, u: Span, v: Span, n: nat) returns (t0: Span, t1: Span, t2: Span, t3: Span, t4: Span)
    requires x.Ok() && y.Ok() && u.Ok() && v.Ok() && u.Len() == v.Len() == 3 * n + 3
    requires 0 < n && 2 * n < x.Len() <= 3 * n && 2 * n < y.Len() <= 3 * n
    ensures t0.Ok() && t1.Ok() && t2.Ok() && t3.Ok() && t4.Ok()
    ensures fresh(t0.a) && fresh(t1.a) && fresh(t2.a) && fresh(t3.a) && fresh(t4.a)
    ensures t0.Len() == t4.Len() == 2 * n && t1.Len() == t2.Len() == t3.Len() == 2 * n + 2
    ensures t0.Num() == Mul(x.Take(n).Num(), y.Take(n).Num())
    ensures t1.Num() == Mul(u.Sub(0, n + 1).Num(), v.Sub(0, n + 1).Num())
    ensures t2.Num() == Mul(u.Sub(n + 1, 2 * n + 2).Num(), v.Sub(n + 1, 2 * n + 2).Num())
    ensures t3.Num() == Mul(u.Sub(2 * n + 2, 3 * n + 3).Num(), v.Sub(2 * n + 2, 3 * n + 3).Num())
    ensures t4.Num() == Mul(x.Drop(2 * n).Num(), y.Drop(2 * n).Num())
    decreases x.Len() + y.Len(), 5
  {
    t0 := MulFresh(x.Take(n), y.Take(n), 2 * n);
    t1 := MulFresh(u.Sub(0, n + 1), v.Sub(0, n + 1), 2 * n + 2);
    t2 := MulFresh(u.Sub(n + 1, 2 * n + 2), v.Sub(n + 1, 2 * n + 2), 2 * n + 2);
    t3 := MulFresh(u.Sub(2 * n + 2, 3 * n + 3), v.Sub(2 * n + 2, 3 * n + 3), 2 * n + 2);
    t4 := MulFresh(x.Drop(2 * n), y.Drop(2 * n), 2 * n);
  }

  method MulFresh(x: Span, y: Span, m: nat) returns (t: Span)
    requires x.Ok() && y.Ok() && x.Len() + y.Len() <= m
    ensures t.Ok() && fresh(t.a) && t.Len() == m
    ensures t.Num() == Mul(x.Num(), y.Num())
    decreases x.Len() + y.Len(), 12
  {
    BPositive();
    var a := new Digit[m](_ => 0);
    t := Span(a, 0, m);
    MulStart(Toom3Start, t, x, y);
  }

  /** Steps 2 and 3: zz = x * y.  s2, r2, s3 and r3 are the magnitudes of the factors at -1 and -2. */
  method Toom3Product(zz: Span, x: Span, y: Span, t0: Span, t1: Span, t2: Span, t2p: bool, t3: Span, t3p: bool, t4: Span, n: nat,
      ghost s2: int, ghost p2: bool, ghost r2: int, ghost q2: bool, ghost s3: int, ghost p3: bool, ghost r3: int, ghost q3: bool)
    requires zz.Ok() && x.Ok() && y.Ok() && t0.Ok() && t1.Ok() && t2.Ok() && t3.Ok() && t4.Ok()
    requires zz.a !in {t0.a, t1.a, t2.a, t3.a, t4.a, x.a, y.a}
    requires 0 < n && zz.Len() == 6 * n + 1 && t0.Len() == t4.Len() == 2 * n && t1.Len() == t2.Len() == t3.Len() == 2 * n + 2
    requires 2 * n <= x.Len() <= 3 * n && 2 * n <= y.Len() <= 3 * n
    requires t0.Num() == Mul(x.Take(n).Num(), y.Take(n).Num()) && t4.Num() == Mul(x.Drop(2 * n).Num(), y.Drop(2 * n).Num())
    requires t1.Num() == Mul(x.Take(n).Num() + x.Sub(n, 2 * n).Num() + x.Drop(2 * n).Num(),
                             y.Take(n).Num() + y.Sub(n, 2 * n).Num() + y.Drop(2 * n).Num())
    requires t2.Num() == Mul(s2, r2) && t2p == (p2 == q2) && t3.Num() == Mul(s3, r3) && t3p == (p3 == q3)
    requires Signed(p2, s2) == x.Take(n).Num() - x.Sub(n, 2 * n).Num() + x.Drop(2 * n).Num()
    requires Signed(q2, r2) == y.Take(n).Num() - y.Sub(n, 2 * n).Num() + y.Drop(2 * n).Num()
    requires Signed(p3, s3) == x.Take(n).Num() - 2 * x.Sub(n, 2 * n).Num() + 4 * x.Drop(2 * n).Num()
    requires Signed(q3, r3) == y.Take(n).Num() - 2 * y.Sub(n, 2 * n).Num() + 4 * y.Drop(2 * n).Num()
    modifies zz.a
    ensures zz.Num() == Mul(x.Num(), y.Num())
    ensures Frame(zz)
  {
    hide Shl, Val, Pw, Mul, Signed;
    ghost var a0, a1, a2 := x.Take(n).Num(), x.Sub(n, 2 * n).Num(), x.Drop(2 * n).Num();
    ghost var b0, b1, b2 := y.Take(n).Num(), y.Sub(n, 2 * n).Num(), y.Drop(2 * n).Num();
    JoinVal(x, 2 * n); JoinVal(x.Take(2 * n), n); JoinVal(y, 2 * n); JoinVal(y.Take(2 * n), n);
    SpanBound(x.Take(n), n); SpanBound(x.Sub(n, 2 * n), n); SpanBound(x.Drop(2 * n), n);
    SpanBound(y.Take(n), n); SpanBound(y.Sub(n, 2 * n), n); SpanBound(y.Drop(2 * n), n);
    CoefficientBounds(a0, a1, a2, b0, b1, b2, n);
    PolynomialAt(a0, a1, a2, b0, b1, b2);
    PolynomialAtBase(a0, a1, a2, b0, b1, b2, n);
    SignedProduct(p2, s2, q2, r2); SignedProduct(p3, s3, q3, r3);
    NumProductFits(x, y, 6 * n + 1);
    Combine(zz, t0, t1, t2, t2p, t3, t3p, t4, n, Mul(a0, b1) + Mul(a1, b0), Mul(a0, b2) + Mul(a1, b1) + Mul(a2, b0),
      Mul(a1, b2) + Mul(a2, b1));
  }

  /** bary_mul: z = x * y, whatever the lengths. */
  method BaryMul(z: Span, x: Span, y: Span)
    requires z.Ok() && x.Ok() && y.Ok() && x.Len() + y.Len() <= z.Len() && Disjoint(z, x) && Disjoint(z, y)
    modifies z.a
    ensures z.Num() == old(x.Num()) * old(y.Num())
    ensures Frame(z)
  {
    MulDef(x.Num(), y.Num());
    if x.Len() <= y.Len() {
      if x.Len() < NAIVE_MUL_DIGITS {
        MulFallback(z, x, y);
        return;
      }
    } else if y.Len() < NAIVE_MUL_DIGITS {
      MulComm(x.Num(), y.Num());
      BaryShortMul(z, y, x);
      return;
    }
    MulStart(Toom3Start, z, x, y);
  }

  /** Whatever path the dispatcher takes, the digits are those of schoolbook multiplication. */
  method SameAsSchoolbook(z: Span, w: Span, x: Span, y: Span)
    requires z.Ok() && w.Ok() && x.Ok() && y.Ok() && z.Len() == w.Len() && x.Len() + y.Len() <= z.Len()
    requires z.a != w.a && Disjoint(z, x) && Disjoint(z, y) && Disjoint(w, x) && Disjoint(w, y)
    requires x.a != z.a && y.a != z.a
    modifies z.a, w.a
    ensures forall k | z.lo <= k < z.hi :: z.a[k] == w.a[k - z.lo + w.lo]
  {
    hide Val;
    BaryMul(z, x, y);
    BaryMulNormal(w, x, y);
    ValInjective(z.a[..], z.lo, w.a[..], w.lo, z.Len());
    forall k | z.lo <= k < z.hi ensures z.a[k] == w.a[k - z.lo + w.lo] {
      assert z.a[..][k] == w.a[..][k - z.lo + w.lo];
    }
  }
}
