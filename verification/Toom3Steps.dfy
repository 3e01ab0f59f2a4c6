/** Evaluation, interpolation and recomposition of bary_mul_toom3. */
module Toom3Steps {
  import opened Digits
  import opened BaryAdd
  import opened BarySigned
  import opened BaryMulBasic
  import opened BaryMulPre
  import opened BaryShift
  import opened BaryDivSingle
  import opened BaryMulSub

  /** The values of x0 + x1 b + x2 b^2 at b = 1, -1 and -2: u holds their magnitudes, n + 1 digits each;
      the results are the signs of the latter two. */
  method Evaluate(u: Span, x: Span, n: nat) returns (p2: bool, p3: bool)
    requires u.Ok() && x.Ok() && u.a != x.a && u.Len() == 3 * n + 3 && 2 * n <= x.Len() <= 3 * n
    modifies u.a
    ensures u.Sub(0, n + 1).Num() == x.Take(n).Num() + x.Sub(n, 2 * n).Num() + x.Drop(2 * n).Num()
    ensures Signed(p2, u.Sub(n + 1, 2 * n + 2).Num()) == x.Take(n).Num() - x.Sub(n, 2 * n).Num() + x.Drop(2 * n).Num()
    ensures Signed(p3, u.Sub(2 * n + 2, 3 * n + 3).Num())
         == x.Take(n).Num() - 2 * x.Sub(n, 2 * n).Num() + 4 * x.Drop(2 * n).Num()
    ensures Frame(u)
  {
    hide Shl, Val, Pw;
    var x0, x1, x2 := x.Take(n), x.Sub(n, 2 * n), x.Drop(2 * n);
    var u1, u2, u3 := u.Sub(0, n + 1), u.Sub(n + 1, 2 * n + 2), u.Sub(2 * n + 2, 3 * n + 3);
    SpanBound(x0, n); SpanBound(x1, n); SpanBound(x2, n);
    PowersFit(n);
    p2 := EvalOnes(u, x, n);
    label L:
    p3 := EvalTwo(u3, u2, p2, x0, x2, n);
    Kept(old@L(u.a[..]), u.a[..], u1.lo, u1.hi);
    Kept(old@L(u.a[..]), u.a[..], u2.lo, u2.hi);
  }

  lemma PowersFit(n: nat)
    ensures 20 * Pw(n) < Pw(n + 1)
  {
    BPositive();
    MulLe(20, B - 1, Pw(n));
    assert (B - 1) * Pw(n) == B * Pw(n) - Pw(n);
  }

  /** u1 <- x0 + x2, u2 <- u1 - x1, u1 <- u1 + x1 */
  method EvalOnes(u: Span, x: Span, n: nat) returns (p2: bool)
    requires u.Ok() && x.Ok() && u.a != x.a && u.Len() == 3 * n + 3 && 2 * n <= x.Len() <= 3 * n
    modifies u.a
    ensures u.Sub(0, n + 1).Num() == x.Take(n).Num() + x.Sub(n, 2 * n).Num() + x.Drop(2 * n).Num()
    ensures Signed(p2, u.Sub(n + 1, 2 * n + 2).Num()) == x.Take(n).Num() - x.Sub(n, 2 * n).Num() + x.Drop(2 * n).Num()
    ensures Frame(u.Take(2 * n + 2))
  {
    hide Shl, Val, Pw;
    var x0, x1, x2 := x.Take(n), x.Sub(n, 2 * n), x.Drop(2 * n);
    var u1, u2 := u.Sub(0, n + 1), u.Sub(n + 1, 2 * n + 2);
    SpanBound(x0, n); SpanBound(x1, n); SpanBound(x2, n);
    PowersFit(n);
    var c := BaryAdd.BaryAdd(u1, x0, x2);
    NoCarry(u1.Num(), c, n + 1, x0.Num() + x2.Num());
    label L:
    var neg := AbsSub(u2, u1, x1);
    p2 := !neg;
    Kept(old@L(u.a[..]), u.a[..], u1.lo, u1.hi);
    label M:
    c := BaryAdd.BaryAdd(u1, u1, x1);
    NoCarry(u1.Num(), c, n + 1, x0.Num() + x2.Num() + x1.Num());
    Kept(old@M(u.a[..]), u.a[..], u2.lo, u2.hi);
  }

  /** u3 <- 2 * (u2 + x2) - x0 */
  method EvalTwo(u3: Span, u2: Span, p2: bool, x0: Span, x2: Span, n: nat) returns (p3: bool)
    requires u3.Ok() && u2.Ok() && x0.Ok() && x2.Ok()
    requires Disjoint(u3, u2) && u3.a != x0.a && u3.a != x2.a
    requires u3.Len() == u2.Len() == n + 1 && x0.Len() <= n && x2.Len() <= n
    requires x0.Num() < Pw(n) && x2.Num() < Pw(n) && u2.Num() < 2 * Pw(n)
    modifies u3.a
    ensures Signed(p3, u3.Num()) == 2 * (Signed(p2, old(u2.Num())) + x2.Num()) - x0.Num()
    ensures Frame(u3)
  {
    hide Shl, Val, Pw;
    PowersFit(n);
    p3 := SignedSub(u3, x2, true, u2, !p2);
    ghost var s := u3.Num();
    var out := BarySmallLshift(u3, u3, 1);
    assert Pow2(1) == 2;
    NoCarry(u3.Num(), out, n + 1, 2 * s);
    p3 := SignedSub(u3, u3, p3, x0, true);
  }

  /** z <- (x - y) / 3, an exact division. */
  method SubThird(z: Span, x: Span, xp: bool, y: Span, yp: bool, ghost v: int) returns (zp: bool)
    requires z.Ok() && x.Ok() && y.Ok() && Readable(z, x) && Readable(z, y)
    requires 0 < z.Len() && x.Len() <= z.Len() && y.Len() <= z.Len() && x.Num() + y.Num() < Pw(z.Len())
    requires 3 * v == Signed(xp, x.Num()) - Signed(yp, y.Num())
    modifies z.a
    ensures Signed(zp, z.Num()) == v
    ensures Frame(z)
  {
    hide Shl, Val, Pw, Mul;
    zp := SignedSub(z, x, xp, y, yp);
    BPositive();
    ghost var m := z.Num();
    var r := BigDivRemSingle(z, z, 3);
    MulDef(z.Num(), 3);
    assert 3 * z.Num() + r == 3 * Abs(v);
  }

  /** z <- (x - y) / 2, an exact division. */
  method SubHalf(z: Span, x: Span, xp: bool, y: Span, yp: bool, ghost v: int) returns (zp: bool)
    requires z.Ok() && x.Ok() && y.Ok() && Readable(z, x) && Readable(z, y)
    requires 0 < z.Len() && x.Len() <= z.Len() && y.Len() <= z.Len() && x.Num() + y.Num() < Pw(z.Len())
    requires 2 * v == Signed(xp, x.Num()) - Signed(yp, y.Num())
    modifies z.a
    ensures Signed(zp, z.Num()) == v
    ensures Frame(z)
  {
    hide Shl, Val, Pw, Dropped;
    zp := SignedSub(z, x, xp, y, yp);
    BPositive();
    assert Pow2(1) == 2;
    ghost var d := z.a[z.lo];
    DroppedBit(d);
    ShlZero(z.Len());
    BarySmallRshift(z, z, 1, 0);
    assert 2 * z.Num() + Dropped(d, 2) == 2 * Abs(v);
  }

  lemma DroppedBit(d: int)
    ensures 0 <= Dropped(d, 2) <= 1 && Dropped(0, 2) == 0
  {
  }

  /** z <- z + 2 * t for signed z and non-negative t. */
  method AddTwice(z: Span, zp0: bool, t: Span) returns (zp: bool)
    requires z.Ok() && t.Ok() && z.a != t.a && z.Len() == t.Len() + 1 && 0 < t.Len()
    requires z.Num() + 2 * t.Num() < Pw(z.Len())
    modifies z.a
    ensures Signed(zp, z.Num()) == Signed(zp0, old(z.Num())) + 2 * t.Num()
    ensures Frame(z)
  {
    hide Shl, Val, Pw, Mul;
    BPositive();
    ghost var m := z.Num();
    MulDef(2, t.Num());
    if zp0 {
      var c := BaryMulAdd1xN(z, 2, t);
      NoCarry(z.Num(), c, z.Len(), m + 2 * t.Num());
      zp := zp0;
    } else {
      var b := BaryMulSub1xN(z, 2, t);
      ShlZero(z.Len()); ShlOne(z.Len());
      zp := zp0;
      ValBound(z.a[..], z.lo, z.hi);
      if b != 0 {
        var zero := Bary2comp(z);
        zp := !zp0;
      }
    }
  }

  /** The coefficients c1, c2, c3 of the product polynomial c0 + c1 b + ... + c4 b^4 from its values
      t0 at 0, t1 at 1, t2 at -1, t3 at -2 and t4 at infinity. */
  method Interpolate(t0: Span, t1: Span, t2: Span, t2p: bool, t3: Span, t3p: bool, t4: Span,
                     z1: Span, z2: Span, z3: Span, n: nat, ghost c1: int, ghost c2: int, ghost c3: int)
    returns (z1p: bool, z2p: bool, z3p: bool)
    requires t0.Ok() && t1.Ok() && t2.Ok() && t3.Ok() && t4.Ok() && z1.Ok() && z2.Ok() && z3.Ok()
    requires 0 < n && t0.Len() == t4.Len() == 2 * n && t1.Len() == t2.Len() == t3.Len() == 2 * n + 1
    requires z1.Len() == z2.Len() == z3.Len() == 2 * n + 1
    requires z1.a != z2.a && z1.a != z3.a && z2.a != z3.a
    requires {t0.a, t1.a, t2.a, t3.a, t4.a} !! {z1.a, z2.a, z3.a}
    requires 0 <= c1 < 10 * Pw(2 * n) && 0 <= c2 < 10 * Pw(2 * n) && 0 <= c3 < 10 * Pw(2 * n)
    requires t0.Num() < Pw(2 * n) && t4.Num() < Pw(2 * n)
    requires t1.Num() == t0.Num() + c1 + c2 + c3 + t4.Num()
    requires Signed(t2p, t2.Num()) == t0.Num() - c1 + c2 - c3 + t4.Num()
    requires Signed(t3p, t3.Num()) == t0.Num() - 2 * c1 + 4 * c2 - 8 * c3 + 16 * t4.Num()
    modifies z1.a, z2.a, z3.a
    ensures Signed(z1p, z1.Num()) == c1 && Signed(z2p, z2.Num()) == c2 && Signed(z3p, z3.Num()) == c3
  {
    hide Shl, Val, Pw;
    ghost var c0, c4 := t0.Num(), t4.Num();
    InterpolateFits(2 * n);
    z3p := SubThird(z3, t3, t3p, t1, true, -c1 + c2 - 3 * c3 + 5 * c4);
    z1p := SubHalf(z1, t1, true, t2, t2p, c1 + c3);
    z2p := SignedSub(z2, t2, t2p, t0, true);
    z1p, z2p, z3p := Interpolate2(t4, z1, z1p, z2, z2p, z3, z3p, n, c1, c2, c3);
  }

  /** The second half, from z1 = c1 + c3, z2 = -c1 + c2 - c3 + c4 and z3 = -c1 + c2 - 3 c3 + 5 c4. */
  method Interpolate2(t4: Span, z1: Span, p1: bool, z2: Span, p2: bool, z3: Span, p3: bool, n: nat,
                      ghost c1: int, ghost c2: int, ghost c3: int)
    returns (z1p: bool, z2p: bool, z3p: bool)
    requires t4.Ok() && z1.Ok() && z2.Ok() && z3.Ok() && 0 < n
    requires t4.Len() == 2 * n && z1.Len() == z2.Len() == z3.Len() == 2 * n + 1
    requires z1.a != z2.a && z1.a != z3.a && z2.a != z3.a && t4.a !in {z1.a, z2.a, z3.a}
    requires 0 <= c1 < 10 * Pw(2 * n) && 0 <= c2 < 10 * Pw(2 * n) && 0 <= c3 < 10 * Pw(2 * n) && t4.Num() < Pw(2 * n)
    requires Signed(p1, z1.Num()) == c1 + c3
    requires Signed(p2, z2.Num()) == -c1 + c2 - c3 + t4.Num()
    requires Signed(p3, z3.Num()) == -c1 + c2 - 3 * c3 + 5 * t4.Num()
    modifies z1.a, z2.a, z3.a
    ensures Signed(z1p, z1.Num()) == c1 && Signed(z2p, z2.Num()) == c2 && Signed(z3p, z3.Num()) == c3
  {
    hide Shl, Val, Pw;
    InterpolateFits(2 * n);
    z3p := ThirdCoefficient(t4, z2, p2, z3, p3, n, c3);
    z2p := SignedSub(z2, z2, p2, z1, !p1);
    z2p := SignedSub(z2, z2, z2p, t4, true);
    z1p := SignedSub(z1, z1, p1, z3, z3p);
  }

  /** z3 <- (z2 - z3) / 2 + 2 * t4 */
  method ThirdCoefficient(t4: Span, z2: Span, p2: bool, z3: Span, p3: bool, n: nat, ghost c3: int) returns (z3p: bool)
    requires t4.Ok() && z2.Ok() && z3.Ok() && 0 < n
    requires t4.Len() == 2 * n && z2.Len() == z3.Len() == 2 * n + 1
    requires z2.a != z3.a && t4.a != z3.a
    requires z2.Num() < 100 * Pw(2 * n) && z3.Num() < 100 * Pw(2 * n) && t4.Num() < Pw(2 * n)
    requires Signed(p2, z2.Num()) - Signed(p3, z3.Num()) == 2 * c3 - 4 * t4.Num()
    modifies z3.a
    ensures Signed(z3p, z3.Num()) == c3
    ensures Frame(z3)
  {
    hide Shl, Val, Pw;
    InterpolateFits(2 * n);
    z3p := SubHalf(z3, z2, p2, z3, p3, c3 - 2 * t4.Num());
    z3p := AddTwice(z3, z3p, t4);
  }

  lemma InterpolateFits(n: nat)
    ensures 1000 * Pw(n) < Pw(n + 1)
  {
    BPositive();
    MulLe(1000, B - 1, Pw(n));
    assert (B - 1) * Pw(n) == B * Pw(n) - Pw(n);
  }

  /** zz <- zz + v * B^k for signed v, modulo the room; q counts what is dropped. */
  method AddAt(zz: Span, k: nat, v: Span, vp: bool) returns (ghost q: int)
    requires zz.Ok() && v.Ok() && zz.a != v.a && k + v.Len() <= zz.Len()
    modifies zz.a
    ensures zz.Num() == old(zz.Num()) + Shl(Signed(vp, v.Num()), k) + Shl(q, zz.Len())
    ensures Frame(zz)
  {
    hide Shl, Val, Pw;
    var t := zz.Drop(k);
    ghost var m, s := zz.Len() - k, Signed(vp, v.Num());
    JoinVal(zz, k);
    if vp {
      var c := BaryAdd.BaryAdd(t, t, v);
      q := -(c as int);
      ShlAdd(c, q, m); ShlZero(m);
    } else {
      var b := BarySub(t, t, v);
      q := b;
    }
    JoinVal(zz, k);
    Kept(old(zz.a[..]), zz.a[..], zz.lo, zz.lo + k);
    assert t.Num() == old(t.Num()) + s + Shl(q, m);
    ShlAdd(old(t.Num()), s + Shl(q, m), k); ShlAdd(s, Shl(q, m), k); ShlShl(q, m, k);
  }

  /** The product polynomial at the base: zz <- z0 + z1 B^n + z2 B^2n + z3 B^3n + z4 B^4n. */
  method Recompose(zz: Span, n: nat, z0: Span, z1: Span, z1p: bool, z2: Span, z2p: bool, z3: Span, z3p: bool, z4: Span)
    requires zz.Ok() && z0.Ok() && z1.Ok() && z2.Ok() && z3.Ok() && z4.Ok()
    requires zz.a !in {z0.a, z1.a, z2.a, z3.a, z4.a}
    requires 0 < n && zz.Len() == 6 * n + 1 && z0.Len() == z4.Len() == 2 * n && z1.Len() == z2.Len() == z3.Len() == 2 * n + 1
    requires 0 <= z0.Num() + Shl(Signed(z1p, z1.Num()), n) + Shl(Signed(z2p, z2.Num()), 2 * n) + Shl(Signed(z3p, z3.Num()), 3 * n)
      + Shl(z4.Num(), 4 * n) < Pw(6 * n + 1)
    modifies zz.a
    ensures zz.Num() == z0.Num() + Shl(Signed(z1p, z1.Num()), n) + Shl(Signed(z2p, z2.Num()), 2 * n)
      + Shl(Signed(z3p, z3.Num()), 3 * n) + Shl(z4.Num(), 4 * n)
    ensures Frame(zz)
  {
    hide Shl, Val, Pw;
    OuterTerms(zz, n, z0, z4);
    ghost var q1 := AddAt(zz, n, z1, z1p);
    ghost var q2 := AddAt(zz, 2 * n, z2, z2p);
    ghost var q3 := AddAt(zz, 3 * n, z3, z3p);
    ShlAdd(q1, q2, zz.Len()); ShlAdd(q1 + q2, q3, zz.Len());
    ValBound(zz.a[..], zz.lo, zz.hi);
    ModUniqueShl(zz.Num(), z0.Num() + Shl(Signed(z1p, z1.Num()), n) + Shl(Signed(z2p, z2.Num()), 2 * n)
      + Shl(Signed(z3p, z3.Num()), 3 * n) + Shl(z4.Num(), 4 * n), q1 + q2 + q3, zz.Len());
  }

  lemma ModUniqueShl(a: int, b: int, q: int, n: nat)
    requires a == b + Shl(q, n) && 0 <= a < Pw(n) && 0 <= b < Pw(n)
    ensures a == b
  {
    ModUnique(a, b, q, Pw(n));
  }

  /** zz <- z0 + z4 B^4n */
  method OuterTerms(zz: Span, n: nat, z0: Span, z4: Span)
    requires zz.Ok() && z0.Ok() && z4.Ok() && zz.a != z0.a && zz.a != z4.a
    requires zz.Len() == 6 * n + 1 && z0.Len() == z4.Len() == 2 * n
    modifies zz.a
    ensures zz.Num() == z0.Num() + Shl(z4.Num(), 4 * n)
    ensures Frame(zz)
  {
    hide Shl, Val, Pw;
    CopyPadded(zz.Take(4 * n), z0);
    label L:
    CopyPadded(zz.Drop(4 * n), z4);
    Kept(old@L(zz.a[..]), zz.a[..], zz.lo, zz.lo + 4 * n);
    JoinVal(zz, 4 * n);
  }

  /** A value of the product polynomial has a zero digit on top: it may be taken one digit shorter. */
  lemma TopZero(t: Span, n: nat)
    requires t.Ok() && t.Len() == n + 1 && t.Num() < Pw(n)
    ensures t.Take(n).Num() == t.Num() && t.a[t.hi - 1] == 0
  {
    hide Val, Shl, Pw;
    HighZero(t.a[..], t.lo, t.hi, n);
    ValSnoc(t.a[..], t.lo, t.lo + n);
    ShlZero(n);
  }

  /** Steps 2 and 3: from the values of the product polynomial at five points to the polynomial at the base.
      zz may overlie the evaluated factors, which are no longer needed. */
  method Combine(zz: Span, t0: Span, t1: Span, t2: Span, t2p: bool, t3: Span, t3p: bool, t4: Span, n: nat,
                 ghost c1: int, ghost c2: int, ghost c3: int)
    requires zz.Ok() && t0.Ok() && t1.Ok() && t2.Ok() && t3.Ok() && t4.Ok()
    requires zz.a !in {t0.a, t1.a, t2.a, t3.a, t4.a}
    requires 0 < n && zz.Len() == 6 * n + 1 && t0.Len() == t4.Len() == 2 * n && t1.Len() == t2.Len() == t3.Len() == 2 * n + 2
    requires 0 <= c1 < 10 * Pw(2 * n) && 0 <= c2 < 10 * Pw(2 * n) && 0 <= c3 < 10 * Pw(2 * n)
    requires t0.Num() < Pw(2 * n) && t4.Num() < Pw(2 * n)
    requires t1.Num() == t0.Num() + c1 + c2 + c3 + t4.Num()
    requires Signed(t2p, t2.Num()) == t0.Num() - c1 + c2 - c3 + t4.Num()
    requires Signed(t3p, t3.Num()) == t0.Num() - 2 * c1 + 4 * c2 - 8 * c3 + 16 * t4.Num()
    requires 0 <= t0.Num() + Shl(c1, n) + Shl(c2, 2 * n) + Shl(c3, 3 * n) + Shl(t4.Num(), 4 * n) < Pw(6 * n + 1)
    modifies zz.a
    ensures zz.Num() == t0.Num() + Shl(c1, n) + Shl(c2, 2 * n) + Shl(c3, 3 * n) + Shl(t4.Num(), 4 * n)
    ensures Frame(zz)
  {
    hide Shl, Val, Pw;
    BPositive();
    var m := 2 * n + 1;
    InterpolateFits(2 * n);
    TopZero(t1, m); TopZero(t2, m); TopZero(t3, m);
    var a1, a2, a3 := new Digit[m](_ => 0), new Digit[m](_ => 0), new Digit[m](_ => 0);
    var z1, z2, z3 := Span(a1, 0, m), Span(a2, 0, m), Span(a3, 0, m);
    var z1p, z2p, z3p := Interpolate(t0, t1.Take(m), t2.Take(m), t2p, t3.Take(m), t3p, t4, z1, z2, z3, n, c1, c2, c3);
    Recompose(zz, n, t0, z1, z1p, z2, z2p, z3, z3p, t4);
  }

  /** z <- zz without its leading zero digits, which must fit. */
  method StoreTrunc(z: Span, zz: Span)
    requires z.Ok() && zz.Ok() && z.a != zz.a && zz.Num() < Pw(z.Len())
    modifies z.a
    ensures z.Num() == zz.Num()
    ensures Frame(z)
  {
    hide Val, Shl, Pw;
    var t := BaryTrunc(zz);
    TruncFits(t, z.Len());
    CopyPadded(z, t);
  }

  lemma TruncFits(t: Span, n: nat)
    requires t.Ok() && (t.Len() > 0 ==> t.a[t.hi - 1] != 0) && t.Num() < Pw(n)
    ensures t.Len() <= n
  {
    hide Val, Shl, Pw;
    if n < t.Len() {
      HighZero(t.a[..], t.lo, t.hi, n);
    }
  }

  /** The product polynomial at b = 1, -1 and -2. */
  lemma PolynomialAt(a0: int, a1: int, a2: int, b0: int, b1: int, b2: int)
    ensures var c0, c1, c2, c3, c4 := Mul(a0, b0), Mul(a0, b1) + Mul(a1, b0), Mul(a0, b2) + Mul(a1, b1) + Mul(a2, b0),
                                      Mul(a1, b2) + Mul(a2, b1), Mul(a2, b2);
      && Mul(a0 + a1 + a2, b0 + b1 + b2) == c0 + c1 + c2 + c3 + c4
      && Mul(a0 - a1 + a2, b0 - b1 + b2) == c0 - c1 + c2 - c3 + c4
      && Mul(a0 - 2 * a1 + 4 * a2, b0 - 2 * b1 + 4 * b2) == c0 - 2 * c1 + 4 * c2 - 8 * c3 + 16 * c4
  {
  }

  /** The product polynomial at the base is the product. */
  lemma PolynomialAtBase(a0: int, a1: int, a2: int, b0: int, b1: int, b2: int, n: nat)
    ensures Mul(a0 + Shl(a1, n) + Shl(a2, 2 * n), b0 + Shl(b1, n) + Shl(b2, 2 * n))
         == Mul(a0, b0) + Shl(Mul(a0, b1) + Mul(a1, b0), n) + Shl(Mul(a0, b2) + Mul(a1, b1) + Mul(a2, b0), 2 * n)
            + Shl(Mul(a1, b2) + Mul(a2, b1), 3 * n) + Shl(Mul(a2, b2), 4 * n)
  {
    hide Pw, Mul, Shl;
    var x := a0 + Shl(a1, n) + Shl(a2, 2 * n);
    Distribute(x, b0, b1, b2, n);
    MulComm(x, b0); MulComm(x, b1); MulComm(x, b2);
    Distribute(b0, a0, a1, a2, n); Distribute(b1, a0, a1, a2, n); Distribute(b2, a0, a1, a2, n);
    MulComm(a0, b0); MulComm(a0, b1); MulComm(a0, b2);
    MulComm(a1, b0); MulComm(a1, b1); MulComm(a1, b2);
    MulComm(a2, b0); MulComm(a2, b1); MulComm(a2, b2);
    Spread(Mul(a0, b1), Mul(a1, b1), Mul(a2, b1), n, n);
    Spread(Mul(a0, b2), Mul(a1, b2), Mul(a2, b2), n, 2 * n);
    ShlAdd(Mul(a0, b1), Mul(a1, b0), n);
    ShlAdd(Mul(a0, b2) + Mul(a1, b1), Mul(a2, b0), 2 * n); ShlAdd(Mul(a0, b2), Mul(a1, b1), 2 * n);
    ShlAdd(Mul(a1, b2), Mul(a2, b1), 3 * n);
  }

  lemma Distribute(x: int, b0: int, b1: int, b2: int, n: nat)
    ensures Mul(x, b0 + Shl(b1, n) + Shl(b2, 2 * n)) == Mul(x, b0) + Shl(Mul(x, b1), n) + Shl(Mul(x, b2), 2 * n)
  {
    hide Mul, Shl;
    MulAdd(x, b0 + Shl(b1, n), Shl(b2, 2 * n));
    MulAdd(x, b0, Shl(b1, n));
    MulShl(x, b1, n); MulShl(x, b2, 2 * n);
  }

  lemma Spread(c0: int, c1: int, c2: int, n: nat, k: nat)
    ensures Shl(c0 + Shl(c1, n) + Shl(c2, 2 * n), k) == Shl(c0, k) + Shl(c1, n + k) + Shl(c2, 2 * n + k)
  {
    hide Shl;
    ShlAdd(c0 + Shl(c1, n), Shl(c2, 2 * n), k);
    ShlAdd(c0, Shl(c1, n), k);
    ShlShl(c1, n, k); ShlShl(c2, 2 * n, k);
  }

  lemma SignedProduct(p: bool, a: int, q: bool, b: int)
    ensures Signed(p == q, Mul(a, b)) == Mul(Signed(p, a), Signed(q, b))
  {
  }

  /** The coefficients are small multiples of B^2n. */
  lemma CoefficientBounds(a0: int, a1: int, a2: int, b0: int, b1: int, b2: int, n: nat)
    requires 0 <= a0 < Pw(n) && 0 <= a1 < Pw(n) && 0 <= a2 < Pw(n)
    requires 0 <= b0 < Pw(n) && 0 <= b1 < Pw(n) && 0 <= b2 < Pw(n)
    ensures 0 <= Mul(a0, b0) < Pw(2 * n) && 0 <= Mul(a2, b2) < Pw(2 * n)
    ensures 0 <= Mul(a0, b1) + Mul(a1, b0) < 10 * Pw(2 * n)
    ensures 0 <= Mul(a0, b2) + Mul(a1, b1) + Mul(a2, b0) < 10 * Pw(2 * n)
    ensures 0 <= Mul(a1, b2) + Mul(a2, b1) < 10 * Pw(2 * n)
  {
    hide Mul, Pw;
    MulBelow(a0, b0, n); MulBelow(a0, b1, n); MulBelow(a0, b2, n);
    MulBelow(a1, b0, n); MulBelow(a1, b1, n); MulBelow(a1, b2, n);
    MulBelow(a2, b0, n); MulBelow(a2, b1, n); MulBelow(a2, b2, n);
  }

  lemma MulBelow(a: int, b: int, n: nat)
    requires 0 <= a < Pw(n) && 0 <= b < Pw(n)
    ensures 0 <= Mul(a, b) < Pw(2 * n)
  {
    PwAdd(n, n);
    LtMul(a, Pw(n), b, Pw(n));
  }
}
