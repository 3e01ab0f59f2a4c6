/** Subtracting a multiple (bignum.c, bigdivrem_mulsub and bary_mulsub_1xN). */
module BaryMulSub {
  import opened Digits
  import opened BaryAdd

  lemma MulSubFits(num: int, t2: Digit, x: Digit, y: Digit, z: Digit)
    requires -1 <= num <= 0
    ensures 0 <= t2 as int + y as int * x < B * B
    ensures 0 <= BigDn(t2 as int + y as int * x) < B
    ensures var ee := num - BigLo(t2 as int + y as int * x);
      -(B * B) <= 2 * ee < B * B && -(B * B) <= 2 * (ee + z) < B * B && -1 <= BigDn(ee + z) <= 0
  {
    BPositive();
    MulAddFits(t2, y, x, 0);
    var ee := num - BigLo(t2 as int + y as int * x);
    SmallFits(ee);
    SmallFits(ee + z);
    DnRange(ee + z, -1, 1);
  }

  /** z[0..yn] -= x * y in place, with the top digit of z left as it is; the result is what that digit should become. */
  method BigDivRemMulSub(z: Span, x: Digit, y: Span) returns (num: DblSigned)
    requires z.Ok() && y.Ok() && z.Len() == y.Len() + 1 && 0 < y.Len() && Disjoint(z, y)
    modifies z.a
    ensures -B <= num < B
    ensures Val(z.a[..], z.lo, z.hi - 1) + Shl(num, y.Len()) == old(z.Num()) - Mul(x, old(y.Num()))
    ensures Frame(z.Take(y.Len()))
  {
    hide Shl, Val, Pre, Pw, Mul;
    ghost var Z, Y := z.Snap(), y.Snap();
    BPositive();
    SmallFits(0);
    num := 0;
    var t2: Digit := 0;
    var i := 0;
    PreZero(Z); PreZero(Y); ShlUnit(0); MulDef(x, 0);
    ValEmpty(z.a[..], z.lo);
    while i < y.Len()
      invariant 0 <= i <= y.Len() && -1 <= num <= 0
      invariant Val(z.a[..], z.lo, z.lo + i) + Shl(num - t2, i) == Pre(Z, i) - Mul(x, Pre(Y, i))
      invariant Frame(z.Take(i))
    {
      num, t2 := MulSubDigit(z, x, y.a[y.lo + i], i, num, t2, Z, Y);
      i := i + 1;
    }
    PreAll(Y, i);
    PreStep(Z, i); PreAll(Z, i + 1);
    ShlAdd(num - t2, z.a[z.lo + i], i);
    SmallFits(num - t2 + z.a[z.lo + i]);
    num := num - t2 + z.a[z.lo + i];
  }

  lemma MulSubSum(num: int, t2: int, z: int, p: int, tl: int, th: int, nl: int, nh: int)
    requires t2 + p == tl + B * th && z + (num - tl) == nl + B * nh
    ensures num - t2 + (z - p) == nl + B * (nh - th)
  {
    assert B * (nh - th) == B * nh - B * th;
  }

  /** One digit; nothing is written when there is nothing to subtract. */
  method MulSubDigit(z: Span, x: Digit, d: Digit, i: nat, num: DblSigned, t2: Digit, ghost Z: Run, ghost Y: Run)
    returns (num': DblSigned, t2': Digit)
    requires z.Ok() && i < z.Len() && Z.Ok() && Y.Ok()
    requires z.a[z.lo + i] == Dig(Z, i) && d == Dig(Y, i) && -1 <= num <= 0
    requires Val(z.a[..], z.lo, z.lo + i) + Shl(num - t2, i) == Pre(Z, i) - Mul(x, Pre(Y, i))
    modifies z.a
    ensures -1 <= num' <= 0
    ensures Val(z.a[..], z.lo, z.lo + i + 1) + Shl(num' - t2', i + 1) == Pre(Z, i + 1) - Mul(x, Pre(Y, i + 1))
    ensures forall k | 0 <= k < z.a.Length && k != z.lo + i :: z.a[k] == old(z.a[k])
  {
    hide Shl, Val, Pre, Pw, Mul, BigLo, BigDn;
    var zi := z.a[z.lo + i];
    PreStep(Z, i); MulPreStep(x, Y, i);
    MulSubFits(num, t2, x, d, zi);
    ghost var p := x * d;
    assert d as int * x == p;
    var t: Dbl := t2 as int + d as int * x;
    var ee: DblSigned := num - BigLo(t);
    var n: DblSigned := zi + ee;
    ghost var before := Val(z.a[..], z.lo, z.lo + i);
    if ee != 0 {
      SetDigit(z, i, BigLo(n));
    } else {
      DnRange(n, 0, 1);
      LoDn(n);
      assert BigLo(n) == zi;
      ValSnoc(z.a[..], z.lo, z.lo + i);
    }
    num', t2' := BigDn(n), BigDn(t);
    LoDn(n); LoDn(t);
    MulSubSum(num, t2, zi, p, BigLo(t), t2', BigLo(n), num');
    CarryStep(before, num - t2, i, Pre(Z, i) - Mul(x, Pre(Y, i)), zi - p, BigLo(n), num' - t2');
    ShlAdd(zi - p, p, i);
  }

  /** z -= x * y, modulo the size of z; the result says whether it was negative. */
  method BaryMulSub1xN(z: Span, x: Digit, y: Span) returns (b: nat)
    requires z.Ok() && y.Ok() && z.Len() == y.Len() + 1 && 0 < y.Len() && Disjoint(z, y)
    modifies z.a
    ensures b <= 1
    ensures z.Num() - Shl(b, z.Len()) == old(z.Num()) - Mul(x, old(y.Num()))
    ensures Frame(z)
  {
    hide Shl, Val, Pw, Mul;
    var num := BigDivRemMulSub(z, x, y);
    var n := y.Len();
    SetDigit(z, n, BigLo(num));
    LoDn(num);
    DnRange(num, -1, 1);
    b := if BigDn(num) != 0 then 1 else 0;
    ShlAdd(BigLo(num), B * BigDn(num), n);
    ShlNext(BigDn(num), n);
    ShlZero(n + 1); ShlAdd(-1, 1, n + 1);
  }
}
