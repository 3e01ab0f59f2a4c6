/** Schoolbook multiplication (bignum.c, bary_muladd_1xN and bary_mul_normal). */
module BaryMulBasic {
  import opened Wrappers
  import opened Digits
  import opened BaryAdd
  import opened BarySigned

  /** Store the low digit of sum, keep the rest: sum is the carry in plus what this position adds. */
  method StoreStep(z: Span, i: nat, sum: Dbl, ghost carry: int, ghost add: int, ghost rhs: int) returns (hi: Dbl)
    requires z.Ok() && i < z.Len()
    requires sum == carry + add
    requires Val(z.a[..], z.lo, z.lo + i) + Shl(carry, i) == rhs
    modifies z.a
    ensures Val(z.a[..], z.lo, z.lo + i + 1) + Shl(hi, i + 1) == rhs + Shl(add, i)
    ensures hi == BigDn(sum) < B && z.a[z.lo + i] == BigLo(sum)
    ensures forall k | 0 <= k < z.a.Length && k != z.lo + i :: z.a[k] == old(z.a[k])
  {
    hide Shl, Val;
    ghost var before := Val(z.a[..], z.lo, z.lo + i);
    SetDigit(z, i, BigLo(sum));
    DnRange(sum, 0, B);
    MulLe(1, B, B);
    hi := BigDn(sum);
    LoDn(sum);
    CarryStep(before, carry, i, rhs, add, BigLo(sum), hi);
  }

  /** z = z + x * y, modulo the size of z; the result says whether it overflowed. */
  method BaryMulAdd1xN(z: Span, x: Digit, y: Span) returns (c: nat)
    requires z.Ok() && y.Ok() && y.Len() < z.Len() && Disjoint(z, y)
    modifies z.a
    ensures c <= 1
    ensures z.Num() + Shl(c, z.Len()) == old(z.Num()) + x * old(y.Num())
    ensures Frame(z)
  {
    hide Shl, Val, Pre, Pw, Mul;
    ghost var Z, Y := z.Snap(), y.Snap();
    BPositive();
    if x == 0 { ShlZero(z.Len()); return 0; }
    var n: Digit := 0;
    var j := 0;
    PreZero(Z); PreZero(Y); ShlUnit(0); MulDef(x, 0);
    ValEmpty(z.a[..], z.lo);
    while j < y.Len()
      invariant 0 <= j <= y.Len()
      invariant Val(z.a[..], z.lo, z.lo + j) + Shl(n, j) == Pre(Z, j) + Mul(x, Pre(Y, j))
      invariant Frame(z.Take(j))
    {
      n := MulAddDigit(z, x, y.a[y.lo + j], j, n, Z, Y);
      j := j + 1;
    }
    PreAll(Y, j);
    c := MulAddSpill(z, j, n, Z, Mul(x, Y.Num()));
    MulDef(x, Y.Num());
  }

  /** One digit of the loop; nothing is written when both the carry and the product are 0. */
  method MulAddDigit(z: Span, x: Digit, d: Digit, j: nat, n: Digit, ghost Z: Run, ghost Y: Run)
    returns (hi: Digit)
    requires z.Ok() && j < z.Len() && Z.Ok() && Y.Ok()
    requires z.a[z.lo + j] == Dig(Z, j) && d == Dig(Y, j)
    requires Val(z.a[..], z.lo, z.lo + j) + Shl(n, j) == Pre(Z, j) + Mul(x, Pre(Y, j))
    modifies z.a
    ensures Val(z.a[..], z.lo, z.lo + j + 1) + Shl(hi, j + 1) == Pre(Z, j + 1) + Mul(x, Pre(Y, j + 1))
    ensures forall k | 0 <= k < z.a.Length && k != z.lo + j :: z.a[k] == old(z.a[k])
  {
    hide Shl, Val, Pre, Pw, Mul;
    PreStep(Z, j); MulPreStep(x, Y, j);
    MulAddFits(n, x, d, z.a[z.lo + j]);
    var ee: Dbl := n as int + x as int * d;
    ghost var add := z.a[z.lo + j] as int + x as int * d;
    ShlAdd(z.a[z.lo + j], x as int * d, j);
    if ee != 0 {
      var sum: Dbl := z.a[z.lo + j] as int + ee;
      hi := StoreStep(z, j, sum, n, add, Pre(Z, j) + Mul(x, Pre(Y, j)));
    } else {
      hi := n;
      MulLe(0, x, d);
      ValSnoc(z.a[..], z.lo, z.lo + j);
      ShlZero(j); ShlZero(j + 1);
    }
  }

  /** The carry runs on through the digits of z beyond y. */
  method MulAddSpill(z: Span, j0: nat, n0: Digit, ghost Z: Run, ghost rhs: int) returns (c: nat)
    requires z.Ok() && j0 < z.Len() && TailIs(z, j0, Z)
    requires Val(z.a[..], z.lo, z.lo + j0) + Shl(n0, j0) == rhs + Pre(Z, j0)
    modifies z.a
    ensures c <= 1
    ensures z.Num() + Shl(c, z.Len()) == rhs + Z.Num()
    ensures Frame(z)
  {
    hide Shl, Val, Pre, Pw;
    var j := j0;
    var n: Digit := n0;
    while j < z.Len() && n != 0
      invariant j0 <= j <= z.Len() && (j0 < j ==> n <= 1)
      invariant Val(z.a[..], z.lo, z.lo + j) + Shl(n, j) == rhs + Pre(Z, j)
      invariant Frame(z.Take(j))
    {
      PreStep(Z, j);
      SmallFits(n as int + z.a[z.lo + j]);
      DnRange(n as int + z.a[z.lo + j], 0, 2);
      var sum: Dbl := n as int + z.a[z.lo + j];
      n := StoreStep(z, j, sum, n, z.a[z.lo + j], rhs + Pre(Z, j));
      j := j + 1;
    }
    c := Bit(n != 0);
    if n == 0 {
      ShlZero(j); ShlZero(z.Len());
      SpliceValue(z, j, Z, rhs);
    } else {
      PreAll(Z, j);
    }
  }

  /** BDIGITS_ZERO */
  method BdigitsZero(z: Span)
    requires z.Ok()
    modifies z.a
    ensures z.Num() == 0
    ensures forall k | z.lo <= k < z.hi :: z.a[k] == 0
    ensures Frame(z)
  {
    BPositive();
    var i := z.lo;
    while i < z.hi
      invariant z.lo <= i <= z.hi
      invariant forall k | z.lo <= k < i :: z.a[k] == 0
      invariant Frame(z)
    {
      z.a[i] := 0;
      i := i + 1;
    }
    ValZero(z.a[..], z.lo, z.hi);
  }

  /** Schoolbook multiplication: z = x * y. */
  method BaryMulNormal(z: Span, x: Span, y: Span)
    requires z.Ok() && x.Ok() && y.Ok()
    requires x.Len() + y.Len() <= z.Len()
    requires Disjoint(z, x) && Disjoint(z, y)
    modifies z.a
    ensures z.Num() == old(x.Num()) * old(y.Num())
    ensures Frame(z)
  {
    hide Shl, Val, Pre, Pw, Mul;
    ghost var X, vy := x.Snap(), y.Num();
    BdigitsZero(z);
    var i := 0;
    PreZero(X); MulDef(vy, 0);
    while i < x.Len()
      invariant 0 <= i <= x.Len()
      invariant z.Num() == Mul(vy, Pre(X, i))
      invariant Frame(z)
    {
      assert x.a[x.lo + i] == Dig(X, i);
      Kept(old(y.a[..]), y.a[..], y.lo, y.hi);
      MulRow(z, x.a[x.lo + i], y, i, X);
      i := i + 1;
    }
    PreAll(X, i);
    MulDef(vy, X.Num());
  }

  /** Adding x * y at position i: no carry leaves z, since the product fits. */
  method MulRow(z: Span, x: Digit, y: Span, i: nat, ghost X: Run)
    requires z.Ok() && y.Ok() && Disjoint(z, y)
    requires X.Ok() && i < X.Len() && X.Len() + y.Len() <= z.Len() && x == Dig(X, i)
    requires z.Num() == Mul(y.Num(), Pre(X, i))
    modifies z.a
    ensures z.Num() == Mul(old(y.Num()), Pre(X, i + 1))
    ensures Frame(z)
  {
    hide Shl, Val, Pre, Pw, Mul;
    ghost var vy := y.Num();
    ghost var p := x * vy;
    var c := AddRow(z, x, y, i);
    assert z.Num() + Shl(c, z.Len()) == Mul(vy, Pre(X, i)) + Shl(p, i);
    MulPreStep(vy, X, i);
    assert vy * Dig(X, i) == p;
    ghost var v := Mul(vy, Pre(X, i + 1));
    ProductFits(y.Snap(), X, i + 1, z.Len());
    ValBound(z.a[..], z.lo, z.hi);
    Kept(old(y.a[..]), y.a[..], y.lo, y.hi);
    assert z.Num() + Shl(c, z.Len()) == v;
    NoCarry(z.Num(), c, z.Len(), v);
  }

  lemma ProductFits(Y: Run, X: Run, i: nat, n: nat)
    requires X.Ok() && Y.Ok() && i <= X.Len() && X.Len() + Y.Len() <= n
    ensures 0 <= Mul(Y.Num(), Pre(X, i)) < Pw(n)
  {
    ValBound(Y.s, Y.lo, Y.hi);
    PreVal(X, i);
    ValBound(X.s, X.lo, X.lo + i);
    PwAdd(Y.Len(), i);
    PwMonotone(Y.Len() + i, n);
    LtMul(Y.Num(), Pw(Y.Len()), Pre(X, i), Pw(i));
  }

  lemma LtMul(a: nat, b: nat, c: nat, d: nat)
    requires a < b && c < d
    ensures 0 <= a * c < b * d
  {
    MulLe(a, b - 1, c);
    MulLe(c, d - 1, b - 1);
    assert (b - 1) * (d - 1) == b * d - b - d + 1;
  }

  /** z = z + x * y * B^i, modulo the size of z. */
  method AddRow(z: Span, x: Digit, y: Span, i: nat) returns (c: nat)
    requires z.Ok() && y.Ok() && Disjoint(z, y)
    requires i + y.Len() < z.Len()
    modifies z.a
    ensures c <= 1
    ensures z.Num() + Shl(c, z.Len()) == old(z.Num()) + Shl(x * old(y.Num()), i)
    ensures Frame(z.Drop(i))
  {
    hide Shl, Val, Pre, Pw;
    ghost var vy := y.Num();
    ghost var p := x * vy;
    ValSplit(z.a[..], z.lo, z.lo + i, z.hi);
    c := BaryMulAdd1xN(z.Drop(i), x, y);
    assert z.Drop(i).Num() + Shl(c, z.Len() - i) == old(z.Drop(i).Num()) + p;
    Kept(old(z.a[..]), z.a[..], z.lo, z.lo + i);
    ValSplit(z.a[..], z.lo, z.lo + i, z.hi);
    ShlAdd(z.Drop(i).Num(), Shl(c, z.Len() - i), i);
    ShlShl(c, z.Len() - i, i);
    ShlAdd(old(z.Drop(i).Num()), p, i);
  }
}
