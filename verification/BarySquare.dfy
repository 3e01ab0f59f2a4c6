/** Squaring at half the cost of multiplication (bignum.c, bary_sq_fast; Handbook of Applied
    Cryptography, Algorithm 14.16). */
module BarySquare {
  import opened Digits
  import opened BaryAdd
  import opened BaryMulBasic

  /** What the rows below i add up to: x^2 less the square of what they leave out. */
  ghost function Rows(X: Run, i: nat): int
  {
    X.Num() * X.Num() - (X.Num() - Pre(X, i)) * (X.Num() - Pre(X, i))
  }

  /** What row i adds: x_i^2 B^2i + 2 x_i B^i (x_{i+1} B^{i+1} + ... ), up to column j. */
  ghost function Row(X: Run, i: nat, j: nat): int
  {
    Shl(Dig(X, i) * Dig(X, i), i + i) + Shl(2 * Dig(X, i) * (Pre(X, j) - Pre(X, i + 1)), i)
  }

  lemma RowsStep(X: Run, i: nat)
    requires X.Ok() && i < X.Len()
    ensures Rows(X, i + 1) == Rows(X, i) + Row(X, i, X.Len())
  {
    var v, p, d := X.Num(), Pre(X, i), Dig(X, i) as int;
    PreStep(X, i);
    PreAll(X, X.Len());
    PwAdd(i, i);
    RowsAlgebra(v, p, d, Pw(i));
  }

  lemma RowsAlgebra(v: int, p: int, d: int, b: int)
    ensures var q := p + d * b;
      v * v - (v - q) * (v - q) == v * v - (v - p) * (v - p) + d * d * (b * b) + 2 * d * (v - q) * b
  {
    var q := p + d * b;
    var r := v - q;
    assert v - p == r + d * b;
    calc {
      (r + d * b) * (r + d * b) - r * r;
      2 * r * (d * b) + (d * b) * (d * b);
      { assert (d * b) * (d * b) == d * d * (b * b); assert 2 * r * (d * b) == 2 * d * r * b; }
      d * d * (b * b) + 2 * d * r * b;
    }
  }

  /** The rows below i stay clear of the digits beyond X.Len() + i. */
  lemma RowsFit(X: Run, i: nat)
    requires X.Ok() && i <= X.Len()
    ensures 0 <= Rows(X, i) < Pw(X.Len() + i + 1)
  {
    hide Val, Shl;
    ValBound(X.s, X.lo, X.hi);
    ValBound(X.s, X.lo, X.lo + i);
    ValSplit(X.s, X.lo, X.lo + i, X.hi);
    ShlNat(Val(X.s, X.lo + i, X.hi), i);
    RowsBound(X.Num(), Pre(X, i), Pw(i), Pw(X.Len()));
    PwAdd(X.Len(), i);
    BPositive();
    MulLe(2, B, Pw(X.Len() + i));
  }

  lemma RowsBound(v: int, p: int, a: int, b: int)
    requires 0 <= p < a && p <= v < b
    ensures 0 <= v * v - (v - p) * (v - p) < 2 * (b * a)
  {
    assert v * v - (v - p) * (v - p) == p * (2 * v - p);
    FitStrict(p, a, 2 * v - p, b);
  }

  lemma FitStrict(p: int, a: int, q: int, b: int)
    requires 0 <= p < a && 0 <= q < 2 * b
    ensures 0 <= p * q < 2 * (b * a)
  {
    MulLe(p, a - 1, q);
    MulLe(q, 2 * b, a - 1);
    MulLe(0, p, q);
    assert (a - 1) * (2 * b) == 2 * (b * a) - 2 * b;
  }

  /** One more column of a row. */
  lemma RowStep(X: Run, i: nat, j: nat)
    requires X.Ok() && i < j < X.Len()
    ensures Row(X, i, j + 1) == Row(X, i, j) + Shl(2 * Dig(X, i) as int * Dig(X, j), i + j)
  {
    hide Shl, Pre;
    var d, w := 2 * Dig(X, i) as int, Dig(X, j) as int;
    PreStep(X, j);
    var t := Pre(X, j) - Pre(X, i + 1);
    assert d * (t + Shl(w, j)) == d * t + d * Shl(w, j);
    MulShl(d, w, j);
    MulDef(d, Shl(w, j));
    ShlAdd(d * t, Shl(d * w, j), i);
    ShlShl(d * w, j, i);
  }

  /** 2v is the digit vl and the bit vh; vl is even. */
  lemma DoubleDigit(v: Digit)
    ensures var vl, vh := BigLo(2 * v as int), BigDn(2 * v as int);
      0 <= vh <= 1 && vl as int + B * vh == 2 * v as int && vl <= B - 2
  {
    var vl, vh := BigLo(2 * v as int), BigDn(2 * v as int);
    LoDn(2 * v as int);
    DnRange(2 * v as int, 0, 2);
    var h := Pow2(BITSPERDIG - 1);
    assert B == 2 * h;
    if vh == 0 { assert vl == 2 * v; } else { assert vl == 2 * (v - h); }
  }

  /** Every column fits in a double digit.  The bound is met exactly, and only because
      vl is even, so at most B - 2. */
  lemma ColumnFits(c: int, z: Digit, vl: Digit, w: Digit)
    requires 0 <= c <= 2 * B - 2 && vl <= B - 2
    ensures 0 <= c + z + vl as int * w < B * B
    ensures 0 <= BigDn(c + z + vl as int * w) < B
  {
    MulLe(0, vl, w);
    MulLe(vl, B - 2, w);
    MulLe(w, B - 1, B - 2);
    assert (B - 2) * (B - 1) == B * B - 3 * B + 2;
    DnRange(c + z + vl as int * w, 0, B);
  }

  /** The square on the diagonal leaves a carry of one digit. */
  lemma DiagonalFits(z: Digit, v: Digit)
    ensures 0 <= z as int + v as int * v < B * B
    ensures 0 <= BigDn(z as int + v as int * v) < B
  {
    BPositive();
    MulAddFits(0, v, v, z);
  }

  /** Column j of row i. */
  method Column(z: Span, x: Span, i: nat, j: nat, c: Dbl, vl: Digit, vh: int, ghost X: Run, ghost Z: Run)
    returns (c': Dbl)
    requires z.Ok() && x.Ok() && Disjoint(z, x)
    requires TailIs(x, 0, X) && i < j < X.Len() && i + j < z.Len() && Z.Ok()
    requires z.a[z.lo + i + j] == Dig(Z, i + j)
    requires c <= 2 * B - 2
    requires vl <= B - 2 && 0 <= vh <= 1 && vl as int + B * vh == 2 * Dig(X, i) as int
    requires Val(z.a[..], z.lo, z.lo + i + j) + Shl(c, i + j) == Pre(Z, i + j) + Row(X, i, j)
    modifies z.a
    ensures c' <= 2 * B - 2
    ensures Val(z.a[..], z.lo, z.lo + i + j + 1) + Shl(c', i + j + 1) == Pre(Z, i + j + 1) + Row(X, i, j + 1)
    ensures forall k | 0 <= k < z.a.Length && k != z.lo + i + j :: z.a[k] == old(z.a[k])
  {
    hide Shl, Val, Pre, Pw, Row;
    var w := x.a[x.lo + j];
    assert w == Dig(X, j);
    ColumnFits(c, z.a[z.lo + i + j], vl, w);
    PreStep(Z, i + j);
    RowStep(X, i, j);
    SmallFits(2 * B - 2);
    ghost var rhs := Pre(Z, i + j) + Row(X, i, j);
    ghost var zd := Dig(Z, i + j);
    ghost var before := Val(z.a[..], z.lo, z.lo + i + j);
    var sum: Dbl := c + z.a[z.lo + i + j] + vl as int * w;
    SetDigit(z, i + j, BigLo(sum));
    c' := BigDn(sum) + (if vh != 0 then w else 0);
    LoDn(sum);
    ghost var add := zd + 2 * Dig(X, i) as int * w;
    assert c + add == BigLo(sum) + B * c' by { ColumnSum(c, zd, vl, vh, w, Dig(X, i), BigLo(sum), BigDn(sum)); }
    CarryStep(before, c, i + j, rhs, add, BigLo(sum), c');
    ShlAdd(zd, 2 * Dig(X, i) as int * w, i + j);
  }

  lemma ColumnSum(c: int, z: int, vl: int, vh: int, w: int, v: int, lo: int, hi: int)
    requires c + z + vl * w == lo + B * hi && vl + B * vh == 2 * v && (vh == 0 || vh == 1)
    ensures c + (z + 2 * v * w) == lo + B * (hi + (if vh != 0 then w else 0))
  {
    assert (vl + B * vh) * w == 2 * v * w;
  }

  lemma DiagonalRow(X: Run, i: nat)
    ensures Row(X, i, i + 1) == Shl(Dig(X, i) as int * Dig(X, i), i + i)
  {
    hide Pre;
  }

  lemma RowsNone(X: Run)
    requires X.Ok()
    ensures Rows(X, 0) == 0
  {
    hide Val, Pre;
    PreZero(X);
  }

  lemma RowsAll(X: Run)
    requires X.Ok()
    ensures Rows(X, X.Len()) == X.Num() * X.Num() < Pw(X.Len() + X.Len())
  {
    hide Val, Pre;
    PreAll(X, X.Len());
    ValBound(X.s, X.lo, X.hi);
    LtMul(X.Num(), Pw(X.Len()), X.Num(), Pw(X.Len()));
    PwAdd(X.Len(), X.Len());
  }

  /** The diagonal element of row i. */
  method Diagonal(z: Span, i: nat, v: Digit, ghost X: Run, ghost Z: Run) returns (c: Digit)
    requires z.Ok() && i + i < z.Len() && v == Dig(X, i)
    requires Z == z.Snap()
    modifies z.a
    ensures Val(z.a[..], z.lo, z.lo + i + i + 1) + Shl(c, i + i + 1) == Pre(Z, i + i + 1) + Row(X, i, i + 1)
    ensures Frame(z.Take(i + i + 1)) && TailIs(z, i + i + 1, Z)
  {
    hide Shl, Val, Pre, Pw, Row;
    DiagonalRow(X, i);
    DiagonalFits(z.a[z.lo + i + i], v);
    var sum: Dbl := z.a[z.lo + i + i] as int + v as int * v;
    PreVal(Z, i + i);
    PreStep(Z, i + i);
    ShlZero(i + i);
    ShlAdd(Dig(Z, i + i), v as int * v, i + i);
    c := StoreStep(z, i + i, sum, 0, sum, Pre(Z, i + i));
  }

  /** The carry out of row i goes into the next two digits; the second of them is still 0. */
  method RowEnd(z: Span, m: nat, c0: Dbl, ghost Z: Run, ghost rhs: int)
    requires z.Ok() && m + 1 < z.Len() && TailIs(z, m, Z) && Dig(Z, m + 1) == 0
    requires c0 <= 2 * B - 2
    requires Val(z.a[..], z.lo, z.lo + m) + Shl(c0, m) == rhs + Pre(Z, m)
    modifies z.a
    ensures z.Num() == rhs + Z.Num()
    ensures Frame(z)
  {
    hide Shl, Val, Pre, Pw;
    BPositive();
    ShlZero(m); ShlZero(m + 1); ShlZero(m + 2);
    var i := m;
    if c0 != 0 {
      PreStep(Z, m); PreStep(Z, m + 1);
      SmallFits(c0 + z.a[z.lo + m]);
      DnRange(c0 + z.a[z.lo + m], 0, 3);
      var sum: Dbl := c0 + z.a[z.lo + m];
      var c: Dbl := StoreStep(z, m, sum, c0, z.a[z.lo + m], rhs + Pre(Z, m));
      i := m + 1;
      if c != 0 {
        assert z.a[z.lo + m + 1] == 0;
        SetDigit(z, m + 1, z.a[z.lo + m + 1] + c);
        i := m + 2;
      }
    }
    SpliceValue(z, i, Z, rhs);
  }

  /** The columns of row i right of the diagonal. */
  method SqColumns(z: Span, x: Span, i: nat, c0: Dbl, vl: Digit, vh: int, ghost X: Run, ghost Z: Run)
    returns (c: Dbl)
    requires z.Ok() && x.Ok() && Disjoint(z, x)
    requires TailIs(x, 0, X) && i + 1 < X.Len() && 2 * X.Len() <= z.Len()
    requires c0 < B && vl <= B - 2 && 0 <= vh <= 1 && vl as int + B * vh == 2 * Dig(X, i) as int
    requires TailIs(z, i + i + 1, Z)
    requires Val(z.a[..], z.lo, z.lo + i + i + 1) + Shl(c0, i + i + 1) == Pre(Z, i + i + 1) + Row(X, i, i + 1)
    modifies z.a
    ensures c <= 2 * B - 2
    ensures Val(z.a[..], z.lo, z.lo + i + X.Len()) + Shl(c, i + X.Len()) == Pre(Z, i + X.Len()) + Row(X, i, X.Len())
    ensures Frame(z.Take(i + X.Len())) && TailIs(z, i + X.Len(), Z)
  {
    hide Shl, Val, Pre, Pw, Row;
    c := c0;
    var j := i + 1;
    while j < x.Len()
      invariant i < j <= x.Len()
      invariant c <= 2 * B - 2
      invariant Val(z.a[..], z.lo, z.lo + i + j) + Shl(c, i + j) == Pre(Z, i + j) + Row(X, i, j)
      invariant Frame(z.Take(i + j)) && TailIs(z, i + j, Z)
    {
      c := Column(z, x, i, j, c, vl, vh, X, Z);
      j := j + 1;
    }
  }

  /** A row of the square other than the last. */
  method SqRow(z: Span, x: Span, i: nat, ghost X: Run)
    requires z.Ok() && x.Ok() && Disjoint(z, x)
    requires i + 1 < x.Len() && 2 * x.Len() <= z.Len()
    requires TailIs(x, 0, X) && z.Num() == Rows(X, i)
    modifies z.a
    ensures z.Num() == Rows(X, i + 1)
    ensures Frame(z) && TailIs(x, 0, X)
  {
    hide Shl, Val, Pre, Pw, Row, Rows;
    ghost var Z := z.Snap();
    RowsStep(X, i);
    RowsFit(X, i);
    HighZero(Z.s, Z.lo, Z.hi, X.Len() + i + 1);
    var v := x.a[x.lo + i];
    if v == 0 {
      ZeroRow(X, i);
      return;
    }
    SmallFits(B);
    var c: Dbl := Diagonal(z, i, v, X, Z);
    DoubleDigit(v);
    SmallFits(2 * v as int);
    var vl, vh := BigLo(2 * v as int), BigDn(2 * v as int);
    c := SqColumns(z, x, i, c, vl, vh, X, Z);
    RowEnd(z, i + x.Len(), c, Z, Row(X, i, X.Len()));
  }

  lemma ZeroRow(X: Run, i: nat)
    requires X.Ok() && Dig(X, i) == 0
    ensures Row(X, i, X.Len()) == 0
  {
  }

  lemma TopDigit(t: int, k: nat)
    requires Shl(t, k) < Pw(k + 1)
    ensures t < B
  {
    if t >= B { MulLe(B, t, Pw(k)); }
  }

  /** The last row is its diagonal; its carry cannot overflow the top digit of the square. */
  method SqLast(z: Span, x: Span, ghost X: Run)
    requires z.Ok() && x.Ok() && Disjoint(z, x)
    requires 0 < x.Len() && 2 * x.Len() <= z.Len()
    requires TailIs(x, 0, X) && z.Num() == Rows(X, x.Len() - 1)
    modifies z.a
    ensures z.Num() == Rows(X, x.Len())
    ensures Frame(z)
  {
    hide Shl, Val, Pre, Pw, Row, Rows;
    ghost var Z := z.Snap();
    var i := x.Len() - 1;
    var v := x.a[x.lo + i];
    RowsStep(X, i);
    if v == 0 {
      ZeroRow(X, i);
      return;
    }
    var c := Diagonal(z, i, v, X, Z);
    var k := i + x.Len();
    BPositive();
    ShlZero(k);
    if c != 0 {
      PreStep(Z, k);
      LastCarry(Val(z.a[..], z.lo, z.lo + k), c, X, Z, k);
      SetDigit(z, k, z.a[z.lo + k] as int + c);
      ShlAdd(z.a[z.lo + k] as int - c, c, k);
      k := k + 1;
    }
    SpliceValue(z, k, Z, Row(X, i, X.Len()));
  }

  lemma LastCarry(done: nat, c: Digit, X: Run, Z: Run, k: nat)
    requires X.Ok() && Z.Ok() && 0 < X.Len() && k == 2 * X.Len() - 1 < Z.Len()
    requires Z.Num() == Rows(X, X.Len() - 1)
    requires done + Shl(c, k) == Pre(Z, k) + Row(X, X.Len() - 1, X.Len())
    ensures Dig(Z, k) as int + c < B
  {
    hide Shl, Val, Pre, Pw, Row, Rows;
    var i := X.Len() - 1;
    RowsStep(X, i);
    RowsFit(X, i);
    HighZero(Z.s, Z.lo, Z.hi, k + 1);
    RowsAll(X);
    PreVal(Z, k + 1);
    ValSplit(Z.s, Z.lo, Z.lo + k + 1, Z.hi);
    ValZero(Z.s, Z.lo + k + 1, Z.hi);
    ShlZero(k + 1);
    PreStep(Z, k);
    ShlAdd(Dig(Z, k), c, k);
    assert Shl(Dig(Z, k) as int + c, k) <= Rows(X, X.Len());
    TopDigit(Dig(Z, k) as int + c, k);
  }

  /** bary_sq_fast: z = x^2, for every length. */
  method BarySqFast(z: Span, x: Span)
    requires z.Ok() && x.Ok() && Disjoint(z, x)
    requires 2 * x.Len() <= z.Len()
    modifies z.a
    ensures z.Num() == old(x.Num()) * old(x.Num())
    ensures Frame(z)
  {
    hide Shl, Val, Pw, Pre, Rows;
    ghost var X := x.Snap();
    BdigitsZero(z);
    PreZero(X);
    RowsNone(X);
    if x.Len() == 0 {
      ValEmpty(X.s, X.lo);
      return;
    }
    var i := 0;
    while i < x.Len() - 1
      invariant 0 <= i <= x.Len() - 1
      invariant z.Num() == Rows(X, i)
      invariant Frame(z) && TailIs(x, 0, X)
    {
      SqRow(z, x, i, X);
      i := i + 1;
    }
    SqLast(z, x, X);
    RowsAll(X);
  }
}
