/** Bitwise operations on sign and magnitude (bignum.c, rb_big_and, rb_big_or and rb_big_xor). */
module BigLogic {
  import opened Digits
  import opened BaryAdd
  import opened BarySigned
  import opened KaratsubaSteps
  import opened BaryMulPre
  import opened BaryDiv
  import opened TwosComplement

  /** An integer: its magnitude, and whether it is negative. */
  datatype Big = Big(digits: Span, negative: bool)
  {
    ghost function Int(): int
      reads digits.a
    {
      if negative then -(digits.Num() as int) else digits.Num()
    }
  }

  /** The integer that digits stand for in two's complement, if bits of the given sign follow. */
  ghost function Signed2(r: Run, hibits: bool): int
    requires r.Ok()
  {
    r.Num() - if hibits then Pw(r.Len()) else 0
  }

  /** Digit i of an infinite string. */
  ghost function Ext(r: Run, hibits: bool, i: nat): Digit
  {
    FillDigit(hibits);
    if r.lo + i < r.hi <= |r.s| then r.s[r.lo + i] else Fill(hibits, BITSPERDIG)
  }

  lemma FillDigit(sign: bool)
    ensures Fill(sign, BITSPERDIG) < B
  {
    BPositive();
  }

  /** The digits of the integer are those of the string. */
  lemma {:induction false} ShrExt(r: Run, hibits: bool, i: nat)
    requires r.Ok()
    ensures Shr(Signed2(r, hibits), i) == Signed2(Rest(r, i), hibits)
    ensures BigLo(Shr(Signed2(r, hibits), i)) == Ext(r, hibits, i)
    decreases i
  {
    hide Val, Pw, BigLo, BigDn, Fill, Shr;
    SignedCons(Rest(r, i), hibits);
    if i == 0 {
      ShrZero(Signed2(r, hibits));
    } else {
      ShrExt(r, hibits, i - 1);
      SignedCons(Rest(r, i - 1), hibits);
      ShrNext(Signed2(r, hibits), i - 1);
    }
  }

  lemma ShrZero(v: int)
    ensures Shr(v, 0) == v
  {
  }

  /** A run without its first i digits. */
  ghost function Rest(r: Run, i: nat): Run
    requires r.Ok()
  {
    Run(r.s, if r.lo + i <= r.hi then r.lo + i else r.hi, r.hi)
  }

  /** The lowest digit, and the rest. */
  lemma SignedCons(r: Run, hibits: bool)
    requires r.Ok()
    ensures BigLo(Signed2(r, hibits)) == Ext(r, hibits, 0)
    ensures BigDn(Signed2(r, hibits)) == Signed2(Rest(r, 1), hibits)
  {
    hide Val, BigLo, BigDn;
    BPositive();
    var v, d, t := Signed2(r, hibits), Ext(r, hibits, 0), Signed2(Rest(r, 1), hibits);
    if r.lo < r.hi {
      ValCons(r.s, r.lo, r.hi);
      PwNext(r.Len() - 1);
      ConsAlgebra(Val(r.s, r.lo + 1, r.hi), Pw(r.Len() - 1));
    } else {
      ValEmpty(r.s, r.lo);
      PwZero();
    }
    LoDn(v);
    LoDnUnique(v, d, t);
  }

  lemma ConsAlgebra(v: int, p: int)
    ensures B * v - B * p == B * (v - p)
  {
  }

  lemma LoDnUnique(v: int, d: Digit, t: int)
    requires v == d + B * t
    ensures BigLo(v) == d && BigDn(v) == t
  {
    hide BigLo, BigDn;
    BPositive();
    LoDn(v);
    assert BigLo(v) - d == (t - BigDn(v)) * B;
    ModUnique(BigLo(v), d, t - BigDn(v), B);
    if BigDn(v) < t { MulLe(1, t - BigDn(v), B); }
  }

  /** abs2twocomp: the digits in two's complement, and whether ones follow. */
  method Abs2TwoComp(x: Big) returns (ds: Span, hibits: bool)
    requires x.digits.Ok()
    ensures ds.Ok() && (ds.a == x.digits.a || fresh(ds.a))
    ensures Signed2(ds.Snap(), hibits) == x.Int()
  {
    hide Val, Shl, Pw;
    ds := BaryTrunc(x.digits);
    hibits := false;
    ValEmpty(ds.a[..], ds.lo);
    if ds.Len() != 0 && x.negative {
      BPositive();
      TopNonZero(ds);
      var n := ds.Len();
      var a := new Digit[n](_ => 0);
      var z := Span(a, 0, n);
      CopyDigits(z, ds);
      var zero := Bary2comp(z);
      ShlOne(n);
      ds, hibits := z, true;
    }
  }

  /** twocomp2abs_bang and get2comp: back to sign and magnitude; 2's complement of zero needs a digit more. */
  method TwoComp2Abs(z: Span, hibits: bool) returns (r: Big)
    requires z.Ok()
    modifies z.a
    ensures r.digits.Ok() && (r.digits.a == z.a || fresh(r.digits.a))
    ensures r.Int() == Signed2(old(z.Snap()), hibits)
    ensures Frame(z)
  {
    hide Val, Shl, Pw;
    r := Big(z, hibits);
    if hibits {
      var zero := Bary2comp(z);
      ShlOne(z.Len());
      if zero == 1 {
        var x := ExtendCarry(z);
        r := Big(x, true);
      }
    }
  }

  /** big_extend_carry: one more digit, which is 1. */
  method ExtendCarry(z: Span) returns (x: Span)
    requires z.Ok()
    ensures x.Ok() && fresh(x.a) && x.Len() == z.Len() + 1 && x.Num() == z.Num() + Pw(z.Len())
  {
    hide Val, Shl, Pw;
    BPositive();
    var n := z.Len();
    var a := new Digit[n + 1](_ => 0);
    x := Span(a, 0, n + 1);
    CopyDigits(x.Take(n), z);
    SetDigit(x, n, 1);
    ShlOne(n);
  }

  /** A string that combines two others digit by digit stands for the combined integer. */
  lemma Combined(op: LogicOp, X: Run, hx: bool, Y: Run, hy: bool, Z: Run, hz: bool)
    requires X.Ok() && Y.Ok() && Z.Ok()
    requires forall i: nat :: Ext(Z, hz, i) == DigitOp(op, Ext(X, hx, i), Ext(Y, hy, i))
    ensures IsBitwise(op, Signed2(X, hx), Signed2(Y, hy), Signed2(Z, hz))
  {
    hide Ext, DigitOp, BigLo, BigDn, Shr, Signed2, IsBitwise;
    var x, y, z := Signed2(X, hx), Signed2(Y, hy), Signed2(Z, hz);
    forall i: nat ensures BigLo(Shr(z, i)) == DigitOp(op, BigLo(Shr(x, i)), BigLo(Shr(y, i))) {
      ShrExt(X, hx, i); ShrExt(Y, hy, i); ShrExt(Z, hz, i);
    }
    DigitsToBits(op, x, y, z);
  }

  lemma BitwiseComm(op: LogicOp, x: int, y: int, z: int)
    requires IsBitwise(op, x, y, z)
    ensures IsBitwise(op, y, x, z)
  {
    forall k: nat ensures BitAt(z, k) == Apply(op, BitAt(y, k), BitAt(x, k)) {
      assert BitAt(z, k) == Apply(op, BitAt(x, k), BitAt(y, k));
    }
  }

  /** The digits of two strings, combined, the first being the shorter one. */
  method CombineDigits(op: LogicOp, ds1: Span, hibits1: bool, ds2: Span, n2: nat) returns (z: Span)
    requires ds1.Ok() && ds2.Ok() && ds1.Len() <= n2 <= ds2.Len()
    ensures z.Ok() && fresh(z.a) && z.Len() == n2
    ensures forall i: nat | i < n2 :: z.a[z.lo + i] == DigitOp(op, Ext(ds1.Snap(), hibits1, i), ds2.a[ds2.lo + i])
  {
    hide DigitOp, Fill;
    BPositive();
    var n1 := ds1.Len();
    var zds := new Digit[n2](_ => 0);
    z := Span(zds, 0, n2);
    FillDigit(hibits1);
    var hi: Digit := Fill(hibits1, BITSPERDIG);
    var i := 0;
    while i < n1
      invariant 0 <= i <= n1
      invariant forall j: nat | j < i :: zds[j] == DigitOp(op, Ext(ds1.Snap(), hibits1, j), ds2.a[ds2.lo + j])
    {
      zds[i] := DigitOp(op, ds1.a[ds1.lo + i], ds2.a[ds2.lo + i]);
      i := i + 1;
    }
    while i < n2
      invariant n1 <= i <= n2
      invariant forall j: nat | j < i :: zds[j] == DigitOp(op, Ext(ds1.Snap(), hibits1, j), ds2.a[ds2.lo + j])
    {
      zds[i] := DigitOp(op, hi, ds2.a[ds2.lo + i]);
      i := i + 1;
    }
  }

  /** How many digits of the longer operand matter: with zeros following, an and ends where the shorter one does,
      and with ones following, so does an or. */
  function Length2(op: LogicOp, hibits1: bool, n1: nat, n2: nat): nat
  {
    match op
    case And => if hibits1 then n2 else n1
    case Or => if hibits1 then n1 else n2
    case Xor => n2
  }

  lemma CombinedAll(op: LogicOp, X: Run, hx: bool, Y: Run, hy: bool, Z: Run)
    requires X.Ok() && Y.Ok() && Z.Ok() && X.Len() <= Y.Len() && Z.Len() == Length2(op, hx, X.Len(), Y.Len())
    requires forall i: nat | i < Z.Len() :: Z.s[Z.lo + i] == DigitOp(op, Ext(X, hx, i), Y.s[Y.lo + i])
    ensures IsBitwise(op, Signed2(X, hx), Signed2(Y, hy), Signed2(Z, Apply(op, hx, hy)))
  {
    hide Signed2, IsBitwise, WordOp, Fill;
    var hz := Apply(op, hx, hy);
    forall i: nat ensures Ext(Z, hz, i) == DigitOp(op, Ext(X, hx, i), Ext(Y, hy, i)) {
      if i >= Z.Len() {
        WordOpFill(op, hx, hy, BITSPERDIG);
        WordOpAbsorbs(Ext(Y, hy, i), BITSPERDIG);
        FillNothing(BITSPERDIG);
      }
    }
    Combined(op, X, hx, Y, hy, Z, hz);
  }

  lemma FillNothing(n: nat)
    ensures Fill(false, n) == 0
  {
  }

  /** rb_big_and, rb_big_or and rb_big_xor on two bignums */
  method Logic(op: LogicOp, x: Big, y: Big) returns (z: Big)
    requires x.digits.Ok() && y.digits.Ok()
    ensures z.digits.Ok() && IsBitwise(op, x.Int(), y.Int(), z.Int())
  {
    hide Signed2, IsBitwise, Val;
    var ds1, hibits1 := Abs2TwoComp(x);
    var ds2, hibits2 := Abs2TwoComp(y);
    if ds1.Len() > ds2.Len() {
      z := LogicOrdered(op, ds2, hibits2, ds1, hibits1);
      BitwiseComm(op, y.Int(), x.Int(), z.Int());
    } else {
      z := LogicOrdered(op, ds1, hibits1, ds2, hibits2);
    }
  }

  method LogicOrdered(op: LogicOp, ds1: Span, hibits1: bool, ds2: Span, hibits2: bool) returns (z: Big)
    requires ds1.Ok() && ds2.Ok() && ds1.Len() <= ds2.Len()
    ensures z.digits.Ok()
    ensures IsBitwise(op, Signed2(ds1.Snap(), hibits1), Signed2(ds2.Snap(), hibits2), z.Int())
  {
    hide Signed2, IsBitwise, DigitOp, Ext, Val;
    var n2 := Length2(op, hibits1, ds1.Len(), ds2.Len());
    var zs := CombineDigits(op, ds1, hibits1, ds2, n2);
    CombinedAll(op, ds1.Snap(), hibits1, ds2.Snap(), hibits2, zs.Snap());
    z := TwoComp2Abs(zs, Apply(op, hibits1, hibits2));
  }

  /** The three operations on the same operands: and and or together weigh what the operands weigh, and xor is their
      difference; -1 and 0 are neutral. */
  method AllThree(x: Big, y: Big) returns (a: Big, o: Big, e: Big)
    requires x.digits.Ok() && y.digits.Ok()
    ensures a.digits.Ok() && o.digits.Ok() && e.digits.Ok()
    ensures a.Int() + o.Int() == x.Int() + y.Int() && e.Int() == o.Int() - a.Int()
    ensures (y.Int() == -1 ==> a.Int() == x.Int()) && (y.Int() == 0 ==> o.Int() == e.Int() == x.Int())
    ensures x.Int() == y.Int() ==> e.Int() == 0
  {
    hide IsBitwise;
    a := Logic(And, x, y);
    o := Logic(Or, x, y);
    e := Logic(Xor, x, y);
    AndOrXor(x.Int(), y.Int(), a.Int(), o.Int(), e.Int());
    Neutral(x.Int(), a.Int());
    Neutral(x.Int(), o.Int());
    Neutral(x.Int(), e.Int());
  }
}
