/** Bitwise operations of a bignum and a machine integer (bignum.c, bigand_int, bigor_int and bigxor_int). */
module BigLogicLong {
  import opened Digits
  import opened BaryDiv
  import opened TwosComplement
  import opened BigLogic

  type LongDigits = n: nat | 1 <= n witness 1

  /** bdigit_roomof(SIZEOF_LONG): how many digits a long takes.  It is 1 if a digit is not smaller than a long. */
  const LONG_DIGITS: LongDigits

  /** long */
  type Long = y: int | -(Pw(LONG_DIGITS) as int) <= 2 * y < Pw(LONG_DIGITS) witness 0

  ghost function SignOf(y: int): int
  {
    if y < 0 then -1 else 0
  }

  /** Shifting keeps the sign, and nothing else in the end. */
  lemma {:induction false} ShrSign(y: int, i: nat, n: nat)
    requires -(Pw(n) as int) <= y < Pw(n) && n <= i
    ensures Shr(y, i) == SignOf(y)
    decreases i
  {
    hide BigDn;
    BPositive();
    PwZero();
    if i > 0 {
      var m := if n == 0 then 0 else n - 1;
      PwNext(m);
      if y >= 0 { DnRange(y, 0, Pw(m)); } else { DnRange(y, -(Pw(m) as int), 0); }
      ShrSign(BigDn(y), i - 1, m);
    }
  }

  /** Once only the sign is left, it stays. */
  lemma ShrStays(y: int, i: nat, j: nat)
    requires i <= j && (Shr(y, i) == 0 || Shr(y, i) == -1)
    ensures Shr(y, j) == Shr(y, i) == SignOf(y)
  {
    hide Shr;
    PwZero();
    ShrAdd(y, i, j - i);
    ShrSign(Shr(y, i), j - i, 0);
    ShrKeepsSign(y, i);
  }

  lemma {:induction false} ShrAdd(y: int, i: nat, j: nat)
    ensures Shr(y, i + j) == Shr(Shr(y, i), j)
    decreases i
  {
    if i > 0 { ShrAdd(BigDn(y), i - 1, j); }
  }

  lemma {:induction false} ShrKeepsSign(y: int, i: nat)
    ensures SignOf(Shr(y, i)) == SignOf(y)
    decreases i
  {
    hide BigDn, BigLo;
    if i > 0 {
      BPositive();
      LoDn(y);
      if y < 0 && BigDn(y) >= 0 { MulLe(0, BigDn(y), B); }
      if y >= 0 && BigDn(y) < 0 { MulLe(BigDn(y), -1, B); }
      ShrKeepsSign(BigDn(y), i - 1);
    }
  }

  lemma SignDigit(y: int)
    ensures BigLo(SignOf(y)) == Fill(y < 0, BITSPERDIG)
  {
    BPositive();
    FillDigit(true);
    LoDnUnique(-1, B - 1, -1);
    LoDnUnique(0, 0, 0);
  }

  /** A string that combines another one with the digits of y. */
  lemma CombinedLong(op: LogicOp, X: Run, hx: bool, y: int, Z: Run, hz: bool)
    requires X.Ok() && Z.Ok()
    requires forall i: nat :: Ext(Z, hz, i) == DigitOp(op, Ext(X, hx, i), BigLo(Shr(y, i)))
    ensures IsBitwise(op, Signed2(X, hx), y, Signed2(Z, hz))
  {
    hide Ext, DigitOp, BigLo, BigDn, Shr, Signed2, IsBitwise;
    var x, z := Signed2(X, hx), Signed2(Z, hz);
    forall i: nat ensures BigLo(Shr(z, i)) == DigitOp(op, BigLo(Shr(x, i)), BigLo(Shr(y, i))) {
      ShrExt(X, hx, i); ShrExt(Z, hz, i);
    }
    DigitsToBits(op, x, y, z);
  }

  /** Digits from i on, from string x and number y, of which y' is what the digits before i have left. */
  method LongDigitLoop(op: LogicOp, zds: array<Digit>, x: Span, hibitsx: bool, y: int, start: nat, y0: int, end: nat, stop: bool)
    returns (i: nat, y': int)
    requires x.Ok() && x.a != zds && start <= end <= zds.Length && y0 == Shr(y, start)
    modifies zds
    ensures start <= i <= end && y' == Shr(y, i)
    ensures i < end ==> stop && (y' == 0 || y' == -1)
    ensures forall j: nat | start <= j < i :: zds[j] == DigitOp(op, Ext(x.Snap(), hibitsx, j), BigLo(Shr(y, j)))
    ensures forall j: nat | j < zds.Length && (j < start || i <= j) :: zds[j] == old(zds[j])
  {
    hide DigitOp, BigLo, BigDn, Fill, Shr;
    i, y' := start, y0;
    FillDigit(hibitsx);
    var hi: Digit := Fill(hibitsx, BITSPERDIG);
    while i < end && !(stop && (y' == 0 || y' == -1))
      invariant start <= i <= end && y' == Shr(y, i)
      invariant forall j: nat | start <= j < i :: zds[j] == DigitOp(op, Ext(x.Snap(), hibitsx, j), BigLo(Shr(y, j)))
      invariant forall j: nat | j < zds.Length && (j < start || i <= j) :: zds[j] == old(zds[j])
    {
      zds[i] := DigitOp(op, if i < x.Len() then x.a[x.lo + i] else hi, BigLo(y'));
      ShrNext(y, i);
      y' := BigDn(y');
      i := i + 1;
    }
  }

  /** The digits from i on, of y nothing but the sign being left. */
  method SignLoop(op: LogicOp, zds: array<Digit>, x: Span, hibitsx: bool, negative: bool, start: nat)
    requires x.Ok() && x.a != zds && start <= zds.Length
    modifies zds
    ensures forall j: nat | start <= j < zds.Length ::
              zds[j] == DigitOp(op, Ext(x.Snap(), hibitsx, j), FillD(negative))
    ensures forall j: nat | j < start :: zds[j] == old(zds[j])
  {
    hide DigitOp, Fill;
    FillDigit(hibitsx);
    var hi: Digit := Fill(hibitsx, BITSPERDIG);
    var i := start;
    while i < zds.Length
      invariant start <= i <= zds.Length
      invariant forall j: nat | start <= j < i :: zds[j] == DigitOp(op, Ext(x.Snap(), hibitsx, j), FillD(negative))
      invariant forall j: nat | j < start :: zds[j] == old(zds[j])
    {
      zds[i] := DigitOp(op, if i < x.Len() then x.a[x.lo + i] else hi, FillD(negative));
      i := i + 1;
    }
  }

  function FillD(sign: bool): Digit
  {
    FillDigit(sign);
    Fill(sign, BITSPERDIG)
  }

  /** How many digits the result may need. */
  function LongLength(op: LogicOp, hibitsx: bool, xn: nat): nat
  {
    if xn < LONG_DIGITS && (op.And? ==> hibitsx) then LONG_DIGITS else xn
  }

  /** bigand_int, bigor_int and bigxor_int.  Once only the sign of y is left, the and and the or stop shifting it;
      a long that fits in a digit is shifted once. */
  method LogicLong(op: LogicOp, x: Big, y: Long) returns (z: Big)
    requires x.digits.Ok()
    ensures z.digits.Ok() && IsBitwise(op, x.Int(), y, z.Int())
  {
    hide Signed2, IsBitwise, DigitOp, Ext, Val, Shr, BigLo, BigDn, LongLength, Fill, FillD;
    BPositive();
    var ds, hibitsx := Abs2TwoComp(x);
    var zn := LongLength(op, hibitsx, ds.Len());
    var zds := new Digit[zn](_ => 0);
    ShrZero(y);
    LongLengthFacts(op, hibitsx, ds.Len());
    var end := if LONG_DIGITS == 1 && 1 <= zn then 1 else zn;
    var i, y' := LongDigitLoop(op, zds, ds, hibitsx, y, 0, y, end, LONG_DIGITS > 1 && !op.Xor?);
    SignLoop(op, zds, ds, hibitsx, y < 0, i);
    var zs := Span(zds, 0, zn);
    AllDigits(op, ds.Snap(), hibitsx, y, zs.Snap(), i);
    z := TwoComp2Abs(zs, Apply(op, hibitsx, y < 0));
  }

  lemma LongLengthFacts(op: LogicOp, hibitsx: bool, xn: nat)
    ensures xn <= LongLength(op, hibitsx, xn) && (LongLength(op, hibitsx, xn) < LONG_DIGITS ==> op.And? && !hibitsx)
  {
  }

  /** All digits are combined, those that are stored and those that follow from the sign. */
  lemma AllDigits(op: LogicOp, X: Run, hx: bool, y: Long, Z: Run, n: nat)
    requires X.Ok() && Z.Ok() && Z.lo == 0 && Z.Len() == LongLength(op, hx, X.Len()) && n <= Z.Len()
    requires n < Z.Len() ==> (n == LONG_DIGITS == 1 || Shr(y, n) == 0 || Shr(y, n) == -1)
    requires forall j: nat | j < n :: Z.s[j] == DigitOp(op, Ext(X, hx, j), BigLo(Shr(y, j)))
    requires forall j: nat | n <= j < Z.Len() :: Z.s[j] == DigitOp(op, Ext(X, hx, j), FillD(y < 0))
    ensures IsBitwise(op, Signed2(X, hx), y, Signed2(Z, Apply(op, hx, y < 0)))
  {
    hide Signed2, IsBitwise, WordOp, Fill, Shr, BigLo, BigDn;
    var hz := Apply(op, hx, y < 0);
    forall i: nat ensures Ext(Z, hz, i) == DigitOp(op, Ext(X, hx, i), BigLo(Shr(y, i))) {
      if LONG_DIGITS <= i {
        ShrSign(y, i, LONG_DIGITS);
      } else if n <= i < Z.Len() {
        ShrStays(y, n, i);
      }
      SignDigit(y);
      if i >= Z.Len() {
        LongLengthFacts(op, hx, X.Len());
        WordOpFill(op, hx, y < 0, BITSPERDIG);
        WordOpAbsorbs(BigLo(Shr(y, i)), BITSPERDIG);
        FillNothing(BITSPERDIG);
      }
    }
    CombinedLong(op, X, hx, y, Z, hz);
  }

  /** The three operations with the same machine word, by the same laws. */
  method AllThreeLong(x: Big, y: Long) returns (a: Big, o: Big, e: Big)
    requires x.digits.Ok()
    ensures a.digits.Ok() && o.digits.Ok() && e.digits.Ok()
    ensures a.Int() + o.Int() == x.Int() + y && e.Int() == o.Int() - a.Int()
    ensures (y == -1 ==> a.Int() == x.Int()) && (y == 0 ==> o.Int() == e.Int() == x.Int())
    ensures x.Int() == y ==> e.Int() == 0
  {
    hide IsBitwise;
    a := LogicLong(And, x, y);
    o := LogicLong(Or, x, y);
    e := LogicLong(Xor, x, y);
    AndOrXor(x.Int(), y, a.Int(), o.Int(), e.Int());
    Neutral(x.Int(), a.Int());
    Neutral(x.Int(), o.Int());
    Neutral(x.Int(), e.Int());
  }
}
