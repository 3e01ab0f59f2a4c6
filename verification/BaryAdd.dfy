/** Addition, subtraction and complement of digit runs (bignum.c, bary_addc and neighbours). */
module BaryAdd {
  import opened Wrappers
  import opened Digits

  /** The digits of x from position i on are still those of X. */
  ghost predicate TailIs(x: Span, i: nat, X: Run)
    requires x.Ok()
    reads x.a
  {
    && X.Ok() && X.lo == x.lo && X.hi == x.hi && |X.s| == x.a.Length
    && forall k | x.lo + i <= k < x.hi :: x.a[k] == X.s[k]
  }

  /** The body of the loops of bary_addc: store the low digit of num + dx + dy, keep the carry. */
  method AddStep(z: Span, i: nat, num: Dbl, dx: Digit, dy: Digit, ghost rhs: int) returns (hi: Dbl)
    requires z.Ok() && i < z.Len() && num <= 1
    requires Val(z.a[..], z.lo, z.lo + i) + Shl(num, i) == rhs
    modifies z.a
    ensures hi <= 1 && (num == 0 && dy == 0 ==> hi == 0)
    ensures Val(z.a[..], z.lo, z.lo + i + 1) + Shl(hi, i + 1) == rhs + Shl(dx, i) + Shl(dy, i)
    ensures z.a[z.lo + i] == num as int + dx + dy - (if hi == 0 then 0 else B)
    ensures forall k | 0 <= k < z.a.Length && k != z.lo + i :: z.a[k] == old(z.a[k])
  {
    hide Shl, Val;
    ghost var before := Val(z.a[..], z.lo, z.lo + i);
    SmallFits(num as int + dx + dy);
    DnRange(num as int + dx + dy, 0, if num == 0 && dy == 0 then 1 else 2);
    var sum: Dbl := num as int + dx + dy;
    SetDigit(z, i, BigLo(sum));
    hi := BigDn(sum);
    LoDn(sum);
    CarryStep(before, num, i, rhs, dx as int + dy, BigLo(sum), hi);
    ShlAdd(dx, dy, i);
  }

  /** The loop over the digits that both operands have. */
  method AddOverlap(z: Span, x: Span, y: Span, carry: bool) returns (num: Dbl)
    requires z.Ok() && x.Ok() && y.Ok()
    requires x.Len() <= y.Len() <= z.Len()
    requires Readable(z, x) && Readable(z, y)
    modifies z.a
    ensures num <= 1
    ensures Val(z.a[..], z.lo, z.lo + x.Len()) + Shl(num, x.Len())
         == old(x.Num()) + Pre(old(y.Snap()), x.Len()) + Bit(carry)
    ensures Frame(z.Take(x.Len()))
  {
    hide Shl, Val, Pre, Pw;
    ghost var X, Y := x.Snap(), y.Snap();
    BPositive();
    num := Bit(carry);
    var i := 0;
    PreZero(X); PreZero(Y); ShlUnit(num);
    ValEmpty(z.a[..], z.lo);
    while i < x.Len()
      invariant 0 <= i <= x.Len() && num <= 1
      invariant Val(z.a[..], z.lo, z.lo + i) + Shl(num, i) == Pre(X, i) + Pre(Y, i) + Bit(carry)
      invariant Frame(z.Take(i))
    {
      assert x.a[x.lo + i] == Dig(X, i) && y.a[y.lo + i] == Dig(Y, i);
      PreStep(X, i); PreStep(Y, i);
      num := AddStep(z, i, num, x.a[x.lo + i], y.a[y.lo + i], Pre(X, i) + Pre(Y, i) + Bit(carry));
      i := i + 1;
    }
    PreAll(X, i);
  }

  /** The loop that carries into the digits of the longer operand y, up to the first carry of 0. */
  method AddCarry(z: Span, y: Span, i0: nat, num0: Dbl, ghost Y: Run, ghost rhs: int) returns (i: nat, num: Dbl)
    requires z.Ok() && y.Ok() && Readable(z, y)
    requires i0 <= Y.Len() == y.Len() <= z.Len() && num0 <= 1
    requires TailIs(y, i0, Y)
    requires Val(z.a[..], z.lo, z.lo + i0) + Shl(num0, i0) == rhs + Pre(Y, i0)
    modifies z.a
    ensures i0 <= i <= Y.Len() && num <= 1 && (num == 0 || i == Y.Len())
    ensures Val(z.a[..], z.lo, z.lo + i) + Shl(num, i) == rhs + Pre(Y, i)
    ensures Frame(z.Take(i))
  {
    hide Shl, Val, Pre, Pw;
    i, num := i0, num0;
    while i < y.Len() && num != 0
      invariant i0 <= i <= Y.Len() && num <= 1
      invariant Val(z.a[..], z.lo, z.lo + i) + Shl(num, i) == rhs + Pre(Y, i)
      invariant Frame(z.Take(i))
    {
      PreStep(Y, i); ShlZero(i);
      num := AddStep(z, i, num, y.a[y.lo + i], (BPositive(); 0), rhs + Pre(Y, i));
      i := i + 1;
    }
  }

  /** The end of bary_addc: the carry runs into the digits beyond y. */
  method AddSpill(z: Span, i0: nat, num0: Dbl, ghost rhs: int) returns (i: nat, num: Dbl)
    requires z.Ok() && i0 <= z.Len() && num0 <= 1
    requires Val(z.a[..], z.lo, z.lo + i0) + Shl(num0, i0) == rhs
    modifies z.a
    ensures i0 <= i <= z.Len() && num <= 1 && (num == 0 || i == z.Len())
    ensures num0 == 0 ==> i == i0
    ensures Val(z.a[..], z.lo, z.lo + i) + Shl(num, i) == rhs
    ensures Frame(z.Take(i))
  {
    hide Shl, Val, Pw;
    i, num := i0, num0;
    while i < z.Len() && num != 0
      invariant i0 <= i <= z.Len() && num <= 1
      invariant num0 == 0 ==> i == i0 && num == 0
      invariant Val(z.a[..], z.lo, z.lo + i) + Shl(num, i) == rhs
      invariant Frame(z.Take(i))
    {
      ShlZero(i);
      num := AddStep(z, i, num, (BPositive(); 0), (BPositive(); 0), rhs);
      i := i + 1;
    }
  }

  /** The code at num_is_zero: what is left of the operand w is copied, the rest of z is zeroed;
      nothing is written when z already is that operand. */
  method CopyRest(z: Span, w: Span, i0: nat, ghost W: Run, ghost rhs: int)
    requires z.Ok() && w.Ok() && Readable(z, w)
    requires W.Len() == w.Len() <= z.Len() && i0 <= z.Len()
    requires TailIs(w, i0, W)
    requires Val(z.a[..], z.lo, z.lo + i0) == rhs + Pre(W, i0)
    modifies z.a
    ensures z.Num() == rhs + W.Num()
    ensures Frame(z)
  {
    hide Shl, Val, Pre, Pw;
    if w == z {
      SpliceValue(z, i0, W, rhs);
      return;
    }
    var i := i0;
    while i < w.Len()
      invariant i0 <= i <= z.Len()
      invariant Val(z.a[..], z.lo, z.lo + i) == rhs + Pre(W, i)
      invariant Frame(z.Take(i))
    {
      PreStep(W, i);
      SetDigit(z, i, w.a[w.lo + i]);
      i := i + 1;
    }
    while i < z.Len()
      invariant W.Len() <= i <= z.Len()
      invariant Val(z.a[..], z.lo, z.lo + i) == rhs + Pre(W, i)
      invariant Frame(z.Take(i))
    {
      PreStep(W, i); ShlZero(i);
      SetDigit(z, i, (BPositive(); 0));
      i := i + 1;
    }
    PreAll(W, i);
  }

  /** z[i] = d */
  method SetDigit(z: Span, i: nat, d: Digit)
    requires z.Ok() && i < z.Len()
    modifies z.a
    ensures Val(z.a[..], z.lo, z.lo + i + 1) == old(Val(z.a[..], z.lo, z.lo + i)) + Shl(d, i)
    ensures z.a[z.lo + i] == d
    ensures forall k | 0 <= k < z.a.Length && k != z.lo + i :: z.a[k] == old(z.a[k])
  {
    hide Shl, Val;
    z.a[z.lo + i] := d;
    Kept(old(z.a[..]), z.a[..], z.lo, z.lo + i);
    ValSnoc(z.a[..], z.lo, z.lo + i);
  }

  /** Once the rest of z is the rest of W, so is the value. */
  lemma SpliceValue(z: Span, i: nat, W: Run, rhs: int)
    requires z.Ok() && TailIs(z, i, W) && i <= z.Len()
    requires Val(z.a[..], z.lo, z.lo + i) == rhs + Pre(W, i)
    ensures z.Num() == rhs + W.Num()
  {
    hide Shl, Val;
    ValSplit(z.a[..], z.lo, z.lo + i, z.hi);
    ValSplit(W.s, z.lo, z.lo + i, z.hi);
    Kept(W.s, z.a[..], z.lo + i, z.hi);
  }

  /** z = x + y + carry, modulo the size of z; the result is the carry out. */
  method BaryAddc(z: Span, x: Span, y: Span, carry: bool) returns (c: nat)
    requires z.Ok() && x.Ok() && y.Ok()
    requires x.Len() <= z.Len() && y.Len() <= z.Len()
    requires Readable(z, x) && Readable(z, y)
    modifies z.a
    ensures c <= 1
    ensures z.Num() + Shl(c, z.Len()) == old(x.Num()) + old(y.Num()) + Bit(carry)
    ensures Frame(z)
  {
    var s, l := x, y;
    if x.Len() > y.Len() { s, l := y, x; }
    c := AddOrdered(z, s, l, carry);
  }

  method AddOrdered(z: Span, x: Span, y: Span, carry: bool) returns (c: nat)
    requires z.Ok() && x.Ok() && y.Ok()
    requires x.Len() <= y.Len() <= z.Len()
    requires Readable(z, x) && Readable(z, y)
    modifies z.a
    ensures c <= 1
    ensures z.Num() + Shl(c, z.Len()) == old(x.Num()) + old(y.Num()) + Bit(carry)
    ensures Frame(z)
  {
    hide Shl, Val, Pre, Pw;
    ghost var vx := x.Num();
    ghost var Y := y.Snap();
    var num := AddOverlap(z, x, y, carry);
    var i := x.Len();
    i, num := AddCarry(z, y, i, num, Y, vx + Bit(carry));
    ghost var rhs := vx + Pre(Y, i) + Bit(carry);
    ghost var i1 := i;
    i, num := AddSpill(z, i, num, rhs);
    PreAll(Y, if i >= Y.Len() then i else Y.Len());
    if num != 0 { PreAll(Y, i1); return 1; }
    ShlZero(i); ShlZero(z.Len());
    if i1 >= Y.Len() { PreAll(Y, i1); PreAll(Y, i); }
    CopyRest(z, y, i, Y, vx + Bit(carry));
    c := 0;
  }

  /** The body of the loops of bary_subb; num is 0 or -1. */
  method SubStep(z: Span, i: nat, num: DblSigned, dx: Digit, dy: Digit, ghost rhs: int) returns (hi: DblSigned)
    requires z.Ok() && i < z.Len() && -1 <= num <= 0
    requires Val(z.a[..], z.lo, z.lo + i) + Shl(num, i) == rhs
    modifies z.a
    ensures -1 <= hi <= 0
    ensures Val(z.a[..], z.lo, z.lo + i + 1) + Shl(hi, i + 1) == rhs + Shl(dx, i) - Shl(dy, i)
    ensures forall k | 0 <= k < z.a.Length && k != z.lo + i :: z.a[k] == old(z.a[k])
    ensures num == -1 && dx == dy == 0 ==> hi == -1 && z.a[z.lo + i] == B - 1
  {
    hide Shl, Val;
    ghost var before := Val(z.a[..], z.lo, z.lo + i);
    SmallFits(num + dx - dy);
    DnRange(num + dx - dy, -1, 1);
    var diff: DblSigned := num + dx - dy;
    SetDigit(z, i, BigLo(diff));
    hi := BigDn(diff);
    LoDn(diff);
    CarryStep(before, num, i, rhs, dx as int - dy, BigLo(diff), hi);
    ShlAdd(dx as int - dy, dy, i);
    if num == -1 && dx == dy == 0 { DnRange(-1, -1, 0); }
  }

  /** The loop over the digits that both operands have. */
  method SubOverlap(z: Span, x: Span, y: Span, n: nat, borrow: bool) returns (num: DblSigned)
    requires z.Ok() && x.Ok() && y.Ok()
    requires n <= x.Len() && n <= y.Len() && n <= z.Len()
    requires Readable(z, x) && Readable(z, y)
    modifies z.a
    ensures -1 <= num <= 0
    ensures Val(z.a[..], z.lo, z.lo + n) + Shl(num, n)
         == Pre(old(x.Snap()), n) - Pre(old(y.Snap()), n) - Bit(borrow)
    ensures Frame(z.Take(n))
  {
    hide Shl, Val, Pre, Pw;
    ghost var X, Y := x.Snap(), y.Snap();
    SmallFits(-1); SmallFits(0);
    num := if borrow then -1 else 0;
    var i := 0;
    PreZero(X); PreZero(Y); ShlUnit(num);
    ValEmpty(z.a[..], z.lo);
    while i < n
      invariant 0 <= i <= n && -1 <= num <= 0
      invariant Val(z.a[..], z.lo, z.lo + i) + Shl(num, i) == Pre(X, i) - Pre(Y, i) - Bit(borrow)
      invariant Frame(z.Take(i))
    {
      assert x.a[x.lo + i] == Dig(X, i) && y.a[y.lo + i] == Dig(Y, i);
      PreStep(X, i); PreStep(Y, i);
      num := SubStep(z, i, num, x.a[x.lo + i], y.a[y.lo + i], Pre(X, i) - Pre(Y, i) - Bit(borrow));
      i := i + 1;
    }
  }

  /** The loop that borrows from the digits of x beyond y, up to the first borrow of 0. */
  method SubBorrow(z: Span, x: Span, i0: nat, num0: DblSigned, ghost X: Run, ghost rhs: int)
    returns (i: nat, num: DblSigned)
    requires z.Ok() && x.Ok() && Readable(z, x)
    requires i0 <= X.Len() == x.Len() <= z.Len() && -1 <= num0 <= 0
    requires TailIs(x, i0, X)
    requires Val(z.a[..], z.lo, z.lo + i0) + Shl(num0, i0) == rhs + Pre(X, i0)
    modifies z.a
    ensures i0 <= i <= X.Len() && -1 <= num <= 0 && (num == 0 || i == X.Len())
    ensures Val(z.a[..], z.lo, z.lo + i) + Shl(num, i) == rhs + Pre(X, i)
    ensures Frame(z.Take(i)) && TailIs(x, i, X)
  {
    hide Shl, Val, Pre, Pw;
    i, num := i0, num0;
    while i < x.Len() && num != 0
      invariant i0 <= i <= X.Len() && -1 <= num <= 0
      invariant Val(z.a[..], z.lo, z.lo + i) + Shl(num, i) == rhs + Pre(X, i)
      invariant Frame(z.Take(i))
    {
      PreStep(X, i); ShlZero(i);
      num := SubStep(z, i, num, x.a[x.lo + i], (BPositive(); 0), rhs + Pre(X, i));
      i := i + 1;
    }
  }

  /** The loop that subtracts the digits of y beyond x from zero. */
  method SubRest(z: Span, y: Span, i0: nat, num0: DblSigned, ghost Y: Run, ghost rhs: int)
    returns (num: DblSigned)
    requires z.Ok() && y.Ok() && Readable(z, y)
    requires i0 <= Y.Len() == y.Len() <= z.Len() && -1 <= num0 <= 0
    requires TailIs(y, i0, Y)
    requires Val(z.a[..], z.lo, z.lo + i0) + Shl(num0, i0) == rhs - Pre(Y, i0)
    modifies z.a
    ensures -1 <= num <= 0
    ensures Val(z.a[..], z.lo, z.lo + Y.Len()) + Shl(num, Y.Len()) == rhs - Y.Num()
    ensures Frame(z.Take(Y.Len()))
  {
    hide Shl, Val, Pre, Pw;
    var i := i0;
    num := num0;
    while i < y.Len()
      invariant i0 <= i <= Y.Len() && -1 <= num <= 0
      invariant Val(z.a[..], z.lo, z.lo + i) + Shl(num, i) == rhs - Pre(Y, i)
      invariant Frame(z.Take(i))
    {
      PreStep(Y, i); ShlZero(i);
      num := SubStep(z, i, num, (BPositive(); 0), y.a[y.lo + i], rhs - Pre(Y, i));
      i := i + 1;
    }
    PreAll(Y, i);
  }

  /** A borrow out of the operands fills the rest of z with BDIGMAX. */
  method FillMax(z: Span, i0: nat, ghost rhs: int)
    requires z.Ok() && i0 <= z.Len()
    requires Val(z.a[..], z.lo, z.lo + i0) + Shl(-1, i0) == rhs
    modifies z.a
    ensures z.Num() + Shl(-1, z.Len()) == rhs
    ensures Frame(z)
  {
    hide Shl, Val, Pw;
    var i := i0;
    BPositive();
    while i < z.Len()
      invariant i0 <= i <= z.Len()
      invariant Val(z.a[..], z.lo, z.lo + i) + Shl(-1, i) == rhs
      invariant Frame(z.Take(i))
    {
      SetDigit(z, i, B - 1);
      ShlAdd(B - 1, 1, i); ShlNext(1, i); ShlAdd(-1, 1, i); ShlAdd(-1, 1, i + 1); ShlZero(i); ShlZero(i + 1);
      i := i + 1;
    }
  }

  /** z = x - y - borrow, modulo the size of z; the result is the borrow out. */
  method BarySubb(z: Span, x: Span, y: Span, borrow: bool) returns (b: nat)
    requires z.Ok() && x.Ok() && y.Ok()
    requires x.Len() <= z.Len() && y.Len() <= z.Len()
    requires Readable(z, x) && Readable(z, y)
    modifies z.a
    ensures b <= 1
    ensures z.Num() - Shl(b, z.Len()) == old(x.Num()) - old(y.Num()) - Bit(borrow)
    ensures Frame(z)
  {
    if y.Len() <= x.Len() {
      b := SubLong(z, x, y, borrow);
    } else {
      b := SubShort(z, x, y, borrow);
    }
  }

  method SubLong(z: Span, x: Span, y: Span, borrow: bool) returns (b: nat)
    requires z.Ok() && x.Ok() && y.Ok()
    requires x.Len() <= z.Len() && y.Len() <= z.Len()
    requires Readable(z, x) && Readable(z, y)
    requires y.Len() <= x.Len()
    modifies z.a
    ensures b <= 1
    ensures z.Num() - Shl(b, z.Len()) == old(x.Num()) - old(y.Num()) - Bit(borrow)
    ensures Frame(z)
  {
    hide Shl, Val, Pre, Pw;
    ghost var X, Y := x.Snap(), y.Snap();
    var num := SubOverlap(z, x, y, y.Len(), borrow);
    var i := y.Len();
    PreAll(Y, i);
    i, num := SubBorrow(z, x, i, num, X, -(Y.Num() + Bit(borrow)));
    if num == 0 {
      ShlZero(i); ShlZero(z.Len());
      CopyRest(z, x, i, X, -(Y.Num() + Bit(borrow)));
      return 0;
    }
    PreAll(X, i);
    FillMax(z, i, X.Num() - Y.Num() - Bit(borrow));
    ShlAdd(-1, 1, z.Len()); ShlZero(z.Len());
    return 1;
  }

  method SubShort(z: Span, x: Span, y: Span, borrow: bool) returns (b: nat)
    requires z.Ok() && x.Ok() && y.Ok()
    requires x.Len() <= z.Len() && y.Len() <= z.Len()
    requires Readable(z, x) && Readable(z, y)
    requires x.Len() < y.Len()
    modifies z.a
    ensures b <= 1
    ensures z.Num() - Shl(b, z.Len()) == old(x.Num()) - old(y.Num()) - Bit(borrow)
    ensures Frame(z)
  {
    hide Shl, Val, Pre, Pw;
    ghost var X, Y := x.Snap(), y.Snap();
    var num := SubOverlap(z, x, y, x.Len(), borrow);
    PreAll(X, x.Len());
    num := SubRest(z, y, x.Len(), num, Y, X.Num() - Bit(borrow));
    if num == 0 {
      ShlZero(y.Len()); ShlZero(z.Len());
      PreAll(X, y.Len());
      CopyRest(z, x, y.Len(), X, -(Y.Num() + Bit(borrow)));
      return 0;
    }
    FillMax(z, y.Len(), X.Num() - Y.Num() - Bit(borrow));
    ShlAdd(-1, 1, z.Len()); ShlZero(z.Len());
    return 1;
  }

  /** bary_add */
  method BaryAdd(z: Span, x: Span, y: Span) returns (c: nat)
    requires z.Ok() && x.Ok() && y.Ok()
    requires x.Len() <= z.Len() && y.Len() <= z.Len()
    requires Readable(z, x) && Readable(z, y)
    modifies z.a
    ensures c <= 1
    ensures z.Num() + Shl(c, z.Len()) == old(x.Num()) + old(y.Num())
    ensures Frame(z)
  {
    c := BaryAddc(z, x, y, false);
  }

  /** bary_sub */
  method BarySub(z: Span, x: Span, y: Span) returns (b: nat)
    requires z.Ok() && x.Ok() && y.Ok()
    requires x.Len() <= z.Len() && y.Len() <= z.Len()
    requires Readable(z, x) && Readable(z, y)
    modifies z.a
    ensures b <= 1
    ensures z.Num() - Shl(b, z.Len()) == old(x.Num()) - old(y.Num())
    ensures Frame(z)
  {
    b := BarySubb(z, x, y, false);
  }

  /** bary_sub_one: subtract an empty operand with a borrow. */
  method BarySubOne(z: Span) returns (b: nat)
    requires z.Ok()
    modifies z.a
    ensures b <= 1
    ensures z.Num() - Shl(b, z.Len()) == old(z.Num()) - 1
    ensures Frame(z)
  {
    hide Shl;
    ValEmpty(z.a[..], z.lo);
    b := BarySubb(z, z, Span(z.a, z.lo, z.lo), true);
  }

  /** bary_add_one: stops at the first digit that does not wrap. */
  method BaryAddOne(z: Span) returns (c: nat)
    requires z.Ok()
    modifies z.a
    ensures c <= 1
    ensures z.Num() + Shl(c, z.Len()) == old(z.Num()) + 1
    ensures Frame(z)
  {
    hide Shl, Val, Pre, Pw;
    ghost var Z := z.Snap();
    var i := 0;
    PreZero(Z); ShlUnit(1);
    ValEmpty(z.a[..], z.lo);
    while i < z.Len()
      invariant 0 <= i <= z.Len()
      invariant Val(z.a[..], z.lo, z.lo + i) + Shl(1, i) == 1 + Pre(Z, i)
      invariant Frame(z.Take(i))
    {
      PreStep(Z, i); ShlZero(i);
      BPositive();
      SmallFits(1);
      var hi := AddStep(z, i, 1, z.a[z.lo + i], 0, 1 + Pre(Z, i));
      i := i + 1;
      if z.a[z.lo + i - 1] != 0 {
        ShlZero(i); ShlZero(z.Len());
        SpliceValue(z, i, Z, 1);
        return 0;
      }
    }
    PreAll(Z, i);
    return 1;
  }

  /** bary_2comp: negate in place, modulo the size of z; the result says whether z was 0. */
  method Bary2comp(z: Span) returns (zero: nat)
    requires z.Ok()
    modifies z.a
    ensures zero <= 1 && (zero == 1 <==> old(z.Num()) == 0)
    ensures z.Num() == if zero == 1 then 0 else Shl(1, z.Len()) - old(z.Num())
    ensures Frame(z)
  {
    hide Shl, Val, Pre, Pw;
    ghost var Z := z.Snap();
    var i := 0;
    BPositive();
    while i < z.Len() && z.a[z.lo + i] == 0
      invariant 0 <= i <= z.Len()
      invariant forall k | z.lo <= k < z.lo + i :: Z.s[k] == 0
    {
      i := i + 1;
    }
    if i == z.Len() {
      ValZero(Z.s, Z.lo, Z.hi);
      return 1;
    }
    if Z.Num() == 0 { ZeroVal(Z.s, Z.lo, Z.hi); }
    ghost var i0 := i;
    Complement1(z, i, Z);
    i := i + 1;
    while i < z.Len()
      invariant i0 < i <= z.Len()
      invariant Val(z.a[..], z.lo, z.lo + i) == Shl(1, i) - Pre(Z, i)
      invariant Frame(z.Take(i))
    {
      PreStep(Z, i);
      SetDigit(z, i, B - 1 - z.a[z.lo + i]);
      ShlAdd(B - 1 - Dig(Z, i), Dig(Z, i), i); ShlAdd(B - 1, 1, i); ShlNext(1, i);
      i := i + 1;
    }
    PreAll(Z, i);
    return 0;
  }

  /** The lowest non-zero digit of the complement. */
  method Complement1(z: Span, i: nat, ghost Z: Run)
    requires z.Ok() && i < z.Len() && Z == z.Snap()
    requires Dig(Z, i) != 0 && forall k | z.lo <= k < z.lo + i :: Z.s[k] == 0
    modifies z.a
    ensures Val(z.a[..], z.lo, z.lo + i + 1) == Shl(1, i + 1) - Pre(Z, i + 1)
    ensures Frame(z.Take(i + 1)) && TailIs(z, i + 1, Z)
  {
    hide Shl, Val, Pre, Pw;
    BPositive();
    ValZero(Z.s, z.lo, z.lo + i);
    PreVal(Z, i);
    PreStep(Z, i);
    SetDigit(z, i, B - z.a[z.lo + i]);
    ShlAdd(B - Dig(Z, i), Dig(Z, i), i); ShlNext(1, i);
  }
}
