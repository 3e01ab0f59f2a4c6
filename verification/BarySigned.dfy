/** Sign and magnitude arithmetic on digit runs: the "if (bary_sub(...)) bary_2comp(...)" pattern
    of bary_mul_karatsuba and bary_mul_toom3. */
module BarySigned {
  import opened Digits
  import opened BaryAdd

  function Abs(v: int): nat
  {
    if v < 0 then -v else v
  }

  /** The number with sign flag p ("positive", meaning non-negative) and magnitude m. */
  function Signed(p: bool, m: int): int
  {
    if p then m else -m
  }

  /** z = |x - y|; the result says whether x < y. */
  method AbsSub(z: Span, x: Span, y: Span) returns (neg: bool)
    requires z.Ok() && x.Ok() && y.Ok()
    requires x.Len() <= z.Len() && y.Len() <= z.Len()
    requires Readable(z, x) && Readable(z, y)
    modifies z.a
    ensures z.Num() == Abs(old(x.Num()) - old(y.Num()))
    ensures neg <==> old(x.Num()) < old(y.Num())
    ensures Frame(z)
  {
    hide Shl, Val, Pw;
    ghost var d := x.Num() - y.Num();
    SpanBound(x, z.Len()); SpanBound(y, z.Len());
    var b := BarySub(z, x, y);
    ShlZero(z.Len()); ShlOne(z.Len());
    ValBound(z.a[..], z.lo, z.hi);
    neg := b != 0;
    if neg {
      var zero := Bary2comp(z);
    }
  }

  lemma SpanBound(x: Span, n: nat)
    requires x.Ok() && x.Len() <= n
    ensures x.Num() < Pw(n)
  {
    ValBound(x.a[..], x.lo, x.hi);
    PwMonotone(x.Len(), n);
  }

  lemma ShlOne(k: nat)
    ensures Shl(1, k) == Pw(k)
  {
  }

  /** Signed subtraction: z = x - y for signed x and y; the result is the sign of z. */
  method SignedSub(z: Span, x: Span, xp: bool, y: Span, yp: bool) returns (zp: bool)
    requires z.Ok() && x.Ok() && y.Ok()
    requires x.Len() <= z.Len() && y.Len() <= z.Len()
    requires Readable(z, x) && Readable(z, y)
    requires x.Num() + y.Num() < Pw(z.Len())
    modifies z.a
    ensures Signed(zp, z.Num()) == Signed(xp, old(x.Num())) - Signed(yp, old(y.Num()))
    ensures Frame(z)
  {
    hide Shl, Val, Pw;
    ghost var v := x.Num() + y.Num();
    zp := xp;
    if xp == yp {
      var neg := AbsSub(z, x, y);
      if neg { zp := !zp; }
    } else {
      var c := BaryAdd.BaryAdd(z, x, y);
      NoCarry(z.Num(), c, z.Len(), v);
    }
  }

  lemma NoCarry(z: nat, c: nat, n: nat, v: int)
    requires z + Shl(c, n) == v < Pw(n)
    ensures c == 0 && z == v
  {
    if c >= 1 { MulLe(1, c, Pw(n)); }
  }
}
