/** The in-place recombination steps of bary_mul_karatsuba, between its recursive calls. */
module KaratsubaSteps {
  import opened Digits
  import opened BaryAdd

  /** MEMCPY between disjoint runs. */
  method CopyDigits(z: Span, x: Span)
    requires z.Ok() && x.Ok() && z.Len() == x.Len() && Disjoint(z, x)
    modifies z.a
    ensures forall k | z.lo <= k < z.hi :: z.a[k] == old(x.a[k - z.lo + x.lo])
    ensures z.Num() == old(x.Num())
    ensures Frame(z)
  {
    var i := z.lo;
    while i < z.hi
      invariant z.lo <= i <= z.hi
      invariant forall k | z.lo <= k < i :: z.a[k] == old(x.a[k - z.lo + x.lo])
      invariant Frame(z)
    {
      z.a[i] := x.a[i - z.lo + x.lo];
      i := i + 1;
    }
    ValSame(z.a[..], z.lo, old(x.a[..]), x.lo, z.Len());
  }

  /** wds += zds0, zds2 += zds1 + carry1, zds1 += wds: with x0*y0 in zds0,zds1 and the halves of the
      middle product in wds and zds2. */
  method FoldLow(z: Span, n: nat, w: Span) returns (c1: nat, c2: nat)
    requires z.Ok() && w.Ok() && 3 * n <= z.Len() && w.Len() == n && z.a != w.a
    modifies z.a, w.a
    ensures c1 <= 1 && c2 <= 1
    ensures w.Num() + Shl(z.Sub(2 * n, 3 * n).Num(), n) + Shl(c1, 2 * n)
         == old(w.Num()) + Shl(old(z.Sub(2 * n, 3 * n).Num()), n) + old(z.Sub(0, n).Num()) + Shl(old(z.Sub(n, 2 * n).Num()), n)
    ensures z.Sub(n, 2 * n).Num() + Shl(c2, n) == old(z.Sub(n, 2 * n).Num()) + w.Num()
    ensures Frame(z.Sub(n, 3 * n)) && Frame(w)
  {
    hide Shl, Val, Pw;
    var z0, z1, z2 := z.Sub(0, n), z.Sub(n, 2 * n), z.Sub(2 * n, 3 * n);
    ghost var a0, a1, l, h := z0.Num(), z1.Num(), w.Num(), z2.Num();
    var c := BaryAdd.BaryAdd(w, w, z0);
    c1 := BaryAddc(z2, z2, z1, c != 0);
    Kept(old(z1.a[..]), z1.a[..], z1.lo, z1.hi);
    label L:
    c2 := BaryAdd.BaryAdd(z1, z1, w);
    Kept(old@L(z2.a[..]), z2.a[..], z2.lo, z2.hi);
    ShlAdd(z2.Num(), Shl(c1, n), n); ShlShl(c1, n, n);
    ShlAdd(h + a1, c, n); ShlAdd(h, a1, n);
  }

  /** zds1 += lo(x1*y1), zds2 += hi(x1*y1) + carry3: with x1*y1 in zds2,zds3 and z1 the span zds1. */
  method FoldHigh(z: Span, n: nat, e: nat) returns (c3: nat)
    requires z.Ok() && 3 * n <= e <= z.Len() && e <= 4 * n
    modifies z.a
    ensures c3 <= 1
    ensures z.Sub(n, 2 * n).Num() + Shl(z.Sub(2 * n, 3 * n).Num(), n) + Shl(c3, 2 * n)
         == old(z.Sub(n, 2 * n).Num()) + old(z.Sub(2 * n, 3 * n).Num()) + Shl(old(z.Sub(2 * n, 3 * n).Num()), n)
            + Shl(old(z.Sub(3 * n, e).Num()), n)
    ensures Frame(z.Sub(n, 3 * n))
  {
    hide Shl, Val, Pw;
    var z1, z2, z3 := z.Sub(n, 2 * n), z.Sub(2 * n, 3 * n), z.Sub(3 * n, e);
    ghost var c0, m := z2.Num(), z3.Num();
    var c := BaryAdd.BaryAdd(z1, z1, z2);
    Kept(old(z2.a[..]), z2.a[..], z2.lo, z2.hi);
    Kept(old(z3.a[..]), z3.a[..], z3.lo, z3.hi);
    label L:
    c3 := BaryAddc(z2, z2, z3, c != 0);
    Kept(old@L(z1.a[..]), z1.a[..], z1.lo, z1.hi);
    ShlAdd(z2.Num(), Shl(c3, n), n); ShlShl(c3, n, n);
    ShlAdd(c0 + m, c, n); ShlAdd(c0, m, n);
  }

  /** zds2,zds3 += wds + carry2, then zds3 += k, each modulo the room; q counts what is dropped. */
  method AddMiddle(z: Span, n: nat, w: Span, c2: nat, k: int) returns (ghost q: int)
    requires z.Ok() && w.Ok() && n < z.Len() && w.Len() == n && z.a != w.a
    requires c2 <= 1 && -1 <= k <= 2
    modifies z.a
    ensures z.Num() == old(z.Num()) + w.Num() + c2 + Shl(k, n) + Shl(q, z.Len())
    ensures Frame(z)
  {
    hide Shl, Val, Pw;
    var c := BaryAdd.BaryAdd(z, z, w);
    q := -(c as int);
    ShlAdd(c, q, z.Len()); ShlZero(z.Len());
    if c2 != 0 {
      var d := BaryAddOne(z);
      ShlAdd(q, -(d as int), z.Len()); ShlAdd(d, -(d as int), z.Len());
      q := q - d;
    }
    ghost var q1 := q;
    label L:
    q := AddTop(z, n, k);
    ShlAdd(q1, q, z.Len());
    q := q1 + q;
  }

  /** zds3 += k, where k is -1, 0, 1 or 2. */
  method AddTop(z: Span, n: nat, k: int) returns (ghost q: int)
    requires z.Ok() && n < z.Len()
    requires -1 <= k <= 2
    modifies z.a
    ensures z.Num() == old(z.Num()) + Shl(k, n) + Shl(q, z.Len())
    ensures Frame(z)
  {
    hide Shl, Val, Pw;
    var t := z.Drop(n);
    ghost var m := z.Len() - n;
    ValSplit(z.a[..], z.lo, z.lo + n, z.hi);
    BPositive();
    if k < 0 {
      q := BarySubOne(t);
    } else if k > 0 {
      var c := new Digit[1](_ => k);
      ValSingle(c[..], 0);
      var e := BaryAdd.BaryAdd(t, t, Span(c, 0, 1));
      q := -(e as int);
      ShlAdd(e, -(e as int), m);
    } else {
      q := 0;
    }
    ShlZero(m);
    Kept(old(z.a[..]), z.a[..], z.lo, z.lo + n);
    ValSplit(z.a[..], z.lo, z.lo + n, z.hi);
    assert t.Num() == old(t.Num()) + k + Shl(q, m);
    ShlAdd(old(t.Num()), k + Shl(q, m), n); ShlAdd(k, Shl(q, m), n); ShlShl(q, m, n);
  }

  /** Karatsuba's identity. */
  lemma MiddleTerm(P: int, x0: int, x1: int, y0: int, y1: int)
    ensures x0 * y0 + P * (x0 * y0 + x1 * y1 - (x0 - x1) * (y0 - y1)) + P * P * (x1 * y1) == (x0 + P * x1) * (y0 + P * y1)
  {
  }
}
