/** Reading an integer from a buffer of words, bit by bit (bignum.c, the generic part of bary_unpack_internal). */
module IntegerUnpack {
  import opened Digits
  import opened BaryAdd
  import opened BarySigned
  import opened BaryShift
  import opened BaryMulPre
  import opened BaryDiv
  import opened BigLogic
  import opened PackFormat
  import opened IntegerPack

  /** The bits of a byte that belong to the number. */
  function Bits(f: Format, s: seq<int>, base: int, k: nat): (b: int)
    requires 0 <= base && k < f.wordsize && base + f.wordsize <= |s|
    ensures 0 <= b < Pow2(f.Width(k))
  {
    s[base + f.Place(k)] % Pow2(f.Width(k))
  }

  function WordRead(f: Format, s: seq<int>, base: int, k: nat): nat
    requires 0 <= base && k <= f.wordsize && base + f.wordsize <= |s|
  {
    if k == 0 then 0 else
      MulLe(0, Bits(f, s, base, k - 1), Pow2(f.Offset(k - 1)));
      WordRead(f, s, base, k - 1) + Pow2(f.Offset(k - 1)) * Bits(f, s, base, k - 1)
  }

  function BufRead(f: Format, s: seq<int>, w: nat): nat
    requires w <= f.numwords && |s| == f.Size()
  {
    if w == 0 then 0 else
      BaseBounds(f, w - 1);
      MulLe(0, WordRead(f, s, f.Base(w - 1), f.wordsize), Weight(f, w - 1));
      BufRead(f, s, w - 1) + Weight(f, w - 1) * WordRead(f, s, f.Base(w - 1), f.wordsize)
  }

  /** What is read is what was written. */
  lemma {:induction false} WordReadFits(f: Format, s: seq<int>, base: int, k: nat)
    requires 0 <= base && k <= f.wordsize && base + f.wordsize <= |s| && WordFits(f, s, base)
    ensures WordRead(f, s, base, k) == WordPre(f, s, base, k)
  {
    hide Format.Width;
    if k > 0 {
      WordReadFits(f, s, base, k - 1);
      ByteRange(f, s, base, k - 1);
      SmallMod(s[base + f.Place(k - 1)], Pow2(f.Width(k - 1)));
    }
  }

  lemma {:induction false} BufReadFits(f: Format, s: seq<int>, w: nat)
    requires Fits(f, s) && w <= f.numwords
    ensures BufRead(f, s, w) == BufPre(f, s, w)
  {
    hide WordRead, WordPre, WordFits, Format.Base;
    if w > 0 {
      BufReadFits(f, s, w - 1);
      BaseBounds(f, w - 1);
      assert WordAtFits(f, s, w - 1);
      WordReadFits(f, s, f.Base(w - 1), f.wordsize);
    }
  }

  /** The bits pushed so far: those in the digits below i, and nb more in dd. */
  ghost predicate Pushed(z: seq<Digit>, i: nat, dd: nat, nb: nat, v: int, e: nat)
  {
    && i <= |z| && nb < BITSPERDIG && dd < Pow2(nb)
    && Val(z, 0, i) + Shl(dd, i) == v
    && e == BITSPERDIG * i + nb
  }

  /** integer_unpack_push_bits */
  method PushBits(zds: array<Digit>, data: nat, n: nat, i: nat, dd: nat, nb: nat, ghost v: int, ghost e: nat)
    returns (i': nat, dd': nat, nb': nat)
    requires Pushed(zds[..], i, dd, nb, v, e) && data < Pow2(n) && n <= 8
    requires e + n <= BITSPERDIG * zds.Length
    modifies zds
    ensures Pushed(zds[..], i', dd', nb', v + Mul(Pow2(e), data), e + n)
  {
    hide Val, Pow2, Shl, Mul;
    i', dd', nb' := i, dd + Pow2(nb) * data, nb + n;
    MulLe(0, data, Pow2(nb));
    PushAlgebra(dd, data, i, nb, n, e);
    if BITSPERDIG <= nb' {
      RoomForDigit(i, zds.Length, nb', e + n);
      StoreLow(zds, i', dd');
      BitsLeft(dd', nb');
      dd', nb' := BigDn(dd'), nb' - BITSPERDIG;
      i' := i' + 1;
    }
  }

  lemma RoomForDigit(i: nat, n: nat, nb: nat, e: nat)
    requires e == BITSPERDIG * i + nb && BITSPERDIG <= nb && e <= BITSPERDIG * n
    ensures i < n
  {
    if n <= i { MulLe(n, i, BITSPERDIG); }
  }

  lemma PushAlgebra(dd: nat, data: nat, i: nat, nb: nat, n: nat, e: nat)
    requires dd < Pow2(nb) && data < Pow2(n) && e == BITSPERDIG * i + nb && 0 <= Pow2(nb) * data
    ensures dd + Pow2(nb) * data < Pow2(nb + n)
    ensures Shl(dd + Pow2(nb) * data, i) == Shl(dd, i) + Mul(Pow2(e), data)
  {
    hide Pow2;
    Pow2Add(nb, n);
    PartBound(dd, data, Pow2(nb), Pow2(n));
    PwIsPow2(i);
    Pow2Add(BITSPERDIG * i, nb);
    ShlAlgebra(dd, Pow2(nb), data, Pw(i));
  }

  lemma ShlAlgebra(d: int, p: int, b: int, w: int)
    ensures (d + p * b) * w == d * w + (w * p) * b
  {
    assert (d + p * b) * w == d * w + p * b * w;
    assert p * b * w == (w * p) * b;
  }

  /** A digit is complete. */
  method StoreLow(zds: array<Digit>, i: nat, dd: nat)
    requires i < zds.Length
    modifies zds
    ensures Val(zds[..], 0, i + 1) + Shl(BigDn(dd), i + 1) == old(Val(zds[..], 0, i)) + Shl(dd, i)
  {
    hide Val, Shl, BigLo, BigDn;
    SetDigit(Span(zds, 0, zds.Length), i, BigLo(dd));
    LoDn(dd);
    ShlAdd(BigLo(dd), B * BigDn(dd), i);
    ShlNext(BigDn(dd), i);
  }

  lemma BitsLeft(dd: nat, nb: nat)
    requires dd < Pow2(nb) && BITSPERDIG <= nb
    ensures 0 <= BigDn(dd) < Pow2(nb - BITSPERDIG)
  {
    hide BigDn;
    Pow2Add(nb - BITSPERDIG, BITSPERDIG);
    DnRange(dd, 0, Pow2(nb - BITSPERDIG));
  }

  lemma {:induction false} OffsetMonotone(f: Format, j: nat, k: nat)
    requires j <= k
    ensures f.Offset(j) <= f.Offset(k)
  {
    if j < k { OffsetMonotone(f, j, k - 1); }
  }

  /** The bits of one word. */
  method UnpackWord(f: Format, s: seq<int>, base: nat, zds: array<Digit>, i: nat, dd: nat, nb: nat, ghost v: int, ghost e: nat)
    returns (i': nat, dd': nat, nb': nat)
    requires f.Ok() && base + f.wordsize <= |s| && Pushed(zds[..], i, dd, nb, v, e)
    requires e + f.WordBits() <= BITSPERDIG * zds.Length
    modifies zds
    ensures Pushed(zds[..], i', dd', nb', v + Mul(Pow2(e), WordRead(f, s, base, f.wordsize)), e + f.WordBits())
  {
    hide Pow2, Mul, Pushed, WordRead, Format.Width, Format.Place;
    i', dd', nb' := i, dd, nb;
    var k := 0;
    WordReadBegins(f, s, base, e);
    while k < f.wordsize
      invariant 0 <= k <= f.wordsize
      invariant Pushed(zds[..], i', dd', nb', v + Mul(Pow2(e), WordRead(f, s, base, k)), e + f.Offset(k))
    {
      WidthBound(f, k);
      OffsetMonotone(f, k + 1, f.wordsize);
      i', dd', nb' := PushBits(zds, Bits(f, s, base, k), f.Width(k), i', dd', nb',
        v + Mul(Pow2(e), WordRead(f, s, base, k)), e + f.Offset(k));
      WordReadStep(f, s, base, k, e);
      k := k + 1;
    }
  }

  lemma WordReadBegins(f: Format, s: seq<int>, base: nat, e: nat)
    requires base + f.wordsize <= |s|
    ensures Mul(Pow2(e), WordRead(f, s, base, 0)) == 0 && f.Offset(0) == 0
  {
  }

  lemma WordReadStep(f: Format, s: seq<int>, base: nat, k: nat, e: nat)
    requires k < f.wordsize && base + f.wordsize <= |s|
    ensures Mul(Pow2(e), WordRead(f, s, base, k + 1))
         == Mul(Pow2(e), WordRead(f, s, base, k)) + Mul(Pow2(e + f.Offset(k)), Bits(f, s, base, k))
  {
    hide Pow2, Bits;
    Pow2Add(e, f.Offset(k));
    DistributeShift(Pow2(e), WordRead(f, s, base, k), Pow2(f.Offset(k)), Bits(f, s, base, k));
  }

  lemma DistributeShift(p: int, a: int, q: int, b: int)
    ensures p * (a + q * b) == p * a + (p * q) * b
  {
    assert p * (q * b) == (p * q) * b;
  }

  /** All words. */
  method UnpackWords(f: Format, s: seq<int>, zds: array<Digit>)
    requires f.Ok() && |s| == f.Size() && f.WordBits() * f.numwords <= BITSPERDIG * zds.Length
    modifies zds
    ensures Val(zds[..], 0, zds.Length) == BufRead(f, s, f.numwords)
  {
    hide Pow2, Mul, Pushed, WordRead, BufRead, Weight, Format.Base, Format.Offset, Val;
    var i, dd, nb := 0, 0, 0;
    PushBegins(zds[..]);
    BufReadBegins(f, s);
    var w := 0;
    while w < f.numwords
      invariant 0 <= w <= f.numwords
      invariant Pushed(zds[..], i, dd, nb, BufRead(f, s, w), f.WordBits() * w)
    {
      BaseBounds(f, w);
      BitsBound(f.WordBits(), w, f.numwords);
      i, dd, nb := UnpackWord(f, s, f.Base(w), zds, i, dd, nb, BufRead(f, s, w), f.WordBits() * w);
      BufReadStep(f, s, w);
      w := w + 1;
    }
    Finish(zds, i, dd, nb, BufRead(f, s, w), f.WordBits() * w);
  }

  lemma PushBegins(z: seq<Digit>)
    ensures Pushed(z, 0, 0, 0, 0, 0)
  {
    ShlZero(0);
  }

  lemma BufReadBegins(f: Format, s: seq<int>)
    requires |s| == f.Size()
    ensures BufRead(f, s, 0) == 0 && f.WordBits() * 0 == 0
  {
  }

  lemma BitsBound(b: nat, w: nat, n: nat)
    requires w < n
    ensures b * w + b == b * (w + 1) <= b * n
  {
    MulLe(w + 1, n, b);
  }

  lemma BufReadStep(f: Format, s: seq<int>, w: nat)
    requires w < f.numwords && |s| == f.Size() && 0 <= f.Base(w) && f.Base(w) + f.wordsize <= |s|
    ensures BufRead(f, s, w + 1) == BufRead(f, s, w) + Mul(Pow2(f.WordBits() * w), WordRead(f, s, f.Base(w), f.wordsize))
  {
    hide WordRead, Weight;
    WeightIs(f, w);
  }

  /** The last digit, if it is not zero, and zeros. */
  method Finish(zds: array<Digit>, i: nat, dd: nat, nb: nat, ghost v: int, ghost e: nat)
    requires Pushed(zds[..], i, dd, nb, v, e) && e <= BITSPERDIG * zds.Length
    modifies zds
    ensures Val(zds[..], 0, zds.Length) == v
  {
    hide Val, Shl, Pow2;
    var z := Span(zds, 0, zds.Length);
    var n := i;
    Pow2Strict(nb, BITSPERDIG);
    if dd != 0 {
      LastDigitRoom(i, zds.Length, dd, nb, e);
      SetDigit(z, i, dd);
      n := i + 1;
    } else {
      ShlZero(i);
    }
    ZeroAbove(z, n);
  }

  lemma LastDigitRoom(i: nat, n: nat, dd: nat, nb: nat, e: nat)
    requires e == BITSPERDIG * i + nb && e <= BITSPERDIG * n && 0 < dd < Pow2(nb)
    ensures i < n
  {
    if n <= i { MulLe(n, i, BITSPERDIG); }
  }

  /** integer_unpack_num_bdigits_small: how many digits, and how many bits too many they have. */
  function NumBdigits(f: Format): (r: (nat, nat))
    requires f.Ok()
    ensures r.0 * BITSPERDIG == f.WordBits() * f.numwords + r.1 && r.1 < BITSPERDIG
  {
    WordBitsIs(f);
    var bits := (f.wordsize * 8 - f.nails) * f.numwords;
    DivMod(bits + BITSPERDIG - 1, BITSPERDIG);
    var n := (bits + BITSPERDIG - 1) / BITSPERDIG;
    RoundedUp(bits, n, (bits + BITSPERDIG - 1) % BITSPERDIG);
    (n, n * BITSPERDIG - bits)
  }

  lemma RoundedUp(bits: int, n: int, r: int)
    requires 0 <= bits && bits + BITSPERDIG - 1 == BITSPERDIG * n + r && 0 <= r < BITSPERDIG
    ensures 0 <= n && 0 <= n * BITSPERDIG - bits < BITSPERDIG
  {
    if n < 0 { MulLe(n, -1, BITSPERDIG); }
  }

  /** The integer that u stands for, of which m numbers can be told apart. */
  function Interpreted(u: nat, m: nat, negative: bool, twocomp: bool): int
  {
    if !twocomp then (if negative then -(u as int) else u)
    else if negative || (1 < m && m <= 2 * u) then u - m
    else u
  }

  lemma {:induction false} WordReadBound(f: Format, s: seq<int>, base: int, k: nat)
    requires 0 <= base && k <= f.wordsize && base + f.wordsize <= |s|
    ensures WordRead(f, s, base, k) < Pow2(f.Offset(k))
  {
    hide Bits, Format.Width, Pow2;
    if k == 0 {
      Pow2Zero();
    } else {
      WordReadBound(f, s, base, k - 1);
      Pow2Add(f.Offset(k - 1), f.Width(k - 1));
      PartBound(WordRead(f, s, base, k - 1), Bits(f, s, base, k - 1), Pow2(f.Offset(k - 1)), Pow2(f.Width(k - 1)));
    }
  }

  lemma {:induction false} BufReadBound(f: Format, s: seq<int>, w: nat)
    requires w <= f.numwords && |s| == f.Size()
    ensures BufRead(f, s, w) < Weight(f, w)
  {
    hide WordRead, Format.Base;
    if w > 0 {
      BufReadBound(f, s, w - 1);
      BaseBounds(f, w - 1);
      WordReadBound(f, s, f.Base(w - 1), f.wordsize);
      PartBound(BufRead(f, s, w - 1), WordRead(f, s, f.Base(w - 1), f.wordsize), Weight(f, w - 1), Pow2(f.WordBits()));
    }
  }

  /** The digits hold u < m, where m is 2^nlp times less than what n digits can hold. */
  ghost predicate Padding(n: nat, nlp: nat, m: nat)
  {
    nlp < BITSPERDIG && (n == 0 ==> nlp == 0) && Mul(m, Pow2(nlp)) == Pw(n)
  }

  /** The digits above the top bits of u. */
  lemma PaddingSplit(n: nat, nlp: nat, m: nat)
    requires Padding(n, nlp, m) && 0 < n
    ensures m == Mul(Pow2(BITSPERDIG - nlp), Pw(n - 1)) && m == 2 * Mul(Pow2(BITSPERDIG - nlp - 1), Pw(n - 1))
    ensures Pow2(BITSPERDIG - nlp) <= B
  {
    hide Pw;
    PwNext(n - 1);
    Pow2Add(BITSPERDIG - nlp, nlp);
    Pow2Monotone(BITSPERDIG - nlp, BITSPERDIG);
    Cancel(m, Pow2(nlp), Pow2(BITSPERDIG - nlp), Pw(n - 1));
    var h, p := Pow2(BITSPERDIG - nlp - 1), Pw(n - 1);
    assert (2 * h) * p == 2 * (h * p);
  }

  lemma Cancel(m: int, a: int, b: int, p: int)
    requires 0 < a && m * a == (b * a) * p
    ensures m == b * p
  {
    assert (b * a) * p == (b * p) * a;
    if m < b * p { MulLe(m + 1, b * p, a); }
    if m > b * p { MulLe(b * p + 1, m, a); }
  }

  /** The top bit of u is that of its top digit. */
  lemma TopBit(z: Span, h: nat)
    requires z.Ok() && 0 < z.Len()
    ensures z.a[z.hi - 1] >= h <==> z.Num() >= Mul(h, Pw(z.Len() - 1))
  {
    hide Val, Pw;
    TopSplit(z.a[..], z.lo, z.hi);
    var t, p := z.a[z.hi - 1], Pw(z.Len() - 1);
    if t >= h { MulLe(h, t, p); } else { MulLe(t as int + 1, h, p); }
  }

  /** What bary_unpack_internal delivers of v: its magnitude in n digits, and a sign, where -2 says that the magnitude
      is a one above n zeros. */
  ghost predicate Delivers(v: int, sign: int, magnitude: nat, n: nat)
  {
    && (sign == 1 || sign == -1 || sign == -2) && (sign == -2 ==> magnitude == 0) && magnitude < Pw(n)
    && v == if sign == 1 then magnitude else if sign == -1 then -(magnitude as int) else -(Pw(n) as int)
  }

  /** The end of bary_unpack_internal: sign extension, and back to a magnitude; -2 says that it is 1 and then zeros. */
  method SignAndMagnitude(z: Span, nlp: nat, negative: bool, twocomp: bool, ghost m: nat) returns (sign: int)
    requires z.Ok() && Padding(z.Len(), nlp, m) && z.Num() < m
    modifies z.a
    ensures Delivers(Interpreted(old(z.Num()), m, negative, twocomp), sign, z.Num(), z.Len())
    ensures Frame(z)
  {
    hide Val, Shl, Pw, Pow2, Mul;
    var n := z.Len();
    SpanBound(z, n);
    if !twocomp { return if negative then -1 else 1; }
    ShlOne(n);
    Pow2Zero();
    MulDef(m, 1);
    if n == 0 {
      ValEmpty(z.a[..], z.lo);
      PwZero();
      return if negative then -2 else 1;
    }
    PaddingSplit(n, nlp, m);
    TopBit(z, Pow2(BITSPERDIG - nlp - 1));
    SmallModulus(m, n, nlp);
    var top := z.a[z.hi - 1] >= Pow2(BITSPERDIG - nlp - 1);
    if negative || top {
      if nlp != 0 {
        FillTop(z, nlp, m);
      } else {
        var zero := BaryZeroP(z);
        if negative && zero { return -2; }
      }
      var carry := Bary2comp(z);
      SpanBound(z, n);
      return -1;
    }
    sign := 1;
  }

  lemma SmallModulus(m: nat, n: nat, nlp: nat)
    requires Padding(n, nlp, m) && 0 < n
    ensures 1 < m && (0 < nlp ==> m < Pw(n))
  {
    hide Pw, Pow2;
    if 0 < nlp {
      Pow2Strict(0, nlp);
      MulLe(2, Pow2(nlp), m);
    }
    PaddingSplit(n, nlp, m);
    Pow2Strict(0, BITSPERDIG - nlp);
    Pow2Zero();
    MulLe(2, Pow2(BITSPERDIG - nlp), Pw(n - 1));
  }

  /** bary_zero_p */
  method BaryZeroP(z: Span) returns (zero: bool)
    requires z.Ok()
    ensures zero <==> z.Num() == 0
  {
    hide Val;
    var i := z.lo;
    while i < z.hi && z.a[i] == 0
      invariant z.lo <= i <= z.hi && forall k | z.lo <= k < i :: z.a[k] == 0
    {
      i := i + 1;
    }
    zero := i == z.hi;
    if zero {
      ValZero(z.a[..], z.lo, z.hi);
    } else if z.Num() == 0 {
      ZeroVal(z.a[..], z.lo, z.hi);
    }
  }

  /** Ones in the bits that do not belong to u. */
  method FillTop(z: Span, nlp: nat, ghost m: nat)
    requires z.Ok() && 0 < z.Len() && Padding(z.Len(), nlp, m) && z.Num() < m
    modifies z.a
    ensures z.Num() == old(z.Num()) + Pw(z.Len()) - m
    ensures Frame(z)
  {
    hide Val, Shl, Pw, Pow2, Mul;
    var n := z.Len();
    var p, t := Pow2(BITSPERDIG - nlp), z.a[z.hi - 1];
    PaddingSplit(n, nlp, m);
    TopBit(z, p);
    TopSplit(z.a[..], z.lo, z.hi);
    FillAlgebraTop(t, p, Pw(n - 1));
    PwNext(n - 1);
    SetDigit(z, n - 1, t + (B - p));
    ShlIs(t + (B - p), n - 1);
  }

  lemma FillAlgebraTop(t: int, p: int, w: int)
    ensures (t + (B - p)) * w == t * w + B * w - Mul(p, w)
  {
  }

  /** The general way of bary_unpack_internal. */
  method UnpackBits(f: Format, s: seq<int>, negative: bool, twocomp: bool, zds: array<Digit>) returns (sign: int)
    requires f.Ok() && |s| == f.Size() && zds.Length == NumBdigits(f).0
    modifies zds
    ensures Delivers(Interpreted(BufRead(f, s, f.numwords), Modulus(f), negative, twocomp), sign,
                     Val(zds[..], 0, zds.Length), zds.Length)
  {
    hide Val, Shl, Pw, Pow2, Mul, BufRead, Weight, Padding, Delivers;
    var (n, nlp) := NumBdigits(f);
    assert f.WordBits() * f.numwords <= BITSPERDIG * n;
    UnpackWords(f, s, zds);
    FormatPadding(f, n, nlp);
    BufReadBound(f, s, f.numwords);
    sign := SignAndMagnitude(Span(zds, 0, n), nlp, negative, twocomp, Modulus(f));
  }

  /** The end of rb_integer_unpack: a magnitude that does not fit gets one digit more. */
  method Deliver(zds: array<Digit>, sign: int, ghost v: int) returns (x: Big)
    requires Delivers(v, sign, Val(zds[..], 0, zds.Length), zds.Length)
    ensures x.digits.Ok() && (x.digits.a == zds || fresh(x.digits.a))
    ensures Stands(v, x, zds.Length)
  {
    hide Val, Pw;
    var z := Span(zds, 0, zds.Length);
    if sign == -2 {
      var y := ExtendCarry(z);
      x := Big(y, true);
    } else {
      x := Big(z, sign < 0);
    }
  }

  /** x is v, in n digits, or one more if it has to be. */
  ghost predicate Stands(v: int, x: Big, n: nat)
    reads x.digits.a
  {
    x.digits.Ok() && x.Int() == v && x.digits.Len() == n + if v == -(Pw(n) as int) then 1 else 0
  }

  /** rb_integer_unpack without its shortcuts */
  method UnpackGeneric(f: Format, s: seq<int>, negative: bool, twocomp: bool) returns (x: Big)
    requires f.Ok() && |s| == f.Size()
    ensures x.digits.Ok() && fresh(x.digits.a)
    ensures Stands(Interpreted(BufRead(f, s, f.numwords), Modulus(f), negative, twocomp), x, NumBdigits(f).0)
  {
    hide Val, Pw, Pow2, BufRead, Weight, Delivers, Stands;
    BPositive();
    var (n, nlp) := NumBdigits(f);
    var zds := new Digit[n](_ => 0);
    var sign := UnpackBits(f, s, negative, twocomp, zds);
    x := Deliver(zds, sign, Interpreted(BufRead(f, s, f.numwords), Modulus(f), negative, twocomp));
  }

  lemma FormatPadding(f: Format, n: nat, nlp: nat)
    requires f.Ok() && n * BITSPERDIG == f.WordBits() * f.numwords + nlp && nlp < BITSPERDIG
    ensures Padding(n, nlp, Modulus(f))
  {
    hide Weight, Pow2, Pw;
    WordBitsIs(f);
    WeightIs(f, f.numwords);
    PwIsPow2(n);
    assert BITSPERDIG * n == n * BITSPERDIG;
    Pow2Add(f.WordBits() * f.numwords, nlp);
    if n == 0 { assert 0 * BITSPERDIG == 0; MulLe(0, f.numwords, f.WordBits()); }
  }

  /** What the code tells: the sign of the number, and whether the number can be read back. */
  lemma CodeTells(v: int, m: nat, twocomp: bool)
    requires 0 < m
    ensures var c := Classify(v, m, twocomp); var u := (if twocomp || 0 <= v then v else -v) % m;
            && -2 <= c <= 2 && (c == 0 <==> v == 0) && (c > 0 <==> v > 0)
            && (-1 <= c <= 1 <==> Interpreted(u, m, v < 0, twocomp && v < 0) == v)
  {
    var c := Classify(v, m, twocomp);
    if -1 <= c <= 1 {
      RoundTrip(v, m, twocomp);
    } else {
      DivMod(v, m);
      DivMod(-v, m);
    }
  }

  /** Without overflow, the code tells how to read a number back. */
  lemma RoundTrip(v: int, m: nat, twocomp: bool)
    requires 0 < m && -1 <= Classify(v, m, twocomp) <= 1
    ensures var c := Classify(v, m, twocomp); var u := (if twocomp || 0 <= v then v else -v) % m;
            0 <= u && Interpreted(u, m, c < 0, twocomp && c < 0) == v
  {
    if 0 <= v {
      SmallMod(v, m);
    } else if !twocomp {
      SmallMod(-v, m);
    } else if v == -(m as int) {
      DivUnique(v, m, -1, 0);
    } else {
      DivUnique(v, m, -1, v + m);
    }
  }

  /** integer_unpack_num_bdigits_generic: the same without a product that could overflow. */
  function NumBdigitsGeneric(f: Format): (int, int)
  {
    var bytes1 := f.wordsize * f.numwords;
    var q1, r1 := f.numwords / 8, f.numwords % 8;
    var bytes2 := bytes1 - f.nails * q1;
    var q2, r2 := f.nails / 8, f.nails % 8;
    var bytes3 := bytes2 - q2 * r1;
    var q3, r3 := bytes3 / BITSPERDIG, bytes3 % BITSPERDIG;
    var digits1 := 8 * q3;
    if 8 * r3 >= r1 * r2 then
      var tmp := 8 * BITSPERDIG - (8 * r3 - r1 * r2);
      (digits1 + 8 - tmp / BITSPERDIG, tmp % BITSPERDIG)
    else
      var tmp := r1 * r2 - 8 * r3;
      (digits1 - tmp / BITSPERDIG, tmp % BITSPERDIG)
  }

  /** Both ways give the same digits and the same padding. */
  lemma NumBdigitsAgree(f: Format)
    requires f.Ok()
    ensures NumBdigitsGeneric(f) == (NumBdigits(f).0 as int, NumBdigits(f).1 as int)
  {
    hide NumBdigits, Format.Offset;
    var (n, nlp) := NumBdigits(f);
    var (m, pad) := NumBdigitsGeneric(f);
    WordBitsIs(f);
    GenericBits(f);
    PaddingUnique(m, pad, n, nlp, f.WordBits() * f.numwords);
  }

  lemma PaddingUnique(m: int, p: int, n: int, q: int, bits: int)
    requires m * BITSPERDIG == bits + p && n * BITSPERDIG == bits + q && 0 <= p < BITSPERDIG && 0 <= q < BITSPERDIG
    ensures m == n && p == q
  {
    if m < n { MulLe(m + 1, n, BITSPERDIG); }
    if n < m { MulLe(n + 1, m, BITSPERDIG); }
  }

  lemma GenericBits(f: Format)
    requires f.Ok()
    ensures var r := NumBdigitsGeneric(f);
            r.0 * BITSPERDIG == (8 * f.wordsize - f.nails) * f.numwords + r.1 && 0 <= r.1 < BITSPERDIG
  {
    var q1, r1 := f.numwords / 8, f.numwords % 8;
    var q2, r2 := f.nails / 8, f.nails % 8;
    var bytes3 := f.wordsize * f.numwords - f.nails * q1 - q2 * r1;
    DivMod(bytes3, BITSPERDIG);
    var q3, r3 := bytes3 / BITSPERDIG, bytes3 % BITSPERDIG;
    BitsAlgebra(f.wordsize, f.numwords, f.nails, q1, r1, q2, r2);
    var tmp := if 8 * r3 >= r1 * r2 then 8 * BITSPERDIG - (8 * r3 - r1 * r2) else r1 * r2 - 8 * r3;
    DivMod(tmp, BITSPERDIG);
    DigitsAlgebra(q3, tmp / BITSPERDIG);
  }

  lemma BitsAlgebra(a: int, w: int, n: int, q1: int, r1: int, q2: int, r2: int)
    requires w == 8 * q1 + r1 && n == 8 * q2 + r2
    ensures (8 * a - n) * w == 8 * (a * w - n * q1 - q2 * r1) - r1 * r2
  {
    assert (8 * a - n) * w == 8 * (a * w) - n * w;
    assert n * w == 8 * (n * q1) + n * r1;
    assert n * r1 == 8 * (q2 * r1) + r2 * r1;
    assert r2 * r1 == r1 * r2;
  }

  lemma DigitsAlgebra(q3: int, q4: int)
    ensures (8 * q3 + 8 - q4) * BITSPERDIG == 8 * (BITSPERDIG * q3) + 8 * BITSPERDIG - BITSPERDIG * q4
    ensures (8 * q3 - q4) * BITSPERDIG == 8 * (BITSPERDIG * q3) - BITSPERDIG * q4
  {
  }
}
