/** Writing an integer into a buffer of words, bit by bit (bignum.c, the generic part of bary_pack). */
module IntegerPack {
  import opened Digits
  import opened BaryShift
  import opened BaryMulPre
  import opened BaryDiv
  import opened PackFormat

  /** What is still to be written: dd holds the next nb bits, and the digits from dp on follow. */
  ghost function Left(X: Run, dp: nat, dd: nat, nb: nat): int
    requires X.Ok()
  {
    dd + Mul(Pow2(nb), Val(X.s, X.lo + dp, X.hi))
  }

  ghost predicate ReaderOk(X: Run, dp: nat, dd: nat, nb: nat)
  {
    X.Ok() && dp <= X.Len() && nb <= 2 * BITSPERDIG && dd < Pow2(nb)
  }

  /** integer_pack_fill_dd */
  method FillDD(ds: Span, dp: nat, dd: nat, nb: nat) returns (dp': nat, dd': nat, nb': nat)
    requires ds.Ok() && ReaderOk(ds.Snap(), dp, dd, nb)
    ensures ReaderOk(ds.Snap(), dp', dd', nb') && Left(ds.Snap(), dp', dd', nb') == Left(ds.Snap(), dp, dd, nb)
    ensures dp <= dp' && 16 <= nb'
  {
    hide Val, Mul, Pow2;
    dp', dd', nb' := dp, dd, nb;
    if dp < ds.Len() && nb <= BITSPERDIG {
      Pow2Add(nb, BITSPERDIG);
      ValCons(ds.a[..], ds.lo + dp, ds.hi);
      FillAlgebra(dd, ds.a[ds.lo + dp], Val(ds.a[..], ds.lo + dp + 1, ds.hi), Pow2(nb));
      dd' := dd + Pow2(nb) * ds.a[ds.lo + dp];
      nb' := nb + BITSPERDIG;
      dp' := dp + 1;
    } else if dp == ds.Len() {
      ValEmpty(ds.a[..], ds.hi);
      MulDef(Pow2(nb), 0); MulDef(Pow2(2 * BITSPERDIG), 0);
      Pow2Monotone(nb, 2 * BITSPERDIG);
      nb' := 2 * BITSPERDIG;
    }
  }

  lemma FillAlgebra(dd: nat, d: Digit, v: nat, p: nat)
    requires dd < p
    ensures 0 <= p * d && dd + p * d < p * B
    ensures dd + Mul(p, d + B * v) == dd + p * d + Mul(p * B, v)
  {
    MulLe(0, d, p);
    MulLe(d as int + 1, B, p);
    assert p * (d + B * v) == p * d + (p * B) * v;
  }

  /** integer_pack_take_lowbits */
  method TakeLowBits(ds: Span, n: nat, dp: nat, dd: nat, nb: nat) returns (bits: nat, dd': nat, nb': nat)
    requires ds.Ok() && ReaderOk(ds.Snap(), dp, dd, nb) && n <= nb
    ensures ReaderOk(ds.Snap(), dp, dd', nb') && bits < Pow2(n)
    ensures Left(ds.Snap(), dp, dd, nb) == bits + Pow2(n) * Left(ds.Snap(), dp, dd', nb')
  {
    hide Val, Mul, Pow2;
    var p := Pow2(n);
    DivMod(dd, p);
    Pow2Add(n, nb - n);
    QuotientBound(dd, p, Pow2(nb - n));
    TakeAlgebra(p, Pow2(nb - n), dd / p, Val(ds.a[..], ds.lo + dp, ds.hi));
    bits, dd', nb' := dd % p, dd / p, nb - n;
  }

  lemma TakeAlgebra(p: int, q: int, d: int, v: int)
    ensures p * d + Mul(p * q, v) == p * (d + Mul(q, v))
  {
    assert (p * q) * v == p * (q * v);
    assert p * (d + q * v) == p * d + p * (q * v);
  }

  /** The state of the loops: what has been written of this word, and what is left. */
  ghost predicate WordState(f: Format, s: seq<int>, base: int, k: nat, X: Run, dp: nat, dd: nat, nb: nat, total: int)
    requires 0 <= base && k <= f.wordsize && base + f.wordsize <= |s|
  {
    && ReaderOk(X, dp, dd, nb)
    && WordPre(f, s, base, k) + Mul(Pow2(f.Offset(k)), Left(X, dp, dd, nb)) == total
    && forall j | 0 <= j < k :: ByteFits(f, s, base, j)
  }

  /** Byte k of a word takes its bits from the number. */
  method PackByte(f: Format, buf: array<int>, base: nat, k: nat, ds: Span, dp: nat, dd: nat, nb: nat, ghost total: int)
    returns (dp': nat, dd': nat, nb': nat)
    requires f.Ok() && ds.Ok() && k < f.wordsize && base + f.wordsize <= buf.Length
    requires WordState(f, buf[..], base, k, ds.Snap(), dp, dd, nb, total)
    modifies buf
    ensures WordState(f, buf[..], base, k + 1, ds.Snap(), dp', dd', nb', total)
    ensures forall i | 0 <= i < buf.Length && i != base + f.Place(k) :: buf[i] == old(buf[i])
  {
    hide Val, Mul, Pow2, Left, WordPre, Format.Width;
    var n := f.Width(k);
    WidthBound(f, k);
    dp', dd', nb' := dp, dd, nb;
    var bits: nat := 0;
    if n > 0 {
      dp', dd', nb' := FillDD(ds, dp, dd, nb);
      bits, dd', nb' := TakeLowBits(ds, n, dp', dd', nb');
    } else {
      Pow2Zero();
    }
    buf[base + f.Place(k)] := bits;
    PackStep(f, old(buf[..]), buf[..], base, k, Left(ds.Snap(), dp, dd, nb), bits, Left(ds.Snap(), dp', dd', nb'));
  }

  lemma WidthBound(f: Format, k: nat)
    ensures f.Width(k) <= 8
  {
  }

  lemma PackStep(f: Format, s: seq<int>, t: seq<int>, base: nat, k: nat, left: int, bits: int, left': int)
    requires k < f.wordsize && base + f.wordsize <= |s| == |t|
    requires forall i | 0 <= i < |s| && i != base + f.Place(k) :: t[i] == s[i]
    requires t[base + f.Place(k)] == bits && left == bits + Pow2(f.Width(k)) * left'
    ensures WordPre(f, t, base, k + 1) + Mul(Pow2(f.Offset(k + 1)), left') == WordPre(f, s, base, k) + Mul(Pow2(f.Offset(k)), left)
    ensures (forall j | 0 <= j < k :: ByteFits(f, s, base, j)) ==> forall j | 0 <= j < k :: ByteFits(f, t, base, j)
  {
    hide Pow2, Format.Width;
    PreKept(f, s, t, base, k);
    Pow2Add(f.Offset(k), f.Width(k));
    StepAlgebra(Pow2(f.Offset(k)), Pow2(f.Width(k)), bits, left');
    if forall j | 0 <= j < k :: ByteFits(f, s, base, j) {
      forall j | 0 <= j < k ensures ByteFits(f, t, base, j) { assert ByteFits(f, s, base, j); }
    }
  }

  lemma StepAlgebra(p: int, q: int, b: int, l: int)
    ensures p * b + Mul(p * q, l) == Mul(p, b + q * l)
  {
    assert (p * q) * l == p * (q * l);
    assert p * (b + q * l) == p * b + p * (q * l);
  }

  /** The bytes below byte k. */
  lemma {:induction false} PreKept(f: Format, s: seq<int>, t: seq<int>, base: nat, k: nat)
    requires k <= f.wordsize && base + f.wordsize <= |s| == |t|
    requires forall j | 0 <= j < k :: t[base + f.Place(j)] == s[base + f.Place(j)]
    ensures WordPre(f, t, base, k) == WordPre(f, s, base, k)
  {
    if k > 0 {
      PreKept(f, s, t, base, k - 1);
      assert t[base + f.Place(k - 1)] == s[base + f.Place(k - 1)];
    }
  }

  /** One word: its full bytes, the partial one, and zeros. */
  method PackWord(f: Format, buf: array<int>, base: nat, ds: Span, dp: nat, dd: nat, nb: nat)
    returns (dp': nat, dd': nat, nb': nat)
    requires f.Ok() && ds.Ok() && base + f.wordsize <= buf.Length && ReaderOk(ds.Snap(), dp, dd, nb)
    modifies buf
    ensures ReaderOk(ds.Snap(), dp', dd', nb') && WordFits(f, buf[..], base)
    ensures WordPre(f, buf[..], base, f.wordsize) + Mul(Pow2(f.WordBits()), Left(ds.Snap(), dp', dd', nb'))
         == Left(ds.Snap(), dp, dd, nb)
    ensures forall i | 0 <= i < buf.Length && (i < base || base + f.wordsize <= i) :: buf[i] == old(buf[i])
  {
    hide Val, Mul, Pow2, Left, WordPre, ReaderOk, ByteFits;
    dp', dd', nb' := dp, dd, nb;
    ghost var total := Left(ds.Snap(), dp, dd, nb);
    WordBegins(f, buf[..], base, total);
    var k := 0;
    while k < f.wordsize
      invariant 0 <= k <= f.wordsize && WordState(f, buf[..], base, k, ds.Snap(), dp', dd', nb', total)
      invariant forall i | 0 <= i < buf.Length && (i < base || base + f.wordsize <= i) :: buf[i] == old(buf[i])
    {
      dp', dd', nb' := PackByte(f, buf, base, k, ds, dp', dd', nb', total);
      k := k + 1;
    }
  }

  lemma WordBegins(f: Format, s: seq<int>, base: nat, total: int)
    requires base + f.wordsize <= |s|
    ensures WordPre(f, s, base, 0) + Mul(Pow2(f.Offset(0)), total) == total
  {
  }

  /** All words, from the least significant one on. */
  method PackWords(f: Format, buf: array<int>, ds: Span) returns (dp: nat, dd: nat, nb: nat)
    requires f.Ok() && ds.Ok() && buf.Length == f.Size()
    modifies buf
    ensures ReaderOk(ds.Snap(), dp, dd, nb) && Fits(f, buf[..])
    ensures BufferValue(f, buf[..]) + Mul(Modulus(f), Left(ds.Snap(), dp, dd, nb)) == ds.Num()
  {
    hide Val, Mul, Pow2, Left, WordPre, ReaderOk, BufPre, Weight, WordFits, Format.Base, Format.Offset;
    dp, dd, nb := 0, 0, 0;
    ReaderStarts(ds.Snap());
    BufBegins(f, buf[..], ds.Num());
    var w := 0;
    while w < f.numwords
      invariant 0 <= w <= f.numwords && ReaderOk(ds.Snap(), dp, dd, nb)
      invariant forall v | 0 <= v < w :: WordAtFits(f, buf[..], v)
      invariant BufPre(f, buf[..], w) + Mul(Weight(f, w), Left(ds.Snap(), dp, dd, nb)) == ds.Num()
    {
      BaseBounds(f, w);
      ghost var before, left := buf[..], Left(ds.Snap(), dp, dd, nb);
      dp, dd, nb := PackWord(f, buf, f.Base(w), ds, dp, dd, nb);
      BufKept(f, before, buf[..], w, w);
      BufStep(f, buf[..], w, left, Left(ds.Snap(), dp, dd, nb));
      w := w + 1;
    }
  }

  lemma ReaderStarts(X: Run)
    requires X.Ok()
    ensures ReaderOk(X, 0, 0, 0) && Left(X, 0, 0, 0) == X.Num()
  {
  }

  lemma BufBegins(f: Format, s: seq<int>, v: int)
    requires |s| == f.Size()
    ensures BufPre(f, s, 0) + Mul(Weight(f, 0), v) == v
  {
  }

  lemma BufStep(f: Format, s: seq<int>, w: nat, left: int, left': int)
    requires w < f.numwords && |s| == f.Size()
    requires 0 <= f.Base(w) && f.Base(w) + f.wordsize <= |s|
    requires WordPre(f, s, f.Base(w), f.wordsize) + Mul(Pow2(f.WordBits()), left') == left
    ensures BufPre(f, s, w + 1) + Mul(Weight(f, w + 1), left') == BufPre(f, s, w) + Mul(Weight(f, w), left)
  {
    hide WordPre, Format.Base, Format.Offset;
    var v, p, q := WordPre(f, s, f.Base(w), f.wordsize), Weight(f, w), Pow2(f.WordBits());
    assert q * p == p * q;
    StepAlgebra(p, q, v, left');
  }

  /** The two's complement of the bytes so far: s holds the old ones, t the new ones. */
  ghost predicate Complemented(f: Format, s: seq<int>, t: seq<int>, base: int, k: nat, carryIn: int, carry: int)
    requires 0 <= base && k <= f.wordsize && base + f.wordsize <= |s| == |t|
  {
    && WordPre(f, t, base, k) + Mul(Pow2(f.Offset(k)), carry) == Pow2(f.Offset(k)) - 1 - WordPre(f, s, base, k) + carryIn
    && (forall j | 0 <= j < k :: ByteFits(f, t, base, j))
    && (forall j | k <= j < f.wordsize :: t[base + f.Place(j)] == s[base + f.Place(j)])
    && 0 <= carry <= 1
  }

  /** Complement a word, adding the carry of the words below. */
  method ComplementWord(f: Format, buf: array<int>, base: nat, carryIn: int) returns (carry: int)
    requires f.Ok() && base + f.wordsize <= buf.Length && WordFits(f, buf[..], base) && 0 <= carryIn <= 1
    modifies buf
    ensures Complemented(f, old(buf[..]), buf[..], base, f.wordsize, carryIn, carry)
    ensures forall i | 0 <= i < buf.Length && (i < base || base + f.wordsize <= i) :: buf[i] == old(buf[i])
  {
    hide Pow2, WordPre, Mul, ByteFits, Format.Width;
    carry := carryIn;
    ComplementBegins(f, buf[..], base, carryIn);
    var k := 0;
    while k < f.wordsize
      invariant 0 <= k <= f.wordsize && Complemented(f, old(buf[..]), buf[..], base, k, carryIn, carry)
      invariant forall i | 0 <= i < buf.Length && (i < base || base + f.wordsize <= i) :: buf[i] == old(buf[i])
    {
      var n := Pow2(f.Width(k));
      var at := base + f.Place(k);
      ghost var before, carry0, b := buf[..], carry, buf[at];
      ByteRange(f, old(buf[..]), base, k);
      var sum := carry + (n - 1 - buf[at]);
      CarryDigit(sum, n);
      buf[at] := sum % n;
      carry := sum / n;
      ComplementStep(f, old(buf[..]), before, buf[..], base, k, carryIn, carry0, carry);
      k := k + 1;
    }
  }

  lemma ByteRange(f: Format, s: seq<int>, base: nat, k: nat)
    requires k < f.wordsize && base + f.wordsize <= |s| && WordFits(f, s, base)
    ensures 0 <= s[base + f.Place(k)] < Pow2(f.Width(k))
  {
    assert ByteFits(f, s, base, k);
  }

  lemma CarryDigit(sum: int, n: int)
    requires 0 < n && 0 <= sum <= n
    ensures sum == sum % n + n * (sum / n) && 0 <= sum % n < n && 0 <= sum / n <= 1
  {
    DivMod(sum, n);
    var q := sum / n;
    if q > 1 { MulLe(2, q, n); }
    if q < 0 { MulLe(q, -1, n); }
  }

  lemma ComplementBegins(f: Format, s: seq<int>, base: nat, carryIn: int)
    requires base + f.wordsize <= |s| && 0 <= carryIn <= 1
    ensures Complemented(f, s, s, base, 0, carryIn, carryIn)
  {
  }

  lemma ComplementStep(f: Format, s: seq<int>, t: seq<int>, u: seq<int>, base: nat, k: nat, carryIn: int, carry: int, carry': int)
    requires k < f.wordsize && base + f.wordsize <= |s| == |t| == |u| && Complemented(f, s, t, base, k, carryIn, carry)
    requires forall i | 0 <= i < |t| && i != base + f.Place(k) :: u[i] == t[i]
    requires var n, at := Pow2(f.Width(k)), base + f.Place(k);
             carry + (n - 1 - s[at]) == u[at] + n * carry' && 0 <= u[at] < n && 0 <= carry' <= 1
    ensures Complemented(f, s, u, base, k + 1, carryIn, carry')
  {
    hide Pow2, Format.Width;
    PreKept(f, t, u, base, k);
    Pow2Add(f.Offset(k), f.Width(k));
    var at := base + f.Place(k);
    ComplementAlgebra(Pow2(f.Offset(k)), Pow2(f.Width(k)), s[at], u[at], carry, carry');
    forall j | 0 <= j < k + 1 ensures ByteFits(f, u, base, j) {
      if j < k { assert ByteFits(f, t, base, j); }
    }
  }

  lemma ComplementAlgebra(p: int, q: int, b: int, u: int, c: int, c': int)
    requires c + (q - 1 - b) == u + q * c'
    ensures p * u + Mul(p * q, c') == Mul(p, c) + p * q - p - p * b
  {
    assert p * (c + (q - 1 - b)) == p * c + p * q - p - p * b;
    assert p * (u + q * c') == p * u + (p * q) * c';
  }

  /** The two's complement of the whole buffer. */
  method ComplementWords(f: Format, buf: array<int>)
    requires f.Ok() && Fits(f, buf[..])
    modifies buf
    ensures Fits(f, buf[..])
    ensures BufferValue(f, buf[..]) == if old(BufferValue(f, buf[..])) == 0 then 0 else Modulus(f) - old(BufferValue(f, buf[..]))
  {
    hide Pow2, WordPre, Mul, WordFits, BufPre, Weight, Format.Base, Format.Offset, ByteFits, Complemented;
    var carry := 1;
    ghost var s := buf[..];
    var w := 0;
    BufComplementBegins(f, s);
    while w < f.numwords
      invariant 0 <= w <= f.numwords && 0 <= carry <= 1 && buf.Length == |s|
      invariant forall v | 0 <= v < w :: WordAtFits(f, buf[..], v)
      invariant forall v | w <= v < f.numwords :: SameWord(f, s, buf[..], v)
      invariant BufPre(f, buf[..], w) + Mul(Weight(f, w), carry) == Weight(f, w) - BufPre(f, s, w)
    {
      BaseBounds(f, w);
      ghost var before, carry0 := buf[..], carry;
      assert SameWord(f, s, before, w);
      SameWordFits(f, s, before, w);
      carry := ComplementWord(f, buf, f.Base(w), carry);
      BufKept(f, before, buf[..], w, w);
      LaterWordsKept(f, s, before, buf[..], w);
      BufComplementStep(f, s, before, buf[..], w, carry0, carry);
      w := w + 1;
    }
    BufPreBound(f, buf[..], f.numwords);
    BufPreBound(f, s, f.numwords);
    ComplementEnd(BufPre(f, buf[..], w), BufPre(f, s, w), carry, Weight(f, w));
  }

  ghost predicate SameWord(f: Format, s: seq<int>, t: seq<int>, w: nat)
    requires w < f.numwords && |s| == |t| == f.Size()
  {
    forall i | 0 <= i < |s| && f.Base(w) <= i < f.Base(w) + f.wordsize :: s[i] == t[i]
  }

  lemma SameWordFits(f: Format, s: seq<int>, t: seq<int>, w: nat)
    requires w < f.numwords && |s| == |t| && Fits(f, s) && SameWord(f, s, t, w)
    ensures 0 <= f.Base(w) && f.Base(w) + f.wordsize <= |t| && WordFits(f, t, f.Base(w))
    ensures WordPre(f, s, f.Base(w), f.wordsize) == WordPre(f, t, f.Base(w), f.wordsize)
  {
    hide Format.Base, WordPre, WordFits;
    BaseBounds(f, w);
    assert WordAtFits(f, s, w);
    WordKept(f, s, t, f.Base(w), f.wordsize);
  }

  lemma LaterWordsKept(f: Format, s: seq<int>, t: seq<int>, u: seq<int>, w: nat)
    requires w < f.numwords && |s| == |t| == |u| == f.Size() && forall v | w <= v < f.numwords :: SameWord(f, s, t, v)
    requires forall i | 0 <= i < |t| && (i < f.Base(w) || f.Base(w) + f.wordsize <= i) :: u[i] == t[i]
    ensures forall v | w < v < f.numwords :: SameWord(f, s, u, v)
  {
    hide Format.Base;
    forall v | w < v < f.numwords ensures SameWord(f, s, u, v) {
      BaseApart(f, w, v);
      assert SameWord(f, s, t, v);
    }
  }

  lemma BufComplementBegins(f: Format, s: seq<int>)
    requires |s| == f.Size()
    ensures BufPre(f, s, 0) + Mul(Weight(f, 0), 1) == Weight(f, 0) - BufPre(f, s, 0)
    ensures forall v | 0 <= v < f.numwords :: SameWord(f, s, s, v)
  {
  }

  lemma BufComplementStep(f: Format, s: seq<int>, t: seq<int>, u: seq<int>, w: nat, carry: int, carry': int)
    requires w < f.numwords && |s| == |t| == |u| == f.Size() && 0 <= f.Base(w) && f.Base(w) + f.wordsize <= |s|
    requires BufPre(f, t, w) + Mul(Weight(f, w), carry) == Weight(f, w) - BufPre(f, s, w) && BufPre(f, t, w) == BufPre(f, u, w)
    requires WordPre(f, s, f.Base(w), f.wordsize) == WordPre(f, t, f.Base(w), f.wordsize)
    requires Complemented(f, t, u, f.Base(w), f.wordsize, carry, carry')
    ensures BufPre(f, u, w + 1) + Mul(Weight(f, w + 1), carry') == Weight(f, w + 1) - BufPre(f, s, w + 1)
    ensures WordAtFits(f, u, w) && 0 <= carry' <= 1
  {
    hide WordPre, Format.Base, Format.Offset, Pow2;
    var p, q := Weight(f, w), Pow2(f.WordBits());
    var b, v := WordPre(f, s, f.Base(w), f.wordsize), WordPre(f, u, f.Base(w), f.wordsize);
    WordAlgebra(p, q, b, v, carry, carry');
  }

  lemma WordAlgebra(p: int, q: int, b: int, v: int, c: int, c': int)
    requires v + Mul(q, c') == q - 1 - b + c
    ensures p * v + Mul(q * p, c') == q * p - p * b - p + Mul(p, c)
  {
    assert p * (v + q * c') == p * v + (q * p) * c';
    assert p * (q - 1 - b + c) == q * p - p - p * b + p * c;
  }

  lemma ComplementEnd(t: int, s: int, c: int, m: int)
    requires t + Mul(m, c) == m - s && 0 <= t < m && 0 <= s < m && 0 <= c <= 1
    ensures t == if s == 0 then 0 else m - s
  {
    assert c == 0 || c == 1;
  }

  /** The code that is returned: the sign, doubled if the number does not fit into m numbers, of either sign if the
      representation is two's complement.  Only there -m fits as well. */
  function Classify(v: int, m: nat, twocomp: bool): int
  {
    if v == 0 then 0
    else if v > 0 then (if v < m then 1 else 2)
    else if -(m as int) < v || (twocomp && v == -(m as int)) then -1 else -2
  }

  /** The buffer holds the low bits of v, in two's complement, or else of its magnitude. */
  ghost predicate Holds(f: Format, s: seq<int>, v: int, twocomp: bool)
  {
    && Fits(f, s)
    && BufferValue(f, s) == (if twocomp || 0 <= v then v else -v) % Modulus(f)
  }

  /** Exactly one number is stored in exactly one way. */
  lemma HoldsUnique(f: Format, s: seq<int>, t: seq<int>, v: int, twocomp: bool)
    requires f.Ok() && Holds(f, s, v, twocomp) && Holds(f, t, v, twocomp)
    ensures s == t
  {
    SameBytes(f, s, t);
  }

  lemma {:induction false} PwIsPow2(k: nat)
    ensures Pw(k) == Pow2(BITSPERDIG * k)
  {
    if k > 0 {
      PwIsPow2(k - 1);
      assert BITSPERDIG * k == BITSPERDIG + BITSPERDIG * (k - 1);
      Pow2Add(BITSPERDIG, BITSPERDIG * (k - 1));
    }
  }

  lemma {:induction false} Pow2Strict(a: nat, b: nat)
    requires a < b
    ensures Pow2(a) < Pow2(b)
  {
    Pow2Monotone(a, b - 1);
  }

  /** A factor of a power of two by a power of two is a power of two. */
  lemma Pow2Factor(t: nat, a: nat, b: nat)
    requires t * Pow2(a) == Pow2(b)
    ensures a <= b && t == Pow2(b - a)
  {
    hide Pow2;
    if b < a {
      Pow2Strict(b, a);
      if t > 0 { MulLe(1, t, Pow2(a)); }
    }
    Pow2Add(b - a, a);
    var q := Pow2(b - a);
    if t < q { MulLe(t + 1, q, Pow2(a)); }
    if q < t { MulLe(q + 1, t, Pow2(a)); }
  }

  /** Only one bit is set: only one digit is not zero, and that is a power of two. */
  method SingleBit(x: Span) returns (single: bool)
    requires x.Ok() && x.Num() > 0
    ensures single ==> IsPower(x.Num())
    ensures !single ==> forall e: nat :: x.Num() != Pow2(e)
  {
    hide Val, Shl, Pow2, BitLength;
    var t, k := TrimZeros(x);
    ValEmpty(t.a[..], t.lo);
    PwIsPow2(k);
    if t.Len() == 1 {
      var d := t.a[t.lo];
      ValSingle(t.a[..], t.lo);
      single := IsPow2(d);
      if single {
        BitLengthDigit(d);
        Pow2Add(BitLength(d) - 1, BITSPERDIG * k);
        ShlIs(d, k);
        assert IsPower(x.Num()) by { PowerWitness(x.Num(), BitLength(d) - 1 + BITSPERDIG * k); }
      } else {
        forall e: nat ensures x.Num() != Pow2(e) { DigitNotPower(d, x.Num(), k, e); }
      }
    } else {
      single := false;
      LongNotSmall(t);
      forall e: nat ensures x.Num() != Pow2(e) { LongNotPower(t, x.Num(), k, e); }
    }
  }

  ghost predicate IsPower(v: nat)
  {
    exists e: nat :: v == Pow2(e)
  }

  lemma PowerWitness(v: nat, e: nat)
    requires v == Pow2(e)
    ensures IsPower(v)
  {
  }

  lemma DigitNotPower(d: Digit, v: nat, k: nat, e: nat)
    requires d > 0 && !IsPow2(d) && v == Shl(d, k)
    ensures v != Pow2(e)
  {
    hide Pow2;
    PwIsPow2(k);
    if v == Pow2(e) {
      Pow2Factor(d, BITSPERDIG * k, e);
      PowerLength(d, e - BITSPERDIG * k);
    }
  }

  lemma PowerLength(d: nat, e: nat)
    requires d == Pow2(e)
    ensures d > 0 && IsPow2(d)
  {
    hide Pow2;
    var n := BitLength(d);
    if n - 1 < e { Pow2Strict(n - 1, e); Pow2Monotone(n, e); }
    if e < n - 1 { Pow2Strict(e, n - 1); }
  }

  lemma LongNotSmall(t: Span)
    requires t.Ok() && t.Len() >= 2 && t.a[t.hi - 1] != 0
    ensures t.Num() >= B
  {
    hide Val;
    TopSplit(t.a[..], t.lo, t.hi);
    MulLe(1, t.a[t.hi - 1], Pw(t.Len() - 1));
    PwMonotone(1, t.Len() - 1);
    PwNext(0);
  }

  /** A power of two that is at least the radix is a multiple of it. */
  lemma LongNotPower(t: Span, v: nat, k: nat, e: nat)
    requires t.Ok() && 0 < t.Len() && t.a[t.lo] != 0 && t.Num() >= B && v == Shl(t.Num(), k)
    ensures v != Pow2(e)
  {
    hide Pow2, Val, Shl, Pw;
    PwIsPow2(k);
    ShlIs(t.Num(), k);
    if v == Pow2(e) {
      Pow2Factor(t.Num(), BITSPERDIG * k, e);
      var g := e - BITSPERDIG * k;
      if g < BITSPERDIG { Pow2Strict(g, BITSPERDIG); }
      Pow2Add(BITSPERDIG, g - BITSPERDIG);
      ValCons(t.a[..], t.lo, t.hi);
      LowDigit(t.a[t.lo], Val(t.a[..], t.lo + 1, t.hi), Pow2(g - BITSPERDIG));
    }
  }

  lemma LowDigit(l: int, r: int, q: int)
    requires l + B * r == B * q && 0 <= l < B
    ensures l == 0
  {
    ModUnique(l, 0, q - r, B);
  }

  lemma ShlIs(v: int, k: nat)
    ensures Shl(v, k) == v * Pw(k)
  {
  }

  /** The integer with this sign and magnitude. */
  function WithSign(negative: bool, n: nat): int
  {
    if negative then -(n as int) else n
  }

  /** bary_pack without its shortcuts */
  method PackGeneric(f: Format, buf: array<int>, ds: Span, negative: bool, twocomp: bool) returns (code: int)
    requires f.Ok() && ds.Ok() && buf.Length == f.Size()
    modifies buf
    ensures Holds(f, buf[..], WithSign(negative, ds.Num()), twocomp)
    ensures code == Classify(WithSign(negative, ds.Num()), Modulus(f), twocomp)
  {
    hide Val, BufPre, Weight, Fits, Left, ReaderOk;
    var x := BaryTrunc(ds);
    if x.Len() == 0 {
      ValEmpty(x.a[..], x.lo);
      Clear(f, buf);
      SmallMod(0, Modulus(f));
      return 0;
    }
    TopNonZero(x);
    var dp, dd, nb := PackWords(f, buf, x);
    dp, dd, nb := FillDD(x, dp, dd, nb);
    ghost var rest := Left(x.Snap(), dp, dd, nb);
    BufPreBound(f, buf[..], f.numwords);
    QuotientIs(x.Num(), Modulus(f), BufferValue(f, buf[..]), rest);
    RestSize(x, dp, dd, nb);
    var sign := if negative then -1 else 1;
    code := sign;
    if dp != x.Len() || 1 < dd {
      code := sign * 2;
      RestMany(x.Num(), Modulus(f), BufferValue(f, buf[..]), rest);
    } else if dd == 1 {
      if !twocomp || 0 <= sign {
        code := sign * 2;
      } else {
        var single := SingleBit(x);
        OnlyPower(f, x.Num(), single);
        code := if single then -1 else -2;
      }
    }
    if twocomp && negative {
      ComplementMod(x.Num(), Modulus(f), BufferValue(f, buf[..]));
      ComplementWords(f, buf);
    }
  }

  method Clear(f: Format, buf: array<int>)
    requires f.Ok() && buf.Length == f.Size()
    modifies buf
    ensures Fits(f, buf[..]) && BufferValue(f, buf[..]) == 0
  {
    forall i | 0 <= i < buf.Length { buf[i] := 0; }
    AllZero(f, buf[..], f.numwords);
  }

  lemma {:induction false} AllZero(f: Format, s: seq<int>, w: nat)
    requires |s| == f.Size() && w <= f.numwords && forall i | 0 <= i < |s| :: s[i] == 0
    ensures BufPre(f, s, w) == 0 && forall v | 0 <= v < w :: WordAtFits(f, s, v)
  {
    hide Format.Base, WordPre;
    if w > 0 {
      AllZero(f, s, w - 1);
      BaseBounds(f, w - 1);
      WordZero(f, s, f.Base(w - 1), f.wordsize);
      ZeroFits(f, s, f.Base(w - 1));
      assert Weight(f, w - 1) * 0 == 0;
    }
  }

  lemma ZeroFits(f: Format, s: seq<int>, base: int)
    requires 0 <= base && base + f.wordsize <= |s| && forall i | 0 <= i < |s| :: s[i] == 0
    ensures WordFits(f, s, base)
  {
  }

  lemma {:induction false} WordZero(f: Format, s: seq<int>, base: int, k: nat)
    requires 0 <= base && k <= f.wordsize && base + f.wordsize <= |s| && forall i | 0 <= i < |s| :: s[i] == 0
    ensures WordPre(f, s, base, k) == 0
  {
    if k > 0 {
      WordZero(f, s, base, k - 1);
      assert Pow2(f.Offset(k - 1)) * 0 == 0;
    }
  }

  lemma SmallMod(v: int, m: nat)
    requires 0 <= v < m
    ensures v % m == v
  {
    DivUnique(v, m, 0, v);
  }

  /** v is split into what is in the buffer and what is left. */
  lemma QuotientIs(v: nat, m: nat, b: int, rest: int)
    requires 0 < m && b + Mul(m, rest) == v && 0 <= b < m
    ensures v % m == b && 0 <= rest && (rest == 0 ==> v < m) && (rest >= 1 ==> m <= v) && (rest == 1 ==> v < 2 * m)
    ensures rest == 1 ==> (v == m <==> b == 0)
  {
    DivUnique(v, m, rest, b);
    if rest >= 1 { MulLe(1, rest, m); }
    if rest < 0 { MulLe(rest, -1, m); }
  }

  lemma RestMany(v: nat, m: nat, b: int, rest: int)
    requires 0 < m && b + Mul(m, rest) == v && 0 <= b < m && 2 <= rest
    ensures m < v
  {
    MulLe(2, rest, m);
  }

  /** What is left is what dd holds, unless there are digits left, and then it is much. */
  lemma RestSize(x: Span, dp: nat, dd: nat, nb: nat)
    requires x.Ok() && ReaderOk(x.Snap(), dp, dd, nb) && 16 <= nb && 0 < x.Len() && x.a[x.hi - 1] != 0
    ensures dp == x.Len() ==> Left(x.Snap(), dp, dd, nb) == dd
    ensures dp != x.Len() ==> Left(x.Snap(), dp, dd, nb) >= 2
  {
    hide Val;
    if dp == x.Len() {
      ValEmpty(x.a[..], x.hi);
    } else {
      TopNonZero(x.Drop(dp));
      Pow2Monotone(1, nb);
      assert Pow2(1) == 2 * Pow2(0);
      MulLe(1, x.Drop(dp).Num(), Pow2(nb));
    }
  }

  lemma OnlyPower(f: Format, v: nat, single: bool)
    requires Modulus(f) <= v < 2 * Modulus(f)
    requires single ==> IsPower(v)
    requires !single ==> forall e: nat :: v != Pow2(e)
    ensures single <==> v == Modulus(f)
  {
    hide Weight;
    WeightIs(f, f.numwords);
    var t := f.WordBits() * f.numwords;
    if single {
      var e: nat :| v == Pow2(e);
      if e < t { Pow2Strict(e, t); }
      if t < e { Pow2Monotone(t + 1, e); }
    }
  }

  lemma ComplementMod(v: nat, m: nat, b: int)
    requires 0 < m && v % m == b
    ensures (-(v as int)) % m == if b == 0 then 0 else m - b
  {
    DivMod(v, m);
    var q := v / m;
    if b == 0 {
      DivUnique(-(v as int), m, -q, 0);
    } else {
      assert m * (-q - 1) == -(m * q) - m;
      DivUnique(-(v as int), m, -q - 1, m - b);
    }
  }
}
