/** The shortcut of bary_pack for a single machine word (bignum.c:669-738). */
module PackShortcuts {
  import opened Digits
  import opened BaryShift
  import opened BaryMulPre
  import opened BaryDiv
  import opened PackFormat
  import opened IntegerPack
  import opened PackBytes

  /** A word whose bytes, in order of significance, are given. */
  lemma {:induction false} WordFromBytes(f: Format, s: seq<int>, base: int, bytes: seq<int>, k: nat)
    requires f.Ok() && f.nails == 0 && 0 <= base && k <= f.wordsize && base + f.wordsize <= |s| && f.wordsize <= |bytes|
    requires forall j | 0 <= j < f.wordsize :: s[base + f.Place(j)] == bytes[j]
    ensures WordPre(f, s, base, k) == BytesVal(bytes, k)
  {
    if k > 0 {
      WordFromBytes(f, s, base, bytes, k - 1);
      NoNails(f, k - 1);
      assert s[base + f.Place(k - 1)] == bytes[k - 1];
    }
  }

  /** Nails are on top: a word whose nails are zero is worth its plain bytes, in order of significance. */
  lemma {:induction false} NailsOnTop(f: Format, s: seq<int>, base: int, bytes: seq<int>, k: nat)
    requires f.Ok() && 0 <= base && k <= f.wordsize && base + f.wordsize <= |s| && f.wordsize <= |bytes| && WordFits(f, s, base)
    requires forall j | 0 <= j < f.wordsize :: s[base + f.Place(j)] == bytes[j]
    ensures WordPre(f, s, base, k) == BytesVal(bytes, k)
  {
    hide Pow2, Format.Offset, Format.Width;
    if k > 0 {
      NailsOnTop(f, s, base, bytes, k - 1);
      ByteRange(f, s, base, k - 1);
      assert s[base + f.Place(k - 1)] == bytes[k - 1];
      WidthOf(f, k - 1);
      Pow2Zero();
      assert Pow2(f.Offset(k - 1)) * 0 == 0 == Pow2(8 * (k - 1)) * 0;
    }
  }

  /** Where the bits of byte k begin, and how many there are. */
  lemma WidthOf(f: Format, k: nat)
    requires f.Ok() && k < f.wordsize
    ensures f.Width(k) > 0 ==> f.Offset(k) == 8 * k
    ensures f.Width(k) == 0 ==> f.Offset(k) == f.WordBits() <= 8 * k
    ensures f.Width(k) <= 8 && f.Offset(k) + f.Width(k) == f.Offset(k + 1)
  {
    OffsetIs(f, k);
    OffsetIs(f, k + 1);
    WordBitsIs(f);
  }

  /** One word, without nails, of at most a digit. */
  predicate OneWord(f: Format)
  {
    f.Ok() && f.nails == 0 && f.numwords == 1 && f.wordsize <= SIZEOF_BDIGIT
  }

  function Low(v: int, m: nat): (r: nat)
    requires 0 < m
    ensures r < m
  {
    v % m
  }

  lemma HoldsLow(f: Format, s: seq<int>, v: int, twocomp: bool)
    requires Fits(f, s) && BufferValue(f, s) == Low(if twocomp || 0 <= v then v else -v, Modulus(f))
    ensures Holds(f, s, v, twocomp)
  {
  }

  /** Store a machine word, with its bytes swapped if the most significant one comes first. */
  method StoreWord(f: Format, buf: array<int>, u: nat)
    requires OneWord(f) && buf.Length == f.Size()
    modifies buf
    ensures Fits(f, buf[..]) && BufferValue(f, buf[..]) == Low(u, Modulus(f))
  {
    hide LowBytes, Pow2;
    var bytes := LowBytes(u, f.wordsize);
    LowBytesVal(u, f.wordsize);
    var n := f.wordsize;
    assert f.Size() == n;
    forall i | 0 <= i < n { buf[i] := bytes[if f.msByteFirst then n - 1 - i else i]; }
    WordFromBytes(f, buf[..], 0, bytes, n);
    BytesFit(f, buf[..]);
    OneWordValue(f, buf[..]);
  }

  lemma OneWordValue(f: Format, s: seq<int>)
    requires OneWord(f) && |s| == f.Size()
    ensures f.Base(0) == 0 && f.Size() == f.wordsize && BufferValue(f, s) == WordPre(f, s, 0, f.wordsize)
    ensures Modulus(f) == Pow2(8 * f.wordsize) <= B
  {
    hide Pow2, WordPre, Format.Offset;
    BaseBounds(f, 0);
    assert f.Base(0) == 0;
    assert BufPre(f, s, 0) == 0;
    assert BufPre(f, s, 1) == BufPre(f, s, 0) + Weight(f, 0) * WordPre(f, s, f.Base(0), f.wordsize);
    NoNails(f, f.wordsize);
    assert Weight(f, 1) == Pow2(f.WordBits()) * Weight(f, 0);
    Pow2Monotone(8 * f.wordsize, BITSPERDIG);
  }

  /** A digit, and perhaps more above it. */
  lemma LowDigitMod(x: Span, m: nat, e: nat)
    requires x.Ok() && 0 < x.Len() && m == Pow2(e) && e <= BITSPERDIG
    ensures 0 < m && Low(x.Num(), m) == Low(x.a[x.lo], m)
    ensures Low(-(x.Num() as int), m) == Low(Low(-(x.a[x.lo] as int), m), m)
  {
    hide Val, Pow2, Low;
    ValCons(x.a[..], x.lo, x.hi);
    Pow2Add(e, BITSPERDIG - e);
    LowSum(x.a[x.lo], Val(x.a[..], x.lo + 1, x.hi), m, Pow2(BITSPERDIG - e));
  }

  lemma LowSum(d: int, v: int, m: nat, q: int)
    requires 0 < m && m * q == B
    ensures Low(d + B * v, m) == Low(d, m) && Low(-(d + B * v), m) == Low(Low(-d, m), m)
  {
    hide Low;
    LowOf(d, v, m, q);
    LowOf(-d, -v, m, q);
    NegatedSum(d, v);
    LowTwice(-d, m);
  }

  lemma LowOf(d: int, v: int, m: nat, q: int)
    requires 0 < m && m * q == B
    ensures Low(d + B * v, m) == Low(d, m)
  {
    DivMod(d, m);
    LowDigitAlgebra(d, v, m, q, d / m, d % m);
  }

  lemma NegatedSum(d: int, v: int)
    ensures -(d + B * v) == -d + B * -v
  {
  }

  lemma LowTwice(v: int, m: nat)
    requires 0 < m
    ensures Low(Low(v, m), m) == Low(v, m)
  {
    var r := Low(v, m);
    SmallMod(r, m);
  }

  /** A number of one digit is that digit; one of more digits is not less than the radix. */
  lemma DigitsTell(x: Span)
    requires x.Ok() && 0 < x.Len() && x.a[x.hi - 1] != 0
    ensures x.Len() == 1 ==> x.Num() == x.a[x.lo]
    ensures x.Len() > 1 ==> B <= x.Num()
  {
    hide Val;
    ValSingle(x.a[..], x.lo);
    if x.Len() > 1 { LongNotSmall(x); }
  }

  lemma LowDigitAlgebra(d: int, v: int, m: int, q: int, a: int, r: int)
    requires 0 < m && m * q == B && d == m * a + r && 0 <= r < m
    ensures (d + B * v) % m == r
  {
    assert d + B * v == m * (a + q * v) + r by {
      assert B * v == m * (q * v);
      assert m * (a + q * v) == m * a + m * (q * v);
    }
    DivUnique(d + B * v, m, a + q * v, r);
  }

  /** The shortcut for one word: only the lowest digit is looked at, and for overflow, whether there are more. */
  method PackOneWord(f: Format, buf: array<int>, ds: Span, negative: bool, twocomp: bool) returns (code: int)
    requires OneWord(f) && ds.Ok() && buf.Length == f.Size() && ds.Num() > 0
    modifies buf
    ensures Holds(f, buf[..], WithSign(negative, ds.Num()), twocomp)
    ensures code == Classify(WithSign(negative, ds.Num()), Modulus(f), twocomp)
  {
    hide Val, Pow2, BufPre, Weight, Fits, Holds, Low;
    var x := BaryTrunc(ds);
    ValEmpty(x.a[..], x.lo);
    var d, m := x.a[x.lo], Pow2(8 * f.wordsize);
    OneWordValue(f, buf[..]);
    LowDigitMod(x, m, 8 * f.wordsize);
    DigitsTell(x);
    if !negative || !twocomp {
      StoreWord(f, buf, d);
      code := if 1 < x.Len() || m <= d then 2 else 1;
      if negative { code := -code; }
    } else {
      StoreWord(f, buf, Low(-(d as int), m));
      ExactTwo(x, m);
      WholeDigit(f);
      if f.wordsize == SIZEOF_BDIGIT && x.Len() == 2 && x.a[x.lo + 1] == 1 && d == 0 {
        code := -1;
      } else {
        code := if 1 < x.Len() || m < d then -2 else -1;
      }
    }
    HoldsLow(f, buf[..], WithSign(negative, ds.Num()), twocomp);
  }

  /** A word holds all that a digit holds only if it has as many bytes. */
  lemma WholeDigit(f: Format)
    requires OneWord(f)
    ensures Pow2(8 * f.wordsize) == B <==> f.wordsize == SIZEOF_BDIGIT
  {
    hide Pow2;
    if f.wordsize < SIZEOF_BDIGIT { Pow2Strict(8 * f.wordsize, BITSPERDIG); }
  }

  /** Two digits stand for the radix if they are 0 and 1. */
  lemma ExactTwo(x: Span, m: nat)
    requires x.Ok() && 0 < x.Len() && x.a[x.hi - 1] != 0 && m <= B
    ensures x.Len() == 2 && x.a[x.lo + 1] == 1 && x.a[x.lo] == 0 ==> x.Num() == B
    ensures x.Len() > 1 && x.Num() == m ==> m == B && x.Len() == 2 && x.a[x.lo + 1] == 1 && x.a[x.lo] == 0
  {
    hide Val;
    ValCons(x.a[..], x.lo, x.hi);
    if x.Len() > 1 {
      var v := Val(x.a[..], x.lo + 1, x.hi);
      ValCons(x.a[..], x.lo + 1, x.hi);
      TopNonZero(x.Drop(1));
      MulLe(1, v, B);
      if v >= 2 { MulLe(2, v, B); }
      BPositive();
      if x.Len() == 2 {
        ValEmpty(x.a[..], x.hi);
      } else {
        TopNonZero(x.Drop(2));
        MulLe(1, Val(x.a[..], x.lo + 2, x.hi), B);
      }
    }
  }
}
