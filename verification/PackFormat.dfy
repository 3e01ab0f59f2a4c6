/** The layout of an integer in a buffer of words (bignum.c, integer_pack_loop_setup): word order, byte order, and
    nails, which are bits at the top of each word that stay zero. */
module PackFormat {
  import opened Digits
  import opened BaryShift

  datatype Format = Format(numwords: nat, wordsize: nat, nails: nat, msWordFirst: bool, msByteFirst: bool)
  {
    /** validate_integer_pack_format */
    predicate Ok() { 0 < wordsize && nails / 8 < wordsize }

    function PartialBits(): nat { if nails % 8 == 0 then 0 else 8 - nails % 8 }

    function FullBytes(): int { wordsize - nails / 8 - if PartialBits() != 0 then 1 else 0 }

    /** How many bits of the number byte k of a word takes, counted from the least significant byte. */
    function Width(k: nat): nat
    {
      if k < FullBytes() then 8 else if k == FullBytes() then PartialBits() else 0
    }

    /** How many bits the bytes below byte k take. */
    function Offset(k: nat): nat
    {
      if k == 0 then 0 else Offset(k - 1) + Width(k - 1)
    }

    function WordBits(): nat { Offset(wordsize) }

    /** Where the word of this significance begins. */
    function Base(w: nat): int
    {
      if msWordFirst then wordsize * (numwords - 1 - w) else wordsize * w
    }

    /** Where in a word the byte of this significance is. */
    function Place(k: nat): int
    {
      if msByteFirst then wordsize - 1 - k else k
    }

    function Size(): nat { numwords * wordsize }
  }

  lemma {:induction false} OffsetIs(f: Format, k: nat)
    requires f.Ok() && k <= f.wordsize
    ensures f.Offset(k) == if k <= f.FullBytes() then 8 * k else 8 * f.wordsize - f.nails
  {
    if k > 0 { OffsetIs(f, k - 1); }
  }

  /** A word holds all its bits but the nails. */
  lemma WordBitsIs(f: Format)
    requires f.Ok()
    ensures f.WordBits() == 8 * f.wordsize - f.nails > 0
  {
    OffsetIs(f, f.wordsize);
  }

  /** 2 to the number of bits of w words. */
  function Weight(f: Format, w: nat): (r: nat)
    ensures r > 0
  {
    if w == 0 then 1 else
      MulLe(1, Pow2(f.WordBits()), Weight(f, w - 1));
      Pow2(f.WordBits()) * Weight(f, w - 1)
  }

  /** 2 to the number of bits of the whole buffer. */
  function Modulus(f: Format): (m: nat)
    ensures m > 0
  {
    Weight(f, f.numwords)
  }

  lemma {:induction false} WeightIs(f: Format, w: nat)
    ensures Weight(f, w) == Pow2(f.WordBits() * w)
  {
    if w > 0 {
      WeightIs(f, w - 1);
      Pow2Add(f.WordBits(), f.WordBits() * (w - 1));
      assert f.WordBits() * w == f.WordBits() + f.WordBits() * (w - 1);
    }
  }

  lemma BaseBounds(f: Format, w: nat)
    requires w < f.numwords
    ensures 0 <= f.Base(w) && f.Base(w) + f.wordsize <= f.Size()
  {
    var u := if f.msWordFirst then f.numwords - 1 - w else w;
    MulLe(0, u, f.wordsize);
    MulLe(u + 1, f.numwords, f.wordsize);
    assert (u + 1) * f.wordsize == f.wordsize * u + f.wordsize;
  }

  /** Words do not overlap. */
  lemma BaseApart(f: Format, v: nat, w: nat)
    requires v < w < f.numwords
    ensures f.Base(v) + f.wordsize <= f.Base(w) || f.Base(w) + f.wordsize <= f.Base(v)
  {
    MulLe(v + 1, w, f.wordsize);
    assert (v + 1) * f.wordsize == f.wordsize * v + f.wordsize;
    if f.msWordFirst {
      assert f.wordsize * (f.numwords - 1 - v) - f.wordsize * (f.numwords - 1 - w) == f.wordsize * w - f.wordsize * v;
    }
  }

  /** Every byte of the buffer is in one of the words. */
  lemma Covered(f: Format, i: nat) returns (w: nat, k: nat)
    requires f.Ok() && i < f.Size()
    ensures w < f.numwords && k < f.wordsize && i == f.Base(w) + f.Place(k)
  {
    DivMod(i, f.wordsize);
    QuotientBound(i, f.wordsize, f.numwords);
    var u, r := i / f.wordsize, i % f.wordsize;
    w := if f.msWordFirst then f.numwords - 1 - u else u;
    k := if f.msByteFirst then f.wordsize - 1 - r else r;
  }

  /** The number in the bytes of least significance of the word at base. */
  function WordPre(f: Format, s: seq<int>, base: int, k: nat): int
    requires 0 <= base && k <= f.wordsize && base + f.wordsize <= |s|
  {
    if k == 0 then 0 else WordPre(f, s, base, k - 1) + Pow2(f.Offset(k - 1)) * s[base + f.Place(k - 1)]
  }

  /** The number in the words of least significance. */
  function BufPre(f: Format, s: seq<int>, w: nat): int
    requires w <= f.numwords && |s| == f.Size()
  {
    if w == 0 then 0 else
      BaseBounds(f, w - 1);
      BufPre(f, s, w - 1) + Weight(f, w - 1) * WordPre(f, s, f.Base(w - 1), f.wordsize)
  }

  /** The number in the buffer. */
  function BufferValue(f: Format, s: seq<int>): int
    requires |s| == f.Size()
  {
    BufPre(f, s, f.numwords)
  }

  /** Every byte holds no more bits than it may; nails are zero. */
  ghost predicate WordFits(f: Format, s: seq<int>, base: int)
    requires 0 <= base && base + f.wordsize <= |s|
  {
    forall k | 0 <= k < f.wordsize :: ByteFits(f, s, base, k)
  }

  ghost predicate ByteFits(f: Format, s: seq<int>, base: int, k: nat)
    requires 0 <= base && k < f.wordsize && base + f.wordsize <= |s|
  {
    0 <= s[base + f.Place(k)] < Pow2(f.Width(k))
  }

  ghost predicate Fits(f: Format, s: seq<int>)
  {
    |s| == f.Size() && forall w | 0 <= w < f.numwords :: WordAtFits(f, s, w)
  }

  ghost predicate WordAtFits(f: Format, s: seq<int>, w: nat)
    requires w < f.numwords && |s| == f.Size()
  {
    BaseBounds(f, w);
    WordFits(f, s, f.Base(w))
  }

  lemma {:induction false} WordPreBound(f: Format, s: seq<int>, base: int, k: nat)
    requires 0 <= base && k <= f.wordsize && base + f.wordsize <= |s| && WordFits(f, s, base)
    ensures 0 <= WordPre(f, s, base, k) < Pow2(f.Offset(k))
  {
    hide Format.Width;
    if k > 0 {
      WordPreBound(f, s, base, k - 1);
      assert ByteFits(f, s, base, k - 1);
      Pow2Add(f.Offset(k - 1), f.Width(k - 1));
      PartBound(WordPre(f, s, base, k - 1), s[base + f.Place(k - 1)], Pow2(f.Offset(k - 1)), Pow2(f.Width(k - 1)));
    }
  }

  lemma PartBound(v: int, b: int, p: int, q: int)
    requires 0 <= v < p && 0 <= b < q
    ensures 0 <= v + p * b < p * q
  {
    MulLe(b + 1, q, p);
    MulLe(0, b, p);
    assert (b + 1) * p == p * b + p;
    assert q * p == p * q;
  }

  lemma {:induction false} BufPreBound(f: Format, s: seq<int>, w: nat)
    requires w <= f.numwords && Fits(f, s)
    ensures 0 <= BufPre(f, s, w) < Weight(f, w)
  {
    hide WordPre, WordFits;
    if w > 0 {
      BufPreBound(f, s, w - 1);
      BaseBounds(f, w - 1);
      assert WordAtFits(f, s, w - 1);
      WordPreBound(f, s, f.Base(w - 1), f.wordsize);
      PartBound(BufPre(f, s, w - 1), WordPre(f, s, f.Base(w - 1), f.wordsize), Weight(f, w - 1), Pow2(f.WordBits()));
    }
  }

  lemma InjLeft(a: int, b: int, c: int, d: int, p: int)
    requires 0 <= a < p && 0 <= b < p && a + p * c == b + p * d
    ensures a == b && c == d
  {
    InjStep(a, b, c, d, p);
  }

  function ByteAt(f: Format, s: seq<int>, w: nat, k: nat): int
    requires w < f.numwords && k < f.wordsize && |s| == f.Size()
  {
    BaseBounds(f, w);
    s[f.Base(w) + f.Place(k)]
  }

  /** The same number has the same bytes: whoever stores it stores the same. */
  lemma {:induction false} WordUnique(f: Format, s: seq<int>, t: seq<int>, base: int, k: nat)
    requires 0 <= base && k <= f.wordsize && base + f.wordsize <= |s| == |t| && WordFits(f, s, base) && WordFits(f, t, base)
    requires WordPre(f, s, base, k) == WordPre(f, t, base, k)
    ensures forall j | 0 <= j < k :: s[base + f.Place(j)] == t[base + f.Place(j)]
  {
    hide Format.Width, Format.Offset, Pow2;
    if k > 0 {
      var p := Pow2(f.Offset(k - 1));
      WordPreBound(f, s, base, k - 1);
      WordPreBound(f, t, base, k - 1);
      InjLeft(WordPre(f, s, base, k - 1), WordPre(f, t, base, k - 1), s[base + f.Place(k - 1)], t[base + f.Place(k - 1)], p);
      WordUnique(f, s, t, base, k - 1);
    }
  }

  lemma {:induction false} BufUnique(f: Format, s: seq<int>, t: seq<int>, w: nat)
    requires w <= f.numwords && Fits(f, s) && Fits(f, t) && BufPre(f, s, w) == BufPre(f, t, w)
    ensures forall v, k | 0 <= v < w && 0 <= k < f.wordsize :: ByteAt(f, s, v, k) == ByteAt(f, t, v, k)
  {
    hide WordPre, WordFits, Format.Base, Format.Place;
    if w > 0 {
      BufPreBound(f, s, w - 1);
      BufPreBound(f, t, w - 1);
      BaseBounds(f, w - 1);
      var base, p := f.Base(w - 1), Weight(f, w - 1);
      var b, c := WordPre(f, s, base, f.wordsize), WordPre(f, t, base, f.wordsize);
      InjLeft(BufPre(f, s, w - 1), BufPre(f, t, w - 1), b, c, p);
      assert WordAtFits(f, s, w - 1) && WordAtFits(f, t, w - 1);
      WordUnique(f, s, t, base, f.wordsize);
      BufUnique(f, s, t, w - 1);
    }
  }

  lemma SameBytes(f: Format, s: seq<int>, t: seq<int>)
    requires f.Ok() && Fits(f, s) && Fits(f, t) && BufferValue(f, s) == BufferValue(f, t)
    ensures s == t
  {
    BufUnique(f, s, t, f.numwords);
    forall i | 0 <= i < |s| ensures s[i] == t[i] {
      var w, k := Covered(f, i);
      assert ByteAt(f, s, w, k) == ByteAt(f, t, w, k);
    }
  }

  /** Bytes outside the word do not matter. */
  lemma {:induction false} WordKept(f: Format, s: seq<int>, t: seq<int>, base: int, k: nat)
    requires 0 <= base && k <= f.wordsize && base + f.wordsize <= |s| == |t|
    requires forall i | base <= i < base + f.wordsize :: s[i] == t[i]
    ensures WordPre(f, s, base, k) == WordPre(f, t, base, k)
    ensures WordFits(f, s, base) ==> WordFits(f, t, base)
  {
    if k > 0 { WordKept(f, s, t, base, k - 1); }
    if WordFits(f, s, base) {
      forall j | 0 <= j < f.wordsize ensures ByteFits(f, t, base, j) { assert ByteFits(f, s, base, j); }
    }
  }

  /** Writing one word leaves those of less significance alone. */
  lemma {:induction false} BufKept(f: Format, s: seq<int>, t: seq<int>, w: nat, at: nat)
    requires w <= at < f.numwords && |s| == |t| == f.Size()
    requires forall i | 0 <= i < |s| && (i < f.Base(at) || f.Base(at) + f.wordsize <= i) :: s[i] == t[i]
    ensures BufPre(f, s, w) == BufPre(f, t, w)
    ensures forall v | 0 <= v < w :: WordAtFits(f, s, v) ==> WordAtFits(f, t, v)
  {
    hide WordPre, WordFits, Format.Base;
    if w > 0 {
      BufKept(f, s, t, w - 1, at);
      BaseBounds(f, w - 1);
      BaseApart(f, w - 1, at);
      WordKept(f, s, t, f.Base(w - 1), f.wordsize);
    }
  }
}
