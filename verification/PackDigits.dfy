/** The shortcut of bary_pack for words that consist of whole digits: the digits are copied, and then put into the
    order of the format by swapping bytes in digits, digits in words, and digits in the buffer (bignum.c:771-816). */
module PackDigits {
  import opened Digits
  import opened BaryAdd
  import opened BarySigned
  import opened BaryShift
  import opened BaryMulPre
  import opened BaryDiv
  import opened PackFormat
  import opened IntegerPack
  import opened PackBytes
  import opened PackShortcuts

  /** perWord digits make a word. */
  predicate WholeDigits(f: Format, perWord: nat)
  {
    f.Ok() && f.nails == 0 && f.wordsize == SIZEOF_BDIGIT * perWord
  }

  lemma {:induction false} MemoryAt(s: seq<Digit>, lo: nat, n: nat, a: nat, c: nat)
    requires lo + n <= |s| && a < n && c < SIZEOF_BDIGIT
    ensures 0 <= SIZEOF_BDIGIT * a + c < SIZEOF_BDIGIT * n
    ensures Memory(s, lo, n)[SIZEOF_BDIGIT * a + c] == LowBytes(s[lo + a], SIZEOF_BDIGIT)[c]
  {
    hide LowBytes;
    IndexBound(SIZEOF_BDIGIT, a, n, c);
    if a < n - 1 {
      MemoryAt(s, lo, n - 1, a, c);
    } else {
      ByteCount(n - 1);
    }
  }

  lemma IndexBound(p: nat, a: nat, n: nat, c: nat)
    requires a < n && c < p
    ensures 0 <= p * a <= p * a + c < p * n
  {
    MulLe(a + 1, n, p);
    MulLe(0, a, p);
    assert (a + 1) * p == p * a + p;
  }

  /** Bytes are determined by their number. */
  lemma {:induction false} BytesUnique(s: seq<int>, t: seq<int>, n: nat)
    requires n <= |s| && n <= |t| && AreBytes(s) && AreBytes(t) && BytesVal(s, n) == BytesVal(t, n)
    ensures forall i | 0 <= i < n :: s[i] == t[i]
  {
    hide Pow2;
    if n > 0 {
      BytesBound(s, n - 1);
      BytesBound(t, n - 1);
      InjLeft(BytesVal(s, n - 1), BytesVal(t, n - 1), s[n - 1], t[n - 1], Pow2(8 * (n - 1)));
      BytesUnique(s, t, n - 1);
    }
  }

  function Reversed(s: seq<int>): (r: seq<int>)
    ensures |r| == |s| && forall i | 0 <= i < |s| :: r[i] == s[|s| - 1 - i]
  {
    seq(|s|, i requires 0 <= i < |s| => s[|s| - 1 - i])
  }

  /** The digit that has these bytes in memory. */
  function DigitOf(bytes: seq<int>): (d: Digit)
    requires |bytes| == SIZEOF_BDIGIT && AreBytes(bytes)
    ensures LowBytes(d, SIZEOF_BDIGIT) == bytes
  {
    BytesBound(bytes, SIZEOF_BDIGIT);
    assert 8 * SIZEOF_BDIGIT == BITSPERDIG;
    var v := BytesVal(bytes, SIZEOF_BDIGIT);
    DigitBytes(v);
    BytesUnique(LowBytes(v, SIZEOF_BDIGIT), bytes, SIZEOF_BDIGIT);
    v
  }

  /** swap_bdigit */
  function SwapDigit(d: Digit): (r: Digit)
    ensures LowBytes(r, SIZEOF_BDIGIT) == Reversed(LowBytes(d, SIZEOF_BDIGIT))
  {
    LowBytesVal(d, SIZEOF_BDIGIT);
    DigitOf(Reversed(LowBytes(d, SIZEOF_BDIGIT)))
  }

  /** Digits with the same bytes are the same; so two swaps cancel. */
  lemma SwapTwice(d: Digit)
    ensures SwapDigit(SwapDigit(d)) == d
  {
    hide LowBytes, BytesVal;
    var e := SwapDigit(SwapDigit(d));
    assert LowBytes(e, SIZEOF_BDIGIT) == LowBytes(d, SIZEOF_BDIGIT);
    DigitBytes(d);
    DigitBytes(e);
  }

  /** bary_swap */
  method BarySwap(a: array<Digit>, lo: nat, hi: nat)
    requires lo <= hi <= a.Length
    modifies a
    ensures forall i | lo <= i < hi :: a[i] == old(a[lo + hi - 1 - i])
    ensures forall i | 0 <= i < a.Length && (i < lo || hi <= i) :: a[i] == old(a[i])
  {
    var p, q := lo, hi - 1;
    while p < q
      invariant lo <= p <= hi && p + q == lo + hi - 1 && lo - 1 <= q
      invariant forall i | lo <= i < hi && (i < p || q < i) :: a[i] == old(a[lo + hi - 1 - i])
      invariant forall i | 0 <= i < a.Length && (i < lo || hi <= i || p <= i <= q) :: a[i] == old(a[i])
    {
      a[p], a[q] := a[q], a[p];
      p, q := p + 1, q - 1;
    }
  }

  /** The place of the first digit of word w. */
  function Start(w: int, perWord: nat): int
  {
    w * perWord
  }

  /** The place of digit j of word w. */
  function At(w: int, perWord: nat, j: int): int
  {
    Start(w, perWord) + j
  }

  lemma StartBounds(w: nat, perWord: nat, numwords: nat)
    requires w < numwords
    ensures 0 <= Start(w, perWord) && Start(w + 1, perWord) == Start(w, perWord) + perWord
    ensures Start(w + 1, perWord) <= Start(numwords, perWord) == numwords * perWord
  {
    MulLe(w + 1, numwords, perWord);
    MulLe(0, w, perWord);
  }

  ghost function Get(s: seq<Digit>, i: int): int
  {
    if 0 <= i < |s| then s[i] else 0
  }

  lemma AtBound(w: nat, perWord: nat, j: nat, numwords: nat)
    requires w < numwords && j < perWord
    ensures 0 <= w * perWord <= At(w, perWord, j) < w * perWord + perWord == (w + 1) * perWord <= numwords * perWord
  {
    MulLe(w + 1, numwords, perWord);
    MulLe(0, w, perWord);
  }

  /** Places in different words are different. */
  lemma AtApart(v: nat, w: nat, perWord: nat, j: nat)
    requires v != w && j < perWord
    ensures At(v, perWord, j) < w * perWord || w * perWord + perWord <= At(v, perWord, j)
  {
    if v < w { MulLe(v + 1, w, perWord); } else { MulLe(w + 1, v, perWord); }
  }

  /** The digits of every word, the other way round. */
  method SwapInWords(a: array<Digit>, numwords: nat, perWord: nat)
    requires a.Length == numwords * perWord
    modifies a
    ensures forall w: nat, j: nat | w < numwords && j < perWord ::
              Get(a[..], At(w, perWord, j)) == Get(old(a[..]), At(w, perWord, perWord - 1 - j))
  {
    hide At, Get;
    ghost var s := a[..];
    var w := 0;
    while w < numwords
      invariant 0 <= w <= numwords
      invariant forall v: nat, j: nat | v < w && j < perWord ::
                  Get(a[..], At(v, perWord, j)) == Get(s, At(v, perWord, perWord - 1 - j))
      invariant forall v: nat, j: nat | w <= v < numwords && j < perWord :: Get(a[..], At(v, perWord, j)) == Get(s, At(v, perWord, j))
    {
      MulLe(w + 1, numwords, perWord);
      MulLe(0, w, perWord);
      ghost var t := a[..];
      BarySwap(a, w * perWord, (w + 1) * perWord);
      forall v: nat, j: nat | v < numwords && j < perWord
        ensures v != w ==> Get(a[..], At(v, perWord, j)) == Get(t, At(v, perWord, j))
        ensures v == w ==> Get(a[..], At(v, perWord, j)) == Get(t, At(v, perWord, perWord - 1 - j))
      {
        SwapOne(t, a[..], v, w, perWord, j, numwords);
      }
      forall v: nat, j: nat | v < numwords && j < perWord
        ensures v <= w ==> Get(a[..], At(v, perWord, j)) == Get(s, At(v, perWord, perWord - 1 - j))
        ensures w < v ==> Get(a[..], At(v, perWord, j)) == Get(s, At(v, perWord, j))
      {
        if v == w {
          var k: nat := perWord - 1 - j;
          assert Get(t, At(v, perWord, k)) == Get(s, At(v, perWord, k));
        } else if w < v {
          assert Get(t, At(v, perWord, j)) == Get(s, At(v, perWord, j));
        }
      }
      w := w + 1;
    }
  }

  lemma SwapOne(t: seq<Digit>, u: seq<Digit>, v: nat, w: nat, perWord: nat, j: nat, numwords: nat)
    requires |t| == |u| == numwords * perWord && v < numwords && w < numwords && j < perWord
    requires 0 <= w * perWord <= (w + 1) * perWord <= |t|
    requires forall i | w * perWord <= i < (w + 1) * perWord :: u[i] == t[w * perWord + (w + 1) * perWord - 1 - i]
    requires forall i | 0 <= i < |t| && (i < w * perWord || (w + 1) * perWord <= i) :: u[i] == t[i]
    ensures Get(u, At(v, perWord, j)) == Get(t, if v == w then At(v, perWord, perWord - 1 - j) else At(v, perWord, j))
  {
    AtBound(v, perWord, j, numwords);
    AtBound(v, perWord, perWord - 1 - j, numwords);
    AtBound(w, perWord, 0, numwords);
    if v == w {
      MirrorInWord(w * perWord, (w + 1) * perWord, perWord, j);
    } else {
      AtApart(v, w, perWord, j);
    }
  }

  lemma MirrorInWord(lo: int, hi: int, perWord: int, j: int)
    requires hi == lo + perWord
    ensures lo + hi - 1 - (lo + j) == lo + (perWord - 1 - j)
  {
  }

  /** Where digit j of word w of the number is in the end. */
  function Where(f: Format, perWord: nat, w: int, j: int): int
  {
    At(if f.msWordFirst then f.numwords - 1 - w else w, perWord, if f.msByteFirst then perWord - 1 - j else j)
  }

  function MaybeSwap(f: Format, d: Digit): Digit
  {
    if f.msByteFirst then SwapDigit(d) else d
  }

  ghost predicate LaidOut(f: Format, perWord: nat, s: seq<Digit>, t: seq<Digit>)
  {
    |s| == |t| == f.numwords * perWord
    && forall w: nat, j: nat | w < f.numwords && j < perWord :: PlacedAt(f, perWord, s, t, w, j)
  }

  ghost predicate PlacedAt(f: Format, perWord: nat, s: seq<Digit>, t: seq<Digit>, w: nat, j: nat)
  {
    var i, k := At(w, perWord, j), Where(f, perWord, w, j);
    0 <= i < |s| && 0 <= k < |t| && t[k] == MaybeSwap(f, s[i])
  }

  /** Bring digits into the order of the format. */
  method LayOut(f: Format, a: array<Digit>, perWord: nat)
    requires WholeDigits(f, perWord) && a.Length == f.numwords * perWord
    modifies a
    ensures LaidOut(f, perWord, old(a[..]), a[..])
  {
    hide SwapDigit, At, Get;
    ghost var s := a[..];
    if f.msByteFirst {
      forall i | 0 <= i < a.Length { a[i] := SwapDigit(a[i]); }
    }
    ghost var t := a[..];
    if f.msWordFirst != f.msByteFirst {
      SwapInWords(a, f.numwords, perWord);
    }
    ghost var u := a[..];
    if f.msWordFirst {
      BarySwap(a, 0, a.Length);
    }
    forall w: nat, j: nat | w < f.numwords && j < perWord ensures PlacedAt(f, perWord, s, a[..], w, j) {
      PlaceDigit(f, perWord, s, t, u, a[..], w, j);
    }
  }

  lemma PlaceDigit(f: Format, perWord: nat, s: seq<Digit>, t: seq<Digit>, u: seq<Digit>, z: seq<Digit>, w: nat, j: nat)
    requires |s| == |t| == |u| == |z| == f.numwords * perWord && w < f.numwords && j < perWord
    requires forall i | 0 <= i < |s| :: t[i] == MaybeSwap(f, s[i])
    requires if f.msWordFirst != f.msByteFirst
             then forall v: nat, k: nat | v < f.numwords && k < perWord ::
                    Get(u, At(v, perWord, k)) == Get(t, At(v, perWord, perWord - 1 - k))
             else u == t
    requires if f.msWordFirst then forall i | 0 <= i < |u| :: z[i] == u[|u| - 1 - i] else z == u
    ensures PlacedAt(f, perWord, s, z, w, j)
  {
    hide SwapDigit;
    AtBound(w, perWord, j, f.numwords);
    AtBound(w, perWord, perWord - 1 - j, f.numwords);
    AtBound(f.numwords - 1 - w, perWord, j, f.numwords);
    AtBound(f.numwords - 1 - w, perWord, perWord - 1 - j, f.numwords);
    Mirror(w, perWord, j, f.numwords);
    Mirror(w, perWord, perWord - 1 - j, f.numwords);
    if f.msWordFirst != f.msByteFirst {
      var k: nat := perWord - 1 - j;
      assert Get(u, At(w, perWord, k)) == Get(t, At(w, perWord, perWord - 1 - k));
    }
  }

  /** The mirror image of a place in the whole buffer. */
  lemma Mirror(w: nat, perWord: nat, j: nat, numwords: nat)
    requires w < numwords && j < perWord
    ensures numwords * perWord - 1 - At(w, perWord, j) == At(numwords - 1 - w, perWord, perWord - 1 - j)
  {
    assert (numwords - 1 - w) * perWord == numwords * perWord - perWord - w * perWord;
  }

  /** Byte k of word w is where the format wants it. */
  lemma BytePlaced(f: Format, perWord: nat, s: seq<Digit>, t: seq<Digit>, w: nat, k: nat)
    requires WholeDigits(f, perWord) && LaidOut(f, perWord, s, t) && w < f.numwords && k < f.wordsize
    ensures 0 <= Start(w, perWord) && Start(w, perWord) + perWord <= |s| && |Memory(t, 0, |t|)| == f.Size()
    ensures 0 <= f.Base(w) + f.Place(k) < f.Size()
    ensures Memory(t, 0, |t|)[f.Base(w) + f.Place(k)] == Memory(s, Start(w, perWord), perWord)[k]
  {
    hide SwapDigit, Memory, Start, LowBytes, Where, Format.Base, LaidOut;
    DivMod(k, SIZEOF_BDIGIT);
    QuotientBound(k, SIZEOF_BDIGIT, perWord);
    var a, c := k / SIZEOF_BDIGIT, k % SIZEOF_BDIGIT;
    MemorySize(f, perWord, s, t);
    BaseBounds(f, w);
    StartBounds(w, perWord, f.numwords);
    DigitPlaced(f, perWord, s, t, w, a);
    MemoryAt(s, Start(w, perWord), perWord, a, c);
    var d := s[At(w, perWord, a)];
    var i := Where(f, perWord, w, a);
    var b := if f.msByteFirst then SIZEOF_BDIGIT - 1 - c else c;
    MemoryAt(t, 0, |t|, i, b);
    PlaceIs(f, perWord, w, k, a, c);
    SwapBytes(d, c);
  }

  lemma DigitPlaced(f: Format, perWord: nat, s: seq<Digit>, t: seq<Digit>, w: nat, a: nat)
    requires LaidOut(f, perWord, s, t) && w < f.numwords && a < perWord
    ensures PlacedAt(f, perWord, s, t, w, a)
  {
  }

  lemma SwapBytes(d: Digit, c: nat)
    requires c < SIZEOF_BDIGIT
    ensures LowBytes(SwapDigit(d), SIZEOF_BDIGIT)[SIZEOF_BDIGIT - 1 - c] == LowBytes(d, SIZEOF_BDIGIT)[c]
  {
    hide LowBytes;
  }

  lemma PlaceIs(f: Format, perWord: nat, w: nat, k: nat, a: nat, c: nat)
    requires WholeDigits(f, perWord) && w < f.numwords && k == SIZEOF_BDIGIT * a + c && a < perWord && c < SIZEOF_BDIGIT
    ensures f.Base(w) + f.Place(k)
         == SIZEOF_BDIGIT * Where(f, perWord, w, a) + if f.msByteFirst then SIZEOF_BDIGIT - 1 - c else c
    ensures f.Size() == SIZEOF_BDIGIT * (f.numwords * perWord)
  {
    var z, v := SIZEOF_BDIGIT, if f.msWordFirst then f.numwords - 1 - w else w;
    PlaceAlgebra(z, perWord, v, a);
    PlaceAlgebra(z, perWord, v, perWord - 1 - a);
    PlaceAlgebra(z, perWord, f.numwords, 0);
    assert z * (perWord - 1 - a) == z * perWord - z - z * a;
  }

  lemma PlaceAlgebra(z: int, p: int, v: int, j: int)
    ensures z * (v * p + j) == (z * p) * v + z * j
    ensures (z * p) * v == v * (z * p) && z * 0 == 0
  {
    assert z * (v * p) == (z * p) * v;
  }

  /** The bytes in memory hold the number of the digits before they were laid out. */
  lemma {:induction false} DigitsValue(f: Format, perWord: nat, s: seq<Digit>, t: seq<Digit>, w: nat)
    requires WholeDigits(f, perWord) && LaidOut(f, perWord, s, t) && w <= f.numwords
    ensures |Memory(t, 0, |t|)| == f.Size() && 0 <= Start(w, perWord) <= |s|
    ensures BufPre(f, Memory(t, 0, |t|), w) == Val(s, 0, Start(w, perWord))
  {
    hide Memory, WordPre, Weight, Val, LaidOut, BytesVal, Pow2, Pw, Format.Base, Format.Offset, Format.Place, Start;
    var m := Memory(t, 0, |t|);
    MemorySize(f, perWord, s, t);
    StartZero(perWord, f.numwords);
    if w == 0 {
      ValEmpty(s, 0);
    } else {
      StartBounds(w - 1, perWord, f.numwords);
      var lo := Start(w - 1, perWord);
      DigitsValue(f, perWord, s, t, w - 1);
      BaseBounds(f, w - 1);
      WordDigits(f, perWord, s, t, w - 1);
      ValSplit(s, 0, lo, lo + perWord);
      DigitWeight(f, perWord, w - 1);
      ShlIs(Val(s, lo, lo + perWord), lo);
    }
  }

  lemma StartZero(perWord: nat, numwords: nat)
    ensures Start(0, perWord) == 0 && Start(numwords, perWord) == numwords * perWord
  {
  }

  lemma MemorySize(f: Format, perWord: nat, s: seq<Digit>, t: seq<Digit>)
    requires WholeDigits(f, perWord) && LaidOut(f, perWord, s, t)
    ensures |Memory(t, 0, |t|)| == f.Size() && |s| == |t| == f.numwords * perWord
  {
    PlaceAlgebra(SIZEOF_BDIGIT, perWord, f.numwords, 0);
  }

  lemma WordDigits(f: Format, perWord: nat, s: seq<Digit>, t: seq<Digit>, w: nat)
    requires WholeDigits(f, perWord) && LaidOut(f, perWord, s, t) && w < f.numwords
    ensures 0 <= Start(w, perWord) && Start(w, perWord) + perWord <= |s| && |Memory(t, 0, |t|)| == f.Size()
    ensures 0 <= f.Base(w) && f.Base(w) + f.wordsize <= f.Size()
    ensures WordPre(f, Memory(t, 0, |t|), f.Base(w), f.wordsize) == Val(s, Start(w, perWord), Start(w, perWord) + perWord)
  {
    hide Memory, WordPre, Val, LaidOut, BytesVal, Format.Base, Format.Offset, Format.Place, Start;
    MemorySize(f, perWord, s, t);
    BaseBounds(f, w);
    StartBounds(w, perWord, f.numwords);
    WordPlaced(f, perWord, s, t, w, Memory(t, 0, |t|), Memory(s, Start(w, perWord), perWord), f.Base(w));
    MemoryVal(s, Start(w, perWord), perWord);
  }

  lemma WordPlaced(f: Format, perWord: nat, s: seq<Digit>, t: seq<Digit>, w: nat, m: seq<int>, bytes: seq<int>, base: int)
    requires WholeDigits(f, perWord) && LaidOut(f, perWord, s, t) && w < f.numwords && base == f.Base(w)
    requires 0 <= Start(w, perWord) && Start(w, perWord) + perWord <= |s| && 0 <= base && base + f.wordsize <= |m| && f.wordsize <= |bytes|
    requires m == Memory(t, 0, |t|) && bytes == Memory(s, Start(w, perWord), perWord)
    ensures WordPre(f, m, base, f.wordsize) == BytesVal(bytes, f.wordsize)
  {
    hide Memory, WordPre, LaidOut, BytesVal, Format.Base, Format.Offset, Start;
    forall k | 0 <= k < f.wordsize ensures m[base + f.Place(k)] == bytes[k] {
      BytePlaced(f, perWord, s, t, w, k);
    }
    WordFromBytes(f, m, base, bytes, f.wordsize);
  }

  lemma DigitWeight(f: Format, perWord: nat, w: nat)
    requires WholeDigits(f, perWord)
    ensures 0 <= Start(w, perWord) && Weight(f, w) == Pw(Start(w, perWord))
  {
    hide Weight, Pow2, Pw;
    MulLe(0, w, perWord);
    ByteWeight(f, w);
    PwIsPow2(Start(w, perWord));
    assert 8 * SIZEOF_BDIGIT == BITSPERDIG;
    PlaceAlgebra(SIZEOF_BDIGIT, perWord, w, 0);
    assert 8 * (SIZEOF_BDIGIT * (Start(w, perWord))) == (8 * SIZEOF_BDIGIT) * (Start(w, perWord));
  }

  /** Copy the digits that there is room for, and zeros. */
  method CopyDigitsTo(zs: array<Digit>, x: Span)
    requires x.Ok() && x.a != zs
    modifies zs
    ensures zs.Length >= x.Len() ==> Val(zs[..], 0, zs.Length) == x.Num()
    ensures zs.Length < x.Len() ==> Val(zs[..], 0, zs.Length) == x.Take(zs.Length).Num()
  {
    hide Val;
    var n := zs.Length;
    CopyPadded(Span(zs, 0, n), if x.Len() <= n then x else x.Take(n));
  }

  /** What the length of a number says about it, if n digits are kept. */
  lemma LengthTells(x: Span, n: nat)
    requires x.Ok() && 0 < x.Len() && x.a[x.hi - 1] != 0
    ensures x.Len() <= n ==> x.Num() < Pw(n)
    ensures n < x.Len() ==> Low(x.Num(), Pw(n)) == x.Take(n).Num() && Pw(n) <= x.Num()
    ensures n < x.Len() ==> (x.Num() == Pw(n) <==> x.Take(n).Num() == 0 && n == x.Len() - 1 && x.a[x.lo + n] == 1)
  {
    hide Val, Pw, Shl;
    if x.Len() <= n {
      SpanBound(x, n);
    } else {
      JoinVal(x, n);
      SpanBound(x.Take(n), n);
      TopNonZero(x.Drop(n));
      DropOne(x.Drop(n));
      ShlIs(x.Drop(n).Num(), n);
      LowInt(x.Num(), x.Take(n).Num(), Pw(n), x.Drop(n).Num());
    }
  }

  lemma LowInt(v: nat, low: int, m: nat, high: int)
    requires v == low + high * m && 0 <= low < m && 0 < high
    ensures Low(v, m) == low && m <= v && (v == m <==> low == 0 && high == 1)
  {
    MulDef(m, high);
    HighInt(v, low, m, high);
  }

  /** Only one digit, which is 1. */
  lemma DropOne(y: Span)
    requires y.Ok() && 0 < y.Len() && y.a[y.hi - 1] != 0
    ensures y.Num() == 1 <==> y.Len() == 1 && y.a[y.lo] == 1
  {
    hide Val;
    ValSingle(y.a[..], y.lo);
    BPositive();
    if y.Len() > 1 { LongNotSmall(y); }
  }

  /** The shortcut for words of whole digits, in any order of words and bytes. */
  method PackWholeDigits(f: Format, buf: array<int>, ds: Span, negative: bool, twocomp: bool, perWord: nat) returns (code: int)
    requires WholeDigits(f, perWord) && ds.Ok() && buf.Length == f.Size() && ds.Num() > 0
    modifies buf
    ensures Holds(f, buf[..], WithSign(negative, ds.Num()), twocomp)
    ensures code == Classify(WithSign(negative, ds.Num()), Modulus(f), twocomp)
  {
    hide Val, Pw, Shl, BufPre, Weight, Fits, Holds, Low, Memory, LaidOut;
    BPositive();
    var x := BaryTrunc(ds);
    ValEmpty(x.a[..], x.lo);
    var dst := f.numwords * perWord;
    var zs := new Digit[dst](_ => 0);
    CopyDigitsTo(zs, x);
    LengthTells(x, dst);
    ModulusIs(f, perWord);
    var overflow := dst < x.Len();
    if !overflow { LowSmall(x.Num(), Pw(dst)); }
    if negative && twocomp {
      LowNegative(x.Num(), Pw(dst));
      var zero := Bary2comp(Span(zs, 0, dst));
      ShlOne(dst);
      if zero == 1 && overflow && dst == x.Len() - 1 && x.a[x.lo + dst] == 1 { overflow := false; }
    }
    LayOutBytes(f, buf, zs, perWord);
    code := if negative then -1 else 1;
    if overflow { code := code * 2; }
    HoldsLow(f, buf[..], WithSign(negative, ds.Num()), twocomp);
  }

  method LayOutBytes(f: Format, buf: array<int>, zs: array<Digit>, perWord: nat)
    requires WholeDigits(f, perWord) && zs.Length == f.numwords * perWord && buf.Length == f.Size()
    modifies buf, zs
    ensures Fits(f, buf[..]) && BufferValue(f, buf[..]) == old(Val(zs[..], 0, zs.Length))
  {
    hide Val, BufPre, Fits, Memory, LaidOut, Start;
    ghost var s := zs[..];
    LayOut(f, zs, perWord);
    ghost var t := zs[..];
    MemorySize(f, perWord, s, t);
    var m := Memory(zs[..], 0, zs.Length);
    MemoryVal(t, 0, |t|);
    forall i | 0 <= i < buf.Length { buf[i] := m[i]; }
    assert buf[..] == m;
    BytesFit(f, m);
    DigitsValue(f, perWord, s, t, f.numwords);
    StartZero(perWord, f.numwords);
  }

  lemma ModulusIs(f: Format, perWord: nat)
    requires WholeDigits(f, perWord)
    ensures Modulus(f) == Pw(f.numwords * perWord)
  {
    hide Weight, Pw;
    DigitWeight(f, perWord, f.numwords);
  }

  lemma LowSmall(v: nat, m: nat)
    requires v < m
    ensures Low(v, m) == v
  {
    SmallMod(v, m);
  }

  lemma LowNegative(v: nat, m: nat)
    requires 0 < m
    ensures Low(-(v as int), m) == if Low(v, m) == 0 then 0 else m - Low(v, m)
  {
    ComplementMod(v, m, v % m);
  }

  /** bary_pack: whichever shortcut applies, the bytes and the code are those of the general way. */
  method BaryPack(f: Format, buf: array<int>, ds: Span, negative: bool, twocomp: bool) returns (code: int)
    requires f.Ok() && ds.Ok() && buf.Length == f.Size()
    modifies buf
    ensures Holds(f, buf[..], WithSign(negative, ds.Num()), twocomp)
    ensures code == Classify(WithSign(negative, ds.Num()), Modulus(f), twocomp)
  {
    hide Val, Holds, Classify, Pow2, Weight;
    var x := BaryTrunc(ds);
    ValEmpty(x.a[..], x.lo);
    if x.Len() != 0 {
      TopNonZero(x);
      if OneWord(f) && (f.wordsize == 1 || f.wordsize == 2 || f.wordsize == 4 || f.wordsize == 8) {
        code := PackOneWord(f, buf, x, negative, twocomp);
        return;
      }
      if LittleEndian(f) {
        code := PackLittleEndian(f, buf, x, negative, twocomp);
        return;
      }
      if f.nails == 0 && f.wordsize % SIZEOF_BDIGIT == 0 {
        var perWord := f.wordsize / SIZEOF_BDIGIT;
        DivMod(f.wordsize, SIZEOF_BDIGIT);
        code := PackWholeDigits(f, buf, x, negative, twocomp, perWord);
        return;
      }
    }
    code := PackGeneric(f, buf, ds, negative, twocomp);
  }

  /** With or without the shortcuts (INTEGER_PACK_FORCE_GENERIC_IMPLEMENTATION), the bytes and the code are the same. */
  method SameAsGeneric(f: Format, a: array<int>, b: array<int>, ds: Span, negative: bool, twocomp: bool)
    returns (codeA: int, codeB: int)
    requires f.Ok() && ds.Ok() && a.Length == b.Length == f.Size() && a != b
    modifies a, b
    ensures a[..] == b[..] && codeA == codeB
  {
    hide Val, Holds, Classify, Weight;
    codeA := BaryPack(f, a, ds, negative, twocomp);
    codeB := PackGeneric(f, b, ds, negative, twocomp);
    HoldsUnique(f, a[..], b[..], WithSign(negative, ds.Num()), twocomp);
  }
}
