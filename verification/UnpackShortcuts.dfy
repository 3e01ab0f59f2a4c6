/** The shortcuts of bary_unpack_internal (bignum.c:1111-1213) for a single machine word, for a little-endian layout and
    for words of whole digits, and the choice between them and the general way. */
module UnpackShortcuts {
  import opened Digits
  import opened BaryAdd
  import opened BarySigned
  import opened BaryShift
  import opened BaryDiv
  import opened BigLogic
  import opened PackFormat
  import opened IntegerPack
  import opened PackBytes
  import opened PackShortcuts
  import opened PackDigits
  import opened IntegerUnpack

  /** Without nails, what is read is just the number in the buffer. */
  lemma ReadBytes(f: Format, s: seq<int>)
    requires f.Ok() && f.nails == 0 && |s| == f.Size() && AreBytes(s)
    ensures BufRead(f, s, f.numwords) == BufferValue(f, s)
  {
    hide BufRead, BufPre, Fits;
    BytesFit(f, s);
    BufReadFits(f, s, f.numwords);
  }

  /** Nails are ignored: what is read of a word is its plain bytes without the top bits. */
  lemma {:induction false} NailsIgnored(f: Format, s: seq<int>, base: int, bytes: seq<int>, k: nat)
    requires f.Ok() && 0 <= base && k <= f.wordsize && base + f.wordsize <= |s| && f.wordsize <= |bytes| && AreBytes(bytes)
    requires forall j | 0 <= j < f.wordsize :: s[base + f.Place(j)] == bytes[j]
    ensures WordRead(f, s, base, k) == BytesVal(bytes, k) % Pow2(f.Offset(k))
  {
    hide Pow2, Format.Offset, Format.Width;
    if k == 0 {
      OffsetIs(f, 0);
      SmallMod(0, Pow2(0));
    } else {
      NailsIgnored(f, s, base, bytes, k - 1);
      assert s[base + f.Place(k - 1)] == bytes[k - 1];
      WidthOf(f, k - 1);
      BytesBound(bytes, k - 1);
      NextByte(BytesVal(bytes, k - 1), bytes[k - 1], k - 1, f.Offset(k - 1), f.Width(k - 1));
    }
  }

  /** One byte more above v, which has k bytes, of which e bits count; w bits of the new byte do. */
  lemma NextByte(v: nat, b: nat, k: nat, e: nat, w: nat)
    requires v < Pow2(8 * k) && (w > 0 ==> e == 8 * k) && (w == 0 ==> e <= 8 * k)
    ensures v + Pow2(8 * k) * b >= 0
    ensures v % Pow2(e) + Pow2(e) * (b % Pow2(w)) == (v + Pow2(8 * k) * b) % Pow2(e + w)
  {
    hide Pow2;
    MulLe(0, b, Pow2(8 * k));
    if w > 0 {
      Pow2Add(8 * k, w);
      SmallMod(v, Pow2(8 * k));
      ByteOnTop(v, Pow2(8 * k), b, Pow2(w));
    } else {
      Pow2Zero();
      DivUnique(b, 1, b, 0);
      Pow2Add(e, 8 * k - e);
      AboveModulus(v, Pow2(e), Pow2(8 * k - e), b);
    }
  }

  lemma ByteOnTop(v: nat, p: nat, b: nat, q: nat)
    requires v < p && 0 < q
    ensures 0 <= p * b && 0 < p * q && (v + p * b) % (p * q) == v + p * (b % q)
  {
    MulLe(0, b, p);
    DivUnique(v + p * b, p, b, v);
    ModSplit(v + p * b, p, q);
  }

  lemma AboveModulus(v: nat, m: nat, q: nat, b: nat)
    requires 0 < m
    ensures (v + (m * q) * b) % m == v % m
  {
    DivMod(v, m);
    assert (m * q) * b == m * (q * b);
    assert m * (v / m + q * b) == m * (v / m) + m * (q * b);
    DivUnique(v + (m * q) * b, m, v / m + q * b, v % m);
  }

  /** integer_unpack_single_bdigit */
  method UnpackSingle(u: nat, size: nat, negative: bool, twocomp: bool) returns (d: Digit, sign: int)
    requires 0 < size <= SIZEOF_BDIGIT && u < Pow2(8 * size)
    ensures Delivers(Interpreted(u, Pow2(8 * size), negative, twocomp), sign, d, 1)
  {
    hide Pow2;
    var m, h := Pow2(8 * size), Pow2(8 * size - 1);
    WordSize(size);
    if !twocomp { return u, if negative then -1 else 1; }
    sign := if negative then (if size == SIZEOF_BDIGIT && u == 0 then -2 else -1) else (if h <= u then -1 else 1);
    if sign < 0 {
      var filled := u + (B - m);
      SingleNegated(u, m);
      d := BigLo(1 + (B - 1 - filled));
    } else {
      d := u;
    }
  }

  lemma WordSize(size: nat)
    requires 0 < size <= SIZEOF_BDIGIT
    ensures Pow2(8 * size) == 2 * Pow2(8 * size - 1) <= B && (Pow2(8 * size) == B <==> size == SIZEOF_BDIGIT)
    ensures Pw(1) == B && 1 < Pow2(8 * size)
  {
    hide Pow2;
    assert 8 * SIZEOF_BDIGIT == BITSPERDIG;
    Pow2Monotone(8 * size, BITSPERDIG);
    if size < SIZEOF_BDIGIT { Pow2Strict(8 * size, BITSPERDIG); }
    PwNext(0);
    PwZero();
    Pow2Next(8 * size - 1);
  }

  lemma SingleNegated(u: nat, m: nat)
    requires u < m <= B
    ensures BigLo(m - u) == if u == 0 && m == B then 0 else m - u
  {
    BPositive();
    if u == 0 && m == B { DivUnique(B, B, 1, 0); } else { SmallMod(m - u, B); }
  }

  /** The shortcut for one word. */
  method UnpackOneWord(f: Format, s: seq<int>, negative: bool, twocomp: bool, zds: array<Digit>) returns (sign: int)
    requires OneWord(f) && |s| == f.Size() && AreBytes(s) && zds.Length == 1
    modifies zds
    ensures Delivers(Interpreted(BufRead(f, s, f.numwords), Modulus(f), negative, twocomp), sign,
                     Val(zds[..], 0, zds.Length), zds.Length)
  {
    hide Val, Pow2, BufRead, BufPre, Weight, Delivers;
    var u := LoadWord(f, s);
    OneWordValue(f, s);
    ReadBytes(f, s);
    var d;
    d, sign := UnpackSingle(u, f.wordsize, negative, twocomp);
    zds[0] := d;
    ValSingle(zds[..], 0);
  }

  /** Read a machine word, and swap its bytes if the most significant one comes first. */
  method LoadWord(f: Format, s: seq<int>) returns (u: nat)
    requires OneWord(f) && |s| == f.Size() && AreBytes(s)
    ensures u == BufferValue(f, s) && u < Pow2(8 * f.wordsize)
  {
    hide Pow2, BufPre, BytesVal;
    OneWordValue(f, s);
    var n := f.wordsize;
    var bytes := seq(n, j requires 0 <= j < n => s[if f.msByteFirst then n - 1 - j else j]);
    WordFromBytes(f, s, 0, bytes, n);
    BytesBound(bytes, n);
    u := BytesVal(bytes, n);
  }

  /** The bytes of digit i in memory. */
  function Chunk(m: seq<int>, i: nat): seq<int>
  {
    if 0 <= SIZEOF_BDIGIT * i <= SIZEOF_BDIGIT * (i + 1) <= |m| then m[SIZEOF_BDIGIT * i..SIZEOF_BDIGIT * (i + 1)] else []
  }

  lemma ChunkBytes(m: seq<int>, i: nat, n: nat)
    requires AreBytes(m) && |m| == SIZEOF_BDIGIT * n && i < n
    ensures |Chunk(m, i)| == SIZEOF_BDIGIT && AreBytes(Chunk(m, i))
  {
    ByteCount(i);
    MulLe(i + 1, n, SIZEOF_BDIGIT);
    MulLe(0, i, SIZEOF_BDIGIT);
  }

  /** Digits whose bytes are those of m, one after the other. */
  lemma {:induction false} MemoryOf(z: seq<Digit>, m: seq<int>, n: nat)
    requires n <= |z| && SIZEOF_BDIGIT * n <= |m| && forall i: nat | i < n :: LowBytes(z[i], SIZEOF_BDIGIT) == Chunk(m, i)
    ensures 0 <= SIZEOF_BDIGIT * n && Memory(z, 0, n) == m[..SIZEOF_BDIGIT * n]
  {
    hide LowBytes;
    if n > 0 {
      ByteCount(n - 1);
      MulLe(0, n - 1, SIZEOF_BDIGIT);
      MemoryOf(z, m, n - 1);
      assert Chunk(m, n - 1) == m[SIZEOF_BDIGIT * (n - 1)..SIZEOF_BDIGIT * n];
    }
  }

  /** Copy bytes over the digits. */
  method LoadDigits(zds: array<Digit>, m: seq<int>)
    requires AreBytes(m) && |m| == SIZEOF_BDIGIT * zds.Length
    modifies zds
    ensures Memory(zds[..], 0, zds.Length) == m
    ensures Val(zds[..], 0, zds.Length) == BytesVal(m, |m|)
  {
    hide Val, LowBytes, BytesVal, DigitOf, Chunk, Memory, AreBytes;
    var n := zds.Length;
    forall i: nat | i < n ensures |Chunk(m, i)| == SIZEOF_BDIGIT && AreBytes(Chunk(m, i)) { ChunkBytes(m, i, n); }
    for i := 0 to n
      invariant forall k: nat | k < i :: LowBytes(zds[k], SIZEOF_BDIGIT) == Chunk(m, k)
    {
      zds[i] := DigitOf(Chunk(m, i));
    }
    MemoryOf(zds[..], m, n);
    MemoryVal(zds[..], 0, n);
  }

  /** Copy bytes over the lower end of the digits, and fill up with zeros or with ones. */
  method CopyFilled(zds: array<Digit>, s: seq<int>, ones: bool)
    requires AreBytes(s) && |s| <= SIZEOF_BDIGIT * zds.Length
    modifies zds
    ensures Val(zds[..], 0, zds.Length) == BytesVal(s, |s|) + if ones then Pw(zds.Length) - Pow2(8 * |s|) else 0
  {
    hide Val, BytesVal, Pow2, Pw, Memory;
    var more := seq(SIZEOF_BDIGIT * zds.Length - |s|, _ => if ones then 255 else 0);
    LoadDigits(zds, s + more);
    BytesJoin(s, more, |more|);
    FillValue(more, |s|, ones);
    ByteCount(zds.Length);
    PwIsPow2(zds.Length);
  }

  lemma FillValue(more: seq<int>, k: nat, ones: bool)
    requires forall i | 0 <= i < |more| :: more[i] == if ones then 255 else 0
    ensures Mul(Pow2(8 * k), BytesVal(more, |more|)) == if ones then Pow2(8 * (k + |more|)) - Pow2(8 * k) else 0
  {
    hide Pow2;
    if ones {
      AllOnes(more, |more|);
      Pow2Add(8 * k, 8 * |more|);
      var p, q := Pow2(8 * k), Pow2(8 * |more|);
      assert p * (q - 1) == p * q - p;
    } else {
      BytesZero(more, 0, |more|);
    }
  }

  /** The top bit of the number is that of its last byte. */
  lemma TopOfBytes(s: seq<int>)
    requires 0 < |s| && AreBytes(s)
    ensures 128 <= s[|s| - 1] <==> Pow2(8 * |s|) <= 2 * BytesVal(s, |s|)
  {
    hide Pow2;
    var n, t := |s|, s[|s| - 1];
    var p := Pow2(8 * (n - 1));
    BytesBound(s, n - 1);
    EightBits();
    Pow2Add(8 * (n - 1), 8);
    if 128 <= t { MulLe(128, t, p); } else { MulLe(t + 1, 128, p); }
  }

  /** The shortcut for a little-endian layout.  With nothing to read, the sign extension still looks at the byte before
      the buffer; before is what it finds there. */
  method UnpackLittleEndian(f: Format, s: seq<int>, negative: bool, twocomp: bool, zds: array<Digit>, before: int)
    returns (sign: int, outside: bool)
    requires LittleEndian(f) && |s| == f.Size() && AreBytes(s) && zds.Length == NumBdigits(f).0
    modifies zds
    ensures Delivers(Interpreted(BufRead(f, s, f.numwords), Modulus(f), negative, twocomp), sign,
                     Val(zds[..], 0, zds.Length), zds.Length)
    ensures outside <==> f.numwords == 0 && twocomp && !negative
  {
    hide Val, BytesVal, Pow2, Pw, BufRead, BufPre, Weight;
    ReadBytes(f, s);
    LittleEndianValue(f, s);
    var n := zds.Length;
    LittleEndianRoom(f, n);
    BytesBound(s, |s|);
    NoWords(f);
    PwZero();
    outside := false;
    var z := Span(zds, 0, n);
    ShlOne(n);
    if !twocomp {
      CopyFilled(zds, s, false);
      sign := if negative then -1 else 1;
    } else if negative {
      CopyFilled(zds, s, true);
      var zero := Bary2comp(z);
      sign := if zero == 1 then -2 else -1;
    } else {
      outside := |s| == 0;
      var top := if outside then before else s[|s| - 1];
      if !outside { TopOfBytes(s); }
      CopyFilled(zds, s, 128 <= top);
      sign := 1;
      if 128 <= top {
        var zero := Bary2comp(z);
        sign := -1;
      }
    }
    SpanBound(z, n);
  }

  lemma NoWords(f: Format)
    requires f.Ok()
    ensures f.numwords == 0 <==> f.Size() == 0
  {
    if f.numwords > 0 { MulLe(1, f.numwords, f.wordsize); }
  }

  /** The digits have room for the bytes, and if there are none, no digits. */
  lemma LittleEndianRoom(f: Format, n: nat)
    requires f.Ok() && f.nails == 0 && n == NumBdigits(f).0
    ensures f.Size() <= SIZEOF_BDIGIT * n && Pow2(8 * f.Size()) <= Pw(n)
    ensures f.Size() == 0 ==> n == 0 && Pow2(8 * f.Size()) == 1
    ensures f.Size() > 0 ==> Pow2(8 * f.Size()) > 1
  {
    hide Pow2, Pw;
    NoNails(f, f.wordsize);
    assert (8 * f.wordsize) * f.numwords == 8 * f.Size();
    ByteCount(n);
    assert n * BITSPERDIG == BITSPERDIG * n;
    PwIsPow2(n);
    Pow2Monotone(8 * f.Size(), BITSPERDIG * n);
    Pow2Zero();
    if f.Size() > 0 { Pow2Strict(0, 8 * f.Size()); }
    if f.Size() == 0 && n > 0 { MulLe(1, n, BITSPERDIG); }
  }

  /** Bring digits from the order of the format into that of the number. */
  method TakeUp(f: Format, a: array<Digit>, perWord: nat)
    requires WholeDigits(f, perWord) && a.Length == f.numwords * perWord
    modifies a
    ensures LaidOut(f, perWord, a[..], old(a[..]))
  {
    hide SwapDigit, At, Get, PlacedAt;
    ghost var z := a[..];
    if f.msWordFirst {
      BarySwap(a, 0, a.Length);
    }
    ghost var u := a[..];
    if f.msWordFirst != f.msByteFirst {
      SwapInWords(a, f.numwords, perWord);
    }
    ghost var t := a[..];
    if f.msByteFirst {
      forall i | 0 <= i < a.Length { a[i] := SwapDigit(a[i]); }
    }
    ghost var s := a[..];
    forall i | 0 <= i < |s| ensures t[i] == MaybeSwap(f, s[i]) { SwapTwice(t[i]); }
    if f.msWordFirst != f.msByteFirst {
      forall v: nat, k: nat | v < f.numwords && k < perWord
        ensures Get(u, At(v, perWord, k)) == Get(t, At(v, perWord, perWord - 1 - k))
      {
        var j: nat := perWord - 1 - k;
        assert Get(t, At(v, perWord, j)) == Get(u, At(v, perWord, perWord - 1 - j));
      }
    }
    forall w: nat, j: nat | w < f.numwords && j < perWord ensures PlacedAt(f, perWord, s, z, w, j) {
      PlaceDigit(f, perWord, s, t, u, z, w, j);
    }
  }

  /** The shortcut for words of whole digits, in any order of words and bytes.  Without digits, the sign extension still
      looks at the digit before the first; before is what it finds there. */
  method UnpackWholeDigits(f: Format, s: seq<int>, negative: bool, twocomp: bool, perWord: nat, zds: array<Digit>,
                           before: Digit)
    returns (sign: int, outside: bool)
    requires WholeDigits(f, perWord) && |s| == f.Size() && AreBytes(s) && zds.Length == f.numwords * perWord
    modifies zds
    ensures Delivers(Interpreted(BufRead(f, s, f.numwords), Modulus(f), negative, twocomp), sign,
                     Val(zds[..], 0, zds.Length), zds.Length)
    ensures outside <==> f.numwords == 0 && twocomp && !negative
  {
    hide Val, Pow2, Pw, BufRead, BufPre, Weight, Memory;
    var n := zds.Length;
    LoadWholeDigits(f, s, perWord, zds);
    ModulusIs(f, perWord);
    NoDigits(f, perWord);
    outside := false;
    var z := Span(zds, 0, n);
    SpanBound(z, n);
    ShlOne(n);
    sign := if negative then -1 else 1;
    if twocomp && negative {
      var zero := Bary2comp(z);
      sign := if zero == 1 then -2 else -1;
    } else if twocomp {
      outside := n == 0;
      var top := if outside then before else zds[n - 1];
      if !outside { TopOfDigits(z); }
      if Pow2(BITSPERDIG - 1) <= top {
        var zero := Bary2comp(z);
        sign := -1;
      }
    }
    SpanBound(z, n);
  }

  lemma NoDigits(f: Format, perWord: nat)
    requires WholeDigits(f, perWord)
    ensures f.numwords == 0 <==> f.numwords * perWord == 0
    ensures Pw(0) == 1 && (f.numwords > 0 ==> Pw(f.numwords * perWord) > 1)
  {
    hide Pw;
    PwZero();
    if f.numwords > 0 {
      MulLe(1, f.numwords, perWord);
      BPositive();
      PwNext(0);
      PwMonotone(1, f.numwords * perWord);
    }
  }

  lemma TopOfDigits(z: Span)
    requires z.Ok() && 0 < z.Len()
    ensures Pow2(BITSPERDIG - 1) <= z.a[z.hi - 1] <==> Pw(z.Len()) <= 2 * z.Num()
  {
    hide Val, Pw, Pow2;
    var h, n := Pow2(BITSPERDIG - 1), z.Len();
    TopBit(z, h);
    Pow2Next(BITSPERDIG - 1);
    PwNext(n - 1);
    assert 2 * (h * Pw(n - 1)) == (2 * h) * Pw(n - 1);
  }

  method LoadWholeDigits(f: Format, s: seq<int>, perWord: nat, zds: array<Digit>)
    requires WholeDigits(f, perWord) && |s| == f.Size() && AreBytes(s) && zds.Length == f.numwords * perWord
    modifies zds
    ensures Val(zds[..], 0, zds.Length) == BufRead(f, s, f.numwords)
  {
    hide Val, BufRead, BufPre, Memory, LaidOut, Start, BytesVal;
    PlaceAlgebra(SIZEOF_BDIGIT, perWord, f.numwords, 0);
    LoadDigits(zds, s);
    ghost var t := zds[..];
    TakeUp(f, zds, perWord);
    DigitsValue(f, perWord, zds[..], t, f.numwords);
    StartZero(perWord, f.numwords);
    ReadBytes(f, s);
  }

  /** Whether the sign extension looks outside the buffer: only in the two shortcuts that copy, and only if there are no
      words, so that there is nothing to extend. */
  predicate LooksOutside(f: Format, negative: bool, twocomp: bool)
  {
    f.numwords == 0 && twocomp && !negative && f.nails == 0
    && ((!f.msWordFirst && !f.msByteFirst) || f.wordsize % SIZEOF_BDIGIT == 0)
  }

  /** Not so if there is a word, or if no sign is extended. */
  lemma InsideIf(f: Format, negative: bool, twocomp: bool)
    ensures f.numwords > 0 || !twocomp || negative ==> !LooksOutside(f, negative, twocomp)
  {
  }

  /** bary_unpack_internal */
  method UnpackInternal(f: Format, s: seq<int>, negative: bool, twocomp: bool, zds: array<Digit>,
                        byteBefore: int, digitBefore: Digit)
    returns (sign: int, outside: bool)
    requires f.Ok() && |s| == f.Size() && AreBytes(s) && zds.Length == NumBdigits(f).0
    modifies zds
    ensures Delivers(Interpreted(BufRead(f, s, f.numwords), Modulus(f), negative, twocomp), sign,
                     Val(zds[..], 0, zds.Length), zds.Length)
    ensures outside <==> LooksOutside(f, negative, twocomp)
  {
    hide Val, Pw, Pow2, BufRead, Weight, Delivers, Interpreted, NumBdigits, AreBytes, Format.Size;
    outside := false;
    if OneWord(f) && (f.wordsize == 1 || f.wordsize == 2 || f.wordsize == 4 || f.wordsize == 8) {
      OneDigit(f);
      sign := UnpackOneWord(f, s, negative, twocomp, zds);
    } else if LittleEndian(f) {
      sign, outside := UnpackLittleEndian(f, s, negative, twocomp, zds, byteBefore);
    } else if f.nails == 0 && f.wordsize % SIZEOF_BDIGIT == 0 {
      sign, outside := UnpackWhole(f, s, negative, twocomp, zds, digitBefore);
    } else {
      sign := UnpackBits(f, s, negative, twocomp, zds);
    }
  }

  method UnpackWhole(f: Format, s: seq<int>, negative: bool, twocomp: bool, zds: array<Digit>, before: Digit)
    returns (sign: int, outside: bool)
    requires f.Ok() && f.nails == 0 && f.wordsize % SIZEOF_BDIGIT == 0
    requires |s| == f.Size() && AreBytes(s) && zds.Length == NumBdigits(f).0
    modifies zds
    ensures Delivers(Interpreted(BufRead(f, s, f.numwords), Modulus(f), negative, twocomp), sign,
                     Val(zds[..], 0, zds.Length), zds.Length)
    ensures outside <==> f.numwords == 0 && twocomp && !negative
  {
    hide Val, Pw, Pow2, BufRead, Weight, Delivers, Interpreted, AreBytes, Format.Size;
    DivMod(f.wordsize, SIZEOF_BDIGIT);
    var perWord := f.wordsize / SIZEOF_BDIGIT;
    WholeRoom(f, perWord, NumBdigits(f).0, NumBdigits(f).1);
    sign, outside := UnpackWholeDigits(f, s, negative, twocomp, perWord, zds, before);
  }

  /** rb_integer_unpack: whichever shortcut applies, the integer is that of the general way, whatever lies outside. */
  method BaryUnpack(f: Format, s: seq<int>, negative: bool, twocomp: bool, byteBefore: int, digitBefore: Digit)
    returns (x: Big, outside: bool)
    requires f.Ok() && |s| == f.Size() && AreBytes(s)
    ensures x.digits.Ok() && fresh(x.digits.a)
    ensures Stands(Interpreted(BufRead(f, s, f.numwords), Modulus(f), negative, twocomp), x, NumBdigits(f).0)
    ensures outside <==> LooksOutside(f, negative, twocomp)
  {
    hide Val, Pw, Pow2, BufRead, Weight, Delivers, Stands, Interpreted, NumBdigits, AreBytes, Format.Size, LooksOutside;
    BPositive();
    var zds := new Digit[NumBdigits(f).0](_ => 0);
    var sign;
    sign, outside := UnpackInternal(f, s, negative, twocomp, zds, byteBefore, digitBefore);
    x := Deliver(zds, sign, Interpreted(BufRead(f, s, f.numwords), Modulus(f), negative, twocomp));
  }

  /** No words, of one byte or of one digit, and the sign extended: the code looks outside the buffer, and the integer
      is zero whatever it finds there. */
  method NothingToExtend(wholeDigit: bool, byteBefore: int, digitBefore: Digit) returns (x: Big, outside: bool)
    ensures outside && x.digits.Ok() && x.Int() == 0
  {
    hide Val, Pw, Pow2;
    var f := if wholeDigit then Format(0, SIZEOF_BDIGIT, 0, true, true) else Format(0, 1, 0, false, false);
    x, outside := BaryUnpack(f, [], false, true, byteBefore, digitBefore);
  }

  lemma OneDigit(f: Format)
    requires OneWord(f)
    ensures NumBdigits(f).0 == 1
  {
    NoNails(f, f.wordsize);
    assert 8 * SIZEOF_BDIGIT == BITSPERDIG;
    var n := NumBdigits(f).0;
    assert 0 * BITSPERDIG == 0;
    if n > 1 { MulLe(2, n, BITSPERDIG); }
  }

  /** Words of whole digits fill the digits. */
  lemma WholeRoom(f: Format, perWord: nat, n: nat, nlp: nat)
    requires WholeDigits(f, perWord) && (n, nlp) == NumBdigits(f)
    ensures n == f.numwords * perWord
  {
    NoNails(f, f.wordsize);
    PlaceAlgebra(SIZEOF_BDIGIT, perWord, f.numwords, 0);
    ByteCount(f.numwords * perWord);
    assert (8 * f.wordsize) * f.numwords == 8 * (f.numwords * f.wordsize);
    assert (f.numwords * perWord) * BITSPERDIG == BITSPERDIG * (f.numwords * perWord);
    PaddingUnique(n, nlp, f.numwords * perWord, 0, f.WordBits() * f.numwords);
  }

  /** With or without the shortcuts (INTEGER_PACK_FORCE_GENERIC_IMPLEMENTATION), the integer and its digits are the same. */
  method UnpackSameAsGeneric(f: Format, s: seq<int>, negative: bool, twocomp: bool, byteBefore: int, digitBefore: Digit)
    returns (x: Big, y: Big)
    requires f.Ok() && |s| == f.Size() && AreBytes(s)
    ensures x.digits.Ok() && y.digits.Ok() && x.Int() == y.Int() && x.digits.Len() == y.digits.Len()
    ensures forall k | x.digits.lo <= k < x.digits.hi :: x.digits.a[k] == y.digits.a[k - x.digits.lo + y.digits.lo]
  {
    hide Val, Pw, BufRead, Weight, Interpreted;
    var outside;
    x, outside := BaryUnpack(f, s, negative, twocomp, byteBefore, digitBefore);
    y := UnpackGeneric(f, s, negative, twocomp);
    var a, b := x.digits, y.digits;
    ValInjective(a.a[..], a.lo, b.a[..], b.lo, a.Len());
    forall k | a.lo <= k < a.hi ensures a.a[k] == b.a[k - a.lo + b.lo] {
      assert a.a[..][k] == b.a[..][k - a.lo + b.lo];
    }
  }

  /** A buffer that holds a number consists of bytes. */
  lemma FitsBytes(f: Format, s: seq<int>)
    requires f.Ok() && Fits(f, s)
    ensures AreBytes(s)
  {
    hide Format.Base, Format.Place, Pow2;
    forall i | 0 <= i < |s| ensures 0 <= s[i] < 256 {
      var w, k := Covered(f, i);
      assert WordAtFits(f, s, w);
      BaseBounds(f, w);
      ByteRange(f, s, f.Base(w), k);
      WidthBound(f, k);
      EightBits();
      Pow2Monotone(f.Width(k), 8);
    }
  }

  /** What is packed without overflow is unpacked as it was: negative numbers with the flag that says so. */
  method PackAndUnpack(f: Format, buf: array<int>, ds: Span, negative: bool, twocomp: bool, byteBefore: int, digitBefore: Digit)
    returns (code: int, x: Big)
    requires f.Ok() && ds.Ok() && buf.Length == f.Size()
    modifies buf
    ensures code == Classify(WithSign(negative, ds.Num()), Modulus(f), twocomp)
    ensures x.digits.Ok()
    ensures -1 <= code <= 1 ==> x.Int() == WithSign(negative, ds.Num())
  {
    hide Val, BufRead, BufPre, Weight, Fits;
    ghost var v := WithSign(negative, ds.Num());
    code := BaryPack(f, buf, ds, negative, twocomp);
    BufReadFits(f, buf[..], f.numwords);
    FitsBytes(f, buf[..]);
    var outside;
    x, outside := BaryUnpack(f, buf[..], code < 0, twocomp && code < 0, byteBefore, digitBefore);
    InsideIf(f, code < 0, twocomp && code < 0);
    assert !outside;
    if -1 <= code <= 1 { RoundTrip(v, Modulus(f), twocomp); }
  }

  /** Packed as two's complement and read back with the sign extended: the number, exactly if it needs one bit less. */
  method PackAndExtend(f: Format, buf: array<int>, ds: Span, negative: bool, byteBefore: int, digitBefore: Digit)
    returns (x: Big)
    requires f.Ok() && ds.Ok() && buf.Length == f.Size()
    modifies buf
    ensures x.digits.Ok()
    ensures var v := WithSign(negative, ds.Num());
            x.Int() == v <==> -(Modulus(f) as int) <= 2 * v < Modulus(f)
  {
    hide Val, BufRead, BufPre, Weight, Fits;
    var code := BaryPack(f, buf, ds, negative, true);
    BufReadFits(f, buf[..], f.numwords);
    FitsBytes(f, buf[..]);
    var outside;
    x, outside := BaryUnpack(f, buf[..], false, true, byteBefore, digitBefore);
    SignExtension(WithSign(negative, ds.Num()), Modulus(f));
  }

  lemma SignExtension(v: int, m: nat)
    requires 0 < m
    ensures v % m >= 0 && (Interpreted(v % m, m, false, true) == v <==> -(m as int) <= 2 * v < m)
  {
    DivMod(v, m);
    if 0 <= 2 * v < m {
      SmallMod(v, m);
    } else if -(m as int) <= 2 * v < 0 {
      DivUnique(v, m, -1, v + m);
    }
  }
}
