/** Digits as bytes in memory, and the shortcut of bary_pack that copies them (bignum.c:739-770). */
module PackBytes {
  import opened Digits
  import opened BaryShift
  import opened PackFormat
  import opened IntegerPack

  const SIZEOF_BDIGIT: nat := BITSPERDIG / 8

  ghost predicate AreBytes(s: seq<int>)
  {
    forall i | 0 <= i < |s| :: 0 <= s[i] < 256
  }

  /** The number in the first n bytes, the least significant one first. */
  function BytesVal(s: seq<int>, n: nat): int
    requires n <= |s|
  {
    if n == 0 then 0 else BytesVal(s, n - 1) + Pow2(8 * (n - 1)) * s[n - 1]
  }

  lemma EightBits()
    ensures Pow2(8) == 256
  {
    assert Pow2(4) == 16 && Pow2(8) == 16 * Pow2(4);
  }

  lemma {:induction false} BytesBound(s: seq<int>, n: nat)
    requires n <= |s| && AreBytes(s)
    ensures 0 <= BytesVal(s, n) < Pow2(8 * n)
  {
    if n > 0 {
      BytesBound(s, n - 1);
      EightBits();
      Pow2Add(8 * (n - 1), 8);
      PartBound(BytesVal(s, n - 1), s[n - 1], Pow2(8 * (n - 1)), 256);
    }
  }

  lemma {:induction false} BytesKept(s: seq<int>, t: seq<int>, n: nat)
    requires n <= |s| && n <= |t| && forall i | 0 <= i < n :: s[i] == t[i]
    ensures BytesVal(s, n) == BytesVal(t, n)
  {
    if n > 0 { BytesKept(s, t, n - 1); }
  }

  /** Bytes, and more bytes above them. */
  lemma {:induction false} BytesJoin(s: seq<int>, t: seq<int>, n: nat)
    requires n <= |t|
    ensures BytesVal(s + t, |s| + n) == BytesVal(s, |s|) + Mul(Pow2(8 * |s|), BytesVal(t, n))
  {
    hide Pow2;
    if n == 0 {
      BytesKept(s, s + t, |s|);
    } else {
      BytesJoin(s, t, n - 1);
      Pow2Add(8 * |s|, 8 * (n - 1));
      JoinAlgebra(Pow2(8 * |s|), BytesVal(t, n - 1), Pow2(8 * (n - 1)), t[n - 1]);
    }
  }

  lemma JoinAlgebra(p: int, a: int, q: int, b: int)
    ensures Mul(p, a + q * b) == Mul(p, a) + (p * q) * b
  {
    assert p * (a + q * b) == p * a + p * (q * b);
    assert p * (q * b) == (p * q) * b;
  }

  lemma {:induction false} BytesZero(s: seq<int>, m: nat, n: nat)
    requires m <= n <= |s| && forall i | m <= i < n :: s[i] == 0
    ensures BytesVal(s, n) == BytesVal(s, m)
  {
    if m < n {
      BytesZero(s, m, n - 1);
      assert Pow2(8 * (n - 1)) * 0 == 0;
    }
  }

  /** Bytes cut in two. */
  lemma BytesCut(s: seq<int>, m: nat)
    requires m <= |s|
    ensures BytesVal(s, |s|) == BytesVal(s, m) + Mul(Pow2(8 * m), BytesVal(s[m..], |s| - m))
  {
    BytesJoin(s[..m], s[m..], |s| - m);
    assert s[..m] + s[m..] == s;
    BytesKept(s[..m], s, m);
  }

  /** The j low bytes of a number. */
  function LowBytes(d: nat, j: nat): (s: seq<int>)
    ensures |s| == j
  {
    if j == 0 then [] else LowBytes(d, j - 1) + [d / Pow2(8 * (j - 1)) % 256]
  }

  lemma {:induction false} LowBytesVal(d: nat, j: nat)
    ensures AreBytes(LowBytes(d, j)) && BytesVal(LowBytes(d, j), j) == d % Pow2(8 * j)
  {
    hide Pow2;
    if j == 0 {
      Pow2Zero();
      DivUnique(d, 1, d, 0);
    } else {
      LowBytesVal(d, j - 1);
      var p := Pow2(8 * (j - 1));
      var s := LowBytes(d, j);
      BytesKept(LowBytes(d, j - 1), s, j - 1);
      EightBits();
      Pow2Add(8 * (j - 1), 8);
      ModSplit(d, p, 256);
      DivMod(d / p, 256);
    }
  }

  lemma ModSplit(d: nat, p: nat, q: nat)
    requires 0 < p && 0 < q
    ensures 0 < p * q && d % (p * q) == d % p + p * (d / p % q)
  {
    MulLe(1, p, q);
    DivMod(d, p);
    DivMod(d / p, q);
    PartBound(d % p, d / p % q, p, q);
    assert p * (q * (d / p / q)) == (p * q) * (d / p / q);
    assert p * (q * (d / p / q) + d / p % q) == p * (q * (d / p / q)) + p * (d / p % q);
    DivUnique(d, p * q, d / p / q, d % p + p * (d / p % q));
  }

  /** n digits as they lie in memory. */
  function Memory(s: seq<Digit>, lo: nat, n: nat): (m: seq<int>)
    requires lo + n <= |s|
    ensures |m| == SIZEOF_BDIGIT * n
  {
    if n == 0 then [] else
      assert SIZEOF_BDIGIT * n == SIZEOF_BDIGIT * (n - 1) + SIZEOF_BDIGIT;
      Memory(s, lo, n - 1) + LowBytes(s[lo + n - 1], SIZEOF_BDIGIT)
  }

  lemma DigitBytes(d: Digit)
    ensures AreBytes(LowBytes(d, SIZEOF_BDIGIT)) && BytesVal(LowBytes(d, SIZEOF_BDIGIT), SIZEOF_BDIGIT) == d
  {
    LowBytesVal(d, SIZEOF_BDIGIT);
    assert 8 * SIZEOF_BDIGIT == BITSPERDIG;
    SmallMod(d, B);
  }

  /** The bytes of the digits stand for the same number. */
  lemma {:induction false} MemoryVal(s: seq<Digit>, lo: nat, n: nat)
    requires lo + n <= |s|
    ensures AreBytes(Memory(s, lo, n)) && BytesVal(Memory(s, lo, n), SIZEOF_BDIGIT * n) == Val(s, lo, lo + n)
  {
    hide LowBytes, BytesVal, Val, Pow2, Pw, Shl, Mul, AreBytes;
    if n == 0 {
      NoBytes(Memory(s, lo, 0));
      BothBytes([], []);
      ValEmpty(s, lo);
    } else {
      var m, d := Memory(s, lo, n - 1), s[lo + n - 1];
      MemoryVal(s, lo, n - 1);
      DigitBytes(d);
      BothBytes(m, LowBytes(d, SIZEOF_BDIGIT));
      BytesJoin(m, LowBytes(d, SIZEOF_BDIGIT), SIZEOF_BDIGIT);
      ByteCount(n - 1);
      ValSnoc(s, lo, lo + n - 1);
      PwIsPow2(n - 1);
      ShlIs(d, n - 1);
      MulDef(Pw(n - 1), d);
    }
  }

  lemma BothBytes(a: seq<int>, b: seq<int>)
    ensures AreBytes([])
    ensures AreBytes(a) && AreBytes(b) ==> AreBytes(a + b)
  {
  }

  lemma ByteCount(n: nat)
    ensures SIZEOF_BDIGIT * (n + 1) == SIZEOF_BDIGIT * n + SIZEOF_BDIGIT
    ensures 8 * (SIZEOF_BDIGIT * n) == BITSPERDIG * n
  {
    assert 8 * SIZEOF_BDIGIT == BITSPERDIG;
  }

  lemma NoBytes(s: seq<int>)
    ensures BytesVal(s, 0) == 0
  {
  }

  /** No nails, and everything least significant first. */
  predicate LittleEndian(f: Format)
  {
    f.Ok() && f.nails == 0 && !f.msWordFirst && !f.msByteFirst
  }

  lemma {:induction false} NoNails(f: Format, k: nat)
    requires f.Ok() && f.nails == 0 && k <= f.wordsize
    ensures f.Offset(k) == 8 * k && (k < f.wordsize ==> f.Width(k) == 8)
  {
    OffsetIs(f, k);
  }

  lemma {:induction false} WordBytes(f: Format, s: seq<int>, base: nat, k: nat)
    requires LittleEndian(f) && k <= f.wordsize && base + f.wordsize <= |s|
    ensures BytesVal(s, base + k) == BytesVal(s, base) + Mul(Pow2(8 * base), WordPre(f, s, base, k))
  {
    hide Pow2;
    if k > 0 {
      WordBytes(f, s, base, k - 1);
      NoNails(f, k - 1);
      Pow2Add(8 * base, 8 * (k - 1));
      JoinAlgebra(Pow2(8 * base), WordPre(f, s, base, k - 1), Pow2(8 * (k - 1)), s[base + k - 1]);
    }
  }

  lemma {:induction false} BufBytes(f: Format, s: seq<int>, w: nat)
    requires LittleEndian(f) && |s| == f.Size() && w <= f.numwords
    ensures 0 <= f.wordsize * w <= |s| && BufPre(f, s, w) == BytesVal(s, f.wordsize * w)
  {
    hide Pow2, WordPre, BytesVal, Weight;
    MulLe(0, w, f.wordsize);
    MulLe(w, f.numwords, f.wordsize);
    if w == 0 {
      NoBytes(s);
    } else {
      BufBytes(f, s, w - 1);
      BaseBounds(f, w - 1);
      NextBase(f.wordsize, w - 1);
      WordBytes(f, s, f.wordsize * (w - 1), f.wordsize);
      ByteWeight(f, w - 1);
    }
  }

  lemma NextBase(a: nat, w: nat)
    ensures a * (w + 1) == a * w + a
  {
  }

  lemma ByteWeight(f: Format, w: nat)
    requires f.Ok() && f.nails == 0
    ensures Weight(f, w) == Pow2(8 * (f.wordsize * w))
  {
    hide Weight;
    WeightIs(f, w);
    NoNails(f, f.wordsize);
    assert (8 * f.wordsize) * w == 8 * (f.wordsize * w);
  }

  /** In this layout the buffer is just its bytes. */
  lemma LittleEndianValue(f: Format, s: seq<int>)
    requires LittleEndian(f) && |s| == f.Size()
    ensures BufferValue(f, s) == BytesVal(s, |s|) && Modulus(f) == Pow2(8 * |s|)
    ensures AreBytes(s) ==> Fits(f, s)
  {
    hide Pow2, BytesVal, Weight;
    BufBytes(f, s, f.numwords);
    assert f.wordsize * f.numwords == f.Size();
    ByteWeight(f, f.numwords);
    if AreBytes(s) { BytesFit(f, s); }
  }

  lemma BytesFit(f: Format, s: seq<int>)
    requires f.Ok() && f.nails == 0 && |s| == f.Size() && AreBytes(s)
    ensures Fits(f, s)
  {
    hide Format.Base, Format.Offset;
    EightBits();
    forall w | 0 <= w < f.numwords ensures WordAtFits(f, s, w) {
      BaseBounds(f, w);
      WordBytesFit(f, s, f.Base(w));
    }
  }

  lemma WordBytesFit(f: Format, s: seq<int>, base: int)
    requires f.Ok() && f.nails == 0 && 0 <= base && base + f.wordsize <= |s| && AreBytes(s)
    ensures WordFits(f, s, base)
  {
    EightBits();
    forall k | 0 <= k < f.wordsize ensures ByteFits(f, s, base, k) { NoNails(f, k); }
  }

  /** bytes_2comp: complement all bytes, then add one. */
  method Bytes2Comp(buf: array<int>) returns (zero: bool)
    requires AreBytes(buf[..])
    modifies buf
    ensures AreBytes(buf[..]) && (zero <==> old(BytesVal(buf[..], buf.Length)) == 0)
    ensures BytesVal(buf[..], buf.Length) == if zero then 0 else Pow2(8 * buf.Length) - old(BytesVal(buf[..], buf.Length))
  {
    hide BytesVal, Pow2;
    var n := buf.Length;
    ghost var s := buf[..];
    forall i | 0 <= i < n { buf[i] := 255 - buf[i]; }
    ghost var t := buf[..];
    Inverted(s, t, n);
    var i := 0;
    while i < n
      invariant 0 <= i <= n && AreBytes(buf[..])
      invariant forall k | 0 <= k < i :: t[k] == 255 && buf[k] == 0
      invariant forall k | i <= k < n :: buf[k] == t[k]
    {
      if buf[i] != 255 {
        buf[i] := buf[i] + 1;
        Incremented(t, buf[..], i);
        BytesBound(buf[..], n);
        BytesBound(s, n);
        return false;
      }
      buf[i] := 0;
      i := i + 1;
    }
    AllOnes(t, n);
    BytesZero(buf[..], 0, n);
    NoBytes(buf[..]);
    zero := true;
  }

  lemma {:induction false} Inverted(s: seq<int>, t: seq<int>, n: nat)
    requires n <= |s| == |t| && forall i | 0 <= i < n :: t[i] == 255 - s[i]
    ensures BytesVal(s, n) + BytesVal(t, n) == Pow2(8 * n) - 1
  {
    if n > 0 {
      Inverted(s, t, n - 1);
      EightBits();
      Pow2Add(8 * (n - 1), 8);
      var p := Pow2(8 * (n - 1));
      assert p * s[n - 1] + p * (255 - s[n - 1]) == p * 255;
    }
  }

  lemma {:induction false} AllOnes(t: seq<int>, n: nat)
    requires n <= |t| && forall i | 0 <= i < n :: t[i] == 255
    ensures BytesVal(t, n) == Pow2(8 * n) - 1
  {
    if n > 0 {
      AllOnes(t, n - 1);
      EightBits();
      Pow2Add(8 * (n - 1), 8);
    }
  }

  lemma Incremented(t: seq<int>, u: seq<int>, i: nat)
    requires i < |t| == |u| && (forall k | 0 <= k < i :: t[k] == 255 && u[k] == 0) && u[i] == t[i] + 1
    requires forall k | i < k < |t| :: u[k] == t[k]
    ensures BytesVal(u, |u|) == BytesVal(t, |t|) + 1
  {
    hide Pow2;
    AllOnes(t, i);
    BytesZero(u, 0, i);
    assert Pow2(8 * i) * u[i] == Pow2(8 * i) * t[i] + Pow2(8 * i);
    SameAboveByte(t, u, i + 1, |t|);
  }

  lemma {:induction false} SameAboveByte(t: seq<int>, u: seq<int>, m: nat, n: nat)
    requires m <= n <= |t| == |u| && forall k | m <= k < n :: u[k] == t[k]
    ensures BytesVal(u, n) - BytesVal(t, n) == BytesVal(u, m) - BytesVal(t, m)
  {
    if m < n { SameAboveByte(t, u, m, n - 1); }
  }

  /** The bytes of a number without its leading zero bytes. */
  method SourceBytes(x: Span) returns (bytes: seq<int>, size: nat)
    requires x.Ok() && x.Num() > 0
    ensures AreBytes(bytes) && 0 < size <= |bytes| && bytes[size - 1] != 0 && BytesVal(bytes, size) == x.Num()
    ensures forall i | size <= i < |bytes| :: bytes[i] == 0
  {
    hide Val, BytesVal;
    bytes := Memory(x.a[..], x.lo, x.Len());
    MemoryVal(x.a[..], x.lo, x.Len());
    size := |bytes|;
    while 0 < size && bytes[size - 1] == 0
      invariant 0 <= size <= |bytes| && forall i | size <= i < |bytes| :: bytes[i] == 0
    {
      size := size - 1;
    }
    BytesZero(bytes, size, |bytes|);
    NoBytes(bytes);
  }

  /** As many bytes as there is room for, and zeros. */
  method CopyBytes(buf: array<int>, bytes: seq<int>, size: nat)
    requires AreBytes(bytes) && size <= |bytes|
    modifies buf
    ensures AreBytes(buf[..])
    ensures size <= buf.Length ==> BytesVal(buf[..], buf.Length) == BytesVal(bytes, size)
    ensures buf.Length < size ==> BytesVal(buf[..], buf.Length) == BytesVal(bytes, buf.Length)
  {
    hide BytesVal;
    forall i | 0 <= i < buf.Length { buf[i] := if i < size then bytes[i] else 0; }
    if size <= buf.Length {
      BytesKept(buf[..], bytes, size);
      BytesZero(buf[..], size, buf.Length);
    } else {
      BytesKept(buf[..], bytes, buf.Length);
    }
  }

  /** What the size of the source says about the number. */
  lemma SizeTells(bytes: seq<int>, size: nat, dst: nat)
    requires AreBytes(bytes) && 0 < size <= |bytes| && bytes[size - 1] != 0
    ensures size <= dst ==> 0 < BytesVal(bytes, size) < Pow2(8 * dst)
    ensures dst < size ==> BytesVal(bytes, size) % Pow2(8 * dst) == BytesVal(bytes, dst)
    ensures dst < size ==> Pow2(8 * dst) <= BytesVal(bytes, size)
    ensures dst < size ==> (BytesVal(bytes, size) == Pow2(8 * dst)
                            <==> BytesVal(bytes, dst) == 0 && dst == size - 1 && bytes[dst] == 1)
  {
    hide Pow2, BytesVal;
    BytesBound(bytes, size);
    TopByte(bytes, size);
    if size <= dst {
      Pow2Monotone(8 * size, 8 * dst);
    } else {
      BytesBound(bytes, dst);
      var high := HighPart(bytes, size, dst);
      HighInt(BytesVal(bytes, size), BytesVal(bytes, dst), Pow2(8 * dst), high);
    }
  }

  /** What lies above the first dst bytes. */
  lemma HighPart(bytes: seq<int>, size: nat, dst: nat) returns (high: int)
    requires AreBytes(bytes) && dst < size <= |bytes| && bytes[size - 1] != 0
    ensures BytesVal(bytes, size) == BytesVal(bytes, dst) + Mul(Pow2(8 * dst), high) && 0 < high
    ensures high == 1 <==> dst == size - 1 && bytes[dst] == 1
  {
    hide Pow2, BytesVal, Mul;
    var t := bytes[..size];
    BytesKept(t, bytes, size);
    BytesKept(t, bytes, dst);
    BytesCut(t, dst);
    high := BytesVal(t[dst..], size - dst);
    TopByte(t[dst..], size - dst);
    HighOne(t[dst..], size - dst);
  }

  lemma HighInt(v: int, low: int, m: int, high: int)
    requires v == low + Mul(m, high) && 0 <= low < m && 0 < high
    ensures v % m == low && m <= v && (v == m <==> low == 0 && high == 1)
  {
    DivUnique(v, m, high, low);
    MulLe(1, high, m);
    if high >= 2 { MulLe(2, high, m); }
  }

  lemma TopByte(s: seq<int>, n: nat)
    requires 0 < n <= |s| && AreBytes(s) && s[n - 1] != 0
    ensures BytesVal(s, n) >= Pow2(8 * (n - 1)) > 0
  {
    BytesBound(s, n - 1);
    MulLe(1, s[n - 1], Pow2(8 * (n - 1)));
  }

  /** Only one byte, which is 1. */
  lemma HighOne(s: seq<int>, n: nat)
    requires 0 < n == |s| && AreBytes(s) && s[n - 1] != 0
    ensures BytesVal(s, n) == 1 <==> n == 1 && s[0] == 1
  {
    hide Pow2;
    if n == 1 {
      Pow2Zero();
      assert BytesVal(s, 1) == BytesVal(s, 0) + Pow2(0) * s[0];
    } else {
      TopByte(s, n);
      Pow2Strict(0, 8 * (n - 1));
      Pow2Zero();
    }
  }

  /** The shortcut for a little-endian layout: the bytes of the digits are copied. */
  method PackLittleEndian(f: Format, buf: array<int>, ds: Span, negative: bool, twocomp: bool) returns (code: int)
    requires LittleEndian(f) && ds.Ok() && buf.Length == f.Size() && ds.Num() > 0
    modifies buf
    ensures Holds(f, buf[..], WithSign(negative, ds.Num()), twocomp)
    ensures code == Classify(WithSign(negative, ds.Num()), Modulus(f), twocomp)
  {
    hide Val, BytesVal, Pow2, BufPre, Weight, Fits;
    var bytes, size := SourceBytes(ds);
    var dst := buf.Length;
    CopyBytes(buf, bytes, size);
    SizeTells(bytes, size, dst);
    var overflow := dst < size;
    LittleEndianValue(f, buf[..]);
    if size <= dst { SmallMod(ds.Num(), Pow2(8 * dst)); }
    if negative && twocomp {
      ComplementMod(ds.Num(), Pow2(8 * dst), BytesVal(buf[..], dst));
      var zero := Bytes2Comp(buf);
      LittleEndianValue(f, buf[..]);
      if zero && overflow && dst == size - 1 && bytes[dst] == 1 { overflow := false; }
    }
    code := if negative then -1 else 1;
    if overflow { code := code * 2; }
  }
}
