/** Numbers written in a base from 2 to 36. */
module RadixString {
  import opened Digits
  import opened BaryShift

  type Base = b: nat | 2 <= b <= 36 witness 10

  function Power(b: nat, n: nat): (r: nat)
    ensures b > 0 ==> r > 0
  {
    if n == 0 then 1 else b * Power(b, n - 1)
  }

  lemma PowerZero(b: nat)
    ensures Power(b, 0) == 1
  {
  }

  lemma {:induction false} PowerAdd(b: nat, m: nat, n: nat)
    ensures Power(b, m + n) == Power(b, m) * Power(b, n)
  {
    if m > 0 {
      PowerAdd(b, m - 1, n);
      MulAssoc(b, Power(b, m - 1), Power(b, n));
    }
  }

  lemma {:induction false} PowerMonotone(b: nat, m: nat, n: nat)
    requires 1 <= b && m <= n
    ensures Power(b, m) <= Power(b, n)
  {
    if m < n {
      PowerMonotone(b, m, n - 1);
      MulLe(1, b, Power(b, n - 1));
    }
  }

  /** v without its last digit */
  function Front(b: Base, v: nat): (q: nat)
    ensures q <= v && (v > 0 ==> q < v)
  {
    DivMod(v, b);
    v / b
  }

  function Last(b: Base, v: nat): (d: nat)
    ensures d < b
  {
    v % b
  }

  lemma FrontLast(b: Base, v: nat)
    ensures v == b * Front(b, v) + Last(b, v)
  {
    DivMod(v, b);
  }

  /** ruby_digitmap */
  function DigitChar(d: nat): (c: char)
    requires d < 36
    ensures ConvDigit(c) == d
  {
    if d < 10 then '0' + d as char else 'a' + (d - 10) as char
  }

  /** conv_digit: the value of a digit, negative for any other character. */
  function ConvDigit(c: char): (d: int)
    ensures -1 <= d < 36
  {
    if '0' <= c <= '9' then c as int - '0' as int
    else if 'a' <= c <= 'z' then c as int - 'a' as int + 10
    else if 'A' <= c <= 'Z' then c as int - 'A' as int + 10
    else -1
  }

  /** The digits in order of their value, in small letters and in capitals. */
  const LOWER := "0123456789abcdefghijklmnopqrstuvwxyz"
  const UPPER := "0123456789ABCDEFGHIJKLMNOPQRSTUVWXYZ"

  /** A digit is written as the character at its place in the first table, and read from either table. */
  lemma DigitTables(d: nat)
    requires d < 36
    ensures DigitChar(d) == LOWER[d] && ConvDigit(LOWER[d]) == d && ConvDigit(UPPER[d]) == d
  {
    assert LOWER[0..10] == "0123456789" && UPPER[0..10] == "0123456789";
  }

  /** No other character is a digit. */
  lemma NoOtherDigits(c: char)
    ensures ConvDigit(c) >= 0 <==> c in LOWER || c in UPPER
  {
    hide ConvDigit;
    if ConvDigit(c) >= 0 {
      DigitFrom(c);
    } else if c in LOWER {
      var d: nat :| d < 36 && LOWER[d] == c;
      DigitTables(d);
    } else if c in UPPER {
      var d: nat :| d < 36 && UPPER[d] == c;
      DigitTables(d);
    }
  }

  lemma DigitFrom(c: char)
    requires ConvDigit(c) >= 0
    ensures c == LOWER[ConvDigit(c)] || c == UPPER[ConvDigit(c)]
  {
    var d := ConvDigit(c);
    DigitTables(d);
    if d >= 10 { CapitalTable(d); }
  }

  lemma CapitalTable(d: nat)
    requires 10 <= d < 36
    ensures UPPER[d] == 'A' + (d - 10) as char
  {
  }

  /** The number that digits, the most significant one first, weigh. */
  ghost function Weigh(b: nat, ds: seq<nat>): nat
  {
    if ds == [] then 0 else Weigh(b, ds[..|ds| - 1]) * b + ds[|ds| - 1]
  }

  /** t is made of the characters of these digits, taken from the table. */
  ghost predicate Spells(t: string, ds: seq<nat>)
  {
    |t| == |ds| && forall k | 0 <= k < |ds| :: ds[k] < 36 && t[k] == LOWER[ds[k]]
  }

  /** The same with any of the letters as capitals. */
  ghost predicate SpellsAnyCase(t: string, ds: seq<nat>)
  {
    |t| == |ds| && forall k | 0 <= k < |ds| :: ds[k] < 36 && (t[k] == LOWER[ds[k]] || t[k] == UPPER[ds[k]])
  }

  /** The number that the first n characters stand for; characters that are no digits are passed over. */
  function Value(b: Base, s: string, n: nat): nat
    requires n <= |s|
  {
    if n == 0 then 0
    else if ConvDigit(s[n - 1]) < 0 then Value(b, s, n - 1)
    else Value(b, s, n - 1) * b + ConvDigit(s[n - 1])
  }

  /** How many of the first n characters are digits. */
  function Count(s: string, n: nat): nat
    requires n <= |s|
  {
    if n == 0 then 0 else Count(s, n - 1) + if ConvDigit(s[n - 1]) < 0 then 0 else 1
  }

  /** Every digit is one of the base. */
  predicate InBase(b: Base, s: string)
  {
    forall i | 0 <= i < |s| :: ConvDigit(s[i]) < b
  }

  lemma {:induction false} ValueBound(b: Base, s: string, n: nat)
    requires n <= |s| && InBase(b, s)
    ensures Value(b, s, n) < Power(b, Count(s, n))
  {
    hide ConvDigit;
    if n > 0 {
      ValueBound(b, s, n - 1);
      DigitBound(b, Value(b, s, n - 1), ConvDigit(s[n - 1]), Power(b, Count(s, n - 1)));
    }
  }

  lemma DigitBound(b: int, v: int, d: int, p: int)
    requires v < p && d < b && 0 < b
    ensures v * b + d < b * p
  {
    MulLe(v + 1, p, b);
  }

  /** The shortest way to write v; nothing at all for 0. */
  function Numeral(b: Base, v: nat): string
  {
    if v == 0 then [] else Numeral(b, Front(b, v)) + [DigitChar(Last(b, v))]
  }

  /** v written with n digits. */
  function Padded(b: Base, v: nat, n: nat): (s: string)
    ensures |s| == n
  {
    if n == 0 then [] else Padded(b, Front(b, v), n - 1) + [DigitChar(Last(b, v))]
  }

  function Zeros(n: nat): string
  {
    seq(n, _ => '0')
  }

  lemma {:induction false} PaddedZero(b: Base, n: nat)
    ensures Padded(b, 0, n) == Zeros(n)
  {
    if n > 0 {
      PaddedZero(b, n - 1);
      assert Zeros(n) == Zeros(n - 1) + ['0'];
    }
  }

  /** A number that needs no more than n digits, written with more. */
  lemma {:induction false} PaddedMore(b: Base, v: nat, z: nat, n: nat)
    requires v < Power(b, n)
    ensures Padded(b, v, z + n) == Zeros(z) + Padded(b, v, n)
  {
    hide Front, Last, Power;
    PowerZero(b);
    if n == 0 {
      PaddedZero(b, z);
      assert Zeros(z) + [] == Zeros(z);
    } else {
      QuotientBelow(b, v, n);
      PaddedMore(b, Front(b, v), z, n - 1);
      assert Zeros(z) + Padded(b, v, n) == Zeros(z) + Padded(b, Front(b, v), n - 1) + [DigitChar(Last(b, v))];
    }
  }

  lemma QuotientBelow(b: Base, v: nat, n: nat)
    requires v < Power(b, n) && 0 < n
    ensures Front(b, v) < Power(b, n - 1)
  {
    QuotientBound(v, b, Power(b, n - 1));
  }

  /** Division by a power of the base cuts the digits in two. */
  lemma {:induction false} PaddedSplit(b: Base, v: nat, q: nat, r: nat, m: nat, n: nat)
    requires v == q * Power(b, n) + r && r < Power(b, n)
    ensures Padded(b, v, m + n) == Padded(b, q, m) + Padded(b, r, n)
  {
    hide Front, Last, Power;
    PowerZero(b);
    if n == 0 {
      assert Padded(b, q, m) + [] == Padded(b, q, m);
    } else {
      QuotientBelow(b, r, n);
      SplitStep(b, v, q, r, n);
      PaddedSplit(b, Front(b, v), q, Front(b, r), m, n - 1);
      assert Padded(b, q, m) + Padded(b, r, n) == Padded(b, q, m) + Padded(b, Front(b, r), n - 1) + [DigitChar(Last(b, r))];
    }
  }

  lemma SplitStep(b: Base, v: nat, q: nat, r: nat, n: nat)
    requires v == q * Power(b, n) + r && 0 < n
    ensures Front(b, v) == q * Power(b, n - 1) + Front(b, r) && Last(b, v) == Last(b, r)
    ensures 0 < q ==> 0 < v
  {
    var p := Power(b, n - 1);
    FrontLast(b, r);
    SplitAlgebra(b, q, p, r, Front(b, r), Last(b, r));
    DivUnique(v, b, q * p + Front(b, r), Last(b, r));
    if 0 < q { MulLe(1, q, Power(b, n)); }
  }

  lemma SplitAlgebra(b: int, q: int, p: int, r: int, f: int, l: int)
    requires r == b * f + l
    ensures q * (b * p) + r == b * (q * p + f) + l
  {
    assert q * (b * p) == b * (q * p);
  }

  /** The same for the shortest way to write a number. */
  lemma {:induction false} NumeralSplit(b: Base, v: nat, q: nat, r: nat, n: nat)
    requires v == q * Power(b, n) + r && r < Power(b, n) && 0 < q
    ensures Numeral(b, v) == Numeral(b, q) + Padded(b, r, n)
  {
    hide Front, Last, Power;
    PowerZero(b);
    if n == 0 {
      assert Numeral(b, q) + [] == Numeral(b, q);
    } else {
      QuotientBelow(b, r, n);
      SplitStep(b, v, q, r, n);
      NumeralSplit(b, Front(b, v), q, Front(b, r), n - 1);
      assert Numeral(b, q) + Padded(b, r, n) == Numeral(b, q) + Padded(b, Front(b, r), n - 1) + [DigitChar(Last(b, r))];
    }
  }

  /** What is written is read back. */
  lemma {:induction false} ValueNumeral(b: Base, v: nat)
    ensures Value(b, Numeral(b, v), |Numeral(b, v)|) == v && InBase(b, Numeral(b, v))
    ensures Count(Numeral(b, v), |Numeral(b, v)|) == |Numeral(b, v)|
  {
    hide Front, Last, ConvDigit, DigitChar, Value, Count;
    ValueNothing(b, Numeral(b, v));
    if v > 0 {
      var s, t := Numeral(b, Front(b, v)), Numeral(b, v);
      ValueNumeral(b, Front(b, v));
      ValuePrefix(b, s, t, |s|);
      FrontLast(b, v);
      ValueSnoc(b, t, |s|);
    }
  }

  lemma ValueNothing(b: Base, s: string)
    ensures Value(b, s, 0) == 0 && Count(s, 0) == 0
  {
  }

  lemma ValueSnoc(b: Base, s: string, n: nat)
    requires n < |s| && ConvDigit(s[n]) >= 0
    ensures Value(b, s, n + 1) == Value(b, s, n) * b + ConvDigit(s[n]) && Count(s, n + 1) == Count(s, n) + 1
  {
  }

  lemma {:induction false} ValuePrefix(b: Base, s: string, t: string, n: nat)
    requires n <= |s| && s <= t
    ensures Value(b, t, n) == Value(b, s, n) && Count(t, n) == Count(s, n)
  {
    if n > 0 { ValuePrefix(b, s, t, n - 1); }
  }

  /** Both ways of writing agree, but for zeros in front. */
  lemma {:induction false} NumeralPadded(b: Base, v: nat, n: nat)
    requires v < Power(b, n)
    ensures |Numeral(b, v)| <= n && Padded(b, v, n) == Zeros(n - |Numeral(b, v)|) + Numeral(b, v)
  {
    hide Front, Last, Power;
    PowerZero(b);
    if v == 0 {
      PaddedZero(b, n);
      assert Zeros(n) + [] == Zeros(n);
    } else {
      QuotientBelow(b, v, n);
      NumeralPadded(b, Front(b, v), n - 1);
      var z := n - |Numeral(b, v)|;
      assert Zeros(z) + Numeral(b, v) == Zeros(z) + Numeral(b, Front(b, v)) + [DigitChar(Last(b, v))];
    }
  }

  /** A numeral spells digits of the base that weigh the number, the first of them not zero. */
  lemma {:induction false} NumeralSpells(b: Base, v: nat) returns (ds: seq<nat>)
    ensures Spells(Numeral(b, v), ds) && Weigh(b, ds) == v && (forall k | 0 <= k < |ds| :: ds[k] < b)
    ensures v > 0 ==> ds != [] && ds[0] != 0
  {
    hide DigitChar, ConvDigit;
    if v == 0 { return []; }
    var front := NumeralSpells(b, Front(b, v));
    var d := Last(b, v);
    FrontLast(b, v);
    DigitTables(d);
    ds := front + [d];
    assert ds[..|ds| - 1] == front;
    assert Front(b, v) * b == b * Front(b, v);
    if front == [] { assert Front(b, v) == 0 && d == v; }
  }

  /** Digits of the base, in small letters or capitals, are read as what they weigh. */
  lemma {:induction false} ValueSpelled(b: Base, s: string, ds: seq<nat>, n: nat)
    requires SpellsAnyCase(s, ds) && n <= |s| && forall k | 0 <= k < |ds| :: ds[k] < b
    ensures Value(b, s, n) == Weigh(b, ds[..n]) && InBase(b, s)
  {
    hide ConvDigit;
    forall k | 0 <= k < |s| ensures ConvDigit(s[k]) == ds[k] { DigitTables(ds[k]); }
    if n > 0 {
      ValueSpelled(b, s, ds, n - 1);
      assert ds[..n][..n - 1] == ds[..n - 1];
    }
  }

  lemma WholeSpelled(b: Base, s: string, ds: seq<nat>)
    requires InBase(b, s) && SpellsAnyCase(s, ds)
    ensures Value(b, s, |s|) == Weigh(b, ds)
  {
    hide ConvDigit, Value, Weigh;
    forall k | 0 <= k < |s| ensures ds[k] < b { DigitTables(ds[k]); }
    ValueSpelled(b, s, ds, |s|);
    assert ds[..|s|] == ds;
  }

  /** Capitals are read like small letters, and what is in neither table is passed over. */
  lemma {:induction false} SameInCapitals(b: Base, s: string, t: string, n: nat)
    requires n <= |s| == |t| && forall k | 0 <= k < |s| :: SameDigit(s[k], t[k])
    ensures Value(b, s, n) == Value(b, t, n) && Count(s, n) == Count(t, n)
  {
    hide ConvDigit;
    if n > 0 {
      SameInCapitals(b, s, t, n - 1);
      SameDigitRead(s[n - 1], t[n - 1]);
    }
  }

  /** The same character, or a letter and its capital, or two characters that are no digits. */
  ghost predicate SameDigit(c: char, e: char)
  {
    || c == e
    || (exists d: nat :: d < 36 && LOWER[d] == c && UPPER[d] == e)
    || (c !in LOWER && c !in UPPER && e !in LOWER && e !in UPPER)
  }

  lemma SameDigitRead(c: char, e: char)
    requires SameDigit(c, e)
    ensures ConvDigit(c) == ConvDigit(e)
  {
    if d: nat :| d < 36 && LOWER[d] == c && UPPER[d] == e {
      DigitTables(d);
    } else {
      NoOtherDigits(c);
      NoOtherDigits(e);
    }
  }
}
