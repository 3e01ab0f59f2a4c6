/** Integers as infinite strings of bits in two's complement. */
module TwosComplement {
  import opened Digits

  datatype LogicOp = And | Or | Xor

  predicate Apply(op: LogicOp, p: bool, q: bool)
  {
    match op
    case And => p && q
    case Or => p || q
    case Xor => p != q
  }

  /** Bit k of v; for a negative number almost all bits are set. */
  predicate BitAt(v: int, k: nat)
    decreases k
  {
    if k == 0 then v % 2 == 1 else BitAt(v / 2, k - 1)
  }

  /** z is the bitwise combination of x and y. */
  ghost predicate IsBitwise(op: LogicOp, x: int, y: int, z: int)
  {
    forall k: nat :: BitAt(z, k) == Apply(op, BitAt(x, k), BitAt(y, k))
  }

  /** The bits of d come first, then those of v. */
  lemma {:induction false} BitsAbove(d: int, v: int, n: nat, k: nat)
    requires 0 <= d < Pow2(n)
    ensures BitAt(d + Pow2(n) * v, k) == if k < n then BitAt(d, k) else BitAt(v, k - n)
    decreases n
  {
    if n > 0 {
      HalfSplit(d, v, Pow2(n - 1));
      if k > 0 { BitsAbove(d / 2, v, n - 1, k - 1); }
    }
  }

  lemma HalfSplit(d: int, v: int, p: int)
    requires 0 <= d < 2 * p
    ensures (d + 2 * p * v) / 2 == d / 2 + p * v && (d + 2 * p * v) % 2 == d % 2 && 0 <= d / 2 < p
  {
    assert 2 * p * v == 2 * (p * v);
  }

  /** Every integer has its own bits. */
  lemma BitsDetermine(a: int, b: int)
    requires forall k: nat :: BitAt(a, k) == BitAt(b, k)
    ensures a == b
    decreases (if a >= 0 then a else -a) + (if b >= 0 then b else -b)
  {
    assert BitAt(a, 0) == BitAt(b, 0);
    if (a == 0 || a == -1) && (b == 0 || b == -1) {
    } else {
      forall k: nat ensures BitAt(a / 2, k) == BitAt(b / 2, k) {
        assert BitAt(a, k + 1) == BitAt(b, k + 1);
      }
      BitsDetermine(a / 2, b / 2);
    }
  }

  /** The bits of half a number. */
  lemma BitwiseHalf(op: LogicOp, x: int, y: int, z: int)
    requires IsBitwise(op, x, y, z)
    ensures IsBitwise(op, x / 2, y / 2, z / 2) && (z % 2 == 1) == Apply(op, x % 2 == 1, y % 2 == 1)
  {
    assert BitAt(z, 0) == Apply(op, BitAt(x, 0), BitAt(y, 0));
    forall k: nat ensures BitAt(z / 2, k) == Apply(op, BitAt(x / 2, k), BitAt(y / 2, k)) {
      assert BitAt(z, k + 1) == Apply(op, BitAt(x, k + 1), BitAt(y, k + 1));
    }
  }

  lemma {:induction false} BitOfSign(v: int, k: nat)
    requires v == 0 || v == -1
    ensures BitAt(v, k) == (v == -1)
    decreases k
  {
    if k > 0 { BitOfSign(v, k - 1); }
  }

  /** An operation on 0 and -1 gives 0 or -1. */
  lemma BitwiseSigns(op: LogicOp, x: int, y: int, z: int)
    requires IsBitwise(op, x, y, z) && (x == 0 || x == -1) && (y == 0 || y == -1)
    ensures z == if Apply(op, x == -1, y == -1) then -1 else 0
  {
    var r := if Apply(op, x == -1, y == -1) then -1 else 0;
    forall k: nat ensures BitAt(z, k) == BitAt(r, k) {
      BitOfSign(x, k);
      BitOfSign(y, k);
      BitOfSign(r, k);
    }
    BitsDetermine(z, r);
  }

  /** And and or together weigh what the operands weigh, and xor is their difference. */
  lemma {:induction false} AndOrXor(x: int, y: int, a: int, o: int, e: int)
    requires IsBitwise(And, x, y, a) && IsBitwise(Or, x, y, o) && IsBitwise(Xor, x, y, e)
    ensures a + o == x + y && e == o - a
    decreases (if x >= 0 then x else -x) + (if y >= 0 then y else -y)
  {
    if (x == 0 || x == -1) && (y == 0 || y == -1) {
      BitwiseSigns(And, x, y, a);
      BitwiseSigns(Or, x, y, o);
      BitwiseSigns(Xor, x, y, e);
    } else {
      BitwiseHalf(And, x, y, a);
      BitwiseHalf(Or, x, y, o);
      BitwiseHalf(Xor, x, y, e);
      AndOrXor(x / 2, y / 2, a / 2, o / 2, e / 2);
    }
  }

  /** x & -1, x | 0 and x ^ 0 are x, and x ^ x is 0. */
  lemma Neutral(x: int, z: int)
    ensures IsBitwise(And, x, -1, z) || IsBitwise(Or, x, 0, z) || IsBitwise(Xor, x, 0, z) ==> z == x
    ensures IsBitwise(Xor, x, x, z) ==> z == 0
  {
    if IsBitwise(And, x, -1, z) || IsBitwise(Or, x, 0, z) || IsBitwise(Xor, x, 0, z) {
      forall k: nat ensures BitAt(z, k) == BitAt(x, k) {
        BitOfSign(-1, k);
        BitOfSign(0, k);
      }
      BitsDetermine(z, x);
    }
    if IsBitwise(Xor, x, x, z) {
      forall k: nat ensures BitAt(z, k) == BitAt(0, k) { BitOfSign(0, k); }
      BitsDetermine(z, 0);
    }
  }

  /** The bitwise operation on numbers of n bits. */
  function WordOp(op: LogicOp, a: nat, b: nat, n: nat): (r: nat)
    ensures r < Pow2(n)
    decreases n
  {
    if n == 0 then 0
    else (if Apply(op, a % 2 == 1, b % 2 == 1) then 1 else 0) + 2 * WordOp(op, a / 2, b / 2, n - 1)
  }

  lemma {:induction false} WordOpBits(op: LogicOp, a: nat, b: nat, n: nat, k: nat)
    requires k < n
    ensures BitAt(WordOp(op, a, b, n), k) == Apply(op, BitAt(a, k), BitAt(b, k))
    decreases n
  {
    if k > 0 { WordOpBits(op, a / 2, b / 2, n - 1, k - 1); }
  }

  /** All bits set, or none. */
  function Fill(sign: bool, n: nat): nat
  {
    if sign then Pow2(n) - 1 else 0
  }

  lemma {:induction false} WordOpFill(op: LogicOp, p: bool, q: bool, n: nat)
    ensures WordOp(op, Fill(p, n), Fill(q, n), n) == Fill(Apply(op, p, q), n)
  {
    hide Fill, Apply;
    if n == 0 {
      assert Fill(Apply(op, p, q), 0) == 0 by { FillNone(Apply(op, p, q)); }
    } else {
      FillHalf(p, n); FillHalf(q, n); FillHalf(Apply(op, p, q), n);
      WordOpFill(op, p, q, n - 1);
    }
  }

  lemma FillNone(p: bool)
    ensures Fill(p, 0) == 0
  {
  }

  lemma FillHalf(p: bool, n: nat)
    requires n > 0
    ensures Fill(p, n) / 2 == Fill(p, n - 1) && (Fill(p, n) % 2 == 1) == p
    ensures Fill(p, n) == (if p then 1 else 0) + 2 * Fill(p, n - 1)
  {
  }

  /** Zeros win an and; ones win an or. */
  lemma {:induction false} WordOpAbsorbs(b: nat, n: nat)
    requires b < Pow2(n)
    ensures WordOp(And, 0, b, n) == 0 && WordOp(Or, Fill(true, n), b, n) == Fill(true, n)
  {
    if n > 0 { WordOpAbsorbs(b / 2, n - 1); }
  }

  /** a & b, a | b, a ^ b on digits */
  function DigitOp(op: LogicOp, a: Digit, b: Digit): Digit
  {
    WordOp(op, a, b, BITSPERDIG)
  }

  /** v shifted right by i digits. */
  ghost function Shr(v: int, i: nat): int
    decreases i
  {
    if i == 0 then v else Shr(BigDn(v), i - 1)
  }

  lemma {:induction false} ShrNext(v: int, i: nat)
    ensures Shr(v, i + 1) == BigDn(Shr(v, i))
    decreases i
  {
    if i > 0 { ShrNext(BigDn(v), i - 1); }
  }

  /** Digit by digit means bit by bit. */
  lemma DigitsToBits(op: LogicOp, x: int, y: int, z: int)
    requires forall i: nat :: BigLo(Shr(z, i)) == DigitOp(op, BigLo(Shr(x, i)), BigLo(Shr(y, i)))
    ensures IsBitwise(op, x, y, z)
  {
    forall k: nat ensures BitAt(z, k) == Apply(op, BitAt(x, k), BitAt(y, k)) {
      DigitsToBit(op, x, y, z, 0, k);
    }
  }

  lemma {:induction false} DigitsToBit(op: LogicOp, x: int, y: int, z: int, i: nat, k: nat)
    requires forall j: nat :: BigLo(Shr(z, j)) == DigitOp(op, BigLo(Shr(x, j)), BigLo(Shr(y, j)))
    ensures BitAt(Shr(z, i), k) == Apply(op, BitAt(Shr(x, i), k), BitAt(Shr(y, i), k))
    decreases k
  {
    hide BitAt, WordOp, BigLo, BigDn, Shr;
    BPositive();
    var a, b, c := Shr(x, i), Shr(y, i), Shr(z, i);
    LoDn(a); LoDn(b); LoDn(c);
    BitsAbove(BigLo(a), BigDn(a), BITSPERDIG, k);
    BitsAbove(BigLo(b), BigDn(b), BITSPERDIG, k);
    BitsAbove(BigLo(c), BigDn(c), BITSPERDIG, k);
    if k < BITSPERDIG {
      WordOpBits(op, BigLo(a), BigLo(b), BITSPERDIG, k);
    } else {
      ShrNext(x, i); ShrNext(y, i); ShrNext(z, i);
      DigitsToBit(op, x, y, z, i + 1, k - BITSPERDIG);
    }
  }
}
