/** Index tuples of combinations, in order (array.c, combinate0 and binomial_coefficient). */
module Combinations {
  import opened BaryShift

  type Tuple = seq<int>

  /** p before every tuple */
  function Prefixed(p: Tuple, ts: seq<Tuple>): (r: seq<Tuple>)
    ensures |r| == |ts|
  {
    seq(|ts|, i requires 0 <= i < |ts| => p + ts[i])
  }

  lemma PrefixedAt(p: Tuple, ts: seq<Tuple>, i: nat)
    requires i < |ts|
    ensures Prefixed(p, ts)[i] == p + ts[i]
  {
  }

  lemma PrefixedAppend(p: Tuple, a: seq<Tuple>, b: seq<Tuple>)
    ensures Prefixed(p, a + b) == Prefixed(p, a) + Prefixed(p, b)
  {
    hide Prefixed;
    var l, r := Prefixed(p, a + b), Prefixed(p, a) + Prefixed(p, b);
    forall i | 0 <= i < |l| ensures l[i] == r[i] {
      PrefixedAt(p, a + b, i);
      if i < |a| { PrefixedAt(p, a, i); } else { PrefixedAt(p, b, i - |a|); }
    }
  }

  lemma PrefixedTwice(p: Tuple, q: Tuple, ts: seq<Tuple>)
    ensures Prefixed(p, Prefixed(q, ts)) == Prefixed(p + q, ts)
  {
    hide Prefixed;
    var a, b := Prefixed(p, Prefixed(q, ts)), Prefixed(p + q, ts);
    forall i | 0 <= i < |ts| ensures a[i] == b[i] {
      PrefixedAt(q, ts, i);
      PrefixedAt(p, Prefixed(q, ts), i);
      PrefixedAt(p + q, ts, i);
      assert p + (q + ts[i]) == (p + q) + ts[i];
    }
  }

  /** All increasing tuples of n numbers from from up to len, in lexicographic order. */
  function Combs(from: int, len: int, n: nat): seq<Tuple>
    decreases (if from <= len then len - from else 0) + n
  {
    if n == 0 then [[]]
    else if len < from + n then []
    else Prefixed([from], Combs(from + 1, len, n - 1)) + Combs(from + 1, len, n)
  }

  lemma CombsAt(from: int, len: int, n: nat, i: nat)
    requires 0 < n && i < |Combs(from, len, n)|
    ensures from + n <= len && |Combs(from, len, n)| == |Combs(from + 1, len, n - 1)| + |Combs(from + 1, len, n)|
    ensures var first := Combs(from + 1, len, n - 1);
            Combs(from, len, n)[i] == if i < |first| then [from] + first[i] else Combs(from + 1, len, n)[i - |first|]
  {
    hide Prefixed;
    var first := Combs(from + 1, len, n - 1);
    if i < |first| { PrefixedAt([from], first, i); }
  }

  lemma CombsStep(from: int, len: int, n: nat)
    requires 0 < n && from + n <= len
    ensures Combs(from, len, n) == Prefixed([from], Combs(from + 1, len, n - 1)) + Combs(from + 1, len, n)
  {
    hide Prefixed;
  }

  lemma CombsZero(from: int, len: int)
    ensures Combs(from, len, 0) == [[]]
  {
  }

  predicate Increasing(t: Tuple, from: int, len: int)
  {
    && (forall i | 0 <= i < |t| :: from <= t[i] < len)
    && (forall i, j | 0 <= i < j < |t| :: t[i] < t[j])
  }

  /** Only increasing tuples of the right length are listed. */
  lemma {:induction false} CombsValid(from: int, len: int, n: nat, i: nat)
    requires i < |Combs(from, len, n)|
    ensures |Combs(from, len, n)[i]| == n && Increasing(Combs(from, len, n)[i], from, len)
    decreases (if from <= len then len - from else 0) + n
  {
    hide Prefixed;
    if n > 0 {
      CombsAt(from, len, n, i);
      var k := |Combs(from + 1, len, n - 1)|;
      if i < k { CombsValid(from + 1, len, n - 1, i); } else { CombsValid(from + 1, len, n, i - k); }
    }
  }

  /** Every increasing tuple is listed. */
  lemma {:induction false} CombsComplete(t: Tuple, from: int, len: int) returns (i: nat)
    requires Increasing(t, from, len)
    ensures i < |Combs(from, len, |t|)| && Combs(from, len, |t|)[i] == t
    decreases (if from <= len then len - from else 0) + |t|
  {
    hide Prefixed;
    i := 0;
    if t != [] {
      Spread(t, from, len);
      if t[0] == from {
        i := CombsComplete(t[1..], from + 1, len);
        assert t == [from] + t[1..];
      } else {
        i := CombsComplete(t, from + 1, len);
        i := i + |Combs(from + 1, len, |t| - 1)|;
      }
      CombsAt(from, len, |t|, i);
    }
  }

  /** An increasing tuple needs as many numbers as it has elements. */
  lemma {:induction false} Spread(t: Tuple, from: int, len: int)
    requires Increasing(t, from, len)
    ensures t != [] ==> from + |t| <= len
    decreases |t|
  {
    if |t| > 1 {
      assert t[0] < t[1];
      Spread(t[1..], from + 1, len);
    }
  }

  /** Lexicographic order of tuples of the same length. */
  predicate LexLess(a: Tuple, b: Tuple)
    requires |a| == |b|
  {
    a != [] && (a[0] < b[0] || (a[0] == b[0] && LexLess(a[1..], b[1..])))
  }

  /** The list is strictly increasing, so no tuple is listed twice. */
  lemma {:induction false} CombsOrdered(from: int, len: int, n: nat, i: nat, j: nat)
    requires i < j < |Combs(from, len, n)|
    ensures |Combs(from, len, n)[i]| == |Combs(from, len, n)[j]| == n
    ensures LexLess(Combs(from, len, n)[i], Combs(from, len, n)[j])
    decreases (if from <= len then len - from else 0) + n
  {
    hide Prefixed, Combs;
    CombsZero(from, len);
    CombsValid(from, len, n, i);
    CombsValid(from, len, n, j);
    if n > 0 {
      CombsAt(from, len, n, i);
      CombsAt(from, len, n, j);
      var first := Combs(from + 1, len, n - 1);
      var k := |first|;
      if j < k {
        CombsOrdered(from + 1, len, n - 1, i, j);
        assert ([from] + first[i])[1..] == first[i] && ([from] + first[j])[1..] == first[j];
      } else if i >= k {
        CombsOrdered(from + 1, len, n, i - k, j - k);
      } else {
        CombsValid(from + 1, len, n, j - k);
      }
    }
  }

  lemma {:induction false} LexIrreflexive(a: Tuple)
    ensures !LexLess(a, a)
  {
    if a != [] { LexIrreflexive(a[1..]); }
  }

  /** Different places hold different tuples. */
  lemma CombsDistinct(from: int, len: int, n: nat, i: nat, j: nat)
    requires i < j < |Combs(from, len, n)|
    ensures Combs(from, len, n)[i] != Combs(from, len, n)[j]
  {
    hide Combs;
    CombsOrdered(from, len, n, i, j);
    LexIrreflexive(Combs(from, len, n)[i]);
  }

  /** Pascal's triangle */
  function Choose(m: int, k: int): (c: nat)
    ensures k < 0 || m < k ==> c == 0
    decreases if m < 0 then 0 else m
  {
    if k < 0 || m < k then 0 else if k == 0 then 1 else Choose(m - 1, k - 1) + Choose(m - 1, k)
  }

  lemma {:induction false} CombsCount(from: int, len: int, n: nat)
    ensures |Combs(from, len, n)| == if from <= len then Choose(len - from, n) else if n == 0 then 1 else 0
    decreases (if from <= len then len - from else 0) + n
  {
    hide Prefixed;
    if n > 0 && from + n <= len {
      CombsCount(from + 1, len, n - 1);
      CombsCount(from + 1, len, n);
    }
  }

  /** What is still to come once the elements of t from position level on have been chosen and used up. */
  ghost function Higher(t: Tuple, level: nat, len: int, n: nat): seq<Tuple>
    requires level <= n && level <= |t|
  {
    if level == 0 then []
    else Prefixed(t[..level - 1], Combs(t[level - 1] + 1, len, n - level + 1)) + Higher(t, level - 1, len, n)
  }

  /** What is still to come if the element at position level is tried next. */
  ghost function Remaining(t: Tuple, level: nat, len: int, n: nat): seq<Tuple>
    requires level < n && level < |t|
  {
    Prefixed(t[..level], Combs(t[level], len, n - level)) + Higher(t, level, len, n)
  }

  lemma {:induction false} HigherKept(t: Tuple, u: Tuple, level: nat, len: int, n: nat)
    requires level <= n && level <= |t| == |u| && t[..level] == u[..level]
    ensures Higher(t, level, len, n) == Higher(u, level, len, n)
  {
    hide Combs, Prefixed;
    if level > 0 {
      assert t[..level - 1] == t[..level][..level - 1] && u[..level - 1] == u[..level][..level - 1];
      assert t[level - 1] == t[..level][level - 1] == u[..level][level - 1];
      HigherKept(t, u, level - 1, len, n);
    }
  }

  /** Choosing an element leads to the next position. */
  lemma Descend(t: Tuple, u: Tuple, level: nat, len: int, n: nat)
    requires level + 1 < n && n <= |t| == |u| && t[..level + 1] == u[..level + 1] && u[level + 1] == t[level] + 1
    requires t[level] + (n - level) <= len
    ensures Remaining(t, level, len, n) == Remaining(u, level + 1, len, n)
  {
    hide Prefixed, Combs;
    hide Higher;
    ChooseFirst(t, level, len, n);
    HigherKept(t, u, level + 1, len, n);
    assert t[level] == t[..level + 1][level];
    assert u[..level + 1] == t[..level] + [t[level]];
  }

  /** The tuples that go on with the element at position level, and those that come after them. */
  lemma ChooseFirst(t: Tuple, level: nat, len: int, n: nat)
    requires level < n && n <= |t| && t[level] + (n - level) <= len
    ensures Remaining(t, level, len, n)
         == Prefixed(t[..level] + [t[level]], Combs(t[level] + 1, len, n - level - 1)) + Higher(t, level + 1, len, n)
  {
    hide Prefixed, Combs;
    var x, k := t[level], n - level;
    CombsStep(x, len, k);
    PrefixedAppend(t[..level], Prefixed([x], Combs(x + 1, len, k - 1)), Combs(x + 1, len, k));
    PrefixedTwice(t[..level], [x], Combs(x + 1, len, k - 1));
    Three(Prefixed(t[..level] + [x], Combs(x + 1, len, k - 1)), Prefixed(t[..level], Combs(x + 1, len, k)), Higher(t, level, len, n));
  }

  lemma Three(a: seq<Tuple>, b: seq<Tuple>, c: seq<Tuple>)
    ensures (a + b) + c == a + (b + c)
  {
  }

  /** A complete tuple comes next, and then what is higher. */
  lemma Complete(t: Tuple, len: int, n: nat)
    requires 0 < n == |t| && t[n - 1] < len
    ensures Remaining(t, n - 1, len, n) == [t] + Higher(t, n, len, n)
  {
    hide Prefixed;
    ChooseFirst(t, n - 1, len, n);
    CombsZero(t[n - 1] + 1, len);
    PrefixedAt(t[..n - 1] + [t[n - 1]], [[]], 0);
    assert t == t[..n - 1] + [t[n - 1]];
    assert t + [] == t;
    var one := Prefixed(t, [[]]);
    assert one == [t];
  }

  /** When the element at a position is used up, the one before it is raised. */
  lemma Raise(t: Tuple, u: Tuple, level: nat, len: int, n: nat)
    requires 0 < level <= n <= |t| == |u| && t[..level - 1] == u[..level - 1] && u[level - 1] == t[level - 1] + 1
    ensures Higher(t, level, len, n) == Remaining(u, level - 1, len, n)
  {
    hide Prefixed, Combs;
    HigherKept(t, u, level - 1, len, n);
  }

  /** Nothing is left to choose at this position. */
  lemma Exhausted(t: Tuple, level: nat, len: int, n: nat)
    requires level < n <= |t| && len < t[level] + (n - level)
    ensures Remaining(t, level, len, n) == Higher(t, level, len, n)
  {
    var none: seq<Tuple> := [];
    assert Prefixed(t[..level], none) == none;
    assert none + Higher(t, level, len, n) == Higher(t, level, len, n);
  }

  /** combinate0: the tuples of indices that are yielded, in the order of the calls. */
  method Combinate0(len: nat, n: nat) returns (out: seq<Tuple>)
    requires 0 < n <= len
    ensures out == Combs(0, len, n)
  {
    hide Combs, Prefixed, Remaining, Higher;
    var stack := new int[n + 1](_ => 0);
    stack[0] := -1;
    var lev := 0;
    out := [];
    Start(stack[1..], len, n);
    while true
      invariant 0 <= lev < n && stack.Length == n + 1
      invariant Combs(0, len, n) == out + Remaining(stack[1..], lev, len, n)
      invariant forall k | 1 <= k <= lev + 1 :: stack[k] + n < len + k
      decreases |Combs(0, len, n)| - |out|
    {
      lev := lev + 1;
      while lev < n
        invariant 1 <= lev <= n && stack.Length == n + 1
        invariant Combs(0, len, n) == out + Remaining(stack[1..], lev - 1, len, n)
        invariant forall k | 1 <= k <= lev :: stack[k] + n < len + k
      {
        ghost var t := stack[1..];
        stack[lev + 1] := stack[lev] + 1;
        Descend(t, stack[1..], lev - 1, len, n);
        lev := lev + 1;
      }
      Complete(stack[1..], len, n);
      Three(out, [stack[1..]], Higher(stack[1..], n, len, n));
      out := out + [stack[1..]];
      var more := true;
      while more
        invariant more ==> 0 <= lev <= n && Combs(0, len, n) == out + Higher(stack[1..], lev, len, n)
        invariant more ==> forall k | 1 <= k <= lev :: stack[k] + n < len + k
        invariant !more ==> 0 <= lev < n && Combs(0, len, n) == out + Remaining(stack[1..], lev, len, n)
        invariant !more ==> forall k | 1 <= k <= lev + 1 :: stack[k] + n < len + k
        decreases more, lev
      {
        if lev == 0 {
          NothingHigher(stack[1..], len, n);
          return;
        }
        ghost var t := stack[1..];
        stack[lev] := stack[lev] + 1;
        Raise(t, stack[1..], lev, len, n);
        lev := lev - 1;
        more := stack[lev + 1] + n == len + lev + 1;
        if more { Exhausted(stack[1..], lev, len, n); }
      }
    }
  }

  lemma Start(t: Tuple, len: nat, n: nat)
    requires 0 < n <= |t| && t[0] == 0
    ensures Combs(0, len, n) == [] + Remaining(t, 0, len, n)
  {
    hide Combs, Prefixed;
    var all := Combs(0, len, n);
    forall i | 0 <= i < |all| ensures Prefixed([], all)[i] == all[i] {
      PrefixedAt([], all, i);
      assert [] + all[i] == all[i];
    }
    assert t[..0] == [];
    assert Prefixed([], all) == all;
    assert Higher(t, 0, len, n) == [];
  }

  lemma NothingHigher(t: Tuple, len: nat, n: nat)
    ensures forall out: seq<Tuple> :: out + Higher(t, 0, len, n) == out
  {
  }

  /** rb_ary_combination: what is yielded for any argument; a number out of range yields nothing. */
  method Combination(len: nat, n: int) returns (out: seq<Tuple>)
    ensures out == if n < 0 then [] else Combs(0, len, n)
  {
    if n < 0 || len < n {
      out := [];
    } else if n == 0 {
      out := [[]];
    } else if n == 1 {
      hide Combs;
      out := [];
      for i := 0 to len
        invariant out + Combs(i, len, 1) == Combs(0, len, 1)
      {
        OneEach(i, len);
        out := out + [[i]];
      }
      OneEach(len, len);
    } else {
      out := Combinate0(len, n);
    }
  }

  /** One index at a time. */
  lemma OneEach(i: int, len: int)
    ensures Combs(i, len, 1) == if i < len then [[i]] + Combs(i + 1, len, 1) else []
  {
    if i < len {
      CombsStep(i, len, 1);
      CombsZero(i + 1, len);
      var e: Tuple := [];
      PrefixedAt([i], [e], 0);
      assert [i] + e == [i];
      assert Prefixed([i], [e]) == [[i]];
    }
  }

  /** binomial_coefficient: the number of tuples that are yielded; every division is exact. */
  method BinomialCoefficient(comb: int, size: nat) returns (r: nat)
    ensures r == Choose(size, comb)
  {
    hide Choose;
    var c := comb;
    ChooseFacts(size);
    Symmetric(size, comb);
    if c > size - c { c := size - c; }
    if c < 0 { return 0; }
    if c == 0 { return 1; }
    r := size;
    for i := 1 to c
      invariant r == Choose(size, i)
    {
      Absorption(size, i);
      ExactDivision(r * (size - i), i + 1, Choose(size, i + 1));
      r := r * (size - i) / (i + 1);
    }
  }

  lemma ExactDivision(a: int, b: int, q: int)
    requires 0 < b && a == b * q
    ensures a / b == q && a % b == 0
  {
    DivUnique(a, b, q, 0);
  }

  lemma {:induction false} ChooseFacts(m: nat)
    ensures Choose(m, 0) == 1 && Choose(m, m) == 1 && (0 < m ==> Choose(m, 1) == m)
    ensures forall k | k < 0 || m < k :: Choose(m, k) == 0
  {
    if m > 0 { ChooseFacts(m - 1); }
  }

  lemma {:induction false} Symmetric(m: nat, k: int)
    ensures Choose(m, k) == Choose(m, m - k)
  {
    if 0 < k < m {
      Symmetric(m - 1, k - 1);
      Symmetric(m - 1, k);
    } else {
      ChooseFacts(m);
    }
  }

  /** What makes the divisions exact. */
  lemma {:induction false} Absorption(m: nat, k: nat)
    requires k <= m
    ensures Choose(m, k) * (m - k) == (k + 1) * Choose(m, k + 1)
    decreases m
  {
    if k == m {
    } else if k == 0 {
      ChooseFacts(m);
    } else {
      Absorption(m - 1, k - 1);
      Absorption(m - 1, k);
      AbsorptionStep(Choose(m - 1, k - 1), Choose(m - 1, k), Choose(m - 1, k + 1), m, k);
    }
  }

  lemma AbsorptionStep(a: int, b: int, c: int, m: int, k: int)
    requires a * (m - k) == k * b && b * (m - 1 - k) == (k + 1) * c
    ensures (a + b) * (m - k) == (k + 1) * (b + c)
  {
    assert (a + b) * (m - k) == a * (m - k) + b * (m - 1 - k) + b;
    assert (k + 1) * (b + c) == k * b + b + (k + 1) * c;
  }
}
