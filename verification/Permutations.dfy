/** Index tuples of permutations, in order (array.c, permute0 and descending_factorial). */
module Permutations {
  import opened Combinations

  /** All tuples of k different numbers below n that are not in used, the first of them at least i, in
      lexicographic order. */
  function Perms(n: int, k: nat, used: set<int>, i: int): seq<Tuple>
    decreases k, n - i
  {
    if k == 0 then [[]]
    else if n <= i then []
    else if i in used then Perms(n, k, used, i + 1)
    else Prefixed([i], Perms(n, k - 1, used + {i}, 0)) + Perms(n, k, used, i + 1)
  }

  predicate Different(t: Tuple, n: int, used: set<int>)
  {
    && (forall j | 0 <= j < |t| :: 0 <= t[j] < n && t[j] !in used)
    && (forall j, l | 0 <= j < l < |t| :: t[j] != t[l])
  }

  lemma PermsAt(n: int, k: nat, used: set<int>, i: int, x: nat)
    requires 0 < k && x < |Perms(n, k, used, i)|
    ensures i < n
    ensures i in used ==> Perms(n, k, used, i) == Perms(n, k, used, i + 1)
    ensures i !in used ==>
              var first := Perms(n, k - 1, used + {i}, 0);
              && |Perms(n, k, used, i)| == |first| + |Perms(n, k, used, i + 1)|
              && Perms(n, k, used, i)[x] == if x < |first| then [i] + first[x] else Perms(n, k, used, i + 1)[x - |first|]
  {
    hide Prefixed;
    if i !in used {
      var first := Perms(n, k - 1, used + {i}, 0);
      if x < |first| { PrefixedAt([i], first, x); }
    }
  }

  lemma PermsZero(n: int, used: set<int>, i: int)
    ensures Perms(n, 0, used, i) == [[]]
  {
  }

  /** Only tuples of different numbers are listed. */
  lemma {:induction false} PermsValid(n: int, k: nat, used: set<int>, i: int, x: nat)
    requires 0 <= i && x < |Perms(n, k, used, i)|
    ensures var t := Perms(n, k, used, i)[x]; |t| == k && Different(t, n, used) && (0 < k ==> i <= t[0])
    decreases k, n - i
  {
    hide Perms;
    PermsZero(n, used, i);
    if k > 0 {
      PermsAt(n, k, used, i, x);
      var m := |Perms(n, k - 1, used + {i}, 0)|;
      if i in used {
        PermsValid(n, k, used, i + 1, x);
      } else if x < m {
        PermsValid(n, k - 1, used + {i}, 0, x);
      } else {
        PermsValid(n, k, used, i + 1, x - m);
      }
    }
  }

  /** Every such tuple is listed. */
  lemma {:induction false} PermsComplete(t: Tuple, n: int, used: set<int>, i: int) returns (x: nat)
    requires Different(t, n, used) && 0 <= i && (t != [] ==> i <= t[0])
    ensures x < |Perms(n, |t|, used, i)| && Perms(n, |t|, used, i)[x] == t
    decreases |t|, n - i
  {
    hide Prefixed;
    x := 0;
    if t != [] {
      if t[0] == i {
        x := PermsComplete(t[1..], n, used + {i}, 0);
        assert t == [i] + t[1..];
        PermsAt(n, |t|, used, i, x);
      } else {
        x := PermsComplete(t, n, used, i + 1);
        if i !in used {
          x := x + |Perms(n, |t| - 1, used + {i}, 0)|;
          PermsAt(n, |t|, used, i, x);
        }
      }
    }
  }

  /** The list is strictly increasing, so no tuple is listed twice. */
  lemma {:induction false} PermsOrdered(n: int, k: nat, used: set<int>, i: int, x: nat, y: nat)
    requires 0 <= i && x < y < |Perms(n, k, used, i)|
    ensures |Perms(n, k, used, i)[x]| == |Perms(n, k, used, i)[y]| == k
    ensures LexLess(Perms(n, k, used, i)[x], Perms(n, k, used, i)[y])
    decreases k, n - i
  {
    hide Perms;
    PermsZero(n, used, i);
    PermsValid(n, k, used, i, x);
    PermsValid(n, k, used, i, y);
    if k > 0 {
      PermsAt(n, k, used, i, x);
      PermsAt(n, k, used, i, y);
      var first := Perms(n, k - 1, used + {i}, 0);
      var m := |first|;
      if i in used {
        PermsOrdered(n, k, used, i + 1, x, y);
      } else if y < m {
        PermsOrdered(n, k - 1, used + {i}, 0, x, y);
        assert ([i] + first[x])[1..] == first[x] && ([i] + first[y])[1..] == first[y];
      } else if x >= m {
        PermsOrdered(n, k, used, i + 1, x - m, y - m);
      } else {
        PermsValid(n, k, used, i + 1, y - m);
      }
    }
  }

  /** Different places hold different tuples. */
  lemma PermsDistinct(n: int, k: nat, used: set<int>, i: int, x: nat, y: nat)
    requires 0 <= i && x < y < |Perms(n, k, used, i)|
    ensures Perms(n, k, used, i)[x] != Perms(n, k, used, i)[y]
  {
    hide Perms;
    PermsOrdered(n, k, used, i, x, y);
    LexIrreflexive(Perms(n, k, used, i)[x]);
  }

  /** a * (a - 1) * ... with k factors */
  function Falling(a: int, k: nat): int
    decreases k
  {
    if k == 0 then 1 else a * Falling(a - 1, k - 1)
  }

  /** How many numbers from i on are not used. */
  function Free(n: int, used: set<int>, i: int): nat
    decreases n - i
  {
    if n <= i then 0 else (if i in used then 0 else 1) + Free(n, used, i + 1)
  }

  lemma {:induction false} FreeWithout(n: int, used: set<int>, j: int, i: int)
    requires j !in used && j < n
    ensures Free(n, used + {j}, i) == Free(n, used, i) - if i <= j then 1 else 0
    decreases n - i
  {
    if i < n { FreeWithout(n, used, j, i + 1); }
  }

  lemma {:induction false} PermsCount(n: int, k: nat, used: set<int>, i: int)
    requires 0 < k && 0 <= i
    ensures |Perms(n, k, used, i)| == Free(n, used, i) * Falling(Free(n, used, 0) - 1, k - 1)
    decreases k, n - i
  {
    hide Prefixed;
    if i < n {
      PermsCount(n, k, used, i + 1);
      if i !in used {
        var f, m := Free(n, used, i + 1), Free(n, used, 0) - 1;
        FreeWithout(n, used, i, 0);
        if k > 1 { PermsCount(n, k - 1, used + {i}, 0); }
        assert |Perms(n, k - 1, used + {i}, 0)| == Falling(m, k - 1);
        CountStep(f, Falling(m, k - 1));
      }
    } else {
      CountStep(-1, Falling(Free(n, used, 0) - 1, k - 1));
    }
  }

  lemma CountStep(f: int, p: int)
    ensures p + f * p == (1 + f) * p && 0 * p == 0
  {
  }

  lemma {:induction false} FreeAll(n: int, i: int)
    requires i <= n
    ensures Free(n, {}, i) == n - i
    decreases n - i
  {
    if i < n { FreeAll(n, i + 1); }
  }

  /** The number of permutations is the falling factorial. */
  lemma PermsTotal(n: nat, k: nat)
    ensures |Perms(n, k, {}, 0)| == Falling(n, k)
  {
    FreeAll(n, 0);
    if k > 0 { PermsCount(n, k, {}, 0); }
  }

  /** descending_factorial */
  method DescendingFactorial(from: nat, howMany: int) returns (cnt: int)
    ensures cnt == if howMany < 0 then 0 else Falling(from, howMany)
  {
    hide Falling;
    FallingZero(from);
    if howMany <= 0 { return if howMany == 0 then 1 else 0; }
    cnt := from;
    var f, k := from as int, howMany - 1;
    FallingNext(from, howMany);
    while k > 0
      invariant 0 <= k && cnt * Falling(f - 1, k) == Falling(from, howMany)
    {
      FallingNext(f - 1, k);
      Regroup(cnt, f - 1, Falling(f - 2, k - 1));
      f := f - 1;
      cnt := cnt * f;
      k := k - 1;
    }
    FallingZero(f - 1);
  }

  lemma FallingNext(a: int, k: nat)
    requires 0 < k
    ensures Falling(a, k) == a * Falling(a - 1, k - 1)
  {
  }

  lemma FallingZero(a: int)
    ensures Falling(a, 0) == 1
  {
  }

  lemma Regroup(c: int, v: int, f: int)
    ensures c * (v * f) == (c * v) * f
  {
  }

  ghost function Chosen(t: Tuple): set<int>
  {
    set x | x in t
  }

  /** What is still to come once position index has been used up. */
  ghost function Higher(t: Tuple, index: nat, n: int, r: nat): seq<Tuple>
    requires index <= r && index <= |t|
  {
    if index == 0 then []
    else Prefixed(t[..index - 1], Perms(n, r - index + 1, Chosen(t[..index - 1]), t[index - 1] + 1)) + Higher(t, index - 1, n, r)
  }

  /** What is still to come if i is tried next at position index. */
  ghost function Remaining(t: Tuple, index: nat, i: int, n: int, r: nat): seq<Tuple>
    requires index < r && index <= |t|
  {
    Prefixed(t[..index], Perms(n, r - index, Chosen(t[..index]), i)) + Higher(t, index, n, r)
  }

  /** How many steps that takes. */
  ghost function Work(n: int, k: nat, used: set<int>, i: int): nat
    decreases k, n - i
  {
    if k == 0 then 0
    else if n <= i then 1
    else if i in used then Work(n, k, used, i + 1)
    else 1 + Work(n, k - 1, used + {i}, 0) + Work(n, k, used, i + 1)
  }

  ghost function WorkHigher(t: Tuple, index: nat, n: int, r: nat): nat
    requires index <= r && index <= |t|
  {
    if index == 0 then 0
    else Work(n, r - index + 1, Chosen(t[..index - 1]), t[index - 1] + 1) + WorkHigher(t, index - 1, n, r)
  }

  ghost function WorkLeft(t: Tuple, index: nat, i: int, n: int, r: nat): nat
    requires index < r && index <= |t|
  {
    Work(n, r - index, Chosen(t[..index]), i) + WorkHigher(t, index, n, r)
  }

  lemma {:induction false} HigherKept(t: Tuple, u: Tuple, index: nat, n: int, r: nat)
    requires index <= r && index <= |t| == |u| && t[..index] == u[..index]
    ensures Higher(t, index, n, r) == Higher(u, index, n, r) && WorkHigher(t, index, n, r) == WorkHigher(u, index, n, r)
  {
    hide Perms, Prefixed, Work;
    if index > 0 {
      assert t[..index - 1] == t[..index][..index - 1] && u[..index - 1] == u[..index][..index - 1];
      assert t[index - 1] == t[..index][index - 1] == u[..index][index - 1];
      HigherKept(t, u, index - 1, n, r);
    }
  }

  /** Numbers that are used are passed over. */
  lemma {:induction false} SkipUsed(n: int, k: nat, used: set<int>, i: int, j: int)
    requires i <= j <= n && 0 < k && forall x | i <= x < j :: x in used
    ensures Perms(n, k, used, i) == Perms(n, k, used, j) && Work(n, k, used, i) == Work(n, k, used, j)
    decreases j - i
  {
    if i < j { SkipUsed(n, k, used, i + 1, j); }
  }

  lemma PermsStep(n: int, k: nat, used: set<int>, j: int)
    requires 0 < k && j < n && j !in used
    ensures Perms(n, k, used, j) == Prefixed([j], Perms(n, k - 1, used + {j}, 0)) + Perms(n, k, used, j + 1)
    ensures Work(n, k, used, j) == 1 + Work(n, k - 1, used + {j}, 0) + Work(n, k, used, j + 1)
  {
    hide Prefixed;
  }

  /** Placing j at position index leads to the next position. */
  lemma Place(t: Tuple, u: Tuple, index: nat, j: int, n: int, r: nat)
    requires index < r && index < |t| == |u| && t[..index] == u[..index] && u[index] == j < n && j !in Chosen(t[..index])
    ensures Remaining(t, index, j, n, r)
         == Prefixed(u[..index + 1], Perms(n, r - index - 1, Chosen(u[..index + 1]), 0)) + Higher(u, index + 1, n, r)
    ensures WorkLeft(t, index, j, n, r)
         == 1 + Work(n, r - index - 1, Chosen(u[..index + 1]), 0) + WorkHigher(u, index + 1, n, r)
  {
    hide Prefixed, Perms, Work, Higher, WorkHigher;
    var p, k, used := t[..index], r - index, Chosen(t[..index]);
    assert u[..index + 1] == p + [j];
    assert Chosen(p + [j]) == used + {j};
    PermsStep(n, k, used, j);
    PlaceList(p, j, Perms(n, k - 1, used + {j}, 0), Perms(n, k, used, j + 1), Higher(u, index, n, r));
    HigherKept(t, u, index, n, r);
    HigherNext(u, index, n, r);
  }

  lemma PlaceList(p: Tuple, j: int, first: seq<Tuple>, second: seq<Tuple>, rest: seq<Tuple>)
    ensures Prefixed(p, Prefixed([j], first) + second) + rest == Prefixed(p + [j], first) + (Prefixed(p, second) + rest)
  {
    hide Prefixed;
    PrefixedAppend(p, Prefixed([j], first), second);
    PrefixedTwice(p, [j], first);
    Three(Prefixed(p + [j], first), Prefixed(p, second), rest);
  }

  lemma HigherNext(u: Tuple, index: nat, n: int, r: nat)
    requires index < r && index < |u|
    ensures Higher(u, index + 1, n, r)
         == Prefixed(u[..index], Perms(n, r - index, Chosen(u[..index]), u[index] + 1)) + Higher(u, index, n, r)
    ensures WorkHigher(u, index + 1, n, r) == Work(n, r - index, Chosen(u[..index]), u[index] + 1) + WorkHigher(u, index, n, r)
  {
    hide Prefixed, Perms, Work;
  }

  /** The last position: one tuple, and then the next candidate. */
  lemma PlaceLast(t: Tuple, i: int, n: int, r: nat)
    requires 0 < r == |t| && i < n && i !in Chosen(t[..r - 1])
    ensures Remaining(t, r - 1, i, n, r) == [t[..r - 1] + [i]] + Remaining(t, r - 1, i + 1, n, r)
  {
    hide Prefixed, Perms;
    var p, used := t[..r - 1], Chosen(t[..r - 1]);
    PermsStep(n, 1, used, i);
    PermsZero(n, used + {i}, 0);
    var second := Perms(n, 1, used, i + 1);
    var one: seq<Tuple> := [[]];
    PrefixedAppend(p, Prefixed([i], one), second);
    PrefixedTwice(p, [i], one);
    PrefixedAt(p + [i], one, 0);
    assert p + [i] + [] == p + [i];
    assert Prefixed(p + [i], one) == [p + [i]];
    Three([p + [i]], Prefixed(p, second), Higher(t, r - 1, n, r));
  }

  /** Nothing is left at this position. */
  lemma NoneLeft(t: Tuple, index: nat, i: int, n: int, r: nat)
    requires index < r && index <= |t| && i <= n && forall x | i <= x < n :: x in Chosen(t[..index])
    ensures Remaining(t, index, i, n, r) == Higher(t, index, n, r)
    ensures WorkLeft(t, index, i, n, r) == 1 + WorkHigher(t, index, n, r)
  {
    hide Prefixed;
    SkipUsed(n, r - index, Chosen(t[..index]), i, n);
    var none: seq<Tuple> := [];
    assert Prefixed(t[..index], none) == none;
    assert none + Higher(t, index, n, r) == Higher(t, index, n, r);
  }

  /** used holds the marks of the numbers at the first index positions of p. */
  ghost predicate Marked(used: seq<bool>, t: Tuple, index: nat)
    requires index <= |t|
  {
    && (forall x | 0 <= x < |used| :: used[x] <==> x in Chosen(t[..index]))
    && (forall k | 0 <= k < index :: 0 <= t[k] < |used|)
    && (forall k, l | 0 <= k < l < index :: t[k] != t[l])
  }

  /** memchr: the first number from i on that is not marked, or n. */
  method FirstUnused(used: array<bool>, i: nat) returns (j: nat)
    requires i <= used.Length
    ensures i <= j <= used.Length && (j < used.Length ==> !used[j])
    ensures forall x | i <= x < j :: used[x]
  {
    j := i;
    while j < used.Length && used[j]
      invariant i <= j <= used.Length && forall x | i <= x < j :: used[x]
    {
      j := j + 1;
    }
  }

  lemma MarkNext(before: seq<bool>, after: seq<bool>, t: Tuple, u: Tuple, index: nat, j: nat)
    requires index < |t| == |u| && Marked(before, t, index) && t[..index] == u[..index]
    requires j < |before| && !before[j] && after == before[j := true] && u[index] == j
    ensures Marked(after, u, index + 1)
  {
    assert u[..index + 1] == t[..index] + [j];
    assert Chosen(u[..index + 1]) == Chosen(t[..index]) + {j};
    forall k | 0 <= k < index ensures u[k] == t[k] && u[k] != j {
      assert u[k] == u[..index][k] == t[..index][k];
      assert t[k] in Chosen(t[..index]);
    }
  }

  lemma Unmark(before: seq<bool>, after: seq<bool>, t: Tuple, index: nat)
    requires 0 < index <= |t| && Marked(before, t, index) && after == before[t[index - 1] := false]
    ensures Marked(after, t, index - 1)
  {
    var p, x := t[..index - 1], t[index - 1];
    assert t[..index] == p + [x];
    assert Chosen(t[..index]) == Chosen(p) + {x};
    assert forall k | 0 <= k < index - 1 :: p[k] == t[k] != x;
  }

  /** permute0: the tuples of indices that are yielded, in the order of the calls. */
  method Permute0(n: nat, r: nat) returns (out: seq<Tuple>)
    requires 2 <= r <= n
    ensures out == Perms(n, r, {}, 0)
  {
    hide Perms, Prefixed, Remaining, Higher, Marked, WorkLeft, WorkHigher, Work;
    var p := new int[r](_ => 0);
    var used := new bool[n](_ => false);
    var i, index := 0, 0;
    out := [];
    Begin(p[..], used[..], n, r);
    while true
      invariant 0 <= index < r - 1 && 0 <= i <= n && p.Length == r && used.Length == n
      invariant Marked(used[..], p[..], index)
      invariant Perms(n, r, {}, 0) == out + Remaining(p[..], index, i, n, r)
      decreases WorkLeft(p[..], index, i, n, r)
    {
      var j := FirstUnused(used, i);
      SkipTo(used[..], p[..], index, i, j, n, r);
      if j == n {
        if index == 0 {
          Done(p[..], n, r);
          break;
        }
        index, i := Pop(p, used, index, n, r);
      } else {
        ghost var t, marks := p[..], used[..];
        p[index] := j;
        used[j] := true;
        Place(t, p[..], index, j, n, r);
        MarkNext(marks, used[..], t, p[..], index, j);
        index := index + 1;
        ToRemaining(p[..], index, n, r);
        if index < r - 1 {
          i := 0;
        } else {
          out := YieldAll(p, used, n, r, out);
          index, i := Pop(p, used, index, n, r);
        }
      }
    }
  }

  /** All tuples with the same first r - 1 numbers. */
  method YieldAll(p: array<int>, used: array<bool>, n: nat, r: nat, before: seq<Tuple>) returns (out: seq<Tuple>)
    requires 2 <= r <= n && p.Length == r && used.Length == n && Marked(used[..], p[..], r - 1)
    modifies p
    ensures p[..r - 1] == old(p[..r - 1]) && Marked(used[..], p[..], r - 1)
    ensures Higher(p[..], r - 1, n, r) == old(Higher(p[..], r - 1, n, r))
    ensures WorkHigher(p[..], r - 1, n, r) == old(WorkHigher(p[..], r - 1, n, r))
    ensures before + old(Remaining(p[..], r - 1, 0, n, r)) == out + Higher(p[..], r - 1, n, r)
  {
    hide Perms, Prefixed, Remaining, Higher, WorkHigher, Work;
    out := before;
    ghost var t := p[..];
    var i := 0;
    while i < n
      invariant 0 <= i <= n && p[..r - 1] == t[..r - 1]
      invariant before + Remaining(t, r - 1, 0, n, r) == out + Remaining(t, r - 1, i, n, r)
    {
      if used[i] {
        OneUsed(t, r - 1, i, n, r);
      } else {
        p[r - 1] := i;
        PlaceLast(t, i, n, r);
        assert p[..] == t[..r - 1] + [i];
        Three(out, [p[..]], Remaining(t, r - 1, i + 1, n, r));
        out := out + [p[..]];
      }
      i := i + 1;
    }
    NoneLeft(t, r - 1, n, n, r);
    HigherKept(t, p[..], r - 1, n, r);
  }

  lemma OneUsed(t: Tuple, index: nat, i: int, n: int, r: nat)
    requires index < r && index <= |t| && i < n && i in Chosen(t[..index])
    ensures Remaining(t, index, i, n, r) == Remaining(t, index, i + 1, n, r)
  {
    hide Prefixed, Higher;
    SkipUsed(n, r - index, Chosen(t[..index]), i, i + 1);
  }

  /** Take the number at the last position away, and go on with the next one there. */
  method Pop(p: array<int>, used: array<bool>, index: nat, n: nat, r: nat) returns (index': nat, i: nat)
    requires 0 < index < r == p.Length && used.Length == n && Marked(used[..], p[..], index)
    modifies used
    ensures index' == index - 1 && 0 <= i <= n && Marked(used[..], p[..], index')
    ensures Remaining(p[..], index', i, n, r) == Higher(p[..], index, n, r)
    ensures WorkLeft(p[..], index', i, n, r) == WorkHigher(p[..], index, n, r)
  {
    hide Perms, Prefixed, Work;
    ghost var marks := used[..];
    index' := index - 1;
    i := p[index'];
    used[i] := false;
    Unmark(marks, used[..], p[..], index);
    i := i + 1;
  }

  lemma SkipTo(used: seq<bool>, t: Tuple, index: nat, i: nat, j: nat, n: nat, r: nat)
    requires |used| == n && index < r && index <= |t| && Marked(used, t, index)
    requires i <= j <= n && (j < n ==> !used[j]) && forall x | i <= x < j :: used[x]
    ensures Remaining(t, index, i, n, r) == Remaining(t, index, j, n, r)
    ensures WorkLeft(t, index, i, n, r) == WorkLeft(t, index, j, n, r)
    ensures j == n ==> Remaining(t, index, j, n, r) == Higher(t, index, n, r)
    ensures j == n ==> WorkLeft(t, index, j, n, r) == 1 + WorkHigher(t, index, n, r)
    ensures j < n ==> j !in Chosen(t[..index])
  {
    hide Prefixed, Higher;
    SkipUsed(n, r - index, Chosen(t[..index]), i, j);
    if j == n { NoneLeft(t, index, n, n, r); }
  }

  lemma ToRemaining(u: Tuple, index: nat, n: int, r: nat)
    requires index < r && index <= |u|
    ensures Prefixed(u[..index], Perms(n, r - index, Chosen(u[..index]), 0)) + Higher(u, index, n, r)
         == Remaining(u, index, 0, n, r)
    ensures Work(n, r - index, Chosen(u[..index]), 0) + WorkHigher(u, index, n, r) == WorkLeft(u, index, 0, n, r)
  {
  }

  lemma Begin(t: Tuple, used: seq<bool>, n: nat, r: nat)
    requires 0 < r == |t| && |used| == n && forall x | 0 <= x < n :: !used[x]
    ensures Perms(n, r, {}, 0) == [] + Remaining(t, 0, 0, n, r) && Marked(used, t, 0)
  {
    hide Perms, Prefixed;
    var all := Perms(n, r, {}, 0);
    forall i | 0 <= i < |all| ensures Prefixed([], all)[i] == all[i] {
      PrefixedAt([], all, i);
      assert [] + all[i] == all[i];
    }
    assert t[..0] == [];
    assert Chosen([]) == {};
    assert Prefixed([], all) == all;
    assert Higher(t, 0, n, r) == [];
  }

  lemma Done(t: Tuple, n: nat, r: nat)
    requires 0 < r
    ensures forall out: seq<Tuple> :: out + Higher(t, 0, n, r) == out
  {
  }

  /** rb_ary_permutation: what is yielded for any argument; a number out of range yields nothing. */
  method Permutation(n: nat, r: int) returns (out: seq<Tuple>)
    ensures out == if r < 0 then [] else Perms(n, r, {}, 0)
  {
    hide Perms;
    if r < 0 {
      out := [];
    } else if n < r {
      out := [];
      PermsTotal(n, r);
      FallingVanishes(n, r);
    } else if r == 0 {
      out := [[]];
      PermsZero(n, {}, 0);
    } else if r == 1 {
      out := [];
      OnePlace(n, 0);
      for i := 0 to n
        invariant Perms(n, 1, {}, 0) == out + Perms(n, 1, {}, i)
      {
        OnePlace(n, i);
        Three(out, [[i]], Perms(n, 1, {}, i + 1));
        out := out + [[i]];
      }
      OnePlace(n, n);
    } else {
      out := Permute0(n, r);
    }
  }

  lemma OnePlace(n: nat, i: nat)
    ensures n <= i ==> Perms(n, 1, {}, i) == []
    ensures i < n ==> Perms(n, 1, {}, i) == [[i]] + Perms(n, 1, {}, i + 1)
  {
    hide Prefixed;
    if i < n {
      PermsStep(n, 1, {}, i);
      PermsZero(n, {} + {i}, 0);
      var one: seq<Tuple> := [[]];
      PrefixedAt([i], one, 0);
      assert [i] + [] == [i];
      assert Prefixed([i], one) == [[i]];
    }
  }

  lemma {:induction false} FallingVanishes(a: nat, k: nat)
    requires a < k
    ensures Falling(a, k) == 0
  {
    if a > 0 {
      FallingVanishes(a - 1, k - 1);
      assert a * 0 == 0;
    }
  }
}
