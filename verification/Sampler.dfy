/** Random samples (array.c, ary_sample).  The random numbers are a parameter: draw i is below len - i. */
module Sampler {

  ghost predicate Draws(d: seq<int>, n: int, len: int)
  {
    n <= |d| && n <= len && forall i | 0 <= i < n :: 0 <= d[i] < len - i
  }

  ghost predicate Distinct(s: seq<int>)
  {
    forall i, j | 0 <= i < j < |s| :: s[i] != s[j]
  }

  ghost predicate InRange(s: seq<int>, len: int)
  {
    forall i | 0 <= i < |s| :: 0 <= s[i] < len
  }

  /** How many elements are less than x. */
  function Below(s: seq<int>, x: int): (n: nat)
    ensures n <= |s|
  {
    if s == [] then 0 else Below(s[..|s| - 1], x) + if s[|s| - 1] < x then 1 else 0
  }

  /** The place of x among the numbers that are not in s. */
  function Rank(s: seq<int>, x: int): int
  {
    x - Below(s, x)
  }

  /** Each index is the one, among those not yet taken, to whose place the draw points. */
  ghost predicate Picks(idx: seq<int>, d: seq<int>)
  {
    && |idx| <= |d|
    && (forall i | 0 <= i < |idx| :: PicksAt(idx, d, i))
  }

  ghost predicate PicksAt(idx: seq<int>, d: seq<int>, i: nat)
    requires i < |idx| <= |d|
  {
    idx[i] !in idx[..i] && 0 <= idx[i] && Rank(idx[..i], idx[i]) == d[i]
  }

  lemma {:induction false} BelowAll(s: seq<int>, x: int)
    requires forall i | 0 <= i < |s| :: s[i] < x
    ensures Below(s, x) == |s|
  {
    if s != [] { BelowAll(s[..|s| - 1], x); }
  }

  /** Between x and y there are at most y - x numbers of s, and one less if x is not among them. */
  lemma {:induction false} BelowGap(s: seq<int>, x: int, y: int)
    requires Distinct(s) && x <= y
    ensures Below(s, y) - Below(s, x) <= y - x
    ensures x < y && x !in s ==> Below(s, y) - Below(s, x) <= y - x - 1
    decreases y - x
  {
    if x < y {
      BelowGap(s, x + 1, y);
      BelowStep(s, x);
    }
  }

  lemma {:induction false} BelowStep(s: seq<int>, x: int)
    requires Distinct(s)
    ensures Below(s, x + 1) == Below(s, x) + if x in s then 1 else 0
  {
    if s != [] {
      var t := s[..|s| - 1];
      BelowStep(t, x);
      assert s == t + [s[|s| - 1]];
    }
  }

  /** Different places for different numbers. */
  lemma RankInjective(s: seq<int>, x: int, y: int)
    requires Distinct(s) && x !in s && y !in s && Rank(s, x) == Rank(s, y)
    ensures x == y
  {
    if x < y { BelowGap(s, x, y); }
    if y < x { BelowGap(s, y, x); }
  }

  /** The picked indices are different. */
  lemma PicksDistinct(idx: seq<int>, d: seq<int>)
    requires Picks(idx, d)
    ensures Distinct(idx)
  {
    forall i, j | 0 <= i < j < |idx| ensures idx[i] != idx[j] {
      assert PicksAt(idx, d, j);
      assert idx[i] == idx[..j][i];
    }
  }

  lemma PicksPrefix(idx: seq<int>, d: seq<int>, n: nat)
    requires Picks(idx, d) && n <= |idx|
    ensures Picks(idx[..n], d)
  {
    forall i | 0 <= i < n ensures PicksAt(idx[..n], d, i) {
      assert PicksAt(idx, d, i);
      assert idx[..n][..i] == idx[..i];
    }
  }

  /** Draws in range pick indices in range. */
  lemma {:induction false} PicksInRange(idx: seq<int>, d: seq<int>, len: int)
    requires Picks(idx, d) && Draws(d, |idx|, len)
    ensures InRange(idx, len)
  {
    if idx != [] {
      var n := |idx| - 1;
      var s, x := idx[..n], idx[n];
      PicksPrefix(idx, d, n);
      PicksInRange(s, d, len);
      assert PicksAt(idx, d, n);
      if x >= len { BelowAll(s, x); }
      forall i | 0 <= i < |idx| ensures 0 <= idx[i] < len {
        if i < n { assert idx[i] == s[i]; }
      }
    }
  }

  /** The same draws pick the same indices. */
  lemma {:induction false} PicksUnique(a: seq<int>, b: seq<int>, d: seq<int>)
    requires Picks(a, d) && Picks(b, d) && |a| == |b|
    ensures a == b
  {
    if a != [] {
      var n := |a| - 1;
      PicksPrefix(a, d, n);
      PicksPrefix(b, d, n);
      PicksUnique(a[..n], b[..n], d);
      assert PicksAt(a, d, n) && PicksAt(b, d, n);
      PicksDistinct(a[..n], d);
      RankInjective(a[..n], a[n], b[n]);
      assert a == a[..n] + [a[n]] && b == b[..n] + [b[n]];
    }
  }

  /** Different draws pick different indices: the map from draws to indices loses nothing. */
  lemma PicksInjective(idx: seq<int>, d: seq<int>, e: seq<int>)
    requires Picks(idx, d) && Picks(idx, e)
    ensures d[..|idx|] == e[..|idx|]
  {
    forall i | 0 <= i < |idx| ensures d[i] == e[i] {
      assert PicksAt(idx, d, i) && PicksAt(idx, e, i);
    }
  }

  ghost function RanksOf(idx: seq<int>): seq<int>
  {
    seq(|idx|, i requires 0 <= i < |idx| => Rank(idx[..i], idx[i]))
  }

  /** And every choice of different indices is picked by some draws. */
  lemma PicksSurjective(idx: seq<int>, len: int)
    requires Distinct(idx) && InRange(idx, len) && |idx| <= len
    ensures Picks(idx, RanksOf(idx)) && Draws(RanksOf(idx), |idx|, len)
  {
    var d := RanksOf(idx);
    forall i | 0 <= i < |idx| ensures PicksAt(idx, d, i) && 0 <= d[i] < len - i {
      var s, x := idx[..i], idx[i];
      BelowNone(s, 0);
      BelowGap(s, 0, x);
      BelowAll(s, len);
      BelowGap(s, x, len);
    }
  }

  lemma {:induction false} BelowNone(s: seq<int>, x: int)
    requires forall i | 0 <= i < |s| :: x <= s[i]
    ensures Below(s, x) == 0
  {
    if s != [] { BelowNone(s[..|s| - 1], x); }
  }

  /** Two indices: the second draw passes over the first index. */
  lemma PicksTwo(i: int, j: int)
    requires 0 <= i && 0 <= j
    ensures Picks([i, if j >= i then j + 1 else j], [i, j])
  {
    var k := if j >= i then j + 1 else j;
    var idx, d := [i, k], [i, j];
    assert idx[..0] == [] && idx[..1] == [i];
    assert [i][..0] == [];
    assert Below([i], k) == if i < k then 1 else 0;
    assert PicksAt(idx, d, 0) && PicksAt(idx, d, 1);
  }

  /** The third draw passes over the lesser of the two, and then over the greater one. */
  lemma PicksThree(i: int, j: int, k: int, l: int, g: int, m: int)
    requires 0 <= i && 0 <= j && i != j && 0 <= k && l == (if i < j then i else j) && g == (if i < j then j else i)
    requires m == if k >= l then (if k + 1 >= g then k + 2 else k + 1) else k
    requires Picks([i, j], [i, if j > i then j - 1 else j])
    ensures Picks([i, j, m], [i, if j > i then j - 1 else j, k])
  {
    var idx, d := [i, j, m], [i, if j > i then j - 1 else j, k];
    assert idx[..2] == [i, j] && [i, j][..1] == [i] && [i][..0] == [];
    assert Below([i], m) == if i < m then 1 else 0;
    assert Below([i, j], m) == Below([i], m) + if j < m then 1 else 0;
    PicksExtend([i, j], [i, if j > i then j - 1 else j], d, m);
    assert [i, j] + [m] == idx;
  }

  lemma PicksExtend(idx: seq<int>, d: seq<int>, e: seq<int>, x: int)
    requires Picks(idx, d) && |idx| < |e| && d[..|idx|] == e[..|idx|]
    requires x !in idx && 0 <= x && Rank(idx, x) == e[|idx|]
    ensures Picks(idx + [x], e)
  {
    var w := idx + [x];
    forall i | 0 <= i < |w| ensures PicksAt(w, e, i) {
      assert w[..i] == idx[..i];
      if i < |idx| {
        assert PicksAt(idx, d, i);
        assert d[i] == d[..|idx|][i] == e[..|idx|][i];
      } else {
        assert idx[..i] == idx;
      }
    }
  }

  ghost predicate Sorted(s: seq<int>)
  {
    forall i, j | 0 <= i < j < |s| :: s[i] < s[j]
  }

  /** sorted holds the numbers of idx. */
  ghost predicate SameNumbers(idx: seq<int>, sorted: seq<int>)
  {
    && |idx| == |sorted|
    && (forall x :: x in idx <==> x in sorted)
    && (forall x :: Below(idx, x) == Below(sorted, x))
  }

  lemma {:induction false} BelowAppend(s: seq<int>, t: seq<int>, x: int)
    ensures Below(s + t, x) == Below(s, x) + Below(t, x)
  {
    if t == [] {
      assert s + t == s;
    } else {
      var m := |t| - 1;
      BelowAppend(s, t[..m], x);
      assert (s + t)[..|s + t| - 1] == s + t[..m];
    }
  }

  lemma InsertSame(idx: seq<int>, sorted: seq<int>, j: nat, k: int)
    requires SameNumbers(idx, sorted) && j <= |sorted|
    ensures SameNumbers(idx + [k], sorted[..j] + [k] + sorted[j..])
  {
    var a, b := sorted[..j], sorted[j..];
    assert sorted == a + b;
    var t := a + [k] + b;
    forall x ensures Below(idx + [k], x) == Below(t, x) {
      BelowAppend(idx, [k], x);
      BelowAppend(a, b, x);
      BelowAppend(a, [k], x);
      BelowAppend(a + [k], b, x);
    }
  }

  /** The place that a sorted list of the taken numbers gives to a draw. */
  lemma SortedPick(sorted: seq<int>, j: nat, k: int)
    requires Sorted(sorted) && j <= |sorted|
    requires (forall l | 0 <= l < j :: sorted[l] < k) && (forall l | j <= l < |sorted| :: k < sorted[l])
    ensures k !in sorted && Below(sorted, k) == j && Sorted(sorted[..j] + [k] + sorted[j..])
  {
    SortedInsert(sorted, j, k);
    BelowAll(sorted[..j], k);
    BelowNone(sorted[j..], k);
    BelowAppend(sorted[..j], sorted[j..], k);
    assert sorted == sorted[..j] + sorted[j..];
  }

  lemma SortedInsert(sorted: seq<int>, j: nat, k: int)
    requires Sorted(sorted) && j <= |sorted|
    requires (forall l | 0 <= l < j :: sorted[l] < k) && (forall l | j <= l < |sorted| :: k < sorted[l])
    ensures Sorted(sorted[..j] + [k] + sorted[j..])
  {
    var t := sorted[..j] + [k] + sorted[j..];
    forall x, y | 0 <= x < y < |t| ensures t[x] < t[y] {
      assert t[x] == if x < j then sorted[x] else if x == j then k else sorted[x - 1];
      assert t[y] == if y < j then sorted[y] else if y == j then k else sorted[y - 1];
    }
  }

  /** Up to ten indices from as many draws: the cases of one, two and three, and the insertion into a sorted list. */
  method SmallIndices(rnds: seq<int>, n: nat) returns (idx: seq<int>)
    requires n <= |rnds| && forall i | 0 <= i < n :: 0 <= rnds[i]
    ensures |idx| == n && Picks(idx, rnds)
  {
    if n == 2 {
      var i, j := rnds[0], rnds[1];
      PicksTwo(i, j);
      if j >= i { j := j + 1; }
      PicksSame([i, j], [rnds[0], rnds[1]], rnds);
      return [i, j];
    }
    if n == 3 {
      var i, j, k := rnds[0], rnds[1], rnds[2];
      PicksTwo(i, j);
      var l, g := j, i;
      if j >= i {
        j := j + 1;
        l, g := i, j;
      }
      ghost var k0 := k;
      if k >= l {
        k := k + 1;
        if k >= g { k := k + 1; }
      }
      PicksThree(i, j, k0, l, g, k);
      PicksSame([i, j, k], [rnds[0], rnds[1], rnds[2]], rnds);
      return [i, j, k];
    }
    idx := [];
    var sorted: seq<int> := [];
    for i := 0 to n
      invariant |idx| == i && Picks(idx, rnds) && SameNumbers(idx, sorted) && Sorted(sorted)
    {
      var k, j := rnds[i], 0;
      while j < i && k >= sorted[j]
        invariant 0 <= j <= i && k == rnds[i] + j
        invariant forall l | 0 <= l < j :: sorted[l] < k
      {
        k := k + 1;
        j := j + 1;
      }
      SortedPick(sorted, j, k);
      InsertSame(idx, sorted, j, k);
      PicksExtend(idx, rnds, rnds, k);
      sorted := sorted[..j] + [k] + sorted[j..];
      idx := idx + [k];
    }
  }

  lemma PicksSame(idx: seq<int>, d: seq<int>, e: seq<int>)
    requires Picks(idx, d) && |idx| == |d| <= |e| && d == e[..|d|]
    ensures Picks(idx, e)
  {
    forall i | 0 <= i < |idx| ensures PicksAt(idx, e, i) {
      assert PicksAt(idx, d, i);
    }
  }

  /** The sequence after n steps, each of which swaps an element with one of those after it or itself. */
  function Swapped<T>(s: seq<T>, d: seq<int>, n: nat): (t: seq<T>)
    requires n <= |d| && n <= |s| && forall i | 0 <= i < n :: 0 <= d[i] < |s| - i
    ensures |t| == |s|
  {
    if n == 0 then s
    else
      var t := Swapped(s, d, n - 1);
      var j := d[n - 1] + n - 1;
      t[n - 1 := t[j]][j := t[n - 1]]
  }

  function Identity(len: nat): seq<int>
  {
    seq(len, i => i)
  }

  /** Elements are swapped as their indices are. */
  lemma {:induction false} SwappedValues<T>(s: seq<T>, d: seq<int>, n: nat)
    requires Draws(d, n, |s|)
    ensures InRange(Swapped(Identity(|s|), d, n), |s|) && Distinct(Swapped(Identity(|s|), d, n))
    ensures forall x | 0 <= x < |s| :: Swapped(s, d, n)[x] == s[Swapped(Identity(|s|), d, n)[x]]
  {
    if n > 0 { SwappedValues(s, d, n - 1); }
  }

  /** The copy of the whole array is swapped. */
  method DenseSample<T>(values: seq<T>, n: nat, d: seq<int>) returns (result: seq<T>)
    requires Draws(d, n, |values|)
    ensures result == Swapped(values, d, n)[..n]
  {
    if |values| == 0 { return []; }
    var copy := new T[|values|](i requires 0 <= i < |values| => values[i]);
    assert copy[..] == values;
    for i := 0 to n
      invariant copy[..] == Swapped(values, d, i)
    {
      var j := d[i] + i;
      copy[i], copy[j] := copy[j], copy[i];
    }
    result := copy[..n];
  }

  /** The table knows what the swaps so far have put at the places that are still to come. */
  ghost predicate Remembers(memo: map<int, int>, perm: seq<int>, i: nat)
  {
    forall x | i <= x < |perm| :: perm[x] == if x in memo then memo[x] else x
  }

  /** Only the places that were swapped are kept, in a table. */
  method MemoSample<T>(values: seq<T>, n: nat, d: seq<int>) returns (result: seq<T>)
    requires Draws(d, n, |values|)
    ensures result == Swapped(values, d, n)[..n]
  {
    hide Swapped;
    var memo: map<int, int> := map[];
    result := [];
    ghost var len := |values|;
    SwappedStart(values, d);
    for i := 0 to n
      invariant |result| == i && Remembers(memo, Swapped(Identity(len), d, i), i)
      invariant forall x | 0 <= x < i :: result[x] == Swapped(values, d, i)[x]
    {
      var j := d[i] + i;
      var i2, j2 := i, j;
      if i in memo { i2 := memo[i]; }
      if j in memo { j2 := memo[j]; }
      MemoStep(memo, values, d, i, i2, j2);
      memo := memo[j := i2];
      result := result + [values[j2]];
    }
  }

  lemma SwappedStart<T>(values: seq<T>, d: seq<int>)
    ensures Swapped(values, d, 0) == values && Swapped(Identity(|values|), d, 0) == Identity(|values|)
  {
  }

  lemma MemoStep<T>(memo: map<int, int>, values: seq<T>, d: seq<int>, i: nat, i2: int, j2: int)
    requires Draws(d, i + 1, |values|) && Remembers(memo, Swapped(Identity(|values|), d, i), i)
    requires i2 == (if i in memo then memo[i] else i)
    requires var j := d[i] + i; j2 == (if j in memo then memo[j] else j)
    ensures 0 <= j2 < |values|
    ensures Remembers(memo[d[i] + i := i2], Swapped(Identity(|values|), d, i + 1), i + 1)
    ensures Swapped(values, d, i + 1)[i] == values[j2]
    ensures forall x | 0 <= x < i :: Swapped(values, d, i + 1)[x] == Swapped(values, d, i)[x]
  {
    hide Swapped;
    var j, perm := d[i] + i, Swapped(Identity(|values|), d, i);
    SwappedValues(values, d, i);
    SwapStep(values, d, i);
    SwapStep(Identity(|values|), d, i);
    assert perm[j] == j2 && perm[i] == i2;
  }

  lemma SwapStep<T>(s: seq<T>, d: seq<int>, i: nat)
    requires Draws(d, i + 1, |s|)
    ensures var j, t := d[i] + i, Swapped(s, d, i); Swapped(s, d, i + 1) == t[i := t[j]][j := t[i]]
  {
  }

  /** The first draw is the place of the first element of the sample. */
  lemma {:induction false} FirstDraw<T>(s: seq<T>, d: seq<int>, n: nat)
    requires 0 < n && Draws(d, n, |s|)
    ensures Swapped(s, d, n)[0] == s[d[0]]
  {
    if n > 1 {
      FirstDraw(s, d, n - 1);
      SwapStep(s, d, n - 1);
    }
  }

  /** If every draw is the lowest, nothing moves, and the sample is the beginning of the array. */
  lemma {:induction false} LowestDraws<T>(s: seq<T>, d: seq<int>, n: nat)
    requires Draws(d, n, |s|) && forall i | 0 <= i < n :: d[i] == 0
    ensures Swapped(s, d, n) == s
  {
    if n > 0 {
      LowestDraws(s, d, n - 1);
      SwapStep(s, d, n - 1);
    }
  }

  /** Later steps leave alone what a step has put in its place. */
  lemma {:induction false} SwappedSettled(len: nat, d: seq<int>, m: nat, n: nat)
    requires m <= n && Draws(d, n, len)
    ensures Swapped(Identity(len), d, n)[..m] == Swapped(Identity(len), d, m)[..m]
  {
    if m < n {
      SwappedSettled(len, d, m, n - 1);
      SwapStep(Identity(len), d, n - 1);
    }
  }

  /** Different draws give different samples. */
  lemma {:induction false} SwappedInjective(len: nat, d: seq<int>, e: seq<int>, n: nat)
    requires Draws(d, n, len) && Draws(e, n, len)
    requires Swapped(Identity(len), d, n)[..n] == Swapped(Identity(len), e, n)[..n]
    ensures d[..n] == e[..n]
  {
    hide Swapped;
    if n > 0 {
      var m := n - 1;
      SwappedSettled(len, d, m, n);
      SwappedSettled(len, e, m, n);
      assert Swapped(Identity(len), d, n)[..n][..m] == Swapped(Identity(len), e, n)[..n][..m];
      SwappedInjective(len, d, e, m);
      assert Swapped(Identity(len), d, n)[..n][m] == Swapped(Identity(len), e, n)[..n][m];
      LastDraw(len, d, e, m);
      assert d[..n] == d[..m] + [d[m]] && e[..n] == e[..m] + [e[m]];
    }
  }

  lemma LastDraw(len: nat, d: seq<int>, e: seq<int>, m: nat)
    requires Draws(d, m + 1, len) && Draws(e, m + 1, len) && d[..m] == e[..m]
    requires Swapped(Identity(len), d, m + 1)[m] == Swapped(Identity(len), e, m + 1)[m]
    ensures d[m] == e[m]
  {
    hide Swapped;
    SwappedSame(len, d, e, m);
    SwapStep(Identity(len), d, m);
    SwapStep(Identity(len), e, m);
    SwappedValues(Identity(len), d, m);
    var perm := Swapped(Identity(len), d, m);
    assert perm[d[m] + m] == perm[e[m] + m];
  }

  lemma {:induction false} SwappedSame(len: nat, d: seq<int>, e: seq<int>, n: nat)
    requires Draws(d, n, len) && Draws(e, n, len) && d[..n] == e[..n]
    ensures Swapped(Identity(len), d, n) == Swapped(Identity(len), e, n)
  {
    if n > 0 {
      assert d[..n][..n - 1] == d[..n - 1] && e[..n][..n - 1] == e[..n - 1];
      assert d[..n][n - 1] == e[..n][n - 1];
      SwappedSame(len, d, e, n - 1);
    }
  }

  /** Swapping loses no index. */
  lemma {:induction false} SwappedKeeps(len: nat, d: seq<int>, n: nat, x: int) returns (p: nat)
    requires Draws(d, n, len) && 0 <= x < len
    ensures p < len && Swapped(Identity(len), d, n)[p] == x
  {
    if n == 0 { return x; }
    p := SwappedKeeps(len, d, n - 1, x);
    SwapStep(Identity(len), d, n - 1);
    var j := d[n - 1] + n - 1;
    if p == j { p := n - 1; } else if p == n - 1 { p := j; }
  }

  /** Every sample of different indices comes from some draws. */
  lemma {:induction false} SwappedSurjective(len: nat, idx: seq<int>) returns (d: seq<int>)
    requires Distinct(idx) && InRange(idx, len) && |idx| <= len
    ensures |d| == |idx| && Draws(d, |idx|, len) && Swapped(Identity(len), d, |idx|)[..|idx|] == idx
  {
    hide Swapped;
    if idx == [] { return []; }
    var m := |idx| - 1;
    var front := SwappedSurjective(len, idx[..m]);
    var p := SwappedKeeps(len, front, m, idx[m]);
    d := SwappedNext(len, idx, front, p);
  }

  lemma SwappedNext(len: nat, idx: seq<int>, front: seq<int>, p: nat) returns (d: seq<int>)
    requires Distinct(idx) && 0 < |idx| <= len && |front| == |idx| - 1 && Draws(front, |idx| - 1, len)
    requires Swapped(Identity(len), front, |idx| - 1)[..|idx| - 1] == idx[..|idx| - 1]
    requires p < len && Swapped(Identity(len), front, |idx| - 1)[p] == idx[|idx| - 1]
    ensures |d| == |idx| && Draws(d, |idx|, len) && Swapped(Identity(len), d, |idx|)[..|idx|] == idx
  {
    hide Swapped;
    var m := |idx| - 1;
    var perm := Swapped(Identity(len), front, m);
    forall x | 0 <= x < m ensures perm[x] == idx[x] {
      assert perm[..m][x] == idx[..m][x];
    }
    assert m <= p;
    d := front + [p - m];
    assert d[..m] == front == front[..m];
    SwappedSame(len, d, front, m);
    SwapStep(Identity(len), d, m);
    var after := Swapped(Identity(len), d, m + 1);
    assert after == perm[m := perm[p]][p := perm[m]];
    assert after[..m + 1] == idx;
  }

  datatype Sampling<T> = NegativeNumber | Sample(result: seq<T>)

  /** ary_sample for an array that does not change meanwhile: different elements, whatever the draws. */
  method ArySample<T>(values: seq<T>, n: int, d: seq<int>) returns (o: Sampling<T>, ghost idx: seq<int>)
    requires n >= 0 ==> Draws(d, if n < |values| then n else |values|, |values|)
    ensures n < 0 ==> o == NegativeNumber
    ensures n >= 0 ==> o.Sample? && |o.result| == |idx| == (if n < |values| then n else |values|)
    ensures n >= 0 ==> Distinct(idx) && InRange(idx, |values|) && forall i | 0 <= i < |idx| :: o.result[i] == values[idx[i]]
    ensures n >= 0 && |idx| <= 10 ==> Picks(idx, d)
    ensures n >= 0 && |idx| > 10 ==> idx == Swapped(Identity(|values|), d, |idx|)[..|idx|]
  {
    idx := [];
    if n < 0 { return NegativeNumber, []; }
    var len := |values|;
    var m := if n < len then n else len;
    var threshold := if len < 2560 then len / 128 else if len < 5120 then len / 64 else if len < 10240 then len / 32 else len / 16;
    if m <= 10 {
      var small := SmallIndices(d, m);
      PicksDistinct(small, d);
      PicksInRange(small, d, len);
      idx := small;
      o := Sample(seq(m, i requires 0 <= i < m => values[small[i]]));
    } else {
      SwappedValues(values, d, m);
      idx := Swapped(Identity(len), d, m)[..m];
      var result;
      if m <= threshold / 2 {
        result := MemoSample(values, m, d);
      } else {
        result := DenseSample(values, m, d);
      }
      o := Sample(result);
    }
  }
}
