/** Sequence helpers shared by the page and its components: first-appearance
    deduplication (`Array.from(new Set(xs))`), order-preserving filtering, and the
    arithmetic over score lists (sum, mean, minimum, maximum). */
module Seqs {

  /** No value occurs twice. */
  ghost predicate NoDup<T>(xs: seq<T>) {
    forall i, j :: 0 <= i < j < |xs| ==> xs[i] != xs[j]
  }

  /** Without duplicates, every value occurs at most once. */
  lemma {:induction false} NoDupMultiplicity<T>(xs: seq<T>)
    requires NoDup(xs)
    ensures forall x :: multiset(xs)[x] <= 1
  {
    if |xs| > 0 {
      assert NoDup(xs[1..]) by {
        forall i, j | 0 <= i < j < |xs| - 1 ensures xs[1..][i] != xs[1..][j] {
          assert xs[1..][i] == xs[i + 1] && xs[1..][j] == xs[j + 1];
        }
      }
      NoDupMultiplicity(xs[1..]);
      assert xs == [xs[0]] + xs[1..];
      assert xs[0] !in xs[1..];
    }
  }

  /** A value found at two positions occurs at least twice. */
  lemma RepeatMultiplicity<T>(xs: seq<T>, i: nat, j: nat)
    requires i < j < |xs| && xs[i] == xs[j]
    ensures multiset(xs)[xs[i]] >= 2
  {
    assert xs == xs[..j] + xs[j..];
    assert xs[..j][i] == xs[i];
    assert xs[j..][0] == xs[j];
    assert xs[i] in multiset(xs[..j]) && xs[j] in multiset(xs[j..]);
  }

  /** Values occurring at most once are pairwise distinct. */
  lemma MultiplicityNoDup<T>(xs: seq<T>)
    requires forall x :: multiset(xs)[x] <= 1
    ensures NoDup(xs)
  {
    forall i, j | 0 <= i < j < |xs| ensures xs[i] != xs[j] {
      if xs[i] == xs[j] {
        RepeatMultiplicity(xs, i, j);
      }
    }
  }

  /** A list holding each value at most as often as a duplicate-free list
      holds it is itself duplicate-free. */
  lemma SubMultisetNoDup<T>(xs: seq<T>, ys: seq<T>)
    requires NoDup(xs) && multiset(ys) <= multiset(xs)
    ensures NoDup(ys)
  {
    NoDupMultiplicity(xs);
    MultiplicityNoDup(ys);
  }

  /** Position of the first occurrence of `x` in `xs`. */
  function IndexOf<T(==)>(xs: seq<T>, x: T): (k: nat)
    requires x in xs
    ensures k < |xs| && xs[k] == x
    ensures forall j :: 0 <= j < k ==> xs[j] != x
  {
    if xs[0] == x then 0 else 1 + IndexOf(xs[1..], x)
  }

  /** A first occurrence inside a prefix is the first occurrence in the whole. */
  lemma {:induction false} IndexOfPrefix<T>(xs: seq<T>, n: nat, x: T)
    requires n <= |xs| && x in xs[..n]
    ensures x in xs && IndexOf(xs, x) == IndexOf(xs[..n], x)
  {
    if xs[0] != x {
      assert xs[1..][..n - 1] == xs[..n][1..];
      IndexOfPrefix(xs[1..], n - 1, x);
    }
  }

  /** The distinct values of `xs`, each kept at its first appearance: the array
      JavaScript builds with `Array.from(new Set(xs))`, since a Set iterates in
      insertion order and ignores re-insertions. */
  function Dedup<T(==)>(xs: seq<T>): seq<T> {
    if |xs| == 0 then []
    else
      var d := Dedup(xs[..|xs| - 1]);
      if xs[|xs| - 1] in d then d else d + [xs[|xs| - 1]]
  }

  /** What `Dedup` produces: no duplicates, the same values as `xs`, and
      each value in the order of its first appearance. */
  lemma {:induction false} DedupSpec<T(!new)>(xs: seq<T>)
    ensures NoDup(Dedup(xs))
    ensures forall x :: x in Dedup(xs) <==> x in xs
    ensures forall i, j :: 0 <= i < j < |Dedup(xs)| ==> IndexOf(xs, Dedup(xs)[i]) < IndexOf(xs, Dedup(xs)[j])
  {
    DedupMembers(xs);
    DedupNoDup(xs);
    DedupOrder(xs);
  }

  /** Deduplication neither loses nor invents a value. */
  lemma {:induction false} DedupMembers<T(!new)>(xs: seq<T>)
    ensures forall x :: x in Dedup(xs) <==> x in xs
  {
    if |xs| > 0 {
      var init := xs[..|xs| - 1];
      assert xs == init + [xs[|xs| - 1]];
      DedupMembers(init);
    }
  }

  /** A value already kept is never kept again. */
  lemma {:induction false} DedupNoDup<T>(xs: seq<T>)
    ensures NoDup(Dedup(xs))
  {
    if |xs| > 0 {
      var init := xs[..|xs| - 1];
      var d := Dedup(init);
      DedupNoDup(init);
      if xs[|xs| - 1] !in d {
        var e := d + [xs[|xs| - 1]];
        forall i, j | 0 <= i < j < |e| ensures e[i] != e[j] {
          assert e[i] == d[i] && e[i] in d;
        }
      }
    }
  }

  /** Kept values appear in the order of their first occurrences. */
  lemma {:induction false} DedupOrder<T(!new)>(xs: seq<T>)
    ensures forall x :: x in Dedup(xs) <==> x in xs
    ensures forall i, j :: 0 <= i < j < |Dedup(xs)| ==> IndexOf(xs, Dedup(xs)[i]) < IndexOf(xs, Dedup(xs)[j])
  {
    DedupMembers(xs);
    if |xs| > 0 {
      var init := xs[..|xs| - 1];
      var last := xs[|xs| - 1];
      var d := Dedup(init);
      DedupOrder(init);
      forall y | y in d ensures IndexOf(xs, y) == IndexOf(init, y) < |init| {
        IndexOfPrefix(xs, |init|, y);
      }
      if last !in d {
        assert IndexOf(xs, last) == |init| by {
          forall k | 0 <= k < |init| ensures xs[k] != last {
            assert xs[k] == init[k] && init[k] in init;
          }
        }
        DedupOrderSnoc(xs, d, last);
      }
    }
  }

  /** Appending a value whose first occurrence comes after those of `d` keeps
      the first-occurrence order. */
  lemma DedupOrderSnoc<T>(xs: seq<T>, d: seq<T>, x: T)
    requires x in xs && forall y :: y in d ==> y in xs && IndexOf(xs, y) < IndexOf(xs, x)
    requires forall i, j :: 0 <= i < j < |d| ==> IndexOf(xs, d[i]) < IndexOf(xs, d[j])
    ensures forall i, j :: 0 <= i < j < |d + [x]| ==> IndexOf(xs, (d + [x])[i]) < IndexOf(xs, (d + [x])[j])
  {
    var e := d + [x];
    forall i, j | 0 <= i < j < |e| ensures IndexOf(xs, e[i]) < IndexOf(xs, e[j]) {
      assert e[i] == d[i];
      if j < |d| {
        assert e[j] == d[j];
      } else {
        assert d[i] in d;
      }
    }
  }

  /** The elements of `xs` satisfying `keep`, in their original order
      (JavaScript's `Array.prototype.filter`). */
  function Filter<T(!new)>(xs: seq<T>, keep: T -> bool): (r: seq<T>)
    ensures |r| <= |xs|
    ensures forall i :: 0 <= i < |r| ==> keep(r[i])
    ensures forall x :: x in r <==> x in xs && keep(x)
  {
    if |xs| == 0 then []
    else (if keep(xs[0]) then [xs[0]] else []) + Filter(xs[1..], keep)
  }

  /** Filtering keeps each value at most as often as it occurs. */
  lemma {:induction false} FilterMultiset<T(!new)>(xs: seq<T>, keep: T -> bool)
    ensures multiset(Filter(xs, keep)) <= multiset(xs)
  {
    if |xs| > 0 {
      var rest := Filter(xs[1..], keep);
      FilterMultiset(xs[1..], keep);
      assert xs == [xs[0]] + xs[1..];
      assert multiset(xs) == multiset{xs[0]} + multiset(xs[1..]);
      if keep(xs[0]) {
        assert Filter(xs, keep) == [xs[0]] + rest;
        assert multiset(Filter(xs, keep)) == multiset{xs[0]} + multiset(rest);
      } else {
        assert Filter(xs, keep) == rest;
      }
    }
  }

  /** Filtering distributes over concatenation: what survives keeps its order. */
  lemma {:induction false} FilterAppend<T(!new)>(a: seq<T>, b: seq<T>, keep: T -> bool)
    ensures Filter(a + b, keep) == Filter(a, keep) + Filter(b, keep)
  {
    if |a| > 0 {
      assert (a + b)[1..] == a[1..] + b;
      FilterAppend(a[1..], b, keep);
    } else {
      assert a + b == b;
    }
  }

  /** Positions listed in strictly increasing order. */
  ghost predicate Increasing(idx: seq<nat>) {
    forall k, l :: 0 <= k < l < |idx| ==> idx[k] < idx[l]
  }

  /** Two lists with the same filtered sublist hold the elements that pass the
      test in the same relative order: kept elements at positions `a < b` of
      `xs` sit at positions `c < d` of `ys`. */
  lemma SameFilterOrder<T(!new)>(xs: seq<T>, ys: seq<T>, keep: T -> bool, a: nat, b: nat) returns (c: nat, d: nat)
    requires Filter(xs, keep) == Filter(ys, keep)
    requires a < b < |xs| && keep(xs[a]) && keep(xs[b])
    ensures c < d < |ys| && ys[c] == xs[a] && ys[d] == xs[b]
  {
    var inXs := FilterIndices(xs, keep);
    var inYs := FilterIndices(ys, keep);
    var k :| 0 <= k < |inXs| && inXs[k] == a;
    var l :| 0 <= l < |inXs| && inXs[l] == b;
    IncreasingPositions(inXs, k, l);
    c, d := inYs[k], inYs[l];
  }

  /** In an increasing index list, a smaller index sits at an earlier position. */
  lemma IncreasingPositions(idx: seq<nat>, k: nat, l: nat)
    requires Increasing(idx) && k < |idx| && l < |idx| && idx[k] < idx[l]
    ensures k < l
  {
  }

  /** `ys` holds the elements of `xs` at the positions `idx`. */
  ghost predicate PicksAt<T>(xs: seq<T>, ys: seq<T>, idx: seq<nat>) {
    && |idx| == |ys|
    && forall k :: 0 <= k < |idx| ==> idx[k] < |xs| && xs[idx[k]] == ys[k]
  }

  /** Every position whose element passes the test is listed. */
  ghost predicate Covers<T>(xs: seq<T>, keep: T -> bool, idx: seq<nat>) {
    forall j :: 0 <= j < |xs| && keep(xs[j]) ==> j in idx
  }

  /** Filtering picks out a subsequence: the kept elements sit at increasing
      positions of `xs`, and every element that passes the test is one of them. */
  lemma {:induction false} FilterIndices<T(!new)>(xs: seq<T>, keep: T -> bool) returns (idx: seq<nat>)
    ensures PicksAt(xs, Filter(xs, keep), idx)
    ensures Increasing(idx)
    ensures Covers(xs, keep, idx)
  {
    if |xs| == 0 {
      idx := [];
    } else {
      var tail := xs[1..];
      var rest := FilterIndices(tail, keep);
      var shifted := Shift(rest);
      idx := if keep(xs[0]) then [0] + shifted else shifted;
      assert Filter(xs, keep) == (if keep(xs[0]) then [xs[0]] else []) + Filter(tail, keep);
      ShiftPicks(xs, Filter(tail, keep), rest);
      ShiftCovers(xs, keep, rest);
      if keep(xs[0]) {
        ConsPicks(xs, Filter(tail, keep), shifted);
      }
    }
  }

  /** Every position moved one to the right. */
  function Shift(idx: seq<nat>): (r: seq<nat>)
    ensures |r| == |idx|
    ensures forall k :: 0 <= k < |idx| ==> r[k] == idx[k] + 1
  {
    seq(|idx|, k requires 0 <= k < |idx| => idx[k] + 1)
  }

  /** Positions into the tail, shifted, are positions into the whole. */
  lemma ShiftPicks<T>(xs: seq<T>, ys: seq<T>, rest: seq<nat>)
    requires |xs| > 0 && PicksAt(xs[1..], ys, rest) && Increasing(rest)
    ensures PicksAt(xs, ys, Shift(rest)) && Increasing(Shift(rest))
    ensures forall k :: 0 <= k < |rest| ==> Shift(rest)[k] > 0
  {
    forall k | 0 <= k < |rest| ensures xs[Shift(rest)[k]] == ys[k] {
      assert xs[1..][rest[k]] == xs[rest[k] + 1];
    }
  }

  /** Covering the tail's kept positions, shifted, covers all but the head. */
  lemma ShiftCovers<T>(xs: seq<T>, keep: T -> bool, rest: seq<nat>)
    requires |xs| > 0 && Covers(xs[1..], keep, rest)
    ensures forall j :: 0 < j < |xs| && keep(xs[j]) ==> j in Shift(rest)
  {
    forall j | 0 < j < |xs| && keep(xs[j]) ensures j in Shift(rest) {
      assert xs[1..][j - 1] == xs[j];
      var k :| 0 <= k < |rest| && rest[k] == j - 1;
      assert Shift(rest)[k] == j;
    }
  }

  /** Putting the head's position in front keeps the picks and the order. */
  lemma ConsPicks<T>(xs: seq<T>, ys: seq<T>, shifted: seq<nat>)
    requires |xs| > 0 && PicksAt(xs, ys, shifted) && Increasing(shifted)
    requires forall k :: 0 <= k < |shifted| ==> shifted[k] > 0
    ensures PicksAt(xs, [xs[0]] + ys, [0] + shifted) && Increasing([0] + shifted)
  {
    var idx := [0] + shifted;
    forall k, l | 0 <= k < l < |idx| ensures idx[k] < idx[l] {
      assert idx[l] == shifted[l - 1];
      if k > 0 {
        assert idx[k] == shifted[k - 1];
      }
    }
    forall k | 0 < k < |idx| ensures idx[k] < |xs| && xs[idx[k]] == ([xs[0]] + ys)[k] {
      assert idx[k] == shifted[k - 1];
    }
  }

  /** `xs.map(f)`. */
  function Map<T, U>(xs: seq<T>, f: T -> U): (ys: seq<U>)
    ensures |ys| == |xs|
    ensures forall k :: 0 <= k < |xs| ==> ys[k] == f(xs[k])
  {
    seq(|xs|, k requires 0 <= k < |xs| => f(xs[k]))
  }

  /** Left-to-right sum, as `scores.reduce((a, b) => a + b, 0)` computes it. */
  function Sum(s: seq<real>): real {
    if |s| == 0 then 0.0 else Sum(s[..|s| - 1]) + s[|s| - 1]
  }

  /** Arithmetic mean, with 0 for an empty list (the sources' `scores.length > 0 ? … : 0`). */
  function Mean(s: seq<real>): real {
    if |s| > 0 then Sum(s) / (|s| as real) else 0.0
  }

  /** `Math.min(...s)` on a non-empty list. */
  function Min(s: seq<real>): (r: real)
    requires |s| > 0
    ensures r in s
    ensures forall i :: 0 <= i < |s| ==> r <= s[i]
  {
    if |s| == 1 then s[0]
    else
      var m := Min(s[1..]);
      if s[0] <= m then s[0] else m
  }

  /** `Math.max(...s)` on a non-empty list. */
  function Max(s: seq<real>): (r: real)
    requires |s| > 0
    ensures r in s
    ensures forall i :: 0 <= i < |s| ==> s[i] <= r
  {
    if |s| == 1 then s[0]
    else
      var m := Max(s[1..]);
      if s[0] >= m then s[0] else m
  }

  /** A sum of `n` values lying in `[lo, hi]` lies in `[n * lo, n * hi]`. */
  lemma {:induction false} SumBounds(s: seq<real>, lo: real, hi: real)
    requires forall i :: 0 <= i < |s| ==> lo <= s[i] <= hi
    ensures (|s| as real) * lo <= Sum(s) <= (|s| as real) * hi
  {
    if |s| > 0 {
      SumBounds(s[..|s| - 1], lo, hi);
    }
  }

  /** The mean of values lying in `[lo, hi]` lies in `[lo, hi]`. */
  lemma MeanWithin(s: seq<real>, lo: real, hi: real)
    requires |s| > 0
    requires forall i :: 0 <= i < |s| ==> lo <= s[i] <= hi
    ensures lo <= Mean(s) <= hi
  {
    var n := |s| as real;
    SumBounds(s, lo, hi);
    assert Mean(s) * n == Sum(s);
  }

  /** The mean of a non-empty list lies between its minimum and its maximum. */
  lemma MeanBetweenMinMax(s: seq<real>)
    requires |s| > 0
    ensures Min(s) <= Mean(s) <= Max(s)
  {
    MeanWithin(s, Min(s), Max(s));
  }
}
