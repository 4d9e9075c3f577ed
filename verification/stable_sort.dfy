/** A stable sort, as `Array.prototype.sort` is required to be since ECMAScript
    2019. The order is given by `lt(a, b)`, "a must come strictly before b", which
    is what a comparator returning a negative number for (a, b) expresses. */
module StableSort {
  import opened Seqs

  /** `lt` is a strict weak order: asymmetric, and "neither before the other" is
      transitive (stated as: if a is before c, then any b is after a or before c). */
  ghost predicate StrictWeakOrder<T(!new)>(lt: (T, T) -> bool) {
    && (forall a, b :: lt(a, b) ==> !lt(b, a))
    && (forall a, b, c :: lt(a, c) ==> lt(a, b) || lt(b, c))
  }

  /** Neither element has to come before the other: the comparator returns 0. */
  predicate Tied<T>(lt: (T, T) -> bool, a: T, b: T) {
    !lt(a, b) && !lt(b, a)
  }

  /** No element is strictly before an element placed ahead of it. */
  ghost predicate Sorted<T>(xs: seq<T>, lt: (T, T) -> bool) {
    forall i, j :: 0 <= i < j < |xs| ==> !lt(xs[j], xs[i])
  }

  /** The elements of `xs` tied with `e`, in their order in `xs`. A sort is
      stable exactly when it leaves this subsequence unchanged for every `e`. */
  function TiedWith<T>(xs: seq<T>, lt: (T, T) -> bool, e: T): seq<T> {
    if |xs| == 0 then []
    else (if Tied(lt, xs[0], e) then [xs[0]] else []) + TiedWith(xs[1..], lt, e)
  }

  /** Inserts `x` in front of the first element of `s` that need not precede it. */
  function Insert<T>(x: T, s: seq<T>, lt: (T, T) -> bool): seq<T> {
    if |s| == 0 || !lt(s[0], x) then [x] + s
    else [s[0]] + Insert(x, s[1..], lt)
  }

  lemma {:induction false} InsertSorted<T(!new)>(x: T, s: seq<T>, lt: (T, T) -> bool)
    requires StrictWeakOrder(lt)
    requires Sorted(s, lt)
    ensures Sorted(Insert(x, s, lt), lt)
  {
    if |s| == 0 || !lt(s[0], x) {
      assert forall j :: 0 <= j < |s| ==> !lt(s[j], x);
    } else {
      var rest := Insert(x, s[1..], lt);
      InsertSorted(x, s[1..], lt);
      InsertElements(x, s[1..], lt);
      forall j | 0 <= j < |rest| ensures !lt(rest[j], s[0]) {
        assert rest[j] in rest;
        if rest[j] != x {
          var k :| 0 <= k < |s[1..]| && s[1..][k] == rest[j];
          assert s[k + 1] == rest[j];
        }
      }
      assert Insert(x, s, lt) == [s[0]] + rest;
    }
  }

  lemma {:induction false} InsertElements<T>(x: T, s: seq<T>, lt: (T, T) -> bool)
    ensures multiset(Insert(x, s, lt)) == multiset(s) + multiset{x}
    ensures forall y :: y in Insert(x, s, lt) <==> y == x || y in s
  {
    if |s| > 0 && lt(s[0], x) {
      InsertElements(x, s[1..], lt);
      assert s == [s[0]] + s[1..];
    }
  }

  lemma {:induction false} InsertTied<T(!new)>(x: T, s: seq<T>, lt: (T, T) -> bool, e: T)
    requires StrictWeakOrder(lt)
    ensures TiedWith(Insert(x, s, lt), lt, e)
         == (if Tied(lt, x, e) then [x] + TiedWith(s, lt, e) else TiedWith(s, lt, e))
  {
    if |s| == 0 || !lt(s[0], x) {
      assert ([x] + s)[1..] == s;
    } else {
      var r := Insert(x, s, lt);
      assert r[1..] == Insert(x, s[1..], lt);
      InsertTied(x, s[1..], lt, e);
      if Tied(lt, x, e) {
        assert lt(s[0], e) || lt(e, x);
      }
    }
  }

  /** Stable insertion sort: the earliest element is inserted ahead of every
      element it is tied with, so ties keep their input order. */
  function Sort<T>(xs: seq<T>, lt: (T, T) -> bool): seq<T> {
    if |xs| == 0 then [] else Insert(xs[0], Sort(xs[1..], lt), lt)
  }

  /** What sorting under a strict weak order produces: an ordered permutation
      of the input that keeps the input order of every group of tied elements. */
  lemma {:induction false} SortSpec<T(!new)>(xs: seq<T>, lt: (T, T) -> bool)
    requires StrictWeakOrder(lt)
    ensures Sorted(Sort(xs, lt), lt)
    ensures multiset(Sort(xs, lt)) == multiset(xs)
    ensures |Sort(xs, lt)| == |xs|
    ensures forall e :: TiedWith(Sort(xs, lt), lt, e) == TiedWith(xs, lt, e)
  {
    SortSorted(xs, lt);
    SortPermutes(xs, lt);
    forall e ensures TiedWith(Sort(xs, lt), lt, e) == TiedWith(xs, lt, e) {
      SortStable(xs, lt, e);
    }
  }

  /** Each insertion keeps the list ordered. */
  lemma {:induction false} SortSorted<T(!new)>(xs: seq<T>, lt: (T, T) -> bool)
    requires StrictWeakOrder(lt)
    ensures Sorted(Sort(xs, lt), lt)
  {
    if |xs| > 0 {
      SortSorted(xs[1..], lt);
      InsertSorted(xs[0], Sort(xs[1..], lt), lt);
    }
  }

  /** Each insertion adds exactly its element. */
  lemma {:induction false} SortPermutes<T>(xs: seq<T>, lt: (T, T) -> bool)
    ensures multiset(Sort(xs, lt)) == multiset(xs)
    ensures |Sort(xs, lt)| == |xs|
  {
    if |xs| > 0 {
      assert xs == [xs[0]] + xs[1..];
      assert multiset(xs) == multiset{xs[0]} + multiset(xs[1..]);
      SortPermutes(xs[1..], lt);
      InsertElements(xs[0], Sort(xs[1..], lt), lt);
      assert |Sort(xs, lt)| == |multiset(Sort(xs, lt))|;
    }
  }

  /** Each insertion puts its element ahead of the elements tied with it. */
  lemma {:induction false} SortStable<T(!new)>(xs: seq<T>, lt: (T, T) -> bool, e: T)
    requires StrictWeakOrder(lt)
    ensures TiedWith(Sort(xs, lt), lt, e) == TiedWith(xs, lt, e)
  {
    if |xs| > 0 {
      SortStable(xs[1..], lt, e);
      InsertTied(xs[0], Sort(xs[1..], lt), lt, e);
    }
  }

  /** The order of a comparator `(a, b) => key(b) - key(a)`: larger keys first. */
  function Descending<T>(key: T -> real): (T, T) -> bool {
    (a: T, b: T) => key(a) > key(b)
  }

  /** Sorting by a numeric key, larger first, is a strict weak order whose ties
      are the elements with equal keys. */
  lemma DescendingOrder<T(!new)>(key: T -> real)
    ensures StrictWeakOrder(Descending(key))
    ensures forall a, b :: Tied(Descending(key), a, b) <==> key(a) == key(b)
  {
  }

  /** `sort((a, b) => key(b) - key(a))`: larger keys first, a permutation of
      the input that keeps elements with equal keys in their input order. */
  function SortDescending<T(!new)>(xs: seq<T>, key: T -> real): (r: seq<T>)
    ensures |r| == |xs|
    ensures forall i, j :: 0 <= i < j < |r| ==> key(r[i]) >= key(r[j])
    ensures multiset(r) == multiset(xs)
    ensures forall e :: TiedWith(r, Descending(key), e) == TiedWith(xs, Descending(key), e)
  {
    DescendingOrder(key);
    SortSpec(xs, Descending(key));
    Sort(xs, Descending(key))
  }

  /** The test "tied with `e`". */
  function TiedTo<T>(lt: (T, T) -> bool, e: T): T -> bool {
    x => Tied(lt, x, e)
  }

  /** The tie group of `e` is what filtering by "tied with `e`" keeps. */
  lemma {:induction false} TiedWithFilter<T(!new)>(xs: seq<T>, lt: (T, T) -> bool, e: T)
    ensures TiedWith(xs, lt, e) == Filter(xs, TiedTo(lt, e))
  {
    if |xs| > 0 {
      TiedWithFilter(xs[1..], lt, e);
    }
  }

  /** A permutation that keeps every tie group in input order keeps any two
      tied elements in input order: tied elements at positions `a < b` of `r`
      sit at positions `c < d` of `xs`. */
  lemma StableOrder<T(!new)>(xs: seq<T>, r: seq<T>, lt: (T, T) -> bool, a: nat, b: nat) returns (c: nat, d: nat)
    requires StrictWeakOrder(lt)
    requires forall e :: TiedWith(r, lt, e) == TiedWith(xs, lt, e)
    requires a < b < |r| && Tied(lt, r[a], r[b])
    ensures c < d < |xs| && xs[c] == r[a] && xs[d] == r[b]
  {
    var e := r[a];
    var tied := TiedTo(lt, e);
    assert tied(r[a]) && tied(r[b]);
    TiedWithFilter(r, lt, e);
    TiedWithFilter(xs, lt, e);
    c, d := SameFilterOrder(r, xs, tied, a, b);
  }
}
