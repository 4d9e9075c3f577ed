/** String operations the pipeline relies on: the ordering used to sort time
    series points by timestamp, and the `_` to `/` rewrite that recovers a model
    identifier from a file name. */
module Strings {
  import opened StableSort

  /** Lexicographic order on code points: a proper prefix comes first, otherwise
      the first differing character decides. */
  predicate StrLt(a: string, b: string) {
    if |a| == 0 then |b| > 0
    else if |b| == 0 then false
    else if a[0] != b[0] then a[0] < b[0]
    else StrLt(a[1..], b[1..])
  }

  lemma {:induction false} StrLtAsymmetric(a: string, b: string)
    ensures StrLt(a, b) ==> !StrLt(b, a)
  {
    if |a| > 0 && |b| > 0 && a[0] == b[0] {
      StrLtAsymmetric(a[1..], b[1..]);
    }
  }

  lemma {:induction false} StrLtSplits(a: string, b: string, c: string)
    requires StrLt(a, c)
    ensures StrLt(a, b) || StrLt(b, c)
  {
    if |a| > 0 && |b| > 0 && a[0] == b[0] && b[0] == c[0] {
      StrLtSplits(a[1..], b[1..], c[1..]);
    }
  }

  /** Distinct strings are always ordered one way or the other. */
  lemma {:induction false} StrLtTotal(a: string, b: string)
    ensures a == b || StrLt(a, b) || StrLt(b, a)
  {
    if |a| > 0 && |b| > 0 && a[0] == b[0] {
      StrLtTotal(a[1..], b[1..]);
      if a[1..] == b[1..] {
        assert a == [a[0]] + a[1..] && b == [b[0]] + b[1..];
      }
    }
  }

  /** Code-point order is a strict weak order, and strings tie only when equal. */
  lemma StrLtIsStrictWeakOrder()
    ensures StrictWeakOrder(StrLt)
    ensures forall a, b :: Tied(StrLt, a, b) <==> a == b
  {
    forall a, b ensures StrLt(a, b) ==> !StrLt(b, a) {
      StrLtAsymmetric(a, b);
    }
    forall a, b, c | StrLt(a, c) ensures StrLt(a, b) || StrLt(b, c) {
      StrLtSplits(a, b, c);
    }
    forall a, b ensures Tied(StrLt, a, b) <==> a == b {
      StrLtTotal(a, b);
      StrLtAsymmetric(a, a);
    }
  }

  /** `s.replace(/_/g, "/")`: every underscore becomes a slash, nothing else moves. */
  function ReplaceUnderscores(s: string): (r: string)
    ensures |r| == |s|
    ensures '_' !in r
    ensures forall i :: 0 <= i < |s| && s[i] != '_' ==> r[i] == s[i]
    ensures forall i :: 0 <= i < |s| && s[i] == '_' ==> r[i] == '/'
  {
    if |s| == 0 then []
    else [if s[0] == '_' then '/' else s[0]] + ReplaceUnderscores(s[1..])
  }

  /** The rewrite works character by character, so it distributes over concatenation. */
  lemma {:induction false} ReplaceUnderscoresAppend(a: string, b: string)
    ensures ReplaceUnderscores(a + b) == ReplaceUnderscores(a) + ReplaceUnderscores(b)
  {
    var whole := ReplaceUnderscores(a + b);
    var parts := ReplaceUnderscores(a) + ReplaceUnderscores(b);
    forall i | 0 <= i < |whole| ensures whole[i] == parts[i] {
      ReplaceUnderscoresAt(a, b, i);
    }
  }

  /** One position of the rewrite of a concatenation. */
  lemma ReplaceUnderscoresAt(a: string, b: string, i: nat)
    requires i < |a| + |b|
    ensures ReplaceUnderscores(a + b)[i] == (ReplaceUnderscores(a) + ReplaceUnderscores(b))[i]
  {
    var ab := a + b;
    var ra, rb := ReplaceUnderscores(a), ReplaceUnderscores(b);
    if i < |a| {
      assert ab[i] == a[i];
      assert (ra + rb)[i] == ra[i];
    } else {
      assert ab[i] == b[i - |a|];
      assert (ra + rb)[i] == rb[i - |a|];
    }
  }
}
