/** The audit records the dashboard works on, and the per-provider extraction
    that both the page (app/page.tsx) and the provider comparison panel
    (components/provider-comparison.tsx) perform on them. */
module Audit {
  import opened Wrappers
  import opened Seqs

  /** An `exact_match_rate` value as the aggregation code classifies it: a finite
      number, NaN or an infinity, or no number at all (missing, a string,
      `null`, ...). */
  datatype Rate = Finite(value: real) | NonFinite | Absent

  /** What `providers[p]` yields for one provider name. `Metrics` is a truthy
      value whose `exact_match_rate` reads as `exactMatchRate` (Absent for a
      value without that field, such as a non-empty string or an inherited
      member). `Falsy` is a falsy value other than `null` (`0`, `false`,
      `""`), whose `exact_match_rate` reads as `undefined`. `Null` is JSON
      `null`, from which reading a field throws. The other metric fields pass
      through the pipeline unread and are not represented. */
  datatype Entry = Metrics(exactMatchRate: Rate) | Falsy | Null {
    /** `entry.exact_match_rate`, for an entry it can be read from. */
    function ReadRate(): Rate
      requires !Null?
    {
      if Metrics? then exactMatchRate else Absent
    }
  }

  /** A JSON object's keys are unique. */
  ghost predicate DistinctKeys(m: seq<(string, Entry)>) {
    forall i, j :: 0 <= i < j < |m| ==> m[i].0 != m[j].0
  }

  /** `providers`, with its keys in the object's own iteration order. */
  type ProviderMap = m: seq<(string, Entry)> | DistinctKeys(m) witness []

  /** One audit run: a model, an ISO-like timestamp, per-provider metrics. */
  datatype AuditResult = AuditResult(model: string, timestamp: string, providers: ProviderMap)

  /** `Object.keys(m)`. */
  function Keys(m: seq<(string, Entry)>): (ks: seq<string>)
    ensures |ks| == |m|
    ensures forall i :: 0 <= i < |m| ==> ks[i] == m[i].0
  {
    if |m| == 0 then [] else [m[0].0] + Keys(m[1..])
  }

  /** The members every object inherits from `Object.prototype` (section
      20.1.3 of the ECMAScript 2024 specification, with the legacy accessors of
      its Annex B.2.2). Looking one up on a parsed JSON object that lacks it as
      an own key finds a function or an object: truthy, and without an
      `exact_match_rate`. */
  const InheritedNames: set<string> := {
    "constructor", "hasOwnProperty", "isPrototypeOf", "propertyIsEnumerable",
    "toLocaleString", "toString", "valueOf", "__proto__",
    "__defineGetter__", "__defineSetter__", "__lookupGetter__", "__lookupSetter__"
  }

  /** `m[k]`: the entry stored under own key `k`; otherwise the inherited
      member named `k`, if any, as a truthy value without a rate; otherwise
      None for `undefined`. */
  function Lookup(m: seq<(string, Entry)>, k: string): (r: Option<Entry>)
    ensures r.None? <==> k !in Keys(m) && k !in InheritedNames
    ensures k in Keys(m) ==> r.Some? && exists i :: 0 <= i < |m| && m[i] == (k, r.value)
    ensures k !in Keys(m) && k in InheritedNames ==> r == Some(Metrics(Absent))
  {
    if |m| == 0 then (if k in InheritedNames then Some(Metrics(Absent)) else None)
    else if m[0].0 == k then Some(m[0].1)
    else
      assert Keys(m) == [m[0].0] + Keys(m[1..]);
      Lookup(m[1..], k)
  }

  /** In a map with unique keys, the entry at any position is what a lookup of its key returns. */
  lemma LookupAt(m: ProviderMap, i: nat)
    requires i < |m|
    ensures Lookup(m, m[i].0) == Some(m[i].1)
  {
    var r := Lookup(m, m[i].0);
    var j :| 0 <= j < |m| && m[j] == (m[i].0, r.value);
  }

  /** `r.providers[p]` is truthy: an own metrics value, or an inherited member. */
  predicate HasEntry(r: AuditResult, p: string) {
    Lookup(r.providers, p).Some? && Lookup(r.providers, p).value.Metrics?
  }

  /** `r.providers[p].exact_match_rate` for a run that holds an entry for `p`. */
  function RateOf(r: AuditResult, p: string): Rate
    requires HasEntry(r, p)
  {
    Lookup(r.providers, p).value.exactMatchRate
  }

  /** The run holds a finite rate for `p`: one valid measurement. */
  predicate HasScore(r: AuditResult, p: string) {
    HasEntry(r, p) && RateOf(r, p).Finite?
  }

  /** When `r.providers[p]` is truthy: `p` is an own key holding a truthy
      value, or `p` is not an own key but an inherited member's name. Only an
      own key can carry a valid measurement. */
  lemma HasEntryMeaning(r: AuditResult, p: string)
    ensures HasEntry(r, p) <==>
      || (exists i :: 0 <= i < |r.providers| && r.providers[i].0 == p && r.providers[i].1.Metrics?)
      || (p !in Keys(r.providers) && p in InheritedNames)
    ensures HasScore(r, p) ==> p in Keys(r.providers)
  {
    var m := r.providers;
    if exists i :: 0 <= i < |m| && m[i].0 == p && m[i].1.Metrics? {
      var i :| 0 <= i < |m| && m[i].0 == p && m[i].1.Metrics?;
      LookupAt(m, i);
    }
    if p in Keys(m) {
      var i :| 0 <= i < |m| && m[i] == (p, Lookup(m, p).value);
    }
  }

  /** `results.flatMap((r) => Object.keys(r.providers))`. */
  function AllKeys(results: seq<AuditResult>): (ks: seq<string>)
    ensures forall p :: p in ks <==> exists i :: 0 <= i < |results| && p in Keys(results[i].providers)
  {
    if |results| == 0 then []
    else
      var init := results[..|results| - 1];
      var last := results[|results| - 1];
      var ks := AllKeys(init) + Keys(last.providers);
      assert forall p :: p in ks ==> exists i :: 0 <= i < |results| && p in Keys(results[i].providers) by {
        forall p | p in ks ensures exists i :: 0 <= i < |results| && p in Keys(results[i].providers) {
          if p !in Keys(last.providers) {
            var i :| 0 <= i < |init| && p in Keys(init[i].providers);
            assert init[i] == results[i];
          }
        }
      }
      assert forall i :: 0 <= i < |init| ==> init[i] == results[i];
      ks
  }

  /** The distinct provider names of a corpus, each at its first appearance
      (`Array.from(new Set(results.flatMap((r) => Object.keys(r.providers))))`). */
  function Providers(results: seq<AuditResult>): (ps: seq<string>)
    ensures NoDup(ps)
    ensures forall p :: p in ps <==> p in AllKeys(results)
    ensures forall p :: p in ps <==> exists i :: 0 <= i < |results| && p in Keys(results[i].providers)
    ensures forall i, j :: 0 <= i < j < |ps| ==> IndexOf(AllKeys(results), ps[i]) < IndexOf(AllKeys(results), ps[j])
  {
    DedupSpec(AllKeys(results));
    Dedup(AllKeys(results))
  }

  /** The model of each run, in corpus order. */
  function ModelColumn(results: seq<AuditResult>): (ms: seq<string>)
    ensures |ms| == |results|
    ensures forall i :: 0 <= i < |results| ==> ms[i] == results[i].model
  {
    seq(|results|, i requires 0 <= i < |results| => results[i].model)
  }

  /** The distinct models of a corpus, each at its first appearance
      (`Array.from(new Set(results.map((r) => r.model)))`). */
  function Models(results: seq<AuditResult>): (ms: seq<string>)
    ensures NoDup(ms)
    ensures forall m :: m in ms <==> m in ModelColumn(results)
    ensures forall m :: m in ms <==> exists i :: 0 <= i < |results| && results[i].model == m
    ensures forall i, j :: 0 <= i < j < |ms| ==> IndexOf(ModelColumn(results), ms[i]) < IndexOf(ModelColumn(results), ms[j])
  {
    var col := ModelColumn(results);
    assert forall m :: m in col <==> exists i :: 0 <= i < |results| && results[i].model == m by {
      forall m | m in col ensures exists i :: 0 <= i < |results| && results[i].model == m {
        var i :| 0 <= i < |col| && col[i] == m;
      }
    }
    DedupSpec(col);
    Dedup(col)
  }

  predicate IsModel(m: string, r: AuditResult) {
    r.model == m
  }

  /** `results.filter((r) => r.model === m)`. */
  function RunsOf(results: seq<AuditResult>, m: string): seq<AuditResult> {
    Filter(results, r => IsModel(m, r))
  }

  /** The raw rates for `p`, one per run holding an entry for `p`, in corpus order:
      `results.filter((r) => r.providers[p]).map((r) => r.providers[p].exact_match_rate)`. */
  function RawRates(results: seq<AuditResult>, p: string): (raw: seq<Rate>)
    ensures |raw| <= |results|
  {
    if |results| == 0 then []
    else
      var last := results[|results| - 1];
      RawRates(results[..|results| - 1], p) + (if HasEntry(last, p) then [RateOf(last, p)] else [])
  }

  /** A raw rate is exactly the rate of some run holding an entry for `p`. */
  lemma {:induction false} RawRatesMembership(results: seq<AuditResult>, p: string)
    ensures forall x :: x in RawRates(results, p) <==>
      exists i :: 0 <= i < |results| && HasEntry(results[i], p) && RateOf(results[i], p) == x
  {
    if |results| > 0 {
      var init := results[..|results| - 1];
      RawRatesMembership(init, p);
      assert forall i :: 0 <= i < |init| ==> init[i] == results[i];
    }
  }

  /** The raw rates of a concatenated corpus are the concatenated raw rates. */
  lemma {:induction false} RawRatesAppend(a: seq<AuditResult>, b: seq<AuditResult>, p: string)
    ensures RawRates(a + b, p) == RawRates(a, p) + RawRates(b, p)
  {
    if |b| == 0 {
      assert a + b == a;
    } else {
      assert (a + b)[..|a + b| - 1] == a + b[..|b| - 1];
      RawRatesAppend(a, b[..|b| - 1], p);
    }
  }

  /** The finite values among `raw`, in order: the `scores` array both sources
      build with `typeof v === "number" && Number.isFinite(v)`. */
  function Finites(raw: seq<Rate>): (s: seq<real>)
    ensures |s| <= |raw|
  {
    if |raw| == 0 then []
    else
      var last := raw[|raw| - 1];
      Finites(raw[..|raw| - 1]) + (if last.Finite? then [last.value] else [])
  }

  /** A score is exactly a finite rate of `raw`; there are none exactly when
      no rate is finite. */
  lemma {:induction false} FinitesSpec(raw: seq<Rate>)
    ensures forall v :: v in Finites(raw) <==> Finite(v) in raw
    ensures |Finites(raw)| == 0 <==> forall i :: 0 <= i < |raw| ==> !raw[i].Finite?
  {
    if |raw| > 0 {
      var init := raw[..|raw| - 1];
      var last := raw[|raw| - 1];
      FinitesSpec(init);
      assert raw == init + [last];
      assert forall i :: 0 <= i < |init| ==> init[i] == raw[i];
    }
  }

  /** Appending one rate appends its value when it is finite. */
  lemma FinitesSnoc(raw: seq<Rate>, x: Rate)
    ensures Finites(raw + [x]) == Finites(raw) + (if x.Finite? then [x.value] else [])
  {
    assert (raw + [x])[..|raw|] == raw;
  }

  /** Finite values of a concatenation are the concatenated finite values. */
  lemma {:induction false} FinitesAppend(a: seq<Rate>, b: seq<Rate>)
    ensures Finites(a + b) == Finites(a) + Finites(b)
  {
    if |b| == 0 {
      assert a + b == a;
    } else {
      var init := b[..|b| - 1];
      var last := b[|b| - 1];
      assert (a + b)[..|a + b| - 1] == a + init;
      assert (a + b)[|a + b| - 1] == last;
      FinitesAppend(a, init);
    }
  }

  /** The valid measurements of `p` across `results`. */
  function Scores(results: seq<AuditResult>, p: string): seq<real> {
    Finites(RawRates(results, p))
  }

  /** A score of `p` is exactly a finite rate some run records for `p`; there
      are none exactly when no run has a valid measurement of `p`. */
  lemma ScoresSpec(results: seq<AuditResult>, p: string)
    ensures forall v :: v in Scores(results, p) <==>
      exists i :: 0 <= i < |results| && HasEntry(results[i], p) && RateOf(results[i], p) == Finite(v)
    ensures |Scores(results, p)| == 0 <==> forall i :: 0 <= i < |results| ==> !HasScore(results[i], p)
  {
    var raw := RawRates(results, p);
    RawRatesMembership(results, p);
    FinitesSpec(raw);
    forall i | 0 <= i < |results| && HasScore(results[i], p) ensures |Scores(results, p)| > 0 {
      assert RateOf(results[i], p) in raw;
    }
    forall v | v in Scores(results, p)
      ensures exists i :: 0 <= i < |results| && HasEntry(results[i], p) && RateOf(results[i], p) == Finite(v)
    {
      assert Finite(v) in raw;
    }
  }

  /** The run a score comes from. */
  lemma ScoreRun(results: seq<AuditResult>, p: string, v: real) returns (i: nat)
    requires v in Scores(results, p)
    ensures i < |results| && HasScore(results[i], p) && RateOf(results[i], p).value == v
  {
    ScoresSpec(results, p);
    i :| 0 <= i < |results| && HasEntry(results[i], p) && RateOf(results[i], p) == Finite(v);
  }
}
