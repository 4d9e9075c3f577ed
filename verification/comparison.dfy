/** The per-provider statistics card of components/provider-comparison.tsx,
    shown for the runs of the selected model: average, minimum, maximum,
    latest valid score and trend of each provider with at least one valid
    measurement, best average first. */
module Comparison {
  import opened Wrappers
  import opened Audit
  import opened Seqs
  import opened StableSort

  datatype ProviderStat = ProviderStat(
    provider: string,
    avgScore: real,
    minScore: real,
    maxScore: real,
    latestScore: real,
    trend: real,
    dataPoints: nat)

  /** Position of the last finite rate in `raw`, -1 when there is none. */
  function LastFiniteIndex(raw: seq<Rate>): (j: int)
    ensures -1 <= j < |raw|
    ensures j >= 0 ==> raw[j].Finite?
    ensures forall k :: j < k < |raw| ==> !raw[k].Finite?
  {
    if |raw| == 0 then -1
    else if raw[|raw| - 1].Finite? then |raw| - 1
    else LastFiniteIndex(raw[..|raw| - 1])
  }

  /** The backward walk over the raw rates that returns the first finite one
      it meets, or 0 when there is none (lines 47-54): the rate at the last
      finite position. */
  function LatestValid(raw: seq<Rate>): (v: real)
    ensures LastFiniteIndex(raw) < 0 ==> v == 0.0
    ensures LastFiniteIndex(raw) >= 0 ==> raw[LastFiniteIndex(raw)] == Finite(v)
  {
    if |raw| == 0 then 0.0
    else if raw[|raw| - 1].Finite? then raw[|raw| - 1].value
    else LatestValid(raw[..|raw| - 1])
  }

  /** The latest valid score is the last of the finite scores: the backward
      walk over the raw rates and the last element of the filtered list agree. */
  lemma {:induction false} LatestIsLastScore(raw: seq<Rate>)
    requires |Finites(raw)| > 0
    ensures LatestValid(raw) == Finites(raw)[|Finites(raw)| - 1]
  {
    var init := raw[..|raw| - 1];
    if !raw[|raw| - 1].Finite? {
      assert Finites(raw) == Finites(init);
      LatestIsLastScore(init);
    }
  }

  /** The difference between the last two valid scores, 0 with fewer than two
      (lines 57-63). */
  function Trend(scores: seq<real>): real {
    if |scores| < 2 then 0.0 else scores[|scores| - 1] - scores[|scores| - 2]
  }

  /** The trend in terms of the raw rates: 0 with fewer than two valid
      measurements; otherwise the latest valid score minus the latest valid
      score before its position, however many invalid rates lie between. */
  lemma {:induction false} TrendSpec(raw: seq<Rate>)
    ensures |Finites(raw)| < 2 ==> Trend(Finites(raw)) == 0.0
    ensures |Finites(raw)| >= 2 ==>
      && LastFiniteIndex(raw) >= 0
      && LastFiniteIndex(raw[..LastFiniteIndex(raw)]) >= 0
      && Trend(Finites(raw)) == LatestValid(raw) - LatestValid(raw[..LastFiniteIndex(raw)])
  {
    if |Finites(raw)| >= 2 {
      var n := |raw|;
      var init := raw[..n - 1];
      if raw[n - 1].Finite? {
        TrendLastFinite(raw);
      } else {
        SkipLastInvalid(raw);
        TrendSpec(init);
      }
    }
  }

  /** The trend when the last raw rate is valid: it minus the latest valid rate before it. */
  lemma TrendLastFinite(raw: seq<Rate>)
    requires |raw| > 0 && raw[|raw| - 1].Finite? && |Finites(raw)| >= 2
    ensures LastFiniteIndex(raw) == |raw| - 1
    ensures LastFiniteIndex(raw[..|raw| - 1]) >= 0
    ensures Trend(Finites(raw)) == LatestValid(raw) - LatestValid(raw[..|raw| - 1])
  {
    var init := raw[..|raw| - 1];
    assert Finites(raw) == Finites(init) + [raw[|raw| - 1].value];
    LatestIsLastScore(init);
    FiniteIndexExists(init);
  }

  /** An invalid last rate changes none of the figures the trend depends on. */
  lemma SkipLastInvalid(raw: seq<Rate>)
    requires |raw| > 0 && !raw[|raw| - 1].Finite?
    ensures Finites(raw) == Finites(raw[..|raw| - 1])
    ensures LastFiniteIndex(raw) == LastFiniteIndex(raw[..|raw| - 1])
    ensures LatestValid(raw) == LatestValid(raw[..|raw| - 1])
    ensures LastFiniteIndex(raw) >= 0 ==>
      raw[..LastFiniteIndex(raw)] == raw[..|raw| - 1][..LastFiniteIndex(raw)]
  {
  }

  /** Some position holds a finite rate exactly when some finite score exists. */
  lemma FiniteIndexExists(raw: seq<Rate>)
    ensures LastFiniteIndex(raw) >= 0 <==> |Finites(raw)| > 0
  {
  }

  /** A provider whose runs report 0.9, then a non-numeric rate, then 0.92:
      the invalid run is skipped, so the latest score is 0.92, the trend
      0.92 - 0.9, and there are two data points. */
  lemma ExampleSkippedRate(raw: seq<Rate>)
    requires raw == [Finite(0.9), NonFinite, Finite(0.92)]
    ensures LatestValid(raw) == 0.92
    ensures Trend(Finites(raw)) == 0.92 - 0.9
    ensures |Finites(raw)| == 2
  {
    assert raw[..2] == [Finite(0.9), NonFinite];
    assert raw[..1] == [Finite(0.9)];
    assert Finites(raw[..1]) == [0.9];
    assert Finites(raw[..2]) == [0.9];
    assert Finites(raw) == [0.9, 0.92];
  }

  /** The statistics of `p` over `results` (lines 33-73). */
  function StatFor(results: seq<AuditResult>, p: string): ProviderStat {
    var raw := RawRates(results, p);
    var scores := Finites(raw);
    ProviderStat(
      p,
      Mean(scores),
      if |scores| > 0 then Min(scores) else 0.0,
      if |scores| > 0 then Max(scores) else 0.0,
      LatestValid(raw),
      Trend(scores),
      |scores|)
  }

  /** Position of the last run holding a valid measurement of `p`, -1 when
      there is none. */
  function LastScoredRun(results: seq<AuditResult>, p: string): (j: int)
    ensures -1 <= j < |results|
    ensures j >= 0 ==> HasScore(results[j], p)
    ensures forall k :: j < k < |results| ==> !HasScore(results[k], p)
  {
    if |results| == 0 then -1
    else if HasScore(results[|results| - 1], p) then |results| - 1
    else
      var init := results[..|results| - 1];
      assert forall k :: 0 <= k < |init| ==> init[k] == results[k];
      LastScoredRun(init, p)
  }

  /** An invalid rate appended at the end does not change the latest valid one. */
  lemma LatestValidSkip(raw: seq<Rate>, x: Rate)
    requires !x.Finite?
    ensures LatestValid(raw + [x]) == LatestValid(raw)
  {
    assert (raw + [x])[..|raw|] == raw;
  }

  /** The latest valid score is the rate of the last run holding a valid
      measurement of `p`. */
  lemma {:induction false} LatestRun(results: seq<AuditResult>, p: string)
    ensures LastScoredRun(results, p) >= 0 ==>
      RateOf(results[LastScoredRun(results, p)], p) == Finite(LatestValid(RawRates(results, p)))
  {
    var n := |results|;
    if n > 0 {
      var init := results[..n - 1];
      var last := results[n - 1];
      var raw := RawRates(results, p);
      if HasScore(last, p) {
        assert raw == RawRates(init, p) + [RateOf(last, p)];
      } else {
        if HasEntry(last, p) {
          assert raw == RawRates(init, p) + [RateOf(last, p)];
          LatestValidSkip(RawRates(init, p), RateOf(last, p));
        } else {
          assert raw == RawRates(init, p);
        }
        LatestRun(init, p);
        assert LastScoredRun(results, p) == LastScoredRun(init, p);
      }
    }
  }

  /** What a provider's statistics mean: no data points exactly when no run
      has a valid measurement, and then every figure is 0; otherwise the
      minimum and maximum are valid measurements bounding every valid
      measurement, the average and the latest lie between them, and the
      latest is the rate of the last run with a valid measurement. */
  lemma StatForSpec(results: seq<AuditResult>, p: string)
    ensures StatFor(results, p).provider == p
    ensures StatFor(results, p).dataPoints == 0 <==> forall i :: 0 <= i < |results| ==> !HasScore(results[i], p)
    ensures StatFor(results, p).dataPoints == 0 ==>
      StatFor(results, p) == ProviderStat(p, 0.0, 0.0, 0.0, 0.0, 0.0, 0)
    ensures StatFor(results, p).dataPoints > 0 ==>
      && StatFor(results, p).minScore <= StatFor(results, p).avgScore <= StatFor(results, p).maxScore
      && StatFor(results, p).minScore <= StatFor(results, p).latestScore <= StatFor(results, p).maxScore
    ensures forall i :: 0 <= i < |results| && HasScore(results[i], p) ==>
      StatFor(results, p).minScore <= RateOf(results[i], p).value <= StatFor(results, p).maxScore
    ensures StatFor(results, p).dataPoints > 0 ==>
      && (exists i :: 0 <= i < |results| && HasScore(results[i], p) && RateOf(results[i], p).value == StatFor(results, p).minScore)
      && (exists i :: 0 <= i < |results| && HasScore(results[i], p) && RateOf(results[i], p).value == StatFor(results, p).maxScore)
    ensures StatFor(results, p).dataPoints > 0 ==>
      && LastScoredRun(results, p) >= 0
      && RateOf(results[LastScoredRun(results, p)], p).value == StatFor(results, p).latestScore
  {
    StatEmpty(results, p);
    StatBounds(results, p);
    if StatFor(results, p).dataPoints > 0 {
      StatExtremes(results, p);
      StatLatest(results, p);
    }
  }

  /** No valid measurement: every figure is 0. */
  lemma StatEmpty(results: seq<AuditResult>, p: string)
    ensures StatFor(results, p).dataPoints == 0 <==> forall i :: 0 <= i < |results| ==> !HasScore(results[i], p)
    ensures StatFor(results, p).dataPoints == 0 ==>
      StatFor(results, p) == ProviderStat(p, 0.0, 0.0, 0.0, 0.0, 0.0, 0)
  {
    ScoresSpec(results, p);
    FiniteIndexExists(RawRates(results, p));
  }

  /** Every valid measurement lies between the minimum and the maximum. */
  lemma StatBounds(results: seq<AuditResult>, p: string)
    ensures forall i :: 0 <= i < |results| && HasScore(results[i], p) ==>
      StatFor(results, p).minScore <= RateOf(results[i], p).value <= StatFor(results, p).maxScore
  {
    var scores := Scores(results, p);
    forall i | 0 <= i < |results| && HasScore(results[i], p)
      ensures StatFor(results, p).minScore <= RateOf(results[i], p).value <= StatFor(results, p).maxScore
    {
      ScoresSpec(results, p);
      assert RateOf(results[i], p) == Finite(RateOf(results[i], p).value);
      var k := IndexOf(scores, RateOf(results[i], p).value);
    }
  }

  /** The minimum and the maximum are valid measurements, and bound the average. */
  lemma StatExtremes(results: seq<AuditResult>, p: string)
    requires StatFor(results, p).dataPoints > 0
    ensures StatFor(results, p).minScore <= StatFor(results, p).avgScore <= StatFor(results, p).maxScore
    ensures exists i :: 0 <= i < |results| && HasScore(results[i], p) && RateOf(results[i], p).value == StatFor(results, p).minScore
    ensures exists i :: 0 <= i < |results| && HasScore(results[i], p) && RateOf(results[i], p).value == StatFor(results, p).maxScore
  {
    var scores := Scores(results, p);
    MeanBetweenMinMax(scores);
    var lo := ScoreRun(results, p, Min(scores));
    var hi := ScoreRun(results, p, Max(scores));
  }

  /** The latest score is the rate of the last run with a valid measurement,
      and lies between the minimum and the maximum. */
  lemma StatLatest(results: seq<AuditResult>, p: string)
    requires StatFor(results, p).dataPoints > 0
    ensures StatFor(results, p).minScore <= StatFor(results, p).latestScore <= StatFor(results, p).maxScore
    ensures LastScoredRun(results, p) >= 0
    ensures RateOf(results[LastScoredRun(results, p)], p).value == StatFor(results, p).latestScore
  {
    var raw := RawRates(results, p);
    var scores := Finites(raw);
    LatestIsLastScore(raw);
    assert StatFor(results, p).latestScore == scores[|scores| - 1];
    var i := ScoreRun(results, p, scores[|scores| - 1]);
    assert LastScoredRun(results, p) >= i;
    LatestRun(results, p);
  }

  /** One statistics record per provider seen in `results`, in first-appearance
      order. */
  function AllStats(results: seq<AuditResult>): (ss: seq<ProviderStat>)
    ensures |ss| == |Providers(results)|
    ensures forall k :: 0 <= k < |ss| ==> ss[k] == StatFor(results, Providers(results)[k])
  {
    var ps := Providers(results);
    seq(|ps|, k requires 0 <= k < |ps| => StatFor(results, ps[k]))
  }

  predicate HasData(s: ProviderStat) {
    s.dataPoints > 0
  }

  /** `.filter((stat) => stat.dataPoints > 0)`. */
  function Kept(results: seq<AuditResult>): seq<ProviderStat> {
    Filter(AllStats(results), HasData)
  }

  function AvgScore(s: ProviderStat): real {
    s.avgScore
  }

  /** A rearrangement of records with data holds only records with data. */
  lemma PermutedHaveData(ss: seq<ProviderStat>, r: seq<ProviderStat>)
    requires forall k :: 0 <= k < |ss| ==> ss[k].dataPoints > 0
    requires multiset(r) == multiset(ss)
    ensures forall k :: 0 <= k < |r| ==> r[k].dataPoints > 0
  {
    forall k | 0 <= k < |r| ensures r[k].dataPoints > 0 {
      assert r[k] in multiset(ss);
      var j :| 0 <= j < |ss| && ss[j] == r[k];
    }
  }

  /** `providerStats` after sorting: only providers with data, non-increasing
      by average, and a stable permutation of them in first-appearance order
      (what each record holds is `StatsSpec`). */
  function Stats(results: seq<AuditResult>): (r: seq<ProviderStat>)
    ensures forall k :: 0 <= k < |r| ==> r[k].dataPoints > 0
    ensures forall i, j :: 0 <= i < j < |r| ==> r[i].avgScore >= r[j].avgScore
    ensures multiset(r) == multiset(Kept(results))
    ensures forall e :: TiedWith(r, Descending(AvgScore), e) == TiedWith(Kept(results), Descending(AvgScore), e)
  {
    var kept := Kept(results);
    var r := SortDescending(kept, AvgScore);
    PermutedHaveData(kept, r);
    r
  }

  function StatProvider(s: ProviderStat): string {
    s.provider
  }

  /** The providers of a list of statistics, in order. */
  function Names(ss: seq<ProviderStat>): seq<string> {
    Map(ss, StatProvider)
  }

  /** The record of `p` is about `p` and has data exactly when some run
      measured `p` validly. */
  lemma StatForData(results: seq<AuditResult>, p: string)
    ensures StatFor(results, p).provider == p
    ensures StatFor(results, p).dataPoints > 0 <==> exists i :: 0 <= i < |results| && HasScore(results[i], p)
  {
    ScoresSpec(results, p);
  }

  /** Every listed record is one of the unsorted records, with data. */
  lemma StatsFromAll(results: seq<AuditResult>)
    ensures forall k :: 0 <= k < |Stats(results)| ==> Stats(results)[k] in AllStats(results)
  {
    var r := Stats(results);
    forall k | 0 <= k < |r| ensures r[k] in AllStats(results) {
      assert r[k] in multiset(r);
    }
  }

  /** Each listed record is its provider's own statistics. */
  lemma StatsEntries(results: seq<AuditResult>)
    ensures forall k :: 0 <= k < |Stats(results)| ==> Stats(results)[k] == StatFor(results, Stats(results)[k].provider)
  {
    var all := AllStats(results);
    var ps := Providers(results);
    var r := Stats(results);
    StatsFromAll(results);
    forall k | 0 <= k < |r| ensures r[k] == StatFor(results, r[k].provider) {
      var j :| 0 <= j < |all| && all[j] == r[k];
      StatForData(results, ps[j]);
    }
  }

  /** The unsorted records are pairwise distinct: their providers are. */
  lemma AllStatsDistinct(results: seq<AuditResult>)
    ensures NoDup(AllStats(results))
  {
    var all := AllStats(results);
    var ps := Providers(results);
    forall a, b | 0 <= a < b < |all| ensures all[a] != all[b] {
      StatForData(results, ps[a]);
      StatForData(results, ps[b]);
    }
  }

  /** No provider is listed twice. */
  lemma StatsDistinct(results: seq<AuditResult>)
    ensures NoDup(Names(Stats(results)))
  {
    var all := AllStats(results);
    var r := Stats(results);
    AllStatsDistinct(results);
    FilterMultiset(all, HasData);
    assert multiset(r) <= multiset(all);
    SubMultisetNoDup(all, r);
    StatsEntries(results);
    forall i, j | 0 <= i < j < |r| ensures Names(r)[i] != Names(r)[j] {
      assert r[i] != r[j];
    }
  }

  /** A listed provider was measured validly by some run. */
  lemma StatsOnlyScored(results: seq<AuditResult>, p: string)
    requires p in Names(Stats(results))
    ensures exists i :: 0 <= i < |results| && HasScore(results[i], p)
  {
    var r := Stats(results);
    var k :| 0 <= k < |r| && r[k].provider == p;
    StatsEntries(results);
    StatForData(results, p);
  }

  /** A provider some run measured validly is listed. */
  lemma StatsCover(results: seq<AuditResult>, p: string, i: nat)
    requires i < |results| && HasScore(results[i], p)
    ensures p in Names(Stats(results))
  {
    var all := AllStats(results);
    var ps := Providers(results);
    var r := Stats(results);
    assert p in ps by {
      assert p in Keys(results[i].providers);
    }
    var k :| 0 <= k < |ps| && ps[k] == p;
    var st := all[k];
    assert st == StatFor(results, p);
    StatForData(results, p);
    assert HasData(st);
    assert st in Kept(results);
    assert st in multiset(r);
    var j :| 0 <= j < |r| && r[j] == st;
    assert Names(r)[j] == p;
  }

  /** The listed providers are exactly those some run measured validly. */
  lemma StatsProviders(results: seq<AuditResult>)
    ensures forall p :: p in Names(Stats(results)) <==> exists i :: 0 <= i < |results| && HasScore(results[i], p)
  {
    forall p ensures p in Names(Stats(results)) <==> exists i :: 0 <= i < |results| && HasScore(results[i], p) {
      if p in Names(Stats(results)) {
        StatsOnlyScored(results, p);
      }
      if exists i :: 0 <= i < |results| && HasScore(results[i], p) {
        var i :| 0 <= i < |results| && HasScore(results[i], p);
        StatsCover(results, p, i);
      }
    }
  }

  /** The card lists exactly the providers with at least one valid measurement,
      each once, each with its own statistics. */
  lemma StatsSpec(results: seq<AuditResult>)
    ensures NoDup(Names(Stats(results)))
    ensures forall p :: p in Names(Stats(results)) <==> exists i :: 0 <= i < |results| && HasScore(results[i], p)
    ensures forall k :: 0 <= k < |Stats(results)| ==> Stats(results)[k] == StatFor(results, Stats(results)[k].provider)
  {
    StatsEntries(results);
    StatsDistinct(results);
    StatsProviders(results);
  }

  /** The card as the page mounts it: nothing while no model is selected,
      otherwise the statistics over the selected model's runs. */
  function ProviderComparison(results: seq<AuditResult>, selected: string): (r: Option<seq<ProviderStat>>)
    ensures r.None? <==> selected == ""
  {
    if selected == "" then None else Some(Stats(RunsOf(results, selected)))
  }

  /** A run of the selected model measures `p` validly exactly when some run
      of the corpus with that model does. */
  lemma RunsOfScored(results: seq<AuditResult>, selected: string, p: string)
    ensures (exists i :: 0 <= i < |RunsOf(results, selected)| && HasScore(RunsOf(results, selected)[i], p)) <==>
      exists i :: 0 <= i < |results| && results[i].model == selected && HasScore(results[i], p)
  {
    var runs := RunsOf(results, selected);
    if exists i :: 0 <= i < |results| && results[i].model == selected && HasScore(results[i], p) {
      var i :| 0 <= i < |results| && results[i].model == selected && HasScore(results[i], p);
      assert IsModel(selected, results[i]);
      assert results[i] in runs;
    }
    if exists i :: 0 <= i < |runs| && HasScore(runs[i], p) {
      var i :| 0 <= i < |runs| && HasScore(runs[i], p);
      assert runs[i] in results && IsModel(selected, runs[i]);
    }
  }

  /** The card of the selected model lists exactly the providers that some
      run of that model measured validly. */
  lemma ProviderComparisonSpec(results: seq<AuditResult>, selected: string)
    requires selected != ""
    ensures forall p :: p in Names(ProviderComparison(results, selected).value) <==>
      exists i :: 0 <= i < |results| && results[i].model == selected && HasScore(results[i], p)
  {
    var runs := RunsOf(results, selected);
    StatsProviders(runs);
    forall p ensures p in Names(Stats(runs)) <==>
      exists i :: 0 <= i < |results| && results[i].model == selected && HasScore(results[i], p)
    {
      RunsOfScored(results, selected, p);
    }
  }
}
