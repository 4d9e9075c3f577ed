/** What app/page.tsx derives from the working corpus for display: the overall
    provider leaderboard (lines 77-97) and the time series of the selected
    model (lines 99-108). */
module PageData {
  import opened Wrappers
  import opened Audit
  import opened Seqs
  import opened StableSort
  import Strings

  /** One row of the overall leaderboard. */
  datatype LeaderboardEntry = LeaderboardEntry(provider: string, avgScore: real, modelCount: nat, dataPoints: nat)

  /** The distinct models among the runs holding an entry for `p`
      (`new Set(providerResults.map((r) => r.model))`). */
  function ModelsWith(results: seq<AuditResult>, p: string): set<string> {
    set i | 0 <= i < |results| && HasEntry(results[i], p) :: results[i].model
  }

  /** The leaderboard entry of `p` over the whole corpus (lines 79-93). */
  function EntryFor(results: seq<AuditResult>, p: string): LeaderboardEntry {
    var scores := Scores(results, p);
    LeaderboardEntry(p, Mean(scores), |ModelsWith(results, p)|, |scores|)
  }

  /** The average of the valid measurements lies between two of them, and
      within [0, 1] when all of them do. */
  lemma ScoresAverage(results: seq<AuditResult>, p: string)
    requires |Scores(results, p)| > 0
    ensures exists i, j ::
              && 0 <= i < |results| && 0 <= j < |results| && HasScore(results[i], p) && HasScore(results[j], p)
              && RateOf(results[i], p).value <= Mean(Scores(results, p)) <= RateOf(results[j], p).value
    ensures (forall i :: 0 <= i < |results| && HasScore(results[i], p) ==> 0.0 <= RateOf(results[i], p).value <= 1.0)
      ==> 0.0 <= Mean(Scores(results, p)) <= 1.0
  {
    var scores := Scores(results, p);
    var lo := ScoreRun(results, p, Min(scores));
    var hi := ScoreRun(results, p, Max(scores));
    MeanBetweenMinMax(scores);
    if forall i :: 0 <= i < |results| && HasScore(results[i], p) ==> 0.0 <= RateOf(results[i], p).value <= 1.0 {
      forall k | 0 <= k < |scores| ensures 0.0 <= scores[k] <= 1.0 {
        var i := ScoreRun(results, p, scores[k]);
      }
      MeanWithin(scores, 0.0, 1.0);
    }
  }

  /** No model is counted exactly when no run holds an entry for `p`. */
  lemma ModelsWithEmpty(results: seq<AuditResult>, p: string)
    ensures |ModelsWith(results, p)| == 0 <==> forall i :: 0 <= i < |results| ==> !HasEntry(results[i], p)
  {
    var models := ModelsWith(results, p);
    forall i | 0 <= i < |results| && HasEntry(results[i], p) ensures |models| > 0 {
      assert results[i].model in models;
    }
  }

  /** What an entry means: no data points exactly when no run has a valid
      measurement, and then an average of 0; otherwise an average lying
      between two of the valid measurements, and within [0, 1] when all of
      them are. The model count covers every run holding an entry, whether or
      not its rate is valid, so it is 0 only when no run holds one. */
  lemma EntryForSpec(results: seq<AuditResult>, p: string)
    ensures EntryFor(results, p).provider == p
    ensures EntryFor(results, p).dataPoints == 0 <==> forall i :: 0 <= i < |results| ==> !HasScore(results[i], p)
    ensures EntryFor(results, p).dataPoints == 0 ==> EntryFor(results, p).avgScore == 0.0
    ensures EntryFor(results, p).dataPoints > 0 ==>
      exists i, j :: 0 <= i < |results| && 0 <= j < |results| && HasScore(results[i], p) && HasScore(results[j], p)
        && RateOf(results[i], p).value <= EntryFor(results, p).avgScore <= RateOf(results[j], p).value
    ensures (forall i :: 0 <= i < |results| && HasScore(results[i], p) ==> 0.0 <= RateOf(results[i], p).value <= 1.0)
      ==> 0.0 <= EntryFor(results, p).avgScore <= 1.0
    ensures EntryFor(results, p).modelCount == 0 <==> forall i :: 0 <= i < |results| ==> !HasEntry(results[i], p)
  {
    EntryCounts(results, p);
    EntryAverage(results, p);
  }

  /** A provider named after an inherited member counts every run's model:
      `constructor` is an own key of run `a` only, but run `b`'s
      `providers["constructor"]` is the inherited function, which is truthy.
      So the entry counts two models and one data point. */
  lemma ExampleInheritedName(a: AuditResult, b: AuditResult)
    requires a == AuditResult("a", "t", [("constructor", Metrics(Finite(0.9)))])
    requires b == AuditResult("b", "t", [])
    ensures EntryFor([a, b], "constructor") == LeaderboardEntry("constructor", 0.9, 2, 1)
  {
    InheritedNameScores(a, b);
    InheritedNameModels(a, b);
    assert [0.9][..0] == [];
  }

  /** The example's single valid measurement. */
  lemma InheritedNameScores(a: AuditResult, b: AuditResult)
    requires a == AuditResult("a", "t", [("constructor", Metrics(Finite(0.9)))])
    requires b == AuditResult("b", "t", [])
    ensures Scores([a, b], "constructor") == [0.9]
  {
    InheritedNameRates(a, b);
    var raw := [Finite(0.9), Absent];
    assert raw[..1] == [Finite(0.9)] && raw[..1][..0] == [];
  }

  /** The example's raw rates: run `a`'s own rate, then run `b`'s missing one. */
  lemma InheritedNameRates(a: AuditResult, b: AuditResult)
    requires a == AuditResult("a", "t", [("constructor", Metrics(Finite(0.9)))])
    requires b == AuditResult("b", "t", [])
    ensures RawRates([a, b], "constructor") == [Finite(0.9), Absent]
  {
    var p := "constructor";
    assert HasEntry(a, p) && RateOf(a, p) == Finite(0.9);
    assert HasEntry(b, p) && RateOf(b, p) == Absent by {
      assert p in InheritedNames;
    }
    assert [a, b][..1] == [a] && [a][..0] == [];
  }

  /** The example counts both models. */
  lemma InheritedNameModels(a: AuditResult, b: AuditResult)
    requires a == AuditResult("a", "t", [("constructor", Metrics(Finite(0.9)))])
    requires b == AuditResult("b", "t", [])
    ensures ModelsWith([a, b], "constructor") == {"a", "b"}
  {
    var p := "constructor";
    assert HasEntry(a, p);
    assert HasEntry(b, p) by {
      assert p in InheritedNames;
    }
    assert [a, b][0] == a && [a, b][1] == b;
  }

  /** The counts of an entry: its data points are its valid measurements, its
      model count the models of the runs holding an entry at all. */
  lemma EntryCounts(results: seq<AuditResult>, p: string)
    ensures EntryFor(results, p).dataPoints == 0 <==> forall i :: 0 <= i < |results| ==> !HasScore(results[i], p)
    ensures EntryFor(results, p).dataPoints == 0 ==> EntryFor(results, p).avgScore == 0.0
    ensures EntryFor(results, p).modelCount == 0 <==> forall i :: 0 <= i < |results| ==> !HasEntry(results[i], p)
  {
    ScoresSpec(results, p);
    ModelsWithEmpty(results, p);
  }

  /** The average of an entry with data lies between two of its valid
      measurements, and within [0, 1] when all of them do. */
  lemma EntryAverage(results: seq<AuditResult>, p: string)
    ensures EntryFor(results, p).dataPoints > 0 ==>
      exists i, j ::
        && 0 <= i < |results| && 0 <= j < |results| && HasScore(results[i], p) && HasScore(results[j], p)
        && RateOf(results[i], p).value <= EntryFor(results, p).avgScore <= RateOf(results[j], p).value
    ensures (forall i :: 0 <= i < |results| && HasScore(results[i], p) ==> 0.0 <= RateOf(results[i], p).value <= 1.0)
      ==> 0.0 <= EntryFor(results, p).avgScore <= 1.0
  {
    if |Scores(results, p)| > 0 {
      ScoresAverage(results, p);
    }
  }

  /** One entry per provider, in first-appearance order, before sorting. */
  function Entries(results: seq<AuditResult>): (es: seq<LeaderboardEntry>)
    ensures |es| == |Providers(results)|
    ensures forall k :: 0 <= k < |es| ==> es[k] == EntryFor(results, Providers(results)[k])
  {
    var ps := Providers(results);
    seq(|ps|, k requires 0 <= k < |ps| => EntryFor(results, ps[k]))
  }

  function EntryProvider(e: LeaderboardEntry): string {
    e.provider
  }

  /** The providers of a list of entries, in order. */
  function Names(es: seq<LeaderboardEntry>): seq<string> {
    Map(es, EntryProvider)
  }

  function AvgScore(e: LeaderboardEntry): real {
    e.avgScore
  }

  /** `leaderboardData` after sorting: non-increasing by average, and a
      stable permutation of the entries in first-appearance order (what each
      entry holds is `LeaderboardSpec`). */
  function Leaderboard(results: seq<AuditResult>): (r: seq<LeaderboardEntry>)
    ensures |r| == |Providers(results)|
    ensures forall i, j :: 0 <= i < j < |r| ==> r[i].avgScore >= r[j].avgScore
    ensures multiset(r) == multiset(Entries(results))
    ensures forall e :: TiedWith(r, Descending(AvgScore), e) == TiedWith(Entries(results), Descending(AvgScore), e)
  {
    SortDescending(Entries(results), AvgScore)
  }

  /** A permutation of entries whose providers are distinct keeps them
      distinct and keeps the same providers. */
  lemma PermutedEntries(es: seq<LeaderboardEntry>, r: seq<LeaderboardEntry>, ps: seq<string>)
    requires multiset(r) == multiset(es)
    requires |es| == |ps| && NoDup(ps)
    requires forall k :: 0 <= k < |es| ==> es[k].provider == ps[k]
    ensures NoDup(Names(r))
    ensures forall p :: p in Names(r) <==> p in ps
    ensures forall k :: 0 <= k < |r| ==> r[k] in es
  {
    forall k | 0 <= k < |r| ensures r[k] in es {
      assert r[k] in multiset(r);
    }
    forall p | p in ps ensures p in Names(r) {
      var k :| 0 <= k < |ps| && ps[k] == p;
      assert es[k] in multiset(r);
      var j :| 0 <= j < |r| && r[j] == es[k];
      assert Names(r)[j] == p;
    }
    forall a, b | 0 <= a < b < |es| ensures es[a] != es[b] {
      assert ps[a] != ps[b];
    }
    NoDupMultiplicity(es);
    MultiplicityNoDup(r);
    forall i, j | 0 <= i < j < |r| ensures Names(r)[i] != Names(r)[j] {
      var a :| 0 <= a < |es| && r[i] == es[a];
      var b :| 0 <= b < |es| && r[j] == es[b];
      assert r[i] != r[j];
      assert a != b;
    }
  }

  /** The leaderboard holds exactly one entry per provider seen anywhere in
      the corpus, each the provider's own `EntryFor`. */
  lemma LeaderboardSpec(results: seq<AuditResult>)
    ensures NoDup(Names(Leaderboard(results)))
    ensures forall p :: p in Names(Leaderboard(results)) <==> exists i :: 0 <= i < |results| && p in Keys(results[i].providers)
    ensures forall k :: 0 <= k < |Leaderboard(results)| ==> Leaderboard(results)[k] == EntryFor(results, Leaderboard(results)[k].provider)
  {
    var es := Entries(results);
    var ps := Providers(results);
    var r := Leaderboard(results);
    forall k | 0 <= k < |es| ensures es[k].provider == ps[k] {
      assert es[k] == EntryFor(results, ps[k]);
    }
    PermutedEntries(es, r, ps);
    forall k | 0 <= k < |r| ensures r[k] == EntryFor(results, r[k].provider) {
      var j :| 0 <= j < |es| && es[j] == r[k];
      assert es[j] == EntryFor(results, ps[j]);
    }
  }

  /** A time series point: the run's timestamp and each of its own providers'
      raw rate, finite or not (the chart shows a gap for a non-finite one). */
  datatype Point = Point(timestamp: string, rates: seq<(string, Rate)>)

  /** `Object.entries(m).map(([name, data]) => [name, data.exact_match_rate])`;
      None when some entry is `null`, for which reading the rate throws. */
  function EntryRates(m: seq<(string, Entry)>): (v: Option<seq<(string, Rate)>>)
    ensures v.None? <==> exists i :: 0 <= i < |m| && m[i].1.Null?
    ensures v.Some? ==> |v.value| == |m| && forall i :: 0 <= i < |m| ==> v.value[i] == (m[i].0, m[i].1.ReadRate())
  {
    if |m| == 0 then Some([])
    else
      match EntryRates(m[1..])
      case None => None
      case Some(rest) =>
        if m[0].1.Null? then None
        else Some([(m[0].0, m[0].1.ReadRate())] + rest)
  }

  predicate HasNullEntry(r: AuditResult) {
    exists i :: 0 <= i < |r.providers| && r.providers[i].1.Null?
  }

  /** The points of a list of runs, one per run in order; None when some run's
      projection throws. */
  function Project(rs: seq<AuditResult>): (v: Option<seq<Point>>)
    ensures v.None? <==> exists i :: 0 <= i < |rs| && HasNullEntry(rs[i])
    ensures v.Some? ==> |v.value| == |rs|
    ensures v.Some? ==> forall k :: 0 <= k < |rs| ==>
      v.value[k].timestamp == rs[k].timestamp && EntryRates(rs[k].providers) == Some(v.value[k].rates)
  {
    if |rs| == 0 then Some([])
    else
      match Project(rs[1..])
      case None => None
      case Some(rest) =>
        match EntryRates(rs[0].providers)
        case None => None
        case Some(rates) => Some([Point(rs[0].timestamp, rates)] + rest)
  }

  predicate ByTimestamp(a: Point, b: Point) {
    Strings.StrLt(a.timestamp, b.timestamp)
  }

  /** `sort((a, b) => a.timestamp.localeCompare(b.timestamp))` on a list of points. */
  function SortByTime(points: seq<Point>): (r: seq<Point>)
    ensures forall i, j :: 0 <= i < j < |r| ==> !Strings.StrLt(r[j].timestamp, r[i].timestamp)
    ensures multiset(r) == multiset(points)
    ensures forall e :: TiedWith(r, ByTimestamp, e) == TiedWith(points, ByTimestamp, e)
  {
    Strings.StrLtIsStrictWeakOrder();
    assert StrictWeakOrder(ByTimestamp);
    SortSpec(points, ByTimestamp);
    Sort(points, ByTimestamp)
  }

  /** `timeSeriesData` (lines 100-108): nothing when no model is selected;
      otherwise one point per run of the selected model, sorted ascending by
      timestamp with `localeCompare`, here taken as code-point order. None
      when building a point throws. */
  function TimeSeries(results: seq<AuditResult>, selected: string): (r: Option<seq<Point>>)
    ensures selected == "" ==> r == Some([])
    ensures r.None? <==> selected != "" && exists i :: 0 <= i < |results| && results[i].model == selected && HasNullEntry(results[i])
    ensures r.Some? ==> forall i, j :: 0 <= i < j < |r.value| ==> !Strings.StrLt(r.value[j].timestamp, r.value[i].timestamp)
    ensures r.Some? && selected != "" ==>
      && Project(RunsOf(results, selected)).Some?
      && multiset(r.value) == multiset(Project(RunsOf(results, selected)).value)
      && forall e :: TiedWith(r.value, ByTimestamp, e) == TiedWith(Project(RunsOf(results, selected)).value, ByTimestamp, e)
  {
    if selected == "" then Some([])
    else
      var runs := RunsOf(results, selected);
      assert forall i :: 0 <= i < |results| && results[i].model == selected ==> results[i] in runs;
      match Project(runs)
      case None => None
      case Some(points) => Some(SortByTime(points))
  }

  /** A projected point is the projection of one of the runs. */
  lemma ProjectedPoint(runs: seq<AuditResult>, pt: Point)
    requires Project(runs).Some? && pt in Project(runs).value
    ensures exists j :: 0 <= j < |runs| && pt.timestamp == runs[j].timestamp && EntryRates(runs[j].providers) == Some(pt.rates)
  {
    var proj := Project(runs).value;
    var j :| 0 <= j < |proj| && proj[j] == pt;
  }

  /** A projected point of the selected model's runs is one run's projection. */
  lemma SelectedPoint(results: seq<AuditResult>, selected: string, pt: Point) returns (i: nat)
    requires Project(RunsOf(results, selected)).Some? && pt in Project(RunsOf(results, selected)).value
    ensures i < |results| && results[i].model == selected
    ensures pt.timestamp == results[i].timestamp && EntryRates(results[i].providers) == Some(pt.rates)
  {
    var runs := RunsOf(results, selected);
    ProjectedPoint(runs, pt);
    var j :| 0 <= j < |runs| && pt.timestamp == runs[j].timestamp && EntryRates(runs[j].providers) == Some(pt.rates);
    assert runs[j] in results && IsModel(selected, runs[j]);
    i :| 0 <= i < |results| && results[i] == runs[j];
  }

  /** Any rearrangement of the selected model's points consists of runs of
      that model. */
  lemma PointsOfRuns(results: seq<AuditResult>, selected: string, pts: seq<Point>)
    requires Project(RunsOf(results, selected)).Some?
    requires multiset(pts) == multiset(Project(RunsOf(results, selected)).value)
    ensures forall k :: 0 <= k < |pts| ==>
      exists i :: 0 <= i < |results| && results[i].model == selected
        && pts[k].timestamp == results[i].timestamp
        && EntryRates(results[i].providers) == Some(pts[k].rates)
  {
    forall k | 0 <= k < |pts|
      ensures exists i :: 0 <= i < |results| && results[i].model == selected
                       && pts[k].timestamp == results[i].timestamp
                       && EntryRates(results[i].providers) == Some(pts[k].rates)
    {
      assert pts[k] in multiset(pts);
      var i := SelectedPoint(results, selected, pts[k]);
    }
  }

  /** Every point of the series is one run of the selected model: its
      timestamp and the rates of that run's own providers, in its own key
      order. */
  lemma TimeSeriesPoints(results: seq<AuditResult>, selected: string, pts: seq<Point>)
    requires TimeSeries(results, selected) == Some(pts)
    ensures forall k :: 0 <= k < |pts| ==>
      exists i :: 0 <= i < |results| && results[i].model == selected
        && pts[k].timestamp == results[i].timestamp
        && EntryRates(results[i].providers) == Some(pts[k].rates)
  {
    if selected != "" {
      PointsOfRuns(results, selected, pts);
    }
  }
}
