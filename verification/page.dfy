/** What the page (app/page.tsx, lines 71-185) renders once loading is over:
    the derived data are all computed during the render, before any markup,
    and outside the try/catch of the ingestion effect. So when building the
    time series throws, on a `null` provider entry of a run of the selected
    model, the whole page fails and nothing is shown, leaderboard included. */
module Page {
  import opened Wrappers
  import opened Audit
  import opened PageData
  import opened Comparison
  import opened LeaderboardTable

  /** The three cards the page shows: the leaderboard table, the selected
      model's time series, and its provider statistics card. */
  datatype View = View(table: seq<Row>, series: seq<Point>, card: Option<seq<ProviderStat>>)

  /** The page rendered from the corpus and the selected model: None when the
      render throws. */
  function Render(results: seq<AuditResult>, selected: string): Option<View> {
    match TimeSeries(results, selected)
    case None => None
    case Some(series) => Some(View(Displayed(results), series, ProviderComparison(results, selected)))
  }

  /** The page fails exactly when a run of the selected model holds a `null`
      provider entry. Otherwise the table lists exactly the providers with a
      valid measurement somewhere, ranked by non-increasing average; the series
      is ordered by timestamp; and the statistics card is shown exactly when a
      model is selected, listing exactly the providers that model's runs
      measured validly. */
  lemma RenderSpec(results: seq<AuditResult>, selected: string)
    ensures Render(results, selected).None? <==>
      selected != "" && exists i :: 0 <= i < |results| && results[i].model == selected && HasNullEntry(results[i])
    ensures Render(results, selected).Some? ==>
      var v := Render(results, selected).value;
      && (forall p :: p in RowProviders(v.table) <==> exists i :: 0 <= i < |results| && HasScore(results[i], p))
      && (forall i, j :: 0 <= i < j < |v.table| ==> v.table[i].entry.avgScore >= v.table[j].entry.avgScore)
      && (forall i, j :: 0 <= i < j < |v.series| ==> !ByTimestamp(v.series[j], v.series[i]))
      && (v.card.None? <==> selected == "")
      && (v.card.Some? ==> forall p :: p in Comparison.Names(v.card.value) <==>
            exists i :: 0 <= i < |results| && results[i].model == selected && HasScore(results[i], p))
  {
    DisplayedLeaderboard(results);
    if selected != "" {
      ProviderComparisonSpec(results, selected);
    }
  }
}
