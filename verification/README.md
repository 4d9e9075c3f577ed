# DiFR leaderboard: ingestion and aggregation, modelled in Dafny

The DiFR leaderboard page (difr-demo) shows how reliably inference providers
reproduce a model's outputs. Each audit run is one JSON file named
`<Model>_audit_results_YYYYMMDD_HHMMSS.json`. Each file holds, per provider,
an `exact_match_rate`.

The page lists the data directory and downloads every `.json` file. It turns
each file whose name matches the pattern into an audit record (model,
timestamp, provider map). If the listing fails, any download fails, or no
record results, it falls back to a built-in sample corpus. From the corpus it
derives the following:

- an overall leaderboard: per provider, the mean of its valid rates, its model
  count and its data-point count, sorted by mean;
- a time series for the selected model: one point per run, sorted by
  timestamp;
- a per-provider statistics card for the selected model: average, minimum,
  maximum, latest valid score and trend.

The table then hides providers without data and colours each average by
score band.

The model is purely functional and is split into these modules:

| file | module | what it models |
|---|---|---|
| `wrappers.dfy` | `Wrappers` | `Option` |
| `seqs.dfy` | `Seqs` | `Array.from(new Set(..))` (first-appearance dedup), `filter`, and sum/mean/min/max of score lists |
| `stable_sort.dfy` | `StableSort` | `Array.prototype.sort`, which is stable, as insertion sort under any strict weak order |
| `strings.dfy` | `Strings` | code-point string order (`localeCompare` on fixed-format timestamps) and `replace(/_/g, "/")` |
| `audit.dfy` | `Audit` | rates, provider maps, audit records, provider and model lists, raw rates and valid scores |
| `record_parser.dfy` | `RecordParser` | the file-name pattern with JavaScript `match` semantics, timestamp punctuation, and record construction |
| `ingestion.dfy` | `Ingestion` | the download loop, Ready versus Fallback, and the single loading transition |
| `page_data.dfy` | `PageData` | the overall leaderboard and the selected model's time series |
| `comparison.dfy` | `Comparison` | the provider statistics card |
| `leaderboard_table.dfy` | `LeaderboardTable` | the table's data filter, ranks and score bands |
| `page.dfy` | `Page` | the rendered page as a whole: the table, the time series and the statistics card, or a failed render |

A rate is `Finite(v)`, `NonFinite` (NaN or ±Infinity) or `Absent` (no number
at all: missing, a string, `null`, an object, ...). A provider entry is one of
three things:

- `Metrics(rate)` is a truthy value; one without an `exact_match_rate` field
  reads as `Metrics(Absent)`;
- `Falsy` is `0`, `false` or `""`; the truthiness filters skip it, and the time
  series reads its rate as `undefined`;
- `Null` is JSON `null`; the truthiness filters skip it, and reading its rate
  throws.

A provider map is a sequence of pairs with distinct keys, in the object's key
order. `providers[p]` for a name that is not an own key still finds the
members every object inherits from `Object.prototype` (`constructor`,
`toString`, ...). Those are truthy and carry no rate.

Each kind of failure is an input to the model:

- a failed listing is `ListingThrew`;
- a failed download or a body that is not JSON is `DownloadThrew`, which aborts
  the loop whatever the file's name;
- a body that is JSON `null` is `NullBody`. Decoding it does not throw. Reading
  its fields throws, which happens only when the name matches the pattern;
  under a name that does not match, the file is skipped like any other;
- reading the rate of a `null` entry while building a time-series point makes
  the time series `None`. The page computes all its derived data during the
  render, outside the ingestion's `try`, so the whole render then fails
  (`Page.Render` is `None`). The statements about the displayed table
  describe the page only when the time series is `Some`.

## Model

| member | source | states |
|---|---|---|
| Audit.Lookup | app/page.tsx:79 | `r.providers[p]` is the entry stored under `p` when `p` is an own key; for an inherited `Object.prototype` name without an own key it is a truthy value without a rate; otherwise it is missing |
| Audit.HasEntryMeaning | app/page.tsx:79 | `r.providers[p]` is truthy exactly when `p` is an own key holding a truthy (`Metrics`) entry, or `p` is an inherited name and not an own key; a valid measurement needs an own key |
| Audit.Providers | app/page.tsx:75 | `allProviders` has no duplicates, holds exactly the union of all runs' provider keys, and lists them in order of first appearance in the flattened key list |
| Audit.Models | app/page.tsx:72 | `models` has no duplicates, holds exactly the models of the corpus, and lists them in order of first appearance |
| Audit.RawRatesMembership | app/page.tsx:79-82 | a raw rate of `p` is exactly the rate of some run that holds a (truthy) entry for `p` |
| Audit.RawRatesAppend | components/provider-comparison.tsx:34-39 | raw rates keep corpus order: the rates of a concatenated corpus are the concatenated rates |
| Audit.FinitesSpec | app/page.tsx:83 | `v` is a score exactly when `Finite(v)` is a raw rate; there are none exactly when no raw rate is finite |
| Audit.FinitesAppend | components/provider-comparison.tsx:40 | the scores are the finite rates in their original order: filtering distributes over concatenation |
| Audit.ScoresSpec | app/page.tsx:82-83 | a score of `p` is exactly a finite rate that some run records for `p`; there are no scores exactly when no run has a valid measurement |
| Seqs.DedupSpec | app/page.tsx:72 | `Array.from(new Set(xs))` has no duplicates, holds the same values as `xs`, and keeps first-appearance order |
| Seqs.Filter | components/leaderboard-table.tsx:19 | the result keeps exactly the elements satisfying the test, and each one passes it |
| Seqs.SameFilterOrder | components/leaderboard-table.tsx:19 | two lists with the same filtered sublist keep every two passing elements in the same relative order |
| Seqs.FilterIndices | components/leaderboard-table.tsx:19 | the kept elements come from strictly increasing positions of the input, and every position whose element passes the test is one of them |
| Seqs.FilterAppend | components/leaderboard-table.tsx:19 | filtering preserves order: it distributes over concatenation |
| Seqs.FilterMultiset | components/provider-comparison.tsx:74 | filtering never repeats an element more often than the input does |
| Seqs.Min | components/provider-comparison.tsx:43 | `Math.min(...s)` is an element of `s` and is no larger than any element |
| Seqs.Max | components/provider-comparison.tsx:44 | `Math.max(...s)` is an element of `s` and is no smaller than any element |
| Seqs.MeanWithin | app/page.tsx:85 | the mean of a non-empty list lies within any bounds that hold for all of its elements |
| Seqs.MeanBetweenMinMax | components/provider-comparison.tsx:42-44 | a non-empty list's mean lies between its minimum and its maximum |
| StableSort.SortSpec | app/page.tsx:97 | the sorted list is ordered, is a permutation of the input, and keeps the input order of each group of tied elements (stability) |
| StableSort.SortDescending | app/page.tsx:97 | sorting by a numeric key, larger first, yields a permutation with non-increasing keys that keeps the input order of equal keys |
| StableSort.StableOrder | app/page.tsx:97 | two tied elements of the sorted list appear in the same relative order in the input |
| StableSort.DescendingOrder | app/page.tsx:97 | the comparator `b.avgScore - a.avgScore` is a strict weak order whose ties are exactly the equal averages |
| Strings.StrLtIsStrictWeakOrder | app/page.tsx:107 | code-point order on timestamps is a strict weak order whose ties are exactly equal strings |
| Strings.ReplaceUnderscores | app/page.tsx:45 | every `_` becomes `/`, every other character is kept in place, and no `_` remains |
| Strings.ReplaceUnderscoresAppend | app/page.tsx:45 | the rewrite is character by character, so it distributes over concatenation |
| RecordParser.MatchFromSpec | app/page.tsx:38 | the search from a start position returns the leftmost start that has a match, with the longest greedy group there, or none when no start has one |
| RecordParser.MatchSpec | app/page.tsx:38-39 | `name.match(..)` reports the first match in JavaScript's sense, and reports none exactly when the pattern matches nowhere in the name |
| RecordParser.FirstMatchUnique | app/page.tsx:38 | the reported match is unique |
| RecordParser.FormatTimestamp | app/page.tsx:42 | the re-punctuated timestamp has 19 characters, with `-`, `-`, `T`, `:`, `:` at positions 4, 7, 10, 13 and 16 |
| RecordParser.FormatTimestampRoundTrip | app/page.tsx:42 | re-punctuation loses and moves no digit: reading the digits back gives the captured `\d{8}_\d{6}` |
| RecordParser.FormatTimestampOnto | app/page.tsx:42 | every `YYYY-MM-DDTHH:MM:SS`-shaped string is the formatting of its own digits |
| RecordParser.ParseRecord | app/page.tsx:36-49 | a record's timestamp has 19 characters, and its providers are the payload's, or `{}` when the payload has none |
| RecordParser.ParseRecordSpec | app/page.tsx:38-48 | a record exists exactly when the pattern matches. The timestamp is the punctuated stamp after the first match's group. The model is the payload's whenever it is non-null, even `""`. Otherwise the model is the group with `_` turned into `/`, and contains no `_` |
| RecordParser.ParseConventionalName | app/page.tsx:37-48 | a name built as model segment + `_audit_results_` + stamp + `.json` parses back to the whole segment (rewritten) and the punctuated stamp |
| RecordParser.ExampleAcmeModel | app/page.tsx:37-47 | `Acme_Model_audit_results_20240115_093000.json` gives model `Acme/Model` and timestamp `2024-01-15T09:30:00` |
| RecordParser.ExampleOutOfRangeStamp | app/page.tsx:42-45 | the digits are not range-checked: `20241301_256199` becomes `2024-13-01T25:61:99` |
| RecordParser.ExampleGreedyGroup | app/page.tsx:38-45 | with the suffix twice in one name, the greedy group swallows the first one, and the timestamp is the last |
| RecordParser.ExampleNoMatch | app/page.tsx:38-39 | a `.json` name without the marker yields no record |
| Ingestion.StepOfSpec | app/page.tsx:33-49 | a file aborts the loop exactly when its download threw, or its body is `null` and its name matches; a file that does not abort yields a record exactly when its body was downloaded and its name matches |
| Ingestion.Collect | app/page.tsx:31-50 | the loop fails exactly when some file aborted it, and collects at most one record per file |
| Ingestion.CollectSpec | app/page.tsx:32-49 | when nothing threw, nothing is collected exactly when no name matched, and every collected record comes from some file |
| Ingestion.CollectAppend | app/page.tsx:32-49 | records keep listing order: the loop over a concatenation concatenates what the parts collect |
| Ingestion.Ingest | app/page.tsx:18-66 | Fallback shows the sample corpus and selects its first model, or `""` for an empty sample; Ready has at least one record, is exactly what the download loop collected, and selects the first record's model |
| Ingestion.IngestSpec | app/page.tsx:24-62 | Ready exactly when the listing succeeded, no JSON download threw and some JSON name matched; then there are no more records than JSON files, each record comes from a listed `.json` file, and the corpus is every JSON file's record in listing order |
| Ingestion.RecordsMembers | app/page.tsx:32-49 | against the front-to-back reference `Ingestion.Records`: a record is among the collected records exactly when some step produced it |
| Ingestion.RecordsAppend | app/page.tsx:32-49 | records keep step order: those of a concatenation are concatenated |
| Ingestion.CollectRecords | app/page.tsx:31-50 | when no step aborts, the loop collects exactly the steps' records, in order |
| Ingestion.IngestByDownloads | app/page.tsx:24-62 | Ready exactly when the listing succeeded, no JSON download threw, no JSON file with a matching name had a `null` body, and some JSON file with a matching name had a non-`null` body |
| Ingestion.ExampleNullBodySkipped | app/page.tsx:32-54 | a `null` body under a name that does not match is skipped: the matching file alone makes the outcome Ready with its record |
| Ingestion.ExampleNullBodyMatched | app/page.tsx:34-61 | a `null` body under a matching name throws and the page falls back to the sample |
| Ingestion.NoMatchingFileFallsBack | app/page.tsx:24-62 | a listing with no JSON file, or none whose name matches, falls back to the sample |
| Ingestion.Settle | app/page.tsx:13-69 | the first settlement leaves Loading for good; a settled page never changes again; a fallback shows the sample corpus |
| Ingestion.SettledSelection | app/page.tsx:13-62 | while loading, `auditResults` holds the sample and `selectedModel` is `""`, and the page renders only the loading spinner; once settled, the selected model is the first model of the corpus, or `""` when it is empty |
| PageData.EntryForSpec | app/page.tsx:79-93 | `dataPoints` is 0 exactly when no run has a valid measurement, and then the average is 0. Otherwise the average lies between two valid measurements, and within [0, 1] when all of them do. `modelCount` is 0 exactly when no run's `providers[p]` is truthy |
| PageData.Leaderboard | app/page.tsx:78-97 | one entry per provider, ordered by non-increasing average; a permutation of the unsorted entries that keeps ties in `allProviders` order |
| PageData.ExampleInheritedName | app/page.tsx:79-86 | a provider named `constructor` is counted for a model whose runs never mention it: an own entry 0.9 in one run and none in another give average 0.9, one data point and model count 2 |
| PageData.LeaderboardSpec | app/page.tsx:75-93 | the leaderboard names each provider seen anywhere exactly once, and nothing else; each entry is that provider's own entry |
| PageData.EntryRates | app/page.tsx:105 | the point's rates are the run's own providers in key order with their raw rates, finite or not; a `null` entry makes the projection throw |
| PageData.Project | app/page.tsx:103-106 | one point per run, in order, with the run's timestamp (for runs without a provider named `timestamp`, see "Left out") and rates; it fails exactly when some run has a `null` entry |
| PageData.TimeSeries | app/page.tsx:100-108 | empty with no selected model. Otherwise the points are sorted by ascending timestamp and form a stable permutation of the selected model's runs' points. It fails exactly when such a run has a `null` entry, for runs without a provider named `timestamp` (see "Left out") |
| PageData.TimeSeriesPoints | app/page.tsx:101-106 | every point is one run of the selected model: that run's timestamp (for runs without a provider named `timestamp`, see "Left out") and that run's own providers' rates |
| Comparison.LastFiniteIndex | components/provider-comparison.tsx:49-52 | the position of the last finite raw rate, with none after it, or -1 when there is none |
| Comparison.LatestValid | components/provider-comparison.tsx:47-54 | the backward walk returns the rate at the last finite position, or 0 when there is none |
| Comparison.LatestIsLastScore | components/provider-comparison.tsx:40-54 | when a valid score exists, the backward walk agrees with the last element of `scores` |
| Comparison.TrendSpec | components/provider-comparison.tsx:57-63 | the trend is 0 with fewer than two scores; otherwise it is the latest valid rate minus the latest valid rate before it, skipping invalid rates in between |
| Comparison.ExampleSkippedRate | components/provider-comparison.tsx:38-72 | raw rates 0.9, NaN, 0.92 give latest 0.92, trend 0.92 - 0.9 and two data points |
| Comparison.LatestRun | components/provider-comparison.tsx:34-54 | the latest score is the rate of the last run with a valid measurement |
| Comparison.StatForSpec | components/provider-comparison.tsx:33-73 | with no valid measurement, every figure is 0. Otherwise min and max are measured rates that bound every valid rate, min ≤ avg ≤ max and min ≤ latest ≤ max, and latest is the last valid run's rate |
| Comparison.Stats | components/provider-comparison.tsx:74-77 | every listed provider has data; the list is ordered by non-increasing average and is a stable permutation of the filtered statistics |
| Comparison.StatsSpec | components/provider-comparison.tsx:30-74 | the card lists exactly the providers with a valid measurement, each once, each with its own statistics; no provider with data is dropped |
| Comparison.ProviderComparison | app/page.tsx:176-180 | the card is absent exactly while no model is selected |
| Comparison.ProviderComparisonSpec | app/page.tsx:176-180 | the selected model's card lists exactly the providers that some run of that model measured validly |
| LeaderboardTable.ScoreTier | components/leaderboard-table.tsx:12-17 | band `text-chart-1` iff score ≥ 0.95, `text-chart-2` iff 0.9 ≤ score < 0.95, `text-chart-4` iff 0.85 ≤ score < 0.9, and `text-muted-foreground` iff score < 0.85 |
| LeaderboardTable.ScoreTierMonotone | components/leaderboard-table.tsx:12-17 | a higher score never gets a lower band |
| LeaderboardTable.ClassNameInjective | components/leaderboard-table.tsx:13-16 | the four class names are distinct, so the class identifies the band |
| LeaderboardTable.Table | components/leaderboard-table.tsx:19-42 | row `i` shows the `i`-th entry with data, in the order of `data`, ranked `i + 1`; every input entry with data has a row; each row carries its average's band class |
| LeaderboardTable.TableInOrder | components/leaderboard-table.tsx:19-37 | the rows come from strictly increasing positions of `data`, and every entry with data has a row |
| LeaderboardTable.ShownByAverage | components/leaderboard-table.tsx:19 | hiding entries keeps the rest ordered by average |
| LeaderboardTable.DisplayedLeaderboard | components/leaderboard-table.tsx:19-37 | the rendered table lists exactly the providers with a valid measurement somewhere, each once, ranked by non-increasing average, each row holding its provider's own entry; rows with equal averages follow `allProviders` order |
| LeaderboardTable.DisplayedTies | app/page.tsx:75-97 | of two rows with equal averages, the earlier row's provider comes earlier in `allProviders` |
| Page.RenderSpec | app/page.tsx:71-180 | for runs without a provider named `timestamp` (see "Left out"), the render fails exactly when a run of the selected model has a `null` entry. Otherwise the table lists exactly the providers with a valid measurement, by non-increasing average; the series is in timestamp order; the card is shown exactly when a model is selected and lists exactly the providers that model measured validly |

## Behaviour worth knowing

- **Latest score.** Whenever `scores` is non-empty, the backward scan for the
  latest valid score agrees with its last element, because both are built
  from the same truthy entries (`Comparison.LatestIsLastScore`).
- **Time-series points.** There is one point per run of the selected model,
  and each point carries only that run's own providers (`PageData.TimeSeriesPoints`).
- **Providers without valid data.** Such a provider is still an entry of the
  overall leaderboard, with average 0 and no data points. Only the table hides
  it (`LeaderboardTable.DisplayedLeaderboard`).
- **Inherited names.** A provider named after an `Object.prototype` member,
  such as `constructor`, is counted in `modelCount` for every model that has a
  run without an own falsy or `null` entry under that name. This includes
  models whose runs never mention it (`PageData.ExampleInheritedName`). A
  model all of whose runs hold such an entry (for example `"constructor": 0`)
  is not counted.
- **`null` bodies.** A file whose body is `null` aborts ingestion only when its
  name matches the pattern (`Ingestion.ExampleNullBodyMatched`,
  `Ingestion.ExampleNullBodySkipped`).
- **`null` entries.** A `null` provider entry in a run of the selected model
  makes the whole render fail, leaderboard included (`Page.RenderSpec`).

## Left out

- **Network access.** The GitHub contents API, `fetch`, `response.json()` and
  the per-file downloads are not modelled. Their outcomes, including a thrown
  exception, are the inputs `Listing` and `Download`.
- **Logging.** `console.error` has no effect on the state.
- **Rendering.** React state hooks, the loading spinner, the model selector's
  user interaction and all JSX markup are not modelled. This includes the
  rank-1 badge variant and the trend arrows.
- **User selection.** The selected model is a parameter of `PageData.TimeSeries`
  and `Comparison.ProviderComparison`.
- **Chart and layout files.** components/time-series-chart.tsx, app/layout.tsx
  and next.config.mjs are not part of this model; they are left out as
  presentation and configuration. The chart does compute its axis labels
  (time formatting of each point's timestamp) and its line colours, and neither
  is modelled.
- **Floating point.** Rates are reals. NaN and ±Infinity are `NonFinite`;
  missing or non-number values are `Absent`. Rounding in sums and `toFixed`
  percentage formatting are not modelled.
- **String collation.** `localeCompare` is modelled as code-point order. On
  fixed-format timestamps the two agree for the digits and separators used.
- **JavaScript object key order.** Integer-like provider keys, which
  JavaScript lists first, are not modelled. Nor are duplicate keys in a JSON
  object; a provider map has distinct keys.
- PageData.TimeSeries: a provider literally named `timestamp` is not modelled.
  In the source the spread replaces the point's timestamp string with that
  provider's rate. When the selected model has two or more runs, the sort then
  calls `localeCompare` on that value whenever the point is the receiver of a
  comparison. A number or `undefined` there throws, and the render fails.
  Which comparisons happen depends on the engine's sort. The model keeps the
  run's timestamp, so "fails exactly when such a run has a `null` entry" holds
  only for corpora in which no run of the selected model has a `timestamp`
  provider.
- PageData.Project and PageData.TimeSeriesPoints: for the same reason, "the
  point carries the run's timestamp" holds only for runs without a provider
  named `timestamp`; in the source that provider's rate replaces the
  timestamp.
- Page.RenderSpec: for the same reason, "the render fails exactly when a run
  of the selected model has a `null` entry" holds only for corpora in which no
  run of the selected model has a provider named `timestamp`. With one, and
  two or more runs of the selected model, the page can fail although no entry
  is `null`.
- **Payload types.** A payload `model` that is not a string is not modelled;
  `model` is an optional string. Nor is a `providers` field that is present but
  not an object. A number there, for instance, would expose its own
  prototype's members (`toFixed`, ...) to `providers[p]`.
- **Sample corpus.** The contents of the built-in sample corpus come from
  lib/mock-data, which is not part of this model. It is a parameter.
- **Purity.** Determinism and idempotence need no lemma, because every
  operation is a function.
- Audit.RawRates: its own contract states only the length bound. What it holds
  is stated by `Audit.RawRatesMembership` and `Audit.RawRatesAppend`.
- StableSort.SortSpec: stability is stated as "the elements tied with any given
  element appear in the same order before and after". It is not stated as an
  index mapping.
