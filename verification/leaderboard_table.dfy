/** The overall leaderboard table of components/leaderboard-table.tsx: the
    entries with at least one valid measurement, ranked from 1 in the order
    given, each average coloured by a score tier. */
module LeaderboardTable {
  import opened Audit
  import opened Seqs
  import opened PageData
  import opened StableSort

  /** The colour bands of `getScoreColor`. */
  datatype Tier = Top | High | Fair | Low {
    /** The CSS class the table applies. */
    function ClassName(): string {
      match this
      case Top => "text-chart-1"
      case High => "text-chart-2"
      case Fair => "text-chart-4"
      case Low => "text-muted-foreground"
    }

    /** Position of the band, 3 for the best. */
    function Level(): nat {
      match this
      case Top => 3
      case High => 2
      case Fair => 1
      case Low => 0
    }
  }

  /** `getScoreColor` (lines 12-17): the first threshold the score reaches, from
      0.95 down through 0.9 and 0.85, picks the band. */
  function ScoreTier(score: real): (t: Tier)
    ensures t == Top <==> score >= 0.95
    ensures t == High <==> 0.9 <= score < 0.95
    ensures t == Fair <==> 0.85 <= score < 0.9
    ensures t == Low <==> score < 0.85
  {
    if score >= 0.95 then Top
    else if score >= 0.9 then High
    else if score >= 0.85 then Fair
    else Low
  }

  /** A higher score never gets a lower band. */
  lemma ScoreTierMonotone(a: real, b: real)
    requires a <= b
    ensures ScoreTier(a).Level() <= ScoreTier(b).Level()
  {
  }

  /** Distinct bands have distinct classes, so the class tells the band. */
  lemma ClassNameInjective(s: Tier, t: Tier)
    ensures s.ClassName() == t.ClassName() <==> s == t
  {
    if s != t {
      assert s.ClassName()[5] != t.ClassName()[5] || |s.ClassName()| != |t.ClassName()| || s.ClassName()[11] != t.ClassName()[11];
    }
  }

  predicate HasData(e: LeaderboardEntry) {
    e.dataPoints > 0
  }

  /** `data.filter((item) => item.dataPoints > 0)`. */
  function Shown(data: seq<LeaderboardEntry>): seq<LeaderboardEntry> {
    Filter(data, HasData)
  }

  /** One rendered row: `#{index + 1}`, the entry, and its score class. */
  datatype Row = Row(rank: nat, entry: LeaderboardEntry, scoreClass: string)

  /** The rows of the table (lines 19-50): one per entry with data, in the
      order of `data`, ranked from 1. */
  function Table(data: seq<LeaderboardEntry>): (rows: seq<Row>)
    ensures |rows| == |Shown(data)|
    ensures forall i :: 0 <= i < |rows| ==> rows[i].entry == Shown(data)[i]
    ensures forall i :: 0 <= i < |rows| ==> rows[i].rank == i + 1
    ensures forall i :: 0 <= i < |rows| ==> rows[i].entry.dataPoints > 0 && rows[i].entry in data
    ensures forall e :: e in data && e.dataPoints > 0 ==> exists i :: 0 <= i < |rows| && rows[i].entry == e
    ensures forall i :: 0 <= i < |rows| ==> rows[i].scoreClass == ScoreTier(rows[i].entry.avgScore).ClassName()
  {
    var shown := Shown(data);
    var rows := seq(|shown|, i requires 0 <= i < |shown| => Row(i + 1, shown[i], ScoreTier(shown[i].avgScore).ClassName()));
    assert forall e :: e in data && e.dataPoints > 0 ==> exists i :: 0 <= i < |rows| && rows[i].entry == e by {
      forall e | e in data && e.dataPoints > 0 ensures exists i :: 0 <= i < |rows| && rows[i].entry == e {
        assert e in shown;
        var i := IndexOf(shown, e);
        assert rows[i].entry == e;
      }
    }
    rows
  }

  /** Entries non-increasing by average. */
  ghost predicate ByAverage(es: seq<LeaderboardEntry>) {
    forall i, j :: 0 <= i < j < |es| ==> es[i].avgScore >= es[j].avgScore
  }

  /** The rows follow `data`: row `k` shows the entry at position `idx[k]` of
      `data`, the positions increase, and every entry with data has a row. */
  lemma TableInOrder(data: seq<LeaderboardEntry>) returns (idx: seq<nat>)
    ensures |idx| == |Table(data)|
    ensures forall k :: 0 <= k < |idx| ==> idx[k] < |data| && Table(data)[k].entry == data[idx[k]]
    ensures forall k, l :: 0 <= k < l < |idx| ==> idx[k] < idx[l]
    ensures forall j :: 0 <= j < |data| && data[j].dataPoints > 0 ==> j in idx
  {
    idx := FilterIndices(data, HasData);
  }

  /** Dropping entries keeps the remaining ones in order of average. */
  lemma {:induction false} ShownByAverage(data: seq<LeaderboardEntry>)
    requires ByAverage(data)
    ensures ByAverage(Shown(data))
  {
    if |data| > 0 {
      var rest := data[1..];
      assert ByAverage(rest) by {
        forall i, j | 0 <= i < j < |rest| ensures rest[i].avgScore >= rest[j].avgScore {
          assert rest[i] == data[i + 1] && rest[j] == data[j + 1];
        }
      }
      ShownByAverage(rest);
      var tail := Shown(rest);
      if HasData(data[0]) {
        assert Shown(data) == [data[0]] + tail;
        HeadAboveShown(data);
      } else {
        assert Shown(data) == tail;
      }
    }
  }

  /** The first entry's average is at least that of every entry kept from the rest. */
  lemma HeadAboveShown(data: seq<LeaderboardEntry>)
    requires |data| > 0 && ByAverage(data)
    ensures forall e :: e in Shown(data[1..]) ==> data[0].avgScore >= e.avgScore
  {
    forall e | e in Shown(data[1..]) ensures data[0].avgScore >= e.avgScore {
      var k := IndexOf(data[1..], e);
      assert data[k + 1] == e;
    }
  }

  /** The table the page renders from the corpus. */
  function Displayed(results: seq<AuditResult>): seq<Row> {
    Table(Leaderboard(results))
  }

  /** The providers of the rows, in order. */
  function RowProviders(rows: seq<Row>): (ps: seq<string>)
    ensures |ps| == |rows|
    ensures forall k :: 0 <= k < |rows| ==> ps[k] == rows[k].entry.provider
  {
    seq(|rows|, k requires 0 <= k < |rows| => rows[k].entry.provider)
  }

  /** The rows are the shown entries, in order. */
  lemma DisplayedShown(results: seq<AuditResult>)
    ensures forall i :: 0 <= i < |Displayed(results)| ==> Displayed(results)[i].entry == Shown(Leaderboard(results))[i]
  {
  }

  /** Rows go by non-increasing average, and no provider has two rows. */
  lemma DisplayedOrder(results: seq<AuditResult>)
    ensures forall i, j :: 0 <= i < j < |Displayed(results)| ==>
      && Displayed(results)[i].entry.avgScore >= Displayed(results)[j].entry.avgScore
      && Displayed(results)[i].entry.provider != Displayed(results)[j].entry.provider
  {
    var rows := Displayed(results);
    DisplayedShown(results);
    ShownByAverage(Leaderboard(results));
    forall i, j | 0 <= i < j < |rows| ensures rows[i].entry.provider != rows[j].entry.provider {
      ShownDistinct(results, i, j);
    }
  }

  /** Each row holds its provider's own entry. */
  lemma DisplayedEntries(results: seq<AuditResult>)
    ensures forall i :: 0 <= i < |Displayed(results)| ==>
      Displayed(results)[i].entry == EntryFor(results, Displayed(results)[i].entry.provider)
  {
    var board := Leaderboard(results);
    var rows := Displayed(results);
    LeaderboardSpec(results);
    forall i | 0 <= i < |rows| ensures rows[i].entry == EntryFor(results, rows[i].entry.provider) {
      var k :| 0 <= k < |board| && board[k] == rows[i].entry;
    }
  }

  /** A provider with a row was measured validly by some run. */
  lemma DisplayedOnlyScored(results: seq<AuditResult>, p: string)
    requires p in RowProviders(Displayed(results))
    ensures exists i :: 0 <= i < |results| && HasScore(results[i], p)
  {
    var rows := Displayed(results);
    var j :| 0 <= j < |rows| && rows[j].entry.provider == p;
    DisplayedEntries(results);
    assert rows[j].entry == EntryFor(results, p);
    EntryForSpec(results, p);
  }

  /** A provider some run measured validly has a row. */
  lemma DisplayedCover(results: seq<AuditResult>, p: string, i: nat)
    requires i < |results| && HasScore(results[i], p)
    ensures p in RowProviders(Displayed(results))
  {
    var board := Leaderboard(results);
    var rows := Displayed(results);
    var e := EntryFor(results, p);
    assert e in board by {
      LeaderboardSpec(results);
      assert p in Keys(results[i].providers);
      var k := IndexOf(Names(board), p);
      assert board[k] == e;
    }
    assert e.dataPoints > 0 by {
      EntryForSpec(results, p);
    }
    var j :| 0 <= j < |rows| && rows[j].entry == e;
    assert RowProviders(rows)[j] == p;
  }

  /** The table lists exactly the providers with a valid measurement somewhere
      in the corpus. */
  lemma DisplayedProviders(results: seq<AuditResult>)
    ensures forall p :: p in RowProviders(Displayed(results)) <==> exists i :: 0 <= i < |results| && HasScore(results[i], p)
  {
    forall p ensures p in RowProviders(Displayed(results)) <==> exists i :: 0 <= i < |results| && HasScore(results[i], p) {
      if p in RowProviders(Displayed(results)) {
        DisplayedOnlyScored(results, p);
      }
      if exists i :: 0 <= i < |results| && HasScore(results[i], p) {
        var i :| 0 <= i < |results| && HasScore(results[i], p);
        DisplayedCover(results, p, i);
      }
    }
  }

  /** Provider `p` comes before provider `q` in `allProviders`. */
  ghost predicate ListedBefore(results: seq<AuditResult>, p: string, q: string) {
    exists c, d :: 0 <= c < d < |Providers(results)| && Providers(results)[c] == p && Providers(results)[d] == q
  }

  /** Rows with equal averages keep the order of `allProviders`: `sort` is
      stable and the filter keeps order, so the earlier row's provider was
      first seen in an earlier run (or earlier in the same run). */
  lemma DisplayedTies(results: seq<AuditResult>, i: nat, j: nat)
    requires i < j < |Displayed(results)|
    requires Displayed(results)[i].entry.avgScore == Displayed(results)[j].entry.avgScore
    ensures ListedBefore(results, Displayed(results)[i].entry.provider, Displayed(results)[j].entry.provider)
  {
    var board := Leaderboard(results);
    var rows := Displayed(results);
    var idx := TableInOrder(board);
    var a, b := idx[i], idx[j];
    DescendingOrder(AvgScore);
    assert Tied(Descending(AvgScore), board[a], board[b]);
    var c, d := StableOrder(Entries(results), board, Descending(AvgScore), a, b);
    assert Providers(results)[c] == rows[i].entry.provider;
    assert Providers(results)[d] == rows[j].entry.provider;
  }

  /** The table of the overall leaderboard lists exactly the providers with
      a valid measurement somewhere in the corpus, each once, ranked 1, 2, …
      by non-increasing average, each row holding its provider's own entry;
      rows with equal averages follow the order of `allProviders`. */
  lemma DisplayedLeaderboard(results: seq<AuditResult>)
    ensures forall i :: 0 <= i < |Displayed(results)| ==> Displayed(results)[i].rank == i + 1
    ensures forall i, j :: 0 <= i < j < |Displayed(results)| ==>
      && Displayed(results)[i].entry.avgScore >= Displayed(results)[j].entry.avgScore
      && Displayed(results)[i].entry.provider != Displayed(results)[j].entry.provider
    ensures forall i :: 0 <= i < |Displayed(results)| ==>
      Displayed(results)[i].entry == EntryFor(results, Displayed(results)[i].entry.provider)
    ensures forall p :: p in RowProviders(Displayed(results)) <==> exists i :: 0 <= i < |results| && HasScore(results[i], p)
    ensures forall i, j :: 0 <= i < j < |Displayed(results)| && Displayed(results)[i].entry.avgScore == Displayed(results)[j].entry.avgScore ==>
      ListedBefore(results, Displayed(results)[i].entry.provider, Displayed(results)[j].entry.provider)
  {
    DisplayedOrder(results);
    DisplayedEntries(results);
    DisplayedProviders(results);
    forall i, j | 0 <= i < j < |Displayed(results)| && Displayed(results)[i].entry.avgScore == Displayed(results)[j].entry.avgScore
      ensures ListedBefore(results, Displayed(results)[i].entry.provider, Displayed(results)[j].entry.provider)
    {
      DisplayedTies(results, i, j);
    }
  }

  /** Two shown entries of the overall leaderboard name different providers. */
  lemma ShownDistinct(results: seq<AuditResult>, i: nat, j: nat)
    requires i < j < |Shown(Leaderboard(results))|
    ensures Shown(Leaderboard(results))[i].provider != Shown(Leaderboard(results))[j].provider
  {
    var board := Leaderboard(results);
    var shown := Shown(board);
    LeaderboardSpec(results);
    assert NoDup(board) by {
      forall a, b | 0 <= a < b < |board| ensures board[a] != board[b] {
        assert Names(board)[a] != Names(board)[b];
      }
    }
    FilterMultiset(board, HasData);
    SubMultisetNoDup(board, shown);
    assert shown[i] in board && shown[j] in board;
  }
}
