/** The one-shot ingestion of app/page.tsx (lines 17-69): list the data
    directory, keep the `.json` names, download and parse each, and settle on
    either the parsed records (Ready) or the built-in sample corpus (Fallback).
    The network is not modelled: what the listing and each download produced,
    including a thrown exception, is an input. */
module Ingestion {
  import opened Wrappers
  import opened Audit
  import opened RecordParser
  import Seqs
  import Strings

  /** What downloading and decoding one file produced. `DownloadThrew` covers a
      failed fetch and a body that is not JSON; `NullBody` is the JSON body
      `null`, which decodes without throwing. */
  datatype Download = Downloaded(payload: Payload) | NullBody | DownloadThrew

  datatype RemoteFile = RemoteFile(name: string, download: Download)

  /** The directory listing, or an exception while fetching or filtering it. */
  datatype Listing = Listed(files: seq<RemoteFile>) | ListingThrew

  /** `file.name.endsWith(".json")`. */
  predicate IsJsonFile(f: RemoteFile) {
    |f.name| >= |Extension| && f.name[|f.name| - |Extension|..] == Extension
  }

  function JsonFiles(files: seq<RemoteFile>): seq<RemoteFile> {
    Seqs.Filter(files, IsJsonFile)
  }

  /** What one iteration of the download-and-parse loop (lines 32-50) does with
      a file: it throws, aborting the loop, or the file yields its record, None
      when its name does not match. The download comes before the name test,
      so a throwing download aborts even for a name that would not have
      matched; a `null` body is only read, and so only throws, once the name
      matched. */
  datatype Step = Aborted | Parsed(record: Option<AuditResult>)

  function StepOf(f: RemoteFile): Step {
    match f.download
    case DownloadThrew => Aborted
    case NullBody => if Match(f.name).Some? then Aborted else Parsed(None)
    case Downloaded(payload) => Parsed(ParseRecord(f.name, payload))
  }

  /** A file aborts the loop exactly when its download threw or its body is
      `null` under a matching name; a file that does not abort yields a
      record exactly when its name matches and its body is not `null`. */
  lemma StepOfSpec(f: RemoteFile)
    ensures StepOf(f) == Aborted <==>
      f.download.DownloadThrew? || (f.download.NullBody? && Match(f.name).Some?)
    ensures StepOf(f).Parsed? ==>
      (StepOf(f).record.Some? <==> f.download.Downloaded? && Match(f.name).Some?)
  {
    if f.download.Downloaded? {
      ParseRecordSpec(f.name, f.download.payload);
    }
  }

  function Steps(files: seq<RemoteFile>): (steps: seq<Step>)
    ensures |steps| == |files|
    ensures forall i :: 0 <= i < |files| ==> steps[i] == StepOf(files[i])
  {
    seq(|files|, i requires 0 <= i < |files| => StepOf(files[i]))
  }

  /** The loop's accumulation (`results.push`): None once any step aborted,
      otherwise the records of the steps that produced one, in order. */
  function Collect(steps: seq<Step>): (r: Option<seq<AuditResult>>)
    ensures r.None? <==> Aborted in steps
    ensures r.Some? ==> |r.value| <= |steps|
  {
    if |steps| == 0 then Some([])
    else
      var done := Collect(steps[..|steps| - 1]);
      var last := steps[|steps| - 1];
      assert steps == steps[..|steps| - 1] + [last];
      if done.None? || last.Aborted? then None
      else Some(done.value + (if last.record.Some? then [last.record.value] else []))
  }

  /** With no step aborted, the loop collects nothing exactly when no step
      produced a record, and every record it collects is some step's record. */
  lemma {:induction false} CollectSpec(steps: seq<Step>)
    requires Aborted !in steps
    ensures Collect(steps).Some?
    ensures |Collect(steps).value| == 0 <==> forall i :: 0 <= i < |steps| ==> steps[i].record.None?
    ensures forall k :: 0 <= k < |Collect(steps).value| ==>
      exists i :: 0 <= i < |steps| && steps[i].record == Some(Collect(steps).value[k])
  {
    CollectEmpty(steps);
    CollectFrom(steps);
  }

  /** Nothing aborted: the loop finishes, empty-handed exactly when no name matched. */
  lemma {:induction false} CollectEmpty(steps: seq<Step>)
    requires Aborted !in steps
    ensures Collect(steps).Some?
    ensures |Collect(steps).value| == 0 <==> forall i :: 0 <= i < |steps| ==> steps[i].record.None?
  {
    if |steps| > 0 {
      var init := steps[..|steps| - 1];
      assert forall i :: 0 <= i < |init| ==> init[i] == steps[i];
      assert Aborted !in init;
      CollectEmpty(init);
    }
  }

  /** Every collected record is the record of some step. */
  lemma {:induction false} CollectFrom(steps: seq<Step>)
    requires Aborted !in steps
    ensures Collect(steps).Some?
    ensures forall k :: 0 <= k < |Collect(steps).value| ==>
      exists i :: 0 <= i < |steps| && steps[i].record == Some(Collect(steps).value[k])
  {
    if |steps| > 0 {
      var init := steps[..|steps| - 1];
      var last := steps[|steps| - 1];
      assert Aborted !in init;
      CollectFrom(init);
      var done := Collect(init).value;
      var r := Collect(steps).value;
      forall k | 0 <= k < |r| ensures exists i :: 0 <= i < |steps| && steps[i].record == Some(r[k]) {
        if k < |done| {
          var i :| 0 <= i < |init| && init[i].record == Some(done[k]);
          assert steps[i] == init[i];
        } else {
          assert steps[|steps| - 1].record == Some(r[k]);
        }
      }
    }
  }

  /** The loop keeps listing order: collecting a concatenation concatenates
      what the parts collect. */
  lemma {:induction false} CollectAppend(a: seq<Step>, b: seq<Step>)
    ensures Collect(a + b) ==
      (if Collect(a).Some? && Collect(b).Some? then Some(Collect(a).value + Collect(b).value) else None)
  {
    if |b| == 0 {
      assert a + b == a;
      if Collect(a).Some? {
        assert Collect(a).value + [] == Collect(a).value;
      }
    } else {
      var ab := a + b;
      var init := b[..|b| - 1];
      assert ab[..|ab| - 1] == a + init;
      assert ab[|ab| - 1] == b[|b| - 1];
      CollectAppend(a, init);
      var last := b[|b| - 1];
      if Collect(a).Some? && Collect(init).Some? && !last.Aborted? {
        var tail := if last.record.Some? then [last.record.value] else [];
        assert Collect(a).value + Collect(init).value + tail == Collect(a).value + (Collect(init).value + tail);
      }
    }
  }

  /** Where ingestion settles: the working corpus and the initially selected model. */
  datatype Outcome =
    | Ready(results: seq<AuditResult>, selected: string)
    | Fallback(results: seq<AuditResult>, selected: string)

  /** `sampleAuditResults[0]?.model || ""`. */
  function SampleModel(sample: seq<AuditResult>): string {
    if |sample| > 0 then sample[0].model else ""
  }

  /** The whole of `fetchData` (lines 18-66). Ready exactly when the listing
      succeeded, no JSON download threw, and at least one JSON name matched;
      in every other case, including an empty listing, Fallback to `sample`. */
  function Ingest(listing: Listing, sample: seq<AuditResult>): (o: Outcome)
    ensures o.Fallback? ==> o.results == sample && o.selected == SampleModel(sample)
    ensures o.Ready? ==> |o.results| > 0 && o.selected == o.results[0].model
    ensures o.Ready? ==> listing.Listed? && Collect(Steps(JsonFiles(listing.files))) == Some(o.results)
  {
    var fallback := Fallback(sample, SampleModel(sample));
    match listing
    case ListingThrew => fallback
    case Listed(files) =>
      var json := JsonFiles(files);
      if |json| == 0 then fallback
      else
        match Collect(Steps(json))
        case None => fallback
        case Some(results) => if |results| > 0 then Ready(results, results[0].model) else fallback
  }

  /** When ingestion is Ready: exactly when the listing succeeded, no JSON
      download threw and some JSON name matched; and then every record is the
      record of a listed JSON file, with no more records than JSON files, and
      the corpus is all the JSON files' records, in listing order. */
  lemma IngestSpec(listing: Listing, sample: seq<AuditResult>)
    ensures Ingest(listing, sample).Ready? <==>
      && listing.Listed?
      && Aborted !in Steps(JsonFiles(listing.files))
      && exists i :: 0 <= i < |JsonFiles(listing.files)| && StepOf(JsonFiles(listing.files)[i]).record.Some?
    ensures Ingest(listing, sample).Ready? ==> |Ingest(listing, sample).results| <= |JsonFiles(listing.files)|
    ensures Ingest(listing, sample).Ready? ==> forall k :: 0 <= k < |Ingest(listing, sample).results| ==>
      exists i :: 0 <= i < |listing.files| && IsJsonFile(listing.files[i])
               && StepOf(listing.files[i]) == Parsed(Some(Ingest(listing, sample).results[k]))
    ensures Ingest(listing, sample).Ready? ==> Ingest(listing, sample).results == Records(Steps(JsonFiles(listing.files)))
  {
    if listing.Listed? {
      var steps := Steps(JsonFiles(listing.files));
      if Aborted !in steps {
        CollectSpec(steps);
        CollectRecords(steps);
        CollectedFromListing(listing.files);
      }
    }
  }

  /** Ready, stated in terms of what the downloads produced: the listing
      succeeded, no JSON download threw, no JSON file under a matching name
      had a `null` body, and some JSON file under a matching name had a body
      that is not `null`. */
  lemma IngestByDownloads(listing: Listing, sample: seq<AuditResult>)
    ensures Ingest(listing, sample).Ready? <==>
      && listing.Listed?
      && (forall i :: 0 <= i < |JsonFiles(listing.files)| ==>
            && !JsonFiles(listing.files)[i].download.DownloadThrew?
            && !(JsonFiles(listing.files)[i].download.NullBody? && Match(JsonFiles(listing.files)[i].name).Some?))
      && exists i :: 0 <= i < |JsonFiles(listing.files)|
           && JsonFiles(listing.files)[i].download.Downloaded? && Match(JsonFiles(listing.files)[i].name).Some?
  {
    IngestSpec(listing, sample);
    if listing.Listed? {
      var json := JsonFiles(listing.files);
      var steps := Steps(json);
      forall i | 0 <= i < |json| {
        StepOfSpec(json[i]);
      }
      if Aborted in steps {
        var i := Seqs.IndexOf(steps, Aborted);
        assert StepOf(json[i]) == Aborted;
      }
    }
  }

  /** Every record the loop collects is the record of some listed JSON file. */
  lemma CollectedFromListing(files: seq<RemoteFile>)
    requires Aborted !in Steps(JsonFiles(files))
    ensures Collect(Steps(JsonFiles(files))).Some?
    ensures forall k :: 0 <= k < |Collect(Steps(JsonFiles(files))).value| ==>
      exists i :: 0 <= i < |files| && IsJsonFile(files[i])
               && StepOf(files[i]) == Parsed(Some(Collect(Steps(JsonFiles(files))).value[k]))
  {
    var json := JsonFiles(files);
    var steps := Steps(json);
    CollectSpec(steps);
    var results := Collect(steps).value;
    forall k | 0 <= k < |results|
      ensures exists i :: 0 <= i < |files| && IsJsonFile(files[i]) && StepOf(files[i]) == Parsed(Some(results[k]))
    {
      var j :| 0 <= j < |steps| && steps[j].record == Some(results[k]);
      assert steps[j] == StepOf(json[j]) == Parsed(Some(results[k]));
      assert json[j] in files && IsJsonFile(json[j]);
      var i := Seqs.IndexOf(files, json[j]);
    }
  }

  /** A listing with no JSON file, or none whose name matches, shows the sample. */
  lemma NoMatchingFileFallsBack(files: seq<RemoteFile>, sample: seq<AuditResult>)
    requires forall i :: 0 <= i < |files| && IsJsonFile(files[i]) ==> StepOf(files[i]) == Parsed(None)
    ensures Ingest(Listed(files), sample) == Fallback(sample, SampleModel(sample))
  {
    var json := JsonFiles(files);
    forall i | 0 <= i < |json| ensures StepOf(json[i]) == Parsed(None) {
      assert json[i] in files;
    }
    IngestSpec(Listed(files), sample);
  }

  /** A listing made only of JSON files is kept whole. */
  lemma {:induction false} AllJsonFiles(files: seq<RemoteFile>)
    requires forall i :: 0 <= i < |files| ==> IsJsonFile(files[i])
    ensures JsonFiles(files) == files
  {
    if |files| > 0 {
      AllJsonFiles(files[1..]);
      assert files == [files[0]] + files[1..];
    }
  }

  /** A `null` body under a name that does not match is skipped: a listing of
      `m_audit_results_20240101_000000.json` with body `{}` and `notes.json`
      with body `null` settles Ready on the one record. */
  lemma ExampleNullBodySkipped(name: string, sample: seq<AuditResult>)
    requires name == ConventionalName("m", "20240101_000000")
    ensures Ingest(Listed([RemoteFile(name, Downloaded(Payload(None, None))), RemoteFile("notes.json", NullBody)]), sample)
         == Ready([AuditResult("m", "2024-01-01T00:00:00", [])], "m")
  {
    ExampleNullBodyCollect(RemoteFile(name, Downloaded(Payload(None, None))), RemoteFile("notes.json", NullBody));
  }

  /** The loop over the example's two files collects the first file's record only. */
  lemma ExampleNullBodyCollect(first: RemoteFile, notes: RemoteFile)
    requires first.name == ConventionalName("m", "20240101_000000") && first.download == Downloaded(Payload(None, None))
    requires notes == RemoteFile("notes.json", NullBody)
    ensures |JsonFiles([first, notes])| == 2
    ensures Collect(Steps(JsonFiles([first, notes]))) == Some([AuditResult("m", "2024-01-01T00:00:00", [])])
  {
    ExampleFirstFile(first.name);
    ExampleNotes();
    TwoJsonFiles(first, notes);
    assert [StepOf(first)] + [StepOf(notes)] == [StepOf(first), StepOf(notes)];
    CollectSkipsSecond(StepOf(first), StepOf(notes));
  }

  /** Of a step with a record followed by one without, the loop keeps just the first record. */
  lemma CollectSkipsSecond(a: Step, b: Step)
    requires a.Parsed? && a.record.Some? && b == Parsed(None)
    ensures Collect([a, b]) == Some([a.record.value])
  {
    CollectRecords([a, b]);
    assert [a, b][1..] == [b] && [b][1..] == [];
    assert Records([b]) == [] + Records([]) == [];
    assert Records([a, b]) == [a.record.value] + Records([b]) == [a.record.value];
  }

  /** The first file of ExampleNullBodySkipped: a JSON file yielding its record. */
  lemma ExampleFirstFile(name: string)
    requires name == ConventionalName("m", "20240101_000000")
    ensures IsJsonFile(RemoteFile(name, Downloaded(Payload(None, None))))
    ensures StepOf(RemoteFile(name, Downloaded(Payload(None, None))))
         == Parsed(Some(AuditResult("m", "2024-01-01T00:00:00", [])))
  {
    ExampleName(name);
    ParseConventionalName(name, "m", "20240101_000000", Payload(None, None));
  }

  /** The steps of a listing of two JSON files. */
  lemma TwoJsonFiles(a: RemoteFile, b: RemoteFile)
    requires IsJsonFile(a) && IsJsonFile(b)
    ensures Steps(JsonFiles([a, b])) == [StepOf(a)] + [StepOf(b)]
  {
    AllJsonFiles([a, b]);
  }

  /** A single step collects its record, or nothing, or aborts. */
  /** The records a run of steps produces, read front to back: a reference
      for what `results.push` accumulates when nothing throws. */
  function Records(steps: seq<Step>): seq<AuditResult> {
    if |steps| == 0 then []
    else (if steps[0].Parsed? && steps[0].record.Some? then [steps[0].record.value] else []) + Records(steps[1..])
  }

  /** A record is produced exactly when some step produced it. */
  lemma {:induction false} RecordsMembers(steps: seq<Step>, r: AuditResult)
    ensures r in Records(steps) <==> exists i :: 0 <= i < |steps| && steps[i] == Parsed(Some(r))
  {
    if |steps| > 0 {
      RecordsMembers(steps[1..], r);
      if exists i :: 0 <= i < |steps| && steps[i] == Parsed(Some(r)) {
        var i :| 0 <= i < |steps| && steps[i] == Parsed(Some(r));
        if i > 0 {
          assert steps[1..][i - 1] == steps[i];
        }
      }
      if exists i :: 0 <= i < |steps[1..]| && steps[1..][i] == Parsed(Some(r)) {
        var i :| 0 <= i < |steps[1..]| && steps[1..][i] == Parsed(Some(r));
        assert steps[i + 1] == Parsed(Some(r));
      }
    }
  }

  /** Records keep step order: those of a concatenation are concatenated. */
  lemma {:induction false} RecordsAppend(a: seq<Step>, b: seq<Step>)
    ensures Records(a + b) == Records(a) + Records(b)
  {
    if |a| == 0 {
      assert a + b == b;
    } else {
      assert (a + b)[1..] == a[1..] + b;
      RecordsAppend(a[1..], b);
    }
  }

  /** When no step aborts, the loop collects exactly the steps' records, in order. */
  lemma {:induction false} CollectRecords(steps: seq<Step>)
    requires Aborted !in steps
    ensures Collect(steps) == Some(Records(steps))
  {
    if |steps| == 0 {
      assert Collect(steps) == Some([]);
    } else {
      var rest := steps[1..];
      assert steps == [steps[0]] + rest;
      assert Aborted !in rest;
      CollectRecords(rest);
      CollectOne(steps[0]);
      CollectAppend([steps[0]], rest);
    }
  }

  lemma CollectOne(st: Step)
    ensures Collect([st]) == (if st.Aborted? then None else if st.record.Some? then Some([st.record.value]) else Some([]))
  {
    assert [st][..0] == [];
    assert Collect([]) == Some([]);
    if st.Parsed? && st.record.Some? {
      assert [] + [st.record.value] == [st.record.value];
    }
  }

  /** A `null` body under a matching name throws while the record is built,
      so the page falls back to the sample. */
  lemma ExampleNullBodyMatched(name: string, sample: seq<AuditResult>)
    requires name == ConventionalName("m", "20240101_000000")
    ensures Ingest(Listed([RemoteFile(name, NullBody)]), sample) == Fallback(sample, SampleModel(sample))
  {
    ExampleName(name);
    ConventionalMatch("m", "20240101_000000");
    AllJsonFiles([RemoteFile(name, NullBody)]);
  }

  /** The conventional name of the `null` body examples: a JSON name whose
      parts are well formed. */
  lemma ExampleName(name: string)
    requires name == ConventionalName("m", "20240101_000000")
    ensures Conventional(name, "m", "20240101_000000")
    ensures |name| >= |Extension| && name[|name| - |Extension|..] == Extension
    ensures FormatTimestamp("20240101_000000") == "2024-01-01T00:00:00"
    ensures Strings.ReplaceUnderscores("m") == "m"
  {
    FormatTimestampChars("20240101_000000");
    assert name[|name| - 5..] == Extension;
  }

  /** `notes.json` is a JSON name the pattern does not match. */
  lemma ExampleNotes()
    ensures IsJsonFile(RemoteFile("notes.json", NullBody))
    ensures Match("notes.json").None?
    ensures StepOf(RemoteFile("notes.json", NullBody)) == Parsed(None)
  {
    assert ParseRecord("notes.json", Payload(None, None)).None?;
  }

  /** The page's state: loading, or settled on an outcome. */
  datatype PageState = Loading | Loaded(outcome: Outcome)

  /** The effect's single run: Loading settles once; a settled page never
      ingests again (there is no retry). */
  function Settle(st: PageState, listing: Listing, sample: seq<AuditResult>): (r: PageState)
    ensures r.Loaded?
    ensures st.Loaded? ==> r == st
    ensures st.Loading? && r.outcome.Fallback? ==> r.outcome.results == sample
  {
    match st
    case Loading => Loaded(Ingest(listing, sample))
    case Loaded(_) => st
  }

  /** `auditResults`: the sample until ingestion settles, then the outcome's corpus. */
  function Corpus(st: PageState, sample: seq<AuditResult>): seq<AuditResult> {
    match st
    case Loading => sample
    case Loaded(o) => o.results
  }

  /** `selectedModel`: empty until ingestion settles. */
  function Selected(st: PageState): string {
    match st
    case Loading => ""
    case Loaded(o) => o.selected
  }

  /** Before ingestion settles, `auditResults` holds the sample and
      `selectedModel` is `""`, while the page renders only the loading spinner
      (lines 110-119); once settled, the selected model is the first record's
      model of the corpus, or `""` when that corpus is empty, and the corpus is
      the sample unless ingestion is Ready. */
  lemma SettledSelection(listing: Listing, sample: seq<AuditResult>)
    ensures Corpus(Loading, sample) == sample && Selected(Loading) == ""
    ensures Selected(Settle(Loading, listing, sample))
         == (if |Corpus(Settle(Loading, listing, sample), sample)| > 0
             then Corpus(Settle(Loading, listing, sample), sample)[0].model else "")
    ensures Settle(Loading, listing, sample).outcome.Fallback? ==> Corpus(Settle(Loading, listing, sample), sample) == sample
  {
  }
}
