/** Turns one downloaded file into an audit record (app/page.tsx, lines 36-49).
    The file name is matched against the JavaScript pattern
    `(.+)_audit_results_(\d{8}_\d{6})\.json` with `String.prototype.match`:
    the leftmost match, with the greedy `.+` taking as much as it can. The
    pattern is not anchored at either end, `.` matches any character except a
    line terminator, and `\d` is an ASCII digit. */
module RecordParser {
  import opened Wrappers
  import opened Audit
  import Strings

  const Marker: string := "_audit_results_"
  const Extension: string := ".json"

  /** `_audit_results_` (15), `\d{8}_\d{6}` (15) and `.json` (5). */
  const SuffixLength: nat := 35

  /** What `fileData` decoded to, as far as the parser reads it: `model` and
      `providers`, each None when null or undefined. */
  datatype Payload = Payload(model: Option<string>, providers: Option<ProviderMap>)

  predicate IsDigit(c: char) {
    '0' <= c <= '9'
  }

  /** The characters JavaScript's `.` refuses to match. */
  predicate IsLineTerminator(c: char) {
    c == '\n' || c == '\r' || c == '\U{2028}' || c == '\U{2029}'
  }

  /** `\d{8}_\d{6}`: the date and time digits of a file name. */
  predicate IsStampDigits(d: string) {
    && |d| == 15
    && (forall i :: 0 <= i < 15 && i != 8 ==> IsDigit(d[i]))
    && d[8] == '_'
  }

  /** `_audit_results_(\d{8}_\d{6})\.json` matches at position `e` of `name`. */
  predicate SuffixAt(name: string, e: nat) {
    && e + SuffixLength <= |name|
    && name[e..e + 15] == Marker
    && IsStampDigits(name[e + 15..e + 30])
    && name[e + 30..e + 35] == Extension
  }

  /** The whole pattern matches with the match starting at `s` and the first
      group being `name[s..e]`. */
  predicate MatchesAt(name: string, s: nat, e: nat) {
    && s < e
    && SuffixAt(name, e)
    && forall k :: s <= k < e ==> !IsLineTerminator(name[k])
  }

  /** The match `String.prototype.match` reports: no match starts further left,
      and at its start the greedy group cannot be extended. */
  ghost predicate IsFirstMatch(name: string, s: nat, e: nat) {
    && MatchesAt(name, s, e)
    && (forall s': nat, e': nat :: s' < s ==> !MatchesAt(name, s', e'))
    && (forall e': nat :: e < e' ==> !MatchesAt(name, s, e'))
  }

  /** The position and length of the first group. */
  datatype Span = Span(start: nat, end: nat)

  /** Backtracking of the greedy group: the largest `e` in `(s, hi]` at which the
      suffix matches, trying `hi` first. */
  function LongestEnd(name: string, s: nat, hi: nat): (r: Option<nat>)
    decreases hi
    ensures r.Some? ==> s < r.value <= hi && SuffixAt(name, r.value)
  {
    if hi <= s then None
    else if SuffixAt(name, hi) then Some(hi)
    else LongestEnd(name, s, hi - 1)
  }

  /** LongestEnd finds the largest suffix position in `(s, hi]`, or reports none. */
  lemma {:induction false} LongestEndSpec(name: string, s: nat, hi: nat)
    ensures LongestEnd(name, s, hi).Some? ==> forall e :: LongestEnd(name, s, hi).value < e <= hi ==> !SuffixAt(name, e)
    ensures LongestEnd(name, s, hi).None? ==> forall e :: s < e <= hi ==> !SuffixAt(name, e)
    decreases hi
  {
    if s < hi && !SuffixAt(name, hi) {
      LongestEndSpec(name, s, hi - 1);
    }
  }

  /** How far `.+` can reach from `s`: up to the next line terminator. */
  function RunEnd(name: string, s: nat): (r: nat)
    requires s <= |name|
    decreases |name| - s
    ensures s <= r <= |name|
    ensures forall k :: s <= k < r ==> !IsLineTerminator(name[k])
    ensures r < |name| ==> IsLineTerminator(name[r])
  {
    if s == |name| || IsLineTerminator(name[s]) then s else RunEnd(name, s + 1)
  }

  /** The regular-expression search from start position `s` onwards: at each
      start the greedy group runs to the next line terminator and backtracks. */
  function MatchFrom(name: string, s: nat): (r: Option<Span>)
    requires s <= |name|
    decreases |name| - s
    ensures r.Some? ==> s <= r.value.start < r.value.end && SuffixAt(name, r.value.end)
  {
    if s == |name| then None
    else
      match LongestEnd(name, s, RunEnd(name, s))
      case Some(e) => Some(Span(s, e))
      case None => MatchFrom(name, s + 1)
  }

  /** The search from `s` returns the leftmost start at or after `s` that has a
      match, with the longest group at that start, and None when there is none. */
  lemma {:induction false} MatchFromSpec(name: string, s: nat)
    requires s <= |name|
    decreases |name| - s
    ensures MatchFrom(name, s).Some? ==> MatchesAt(name, MatchFrom(name, s).value.start, MatchFrom(name, s).value.end)
    ensures MatchFrom(name, s).Some? ==>
      forall s', e' :: s <= s' < MatchFrom(name, s).value.start ==> !MatchesAt(name, s', e')
    ensures MatchFrom(name, s).Some? ==>
      forall e' :: MatchFrom(name, s).value.end < e' ==> !MatchesAt(name, MatchFrom(name, s).value.start, e')
    ensures MatchFrom(name, s).None? ==> forall s', e' :: s <= s' ==> !MatchesAt(name, s', e')
  {
    if s < |name| {
      var run := RunEnd(name, s);
      LongestEndSpec(name, s, run);
      forall e' | run < e' && SuffixAt(name, e') ensures !MatchesAt(name, s, e') {
        assert IsLineTerminator(name[run]);
      }
      if LongestEnd(name, s, run).None? {
        MatchFromSpec(name, s + 1);
      }
    }
  }

  /** `name.match(/(.+)_audit_results_(\d{8}_\d{6})\.json/)`. */
  function Match(name: string): (r: Option<Span>)
    ensures r.Some? ==> r.value.start < r.value.end && SuffixAt(name, r.value.end)
  {
    MatchFrom(name, 0)
  }

  /** Match reports the first match as `String.prototype.match` defines it, and
      None exactly when the pattern matches nowhere. */
  lemma MatchSpec(name: string)
    ensures Match(name).Some? ==> IsFirstMatch(name, Match(name).value.start, Match(name).value.end)
    ensures Match(name).None? ==> forall s, e :: !MatchesAt(name, s, e)
  {
    MatchFromSpec(name, 0);
  }

  /** At most one match is the reported one. */
  lemma FirstMatchUnique(name: string, s1: nat, e1: nat, s2: nat, e2: nat)
    requires IsFirstMatch(name, s1, e1) && IsFirstMatch(name, s2, e2)
    ensures s1 == s2 && e1 == e2
  {
  }

  /** `YYYYMMDD_HHMMSS` re-punctuated by fixed slices as `YYYY-MM-DDTHH:MM:SS`
      (no range check: month 13 or hour 25 pass through). */
  function FormatTimestamp(d: string): (t: string)
    requires |d| == 15
    ensures |t| == 19
    ensures t[4] == '-' && t[7] == '-' && t[10] == 'T' && t[13] == ':' && t[16] == ':'
  {
    d[0..4] + "-" + d[4..6] + "-" + d[6..8] + "T" + d[9..11] + ":" + d[11..13] + ":" + d[13..15]
  }

  /** FormatTimestamp character by character. */
  lemma FormatTimestampChars(d: string)
    requires |d| == 15
    ensures FormatTimestamp(d)
      == [d[0], d[1], d[2], d[3], '-', d[4], d[5], '-', d[6], d[7], 'T', d[9], d[10], ':', d[11], d[12], ':', d[13], d[14]]
  {
  }

  /** The punctuation FormatTimestamp inserts, at its fixed positions. */
  predicate IsPunctuated(t: string) {
    |t| == 19 && t[4] == '-' && t[7] == '-' && t[10] == 'T' && t[13] == ':' && t[16] == ':'
  }

  /** The digits of a punctuated timestamp, back in file-name form. */
  function StampOf(t: string): (d: string)
    requires |t| == 19
    ensures |d| == 15 && d[8] == '_'
  {
    t[0..4] + t[5..7] + t[8..10] + "_" + t[11..13] + t[14..16] + t[17..19]
  }

  /** StampOf character by character. */
  lemma StampOfChars(t: string)
    requires |t| == 19
    ensures StampOf(t)
      == [t[0], t[1], t[2], t[3], t[5], t[6], t[8], t[9], '_', t[11], t[12], t[14], t[15], t[17], t[18]]
  {
  }

  /** Re-punctuation loses and moves no digit: StampOf undoes FormatTimestamp. */
  lemma FormatTimestampRoundTrip(d: string)
    requires IsStampDigits(d)
    ensures StampOf(FormatTimestamp(d)) == d
  {
    var t := FormatTimestamp(d);
    FormatTimestampChars(d);
    StampOfChars(t);
    assert StampOf(t) == [d[0], d[1], d[2], d[3], d[4], d[5], d[6], d[7], '_', d[9], d[10], d[11], d[12], d[13], d[14]];
    assert d == [d[0], d[1], d[2], d[3], d[4], d[5], d[6], d[7], d[8], d[9], d[10], d[11], d[12], d[13], d[14]];
  }

  /** ... and every punctuated timestamp is the formatting of its own digits. */
  lemma FormatTimestampOnto(t: string)
    requires IsPunctuated(t)
    ensures FormatTimestamp(StampOf(t)) == t
  {
    var d := StampOf(t);
    StampOfChars(t);
    FormatTimestampChars(d);
    assert FormatTimestamp(d)
      == [t[0], t[1], t[2], t[3], '-', t[5], t[6], '-', t[8], t[9], 'T', t[11], t[12], ':', t[14], t[15], ':', t[17], t[18]];
    assert t == [t[0], t[1], t[2], t[3], t[4], t[5], t[6], t[7], t[8], t[9], t[10], t[11], t[12], t[13], t[14], t[15], t[16], t[17], t[18]];
  }

  /** One file name and payload to an audit record, or None when the name does
      not match. The payload's `model` wins whenever it is not null or
      undefined (even when empty); otherwise the first group with every `_`
      turned into `/`. Missing `providers` become `{}`. */
  function ParseRecord(name: string, payload: Payload): (r: Option<AuditResult>)
    ensures r.Some? ==> |r.value.timestamp| == 19
    ensures r.Some? ==> r.value.providers == payload.providers.GetOr([])
  {
    match Match(name)
    case None => None
    case Some(m) =>
      var model := payload.model.GetOr(Strings.ReplaceUnderscores(name[m.start..m.end]));
      Some(AuditResult(model, FormatTimestamp(name[m.end + 15..m.end + 30]), payload.providers.GetOr([])))
  }

  /** What a parsed record holds, in terms of the pattern's reported match: no
      record exactly when nothing matches; otherwise the re-punctuated stamp of
      the reported match, and the payload's model or else the first group with
      no underscore left in it. */
  lemma ParseRecordSpec(name: string, payload: Payload)
    ensures ParseRecord(name, payload).None? <==> forall s, e :: !MatchesAt(name, s, e)
    ensures ParseRecord(name, payload).Some? ==> exists s: nat, e: nat ::
      && IsFirstMatch(name, s, e)
      && ParseRecord(name, payload).value.timestamp == FormatTimestamp(name[e + 15..e + 30])
      && ParseRecord(name, payload).value.model
         == (if payload.model.Some? then payload.model.value else Strings.ReplaceUnderscores(name[s..e]))
    ensures ParseRecord(name, payload).Some? && payload.model.Some? ==>
      ParseRecord(name, payload).value.model == payload.model.value
    ensures ParseRecord(name, payload).Some? && payload.model.None? ==>
      '_' !in ParseRecord(name, payload).value.model
  {
    MatchSpec(name);
    match Match(name)
    case None =>
    case Some(m) =>
      assert IsFirstMatch(name, m.start, m.end);
  }

  /** A file name following the convention: model segment, marker, stamp digits, extension. */
  function ConventionalName(prefix: string, digits: string): string {
    prefix + Marker + digits + Extension
  }

  lemma ConventionalSuffix(prefix: string, digits: string)
    requires IsStampDigits(digits)
    ensures SuffixAt(ConventionalName(prefix, digits), |prefix|)
    ensures ConventionalName(prefix, digits)[..|prefix|] == prefix
    ensures ConventionalName(prefix, digits)[|prefix| + 15..|prefix| + 30] == digits
  {
    var name := ConventionalName(prefix, digits);
    var e := |prefix|;
    assert name == prefix + (Marker + digits + Extension);
    assert name[e..] == Marker + digits + Extension;
    assert name[e..e + 15] == name[e..][..15];
    assert name[e + 15..e + 30] == name[e..][15..30];
    assert name[e + 30..e + 35] == name[e..][30..35];
  }

  /** The first group of a conventional name is its whole model segment. */
  lemma ConventionalMatch(prefix: string, digits: string)
    requires |prefix| > 0
    requires forall k :: 0 <= k < |prefix| ==> !IsLineTerminator(prefix[k])
    requires IsStampDigits(digits)
    ensures Match(ConventionalName(prefix, digits)) == Some(Span(0, |prefix|))
  {
    var name := ConventionalName(prefix, digits);
    ConventionalSuffix(prefix, digits);
    assert forall k :: 0 <= k < |prefix| ==> name[k] == prefix[k];
    assert MatchesAt(name, 0, |prefix|);
    MatchSpec(name);
    var m := Match(name).value;
    FirstMatchUnique(name, m.start, m.end, 0, |prefix|);
  }

  /** `name` follows the convention with a model segment free of line
      terminators and well-formed stamp digits. */
  predicate Conventional(name: string, prefix: string, digits: string) {
    && name == ConventionalName(prefix, digits)
    && |prefix| > 0
    && (forall k :: 0 <= k < |prefix| ==> !IsLineTerminator(prefix[k]))
    && IsStampDigits(digits)
  }

  /** A conventional name parses back into its parts: the whole model segment is
      the first group, and the timestamp is the re-punctuated digits. */
  lemma ParseConventionalName(name: string, prefix: string, digits: string, payload: Payload)
    requires Conventional(name, prefix, digits)
    ensures ParseRecord(name, payload)
         == Some(AuditResult(
              payload.model.GetOr(Strings.ReplaceUnderscores(prefix)),
              FormatTimestamp(digits),
              payload.providers.GetOr([])))
  {
    ConventionalMatch(prefix, digits);
    ConventionalSuffix(prefix, digits);
    assert name[0..|prefix|] == prefix;
  }

  /** Stamp digits and the timestamp they format to, checked character by
      character: the examples' way to evaluate a literal stamp. */
  lemma StampFormatsAs(d: string, t: string)
    requires |d| == 15 && d[8] == '_'
    requires forall i :: 0 <= i < 15 && i != 8 ==> IsDigit(d[i])
    requires t == [d[0], d[1], d[2], d[3], '-', d[4], d[5], '-', d[6], d[7], 'T', d[9], d[10], ':', d[11], d[12], ':', d[13], d[14]]
    ensures IsStampDigits(d)
    ensures FormatTimestamp(d) == t
  {
    FormatTimestampChars(d);
  }

  /** The worked example of the file-name convention,
      `Acme_Model_audit_results_20240115_093000.json`: an underscore in the
      model segment stands for `/`. */
  lemma ExampleAcmeModel(name: string, providers: ProviderMap)
    requires name == ConventionalName("Acme_Model", "20240115_093000")
    ensures ParseRecord(name, Payload(None, Some(providers)))
         == Some(AuditResult("Acme/Model", "2024-01-15T09:30:00", providers))
  {
    StampFormatsAs("20240115_093000", "2024-01-15T09:30:00");
    AcmeModelSegment("Acme_Model");
    ParseConventionalName(name, "Acme_Model", "20240115_093000", Payload(None, Some(providers)));
  }

  /** The Acme model segment: no line terminator, and `_` read as `/`. */
  lemma AcmeModelSegment(prefix: string)
    requires prefix == "Acme_Model"
    ensures forall k :: 0 <= k < |prefix| ==> !IsLineTerminator(prefix[k])
    ensures Strings.ReplaceUnderscores(prefix) == "Acme/Model"
  {
    var r := Strings.ReplaceUnderscores(prefix);
    assert forall i :: 0 <= i < |prefix| && i != 4 ==> r[i] == prefix[i];
    assert r[4] == '/';
  }

  /** Digits are not range-checked: in `m_audit_results_20241301_256199.json`
      month 13, hour 25, minute 61 and second 99 are accepted. */
  lemma ExampleOutOfRangeStamp(name: string, model: string)
    requires name == ConventionalName("m", "20241301_256199")
    ensures ParseRecord(name, Payload(Some(model), None))
         == Some(AuditResult(model, "2024-13-01T25:61:99", []))
  {
    StampFormatsAs("20241301_256199", "2024-13-01T25:61:99");
    ParseConventionalName(name, "m", "20241301_256199", Payload(Some(model), None));
  }

  /** The greedy group swallows an earlier suffix: in
      `a_audit_results_20240101_000000.json_audit_results_20240202_000000.json`
      the last timestamp wins and the model segment is everything before it. */
  lemma ExampleGreedyGroup(name: string)
    requires name == ConventionalName("a_audit_results_20240101_000000.json", "20240202_000000")
    ensures ParseRecord(name, Payload(None, None))
         == Some(AuditResult(Strings.ReplaceUnderscores("a_audit_results_20240101_000000.json"),
                             "2024-02-02T00:00:00", []))
  {
    GreedyGroupSegment("a_audit_results_20240101_000000.json");
    StampFormatsAs("20240202_000000", "2024-02-02T00:00:00");
    ParseConventionalName(name, "a_audit_results_20240101_000000.json", "20240202_000000", Payload(None, None));
  }

  /** The greedy example's model segment, which holds a whole earlier suffix,
      has no line terminator. */
  lemma GreedyGroupSegment(prefix: string)
    requires prefix == "a_audit_results_20240101_000000.json"
    ensures forall k :: 0 <= k < |prefix| ==> !IsLineTerminator(prefix[k])
  {
  }

  /** A name that only ends in `.json` but lacks the marker yields no record. */
  lemma ExampleNoMatch()
    ensures ParseRecord("summary.json", Payload(Some("x"), None)) == None
  {
  }
}
