/**
 The audit callback of lib/index.js:41-147 as specification functions:
 which audits are skipped, the rule built for each row, and the sequence
 of `addRule` calls a whole report produces, with the TypeError (if any)
 that ends the run.
 */
module Normalizer {
  import opened JsValues
  import opened Text
  import opened Occurrences
  import Seqs

  /** The constant `type` of every rule. */
  const Warning: string := "warning"

  /** The marker at which a description is cut. */
  const LearnMore: string := "[Learn more]"

  /** `score >= 100`: only a number can reach it (`true` is 1, `null` is 0, `undefined` is NaN). */
  predicate AtLeast100(s: Score) {
    s.Num? && s.n >= 100.0
  }

  /** The two "already passing" tests of lines 53-68, as the source writes them. */
  predicate SkippedAsPassing(a: Audit) {
    a.Audit? &&
    ((a.scoringMode == Some("binary") && (a.score == Bool(true) || AtLeast100(a.score)))
    || (a.scoringMode == Some("numeric") && (AtLeast100(a.score) || a.score == Bool(true))))
  }

  /** An audit object that contributes nothing: manual, passing, or without `details` (lines 50-74). */
  predicate Skipped(a: Audit) {
    a.Audit? && (a.manual || SkippedAsPassing(a) || a.details.None?)
  }

  /** `description || ''` for a description that is not a truthy non-string. */
  function DescriptionText(description: Description): string
    requires !description.NotAString?
  {
    if description.Str? then description.s else ""
  }

  /** The rule `message`: the description before the first "[Learn more]", trimmed. */
  function DescriptionMessage(description: Description): string
    requires !description.NotAString?
  {
    Trim(Before(DescriptionText(description), LearnMore))
  }

  /**
   The rule message is the description (default "") with everything from
   the first "[Learn more]" on removed and surrounding whitespace trimmed:
   it contains no "[Learn more]", neither starts nor ends with whitespace,
   and is the whole trimmed description when the marker does not occur.
   */
  lemma DescriptionMessageCut(description: Description)
    requires !description.NotAString?
    ensures var d := DescriptionText(description);
            var m := DescriptionMessage(description);
            Free(m, LearnMore)
            && (m == [] || (!IsJsWhitespace(m[0]) && !IsJsWhitespace(m[|m| - 1])))
            && (exists i: nat :: StrippedAt(Before(d, LearnMore), i, m))
            && (Free(d, LearnMore) ==> m == Trim(d))
  {
    var d := DescriptionText(description);
    var b := Before(d, LearnMore);
    var m := Trim(b);
    assert DescriptionMessage(description) == m;
    var i: nat :| StrippedAt(b, i, m);
    InfixOfPrefixFree(d, b, i, m, LearnMore);
    assert Free(m, LearnMore);
    assert m == [] || (!IsJsWhitespace(m[0]) && !IsJsWhitespace(m[|m| - 1]));
    assert StrippedAt(Before(d, LearnMore), i, m);
    if Free(d, LearnMore) {
      BeforeWhenFree(d, LearnMore);
      assert m == Trim(d);
    }
  }

  /** `items[a].helpText || ''`. */
  function HelpText(row: Row): string {
    if row.Row? then OrElse(row.helpText, "") else ""
  }

  /**
   The rule object built for one row of audit `e` (lines 125-131), or the
   TypeError of calling `split` on a description that is not a string.
   */
  function RuleFor(e: Entry, row: Row, slug: string -> string): Result<Rule, RowFault>
    requires e.audit.Audit?
  {
    if e.audit.description.NotAString? then Err(NoSplit)
    else Ok(Rule(HelpText(row), Warning, slug(OrElse(e.audit.name, e.id)), DescriptionMessage(e.audit.description)))
  }

  /** What handling one row comes to: the `addRule` call it makes, or the TypeError it throws. */
  type Outcome = Result<Emission, RowFault>

  /**
   The `addRule` call one row of audit `e` leads to (lines 84-132): its
   occurrence is built first, then its rule; either step may throw.
   */
  function RowOutcome(e: Entry, row: Row, headers: seq<Header>, slug: string -> string): Outcome
    requires e.audit.Audit?
  {
    match OccurrenceOf(row, headers)
    case Err(f) => Err(f)
    case Ok(o) =>
      match RuleFor(e, row, slug)
      case Err(f) => Err(f)
      case Ok(rule) => Ok(Emission(rule, o))
  }

  /** `details.items || []`. */
  function Items(a: Audit): seq<Row>
    requires a.Audit? && a.details.Some?
  {
    a.details.value.items.GetOr([])
  }

  /** `details.itemHeaders || []`. */
  function ItemHeaders(a: Audit): seq<Header>
    requires a.Audit? && a.details.Some?
  {
    a.details.value.itemHeaders.GetOr([])
  }

  /** The `addRule` calls made so far and the TypeError that stopped the callback, if any. */
  datatype Run = Run(emitted: seq<Emission>, fault: Option<Fault>)

  const NothingEmitted := Run([], None)

  /** Runs `first`, then `second` unless `first` threw. */
  function Then(first: Run, second: Run): Run {
    if first.fault.Some? then first else Run(first.emitted + second.emitted, second.fault)
  }

  /** The outcome of every row of audit `e`, in row order. */
  function RowOutcomes(e: Entry, rows: seq<Row>, headers: seq<Header>, slug: string -> string): seq<Outcome>
    requires e.audit.Audit?
  {
    seq(|rows|, a requires 0 <= a < |rows| => RowOutcome(e, rows[a], headers, slug))
  }

  /** Iteration `a` of the row loop of audit `id`: one `addRule` call, or the TypeError thrown on the way. */
  function RowRun(id: string, outcomes: seq<Outcome>, a: nat): Run
    requires a < |outcomes|
  {
    match outcomes[a]
    case Ok(x) => Run([x], None)
    case Err(f) => Run([], Some(TypeError(id, a, f)))
  }

  /** The first `n` iterations of the row loop. */
  function RowsRun(id: string, outcomes: seq<Outcome>, n: nat): Run
    requires n <= |outcomes|
  {
    if n == 0 then NothingEmitted
    else Then(RowsRun(id, outcomes, n - 1), RowRun(id, outcomes, n - 1))
  }

  /** The row loop of audit `e` over `details.items`. */
  function AuditRows(e: Entry, slug: string -> string): Run
    requires e.audit.Audit? && e.audit.details.Some?
  {
    var rows := Items(e.audit);
    RowsRun(e.id, RowOutcomes(e, rows, ItemHeaders(e.audit), slug), |rows|)
  }

  /** One iteration of the audit loop; a `null` audit throws at `.manual` (line 50). */
  function AuditRun(e: Entry, slug: string -> string): Run {
    if e.audit.NullAudit? then Run([], Some(NullAuditRead(e.id)))
    else if Skipped(e.audit) then NothingEmitted
    else AuditRows(e, slug)
  }

  /** The audit loop over the keys of `report`, in order. */
  function ReportRun(report: seq<Entry>, slug: string -> string): Run {
    if report == [] then NothingEmitted
    else Then(ReportRun(report[..|report| - 1], slug), AuditRun(report[|report| - 1], slug))
  }

  /** The whole callback on a Lighthouse result (`results['audits'] || {}`). */
  function Normalize(results: Results, slug: string -> string): Run {
    ReportRun(results.audits.GetOr([]), slug)
  }

  /** `fn(null)` after the loop, or `fn(err)` from the `.catch`. */
  function CompletionOf(r: Run): Completion {
    match r.fault
    case None => Done
    case Some(f) => Failed(f)
  }

  // ---- lemmas ----

  /** `Then` is associative and has `NothingEmitted` as identity. */
  lemma ThenAssociative(r1: Run, r2: Run, r3: Run)
    ensures Then(Then(r1, r2), r3) == Then(r1, Then(r2, r3))
    ensures Then(r1, NothingEmitted) == r1 && Then(NothingEmitted, r1) == r1
  {
    if r1.fault.None? && r2.fault.None? {
      assert (r1.emitted + r2.emitted) + r3.emitted == r1.emitted + (r2.emitted + r3.emitted);
    }
    assert r1.emitted + [] == r1.emitted;
  }

  /**
   The report's output is the first part's followed by the second part's:
   emissions appear in audit-key order, and a TypeError stops everything after it.
   */
  lemma {:induction false} ReportRunAppend(r1: seq<Entry>, r2: seq<Entry>, slug: string -> string)
    ensures ReportRun(r1 + r2, slug) == Then(ReportRun(r1, slug), ReportRun(r2, slug))
    decreases |r2|
  {
    if r2 == [] {
      assert r1 + r2 == r1;
      ThenAssociative(ReportRun(r1, slug), NothingEmitted, NothingEmitted);
    } else {
      var init := r2[..|r2| - 1];
      var last := r2[|r2| - 1];
      assert (r1 + r2)[..|r1 + r2| - 1] == r1 + init;
      ReportRunAppend(r1, init, slug);
      ThenAssociative(ReportRun(r1, slug), ReportRun(init, slug), AuditRun(last, slug));
    }
  }

  /**
   A skipped audit (manual, passing, or without `details`) changes nothing:
   the report with it produces exactly what the report without it does.
   */
  lemma SkippedAuditContributesNothing(before: seq<Entry>, e: Entry, after: seq<Entry>, slug: string -> string)
    requires Skipped(e.audit)
    ensures ReportRun(before + [e] + after, slug) == ReportRun(before + after, slug)
  {
    ReportRunAppend(before + [e], after, slug);
    ReportRunAppend(before, [e], slug);
    ReportRunAppend(before, after, slug);
    assert ReportRun([e], slug) == Then(NothingEmitted, NothingEmitted);
    ThenAssociative(ReportRun(before, slug), NothingEmitted, NothingEmitted);
  }

  /**
   The score tests skip an audit exactly when its mode is "binary" or
   "numeric" and its score is `true` or a number of at least 100; any
   other mode, or an absent mode or score, is not skipped by them.
   */
  lemma PassingScoreRule(a: Audit)
    ensures SkippedAsPassing(a) <==>
              a.Audit?
              && (a.scoringMode == Some("binary") || a.scoringMode == Some("numeric"))
              && (a.score == Bool(true) || (a.score.Num? && a.score.n >= 100.0))
    ensures a.NullAudit? || a.scoringMode.None? || a.score.Absent? ==> !SkippedAsPassing(a)
  {
  }

  /** `emitted` is one `addRule` call per row before `m`, in row order, each the call that row makes. */
  predicate EmitsRows(outcomes: seq<Outcome>, m: nat, emitted: seq<Emission>)
    requires m <= |outcomes|
  {
    |emitted| == m && forall a :: 0 <= a < m ==> outcomes[a] == Ok(emitted[a])
  }

  /**
   The row loop makes one `addRule` call per row, in row order; if a row
   throws, the rows before it have been emitted and nothing after, and
   the error names the audit, the row and the reason.
   */
  lemma {:induction false} RowsRunShape(id: string, outcomes: seq<Outcome>, n: nat)
    requires n <= |outcomes|
    ensures var r := RowsRun(id, outcomes, n);
            r.fault.None? ==> EmitsRows(outcomes, n, r.emitted)
    ensures var r := RowsRun(id, outcomes, n);
            r.fault.Some? ==>
              var f := r.fault.value;
              f.TypeError? && f.row < n && f.audit == id
              && EmitsRows(outcomes, f.row, r.emitted) && outcomes[f.row] == Err(f.reason)
  {
    if n > 0 {
      RowsRunShape(id, outcomes, n - 1);
      var prev := RowsRun(id, outcomes, n - 1);
      if prev.fault.Some? {
        RowsFaultSticks(id, outcomes, n - 1, n);
      } else if outcomes[n - 1].Ok? {
        RowsRunGrows(id, outcomes, n - 1, outcomes[n - 1].value);
        EmitsRowsStep(outcomes, n - 1, prev.emitted, outcomes[n - 1].value);
      } else {
        RowsRunThrows(id, outcomes, n - 1, outcomes[n - 1].error);
      }
    }
  }

  /** One more row, one more matching call. */
  lemma EmitsRowsStep(outcomes: seq<Outcome>, m: nat, emitted: seq<Emission>, x: Emission)
    requires m < |outcomes| && EmitsRows(outcomes, m, emitted) && outcomes[m] == Ok(x)
    ensures EmitsRows(outcomes, m + 1, emitted + [x])
  {
    var out := emitted + [x];
    forall a | 0 <= a < m + 1
      ensures outcomes[a] == Ok(out[a])
    {
      if a < m {
        assert out[a] == emitted[a];
      } else {
        assert out[a] == x;
      }
    }
  }

  /** A row whose call is made adds that one call to the row loop's run. */
  lemma RowsRunGrows(id: string, outcomes: seq<Outcome>, n: nat, x: Emission)
    requires n < |outcomes| && RowsRun(id, outcomes, n).fault.None? && outcomes[n] == Ok(x)
    ensures RowsRun(id, outcomes, n + 1) == Run(RowsRun(id, outcomes, n).emitted + [x], None)
  {
  }

  /** A row that throws ends the row loop's run with its TypeError and adds no call. */
  lemma RowsRunThrows(id: string, outcomes: seq<Outcome>, n: nat, f: RowFault)
    requires n < |outcomes| && RowsRun(id, outcomes, n).fault.None? && outcomes[n] == Err(f)
    ensures RowsRun(id, outcomes, n + 1) == Run(RowsRun(id, outcomes, n).emitted, Some(TypeError(id, n, f)))
  {
    assert RowsRun(id, outcomes, n).emitted + [] == RowsRun(id, outcomes, n).emitted;
  }

  /** After a row has thrown, later rows change nothing. */
  lemma {:induction false} RowsFaultSticks(id: string, outcomes: seq<Outcome>, n: nat, m: nat)
    requires n <= m <= |outcomes|
    requires RowsRun(id, outcomes, n).fault.Some?
    ensures RowsRun(id, outcomes, m) == RowsRun(id, outcomes, n)
    decreases m - n
  {
    if n < m {
      RowsFaultSticks(id, outcomes, n, m - 1);
    }
  }

  /** The row that throws is the last one the row loop reaches: the whole loop ends with its error. */
  lemma RowsRunStopsAt(id: string, outcomes: seq<Outcome>, n: nat, f: RowFault)
    requires n < |outcomes| && RowsRun(id, outcomes, n).fault.None? && outcomes[n] == Err(f)
    ensures RowsRun(id, outcomes, |outcomes|) == Run(RowsRun(id, outcomes, n).emitted, Some(TypeError(id, n, f)))
  {
    RowsRunThrows(id, outcomes, n, f);
    RowsFaultSticks(id, outcomes, n + 1, |outcomes|);
  }

  /**
   An audit that is not skipped and whose rows all go through makes exactly
   `|items|` calls, one per row in order; every one carries that row's
   occurrence, type "warning", key `slug(name || id)`, the cut description
   as message, and that row's help text.
   */
  lemma OneEmissionPerRow(e: Entry, slug: string -> string)
    requires e.audit.Audit? && !Skipped(e.audit)
    requires AuditRun(e, slug).fault.None?
    ensures |Items(e.audit)| > 0 ==> !e.audit.description.NotAString?
    ensures var rows := Items(e.audit);
            var r := AuditRun(e, slug);
            |r.emitted| == |rows|
            && forall a :: 0 <= a < |rows| ==>
                 OccurrenceOf(rows[a], ItemHeaders(e.audit)) == Ok(r.emitted[a].occurrence)
                 && r.emitted[a].rule.kind == Warning
                 && r.emitted[a].rule.key == slug(OrElse(e.audit.name, e.id))
                 && r.emitted[a].rule.message == DescriptionMessage(e.audit.description)
                 && r.emitted[a].rule.helpText == HelpText(rows[a])
  {
    var rows, headers := Items(e.audit), ItemHeaders(e.audit);
    var outcomes := RowOutcomes(e, rows, headers, slug);
    var r := RowsRun(e.id, outcomes, |rows|);
    assert AuditRun(e, slug) == r;
    RowsRunShape(e.id, outcomes, |rows|);
    forall a | 0 <= a < |rows|
      ensures !e.audit.description.NotAString?
      ensures OccurrenceOf(rows[a], headers) == Ok(r.emitted[a].occurrence)
      ensures r.emitted[a].rule == Rule(HelpText(rows[a]), Warning, slug(OrElse(e.audit.name, e.id)),
                                        DescriptionMessage(e.audit.description))
    {
      assert outcomes[a] == RowOutcome(e, rows[a], headers, slug) == Ok(r.emitted[a]);
    }
    if |rows| > 0 {
      assert !e.audit.description.NotAString?;
    }
  }

  /**
   A description that is a truthy non-string makes the first row of an
   audit that is not skipped throw (at `split` or earlier): nothing of that
   audit is emitted, and the error names row 0.
   */
  lemma NonStringDescriptionThrows(e: Entry, slug: string -> string)
    requires e.audit.Audit? && !Skipped(e.audit) && e.audit.description.NotAString?
    requires |Items(e.audit)| > 0
    ensures AuditRun(e, slug).emitted == []
    ensures AuditRun(e, slug).fault.Some? && AuditRun(e, slug).fault.value.TypeError?
            && AuditRun(e, slug).fault.value.row == 0
  {
    var rows, headers := Items(e.audit), ItemHeaders(e.audit);
    var outcomes := RowOutcomes(e, rows, headers, slug);
    assert AuditRun(e, slug) == RowsRun(e.id, outcomes, |rows|);
    assert outcomes[0] == RowOutcome(e, rows[0], headers, slug);
    assert outcomes[0].Err?;
    RowsRunStopsAt(e.id, outcomes, 0, outcomes[0].error);
  }

  /**
   A TypeError in audit `e` ends the whole run: every audit before it has
   been emitted in full, the rows of `e` before the failing one have been
   emitted, and nothing after it is.
   */
  lemma FaultKeepsEarlierEmissions(before: seq<Entry>, e: Entry, after: seq<Entry>, slug: string -> string)
    requires ReportRun(before, slug).fault.None?
    requires AuditRun(e, slug).fault.Some?
    ensures ReportRun(before + [e] + after, slug)
            == Run(ReportRun(before, slug).emitted + AuditRun(e, slug).emitted, AuditRun(e, slug).fault)
  {
    ReportRunAppend(before + [e], after, slug);
    ReportRunAppend(before, [e], slug);
    assert ReportRun([e], slug) == Then(NothingEmitted, AuditRun(e, slug));
    ThenAssociative(NothingEmitted, AuditRun(e, slug), NothingEmitted);
  }

  /** The audit loop after `i + 1` iterations is the loop after `i` followed by audit `i`. */
  lemma ReportRunStep(report: seq<Entry>, i: nat, slug: string -> string)
    requires i < |report|
    ensures ReportRun(report[..i + 1], slug) == Then(ReportRun(report[..i], slug), AuditRun(report[i], slug))
  {
    Seqs.PrefixStep(report, i);
  }

  /** A report of one audit produces exactly that audit's run. */
  lemma ReportRunSingle(e: Entry, slug: string -> string)
    ensures ReportRun([e], slug) == AuditRun(e, slug)
  {
    Seqs.PrefixEnds([e]);
    ThenAssociative(AuditRun(e, slug), NothingEmitted, NothingEmitted);
  }

  /** When audit `i` throws, the whole report's run is the run up to and including it. */
  lemma ReportRunStops(report: seq<Entry>, i: nat, slug: string -> string)
    requires i < |report|
    requires ReportRun(report[..i], slug).fault.None?
    requires AuditRun(report[i], slug).fault.Some?
    ensures ReportRun(report, slug)
            == Run(ReportRun(report[..i], slug).emitted + AuditRun(report[i], slug).emitted,
                   AuditRun(report[i], slug).fault)
  {
    FaultKeepsEarlierEmissions(report[..i], report[i], report[i + 1..], slug);
    Seqs.SplitAround(report, i);
  }

  /**
   A `null` audit value throws on reading `.manual`: the audits before it
   stay emitted, nothing after it is, and `fn` receives the error.
   */
  lemma NullAuditStopsRun(before: seq<Entry>, e: Entry, after: seq<Entry>, slug: string -> string)
    requires e.audit.NullAudit?
    requires ReportRun(before, slug).fault.None?
    ensures ReportRun(before + [e] + after, slug) == Run(ReportRun(before, slug).emitted, Some(NullAuditRead(e.id)))
  {
    FaultKeepsEarlierEmissions(before, e, after, slug);
    assert ReportRun(before, slug).emitted + [] == ReportRun(before, slug).emitted;
  }

  /** A result without `audits` completes with nothing emitted. */
  lemma NoAuditsNoEmissions(slug: string -> string)
    ensures Normalize(Results(None), slug) == NothingEmitted
    ensures CompletionOf(Normalize(Results(None), slug)) == Done
  {
  }
}
