/**
 The exported worker's result callback (lib/index.js:38-147) as it runs:
 two nested counter loops that call `payload.addRule` once per row, and
 the completion callback `fn` called with `null` or with the thrown error.
 */
module Worker {
  import opened JsValues
  import opened Occurrences
  import opened Normalizer
  import Seqs

  /** The host payload, reduced to the `addRule` calls it has received. */
  class Payload {
    var rules: seq<Emission>

    constructor ()
      ensures rules == []
    {
      rules := [];
    }

    /** `payload.addRule(rule, occurrence)`. */
    method AddRule(rule: Rule, occurrence: Occurrence)
      modifies this
      ensures rules == old(rules) + [Emission(rule, occurrence)]
    {
      rules := rules + [Emission(rule, occurrence)];
    }
  }

  /**
   One iteration of the audit loop (lines 50-134): a `null` audit throws;
   a manual, passing or detail-less one is skipped; otherwise its rows
   are emitted.
   */
  method EmitAudit(payload: Payload, e: Entry, slug: string -> string) returns (fault: Option<Fault>)
    modifies payload
    ensures payload.rules == old(payload.rules) + AuditRun(e, slug).emitted
    ensures fault == AuditRun(e, slug).fault
  {
    if e.audit.NullAudit? {
      assert old(payload.rules) + [] == old(payload.rules);
      return Some(NullAuditRead(e.id));
    }
    if Skipped(e.audit) {
      assert old(payload.rules) + [] == old(payload.rules);
      return None;
    }
    fault := EmitRows(payload, e, slug);
  }

  /**
   The row loop of lines 77-134: builds and emits one occurrence per row
   of `details.items`, stopping at the first row that throws.
   */
  method EmitRows(payload: Payload, e: Entry, slug: string -> string) returns (fault: Option<Fault>)
    requires e.audit.Audit? && e.audit.details.Some?
    modifies payload
    ensures payload.rules == old(payload.rules) + AuditRows(e, slug).emitted
    ensures fault == AuditRows(e, slug).fault
  {
    var items := Items(e.audit);
    var headers := ItemHeaders(e.audit);
    ghost var outcomes := RowOutcomes(e, items, headers, slug);
    var a := 0;
    while a < |items|
      invariant a <= |items|
      invariant RowsRun(e.id, outcomes, a).fault.None?
      invariant payload.rules == old(payload.rules) + RowsRun(e.id, outcomes, a).emitted
    {
      var outcome := HandleRow(e, items[a], headers, slug);
      assert outcome == outcomes[a];
      if outcome.Err? {
        RowsRunStopsAt(e.id, outcomes, a, outcome.error);
        return Some(TypeError(e.id, a, outcome.error));
      }
      RowsRunAppends(old(payload.rules), e.id, outcomes, a, outcome.value);
      payload.AddRule(outcome.value.rule, outcome.value.occurrence);
      a := a + 1;
    }
    fault := None;
  }

  /**
   The body of the row loop up to the `addRule` call (lines 84-131): the
   occurrence is built, then the rule object; either may throw.
   */
  method HandleRow(e: Entry, row: Row, headers: seq<Header>, slug: string -> string) returns (outcome: Outcome)
    requires e.audit.Audit?
    ensures outcome == RowOutcome(e, row, headers, slug)
  {
    var occurrence := BuildOccurrence(row, headers);
    if occurrence.Err? {
      return Err(occurrence.error);
    }
    var rule := RuleFor(e, row, slug);
    outcome := if rule.Ok? then Ok(Emission(rule.value, occurrence.value)) else Err(rule.error);
  }

  /** A row whose call is made extends the calls received by exactly that call. */
  lemma RowsRunAppends(received: seq<Emission>, id: string, outcomes: seq<Outcome>, n: nat, x: Emission)
    requires n < |outcomes| && RowsRun(id, outcomes, n).fault.None? && outcomes[n] == Ok(x)
    ensures RowsRun(id, outcomes, n + 1).fault.None?
    ensures received + RowsRun(id, outcomes, n + 1).emitted == (received + RowsRun(id, outcomes, n).emitted) + [x]
  {
    RowsRunGrows(id, outcomes, n, x);
    Seqs.AppendAssoc(received, RowsRun(id, outcomes, n).emitted, [x]);
  }

  /**
   Runs the callback on `results`: the audits are visited in key order. A
   TypeError ends the loop; the calls already made stay made and the error
   goes to `fn`.
   */
  method OnResults(payload: Payload, results: Results, slug: string -> string) returns (completion: Completion)
    modifies payload
    ensures payload.rules == old(payload.rules) + Normalize(results, slug).emitted
    ensures completion == CompletionOf(Normalize(results, slug))
  {
    var audits := results.audits.GetOr([]);
    var i := 0;
    Seqs.PrefixEnds(audits);
    while i < |audits|
      invariant i <= |audits|
      invariant ReportRun(audits[..i], slug).fault.None?
      invariant payload.rules == old(payload.rules) + ReportRun(audits[..i], slug).emitted
    {
      ReportRunStep(audits, i, slug);
      ghost var done := ReportRun(audits[..i], slug).emitted;
      var fault := EmitAudit(payload, audits[i], slug);
      Seqs.AppendAssoc(old(payload.rules), done, AuditRun(audits[i], slug).emitted);
      if fault.Some? {
        ReportRunStops(audits, i, slug);
        return Failed(fault.value);
      }
      i := i + 1;
    }
    Seqs.PrefixEnds(audits);
    completion := Done;
  }
}
