/**
 Concrete reports run through the model: a failing audit with one url row,
 a row without cells, and a cell past the end of the headers.
 */
module Scenarios {
  import opened JsValues
  import opened Text
  import opened Occurrences
  import opened Normalizer
  import Seqs

  const Description: string := "Fix it. [Learn more]"

  /** A failing binary audit whose single row holds one url cell under the header "URL". */
  function AvoidX(rows: seq<Row>, headers: seq<Header>, description: string): Audit {
    Audit(false, Some("binary"), Bool(false), Some("Avoid X"), Str(description),
          Some(Details(Some(rows), Some(headers))))
  }

  /** The audit is not skipped, so it runs its row loop. */
  lemma AvoidXRunsRows(rows: seq<Row>, headers: seq<Header>, d: string, slug: string -> string)
    ensures var e := Entry("a1", AvoidX(rows, headers, d));
            AuditRun(e, slug) == RowsRun(e.id, RowOutcomes(e, rows, headers, slug), |rows|)
  {
  }

  /** Every row's rule has type "warning", key `slug("Avoid X")` and message "Fix it.". */
  lemma AvoidXRule(row: Row, rows: seq<Row>, headers: seq<Header>, d: string, slug: string -> string)
    requires d == Description
    ensures RuleFor(Entry("a1", AvoidX(rows, headers, d)), row, slug)
            == Ok(Rule(HelpText(row), Warning, slug("Avoid X"), "Fix it."))
  {
    DescriptionIsCut(d);
  }

  const UrlRow := Row(Some([Cell(Some("url"), Some("http://bad"))]), None)

  /** The description is cut before "[Learn more]" and the trailing blank is trimmed. */
  lemma DescriptionIsCut(d: string)
    requires d == Description
    ensures DescriptionMessage(Str(d)) == "Fix it."
  {
    CutAtMarker();
    TrimCut();
  }

  /** "[Learn more]" first occurs at index 8 of the description. */
  lemma CutAtMarker()
    ensures Before(Description, LearnMore) == "Fix it. "
  {
    assert |LearnMore| == 12 && LearnMore[0] == '[';
    forall k | 0 <= k < 8
      ensures !OccursAt(Description, LearnMore, k)
    {
      assert Description[k..k + 12][0] == Description[k] != '[';
    }
    assert Description == "Fix it. " + LearnMore;
    assert Description[8..20] == LearnMore;
    BeforeFirstOccurrence(Description, LearnMore, 8);
  }

  /** Trimming "Fix it. " removes the one trailing blank. */
  lemma TrimCut()
    ensures Trim("Fix it. ") == "Fix it."
  {
    var cut := "Fix it. ";
    assert !IsJsWhitespace(cut[0]) && !IsJsWhitespace(cut[6]) && IsJsWhitespace(cut[7]);
    TrimExact(cut, 0, 7);
    assert cut[0..7] == "Fix it.";
  }

  const UrlHeaders := [Header(Some("URL"))]

  const UrlOccurrence := Occurrence(Url, Some("http://bad"), "URL: $", ["http://bad"])

  /** The url cell sets `display` and `url` and contributes the fragment "URL: $". */
  lemma UrlRowOccurrence()
    ensures OccurrenceOf(UrlRow, UrlHeaders) == Ok(UrlOccurrence)
  {
    var cells := UrlRow.cells.value;
    assert FirstFault(cells, UrlHeaders, 1) == None;
    assert LastUrl(cells, 1) == Some("http://bad");
    assert Keeps(cells, UrlHeaders, 0);
    assert "URL" + ": $" == "URL: $";
    assert Fragments(cells, UrlHeaders, 1) == ["URL: $"];
    assert Identifiers(cells, UrlHeaders, 1) == ["http://bad"];
  }

  /** One audit, one url row: one `addRule` call with a url occurrence, then `fn(null)`. */
  lemma UrlRowScenario(slug: string -> string, d: string)
    requires slug("Avoid X") == "avoid-x" && d == Description
    ensures var r := Normalize(Results(Some([Entry("a1", AvoidX([UrlRow], UrlHeaders, d))])), slug);
            r == Run([Emission(Rule("", "warning", "avoid-x", "Fix it."), UrlOccurrence)], None)
            && CompletionOf(r) == Done
  {
    var e := Entry("a1", AvoidX([UrlRow], UrlHeaders, d));
    var emission := Emission(Rule("", "warning", "avoid-x", "Fix it."), UrlOccurrence);
    AvoidXRunsRows([UrlRow], UrlHeaders, d, slug);
    AvoidXRule(UrlRow, [UrlRow], UrlHeaders, d, slug);
    UrlRowOccurrence();
    var outcomes := RowOutcomes(e, [UrlRow], UrlHeaders, slug);
    assert outcomes[0] == RowOutcome(e, UrlRow, UrlHeaders, slug) == Ok(emission);
    assert RowRun(e.id, outcomes, 0) == Run([emission], None);
    ThenAssociative(RowRun(e.id, outcomes, 0), NothingEmitted, NothingEmitted);
    ReportRunSingle(e, slug);
  }

  /** A row that is not an array still yields one occurrence, with an empty message. */
  lemma LengthlessRowScenario(slug: string -> string, d: string)
    requires d == Description
    ensures var e := Entry("a1", AvoidX([Row(None, Some("see docs"))], [], d));
            Normalize(Results(Some([e])), slug)
            == Run([Emission(Rule("see docs", "warning", slug("Avoid X"), "Fix it."), EmptyOccurrence)], None)
  {
    var row := Row(None, Some("see docs"));
    var e := Entry("a1", AvoidX([row], [], d));
    var emission := Emission(Rule("see docs", "warning", slug("Avoid X"), "Fix it."), EmptyOccurrence);
    AvoidXRunsRows([row], [], d, slug);
    AvoidXRule(row, [row], [], d, slug);
    var outcomes := RowOutcomes(e, [row], [], slug);
    assert outcomes[0] == RowOutcome(e, row, [], slug) == Ok(emission);
    assert RowRun(e.id, outcomes, 0) == Run([emission], None);
    ThenAssociative(RowRun(e.id, outcomes, 0), NothingEmitted, NothingEmitted);
    ReportRunSingle(e, slug);
  }

  const TwoCellRow := Row(Some([Cell(Some("text"), Some("x")), Cell(Some("text"), Some("y"))]), None)

  /** The second cell of `TwoCellRow` has no header: reading `headers[1].text` throws. */
  lemma TwoCellRowThrows()
    ensures OccurrenceOf(TwoCellRow, UrlHeaders) == Err(NoHeader(1))
  {
    var cells := TwoCellRow.cells.value;
    assert FirstFault(cells, UrlHeaders, 1) == None;
    assert CellFault(cells, UrlHeaders, 1) == Some(NoHeader(1));
    assert FirstFault(cells, UrlHeaders, 2) == Some(NoHeader(1));
  }

  /**
   In any audit object that is not skipped and has a string or falsy
   description, a second row whose second cell has no header throws: the
   first row's call stays made, the run stops at row 1, and `fn` receives
   the error.
   */
  lemma MissingHeaderScenario(e: Entry, slug: string -> string)
    requires e.audit.Audit? && !Skipped(e.audit) && !e.audit.description.NotAString?
    requires e.audit.details == Some(Details(Some([UrlRow, TwoCellRow]), Some(UrlHeaders)))
    ensures var r := Normalize(Results(Some([e])), slug);
            |r.emitted| == 1 && r.emitted[0].occurrence == UrlOccurrence
            && CompletionOf(r) == Failed(TypeError(e.id, 1, NoHeader(1)))
  {
    var rows := [UrlRow, TwoCellRow];
    var first := Emission(RuleFor(e, UrlRow, slug).value, UrlOccurrence);
    var fault := TypeError(e.id, 1, NoHeader(1));
    var outcomes := RowOutcomes(e, rows, UrlHeaders, slug);
    assert AuditRun(e, slug) == RowsRun(e.id, outcomes, 2);
    UrlRowOccurrence();
    TwoCellRowThrows();
    assert outcomes[0] == RowOutcome(e, UrlRow, UrlHeaders, slug) == Ok(first);
    assert outcomes[1] == RowOutcome(e, TwoCellRow, UrlHeaders, slug) == Err(NoHeader(1));
    assert RowRun(e.id, outcomes, 0) == Run([first], None);
    ThenAssociative(RowRun(e.id, outcomes, 0), NothingEmitted, NothingEmitted);
    assert RowsRun(e.id, outcomes, 1) == Run([first], None);
    assert RowRun(e.id, outcomes, 1) == Run([], Some(fault));
    ThenAssociative(Run([first], None), NothingEmitted, NothingEmitted);
    assert RowsRun(e.id, outcomes, 2) == Run([first], Some(fault));
    ReportRunSingle(e, slug);
  }

  /**
   A `null` value under the second key throws at `.manual`: the first
   audit's call stays made and `fn` receives the error for that key.
   */
  lemma NullAuditScenario(slug: string -> string, d: string)
    requires slug("Avoid X") == "avoid-x" && d == Description
    ensures var r := Normalize(Results(Some([Entry("a1", AvoidX([UrlRow], UrlHeaders, d)), Entry("a2", NullAudit)])), slug);
            r.emitted == [Emission(Rule("", "warning", "avoid-x", "Fix it."), UrlOccurrence)]
            && CompletionOf(r) == Failed(NullAuditRead("a2"))
  {
    var first := Entry("a1", AvoidX([UrlRow], UrlHeaders, d));
    var second := Entry("a2", NullAudit);
    UrlRowScenario(slug, d);
    NullAuditStopsRun([first], second, [], slug);
    assert [first] + [second] + [] == [first, second];
  }
}
