/**
 The JavaScript values the audit callback reads and writes, made explicit.

 A Lighthouse result is loosely typed JSON; each field the callback looks at
 is given one constructor per shape that changes what the callback does
 (absent, a boolean, a number, a string, `null`).
 */
module JsValues {

  datatype Option<+T> = None | Some(value: T) {
    function GetOr(default: T): T {
      match this
      case Some(v) => v
      case None => default
    }
  }

  /** The outcome of a step that may throw. */
  datatype Result<+T, +E> = Ok(value: T) | Err(error: E)

  /** JavaScript truthiness of an optional string: absent and "" are falsy. */
  predicate Truthy(s: Option<string>) {
    s.Some? && s.value != ""
  }

  /** `s || d` for an optional string. */
  function OrElse(s: Option<string>, d: string): string {
    if Truthy(s) then s.value else d
  }

  /** An audit's `score`: undefined or null, a boolean, or a number. */
  datatype Score = Absent | Bool(b: bool) | Num(n: real)

  /** One cell of an item row; `MissingCell` is a `null` or `undefined` slot. */
  datatype Cell = MissingCell | Cell(kind: Option<string>, text: Option<string>)

  /** One entry of `details.itemHeaders`; `MissingHeader` is a `null` slot. */
  datatype Header = MissingHeader | Header(text: Option<string>)

  /**
   One entry of `details.items`. `MissingRow` is `null` or `undefined`.
   A present row has `cells` when it is an array and `None` when it is a
   value without a `length` (an object, a number, a string-less scalar).
   */
  datatype Row = MissingRow | Row(cells: Option<seq<Cell>>, helpText: Option<string>)

  datatype Details = Details(items: Option<seq<Row>>, itemHeaders: Option<seq<Header>>)

  /**
   An audit's `description`. `Str` is a string (`""` among them); `Falsy`
   is any other falsy value (absent, `null`, `0`, `false`), which
   `description || ''` replaces by `""`; `NotAString` is a truthy value
   that is not a string and so has no `split` method.
   */
  datatype Description = Str(s: string) | Falsy | NotAString

  /**
   One value of the `audits` object. `NullAudit` is `null`: reading
   `.manual` from it throws. For an object, `manual` is true exactly when
   the field is the boolean `true` (the callback tests `manual === true`).
   */
  datatype Audit =
    | NullAudit
    | Audit(
        manual: bool,
        scoringMode: Option<string>,
        score: Score,
        name: Option<string>,
        description: Description,
        details: Option<Details>)

  /** One key of the `audits` object with its value. */
  datatype Entry = Entry(id: string, audit: Audit)

  /** A Lighthouse result: the `audits` object as its keys in `_.keys` order. */
  datatype Results = Results(audits: Option<seq<Entry>>)

  // ---- what the callback produces ----

  datatype Display = Text | Url

  /** The `occurrenceItem` object passed as the second argument of `addRule`. */
  datatype Occurrence = Occurrence(
    display: Display,
    url: Option<string>,
    message: string,
    identifiers: seq<string>)

  /** The rule object passed as the first argument of `addRule`. */
  datatype Rule = Rule(helpText: string, kind: string, key: string, message: string)

  /** One `payload.addRule(rule, occurrence)` call. */
  datatype Emission = Emission(rule: Rule, occurrence: Occurrence)

  /** Why handling one row threw a TypeError. */
  datatype RowFault =
    | NullRow              // `items[a].length` on null or undefined
    | NullCell(cell: nat)  // `items[a][y].type` on null or undefined
    | NoHeader(cell: nat)  // `headers[y].text` with `headers[y]` undefined or null
    | NoSplit              // `description.split` on a truthy non-string description

  /**
   A TypeError thrown inside the callback, located by audit key (and row):
   while handling a row, or on reading `.manual` from a `null` audit.
   */
  datatype Fault =
    | TypeError(audit: string, row: nat, reason: RowFault)
    | NullAuditRead(audit: string)

  /** What the worker hands to its completion callback `fn`. */
  datatype Completion = Done | Failed(error: Fault)
}
