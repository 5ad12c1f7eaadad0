# Lighthouse audit normaliser — a Dafny model

`passmarked/lighthouse` is a plugin worker. It runs a Lighthouse audit of a page.
It then turns every failing audit into rule occurrences for the host platform.
This project models the part of the worker that does that translation: the
result callback of `lib/index.js`. The callback:

- walks the `audits` object in key order;
- skips manual audits, audits whose score counts as passing, and audits without `details`;
- builds one `occurrenceItem` per row of `details.items` from the row's cells and the parallel `details.itemHeaders`;
- hands each occurrence to `payload.addRule` with a rule object `{helpText, type: 'warning', key: slug(name || id), message}`;
- finally calls `fn(null)`, or `fn(err)` when a TypeError was thrown.

Modules:

- `JsValues` (values.dfy): the loosely typed JSON the callback reads, with one constructor per shape that changes behaviour. A score is `Absent | Bool | Num`. Audits, cells, headers and rows may be `null`. Strings may be missing. A description is a string, a falsy value, or a truthy non-string. The outputs are `Rule`, `Occurrence`, `Emission` (one `addRule` call), `Fault` (a TypeError) and `Completion` (what `fn` receives).
- `Text` (text.dfy): `trim`, `split(marker)[0]`, and `join(', ')` with the matching `split`. The source trims with the `string` package's `S(...).trim()`, whose code is not part of this model. The model relies on that method delegating to the native ECMAScript `String.prototype.trim`, and defines `trim` by the ECMAScript whitespace set.
- `Occurrences` (occurrence.dfy): the per-row cell loop. `BuildOccurrence` is the loop itself. Specification functions walk the cells up to an index, the way the loop does.
- `Normalizer` (normalizer.dfy): the audit filter, the rule construction, and the run of the whole report as a `Run` value. A `Run` holds the emitted calls plus the TypeError that stopped the run, if any. The row loop is defined over the sequence of per-row outcomes (`RowOutcomes`): each is the call the row makes or the TypeError it throws.
- `Worker` (worker.dfy): the imperative callback. A `Payload` class holds the sequence of `addRule` calls. The audit loop (`OnResults`), its body (`EmitAudit`), the row loop (`EmitRows`) and the row body (`HandleRow`) are proved equal to the `Normalizer` specification.
- `Scenarios` (scenarios.dfy): concrete reports checked end to end.
- `Seqs` (seqs.dfy): generic sequence facts used by the proofs.

`slugify` comes from the `string` package, whose code is not part of this model. It is passed in as a function parameter `slug`. The model states only that `key == slug(name || id)`.

Three behaviours of `lib/index.js` differ from what a reader might expect; the model follows the code:

- A row without a truthy `length` is not skipped. The guard at line 93 only protects the cell loop. `addRule` at line 125 runs for every row, so such a row yields one occurrence with message `""`, no identifiers and display `text`.
- A cell at an index with no header is not skipped. `headers[y].text` at line 109 throws a TypeError. The same happens for a `null` cell (line 99), a `null` row (line 93), a `null` audit value (`.manual` at line 50), and a truthy non-string description (`.split` at line 130, after the row's occurrence is built and before its `addRule`).
- The error is not swallowed. The `.catch` at lines 142-147 passes it to `fn(err)`. Calls to `addRule` made before the throw stay made. The model returns them together with the error.

## Model

Rows naming a function or predicate give the definition that models the cited lines. The lemmas and methods after them state its properties.

| member | source | states |
|---|---|---|
| `Normalizer.SkippedAsPassing` | lib/index.js:53-68 | Defines the two score tests as written: mode `binary` with score `true` or at least 100, or mode `numeric` with score at least 100 or `true`. A `null` audit is not covered by them. |
| `Normalizer.Skipped` | lib/index.js:50-74 | Defines when an audit object contributes nothing: it is manual, passes a score test, or has no `details`. |
| `Normalizer.DescriptionMessage` | lib/index.js:130 | Defines the rule message: `trim` of `split('[Learn more]')[0]` applied to `description \|\| ''`. |
| `Normalizer.HelpText` | lib/index.js:127 | Defines the rule's `helpText` as `items[a].helpText \|\| ''`. |
| `Normalizer.RuleFor` | lib/index.js:125-131 | Defines the rule object: help text, type `warning`, key `slug(name \|\| id)` and the cut description. A truthy non-string description throws at `split`. |
| `Normalizer.RowOutcome` | lib/index.js:84-132 | Defines what one row comes to: the `addRule` call pairing its rule with its occurrence, or the TypeError thrown building the occurrence first and then the rule. |
| `Normalizer.RowsRun` | lib/index.js:81-134 | Defines the row loop over the rows' outcomes: calls in row order up to the first row that throws, then that row's TypeError. |
| `Normalizer.AuditRun` | lib/index.js:50-134 | Defines one pass of the audit loop: a `null` audit throws, a skipped audit contributes nothing, and any other audit runs its row loop over `details.items \|\| []` and `details.itemHeaders \|\| []`. |
| `Normalizer.ReportRun` | lib/index.js:44-136 | Defines the audit loop over the keys in order, stopping at the first TypeError. |
| `Normalizer.Normalize` | lib/index.js:41-136 | Defines the callback on a Lighthouse result, with `results['audits'] \|\| {}`. |
| `Normalizer.CompletionOf` | lib/index.js:139-147 | Defines what `fn` receives: `null` when the loop finished, the thrown error otherwise. |
| `Occurrences.OccurrenceOf` | lib/index.js:84-122 | Defines the `occurrenceItem` of a row. A `null` row throws. A row without a truthy `length` gives the empty occurrence. An array row gives what `CellsOccurrence` builds. |
| `Occurrences.CellsOccurrence` | lib/index.js:96-122 | Defines the occurrence built from an array of cells: the first cell fault if any, otherwise display and url from the last url cell, the joined fragments, and the identifiers. |
| `Text.Join` | lib/index.js:122 | Defines `Array.prototype.join(sep)`: the parts with `sep` between neighbours, `""` for no parts. |
| `Worker.OnResults` | lib/index.js:41-147 | The calls `payload.addRule` receives are exactly `Normalize(results)`'s emissions, in order, appended to what was already there. `fn` gets `Done` when nothing threw and `Failed(err)` with the TypeError otherwise. |
| `Worker.EmitAudit` | lib/index.js:50-134 | One pass of the audit loop appends exactly `AuditRun(e)`'s emissions and reports its fault. A `null` audit throws, a skipped audit adds nothing, and any other audit runs its rows. |
| `Worker.EmitRows` | lib/index.js:77-134 | The row loop appends exactly the emissions of `AuditRows(e)`, one call per row up to the first row that throws, and reports that row's TypeError. |
| `Worker.HandleRow` | lib/index.js:84-131 | The row body computes `RowOutcome`: the occurrence is built first, then the rule, and either may throw. |
| `Worker.Payload.AddRule` | lib/index.js:125-132 | `addRule` appends one `(rule, occurrence)` pair to the received calls and changes nothing else. |
| `Occurrences.BuildOccurrence` | lib/index.js:84-122 | The cell loop computes `OccurrenceOf(row, headers)`. That is either the occurrence (display, url, joined message, identifiers) or the TypeError for a `null` row, a `null` cell or a missing header. |
| `Occurrences.OccurrenceFaults` | lib/index.js:93-110 | Building a row throws if and only if the row is `null`, or it is an array containing a `null` cell or a cell index with no header. A row without a truthy `length` never throws. |
| `Occurrences.FaultIsFirst` | lib/index.js:96-111 | The cell loop faults exactly when some cell faults. The reported fault is the one at the first such index, and every earlier cell is fault-free. |
| `Occurrences.OccurrenceDisplay` | lib/index.js:84-104 | `display` is `url` if and only if some cell has type `url` and non-empty text. `url` is then the text of the last such cell. Otherwise display is `text` and `url` is unset. A row without cells yields the empty occurrence. |
| `Occurrences.UrlIsLastUrlCell` | lib/index.js:99-104 | Over any prefix of cells, the url left behind is set if and only if a url cell occurs, and it is that prefix's last url cell's text. |
| `Occurrences.FragmentsPairIdentifiers` | lib/index.js:109-115 | Fragments and identifiers have equal length. Fragment k is `header + ": $"` and identifier k is the cell text of the same cell. The contributing cells are, in increasing order, exactly those whose header text and own text are both non-empty. |
| `Occurrences.MessageMatchesIdentifiers` | lib/index.js:114-122 | The message is the fragments joined with `", "`, one fragment per identifier. It is empty if and only if there are no identifiers. When no header contains `", "`, splitting the message on `", "` gives the fragments back. |
| `Normalizer.PassingScoreRule` | lib/index.js:53-68 | The score tests skip an audit if and only if it is an object whose mode is `binary` or `numeric` and whose score is `true` or a number of at least 100. A missing mode or score is never skipped by them. |
| `Normalizer.SkippedAuditContributesNothing` | lib/index.js:50-74 | Inserting a manual, passing or detail-less audit anywhere in a report leaves the report's run unchanged. |
| `Normalizer.ReportRunAppend` | lib/index.js:44-47 | The run of a concatenated report is the first part's run followed by the second's, unless the first threw. So output is in audit-key order, and a throw stops everything after it. |
| `Normalizer.RowsRunShape` | lib/index.js:81-134 | Without a fault, the row loop emits one call per row in row order, each the call that row's outcome makes. With a fault at row r, rows before r are emitted, and the error names the audit, row r and row r's reason. |
| `Normalizer.RowsRunStopsAt` | lib/index.js:81-134 | When row n is the first to throw, the whole row loop ends with the calls of the rows before n and row n's TypeError. |
| `Normalizer.OneEmissionPerRow` | lib/index.js:77-132 | A surviving audit whose rows all go through makes exactly `|items|` calls. Every call carries its row's occurrence, type `warning`, key `slug(name \|\| id)`, the cut description as message, and its row's help text. If there is a row, the description is not a truthy non-string. |
| `Normalizer.NonStringDescriptionThrows` | lib/index.js:127-132 | In a surviving audit with at least one row, a truthy non-string description makes row 0 throw. Nothing of that audit is emitted. |
| `Normalizer.NullAuditStopsRun` | lib/index.js:50 | A `null` audit value throws at `.manual`. The audits before it stay emitted, nothing after it is, and the error names its key. |
| `Normalizer.FaultKeepsEarlierEmissions` | lib/index.js:142-147 | A TypeError in one audit ends the run. Earlier audits and earlier rows stay emitted, nothing later is emitted, and the error is what `fn` receives. |
| `Normalizer.ReportRunStops` | lib/index.js:47-147 | When audit i is the first to throw, the report's run is the run up to i plus audit i's partial emissions, with audit i's fault. |
| `Normalizer.DescriptionMessageCut` | lib/index.js:130 | The rule message has no `[Learn more]` and no surrounding whitespace. It is what is left of the text before the first marker once blanks at either end are removed. Without a marker it is the whole trimmed description. |
| `Normalizer.NoAuditsNoEmissions` | lib/index.js:41 | A result without `audits` (`results['audits'] \|\| {}`) emits nothing and completes with `fn(null)`. |
| `Text.Trim` | lib/index.js:130 | `trim` returns an infix of its input. Everything it removes is ECMAScript whitespace, and the result neither starts nor ends with whitespace. |
| `Text.TrimExact` | lib/index.js:130 | `trim` is fixed by the first and last non-blank characters: the result is exactly the text between them. |
| `Text.Before` | lib/index.js:130 | `split(marker)[0]` is the longest prefix in which the marker does not start. It is the whole string, or it stops where the marker first occurs. |
| `Text.BeforeFirstOccurrence` | lib/index.js:130 | Given the first occurrence of the marker, `split(marker)[0]` is the text before it. |
| `Text.SplitJoin` | lib/index.js:122 | Joining non-empty parts with `", "` and splitting on `", "` returns the parts, when no part contains `", "`. |
| `Scenarios.UrlRowScenario` | lib/index.js:41-139 | A failing binary audit "Avoid X" with one url row `http://bad` under header `URL` yields exactly one call: rule `{key: avoid-x, type: warning, message: "Fix it."}` and occurrence `{display: url, url: http://bad, message: "URL: $", identifiers: [http://bad]}`. Then `fn(null)`. |
| `Scenarios.LengthlessRowScenario` | lib/index.js:93-132 | A row that is not an array still yields one call. It carries the empty occurrence and the row's help text. |
| `Scenarios.MissingHeaderScenario` | lib/index.js:96-147 | A second row whose second cell has no header throws. The first row's call stays made, and `fn` receives the TypeError for row 1, cell 1. |
| `Scenarios.NullAuditScenario` | lib/index.js:47-50 | A `null` value under the second key throws at `.manual`. The first audit's call stays made, and `fn` receives the error for that key. |
| `Scenarios.DescriptionIsCut` | lib/index.js:130 | `"Fix it. [Learn more]"` is cut to `"Fix it."`. |

## Left out

- Launching and killing Chrome and the `lighthouse(...)` call (lib/index.js:9-24, 38). These are process I/O and a foreign library. The model starts from the Lighthouse result. A launch or audit failure, which also reaches `fn(err)`, is not modelled.
- `payload.getData()` and the choice of `data.proxy || data.url` as the target (lib/index.js:32, 38). They only feed the excluded audit call.
- `S(...).slugify()` from the `string` package (lib/index.js:129). Its code is not part of this model, so it is an arbitrary function parameter. `S(...).trim()` (line 130) is taken to be the native ECMAScript `trim`.
- `_.keys` ordering (lib/index.js:44). The `audits` object is given as a sequence of entries in key order. Uniqueness of keys is not enforced.
- `console.dir(err)` (lib/index.js:144), which is logging only.
- The unused local `key` (lib/index.js:71).
- The error value: the model's `Fault` locates the throw by audit key, row, cell and reason. It does not reproduce the JavaScript TypeError object or its message text, which is what `fn` actually receives.
- Loose JavaScript coercions outside the modelled shapes are not captured: string scores compared with `>=` (`"100" >= 100`), a `NaN` score, and non-string `scoringMode`, `type`, `text`, `name` or `helpText` values. A missing `results` object, which would throw before the audit loop starts, is not modelled either.
- A row or `items` value that is a string: it has a `length` and indexable characters. A row is modelled as an array of cells or as a value without `length`.
- An exception thrown by `fn(null)` itself, which would re-enter the `.catch`.
