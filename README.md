# CSV resolver of the cohort-lookup end-to-end test

This project models the data-handling core of `test/test10.js`, an end-to-end test of a
small client-side lookup form. Before driving the page, the test resolves the cohort it
will type. This model covers that resolution:

- `extractCsvUrl` finds the first `const CSV_URL = "…"` assignment in the page markup
  with `/const\s+CSV_URL\s*=\s*"([^"]+)"/`. It returns the captured URL, or throws
  `CSV_URL not found in index.html` when there is no match.
- The parsing half of `fetchCohortsFromCsv` turns the CSV response body into the
  cohort list:
  - trim the body and split it into lines on `\r?\n`;
  - split each line on `,`;
  - keep each row's trimmed third field when it matches `/^[0-9]+$/`;
  - drop repeats with a `Set`, keeping the first-seen order.
- `cohortsFromCsv[0] || '110'` chooses the cohort that the scenarios use.

Modules:

- `Wrappers` holds `Option` and `Result`.
- `SeqFacts` holds small generic facts about sequence concatenation.
- `JsString` models the JavaScript string primitives the core uses:
  - the `\s` class, which is also the set of characters `trim` strips;
  - `String.prototype.trim`;
  - `/^[0-9]+$/`;
  - `split` on a one-character separator, and its inverse `join`.
- `LineBreaks` models `split(/\r?\n/)` and what replacing `\r\n` by `\n` does to lines
  and to trimmed text.
- `CsvUrl` models the regex search as a matcher tried at every start position, leftmost
  first. It also gives a declarative definition of the pattern (`AssignmentAt`). The
  matcher is proved sound and complete against that definition.
- `Cohorts` models the two loops of `fetchCohortsFromCsv` as methods: the row filter and
  the `Set` insertion. Both are proved against specification functions (`CohortList`,
  `Dedup`), and the properties of the result are lemmas about those functions.

Two details of the code shape the model:

- The returned list keeps first-seen order, and `cohortsFromCsv[0]` depends on that
  order: the chosen cohort comes from the earliest row with an all-digit third field.
- The whole body is trimmed before it is split into lines, and each third field is
  trimmed before the digit test.

## Model

| member | source | states |
|---|---|---|
| JsString.TrimStart | test/test10.js:17 | the result is a suffix of the input, everything removed is whitespace, and it is empty or starts with a non-whitespace character |
| JsString.TrimEnd | test/test10.js:17 | the result is a prefix of the input, everything removed is whitespace, and it is empty or ends with a non-whitespace character |
| JsString.Trim | test/test10.js:17 | `trim()` returns the middle of the input after whitespace runs are removed on both sides; it neither starts nor ends with whitespace, and it is empty exactly when the input is all whitespace |
| JsString.TrimUnique | test/test10.js:20 | any text satisfying that characterisation is the result of `trim()` |
| JsString.TrimIgnoresTrailingWhitespace | test/test10.js:20 | appending a whitespace character does not change the trimmed text |
| JsString.Split | test/test10.js:17 | `split(',')` always yields at least one piece, and no piece contains the separator |
| JsString.JoinSplit | test/test10.js:17 | joining the pieces of `split` with the separator gives back the original text |
| JsString.SplitJoin | test/test10.js:17 | splitting a join of separator-free pieces gives back the pieces |
| JsString.SplitAppend | test/test10.js:17 | appending a non-separator character extends only the last piece |
| LineBreaks.SplitLines | test/test10.js:17 | `split(/\r?\n/)` yields at least one line, and no line contains `\n` |
| LineBreaks.JoinSplitLines | test/test10.js:17 | joining the lines with `\n` gives the text with every `\r\n` separator replaced by `\n`: nothing but separators is lost |
| LineBreaks.SplitLinesJoin | test/test10.js:17 | splitting `\n`-free lines joined with `\n` gives them back, provided no line before the last ends with `\r` |
| LineBreaks.ReplaceCrLfConcat | test/test10.js:17 | replacing `\r\n` works piecewise on a concatenation when no `\r\n` straddles the cut |
| LineBreaks.TrimReplaceCrLf | test/test10.js:17 | `trim()` commutes with replacing `\r\n` by `\n` |
| LineBreaks.SplitLinesReplaceCrLf | test/test10.js:17 | splitting after replacing `\r\n` by `\n` gives as many lines, each equal to the original line or to it minus one trailing `\r` |
| CsvUrl.WhitespaceRun | test/test10.js:8 | the greedy `\s*` run: all whitespace, followed by a non-whitespace character or the end |
| CsvUrl.QuoteFreeRun | test/test10.js:8 | the greedy `[^"]*` run: free of `"`, followed by `"` or the end |
| JsString.IsWhitespace | test/test10.js:8 | the characters `\s` matches, which are also the ones `trim()` strips (line 17): ECMAScript white space and line terminators |
| JsString.IsDigits | test/test10.js:21 | `/^[0-9]+$/` accepts exactly the non-empty strings made only of ASCII digits |
| CsvUrl.MatchPrefix | test/test10.js:8 | the pattern anchored at the start of a text: a capture exists only after a literal `const`, and it is non-empty and free of `"` |
| CsvUrl.MatchAt | test/test10.js:8 | the pattern tried at one position: a capture there means `const` starts at that position, and the capture is non-empty and free of `"` |
| CsvUrl.FirstSome | test/test10.js:8 | the engine's scan from a start position: what it returns is the outcome at some position at or after the start |
| CsvUrl.MatchPrefixSound | test/test10.js:8 | every capture the matcher reports at the start of a text is a reading of the pattern there |
| CsvUrl.MatchPrefixComplete | test/test10.js:8 | every reading of the pattern at the start of a text is the capture the matcher reports, so backtracking adds nothing |
| CsvUrl.MatchAtSound | test/test10.js:8 | a match at a position is an assignment starting there |
| CsvUrl.MatchAtComplete | test/test10.js:8 | an assignment starting at a position is matched there |
| CsvUrl.OccursIffMatches | test/test10.js:8 | the pattern matches at a position exactly when an assignment starts there |
| CsvUrl.FirstSomeIsLeftmost | test/test10.js:8 | the search fails exactly when no position matches; otherwise it returns the match at the leftmost matching position |
| CsvUrl.FirstSomeAt | test/test10.js:8 | the search stops at the first matching position |
| CsvUrl.ExtractCsvUrl | test/test10.js:7-11 | success carries the capture of a match in the markup; failure occurs exactly when no position matches, and its message is `CSV_URL not found in index.html` |
| CsvUrl.ExtractCsvUrlIsLeftmostAssignment | test/test10.js:7-11 | on success the URL is non-empty, free of `"`, and captured by an assignment with none starting earlier; the error is thrown exactly when no assignment occurs anywhere, and carries the fixed message |
| CsvUrl.ExtractCsvUrlAt | test/test10.js:7-10 | a match at a position with none before it is what `extractCsvUrl` returns |
| CsvUrl.ExtractsEmbeddedUrl | test/test10.js:7-10 | markup made of a prefix with no assignment, any well-formed assignment, and any suffix yields exactly that assignment's URL |
| Cohorts.Lines | test/test10.js:17 | the body yields at least one line, none contains `\n`, and joining them with `\n` gives the trimmed body with each `\r\n` separator replaced by `\n` |
| Cohorts.JoinRows | test/test10.js:17 | splitting the lines on `,` loses nothing: joining each row's fields with `,` and the rows with `\n` gives back the trimmed body, up to `\r\n` separators |
| Cohorts.ThirdField | test/test10.js:20 | a row with fewer than three fields gives the empty string; otherwise the result is `row[2]` with its leading and trailing whitespace runs removed, so it neither starts nor ends with whitespace |
| Cohorts.Contributes | test/test10.js:21 | the loop body's test: the row's trimmed third field passes `/^[0-9]+$/` |
| Cohorts.Pushed | test/test10.js:21 | what one iteration pushes: the trimmed third field when the test passes, nothing otherwise |
| Cohorts.Accepted | test/test10.js:18-22 | the values the loop pushes, row by row; what it pushes is stated by `AcceptedStep` and `AcceptedMembership` |
| Cohorts.CohortList | test/test10.js:16-23 | the list returned for a body has no repeated cohort |
| Cohorts.Dedup | test/test10.js:23 | `Array.from(new Set(xs))` holds exactly the values of `xs`, each once, so it is no longer than `xs` |
| Cohorts.UniqueInOrder | test/test10.js:23 | the `Set` insertion loop followed by `Array.from` computes `Dedup` of its input |
| Cohorts.CohortsFromCsvText | test/test10.js:16-23 | the row loop and the `Set` pass together return `CohortList` of the response body |
| Cohorts.AcceptedStep | test/test10.js:19-22 | one loop iteration appends exactly its row's `Pushed` value to the earlier rows' output |
| Cohorts.AcceptedAppend | test/test10.js:19-22 | the rows of two consecutive blocks push their values in block order |
| Cohorts.AcceptedMembership | test/test10.js:19-22 | a value is pushed exactly when some row's trimmed third field equals it and is all digits |
| Cohorts.AcceptedCongruent | test/test10.js:19-22 | rows whose trimmed third fields agree push the same values |
| Cohorts.ShortRowContributesNothing | test/test10.js:20 | removing a row with fewer than three fields (`r[2]` undefined, so `''` is used) leaves the pushed values unchanged |
| Cohorts.DedupKeepsFirstSeenOrder | test/test10.js:23 | `Set` output lists values in the order of their first occurrence |
| Cohorts.DedupKeepsFirst | test/test10.js:23 | the first value pushed is the first value returned |
| Cohorts.CohortsAreDigits | test/test10.js:20-21 | every returned cohort is a non-empty string of ASCII digits |
| Cohorts.CohortsSoundAndComplete | test/test10.js:17-23 | `c` is returned exactly when it is all digits and is the trimmed third comma-separated field of some line of the trimmed body |
| Cohorts.CohortsUniqueInFirstSeenOrder | test/test10.js:23 | no cohort is returned twice, and cohorts come out in the order their rows first pushed them |
| Cohorts.BlankTextHasNoCohorts | test/test10.js:17-23 | an empty or all-whitespace body yields an empty list, not an error |
| Cohorts.ThirdFieldIgnoresTrailingCr | test/test10.js:17-20 | a carriage return appended to a line does not change the row's trimmed third field |
| Cohorts.LinesReplaceCrLf | test/test10.js:17 | after replacing `\r\n` by `\n` in the body, the trimmed body has as many lines, each the same up to a trailing `\r` |
| Cohorts.RowsReplaceCrLf | test/test10.js:17-20 | after that replacement, the body has as many rows, with the same trimmed third fields |
| Cohorts.CohortsIgnoreCrLf | test/test10.js:17-23 | the cohort list is the same whether the CSV uses `\r\n` or `\n` line ends |
| Cohorts.ChosenCohort | test/test10.js:62 | `cohortsFromCsv[0] || '110'` is never empty, is an entry of the list or `110`, and is the first entry whenever that entry is non-empty |
| Cohorts.ChosenCohortIsFirstOrFallback | test/test10.js:62 | the chosen cohort is the first listed cohort, or `110` when the list is empty; `||` never falls back on a non-empty list, and the choice is always all digits |
| Cohorts.ChosenFromDigits | test/test10.js:62 | over any list of digit strings, `cohorts[0] || '110'` is the first entry, or `110` when there is none |
| Cohorts.ChosenCohortIsEarliestRow | test/test10.js:62 | the chosen cohort is the trimmed third field of the earliest row whose third field is all digits |
| Cohorts.ChosenFromEarliestRow | test/test10.js:62 | over any rows, the chosen cohort is the third field of the earliest row whose third field is all digits |
| Cohorts.ChosenOfDedup | test/test10.js:62 | when the first pushed value is all digits, the `Set` pass keeps it first and `||` chooses it |
| Cohorts.ChosenCohortFallsBack | test/test10.js:62 | when no row has an all-digit third field, `110` is chosen |

## Left out

- Reading `/workspace/index.html` from disk (`test/test10.js:5`) is not modelled. The markup is the parameter of `ExtractCsvUrl`.
- The network fetch, the `res.ok` check and its error (`test/test10.js:14-15`) are not modelled, because they are I/O. The response body is the parameter of `CohortsFromCsvText`.
- Loading the page in the DOM emulator, the load wait, `setInput` and `readResult` (`test/test10.js:29-41`, `56-60`, `64-72`) are left out. They drive a browser environment that is not part of this model.
- `delay` and `waitFor` (`test/test10.js:43-54`) are left out: they depend on clocks and timers.
- The scenario runner and the console report (`test/test10.js:74` onward) are left out. They only feed the chosen cohort and fixed strings to the page and print what it shows.
- `test/test10.puppeteer.js` is not part of this model. It does not read the CSV: it drives a real browser, tries the fixed cohorts `110` to `119` until the page shows its success text (lines 56-68), and otherwise falls back to the cohort field's value or `110` (line 71).
- Strings are sequences of Unicode characters, not UTF-16 code units. Every character the patterns and `trim` examine lies in the Basic Multilingual Plane, where the two views agree.
- The regex search is modelled by its result. The model does not represent backtracking steps; `CsvUrl.MatchPrefixComplete` shows that backtracking cannot find a different capture.
