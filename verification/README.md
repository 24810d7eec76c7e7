# gas-report-filter, modelled in Dafny

`gas-report-filter` reads a security-scan report in JUnit-style XML. The report is a
`testsuites` element holding `testsuite` elements, and each suite holds `testcase`
elements that each carry one `failure`. The tool also reads a JSON whitelist of
accepted `(file, code)` pairs. It writes the report back out without the whitelisted
findings. Each suite's `tests` count is recomputed, and suites left with no test case
are dropped.

This project models the filtering engine of `gas-report-filter.go`:

- the report and whitelist records;
- code extraction (`retrieveCode`);
- whitelist membership (`isInWhitelist`);
- the test-case filter (`removeWhitelistedIssues`);
- the suite filter (`getWhitelistedTestsuites`);
- the rewrite `main` applies to the parsed report.

It also proves what these functions promise.

Layout, one module per file:

- `options.dfy` (`Options`): the `Option` type. `None` stands for the run-time panic of
  `retrieveCode`.
- `report.dfy` (`Report`): `Issue`, `Whitelist`, `Failure`, `Testcase`, `Testsuite` and
  `XMLReport`, as in lines 15-47. The `XMLName` fields are not modelled.
- `strings.dfy` (`Strings`): Go's `strings.Index`, `strings.Split` and `strings.Join`
  for a non-empty separator, with the split/join round trip.
- `code.dfy` (`Code`): `retrieveCode`, which is `strings.Split(text, "> ")[1]`.
- `membership.dfy` (`Membership`): `isInWhitelist` as a loop with early return, proved
  equal to the predicate "some issue names this file and this code".
- `seq_filter.dfy` (`SeqFilter`): a generic order-preserving filter and map over
  sequences, with its facts: subsequence, count, membership, appending one element,
  idempotence.
- `filter.dfy` (`FilterSpec`): the engine's reference definitions. `Exempt` holds when
  the whitelist lists the test case's name together with its code. `Kept` filters the
  test cases. `Refiltered` gives a suite its filtered cases and recomputed count.
  `Surviving` returns the refiltered suites that still hold a case.
- `filter_lemmas.dfy` (`FilterLemmas`): the engine's properties.
- `engine.dfy` (`Engine`): `removeWhitelistedIssues` and `getWhitelistedTestsuites` as
  the loops the program runs, proved equal to the reference definitions. The panic is
  the result `None`.
- `examples.dfy` (`Examples`): two sample scenarios. The input is one group
  `pkg/foo.go` holding a G101 finding and a G104 finding. With G101 accepted, one
  finding remains and the count is 1. With both accepted, no group remains.

Notes on what the code does:

- The code is not "the text after the separator". It is the second piece of
  `strings.Split`: the text between the first `"> "` and the next one, or the end.
- Matching reads the failure's inner XML (`Failure.Text`), not its `message` attribute.
- A failure text without `"> "` is not handled. Indexing the split at 1 panics, and the
  whole run dies. The engine methods therefore return `None` exactly when some test case
  of the input has no separator. Go evaluates `retrieveCode` for every test case, so
  this holds whether or not the case would be whitelisted.

The whitelist and the report are immutable values here, so no filter can change the
whitelist. The proof is the type system rather than a lemma.

## Model

| member | source | states |
|---|---|---|
| Strings.IndexOf | gas-report-filter.go:96 | it returns the position of the leftmost occurrence of the separator when the text contains the separator, and None when it does not |
| Strings.Split | gas-report-filter.go:96 | there is always at least one piece, and more than one exactly when the text contains the separator; no piece contains the separator; the first piece is the text before the leftmost separator, or the whole text when there is none |
| Strings.JoinSplit | gas-report-filter.go:96 | joining the pieces of a split with the separator restores the text |
| Code.SplitJoin | gas-report-filter.go:96 | splitting separator-free pieces joined by `"> "` gives the pieces back |
| Code.RetrieveCode | gas-report-filter.go:95-97 | a code exists exactly when the text contains `"> "`; it starts right after the first `"> "`, ends at the next `"> "` or at the end of the text, and never contains `"> "` |
| Code.RetrieveCodeOfJoin | gas-report-filter.go:95-97 | the code of pieces joined by `"> "` is the second piece |
| Membership.IsInWhitelist | gas-report-filter.go:100-107 | true exactly when some issue has both this file and this code; always false for an empty whitelist |
| SeqFilter.Filter | gas-report-filter.go:111-117 | the filter returns no more elements than it was given, and each one is an input element that the filter keeps |
| FilterLemmas.KeptMembers | gas-report-filter.go:110-118 | a test case is in the output exactly when it is an input case that is not whitelisted under its name and code |
| FilterLemmas.KeptOrder | gas-report-filter.go:110-118 | the output is an order-preserving subsequence of the input, with cases unchanged; its length is the number of non-whitelisted input cases |
| FilterLemmas.KeptSnoc | gas-report-filter.go:112-116 | each loop step appends the case exactly when it is not whitelisted |
| FilterLemmas.KeptIdempotent | gas-report-filter.go:110-118 | filtering the output again with the same whitelist removes nothing |
| FilterLemmas.KeptNoIssues | gas-report-filter.go:100-118 | with an empty whitelist the output equals the input |
| FilterLemmas.SurvivingCounts | gas-report-filter.go:121-131 | every output suite has at least one test case and `tests` equal to its number of test cases; there are never more suites than before |
| FilterLemmas.SurvivingOrigin | gas-report-filter.go:123-127 | each output suite has an input suite's name and that suite's filtered test cases; only `testcases` and `tests` differ |
| FilterLemmas.SurvivingMembers | gas-report-filter.go:124-128 | a suite appears, refiltered, exactly when one of its test cases survives; a suite whose cases are all whitelisted, or that had none, is dropped |
| FilterLemmas.SurvivingOrder | gas-report-filter.go:121-131 | the output suites are the refiltered input suites in their original relative order, one for each input suite that keeps a test case |
| FilterLemmas.SurvivingSnoc | gas-report-filter.go:123-129 | each loop step appends the refiltered suite exactly when it keeps a test case |
| FilterLemmas.SurvivingIdempotent | gas-report-filter.go:110-131 | filtering the output suites again with the same whitelist gives the same suites |
| FilterLemmas.SurvivingNoIssues | gas-report-filter.go:121-131 | with an empty whitelist, non-empty suites with correct counts pass through unchanged |
| Engine.RemoveWhitelistedIssues | gas-report-filter.go:110-118 | the loop fails exactly when some failure text lacks `"> "`; otherwise it returns the non-whitelisted cases in order |
| Engine.GetWhitelistedTestsuites | gas-report-filter.go:121-131 | it returns None exactly when some test case of some input suite has a failure text without `"> "`, and otherwise returns `Surviving`, which is each input suite with its non-whitelisted cases and a recomputed `tests`, in input order, without the suites left empty |
| Engine.FilterReportRun | gas-report-filter.go:148 | replacing the report's suites with the loop's output is the reference report filter |
| Engine.SurvivingWellFormed | gas-report-filter.go:113 | the output suites hold only input test cases, so filtering them again cannot panic |
| Engine.FilterReportIdempotent | gas-report-filter.go:148 | filtering a filtered report with the same whitelist succeeds and gives the same report |
| Examples.CodeAfterDescription | gas-report-filter.go:95-97 | a text made of a description without `'>'`, then `"> "`, then a code without `'>'` yields exactly that code |
| Examples.CodeOfTextA | gas-report-filter.go:95-97 | the code of `"Potential hardcoded credentials - > G101"` is `G101` |
| Examples.CodeOfTextB | gas-report-filter.go:95-97 | the code of `"Errors unhandled - > G104"` is `G104` |
| Examples.ExampleScenarios | gas-report-filter.go:148 | on the sample report, accepting G101 leaves one group with the G104 finding and a count of 1; accepting both codes leaves no group |
| Examples.OneAccepted | gas-report-filter.go:110-131 | with G101 accepted, the group keeps only the G104 finding and declares 1 test |
| Examples.BothAccepted | gas-report-filter.go:121-131 | with both codes accepted, the report has no group |

## Left out

- `parseXMLstdin` (lines 57-71) and `outputXMLString` (lines 134-138) are left out. They
  are standard-input and standard-output I/O plus `encoding/xml` parsing and printing,
  which are library code. The fixed XML declaration and the tab indent are output
  formatting.
- `parseWhitelistFile` (lines 74-92) is left out because it is file I/O plus
  `encoding/json`. Two things about it are worth recording:
  - When the file cannot be opened, the code still calls `ioutil.ReadAll` on the nil
    file. `errorHandler` then ends the run. So a missing whitelist is fatal, not an
    empty whitelist.
  - The malformed-JSON fallback unmarshals `"{}"` into the same struct. That clears
    nothing, so a whitelist that was partly decoded before a type error keeps its
    decoded entries.

  The "missing or malformed whitelist behaves like an empty one" property is therefore
  not modelled. `KeptNoIssues` and `SurvivingNoIssues` state what an empty whitelist
  does.
- `errorHandler`, `log.Fatal`, flag parsing and the rest of `main` (lines 50-54 and
  141-150, except line 148) are left out as process plumbing.
- The `XMLName` fields are left out, because only the XML library uses them.
  `Failure.Message` is kept but never read: line 113 matches on `Failure.Text`.
- `Strings.Split` covers only a non-empty separator. Go's empty-separator case splits
  into UTF-8 sequences, and the program never uses it.
- Go strings are byte strings, and the model uses sequences of characters. The
  separator `"> "` is ASCII, and UTF-8 never puts ASCII bytes inside a multi-byte
  character. So splitting bytes and splitting characters give the same pieces.
- `tests` is an unbounded integer. Go's `int` cannot overflow here, because the value
  written is a slice length.
- Go returns a nil slice, not an empty one, when no suite survives. The XML output is
  the same either way, so the model does not distinguish them.
- `FilterSpec.Exempt` calls a test case without a code not exempt. The program never
  reaches that case, because it panics first. The engine methods model the panic, and
  they use the reference definitions only for input without such cases.
