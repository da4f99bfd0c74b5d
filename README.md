# vscode-xray-viewer, modelled in Dafny

The extension links a Jira/Xray test-case catalog to the test files of a workspace. Test files name
their test cases through a configurable custom method, `method("PROJ-123")`. The extension scans those
files for coverage records and fetches the catalog page by page from the Jira search API. It caches the
catalog behind a lock flag and builds a coverage report from it, either one table or one panel per epic.
It also shows the coverage in a webview panel, and offers completion items and hover links beside the
custom method.

This project models that logic and proves its properties. There is one module per source file:

| module | source file |
|---|---|
| `Utils` | `src/utils.ts` |
| `Covered` | `src/fs/covered.ts` |
| `Client` | `src/jira/client.ts` |
| `Storage` | `src/jira/storage.ts` |
| `Report` | `src/report/report.ts` |
| `ReportViewPanel` | `src/providers/ReportViewPanel.ts` |
| `CompletionProvider` | `src/providers/JiraCompletionProvider.ts` |
| `XrayUrlHover` | `src/providers/xrayUrlHover.ts` |

Three helper modules hold shared pieces:
- `Strings` has the JavaScript string built-ins. These are `trim` with JavaScript's own whitespace set, `split`, `join`, `split(sep).pop()`, `replace` with a string pattern, and `${n}` for a number.
- `Seqs` has `filter` and `Array.from(new Set(xs))`.
- `Options` has an option type.

The regular expressions the source builds are each encoded by hand, with a matcher function and a proof that the matcher agrees with the pattern's meaning. The patterns are:
- `method\("([^"]+)"\)`.
- `\[(.*?)\]`, the lazy capture.
- `^\s*\[\s*E\s*\]`, the anchored epic header, including the backtracking of its middle `\s*`.
- The escaping of syntax characters.

The model keeps the source's form:
- **Pure code.** Filters, maps and reduces are functions.
- **The line-and-file scan.** Its accumulating reduces are methods with loops, `ScanFile` and `GetCoveredTestCases`, proved against the scan functions.
- **The Jira paging loop.** It is the method `GetAllTestCases`, proved against the function `AllTestCases`.
- **The cache.** It is the class `JiraStorage`, with the fields `testCases` and `isLocked`.
- **The panel.** It is the class `CoverageReportPanel`, with the static `currentPanel` held by `PanelRegistry`. Its `dispose` is the source's pop loop.

**Inputs that stand in for I/O.** Everything the source gets from the outside world is a parameter:
- The settings are a `Config` value.
- The globbed test files and their contents are a sequence of `TestFile` values.
- HTTP answers come from an oracle. `GetAllTestCases` reads an oracle `pages`, where the `k`-th request is answered by `pages[k]` and an exhausted oracle by `undefined`. `JiraStorage.Get` takes one such oracle per fetch it may start.
- The editor line under the cursor is a `string`.

## Model

| member | source | states |
|---|---|---|
| `Utils.MatchAtSpec` | src/utils.ts:64 | At one position the matcher finds capture `x` exactly when `m("x")` occurs there with `x` non-empty and free of `"`. |
| `Utils.FirstMatch` | src/utils.ts:64-65 | `match` finds the leftmost position where the pattern matches, and nothing only when it matches nowhere. |
| `Utils.GetCustomMethodArgument` | src/utils.ts:63-68 | The argument never contains `'` or `"`. |
| `Utils.ArgumentOfNoCall` | src/utils.ts:64-67 | When the trimmed text holds no `m("x")` with a non-empty, quote-free `x`, the argument is `""`. |
| `Utils.ArgumentOfLeftmostCall` | src/utils.ts:63-68 | The argument is the capture of the leftmost `m("x")` of the trimmed text, with every quote removed. |
| `Utils.ArgumentNeedsDoubleQuotes` | src/utils.ts:64 | A text without `"`, such as the single-quoted `m('X')`, yields `""`. |
| `Utils.ArgumentOfLoneCall` | src/utils.ts:63-68 | A line that is exactly `m("x")` is its own trim, and its argument is `x`. |
| `Covered.ScanFile` | src/fs/covered.ts:35-58 | The inner reduce over one file's lines produces exactly that file's records. |
| `Covered.GetCoveredTestCases` | src/fs/covered.ts:13-65 | The method returns the modelled result: `[]` for an empty custom method; otherwise the records of all files, file by file, keeping those with a non-empty id. |
| `Covered.CoveredWithoutMethod` | src/fs/covered.ts:16-21 | An empty custom-method name gives the empty list. |
| `Covered.ScanLinesSound` | src/fs/covered.ts:35-58 | Each record of a file comes from a scanned line. Its line number is that line's 1-based index, and its id is taken from that line. |
| `Covered.ScanLinesComplete` | src/fs/covered.ts:36-56 | Every line whose trimmed text starts with the method yields its record. |
| `Covered.ScanLinesOrdered` | src/fs/covered.ts:35-58 | A file's records come in strictly increasing line order. |
| `Covered.ScanFilesSound` | src/fs/covered.ts:32-62 | Every scanned record comes from a scanned line of one of the files. |
| `Covered.CoveredSound` | src/fs/covered.ts:32-64 | Every returned record has a non-empty id. It comes from a line whose trimmed text starts with the method, at that line's 1-based index. Its id is the whole argument with `provideIdOnly`, and otherwise the last `-` segment, which holds no `-`. |
| `Covered.CoveredComplete` | src/fs/covered.ts:32-64 | Every scanned line that yields a non-empty id is in the result. |
| `Covered.ScanFilesOrdered` | src/fs/covered.ts:32-62 | The scanned records come file by file in listing order, and line by line within each file. |
| `Covered.CoveredOrdered` | src/fs/covered.ts:32-64 | The final filter keeps that file-then-line order. |
| `Client.FromConfig` | src/jira/client.ts:48-57 | The client's query is always the configured string, `""` when unset. |
| `Client.JiraQueryParts` | src/jira/client.ts:59-62 | The URL is the domain, the search path, the effective query and `&startAt=`, followed by digits that read back as the offset. |
| `Client.ConfiguredQueryIsVerbatim` | src/jira/client.ts:60 | A client built from the settings never falls back to the default query: an unset query is sent as an empty `jql=`. |
| `Client.Request` | src/jira/client.ts:64-79 | No request exactly when domain, username, API key or project is empty; otherwise the request is `jiraQuery(offset)`. |
| `Client.AllTestCasesGuard` | src/jira/client.ts:72-77 | Without the required settings the loop sends no request and collects nothing. |
| `Client.SanitizedFirstPatternFirst` | src/jira/client.ts:146-155 | The configured strings apply in order: the first one deletes its first literal occurrence from the unchanged title. |
| `Client.SanitizedShortens` | src/jira/client.ts:146-155 | Sanitising never lengthens a title. An empty list leaves it unchanged. |
| `Client.IssueParentsSpec` | src/jira/client.ts:126-140 | No parents exactly when no link's outward issue is an `Epic`. Otherwise there is one `{title, key, url}` per epic link, in link order. |
| `Client.GetAllTestCases` | src/jira/client.ts:100-198 | The method returns the test cases and requests of the modelled loop. |
| `Client.LoopStep` | src/jira/client.ts:123-183 | When the loop goes on with a non-empty page, total becomes the page's total and the offset grows by its `maxResults`. The page's issues, reduced to key, sanitised summary and url, are appended, and the request at the old offset is recorded. |
| `Client.LoopEnd` | src/jira/client.ts:123-144 | The loop stops when the offset has reached a non-zero total, or when the answer is undefined or has no issues. It then returns what it had, plus that last request. |
| `Client.StopIndexStops` | src/jira/client.ts:123-144 | The loop goes on through every page before its stop index and stops there. |
| `Client.LoopFrom` | src/jira/client.ts:123-197 | Run from any page, the loop ends with what it has gathered by its stop index. |
| `Client.AllTestCasesSpec` | src/jira/client.ts:100-198 | With the settings present, some `n` exists such that the loop went on through the first `n` pages and stopped at page `n`. The result is the concatenation of those pages' test cases in page order, with each request sent at the offset reached before it. |
| `Storage.FirstFilled` | src/jira/storage.ts:31-45 | Names the first fetch that finds test cases; every fetch before it finds none. |
| `Storage.JiraStorage.constructor` | src/jira/storage.ts:16-21 | A new cache is empty and unlocked, and `project` and `client` come from the settings. Both are `const`, so they never change afterwards. |
| `Storage.JiraStorage.Get` | src/jira/storage.ts:23-33 | A non-empty cache is returned unchanged. An empty, locked cache gives `[]` without fetching. An empty, unlocked cache fetches again after every empty fetch, each fetch under the lock. It returns the first non-empty fetched list, which the cache now holds. |
| `Storage.JiraStorage.UpdateCache` | src/jira/storage.ts:35-46 | The lock is held during the fetch and released afterwards. A non-empty fetched list replaces the cache; an empty one leaves it as it was. |
| `Storage.JiraStorage.BeginUpdate` | src/jira/storage.ts:36 | The lock is taken, and nothing else changes. |
| `Storage.JiraStorage.FinishUpdate` | src/jira/storage.ts:38-45 | The lock is released, and a non-empty list replaces the cache and comes back through `get`. |
| `Storage.UnconfiguredNeverFills` | src/jira/storage.ts:27-31 | With a required setting missing, no fetch ever finds test cases, so by `Get`'s contract an empty, unlocked cache fetches for as long as there are fetches: `get()` never returns. |
| `Storage.OverlappingGets` | src/jira/storage.ts:23-46 | A `get` made while another caller's fetch holds the lock returns `[]`. The interrupted fetch then fills the cache with its result. |
| `Report.IsCoveredSpec` | src/report/report.ts:58-60 | A test case counts as covered exactly when some record's `project + "-" + id` equals its key. |
| `Report.CoveredCasesSpec` | src/report/report.ts:58-60 | The covered list holds exactly the test cases that some record matches. |
| `Report.FindCoverageSpec` | src/report/report.ts:94-98 | `find` returns the first matching record, and finds one exactly when `some` holds. |
| `Report.Percentage` | src/report/report.ts:61-63 | `NaN` exactly when there are no test cases. Otherwise the whole number nearest to 100 times covered over total, halves rounded up; it is at most 100 when covered does not exceed total. |
| `Report.OverallPercentage` | src/report/report.ts:58-63 | Both layouts carry the same overall percentage of covered test cases. |
| `Report.ReportPercentage` | src/report/report.ts:58-63 | The covered count is at most the total. The report's percentage is `NaN` exactly for an empty catalog, and otherwise lies in [0,100] and is round-half-up of the share. |
| `Report.FirstBracket` | src/report/report.ts:76 | `\[(.*?)\]` finds the leftmost `[`, the first `]` after it and no line terminator between them. There is no match only when the pattern matches nowhere. |
| `Report.EpicOfSpec` | src/report/report.ts:76-77 | A summary's capture is that of its leftmost match, or `""` when there is none. |
| `Report.TrimmedNamesSpec` | src/report/report.ts:79-80 | The epic mentions are exactly the non-empty captures, trimmed. |
| `Report.EpicsSpec` | src/report/report.ts:74-81 | Each epic is listed once. An epic is listed exactly when some summary's capture is non-empty and trims to it. Epics come in the order of their first mention. |
| `Report.BlankBracketEpic` | src/report/report.ts:74-81 | Because empty captures are dropped before trimming, a summary opening with `[ ]` yields the epic `""`. |
| `Report.EscapeRoundTrip` | src/report/report.ts:158-159 | Escaping puts a backslash before every syntax character, and the escaped name is read back as exactly the name. |
| `Report.HeaderMatchSpec` | src/report/report.ts:164-165 | The header matcher holds exactly when the summary starts, after optional whitespace, with `[`, optional whitespace, the epic taken literally, optional whitespace and `]`. |
| `Report.TestsPerEpicSpec` | src/report/report.ts:162-166 | An epic's group keeps the catalog order. It holds exactly the tests whose summary opens with the bracketed epic. |
| `Report.NonLeadingBracketEpic` | src/report/report.ts:74-166 | `Login [Auth]` names the epic `Auth`, but the anchored pattern puts it in no group, so that epic's panel is empty with a `NaN` percentage. |
| `Report.CoverageLinksSpec` | src/report/report.ts:83-88 | A test case has a link for a record exactly when that record matches it. It has no links exactly when it is not covered. |
| `Report.CoverageLinksConcat` | src/report/report.ts:83-88 | The links follow the order of the records: a split record list gives the links of each half in turn. |
| `Report.EpicTitleSpec` | src/report/report.ts:119 | An epic row's title is the text after the last `]`, trimmed, or the whole summary trimmed when there is no `]`. |
| `Report.FlatReportRows` | src/report/report.ts:134-153 | Without grouping, the report is one table with one row per test case, in input order, holding key, browse link and summary. The coverage cell is `-` exactly when no record matches, and otherwise holds that test case's links. |
| `Report.GroupedReportSections` | src/report/report.ts:91-155 | With grouping there is one panel per epic, in epic order. A panel holds the epic's group. Each row holds the key, the browse link and the `EpicTitle` title, with `-` exactly when nothing covers the test and the test's links otherwise. The panel's percentage is the share of its tests that some record covers. |
| `Report.FindAgreesWithSome` | src/report/report.ts:94-98 | Filtering with `find` keeps the same test cases as filtering with `some`. |
| `ReportViewPanel.PanelPercentageIsReportPercentage` | src/providers/ReportViewPanel.ts:138-143 | The panel's covered count and percentage follow the report's key-matching rule. |
| `ReportViewPanel.CoverageTextSpec` | src/providers/ReportViewPanel.ts:150-165 | The coverage text is `-` exactly when nothing covers the test case. Otherwise splitting it at commas gives one marker per matching record. |
| `ReportViewPanel.MarkersCountLinks` | src/providers/ReportViewPanel.ts:150-155 | The panel has as many markers for a test case as the report has links. |
| `ReportViewPanel.PanelRowsSpec` | src/providers/ReportViewPanel.ts:157-168 | There is one row per test case, in input order, holding key, browse link and summary, with `-` exactly when no record matches. |
| `ReportViewPanel.CoverageReportPanel.constructor` | src/providers/ReportViewPanel.ts:54-83 | The new panel shows the computed view under the title `Test Coverage`, and holds three fresh, live subscriptions. |
| `ReportViewPanel.CoverageReportPanel.UpdateStats` | src/providers/ReportViewPanel.ts:105-116 | The title is reset and the content recomputed, and nothing else about the panel changes. |
| `ReportViewPanel.CoverageReportPanel.Dispose` | src/providers/ReportViewPanel.ts:85-96 | Afterwards `currentPanel` is unset, the editor panel is disposed, the disposables list is empty and every subscription it held is disposed. |
| `ReportViewPanel.PanelRegistry.CreateOrShow` | src/providers/ReportViewPanel.ts:24-45 | A current panel is revealed and kept, and no panel is created. Otherwise a fresh panel showing the view becomes current. |
| `ReportViewPanel.PanelRegistry.Revive` | src/providers/ReportViewPanel.ts:47-52 | The restored panel becomes current and shows the view. |
| `CompletionProvider.CompletionItemsSpec` | src/providers/JiraCompletionProvider.ts:13-47 | Items exist exactly when completion is enabled, the method is non-empty, the trimmed line prefix starts with it and the cache is non-empty. There is then one item per test case, in order, labelled `key + " \| " + summary`, of kind 12, inserting its `InsertText`, with only the first preselected. |
| `CompletionProvider.InsertTextSpec` | src/providers/JiraCompletionProvider.ts:41-43 | For a key `project-id`, the inserted text is `id` with `provideIdOnly`, and `domain/browse/project-id` otherwise. |
| `CompletionProvider.ScannedCompletionCovers` | src/providers/JiraCompletionProvider.ts:41-43 | A line `m("…")` around an inserted text is scanned, its id is the test case's id, and the record covers that test case, in both modes. |
| `XrayUrlHover.HoverSpec` | src/providers/xrayUrlHover.ts:9-39 | A hover exists exactly when hovering is enabled, the trimmed line starts with the method (always true for an empty method) and the argument is non-empty. It is `domain/browse/project-arg` with `provideIdOnly`, and the argument itself otherwise. |
| `XrayUrlHover.HoverOfInsertedItem` | src/providers/xrayUrlHover.ts:9-39 | A line calling the method on a completion item's inserted text hovers that test case's browse URL, in both modes. |

## Left out

- Host-editor plumbing is not modelled: the error pop-up for missing settings and the warning for an empty custom method, progress notifications, webview creation and messaging, provider registration, `config()` reading and the reload prompt in `src/utils.ts`. The settings are a `Config` parameter whose unset entries already hold their defaults.
- I/O is not modelled: HTTP through `got`, `glob` and `fs.readFile`. The files are a parameter and the HTTP answers an oracle.
- The Basic-auth token is not modelled. It is the Base64 of `username:apiKey` (section 4 of RFC 4648), sent in the header of section 2 of RFC 7617, and both are foreign library calls.
- The progress increments of `getAllTestCases` are not modelled: they use floating point and only drive the UI.
- The issue description and the issue parents are not carried over. `getAllTestCases` computes them per issue and then drops them before pushing. `IssueParents` models `getIssueParents` on its own.
- HTTP failures and thrown exceptions are not modelled. A response is a page or `undefined`.
- Report.Percentage: `Math.round(c / t * 100)` is modelled on exact rationals. A floating-point quotient that lands just below a half could round differently. The `NaN` of an empty list is modelled rather than excluded.
- The HTML of the report and the panel is not modelled. Header, footer, styles and markup are kept structurally as rows, cells and sections. That the output is header, body and ending in this order is therefore not stated.
- The custom method is treated as literal text. The source interpolates it into a `RegExp` unescaped, so a method name with syntax characters would act as a pattern.
- Strings are sequences of Unicode scalar values, not UTF-16 code units.
- Storage.JiraStorage.Get: the model cannot loop forever, so it returns `None` when its fetch oracles run out before a fetch finds test cases. The source, from an empty and unlocked cache, keeps fetching while fetches come back empty.
- Client.GetAllTestCases: the oracle is finite, so the loop always ends. The source requests forever if every page is non-empty while `maxResults` is 0 and the offset stays below the total, or while every page reports a `total` of 0.
- The async scheduling of `get` and `updateCache` is not modelled. The lock is explicit state: `BeginUpdate` and `FinishUpdate` are the two halves of `updateCache` around the fetch, and `OverlappingGets` runs one interleaving.
- `_update` is not modelled. It awaits the cache and the scan, so `UpdateStats` takes their results as parameters. The view-state listener that calls it again is one of the registered subscriptions.
- The view column and the webview options of `createOrShow` are not modelled.
- `JiraTestCase` is declared in `Client`, not `Storage`: `client.ts` and `storage.ts` import each other, and Dafny modules cannot.
- `src/extension.ts` is not part of this model: it only registers commands and providers.
- ReportViewPanel.CoverageReportPanel.Dispose: `dispose` unsets `currentPanel` even when another panel has become current since. The model keeps that behaviour and claims nothing about it.
