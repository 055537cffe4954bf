# Google Analytics report data provider: a verified model

This project models the logic of `GoogleAnalyticsReportDataProvider`, a small client of
the Analytics Reporting API v4. The client builds report requests for page views and
for file-download events, then reads two numbers from the response: the total count and
the unique count. The model covers three things:

- the request builders: the fixed date range, the two metrics aliased `count` and
  `unique`, and the filter expressions;
- the result extractor: it walks the first row's value strings by index and matches
  the metric header names against the two aliases;
- the `ViewsCount` record and its `toString` line.

The files:

- `wrappers.dfy` (`Wrappers`): `Option` stands for a reference that may be null.
  `Result` holds a value or the exception thrown instead.
- `java_lang.dfy` (`JavaLang`): Java `int` (`Int32`) and the exception kinds.
  `ParseInt` is `Integer.valueOf(String)`: an optional sign, one or more ASCII digits,
  and a value inside the `int` range. Anything else, null included, throws
  NumberFormatException. `Decimal` is the `%d` conversion.
- `analytics_reporting.dfy` (`AnalyticsReporting`): the client library's data holders
  (`DateRange`, `Metric`, `ReportRequest`, `MetricHeaderEntry`, `ColumnHeader`,
  `ReportRow`, `DateRangeValues`, `Report`, ...) as datatypes. Each field that can be
  null is an `Option`.
- `requests.dfy` (`Requests`): `defaultDateRange`, `pageRequest` and
  `downloadEventsRequest` as functions. The setter chains become record updates.
- `extraction.dfy` (`Extraction`): the extractor.
  - `ParseResponse` is the imperative method. It starts from a zero record, runs the
    source's index loop and overwrites a field at each matching index. It is proved
    equal to the function `Extract`.
  - `Extract` is the specification. `Locate` does the navigation of lines 83-99 and
    names the exception each null reference or empty list raises. `Walk` is the loop
    after its first `n` turns. `Visit` is one turn.
  - A second, declarative description says which index faults first (`FaultAt`) and
    which index wins for each alias (`LastMatch`). Lemmas connect it to `Walk`.
- `provider.dfy` (`Provider`): `countPageViews` and `countDownloadEvents`. Each builds
  a request, sends it through a service and extracts the result. The service is a
  function parameter standing for the remote call.

Every filter clause carries the API's `ga:` prefix (`ga:pagePath==`,
`ga:eventCategory==files`, `ga:eventAction==download`, `ga:eventLabel==`).

## Model

| member | source | states |
|---|---|---|
| `Requests.DefaultDateRange` | src/main/java/mmarkiew/GoogleAnalyticsReportDataProvider.java:125-131 | the range starts at `2011-09-14` and ends at `today` |
| `Requests.PageRequest` | src/main/java/mmarkiew/GoogleAnalyticsReportDataProvider.java:133-152 | fixed view id; exactly the given date range; exactly two metrics, `ga:pageviews` aliased `count` then `ga:uniquePageviews` aliased `unique`; no filter when the path is null, otherwise the filter is `ga:pagePath==` followed by exactly the path |
| `Requests.DownloadFilter` | src/main/java/mmarkiew/GoogleAnalyticsReportDataProvider.java:161-165 | the filter always begins with the two file-download clauses; what follows is empty for a null file id, or `;ga:eventLabel==` and the id |
| `Requests.DownloadEventsRequest` | src/main/java/mmarkiew/GoogleAnalyticsReportDataProvider.java:154-172 | fixed view id; exactly the given date range; exactly two metrics, `ga:totalEvents` aliased `count` then `ga:uniqueEvents` aliased `unique`; the filter is always set, to the download filter |
| `Requests.UnfilteredDownloadFilter` | src/main/java/mmarkiew/GoogleAnalyticsReportDataProvider.java:161 | with a null file id the filter is exactly `ga:eventCategory==files;ga:eventAction==download` |
| `Requests.FilteredDownloadFilter` | src/main/java/mmarkiew/GoogleAnalyticsReportDataProvider.java:161-165 | with a file id the filter is the unfiltered string, then `;ga:eventLabel==`, then the id, so the unfiltered string is a prefix |
| `Requests.PageRequestInjective` | src/main/java/mmarkiew/GoogleAnalyticsReportDataProvider.java:147-149 | two page requests over one range are equal only for the same path, null included |
| `Requests.DownloadEventsRequestInjective` | src/main/java/mmarkiew/GoogleAnalyticsReportDataProvider.java:161-169 | two download requests over one range are equal only for the same file id; the unfiltered request is never that of some id |
| `Requests.AliasesDistinct` | src/main/java/mmarkiew/GoogleAnalyticsReportDataProvider.java:35-36 | in both kinds of request the two metric aliases differ |
| `JavaLang.ParseInt` | src/main/java/mmarkiew/GoogleAnalyticsReportDataProvider.java:103 | `Integer.valueOf` fails only with NumberFormatException; on success the string is present, non-empty and ends in a digit |
| `JavaLang.ParseIntRejects` | src/main/java/mmarkiew/GoogleAnalyticsReportDataProvider.java:105 | the empty string, a lone sign and any string with a character that is neither a digit nor one leading sign are rejected |
| `JavaLang.ParseIntRejectsOverflow` | src/main/java/mmarkiew/GoogleAnalyticsReportDataProvider.java:103 | digit strings above 2^31-1, or below -2^31 with a minus sign, are rejected |
| `JavaLang.ParseIntIgnoresLeadingZeroAndPlus` | src/main/java/mmarkiew/GoogleAnalyticsReportDataProvider.java:103 | a leading zero or a leading `+` does not change the result |
| `JavaLang.ParseIntDigits` | src/main/java/mmarkiew/GoogleAnalyticsReportDataProvider.java:103 | an unsigned digit string is accepted exactly when its value is at most 2^31-1, and then it is that value |
| `JavaLang.ParseIntMinus` | src/main/java/mmarkiew/GoogleAnalyticsReportDataProvider.java:103 | a leading `-` negates the digits and admits magnitudes up to 2^31 |
| `JavaLang.Digits` | src/main/java/mmarkiew/GoogleAnalyticsReportDataProvider.java:180 | the digits `%d` prints are non-empty, all decimal, have no leading zero, and their value is the number |
| `JavaLang.Decimal` | src/main/java/mmarkiew/GoogleAnalyticsReportDataProvider.java:180 | `%d` output is non-empty, starts with `-` exactly for negative numbers, and never contains a comma |
| `JavaLang.ParseIntOfDecimal` | src/main/java/mmarkiew/GoogleAnalyticsReportDataProvider.java:103 | every `int` printed by `%d` is parsed back by `Integer.valueOf` as itself |
| `JavaLang.DecimalInjective` | src/main/java/mmarkiew/GoogleAnalyticsReportDataProvider.java:180 | different `int`s print differently |
| `Extraction.ViewsCount.ToString` | src/main/java/mmarkiew/GoogleAnalyticsReportDataProvider.java:179-181 | the line starts with the label `  count: ` |
| `Extraction.ToStringInjective` | src/main/java/mmarkiew/GoogleAnalyticsReportDataProvider.java:179-181 | two records that print the same line are equal: both numbers can be read back from the line |
| `Extraction.Locate` | src/main/java/mmarkiew/GoogleAnalyticsReportDataProvider.java:83-99 | the navigation to the first row's values, in Java's order; it throws only NullPointerException or IndexOutOfBoundsException, and stops without a table exactly when the first report's rows are null; its consequences are in `ExtractOutcome` and `ExtractFaults` |
| `Extraction.Visit` | src/main/java/mmarkiew/GoogleAnalyticsReportDataProvider.java:102-106 | one turn of the loop: it throws exactly when the index faults (`FaultAt`), with that exception; a field changes only at an index named by its alias |
| `Extraction.Walk` | src/main/java/mmarkiew/GoogleAnalyticsReportDataProvider.java:101-107 | the loop after its first `n` turns, from the zero record; it never throws the IO exception; its properties are in `WalkFault`, `WalkFields` and `WalkFailureSticks` |
| `Extraction.Extract` | src/main/java/mmarkiew/GoogleAnalyticsReportDataProvider.java:80-110 | the extractor as a value: navigation, then the whole loop; the zero record when the first report's rows are null, and never the IO exception; its properties are in `ExtractOutcome`, `WalkFault` and `WalkFields` |
| `Extraction.ParseResponse` | src/main/java/mmarkiew/GoogleAnalyticsReportDataProvider.java:80-110 | the imperative extractor returns exactly what the specification `Extract` gives: the same record or the same exception |
| `Extraction.WalkFailureSticks` | src/main/java/mmarkiew/GoogleAnalyticsReportDataProvider.java:101-107 | once a turn of the loop throws, the later turns do not run and the exception is the result |
| `Extraction.LastMatch` | src/main/java/mmarkiew/GoogleAnalyticsReportDataProvider.java:102-104 | gives the highest index below `n` whose entry is named `alias`, or none when no such index exists |
| `Extraction.WalkFault` | src/main/java/mmarkiew/GoogleAnalyticsReportDataProvider.java:101-107 | the loop fails if and only if some visited index faults (null entries, index past the entries, or a bad value at an alias), and then with the first fault's exception |
| `Extraction.WalkFields` | src/main/java/mmarkiew/GoogleAnalyticsReportDataProvider.java:101-107 | after a successful loop each field holds the parse of the value at its alias's last matching index, or 0 if its alias never matched; other names change nothing |
| `Extraction.ExtractOutcome` | src/main/java/mmarkiew/GoogleAnalyticsReportDataProvider.java:80-110 | absent rows give the zero record without error; a navigation fault gives its exception; otherwise the call succeeds if and only if no index faults, with the fields given by the last matches |
| `Extraction.ExtractFaults` | src/main/java/mmarkiew/GoogleAnalyticsReportDataProvider.java:83-99 | an empty report list throws IndexOutOfBoundsException; when the first report has its column header and metric header, a present but empty row list and a first row with no date-range values each throw it too (with a null header, line 93 runs first and throws NullPointerException) |
| `Extraction.TooFewEntriesFail` | src/main/java/mmarkiew/GoogleAnalyticsReportDataProvider.java:101-102 | fewer header entries than values fails the call |
| `Extraction.UnparsableMatchFails` | src/main/java/mmarkiew/GoogleAnalyticsReportDataProvider.java:102-105 | a value at an alias-named index that is not a 32-bit decimal integer fails the whole call |
| `Extraction.IgnoredEntryIrrelevant` | src/main/java/mmarkiew/GoogleAnalyticsReportDataProvider.java:101-107 | changing the name of an entry that matches neither alias to another such name, and changing its value to anything, does not change any prefix of the loop |
| `Extraction.LastMatchReversed` | src/main/java/mmarkiew/GoogleAnalyticsReportDataProvider.java:102-104 | when an alias names at most one entry, reversing the entries moves its match from `k` to `n-1-k` |
| `Extraction.ReverseFaults` | src/main/java/mmarkiew/GoogleAnalyticsReportDataProvider.java:101-105 | reversed parallel lists fault at some index if and only if the originals do |
| `Extraction.ReverseTogether` | src/main/java/mmarkiew/GoogleAnalyticsReportDataProvider.java:101-107 | reversing entries and values together keeps success or failure; when each alias occurs at most once it keeps the result too |
| `Extraction.ReverseWithRepeatedAlias` | src/main/java/mmarkiew/GoogleAnalyticsReportDataProvider.java:101-107 | with `count` named twice and values `1`, `2` the result has count 2, and the reversed lists give count 1: the last match wins, so reversal keeps the result only for aliases that occur once |
| `Provider.CountPageViews` | src/main/java/mmarkiew/GoogleAnalyticsReportDataProvider.java:64-70 | the page request over the default range, sent through the service, and the response extracted; it fails with the IO exception only when the remote call did; its properties are in `QueryOutcomes` and `CountPageViewsEndToEnd` |
| `Provider.CountDownloadEvents` | src/main/java/mmarkiew/GoogleAnalyticsReportDataProvider.java:72-78 | the same for the download-events request; its properties are in `QueryOutcomes` and `CountDownloadEventsEndToEnd` |
| `Provider.RequestReport` | src/main/java/mmarkiew/GoogleAnalyticsReportDataProvider.java:112-123 | the request, alone in a batch envelope, passed once to the service, whose answer is returned unchanged; it is used by `CountPageViews` and `CountDownloadEvents` |
| `Provider.ExtractTwoColumns` | src/main/java/mmarkiew/GoogleAnalyticsReportDataProvider.java:96-107 | a one-row response whose columns are `count` and `unique`, in either order, with `%d` values, yields exactly those two numbers |
| `Provider.CountPageViewsEndToEnd` | src/main/java/mmarkiew/GoogleAnalyticsReportDataProvider.java:64-70 | if the service answers the page request with a row whose columns carry the request's own aliases, the query returns those two numbers |
| `Provider.CountDownloadEventsEndToEnd` | src/main/java/mmarkiew/GoogleAnalyticsReportDataProvider.java:72-78 | the same for the download-events request |
| `Provider.QueryOutcomes` | src/main/java/mmarkiew/GoogleAnalyticsReportDataProvider.java:112-123 | a failed remote call fails both queries with the same exception; a response whose first report has null rows gives the zero count, not an error |
| `Provider.ExampleByName` | src/main/java/mmarkiew/GoogleAnalyticsReportDataProvider.java:101-107 | columns `count`,`unique` with values `42`,`7` give 42 and 7, and so do the reversed lists |
| `Provider.ExampleForeignColumn` | src/main/java/mmarkiew/GoogleAnalyticsReportDataProvider.java:101-107 | a `ga:sessions` column is ignored, even with the non-numeric value `abc` |
| `Provider.ExampleNotANumber` | src/main/java/mmarkiew/GoogleAnalyticsReportDataProvider.java:103 | the value `abc` under `count` throws NumberFormatException |
| `Provider.ExampleTooFewEntries` | src/main/java/mmarkiew/GoogleAnalyticsReportDataProvider.java:102 | one header entry and two values throw IndexOutOfBoundsException |
| `Provider.ExamplePrinted` | src/main/java/mmarkiew/GoogleAnalyticsReportDataProvider.java:179-181 | a count of 100 and a unique count of 30 print as `  count: 100, unique: 30` |

## Left out

- The constructor (lines 54-62) is not modelled. It loads credentials from a key file, sets up the TLS transport and the OAuth scope: file I/O and library calls.
- `requestReport` (lines 112-123) keeps only its shape: the request goes alone in a batch envelope to a service given as a parameter. The HTTPS call and the wall-clock latency line are not modelled.
- `debugPrintResponse` (lines 184-214) is not modelled. It prints to the console, and it can also throw (see the next line).
- Provider.CountPageViews, Provider.CountDownloadEvents: the debug dump runs before extraction. It can throw its own NullPointerException on responses that the extractor accepts, or rejects with another exception. One example is a later row with null metrics. Another is `count` holding `abc` in the first row while the second row has null metrics: Java throws NullPointerException at line 205, and the model gives NumberFormat. For such responses the model returns the extractor's result.
- `main` (lines 40-52) is not modelled. It holds fixed example calls, printing and a catch-all.
- The extractor's "No data found" console line is not modelled; only its return value is.
- The dimension code is commented out in the source (lines 139, 144), and the model leaves it out too.
- Fields of the client library's classes that the provider never touches are not modelled. Only the data fields are kept, not the classes' behaviour.
- Null elements inside lists are not modelled, except the value strings: a null report, row, date-range group or header entry. Null lists and null fields are modelled.
- JavaLang.ParseInt: accepts ASCII digits only. Java's `Character.digit` also accepts other Unicode decimal digits.
- JavaLang.ParseInt: computes the mathematical value and then checks the range. Java's accumulator instead fails as soon as a prefix overflows; both reach the same outcome.
- JavaLang.Decimal: assumes a default locale whose zero digit is `0` and whose minus sign is `-`.
- Extraction.ParseResponse: `ViewsCount` is a value here. The source writes the fields of a fresh object that nothing else sees before it is returned, so object identity is not modelled.
