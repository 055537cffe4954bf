/** The two public queries of the data provider: build a request, send it through the
    remote reporting service, and extract the counts from the response. The service
    (HTTPS, credentials, latency logging) is a parameter. */
module Provider {
  import opened Wrappers
  import opened JavaLang
  import opened AnalyticsReporting
  import opened Requests
  import opened Extraction

  /** `reports().batchGet(...).execute()`: a response, or the IO exception it throws. */
  type Service = GetReportsRequest -> Result<GetReportsResponse, Exception>

  /** `requestReport`: the request, alone in a batch envelope, sent once. */
  function RequestReport(service: Service, request: ReportRequest): Result<GetReportsResponse, Exception>
  {
    service(GetReportsRequest(Some([request])))
  }

  /** `countPageViews`: page views over the default range, for one path or for all. */
  function CountPageViews(service: Service, path: Option<string>): (r: Result<ViewsCount, Exception>)
    ensures r.Failure? && r.error == IO ==> RequestReport(service, PageRequest(DefaultDateRange(), path)).Failure?
  {
    match RequestReport(service, PageRequest(DefaultDateRange(), path))
    case Failure(e) => Failure(e)
    case Success(response) => Extract(response)
  }

  /** `countDownloadEvents`: file downloads over the default range, for one file or for all. */
  function CountDownloadEvents(service: Service, fileId: Option<string>): (r: Result<ViewsCount, Exception>)
    ensures r.Failure? && r.error == IO ==> RequestReport(service, DownloadEventsRequest(DefaultDateRange(), fileId)).Failure?
  {
    match RequestReport(service, DownloadEventsRequest(DefaultDateRange(), fileId))
    case Failure(e) => Failure(e)
    case Success(response) => Extract(response)
  }

  /** A response of one report with one row: header entries named `names` and, for the
      single date range, the value strings `values`. */
  function SingleRowResponse(names: seq<Option<string>>, values: seq<Option<string>>): (r: GetReportsResponse)
    ensures Locate(r) == Success(Table(Some(EntriesNamed(names)), values))
  {
    var entries := EntriesNamed(names);
    var header := ColumnHeader(None, Some(MetricHeader(Some(entries))));
    var row := ReportRow(None, Some([DateRangeValues(Some(values))]));
    GetReportsResponse(Some([Report(Some(header), Some(ReportData(Some([row]))))]))
  }

  function EntriesNamed(names: seq<Option<string>>): (entries: seq<MetricHeaderEntry>)
    ensures |entries| == |names| && forall i :: 0 <= i < |names| ==> entries[i] == MetricHeaderEntry(names[i])
  {
    seq(|names|, i requires 0 <= i < |names| => MetricHeaderEntry(names[i]))
  }

  /** The names the service gives the metric columns of `request`: its aliases. */
  function AliasNames(request: ReportRequest): seq<Option<string>>
  {
    if request.metrics.None? then []
    else seq(|request.metrics.value|, i requires 0 <= i < |request.metrics.value| => request.metrics.value[i].alias)
  }

  /** A response that names its two columns `count` and `unique`, in either order, and
      carries each as printed by `%d`, is read back as exactly those two numbers. */
  lemma ExtractTwoColumns(c: Int32, u: Int32)
    ensures Extract(SingleRowResponse([Some(ALIAS_COUNT), Some(ALIAS_UNIQUE)], [Some(Decimal(c)), Some(Decimal(u))]))
         == Success(ViewsCount(c, u))
    ensures Extract(SingleRowResponse([Some(ALIAS_UNIQUE), Some(ALIAS_COUNT)], [Some(Decimal(u)), Some(Decimal(c))]))
         == Success(ViewsCount(c, u))
  {
    ParseIntOfDecimal(c);
    ParseIntOfDecimal(u);
    var countEntry, uniqueEntry := MetricHeaderEntry(Some(ALIAS_COUNT)), MetricHeaderEntry(Some(ALIAS_UNIQUE));
    var values := [Some(Decimal(c)), Some(Decimal(u))];
    assert EntriesNamed([Some(ALIAS_COUNT), Some(ALIAS_UNIQUE)]) == [countEntry, uniqueEntry];
    assert Walk(Some([countEntry, uniqueEntry]), values, 1) == Success(ViewsCount(c, 0));
    var swapped := [Some(Decimal(u)), Some(Decimal(c))];
    assert EntriesNamed([Some(ALIAS_UNIQUE), Some(ALIAS_COUNT)]) == [uniqueEntry, countEntry];
    assert Walk(Some([uniqueEntry, countEntry]), swapped, 1) == Success(ViewsCount(0, u));
  }

  /** The aliases each builder puts on its request are the names the extractor looks
      for: a service that answers with the request's own column names and two numbers
      yields exactly those numbers as count and unique. */
  lemma CountPageViewsEndToEnd(service: Service, path: Option<string>, c: Int32, u: Int32)
    requires RequestReport(service, PageRequest(DefaultDateRange(), path))
          == Success(SingleRowResponse(AliasNames(PageRequest(DefaultDateRange(), path)),
                                       [Some(Decimal(c)), Some(Decimal(u))]))
    ensures CountPageViews(service, path) == Success(ViewsCount(c, u))
  {
    assert AliasNames(PageRequest(DefaultDateRange(), path)) == [Some(ALIAS_COUNT), Some(ALIAS_UNIQUE)];
    ExtractTwoColumns(c, u);
  }

  lemma CountDownloadEventsEndToEnd(service: Service, fileId: Option<string>, c: Int32, u: Int32)
    requires RequestReport(service, DownloadEventsRequest(DefaultDateRange(), fileId))
          == Success(SingleRowResponse(AliasNames(DownloadEventsRequest(DefaultDateRange(), fileId)),
                                       [Some(Decimal(c)), Some(Decimal(u))]))
    ensures CountDownloadEvents(service, fileId) == Success(ViewsCount(c, u))
  {
    assert AliasNames(DownloadEventsRequest(DefaultDateRange(), fileId)) == [Some(ALIAS_COUNT), Some(ALIAS_UNIQUE)];
    ExtractTwoColumns(c, u);
  }

  /** A failed remote call fails the query with the same exception, and a report
      without rows is the zero count, not an error. */
  lemma QueryOutcomes(service: Service, path: Option<string>, fileId: Option<string>)
    ensures RequestReport(service, PageRequest(DefaultDateRange(), path)).Failure? ==>
      CountPageViews(service, path) == Failure(RequestReport(service, PageRequest(DefaultDateRange(), path)).error)
    ensures RequestReport(service, DownloadEventsRequest(DefaultDateRange(), fileId)).Failure? ==>
      CountDownloadEvents(service, fileId)
        == Failure(RequestReport(service, DownloadEventsRequest(DefaultDateRange(), fileId)).error)
    ensures (RequestReport(service, PageRequest(DefaultDateRange(), path)).Success? &&
             FirstRowsAbsent(RequestReport(service, PageRequest(DefaultDateRange(), path)).value)) ==>
      CountPageViews(service, path) == Success(ZERO)
    ensures (RequestReport(service, DownloadEventsRequest(DefaultDateRange(), fileId)).Success? &&
             FirstRowsAbsent(RequestReport(service, DownloadEventsRequest(DefaultDateRange(), fileId)).value)) ==>
      CountDownloadEvents(service, fileId) == Success(ZERO)
  {
  }

  /** The worked examples: values found by name in either order, a foreign column
      ignored, a non-numeric value an error, too few header entries an error. */
  lemma ExampleByName()
    ensures Extract(SingleRowResponse([Some("count"), Some("unique")], [Some("42"), Some("7")])) == Success(ViewsCount(42, 7))
    ensures Extract(SingleRowResponse([Some("unique"), Some("count")], [Some("7"), Some("42")])) == Success(ViewsCount(42, 7))
  {
    assert Decimal(42) == "42" && Decimal(7) == "7";
    ExtractTwoColumns(42, 7);
  }

  lemma ExampleForeignColumn()
    ensures Extract(SingleRowResponse([Some("ga:sessions"), Some("count")], [Some("abc"), Some("5")])) == Success(ViewsCount(5, 0))
  {
    var entries := Some([MetricHeaderEntry(Some("ga:sessions")), MetricHeaderEntry(Some("count"))]);
    var values := [Some("abc"), Some("5")];
    assert EntriesNamed([Some("ga:sessions"), Some("count")]) == entries.value;
    assert Decimal(5) == "5";
    ParseIntOfDecimal(5);
    assert Walk(entries, values, 1) == Success(ZERO);
  }

  lemma ExampleNotANumber()
    ensures Extract(SingleRowResponse([Some("count"), Some("unique")], [Some("abc"), Some("7")])) == Failure(NumberFormat)
  {
    var entries := Some([MetricHeaderEntry(Some("count")), MetricHeaderEntry(Some("unique"))]);
    var values := [Some("abc"), Some("7")];
    assert EntriesNamed([Some("count"), Some("unique")]) == entries.value;
    ParseIntRejects("abc", 0);
    assert Walk(entries, values, 1) == Failure(NumberFormat);
  }

  lemma ExampleTooFewEntries()
    ensures Extract(SingleRowResponse([Some("count")], [Some("1"), Some("2")])) == Failure(IndexOutOfBounds)
  {
    var entries := Some([MetricHeaderEntry(Some("count"))]);
    var values := [Some("1"), Some("2")];
    assert EntriesNamed([Some("count")]) == entries.value;
    assert Decimal(1) == "1";
    ParseIntOfDecimal(1);
    assert Walk(entries, values, 1) == Success(ViewsCount(1, 0));
  }

  /** The line the entry point prints for a count of 100 and a unique count of 30. */
  lemma ExamplePrinted()
    ensures ViewsCount(100, 30).ToString() == "  count: 100, unique: 30"
  {
  }
}
