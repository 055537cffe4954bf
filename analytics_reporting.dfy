/** The data holders of the Analytics Reporting API v4 client library that the data
    provider reads and writes. Every field is a Java reference, so every field that the
    library leaves unset (null) is an `Option`. Only the fields the provider touches are
    kept. */
module AnalyticsReporting {
  import opened Wrappers

  /** A reporting period; the API accepts dates `YYYY-MM-DD` and words such as `today`. */
  datatype DateRange = DateRange(startDate: Option<string>, endDate: Option<string>)

  /** A metric to compute, under a local alias that names its column in the response. */
  datatype Metric = Metric(expression: Option<string>, alias: Option<string>)

  datatype ReportRequest = ReportRequest(
    viewId: Option<string>,
    dateRanges: Option<seq<DateRange>>,
    metrics: Option<seq<Metric>>,
    filtersExpression: Option<string>)

  /** The batch envelope that `reports().batchGet` sends. */
  datatype GetReportsRequest = GetReportsRequest(reportRequests: Option<seq<ReportRequest>>)

  datatype MetricHeaderEntry = MetricHeaderEntry(name: Option<string>)

  datatype MetricHeader = MetricHeader(metricHeaderEntries: Option<seq<MetricHeaderEntry>>)

  datatype ColumnHeader = ColumnHeader(
    dimensions: Option<seq<string>>,
    metricHeader: Option<MetricHeader>)

  /** The metric values of one row for one date range, as decimal strings. */
  datatype DateRangeValues = DateRangeValues(values: Option<seq<Option<string>>>)

  datatype ReportRow = ReportRow(
    dimensions: Option<seq<string>>,
    metrics: Option<seq<DateRangeValues>>)

  datatype ReportData = ReportData(rows: Option<seq<ReportRow>>)

  datatype Report = Report(columnHeader: Option<ColumnHeader>, data: Option<ReportData>)

  datatype GetReportsResponse = GetReportsResponse(reports: Option<seq<Report>>)

  /** `new DateRange()`, `new Metric()`, `new ReportRequest()`: every field unset. */
  const NewDateRange := DateRange(None, None)
  const NewMetric := Metric(None, None)
  const NewReportRequest := ReportRequest(None, None, None, None)
}
