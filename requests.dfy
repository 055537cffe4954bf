/** The report requests the provider sends: one fixed date range, two metrics aliased
    `count` and `unique`, and a filter expression in the API's filter syntax (`==` for
    exact match, `;` for AND). */
module Requests {
  import opened Wrappers
  import opened AnalyticsReporting

  /** The view every request targets (a placeholder the deployer replaces). */
  const VIEW_ID := "ga:{TODO_ID_PASTE_HERE}"

  /** The two aliases; they are the only key by which values are found again. */
  const ALIAS_COUNT := "count"
  const ALIAS_UNIQUE := "unique"

  const START_DATE := "2011-09-14"
  const END_DATE := "today"

  const PAGE_PATH_FILTER := "ga:pagePath=="
  const DOWNLOAD_FILTER := "ga:eventCategory==files;ga:eventAction==download"
  const EVENT_LABEL_FILTER := ";ga:eventLabel=="

  /** The reporting period of every query: from the hard-coded start date to today. */
  function DefaultDateRange(): (d: DateRange)
    ensures d.startDate == Some(START_DATE) && d.endDate == Some(END_DATE)
  {
    NewDateRange.(startDate := Some(START_DATE)).(endDate := Some(END_DATE))
  }

  /** What both builders promise about a request: the fixed view, exactly the one
      given date range, and exactly two metrics, `countExpr` aliased `count` first
      and `uniqueExpr` aliased `unique` second. */
  ghost predicate Shaped(r: ReportRequest, dateRange: DateRange, countExpr: string, uniqueExpr: string)
  {
    && r.viewId == Some(VIEW_ID)
    && r.dateRanges.Some? && |r.dateRanges.value| == 1 && r.dateRanges.value[0] == dateRange
    && r.metrics.Some? && |r.metrics.value| == 2
    && r.metrics.value[0] == Metric(Some(countExpr), Some(ALIAS_COUNT))
    && r.metrics.value[1] == Metric(Some(uniqueExpr), Some(ALIAS_UNIQUE))
  }

  /** `pageRequest`: page views and unique page views, restricted to one page path
      when a path is given. */
  function PageRequest(dateRange: DateRange, path: Option<string>): (r: ReportRequest)
    ensures Shaped(r, dateRange, "ga:pageviews", "ga:uniquePageviews")
    ensures path.None? <==> r.filtersExpression.None?
    ensures path.Some? ==> |r.filtersExpression.value| >= |PAGE_PATH_FILTER|
    ensures path.Some? ==> r.filtersExpression.value[..|PAGE_PATH_FILTER|] == PAGE_PATH_FILTER
    ensures path.Some? ==> r.filtersExpression.value[|PAGE_PATH_FILTER|..] == path.value
  {
    var pageviews := NewMetric.(expression := Some("ga:pageviews")).(alias := Some(ALIAS_COUNT));
    var uniquePageviews := NewMetric.(expression := Some("ga:uniquePageviews")).(alias := Some(ALIAS_UNIQUE));
    var request := NewReportRequest
      .(viewId := Some(VIEW_ID))
      .(dateRanges := Some([dateRange]))
      .(metrics := Some([pageviews, uniquePageviews]));
    if path.Some? then request.(filtersExpression := Some(PAGE_PATH_FILTER + path.value))
    else request
  }

  /** The filter of `downloadEventsRequest`, as its StringBuilder assembles it: always
      the file-download clauses, then an event-label clause when a file id is given. */
  function DownloadFilter(fileId: Option<string>): (f: string)
    ensures |f| >= |DOWNLOAD_FILTER| && f[..|DOWNLOAD_FILTER|] == DOWNLOAD_FILTER
    ensures f[|DOWNLOAD_FILTER|..] == if fileId.None? then "" else EVENT_LABEL_FILTER + fileId.value
  {
    var expression := DOWNLOAD_FILTER;
    if fileId.Some? then expression + EVENT_LABEL_FILTER + fileId.value else expression
  }

  /** `downloadEventsRequest`: total and unique events of the file-download category,
      restricted to one file id when one is given. */
  function DownloadEventsRequest(dateRange: DateRange, fileId: Option<string>): (r: ReportRequest)
    ensures Shaped(r, dateRange, "ga:totalEvents", "ga:uniqueEvents")
    ensures r.filtersExpression == Some(DownloadFilter(fileId))
  {
    var totalEvents := NewMetric.(expression := Some("ga:totalEvents")).(alias := Some(ALIAS_COUNT));
    var uniqueEvents := NewMetric.(expression := Some("ga:uniqueEvents")).(alias := Some(ALIAS_UNIQUE));
    NewReportRequest
      .(viewId := Some(VIEW_ID))
      .(filtersExpression := Some(DownloadFilter(fileId)))
      .(dateRanges := Some([dateRange]))
      .(metrics := Some([totalEvents, uniqueEvents]))
  }

  /** The unfiltered download filter is exactly the two fixed clauses. */
  lemma UnfilteredDownloadFilter()
    ensures DownloadFilter(None) == DOWNLOAD_FILTER
  {
  }

  /** With a file id the filter is the unfiltered one followed by the label clause. */
  lemma FilteredDownloadFilter(fileId: string)
    ensures DownloadFilter(Some(fileId)) == DownloadFilter(None) + EVENT_LABEL_FILTER + fileId
  {
  }

  /** Different paths give different requests, so a page filter names one path. */
  lemma PageRequestInjective(dateRange: DateRange, p: Option<string>, q: Option<string>)
    ensures PageRequest(dateRange, p) == PageRequest(dateRange, q) ==> p == q
  {
  }

  /** Different file ids give different requests, and the unfiltered request is never
      the request for some file id. */
  lemma DownloadEventsRequestInjective(dateRange: DateRange, f: Option<string>, g: Option<string>)
    ensures DownloadEventsRequest(dateRange, f) == DownloadEventsRequest(dateRange, g) ==> f == g
  {
    if DownloadEventsRequest(dateRange, f) == DownloadEventsRequest(dateRange, g) {
      var tail := DownloadFilter(f)[|DOWNLOAD_FILTER|..];
      if f.Some? && g.Some? {
        assert f.value == tail[|EVENT_LABEL_FILTER|..];
        assert g.value == tail[|EVENT_LABEL_FILTER|..];
      }
    }
  }

  /** In both kinds of request the two aliases are distinct, so each value of the
      response can be attributed to one metric. */
  lemma AliasesDistinct(dateRange: DateRange, path: Option<string>, fileId: Option<string>)
    ensures PageRequest(dateRange, path).metrics.value[0].alias != PageRequest(dateRange, path).metrics.value[1].alias
    ensures DownloadEventsRequest(dateRange, fileId).metrics.value[0].alias
         != DownloadEventsRequest(dateRange, fileId).metrics.value[1].alias
  {
  }
}
