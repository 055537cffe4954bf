/** The result extractor: reads the `count` and `unique` values of the first row of
    the first report, by matching the metric header entries' names against the two
    aliases, and parses them as `int`s. */
module Extraction {
  import opened Wrappers
  import opened JavaLang
  import opened AnalyticsReporting
  import opened Requests

  /** The only result type of the provider; both fields start at 0. */
  datatype ViewsCount = ViewsCount(count: Int32, unique: Int32)
  {
    /** `toString`: `String.format("  count: %d, unique: %d", count, unique)`. */
    function ToString(): (s: string)
      ensures |s| > 9 && s[..9] == "  count: "
    {
      "  count: " + Decimal(count) + ", unique: " + Decimal(unique)
    }
  }

  const ZERO := ViewsCount(0, 0)

  /** The first index of `c` in `s`, or `|s|` when there is none. */
  function FirstIndexOf(s: string, c: char): (k: nat)
    ensures k <= |s| && (k < |s| ==> s[k] == c)
    ensures forall i :: 0 <= i < k ==> s[i] != c
  {
    if s == [] || s[0] == c then 0 else 1 + FirstIndexOf(s[1..], c)
  }

  /** Splitting at the first character of a separator that the left parts lack. */
  lemma SplitAtSeparator(x1: string, y1: string, x2: string, y2: string, sep: string)
    requires |sep| > 0
    requires forall i :: 0 <= i < |x1| ==> x1[i] != sep[0]
    requires forall i :: 0 <= i < |x2| ==> x2[i] != sep[0]
    requires x1 + sep + y1 == x2 + sep + y2
    ensures x1 == x2 && y1 == y2
  {
    var s := x1 + sep + y1;
    var k := FirstIndexOf(s, sep[0]);
    assert s[|x1|] == sep[0] && (x2 + sep + y2)[|x2|] == sep[0];
    assert k == |x1| && k == |x2|;
    assert x1 == s[..|x1|] && x2 == (x2 + sep + y2)[..|x2|];
    assert y1 == s[|x1| + |sep|..] && y2 == (x2 + sep + y2)[|x2| + |sep|..];
  }

  /** Two different counts never print the same line. */
  lemma ToStringInjective(a: ViewsCount, b: ViewsCount)
    ensures a.ToString() == b.ToString() ==> a == b
  {
    if a.ToString() == b.ToString() {
      var sep := ", unique: ";
      assert a.ToString()[9..] == Decimal(a.count) + sep + Decimal(a.unique);
      assert b.ToString()[9..] == Decimal(b.count) + sep + Decimal(b.unique);
      SplitAtSeparator(Decimal(a.count), Decimal(a.unique), Decimal(b.count), Decimal(b.unique), sep);
      DecimalInjective(a.count, b.count);
      DecimalInjective(a.unique, b.unique);
    }
  }

  /** The first report is there, with its data, and its row list is null. */
  predicate FirstRowsAbsent(response: GetReportsResponse)
  {
    && response.reports.Some? && |response.reports.value| > 0
    && response.reports.value[0].data.Some?
    && response.reports.value[0].data.value.rows.None?
  }

  /** Where the extractor's loop runs: the first report found without rows, or the
      header entries (possibly null) and the value strings of the first row's first
      date range. */
  datatype Located =
    | NoRows
    | Table(entries: Option<seq<MetricHeaderEntry>>, values: seq<Option<string>>)

  /** The navigation of lines 83-99, in the order Java evaluates it, with the exception
      each null reference or empty list raises. */
  function Locate(response: GetReportsResponse): (r: Result<Located, Exception>)
    ensures r.Failure? ==> r.error == NullPointer || r.error == IndexOutOfBounds
    ensures r == Success(NoRows) <==> FirstRowsAbsent(response)
  {
    match response.reports
    case None => Failure(NullPointer)
    case Some(reports) =>
      if |reports| == 0 then Failure(IndexOutOfBounds)
      else
        var report := reports[0];
        match report.data
        case None => Failure(NullPointer)
        case Some(data) =>
          match data.rows
          case None => Success(NoRows)
          case Some(rows) =>
            match report.columnHeader
            case None => Failure(NullPointer)
            case Some(header) =>
              match header.metricHeader
              case None => Failure(NullPointer)
              case Some(metricHeader) =>
                if |rows| == 0 then Failure(IndexOutOfBounds)
                else
                  match rows[0].metrics
                  case None => Failure(NullPointer)
                  case Some(metrics) =>
                    if |metrics| == 0 then Failure(IndexOutOfBounds)
                    else
                      match metrics[0].values
                      case None => Failure(NullPointer)
                      case Some(values) => Success(Table(metricHeader.metricHeaderEntries, values))
  }

  /** One turn of the loop at index `i`: `entries.get(i).getName()` compared with the
      aliases, and the matching field set to `Integer.valueOf(values.get(i))`. */
  function Visit(entries: Option<seq<MetricHeaderEntry>>, values: seq<Option<string>>, i: nat, vc: ViewsCount)
    : (r: Result<ViewsCount, Exception>)
    requires i < |values|
    ensures r.Failure? <==> FaultAt(entries, values, i).Some?
    ensures r.Failure? ==> r.error == FaultAt(entries, values, i).value
    ensures r.Success? && NameAt(entries, i) != Some(ALIAS_COUNT) ==> r.value.count == vc.count
    ensures r.Success? && NameAt(entries, i) != Some(ALIAS_UNIQUE) ==> r.value.unique == vc.unique
  {
    if entries.None? then Failure(NullPointer)
    else if i >= |entries.value| then Failure(IndexOutOfBounds)
    else if entries.value[i].name == Some(ALIAS_COUNT) then
      match ParseInt(values[i])
      case Failure(e) => Failure(e)
      case Success(v) => Success(vc.(count := v))
    else if entries.value[i].name == Some(ALIAS_UNIQUE) then
      match ParseInt(values[i])
      case Failure(e) => Failure(e)
      case Success(v) => Success(vc.(unique := v))
    else Success(vc)
  }

  /** The loop after its first `n` turns, starting from the zero record. */
  function Walk(entries: Option<seq<MetricHeaderEntry>>, values: seq<Option<string>>, n: nat)
    : (r: Result<ViewsCount, Exception>)
    requires n <= |values|
    ensures r.Failure? ==> r.error != IO
  {
    if n == 0 then Success(ZERO)
    else
      match Walk(entries, values, n - 1)
      case Failure(e) => Failure(e)
      case Success(vc) => Visit(entries, values, n - 1, vc)
  }

  /** `parseResponseForRequestsFromThisClass`, as a value. */
  function Extract(response: GetReportsResponse): (r: Result<ViewsCount, Exception>)
    ensures r.Failure? ==> r.error != IO
    ensures FirstRowsAbsent(response) ==> r == Success(ZERO)
  {
    match Locate(response)
    case Failure(e) => Failure(e)
    case Success(NoRows) => Success(ZERO)
    case Success(Table(entries, values)) => Walk(entries, values, |values|)
  }

  /** Once a turn of the loop has thrown, the rest of the loop never runs. */
  lemma {:induction false} WalkFailureSticks(entries: Option<seq<MetricHeaderEntry>>, values: seq<Option<string>>, n: nat, m: nat)
    requires n <= m <= |values|
    requires Walk(entries, values, n).Failure?
    ensures Walk(entries, values, m) == Walk(entries, values, n)
  {
    if n < m {
      WalkFailureSticks(entries, values, n, m - 1);
    }
  }

  /** `parseResponseForRequestsFromThisClass`: a fresh zero record whose fields the loop
      over the value strings overwrites; an exception ends the call with no result. */
  method ParseResponse(response: GetReportsResponse) returns (r: Result<ViewsCount, Exception>)
    ensures r == Extract(response)
  {
    var viewsCount := ZERO;
    if response.reports.None? { return Failure(NullPointer); }
    var reports := response.reports.value;
    if |reports| == 0 { return Failure(IndexOutOfBounds); }
    var report := reports[0];
    if report.data.None? { return Failure(NullPointer); }
    var rows := report.data.value.rows;
    if rows.None? {
      return Success(viewsCount);
    }
    if report.columnHeader.None? || report.columnHeader.value.metricHeader.None? {
      return Failure(NullPointer);
    }
    var entries := report.columnHeader.value.metricHeader.value.metricHeaderEntries;
    if |rows.value| == 0 { return Failure(IndexOutOfBounds); }
    var metrics := rows.value[0].metrics;
    if metrics.None? { return Failure(NullPointer); }
    if |metrics.value| == 0 { return Failure(IndexOutOfBounds); }
    if metrics.value[0].values.None? { return Failure(NullPointer); }
    var values := metrics.value[0].values.value;

    var i := 0;
    while i < |values|
      invariant 0 <= i <= |values|
      invariant Walk(entries, values, i) == Success(viewsCount)
    {
      var failure := None;
      if entries.None? {
        failure := Some(NullPointer);
      } else if i >= |entries.value| {
        failure := Some(IndexOutOfBounds);
      } else {
        var name := entries.value[i].name;
        if name == Some(ALIAS_COUNT) {
          var parsed := ParseInt(values[i]);
          if parsed.Failure? {
            failure := Some(parsed.error);
          } else {
            viewsCount := viewsCount.(count := parsed.value);
          }
        } else if name == Some(ALIAS_UNIQUE) {
          var parsed := ParseInt(values[i]);
          if parsed.Failure? {
            failure := Some(parsed.error);
          } else {
            viewsCount := viewsCount.(unique := parsed.value);
          }
        }
      }
      if failure.Some? {
        WalkFailureSticks(entries, values, i + 1, |values|);
        return Failure(failure.value);
      }
      i := i + 1;
    }
    return Success(viewsCount);
  }

  // ---------------------------------------------------------------------------
  // A reference description of the loop: which index fails, which index wins.

  predicate IsAlias(name: Option<string>)
  {
    name == Some(ALIAS_COUNT) || name == Some(ALIAS_UNIQUE)
  }

  /** The name of header entry `i`, or None where there is none to read. */
  function NameAt(entries: Option<seq<MetricHeaderEntry>>, i: nat): Option<string>
  {
    if entries.Some? && i < |entries.value| then entries.value[i].name else None
  }

  /** The exception visiting index `i` would raise, whatever the fields hold. */
  function FaultAt(entries: Option<seq<MetricHeaderEntry>>, values: seq<Option<string>>, i: nat): Option<Exception>
    requires i < |values|
  {
    if entries.None? then Some(NullPointer)
    else if i >= |entries.value| then Some(IndexOutOfBounds)
    else if IsAlias(entries.value[i].name) && ParseInt(values[i]).Failure? then Some(NumberFormat)
    else None
  }

  /** The highest index below `n` whose entry carries the name `alias`. */
  function LastMatch(entries: Option<seq<MetricHeaderEntry>>, alias: string, n: nat): (k: Option<nat>)
    ensures k.Some? ==> k.value < n && NameAt(entries, k.value) == Some(alias)
    ensures k.Some? ==> forall j :: k.value < j < n ==> NameAt(entries, j) != Some(alias)
    ensures k.None? ==> forall j :: 0 <= j < n ==> NameAt(entries, j) != Some(alias)
  {
    if n == 0 then None
    else if NameAt(entries, n - 1) == Some(alias) then Some(n - 1)
    else LastMatch(entries, alias, n - 1)
  }

  /** Field value `v` is what the loop's first `n` turns leave for `alias`: 0 when no
      entry matched, else the parse of the value at the last matching index. */
  ghost predicate FieldIs(entries: Option<seq<MetricHeaderEntry>>, values: seq<Option<string>>, n: nat, alias: string, v: int)
    requires n <= |values|
  {
    match LastMatch(entries, alias, n)
    case None => v == 0
    case Some(k) => ParseInt(values[k]) == Success(v)
  }

  /** The loop fails exactly when some index faults, and then with the first fault. */
  lemma {:induction false} WalkFault(entries: Option<seq<MetricHeaderEntry>>, values: seq<Option<string>>, n: nat)
    requires n <= |values|
    ensures Walk(entries, values, n).Failure? <==> exists i :: 0 <= i < n && FaultAt(entries, values, i).Some?
    ensures Walk(entries, values, n).Failure? ==>
      exists i :: 0 <= i < n && FaultAt(entries, values, i) == Some(Walk(entries, values, n).error) &&
        forall j :: 0 <= j < i ==> FaultAt(entries, values, j).None?
  {
    if n > 0 {
      WalkFault(entries, values, n - 1);
      if Walk(entries, values, n - 1).Success? {
        var vc := Walk(entries, values, n - 1).value;
        assert Visit(entries, values, n - 1, vc).Failure? <==> FaultAt(entries, values, n - 1).Some?;
        if Visit(entries, values, n - 1, vc).Failure? {
          assert FaultAt(entries, values, n - 1) == Some(Walk(entries, values, n).error);
        }
      }
    }
  }

  /** When the loop succeeds, each field holds the value of its alias's last match,
      or 0: names other than the two aliases change nothing, and the last match wins. */
  lemma {:induction false} WalkFields(entries: Option<seq<MetricHeaderEntry>>, values: seq<Option<string>>, n: nat)
    requires n <= |values|
    requires Walk(entries, values, n).Success?
    ensures FieldIs(entries, values, n, ALIAS_COUNT, Walk(entries, values, n).value.count)
    ensures FieldIs(entries, values, n, ALIAS_UNIQUE, Walk(entries, values, n).value.unique)
  {
    if n > 0 {
      WalkFields(entries, values, n - 1);
      assert NameAt(entries, n - 1) == entries.value[n - 1].name;
    }
  }

  /** What the extractor returns, in terms of the located table: the zero record when
      the report has no rows, the navigation's exception, or the reference
      description above. */
  lemma ExtractOutcome(response: GetReportsResponse)
    ensures Locate(response) == Success(NoRows) ==> Extract(response) == Success(ZERO)
    ensures Locate(response).Failure? ==> Extract(response) == Failure(Locate(response).error)
    ensures Locate(response).Success? && Locate(response).value.Table? ==>
      var t := Locate(response).value;
      (Extract(response).Success? <==> forall i :: 0 <= i < |t.values| ==> FaultAt(t.entries, t.values, i).None?) &&
      (Extract(response).Success? ==>
         FieldIs(t.entries, t.values, |t.values|, ALIAS_COUNT, Extract(response).value.count) &&
         FieldIs(t.entries, t.values, |t.values|, ALIAS_UNIQUE, Extract(response).value.unique))
  {
    if Locate(response).Success? && Locate(response).value.Table? {
      var t := Locate(response).value;
      WalkFault(t.entries, t.values, |t.values|);
      if Extract(response).Success? {
        WalkFields(t.entries, t.values, |t.values|);
      }
    }
  }

  /** The failures of the navigation: an empty report list, an empty row list, a
      first row with an empty list of date-range values. */
  lemma ExtractFaults(response: GetReportsResponse, report: Report, header: ColumnHeader, metricHeader: MetricHeader)
    requires response.reports.Some? && |response.reports.value| > 0 ==> response.reports.value[0] == report
    requires report.columnHeader == Some(header) && header.metricHeader == Some(metricHeader)
    ensures response.reports == Some([]) ==> Extract(response) == Failure(IndexOutOfBounds)
    ensures response.reports.Some? && |response.reports.value| > 0 && report.data == Some(ReportData(Some([]))) ==>
      Extract(response) == Failure(IndexOutOfBounds)
    ensures (response.reports.Some? && |response.reports.value| > 0 &&
             report.data.Some? && report.data.value.rows.Some? && |report.data.value.rows.value| > 0 &&
             report.data.value.rows.value[0].metrics == Some([])) ==>
      Extract(response) == Failure(IndexOutOfBounds)
  {
  }

  /** Fewer header entries than values: `entries.get(i)` throws, unless the loop
      has already stopped at an earlier index. */
  lemma TooFewEntriesFail(response: GetReportsResponse)
    requires Locate(response).Success? && Locate(response).value.Table?
    requires Locate(response).value.entries.Some?
    requires |Locate(response).value.entries.value| < |Locate(response).value.values|
    ensures Extract(response).Failure?
  {
  }

  /** A value that is not an `int`, at an index whose entry is named by an alias, fails
      the whole extraction: no partial result and no default. */
  lemma UnparsableMatchFails(response: GetReportsResponse, i: nat)
    requires Locate(response).Success? && Locate(response).value.Table?
    requires i < |Locate(response).value.values|
    requires IsAlias(NameAt(Locate(response).value.entries, i))
    requires ParseInt(Locate(response).value.values[i]).Failure?
    ensures Extract(response).Failure?
  {
    var t := Locate(response).value;
    ExtractOutcome(response);
    assert FaultAt(t.entries, t.values, i).Some?;
  }

  /** Renaming an entry that matches neither alias to another such name, and changing
      its value, leaves every prefix of the loop unchanged. */
  lemma {:induction false} IgnoredEntryIrrelevant(
    entries: seq<MetricHeaderEntry>, values: seq<Option<string>>,
    i: nat, entry: MetricHeaderEntry, value: Option<string>, n: nat)
    requires i < |entries| && i < |values| && n <= |values|
    requires !IsAlias(entries[i].name) && !IsAlias(entry.name)
    ensures Walk(Some(entries[i := entry]), values[i := value], n) == Walk(Some(entries), values, n)
  {
    if n > 0 {
      IgnoredEntryIrrelevant(entries, values, i, entry, value, n - 1);
    }
  }

  function Reverse<T>(s: seq<T>): (r: seq<T>)
    ensures |r| == |s| && forall i :: 0 <= i < |s| ==> r[i] == s[|s| - 1 - i]
  {
    seq(|s|, i requires 0 <= i < |s| => s[|s| - 1 - i])
  }

  /** `alias` names at most one header entry. */
  ghost predicate AtMostOnce(entries: seq<MetricHeaderEntry>, alias: string)
  {
    forall i, j :: 0 <= i < j < |entries| && entries[i].name == Some(alias) ==> entries[j].name != Some(alias)
  }

  lemma LastMatchReversed(entries: seq<MetricHeaderEntry>, alias: string)
    requires AtMostOnce(entries, alias)
    ensures var n := |entries|;
      match LastMatch(Some(entries), alias, n)
      case None => LastMatch(Some(Reverse(entries)), alias, n).None?
      case Some(k) => LastMatch(Some(Reverse(entries)), alias, n) == Some(n - 1 - k)
  {
    var n := |entries|;
    var rev := Reverse(entries);
    var k := LastMatch(Some(entries), alias, n);
    var kr := LastMatch(Some(rev), alias, n);
    if k.Some? {
      assert NameAt(Some(rev), n - 1 - k.value) == Some(alias);
    }
    if kr.Some? {
      assert NameAt(Some(entries), n - 1 - kr.value) == Some(alias);
    }
  }

  /** Reversed lists fault at some index exactly when the originals do. */
  lemma ReverseFaults(entries: seq<MetricHeaderEntry>, values: seq<Option<string>>)
    requires |entries| == |values|
    ensures (exists i :: 0 <= i < |values| && FaultAt(Some(Reverse(entries)), Reverse(values), i).Some?)
        <==> (exists i :: 0 <= i < |values| && FaultAt(Some(entries), values, i).Some?)
  {
    var n := |values|;
    var rev, revValues := Reverse(entries), Reverse(values);
    if i :| 0 <= i < n && FaultAt(Some(rev), revValues, i).Some? {
      assert FaultAt(Some(entries), values, n - 1 - i).Some?;
    }
    if i :| 0 <= i < n && FaultAt(Some(entries), values, i).Some? {
      assert FaultAt(Some(rev), revValues, n - 1 - i).Some?;
    }
  }

  /** Why `ReverseTogether` needs each alias to occur at most once: with `count` twice
      the last match wins, so reversing the lists picks the other value. */
  lemma ReverseWithRepeatedAlias()
    ensures var entries := [MetricHeaderEntry(Some(ALIAS_COUNT)), MetricHeaderEntry(Some(ALIAS_COUNT))];
      var values := [Some("1"), Some("2")];
      && Walk(Some(entries), values, 2) == Success(ViewsCount(2, 0))
      && Walk(Some(Reverse(entries)), Reverse(values), 2) == Success(ViewsCount(1, 0))
  {
    var entries := [MetricHeaderEntry(Some(ALIAS_COUNT)), MetricHeaderEntry(Some(ALIAS_COUNT))];
    var values := [Some("1"), Some("2")];
    assert Decimal(1) == "1" && Decimal(2) == "2";
    ParseIntOfDecimal(1);
    ParseIntOfDecimal(2);
    assert Reverse(entries) == entries;
    assert Reverse(values) == [Some("2"), Some("1")];
    assert Walk(Some(entries), values, 1) == Success(ViewsCount(1, 0));
    assert Walk(Some(entries), [Some("2"), Some("1")], 1) == Success(ViewsCount(2, 0));
  }

  /** Reversing the header entries and the values together does not change whether the
      loop succeeds; when each alias names at most one entry it does not change the
      result either: values are matched by name, not by position. */
  lemma ReverseTogether(entries: seq<MetricHeaderEntry>, values: seq<Option<string>>)
    requires |entries| == |values|
    ensures Walk(Some(Reverse(entries)), Reverse(values), |values|).Success?
        <==> Walk(Some(entries), values, |values|).Success?
    ensures AtMostOnce(entries, ALIAS_COUNT) && AtMostOnce(entries, ALIAS_UNIQUE) ==>
      Walk(Some(Reverse(entries)), Reverse(values), |values|) == Walk(Some(entries), values, |values|)
  {
    var n := |values|;
    var rev, revValues := Reverse(entries), Reverse(values);
    WalkFault(Some(entries), values, n);
    WalkFault(Some(rev), revValues, n);
    ReverseFaults(entries, values);
    if AtMostOnce(entries, ALIAS_COUNT) && AtMostOnce(entries, ALIAS_UNIQUE) && Walk(Some(entries), values, n).Success? {
      WalkFields(Some(entries), values, n);
      WalkFields(Some(rev), revValues, n);
      LastMatchReversed(entries, ALIAS_COUNT);
      LastMatchReversed(entries, ALIAS_UNIQUE);
    }
  }
}
