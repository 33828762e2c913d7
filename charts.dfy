/** `createCharts`: the parsed rows go, as one shared array, to the trend chart (which sorts
    it in place), then to the heatmap and the stacked-bar chart, which see it sorted. */
module Charts {
  import opened Wrappers
  import opened Records
  import opened DateOrder
  import opened Domains
  import opened StackedBar

  /** The scale domains the trend chart and the heatmap derive from the shared array. */
  datatype PageScales = PageScales(
    trendX: Option<(int, int)>,
    trendY: Option<(int, int)>,
    heatmapYears: seq<int>,
    colour: Option<(int, int)>)

  /** The domains of the trend chart and the heatmap for records `rs`. */
  function ScalesOf(rs: seq<TrafficRecord>): PageScales {
    PageScales(TrendXDomain(rs), TrendYDomain(rs), HeatmapYears(rs), ColorDomain(rs))
  }

  /** The page built from the CSV rows: a parse failure stops everything; otherwise the
      array is sorted by date once and every chart reads the sorted records. */
  method CreateCharts(rows: seq<RawRow>)
      returns (outcome: Result<StackedBarChart, ParseError>, shared: seq<TrafficRecord>, scales: PageScales)
    ensures ParseCSVData(rows).Failure? ==> outcome == Failure(ParseCSVData(rows).error)
    ensures ParseCSVData(rows).Success? ==>
              shared == SortByDateSpec(ParseCSVData(rows).value) &&
              scales == ScalesOf(shared) &&
              outcome.Success? && fresh(outcome.value) &&
              outcome.value.data == shared && outcome.value.currentMode == Aggregation.Total &&
              outcome.value.Valid()
  {
    var parsed := ParseCSVData(rows);
    if parsed.Failure? {
      return Failure(parsed.error), [], ScalesOf([]);
    }
    var records := parsed.value;
    var a := new TrafficRecord[|records|](i requires 0 <= i < |records| => records[i]);
    assert a[..] == records;
    SortByDate(a);
    shared := a[..];
    scales := ScalesOf(shared);
    var chart := new StackedBarChart(shared);
    outcome := Success(chart);
  }

  /** The sort changes no domain of the trend chart or the colour scale: they depend only on
      which records there are. The heatmap's year bands come out ascending when every month
      is a calendar month. */
  lemma SortedScales(records: seq<TrafficRecord>)
    ensures var s := ScalesOf(SortByDateSpec(records));
      s.trendX == TrendXDomain(records) && s.trendY == TrendYDomain(records) &&
      s.colour == ColorDomain(records)
    ensures (forall i :: 0 <= i < |records| ==> 1 <= records[i].month <= 12) ==>
              Seqs.StrictlyIncreasing(ScalesOf(SortByDateSpec(records)).heatmapYears)
  {
    SortPermutes(records);
    DomainsIgnoreOrder(SortByDateSpec(records), records);
    if forall i :: 0 <= i < |records| ==> 1 <= records[i].month <= 12 {
      HeatmapYearsAscendAfterSort(records);
    }
  }
}
