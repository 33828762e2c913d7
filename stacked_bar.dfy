/** The stacked-bar chart as the object `createStackedBarChart` sets up: its mode and the
    scale domains, axis ticks and layers that every `updateChart` call replaces. */
module StackedBar {
  import opened Wrappers
  import opened Seqs
  import opened Records
  import opened Aggregation
  import opened Stacking
  import Domains
  import DateOrder
  import JsMath

  function BarYears(bars: seq<Bar>): (ys: seq<int>)
    ensures |ys| == |bars| && forall i :: 0 <= i < |bars| ==> ys[i] == bars[i].year
  {
    if bars == [] then [] else BarYears(bars[..|bars| - 1]) + [bars[|bars| - 1].year]
  }

  /** The bars (`finalData`) a mode yields for the data. */
  function Bars(data: seq<TrafficRecord>, m: Mode): seq<Bar> {
    Rescaled(YearTotals(m, data))
  }

  /** The chart's x-domain `finalData.map(d => d.year)`: the distinct years in
      first-occurrence order, whatever the mode. */
  lemma XDomainIsDistinctYears(data: seq<TrafficRecord>, m: Mode)
    ensures BarYears(Bars(data, m)) == Distinct(Domains.Years(data))
  {
    YearTotalsSpec(m, data);
  }

  /** The x-axis ticks: each year of the domain congruent to 3 modulo 5, once, in the
      domain's order. */
  lemma TicksOfChart(data: seq<TrafficRecord>, m: Mode)
    ensures var xs := BarYears(Bars(data, m));
      var t := TickYears(xs);
      NoDups(t) &&
      (forall y :: y in t <==> y in xs && JsMath.JsRemainder(y, 5) == 3) &&
      forall i, j :: 0 <= i < j < |t| ==> IndexOf(xs, t[i]) < IndexOf(xs, t[j])
  {
    XDomainIsDistinctYears(data, m);
    TickYearsOfDomain(BarYears(Bars(data, m)));
  }

  /** Because the trend chart sorted the shared array first, the bars come in ascending
      year order. */
  lemma XDomainAscendsAfterSort(data: seq<TrafficRecord>, m: Mode)
    requires forall i :: 0 <= i < |data| ==> 1 <= data[i].month <= 12
    ensures StrictlyIncreasing(BarYears(Bars(DateOrder.SortByDateSpec(data), m)))
  {
    XDomainIsDistinctYears(DateOrder.SortByDateSpec(data), m);
    Domains.HeatmapYearsAscendAfterSort(data);
  }

  class StackedBarChart {
    /** The shared, already date-sorted array the chart was created with. */
    const data: seq<TrafficRecord>
    var currentMode: Mode
    /** `x.domain(...)`: one band per year. */
    var xDomain: seq<int>
    /** The top of `y.domain([0, ...])`. */
    var yMax: Option<real>
    /** `tickValues(tickYears)` on the x-axis. */
    var tickYears: seq<int>
    /** The data bound to the `.layer` groups. */
    var layers: seq<Series>

    /** Every scale, axis and layer shows the data under the current mode. */
    predicate Valid()
      reads this
    {
      var bars := Bars(data, currentMode);
      xDomain == BarYears(bars) &&
      yMax == YMax(bars) &&
      tickYears == TickYears(BarYears(bars)) &&
      layers == Stack(StackKeys, bars, Value)
    }

    /** `createStackedBarChart(data, ...)`, which starts with `updateChart('total')`. */
    constructor(data: seq<TrafficRecord>)
      ensures this.data == data && currentMode == Total && Valid()
    {
      this.data := data;
      currentMode := Total;
      xDomain, yMax, tickYears, layers := [], None, [], [];
      new;
      var ok := UpdateChart("total");
    }

    /** `updateChart(filter)`. A known filter switches the mode and redraws everything from
        the data; any other string leaves `filteredData` undefined, so `d3.group` throws
        before any scale or layer changes (reported as `false`). */
    method UpdateChart(filter: string) returns (ok: bool)
      modifies this
      ensures ok <==> ModeOf(filter).Some?
      ensures ok ==> currentMode == ModeOf(filter).value && Valid()
      ensures !ok ==> currentMode == old(currentMode) && xDomain == old(xDomain) &&
                      yMax == old(yMax) && tickYears == old(tickYears) && layers == old(layers)
    {
      var mode := ModeOf(filter);
      if mode.None? {
        return false;
      }
      currentMode := mode.value;
      var bars := Bars(data, currentMode);
      xDomain := BarYears(bars);
      yMax := YMax(bars);
      tickYears := TickYears(xDomain);
      layers := Stack(StackKeys, bars, Value);
      ok := true;
    }
  }
}
