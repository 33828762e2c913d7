/** The stacked-bar chart's data preparation: the filter buttons pick one (ASM, RPM, LF)
    triplet of every record, `d3.group` gathers the rows of each year in first-occurrence
    order, and each year is reduced with `d3.sum` and `d3.mean`. */
module Aggregation {
  import opened Wrappers
  import opened Seqs
  import opened Records
  import Domains
  import DateOrder

  /** The chart's `currentMode`. */
  datatype Mode = Total | Domestic | International

  /** The filter strings the three buttons pass to `updateChart`; any other string
      selects no mode. */
  function ModeOf(filter: string): (m: Option<Mode>)
    ensures m == Some(Total) <==> filter == "total"
    ensures m == Some(Domestic) <==> filter == "domestic"
    ensures m == Some(International) <==> filter == "international"
  {
    if filter == "total" then Some(Total)
    else if filter == "domestic" then Some(Domestic)
    else if filter == "international" then Some(International)
    else None
  }

  /** One element of `filteredData`: a year and one ASM/RPM/LF triplet. */
  datatype Row = Row(year: nat, asm: nat, rpm: nat, lf: real)

  /** The triplet the mode picks: the totals, the `Dom_` columns or the `Int_` columns. */
  function Select(m: Mode, r: TrafficRecord): Row {
    match m
    case Total => Row(r.year, r.asm, r.rpm, r.lf)
    case Domestic => Row(r.year, r.domAsm, r.domRpm, r.domLf)
    case International => Row(r.year, r.intAsm, r.intRpm, r.intLf)
  }

  /** `data.map(...)` for the selected mode. */
  function FilterRows(m: Mode, data: seq<TrafficRecord>): (rows: seq<Row>)
    ensures |rows| == |data| && forall i :: 0 <= i < |data| ==> rows[i] == Select(m, data[i])
  {
    if data == [] then [] else FilterRows(m, data[..|data| - 1]) + [Select(m, data[|data| - 1])]
  }

  function RowYears(rows: seq<Row>): (ys: seq<int>)
    ensures |ys| == |rows| && forall i :: 0 <= i < |rows| ==> ys[i] == rows[i].year
  {
    if rows == [] then [] else RowYears(rows[..|rows| - 1]) + [rows[|rows| - 1].year]
  }

  /** The rows of year `y`, in their input order. */
  function OfYear(rows: seq<Row>, y: int): seq<Row> {
    if rows == [] then []
    else OfYear(rows[..|rows| - 1], y) + (if rows[|rows| - 1].year == y then [rows[|rows| - 1]] else [])
  }

  lemma OfYearSnoc(rows: seq<Row>, r: Row, y: int)
    ensures OfYear(rows + [r], y) == OfYear(rows, y) + (if r.year == y then [r] else [])
  {
    assert (rows + [r])[..|rows|] == rows;
  }

  lemma {:induction false} OfYearAbsent(rows: seq<Row>, y: int)
    requires y !in RowYears(rows)
    ensures OfYear(rows, y) == []
  {
    if rows != [] {
      var p := rows[..|rows| - 1];
      assert forall i :: 0 <= i < |p| ==> RowYears(p)[i] == RowYears(rows)[i];
      OfYearAbsent(p, y);
    }
  }

  /** One entry of the `d3.group` InternMap: a key and the rows filed under it. */
  datatype Group = Group(year: nat, rows: seq<Row>)

  function GroupYears(gs: seq<Group>): (ys: seq<int>)
    ensures |ys| == |gs| && forall i :: 0 <= i < |gs| ==> ys[i] == gs[i].year
  {
    if gs == [] then [] else GroupYears(gs[..|gs| - 1]) + [gs[|gs| - 1].year]
  }

  /** Filing one more row: pushed onto its year's group, or a new group appended at the end
      when the year has not been seen. */
  function AddRow(gs: seq<Group>, r: Row): (res: seq<Group>)
    ensures |gs| <= |res|
    ensures forall i :: 0 <= i < |res| ==> res[i].rows != [] || (i < |gs| && res[i] == gs[i])
  {
    if r.year in GroupYears(gs) then
      seq(|gs|, i requires 0 <= i < |gs| =>
        if gs[i].year == r.year then Group(gs[i].year, gs[i].rows + [r]) else gs[i])
    else gs + [Group(r.year, [r])]
  }

  /** `d3.group(filteredData, d => d.Year)`, filing the rows one after the other. */
  function GroupByYear(rows: seq<Row>): (gs: seq<Group>)
    ensures forall i :: 0 <= i < |gs| ==> gs[i].rows != []
  {
    if rows == [] then [] else AddRow(GroupByYear(rows[..|rows| - 1]), rows[|rows| - 1])
  }

  /** Filing a row adds its year to the keys exactly when the year is new. */
  lemma AddRowYears(gs: seq<Group>, r: Row)
    requires NoDups(GroupYears(gs))
    ensures GroupYears(AddRow(gs, r)) ==
            if r.year in GroupYears(gs) then GroupYears(gs) else GroupYears(gs) + [r.year]
  {
    if r.year in GroupYears(gs) {
      assert GroupYears(AddRow(gs, r)) == GroupYears(gs);
    }
  }

  lemma RowYearsSnoc(rows: seq<Row>, r: Row)
    ensures RowYears(rows + [r]) == RowYears(rows) + [r.year]
  {
  }

  /** The keys of the grouping are the distinct years in first-occurrence order. */
  lemma {:induction false} GroupByYearKeys(rows: seq<Row>)
    ensures GroupYears(GroupByYear(rows)) == Distinct(RowYears(rows))
  {
    if rows != [] {
      var p, r := rows[..|rows| - 1], rows[|rows| - 1];
      assert rows == p + [r];
      GroupByYearKeys(p);
      RowYearsSnoc(p, r);
      DistinctSnoc(RowYears(p), r.year);
      AddRowYears(GroupByYear(p), r);
    }
  }

  /** The group of each year holds exactly that year's rows, in input order. */
  lemma {:induction false} GroupByYearRows(rows: seq<Row>)
    ensures forall i :: 0 <= i < |GroupByYear(rows)| ==>
              GroupByYear(rows)[i].rows == OfYear(rows, GroupByYear(rows)[i].year)
  {
    if rows != [] {
      var p, r := rows[..|rows| - 1], rows[|rows| - 1];
      assert rows == p + [r];
      GroupByYearRows(p);
      GroupByYearKeys(p);
      var gs, ng := GroupByYear(p), GroupByYear(rows);
      assert ng == AddRow(gs, r);
      forall i | 0 <= i < |ng| ensures ng[i].rows == OfYear(rows, ng[i].year) {
        OfYearSnoc(p, r, ng[i].year);
        if i == |gs| {
          OfYearAbsent(p, r.year);
        } else if r.year !in GroupYears(gs) {
          assert GroupYears(gs)[i] == gs[i].year;
        }
      }
    }
  }

  /** `d3.group` keeps the distinct years in first-occurrence order and files under each
      year exactly that year's rows, in input order. */
  lemma GroupByYearSpec(rows: seq<Row>)
    ensures GroupYears(GroupByYear(rows)) == Distinct(RowYears(rows))
    ensures forall i :: 0 <= i < |GroupByYear(rows)| ==>
              GroupByYear(rows)[i].rows == OfYear(rows, GroupByYear(rows)[i].year)
  {
    GroupByYearKeys(rows);
    GroupByYearRows(rows);
  }

  function Asm(r: Row): nat { r.asm }
  function Rpm(r: Row): nat { r.rpm }
  function Lf(r: Row): real { r.lf }

  /** `d3.sum(values, f)` over counts. */
  function SumNat(rows: seq<Row>, f: Row -> nat): nat {
    if rows == [] then 0 else SumNat(rows[..|rows| - 1], f) + f(rows[|rows| - 1])
  }

  /** `d3.sum` over load factors. */
  function SumReal(rows: seq<Row>, f: Row -> real): real {
    if rows == [] then 0.0 else SumReal(rows[..|rows| - 1], f) + f(rows[|rows| - 1])
  }

  /** `d3.mean(values, f)` over a non-empty group: the sum divided by the count. */
  function Mean(rows: seq<Row>, f: Row -> real): real
    requires rows != []
  {
    SumReal(rows, f) / |rows| as real
  }

  lemma {:induction false} SumRealBounds(rows: seq<Row>, f: Row -> real, lo: real, hi: real)
    requires forall i :: 0 <= i < |rows| ==> lo <= f(rows[i]) <= hi
    ensures |rows| as real * lo <= SumReal(rows, f) <= |rows| as real * hi
  {
    if rows != [] {
      var p := rows[..|rows| - 1];
      assert forall i :: 0 <= i < |p| ==> p[i] == rows[i];
      SumRealBounds(p, f, lo, hi);
    }
  }

  /** A mean of load factors lies between the smallest and the largest of them; in
      particular the mean of percentages is a percentage. */
  lemma MeanBounds(rows: seq<Row>, f: Row -> real, lo: real, hi: real)
    requires rows != []
    requires forall i :: 0 <= i < |rows| ==> lo <= f(rows[i]) <= hi
    ensures lo <= Mean(rows, f) <= hi
  {
    SumRealBounds(rows, f, lo, hi);
    var n := |rows| as real;
    var s := SumReal(rows, f);
    assert s / n * n == s;
  }

  /** One element of `aggregatedData`. */
  datatype YearTotal = YearTotal(year: nat, asm: nat, rpm: nat, lf: real)

  /** `{Year: key, ASM: d3.sum(...), RPM: d3.sum(...), LF: d3.mean(...)}` for one group. */
  function Totals(g: Group): YearTotal
    requires g.rows != []
  {
    YearTotal(g.year, SumNat(g.rows, Asm), SumNat(g.rows, Rpm), Mean(g.rows, Lf))
  }

  /** `Array.from(groupedData, ...)`: one total per group, in the groups' order. */
  function Aggregate(gs: seq<Group>): (ts: seq<YearTotal>)
    requires forall i :: 0 <= i < |gs| ==> gs[i].rows != []
    ensures |ts| == |gs| && forall i :: 0 <= i < |gs| ==> ts[i] == Totals(gs[i])
  {
    if gs == [] then [] else Aggregate(gs[..|gs| - 1]) + [Totals(gs[|gs| - 1])]
  }

  /** The per-year totals `updateChart` builds for a mode. */
  function YearTotals(m: Mode, data: seq<TrafficRecord>): seq<YearTotal> {
    Aggregate(GroupByYear(FilterRows(m, data)))
  }

  lemma FilterKeepsYears(m: Mode, data: seq<TrafficRecord>)
    ensures RowYears(FilterRows(m, data)) == Domains.Years(data)
  {
  }

  /** Exactly one total per distinct year, in first-occurrence order; each holds the sums of
      that year's ASM and RPM and the mean of its LF under the chosen mode. */
  lemma YearTotalsSpec(m: Mode, data: seq<TrafficRecord>)
    ensures var ts, ys, rows := YearTotals(m, data), Distinct(Domains.Years(data)), FilterRows(m, data);
      |ts| == |ys| &&
      forall i :: 0 <= i < |ts| ==>
        ts[i].year == ys[i] && OfYear(rows, ys[i]) != [] &&
        ts[i].asm == SumNat(OfYear(rows, ys[i]), Asm) &&
        ts[i].rpm == SumNat(OfYear(rows, ys[i]), Rpm) &&
        ts[i].lf == Mean(OfYear(rows, ys[i]), Lf)
  {
    var rows := FilterRows(m, data);
    GroupByYearSpec(rows);
    FilterKeepsYears(m, data);
  }

  lemma FilterRowsAppend(m: Mode, a: seq<TrafficRecord>, b: seq<TrafficRecord>)
    ensures FilterRows(m, a + b) == FilterRows(m, a) + FilterRows(m, b)
  {
    assert forall i :: 0 <= i < |a + b| ==> (a + b)[i] == if i < |a| then a[i] else b[i - |a|];
  }

  /** Permuted records give permuted rows. */
  lemma {:induction false} FilterRowsPermutes(m: Mode, s: seq<TrafficRecord>, t: seq<TrafficRecord>)
    requires multiset(s) == multiset(t)
    ensures multiset(FilterRows(m, s)) == multiset(FilterRows(m, t))
    decreases |s|
  {
    if s != [] {
      var k := PermutationSplit(s, t);
      var p, x := s[..|s| - 1], s[|s| - 1];
      var lo, hi := t[..k], t[k + 1..];
      FilterRowsPermutes(m, p, lo + hi);
      FilterRowsAppend(m, lo, hi);
      FilterRowsAppend(m, lo, [x]);
      FilterRowsAppend(m, lo + [x], hi);
      var fl, fh, fx := FilterRows(m, lo), FilterRows(m, hi), FilterRows(m, [x]);
      assert fx == [Select(m, x)];
      assert FilterRows(m, t) == fl + [Select(m, x)] + fh;
      assert FilterRows(m, s) == FilterRows(m, p) + [Select(m, x)];
      assert multiset(FilterRows(m, p)) == multiset(fl) + multiset(fh);
    }
  }

  lemma {:induction false} OfYearAppend(a: seq<Row>, b: seq<Row>, y: int)
    ensures OfYear(a + b, y) == OfYear(a, y) + OfYear(b, y)
    decreases |b|
  {
    if b == [] {
      assert a + b == a;
    } else {
      var p, r := b[..|b| - 1], b[|b| - 1];
      assert a + b == (a + p) + [r] && b == p + [r];
      OfYearAppend(a, p, y);
      OfYearSnoc(a + p, r, y);
      OfYearSnoc(p, r, y);
    }
  }

  /** Permuted rows hold permuted rows of every year. */
  lemma {:induction false} OfYearPermutes(s: seq<Row>, t: seq<Row>, y: int)
    requires multiset(s) == multiset(t)
    ensures multiset(OfYear(s, y)) == multiset(OfYear(t, y))
    decreases |s|
  {
    if s != [] {
      var k := PermutationSplit(s, t);
      var p, rest := s[..|s| - 1], t[..k] + t[k + 1..];
      OfYearPermutes(p, rest, y);
      OfYearSnoc(p, s[|s| - 1], y);
      assert s == p + [s[|s| - 1]];
      OfYearAppend(t[..k] + [t[k]], t[k + 1..], y);
      OfYearSnoc(t[..k], t[k], y);
      OfYearAppend(t[..k], t[k + 1..], y);
    }
  }

  lemma {:induction false} SumNatAppend(a: seq<Row>, b: seq<Row>, f: Row -> nat)
    ensures SumNat(a + b, f) == SumNat(a, f) + SumNat(b, f)
    decreases |b|
  {
    if b == [] {
      assert a + b == a;
    } else {
      var p := b[..|b| - 1];
      assert (a + b)[..|a + b| - 1] == a + p;
      SumNatAppend(a, p, f);
    }
  }

  /** `d3.sum` does not depend on the order of its values. */
  lemma {:induction false} SumNatPermutes(s: seq<Row>, t: seq<Row>, f: Row -> nat)
    requires multiset(s) == multiset(t)
    ensures SumNat(s, f) == SumNat(t, f)
    decreases |s|
  {
    if s != [] {
      var k := PermutationSplit(s, t);
      SumNatPermutes(s[..|s| - 1], t[..k] + t[k + 1..], f);
      SumNatAppend(t[..k] + [t[k]], t[k + 1..], f);
      SumNatAppend(t[..k], [t[k]], f);
      SumNatAppend(t[..k], t[k + 1..], f);
    } else {
      assert |t| == |multiset(t)| == 0;
    }
  }

  lemma {:induction false} SumRealAppend(a: seq<Row>, b: seq<Row>, f: Row -> real)
    ensures SumReal(a + b, f) == SumReal(a, f) + SumReal(b, f)
    decreases |b|
  {
    if b == [] {
      assert a + b == a;
    } else {
      var p := b[..|b| - 1];
      assert (a + b)[..|a + b| - 1] == a + p;
      SumRealAppend(a, p, f);
    }
  }

  /** The sum behind `d3.mean` does not depend on the order of its values. */
  lemma {:induction false} SumRealPermutes(s: seq<Row>, t: seq<Row>, f: Row -> real)
    requires multiset(s) == multiset(t)
    ensures SumReal(s, f) == SumReal(t, f)
    decreases |s|
  {
    if s != [] {
      var k := PermutationSplit(s, t);
      SumRealPermutes(s[..|s| - 1], t[..k] + t[k + 1..], f);
      SumRealAppend(t[..k] + [t[k]], t[k + 1..], f);
      SumRealAppend(t[..k], [t[k]], f);
      SumRealAppend(t[..k], t[k + 1..], f);
    } else {
      assert |t| == |multiset(t)| == 0;
    }
  }

  /** For one year, the rows of two permuted inputs have the same count, sums and mean. */
  lemma YearReductionIgnoresOrder(m: Mode, s: seq<TrafficRecord>, t: seq<TrafficRecord>, y: int)
    requires multiset(s) == multiset(t)
    ensures var a, b := OfYear(FilterRows(m, s), y), OfYear(FilterRows(m, t), y);
      |a| == |b| && SumNat(a, Asm) == SumNat(b, Asm) && SumNat(a, Rpm) == SumNat(b, Rpm) &&
      (a != [] ==> Mean(a, Lf) == Mean(b, Lf))
  {
    var a, b := OfYear(FilterRows(m, s), y), OfYear(FilterRows(m, t), y);
    FilterRowsPermutes(m, s, t);
    OfYearPermutes(FilterRows(m, s), FilterRows(m, t), y);
    assert |a| == |multiset(a)| == |multiset(b)| == |b|;
    SumNatPermutes(a, b, Asm);
    SumNatPermutes(a, b, Rpm);
    SumRealPermutes(a, b, Lf);
  }

  /** Shuffling the records may reorder the per-year totals but does not change them: a
      year's total is the same under either order (and `YearsShared` gives the same years). */
  lemma YearTotalsIgnoreOrder(m: Mode, s: seq<TrafficRecord>, t: seq<TrafficRecord>)
    requires multiset(s) == multiset(t)
    ensures var ts, us := YearTotals(m, s), YearTotals(m, t);
      forall i, j :: 0 <= i < |ts| && 0 <= j < |us| && ts[i].year == us[j].year ==> ts[i] == us[j]
  {
    var ts, us := YearTotals(m, s), YearTotals(m, t);
    forall i, j | 0 <= i < |ts| && 0 <= j < |us| && ts[i].year == us[j].year
      ensures ts[i] == us[j]
    {
      SameYearSameTotal(m, s, t, i, j);
    }
  }

  lemma SameYearSameTotal(m: Mode, s: seq<TrafficRecord>, t: seq<TrafficRecord>, i: nat, j: nat)
    requires multiset(s) == multiset(t)
    requires i < |YearTotals(m, s)| && j < |YearTotals(m, t)|
    requires YearTotals(m, s)[i].year == YearTotals(m, t)[j].year
    ensures YearTotals(m, s)[i] == YearTotals(m, t)[j]
  {
    TotalOfYear(m, s, i);
    TotalOfYear(m, t, j);
    YearReductionIgnoresOrder(m, s, t, YearTotals(m, s)[i].year);
  }

  /** The total at position `i` holds the sums and the mean of its year's rows. */
  lemma TotalOfYear(m: Mode, s: seq<TrafficRecord>, i: nat)
    requires i < |YearTotals(m, s)|
    ensures var y := YearTotals(m, s)[i].year;
      var a := OfYear(FilterRows(m, s), y);
      a != [] && YearTotals(m, s)[i] == YearTotal(y, SumNat(a, Asm), SumNat(a, Rpm), Mean(a, Lf))
  {
    YearTotalsSpec(m, s);
  }

  /** A year gets a total exactly when some record has that year. */
  lemma TotalYears(m: Mode, s: seq<TrafficRecord>, y: int)
    ensures (exists i :: 0 <= i < |YearTotals(m, s)| && YearTotals(m, s)[i].year == y) <==>
            y in Domains.Years(s)
  {
    var ts, ys := YearTotals(m, s), Distinct(Domains.Years(s));
    YearTotalsSpec(m, s);
    if y in Domains.Years(s) {
      var i :| 0 <= i < |ys| && ys[i] == y;
      assert ts[i].year == y;
    }
  }

  /** Every year that gets a total for `s` gets one for a permutation `t` of it. */
  lemma YearsShared(m: Mode, s: seq<TrafficRecord>, t: seq<TrafficRecord>)
    requires multiset(s) == multiset(t)
    ensures var ts, us := YearTotals(m, s), YearTotals(m, t);
      forall i :: 0 <= i < |ts| ==> exists j :: 0 <= j < |us| && us[j].year == ts[i].year
  {
    var ts := YearTotals(m, s);
    forall i | 0 <= i < |ts|
      ensures exists j :: 0 <= j < |YearTotals(m, t)| && YearTotals(m, t)[j].year == ts[i].year
    {
      var y := ts[i].year;
      TotalYears(m, s, y);
      var k :| 0 <= k < |s| && Domains.Years(s)[k] == y;
      assert s[k] in multiset(t);
      var l :| 0 <= l < |t| && t[l] == s[k];
      assert Domains.Years(t)[l] == y;
      TotalYears(m, t, y);
    }
  }

  /** The stacked-bar chart receives the array after the trend chart sorted it, so its
      years come out in ascending order. */
  lemma YearTotalsAscendAfterSort(m: Mode, data: seq<TrafficRecord>)
    requires forall i :: 0 <= i < |data| ==> 1 <= data[i].month <= 12
    ensures var ts := YearTotals(m, DateOrder.SortByDateSpec(data));
      forall i, j :: 0 <= i < j < |ts| ==> ts[i].year < ts[j].year
  {
    var sorted := DateOrder.SortByDateSpec(data);
    Domains.HeatmapYearsAscendAfterSort(data);
    YearTotalsSpec(m, sorted);
  }
}
