/** The scale domains the trend chart and the heatmap derive from the records: the
    trend's time extent and passenger ceiling, the heatmap's year bands and its reversed
    colour domain with the sequential normalisation that reads it. */
module Domains {
  import opened Wrappers
  import opened Seqs
  import opened Records
  import opened DateOrder

  /** `Math.max(d.Int_Pax, d.Dom_Pax, d.Pax)`: the highest of a record's three passenger counts. */
  function PaxPeak(r: TrafficRecord): (m: nat)
    ensures r.intPax <= m && r.domPax <= m && r.pax <= m
    ensures m == r.intPax || m == r.domPax || m == r.pax
  {
    if r.intPax >= r.domPax && r.intPax >= r.pax then r.intPax
    else if r.domPax >= r.pax then r.domPax
    else r.pax
  }

  function Dates(rs: seq<TrafficRecord>): (ds: seq<int>)
    ensures |ds| == |rs| && forall i :: 0 <= i < |rs| ==> ds[i] == DateKey(rs[i])
  {
    if rs == [] then [] else Dates(rs[..|rs| - 1]) + [DateKey(rs[|rs| - 1])]
  }

  function Peaks(rs: seq<TrafficRecord>): (ps: seq<int>)
    ensures |ps| == |rs| && forall i :: 0 <= i < |rs| ==> ps[i] == PaxPeak(rs[i])
  {
    if rs == [] then [] else Peaks(rs[..|rs| - 1]) + [PaxPeak(rs[|rs| - 1])]
  }

  function PaxCounts(rs: seq<TrafficRecord>): (ps: seq<int>)
    ensures |ps| == |rs| && forall i :: 0 <= i < |rs| ==> ps[i] == rs[i].pax
  {
    if rs == [] then [] else PaxCounts(rs[..|rs| - 1]) + [rs[|rs| - 1].pax]
  }

  function Years(rs: seq<TrafficRecord>): (ys: seq<int>)
    ensures |ys| == |rs| && forall i :: 0 <= i < |rs| ==> ys[i] == rs[i].year
  {
    if rs == [] then [] else Years(rs[..|rs| - 1]) + [rs[|rs| - 1].year]
  }

  /** `d3.extent(data, d => d.date)`: the earliest and latest date, or nothing for no data. */
  function TrendXDomain(rs: seq<TrafficRecord>): (d: Option<(int, int)>)
    ensures d.None? <==> rs == []
    ensures d.Some? ==> forall i :: 0 <= i < |rs| ==> d.value.0 <= DateKey(rs[i]) <= d.value.1
    ensures d.Some? ==> (exists i :: 0 <= i < |rs| && DateKey(rs[i]) == d.value.0) &&
                        (exists j :: 0 <= j < |rs| && DateKey(rs[j]) == d.value.1)
  {
    if rs == [] then None
    else
      var lo, hi := Min(Dates(rs)), Max(Dates(rs));
      Some((lo, hi))
  }

  /** `[0, d3.max(data, d => Math.max(d.Int_Pax, d.Dom_Pax, d.Pax))]`: zero up to the largest
      passenger count of any of the three lines; the maximum is undefined for no data. */
  function TrendYDomain(rs: seq<TrafficRecord>): (d: Option<(int, int)>)
    ensures d.None? <==> rs == []
    ensures d.Some? ==> d.value.0 == 0
    ensures d.Some? ==> forall i :: 0 <= i < |rs| ==>
              rs[i].intPax <= d.value.1 && rs[i].domPax <= d.value.1 && rs[i].pax <= d.value.1
    ensures d.Some? ==> exists i :: 0 <= i < |rs| && PaxPeak(rs[i]) == d.value.1
  {
    if rs == [] then None
    else
      var m := Max(Peaks(rs));
      Some((0, m))
  }

  /** `Array.from(new Set(data.map(d => d.Year)))`: the heatmap's year bands. */
  function HeatmapYears(rs: seq<TrafficRecord>): (ys: seq<int>)
    ensures NoDups(ys)
    ensures forall y :: y in ys <==> exists i :: 0 <= i < |rs| && rs[i].year == y
    ensures forall y :: y in ys <==> y in Years(rs)
    ensures forall i, j :: 0 <= i < j < |ys| ==> IndexOf(Years(rs), ys[i]) < IndexOf(Years(rs), ys[j])
  {
    var years := Years(rs);
    assert forall y :: y in years <==> exists i :: 0 <= i < |rs| && rs[i].year == y by {
      forall y ensures y in years ==> exists i :: 0 <= i < |rs| && rs[i].year == y {
        if y in years {
          var i :| 0 <= i < |years| && years[i] == y;
        }
      }
    }
    DistinctKeepsOrder(years);
    Distinct(years)
  }

  /** `[d3.max(data, d => d.Pax), 0]`: the colour domain runs from the busiest month down to zero. */
  function ColorDomain(rs: seq<TrafficRecord>): (d: Option<(int, int)>)
    ensures d.None? <==> rs == []
    ensures d.Some? ==> d.value.1 == 0
    ensures d.Some? ==> (forall i :: 0 <= i < |rs| ==> rs[i].pax <= d.value.0) &&
                        exists i :: 0 <= i < |rs| && rs[i].pax == d.value.0
  {
    if rs == [] then None
    else
      var m := Max(PaxCounts(rs));
      Some((m, 0))
  }

  /** The interpolator argument of `d3.scaleSequential` with domain `[d0, d1]`:
      `(v - d0) / (d1 - d0)`, and the midpoint 0.5 when the domain is a single point. */
  function ColorPosition(v: real, d0: real, d1: real): real {
    if d0 == d1 then 0.5 else (v - d0) / (d1 - d0)
  }

  /** With the reversed domain `[M, 0]` the busiest month sits at 0, the red ("Hot") end of
      RdYlBu, and an empty month at 1, the blue ("Cold") end. */
  lemma HotAndCold(m: real)
    requires m > 0.0
    ensures ColorPosition(m, m, 0.0) == 0.0
    ensures ColorPosition(0.0, m, 0.0) == 1.0
  {
  }

  /** On the reversed domain `[M, 0]` the position of `v` is `1 - v / M`. */
  lemma ReversedPosition(v: real, m: real)
    requires m > 0.0
    ensures ColorPosition(v, m, 0.0) == 1.0 - v / m
  {
    var q, r := v / m, (v - m) / (0.0 - m);
    assert q * m == v;
    assert r * m == m - v;
    assert (r + q) * m == r * m + q * m;
    assert r + q == 1.0;
  }

  /** More passengers never give a colder colour, and every count in `[0, M]` stays inside
      the interpolator's range. */
  lemma ColorPositionAntitone(v: real, w: real, m: real)
    requires m > 0.0 && 0.0 <= v <= w <= m
    ensures 0.0 <= ColorPosition(w, m, 0.0) <= ColorPosition(v, m, 0.0) <= 1.0
  {
    ReversedPosition(v, m);
    ReversedPosition(w, m);
    assert 0.0 <= v / m <= w / m <= 1.0 by {
      assert v / m * m == v && w / m * m == w;
    }
  }

  /** The legend stop at offset `o` is coloured at `legendScale(d3.interpolate(0, M)(o))`,
      position `1 - o`; a cell of `v` passengers therefore has the colour the legend shows
      at offset `v / M`. */
  lemma LegendMatchesCells(o: real, v: real, m: real)
    requires m > 0.0
    ensures ColorPosition(o * m, m, 0.0) == 1.0 - o
    ensures ColorPosition(v, m, 0.0) == ColorPosition(v / m * m, m, 0.0)
  {
    ReversedPosition(o * m, m);
    assert o * m / m == o;
  }

  /** When no month has passengers the domain collapses to `[0, 0]` and every cell is
      painted at the middle of the scale. */
  lemma DegenerateColorDomain(v: real)
    ensures ColorPosition(v, 0.0, 0.0) == 0.5
  {
  }

  /** Every record of `s` is a record of `t`. */
  predicate Within(s: seq<TrafficRecord>, t: seq<TrafficRecord>) {
    forall x :: x in s ==> x in t
  }

  /** Two sequences holding the same records, in any order, contain each other. */
  lemma PermutationWithin(s: seq<TrafficRecord>, t: seq<TrafficRecord>)
    requires multiset(s) == multiset(t)
    ensures Within(s, t) && Within(t, s) && (s == [] <==> t == [])
  {
    assert |s| == |multiset(s)| == |t|;
    forall x | x in s ensures x in t {
      assert x in multiset(s);
    }
    forall x | x in t ensures x in s {
      assert x in multiset(t);
    }
  }

  /** The extent of a subset of the records lies inside the extent of the records. */
  lemma TrendXDomainWithin(s: seq<TrafficRecord>, t: seq<TrafficRecord>)
    requires Within(s, t) && s != [] && t != []
    ensures TrendXDomain(t).value.0 <= TrendXDomain(s).value.0
    ensures TrendXDomain(s).value.1 <= TrendXDomain(t).value.1
  {
    var a := TrendXDomain(s).value;
    var i :| 0 <= i < |s| && DateKey(s[i]) == a.0;
    assert s[i] in t;
    var k :| 0 <= k < |s| && DateKey(s[k]) == a.1;
    assert s[k] in t;
  }

  lemma TrendYDomainWithin(s: seq<TrafficRecord>, t: seq<TrafficRecord>)
    requires Within(s, t) && s != [] && t != []
    ensures TrendYDomain(s).value.1 <= TrendYDomain(t).value.1
  {
    var a := TrendYDomain(s).value;
    var i :| 0 <= i < |s| && PaxPeak(s[i]) == a.1;
    assert s[i] in t;
  }

  lemma ColorDomainWithin(s: seq<TrafficRecord>, t: seq<TrafficRecord>)
    requires Within(s, t) && s != [] && t != []
    ensures ColorDomain(s).value.0 <= ColorDomain(t).value.0
  {
    var a := ColorDomain(s).value;
    var i :| 0 <= i < |s| && s[i].pax == a.0;
    assert s[i] in t;
  }

  /** The domains depend only on which records there are, not on their order: sorting the
      shared array does not move the trend extent, the passenger ceiling or the colour domain. */
  lemma DomainsIgnoreOrder(s: seq<TrafficRecord>, t: seq<TrafficRecord>)
    requires multiset(s) == multiset(t)
    ensures TrendXDomain(s) == TrendXDomain(t)
    ensures TrendYDomain(s) == TrendYDomain(t)
    ensures ColorDomain(s) == ColorDomain(t)
  {
    PermutationWithin(s, t);
    if s != [] {
      TrendXDomainWithin(s, t);
      TrendXDomainWithin(t, s);
      TrendYDomainWithin(s, t);
      TrendYDomainWithin(t, s);
      ColorDomainWithin(s, t);
      ColorDomainWithin(t, s);
    }
  }

  /** After the date sort the extent is simply the first and the last record's date. */
  lemma ExtentOfSorted(s: seq<TrafficRecord>)
    requires SortedByDate(s) && s != []
    ensures TrendXDomain(s) == Some((DateKey(s[0]), DateKey(s[|s| - 1])))
  {
    var d := TrendXDomain(s).value;
    assert DateKey(s[0]) <= d.0 && d.1 <= DateKey(s[|s| - 1]);
  }

  /** A date-sorted sequence whose months are calendar months has non-decreasing years. */
  lemma SortedYears(s: seq<TrafficRecord>)
    requires SortedByDate(s)
    requires forall i :: 0 <= i < |s| ==> 1 <= s[i].month <= 12
    ensures NonDecreasing(Years(s))
  {
    forall i, j | 0 <= i < j < |s| ensures s[i].year <= s[j].year {
      assert DateKey(s[i]) <= DateKey(s[j]);
    }
  }

  /** The heatmap receives the array after the trend chart sorted it, so its year bands
      come out in ascending order. */
  lemma HeatmapYearsAscendAfterSort(s: seq<TrafficRecord>)
    requires forall i :: 0 <= i < |s| ==> 1 <= s[i].month <= 12
    ensures StrictlyIncreasing(HeatmapYears(SortByDateSpec(s)))
  {
    var t := SortByDateSpec(s);
    SortSorts(s);
    SortPermutes(s);
    PermutationWithin(t, s);
    forall i | 0 <= i < |t| ensures 1 <= t[i].month <= 12 {
      assert t[i] in s;
    }
    SortedYears(t);
    DistinctOfNonDecreasing(Years(t));
  }
}
