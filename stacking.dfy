/** The stacked-bar chart's geometry in data units: the LF rescale and its inversion in the
    tooltip, `d3.stack` with keys ASM, RPM, LF, the y-domain and the tick-year filter. */
module Stacking {
  import opened Wrappers
  import opened Seqs
  import opened JsMath
  import opened Aggregation

  /** One element of `finalData`: LF rescaled from a percentage into ASM/RPM units. */
  datatype Bar = Bar(year: nat, asm: nat, rpm: nat, lf: real)

  /** `LF: d.LF / 100 * (d.ASM + d.RPM)`. */
  function Rescale(t: YearTotal): Bar {
    Bar(t.year, t.asm, t.rpm, t.lf / 100.0 * (t.asm + t.rpm) as real)
  }

  function Rescaled(ts: seq<YearTotal>): (bs: seq<Bar>)
    ensures |bs| == |ts| && forall i :: 0 <= i < |ts| ==> bs[i] == Rescale(ts[i])
  {
    if ts == [] then [] else Rescaled(ts[..|ts| - 1]) + [Rescale(ts[|ts| - 1])]
  }

  /** The LF tooltip's `d.data.LF / (d.data.ASM + d.data.RPM)`, before `d3.format(".2%")`;
      `0 / 0` is NaN, here `None`. */
  function LfShare(b: Bar): Option<real> {
    if b.asm + b.rpm == 0 then None else Some(b.lf / (b.asm + b.rpm) as real)
  }

  /** The tooltip undoes the rescale: it shows the year's mean load factor as a fraction,
      whenever the year has any ASM or RPM. */
  lemma TooltipInvertsRescale(t: YearTotal)
    ensures t.asm + t.rpm != 0 ==> LfShare(Rescale(t)) == Some(t.lf / 100.0)
    ensures t.asm + t.rpm == 0 ==> LfShare(Rescale(t)) == None
  {
    if t.asm + t.rpm != 0 {
      var n, f := (t.asm + t.rpm) as real, t.lf / 100.0;
      var q := f * n / n;
      assert q * n == f * n;
      assert (q - f) * n == q * n - f * n;
      assert Rescale(t).lf == f * n;
      assert LfShare(Rescale(t)) == Some(f * n / n);
    }
  }

  /** The keys handed to `d3.stack().keys(...)`. */
  datatype Key = ASM | RPM | LF

  const StackKeys: seq<Key> := [ASM, RPM, LF]

  /** The value `d3.stack` reads for a key: `d[key]`. */
  function Value(b: Bar, k: Key): real {
    match k
    case ASM => b.asm as real
    case RPM => b.rpm as real
    case LF => b.lf
  }

  /** One stacked point `[lo, hi]` with its datum. */
  datatype Point = Point(lo: real, hi: real, data: Bar)

  /** One layer of the stack: a key and a point per bar. */
  datatype Series = Series(key: Key, points: seq<Point>)

  /** The sum of a bar's values under the first `j` keys. */
  function PrefixSum(b: Bar, keys: seq<Key>, j: nat, value: (Bar, Key) -> real): real
    requires j <= |keys|
  {
    if j == 0 then 0.0 else PrefixSum(b, keys, j - 1, value) + value(b, keys[j - 1])
  }

  /** A layer laid on `base`: each point runs from its base to the base plus its value. */
  function Band(bars: seq<Bar>, k: Key, base: seq<real>, value: (Bar, Key) -> real): (ps: seq<Point>)
    requires |base| == |bars|
  {
    seq(|bars|, i requires 0 <= i < |bars| => Point(base[i], base[i] + value(bars[i], k), bars[i]))
  }

  function Tops(ps: seq<Point>): seq<real> {
    seq(|ps|, i requires 0 <= i < |ps| => ps[i].hi)
  }

  function Zeros(n: nat): seq<real> {
    seq(n, i => 0.0)
  }

  /** Layer `j` as `d3.stack` computes it: every point starts at zero for the first key
      (`[0, value]`) and, under the default offset, at the top of layer `j - 1` after it. */
  function Layer(keys: seq<Key>, bars: seq<Bar>, j: nat, value: (Bar, Key) -> real): (ps: seq<Point>)
    requires j < |keys|
    ensures |ps| == |bars|
  {
    var base := if j == 0 then Zeros(|bars|) else Tops(Layer(keys, bars, j - 1, value));
    Band(bars, keys[j], base, value)
  }

  /** `d3.stack().keys(keys).value(value)(bars)` with the default order and offset: one
      series per key, in key order, holding one point per bar. The point of key `j` for a bar
      spans the sum of the bar's values under the keys before `j` to the sum through `j`.
      The chart leaves `value` at its default, `Value`. */
  function Stack(keys: seq<Key>, bars: seq<Bar>, value: (Bar, Key) -> real): (ss: seq<Series>)
    ensures |ss| == |keys|
    ensures forall j :: 0 <= j < |keys| ==> ss[j].key == keys[j] && |ss[j].points| == |bars|
    ensures forall j, i :: 0 <= j < |keys| && 0 <= i < |bars| ==>
              ss[j].points[i] ==
              Point(PrefixSum(bars[i], keys, j, value), PrefixSum(bars[i], keys, j + 1, value), bars[i])
  {
    var ss := seq(|keys|, j requires 0 <= j < |keys| => Series(keys[j], Layer(keys, bars, j, value)));
    assert forall j, i :: 0 <= j < |keys| && 0 <= i < |bars| ==>
             ss[j].points[i] ==
             Point(PrefixSum(bars[i], keys, j, value), PrefixSum(bars[i], keys, j + 1, value), bars[i]) by {
      forall j, i | 0 <= j < |keys| && 0 <= i < |bars|
        ensures ss[j].points[i] ==
                Point(PrefixSum(bars[i], keys, j, value), PrefixSum(bars[i], keys, j + 1, value), bars[i])
      {
        LayerPrefixSums(keys, bars, j, i, value);
      }
    }
    ss
  }

  /** Each layer after the first starts where the layer before it ends. */
  lemma LayerStartsOnPrevious(keys: seq<Key>, bars: seq<Bar>, j: nat, i: nat, value: (Bar, Key) -> real)
    requires 0 < j < |keys| && i < |bars|
    ensures Layer(keys, bars, j, value)[i].lo == Layer(keys, bars, j - 1, value)[i].hi
  {
    assert Layer(keys, bars, j, value)[i].lo == Tops(Layer(keys, bars, j - 1, value))[i];
  }

  /** Each point is as tall as its bar's value under its key. */
  lemma LayerHeight(keys: seq<Key>, bars: seq<Bar>, j: nat, i: nat, value: (Bar, Key) -> real)
    requires j < |keys| && i < |bars|
    ensures Layer(keys, bars, j, value)[i].hi == Layer(keys, bars, j, value)[i].lo + value(bars[i], keys[j])
    ensures Layer(keys, bars, j, value)[i].data == bars[i]
    ensures j == 0 ==> Layer(keys, bars, j, value)[i].lo == 0.0
  {
  }

  /** Layer `j` of a bar runs from the sum of the values under the keys before it to the
      sum including its own key. */
  lemma {:induction false} LayerPrefixSums(keys: seq<Key>, bars: seq<Bar>, j: nat, i: nat, value: (Bar, Key) -> real)
    requires j < |keys| && i < |bars|
    ensures Layer(keys, bars, j, value)[i].lo == PrefixSum(bars[i], keys, j, value)
    ensures Layer(keys, bars, j, value)[i].hi == PrefixSum(bars[i], keys, j, value) + value(bars[i], keys[j])
    ensures Layer(keys, bars, j, value)[i].data == bars[i]
  {
    if j > 0 {
      LayerPrefixSums(keys, bars, j - 1, i, value);
      LayerStartsOnPrevious(keys, bars, j, i, value);
    }
    LayerHeight(keys, bars, j, i, value);
  }

  /** The layers are contiguous: the first starts at zero, each starts where the previous one
      ends, and the last ends at the sum of all keys' values. */
  lemma StackContiguous(keys: seq<Key>, bars: seq<Bar>, i: nat, value: (Bar, Key) -> real)
    requires keys != [] && i < |bars|
    ensures Layer(keys, bars, 0, value)[i].lo == 0.0
    ensures Layer(keys, bars, |keys| - 1, value)[i].hi == PrefixSum(bars[i], keys, |keys|, value)
    ensures forall j :: 0 < j < |keys| ==>
              Layer(keys, bars, j - 1, value)[i].hi == Layer(keys, bars, j, value)[i].lo
  {
    LayerHeight(keys, bars, 0, i, value);
    LayerPrefixSums(keys, bars, |keys| - 1, i, value);
    forall j | 0 < j < |keys|
      ensures Layer(keys, bars, j - 1, value)[i].hi == Layer(keys, bars, j, value)[i].lo
    {
      LayerStartsOnPrevious(keys, bars, j, i, value);
    }
  }

  /** A bar's full height: `d.ASM + d.RPM + d.LF` after the rescale. */
  function Height(b: Bar): real {
    b.asm as real + b.rpm as real + b.lf
  }

  /** With the chart's keys each bar stacks as `[0, ASM]`, `[ASM, ASM+RPM]`,
      `[ASM+RPM, ASM+RPM+LF]`. */
  lemma StackBands(bars: seq<Bar>)
    ensures var ss := Stack(StackKeys, bars, Value);
      |ss| == 3 && ss[0].key == ASM && ss[1].key == RPM && ss[2].key == LF &&
      forall i :: 0 <= i < |bars| ==>
        var a, r := bars[i].asm as real, bars[i].rpm as real;
        ss[0].points[i].lo == 0.0 && ss[0].points[i].hi == a &&
        ss[1].points[i].lo == a && ss[1].points[i].hi == a + r &&
        ss[2].points[i].lo == a + r && ss[2].points[i].hi == Height(bars[i])
  {
    forall i | 0 <= i < |bars| ensures
      var ss := Stack(StackKeys, bars, Value);
      var a, r := bars[i].asm as real, bars[i].rpm as real;
      ss[0].points[i].lo == 0.0 && ss[0].points[i].hi == a &&
      ss[1].points[i].lo == a && ss[1].points[i].hi == a + r &&
      ss[2].points[i].lo == a + r && ss[2].points[i].hi == Height(bars[i])
    {
      LayerPrefixSums(StackKeys, bars, 0, i, Value);
      LayerPrefixSums(StackKeys, bars, 1, i, Value);
      LayerPrefixSums(StackKeys, bars, 2, i, Value);
    }
  }

  function Heights(bars: seq<Bar>): (hs: seq<real>)
    ensures |hs| == |bars| && forall i :: 0 <= i < |bars| ==> hs[i] == Height(bars[i])
  {
    if bars == [] then [] else Heights(bars[..|bars| - 1]) + [Height(bars[|bars| - 1])]
  }

  /** `d3.max(finalData, d => d.ASM + d.RPM + d.LF)`, the top of the y-domain `[0, max]`;
      undefined for no bars. */
  function YMax(bars: seq<Bar>): (m: Option<real>)
    ensures m.None? <==> bars == []
    ensures m.Some? ==> (forall i :: 0 <= i < |bars| ==> Height(bars[i]) <= m.value) &&
                        exists i :: 0 <= i < |bars| && Height(bars[i]) == m.value
  {
    if bars == [] then None else Some(MaxReal(Heights(bars)))
  }

  /** The y-domain's top is the tallest stack: every stack fits under it and one reaches it. */
  lemma YMaxIsTallestStack(bars: seq<Bar>)
    requires bars != []
    ensures var ss, m := Stack(StackKeys, bars, Value), YMax(bars).value;
      (forall i :: 0 <= i < |bars| ==> ss[2].points[i].hi <= m) &&
      exists i :: 0 <= i < |bars| && ss[2].points[i].hi == m
  {
    StackBands(bars);
  }

  /** The years that satisfy the tick test `v % 5 === 3`, in order. */
  function EndingInThreeOrEight(ys: seq<int>): (r: seq<int>)
    ensures forall y :: y in r <==> y in ys && JsRemainder(y, 5) == 3
  {
    if ys == [] then []
    else
      var p, y := ys[..|ys| - 1], ys[|ys| - 1];
      assert ys == p + [y];
      EndingInThreeOrEight(p) + (if JsRemainder(y, 5) == 3 then [y] else [])
  }

  /** `a.filter((v, i, a) => a.indexOf(v) === i && v % 5 === 3)` over the first `n` years. */
  function TickFilter(a: seq<int>, n: nat): seq<int>
    requires n <= |a|
  {
    if n == 0 then []
    else
      var v := a[n - 1];
      TickFilter(a, n - 1) + (if IndexOf(a, v) == n - 1 && JsRemainder(v, 5) == 3 then [v] else [])
  }

  /** The x-axis tick values. */
  function TickYears(a: seq<int>): seq<int> {
    TickFilter(a, |a|)
  }

  /** The `indexOf` test at position `n - 1` holds exactly when the year is not earlier. */
  lemma FirstAt(a: seq<int>, n: nat)
    requires 0 < n <= |a|
    ensures IndexOf(a, a[n - 1]) == n - 1 <==> a[n - 1] !in a[..n - 1]
  {
    var v := a[n - 1];
    if v in a[..n - 1] {
      var k :| 0 <= k < n - 1 && a[..n - 1][k] == v;
      assert a[k] == v;
    } else {
      IndexOfUnique(a, v, n - 1);
    }
  }

  lemma EndingSnoc(d: seq<int>, v: int)
    ensures EndingInThreeOrEight(d + [v]) ==
            EndingInThreeOrEight(d) + (if JsRemainder(v, 5) == 3 then [v] else [])
  {
    assert (d + [v])[..|d|] == d;
  }

  /** One step of the filter: year `n - 1` is kept when it is new and ends in 3 or 8. */
  lemma TickStep(a: seq<int>, n: nat)
    requires 0 < n <= |a|
    ensures TickFilter(a, n) ==
            TickFilter(a, n - 1) + (if a[n - 1] !in a[..n - 1] && JsRemainder(a[n - 1], 5) == 3 then [a[n - 1]] else [])
  {
    FirstAt(a, n);
  }

  /** The same step on the reference definition. */
  lemma DistinctEndingStep(p: seq<int>, v: int)
    ensures EndingInThreeOrEight(Distinct(p + [v])) ==
            EndingInThreeOrEight(Distinct(p)) + (if v !in p && JsRemainder(v, 5) == 3 then [v] else [])
  {
    DistinctSnoc(p, v);
    EndingSnoc(Distinct(p), v);
  }

  lemma {:induction false} TickFilterSpec(a: seq<int>, n: nat)
    requires n <= |a|
    ensures TickFilter(a, n) == EndingInThreeOrEight(Distinct(a[..n]))
  {
    if n > 0 {
      var p, v := a[..n - 1], a[n - 1];
      assert a[..n] == p + [v];
      TickFilterSpec(a, n - 1);
      TickStep(a, n);
      DistinctEndingStep(p, v);
    }
  }

  /** The filter keeps each distinct year once, and only those congruent to 3 modulo 5. */
  lemma TickYearsSpec(a: seq<int>)
    ensures TickYears(a) == EndingInThreeOrEight(Distinct(a))
  {
    TickFilterSpec(a, |a|);
    assert a[..|a|] == a;
  }

  /** Keeping only the tick years preserves the order of the years they come from. */
  lemma {:induction false} EndingInThreeOrEightKeepsOrder(ys: seq<int>)
    requires NoDups(ys)
    ensures var r := EndingInThreeOrEight(ys);
      NoDups(r) && forall i, j :: 0 <= i < j < |r| ==> IndexOf(ys, r[i]) < IndexOf(ys, r[j])
  {
    if ys != [] {
      var p, y := ys[..|ys| - 1], ys[|ys| - 1];
      assert ys == p + [y];
      assert NoDups(p);
      EndingInThreeOrEightKeepsOrder(p);
      forall x | x in p ensures IndexOf(ys, x) == IndexOf(p, x) && IndexOf(p, x) < |p| {
        IndexOfAppend(p, y, x);
      }
      IndexOfUnique(ys, y, |p|);
    }
  }

  /** The ticks of the chart's (already distinct) year domain: no year twice, each congruent
      to 3 modulo 5, exactly the domain's years with that property, in the domain's order. */
  lemma TickYearsOfDomain(xs: seq<int>)
    requires NoDups(xs)
    ensures var t := TickYears(xs);
      NoDups(t) &&
      (forall y :: y in t <==> y in xs && JsRemainder(y, 5) == 3) &&
      forall i, j :: 0 <= i < j < |t| ==> IndexOf(xs, t[i]) < IndexOf(xs, t[j])
  {
    TickYearsSpec(xs);
    DistinctOfNoDups(xs);
    EndingInThreeOrEightKeepsOrder(xs);
  }
}
