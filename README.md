# Air-traffic charts: the data pipeline and the slide navigator, in Dafny

`script.js` drives a D3 page with three charts over a monthly US air-traffic table. It also
drives a small slide navigator. This project models the parts of that script that compute
something. Every DOM, SVG and network call is left out.

* **Record parser** (`parseCSVData`, module `Records`, with `NumberText` for numeric text and `CountFormat` for the tooltips' count format).
  Each CSV row becomes a `TrafficRecord`. In the ASM, RPM and Pax column families every
  comma is removed before the text is read as a number. Year, Month and the three LF columns
  are read as they stand. A field that does not read is an explicit `ParseError`: the row
  and the first failing column, in reading order.
* **Date step** (`DateOrder`). Every record is keyed by its month
  (`Year * 12 + Month - 1`). The shared array is then sorted by that key in place. The sort
  is the method `SortByDate`, an insertion sort over an `array<TrafficRecord>`. It is proved
  equal to the functional stable sort `SortByDateSpec`. The lemmas prove that this sort is
  sorted, a permutation and stable, and that it is the only sequence with those properties.
* **Scale domains** (`Domains`).
  * The trend chart's date extent and passenger ceiling.
  * The heatmap's year bands (`new Set` order).
  * The reversed colour domain `[max Pax, 0]` and where a count lands on it.
* **Stacked-bar chart** (`Aggregation`, `Stacking`, `StackedBar`).
  * The filter selects a column triplet.
  * `d3.group` by year keeps first-occurrence order. `d3.sum` and `d3.mean` reduce each year.
  * LF is rescaled into ASM/RPM units, and the tooltip inverts that rescale.
  * The y-domain, the `v % 5 === 3` tick filter and `d3.stack` with keys ASM, RPM, LF.
  * The chart object (`StackedBarChart`) holds the current mode and the domains, ticks and
    layers. `UpdateChart` replaces all of them.
* **Page assembly** (`Charts.CreateCharts`). The parsed records are sorted once, and the
  heatmap and the stacked-bar chart read the sorted array. Because of that, their years come
  out ascending when every Month is a calendar month (1 to 12). Without the sort, or with a
  Month outside 1 to 12 (an empty Month cell reads 0), they can follow first-occurrence order.
* **Slide navigator** (`Slides`).
  * The state is `currentSlide`, each slide's display value and `nextBtn.disabled`.
  * `showSlide` wraps the index with JavaScript's truncating `%` (`JsMath`).
  * `changeSlide` reports "leave for the index page" as an outcome value instead of
    navigating.

Counts are `nat`. Load factors, means and stack bounds are `real`. A `d3.max` of an empty
array is `undefined` in the source, and `d3.extent` of one is `[undefined, undefined]`;
both are `None` here.

Three points about the order, the reading and the printing of the data:

* **Year order.** The stacked-bar groups come in first-occurrence order. They are guaranteed
  to ascend because the trend chart sorted the shared array first, provided every Month is
  1 to 12 (`Aggregation.YearTotalsAscendAfterSort`). Shuffling the input can change the
  order of the groups, but not which years get a total nor, on exact reals, any year's sums
  and mean (`Aggregation.YearsShared`, `Aggregation.YearTotalsIgnoreOrder`).
* **Comma stripping.** Only the ASM, RPM and Pax column families are stripped of commas.
  Year, Month and the LF columns are read as they stand, so a comma there makes the row fail
  (`Records.CommaInUnstrippedColumnFails`).
* **Tooltip counts.** `d3.format(",")` has no type, so it formats with twelve significant
  digits: below 10^12 a count prints with thousands separators and reads back, but from
  10^12 on it prints in exponent form (`1.28430859437e+12`) and no longer reads as a count
  (`CountFormat.FormatThenParse`).

## Model

| member | source | states |
|---|---|---|
| Records.ParseCSVData | script.js:32-48 | Success exactly when every row parses. The records then match the rows one for one, in order. Otherwise it reports the first failing row and that row's error, and every earlier row parses. |
| Records.ParseRow | script.js:33-47 | A row parses exactly when all fourteen columns read. A failure names the first column, in reading order, that does not read. |
| Records.StrippedColumnValue | script.js:36-47 | In a parsed record, each ASM/RPM/Pax-family field is the number spelled by its text with every comma removed. |
| Records.UnstrippedColumnValue | script.js:34-44 | In a parsed record, Year and Month hold the number their digits spell as they stand, and each LF column holds the decimal its text spells as it stands. |
| Records.CommaInUnstrippedColumnFails | script.js:34-44 | A comma in Year, Month or an LF column makes the row fail. |
| Records.SeparatorsIgnored | script.js:36-47 | A grouped spelling ("86,925,851") and a plain spelling of the same digits in a stripped column parse to the same result. |
| CountFormat.FormatThenParse | script.js:543-544 | A count below 10^12 formatted with `d3.format(",")` reads back, comma-stripped, as the same count. From 10^12 on the format is in exponent form and does not read as a count. |
| NumberText.GroupReadsBack | script.js:543-544 | Thousands-grouped digits read back as the value of the digits. |
| DateOrder.SortByDate | script.js:151-155 | After the in-place sort the array holds the stable date sort of its former contents. |
| DateOrder.InsertInto | script.js:155 | One pass moves `a[i]` into the sorted prefix as `Insert` does and leaves the rest of the array alone. |
| DateOrder.SortSorts | script.js:155 | The sorted sequence has non-decreasing month keys. |
| DateOrder.SortPermutes | script.js:155 | The sorted sequence is a permutation of the input. |
| DateOrder.SortStable | script.js:155 | Records of the same month keep their input order. |
| DateOrder.SortedStableIsUnique | script.js:155 | Two sequences that are both date-sorted and hold the same records, in the same order, on every date are equal. So any stable sort with this comparator gives the same sequence. |
| DateOrder.SortOfSorted | script.js:155 | Sorting date-ordered data changes nothing. |
| Domains.TrendXDomain | script.js:158 | `d3.extent` of the dates: `None` exactly for no records. Otherwise each bound bounds every record's key and is attained. |
| Domains.TrendYDomain | script.js:159 | `[0, M]`, where M is at least every record's Int_Pax, Dom_Pax and Pax and equals the peak of one record. `None` for no records. |
| Domains.PaxPeak | script.js:159 | `Math.max` of the three passenger counts: at least each of them and equal to one of them. |
| Domains.ExtentOfSorted | script.js:155-158 | After the sort the extent is the first and the last record's key. |
| Domains.DomainsIgnoreOrder | script.js:155-160 | Sequences holding the same records in any order have the same trend extent, passenger ceiling and colour domain. |
| Domains.HeatmapYears | script.js:285 | Each year of the data exactly once and nothing else, in first-occurrence order. |
| Domains.HeatmapYearsAscendAfterSort | script.js:285 | Built from the date-sorted array, with calendar months, the year bands strictly increase. |
| Domains.ColorDomain | script.js:300 | `[M, 0]`, where M is the largest Pax and is attained. `None` for no records. |
| Domains.HotAndCold | script.js:298-300 | On the reversed domain the busiest month maps to position 0 (red) and zero passengers to position 1 (blue). |
| Domains.ReversedPosition | script.js:298-310 | A cell of `v` passengers sits at position `1 - v / M`. |
| Domains.ColorPositionAntitone | script.js:298-310 | More passengers never give a colder colour, and every count in `[0, M]` stays inside `[0, 1]`. |
| Domains.LegendMatchesCells | script.js:344-357 | The legend stop at offset `o` is coloured at position `1 - o`. That is the position of a cell holding `o * M` passengers. |
| Domains.DegenerateColorDomain | script.js:298-300 | A `[0, 0]` domain paints every cell at the midpoint of the scale. |
| Aggregation.ModeOf | script.js:445-469 | "total", "domestic" and "international" select Total, Domestic and International. Each holds in both directions. |
| Aggregation.FilterRows | script.js:447-468 | One row per record, in order, holding the year and the triplet the mode picks. |
| Aggregation.GroupByYearSpec | script.js:473 | The group keys are the distinct years in first-occurrence order. Each group holds exactly that year's rows, in input order. |
| Aggregation.YearTotalsSpec | script.js:473-479 | One total per distinct year, in first-occurrence order. Its ASM and RPM are the sums, and its LF the mean, of that year's rows under the chosen mode. |
| Aggregation.MeanBounds | script.js:478 | The mean of a group lies between any lower and upper bound of its values. |
| Aggregation.SumNatPermutes | script.js:476-477 | `d3.sum` of a year's ASM or RPM does not depend on the order of the rows. |
| Aggregation.YearsShared | script.js:473-479 | For two orderings of the same records, every year that gets a total under one gets a total under the other. |
| Aggregation.YearTotalsIgnoreOrder | script.js:473-479 | For two orderings of the same records, totals of the same year are equal: same sums of ASM and RPM and same mean LF. |
| Aggregation.YearTotalsAscendAfterSort | script.js:473-479 | On the date-sorted array, with calendar months, the per-year totals come in strictly increasing year order. |
| Stacking.Rescaled | script.js:481-486 | One bar per year total, in order, with LF rescaled to `LF / 100 * (ASM + RPM)`. |
| Stacking.TooltipInvertsRescale | script.js:545 | The tooltip's `LF / (ASM + RPM)` gives back the year's mean LF over 100 when ASM + RPM is not 0. At 0 it has no value (NaN in the source). |
| Stacking.Stack | script.js:501-503 | One series per key, in key order, with one point per bar. The point of key `j` spans the sum of the bar's values under the keys before `j` to the sum through key `j`, and carries the bar as its datum. |
| Stacking.LayerPrefixSums | script.js:501-503 | Layer `j` of a bar runs from the sum of the values under the keys before `j` to that sum plus its own value, and carries the bar as its datum. |
| Stacking.StackContiguous | script.js:501-503 | The first band starts at 0, and each band starts where the previous one ends. The last band ends at the sum of all the keys' values. |
| Stacking.StackBands | script.js:501-503 | With keys ASM, RPM, LF each bar stacks as `[0, A]`, `[A, A+R]` and `[A+R, A+R+LF]`. |
| Stacking.YMax | script.js:489 | The largest `ASM + RPM + LF` over the bars, attained. `None` for no bars. |
| Stacking.YMaxIsTallestStack | script.js:489 | The y-domain top is the top of the tallest stack: every stack fits under it and one reaches it. |
| Stacking.EndingInThreeOrEight | script.js:492 | Keeps exactly the years whose JavaScript remainder modulo 5 is 3. |
| Stacking.TickYearsSpec | script.js:491-492 | The `indexOf` filter equals "distinct years, then those ending in 3 or 8". |
| Stacking.TickYearsOfDomain | script.js:491-492 | Over a duplicate-free domain the ticks have no duplicates. They are exactly the domain's years with `y % 5 === 3`, in the domain's order. |
| StackedBar.XDomainIsDistinctYears | script.js:488 | Under every mode the x-domain is the data's distinct years in first-occurrence order. |
| StackedBar.TicksOfChart | script.js:491-492 | The chart's ticks are the x-domain years congruent to 3 modulo 5, once each and in order. |
| StackedBar.XDomainAscendsAfterSort | script.js:488 | On the date-sorted array, with calendar months, the x-domain strictly increases. |
| StackedBar.StackedBarChart.constructor | script.js:557-558 | The chart starts in Total mode, with domains, ticks and layers computed from the data. |
| StackedBar.StackedBarChart.UpdateChart | script.js:443-503 | A known filter sets the mode and replaces the x-domain, y-domain, ticks and layers with those of the data under that mode. Any other filter throws and changes nothing. |
| Charts.CreateCharts | script.js:567-574 | A parse failure stops the page. Otherwise the records are sorted by date once, the trend and heatmap domains are taken from the sorted array, and the stacked-bar chart is created on it. |
| Charts.SortedScales | script.js:151-160 | The sort leaves the trend extent, the passenger ceiling and the colour domain unchanged. With calendar months it makes the heatmap's years ascend. |
| JsMath.JsDivision | script.js:12 | JavaScript's `%` completes the truncated division. It is smaller in size than the divisor and takes the dividend's sign. |
| Slides.WrapInRange | script.js:12 | For `n >= -len` the new index `(n + len) % len` is `n` modulo `len`, inside the deck. |
| Slides.WrapBelowRange | script.js:12 | Below `-len`, and not a multiple of `len`, the new index is negative. |
| Slides.ShowKeepsDeckValid | script.js:10-15 | From a consistent deck, `showSlide(n)` with `n >= -len` shows slide `n mod len` only and hides the old slide. No other display changes, and "next" is disabled exactly on the last slide. |
| Slides.ShowBelowRangeBreaksDeck | script.js:10-13 | A negative new index hides the old slide and shows none. Every later `showSlide` then throws without effect. |
| Slides.StartShowsFirstSlide | script.js:29 | The initial `showSlide(0)` shows slide 0 alone. On an empty deck it throws and changes nothing. |
| Slides.StepsWithinDeck | script.js:17-23 | "Previous" on slide 0 leaves for the index page and changes nothing. Any other single step moves one slide, and "next" from the last slide wraps to slide 0. |
| Slides.SlideDeck.ShowSlide | script.js:10-15 | The new display values, index and button state are `Show` of the old state. |
| Slides.SlideDeck.ChangeSlide | script.js:17-23 | The new state and the outcome are `Change` of the old state. |
| Slides.SlideDeck.UpdateButtons | script.js:25-27 | `nextBtn.disabled` holds exactly when the current slide is the last one. |
| Slides.SlideDeck.constructor | script.js:1-29 | The deck after the page's `showSlide(0)`. |

## Left out

- The CSV fetch and its promise chain: this is I/O. `CreateCharts` takes the rows `d3.csv` would deliver.
- Rendering is not modelled: SVG and DOM creation, axes, legends, the gradient element, tooltip HTML and positioning, transitions, the enter/exit reconciliation and the "Filter: …" caption.
- Event wiring (`.on("click")`, `mouseover`) and the `window.location` redirects, including `btnHandler`. `changeSlide` returns `LeftForIndex` instead of navigating.
- The two trend-chart annotations: they are constant text handed to an external library.
- Pixel scales and colours: band and time scale pixel mapping, `interpolateRdYlBu`, and the float offsets of `d3.range(0, 1.01, 0.01)`. Colours are modelled as the interpolator position `ColorPosition`.
- Number formatting other than `d3.format(",")` on counts: `customTickFormat`, `.2%`, `d3.format("d")` and `%B` month names.
- Records.ParseRow: JavaScript's unary `+` is modelled only for unsigned decimal digits, and for the LF columns digits with at most one decimal point. Signs, exponents, surrounding white space, hexadecimal and `Infinity` are failures here, though `+` accepts them.
- Records.ParseRow: a fractional Year, Month or count is a failure here, though `+` would read it.
- Records.ParseCSVData: a field that does not read is a failure of the whole batch. The script would instead carry `NaN` into the charts. An absent stripped column is `MissingField` (the script throws on `undefined.replace`). An absent unstripped column is `NotANumber`.
- DateOrder.DateKey: the `d.date` property the script adds to each record is a function of Year and Month here, not a stored field. The key `Year * 12 + Month - 1` matches `d3.timeParse("%Y-%m")` for 100 <= Year <= 9999, and below year 100 only for months 1 to 12. Below year 100 d3 sets the full year after building the date, so a month outside 1 to 12 loses its carry into the year. From year 10000 on `%Y` reads only four digits and the date is `null`. Month text that `%m` cannot read (three digits or more) also gives a `null` date. None of these cases is modelled.
- Floating point is not modelled: load factors, means, rescaled values and stack bounds are exact reals.
- Stacking.TooltipInvertsRescale: holds on exact reals; the script's doubles round the rescale and the division.
- Aggregation.YearTotalsIgnoreOrder: holds on exact reals; `d3.mean` keeps a running double sum, so in the script a different row order can change a year's mean in its last bit.
- StackedBar.StackedBarChart: the chart holds the records as a sequence value, not a reference to the shared array. After the sort nothing writes to that array again, so no aliasing effect is lost.
- Charts.CreateCharts: the page runs `showSlide(0)` before it builds the charts. The model assumes that start succeeded. With no slide, or with no `nextBtn` element, the script throws there and never builds the charts. A missing `nextBtn` is not modelled.
- Slides.SlideDeck: a slide's `style.display` is one of three values (unset, `"none"`, `"block"`). The slide elements themselves, and the `prevBtn` the script never disables, are not modelled.
