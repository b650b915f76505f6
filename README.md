# US flights analysis, part A: the aggregation pipeline

This project models the data steps of the `PartA` page of the DIT161 flights
dashboard (`src/part_a.py`) and proves properties of them in Dafny. The page
loads a snowflake schema: a flights fact table with dates and airlines
dimensions, where each date in turn points to a month and a season. It
offers four scenarios, each a chain of pandas operations over the flights.
The first three work on the flights of a chosen year range. The fourth works
on all flights of the chosen origins:

1. **Busiest US airports.** Passengers are summed per (airport, year) and
   then per airport. The N largest totals are kept, and for those airports a
   per-year series is ordered by rank and then year.
2. **Flight types per period.** The departures of the chosen flight type,
   for one airline, are summed per (month or season, year). They are then
   averaged per period over the years the period occurs in, rounded half to
   even, and sorted highest first.
3. **US/foreign share.** Flights are counted per (year, origin label). Each
   count becomes a rounded percentage of its year, and the counts are
   summed per origin, US first.
4. **Airline traffic.** Flights of the chosen origins are scored. The
   scores are summed per airline, and the N largest sums are kept.

The steps the scenarios share are modelled once:
- the year of a flight from its date id;
- the inclusive year filter;
- the slider bounds (`min_max_years`);
- the airline options (`airline_options`) and reading an id back from one;
- the year-range label.

The pandas behaviour the pipeline relies on is written out:
- `groupby` orders groups by ascending key, with integers numerically and
  strings by code point. It drops rows whose key is missing.
- `nlargest(n)` keeps the n largest rows, the first of tied rows winning,
  when n is below the number of rows. Otherwise it sorts all rows
  descending with an unstable sort (see "Left out").
- `round(0)` rounds half to even.
- `unique` keeps first occurrences, in order of first occurrence.

Modules:

- `Order`: strict total orders; Python's string order; the two-level key
  order; sorting distinct keys.
- `Rounding`: round-half-even of a rational, with its characterisation.
- `Grouping`:
  - filter, group-sum, group-mean;
  - the regrouping law (summing per coarse key after summing per fine key
    equals summing per coarse key directly);
  - the stable descending sort and `nlargest`, with their stability and
    tie laws;
  - `unique`.
- `Labels`:
  - `strip` and `split('|')[0]`;
  - decimal rendering of integers;
  - the airline option label and its read-back;
  - the year-range label.
- `Tables`:
  - the dataset;
  - dimension lookups;
  - year derivation and the year filter;
  - `min_max_years`;
  - `airline_options`.
- `TopAirports`, `FlightTypes`, `OriginShare`, `AirlineTraffic`: the four
  scenarios.

Each scenario has a reference definition written directly over the rows,
such as the passengers of airport a over the range. Lemmas prove that the
pandas chain computes it.

## Model

| member | source | states |
|---|---|---|
| Tables.Lookup | src/part_a.py:136 | `map(table.set_index('id').squeeze())` for one key: the value is present exactly when some row has that id, and it is that row's attribute |
| Tables.DateOf | src/part_a.py:136 | the dates row of a date id is found exactly when one exists, and it carries that id |
| Tables.WithYear | src/part_a.py:136 | attaching the year keeps every flight in place. A flight has a year exactly when its date id is in the dates table, and the year is that date's year |
| Tables.YearFilter | src/part_a.py:157 | `year.isin(range(lo, hi + 1))` keeps exactly the rows whose year lies in [lo, hi], both ends included. Each is kept as often as it occurs, and a missing year is never kept |
| Tables.InRange | src/part_a.py:156-157 | the flights of a scenario's range are exactly the flights whose year lies within [lo, hi], each as often as it occurs |
| Tables.MinYear | src/part_a.py:36 | the smallest year of the dates table is a year of some date and no date's year is below it |
| Tables.MaxYear | src/part_a.py:37 | the largest year of the dates table is a year of some date and no date's year exceeds it |
| Tables.MinMaxYears | src/part_a.py:34-38 | `min_max_years` exists exactly for a non-empty dates table. Both bounds are years of the table, min <= max, and every year lies between them |
| Tables.OptionFor | src/part_a.py:29-30 | an airline's option exists exactly when its id has a name in the airlines table, and it is the label of the id with such a name |
| Tables.SortedAirlineIds | src/part_a.py:28 | the sorted airline ids are strictly ascending and are exactly the ids of the flights |
| Tables.AirlineOptions | src/part_a.py:27-31 | the options are duplicate-free and are exactly the options of the airlines that have flights |
| Tables.AirlineOptionsReadBack | src/part_a.py:29-30 | when ids are clean and named, the options are one per airline in strictly ascending id order, and parsing each gives back its id |
| Tables.OptionsOfReadBack | src/part_a.py:30 | every listed clean, named id yields an option that parses back to it |
| Labels.BeforeFirst | src/part_a.py:265 | `split('\|')[0]` is a prefix without the separator, followed in the input by the separator when shorter |
| Labels.SplitAtFirst | src/part_a.py:265 | splitting `a + c + b` at the first c, where c is not in a, gives back a and b |
| Labels.RStrip | src/part_a.py:265 | right strip returns a prefix that does not end in whitespace, and every character it drops is whitespace |
| Labels.LStrip | src/part_a.py:265 | left strip returns a suffix that does not start with whitespace, and every character it drops is whitespace |
| Labels.Strip | src/part_a.py:265 | `strip()` returns a contiguous piece of the input with only whitespace before and after it, and no whitespace at either end of its own. It keeps every non-whitespace character and leaves text without surrounding whitespace unchanged |
| Labels.AirlineLabel | src/part_a.py:30 | `id.str.cat(name, ' \| ')`: for an id without `\|`, the text before the first `\|` is the id followed by one space |
| Labels.ParseAirlineId | src/part_a.py:265 | `split('\|')[0].strip()` gives an id without `\|` or surrounding whitespace. It is a contiguous piece of the text before the first `\|`, with only whitespace around it there |
| Labels.AirlineLabelRoundTrip | src/part_a.py:265 | `("id \| name").split('\|')[0].strip()` is the id, for an id without `\|` or surrounding spaces |
| Labels.IntToString | src/part_a.py:176 | `f"{n}"` starts with a minus sign exactly for a negative n. The rest is a non-empty string of decimal digits that reads back as the magnitude of n |
| Labels.NatToString | src/part_a.py:176 | the rendering of a natural number is a non-empty string of decimal digits, with no leading zero except for 0 itself |
| Labels.NatToStringRoundTrip | src/part_a.py:176 | reading the rendered digits back gives the number |
| Labels.YearRangeLabel | src/part_a.py:176 | the year-range label starts with the low year. It is longer than that exactly when lo != hi, and then ends with the high year |
| Labels.ShowsByYearChart | src/part_a.py:195 | the by-year chart is drawn exactly when the year-range label is more than the low year alone |
| Labels.YearRangeLabelReadsBack | src/part_a.py:176 | the year-range label has a dash exactly when the by-year chart is shown (lo != hi). Its parts read back as lo and hi |
| Rounding.RoundHalfEven | src/part_a.py:272 | `round(0)` of num/den is the nearest integer, with halves going to the even neighbour |
| Rounding.RoundHalfEvenUnique | src/part_a.py:272 | any integer meeting the nearest-with-ties-to-even condition is the rounded value |
| Rounding.RoundExact | src/part_a.py:272 | an exact quotient is returned unchanged |
| Rounding.RoundComplement | src/part_a.py:326 | for an even total, two complementary shares round to values summing to the total |
| Grouping.Filter | src/part_a.py:157 | `df.loc[mask]` keeps exactly the rows satisfying the mask, each as often as in the input |
| Grouping.FilterSame | src/part_a.py:396 | masks that agree on every row select the same rows |
| Grouping.GroupSum | src/part_a.py:164 | `groupby(key).sum()` has strictly ascending keys, exactly the keys of the rows, and each group holds the sum of its rows |
| Grouping.GroupMean | src/part_a.py:272 | `groupby(key).mean().round(0)` has strictly ascending keys, exactly the keys of the rows, and each group holds its rounded mean |
| Grouping.Mean | src/part_a.py:272 | a present key has a positive row count, and its mean is the integer nearest to sum / count, an exact half going to the even neighbour |
| Grouping.CountFor | src/part_a.py:272 | a group's row count is positive exactly when the key is present |
| Grouping.Regroup | src/part_a.py:165 | summing the (airport, year) sums per airport equals summing the rows per airport |
| Grouping.SortDesc | src/part_a.py:278 | `sort_values(ascending=False)` is a permutation with non-increasing values |
| Grouping.SortDescStable | src/part_a.py:278 | rows of equal value leave the sort in their input order |
| Grouping.SortDescOfSorted | src/part_a.py:408 | sorting an already descending table changes nothing |
| Grouping.ValueClassesDetermine | src/part_a.py:408 | two descending tables with the same rows of every value, in the same order, are equal |
| Grouping.NLargest | src/part_a.py:166 | `nlargest(n)` has min(n, \|rows\|) rows. They come from the input in non-increasing order, no row left out is larger than a kept row, and ties keep input order |
| Grouping.NLargestAfterSort | src/part_a.py:408 | `sort_values(desc).nlargest(n)` equals `nlargest(n)` |
| Grouping.NotKeptNotLarger | src/part_a.py:166 | no group left out by `nlargest` has a larger value than a kept one |
| Grouping.TiesKeepFirst | src/part_a.py:166 | of groups with equal value, `nlargest` keeps those earlier in key order |
| Grouping.Unique | src/part_a.py:30 | `unique()` keeps exactly the values of the input, each once, in order of first occurrence |
| Grouping.UniqueOfDistinct | src/part_a.py:30 | `unique()` of a duplicate-free list is that list |
| Grouping.SumForAppend | src/part_a.py:164 | a group's sum over two concatenated tables is the sum of its sums |
| Order.LexLessIsStrictTotal | src/part_a.py:28 | Python's string comparison is a strict total order |
| Order.SortedDistinct | src/part_a.py:28 | sorting with duplicates removed gives a strictly ascending list of exactly the input's values |
| Order.PairLessIsStrictTotal | src/part_a.py:164 | the two-level group key order is a strict total order |
| TopAirports.PassengerRowsYearSum | src/part_a.py:158-164 | the `[year, airport, passengers]` projection summed per (airport, year) is that airport's passengers in that year |
| TopAirports.PassengerKeys | src/part_a.py:158-164 | the projection has an (airport, year) key exactly when the airport has flights in that year |
| TopAirports.PassengerRowsSum | src/part_a.py:158-165 | the projection summed per airport is the airport's passengers over the range |
| TopAirports.ByAirportYear | src/part_a.py:164 | the (airport, year) groups are strictly ascending and hold the passengers summed per group |
| TopAirports.AirportTotals | src/part_a.py:165 | the airport groups are strictly ascending and hold the per-airport sums of the (airport, year) sums |
| TopAirports.BlockMember | src/part_a.py:170 | an airport's rows of the per-year table are exactly the groups of that airport |
| TopAirports.SeriesMember | src/part_a.py:170-174 | the series holds exactly the (airport, year) groups of the ranked airports |
| TopAirports.SeriesSum | src/part_a.py:170-174 | a ranked airport's series rows sum to its per-year groups' total, and an unranked airport has none |
| TopAirports.Scenario1 | src/part_a.py:164-174 | the ranking has at most N rows with non-increasing totals |
| TopAirports.TopAirportsRanked | src/part_a.py:164-166 | the ranking has min(N, #airports) rows of distinct airports, non-increasing. Each holds the airport's passengers over the range, and no airport left out has more passengers than a kept one |
| TopAirports.TotalsAreAirportPassengers | src/part_a.py:164-165 | each airport total is the sum of its passengers over all rows in range |
| TopAirports.AirportCount | src/part_a.py:165 | there is one total per airport of the range |
| TopAirports.TiesGoToLowerId | src/part_a.py:166 | an airport left out never ties with a kept airport of higher id |
| TopAirports.ByYearContents | src/part_a.py:170 | the per-year series holds exactly one row per (ranked airport, year with flights), with that airport's passengers that year |
| TopAirports.ByYearOrder | src/part_a.py:172-174 | the series is ordered by the rank of its airport, then by ascending year |
| TopAirports.ByYearSums | src/part_a.py:170-174 | a ranked airport's series values sum to its ranked total |
| TopAirports.TopTitleAsWritten | src/part_a.py:177 | as written, the heading for several airports ends with the year-range label, but the single-airport heading ends with "lo-hi" |
| TopAirports.TopTitle | src/part_a.py:177 | the corrected heading ends with the year-range label for any N |
| TopAirports.TopTitleAsWrittenShowsRange | src/part_a.py:177 | as written, the single-airport heading for a one-year range shows "y-y", although the range label is "y" |
| TopAirports.TopTitleShowsRangeIffByYear | src/part_a.py:176-177 | the corrected heading shows a range exactly when the by-year chart is drawn |
| FlightTypes.FlightTypeColumn | src/part_a.py:254 | the charter or scheduled column is averaged exactly when that type alone is selected; otherwise the total |
| FlightTypes.FlightTypeColumnTotal | src/part_a.py:254 | for distinct selected types, the total is averaged exactly when both or neither are selected |
| FlightTypes.SelectedMeasure | src/part_a.py:254-272 | a flight contributes its charter departures when only charter is selected, its scheduled departures when only scheduled is, and its total otherwise |
| FlightTypes.PeriodLabel | src/part_a.py:220-222 | a flight has a month or season name exactly when its dates row is found and that row's month or season id is in the months or seasons table. The name is that id's entry there |
| FlightTypes.AirlineRows | src/part_a.py:265-266 | the airline mask keeps exactly the rows of the chosen airline, each as often as it occurs |
| FlightTypes.SelectedRows | src/part_a.py:264-266 | the scenario's rows are exactly the flights in the year range of the airline parsed from the option, each as often as it occurs |
| FlightTypes.PeriodRowsKeys | src/part_a.py:267-272 | the (period, year) projection has a key exactly when some flight of the rows has that period name and year |
| FlightTypes.PeriodRowsSum | src/part_a.py:267-272 | the projection's values summed per period are the period's departures over the rows |
| FlightTypes.ByPeriodYear | src/part_a.py:272 | the (period, year) groups are strictly ascending and hold the summed departures |
| FlightTypes.PeriodMeans | src/part_a.py:272 | each period holds the rounded mean of its (period, year) sums |
| FlightTypes.Scenario2 | src/part_a.py:263-278 | a result exists exactly for a present option, and its values are non-increasing |
| FlightTypes.PeriodRanking | src/part_a.py:272-278 | the period means sorted by `sort_values(ascending=False)` are non-increasing |
| FlightTypes.MeansKeys | src/part_a.py:272-278 | the sorted period means hold each period with flights in the rows exactly once |
| FlightTypes.MeansValue | src/part_a.py:272-278 | each sorted row holds its period's departures divided by the number of years the period has flights in, rounded half to even |
| FlightTypes.Scenario2Means | src/part_a.py:272-278 | each period with flights appears once, sorted highest first, valued at its departures over the range divided by the number of years it has flights in, rounded half to even |
| FlightTypes.SingleYearIsTotal | src/part_a.py:272 | over a one-year range each period's value is its departures in that year |
| OriginShare.OriginOf | src/part_a.py:323 | the flag maps to a label exactly when it is 0 or 1, and to US exactly when it is 1 |
| OriginShare.OriginLessIsNameOrder | src/part_a.py:324 | the label order is the string order of "Foreign" and "US" |
| OriginShare.OriginRowsKeys | src/part_a.py:323-324 | the labelled (year, origin) projection has a key exactly when some flight of that year has that origin |
| OriginShare.OriginRowsCount | src/part_a.py:323-324 | the projection summed per (year, origin) is the number of flights with that year and origin |
| OriginShare.OriginRowsByOrigin | src/part_a.py:323-340 | the projection summed per origin is that origin's number of flights |
| OriginShare.OriginCounts | src/part_a.py:324 | the (year, label) counts are strictly ascending and positive, and each is the number of labelled rows of its group |
| OriginShare.Percents | src/part_a.py:326 | each percentage is 100 * count / year total, rounded half to even, and the year total is positive |
| OriginShare.OriginTotals | src/part_a.py:340 | the per-label totals come US first, one per label present, each the sum of that label's counts |
| OriginShare.Scenario3 | src/part_a.py:323-340 | there is one percentage per count, with the same group key, and the totals put US before Foreign |
| OriginShare.Scenario3Counts | src/part_a.py:324 | there is a count exactly for each (year, label) with flights, and it is the number of those flights |
| OriginShare.Scenario3Percents | src/part_a.py:326 | each percentage is the group's flights as a share of the year's labelled flights, rounded half to even |
| OriginShare.PercentsSumTo100 | src/part_a.py:326 | in every year with labelled flights, the percentages sum to exactly 100 |
| OriginShare.Scenario3Totals | src/part_a.py:340 | each label's total is its number of flights in the range |
| OriginShare.Scenario3TotalKeys | src/part_a.py:340 | a label has a total exactly when it has flights in the range |
| OriginShare.YearTotalIsLabelled | src/part_a.py:326 | `transform('sum')` for a year is the number of labelled flights of that year |
| AirlineTraffic.Flag | src/part_a.py:386 | the flag of an origin reads back as that origin |
| AirlineTraffic.FlagRoundTrip | src/part_a.py:386 | a known flag, read as an origin and written back, is unchanged |
| AirlineTraffic.Selection | src/part_a.py:385 | the origins selected are the chosen ones, or both when none is chosen |
| AirlineTraffic.IncludedFlags | src/part_a.py:385-386 | an origin's flag is included exactly when the origin is chosen or nothing is, and only 0 and 1 occur |
| AirlineTraffic.Included | src/part_a.py:396 | the flag mask keeps exactly the flights of a selected origin, each as often as it occurs |
| AirlineTraffic.SelectionBySet | src/part_a.py:385-396 | only the set of chosen origins matters, with an empty choice meaning both |
| AirlineTraffic.EmptyChoiceIsBoth | src/part_a.py:385 | choosing nothing ranks the same airlines as choosing US and Foreign, in either order |
| AirlineTraffic.ScoreRowsSum | src/part_a.py:399-407 | the `[airline_id, weighted]` projection summed per airline is the airline's total score |
| AirlineTraffic.AirlineTotals | src/part_a.py:407 | the airline groups are strictly ascending and hold each airline's summed score |
| AirlineTraffic.Scenario4 | src/part_a.py:407-408 | the ranking has at most N rows with non-increasing sums |
| AirlineTraffic.TopAirlinesRanked | src/part_a.py:407-408 | the ranking has min(N, #airlines) rows of distinct airlines, non-increasing. Each holds the airline's summed score, and no airline left out has a larger sum than a kept one |
| AirlineTraffic.TiesGoToLowerAirlineId | src/part_a.py:408 | under a stable sort, an airline left out never ties with a kept airline of higher id |

## Left out

- The page itself: Streamlit widgets, menus, markdown, plotly figures, the image and the HTML component. These are rendering. Widget values (year range, N, selections, options) become parameters.
- Loading the CSV tables and the `st.cache` memoisation. The loaded tables are a `Dataset` value. The `PartA` object sets its fields once and never updates them, so no class is modelled.
- The scenario 4 weighted score: min-max normalisation over the filtered table and the weights, in float64. It is a function parameter `score(table, flight)` returning an integer. The correlation matrix is display-only.
- Floating point: percentages and means are exact rationals rounded half to even. float64 division can round a true half differently.
- Grouping.SortDesc: pandas `sort_values` defaults to an unstable quicksort. The model sorts stably, so which tied rows scenario 2 and scenario 4 keep is the stable sort's choice, not the source's unspecified one.
- Grouping.NLargest: when n is at least the number of rows, pandas `nlargest` returns `sort_values(ascending=False).head(n)`, an unstable sort, so tied rows come back in an unspecified order. The model keeps tied rows in input order in that case too. This fixes the order of tied airports in the scenario 1 ranking and in the by-year series (lines 166 and 172-174) where the source leaves it open.
- AirlineTraffic.TiesGoToLowerAirlineId: holds for the stable sort only. The source's unstable `sort_values` before `nlargest` leaves the tie order unspecified.
- Name enrichment of ranked airports and airlines, and the ranking strings (`zfill`, `str.cat`). These are display only.
- The by-year chart title (line 196) and the scenario 2 and 3 headings. These are display strings.
- A dimension with duplicate ids, which makes pandas `map` raise. The lookup takes the first match.
- A dimension of a single row, where `squeeze()` yields a scalar instead of a Series. It is not modelled.
- Airport ids are integers. Airline ids are strings compared by code point.
- An airline without a name gives a NaN option that cannot be split. `airline_options` yields a missing option for it, and scenario 2 returns no result for a missing option.
- The year bounds assume no missing year in the dates table. `min_max_years` on an empty table yields no bounds, where numpy raises.
- `src/app.py`, `home.py` and `part_b.py` are not part of this model. They hold page routing and static text.

## Findings

| source | as written | input that shows it | evidently intended | confidence | as-written member | corrected member |
|---|---|---|---|---|---|---|
| src/part_a.py:177 | the single-airport heading uses `f"{min}-{max}"` instead of the `year_range` label computed on the line above | N = 1 and a range of one year, e.g. 2005 to 2005: the heading reads "Busiest US airport in 2005-2005" | "Busiest US airport in 2005", as the N > 1 heading does through `year_range` | not executed; medium (display only) | TopAirports.TopTitleAsWrittenShowsRange | TopAirports.TopTitleShowsRangeIffByYear |
