/** The loaded tables and the steps every scenario shares: deriving a flight's
    year from its date id, the inclusive year-range filter, the year bounds
    offered by the sliders (`min_max_years`) and the airline options
    (`airline_options`). */
module Tables {
  import opened Order
  import opened Grouping
  import opened Labels

  datatype Option<T> = None | Some(value: T)

  /** A row of the flights fact table, with the columns the analysis reads.
      `usForeign` is 1 for a US airline and 0 for a foreign one. */
  datatype Flight = Flight(
    dateId: int,
    airportId: int,
    airlineId: string,
    usForeign: int,
    passengers: int,
    depTotal: int,
    depCharter: int,
    depScheduled: int)

  /** A row of the dates dimension; `monthId` and `seasonId` point into the months and
      seasons dimensions. */
  datatype DateRow = DateRow(id: int, year: int, monthId: int, seasonId: int)

  /** The tables loaded once per session (`data_dict`); id-keyed dimensions are
      (id, attribute) pairs. */
  datatype Dataset = Dataset(
    flights: seq<Flight>,
    dates: seq<DateRow>,
    months: seq<(int, string)>,
    seasons: seq<(int, string)>,
    airlines: seq<(string, string)>)

  /** `series.map(table.set_index('id').squeeze())` for one key: the attribute of the row
      with id k, or missing when no row has that id. */
  function Lookup<K(==), V>(table: seq<(K, V)>, k: K): (r: Option<V>)
    ensures r.Some? <==> k in KeysOf(table)
    ensures r.Some? ==> (k, r.value) in table
  {
    if table == [] then None
    else
      assert KeysOf(table) == [table[0].0] + KeysOf(table[1..]);
      if table[0].0 == k then Some(table[0].1) else Lookup(table[1..], k)
  }

  /** The dates row with the given id, if any. */
  function DateOf(dates: seq<DateRow>, id: int): (r: Option<DateRow>)
    ensures r.Some? <==> exists d :: d in dates && d.id == id
    ensures r.Some? ==> r.value in dates && r.value.id == id
  {
    if dates == [] then None
    else if dates[0].id == id then Some(dates[0])
    else DateOf(dates[1..], id)
  }

  /** A flight with the year derived from its date id (missing for an unknown id). */
  datatype YearedFlight = YearedFlight(flight: Flight, year: Option<int>)

  /** `flights['year'] = flights['date_id'].map(...)`. */
  function WithYear(flights: seq<Flight>, dates: seq<DateRow>): (r: seq<YearedFlight>)
    ensures |r| == |flights|
    ensures forall i :: 0 <= i < |r| ==> r[i].flight == flights[i]
    ensures forall i :: 0 <= i < |r| ==>
              (r[i].year.Some? <==> exists d :: d in dates && d.id == flights[i].dateId)
    ensures forall i :: 0 <= i < |r| && r[i].year.Some? ==>
              exists d :: d in dates && d.id == flights[i].dateId && d.year == r[i].year.value
  {
    seq(|flights|, i requires 0 <= i < |flights| =>
      var d := DateOf(dates, flights[i].dateId);
      YearedFlight(flights[i], if d.Some? then Some(d.value.year) else None))
  }

  /** `year.isin(range(lo, hi + 1))`: a missing year is never in range. */
  predicate InYearRange(row: YearedFlight, lo: int, hi: int) {
    row.year.Some? && lo <= row.year.value <= hi
  }

  /** The year filter: exactly the rows whose year lies in [lo, hi], both ends included,
      each kept as often as it occurs. */
  function YearFilter(rows: seq<YearedFlight>, lo: int, hi: int): (r: seq<YearedFlight>)
    ensures forall x :: x in r ==> x.year.Some? && lo <= x.year.value <= hi
    ensures forall x :: x in rows && x.year.Some? && lo <= x.year.value <= hi ==> x in r
    ensures forall x :: multiset(r)[x] == if InYearRange(x, lo, hi) then multiset(rows)[x] else 0
  {
    var r := Filter(rows, (x: YearedFlight) => InYearRange(x, lo, hi));
    assert forall x :: x in rows && InYearRange(x, lo, hi) ==> x in r by {
      forall x | x in rows && InYearRange(x, lo, hi) ensures x in r {
        assert multiset(rows)[x] > 0;
      }
    }
    r
  }

  /** The flights of the year range, each with its year. */
  function InRange(data: Dataset, lo: int, hi: int): (rows: seq<YearedFlight>)
    ensures forall x :: x in rows ==> x.year.Some? && lo <= x.year.value <= hi
    ensures forall x :: multiset(rows)[x] ==
                        if InYearRange(x, lo, hi) then multiset(WithYear(data.flights, data.dates))[x] else 0
  {
    YearFilter(WithYear(data.flights, data.dates), lo, hi)
  }

  /** The smallest year in the dates table. */
  function MinYear(dates: seq<DateRow>): (m: int)
    requires dates != []
    ensures exists d :: d in dates && d.year == m
    ensures forall d :: d in dates ==> m <= d.year
  {
    if |dates| == 1 then dates[0].year
    else
      var m := MinYear(dates[1..]);
      assert dates == [dates[0]] + dates[1..];
      if dates[0].year < m then dates[0].year else m
  }

  /** The largest year in the dates table. */
  function MaxYear(dates: seq<DateRow>): (m: int)
    requires dates != []
    ensures exists d :: d in dates && d.year == m
    ensures forall d :: d in dates ==> d.year <= m
  {
    if |dates| == 1 then dates[0].year
    else
      var m := MaxYear(dates[1..]);
      assert dates == [dates[0]] + dates[1..];
      if dates[0].year > m then dates[0].year else m
  }

  /** `min_max_years`: the first and last year of the dates table, the bounds of every year
      slider. An empty table has none (numpy's `min` raises on an empty array). */
  function MinMaxYears(dates: seq<DateRow>): (r: Option<(int, int)>)
    ensures r.Some? <==> dates != []
    ensures r.Some? ==> r.value.0 <= r.value.1
    ensures r.Some? ==> exists d :: d in dates && d.year == r.value.0
    ensures r.Some? ==> exists d :: d in dates && d.year == r.value.1
    ensures r.Some? ==> forall d :: d in dates ==> r.value.0 <= d.year <= r.value.1
  {
    if dates == [] then None else Some((MinYear(dates), MaxYear(dates)))
  }

  /** The option for one airline id: missing when the airline has no name (NaN in `str.cat`). */
  function OptionFor(id: string, airlines: seq<(string, string)>): (o: Option<string>)
    ensures o.Some? <==> id in KeysOf(airlines)
    ensures o.Some? ==> exists name :: (id, name) in airlines && o.value == AirlineLabel(id, name)
  {
    var name := Lookup(airlines, id);
    if name.Some? then Some(AirlineLabel(id, name.value)) else None
  }

  /** The airline ids of the flights, distinct and ascending. */
  function SortedAirlineIds(flights: seq<Flight>): (ids: seq<string>)
    ensures StrictlySorted(ids, LexLess)
    ensures forall id :: id in ids <==> exists f :: f in flights && f.airlineId == id
  {
    LexLessIsStrictTotal();
    var all := seq(|flights|, i requires 0 <= i < |flights| => flights[i].airlineId);
    assert forall id :: id in all <==> exists f :: f in flights && f.airlineId == id by {
      forall id | id in all ensures exists f :: f in flights && f.airlineId == id {
        var i :| 0 <= i < |all| && all[i] == id;
        assert flights[i] in flights;
      }
      forall id | exists f :: f in flights && f.airlineId == id ensures id in all {
        var f :| f in flights && f.airlineId == id;
        var i :| 0 <= i < |flights| && flights[i] == f;
        assert all[i] == id;
      }
    }
    SortedDistinct(all, LexLess)
  }

  /** The options of the listed airline ids, in the same order. */
  function OptionsOf(ids: seq<string>, airlines: seq<(string, string)>): seq<Option<string>> {
    seq(|ids|, i requires 0 <= i < |ids| => OptionFor(ids[i], airlines))
  }

  /** `airline_options`: the `"id | name"` option of every airline that has flights, in
      ascending id order, each once. */
  function AirlineOptions(flights: seq<Flight>, airlines: seq<(string, string)>): (r: seq<Option<string>>)
    ensures NoDup(r)
    ensures forall o :: o in r <==> exists f :: f in flights && o == OptionFor(f.airlineId, airlines)
  {
    var ids := SortedAirlineIds(flights);
    var options := OptionsOf(ids, airlines);
    assert forall o :: o in options <==> exists f :: f in flights && o == OptionFor(f.airlineId, airlines) by {
      forall o | o in options ensures exists f :: f in flights && o == OptionFor(f.airlineId, airlines) {
        var i :| 0 <= i < |options| && options[i] == o;
        assert ids[i] in ids;
      }
      forall o | exists f :: f in flights && o == OptionFor(f.airlineId, airlines) ensures o in options {
        var f :| f in flights && o == OptionFor(f.airlineId, airlines);
        assert f.airlineId in ids;
        var i :| 0 <= i < |ids| && ids[i] == f.airlineId;
        assert options[i] == o;
      }
    }
    Unique(options)
  }

  lemma OptionsOfReadBack(ids: seq<string>, airlines: seq<(string, string)>)
    requires forall id :: id in ids ==> CleanId(id) && id in KeysOf(airlines)
    ensures forall i :: 0 <= i < |ids| ==>
              OptionsOf(ids, airlines)[i].Some? && ParseAirlineId(OptionsOf(ids, airlines)[i].value) == ids[i]
  {
    forall i | 0 <= i < |ids|
      ensures OptionsOf(ids, airlines)[i].Some? && ParseAirlineId(OptionsOf(ids, airlines)[i].value) == ids[i]
    {
      assert ids[i] in ids;
      AirlineLabelRoundTrip(ids[i], Lookup(airlines, ids[i]).value);
    }
  }

  /** When every airline id is clean and named, the options are one per airline, in strictly
      ascending id order, and parsing an option gives back its airline's id. */
  lemma AirlineOptionsReadBack(flights: seq<Flight>, airlines: seq<(string, string)>)
    requires forall f :: f in flights ==> CleanId(f.airlineId) && f.airlineId in KeysOf(airlines)
    ensures var r := AirlineOptions(flights, airlines);
            && (forall i :: 0 <= i < |r| ==> r[i].Some?)
            && (forall i, j :: 0 <= i < j < |r| ==>
                  LexLess(ParseAirlineId(r[i].value), ParseAirlineId(r[j].value)))
            && (forall f :: f in flights ==> exists i :: 0 <= i < |r| && ParseAirlineId(r[i].value) == f.airlineId)
  {
    var ids := SortedAirlineIds(flights);
    var options := OptionsOf(ids, airlines);
    OptionsOfReadBack(ids, airlines);
    assert NoDup(options) by {
      forall i, j | 0 <= i < j < |options| ensures options[i] != options[j] {
        assert LexLess(ids[i], ids[j]);
        LexIrreflexive(ids[i]);
      }
    }
    UniqueOfDistinct(options);
    assert AirlineOptions(flights, airlines) == options;
    forall f | f in flights
      ensures exists i :: 0 <= i < |options| && ParseAirlineId(options[i].value) == f.airlineId
    {
      assert f.airlineId in ids;
      var i :| 0 <= i < |ids| && ids[i] == f.airlineId;
      assert ParseAirlineId(options[i].value) == f.airlineId;
    }
  }
}
