/** Scenario 2, flight types per period: for one airline and a year range, the
    departures of the chosen type summed per (period, year), averaged per period
    over the years it occurs in, rounded, and sorted by that average, highest
    first. */
module FlightTypes {
  import opened Order
  import opened Rounding
  import opened Grouping
  import opened Labels
  import opened Tables

  /** The flight types offered by the multiselect. */
  datatype FlightKind = Charter | Scheduled

  /** The departures column averaged: `dep_charter_flights`, `dep_scheduled_flights` or
      `dep_total_flights`. */
  datatype FlightColumn = CharterFlights | ScheduledFlights | TotalFlights

  /** The period granularity of the select box. */
  datatype PeriodKind = Month | Season

  /** The column a selection averages: one selected type is that type; none or both is
      the total. */
  function FlightTypeColumn(sel: seq<FlightKind>): (c: FlightColumn)
    ensures c == CharterFlights <==> sel == [Charter]
    ensures c == ScheduledFlights <==> sel == [Scheduled]
  {
    if |sel| == 1 then
      assert sel == [sel[0]];
      match sel[0]
      case Charter => CharterFlights
      case Scheduled => ScheduledFlights
    else TotalFlights
  }

  /** For a selection of distinct types, the total is averaged exactly when both types or
      neither are selected. */
  lemma FlightTypeColumnTotal(sel: seq<FlightKind>)
    requires NoDup(sel)
    ensures FlightTypeColumn(sel) == TotalFlights <==> (Charter in sel <==> Scheduled in sel)
  {
    if |sel| >= 2 {
      assert sel[0] != sel[1];
      assert sel[0] in sel && sel[1] in sel;
    }
  }

  /** The departures of a flight in the given column. */
  function Measure(f: Flight, c: FlightColumn): int {
    match c
    case CharterFlights => f.depCharter
    case ScheduledFlights => f.depScheduled
    case TotalFlights => f.depTotal
  }

  /** The departures a flight contributes under a selection of flight types: the charter
      ones when only charter is selected, the scheduled ones when only scheduled is, and the
      total otherwise. */
  lemma SelectedMeasure(sel: seq<FlightKind>, f: Flight)
    ensures Measure(f, FlightTypeColumn(sel)) ==
            if sel == [Charter] then f.depCharter
            else if sel == [Scheduled] then f.depScheduled
            else f.depTotal
  {
  }

  /** The month or season name of a flight: its date row's month or season id looked up in
      the months or seasons table; missing when either lookup fails. */
  function PeriodLabel(data: Dataset, kind: PeriodKind, f: Flight): (p: Option<string>)
    ensures p.Some? ==>
              exists d :: && d in data.dates && d.id == f.dateId
                          && (kind == Month ==> (d.monthId, p.value) in data.months)
                          && (kind == Season ==> (d.seasonId, p.value) in data.seasons)
    ensures var d := DateOf(data.dates, f.dateId);
            p.Some? <==> && d.Some?
                         && (kind == Month ==> d.value.monthId in KeysOf(data.months))
                         && (kind == Season ==> d.value.seasonId in KeysOf(data.seasons))
    ensures var d := DateOf(data.dates, f.dateId);
            p.Some? ==> && d.Some?
                        && (kind == Month ==> (d.value.monthId, p.value) in data.months)
                        && (kind == Season ==> (d.value.seasonId, p.value) in data.seasons)
  {
    var d := DateOf(data.dates, f.dateId);
    if d.None? then None
    else match kind
      case Month => Lookup(data.months, d.value.monthId)
      case Season => Lookup(data.seasons, d.value.seasonId)
  }

  /** `airline_id == selected_airline.split('|')[0].strip()` on the rows of the range. */
  function AirlineRows(rows: seq<YearedFlight>, id: string): (r: seq<YearedFlight>)
    ensures forall x :: x in r <==> x in rows && x.flight.airlineId == id
    ensures forall x :: multiset(r)[x] == if x.flight.airlineId == id then multiset(rows)[x] else 0
  {
    var r := Filter(rows, (x: YearedFlight) => x.flight.airlineId == id);
    assert forall x :: x in rows && x.flight.airlineId == id ==> x in r by {
      forall x | x in rows && x.flight.airlineId == id ensures x in r {
        assert multiset(rows)[x] > 0;
      }
    }
    r
  }

  /** The rows the scenario aggregates: the chosen airline's flights in the year range. */
  function SelectedRows(data: Dataset, lo: int, hi: int, option: string): (rows: seq<YearedFlight>)
    ensures forall x :: x in rows ==> x.year.Some? && lo <= x.year.value <= hi
    ensures forall x :: x in rows ==> x.flight.airlineId == ParseAirlineId(option)
    ensures forall x :: multiset(rows)[x] ==
                        if InYearRange(x, lo, hi) && x.flight.airlineId == ParseAirlineId(option)
                        then multiset(WithYear(data.flights, data.dates))[x] else 0
  {
    AirlineRows(InRange(data, lo, hi), ParseAirlineId(option))
  }

  /** The projection to ((period, year), departures); a row without a period label makes no
      row, as groupby drops a missing key. */
  function PeriodRows(data: Dataset, kind: PeriodKind, c: FlightColumn, rows: seq<YearedFlight>)
    : seq<((string, int), int)>
    requires forall x :: x in rows ==> x.year.Some?
  {
    if rows == [] then []
    else
      assert rows[0] in rows;
      var p := PeriodLabel(data, kind, rows[0].flight);
      (if p.Some? then [((p.value, rows[0].year.value), Measure(rows[0].flight, c))] else [])
      + PeriodRows(data, kind, c, rows[1..])
  }

  /** The period of a (period, year) group key. */
  function PeriodOf(k: (string, int)): string {
    k.0
  }

  /** `groupby([period, 'year']).sum()`, ordered by period name and then year. */
  function ByPeriodYear(data: Dataset, kind: PeriodKind, c: FlightColumn, rows: seq<YearedFlight>)
    : (g: seq<((string, int), int)>)
    requires forall x :: x in rows ==> x.year.Some?
    ensures StrictlySorted(KeysOf(g), PairLess(LexLess, IntLess))
    ensures forall k :: k in KeysOf(g) <==> k in KeysOf(PeriodRows(data, kind, c, rows))
    ensures forall i :: 0 <= i < |g| ==> g[i].1 == SumFor(PeriodRows(data, kind, c, rows), g[i].0)
  {
    LexLessIsStrictTotal();
    IntLessIsStrictTotal();
    PairLessIsStrictTotal(LexLess, IntLess);
    GroupSum(PeriodRows(data, kind, c, rows), PairLess(LexLess, IntLess))
  }

  /** `.groupby(period).mean().round(0)` over the (period, year) sums. */
  function PeriodMeans(g: seq<((string, int), int)>): (m: seq<(string, int)>)
    ensures StrictlySorted(KeysOf(m), LexLess)
    ensures forall p :: p in KeysOf(m) <==> p in KeysOf(Project(g, PeriodOf))
    ensures forall i :: 0 <= i < |m| ==>
              CountFor(Project(g, PeriodOf), m[i].0) > 0
              && m[i].1 == RoundHalfEven(SumFor(Project(g, PeriodOf), m[i].0), CountFor(Project(g, PeriodOf), m[i].0))
  {
    LexLessIsStrictTotal();
    GroupMean(Project(g, PeriodOf), LexLess)
  }

  /** Scenario 2 for the year range [lo, hi], the period kind, the selected flight types and
      the chosen airline option. A missing option (an airline without a name) has no id to
      parse, and the scenario fails. */
  function Scenario2(data: Dataset, lo: int, hi: int, kind: PeriodKind, sel: seq<FlightKind>, option: Option<string>)
    : (r: Option<seq<(string, int)>>)
    ensures r.Some? <==> option.Some?
    ensures r.Some? ==> NonIncreasing(r.value)
  {
    if option.None? then None
    else Some(PeriodRanking(data, kind, FlightTypeColumn(sel), SelectedRows(data, lo, hi, option.value)))
  }

  /** The period means of the given rows, highest first. */
  function PeriodRanking(data: Dataset, kind: PeriodKind, c: FlightColumn, rows: seq<YearedFlight>)
    : (r: seq<(string, int)>)
    requires forall x :: x in rows ==> x.year.Some?
    ensures NonIncreasing(r)
  {
    SortDesc(PeriodMeans(ByPeriodYear(data, kind, c, rows)))
  }

  // ---------------------------------------------------------------------------
  // Reference definitions

  /** The departures in column c of the given rows whose period is p, over all years. */
  function PeriodTotal(data: Dataset, kind: PeriodKind, c: FlightColumn, rows: seq<YearedFlight>, p: string): int {
    if rows == [] then 0
    else
      (if PeriodLabel(data, kind, rows[0].flight) == Some(p) then Measure(rows[0].flight, c) else 0)
      + PeriodTotal(data, kind, c, rows[1..], p)
  }

  /** The years in which some of the given rows fall in period p. */
  ghost function YearsWith(data: Dataset, kind: PeriodKind, rows: seq<YearedFlight>, p: string): set<int> {
    set x | x in rows && x.year.Some? && PeriodLabel(data, kind, x.flight) == Some(p) :: x.year.value
  }

  /** Some of the given rows fall in period p. */
  ghost predicate HasPeriod(data: Dataset, kind: PeriodKind, rows: seq<YearedFlight>, p: string) {
    exists x :: x in rows && PeriodLabel(data, kind, x.flight) == Some(p)
  }

  // ---------------------------------------------------------------------------
  // What the scenario computes

  /** Each period with flights appears once, sorted by its value, highest first; the value is
      the period's departures over the range divided by the number of years in which the
      period has flights, rounded half to even. */
  lemma Scenario2Means(data: Dataset, lo: int, hi: int, kind: PeriodKind, sel: seq<FlightKind>, option: string)
    ensures var rows := SelectedRows(data, lo, hi, option);
            var c := FlightTypeColumn(sel);
            var r := Scenario2(data, lo, hi, kind, sel, Some(option)).value;
            && NonIncreasing(r)
            && NoDup(KeysOf(r))
            && (forall p :: p in KeysOf(r) <==> HasPeriod(data, kind, rows, p))
            && (forall i :: 0 <= i < |r| ==>
                  |YearsWith(data, kind, rows, r[i].0)| > 0
                  && r[i].1 == RoundHalfEven(PeriodTotal(data, kind, c, rows, r[i].0), |YearsWith(data, kind, rows, r[i].0)|))
  {
    var rows := SelectedRows(data, lo, hi, option);
    var c := FlightTypeColumn(sel);
    var r := Scenario2(data, lo, hi, kind, sel, Some(option)).value;
    Scenario2Keys(data, lo, hi, kind, sel, option);
    forall i | 0 <= i < |r|
      ensures |YearsWith(data, kind, rows, r[i].0)| > 0
              && r[i].1 == RoundHalfEven(PeriodTotal(data, kind, c, rows, r[i].0), |YearsWith(data, kind, rows, r[i].0)|)
    {
      Scenario2Value(data, lo, hi, kind, sel, option, i);
    }
  }

  /** The periods of scenario 2: each period with flights, once. */
  lemma Scenario2Keys(data: Dataset, lo: int, hi: int, kind: PeriodKind, sel: seq<FlightKind>, option: string)
    ensures var rows := SelectedRows(data, lo, hi, option);
            var r := Scenario2(data, lo, hi, kind, sel, Some(option)).value;
            && NoDup(KeysOf(r))
            && (forall p :: p in KeysOf(r) <==> HasPeriod(data, kind, rows, p))
  {
    var rows := SelectedRows(data, lo, hi, option);
    var c := FlightTypeColumn(sel);
    assert Scenario2(data, lo, hi, kind, sel, Some(option)).value == PeriodRanking(data, kind, c, rows);
    MeansKeys(data, kind, c, rows);
  }

  /** The sorted period means have one row per period that occurs in the rows. */
  lemma MeansKeys(data: Dataset, kind: PeriodKind, c: FlightColumn, rows: seq<YearedFlight>)
    requires forall x :: x in rows ==> x.year.Some?
    ensures var r := PeriodRanking(data, kind, c, rows);
            && NoDup(KeysOf(r))
            && (forall p :: p in KeysOf(r) <==> HasPeriod(data, kind, rows, p))
  {
    var m := PeriodMeans(ByPeriodYear(data, kind, c, rows));
    var r := SortDesc(m);
    LexLessIsStrictTotal();
    StrictlySortedNoDup(KeysOf(m), LexLess);
    SubMultisetDistinctKeys(r, m);
    SameKeys(r, m);
    forall p ensures p in KeysOf(m) <==> HasPeriod(data, kind, rows, p) {
      PeriodKeys(data, kind, c, rows, p);
    }
  }

  /** The value of one row of scenario 2. */
  lemma Scenario2Value(data: Dataset, lo: int, hi: int, kind: PeriodKind, sel: seq<FlightKind>, option: string, i: int)
    requires 0 <= i < |Scenario2(data, lo, hi, kind, sel, Some(option)).value|
    ensures var rows := SelectedRows(data, lo, hi, option);
            var c := FlightTypeColumn(sel);
            var r := Scenario2(data, lo, hi, kind, sel, Some(option)).value;
            |YearsWith(data, kind, rows, r[i].0)| > 0
            && r[i].1 == RoundHalfEven(PeriodTotal(data, kind, c, rows, r[i].0), |YearsWith(data, kind, rows, r[i].0)|)
  {
    var rows := SelectedRows(data, lo, hi, option);
    var c := FlightTypeColumn(sel);
    assert Scenario2(data, lo, hi, kind, sel, Some(option)).value == PeriodRanking(data, kind, c, rows);
    MeansValue(data, kind, c, rows, i);
  }

  /** Each row of the sorted period means holds its period's rounded mean over the years. */
  lemma MeansValue(data: Dataset, kind: PeriodKind, c: FlightColumn, rows: seq<YearedFlight>, i: int)
    requires forall x :: x in rows ==> x.year.Some?
    requires 0 <= i < |PeriodRanking(data, kind, c, rows)|
    ensures var r := PeriodRanking(data, kind, c, rows);
            |YearsWith(data, kind, rows, r[i].0)| > 0
            && r[i].1 == RoundHalfEven(PeriodTotal(data, kind, c, rows, r[i].0), |YearsWith(data, kind, rows, r[i].0)|)
  {
    var m := PeriodMeans(ByPeriodYear(data, kind, c, rows));
    var r := SortDesc(m);
    assert r[i] in multiset(m);
    var j :| 0 <= j < |m| && m[j] == r[i];
    PeriodMeanValue(data, kind, c, rows, m, j);
  }

  /** Over a single year, each period's value is its departures in that year. */
  lemma SingleYearIsTotal(data: Dataset, y: int, kind: PeriodKind, sel: seq<FlightKind>, option: string)
    ensures var rows := SelectedRows(data, y, y, option);
            var r := Scenario2(data, y, y, kind, sel, Some(option)).value;
            forall i :: 0 <= i < |r| ==> r[i].1 == PeriodTotal(data, kind, FlightTypeColumn(sel), rows, r[i].0)
  {
    var rows := SelectedRows(data, y, y, option);
    var r := Scenario2(data, y, y, kind, sel, Some(option)).value;
    forall i | 0 <= i < |r| ensures r[i].1 == PeriodTotal(data, kind, FlightTypeColumn(sel), rows, r[i].0) {
      var t := PeriodTotal(data, kind, FlightTypeColumn(sel), rows, r[i].0);
      Scenario2Value(data, y, y, kind, sel, option, i);
      OneYear(data, kind, rows, r[i].0, y);
      assert |YearsWith(data, kind, rows, r[i].0)| == 1;
      RoundExact(t, 1);
      assert t * 1 == t;
    }
  }

  /** Rows all of year y have at most that one year in any period. */
  lemma OneYear(data: Dataset, kind: PeriodKind, rows: seq<YearedFlight>, p: string, y: int)
    requires forall x :: x in rows ==> x.year.Some? && y <= x.year.value <= y
    ensures |YearsWith(data, kind, rows, p)| <= 1
  {
    var years := YearsWith(data, kind, rows, p);
    if y in years {
      assert years == {y};
    } else {
      assert years == {};
    }
  }

  // ---------------------------------------------------------------------------
  // Proof steps

  lemma SameKeys<K, V>(r: seq<(K, V)>, s: seq<(K, V)>)
    requires multiset(r) == multiset(s)
    ensures forall k :: k in KeysOf(r) <==> k in KeysOf(s)
  {
    forall k ensures k in KeysOf(r) ==> k in KeysOf(s) {
      if k in KeysOf(r) {
        var i :| 0 <= i < |r| && KeysOf(r)[i] == k;
        assert r[i] in multiset(s);
        var j :| 0 <= j < |s| && s[j] == r[i];
        assert KeysOf(s)[j] == k;
      }
    }
    forall k ensures k in KeysOf(s) ==> k in KeysOf(r) {
      if k in KeysOf(s) {
        var i :| 0 <= i < |s| && KeysOf(s)[i] == k;
        assert s[i] in multiset(r);
        var j :| 0 <= j < |r| && r[j] == s[i];
        assert KeysOf(r)[j] == k;
      }
    }
  }

  lemma {:induction false} PeriodRowsKeys(data: Dataset, kind: PeriodKind, c: FlightColumn, rows: seq<YearedFlight>, k: (string, int))
    requires forall x :: x in rows ==> x.year.Some?
    ensures k in KeysOf(PeriodRows(data, kind, c, rows)) <==>
            exists x :: x in rows && PeriodLabel(data, kind, x.flight) == Some(k.0) && x.year == Some(k.1)
  {
    if rows != [] {
      PeriodRowsKeys(data, kind, c, rows[1..], k);
      var p := PeriodLabel(data, kind, rows[0].flight);
      var head: seq<((string, int), int)> :=
        if p.Some? then [((p.value, rows[0].year.value), Measure(rows[0].flight, c))] else [];
      var tail := PeriodRows(data, kind, c, rows[1..]);
      assert PeriodRows(data, kind, c, rows) == head + tail;
      assert KeysOf(head + tail) == KeysOf(head) + KeysOf(tail);
      assert forall x :: x in rows <==> x == rows[0] || x in rows[1..];
      assert rows[0] in rows;
      if p.Some? {
        assert KeysOf(head) == [(p.value, rows[0].year.value)];
      } else {
        assert KeysOf(head) == [];
      }
    }
  }

  lemma {:induction false} PeriodRowsSum(data: Dataset, kind: PeriodKind, c: FlightColumn, rows: seq<YearedFlight>, p: string)
    requires forall x :: x in rows ==> x.year.Some?
    ensures SumFor(Project(PeriodRows(data, kind, c, rows), PeriodOf), p) == PeriodTotal(data, kind, c, rows, p)
  {
    if rows != [] {
      var l := PeriodLabel(data, kind, rows[0].flight);
      var m := Measure(rows[0].flight, c);
      var head: seq<((string, int), int)> := if l.Some? then [((l.value, rows[0].year.value), m)] else [];
      var tail := PeriodRows(data, kind, c, rows[1..]);
      var ph, pt := Project(head, PeriodOf), Project(tail, PeriodOf);
      assert PeriodRows(data, kind, c, rows) == head + tail;
      ProjectAppend(head, tail, PeriodOf);
      SumForAppend(ph, pt, p);
      assert SumFor(ph, p) == if l == Some(p) then m else 0 by {
        if l.Some? {
          assert |ph| == 1 && ph[0] == (PeriodOf(head[0].0), head[0].1) == (l.value, m);
          assert ph == [(l.value, m)];
        } else {
          assert ph == [];
        }
      }
      PeriodRowsSum(data, kind, c, rows[1..], p);
    }
  }

  lemma PeriodKeys(data: Dataset, kind: PeriodKind, c: FlightColumn, rows: seq<YearedFlight>, p: string)
    requires forall x :: x in rows ==> x.year.Some?
    ensures p in KeysOf(Project(ByPeriodYear(data, kind, c, rows), PeriodOf)) <==> HasPeriod(data, kind, rows, p)
  {
    if p in KeysOf(Project(ByPeriodYear(data, kind, c, rows), PeriodOf)) {
      PeriodKeyHasRow(data, kind, c, rows, p);
    }
    if HasPeriod(data, kind, rows, p) {
      PeriodRowHasKey(data, kind, c, rows, p);
    }
  }

  lemma PeriodKeyHasRow(data: Dataset, kind: PeriodKind, c: FlightColumn, rows: seq<YearedFlight>, p: string)
    requires forall x :: x in rows ==> x.year.Some?
    requires p in KeysOf(Project(ByPeriodYear(data, kind, c, rows), PeriodOf))
    ensures HasPeriod(data, kind, rows, p)
  {
    var g := ByPeriodYear(data, kind, c, rows);
    var i :| 0 <= i < |g| && KeysOf(Project(g, PeriodOf))[i] == p;
    assert KeysOf(Project(g, PeriodOf))[i] == Project(g, PeriodOf)[i].0 == PeriodOf(g[i].0);
    assert KeysOf(g)[i] == g[i].0 && g[i].0 in KeysOf(PeriodRows(data, kind, c, rows));
    PeriodRowsKeys(data, kind, c, rows, g[i].0);
  }

  lemma PeriodRowHasKey(data: Dataset, kind: PeriodKind, c: FlightColumn, rows: seq<YearedFlight>, p: string)
    requires forall x :: x in rows ==> x.year.Some?
    requires HasPeriod(data, kind, rows, p)
    ensures p in KeysOf(Project(ByPeriodYear(data, kind, c, rows), PeriodOf))
  {
    var g := ByPeriodYear(data, kind, c, rows);
    var x :| x in rows && PeriodLabel(data, kind, x.flight) == Some(p);
    PeriodRowsKeys(data, kind, c, rows, (p, x.year.value));
    assert (p, x.year.value) in KeysOf(g);
    var i :| 0 <= i < |g| && KeysOf(g)[i] == (p, x.year.value);
    ProjectKeyAt(g, PeriodOf, i);
  }

  /** The years of the (period, year) groups of period p. */
  ghost function GroupYears(ks: seq<(string, int)>, p: string): set<int> {
    set k | k in ks && k.0 == p :: k.1
  }

  lemma {:induction false} CountIsYears(g: seq<((string, int), int)>, p: string)
    requires NoDup(KeysOf(g))
    ensures CountFor(Project(g, PeriodOf), p) == |GroupYears(KeysOf(g), p)|
  {
    if g != [] {
      var ks := KeysOf(g);
      assert ks[1..] == KeysOf(g[1..]);
      assert NoDup(ks[1..]);
      CountIsYears(g[1..], p);
      assert Project(g, PeriodOf)[0].0 == g[0].0.0;
      assert Project(g, PeriodOf)[1..] == Project(g[1..], PeriodOf);
      assert forall k :: k in ks <==> k == ks[0] || k in ks[1..];
      if g[0].0.0 == p {
        assert GroupYears(ks, p) == {g[0].0.1} + GroupYears(ks[1..], p);
        assert g[0].0.1 !in GroupYears(ks[1..], p) by {
          assert ks[0] !in ks[1..];
        }
      } else {
        assert GroupYears(ks, p) == GroupYears(ks[1..], p);
      }
    }
  }

  lemma PeriodMeanValue(data: Dataset, kind: PeriodKind, c: FlightColumn, rows: seq<YearedFlight>,
                        m: seq<(string, int)>, j: int)
    requires forall x :: x in rows ==> x.year.Some?
    requires m == PeriodMeans(ByPeriodYear(data, kind, c, rows)) && 0 <= j < |m|
    ensures |YearsWith(data, kind, rows, m[j].0)| > 0
    ensures m[j].1 == RoundHalfEven(PeriodTotal(data, kind, c, rows, m[j].0), |YearsWith(data, kind, rows, m[j].0)|)
  {
    var g := ByPeriodYear(data, kind, c, rows);
    var p := m[j].0;
    LexLessIsStrictTotal();
    IntLessIsStrictTotal();
    PairLessIsStrictTotal(LexLess, IntLess);
    Regroup(PeriodRows(data, kind, c, rows), PairLess(LexLess, IntLess), PeriodOf, p);
    PeriodRowsSum(data, kind, c, rows, p);
    StrictlySortedNoDup(KeysOf(g), PairLess(LexLess, IntLess));
    CountIsYears(g, p);
    assert GroupYears(KeysOf(g), p) == YearsWith(data, kind, rows, p) by {
      forall y ensures y in GroupYears(KeysOf(g), p) <==> y in YearsWith(data, kind, rows, p) {
        PeriodRowsKeys(data, kind, c, rows, (p, y));
        if y in GroupYears(KeysOf(g), p) {
          var k: (string, int) :| k in KeysOf(g) && k.0 == p && k.1 == y;
          assert k == (p, y);
        }
        if y in YearsWith(data, kind, rows, p) {
          var x :| x in rows && x.year.Some? && PeriodLabel(data, kind, x.flight) == Some(p) && x.year.value == y;
          assert (p, y) in KeysOf(g);
        }
      }
    }
  }
}
