/** Scenario 1, the busiest US airports: passengers summed per (airport, year),
    then per airport; the N largest totals; and the per-year series of those N
    airports, ordered by rank and then by year. */
module TopAirports {
  import opened Order
  import opened Grouping
  import opened Labels
  import opened Tables

  /** The ranked totals and the per-year series of the ranked airports. */
  datatype Ranking = Ranking(top: seq<(int, int)>, byYear: seq<((int, int), int)>)

  /** The airport of an (airport, year) group key. */
  function AirportOf(k: (int, int)): int {
    k.0
  }

  /** Reference definition: the passengers of the given rows at airport a. */
  function AirportPassengers(rows: seq<YearedFlight>, a: int): int {
    if rows == [] then 0
    else (if rows[0].flight.airportId == a then rows[0].flight.passengers else 0) + AirportPassengers(rows[1..], a)
  }

  /** The airports the given rows mention. */
  function AirportsIn(rows: seq<YearedFlight>): set<int> {
    set x | x in rows :: x.flight.airportId
  }

  /** The projection `df[['year', 'airport_usa_id', 'psg_total_flights']]`. */
  function PassengerRows(rows: seq<YearedFlight>): seq<((int, int), int)>
    requires forall x :: x in rows ==> x.year.Some?
  {
    seq(|rows|, i requires 0 <= i < |rows| =>
      ((rows[i].flight.airportId, rows[i].year.value), rows[i].flight.passengers))
  }

  /** `groupby(['airport_usa_id', 'year']).sum()`, ordered by airport and then year. */
  function ByAirportYear(rows: seq<YearedFlight>): (g: seq<((int, int), int)>)
    requires forall x :: x in rows ==> x.year.Some?
    ensures StrictlySorted(KeysOf(g), PairLess(IntLess, IntLess))
    ensures forall k :: k in KeysOf(g) <==> k in KeysOf(PassengerRows(rows))
    ensures forall i :: 0 <= i < |g| ==> g[i].1 == SumFor(PassengerRows(rows), g[i].0)
  {
    IntLessIsStrictTotal();
    PairLessIsStrictTotal(IntLess, IntLess);
    GroupSum(PassengerRows(rows), PairLess(IntLess, IntLess))
  }

  /** `groupby('airport_usa_id').sum()` over the (airport, year) groups. */
  function AirportTotals(g: seq<((int, int), int)>): (t: seq<(int, int)>)
    ensures StrictlySorted(KeysOf(t), IntLess)
    ensures forall a :: a in KeysOf(t) <==> a in KeysOf(Project(g, AirportOf))
    ensures forall i :: 0 <= i < |t| ==> t[i].1 == SumFor(Project(g, AirportOf), t[i].0)
  {
    IntLessIsStrictTotal();
    GroupSum(Project(g, AirportOf), IntLess)
  }

  /** The (airport, year) groups of airport a, in their order in g. */
  function Block(g: seq<((int, int), int)>, a: int): seq<((int, int), int)> {
    if g == [] then []
    else if g[0].0.0 == a then [g[0]] + Block(g[1..], a)
    else Block(g[1..], a)
  }

  /** An airport's block holds exactly that airport's groups. */
  lemma {:induction false} BlockMember(g: seq<((int, int), int)>, a: int, x: ((int, int), int))
    ensures x in Block(g, a) <==> x in g && x.0.0 == a
  {
    if g != [] {
      BlockMember(g[1..], a, x);
      assert x in g <==> x == g[0] || x in g[1..];
    }
  }

  /** The groups of the ranked airports, one airport after another in rank order. */
  function Series(g: seq<((int, int), int)>, top: seq<(int, int)>): seq<((int, int), int)> {
    if top == [] then [] else Block(g, top[0].0) + Series(g, top[1..])
  }

  /** Scenario 1 for the year range [lo, hi] and the N = n busiest airports: the ranked
      totals and the per-year series of the ranked airports. */
  function Scenario1(data: Dataset, lo: int, hi: int, n: nat): (r: Ranking)
    ensures |r.top| <= n && NonIncreasing(r.top)
  {
    var g := ByAirportYear(InRange(data, lo, hi));
    var top := NLargest(AirportTotals(g), n);
    Ranking(top, Series(g, top))
  }

  /** The ranking holds N airports, or all of them when there are fewer, each with its
      passengers over the range, by non-increasing total; no airport left out has more
      passengers than one kept. */
  lemma TopAirportsRanked(data: Dataset, lo: int, hi: int, n: nat)
    ensures var rows := InRange(data, lo, hi);
            var top := Scenario1(data, lo, hi, n).top;
            && |top| == Min(n, |AirportsIn(rows)|)
            && NonIncreasing(top)
            && NoDup(KeysOf(top))
            && (forall i :: 0 <= i < |top| ==>
                  top[i].0 in AirportsIn(rows) && top[i].1 == AirportPassengers(rows, top[i].0))
            && (forall a, i :: a in AirportsIn(rows) && a !in KeysOf(top) && 0 <= i < |top| ==>
                  AirportPassengers(rows, a) <= top[i].1)
  {
    var rows := InRange(data, lo, hi);
    var totals := AirportTotals(ByAirportYear(rows));
    assert Scenario1(data, lo, hi, n).top == NLargest(totals, n);
    IntLessIsStrictTotal();
    StrictlySortedNoDup(KeysOf(totals), IntLess);
    SubMultisetDistinctKeys(NLargest(totals, n), totals);
    AirportCount(rows);
    KeptTotals(rows, n);
    NotKeptPassengers(rows, n);
  }

  lemma KeptTotals(rows: seq<YearedFlight>, n: nat)
    requires forall x :: x in rows ==> x.year.Some?
    ensures var top := NLargest(AirportTotals(ByAirportYear(rows)), n);
            forall i :: 0 <= i < |top| ==>
              top[i].0 in AirportsIn(rows) && top[i].1 == AirportPassengers(rows, top[i].0)
  {
    var totals := AirportTotals(ByAirportYear(rows));
    var top := NLargest(totals, n);
    TotalsAreAirportPassengers(rows);
    forall i | 0 <= i < |top| ensures top[i].0 in AirportsIn(rows) && top[i].1 == AirportPassengers(rows, top[i].0) {
      assert top[i] in multiset(totals);
    }
  }

  lemma NotKeptPassengers(rows: seq<YearedFlight>, n: nat)
    requires forall x :: x in rows ==> x.year.Some?
    ensures var top := NLargest(AirportTotals(ByAirportYear(rows)), n);
            forall a, i :: a in AirportsIn(rows) && a !in KeysOf(top) && 0 <= i < |top| ==>
              AirportPassengers(rows, a) <= top[i].1
  {
    var totals := AirportTotals(ByAirportYear(rows));
    var top := NLargest(totals, n);
    TotalsAreAirportPassengers(rows);
    AirportKeys(rows);
    NotKeptNotLarger(totals, n);
    forall a, i | a in AirportsIn(rows) && a !in KeysOf(top) && 0 <= i < |top|
      ensures AirportPassengers(rows, a) <= top[i].1
    {
      assert a in KeysOf(totals);
      var j :| 0 <= j < |totals| && totals[j].0 == a;
    }
  }

  // ---------------------------------------------------------------------------
  // The totals

  lemma {:induction false} PassengerRowsSum(rows: seq<YearedFlight>, a: int)
    requires forall x :: x in rows ==> x.year.Some?
    ensures SumFor(Project(PassengerRows(rows), AirportOf), a) == AirportPassengers(rows, a)
  {
    if rows != [] {
      assert Project(PassengerRows(rows), AirportOf)[1..] == Project(PassengerRows(rows[1..]), AirportOf);
      PassengerRowsSum(rows[1..], a);
    }
  }

  lemma AirportKeys(rows: seq<YearedFlight>)
    requires forall x :: x in rows ==> x.year.Some?
    ensures forall a :: a in KeysOf(AirportTotals(ByAirportYear(rows))) <==> a in AirportsIn(rows)
  {
    forall a ensures a in KeysOf(Project(ByAirportYear(rows), AirportOf)) <==> a in AirportsIn(rows) {
      if a in KeysOf(Project(ByAirportYear(rows), AirportOf)) {
        AirportKeyHasRow(rows, a);
      }
      if a in AirportsIn(rows) {
        AirportRowHasKey(rows, a);
      }
    }
  }

  lemma AirportKeyHasRow(rows: seq<YearedFlight>, a: int)
    requires forall x :: x in rows ==> x.year.Some?
    requires a in KeysOf(Project(ByAirportYear(rows), AirportOf))
    ensures a in AirportsIn(rows)
  {
    var p := PassengerRows(rows);
    var g := ByAirportYear(rows);
    var i :| 0 <= i < |g| && Project(g, AirportOf)[i].0 == a;
    assert KeysOf(g)[i] == g[i].0;
    assert g[i].0 in KeysOf(p);
    var j :| 0 <= j < |p| && KeysOf(p)[j] == g[i].0;
    assert rows[j] in rows;
  }

  lemma AirportRowHasKey(rows: seq<YearedFlight>, a: int)
    requires forall x :: x in rows ==> x.year.Some?
    requires a in AirportsIn(rows)
    ensures a in KeysOf(Project(ByAirportYear(rows), AirportOf))
  {
    var p := PassengerRows(rows);
    var g := ByAirportYear(rows);
    var x :| x in rows && x.flight.airportId == a;
    var j :| 0 <= j < |rows| && rows[j] == x;
    assert KeysOf(p)[j] == p[j].0;
    assert p[j].0 in KeysOf(g);
    var i :| 0 <= i < |g| && KeysOf(g)[i] == p[j].0;
    ProjectKeyAt(g, AirportOf, i);
    assert AirportOf(p[j].0) == a;
  }

  /** Each airport's total is the sum over years of its per-year sums, which is its
      passengers over all of its rows in the range. */
  lemma TotalsAreAirportPassengers(rows: seq<YearedFlight>)
    requires forall x :: x in rows ==> x.year.Some?
    ensures var t := AirportTotals(ByAirportYear(rows));
            forall i :: 0 <= i < |t| ==>
              t[i].0 in AirportsIn(rows) && t[i].1 == AirportPassengers(rows, t[i].0)
  {
    var t := AirportTotals(ByAirportYear(rows));
    AirportKeys(rows);
    IntLessIsStrictTotal();
    PairLessIsStrictTotal(IntLess, IntLess);
    forall i | 0 <= i < |t| ensures t[i].0 in AirportsIn(rows) && t[i].1 == AirportPassengers(rows, t[i].0) {
      assert t[i].0 in KeysOf(t);
      Regroup(PassengerRows(rows), PairLess(IntLess, IntLess), AirportOf, t[i].0);
      PassengerRowsSum(rows, t[i].0);
    }
  }

  lemma AirportCount(rows: seq<YearedFlight>)
    requires forall x :: x in rows ==> x.year.Some?
    ensures |AirportTotals(ByAirportYear(rows))| == |AirportsIn(rows)|
  {
    var t := AirportTotals(ByAirportYear(rows));
    AirportKeys(rows);
    IntLessIsStrictTotal();
    StrictlySortedNoDup(KeysOf(t), IntLess);
    NoDupCard(KeysOf(t));
    assert (set x | x in KeysOf(t)) == AirportsIn(rows);
  }

  /** Ties go to the first group seen, the lower airport id: an airport left out never has the
      same total as a kept airport with a higher id. */
  lemma TiesGoToLowerId(data: Dataset, lo: int, hi: int, n: nat)
    ensures var rows := InRange(data, lo, hi);
            var top := Scenario1(data, lo, hi, n).top;
            forall a, i ::
              a in AirportsIn(rows) && a !in KeysOf(top) && 0 <= i < |top| && AirportPassengers(rows, a) == top[i].1
              ==> top[i].0 < a
  {
    var rows := InRange(data, lo, hi);
    var totals := AirportTotals(ByAirportYear(rows));
    var top := NLargest(totals, n);
    assert Scenario1(data, lo, hi, n).top == top;
    TotalsAreAirportPassengers(rows);
    AirportKeys(rows);
    TiesKeepFirst(totals, IntLess, n);
    forall a, i | a in AirportsIn(rows) && a !in KeysOf(top) && 0 <= i < |top| && AirportPassengers(rows, a) == top[i].1
      ensures top[i].0 < a
    {
      assert a in KeysOf(totals);
      var j :| 0 <= j < |totals| && totals[j].0 == a;
    }
  }

  // ---------------------------------------------------------------------------
  // The per-year series of the ranked airports

  /** Reference definition: the passengers of the given rows at airport a in year y. */
  function AirportYearPassengers(rows: seq<YearedFlight>, a: int, y: int): int {
    if rows == [] then 0
    else
      (if rows[0].flight.airportId == a && rows[0].year == Some(y) then rows[0].flight.passengers else 0)
      + AirportYearPassengers(rows[1..], a, y)
  }

  /** Some row of the range is a flight at airport a in year y. */
  ghost predicate HasFlights(rows: seq<YearedFlight>, a: int, y: int) {
    exists x :: x in rows && x.flight.airportId == a && x.year == Some(y)
  }

  lemma {:induction false} PassengerRowsYearSum(rows: seq<YearedFlight>, a: int, y: int)
    requires forall x :: x in rows ==> x.year.Some?
    ensures SumFor(PassengerRows(rows), (a, y)) == AirportYearPassengers(rows, a, y)
  {
    if rows != [] {
      assert PassengerRows(rows)[1..] == PassengerRows(rows[1..]);
      assert rows[0] in rows;
      PassengerRowsYearSum(rows[1..], a, y);
    }
  }

  lemma PassengerKeys(rows: seq<YearedFlight>, a: int, y: int)
    requires forall x :: x in rows ==> x.year.Some?
    ensures (a, y) in KeysOf(PassengerRows(rows)) <==> HasFlights(rows, a, y)
  {
    var p := PassengerRows(rows);
    if (a, y) in KeysOf(p) {
      var j :| 0 <= j < |p| && KeysOf(p)[j] == (a, y);
      assert rows[j] in rows;
    }
    if HasFlights(rows, a, y) {
      var x :| x in rows && x.flight.airportId == a && x.year == Some(y);
      var j :| 0 <= j < |rows| && rows[j] == x;
      assert KeysOf(p)[j] == (a, y);
    }
  }

  lemma {:induction false} SeriesMember(g: seq<((int, int), int)>, top: seq<(int, int)>, x: ((int, int), int))
    ensures x in Series(g, top) <==> x in g && x.0.0 in KeysOf(top)
  {
    if top != [] {
      SeriesMember(g, top[1..], x);
      BlockMember(g, top[0].0, x);
      assert KeysOf(top) == [top[0].0] + KeysOf(top[1..]);
    }
  }

  /** The series holds one row per year in which a ranked airport had flights in the range,
      with that airport's passengers in that year, and nothing else. */
  lemma ByYearContents(data: Dataset, lo: int, hi: int, n: nat)
    ensures var rows := InRange(data, lo, hi);
            var r := Scenario1(data, lo, hi, n);
            forall x :: x in r.byYear <==>
              x.0.0 in KeysOf(r.top) && HasFlights(rows, x.0.0, x.0.1)
              && x.1 == AirportYearPassengers(rows, x.0.0, x.0.1)
  {
    var rows := InRange(data, lo, hi);
    var r := Scenario1(data, lo, hi, n);
    var g := ByAirportYear(rows);
    assert r.byYear == Series(g, r.top);
    forall x ensures x in r.byYear <==>
      x.0.0 in KeysOf(r.top) && HasFlights(rows, x.0.0, x.0.1) && x.1 == AirportYearPassengers(rows, x.0.0, x.0.1)
    {
      SeriesMember(g, r.top, x);
      PassengerKeys(rows, x.0.0, x.0.1);
      PassengerRowsYearSum(rows, x.0.0, x.0.1);
      if x in g {
        var i :| 0 <= i < |g| && g[i] == x;
        assert KeysOf(g)[i] == x.0;
      }
      if HasFlights(rows, x.0.0, x.0.1) && x.1 == AirportYearPassengers(rows, x.0.0, x.0.1) {
        assert x.0 in KeysOf(g);
        var i :| 0 <= i < |g| && KeysOf(g)[i] == x.0;
        assert g[i] == x;
      }
    }
  }

  /** Rows of the series come in rank order of their airports, and by ascending year within
      one airport. */
  ghost predicate RankThenYear(series: seq<((int, int), int)>, ranked: seq<int>) {
    forall i, j :: 0 <= i < j < |series| ==> Precedes(series[i], series[j], ranked)
  }

  /** Row x comes before row y: its airport ranks higher, or it is the same airport and an
      earlier year. */
  ghost predicate Precedes(x: ((int, int), int), y: ((int, int), int), ranked: seq<int>) {
    && x.0.0 in ranked && y.0.0 in ranked
    && (|| FirstIndex(ranked, x.0.0) < FirstIndex(ranked, y.0.0)
        || (x.0.0 == y.0.0 && x.0.1 < y.0.1))
  }

  lemma {:induction false} BlockAscending(g: seq<((int, int), int)>, a: int)
    requires StrictlySorted(KeysOf(g), PairLess(IntLess, IntLess))
    ensures forall i, j :: 0 <= i < j < |Block(g, a)| ==> Block(g, a)[i].0.1 < Block(g, a)[j].0.1
  {
    if g != [] {
      var rest := Block(g[1..], a);
      assert forall i, j :: 0 <= i < j < |rest| ==> rest[i].0.1 < rest[j].0.1 by {
        SortedKeysTail(g, PairLess(IntLess, IntLess));
        BlockAscending(g[1..], a);
      }
      if g[0].0.0 == a {
        assert forall x :: x in rest ==> g[0].0.1 < x.0.1 by {
          SortedKeysTail(g, PairLess(IntLess, IntLess));
          forall x | x in rest ensures g[0].0.1 < x.0.1 {
            BlockMember(g[1..], a, x);
            SameAirportYearLess(g[0].0, x.0);
          }
        }
        var b := [g[0]] + rest;
        assert Block(g, a) == b;
        forall i, j | 0 <= i < j < |b| ensures b[i].0.1 < b[j].0.1 {
          assert b[j] == rest[j - 1] && b[j] in rest;
          if i > 0 {
            assert b[i] == rest[i - 1];
          }
        }
      } else {
        assert Block(g, a) == rest;
      }
    }
  }

  lemma SameAirportYearLess(p: (int, int), q: (int, int))
    requires PairLess(IntLess, IntLess)(p, q) && p.0 == q.0
    ensures p.1 < q.1
  {
    var lt := PairLess(IntLess, IntLess);
    assert lt(p, q) == (IntLess(p.0, q.0) || (p.0 == q.0 && IntLess(p.1, q.1)));
  }

  lemma FirstIndexTail(ks: seq<int>, x: int)
    requires NoDup(ks) && ks != [] && x in ks[1..]
    ensures x in ks && x != ks[0] && FirstIndex(ks, x) == 1 + FirstIndex(ks[1..], x)
  {
    var k :| 0 <= k < |ks[1..]| && ks[1..][k] == x;
    assert ks[k + 1] == x;
  }

  lemma {:induction false} SeriesOrder(g: seq<((int, int), int)>, top: seq<(int, int)>)
    requires StrictlySorted(KeysOf(g), PairLess(IntLess, IntLess))
    requires NoDup(KeysOf(top))
    ensures RankThenYear(Series(g, top), KeysOf(top))
  {
    if top != [] {
      var ks := KeysOf(top);
      var b := Block(g, top[0].0);
      var rest := Series(g, top[1..]);
      assert ks[0] == top[0].0 && ks[1..] == KeysOf(top[1..]);
      assert NoDup(ks[1..]);
      SeriesOrder(g, top[1..]);
      BlockAscending(g, top[0].0);
      var s := b + rest;
      assert Series(g, top) == s;
      forall x | x in b ensures x.0.0 == ks[0] {
        BlockMember(g, top[0].0, x);
      }
      forall i, j | 0 <= i < j < |s| ensures Precedes(s[i], s[j], ks) {
        if j < |b| {
          BlockPair(b, s, i, j, ks);
        } else if i < |b| {
          assert s[i] == b[i] && b[i] in b;
          assert s[j] == rest[j - |b|] && s[j] in rest;
          SeriesMember(g, top[1..], s[j]);
          FirstIndexTail(ks, s[j].0.0);
          assert FirstIndex(ks, s[i].0.0) == 0;
        } else {
          assert s[i] == rest[i - |b|] && s[j] == rest[j - |b|];
          assert s[i] in rest && s[j] in rest;
          SeriesMember(g, top[1..], s[i]);
          SeriesMember(g, top[1..], s[j]);
          FirstIndexTail(ks, s[i].0.0);
          FirstIndexTail(ks, s[j].0.0);
        }
      }
    }
  }

  lemma BlockPair(b: seq<((int, int), int)>, s: seq<((int, int), int)>, i: int, j: int, ks: seq<int>)
    requires 0 <= i < j < |b| <= |s| && b <= s && ks != []
    requires forall x :: x in b ==> x.0.0 == ks[0]
    requires forall i, j :: 0 <= i < j < |b| ==> b[i].0.1 < b[j].0.1
    ensures s[i].0.0 in ks && s[j].0.0 in ks && s[i].0.0 == s[j].0.0 && s[i].0.1 < s[j].0.1
  {
    assert s[i] == b[i] && s[j] == b[j] && b[i] in b && b[j] in b;
  }

  /** The series is ordered by the rank of its airport, then by year. */
  lemma ByYearOrder(data: Dataset, lo: int, hi: int, n: nat)
    ensures var r := Scenario1(data, lo, hi, n);
            RankThenYear(r.byYear, KeysOf(r.top))
  {
    var g := ByAirportYear(InRange(data, lo, hi));
    var totals := AirportTotals(g);
    var top := NLargest(totals, n);
    IntLessIsStrictTotal();
    StrictlySortedNoDup(KeysOf(totals), IntLess);
    SubMultisetDistinctKeys(top, totals);
    SeriesOrder(g, top);
  }

  lemma {:induction false} BlockSum(g: seq<((int, int), int)>, b: int, a: int)
    ensures SumFor(Project(Block(g, b), AirportOf), a) == if a == b then SumFor(Project(g, AirportOf), a) else 0
  {
    if g != [] {
      assert AirportOf(g[0].0) == g[0].0.0;
      BlockSum(g[1..], b, a);
      assert Project(g, AirportOf)[0] == (g[0].0.0, g[0].1);
      assert Project(g, AirportOf)[1..] == Project(g[1..], AirportOf);
      var rest := Block(g[1..], b);
      if g[0].0.0 == b {
        var c := [g[0]] + rest;
        assert Project(c, AirportOf)[0] == (g[0].0.0, g[0].1);
        assert Project(c, AirportOf)[1..] == Project(rest, AirportOf);
      }
    }
  }

  lemma {:induction false} SeriesSum(g: seq<((int, int), int)>, top: seq<(int, int)>, a: int)
    requires NoDup(KeysOf(top))
    ensures SumFor(Project(Series(g, top), AirportOf), a)
         == if a in KeysOf(top) then SumFor(Project(g, AirportOf), a) else 0
  {
    if top != [] {
      var ks := KeysOf(top);
      assert ks == [top[0].0] + ks[1..] && ks[1..] == KeysOf(top[1..]);
      NoDupHead(ks);
      SeriesSum(g, top[1..], a);
      var b := Block(g, top[0].0);
      var rest := Series(g, top[1..]);
      assert Series(g, top) == b + rest;
      ProjectAppend(b, rest, AirportOf);
      SumForAppend(Project(b, AirportOf), Project(rest, AirportOf), a);
      BlockSum(g, top[0].0, a);
    }
  }

  /** For each ranked airport, its rows in the series add up to its total. */
  lemma ByYearSums(data: Dataset, lo: int, hi: int, n: nat)
    ensures var r := Scenario1(data, lo, hi, n);
            forall i :: 0 <= i < |r.top| ==> SumFor(Project(r.byYear, AirportOf), r.top[i].0) == r.top[i].1
  {
    var g := ByAirportYear(InRange(data, lo, hi));
    var totals := AirportTotals(g);
    var top := NLargest(totals, n);
    IntLessIsStrictTotal();
    StrictlySortedNoDup(KeysOf(totals), IntLess);
    SubMultisetDistinctKeys(top, totals);
    forall i | 0 <= i < |top| ensures SumFor(Project(Series(g, top), AirportOf), top[i].0) == top[i].1 {
      SeriesSum(g, top, top[i].0);
      assert KeysOf(top)[i] == top[i].0;
      assert top[i] in multiset(totals);
    }
  }

  // ---------------------------------------------------------------------------
  // The heading of the totals chart

  /** s ends with the text e. */
  predicate EndsWith(s: string, e: string) {
    |e| <= |s| && s[|s| - |e|..] == e
  }

  lemma EndsWithAppend(s: string, e: string)
    ensures EndsWith(s + e, e)
  {
  }

  /** The heading as the source builds it: for a single airport it prints the two slider
      ends joined by a dash instead of the year-range label. */
  function TopTitleAsWritten(lo: int, hi: int, n: int): (t: string)
    ensures n > 1 ==> EndsWith(t, YearRangeLabel(lo, hi))
    ensures n <= 1 ==> EndsWith(t, IntToString(lo) + "-" + IntToString(hi))
  {
    if n > 1 then
      var head := IntToString(n) + " busiest US airports in ";
      EndsWithAppend(head, YearRangeLabel(lo, hi));
      head + YearRangeLabel(lo, hi)
    else
      var head, years := "Busiest US airport in ", IntToString(lo) + "-" + IntToString(hi);
      EndsWithAppend(head, years);
      head + years
  }

  /** The heading with the year-range label in both branches. */
  function TopTitle(lo: int, hi: int, n: int): (t: string)
    ensures EndsWith(t, YearRangeLabel(lo, hi))
  {
    var head := if n > 1 then IntToString(n) + " busiest US airports in " else "Busiest US airport in ";
    EndsWithAppend(head, YearRangeLabel(lo, hi));
    head + YearRangeLabel(lo, hi)
  }

  lemma NoDashInNat(n: nat)
    ensures '-' !in NatToString(n)
  {
    assert !IsDigit('-');
  }

  /** As written, the single-airport heading over a single year y reads "y-y", a range,
      although the year-range label for it is just "y". */
  lemma TopTitleAsWrittenShowsRange(y: nat, n: int)
    requires n <= 1
    ensures '-' in TopTitleAsWritten(y, y, n)
    ensures '-' !in YearRangeLabel(y, y)
  {
    var t := TopTitleAsWritten(y, y, n);
    var prefix := "Busiest US airport in " + IntToString(y);
    assert t == prefix + "-" + IntToString(y);
    assert t[|prefix|] == '-';
    NoDashInNat(y);
  }

  /** The corrected heading shows a dash, a range, exactly when the range spans more than one
      year, the same test that decides whether the by-year chart is drawn. */
  lemma TopTitleShowsRangeIffByYear(lo: nat, hi: nat, n: int)
    ensures '-' in TopTitle(lo, hi, n) <==> ShowsByYearChart(lo, hi)
  {
    YearRangeLabelReadsBack(lo, hi);
    var years := YearRangeLabel(lo, hi);
    if n > 1 {
      var digits := NatToString(n);
      NoDashInNat(n);
      assert IntToString(n) == digits;
      var head := digits + " busiest US airports in ";
      assert '-' !in head;
      assert TopTitle(lo, hi, n) == head + years;
      DashInAppend(head, years);
    } else {
      var head := "Busiest US airport in ";
      assert '-' !in head;
      assert TopTitle(lo, hi, n) == head + years;
      DashInAppend(head, years);
    }
  }

  lemma DashInAppend(a: string, b: string)
    requires '-' !in a
    ensures '-' in a + b <==> '-' in b
  {
  }
}
