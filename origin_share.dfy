/** Scenario 3, the share of US and foreign airlines: flights counted per year and
    airline origin, each count as a rounded percentage of its year, and the counts
    summed per origin over the range, US first. */
module OriginShare {
  import opened Order
  import opened Rounding
  import opened Grouping
  import opened Tables

  /** The `US/Foreign` label of a flight. */
  datatype Origin = Foreign | US

  /** `us_foreign_airline.map({0: 'Foreign', 1: 'US'})`: any other flag maps to a missing
      label. */
  function OriginOf(flag: int): (o: Option<Origin>)
    ensures o.Some? <==> flag == 0 || flag == 1
    ensures o == Some(US) <==> flag == 1
  {
    if flag == 1 then Some(US) else if flag == 0 then Some(Foreign) else None
  }

  function OriginName(o: Origin): string {
    match o
    case Foreign => "Foreign"
    case US => "US"
  }

  /** The order of the label column: "Foreign" before "US". */
  predicate OriginLess(a: Origin, b: Origin) {
    a == Foreign && b == US
  }

  /** OriginLess is the order of the labels' names, the one groupby sorts the label by. */
  lemma OriginLessIsNameOrder(a: Origin, b: Origin)
    ensures OriginLess(a, b) <==> LexLess(OriginName(a), OriginName(b))
  {
    assert LexLess("Foreign", "US");
    LexIrreflexive("US");
    LexIrreflexive("Foreign");
    if LexLess("US", "Foreign") {
      LexTransitive("US", "Foreign", "US");
    }
  }

  lemma OriginLessIsStrictTotal()
    ensures StrictTotalOrder(OriginLess)
  {
  }

  /** The (year, origin) of a flight with a known label, counted once. */
  function OriginRows(rows: seq<YearedFlight>): seq<((int, Origin), int)>
    requires forall x :: x in rows ==> x.year.Some?
  {
    if rows == [] then []
    else
      assert rows[0] in rows;
      var o := OriginOf(rows[0].flight.usForeign);
      (if o.Some? then [((rows[0].year.value, o.value), 1)] else []) + OriginRows(rows[1..])
  }

  function YearOf(k: (int, Origin)): int {
    k.0
  }

  function OriginKey(k: (int, Origin)): Origin {
    k.1
  }

  /** `groupby(['year', 'US/Foreign']).count()`, ordered by year and then label. */
  function OriginCounts(rows: seq<YearedFlight>): (c: seq<((int, Origin), int)>)
    requires forall x :: x in rows ==> x.year.Some?
    ensures StrictlySorted(KeysOf(c), PairLess(IntLess, OriginLess))
    ensures forall k :: k in KeysOf(c) <==> k in KeysOf(OriginRows(rows))
    ensures forall i :: 0 <= i < |c| ==> c[i].1 == SumFor(OriginRows(rows), c[i].0)
    ensures forall i :: 0 <= i < |c| ==> c[i].1 > 0
  {
    IntLessIsStrictTotal();
    OriginLessIsStrictTotal();
    PairLessIsStrictTotal(IntLess, OriginLess);
    OriginRowsOnes(rows);
    PositiveGroups(OriginRows(rows));
    var c := GroupSum(OriginRows(rows), PairLess(IntLess, OriginLess));
    assert forall i :: 0 <= i < |c| ==> c[i].0 in KeysOf(c) by {
      forall i | 0 <= i < |c| ensures c[i].0 in KeysOf(c) {
        assert KeysOf(c)[i] == c[i].0;
      }
    }
    c
  }

  /** `groupby('year')['count'].transform('sum')` for year y. */
  function YearTotal(counts: seq<((int, Origin), int)>, y: int): int {
    SumFor(Project(counts, YearOf), y)
  }

  /** `(100 * count / year total).round(0)` for every group. */
  function Percents(counts: seq<((int, Origin), int)>): (p: seq<((int, Origin), int)>)
    requires forall i :: 0 <= i < |counts| ==> counts[i].1 > 0
    ensures |p| == |counts|
    ensures forall i :: 0 <= i < |p| ==> p[i].0 == counts[i].0
    ensures forall i :: 0 <= i < |p| ==>
              YearTotal(counts, counts[i].0.0) > 0
              && p[i].1 == RoundHalfEven(100 * counts[i].1, YearTotal(counts, counts[i].0.0))
  {
    seq(|counts|, i requires 0 <= i < |counts| =>
      YearTotalCovers(counts, i);
      (counts[i].0, RoundHalfEven(100 * counts[i].1, YearTotal(counts, counts[i].0.0))))
  }

  /** `groupby('US/Foreign').sum().sort_values('US/Foreign', ascending=False)`. */
  function OriginTotals(counts: seq<((int, Origin), int)>): (t: seq<(Origin, int)>)
    ensures forall i :: 0 <= i < |t| - 1 ==> t[i].0 == US
    ensures forall i :: 0 < i < |t| ==> t[i].0 == Foreign
    ensures forall o :: o in KeysOf(t) <==> o in KeysOf(Project(counts, OriginKey))
    ensures forall i :: 0 <= i < |t| ==> t[i].1 == SumFor(Project(counts, OriginKey), t[i].0)
  {
    OriginLessIsStrictTotal();
    var a := GroupSum(Project(counts, OriginKey), OriginLess);
    ReverseKeys(a);
    ReverseUSFirst(a);
    var t := Reverse(a);
    assert forall i :: 0 <= i < |t| ==> t[i].1 == SumFor(Project(counts, OriginKey), t[i].0) by {
      forall i | 0 <= i < |t| ensures t[i].1 == SumFor(Project(counts, OriginKey), t[i].0) {
        assert t[i] == a[|a| - 1 - i];
      }
    }
    t
  }

  function Reverse<T>(s: seq<T>): (r: seq<T>)
    ensures |r| == |s| && forall i :: 0 <= i < |s| ==> r[i] == s[|s| - 1 - i]
  {
    if s == [] then [] else Reverse(s[1..]) + [s[0]]
  }

  lemma ReverseKeys<K, V>(a: seq<(K, V)>)
    ensures forall k :: k in KeysOf(Reverse(a)) <==> k in KeysOf(a)
  {
    var t := Reverse(a);
    forall k ensures k in KeysOf(t) <==> k in KeysOf(a) {
      if k in KeysOf(t) {
        var i :| 0 <= i < |t| && KeysOf(t)[i] == k;
        assert KeysOf(a)[|a| - 1 - i] == k;
      }
      if k in KeysOf(a) {
        var i :| 0 <= i < |a| && KeysOf(a)[i] == k;
        assert KeysOf(t)[|a| - 1 - i] == k;
      }
    }
  }

  /** Reversing the label order "Foreign" < "US" puts US first: every row but the last is US
      and every row but the first is Foreign. */
  lemma ReverseUSFirst(a: seq<(Origin, int)>)
    requires StrictlySorted(KeysOf(a), OriginLess)
    ensures forall i :: 0 <= i < |Reverse(a)| - 1 ==> Reverse(a)[i].0 == US
    ensures forall i :: 0 < i < |Reverse(a)| ==> Reverse(a)[i].0 == Foreign
  {
    var t := Reverse(a);
    forall i | 0 <= i < |t| - 1 ensures t[i].0 == US {
      assert KeysOf(a)[|a| - 2 - i] == t[i + 1].0 && KeysOf(a)[|a| - 1 - i] == t[i].0;
      assert OriginLess(KeysOf(a)[|a| - 2 - i], KeysOf(a)[|a| - 1 - i]);
    }
    forall i | 0 < i < |t| ensures t[i].0 == Foreign {
      assert KeysOf(a)[|a| - 1 - i] == t[i].0 && KeysOf(a)[|a| - i] == t[i - 1].0;
      assert OriginLess(KeysOf(a)[|a| - 1 - i], KeysOf(a)[|a| - i]);
    }
  }

  /** The three tables of the scenario. */
  datatype OriginReport = OriginReport(
    counts: seq<((int, Origin), int)>,
    percents: seq<((int, Origin), int)>,
    totals: seq<(Origin, int)>)

  /** Scenario 3 for the year range [lo, hi]. */
  function Scenario3(data: Dataset, lo: int, hi: int): (r: OriginReport)
    ensures |r.percents| == |r.counts|
    ensures forall i :: 0 <= i < |r.percents| ==> r.percents[i].0 == r.counts[i].0
    ensures forall i :: 0 <= i < |r.totals| - 1 ==> r.totals[i].0 == US
    ensures forall i :: 0 < i < |r.totals| ==> r.totals[i].0 == Foreign
  {
    var counts := OriginCounts(InRange(data, lo, hi));
    OriginReport(counts, Percents(counts), OriginTotals(counts))
  }

  // ---------------------------------------------------------------------------
  // Reference definitions

  /** The number of the given rows in year y whose airline has origin o. */
  function CountOrigin(rows: seq<YearedFlight>, y: int, o: Origin): nat {
    if rows == [] then 0
    else
      (if rows[0].year == Some(y) && OriginOf(rows[0].flight.usForeign) == Some(o) then 1 else 0)
      + CountOrigin(rows[1..], y, o)
  }

  /** The number of the given rows, of any year, whose airline has origin o. */
  function CountOriginAll(rows: seq<YearedFlight>, o: Origin): nat {
    if rows == [] then 0
    else (if OriginOf(rows[0].flight.usForeign) == Some(o) then 1 else 0) + CountOriginAll(rows[1..], o)
  }

  /** The number of labelled rows in year y. */
  function Labelled(rows: seq<YearedFlight>, y: int): nat {
    CountOrigin(rows, y, Foreign) + CountOrigin(rows, y, US)
  }

  // ---------------------------------------------------------------------------
  // What the scenario computes

  /** One count per (year, origin) that has flights in the range, ordered by year and then
      label, holding the number of those flights. */
  lemma Scenario3Counts(data: Dataset, lo: int, hi: int)
    ensures var rows := InRange(data, lo, hi);
            var c := Scenario3(data, lo, hi).counts;
            && StrictlySorted(KeysOf(c), PairLess(IntLess, OriginLess))
            && (forall k :: k in KeysOf(c) <==> CountOrigin(rows, k.0, k.1) > 0)
            && (forall i :: 0 <= i < |c| ==> c[i].1 == CountOrigin(rows, c[i].0.0, c[i].0.1))
  {
    var rows := InRange(data, lo, hi);
    assert Scenario3(data, lo, hi).counts == OriginCounts(rows);
    CountsAreCounts(rows);
  }

  /** Each group's percentage is its count as a share of the labelled flights of its year,
      rounded half to even. */
  lemma Scenario3Percents(data: Dataset, lo: int, hi: int)
    ensures var rows := InRange(data, lo, hi);
            var r := Scenario3(data, lo, hi);
            forall i :: 0 <= i < |r.percents| ==>
              var y, o := r.percents[i].0.0, r.percents[i].0.1;
              && r.percents[i].0 == r.counts[i].0
              && Labelled(rows, y) > 0
              && r.percents[i].1 == RoundHalfEven(100 * CountOrigin(rows, y, o), Labelled(rows, y))
  {
    var rows := InRange(data, lo, hi);
    assert Scenario3(data, lo, hi).percents == Percents(OriginCounts(rows));
    PercentsAreShares(rows);
  }

  /** In every year with labelled flights, the percentages add up to exactly 100. */
  lemma PercentsSumTo100(data: Dataset, lo: int, hi: int, y: int)
    requires Labelled(InRange(data, lo, hi), y) > 0
    ensures SumFor(Project(Scenario3(data, lo, hi).percents, YearOf), y) == 100
  {
    var rows := InRange(data, lo, hi);
    assert Scenario3(data, lo, hi).percents == Percents(OriginCounts(rows));
    YearPercentsSumTo100(rows, y);
  }

  /** Each total holds the number of flights of its origin. */
  lemma Scenario3Totals(data: Dataset, lo: int, hi: int)
    ensures var rows := InRange(data, lo, hi);
            var t := Scenario3(data, lo, hi).totals;
            forall i :: 0 <= i < |t| ==> t[i].1 == CountOriginAll(rows, t[i].0)
  {
    TotalsAreCounts(InRange(data, lo, hi), Scenario3(data, lo, hi).totals);
  }

  /** An origin has a total exactly when it has flights in the range. */
  lemma Scenario3TotalKeys(data: Dataset, lo: int, hi: int)
    ensures var rows := InRange(data, lo, hi);
            var t := Scenario3(data, lo, hi).totals;
            forall o :: o in KeysOf(t) <==> CountOriginAll(rows, o) > 0
  {
    TotalsAreCounts(InRange(data, lo, hi), Scenario3(data, lo, hi).totals);
  }

  // ---------------------------------------------------------------------------
  // Proof steps

  lemma CountsAreCounts(rows: seq<YearedFlight>)
    requires forall x :: x in rows ==> x.year.Some?
    ensures var c := OriginCounts(rows);
            && (forall k :: k in KeysOf(c) <==> CountOrigin(rows, k.0, k.1) > 0)
            && (forall i :: 0 <= i < |c| ==> c[i].1 == CountOrigin(rows, c[i].0.0, c[i].0.1))
  {
    forall k ensures k in KeysOf(OriginRows(rows)) <==> CountOrigin(rows, k.0, k.1) > 0 {
      OriginRowsCount(rows, k);
      OriginRowsKeys(rows, k);
    }
    forall k ensures SumFor(OriginRows(rows), k) == CountOrigin(rows, k.0, k.1) {
      OriginRowsCount(rows, k);
    }
  }

  lemma PercentsAreShares(rows: seq<YearedFlight>)
    requires forall x :: x in rows ==> x.year.Some?
    ensures var c := OriginCounts(rows);
            var p := Percents(c);
            forall i :: 0 <= i < |p| ==>
              var y, o := p[i].0.0, p[i].0.1;
              && Labelled(rows, y) > 0
              && p[i].1 == RoundHalfEven(100 * CountOrigin(rows, y, o), Labelled(rows, y))
  {
    var c := OriginCounts(rows);
    CountsAreCounts(rows);
    forall y ensures YearTotal(c, y) == Labelled(rows, y) {
      YearTotalIsLabelled(rows, y);
    }
  }

  lemma YearPercentsSumTo100(rows: seq<YearedFlight>, y: int)
    requires forall x :: x in rows ==> x.year.Some?
    requires Labelled(rows, y) > 0
    ensures SumFor(Project(Percents(OriginCounts(rows)), YearOf), y) == 100
  {
    var p := Percents(OriginCounts(rows));
    var nF, nU := CountOrigin(rows, y, Foreign), CountOrigin(rows, y, US);
    YearSplit(p, y);
    PercentAt(rows, y, Foreign);
    PercentAt(rows, y, US);
    RoundComplement(100 * nF, nF + nU, 100);
    assert 100 * (nF + nU) - 100 * nF == 100 * nU;
  }

  lemma PercentAt(rows: seq<YearedFlight>, y: int, o: Origin)
    requires forall x :: x in rows ==> x.year.Some?
    requires Labelled(rows, y) > 0
    ensures SumFor(Percents(OriginCounts(rows)), (y, o)) == RoundHalfEven(100 * CountOrigin(rows, y, o), Labelled(rows, y))
  {
    if (y, o) in KeysOf(OriginCounts(rows)) {
      PercentPresent(rows, y, o);
    } else {
      PercentAbsent(rows, y, o);
    }
  }

  lemma PercentPresent(rows: seq<YearedFlight>, y: int, o: Origin)
    requires forall x :: x in rows ==> x.year.Some?
    requires Labelled(rows, y) > 0
    requires (y, o) in KeysOf(OriginCounts(rows))
    ensures SumFor(Percents(OriginCounts(rows)), (y, o)) == RoundHalfEven(100 * CountOrigin(rows, y, o), Labelled(rows, y))
  {
    var c := OriginCounts(rows);
    var p := Percents(c);
    var k := (y, o);
    var i :| 0 <= i < |c| && KeysOf(c)[i] == k;
    IntLessIsStrictTotal();
    OriginLessIsStrictTotal();
    PairLessIsStrictTotal(IntLess, OriginLess);
    StrictlySortedNoDup(KeysOf(c), PairLess(IntLess, OriginLess));
    assert KeysOf(p) == KeysOf(c);
    SumForDistinct(p, i);
    OriginRowsCount(rows, k);
    YearTotalIsLabelled(rows, y);
  }

  lemma PercentAbsent(rows: seq<YearedFlight>, y: int, o: Origin)
    requires forall x :: x in rows ==> x.year.Some?
    requires Labelled(rows, y) > 0
    requires (y, o) !in KeysOf(OriginCounts(rows))
    ensures SumFor(Percents(OriginCounts(rows)), (y, o)) == RoundHalfEven(100 * CountOrigin(rows, y, o), Labelled(rows, y))
  {
    var p := Percents(OriginCounts(rows));
    OriginRowsKeys(rows, (y, o));
    assert KeysOf(p) == KeysOf(OriginCounts(rows));
    SumForAbsent(p, (y, o));
    var total := Labelled(rows, y);
    assert CountOrigin(rows, y, o) == 0;
    RoundExact(0, total);
    assert 0 * total == 100 * CountOrigin(rows, y, o);
  }

  lemma TotalsAreCounts(rows: seq<YearedFlight>, t: seq<(Origin, int)>)
    requires forall x :: x in rows ==> x.year.Some?
    requires t == OriginTotals(OriginCounts(rows))
    ensures && (forall o :: o in KeysOf(t) <==> CountOriginAll(rows, o) > 0)
            && (forall i :: 0 <= i < |t| ==> t[i].1 == CountOriginAll(rows, t[i].0))
  {
    var c := OriginCounts(rows);
    IntLessIsStrictTotal();
    OriginLessIsStrictTotal();
    PairLessIsStrictTotal(IntLess, OriginLess);
    forall o ensures SumFor(Project(c, OriginKey), o) == CountOriginAll(rows, o) {
      Regroup(OriginRows(rows), PairLess(IntLess, OriginLess), OriginKey, o);
      OriginRowsByOrigin(rows, o);
    }
    ProjectPositive(c);
    PositiveGroups(Project(c, OriginKey));
  }

  lemma ProjectPositive(c: seq<((int, Origin), int)>)
    requires forall i :: 0 <= i < |c| ==> c[i].1 > 0
    ensures forall i :: 0 <= i < |Project(c, OriginKey)| ==> Project(c, OriginKey)[i].1 > 0
  {
  }

  lemma {:induction false} OriginRowsOnes(rows: seq<YearedFlight>)
    requires forall x :: x in rows ==> x.year.Some?
    ensures forall i :: 0 <= i < |OriginRows(rows)| ==> OriginRows(rows)[i].1 > 0
  {
    if rows != [] {
      OriginRowsOnes(rows[1..]);
      var head := OriginRowsHead(rows);
      var tail := OriginRows(rows[1..]);
      assert forall i :: 0 <= i < |head + tail| ==> (head + tail)[i] in head || (head + tail)[i] in tail;
    }
  }

  lemma {:induction false} OriginRowsCount(rows: seq<YearedFlight>, k: (int, Origin))
    requires forall x :: x in rows ==> x.year.Some?
    ensures SumFor(OriginRows(rows), k) == CountOrigin(rows, k.0, k.1)
  {
    if rows != [] {
      OriginRowsCount(rows[1..], k);
      var head := OriginRowsHead(rows);
      SumForAppend(head, OriginRows(rows[1..]), k);
    }
  }

  lemma {:induction false} OriginRowsKeys(rows: seq<YearedFlight>, k: (int, Origin))
    requires forall x :: x in rows ==> x.year.Some?
    ensures k in KeysOf(OriginRows(rows)) <==> CountOrigin(rows, k.0, k.1) > 0
  {
    if rows != [] {
      OriginRowsKeys(rows[1..], k);
      var head := OriginRowsHead(rows);
      assert KeysOf(head + OriginRows(rows[1..])) == KeysOf(head) + KeysOf(OriginRows(rows[1..]));
    }
  }

  lemma {:induction false} OriginRowsByOrigin(rows: seq<YearedFlight>, o: Origin)
    requires forall x :: x in rows ==> x.year.Some?
    ensures SumFor(Project(OriginRows(rows), OriginKey), o) == CountOriginAll(rows, o)
  {
    if rows != [] {
      OriginRowsByOrigin(rows[1..], o);
      var head := OriginRowsHead(rows);
      var tail := OriginRows(rows[1..]);
      assert Project(head + tail, OriginKey) == Project(head, OriginKey) + Project(tail, OriginKey);
      SumForAppend(Project(head, OriginKey), Project(tail, OriginKey), o);
    }
  }

  /** The rows the first flight contributes to OriginRows. */
  lemma OriginRowsHead(rows: seq<YearedFlight>) returns (head: seq<((int, Origin), int)>)
    requires forall x :: x in rows ==> x.year.Some?
    requires rows != []
    ensures OriginRows(rows) == head + OriginRows(rows[1..])
    ensures forall i :: 0 <= i < |head| ==> head[i].1 == 1
    ensures forall k :: k in KeysOf(head) <==>
              rows[0].year == Some(k.0) && OriginOf(rows[0].flight.usForeign) == Some(k.1)
    ensures forall k :: SumFor(head, k) ==
              if rows[0].year == Some(k.0) && OriginOf(rows[0].flight.usForeign) == Some(k.1) then 1 else 0
    ensures forall o :: SumFor(Project(head, OriginKey), o) ==
              if OriginOf(rows[0].flight.usForeign) == Some(o) then 1 else 0
  {
    assert rows[0] in rows;
    var o := OriginOf(rows[0].flight.usForeign);
    if o.Some? {
      var k := (rows[0].year.value, o.value);
      head := [(k, 1)];
      assert KeysOf(head) == [k];
      assert Project(head, OriginKey) == [(o.value, 1)];
    } else {
      head := [];
      assert KeysOf(head) == [];
    }
  }

  /** When every value is positive, exactly the keys present have a positive total. */
  lemma PositiveGroups<K>(s: seq<(K, int)>)
    requires forall i :: 0 <= i < |s| ==> s[i].1 > 0
    ensures forall k :: SumFor(s, k) > 0 <==> k in KeysOf(s)
  {
    forall k ensures SumFor(s, k) > 0 <==> k in KeysOf(s) {
      NonNegativeSum(s, k);
    }
  }

  lemma {:induction false} NonNegativeSum<K>(s: seq<(K, int)>, k: K)
    requires forall i :: 0 <= i < |s| ==> s[i].1 > 0
    ensures SumFor(s, k) >= 0
    ensures SumFor(s, k) > 0 <==> k in KeysOf(s)
  {
    if s != [] {
      NonNegativeSum(s[1..], k);
      assert KeysOf(s) == [s[0].0] + KeysOf(s[1..]);
    }
  }

  lemma {:induction false} YearSplit(s: seq<((int, Origin), int)>, y: int)
    ensures SumFor(Project(s, YearOf), y) == SumFor(s, (y, Foreign)) + SumFor(s, (y, US))
  {
    if s != [] {
      YearSplit(s[1..], y);
      var (yr, o) := s[0].0;
      assert s[0].0 == (yr, o);
      if yr == y {
        if o == Foreign {
          assert s[0].0 == (y, Foreign) != (y, US);
        } else {
          assert s[0].0 == (y, US) != (y, Foreign);
        }
      }
      assert Project(s, YearOf)[0] == (YearOf(s[0].0), s[0].1) == (s[0].0.0, s[0].1);
      assert Project(s, YearOf)[1..] == Project(s[1..], YearOf);
    }
  }

  /** The year total is at least each of its groups' counts. */
  lemma YearTotalCovers(counts: seq<((int, Origin), int)>, i: int)
    requires forall j :: 0 <= j < |counts| ==> counts[j].1 > 0
    requires 0 <= i < |counts|
    ensures YearTotal(counts, counts[i].0.0) >= counts[i].1 > 0
  {
    var y := counts[i].0.0;
    var a, b := counts[..i], counts[i..];
    assert counts == a + b;
    assert Project(counts, YearOf) == Project(a, YearOf) + Project(b, YearOf);
    SumForAppend(Project(a, YearOf), Project(b, YearOf), y);
    NonNegativeSum(Project(a, YearOf), y);
    NonNegativeSum(Project(b[1..], YearOf), y);
    assert Project(b, YearOf)[0] == (YearOf(b[0].0), b[0].1) == (y, counts[i].1);
    assert Project(b, YearOf)[1..] == Project(b[1..], YearOf);
  }

  lemma YearTotalIsLabelled(rows: seq<YearedFlight>, y: int)
    requires forall x :: x in rows ==> x.year.Some?
    ensures YearTotal(OriginCounts(rows), y) == Labelled(rows, y)
  {
    var c := OriginCounts(rows);
    YearSplit(c, y);
    GroupValue(rows, (y, Foreign));
    GroupValue(rows, (y, US));
  }

  /** The total of a (year, origin) key in the counts is the number of its flights. */
  lemma GroupValue(rows: seq<YearedFlight>, k: (int, Origin))
    requires forall x :: x in rows ==> x.year.Some?
    ensures SumFor(OriginCounts(rows), k) == CountOrigin(rows, k.0, k.1)
  {
    var c := OriginCounts(rows);
    IntLessIsStrictTotal();
    OriginLessIsStrictTotal();
    PairLessIsStrictTotal(IntLess, OriginLess);
    StrictlySortedNoDup(KeysOf(c), PairLess(IntLess, OriginLess));
    OriginRowsCount(rows, k);
    OriginRowsKeys(rows, k);
    if k in KeysOf(c) {
      var i :| 0 <= i < |c| && KeysOf(c)[i] == k;
      SumForDistinct(c, i);
    } else {
      SumForAbsent(c, k);
    }
  }
}
