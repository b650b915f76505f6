/** Scenario 4, airline traffic: the flights of the selected airline origins, a
    traffic score per flight summed per airline, and the N airlines with the
    largest sums. */
module AirlineTraffic {
  import opened Order
  import opened Grouping
  import opened Tables
  import opened OriginShare

  /** `{'US': 1, 'Foreign': 0}`: the flag column value of an origin. */
  function Flag(o: Origin): (f: int)
    ensures OriginOf(f) == Some(o)
  {
    match o
    case US => 1
    case Foreign => 0
  }

  /** Reading a known flag and writing it back gives the same flag. */
  lemma FlagRoundTrip(flag: int)
    requires OriginOf(flag).Some?
    ensures Flag(OriginOf(flag).value) == flag
  {
    if flag != 1 {
      assert OriginOf(flag) == Some(Foreign);
    }
  }

  /** Every origin is one of the two. */
  lemma BothOrigins()
    ensures forall o: Origin :: o in [US, Foreign]
  {
    forall o: Origin ensures o in [US, Foreign] {
      if o != US {
        assert o == Foreign;
      }
    }
  }

  /** The origins the chooser stands for: an empty choice means both, US first. */
  function Selection(chosen: seq<Origin>): (s: seq<Origin>)
    ensures forall o :: o in s <==> chosen == [] || o in chosen
  {
    BothOrigins();
    if chosen == [] then [US, Foreign] else chosen
  }

  /** The flags of the selected origins. */
  function IncludedFlags(chosen: seq<Origin>): (flags: seq<int>)
    ensures forall o :: Flag(o) in flags <==> chosen == [] || o in chosen
    ensures forall f :: f in flags ==> f == 0 || f == 1
  {
    var s := Selection(chosen);
    var flags := seq(|s|, i requires 0 <= i < |s| => Flag(s[i]));
    assert forall o :: o in s ==> Flag(o) in flags by {
      forall o | o in s ensures Flag(o) in flags {
        var i :| 0 <= i < |s| && s[i] == o;
        assert flags[i] == Flag(o);
      }
    }
    flags
  }

  /** Reference definition: a flight is included when its flag names a selected origin. */
  predicate IsIncluded(x: Flight, chosen: seq<Origin>) {
    var o := OriginOf(x.usForeign);
    o.Some? && (chosen == [] || o.value in chosen)
  }

  /** `df.loc[df['us_foreign_airline'].isin(airline_selection)]`: exactly the included
      flights, in their order, each as often as it occurs. */
  function Included(flights: seq<Flight>, chosen: seq<Origin>): (kept: seq<Flight>)
    ensures forall x :: x in kept ==> IsIncluded(x, chosen)
    ensures forall x :: multiset(kept)[x] == if IsIncluded(x, chosen) then multiset(flights)[x] else 0
  {
    var flags := IncludedFlags(chosen);
    forall x: Flight ensures x.usForeign in flags <==> IsIncluded(x, chosen) {
      if OriginOf(x.usForeign).Some? {
        FlagRoundTrip(x.usForeign);
      }
    }
    Filter(flights, (x: Flight) => x.usForeign in flags)
  }

  /** The (airline, score) rows of the projection `df[['airline_id', 'weighted']]`, for the
      rows of `table`; the score of a row may depend on the whole table it belongs to. */
  function ScoreRows(table: seq<Flight>, rows: seq<Flight>, score: (seq<Flight>, Flight) -> int): seq<(string, int)> {
    seq(|rows|, i requires 0 <= i < |rows| => (rows[i].airlineId, score(table, rows[i])))
  }

  /** `groupby('airline_id').sum()`, ordered by airline id. */
  function AirlineTotals(kept: seq<Flight>, score: (seq<Flight>, Flight) -> int): (t: seq<(string, int)>)
    ensures StrictlySorted(KeysOf(t), LexLess)
    ensures forall a :: a in KeysOf(t) <==> a in KeysOf(ScoreRows(kept, kept, score))
    ensures forall i :: 0 <= i < |t| ==> t[i].1 == SumFor(ScoreRows(kept, kept, score), t[i].0)
  {
    LexLessIsStrictTotal();
    GroupSum(ScoreRows(kept, kept, score), LexLess)
  }

  /** Scenario 4 for the chosen origins, the traffic score and N = n:
      `sort_values('weighted', ascending=False).nlargest(n, 'weighted')`. */
  function Scenario4(flights: seq<Flight>, chosen: seq<Origin>, score: (seq<Flight>, Flight) -> int, n: nat): (top: seq<(string, int)>)
    ensures |top| <= n && NonIncreasing(top)
  {
    var kept := Included(flights, chosen);
    NLargest(SortDesc(AirlineTotals(kept, score)), n)
  }

  // ---------------------------------------------------------------------------
  // Reference definitions

  /** The airlines the given flights mention. */
  function AirlinesIn(rows: seq<Flight>): set<string> {
    set x | x in rows :: x.airlineId
  }

  /** The score of airline a: the sum of the scores of its rows. */
  function AirlineScore(table: seq<Flight>, rows: seq<Flight>, score: (seq<Flight>, Flight) -> int, a: string): int {
    if rows == [] then 0
    else (if rows[0].airlineId == a then score(table, rows[0]) else 0) + AirlineScore(table, rows[1..], score, a)
  }

  // ---------------------------------------------------------------------------
  // The selection

  /** Only the set of chosen origins matters: its order and repetitions do not, and choosing
      nothing is choosing both. */
  lemma SelectionBySet(flights: seq<Flight>, c1: seq<Origin>, c2: seq<Origin>)
    requires forall o :: (c1 == [] || o in c1) <==> (c2 == [] || o in c2)
    ensures Included(flights, c1) == Included(flights, c2)
  {
    var f1, f2 := IncludedFlags(c1), IncludedFlags(c2);
    forall x | x in flights ensures (x.usForeign in f1) == (x.usForeign in f2) {
      if OriginOf(x.usForeign).Some? {
        FlagRoundTrip(x.usForeign);
      }
    }
    FilterSame(flights, (x: Flight) => x.usForeign in f1, (x: Flight) => x.usForeign in f2);
  }

  /** An empty choice ranks the same airlines as choosing US and Foreign, in either order. */
  lemma EmptyChoiceIsBoth(flights: seq<Flight>, score: (seq<Flight>, Flight) -> int, n: nat)
    ensures Scenario4(flights, [], score, n) == Scenario4(flights, [US, Foreign], score, n)
    ensures Scenario4(flights, [], score, n) == Scenario4(flights, [Foreign, US], score, n)
  {
    BothOrigins();
    SelectionBySet(flights, [], [US, Foreign]);
    SelectionBySet(flights, [], [Foreign, US]);
  }

  // ---------------------------------------------------------------------------
  // The ranking

  /** The ranking holds N airlines, or all included ones when there are fewer, each with the
      sum of its rows' scores, by non-increasing sum; no airline left out has a larger sum
      than one kept. */
  lemma TopAirlinesRanked(flights: seq<Flight>, chosen: seq<Origin>, score: (seq<Flight>, Flight) -> int, n: nat)
    ensures var kept := Included(flights, chosen);
            var top := Scenario4(flights, chosen, score, n);
            && |top| == Min(n, |AirlinesIn(kept)|)
            && NonIncreasing(top)
            && NoDup(KeysOf(top))
            && (forall i :: 0 <= i < |top| ==>
                  top[i].0 in AirlinesIn(kept) && top[i].1 == AirlineScore(kept, kept, score, top[i].0))
            && (forall a, i :: a in AirlinesIn(kept) && a !in KeysOf(top) && 0 <= i < |top| ==>
                  AirlineScore(kept, kept, score, a) <= top[i].1)
  {
    var kept := Included(flights, chosen);
    var totals := AirlineTotals(kept, score);
    NLargestAfterSort(totals, n);
    assert Scenario4(flights, chosen, score, n) == NLargest(totals, n);
    LexLessIsStrictTotal();
    StrictlySortedNoDup(KeysOf(totals), LexLess);
    SubMultisetDistinctKeys(NLargest(totals, n), totals);
    AirlineCount(kept, score);
    KeptScores(kept, score, n);
    NotKeptScores(kept, score, n);
  }

  /** Of airlines with equal sums, the one with the lower id is kept. */
  lemma TiesGoToLowerAirlineId(flights: seq<Flight>, chosen: seq<Origin>, score: (seq<Flight>, Flight) -> int, n: nat)
    ensures var kept := Included(flights, chosen);
            var top := Scenario4(flights, chosen, score, n);
            forall a, i ::
              a in AirlinesIn(kept) && a !in KeysOf(top) && 0 <= i < |top| && AirlineScore(kept, kept, score, a) == top[i].1
              ==> LexLess(top[i].0, a)
  {
    var kept := Included(flights, chosen);
    var totals := AirlineTotals(kept, score);
    var top := NLargest(totals, n);
    NLargestAfterSort(totals, n);
    assert Scenario4(flights, chosen, score, n) == top;
    forall a, i | a in AirlinesIn(kept) && a !in KeysOf(top) && 0 <= i < |top| && AirlineScore(kept, kept, score, a) == top[i].1
      ensures LexLess(top[i].0, a)
    {
      var j := AirlineRow(kept, score, a);
      NotKeptAbsent(top, totals[j]);
      TieOrder(totals, top, LexLess, j, i);
    }
  }

  // ---------------------------------------------------------------------------
  // Proof steps

  lemma KeptScores(kept: seq<Flight>, score: (seq<Flight>, Flight) -> int, n: nat)
    ensures var top := NLargest(AirlineTotals(kept, score), n);
            forall i :: 0 <= i < |top| ==>
              top[i].0 in AirlinesIn(kept) && top[i].1 == AirlineScore(kept, kept, score, top[i].0)
  {
    var totals := AirlineTotals(kept, score);
    var top := NLargest(totals, n);
    TotalsAreScores(kept, score);
    forall i | 0 <= i < |top| ensures top[i].0 in AirlinesIn(kept) && top[i].1 == AirlineScore(kept, kept, score, top[i].0) {
      assert top[i] in multiset(totals);
    }
  }

  lemma NotKeptScores(kept: seq<Flight>, score: (seq<Flight>, Flight) -> int, n: nat)
    ensures var top := NLargest(AirlineTotals(kept, score), n);
            forall a, i :: a in AirlinesIn(kept) && a !in KeysOf(top) && 0 <= i < |top| ==>
              AirlineScore(kept, kept, score, a) <= top[i].1
  {
    var totals := AirlineTotals(kept, score);
    var top := NLargest(totals, n);
    forall a, i | a in AirlinesIn(kept) && a !in KeysOf(top) && 0 <= i < |top|
      ensures AirlineScore(kept, kept, score, a) <= top[i].1
    {
      var j := AirlineRow(kept, score, a);
      NotKeptAbsent(top, totals[j]);
      assert top[i] in top && totals[j] in totals;
    }
  }

  /** Every airline of the kept flights has its row among the totals. */
  lemma AirlineRow(kept: seq<Flight>, score: (seq<Flight>, Flight) -> int, a: string) returns (j: nat)
    requires a in AirlinesIn(kept)
    ensures var t := AirlineTotals(kept, score);
            j < |t| && t[j] == (a, AirlineScore(kept, kept, score, a))
  {
    var t := AirlineTotals(kept, score);
    AirlineKeys(kept, score);
    assert a in KeysOf(t);
    var k :| 0 <= k < |t| && KeysOf(t)[k] == a;
    j := k;
    ScoreRowsSum(kept, kept, score, a);
  }

  lemma {:induction false} ScoreRowsSum(table: seq<Flight>, rows: seq<Flight>, score: (seq<Flight>, Flight) -> int, a: string)
    ensures SumFor(ScoreRows(table, rows, score), a) == AirlineScore(table, rows, score, a)
  {
    if rows != [] {
      assert ScoreRows(table, rows, score)[1..] == ScoreRows(table, rows[1..], score);
      ScoreRowsSum(table, rows[1..], score, a);
    }
  }

  lemma AirlineKeys(kept: seq<Flight>, score: (seq<Flight>, Flight) -> int)
    ensures forall a :: a in KeysOf(AirlineTotals(kept, score)) <==> a in AirlinesIn(kept)
  {
    var r := ScoreRows(kept, kept, score);
    forall a ensures a in KeysOf(r) <==> a in AirlinesIn(kept) {
      if a in KeysOf(r) {
        var i :| 0 <= i < |r| && KeysOf(r)[i] == a;
        assert kept[i] in kept;
      }
      if a in AirlinesIn(kept) {
        var x :| x in kept && x.airlineId == a;
        var i :| 0 <= i < |kept| && kept[i] == x;
        assert KeysOf(r)[i] == a;
      }
    }
  }

  /** Each airline's total is the sum of its rows' scores. */
  lemma TotalsAreScores(kept: seq<Flight>, score: (seq<Flight>, Flight) -> int)
    ensures var t := AirlineTotals(kept, score);
            forall i :: 0 <= i < |t| ==>
              t[i].0 in AirlinesIn(kept) && t[i].1 == AirlineScore(kept, kept, score, t[i].0)
  {
    var t := AirlineTotals(kept, score);
    AirlineKeys(kept, score);
    forall i | 0 <= i < |t| ensures t[i].0 in AirlinesIn(kept) && t[i].1 == AirlineScore(kept, kept, score, t[i].0) {
      assert KeysOf(t)[i] == t[i].0;
      ScoreRowsSum(kept, kept, score, t[i].0);
    }
  }

  lemma AirlineCount(kept: seq<Flight>, score: (seq<Flight>, Flight) -> int)
    ensures |AirlineTotals(kept, score)| == |AirlinesIn(kept)|
  {
    var t := AirlineTotals(kept, score);
    AirlineKeys(kept, score);
    LexLessIsStrictTotal();
    StrictlySortedNoDup(KeysOf(t), LexLess);
    NoDupCard(KeysOf(t));
    assert (set x | x in KeysOf(t)) == AirlinesIn(kept);
  }
}
