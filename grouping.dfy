/** The dataframe operations the pipeline is built from, on tables of
    (key, value) rows: `groupby(key).sum()`, `groupby(key).mean()`,
    a stable descending sort, `nlargest(n)` and `unique()`. */
module Grouping {
  import opened Order
  import opened Rounding

  /** No element occurs twice. */
  ghost predicate NoDup<T>(s: seq<T>) {
    forall i, j :: 0 <= i < j < |s| ==> s[i] != s[j]
  }

  /** The first element of a duplicate-free sequence is not in its tail, which is
      duplicate-free too. */
  lemma NoDupHead<T>(s: seq<T>)
    requires NoDup(s) && s != []
    ensures s[0] !in s[1..] && NoDup(s[1..])
  {
    forall k | 0 <= k < |s| - 1
      ensures s[1..][k] != s[0]
    {
      assert s[1..][k] == s[k + 1];
    }
  }

  lemma StrictlySortedNoDup<K(!new)>(s: seq<K>, lt: (K, K) -> bool)
    requires StrictTotalOrder(lt) && StrictlySorted(s, lt)
    ensures NoDup(s)
  {
    forall i, j | 0 <= i < j < |s| ensures s[i] != s[j] {
      StrictlySortedDistinct(s, lt, i, j);
    }
  }

  /** `df.loc[mask]`: the rows that satisfy p, in their order, each as often as in s. */
  function Filter<T(!new)>(s: seq<T>, p: T -> bool): (r: seq<T>)
    ensures forall x :: x in r ==> p(x)
    ensures forall x :: multiset(r)[x] == if p(x) then multiset(s)[x] else 0
    ensures |r| <= |s|
  {
    if s == [] then []
    else
      assert s == [s[0]] + s[1..];
      var rest := Filter(s[1..], p);
      assert forall x :: x in rest ==> p(x);
      if p(s[0]) then [s[0]] + rest else rest
  }

  /** Filtering by two predicates that agree on every row gives the same rows. */
  lemma {:induction false} FilterSame<T(!new)>(s: seq<T>, p: T -> bool, q: T -> bool)
    requires forall x :: x in s ==> p(x) == q(x)
    ensures Filter(s, p) == Filter(s, q)
  {
    if s != [] {
      assert s[0] in s;
      FilterSame(s[1..], p, q);
    }
  }

  /** The key column. */
  function KeysOf<K, V>(rows: seq<(K, V)>): seq<K> {
    seq(|rows|, i requires 0 <= i < |rows| => rows[i].0)
  }

  /** Replaces each row's key by f(key): selecting a coarser grouping column. */
  function Project<K, K2>(rows: seq<(K, int)>, f: K -> K2): seq<(K2, int)> {
    seq(|rows|, i requires 0 <= i < |rows| => (f(rows[i].0), rows[i].1))
  }

  /** The tail of a table with strictly ascending keys has ascending keys, all above the
      first key. */
  lemma SortedKeysTail<K, V>(g: seq<(K, V)>, lt: (K, K) -> bool)
    requires StrictlySorted(KeysOf(g), lt) && g != []
    ensures StrictlySorted(KeysOf(g[1..]), lt)
    ensures forall x :: x in g[1..] ==> lt(g[0].0, x.0)
  {
    assert forall i :: 0 <= i < |g[1..]| ==> KeysOf(g[1..])[i] == KeysOf(g)[i + 1];
    forall x | x in g[1..] ensures lt(g[0].0, x.0) {
      var k :| 0 <= k < |g[1..]| && g[1..][k] == x;
      assert KeysOf(g)[0] == g[0].0 && KeysOf(g)[k + 1] == x.0;
    }
  }

  lemma ProjectAppend<K, K2>(a: seq<(K, int)>, b: seq<(K, int)>, f: K -> K2)
    ensures Project(a + b, f) == Project(a, f) + Project(b, f)
  {
  }

  lemma ProjectKeyAt<K, K2>(rows: seq<(K, int)>, f: K -> K2, i: int)
    requires 0 <= i < |rows|
    ensures KeysOf(Project(rows, f))[i] == f(KeysOf(rows)[i])
  {
  }

  /** The total of the rows whose key is k: the value of group k. */
  function SumFor<K(==)>(rows: seq<(K, int)>, k: K): int {
    if rows == [] then 0
    else (if rows[0].0 == k then rows[0].1 else 0) + SumFor(rows[1..], k)
  }

  /** The number of rows whose key is k: the size of group k. */
  function CountFor<K(==)>(rows: seq<(K, int)>, k: K): (n: nat)
    ensures n > 0 <==> k in KeysOf(rows)
    ensures n <= |rows|
  {
    if rows == [] then 0
    else
      assert KeysOf(rows) == [rows[0].0] + KeysOf(rows[1..]);
      (if rows[0].0 == k then 1 else 0) + CountFor(rows[1..], k)
  }

  /** In a table with distinct keys, the total of a key is the value of its one row. */
  lemma {:induction false} SumForDistinct<K>(rows: seq<(K, int)>, i: int)
    requires NoDup(KeysOf(rows)) && 0 <= i < |rows|
    ensures SumFor(rows, rows[i].0) == rows[i].1
  {
    var ks := KeysOf(rows);
    assert ks[1..] == KeysOf(rows[1..]);
    assert NoDup(ks[1..]);
    if i == 0 {
      assert ks[0] == rows[0].0;
      assert forall j :: 0 <= j < |ks[1..]| ==> ks[1..][j] == ks[j + 1] != ks[0];
      assert rows[0].0 !in ks[1..];
      SumForAbsent(rows[1..], rows[0].0);
    } else {
      assert ks[0] != ks[i];
      SumForDistinct(rows[1..], i - 1);
    }
  }

  /** A key without rows totals zero. */
  lemma {:induction false} SumForAbsent<K>(rows: seq<(K, int)>, k: K)
    requires k !in KeysOf(rows)
    ensures SumFor(rows, k) == 0
  {
    if rows != [] {
      assert KeysOf(rows) == [rows[0].0] + KeysOf(rows[1..]);
      SumForAbsent(rows[1..], k);
    }
  }

  /** One row per listed key, holding that key's total. */
  function SumsAt<K(==)>(ks: seq<K>, rows: seq<(K, int)>): seq<(K, int)> {
    seq(|ks|, i requires 0 <= i < |ks| => (ks[i], SumFor(rows, ks[i])))
  }

  /** `groupby(key).sum()`: one row per distinct key, in ascending key order, holding the
      total of that key's rows. Keys that never occur make no group. */
  function GroupSum<K(==,!new)>(rows: seq<(K, int)>, lt: (K, K) -> bool): (r: seq<(K, int)>)
    requires StrictTotalOrder(lt)
    ensures StrictlySorted(KeysOf(r), lt)
    ensures forall k :: k in KeysOf(r) <==> k in KeysOf(rows)
    ensures forall i :: 0 <= i < |r| ==> r[i].1 == SumFor(rows, r[i].0)
  {
    var ks := SortedDistinct(KeysOf(rows), lt);
    var r := SumsAt(ks, rows);
    assert KeysOf(r) == ks;
    r
  }

  /** `groupby(key).mean()` followed by `round(0)`: one row per distinct key, in ascending
      key order, holding the rounded mean of that key's values. */
  function GroupMean<K(==,!new)>(rows: seq<(K, int)>, lt: (K, K) -> bool): (r: seq<(K, int)>)
    requires StrictTotalOrder(lt)
    ensures StrictlySorted(KeysOf(r), lt)
    ensures forall k :: k in KeysOf(r) <==> k in KeysOf(rows)
    ensures forall i :: 0 <= i < |r| ==>
              CountFor(rows, r[i].0) > 0 && r[i].1 == RoundHalfEven(SumFor(rows, r[i].0), CountFor(rows, r[i].0))
  {
    var ks := SortedDistinct(KeysOf(rows), lt);
    var r := seq(|ks|, i requires 0 <= i < |ks| => (ks[i], Mean(rows, ks[i])));
    assert KeysOf(r) == ks;
    r
  }

  /** The rounded mean of the values of key k, which occurs in rows: the integer nearest to
      sum / count, an exact half going to the even neighbour. */
  function Mean<K(==)>(rows: seq<(K, int)>, k: K): (m: int)
    requires k in KeysOf(rows)
    ensures CountFor(rows, k) > 0
    ensures var n: int := CountFor(rows, k); -n <= 2 * (SumFor(rows, k) - m * n) <= n
    ensures var n: int := CountFor(rows, k);
            (2 * (SumFor(rows, k) - m * n) == n || 2 * (SumFor(rows, k) - m * n) == -n) ==> m % 2 == 0
  {
    RoundHalfEven(SumFor(rows, k), CountFor(rows, k))
  }

  // ---------------------------------------------------------------------------
  // Grouping twice: summing the group totals of a finer key over a coarser key
  // gives the same totals as summing the raw rows over the coarser key.

  /** The sum over the listed keys k with f(k) == k2 of the group total of k. */
  function SumOverKeys<K(==), K2(==)>(ks: seq<K>, rows: seq<(K, int)>, f: K -> K2, k2: K2): int {
    if ks == [] then 0
    else (if f(ks[0]) == k2 then SumFor(rows, ks[0]) else 0) + SumOverKeys(ks[1..], rows, f, k2)
  }

  lemma {:induction false} SumsAtProject<K, K2>(ks: seq<K>, rows: seq<(K, int)>, f: K -> K2, k2: K2)
    ensures SumFor(Project(SumsAt(ks, rows), f), k2) == SumOverKeys(ks, rows, f, k2)
  {
    if ks != [] {
      assert Project(SumsAt(ks, rows), f)[1..] == Project(SumsAt(ks[1..], rows), f);
      SumsAtProject(ks[1..], rows, f, k2);
    }
  }

  /** Removing the first row from the table lowers the sum over distinct keys by that row's
      share, if its key is listed. */
  lemma {:induction false} SumOverKeysStep<K, K2>(ks: seq<K>, rows: seq<(K, int)>, f: K -> K2, k2: K2)
    requires NoDup(ks) && rows != []
    ensures SumOverKeys(ks, rows, f, k2)
         == SumOverKeys(ks, rows[1..], f, k2) + (if rows[0].0 in ks && f(rows[0].0) == k2 then rows[0].1 else 0)
  {
    if ks != [] {
      assert NoDup(ks[1..]);
      SumOverKeysStep(ks[1..], rows, f, k2);
      if rows[0].0 == ks[0] {
        assert rows[0].0 !in ks[1..];
      }
    }
  }

  lemma {:induction false} SumOverKeysCovering<K, K2>(ks: seq<K>, rows: seq<(K, int)>, f: K -> K2, k2: K2)
    requires NoDup(ks)
    requires forall i :: 0 <= i < |rows| ==> rows[i].0 in ks
    ensures SumOverKeys(ks, rows, f, k2) == SumFor(Project(rows, f), k2)
  {
    if rows == [] {
      SumOverKeysEmpty(ks, rows, f, k2);
    } else {
      SumOverKeysStep(ks, rows, f, k2);
      SumOverKeysCovering(ks, rows[1..], f, k2);
      assert Project(rows, f)[1..] == Project(rows[1..], f);
    }
  }

  lemma {:induction false} SumOverKeysEmpty<K, K2>(ks: seq<K>, rows: seq<(K, int)>, f: K -> K2, k2: K2)
    requires rows == []
    ensures SumOverKeys(ks, rows, f, k2) == 0
  {
    if ks != [] {
      SumOverKeysEmpty(ks[1..], rows, f, k2);
    }
  }

  /** Sum decomposition: grouping by a fine key, then summing the group totals by a coarser
      key f(key), gives each coarse key the total of all its raw rows. */
  lemma Regroup<K(!new), K2>(rows: seq<(K, int)>, lt: (K, K) -> bool, f: K -> K2, k2: K2)
    requires StrictTotalOrder(lt)
    ensures SumFor(Project(GroupSum(rows, lt), f), k2) == SumFor(Project(rows, f), k2)
  {
    var ks := SortedDistinct(KeysOf(rows), lt);
    StrictlySortedNoDup(ks, lt);
    SumsAtProject(ks, rows, f, k2);
    forall i | 0 <= i < |rows| ensures rows[i].0 in ks {
      assert rows[i].0 == KeysOf(rows)[i];
    }
    SumOverKeysCovering(ks, rows, f, k2);
  }

  // ---------------------------------------------------------------------------
  // Ranking: a stable sort by value, descending, and `nlargest`.

  ghost predicate NonIncreasing<K>(s: seq<(K, int)>) {
    forall i, j :: 0 <= i < j < |s| ==> s[i].1 >= s[j].1
  }

  /** The rows of s whose value is v, in their order in s. */
  function ValueClass<K>(s: seq<(K, int)>, v: int): seq<(K, int)> {
    if s == [] then []
    else (if s[0].1 == v then [s[0]] else []) + ValueClass(s[1..], v)
  }

  /** Inserts x after the leading rows whose value is at least x's. */
  function InsertDesc<K>(x: (K, int), s: seq<(K, int)>): seq<(K, int)> {
    if s == [] then [x]
    else if s[0].1 < x.1 then [x] + s
    else [s[0]] + InsertDesc(x, s[1..])
  }

  lemma {:induction false} InsertDescPermutes<K>(x: (K, int), s: seq<(K, int)>)
    ensures multiset(InsertDesc(x, s)) == multiset(s) + multiset{x}
  {
    if s != [] && s[0].1 >= x.1 {
      InsertDescPermutes(x, s[1..]);
      assert s == [s[0]] + s[1..];
    }
  }

  /** Inserting into a descending table keeps it descending. */
  lemma {:induction false} InsertDescSorted<K>(x: (K, int), s: seq<(K, int)>)
    requires NonIncreasing(s)
    ensures NonIncreasing(InsertDesc(x, s))
  {
    if s != [] && s[0].1 >= x.1 {
      var rest := InsertDesc(x, s[1..]);
      assert NonIncreasing(s[1..]);
      InsertDescSorted(x, s[1..]);
      InsertDescBound(x, s[1..], s[0].1);
      assert InsertDesc(x, s) == [s[0]] + rest;
    }
  }

  /** A bound on every value of s and on x bounds every value after the insertion. */
  lemma {:induction false} InsertDescBound<K>(x: (K, int), s: seq<(K, int)>, b: int)
    requires x.1 <= b && forall i :: 0 <= i < |s| ==> s[i].1 <= b
    ensures forall j :: 0 <= j < |InsertDesc(x, s)| ==> InsertDesc(x, s)[j].1 <= b
  {
    if s != [] && s[0].1 >= x.1 {
      InsertDescBound(x, s[1..], b);
      assert InsertDesc(x, s) == [s[0]] + InsertDesc(x, s[1..]);
    }
  }

  /** `sort_values(ascending=False)` with a stable sort: a permutation of s by non-increasing
      value in which rows of equal value keep their order. */
  function SortDesc<K>(s: seq<(K, int)>): (r: seq<(K, int)>)
    ensures NonIncreasing(r)
    ensures multiset(r) == multiset(s)
    ensures |r| == |s|
  {
    if s == [] then []
    else
      assert s == s[..|s| - 1] + [s[|s| - 1]];
      var r := InsertDesc(s[|s| - 1], SortDesc(s[..|s| - 1]));
      InsertDescSorted(s[|s| - 1], SortDesc(s[..|s| - 1]));
      InsertDescPermutes(s[|s| - 1], SortDesc(s[..|s| - 1]));
      assert |r| == |multiset(r)|;
      r
  }

  lemma {:induction false} ValueClassAppend<K>(a: seq<(K, int)>, b: seq<(K, int)>, v: int)
    ensures ValueClass(a + b, v) == ValueClass(a, v) + ValueClass(b, v)
  {
    if a != [] {
      assert (a + b)[0] == a[0] && (a + b)[1..] == a[1..] + b;
      ValueClassAppend(a[1..], b, v);
    } else {
      assert a + b == b;
    }
  }

  lemma {:induction false} ValueClassNone<K>(s: seq<(K, int)>, v: int)
    requires forall i :: 0 <= i < |s| ==> s[i].1 < v
    ensures ValueClass(s, v) == []
  {
    if s != [] {
      ValueClassNone(s[1..], v);
    }
  }

  /** Non-increasing values, stated one neighbour at a time. */
  ghost predicate Descending<K>(s: seq<(K, int)>) {
    |s| <= 1 || (s[0].1 >= s[1].1 && Descending(s[1..]))
  }

  lemma {:induction false} DescendingOf<K>(s: seq<(K, int)>)
    requires NonIncreasing(s)
    ensures Descending(s)
  {
    if |s| > 1 {
      assert NonIncreasing(s[1..]);
      DescendingOf(s[1..]);
    }
  }

  /** A descending table whose first value is below v has no row of value v. */
  lemma {:induction false} DescendingBelow<K>(s: seq<(K, int)>, v: int)
    requires Descending(s) && (s == [] || s[0].1 < v)
    ensures ValueClass(s, v) == []
  {
    if s != [] {
      DescendingBelow(s[1..], v);
    }
  }

  lemma {:induction false} InsertDescStable<K>(x: (K, int), s: seq<(K, int)>, v: int)
    requires Descending(s)
    ensures ValueClass(InsertDesc(x, s), v) == ValueClass(s, v) + (if x.1 == v then [x] else [])
  {
    var tail := if x.1 == v then [x] else [];
    if s == [] {
      assert ValueClass([x], v) == tail + ValueClass([], v);
    } else if s[0].1 < x.1 {
      if x.1 == v {
        DescendingBelow(s, v);
      }
      assert InsertDesc(x, s) == [x] + s;
      ValueClassAppend([x], s, v);
      assert ValueClass([x], v) == tail + ValueClass([], v);
    } else {
      var rest := InsertDesc(x, s[1..]);
      var head := ValueClass([s[0]], v);
      calc {
        ValueClass(InsertDesc(x, s), v);
      == { assert InsertDesc(x, s) == [s[0]] + rest; }
        ValueClass([s[0]] + rest, v);
      == { ValueClassAppend([s[0]], rest, v); }
        head + ValueClass(rest, v);
      == { InsertDescStable(x, s[1..], v); }
        head + (ValueClass(s[1..], v) + tail);
      ==
        (head + ValueClass(s[1..], v)) + tail;
      == { ValueClassAppend([s[0]], s[1..], v); assert [s[0]] + s[1..] == s; }
        ValueClass(s, v) + tail;
      }
    }
  }

  /** Stability: the rows of any one value come out of SortDesc in their input order. */
  lemma {:induction false} SortDescStable<K>(s: seq<(K, int)>, v: int)
    ensures ValueClass(SortDesc(s), v) == ValueClass(s, v)
  {
    if s != [] {
      var init, last := s[..|s| - 1], s[|s| - 1];
      assert s == init + [last];
      var sorted := SortDesc(init);
      var tail := if last.1 == v then [last] else [];
      assert SortDesc(s) == InsertDesc(last, sorted);
      DescendingOf(sorted);
      InsertDescStable(last, sorted, v);
      assert ValueClass(SortDesc(s), v) == ValueClass(sorted, v) + tail;
      SortDescStable(init, v);
      assert ValueClass(sorted, v) == ValueClass(init, v);
      ValueClassAppend(init, [last], v);
      assert ValueClass([last], v) == tail;
    }
  }

  function Min(a: int, b: int): int {
    if a < b then a else b
  }

  lemma ClassOfFirst<K>(s: seq<(K, int)>)
    ensures s != [] ==> ValueClass(s, s[0].1) != []
    ensures s == [] ==> forall v :: ValueClass(s, v) == []
  {
  }

  /** Two descending sequences with the same rows of every value, in the same order, are equal. */
  lemma {:induction false} ValueClassesDetermine<K>(a: seq<(K, int)>, b: seq<(K, int)>)
    requires NonIncreasing(a) && NonIncreasing(b)
    requires forall v :: ValueClass(a, v) == ValueClass(b, v)
    ensures a == b
  {
    if a == [] {
      assert ValueClass(a, 0) == [];
      ClassOfFirst(b);
    } else {
      HeadsAgree(a, b);
      TailsAgree(a, b);
      ValueClassesDetermine(a[1..], b[1..]);
      assert a == [a[0]] + a[1..] && b == [b[0]] + b[1..];
    }
  }

  lemma HeadsAgree<K>(a: seq<(K, int)>, b: seq<(K, int)>)
    requires NonIncreasing(a) && NonIncreasing(b) && a != []
    requires forall v :: ValueClass(a, v) == ValueClass(b, v)
    ensures b != [] && a[0] == b[0]
  {
    var v := a[0].1;
    ClassOfFirst(a);
    assert ValueClass(b, v) != [];
    DescendingOf(a);
    DescendingOf(b);
    ClassBelowHead(b, v);
    var w := b[0].1;
    ClassOfFirst(b);
    assert ValueClass(a, w) != [];
    ClassBelowHead(a, w);
    assert ValueClass(a, v)[0] == a[0] && ValueClass(b, v)[0] == b[0];
  }

  /** A value present in a descending table is at most its first value. */
  lemma {:induction false} ClassBelowHead<K>(s: seq<(K, int)>, v: int)
    requires Descending(s) && ValueClass(s, v) != []
    ensures s != [] && v <= s[0].1
  {
    if s[0].1 != v {
      ClassBelowHead(s[1..], v);
    }
  }

  lemma TailsAgree<K>(a: seq<(K, int)>, b: seq<(K, int)>)
    requires a != [] && b != [] && a[0] == b[0]
    requires forall v :: ValueClass(a, v) == ValueClass(b, v)
    ensures forall v :: ValueClass(a[1..], v) == ValueClass(b[1..], v)
  {
    forall u ensures ValueClass(a[1..], u) == ValueClass(b[1..], u) {
      if u == a[0].1 {
        assert ValueClass(a[1..], u) == ValueClass(a, u)[1..] == ValueClass(b, u)[1..] == ValueClass(b[1..], u);
      } else {
        assert ValueClass(a, u) == ValueClass(a[1..], u);
        assert ValueClass(b, u) == ValueClass(b[1..], u);
      }
    }
  }

  /** The stable descending sort leaves a descending sequence as it is. */
  lemma SortDescOfSorted<K>(s: seq<(K, int)>)
    requires NonIncreasing(s)
    ensures SortDesc(s) == s
  {
    forall v ensures ValueClass(SortDesc(s), v) == ValueClass(s, v) {
      SortDescStable(s, v);
    }
    ValueClassesDetermine(SortDesc(s), s);
  }

  /** `nlargest(n)` keeping the first of tied rows: the first n rows of the stable
      descending sort. */
  function NLargest<K>(s: seq<(K, int)>, n: nat): (r: seq<(K, int)>)
    ensures |r| == Min(n, |s|)
    ensures NonIncreasing(r)
    ensures multiset(r) <= multiset(s)
    ensures forall x, y :: x in r && y in s && y !in r ==> y.1 <= x.1
    ensures forall v :: ValueClass(r, v) <= ValueClass(s, v)
  {
    var t := SortDesc(s);
    var r := t[..Min(n, |s|)];
    NLargestProperties(s, t, r);
    r
  }

  /** Sorting by value, descending and stably, before `nlargest` changes nothing. */
  lemma NLargestAfterSort<K>(s: seq<(K, int)>, n: nat)
    ensures NLargest(SortDesc(s), n) == NLargest(s, n)
  {
    SortDescOfSorted(SortDesc(s));
  }

  lemma NLargestProperties<K>(s: seq<(K, int)>, t: seq<(K, int)>, r: seq<(K, int)>)
    requires t == SortDesc(s) && r <= t
    ensures multiset(r) <= multiset(s)
    ensures forall x, y :: x in r && y in s && y !in r ==> y.1 <= x.1
    ensures forall v :: ValueClass(r, v) <= ValueClass(s, v)
  {
    var rest := t[|r|..];
    assert t == r + rest;
    forall x, y | x in r && y in s && y !in r ensures y.1 <= x.1 {
      assert y in multiset(t);
      var i :| 0 <= i < |r| && r[i] == x;
      var j :| 0 <= j < |rest| && rest[j] == y;
      assert t[i] == x && t[|r| + j] == y;
    }
    forall v ensures ValueClass(r, v) <= ValueClass(s, v) {
      ValueClassAppend(r, rest, v);
      SortDescStable(s, v);
    }
  }

  lemma {:induction false} SumForAppend<K>(a: seq<(K, int)>, b: seq<(K, int)>, k: K)
    ensures SumFor(a + b, k) == SumFor(a, k) + SumFor(b, k)
  {
    if a == [] {
      assert a + b == b;
    } else {
      assert (a + b)[0] == a[0] && (a + b)[1..] == a[1..] + b;
      SumForAppend(a[1..], b, k);
    }
  }

  lemma {:induction false} NoDupCount<T>(s: seq<T>, x: T)
    requires NoDup(s)
    ensures multiset(s)[x] <= 1
  {
    if s != [] {
      assert s == [s[0]] + s[1..];
      NoDupCount(s[1..], x);
      if s[0] == x {
        assert x !in s[1..];
      }
    }
  }

  lemma TwiceCount<T>(s: seq<T>, i: int, j: int)
    requires 0 <= i < j < |s| && s[i] == s[j]
    ensures multiset(s)[s[i]] >= 2
  {
    assert s == s[..j] + s[j..];
    assert s[..j][i] == s[i];
    assert s[j..][0] == s[j];
  }

  /** A selection of rows with distinct keys, each taken at most once, has distinct keys. */
  lemma SubMultisetDistinctKeys<K, V>(r: seq<(K, V)>, s: seq<(K, V)>)
    requires multiset(r) <= multiset(s) && NoDup(KeysOf(s))
    ensures NoDup(KeysOf(r))
  {
    assert NoDup(s) by {
      forall i, j | 0 <= i < j < |s| ensures s[i] != s[j] {
        assert KeysOf(s)[i] != KeysOf(s)[j];
      }
    }
    forall i, j | 0 <= i < j < |r| ensures KeysOf(r)[i] != KeysOf(r)[j] {
      if r[i] == r[j] {
        TwiceCount(r, i, j);
        NoDupCount(s, r[i]);
      } else {
        assert r[i] in multiset(s) && r[j] in multiset(s);
        var p :| 0 <= p < |s| && s[p] == r[i];
        var q :| 0 <= q < |s| && s[q] == r[j];
        assert KeysOf(s)[p] == r[i].0 && KeysOf(s)[q] == r[j].0;
      }
    }
  }

  // ---------------------------------------------------------------------------

  /** The position of the first occurrence of x in s. */
  function FirstIndex<T(==)>(s: seq<T>, x: T): (i: nat)
    requires x in s
    ensures i < |s| && s[i] == x && x !in s[..i]
  {
    if s[0] == x then 0
    else
      var j := FirstIndex(s[1..], x);
      assert s[..1 + j] == [s[0]] + s[1..][..j];
      1 + j
  }

  /** Any position of x with no earlier x is its first occurrence. */
  lemma FirstIndexUnique<T>(s: seq<T>, x: T, i: nat)
    requires i < |s| && s[i] == x && x !in s[..i]
    ensures FirstIndex(s, x) == i
  {
  }

  /** Dropping the last element keeps the first occurrences of the elements before it; the
      last element, when new, first occurs at the end. */
  lemma FirstIndexInit<T>(s: seq<T>)
    requires s != []
    ensures forall x :: x in s[..|s| - 1] ==> FirstIndex(s, x) == FirstIndex(s[..|s| - 1], x)
    ensures s[|s| - 1] !in s[..|s| - 1] ==> FirstIndex(s, s[|s| - 1]) == |s| - 1
  {
    var init := s[..|s| - 1];
    forall x | x in init ensures FirstIndex(s, x) == FirstIndex(init, x) {
      var j := FirstIndex(init, x);
      assert s[..j] == init[..j];
      FirstIndexUnique(s, x, j);
    }
    if s[|s| - 1] !in init {
      FirstIndexUnique(s, s[|s| - 1], |s| - 1);
    }
  }

  /** `unique()`: the distinct elements in order of first occurrence. */
  function Unique<T(==,!new)>(s: seq<T>): (r: seq<T>)
    ensures forall x :: x in r <==> x in s
    ensures NoDup(r)
    ensures forall i, j :: 0 <= i < j < |r| ==> r[i] in s && r[j] in s && FirstIndex(s, r[i]) < FirstIndex(s, r[j])
  {
    if s == [] then []
    else
      var u := Unique(s[..|s| - 1]);
      assert forall x :: x in s <==> x in s[..|s| - 1] || x == s[|s| - 1];
      FirstIndexInit(s);
      if s[|s| - 1] in u then u else u + [s[|s| - 1]]
  }

  lemma {:induction false} UniqueOfDistinct<T(!new)>(s: seq<T>)
    requires NoDup(s)
    ensures Unique(s) == s
  {
    if s != [] {
      UniqueOfDistinct(s[..|s| - 1]);
      assert s[|s| - 1] !in s[..|s| - 1];
      assert s == s[..|s| - 1] + [s[|s| - 1]];
    }
  }

  lemma {:induction false} NoDupCard<T>(s: seq<T>)
    requires NoDup(s)
    ensures |set x | x in s| == |s|
  {
    if s != [] {
      NoDupCard(s[1..]);
      assert (set x | x in s) == {s[0]} + (set x | x in s[1..]);
    }
  }

  /** A row whose key is not among the kept keys is not a kept row. */
  lemma NotKeptAbsent<K, V>(top: seq<(K, V)>, x: (K, V))
    requires x.0 !in KeysOf(top)
    ensures x !in top
  {
    forall k | 0 <= k < |top| ensures top[k] != x {
      assert KeysOf(top)[k] == top[k].0;
    }
  }

  /** No group left out by nlargest has a larger value than a kept one. */
  lemma NotKeptNotLarger<K>(totals: seq<(K, int)>, n: nat)
    ensures var top := NLargest(totals, n);
            forall i, j :: 0 <= i < |totals| && 0 <= j < |top| && totals[i].0 !in KeysOf(top) ==>
              totals[i].1 <= top[j].1
  {
    var top := NLargest(totals, n);
    forall i, j | 0 <= i < |totals| && 0 <= j < |top| && totals[i].0 !in KeysOf(top)
      ensures totals[i].1 <= top[j].1
    {
      NotKeptAbsent(top, totals[i]);
      assert top[j] in top;
    }
  }

  lemma {:induction false} ValueClassMember<K>(s: seq<(K, int)>, v: int, x: (K, int))
    ensures x in ValueClass(s, v) <==> x in s && x.1 == v
  {
    if s != [] {
      ValueClassMember(s[1..], v, x);
      assert x in s <==> x == s[0] || x in s[1..];
    }
  }

  /** The rows of one value keep the key order of the whole. */
  lemma {:induction false} ValueClassSortedKeys<K>(s: seq<(K, int)>, lt: (K, K) -> bool, v: int)
    requires StrictlySorted(KeysOf(s), lt)
    ensures StrictlySorted(KeysOf(ValueClass(s, v)), lt)
  {
    if s != [] {
      assert StrictlySorted(KeysOf(s[1..]), lt) by {
        assert forall i :: 0 <= i < |s[1..]| ==> KeysOf(s[1..])[i] == KeysOf(s)[i + 1];
      }
      var rest := ValueClass(s[1..], v);
      ValueClassSortedKeys(s[1..], lt, v);
      if s[0].1 == v {
        var c := [s[0]] + rest;
        assert ValueClass(s, v) == c;
        forall i, j | 0 <= i < j < |c| ensures lt(KeysOf(c)[i], KeysOf(c)[j]) {
          var x := c[j];
          assert x == rest[j - 1] && x in rest;
          ValueClassMember(s[1..], v, x);
          var k :| 0 <= k < |s[1..]| && s[1..][k] == x;
          assert KeysOf(s)[0] == s[0].0 && KeysOf(s)[k + 1] == x.0;
          if i > 0 {
            assert KeysOf(c)[i] == KeysOf(rest)[i - 1] && KeysOf(c)[j] == KeysOf(rest)[j - 1];
          }
        }
      } else {
        assert ValueClass(s, v) == rest;
      }
    }
  }

  /** Of groups with equal values, nlargest keeps those that come first in key order: a
      group left out never ties with a kept group whose key comes after its own. */
  lemma TiesKeepFirst<K>(totals: seq<(K, int)>, lt: (K, K) -> bool, n: nat)
    requires StrictlySorted(KeysOf(totals), lt)
    ensures var top := NLargest(totals, n);
            forall j, i :: 0 <= j < |totals| && totals[j].0 !in KeysOf(top) && 0 <= i < |top| && totals[j].1 == top[i].1
              ==> lt(top[i].0, totals[j].0)
  {
    var top := NLargest(totals, n);
    forall j, i | 0 <= j < |totals| && totals[j].0 !in KeysOf(top) && 0 <= i < |top| && totals[j].1 == top[i].1
      ensures lt(top[i].0, totals[j].0)
    {
      NotKeptAbsent(top, totals[j]);
      TieOrder(totals, top, lt, j, i);
    }
  }

  /** A row of totals missing from top, tied with top's row i, whose rows of that value are
      a prefix of totals' own, comes after it in key order. */
  lemma TieOrder<K>(totals: seq<(K, int)>, top: seq<(K, int)>, lt: (K, K) -> bool, j: int, i: int)
    requires StrictlySorted(KeysOf(totals), lt)
    requires 0 <= j < |totals| && 0 <= i < |top| && totals[j] !in top && totals[j].1 == top[i].1
    requires ValueClass(top, top[i].1) <= ValueClass(totals, top[i].1)
    ensures lt(top[i].0, totals[j].0)
  {
    var v := top[i].1;
    var omitted, kept := totals[j], top[i];
    var all, prefix := ValueClass(totals, v), ValueClass(top, v);
    ValueClassMember(top, v, kept);
    ValueClassMember(top, v, omitted);
    ValueClassMember(totals, v, omitted);
    ValueClassSortedKeys(totals, lt, v);
    var p :| 0 <= p < |prefix| && prefix[p] == kept;
    var q :| 0 <= q < |all| && all[q] == omitted;
    assert forall k :: 0 <= k < |prefix| ==> all[k] == prefix[k] != omitted;
    assert p < q;
    assert KeysOf(all)[p] == kept.0 && KeysOf(all)[q] == omitted.0;
  }
}
