/** Orderings used by the pipeline: pandas orders the groups of a `groupby`
    by ascending key, on integers numerically and on strings by code point. */
module Order {

  /** `lt` is a strict total order on K. */
  ghost predicate StrictTotalOrder<K(!new)>(lt: (K, K) -> bool) {
    && (forall a :: !lt(a, a))
    && (forall a, b, c :: lt(a, b) && lt(b, c) ==> lt(a, c))
    && (forall a, b :: a != b ==> lt(a, b) || lt(b, a))
  }

  /** Every element comes strictly before the ones after it (so no duplicates). */
  ghost predicate StrictlySorted<K>(s: seq<K>, lt: (K, K) -> bool) {
    forall i, j :: 0 <= i < j < |s| ==> lt(s[i], s[j])
  }

  predicate IntLess(a: int, b: int) {
    a < b
  }

  /** Python's string comparison: lexicographic by code point, a proper prefix first. */
  predicate LexLess(a: string, b: string) {
    if a == [] then b != []
    else if b == [] then false
    else if a[0] != b[0] then a[0] < b[0]
    else LexLess(a[1..], b[1..])
  }

  /** Tuple comparison as pandas orders a two-level group key: first component, then second. */
  function PairLess<K(==), Y>(lt: (K, K) -> bool, ltY: (Y, Y) -> bool): ((K, Y), (K, Y)) -> bool {
    (a: (K, Y), b: (K, Y)) => lt(a.0, b.0) || (a.0 == b.0 && ltY(a.1, b.1))
  }

  lemma IntLessIsStrictTotal()
    ensures StrictTotalOrder(IntLess)
  {
  }

  lemma {:induction false} LexIrreflexive(a: string)
    ensures !LexLess(a, a)
  {
    if a != [] {
      LexIrreflexive(a[1..]);
    }
  }

  lemma {:induction false} LexTransitive(a: string, b: string, c: string)
    requires LexLess(a, b) && LexLess(b, c)
    ensures LexLess(a, c)
  {
    if a != [] && a[0] == b[0] && b[0] == c[0] {
      LexTransitive(a[1..], b[1..], c[1..]);
    }
  }

  lemma {:induction false} LexConnected(a: string, b: string)
    requires a != b
    ensures LexLess(a, b) || LexLess(b, a)
  {
    if a != [] && b != [] && a[0] == b[0] {
      assert a == [a[0]] + a[1..] && b == [b[0]] + b[1..];
      LexConnected(a[1..], b[1..]);
    }
  }

  lemma LexLessIsStrictTotal()
    ensures StrictTotalOrder(LexLess)
  {
    forall a: string {
      LexIrreflexive(a);
    }
    forall a: string, b: string, c: string | LexLess(a, b) && LexLess(b, c)
      ensures LexLess(a, c)
    {
      LexTransitive(a, b, c);
    }
    forall a: string, b: string | a != b
      ensures LexLess(a, b) || LexLess(b, a)
    {
      LexConnected(a, b);
    }
  }

  lemma PairLessIsStrictTotal<K(!new), Y(!new)>(lt: (K, K) -> bool, ltY: (Y, Y) -> bool)
    requires StrictTotalOrder(lt) && StrictTotalOrder(ltY)
    ensures StrictTotalOrder(PairLess(lt, ltY))
  {
    var p := PairLess(lt, ltY);
    forall a: (K, Y), b: (K, Y), c: (K, Y) | p(a, b) && p(b, c)
      ensures p(a, c)
    {
      assert lt(a.0, b.0) || (a.0 == b.0 && ltY(a.1, b.1));
      assert lt(b.0, c.0) || (b.0 == c.0 && ltY(b.1, c.1));
      if lt(a.0, b.0) && lt(b.0, c.0) {
        assert lt(a.0, c.0);
      } else if a.0 == b.0 && b.0 == c.0 {
        assert ltY(a.1, c.1);
      }
    }
    forall a: (K, Y), b: (K, Y) | a != b
      ensures p(a, b) || p(b, a)
    {
    }
  }

  /** Inserts x into a strictly sorted sequence, leaving it unchanged when x is already there. */
  function Insert<K(==,!new)>(x: K, s: seq<K>, lt: (K, K) -> bool): (r: seq<K>)
    requires StrictTotalOrder(lt) && StrictlySorted(s, lt)
    ensures StrictlySorted(r, lt)
    ensures forall y :: y in r <==> y == x || y in s
    ensures |r| <= |s| + 1
  {
    if s == [] then [x]
    else if x == s[0] then s
    else if lt(x, s[0]) then [x] + s
    else
      var rest := Insert(x, s[1..], lt);
      assert forall y :: y in rest ==> lt(s[0], y);
      [s[0]] + rest
  }

  /** The distinct elements of xs in ascending order: the group keys of a pandas `groupby`. */
  function SortedDistinct<K(==,!new)>(xs: seq<K>, lt: (K, K) -> bool): (r: seq<K>)
    requires StrictTotalOrder(lt)
    ensures StrictlySorted(r, lt)
    ensures forall y :: y in r <==> y in xs
    ensures |r| <= |xs|
  {
    if xs == [] then []
    else Insert(xs[|xs| - 1], SortedDistinct(xs[..|xs| - 1], lt), lt)
  }

  /** A strictly sorted sequence has no repeated element. */
  lemma StrictlySortedDistinct<K(!new)>(s: seq<K>, lt: (K, K) -> bool, i: int, j: int)
    requires StrictTotalOrder(lt) && StrictlySorted(s, lt)
    requires 0 <= i < |s| && 0 <= j < |s| && i != j
    ensures s[i] != s[j]
  {
    if i < j {
      assert lt(s[i], s[j]);
    } else {
      assert lt(s[j], s[i]);
    }
  }
}
