/** The strings the pipeline builds and reads back: the `"id | name"` airline
    options, the airline id parsed out of a chosen option, and the year-range
    label with the single-year test that suppresses the by-year chart. */
module Labels {

  /** Python's `str.isspace`: the characters `strip()` removes. */
  predicate IsSpace(c: char) {
    || c == ' ' || c == '\t' || c == '\n' || c == '\r'
    || c == '\U{B}' || c == '\U{C}'
    || ('\U{1C}' <= c <= '\U{1F}')
    || c == '\U{85}' || c == '\U{A0}' || c == '\U{1680}'
    || ('\U{2000}' <= c <= '\U{200A}')
    || c == '\U{2028}' || c == '\U{2029}' || c == '\U{202F}' || c == '\U{205F}' || c == '\U{3000}'
  }

  function RStrip(s: string): (r: string)
    ensures r <= s
    ensures r == [] || !IsSpace(r[|r| - 1])
    ensures forall i :: |r| <= i < |s| ==> IsSpace(s[i])
  {
    if s != [] && IsSpace(s[|s| - 1]) then RStrip(s[..|s| - 1]) else s
  }

  function LStrip(s: string): (r: string)
    ensures |r| <= |s| && r == s[|s| - |r|..]
    ensures r == [] || !IsSpace(r[0])
    ensures forall i :: 0 <= i < |s| - |r| ==> IsSpace(s[i])
  {
    if s != [] && IsSpace(s[0]) then LStrip(s[1..]) else s
  }

  /** r is s[i..] cut short to |r| characters, with only whitespace outside it. */
  ghost predicate TrimmedAt(s: string, r: string, i: int) {
    && 0 <= i && i + |r| <= |s| && r == s[i..i + |r|]
    && (forall k :: 0 <= k < i ==> IsSpace(s[k]))
    && (forall k :: i + |r| <= k < |s| ==> IsSpace(s[k]))
  }

  /** Stripping the right and then the left end cuts s at |RStrip(s)| - |Strip(s)|. */
  lemma StripCut(s: string)
    ensures var m := RStrip(s); TrimmedAt(s, LStrip(m), |m| - |LStrip(m)|)
    ensures forall c :: c in s && !IsSpace(c) ==> c in LStrip(RStrip(s))
  {
    var m := RStrip(s);
    var r := LStrip(m);
    var i := |m| - |r|;
    assert m == s[..|m|];
    assert i + |r| == |m|;
    assert r == s[i..i + |r|];
    forall k | 0 <= k < i ensures IsSpace(s[k]) {
      assert s[k] == m[k];
    }
    forall c | c in s && !IsSpace(c) ensures c in r {
      var k :| 0 <= k < |s| && s[k] == c;
      assert r[k - i] == c;
    }
  }

  /** `str.strip()`: drops leading and trailing whitespace. */
  function Strip(s: string): (r: string)
    ensures r == [] || (!IsSpace(r[0]) && !IsSpace(r[|r| - 1]))
    ensures exists i :: TrimmedAt(s, r, i)
    ensures forall c :: c in s && !IsSpace(c) ==> c in r
    ensures s == [] || (!IsSpace(s[0]) && !IsSpace(s[|s| - 1])) ==> r == s
  {
    StripCut(s);
    LStrip(RStrip(s))
  }

  /** `s.split(c)[0]`: everything before the first c, or all of s when there is none. */
  function BeforeFirst(s: string, c: char): (r: string)
    ensures r <= s && c !in r
    ensures |r| < |s| ==> s[|r|] == c
  {
    if s == [] || s[0] == c then [] else [s[0]] + BeforeFirst(s[1..], c)
  }

  /** Everything after the first c; empty when there is none. */
  function AfterFirst(s: string, c: char): (r: string)
    ensures |r| <= |s| && r == s[|s| - |r|..]
  {
    if s == [] then [] else if s[0] == c then s[1..] else AfterFirst(s[1..], c)
  }

  lemma {:induction false} SplitAtFirst(a: string, c: char, b: string)
    requires c !in a
    ensures BeforeFirst(a + [c] + b, c) == a
    ensures AfterFirst(a + [c] + b, c) == b
  {
    if a != [] {
      assert (a + [c] + b)[1..] == a[1..] + [c] + b;
      SplitAtFirst(a[1..], c, b);
    }
  }

  lemma {:induction false} BeforeFirstAbsent(s: string, c: char)
    requires c !in s
    ensures BeforeFirst(s, c) == s
  {
    if s != [] {
      BeforeFirstAbsent(s[1..], c);
    }
  }

  // ---------------------------------------------------------------------------
  // Airline options

  /** An airline id that survives the option round trip: no `|` and no surrounding whitespace. */
  ghost predicate CleanId(id: string) {
    '|' !in id && (id == [] || (!IsSpace(id[0]) && !IsSpace(id[|id| - 1])))
  }

  /** `id.str.cat(name, ' | ')`: the option shown for an airline. */
  function AirlineLabel(id: string, name: string): (r: string)
    ensures '|' !in id ==> BeforeFirst(r, '|') == id + " "
  {
    var r := id + " | " + name;
    assert r == (id + " ") + ['|'] + (" " + name);
    if '|' in id then r else SplitAtFirst(id + " ", '|', " " + name); r
  }

  /** `option.split('|')[0].strip()`: the airline id read back from a chosen option. */
  function ParseAirlineId(option: string): (r: string)
    ensures CleanId(r)
    ensures exists i :: TrimmedAt(BeforeFirst(option, '|'), r, i)
    ensures forall c :: c in BeforeFirst(option, '|') && !IsSpace(c) ==> c in r
  {
    Strip(BeforeFirst(option, '|'))
  }

  /** Parsing an option gives back its airline id, whatever the name, when the id is clean. */
  lemma AirlineLabelRoundTrip(id: string, name: string)
    requires CleanId(id)
    ensures ParseAirlineId(AirlineLabel(id, name)) == id
  {
    assert AirlineLabel(id, name) == (id + [' ']) + ['|'] + (" " + name);
    SplitAtFirst(id + [' '], '|', " " + name);
    assert RStrip(id + [' ']) == RStrip(id) == id;
    assert LStrip(id) == id;
  }

  // ---------------------------------------------------------------------------
  // Year labels

  function DigitChar(d: int): char
    requires 0 <= d < 10
  {
    "0123456789"[d]
  }

  predicate IsDigit(c: char) {
    '0' <= c <= '9'
  }

  /** Python's `str(n)` for a natural number. */
  function NatToString(n: nat): (s: string)
    ensures s != [] && forall i :: 0 <= i < |s| ==> IsDigit(s[i])
    ensures s[0] == '0' ==> n == 0
  {
    if n < 10 then [DigitChar(n)] else NatToString(n / 10) + [DigitChar(n % 10)]
  }

  /** `f"{n}"` for any integer. */
  function IntToString(n: int): (r: string)
    ensures r != [] && (r[0] == '-' <==> n < 0)
    ensures var digits := if n < 0 then r[1..] else r;
            && digits != []
            && (forall i :: 0 <= i < |digits| ==> IsDigit(digits[i]))
            && ParseNat(digits) == if n < 0 then -n else n
  {
    NatToStringRoundTrip(if n < 0 then -n else n);
    if n < 0 then "-" + NatToString(-n) else NatToString(n)
  }

  /** The number a string of decimal digits denotes. */
  function ParseNat(s: string): nat
    requires forall i :: 0 <= i < |s| ==> IsDigit(s[i])
  {
    if s == [] then 0
    else
      assert IsDigit(s[|s| - 1]);
      10 * ParseNat(s[..|s| - 1]) + (s[|s| - 1] as int - '0' as int) as nat
  }

  lemma {:induction false} NatToStringRoundTrip(n: nat)
    ensures ParseNat(NatToString(n)) == n
  {
    if n >= 10 {
      var s := NatToString(n / 10);
      NatToStringRoundTrip(n / 10);
      assert (s + [DigitChar(n % 10)])[..|s|] == s;
    }
  }

  /** The year range in a title: `"min-max"`, or `"min"` when the range is a single year. */
  function YearRangeLabel(lo: int, hi: int): (r: string)
    ensures IntToString(lo) <= r
    ensures lo != hi <==> |r| > |IntToString(lo)|
    ensures lo != hi ==> |IntToString(hi)| < |r| && r[|r| - |IntToString(hi)|..] == IntToString(hi)
  {
    if lo != hi then IntToString(lo) + "-" + IntToString(hi) else IntToString(lo)
  }

  /** The by-year chart is drawn only for a range of more than one year. */
  function ShowsByYearChart(lo: int, hi: int): (b: bool)
    ensures b <==> YearRangeLabel(lo, hi) != IntToString(lo)
  {
    lo != hi
  }

  /** For years written without a sign, the label has a dash exactly when the by-year chart
      is shown, and the label reads back as the range it was built from. */
  lemma YearRangeLabelReadsBack(lo: nat, hi: nat)
    ensures '-' in YearRangeLabel(lo, hi) <==> ShowsByYearChart(lo, hi)
    ensures var b := BeforeFirst(YearRangeLabel(lo, hi), '-');
            (forall i :: 0 <= i < |b| ==> IsDigit(b[i])) && ParseNat(b) == lo
    ensures lo != hi ==>
              var a := AfterFirst(YearRangeLabel(lo, hi), '-');
              (forall i :: 0 <= i < |a| ==> IsDigit(a[i])) && ParseNat(a) == hi
  {
    var l, h := NatToString(lo), NatToString(hi);
    assert '-' !in l && '-' !in h by {
      assert !IsDigit('-');
    }
    NatToStringRoundTrip(lo);
    NatToStringRoundTrip(hi);
    if lo != hi {
      assert YearRangeLabel(lo, hi) == l + ['-'] + h;
      SplitAtFirst(l, '-', h);
    } else {
      BeforeFirstAbsent(l, '-');
    }
  }
}
