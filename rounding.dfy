/** pandas `round(0)` on a ratio of integers: round to the nearest integer,
    an exact half going to the even neighbour (numpy's `rint`). */
module Rounding {

  /** num/den rounded half to even. */
  function RoundHalfEven(num: int, den: int): (r: int)
    requires den > 0
    ensures -den <= 2 * (num - r * den) <= den
    ensures 2 * (num - r * den) == den || 2 * (num - r * den) == -den ==> r % 2 == 0
  {
    var q := num / den;
    var rem := num % den;
    assert num - q * den == rem;
    assert num - (q + 1) * den == rem - den;
    if 2 * rem < den then q
    else if 2 * rem > den then q + 1
    else if q % 2 == 0 then q
    else q + 1
  }

  /** The two conditions in RoundHalfEven's contract fix its result: any integer
      that is as near as possible and even on a tie is that result. */
  lemma RoundHalfEvenUnique(num: int, den: int, r: int)
    requires den > 0
    requires -den <= 2 * (num - r * den) <= den
    requires 2 * (num - r * den) == den || 2 * (num - r * den) == -den ==> r % 2 == 0
    ensures r == RoundHalfEven(num, den)
  {
    var m := RoundHalfEven(num, den);
    var d, e1, e2 := r - m, num - r * den, num - m * den;
    assert d * den == e2 - e1;
    DividedBound(d, den);
    assert d == 1 ==> 2 * e2 == den && 2 * e1 == -den;
    assert d == -1 ==> 2 * e2 == -den && 2 * e1 == den;
  }

  /** A multiple d * den within [-den, den] has d in {-1, 0, 1}. */
  lemma DividedBound(d: int, den: int)
    requires den > 0 && -den <= d * den <= den
    ensures -1 <= d <= 1
    ensures d * den == if d == 1 then den else if d == -1 then -den else 0
  {
    MultipleGrows(d, den);
  }

  lemma MultipleGrows(d: int, den: int)
    requires den > 0
    ensures d >= 2 ==> d * den >= 2 * den
    ensures d <= -2 ==> d * den <= -2 * den
  {
    if d >= 2 {
      assert d * den == 2 * den + (d - 2) * den;
    } else if d <= -2 {
      assert d * den == -2 * den + (d + 2) * den;
    }
  }

  /** An exact quotient is returned unchanged. */
  lemma RoundExact(k: int, den: int)
    requires den > 0
    ensures RoundHalfEven(k * den, den) == k
  {
    RoundHalfEvenUnique(k * den, den, k);
  }

  /** Rounding two shares of a whole: when num and total * den - num are the two parts of
      total * den and total is even, their rounded quotients add up to exactly total (an
      exact half rounds down in one part and up in the other). */
  lemma RoundComplement(num: int, den: int, total: int)
    requires den > 0 && total % 2 == 0
    ensures RoundHalfEven(num, den) + RoundHalfEven(total * den - num, den) == total
  {
    var r := RoundHalfEven(num, den);
    var s, e := total - r, num - r * den;
    assert s * den == total * den - r * den;
    assert (total * den - num) - s * den == -e;
    assert (2 * -e == den || 2 * -e == -den) ==> s % 2 == 0;
    RoundHalfEvenUnique(total * den - num, den, s);
  }
}
