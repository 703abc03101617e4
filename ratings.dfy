/** SearchServer::ComputeAverageRating: the integer mean of a document's
    ratings, with C++'s int division. */
module Ratings {

  /** std::accumulate(ratings.begin(), ratings.end(), 0), without overflow. */
  function Sum(s: seq<int>): int {
    if s == [] then 0 else Sum(s[..|s| - 1]) + s[|s| - 1]
  }

  /** C++ `/` on int: the quotient rounded toward zero (Dafny's `/` floors
      for a positive divisor, which differs when `a` is negative). */
  function TruncDiv(a: int, b: int): (q: int)
    requires b > 0
    ensures a >= 0 ==> 0 <= a - q * b < b
    ensures a < 0 ==> -b < a - q * b <= 0
  {
    if a >= 0 then a / b else -((-a) / b)
  }

  /** ComputeAverageRating: 0 for no ratings, otherwise the sum divided by
      the count, rounded toward zero. */
  function ComputeAverageRating(ratings: seq<int>): (avg: int)
    ensures ratings == [] ==> avg == 0
    ensures ratings != [] && Sum(ratings) >= 0 ==>
      0 <= Sum(ratings) - avg * |ratings| < |ratings|
    ensures ratings != [] && Sum(ratings) < 0 ==>
      -|ratings| < Sum(ratings) - avg * |ratings| <= 0
  {
    if ratings == [] then 0 else TruncDiv(Sum(ratings), |ratings|)
  }

  /** Every rating of `s` lies in [lo, hi], so the sum lies in [n*lo, n*hi]. */
  lemma {:induction false} SumBounds(s: seq<int>, lo: int, hi: int)
    requires forall i :: 0 <= i < |s| ==> lo <= s[i] <= hi
    ensures |s| * lo <= Sum(s) <= |s| * hi
  {
    if s != [] {
      SumBounds(s[..|s| - 1], lo, hi);
      assert |s| * lo == (|s| - 1) * lo + lo;
      assert |s| * hi == (|s| - 1) * hi + hi;
    }
  }

  /** From a * n < b * n with n > 0 follows a < b. */
  lemma CancelFactor(a: int, b: int, n: int)
    requires n > 0 && a * n < b * n
    ensures a < b
  {
  }

  /** From a * n <= b * n with n > 0 follows a <= b. */
  lemma CancelFactorLe(a: int, b: int, n: int)
    requires n > 0 && a * n <= b * n
    ensures a <= b
  {
  }

  /** The average of a non-empty list of ratings lies between its smallest
      and its largest rating, whatever the signs. */
  lemma AverageWithinRange(ratings: seq<int>, lo: int, hi: int)
    requires ratings != []
    requires forall i :: 0 <= i < |ratings| ==> lo <= ratings[i] <= hi
    ensures lo <= ComputeAverageRating(ratings) <= hi
  {
    var n, avg, sum := |ratings|, ComputeAverageRating(ratings), Sum(ratings);
    SumBounds(ratings, lo, hi);
    var loN, hiN, avgN := lo * n, hi * n, avg * n;
    assert loN == n * lo && hiN == n * hi;
    assert loN <= sum <= hiN;
    if sum >= 0 {
      assert avgN <= sum < avgN + n;
      assert avgN + n == (avg + 1) * n;
      CancelFactor(lo, avg + 1, n);
      CancelFactorLe(avg, hi, n);
    } else {
      assert avgN - n < sum <= avgN;
      assert avgN - n == (avg - 1) * n;
      CancelFactorLe(lo, avg, n);
      CancelFactor(avg - 1, hi, n);
    }
  }

  /** Ratings 7, 2 and 7 average to 5 (16 / 3 rounded toward zero). */
  lemma AverageOfPositiveRatings()
    ensures ComputeAverageRating([7, 2, 7]) == 5
  {
    assert Sum([7, 2, 7]) == 16 by {
      assert [7, 2, 7][..2] == [7, 2] && [7, 2][..1] == [7] && [7][..0] == [];
    }
  }

  /** Ratings -7 and 2 average to -2: the C++ quotient -5 / 2 rounds toward
      zero, where a floored quotient would give -3. */
  lemma AverageOfMixedRatings()
    ensures ComputeAverageRating([-7, 2]) == -2
    ensures Sum([-7, 2]) / 2 == -3
  {
    assert Sum([-7, 2]) == -5 by {
      assert [-7, 2][..1] == [-7] && [-7][..0] == [];
    }
  }
}
