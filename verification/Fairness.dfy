/**
 Jain's fairness index over tenant mean latencies (scripts/bench-tenant-concurrency.ts), over exact
 reals. Dividing zero by zero, which the source does when every mean is zero, yields `None`.
 */
module Fairness {
  import opened Wrappers

  function Sum(s: seq<real>): real { if s == [] then 0.0 else Sum(s[..|s| - 1]) + s[|s| - 1] }

  function SumSquares(s: seq<real>): real {
    if s == [] then 0.0 else SumSquares(s[..|s| - 1]) + s[|s| - 1] * s[|s| - 1]
  }

  function Mean(latencies: seq<real>): real {
    if latencies == [] then 0.0 else Sum(latencies) / |latencies| as real
  }

  function Means(latencies: seq<seq<real>>): seq<real> {
    seq(|latencies|, i requires 0 <= i < |latencies| => Mean(latencies[i]))
  }

  /** `calcFairness` */
  function CalcFairness(latencies: seq<seq<real>>): Option<real> {
    var means := Means(latencies);
    if means == [] then Some(1.0)
    else if SumSquares(means) == 0.0 then None
    else Some(Sum(means) * Sum(means) / (|means| as real * SumSquares(means)))
  }

  ghost predicate NonNegative(s: seq<real>) { forall i :: 0 <= i < |s| ==> s[i] >= 0.0 }

  ghost predicate AllEqual(s: seq<real>) { forall i, j :: 0 <= i < |s| && 0 <= j < |s| ==> s[i] == s[j] }

  /** The sum of squared distances of the members from `x`. */
  function Spread(s: seq<real>, x: real): real {
    if s == [] then 0.0 else Spread(s[..|s| - 1], x) + (s[|s| - 1] - x) * (s[|s| - 1] - x)
  }

  lemma SquareNonNegative(x: real)
    ensures x * x >= 0.0
    ensures x * x == 0.0 <==> x == 0.0
  {
    if x > 0.0 { PositiveProduct(x, x, x * x); }
    if x < 0.0 { PositiveProduct(-x, -x, x * x); }
  }

  lemma PositiveProduct(a: real, b: real, c: real)
    requires a > 0.0 && b > 0.0 && a * b == c
    ensures c > 0.0
  {
  }

  lemma {:induction false} SpreadExpands(s: seq<real>, x: real)
    ensures Spread(s, x) == SumSquares(s) - 2.0 * x * Sum(s) + |s| as real * x * x
    decreases |s|
  {
    if s != [] {
      var y := s[|s| - 1];
      SpreadExpands(s[..|s| - 1], x);
      assert (y - x) * (y - x) == y * y - 2.0 * x * y + x * x;
      assert 2.0 * x * Sum(s) == 2.0 * x * Sum(s[..|s| - 1]) + 2.0 * x * y;
      assert |s| as real * x * x == (|s| - 1) as real * x * x + x * x;
    }
  }

  lemma {:induction false} SpreadZero(s: seq<real>, x: real)
    ensures Spread(s, x) >= 0.0
    ensures Spread(s, x) == 0.0 <==> forall i :: 0 <= i < |s| ==> s[i] == x
    decreases |s|
  {
    if s != [] {
      SpreadZero(s[..|s| - 1], x);
      SquareNonNegative(s[|s| - 1] - x);
      assert forall i :: 0 <= i < |s| - 1 ==> s[..|s| - 1][i] == s[i];
    }
  }

  /** Cauchy-Schwarz for the code's folds, with equality exactly for equal members. */
  lemma CauchySchwarz(s: seq<real>)
    requires s != []
    ensures Sum(s) * Sum(s) <= |s| as real * SumSquares(s)
    ensures Sum(s) * Sum(s) == |s| as real * SumSquares(s) <==> AllEqual(s)
  {
    hide Sum, SumSquares, Spread;
    var n, total := |s| as real, Sum(s);
    var m := total / n;
    SpreadExpands(s, m);
    SpreadZero(s, m);
    assert n * m == total;
    MeanSpread(n, m, total, SumSquares(s), Spread(s, m));
    if AllEqual(s) { EqualMean(s, m); }
  }

  lemma MeanSpread(n: real, m: real, total: real, squares: real, spread: real)
    requires n > 0.0 && n * m == total && spread == squares - 2.0 * m * total + n * m * m
    ensures n * spread == n * squares - total * total
    ensures spread >= 0.0 ==> total * total <= n * squares
    ensures total * total == n * squares <==> spread == 0.0
  {
  }

  lemma NonZeroProduct(a: real, b: real)
    requires a > 0.0 && b != 0.0
    ensures a * b != 0.0
  {
  }

  lemma ProductSign(a: real, b: real)
    requires a > 0.0 && b >= 0.0
    ensures a * b >= 0.0
  {
  }

  lemma {:induction false} EqualSum(s: seq<real>, x: real)
    requires forall i :: 0 <= i < |s| ==> s[i] == x
    ensures Sum(s) == |s| as real * x
    decreases |s|
  {
    if s != [] {
      EqualSum(s[..|s| - 1], x);
      assert |s| as real * x == (|s| - 1) as real * x + x;
    }
  }

  lemma EqualMean(s: seq<real>, m: real)
    requires s != [] && AllEqual(s) && |s| as real * m == Sum(s)
    ensures forall i :: 0 <= i < |s| ==> s[i] == m
  {
    var n, x := |s| as real, s[0];
    EqualSum(s, x);
    assert n * (x - m) == 0.0;
    if x != m { NonZeroProduct(n, x - m); }
  }

  /** For non-negative members the sum of squares is at most the square of the sum. */
  lemma {:induction false} SquaresBelowSquare(s: seq<real>)
    requires NonNegative(s)
    ensures Sum(s) >= 0.0 && SumSquares(s) <= Sum(s) * Sum(s)
    decreases |s|
  {
    if s != [] {
      var t, y := s[..|s| - 1], s[|s| - 1];
      SquaresBelowSquare(t);
      ProductNonNegative(Sum(t), y);
      assert (Sum(t) + y) * (Sum(t) + y) == Sum(t) * Sum(t) + 2.0 * (Sum(t) * y) + y * y;
    }
  }

  lemma ProductNonNegative(a: real, b: real)
    requires a >= 0.0 && b >= 0.0
    ensures a * b >= 0.0
  {
  }

  lemma {:induction false} SquaresZero(s: seq<real>)
    ensures SumSquares(s) >= 0.0
    ensures SumSquares(s) == 0.0 <==> forall i :: 0 <= i < |s| ==> s[i] == 0.0
    decreases |s|
  {
    if s != [] {
      SquaresZero(s[..|s| - 1]);
      SquareNonNegative(s[|s| - 1]);
      assert forall i :: 0 <= i < |s| - 1 ==> s[..|s| - 1][i] == s[i];
    }
  }

  /** The index is undefined exactly when there are tenants and every mean is zero. */
  lemma FairnessUndefined(latencies: seq<seq<real>>)
    ensures CalcFairness(latencies).None? <==>
              latencies != [] && forall i :: 0 <= i < |latencies| ==> Mean(latencies[i]) == 0.0
    ensures latencies == [] ==> CalcFairness(latencies) == Some(1.0)
  {
    hide Mean, SumSquares, Sum;
    SquaresZero(Means(latencies));
    assert forall i :: 0 <= i < |latencies| ==> Means(latencies)[i] == Mean(latencies[i]);
  }

  /**
   For n tenants with non-negative means, not all zero, the index lies between 1/n and 1, and is 1
   exactly when all means are equal.
   */
  lemma FairnessBounds(latencies: seq<seq<real>>)
    requires NonNegative(Means(latencies)) && latencies != [] && CalcFairness(latencies).Some?
    ensures 1.0 / |latencies| as real <= CalcFairness(latencies).value <= 1.0
    ensures CalcFairness(latencies).value == 1.0 <==> AllEqual(Means(latencies))
  {
    hide Mean, SumSquares, Sum;
    var s := Means(latencies);
    SquaresZero(s);
    CauchySchwarz(s);
    SquaresBelowSquare(s);
    var q, n, squares := CalcFairness(latencies).value, |s| as real, SumSquares(s);
    ProductSign(n, squares);
    NonZeroProduct(n, squares);
    assert q * (n * squares) == Sum(s) * Sum(s);
    RatioBounds(q, Sum(s) * Sum(s), n, squares);
  }

  lemma RatioBounds(q: real, square: real, n: real, squares: real)
    requires n > 0.0 && squares > 0.0 && squares <= square <= n * squares && q * (n * squares) == square
    ensures 1.0 / n <= q <= 1.0
    ensures q == 1.0 <==> square == n * squares
  {
  }

  /** A tenant's mean times the number of its latencies is their sum, and 0 without latencies. */
  lemma MeanExact(latencies: seq<real>)
    ensures Mean(latencies) * |latencies| as real == Sum(latencies)
    ensures latencies == [] ==> Mean(latencies) == 0.0
  {
    if latencies != [] { Quotient(Sum(latencies), |latencies| as real, Mean(latencies)); }
  }

  lemma Quotient(a: real, b: real, q: real)
    requires b != 0.0 && q == a / b
    ensures q * b == a
  {
  }

  lemma {:induction false} ShareSum(s: seq<real>, served: nat, x: real)
    requires served <= |s| && forall i :: 0 <= i < |s| ==> s[i] == if i < served then x else 0.0
    ensures Sum(s) == served as real * x && SumSquares(s) == served as real * (x * x)
    decreases |s|
  {
    if s != [] {
      var n := |s| - 1;
      var before := if served == |s| then n else served;
      ShareSum(s[..n], before, x);
      if served == |s| {
        assert served as real * x == n as real * x + x;
        assert served as real * (x * x) == n as real * (x * x) + x * x;
      }
    }
  }

  /** When `served` of n tenants share alike and the others get nothing, the index is served / n. */
  lemma SharedAlike(latencies: seq<seq<real>>, served: nat, x: real)
    requires 0 < served <= |latencies| && x != 0.0
    requires forall i :: 0 <= i < |latencies| ==> Mean(latencies[i]) == if i < served then x else 0.0
    ensures CalcFairness(latencies) == Some(served as real / |latencies| as real)
  {
    hide Mean, Sum, SumSquares;
    var s := Means(latencies);
    ShareSum(s, served, x);
    var k, n, y := served as real, |latencies| as real, x * x;
    SquareNonNegative(x);
    NonZeroProduct(k, y);
    NonZeroProduct(n, k * y);
    assert CalcFairness(latencies).Some?;
    var q := CalcFairness(latencies).value;
    Quotient(Sum(s) * Sum(s), n * SumSquares(s), q);
    assert (k * x) * (k * x) == k * (k * y);
    CancelShare(q, k, n, k * y);
  }

  lemma CancelShare(q: real, k: real, n: real, c: real)
    requires n > 0.0 && c != 0.0 && q * (n * c) == k * c
    ensures q == k / n
  {
    assert (q * n - k) * c == 0.0;
    if q * n != k { Product(q * n - k, c); }
  }

  lemma Product(a: real, b: real)
    requires a != 0.0 && b != 0.0
    ensures a * b != 0.0
  {
  }
}
