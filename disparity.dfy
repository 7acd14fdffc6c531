/** `compute_disparity`: the sum of absolute differences over all
    unordered pairs of data points, divided by the sum of the points times
    their number (a Gini-style spread). The points are counts, possibly
    weighted, so they are modelled as exact reals. */
module Disparity {
  import opened Maybe

  function Abs(x: real): real
  {
    if x < 0.0 then -x else x
  }

  /** `sum(data_points)`. */
  function Sum(xs: seq<real>): real
  {
    if xs == [] then 0.0 else xs[0] + Sum(xs[1..])
  }

  /** Sum of `|x - y|` over the points `y` of `ys`. */
  function DistSum(x: real, ys: seq<real>): real
  {
    if ys == [] then 0.0 else Abs(x - ys[0]) + DistSum(x, ys[1..])
  }

  /** Sum of `|xs[i] - xs[j]|` over the pairs `i < j`, row by row in the
      order of `itertools.combinations(xs, 2)`. */
  function PairSum(xs: seq<real>): real
  {
    if xs == [] then 0.0 else DistSum(xs[0], xs[1..]) + PairSum(xs[1..])
  }

  /** The value `compute_disparity` returns, or the `ZeroDivisionError` it
      raises when the divisor `sum * len` is zero. */
  function Disparity(xs: seq<real>): Result<real>
  {
    if Divisor(xs) == 0.0 then Err(ZeroDivisionError) else Ok(PairSum(xs) / Divisor(xs))
  }

  /** `sum(data_points) * len(data_points)`. */
  function Divisor(xs: seq<real>): real
  {
    Sum(xs) * Len(xs)
  }

  /** `len(data_points)` as a real, counted point by point. */
  function Len(xs: seq<real>): (r: real)
    ensures r >= 0.0 && (xs != [] ==> r >= 1.0)
  {
    if xs == [] then 0.0 else 1.0 + Len(xs[1..])
  }

  lemma {:induction false} LenIsLength(xs: seq<real>)
    ensures Len(xs) == |xs| as real
    decreases |xs|
  {
    if xs != [] {
      LenIsLength(xs[1..]);
    }
  }

  /** `compute_disparity(data_points)`: the pair loop, then the division. */
  method ComputeDisparity(dataPoints: seq<real>) returns (r: Result<real>)
    ensures r == Disparity(dataPoints)
    ensures r.Err? <==> dataPoints == [] || Sum(dataPoints) == 0.0
  {
    var n := |dataPoints|;
    var disparity := 0.0;
    for i := 0 to n
      invariant disparity + PairSum(dataPoints[i..]) == PairSum(dataPoints)
    {
      assert dataPoints[i..][1..] == dataPoints[i + 1..];
      for j := i + 1 to n
        invariant disparity + DistSum(dataPoints[i], dataPoints[j..]) + PairSum(dataPoints[i + 1..])
                  == PairSum(dataPoints)
      {
        assert dataPoints[j..][1..] == dataPoints[j + 1..];
        disparity := disparity + Abs(dataPoints[i] - dataPoints[j]);
      }
      assert dataPoints[n..] == [];
    }
    assert dataPoints[n..] == [];
    var total := 0.0;
    for k := 0 to n
      invariant total + Sum(dataPoints[k..]) == Sum(dataPoints)
    {
      assert dataPoints[k..][1..] == dataPoints[k + 1..];
      total := total + dataPoints[k];
    }
    assert total == Sum(dataPoints) && disparity == PairSum(dataPoints);
    LenIsLength(dataPoints);
    var divisor := total * n as real;
    assert divisor == Divisor(dataPoints);
    DisparityUndefined(dataPoints);
    if divisor == 0.0 {
      return Err(ZeroDivisionError);
    }
    r := Ok(disparity / divisor);
  }

  // ------------------------------------------------------------ properties

  predicate AllEqual(xs: seq<real>)
  {
    forall i | 0 <= i < |xs| :: xs[i] == xs[0]
  }

  predicate NonNegative(xs: seq<real>)
  {
    forall i | 0 <= i < |xs| :: xs[i] >= 0.0
  }

  lemma {:induction false} DistSumOfEqual(x: real, ys: seq<real>)
    requires forall i | 0 <= i < |ys| :: ys[i] == x
    ensures DistSum(x, ys) == 0.0
    decreases |ys|
  {
    if ys != [] {
      DistSumOfEqual(x, ys[1..]);
    }
  }

  lemma {:induction false} PairSumOfEqual(xs: seq<real>)
    requires AllEqual(xs)
    ensures PairSum(xs) == 0.0
    decreases |xs|
  {
    if xs != [] {
      DistSumOfEqual(xs[0], xs[1..]);
      assert AllEqual(xs[1..]) by {
        forall i | 0 <= i < |xs[1..]| ensures xs[1..][i] == xs[1..][0] {
          assert xs[1..][i] == xs[i + 1];
        }
      }
      PairSumOfEqual(xs[1..]);
    }
  }

  /** Equal points have no spread: the disparity is 0 whenever it is
      defined. */
  lemma DisparityOfEqual(xs: seq<real>)
    requires AllEqual(xs) && Sum(xs) != 0.0
    ensures xs != [] && Disparity(xs) == Ok(0.0)
  {
    PairSumOfEqual(xs);
  }

  lemma {:induction false} DistSumNonNegative(x: real, ys: seq<real>)
    ensures DistSum(x, ys) >= 0.0
    decreases |ys|
  {
    if ys != [] {
      DistSumNonNegative(x, ys[1..]);
    }
  }

  lemma {:induction false} SumNonNegative(xs: seq<real>)
    requires NonNegative(xs)
    ensures Sum(xs) >= 0.0
    decreases |xs|
  {
    if xs != [] {
      assert NonNegative(xs[1..]) by {
        forall i | 0 <= i < |xs[1..]| ensures xs[1..][i] >= 0.0 { assert xs[1..][i] == xs[i + 1]; }
      }
      SumNonNegative(xs[1..]);
    }
  }

  /** Each pair adds at most the two points: `|x - y| <= x + y`. */
  lemma {:induction false} DistSumBound(x: real, ys: seq<real>)
    requires x >= 0.0 && NonNegative(ys)
    ensures DistSum(x, ys) <= Len(ys) * x + Sum(ys)
    decreases |ys|
  {
    if ys != [] {
      assert NonNegative(ys[1..]) by {
        forall i | 0 <= i < |ys[1..]| ensures ys[1..][i] >= 0.0 { assert ys[1..][i] == ys[i + 1]; }
      }
      DistSumBound(x, ys[1..]);
      assert Abs(x - ys[0]) <= x + ys[0];
    }
  }

  /** `p <= (n - 1) * s`. */
  predicate AtMostPairs(p: real, n: real, s: real)
  {
    p <= (n - 1.0) * s
  }

  /** Every point is in `|xs| - 1` pairs, each adding at most the two
      points, so the pair sum is at most `(|xs| - 1) * Sum(xs)`. */
  lemma {:induction false} PairSumBound(xs: seq<real>)
    requires NonNegative(xs)
    ensures 0.0 <= PairSum(xs)
    ensures xs != [] ==> AtMostPairs(PairSum(xs), Len(xs), Sum(xs))
    decreases |xs|
  {
    if xs != [] {
      var x, rest := xs[0], xs[1..];
      assert NonNegative(rest) by {
        forall i | 0 <= i < |rest| ensures rest[i] >= 0.0 { assert rest[i] == xs[i + 1]; }
      }
      DistSumNonNegative(x, rest);
      DistSumBound(x, rest);
      PairSumBound(rest);
      SumNonNegative(rest);
      var m := Len(rest);
      if rest == [] {
        assert PairSum(xs) == 0.0;
      } else {
        assert PairSum(xs) <= m * x + Sum(rest) + (m - 1.0) * Sum(rest);
        assert m * x + Sum(rest) + (m - 1.0) * Sum(rest) == m * (x + Sum(rest));
      }
    }
  }

  /** A product with a positive factor has the sign of the other one. */
  lemma SignOfProduct(a: real, b: real)
    requires b > 0.0
    ensures a * b <= 0.0 ==> a <= 0.0
    ensures a * b >= 0.0 ==> a >= 0.0
  {
  }

  /** The arithmetic behind the bounds, over plain reals: with
      `0 <= p <= (n - 1) * s` and `d == s * n`, the ratio `p / d` lies in
      `[0, 1)` and is at most `(n - 1) / n`. */
  lemma RatioBounds(p: real, s: real, n: real, d: real)
    requires n >= 1.0 && s > 0.0 && 0.0 <= p && AtMostPairs(p, n, s)
    requires d == s * n
    ensures d > 0.0
    ensures 0.0 <= p / d < 1.0 && (p / d) * n <= n - 1.0
  {
    SignOfProduct(s, n);
    var q := p / d;
    assert q * d == p;
    assert (q * n) * s == p;
    assert (q * n - (n - 1.0)) * s == p - (n - 1.0) * s;
    SignOfProduct(q * n - (n - 1.0), s);
    SignOfProduct(q, d);
    assert (q - 1.0) * n == q * n - n;
    SignOfProduct(q - 1.0, n);
  }

  /** For non-negative points with a positive sum the disparity is defined
      and lies in `[0, 1)`; times `n` it is at most `n - 1`, so it is at
      most `(n - 1) / n`. */
  lemma DisparityBounds(xs: seq<real>)
    requires NonNegative(xs) && Sum(xs) > 0.0
    ensures xs != [] && Disparity(xs).Ok?
    ensures 0.0 <= Disparity(xs).value < 1.0
    ensures Disparity(xs).value * Len(xs) <= Len(xs) - 1.0
  {
    assert xs != [];
    var p, s, n, d := PairSum(xs), Sum(xs), Len(xs), Divisor(xs);
    assert 0.0 <= p && AtMostPairs(p, n, s) by { PairSumBound(xs); }
    assert d == s * n;
    RatioBounds(p, s, n, d);
    assert Disparity(xs) == Ok(p / d);
  }

  /** Division by zero exactly when the list is empty or sums to zero. */
  lemma DisparityUndefined(xs: seq<real>)
    ensures Disparity(xs).Err? <==> xs == [] || Sum(xs) == 0.0
    ensures Disparity(xs).Err? ==> Disparity(xs).error == ZeroDivisionError
  {
  }

  // ----------------------------------------------------------- permutation

  lemma {:induction false} SumRemove(a: seq<real>, x: real, b: seq<real>)
    ensures Sum(a + [x] + b) == x + Sum(a + b)
    decreases |a|
  {
    if a == [] {
      assert a + [x] + b == [x] + b;
      assert a + b == b;
    } else {
      assert (a + [x] + b)[1..] == a[1..] + [x] + b;
      assert (a + b)[1..] == a[1..] + b;
      SumRemove(a[1..], x, b);
    }
  }

  lemma {:induction false} DistSumRemove(h: real, a: seq<real>, x: real, b: seq<real>)
    ensures DistSum(h, a + [x] + b) == Abs(h - x) + DistSum(h, a + b)
    decreases |a|
  {
    if a == [] {
      assert a + [x] + b == [x] + b;
      assert a + b == b;
    } else {
      assert (a + [x] + b)[1..] == a[1..] + [x] + b;
      assert (a + b)[1..] == a[1..] + b;
      DistSumRemove(h, a[1..], x, b);
    }
  }

  /** Taking one point out of the list removes exactly its pairs. */
  lemma {:induction false} PairSumRemove(a: seq<real>, x: real, b: seq<real>)
    ensures PairSum(a + [x] + b) == PairSum(a + b) + DistSum(x, a + b)
    decreases |a|
  {
    if a == [] {
      assert a + [x] + b == [x] + b;
      assert ([x] + b)[1..] == b;
      assert a + b == b;
    } else {
      var h := a[0];
      assert (a + [x] + b)[1..] == a[1..] + [x] + b;
      assert (a + b)[1..] == a[1..] + b;
      assert (a + [x] + b)[0] == h && (a + b)[0] == h;
      PairSumRemove(a[1..], x, b);
      DistSumRemove(h, a[1..], x, b);
      assert DistSum(x, a + b) == Abs(x - h) + DistSum(x, a[1..] + b);
      assert Abs(h - x) == Abs(x - h);
    }
  }

  /** The first point of `xs` sits somewhere in its permutation `ys`;
      the rest of `xs` is a permutation of `ys` without it. */
  lemma FindFirst(xs: seq<real>, ys: seq<real>) returns (k: nat)
    requires xs != [] && multiset(xs) == multiset(ys)
    ensures k < |ys| && ys[k] == xs[0]
    ensures ys == ys[..k] + [xs[0]] + ys[k + 1..]
    ensures multiset(xs[1..]) == multiset(ys[..k] + ys[k + 1..])
  {
    var y := xs[0];
    assert y in multiset(ys);
    k :| 0 <= k < |ys| && ys[k] == y;
    assert ys == ys[..k] + [y] + ys[k + 1..];
    assert xs == [y] + xs[1..];
    assert multiset(ys) == multiset(ys[..k] + ys[k + 1..]) + multiset{y} by {
      assert multiset(ys) == multiset(ys[..k]) + multiset([y]) + multiset(ys[k + 1..]);
    }
    assert multiset(xs) == multiset{y} + multiset(xs[1..]);
    assert multiset(xs[1..]) == multiset(xs) - multiset{y};
    assert multiset(ys[..k] + ys[k + 1..]) == multiset(ys) - multiset{y};
  }

  lemma {:induction false} DistSumPermutation(x: real, xs: seq<real>, ys: seq<real>)
    requires multiset(xs) == multiset(ys)
    ensures DistSum(x, xs) == DistSum(x, ys)
    decreases |xs|
  {
    if xs == [] {
      assert |ys| == |multiset(ys)| == 0;
    } else {
      var k := FindFirst(xs, ys);
      DistSumPermutation(x, xs[1..], ys[..k] + ys[k + 1..]);
      DistSumRemove(x, ys[..k], xs[0], ys[k + 1..]);
    }
  }

  lemma {:induction false} SumPermutation(xs: seq<real>, ys: seq<real>)
    requires multiset(xs) == multiset(ys)
    ensures Sum(xs) == Sum(ys)
    decreases |xs|
  {
    if xs == [] {
      assert |ys| == |multiset(ys)| == 0;
    } else {
      var k := FindFirst(xs, ys);
      SumPermutation(xs[1..], ys[..k] + ys[k + 1..]);
      SumRemove(ys[..k], xs[0], ys[k + 1..]);
    }
  }

  lemma {:induction false} PairSumPermutation(xs: seq<real>, ys: seq<real>)
    requires multiset(xs) == multiset(ys)
    ensures PairSum(xs) == PairSum(ys)
    decreases |xs|
  {
    if xs == [] {
      assert |ys| == |multiset(ys)| == 0;
    } else {
      var k := FindFirst(xs, ys);
      var rest := ys[..k] + ys[k + 1..];
      PairSumPermutation(xs[1..], rest);
      DistSumPermutation(xs[0], xs[1..], rest);
      PairSumRemove(ys[..k], xs[0], ys[k + 1..]);
    }
  }

  /** The order of the data points does not matter. */
  lemma DisparityPermutation(xs: seq<real>, ys: seq<real>)
    requires multiset(xs) == multiset(ys)
    ensures Disparity(xs) == Disparity(ys)
  {
    assert |xs| == |multiset(xs)| == |multiset(ys)| == |ys|;
    SumPermutation(xs, ys);
    LenIsLength(xs);
    LenIsLength(ys);
    PairSumPermutation(xs, ys);
  }
}
