/** Confusion counts and the scores derived from them: precision, recall,
    F1 and accuracy, each guarded against a zero denominator. Ratios are
    exact reals. */
module Metrics {

  /** The `Conf(tp, fp, tn, fn)` named tuple. */
  datatype Conf = Conf(tp: nat, fp: nat, tn: nat, fn: nat)
  {
    /** `sum(cm)`: the four fields added up. */
    function Total(): nat
    {
      tp + fp + tn + fn
    }

    function Plus(o: Conf): Conf
    {
      Conf(tp + o.tp, fp + o.fp, tn + o.tn, fn + o.fn)
    }

    /** Every field is at most the corresponding field of `o`. */
    predicate Below(o: Conf)
    {
      tp <= o.tp && fp <= o.fp && tn <= o.tn && fn <= o.fn
    }
  }

  const Zero := Conf(0, 0, 0, 0)

  datatype Scores = Scores(accuracy: real, precision: real, recall: real, f1: real)

  /** Python's `a / b if b else 0.0`. */
  function Ratio(a: nat, b: nat): real
  {
    if b != 0 then a as real / b as real else 0.0
  }

  /** A guarded ratio is 0 on a zero denominator and otherwise the exact
      quotient; it is non-negative, and at most 1 when `a <= b`. */
  lemma RatioProperties(a: nat, b: nat)
    ensures b == 0 ==> Ratio(a, b) == 0.0
    ensures b != 0 ==> Ratio(a, b) * b as real == a as real
    ensures 0.0 <= Ratio(a, b)
    ensures a <= b ==> Ratio(a, b) <= 1.0
    ensures 0 < a == b ==> Ratio(a, b) == 1.0
    ensures a == 0 ==> Ratio(a, b) == 0.0
  {
    if b != 0 {
      var r := Ratio(a, b);
      assert r * b as real == a as real;
      if a <= b && r > 1.0 {
        MulMonotone(1.0, r, b as real);
      }
    }
  }

  /** `2 * p * r / (p + r) if p + r else 0.0`. */
  function F1(p: real, r: real): real
  {
    if p + r != 0.0 then 2.0 * p * r / (p + r) else 0.0
  }

  lemma MulMonotone(a: real, b: real, s: real)
    requires s > 0.0 && a < b
    ensures a * s < b * s
  {
  }

  lemma MulNonneg(a: real, b: real)
    requires a >= 0.0 && b >= 0.0
    ensures a * b >= 0.0
  {
  }

  /** A quotient by a positive number is bounded as its numerator is. */
  lemma DivBounds(x: real, s: real, lo: real, hi: real)
    requires s > 0.0 && lo * s <= x <= hi * s
    ensures (x / s) * s == x
    ensures lo <= x / s <= hi
  {
    var q := x / s;
    assert q * s == x;
    if q < lo {
      MulMonotone(q, lo, s);
    }
    if hi < q {
      MulMonotone(hi, q, s);
    }
  }

  /** For `0 <= a <= b`: `a (a + b) <= 2ab <= b (a + b)`. */
  lemma HarmonicSandwich(a: real, b: real)
    requires 0.0 <= a <= b
    ensures a * (a + b) <= 2.0 * a * b <= b * (a + b)
  {
    MulNonneg(a, b - a);
    MulNonneg(b, b - a);
    assert a * (b - a) == a * b - a * a;
    assert b * (b - a) == b * b - a * b;
    assert a * (a + b) == a * a + a * b;
    assert b * (a + b) == a * b + b * b;
  }

  /** F1 is the harmonic mean of precision and recall: it lies between the
      two, so within [0, 1] when they do. */
  lemma F1Bounds(p: real, r: real)
    requires 0.0 <= p <= 1.0 && 0.0 <= r <= 1.0
    ensures p + r == 0.0 ==> F1(p, r) == 0.0
    ensures p + r != 0.0 ==> F1(p, r) * (p + r) == 2.0 * p * r
    ensures (if p <= r then p else r) <= F1(p, r) <= (if p <= r then r else p)
    ensures 0.0 <= F1(p, r) <= 1.0
  {
    if p + r != 0.0 {
      var lo := if p <= r then p else r;
      var hi := if p <= r then r else p;
      HarmonicSandwich(lo, hi);
      assert lo + hi == p + r;
      assert 2.0 * lo * hi == 2.0 * p * r;
      DivBounds(2.0 * p * r, p + r, lo, hi);
      assert F1(p, r) == 2.0 * p * r / (p + r);
    }
  }

  /** `scores(cm)`. */
  function Score(cm: Conf): Scores
  {
    var precision := Ratio(cm.tp, cm.tp + cm.fp);
    var recall := Ratio(cm.tp, cm.tp + cm.fn);
    Scores(Ratio(cm.tp + cm.tn, cm.Total()), precision, recall, F1(precision, recall))
  }

  /** The guarantees of `scores`: every score is in [0, 1]; the all-zero
      matrix scores 0 everywhere and nothing divides by zero; a zero
      denominator gives 0; no false positives (negatives) with a true
      positive gives precision (recall) 1; F1 lies between precision and
      recall. */
  lemma {:induction false} ScoreBounds(cm: Conf)
    ensures var s := Score(cm);
      0.0 <= s.accuracy <= 1.0 && 0.0 <= s.precision <= 1.0
      && 0.0 <= s.recall <= 1.0 && 0.0 <= s.f1 <= 1.0
    ensures cm == Zero ==> Score(cm) == Scores(0.0, 0.0, 0.0, 0.0)
    ensures cm.tp + cm.fp == 0 ==> Score(cm).precision == 0.0
    ensures cm.tp + cm.fn == 0 ==> Score(cm).recall == 0.0
    ensures cm.Total() == 0 ==> Score(cm).accuracy == 0.0
    ensures Score(cm).precision + Score(cm).recall == 0.0 ==> Score(cm).f1 == 0.0
    ensures cm.fp == 0 && cm.tp > 0 ==> Score(cm).precision == 1.0
    ensures cm.fn == 0 && cm.tp > 0 ==> Score(cm).recall == 1.0
    ensures var s := Score(cm);
      (if s.precision <= s.recall then s.precision else s.recall) <= s.f1
      && s.f1 <= (if s.precision <= s.recall then s.recall else s.precision)
  {
    RatioProperties(cm.tp, cm.tp + cm.fp);
    RatioProperties(cm.tp, cm.tp + cm.fn);
    RatioProperties(cm.tp + cm.tn, cm.Total());
    var s := Score(cm);
    F1Bounds(s.precision, s.recall);
  }

  /** Each non-zero score is the quotient the formula names: accuracy is
      (tp + tn) over the sum of all four fields, precision tp / (tp + fp),
      recall tp / (tp + fn), and F1 2pr / (p + r). */
  lemma {:induction false} ScoreQuotients(cm: Conf)
    ensures cm.Total() != 0 ==> Score(cm).accuracy * cm.Total() as real == (cm.tp + cm.tn) as real
    ensures cm.tp + cm.fp != 0 ==> Score(cm).precision * (cm.tp + cm.fp) as real == cm.tp as real
    ensures cm.tp + cm.fn != 0 ==> Score(cm).recall * (cm.tp + cm.fn) as real == cm.tp as real
    ensures var s := Score(cm);
      s.precision + s.recall != 0.0 ==> s.f1 * (s.precision + s.recall) == 2.0 * s.precision * s.recall
  {
    var s := Score(cm);
    assert s.precision == Ratio(cm.tp, cm.tp + cm.fp);
    assert s.recall == Ratio(cm.tp, cm.tp + cm.fn);
    assert s.accuracy == Ratio(cm.tp + cm.tn, cm.Total());
    assert s.f1 == F1(s.precision, s.recall);
    RatioProperties(cm.tp, cm.tp + cm.fp);
    RatioProperties(cm.tp, cm.tp + cm.fn);
    RatioProperties(cm.tp + cm.tn, cm.Total());
    F1Quotient(s.precision, s.recall);
  }

  /** The harmonic mean times the sum is twice the product. */
  lemma F1Quotient(p: real, r: real)
    ensures p + r != 0.0 ==> F1(p, r) * (p + r) == 2.0 * p * r
  {
  }

  /** `compute_metrics(tp, fp, tn, fn)`, returning
      `(accuracy, precision, recall, f1)`: the same four numbers as
      `scores`, in a different order. */
  function ComputeMetrics(tp: nat, fp: nat, tn: nat, fn: nat): (r: (real, real, real, real))
    ensures var s := Score(Conf(tp, fp, tn, fn));
      r == (s.accuracy, s.precision, s.recall, s.f1)
    ensures tp + fp + tn + fn == 0 ==> r.0 == 0.0
    ensures tp + fp == 0 ==> r.1 == 0.0
    ensures tp + fn == 0 ==> r.2 == 0.0
    ensures r.1 + r.2 == 0.0 ==> r.3 == 0.0
    ensures 0.0 <= r.0 <= 1.0 && 0.0 <= r.1 <= 1.0 && 0.0 <= r.2 <= 1.0 && 0.0 <= r.3 <= 1.0
  {
    ScoreBounds(Conf(tp, fp, tn, fn));
    var precision := Ratio(tp, tp + fp);
    var recall := Ratio(tp, tp + fn);
    (Ratio(tp + tn, tp + fp + tn + fn), precision, recall, F1(precision, recall))
  }

  // ------------------------------------------------- label-set agreement

  /** What one record adds to `Conf(tp, fp, tn, fn)` when a set of
      predicted labels is scored against a set of reference labels: shared
      labels are true positives, predicted-only labels false positives,
      reference-only labels false negatives, and a record with no label on
      either side is one true negative. */
  function LabelConf(reference: set<string>, predicted: set<string>): Conf
  {
    Conf(|reference * predicted|, |predicted - reference|,
         if reference == {} && predicted == {} then 1 else 0, |reference - predicted|)
  }

  /** Every label of either set is counted exactly once, as a tp, an fp or
      an fn; the tn counter moves by one exactly when both sets are empty,
      and never per label. */
  lemma LabelConfPartition(reference: set<string>, predicted: set<string>)
    ensures var k := LabelConf(reference, predicted);
      k.tp + k.fn == |reference| && k.tp + k.fp == |predicted|
      && k.tp + k.fp + k.fn == |reference + predicted|
      && (k.tn == 1 <==> reference == {} && predicted == {})
      && (k.tn == 1 ==> k.tp + k.fp + k.fn == 0)
      && k.tn <= 1
  {
    assert reference == (reference * predicted) + (reference - predicted);
    assert predicted == (reference * predicted) + (predicted - reference);
    assert reference + predicted
        == (reference * predicted) + (reference - predicted) + (predicted - reference);
  }

  // ---------------------------------------------------------- sums of Conf

  /** Element-wise sum of the contributions `f(x)`. */
  function SumConf<T>(xs: seq<T>, f: T -> Conf): Conf
  {
    if xs == [] then Zero else SumConf(xs[..|xs| - 1], f).Plus(f(xs[|xs| - 1]))
  }

  lemma {:induction false} SumConfAppend<T>(xs: seq<T>, ys: seq<T>, f: T -> Conf)
    ensures SumConf(xs + ys, f) == SumConf(xs, f).Plus(SumConf(ys, f))
    decreases |ys|
  {
    if ys == [] {
      assert xs + ys == xs;
    } else {
      var n := |ys| - 1;
      var zs := xs + ys;
      assert zs[..|zs| - 1] == xs + ys[..n];
      assert zs[|zs| - 1] == ys[n];
      SumConfAppend(xs, ys[..n], f);
      var a := SumConf(xs, f);
      var b := SumConf(ys[..n], f);
      assert SumConf(zs, f) == a.Plus(b).Plus(f(ys[n]));
      assert SumConf(ys, f) == b.Plus(f(ys[n]));
    }
  }

  /** Counters only grow: the sum over a prefix is below the whole sum. */
  lemma {:induction false} SumConfPrefix<T>(xs: seq<T>, i: nat, f: T -> Conf)
    requires i <= |xs|
    ensures SumConf(xs[..i], f).Below(SumConf(xs, f))
  {
    assert xs == xs[..i] + xs[i..];
    SumConfAppend(xs[..i], xs[i..], f);
  }

  /** Taking one term out of the middle of the sum. */
  lemma {:induction false} SumConfRemove<T>(ys: seq<T>, i: nat, f: T -> Conf)
    requires i < |ys|
    ensures SumConf(ys, f) == SumConf(ys[..i] + ys[i + 1..], f).Plus(f(ys[i]))
  {
    var a, c := SumConf(ys[..i], f), SumConf(ys[i + 1..], f);
    SumConfAppend(ys[..i], ys[i + 1..], f);
    SumConfAppend(ys[..i] + [ys[i]], ys[i + 1..], f);
    assert SumConf(ys[..i] + [ys[i]], f) == a.Plus(f(ys[i])) by {
      assert (ys[..i] + [ys[i]])[..i] == ys[..i];
    }
    assert ys == ys[..i] + [ys[i]] + ys[i + 1..];
  }

  /** The sum does not depend on the order of the terms. */
  lemma {:induction false} SumConfPermutation<T>(xs: seq<T>, ys: seq<T>, f: T -> Conf)
    requires multiset(xs) == multiset(ys)
    ensures SumConf(xs, f) == SumConf(ys, f)
    decreases |xs|
  {
    if xs == [] {
      assert |ys| == |multiset(ys)| == 0;
    } else {
      var n := |xs| - 1;
      var x := xs[n];
      assert xs == xs[..n] + [x];
      assert x in multiset(ys);
      var i :| 0 <= i < |ys| && ys[i] == x;
      var rest := ys[..i] + ys[i + 1..];
      assert ys == ys[..i] + [x] + ys[i + 1..];
      assert multiset(ys) == multiset(rest) + multiset{x};
      assert multiset(xs) == multiset(xs[..n]) + multiset{x};
      assert multiset(xs[..n]) == multiset(xs) - multiset{x};
      assert multiset(rest) == multiset(ys) - multiset{x};
      SumConfPermutation(xs[..n], rest, f);
      SumConfRemove(ys, i, f);
    }
  }
}
