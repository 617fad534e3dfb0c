/**
  WAPE, the weighted absolute percentage error `sum(|y_true - y_pred|) / sum(|y_true|)`,
  optionally ignoring the positions where the truth is zero, with a guard that returns
  NaN instead of dividing by a (near-)zero denominator.
*/
module Metrics {
  import Seqs

  /** The default guard `eps`. */
  const DefaultEps: real := 0.00000001

  /**
    A float result as numpy produces it here: a number, NaN, or positive infinity
    (`x / 0.0` with `x > 0`, reachable only when `eps <= 0`).
  */
  datatype Score = Value(v: real) | NaN | Inf

  function Abs(x: real): (r: real)
    ensures r >= 0.0 && (r == x || r == -x)
  {
    if x < 0.0 then -x else x
  }

  /** The aligned (truth, prediction) pairs. */
  function Zip(yTrue: seq<real>, yPred: seq<real>): (r: seq<(real, real)>)
    requires |yTrue| == |yPred|
    ensures |r| == |yTrue|
    ensures forall i :: 0 <= i < |r| ==> r[i] == (yTrue[i], yPred[i])
  {
    if yTrue == [] then [] else [(yTrue[0], yPred[0])] + Zip(yTrue[1..], yPred[1..])
  }

  /** The mask `y_true != 0`. */
  predicate NonZeroTruth(x: (real, real))
  {
    x.0 != 0.0
  }

  /** The pairs that take part in the sums: with `maskZeros`, exactly those whose truth is not zero. */
  function Kept(yTrue: seq<real>, yPred: seq<real>, maskZeros: bool): (r: seq<(real, real)>)
    requires |yTrue| == |yPred|
    ensures maskZeros ==> forall i :: 0 <= i < |r| ==> r[i].0 != 0.0 && r[i] in Zip(yTrue, yPred)
    ensures maskZeros ==> forall i :: 0 <= i < |yTrue| && yTrue[i] != 0.0 ==> (yTrue[i], yPred[i]) in r
    ensures !maskZeros ==> r == Zip(yTrue, yPred)
  {
    var pairs := Zip(yTrue, yPred);
    if maskZeros then Seqs.Filter(NonZeroTruth, pairs) else pairs
  }

  /** With masking, each pair with a non-zero truth takes part exactly as often as it occurs, and no other pair. */
  lemma KeptMultiplicity(yTrue: seq<real>, yPred: seq<real>, x: (real, real))
    requires |yTrue| == |yPred|
    ensures multiset(Kept(yTrue, yPred, true))[x] == if x.0 != 0.0 then multiset(Zip(yTrue, yPred))[x] else 0
  {
    Seqs.FilterMultiplicity(NonZeroTruth, Zip(yTrue, yPred), x);
  }

  /** `np.sum(np.abs(y_true - y_pred))` over the pairs. */
  function AbsErrorSum(pairs: seq<(real, real)>): (r: real)
    ensures r >= 0.0
  {
    if pairs == [] then 0.0 else Abs(pairs[0].0 - pairs[0].1) + AbsErrorSum(pairs[1..])
  }

  /** `np.sum(np.abs(y_true))` over the pairs. */
  function AbsSum(pairs: seq<(real, real)>): (r: real)
    ensures r >= 0.0
  {
    if pairs == [] then 0.0 else Abs(pairs[0].0) + AbsSum(pairs[1..])
  }

  function Numerator(yTrue: seq<real>, yPred: seq<real>, maskZeros: bool): real
    requires |yTrue| == |yPred|
  {
    AbsErrorSum(Kept(yTrue, yPred, maskZeros))
  }

  function Denominator(yTrue: seq<real>, yPred: seq<real>, maskZeros: bool): real
    requires |yTrue| == |yPred|
  {
    AbsSum(Kept(yTrue, yPred, maskZeros))
  }

  /**
    The guard and the division: NaN below `eps`, numpy's `0/0 = nan` and `x/0 = inf`
    when `eps <= 0` lets a zero denominator through, the quotient otherwise.
  */
  function Guarded(num: real, den: real, eps: real): (r: Score)
    requires num >= 0.0 && den >= 0.0
    ensures den < eps ==> r == NaN
    ensures den >= eps && den > 0.0 ==> r == Value(num / den)
    ensures den >= eps && den == 0.0 ==> r == (if num == 0.0 then NaN else Inf)
    ensures r.Value? ==> r.v >= 0.0 && den >= eps && den > 0.0 && r.v == num / den
    ensures r.Inf? ==> eps <= 0.0 && den == 0.0 && num > 0.0
  {
    if den < eps then NaN
    else if den == 0.0 then (if num == 0.0 then NaN else Inf)
    else Value(num / den)
  }

  /**
    `wape`. Below `eps` the result is NaN. A denominator of at least `eps` and above
    zero gives the numerator over the denominator, a non-negative number. A zero
    denominator that passes the guard (only when `eps <= 0`) gives numpy's `0/0 = nan`
    or `x/0 = inf`.
  */
  function Wape(yTrue: seq<real>, yPred: seq<real>, eps: real, maskZeros: bool): (r: Score)
    requires |yTrue| == |yPred|
    ensures Denominator(yTrue, yPred, maskZeros) < eps ==> r == NaN
    ensures Denominator(yTrue, yPred, maskZeros) >= eps && Denominator(yTrue, yPred, maskZeros) > 0.0 ==>
      r == Value(Numerator(yTrue, yPred, maskZeros) / Denominator(yTrue, yPred, maskZeros))
    ensures Denominator(yTrue, yPred, maskZeros) >= eps && Denominator(yTrue, yPred, maskZeros) == 0.0 ==>
      r == (if Numerator(yTrue, yPred, maskZeros) == 0.0 then NaN else Inf)
    ensures r.Value? ==>
      && r.v >= 0.0
      && Denominator(yTrue, yPred, maskZeros) >= eps
      && Denominator(yTrue, yPred, maskZeros) > 0.0
      && r.v == Numerator(yTrue, yPred, maskZeros) / Denominator(yTrue, yPred, maskZeros)
    ensures r.Inf? ==>
      eps <= 0.0 && Denominator(yTrue, yPred, maskZeros) == 0.0 && Numerator(yTrue, yPred, maskZeros) > 0.0
  {
    Guarded(Numerator(yTrue, yPred, maskZeros), Denominator(yTrue, yPred, maskZeros), eps)
  }

  lemma {:induction false} AbsSumAppend(a: seq<(real, real)>, b: seq<(real, real)>)
    ensures AbsSum(a + b) == AbsSum(a) + AbsSum(b)
    ensures AbsErrorSum(a + b) == AbsErrorSum(a) + AbsErrorSum(b)
  {
    if a == [] {
      assert a + b == b;
    } else {
      assert (a + b)[0] == a[0];
      assert (a + b)[1..] == a[1..] + b;
      AbsSumAppend(a[1..], b);
    }
  }

  /** Masking never changes the denominator: the removed positions contribute `|0| = 0`. */
  lemma {:induction false} MaskKeepsAbsSum(pairs: seq<(real, real)>)
    ensures AbsSum(Seqs.Filter(NonZeroTruth, pairs)) == AbsSum(pairs)
  {
    if pairs != [] {
      MaskKeepsAbsSum(pairs[1..]);
      var head := if NonZeroTruth(pairs[0]) then [pairs[0]] else [];
      AbsSumAppend(head, Seqs.Filter(NonZeroTruth, pairs[1..]));
    }
  }

  /** The denominator is zero exactly when every truth is zero. */
  lemma {:induction false} AbsSumZero(pairs: seq<(real, real)>)
    ensures AbsSum(pairs) == 0.0 <==> forall i :: 0 <= i < |pairs| ==> pairs[i].0 == 0.0
  {
    if pairs != [] {
      AbsSumZero(pairs[1..]);
      assert forall i :: 1 <= i < |pairs| ==> pairs[i] == pairs[1..][i - 1];
    }
  }

  /** An all-zero truth yields NaN, with or without masking, whenever `eps > 0`. */
  lemma AllZeroTruthIsNaN(yTrue: seq<real>, yPred: seq<real>, eps: real, maskZeros: bool)
    requires |yTrue| == |yPred|
    requires eps > 0.0
    requires forall i :: 0 <= i < |yTrue| ==> yTrue[i] == 0.0
    ensures Wape(yTrue, yPred, eps, maskZeros) == NaN
  {
    var pairs := Zip(yTrue, yPred);
    AbsSumZero(pairs);
    MaskKeepsAbsSum(pairs);
  }

  /** Perfect predictions score exactly 0 whenever the score is defined, and are never infinite. */
  lemma {:induction false} PerfectIsZero(y: seq<real>, eps: real, maskZeros: bool)
    ensures Wape(y, y, eps, maskZeros) == Value(0.0) || Wape(y, y, eps, maskZeros) == NaN
    ensures Denominator(y, y, maskZeros) >= eps && Denominator(y, y, maskZeros) > 0.0 ==>
      Wape(y, y, eps, maskZeros) == Value(0.0)
  {
    PerfectErrorZero(Kept(y, y, maskZeros));
  }

  lemma {:induction false} PerfectErrorZero(pairs: seq<(real, real)>)
    requires forall i :: 0 <= i < |pairs| ==> pairs[i].0 == pairs[i].1
    ensures AbsErrorSum(pairs) == 0.0
  {
    if pairs != [] {
      PerfectErrorZero(pairs[1..]);
    }
  }

  lemma {:induction false} ZeroPredictionError(pairs: seq<(real, real)>)
    requires forall i :: 0 <= i < |pairs| ==> pairs[i].1 == 0.0
    ensures AbsErrorSum(pairs) == AbsSum(pairs)
  {
    if pairs != [] {
      ZeroPredictionError(pairs[1..]);
    }
  }

  /** All-zero predictions score exactly 1 whenever the score is defined (with or without masking). */
  lemma ZeroPredictionsIsOne(yTrue: seq<real>, yPred: seq<real>, eps: real, maskZeros: bool)
    requires |yTrue| == |yPred|
    requires forall i :: 0 <= i < |yPred| ==> yPred[i] == 0.0
    ensures Wape(yTrue, yPred, eps, maskZeros) == Value(1.0) || Wape(yTrue, yPred, eps, maskZeros) == NaN
    ensures Denominator(yTrue, yPred, maskZeros) >= eps && Denominator(yTrue, yPred, maskZeros) > 0.0 ==>
      Wape(yTrue, yPred, eps, maskZeros) == Value(1.0)
  {
    var kept := Kept(yTrue, yPred, maskZeros);
    forall i | 0 <= i < |kept| ensures kept[i].1 == 0.0 {
      if maskZeros {
        var j :| 0 <= j < |Zip(yTrue, yPred)| && Zip(yTrue, yPred)[j] == kept[i];
      }
    }
    ZeroPredictionError(kept);
    var d := Denominator(yTrue, yPred, maskZeros);
    assert d == AbsSum(kept);
    assert Numerator(yTrue, yPred, maskZeros) == AbsErrorSum(kept);
    if d > 0.0 {
      SelfRatio(d);
    }
  }

  lemma SelfRatio(d: real)
    requires d > 0.0
    ensures d / d == 1.0
  {
  }

  lemma {:induction false} ZipAppend(t1: seq<real>, t2: seq<real>, p1: seq<real>, p2: seq<real>)
    requires |t1| == |p1| && |t2| == |p2|
    ensures Zip(t1 + t2, p1 + p2) == Zip(t1, p1) + Zip(t2, p2)
  {
    if t1 == [] {
      assert t1 + t2 == t2 && p1 + p2 == p2;
    } else {
      assert (t1 + t2)[1..] == t1[1..] + t2 && (p1 + p2)[1..] == p1[1..] + p2;
      ZipAppend(t1[1..], t2, p1[1..], p2);
    }
  }

  lemma ZeroTruthPairDropped(t1: seq<real>, t2: seq<real>, p1: seq<real>, p2: seq<real>, p: real)
    requires |t1| == |p1| && |t2| == |p2|
    ensures Kept(t1 + [0.0] + t2, p1 + [p] + p2, true) == Kept(t1 + t2, p1 + p2, true)
  {
    var z1, z2 := Zip(t1, p1), Zip(t2, p2);
    ZipAppend(t1 + [0.0], t2, p1 + [p], p2);
    ZipAppend(t1, [0.0], p1, [p]);
    ZipAppend(t1, t2, p1, p2);
    assert Zip([0.0], [p]) == [(0.0, p)];
    assert Zip(t1 + [0.0] + t2, p1 + [p] + p2) == z1 + [(0.0, p)] + z2;
    Seqs.FilterAppend(NonZeroTruth, z1 + [(0.0, p)], z2);
    Seqs.FilterAppend(NonZeroTruth, z1, [(0.0, p)]);
    Seqs.FilterSingleton(NonZeroTruth, (0.0, p));
    Seqs.FilterAppend(NonZeroTruth, z1, z2);
    assert Seqs.Filter(NonZeroTruth, z1 + [(0.0, p)]) == Seqs.Filter(NonZeroTruth, z1);
  }

  /** With masking, inserting a pair whose truth is zero anywhere leaves the score unchanged. */
  lemma ZeroTruthPairIgnored(t1: seq<real>, t2: seq<real>, p1: seq<real>, p2: seq<real>, p: real, eps: real)
    requires |t1| == |p1| && |t2| == |p2|
    ensures Wape(t1 + [0.0] + t2, p1 + [p] + p2, eps, true) == Wape(t1 + t2, p1 + p2, eps, true)
  {
    ZeroTruthPairDropped(t1, t2, p1, p2, p);
  }

  /** The documented cases: a perfect forecast, an all-zero forecast and an all-zero truth. */
  lemma Examples()
    ensures Wape([10.0, 20.0], [10.0, 20.0], DefaultEps, true) == Value(0.0)
    ensures Wape([10.0, 20.0], [0.0, 0.0], DefaultEps, true) == Value(1.0)
    ensures Wape([0.0, 0.0, 0.0], [1.0, 2.0, 3.0], DefaultEps, true) == NaN
  {
    var z := Zip([10.0, 20.0], [10.0, 20.0]);
    assert z == [(10.0, 10.0), (20.0, 20.0)];
    Seqs.FilterAll(NonZeroTruth, z);
    PerfectIsZero([10.0, 20.0], DefaultEps, true);
    var z' := Zip([10.0, 20.0], [0.0, 0.0]);
    assert z' == [(10.0, 0.0), (20.0, 0.0)];
    Seqs.FilterAll(NonZeroTruth, z');
    ZeroPredictionsIsOne([10.0, 20.0], [0.0, 0.0], DefaultEps, true);
    AllZeroTruthIsNaN([0.0, 0.0, 0.0], [1.0, 2.0, 3.0], DefaultEps, true);
  }
}
