/**
 Augmented Chebyshev scalarization of objective rows inside observed ranges: a row is scored by
 its weakest weighted place in the ranges plus a share of the sum of all of them.
 */
module Scalarization {
  import opened Layout
  import opened Reals
  import opened Wrappers

  datatype ShapeError = ShapeMismatch

  /** What a row is scored against. */
  datatype Scale = Scale(lo: seq<real>, hi: seq<real>, weights: seq<real>, alpha: real)

  /** As the region keeps them: one weight per metric, positive and summing to one. */
  ghost predicate ValidScale(s: Scale, metrics: nat) {
    && metrics > 0 && |s.lo| == |s.hi| == |s.weights| == metrics && s.alpha >= 0.0
    && (forall m | 0 <= m < metrics :: s.weights[m] > 0.0) && Sum(s.weights) == 1.0
  }

  /** Where a value lies in its range: the middle of a range without extent, cut off at both ends if asked. */
  function Place(v: real, lo: real, hi: real, clip: bool): real {
    if hi - lo <= 0.0 then 0.5
    else
      var z := Over(v - lo, hi - lo);
      if !clip then z else if z < 0.0 then 0.0 else if z > 1.0 then 1.0 else z
  }

  function Terms(s: Scale, y: seq<real>, clip: bool): (t: seq<real>)
    requires |y| == |s.lo| == |s.hi| == |s.weights|
    ensures |t| == |y|
  {
    seq(|y|, m requires 0 <= m < |y| => Times(Place(y[m], s.lo[m], s.hi[m], clip), s.weights[m]))
  }

  function Least(t: seq<real>): real
    requires t != []
  {
    if |t| == 1 then t[0]
    else
      var before, last := Least(t[..|t| - 1]), t[|t| - 1];
      if last < before then last else before
  }

  function Score(s: Scale, y: seq<real>, clip: bool): real
    requires y != [] && |y| == |s.lo| == |s.hi| == |s.weights|
  {
    Least(Terms(s, y, clip)) + Times(s.alpha, Sum(Terms(s, y, clip)))
  }

  // ---- What a score is, without its parts -----------------------------------

  /** The place of a value, weighted: half the weight in a range without extent; otherwise proportional to the
      way into the range, and with clipping nothing below it and the whole weight above it. */
  ghost predicate IsTerm(v: real, lo: real, hi: real, weight: real, clip: bool, t: real) {
    if hi <= lo then t == 0.5 * weight
    else if clip && v < lo then t == 0.0
    else if clip && v > hi then t == weight
    else Times(t, hi - lo) == Times(v - lo, weight)
  }

  ghost predicate AreTerms(s: Scale, y: seq<real>, clip: bool, t: seq<real>)
    requires |y| == |s.lo| == |s.hi| == |s.weights|
  {
    |t| == |y| && forall m | 0 <= m < |y| :: IsTerm(y[m], s.lo[m], s.hi[m], s.weights[m], clip, t[m])
  }

  /** The least term plus alpha times the sum of all terms. */
  ghost predicate IsAugmentedMinimum(alpha: real, t: seq<real>, score: real) {
    && (forall m | 0 <= m < |t| :: score <= t[m] + Times(alpha, Sum(t)))
    && (exists m :: 0 <= m < |t| && score == t[m] + Times(alpha, Sum(t)))
  }

  ghost predicate IsScore(s: Scale, y: seq<real>, clip: bool, score: real)
    requires |y| == |s.lo| == |s.hi| == |s.weights|
  {
    exists t: seq<real> :: AreTerms(s, y, clip, t) && IsAugmentedMinimum(s.alpha, t, score)
  }

  lemma TermIs(v: real, lo: real, hi: real, weight: real, clip: bool)
    ensures IsTerm(v, lo, hi, weight, clip, Times(Place(v, lo, hi, clip), weight))
  {
    TimesZero(weight);
    assert Times(1.0, weight) == weight && Times(0.5, weight) == 0.5 * weight;
    if hi > lo {
      var z := Over(v - lo, hi - lo);
      OverTimes(v - lo, hi - lo);
      OverLe(v - lo, hi - lo, 0.0);
      OverLe(v - lo, hi - lo, 1.0);
      TimesZero(hi - lo);
      assert Times(1.0, hi - lo) == hi - lo;
      TimesAssociates(z, weight, hi - lo);
      TimesCommutes(weight, hi - lo);
      TimesAssociates(z, hi - lo, weight);
    }
  }

  lemma ScoreIs(s: Scale, y: seq<real>, clip: bool)
    requires y != [] && |y| == |s.lo| == |s.hi| == |s.weights|
    ensures IsScore(s, y, clip, Score(s, y, clip))
  {
    var t := Terms(s, y, clip);
    forall m | 0 <= m < |y| ensures IsTerm(y[m], s.lo[m], s.hi[m], s.weights[m], clip, t[m]) {
      TermIs(y[m], s.lo[m], s.hi[m], s.weights[m], clip);
    }
    LeastIsAugmented(s.alpha, t);
    assert AreTerms(s, y, clip, t) && IsAugmentedMinimum(s.alpha, t, Score(s, y, clip));
  }

  lemma LeastIsAugmented(alpha: real, t: seq<real>)
    requires t != []
    ensures IsAugmentedMinimum(alpha, t, Least(t) + Times(alpha, Sum(t)))
  {
    LeastIsLeast(t);
  }

  // ---- The loops -----------------------------------------------------------

  method ScoreRow(s: Scale, y: seq<real>, clip: bool) returns (score: real)
    requires y != [] && |y| == |s.lo| == |s.hi| == |s.weights|
    ensures score == Score(s, y, clip)
  {
    ghost var terms: seq<real> := Terms(s, y, clip);
    var tMin: Option<real>, tSum := None, 0.0;
    for m := 0 to |y|
      invariant tMin == if m == 0 then None else Some(Least(terms[..m]))
      invariant tSum == Sum(terms[..m])
    {
      assert terms[..m + 1][..m] == terms[..m];
      var denom := s.hi[m] - s.lo[m];
      var z;
      if denom <= 0.0 {
        z := 0.5;
      } else {
        z := Over(y[m] - s.lo[m], denom);
        if clip {
          z := if z < 0.0 then 0.0 else if z > 1.0 then 1.0 else z;
        }
      }
      var t := Times(z, s.weights[m]);
      if tMin.None? || t < tMin.value {
        tMin := Some(t);
      }
      tSum := tSum + t;
    }
    assert terms[..|y|] == terms;
    score := tMin.value + Times(s.alpha, tSum);
  }

  /** `cols` is the width of the table, which a table without rows has too. */
  method ScalarizeWithRanges(y: seq<seq<real>>, cols: nat, s: Scale, metrics: nat, clip: bool)
    returns (r: Result<seq<real>, ShapeError>)
    requires Width(y, cols) && metrics > 0 && |s.weights| == metrics
    ensures r.Ok? <==> cols == metrics && |s.lo| == metrics && |s.hi| == metrics
    ensures r.Ok? ==> |r.value| == |y| && forall i | 0 <= i < |y| :: r.value[i] == Score(s, y[i], clip)
    ensures r.Ok? ==> forall i | 0 <= i < |y| :: IsScore(s, y[i], clip, r.value[i])
  {
    if cols != metrics || |s.lo| != metrics || |s.hi| != metrics {
      return Err(ShapeMismatch);
    }
    var scores: seq<real> := [];
    for row := 0 to |y|
      invariant |scores| == row && forall i | 0 <= i < row :: scores[i] == Score(s, y[i], clip)
      invariant forall i | 0 <= i < row :: IsScore(s, y[i], clip, scores[i])
    {
      ScoreIs(s, y[row], clip);
      var score := ScoreRow(s, y[row], clip);
      scores := scores + [score];
    }
    r := Ok(scores);
  }

  // ---- What a score means --------------------------------------------------

  lemma PlaceRange(v: real, lo: real, hi: real)
    ensures 0.0 <= Place(v, lo, hi, true) <= 1.0
  {
  }

  lemma PlaceMonotone(v: real, w: real, lo: real, hi: real, clip: bool)
    requires v <= w
    ensures Place(v, lo, hi, clip) <= Place(w, lo, hi, clip)
  {
    if hi - lo > 0.0 {
      var q := Over(w - lo, hi - lo);
      OverTimes(w - lo, hi - lo);
      OverLe(v - lo, hi - lo, q);
    }
  }

  lemma {:induction false} LeastIsLeast(t: seq<real>)
    requires t != []
    ensures forall i | 0 <= i < |t| :: Least(t) <= t[i]
    ensures Least(t) in t
  {
    if |t| > 1 {
      LeastIsLeast(t[..|t| - 1]);
    }
  }

  lemma {:induction false} SumMonotone(a: seq<real>, b: seq<real>)
    requires |a| == |b| && forall i | 0 <= i < |a| :: a[i] <= b[i]
    ensures Sum(a) <= Sum(b)
  {
    if a != [] {
      SumMonotone(a[..|a| - 1], b[..|b| - 1]);
    }
  }

  /** At least as good in every metric means at least as good a score. */
  lemma ScoreMonotone(s: Scale, metrics: nat, a: seq<real>, b: seq<real>, clip: bool)
    requires ValidScale(s, metrics) && |a| == |b| == metrics
    requires forall m | 0 <= m < metrics :: a[m] <= b[m]
    ensures Score(s, a, clip) <= Score(s, b, clip)
  {
    var ta, tb := Terms(s, a, clip), Terms(s, b, clip);
    forall m | 0 <= m < metrics ensures ta[m] <= tb[m] {
      PlaceMonotone(a[m], b[m], s.lo[m], s.hi[m], clip);
      TimesLe(Place(a[m], s.lo[m], s.hi[m], clip), Place(b[m], s.lo[m], s.hi[m], clip), s.weights[m]);
    }
    LeastIsLeast(ta);
    LeastIsLeast(tb);
    SumMonotone(ta, tb);
    TimesLe(Sum(ta), Sum(tb), s.alpha);
    TimesCommutes(Sum(ta), s.alpha);
    TimesCommutes(Sum(tb), s.alpha);
  }

  /** With alpha positive every metric counts: a larger value anywhere makes an unclipped score larger. */
  lemma EveryMetricCounts(s: Scale, metrics: nat, a: seq<real>, b: seq<real>, m: nat)
    requires ValidScale(s, metrics) && s.alpha > 0.0 && |a| == |b| == metrics && m < metrics
    requires (forall l | 0 <= l < metrics :: a[l] <= b[l]) && a[m] < b[m] && s.lo[m] < s.hi[m]
    ensures Score(s, a, false) < Score(s, b, false)
  {
    var ta, tb := Terms(s, a, false), Terms(s, b, false);
    forall l | 0 <= l < metrics ensures ta[l] <= tb[l] && (l == m ==> ta[l] < tb[l]) {
      PlaceMonotone(a[l], b[l], s.lo[l], s.hi[l], false);
      TimesLe(Place(a[l], s.lo[l], s.hi[l], false), Place(b[l], s.lo[l], s.hi[l], false), s.weights[l]);
      if l == m {
        PlaceGrows(a[m], b[m], s.lo[m], s.hi[m]);
        TimesLess(Place(a[m], s.lo[m], s.hi[m], false), Place(b[m], s.lo[m], s.hi[m], false), s.weights[m]);
      }
    }
    LeastIsLeast(ta);
    LeastIsLeast(tb);
    SumGrows(ta, tb, m);
    TimesLess(Sum(ta), Sum(tb), s.alpha);
    TimesCommutes(Sum(ta), s.alpha);
    TimesCommutes(Sum(tb), s.alpha);
  }

  lemma PlaceGrows(v: real, w: real, lo: real, hi: real)
    requires v < w && lo < hi
    ensures Place(v, lo, hi, false) < Place(w, lo, hi, false)
  {
    OverTimes(v - lo, hi - lo);
    OverTimes(w - lo, hi - lo);
    OverLe(w - lo, hi - lo, Over(v - lo, hi - lo));
  }

  lemma {:induction false} SumGrows(a: seq<real>, b: seq<real>, m: nat)
    requires |a| == |b| && (forall i | 0 <= i < |a| :: a[i] <= b[i]) && m < |a| && a[m] < b[m]
    ensures Sum(a) < Sum(b)
  {
    var n := |a| - 1;
    if m < n {
      SumGrows(a[..n], b[..n], m);
    } else {
      SumMonotone(a[..n], b[..n]);
    }
  }

  lemma ClippedTerms(s: Scale, metrics: nat, y: seq<real>)
    requires ValidScale(s, metrics) && |y| == metrics
    ensures forall m | 0 <= m < metrics :: 0.0 <= Terms(s, y, true)[m] <= s.weights[m]
  {
    forall m | 0 <= m < metrics ensures 0.0 <= Terms(s, y, true)[m] <= s.weights[m] {
      var z := Place(y[m], s.lo[m], s.hi[m], true);
      PlaceRange(y[m], s.lo[m], s.hi[m]);
      NonNegativeTimes(z, s.weights[m]);
      TimesLe(z, 1.0, s.weights[m]);
      assert Times(1.0, s.weights[m]) == s.weights[m];
    }
  }

  /** Whatever the ranges are, even without extent, a clipped score lies between zero and one over
      the number of metrics plus alpha. */
  lemma ScoreRange(s: Scale, metrics: nat, y: seq<real>)
    requires ValidScale(s, metrics) && |y| == metrics
    ensures 0.0 <= Score(s, y, true) <= Over(1.0, metrics as real) + s.alpha
  {
    var t := Terms(s, y, true);
    ClippedTerms(s, metrics, y);
    LeastIsLeast(t);
    SumMonotone(t, s.weights);
    SumAtLeast(t, Least(t));
    SumAtLeast(t, 0.0);
    TimesZero(metrics as real);
    TimesCommutes(metrics as real, Least(t));
    OverLe(1.0, metrics as real, Least(t));
    NonNegativeTimes(s.alpha, Sum(t));
    TimesLe(Sum(t), 1.0, s.alpha);
    TimesCommutes(Sum(t), s.alpha);
    assert Times(1.0, s.alpha) == s.alpha;
  }
}
