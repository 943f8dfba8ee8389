/**
 The multi-objective trust region: observed ranges kept up incrementally, and an incumbent that
 is compared under the current ranges.

 A ghost field keeps the rows that the ranges stand for, so that the methods can say what the
 ranges mean however the rows arrived. Of the inner region only the best value and the number
 of observations matter here.
 */
module Morbo {
  import opened Layout
  import opened Reals
  import opened Scalarization
  import opened Wrappers

  datatype MorboError = InvalidParameter | InvalidState

  // ---- The inner region, as far as incumbents go ----------------------------

  /** No best value stands for minus infinity. */
  class TurboTrustRegion {
    var bestValue: Option<real>
    var prevNumObs: nat

    constructor ()
      ensures bestValue == None && prevNumObs == 0
    {
      bestValue := None;
      prevNumObs := 0;
    }

    /** Forgets the best value, but not how many observations it has seen. */
    method Restart()
      modifies this
      ensures bestValue == None && prevNumObs == old(prevNumObs)
    {
      bestValue := None;
    }

    method SetBestValue(value: real)
      modifies this
      ensures bestValue == Some(value) && prevNumObs == old(prevNumObs)
    {
      bestValue := Some(value);
    }

    /** Looks at the value only when observations were added since the last time. */
    method UpdateScalarIncumbent(numObs: nat, value: real) returns (ok: bool)
      modifies this
      ensures ok <==> numObs == 0 || numObs >= old(prevNumObs)
      ensures if numObs > old(prevNumObs)
              then prevNumObs == numObs && bestValue == Some(Best(old(bestValue), value))
              else prevNumObs == old(prevNumObs) && bestValue == old(bestValue)
    {
      if numObs == 0 || numObs == prevNumObs {
        return true;
      }
      if numObs < prevNumObs {
        return false;
      }
      if bestValue.None? {
        bestValue := Some(value);
      } else {
        bestValue := Some(if value > bestValue.value then value else bestValue.value);
      }
      prevNumObs := numObs;
      ok := true;
    }
  }

  function Best(best: Option<real>, value: real): real {
    if best.None? || value > best.value then value else best.value
  }

  // ---- Ranges --------------------------------------------------------------

  /** `lo` and `hi` are the least and the greatest value of a metric among some rows. */
  ghost predicate IsRange(rows: seq<seq<real>>, m: nat, lo: real, hi: real)
    requires forall i | 0 <= i < |rows| :: m < |rows[i]|
  {
    && (forall i | 0 <= i < |rows| :: lo <= rows[i][m] <= hi)
    && (exists i :: 0 <= i < |rows| && rows[i][m] == lo)
    && (exists i :: 0 <= i < |rows| && rows[i][m] == hi)
  }

  /** The ranges of all metrics, which the rows determine. */
  ghost predicate AreRanges(rows: seq<seq<real>>, metrics: nat, lo: seq<real>, hi: seq<real>)
    requires Width(rows, metrics)
  {
    && |lo| == |hi| == metrics
    && forall m | 0 <= m < metrics :: IsRange(rows, m, lo[m], hi[m])
  }

  lemma RangesAreUnique(rows: seq<seq<real>>, metrics: nat, lo: seq<real>, hi: seq<real>, lo': seq<real>, hi': seq<real>)
    requires Width(rows, metrics) && AreRanges(rows, metrics, lo, hi) && AreRanges(rows, metrics, lo', hi')
    ensures lo == lo' && hi == hi'
  {
    forall m | 0 <= m < metrics ensures lo[m] == lo'[m] && hi[m] == hi'[m] {
      assert IsRange(rows, m, lo[m], hi[m]) && IsRange(rows, m, lo'[m], hi'[m]);
    }
  }

  /** Bounds that may still be infinite: no row has been seen. */
  datatype Bounds = Bounds(lo: Option<real>, hi: Option<real>)

  ghost predicate Tracks(rows: seq<seq<real>>, m: nat, b: Bounds)
    requires forall i | 0 <= i < |rows| :: m < |rows[i]|
  {
    if rows == [] then b == Bounds(None, None)
    else b.lo.Some? && b.hi.Some? && IsRange(rows, m, b.lo.value, b.hi.value)
  }

  function Widen(b: Bounds, v: real): Bounds {
    Bounds(if b.lo.None? || v < b.lo.value then Some(v) else b.lo,
           if b.hi.None? || v > b.hi.value then Some(v) else b.hi)
  }

  lemma WidenTracks(rows: seq<seq<real>>, m: nat, b: Bounds, row: seq<real>)
    requires (forall i | 0 <= i < |rows| :: m < |rows[i]|) && m < |row| && Tracks(rows, m, b)
    ensures Tracks(rows + [row], m, Widen(b, row[m]))
  {
    var more, b' := rows + [row], Widen(b, row[m]);
    assert more[|rows|] == row;
    forall i | 0 <= i < |rows| ensures more[i] == rows[i] {
    }
    if rows != [] {
      var i :| 0 <= i < |rows| && rows[i][m] == b.lo.value;
      var j :| 0 <= j < |rows| && rows[j][m] == b.hi.value;
      assert more[i][m] == b.lo.value && more[j][m] == b.hi.value;
    }
  }

  ghost predicate AllTrack(rows: seq<seq<real>>, metrics: nat, bounds: seq<Bounds>) {
    && Width(rows, metrics) && |bounds| == metrics
    && forall m | 0 <= m < metrics :: Tracks(rows, m, bounds[m])
  }

  /** One pass over new rows, from the bounds of the rows seen before. */
  method Absorb(ghost seen: seq<seq<real>>, bounds: array<Bounds>, rows: seq<seq<real>>, metrics: nat)
    requires AllTrack(seen, metrics, bounds[..]) && Width(rows, metrics)
    modifies bounds
    ensures AllTrack(seen + rows, metrics, bounds[..])
  {
    assert seen + rows[..0] == seen;
    for row := 0 to |rows|
      invariant AllTrack(seen + rows[..row], metrics, bounds[..])
    {
      AbsorbRow(seen + rows[..row], bounds, rows[row], metrics);
      assert seen + rows[..row + 1] == seen + rows[..row] + [rows[row]];
    }
    assert rows[..|rows|] == rows;
  }

  method AbsorbRow(ghost seen: seq<seq<real>>, bounds: array<Bounds>, row: seq<real>, metrics: nat)
    requires AllTrack(seen, metrics, bounds[..]) && |row| == metrics
    modifies bounds
    ensures AllTrack(seen + [row], metrics, bounds[..])
  {
    for m := 0 to metrics
      invariant forall l | 0 <= l < m :: Tracks(seen + [row], l, bounds[l])
      invariant forall l | m <= l < metrics :: Tracks(seen, l, bounds[l])
    {
      WidenTracks(seen, m, bounds[m], row);
      var b := Widened(bounds[m], row[m]);
      bounds[m] := b;
    }
  }

  method Widened(b: Bounds, v: real) returns (r: Bounds)
    ensures r == Widen(b, v)
  {
    r := b;
    if r.lo.None? || v < r.lo.value {
      r := r.(lo := Some(v));
    }
    if r.hi.None? || v > r.hi.value {
      r := r.(hi := Some(v));
    }
  }

  /** The ranges of all rows from scratch, one metric after the other. */
  method ScanAll(rows: seq<seq<real>>, metrics: nat) returns (bounds: seq<Bounds>)
    requires Width(rows, metrics)
    ensures AllTrack(rows, metrics, bounds)
  {
    bounds := [];
    for m := 0 to metrics
      invariant |bounds| == m && forall l | 0 <= l < m :: Tracks(rows, l, bounds[l])
    {
      var b := Bounds(None, None);
      for row := 0 to |rows|
        invariant Tracks(rows[..row], m, b)
      {
        WidenTracks(rows[..row], m, b, rows[row]);
        assert rows[..row + 1] == rows[..row] + [rows[row]];
        b := Widened(b, rows[row][m]);
      }
      assert rows[..|rows|] == rows;
      bounds := bounds + [b];
    }
  }

  /** Bounds of at least one row are finite. */
  method Finite(ghost rows: seq<seq<real>>, bounds: seq<Bounds>, metrics: nat) returns (lo: seq<real>, hi: seq<real>)
    requires AllTrack(rows, metrics, bounds) && rows != []
    ensures AreRanges(rows, metrics, lo, hi)
  {
    assert forall m | 0 <= m < metrics :: Tracks(rows, m, bounds[m]);
    lo := seq(metrics, m requires 0 <= m < metrics && bounds[m].lo.Some? => bounds[m].lo.value);
    hi := seq(metrics, m requires 0 <= m < metrics && bounds[m].hi.Some? => bounds[m].hi.value);
  }

  // ---- The region ----------------------------------------------------------

  class MorboTrustRegion {
    const inner: TurboTrustRegion
    const numMetrics: nat
    const alpha: real
    var weights: seq<real>
    var yMin: Option<seq<real>>
    var yMax: Option<seq<real>>
    var incumbent: Option<seq<real>>

    /** The rows the ranges stand for: all since the last reset or full update. */
    ghost var rows: seq<seq<real>>

    /** Without an incumbent the inner region has no best value; with one it has seen observations. */
    ghost predicate Valid()
      reads this, inner
    {
      WellFormed() && (incumbent.None? ==> inner.bestValue.None?) && (incumbent.Some? ==> inner.prevNumObs > 0)
    }

    ghost predicate WellFormed()
      reads this
    {
      && numMetrics >= 2 && alpha >= 0.0 && |weights| == numMetrics
      && (forall m | 0 <= m < numMetrics :: weights[m] > 0.0) && Sum(weights) == 1.0
      && Width(rows, numMetrics) && (incumbent.Some? ==> |incumbent.value| == numMetrics && rows != [])
      && (rows == [] <==> yMin.None?) && (yMin.None? <==> yMax.None?)
      && (yMin.Some? ==> AreRanges(rows, numMetrics, yMin.value, yMax.value))
    }

    function Current(): Scale
      requires yMin.Some? && yMax.Some?
      reads this
    {
      Scale(yMin.value, yMax.value, weights, alpha)
    }

    /** The row that is kept now won under the ranges and weights of now. */
    ghost predicate Kept(before: Option<seq<real>>, candidate: seq<real>)
      reads this
    {
      && incumbent.Some? && yMin.Some? && yMax.Some?
      && Challenged(before, candidate, incumbent.value, Current())
    }

    /** The inner region's best value is the score of the row that is kept. */
    ghost predicate InnerAgrees()
      reads this, inner
    {
      && incumbent.Some? && yMin.Some? && yMax.Some? && |incumbent.value| == |yMin.value| == |yMax.value| == |weights| > 0
      && inner.bestValue == Some(Score(Current(), incumbent.value, true))
    }

    /** That is: the augmented minimum of the kept row's places in the ranges of now. */
    lemma AgreesMeans()
      requires InnerAgrees()
      ensures inner.bestValue.Some?
      ensures IsScore(Scale(yMin.value, yMax.value, weights, alpha), incumbent.value, true, inner.bestValue.value)
    {
      ScoreIs(Current(), incumbent.value, true);
    }

    /** The inner region's best value is the score of the kept row if observations were added, and that of
        the row before, if there was one, otherwise. */
    ghost predicate InnerHeard(before: Option<seq<real>>, added: bool)
      reads this, inner
    {
      if added then InnerAgrees()
      else if before.None? then inner.bestValue == None
      else
        && yMin.Some? && yMax.Some? && |before.value| == |yMin.value| == |yMax.value| == |weights| > 0
        && inner.bestValue == Some(Score(Current(), before.value, true))
    }

    ghost predicate Beats(y: seq<real>, z: seq<real>)
      reads this
    {
      && yMin.Some? && yMax.Some? && |y| == |z| == |yMin.value| == |yMax.value| == |weights| > 0
      && Score(Current(), y, true) > Score(Current(), z, true)
    }

    /** Weights drawn as positive samples divided by their sum. */
    constructor (metrics: nat, alpha: real, samples: seq<real>)
      requires metrics >= 2 && alpha >= 0.0
      requires |samples| == metrics && forall m | 0 <= m < metrics :: samples[m] > 0.0
      ensures Valid() && rows == [] && incumbent == None && fresh(inner) && inner.bestValue == None && inner.prevNumObs == 0
      ensures numMetrics == metrics && this.alpha == alpha && AreShares(samples, weights)
    {
      var w := DirichletWeights(samples);
      inner := new TurboTrustRegion();
      numMetrics := metrics;
      this.alpha := alpha;
      weights := w;
      yMin, yMax, incumbent := None, None, None;
      rows := [];
    }

    /** Starts over, with new weights if some are drawn; the number of observations seen stays. */
    method Restart(samples: Option<seq<real>>)
      requires Valid() && (samples.Some? ==> |samples.value| == numMetrics && forall m | 0 <= m < numMetrics :: samples.value[m] > 0.0)
      modifies this`yMin, this`yMax, this`incumbent, this`rows, this`weights, inner
      ensures Valid() && rows == [] && incumbent == None
      ensures inner.bestValue == None && inner.prevNumObs == old(inner.prevNumObs)
      ensures if samples.None? then weights == old(weights) else AreShares(samples.value, weights)
    {
      Forget();
      if samples.Some? {
        weights := DirichletWeights(samples.value);
      }
    }

    method Forget()
      requires Valid()
      modifies this`yMin, this`yMax, this`incumbent, this`rows, inner
      ensures Valid() && rows == [] && incumbent == None
      ensures inner.bestValue == None && inner.prevNumObs == old(inner.prevNumObs)
    {
      yMin, yMax, incumbent := None, None, None;
      rows := [];
      inner.Restart();
    }

    /** Adds rows to the ranges; however the rows are batched, the ranges are those of all of them. */
    method UpdateRangesIncremental(yNew: seq<seq<real>>)
      requires Valid() && Width(yNew, numMetrics)
      modifies this`yMin, this`yMax, this`rows
      ensures Valid() && rows == old(rows) + yNew
    {
      if |yNew| == 0 {
        assert rows + yNew == rows;
        return;
      }
      var bounds := new Bounds[numMetrics](_ => Bounds(None, None));
      if yMin.Some? {
        var lo, hi := yMin.value, yMax.value;
        forall m | 0 <= m < numMetrics {
          bounds[m] := Bounds(Some(lo[m]), Some(hi[m]));
        }
      }
      Absorb(rows, bounds, yNew, numMetrics);
      rows := rows + yNew;
      var lo, hi := Finite(rows, bounds[..], numMetrics);
      yMin, yMax := Some(lo), Some(hi);
    }

    method ScoreOf(y: seq<real>) returns (score: real)
      requires WellFormed() && rows != [] && |y| == numMetrics
      ensures score == Score(Current(), y, true)
    {
      var scores := ScalarizeWithRanges([y], numMetrics, Current(), numMetrics, true);
      score := scores.value[0];
    }

    /** New weights, for which the incumbent has to be scored again. */
    method ResampleWeights(samples: seq<real>)
      requires Valid() && |samples| == numMetrics && forall m | 0 <= m < numMetrics :: samples[m] > 0.0
      modifies this`weights
      ensures Valid() && AreShares(samples, weights)
    {
      weights := DirichletWeights(samples);
    }

    /** After new weights the inner region compares against the incumbent's score under them. */
    method RescalarizeIncumbent(numObs: nat) returns (ok: bool)
      requires Valid()
      modifies inner
      ensures Valid() && (incumbent.Some? ==> InnerAgrees())
      ensures ok <==> incumbent.None? || numObs == 0 || numObs >= old(inner.prevNumObs)
      ensures incumbent.None? ==> unchanged(inner)
    {
      if incumbent.None? || yMin.None? || yMax.None? {
        return true;
      }
      var score := ScoreOf(incumbent.value);
      inner.SetBestValue(score);
      ok := inner.UpdateScalarIncumbent(numObs, score);
    }

    /** Replaces the ranges by those of all observations, then lets the candidate challenge the incumbent. */
    method Update(yObs: seq<seq<real>>, cols: nat, candidate: seq<real>) returns (r: Result<(), MorboError>)
      requires Valid() && Width(yObs, cols)
      modifies this`yMin, this`yMax, this`incumbent, this`rows, inner
      ensures Valid()
      ensures r.Ok? <==> cols == numMetrics && |candidate| == numMetrics && (yObs == [] || |yObs| >= old(inner.prevNumObs))
      ensures r.Err? ==> unchanged(this) && unchanged(inner)
      ensures r.Ok? ==> rows == yObs
      ensures r.Ok? && yObs == [] ==> incumbent == None && inner.bestValue == None && inner.prevNumObs == old(inner.prevNumObs)
      ensures r.Ok? && yObs != [] ==> Kept(old(incumbent), candidate) && inner.prevNumObs == |yObs|
      ensures r.Ok? && yObs != [] ==>
        && InnerHeard(old(incumbent), |yObs| > old(inner.prevNumObs))
        && (InnerAgrees() <==> |yObs| > old(inner.prevNumObs) || (old(incumbent).Some? && !Beats(candidate, old(incumbent).value)))
    {
      if cols != numMetrics || |candidate| != numMetrics {
        return Err(InvalidParameter);
      }
      var n := |yObs|;
      if n == 0 {
        Forget();
        return Ok(());
      }
      var prevN := inner.prevNumObs;
      if n < prevN {
        return Err(InvalidState);
      }
      var bounds := ScanAll(yObs, numMetrics);
      rows := yObs;
      var lo, hi := Finite(rows, bounds, numMetrics);
      yMin, yMax := Some(lo), Some(hi);
      if prevN == 0 || incumbent.None? {
        incumbent := Some(candidate);
        var score := ScoreOf(candidate);
        var ok := inner.UpdateScalarIncumbent(n, score);
        return Ok(());
      }
      var ok := Challenge(candidate, n);
      r := Ok(());
    }

    /** Compares under the current ranges; the better one stays, the old one on a tie. Without new
        observations the inner region is left at the old score even if the candidate wins. */
    method Challenge(candidate: seq<real>, numObs: nat) returns (ok: bool)
      requires Valid() && rows != [] && incumbent.Some? && |candidate| == numMetrics && numObs > 0
      modifies this`incumbent, inner
      ensures Valid() && incumbent.Some? && ok == (numObs >= old(inner.prevNumObs))
      ensures ok ==> Kept(old(incumbent), candidate)
      ensures !ok ==> incumbent == old(incumbent)
      ensures ok ==> (InnerAgrees() <==> (numObs > old(inner.prevNumObs) || !Beats(candidate, old(incumbent).value)))
      ensures inner.prevNumObs == if ok then numObs else old(inner.prevNumObs)
      ensures numObs <= old(inner.prevNumObs) ==>
        inner.bestValue == Some(Score(Current(), old(incumbent).value, true)) && inner.prevNumObs == old(inner.prevNumObs)
    {
      var oldScore := ScoreOf(incumbent.value);
      var newScore := ScoreOf(candidate);
      inner.SetBestValue(oldScore);
      ok := inner.UpdateScalarIncumbent(numObs, newScore);
      if ok && newScore > oldScore {
        incumbent := Some(candidate);
      }
    }

    /** The same challenge without touching the ranges. The inner region's best value is the score of the
        row that is kept exactly when observations were added, or there was a row and the candidate did not
        win: a restart forgets the best value, and without new observations the first row after it is not
        looked at. */
    method UpdateIncumbentOnly(candidate: seq<real>, numObs: nat) returns (r: Result<(), MorboError>)
      requires Valid()
      modifies this`yMin, this`yMax, this`incumbent, this`rows, inner
      ensures Valid()
      ensures r.Ok? <==> |candidate| == numMetrics && (numObs == 0 || (old(rows) != [] && numObs >= old(inner.prevNumObs)))
      ensures numObs > 0 ==> rows == old(rows) && yMin == old(yMin) && yMax == old(yMax)
      ensures r.Ok? && numObs == 0 ==> rows == [] && incumbent == None && inner.bestValue == None
      ensures inner.prevNumObs == if r.Ok? && numObs > 0 then numObs else old(inner.prevNumObs)
      ensures r.Ok? && numObs > 0 ==> Kept(old(incumbent), candidate)
      ensures r.Ok? && numObs > 0 ==>
        && InnerHeard(old(incumbent), numObs > old(inner.prevNumObs))
        && (InnerAgrees() <==> numObs > old(inner.prevNumObs) || (old(incumbent).Some? && !Beats(candidate, old(incumbent).value)))
      ensures r.Err? ==> incumbent == if old(incumbent).None? && |candidate| == numMetrics && old(rows) != [] then Some(candidate)
                                      else old(incumbent)
    {
      if |candidate| != numMetrics {
        return Err(InvalidParameter);
      }
      if numObs == 0 {
        Forget();
        return Ok(());
      }
      if yMin.None? || yMax.None? {
        return Err(InvalidState);
      }
      var ok;
      if incumbent.None? {
        incumbent := Some(candidate);
        var score := ScoreOf(candidate);
        ok := inner.UpdateScalarIncumbent(numObs, score);
      } else {
        ok := Challenge(candidate, numObs);
      }
      r := if ok then Ok(()) else Err(InvalidState);
    }
  }

  lemma WorstAndBest(s: Scale)
    requires s.lo == [0.0, 0.0] && s.hi == [1.0, 1.0] && |s.weights| == 2 && s.alpha == 0.0
    requires s.weights[0] > 0.0 && s.weights[1] > 0.0
    ensures Score(s, [1.0, 1.0], true) > Score(s, [0.0, 0.0], true)
  {
    var worst, best := Terms(s, [0.0, 0.0], true), Terms(s, [1.0, 1.0], true);
    assert worst[0] == 0.0 && worst[1] == 0.0;
    assert best[0] == s.weights[0] && best[1] == s.weights[1];
    assert Least(worst) == 0.0 && Least(best) > 0.0 by {
      assert worst[..1] == [0.0] && best[..1] == [s.weights[0]];
    }
  }

  lemma UnitRanges(rows: seq<seq<real>>, lo: seq<real>, hi: seq<real>)
    requires rows == [[0.0, 0.0], [1.0, 1.0]] && AreRanges(rows, 2, lo, hi)
    ensures lo == [0.0, 0.0] && hi == [1.0, 1.0]
  {
    forall m | 0 <= m < 2 ensures IsRange(rows, m, 0.0, 1.0) {
      assert rows[0][m] == 0.0 && rows[1][m] == 1.0;
    }
    RangesAreUnique(rows, 2, lo, hi, [0.0, 0.0], [1.0, 1.0]);
  }

  /** A candidate that wins without new observations: the worst row is the incumbent at one observation,
      the best one challenges it at one observation, is kept, and the inner region does not hear of it. */
  method WinsUnnoticed() returns (region: MorboTrustRegion)
    ensures region.Valid() && region.incumbent == Some([1.0, 1.0]) && !region.InnerAgrees()
  {
    region := new MorboTrustRegion(2, 0.0, [1.0, 1.0]);
    region.UpdateRangesIncremental([[0.0, 0.0], [1.0, 1.0]]);
    assert region.rows == [[0.0, 0.0], [1.0, 1.0]];
    UnitRanges(region.rows, region.yMin.value, region.yMax.value);
    WorstAndBest(region.Current());
    var r := region.UpdateIncumbentOnly([0.0, 0.0], 1);
    r := region.UpdateIncumbentOnly([1.0, 1.0], 1);
  }

  /** A restart that nobody hears of: after it the ranges are rebuilt from the two rows there are, and the
      next challenge brings no observations. The row is kept, and the inner region has no best value. */
  method RestartUnheard() returns (region: MorboTrustRegion)
    ensures region.Valid() && region.incumbent == Some([1.0, 1.0])
    ensures region.inner.bestValue == None && !region.InnerAgrees()
  {
    var rows := [[0.0, 0.0], [1.0, 1.0]];
    region := new MorboTrustRegion(2, 0.0, [1.0, 1.0]);
    region.UpdateRangesIncremental(rows);
    var r := region.UpdateIncumbentOnly([1.0, 1.0], 2);
    region.Restart(None);
    region.UpdateRangesIncremental(rows);
    r := region.UpdateIncumbentOnly([1.0, 1.0], 2);
  }

  /** An update without rows is no way back to fewer of them: five, none, one is refused. */
  method FewerRowsRefused(row: seq<real>) returns (r: Result<(), MorboError>)
    requires |row| == 2
    ensures r.Err?
  {
    var region := new MorboTrustRegion(2, 0.0, [1.0, 1.0]);
    r := region.Update([row, row, row, row, row], 2, row);
    r := region.Update([], 2, row);
    r := region.Update([row], 2, row);
  }

  /** The kept row is one of the two, its score is the greater one, and a tie keeps the old row. */
  ghost predicate Challenged(before: Option<seq<real>>, candidate: seq<real>, kept: seq<real>, s: Scale) {
    && kept != [] && |kept| == |candidate| == |s.lo| == |s.hi| == |s.weights|
    && (before.None? ==> kept == candidate)
    && (before.Some? ==> |before.value| == |kept| && Winner(s, before.value, candidate, kept))
  }

  ghost predicate Winner(s: Scale, before: seq<real>, candidate: seq<real>, kept: seq<real>)
    requires kept != [] && |before| == |kept| == |candidate| == |s.lo| == |s.hi| == |s.weights|
  {
    kept == if Score(s, candidate, true) > Score(s, before, true) then candidate else before
  }

  /** Every weight is to one as its sample is to the sum of all samples. */
  ghost predicate AreShares(samples: seq<real>, w: seq<real>) {
    |w| == |samples| && forall m | 0 <= m < |w| :: Times(w[m], Sum(samples)) == samples[m]
  }

  method DirichletWeights(samples: seq<real>) returns (w: seq<real>)
    requires samples != [] && forall m | 0 <= m < |samples| :: samples[m] > 0.0
    ensures |w| == |samples| && Sum(w) == 1.0 && forall m | 0 <= m < |w| :: w[m] > 0.0
    ensures AreShares(samples, w)
  {
    var sum := 0.0;
    for m := 0 to |samples|
      invariant sum == Sum(samples[..m])
    {
      assert samples[..m + 1][..m] == samples[..m];
      sum := sum + samples[m];
    }
    assert samples[..|samples|] == samples;
    PartOfSum(samples, 0);
    w := Shares(samples, sum);
  }

  function Shares(samples: seq<real>, sum: real): (w: seq<real>)
    requires samples != [] && sum == Sum(samples) && forall m | 0 <= m < |samples| :: samples[m] > 0.0
    ensures |w| == |samples| && Sum(w) == 1.0 && forall m | 0 <= m < |w| :: w[m] > 0.0
    ensures AreShares(samples, w)
  {
    PartOfSum(samples, 0);
    SharesAreWeights(samples, sum);
    seq(|samples|, m requires 0 <= m < |samples| => Over(samples[m], sum))
  }

  lemma SharesAreWeights(samples: seq<real>, sum: real)
    requires samples != [] && sum == Sum(samples) > 0.0 && forall m | 0 <= m < |samples| :: samples[m] > 0.0
    ensures var w := seq(|samples|, m requires 0 <= m < |samples| => Over(samples[m], sum));
      Sum(w) == 1.0 && (forall m | 0 <= m < |w| :: w[m] > 0.0) && AreShares(samples, w)
  {
    var w := seq(|samples|, m requires 0 <= m < |samples| => Over(samples[m], sum));
    forall m | 0 <= m < |w| ensures Times(w[m], sum) == samples[m] && w[m] > 0.0 {
      OverTimes(samples[m], sum);
      if w[m] <= 0.0 {
        TimesLe(w[m], 0.0, sum);
        TimesZero(sum);
      }
    }
    ScaledSum(w, sum, samples);
    OverIs(sum, sum, Sum(w));
    assert Times(1.0, sum) == sum;
    OverIs(sum, sum, 1.0);
  }
}
