/**
 The stress drivers' loop control: batches that land on checkpoints, spaced ask stops, and the
 checkpoint sizes themselves.
 */
module Stress {
  import opened Sorting
  import opened Wrappers

  datatype StressError = BadNumObs | BadBatchSize | BadNumAsk | TooManyAsks | BadMaxN

  // ---- Batches -------------------------------------------------------------

  function Total(sizes: seq<nat>): nat {
    if sizes == [] then 0 else Total(sizes[..|sizes| - 1]) + sizes[|sizes| - 1]
  }

  /** The rows emitted when some batch has been emitted. */
  ghost predicate LandsOn(sizes: seq<nat>, stop: int) {
    exists k :: 0 <= k <= |sizes| && Total(sizes[..k]) == stop
  }

  function InRange(stops: seq<int>, numObs: int): (r: seq<int>)
    ensures forall s :: s in r <==> s in stops && 1 <= s <= numObs
  {
    if stops == [] then []
    else
      var before, last := InRange(stops[..|stops| - 1], numObs), stops[|stops| - 1];
      assert stops == stops[..|stops| - 1] + [last];
      if 1 <= last <= numObs then before + [last] else before
  }

  lemma TotalNext(sizes: seq<nat>, n: nat)
    ensures Total(sizes + [n]) == Total(sizes) + n
    ensures forall k | 0 <= k <= |sizes| :: (sizes + [n])[..k] == sizes[..k]
  {
    assert (sizes + [n])[..|sizes|] == sizes;
  }

  lemma StillLands(sizes: seq<nat>, n: nat)
    ensures forall s :: LandsOn(sizes, s) ==> LandsOn(sizes + [n], s)
    ensures LandsOn(sizes + [n], Total(sizes) + n)
  {
    TotalNext(sizes, n);
    var more := sizes + [n];
    forall s | LandsOn(sizes, s) ensures LandsOn(more, s) {
      var k :| 0 <= k <= |sizes| && Total(sizes[..k]) == s;
      assert Total(more[..k]) == s;
    }
    assert more[..|more|] == more;
  }

  /** Batches are never empty and never too large, add up to all rows, and none crosses a stop
      point: the running total lands on every stop point in range. A short batch has a reason. */
  method ObservationBatches(numObs: int, batchSize: int, stopPoints: seq<int>) returns (r: Result<seq<nat>, StressError>)
    ensures r.Ok? <==> numObs >= 1 && batchSize >= 1
    ensures r.Ok? ==> forall i | 0 <= i < |r.value| :: 1 <= r.value[i] <= batchSize
    ensures r.Ok? ==> Total(r.value) == numObs
    ensures r.Ok? ==> forall s | s in stopPoints && 1 <= s <= numObs :: LandsOn(r.value, s)
    ensures r.Ok? ==> forall i | 0 <= i < |r.value| && r.value[i] < batchSize ::
      Total(r.value[..i + 1]) == numObs || Total(r.value[..i + 1]) in stopPoints
  {
    if numObs < 1 {
      return Err(BadNumObs);
    }
    if batchSize < 1 {
      return Err(BadBatchSize);
    }
    var stops := SortInts(InRange(stopPoints, numObs));
    var sizes := Emit(numObs, batchSize, stops);
    forall s | s in stopPoints && 1 <= s <= numObs ensures LandsOn(sizes, s) {
      assert s in InRange(stopPoints, numObs);
      assert s in stops;
    }
    forall i | 0 <= i < |sizes| && sizes[i] < batchSize
      ensures Total(sizes[..i + 1]) == numObs || Total(sizes[..i + 1]) in stopPoints
    {
      assert ShortForAReason(sizes, i, numObs, stops);
    }
    r := Ok(sizes);
  }

  ghost predicate ShortForAReason(sizes: seq<nat>, i: nat, numObs: nat, stops: seq<int>)
    requires i < |sizes|
  {
    Total(sizes[..i + 1]) == numObs || Total(sizes[..i + 1]) in stops
  }

  /** The batches so far: none empty or too large, every stop hit, short ones only for a reason. */
  ghost predicate Emitted(sizes: seq<nat>, numObs: nat, batchSize: nat, stops: seq<int>) {
    Sized(sizes, batchSize) && LandsUpTo(sizes, stops, Total(sizes)) && AllHaveReasons(sizes, numObs, batchSize, stops)
  }

  method Emit(numObs: nat, batchSize: nat, stops: seq<int>) returns (sizes: seq<nat>)
    requires numObs >= 1 && batchSize >= 1
    requires forall i, j | 0 <= i < j < |stops| :: stops[i] <= stops[j]
    ensures Emitted(sizes, numObs, batchSize, stops) && Total(sizes) == numObs
  {
    sizes := [];
    var stopI, emitted := 0, 0;
    while emitted < numObs
      invariant 0 <= emitted <= numObs && emitted == Total(sizes) && Passed(stops, stopI, emitted)
      invariant Emitted(sizes, numObs, batchSize, stops)
      decreases numObs - emitted
    {
      var n;
      n, stopI := NextSize(numObs, batchSize, stops, stopI, emitted);
      EmittedNext(sizes, n, numObs, batchSize, stops, stopI);
      sizes := sizes + [n];
      emitted := emitted + n;
    }
  }

  lemma EmittedNext(sizes: seq<nat>, n: nat, numObs: nat, batchSize: nat, stops: seq<int>, stopI: nat)
    requires (forall i, j | 0 <= i < j < |stops| :: stops[i] <= stops[j]) && Passed(stops, stopI, Total(sizes))
    requires 1 <= n <= batchSize && (stopI < |stops| ==> Total(sizes) + n <= stops[stopI])
    requires n < batchSize ==> Total(sizes) + n == numObs || Total(sizes) + n in stops
    requires Emitted(sizes, numObs, batchSize, stops)
    ensures Emitted(sizes + [n], numObs, batchSize, stops) && Total(sizes + [n]) == Total(sizes) + n
  {
    TotalNext(sizes, n);
    LandsNext(sizes, n, stops, stopI);
    ReasonsNext(sizes, n, numObs, batchSize, stops);
  }

  ghost predicate Sized(sizes: seq<nat>, batchSize: nat) {
    forall i | 0 <= i < |sizes| :: 1 <= sizes[i] <= batchSize
  }

  /** The first `stopI` stops have been reached. */
  ghost predicate Passed(stops: seq<int>, stopI: nat, emitted: nat) {
    stopI <= |stops| && forall i | 0 <= i < stopI :: stops[i] <= emitted
  }

  /** As many rows as fit into the batch, the rest and the way to the next stop. */
  method NextSize(numObs: nat, batchSize: nat, stops: seq<int>, start: nat, emitted: nat) returns (n: nat, stopI: nat)
    requires emitted < numObs && batchSize >= 1 && Passed(stops, start, emitted)
    ensures 1 <= n <= batchSize && emitted + n <= numObs
      && Passed(stops, stopI, emitted) && (stopI < |stops| ==> emitted + n <= stops[stopI])
    ensures n < batchSize ==> emitted + n == numObs || emitted + n in stops
  {
    n := if batchSize <= numObs - emitted then batchSize else numObs - emitted;
    stopI := SkipReached(stops, start, emitted);
    if stopI < |stops| && stops[stopI] - emitted < n {
      n := stops[stopI] - emitted;
      assert stops[stopI] in stops;
    }
  }

  method SkipReached(stops: seq<int>, start: nat, emitted: nat) returns (stopI: nat)
    requires Passed(stops, start, emitted)
    ensures start <= stopI && Passed(stops, stopI, emitted) && (stopI < |stops| ==> stops[stopI] > emitted)
  {
    stopI := start;
    while stopI < |stops| && stops[stopI] <= emitted
      invariant start <= stopI && Passed(stops, stopI, emitted)
    {
      stopI := stopI + 1;
    }
  }

  /** Every stop up to `limit` is hit. */
  ghost predicate LandsUpTo(sizes: seq<nat>, stops: seq<int>, limit: nat) {
    forall s | s in stops && 1 <= s <= limit :: LandsOn(sizes, s)
  }

  /** After one more batch that does not go past the next stop, every stop so far is hit. */
  lemma LandsNext(sizes: seq<nat>, n: nat, stops: seq<int>, stopI: nat)
    requires (forall i, j | 0 <= i < j < |stops| :: stops[i] <= stops[j]) && Passed(stops, stopI, Total(sizes))
    requires stopI < |stops| ==> Total(sizes) + n <= stops[stopI]
    requires LandsUpTo(sizes, stops, Total(sizes))
    ensures LandsUpTo(sizes + [n], stops, Total(sizes) + n)
  {
    StillLands(sizes, n);
    forall s | s in stops && 1 <= s <= Total(sizes) + n ensures LandsOn(sizes + [n], s) {
      NextStopOnly(stops, stopI, Total(sizes), n, s);
    }
  }

  ghost predicate AllHaveReasons(sizes: seq<nat>, numObs: nat, batchSize: nat, stops: seq<int>) {
    forall i | 0 <= i < |sizes| && sizes[i] < batchSize :: ShortForAReason(sizes, i, numObs, stops)
  }

  lemma ReasonsNext(sizes: seq<nat>, n: nat, numObs: nat, batchSize: nat, stops: seq<int>)
    requires n < batchSize ==> Total(sizes) + n == numObs || Total(sizes) + n in stops
    requires AllHaveReasons(sizes, numObs, batchSize, stops)
    ensures AllHaveReasons(sizes + [n], numObs, batchSize, stops)
  {
    var more := sizes + [n];
    LastTotal(sizes, n);
    forall i | 0 <= i < |more| && more[i] < batchSize ensures ShortForAReason(more, i, numObs, stops) {
      if i < |sizes| {
        assert more[i] == sizes[i];
        KeepsReason(sizes, n, i, numObs, stops);
      }
    }
  }

  lemma LastTotal(sizes: seq<nat>, n: nat)
    ensures Total((sizes + [n])[..|sizes| + 1]) == Total(sizes) + n
  {
    assert (sizes + [n])[..|sizes| + 1] == sizes + [n];
    TotalNext(sizes, n);
  }

  /** A stop that was not reached before can only be reached at the end of the batch. */
  lemma NextStopOnly(stops: seq<int>, stopI: nat, total: nat, n: nat, s: int)
    requires (forall i, j | 0 <= i < j < |stops| :: stops[i] <= stops[j]) && Passed(stops, stopI, total)
    requires stopI < |stops| ==> total + n <= stops[stopI]
    requires s in stops && s <= total + n
    ensures s <= total || s == total + n
  {
    var k :| 0 <= k < |stops| && stops[k] == s;
  }

  lemma KeepsReason(sizes: seq<nat>, n: nat, i: nat, numObs: nat, stops: seq<int>)
    requires i < |sizes| && ShortForAReason(sizes, i, numObs, stops)
    ensures ShortForAReason(sizes + [n], i, numObs, stops)
  {
    assert (sizes + [n])[..i + 1] == sizes[..i + 1];
  }

  // ---- Ask stops -----------------------------------------------------------

  ghost predicate StrictlyIncreasing(s: seq<int>) {
    forall i, j | 0 <= i < j < |s| :: s[i] < s[j]
  }

  /** Room is left before and after every stop. */
  ghost predicate Roomy(stops: seq<int>, numObs: int, numAsk: int) {
    forall i | 0 <= i < |stops| :: i + 1 <= stops[i] <= numObs - (numAsk - i - 1)
  }

  /** `rounded` are the ideal stops after rounding, whatever they are. There is always room for the
      next stop, and the stops strictly increase within the range. Ideal stops that begin at 1 and
      end at the number of observations, as the logarithmic spacing of the source does, give stops
      that do the same. */
  method AskStops(numObs: int, numAsk: int, rounded: seq<int>) returns (r: Result<seq<int>, StressError>)
    requires numAsk >= 0 ==> |rounded| == numAsk
    ensures r.Ok? <==> numObs >= 1 && 1 <= numAsk <= numObs
    ensures r.Ok? ==> |r.value| == numAsk && StrictlyIncreasing(r.value) && Roomy(r.value, numObs, numAsk)
    ensures r.Ok? && numAsk > 1 ==> Clamped(r.value, rounded, numObs, numAsk)
    ensures r.Ok? && numAsk == 1 ==> r.value == [numObs]
    ensures r.Ok? && numAsk > 1 && rounded[0] <= 1 ==> r.value[0] == 1
    ensures r.Ok? && rounded[numAsk - 1] >= numObs ==> r.value[numAsk - 1] == numObs
  {
    if numObs < 1 {
      return Err(BadNumObs);
    }
    if numAsk < 1 {
      return Err(BadNumAsk);
    }
    if numAsk > numObs {
      return Err(TooManyAsks);
    }
    if numAsk == 1 {
      return Ok([numObs]);
    }
    var stops := PlaceStops(numObs, numAsk, rounded);
    assert ClampedAt(stops, rounded, numObs, numAsk, 0);
    assert AtCeiling(rounded, numObs, numAsk, numAsk - 1) <==> rounded[numAsk - 1] >= numObs;
    LastStopExactly(stops, rounded, numObs, numAsk);
    r := Ok(stops);
  }

  method PlaceStops(numObs: int, numAsk: int, rounded: seq<int>) returns (stops: seq<int>)
    requires |rounded| == numAsk <= numObs
    ensures |stops| == numAsk && StrictlyIncreasing(stops) && Roomy(stops, numObs, numAsk)
      && Clamped(stops, rounded, numObs, numAsk)
  {
    stops := [];
    for i := 0 to |rounded|
      invariant |stops| == i && StrictlyIncreasing(stops) && Roomy(stops, numObs, numAsk)
      invariant Clamped(stops, rounded, numObs, numAsk)
    {
      var lo := if stops == [] then 1 else stops[|stops| - 1] + 1;
      var hi := numObs - (numAsk - i - 1);
      assert i + 1 <= lo <= hi;
      var cand := rounded[i];
      cand := if cand < lo then lo else cand;
      cand := if cand > hi then hi else cand;
      ClampedNext(stops, rounded, numObs, numAsk, cand);
      stops := stops + [cand];
    }
  }

  function LowerLimit(stops: seq<int>, i: nat): int
    requires i <= |stops|
  {
    if i == 0 then 1 else stops[i - 1] + 1
  }

  /** A stop is its ideal one moved just as far as the stop before and the room behind require. */
  ghost predicate ClampedAt(stops: seq<int>, rounded: seq<int>, numObs: int, numAsk: int, i: nat)
    requires i < |stops| <= |rounded|
  {
    stops[i] == Clamp(rounded[i], LowerLimit(stops, i), numObs - (numAsk - i - 1))
  }

  ghost predicate Clamped(stops: seq<int>, rounded: seq<int>, numObs: int, numAsk: int) {
    |stops| <= |rounded| && forall i | 0 <= i < |stops| :: ClampedAt(stops, rounded, numObs, numAsk, i)
  }

  lemma ClampedNext(stops: seq<int>, rounded: seq<int>, numObs: int, numAsk: int, cand: int)
    requires |stops| < |rounded| && Clamped(stops, rounded, numObs, numAsk)
    requires cand == Clamp(rounded[|stops|], LowerLimit(stops, |stops|), numObs - (numAsk - |stops| - 1))
    ensures Clamped(stops + [cand], rounded, numObs, numAsk)
  {
    var more := stops + [cand];
    forall i | 0 <= i < |more| ensures ClampedAt(more, rounded, numObs, numAsk, i) {
      assert LowerLimit(more, i) == LowerLimit(stops, i);
      if i < |stops| {
        assert ClampedAt(stops, rounded, numObs, numAsk, i);
      }
    }
  }

  function Clamp(v: int, lo: int, hi: int): int {
    if v > hi then hi else if v < lo then (if lo > hi then hi else lo) else v
  }

  /** An ideal stop leaves no more room behind it than the stops still to come need. */
  ghost predicate AtCeiling(rounded: seq<int>, numObs: int, numAsk: int, i: nat)
    requires i < |rounded|
  {
    rounded[i] >= numObs - (numAsk - i - 1)
  }

  /** Stop `n` is as late as it can be exactly when some ideal stop so far was, or none has a choice. */
  lemma {:induction false} LatestExactly(stops: seq<int>, rounded: seq<int>, numObs: int, numAsk: int, n: nat)
    requires n < numAsk == |stops| == |rounded| && Clamped(stops, rounded, numObs, numAsk)
    requires StrictlyIncreasing(stops) && Roomy(stops, numObs, numAsk)
    ensures stops[n] == numObs - (numAsk - n - 1) <==> numAsk == numObs || exists i :: 0 <= i <= n && AtCeiling(rounded, numObs, numAsk, i)
  {
    assert ClampedAt(stops, rounded, numObs, numAsk, n);
    if n > 0 {
      LatestExactly(stops, rounded, numObs, numAsk, n - 1);
    }
    assert AtCeiling(rounded, numObs, numAsk, n) ==> stops[n] == numObs - (numAsk - n - 1);
  }

  /** The closing assertion of the source, that the last stop is the number of observations, holds
      exactly when some ideal stop reaches the ceiling of its place or every observation is a stop. */
  lemma LastStopExactly(stops: seq<int>, rounded: seq<int>, numObs: int, numAsk: int)
    requires numAsk == |stops| == |rounded| > 1 && Clamped(stops, rounded, numObs, numAsk)
    requires StrictlyIncreasing(stops) && Roomy(stops, numObs, numAsk)
    ensures stops[numAsk - 1] == numObs
       <==> numAsk == numObs || exists i :: 0 <= i < |rounded| && AtCeiling(rounded, numObs, numAsk, i)
  {
    LatestExactly(stops, rounded, numObs, numAsk, numAsk - 1);
  }

  /** Ideal stops that already increase and leave room stay as they are. */
  lemma {:induction false} IdealStopsStay(stops: seq<int>, rounded: seq<int>, numObs: int, numAsk: int)
    requires |stops| <= |rounded| && Clamped(stops, rounded, numObs, numAsk)
    requires StrictlyIncreasing(rounded) && Roomy(rounded, numObs, numAsk)
    ensures stops == rounded[..|stops|]
  {
    if stops != [] {
      var n := |stops| - 1;
      var before := stops[..n];
      forall i | 0 <= i < n ensures ClampedAt(before, rounded, numObs, numAsk, i) {
        assert ClampedAt(stops, rounded, numObs, numAsk, i) && LowerLimit(before, i) == LowerLimit(stops, i);
      }
      IdealStopsStay(before, rounded, numObs, numAsk);
      if n > 0 {
        assert stops[n - 1] == before[n - 1] == rounded[n - 1];
      }
      assert ClampedAt(stops, rounded, numObs, numAsk, n);
    }
  }

  // ---- Checkpoints ---------------------------------------------------------

  function NextCheckpoint(n: nat): nat {
    if n < 3 then 3
    else if n < 10 then 10
    else if n % 30 == 10 then n * 3
    else n * 10 / 3
  }

  function Pow10(k: nat): (p: nat)
    ensures p > 0
  {
    if k == 0 then 1 else 10 * Pow10(k - 1)
  }

  /** The checkpoint sizes as they are meant: one and three times the powers of ten. */
  function Checkpoint(i: nat): nat {
    if i % 2 == 0 then Pow10(i / 2) else 3 * Pow10(i / 2)
  }

  lemma {:induction false} TensModulo(k: nat)
    requires k >= 1
    ensures Pow10(k) >= 10 && Pow10(k) % 30 == 10 && 3 * Pow10(k) % 30 == 0
  {
    if k > 1 {
      TensModulo(k - 1);
      var q := Pow10(k - 1) / 30;
      assert Pow10(k - 1) == 30 * q + 10;
      assert Pow10(k) == 30 * (10 * q + 3) + 10;
    }
    var q := Pow10(k) / 30;
    assert Pow10(k) == 30 * q + 10;
    assert 3 * Pow10(k) == 30 * (3 * q + 1);
  }

  /** The step rule walks exactly through those sizes. */
  lemma StepsThroughCheckpoints(i: nat)
    ensures NextCheckpoint(Checkpoint(i)) == Checkpoint(i + 1) > Checkpoint(i)
  {
    var k := i / 2;
    if k >= 1 {
      TensModulo(k);
    }
    if i % 2 == 1 {
      assert (i + 1) / 2 == k + 1 && Pow10(k + 1) == 10 * Pow10(k);
    }
  }

  method CheckpointNs(maxN: int) returns (r: Result<seq<nat>, StressError>)
    ensures r.Ok? <==> maxN >= 1
    ensures r.Ok? ==> (forall i | 0 <= i < |r.value| :: r.value[i] == Checkpoint(i) <= maxN) && Checkpoint(|r.value|) > maxN
  {
    if maxN < 1 {
      return Err(BadMaxN);
    }
    var out: seq<nat> := [];
    var n := 1;
    while n <= maxN
      invariant n == Checkpoint(|out|) && n >= 1
      invariant forall i | 0 <= i < |out| :: out[i] == Checkpoint(i) <= maxN
      decreases maxN - n
    {
      StepsThroughCheckpoints(|out|);
      out := out + [n];
      n := NextCheckpoint(n);
    }
    r := Ok(out);
  }
}
