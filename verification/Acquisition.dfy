/**
 The multi-objective branch of the Pareto acquisition: the two non-dominated sorts
 (domination counts with peeling, and the two-objective sort-and-sweep), both proved
 against the fronts of module `Pareto`, and the selection of arms from those fronts.
 */
module Acquisition {
  import opened Pareto
  import Sorting
  import opened Wrappers

  ghost function Elements(s: seq<nat>): (r: set<nat>) {
    set x | x in s
  }

  ghost predicate Distinct(s: seq<nat>) {
    forall i, j | 0 <= i < j < |s| :: s[i] != s[j]
  }

  /** `fronts` lists, front by front and without repetition, exactly the sets in `spec`. */
  ghost predicate SameFronts(fronts: seq<seq<nat>>, spec: seq<set<nat>>) {
    && |fronts| == |spec|
    && forall t | 0 <= t < |fronts| :: Elements(fronts[t]) == spec[t] && Distinct(fronts[t])
  }

  ghost function FrontSets(fronts: seq<seq<nat>>): (sets: seq<set<nat>>)
    ensures |sets| == |fronts| && forall t | 0 <= t < |fronts| :: sets[t] == Elements(fronts[t])
  {
    seq(|fronts|, t requires 0 <= t < |fronts| => Elements(fronts[t]))
  }

  /** Fronts like those of all rows are layered by who beats whom. */
  lemma SortIsLayered(y: Matrix, m: nat, fronts: seq<seq<nat>>)
    requires HasColumns(y, m) && SameFronts(fronts, Fronts(y, m, Range(|y|)))
    ensures Layered(y, FrontSets(fronts))
  {
    FrontsAreLayered(y, m);
    assert FrontSets(fronts) == Fronts(y, m, Range(|y|));
  }

  /** No other row is at least as good everywhere. */
  ghost predicate Unbeaten(y: Matrix, i: nat)
    requires i < |y|
  {
    forall j | 0 <= j < |y| && |y[j]| == |y[i]| && y[j] != y[i] :: exists k :: 0 <= k < |y[i]| && y[j][k] < y[i][k]
  }

  lemma FirstLayer(y: Matrix, fronts: seq<set<nat>>)
    requires Layered(y, fronts) && fronts != []
    ensures forall i: nat | i < |y| :: i in fronts[0] <==> Unbeaten(y, i)
  {
    forall i: nat | i < |y| ensures i in fronts[0] <==> Unbeaten(y, i) {
      assert Placed(fronts, |fronts|, i);
      var t :| 0 <= t < |fronts| && i in fronts[t];
      if t == 0 {
        forall j | 0 <= j < |y| && |y[j]| == |y[i]| && y[j] != y[i] ensures exists k :: 0 <= k < |y[i]| && y[j][k] < y[i][k] {
          assert !Beats(y, j, i) by {
            assert Beats(y, j, i) ==> Placed(fronts, 0, j);
          }
        }
      } else {
        assert PreviousBeats(y, fronts, t, i);
        var j :| j in fronts[t - 1] && Beats(y, j, i);
        assert fronts[0] !! fronts[t];
      }
    }
  }

  lemma DistinctSize(s: seq<nat>)
    requires Distinct(s)
    ensures |Elements(s)| == |s|
  {
    if s != [] {
      DistinctSize(s[1..]);
      assert Elements(s) == {s[0]} + Elements(s[1..]);
    }
  }

  lemma Push(s: seq<nat>, x: nat)
    requires Distinct(s) && x !in s
    ensures Distinct(s + [x]) && Elements(s + [x]) == Elements(s) + {x}
  {
  }

  // ---- Domination counts ---------------------------------------------------

  /** The comparison loop over objectives, leaving early at the first smaller one. */
  method CompareRows(y: Matrix, m: nat, i: nat, j: nat) returns (allGte: bool, anyGt: bool)
    requires HasColumns(y, m) && i < |y| && j < |y|
    ensures allGte <==> forall k | 0 <= k < m :: y[i][k] >= y[j][k]
    ensures allGte && anyGt <==> Dominates(y, m, i, j)
    ensures allGte ==> (anyGt <==> y[i] != y[j])
  {
    allGte, anyGt := true, false;
    var k := 0;
    while k < m
      invariant k <= m
      invariant allGte && forall l | 0 <= l < k :: y[i][l] >= y[j][l]
      invariant anyGt <==> exists l | 0 <= l < k :: y[i][l] > y[j][l]
    {
      if y[i][k] < y[j][k] {
        allGte := false;
        break;
      }
      if y[i][k] > y[j][k] {
        anyGt := true;
      }
      k := k + 1;
    }
  }

  /** Who dominates whom; the second comparison only runs when the first one failed. */
  method ClassifyPair(y: Matrix, m: nat, i: nat, j: nat) returns (beats: bool, beaten: bool)
    requires HasColumns(y, m) && i < |y| && j < |y|
    ensures beats <==> Dominates(y, m, i, j)
    ensures beaten <==> Dominates(y, m, j, i)
  {
    beats, beaten := false, false;
    var allGte, anyGt := CompareRows(y, m, i, j);
    if allGte && anyGt {
      beats := true;
    } else if !allGte {
      var jGte, jGt := CompareRows(y, m, j, i);
      beaten := jGte && jGt;
    }
  }

  ghost function DominatedIn(y: Matrix, m: nat, s: set<nat>, i: nat): (d: set<nat>)
    requires HasColumns(y, m) && Within(y, s) && i < |y|
  {
    set x | x in s && Dominates(y, m, i, x)
  }

  lemma NextDominator(y: Matrix, m: nat, s: set<nat>, j: nat, i: nat)
    requires HasColumns(y, m) && Within(y, s) && j < |y| && i < |y| && j !in s
    ensures |DominatorsIn(y, m, s + {j}, i)|
         == |DominatorsIn(y, m, s, i)| + (if Dominates(y, m, j, i) then 1 else 0)
  {
    var was, now := DominatorsIn(y, m, s, i), DominatorsIn(y, m, s + {j}, i);
    if Dominates(y, m, j, i) {
      assert now == was + {j};
    } else {
      assert now == was;
    }
  }

  lemma NextDominated(y: Matrix, m: nat, s: set<nat>, j: nat, i: nat)
    requires HasColumns(y, m) && Within(y, s) && j < |y| && i < |y|
    ensures DominatedIn(y, m, s + {j}, i)
         == DominatedIn(y, m, s, i) + (if Dominates(y, m, i, j) then {j} else {})
  {
  }

  /** What row `i` of the domination table holds once it has been compared with `seen`. */
  ghost predicate IsRow(y: Matrix, m: nat, i: nat, seen: set<nat>, dominated: seq<nat>, count: nat)
    requires HasColumns(y, m) && Within(y, seen) && i < |y|
  {
    && Distinct(dominated) && Elements(dominated) == DominatedIn(y, m, seen, i)
    && count == |DominatorsIn(y, m, seen, i)|
  }

  method CompareNext(y: Matrix, m: nat, i: nat, j: nat, dominated: seq<nat>, count: nat, ghost seen: set<nat>)
    returns (dominated': seq<nat>, count': nat)
    requires HasColumns(y, m) && Within(y, seen) && i < |y| && j < |y| && j !in seen
    requires IsRow(y, m, i, seen, dominated, count)
    ensures IsRow(y, m, i, seen + {j}, dominated', count')
  {
    dominated', count' := dominated, count;
    NextDominator(y, m, seen, j, i);
    NextDominated(y, m, seen, j, i);
    if i == j {
      DominanceIsStrictOrder(y, m, i, i, i);
      return;
    }
    assert j !in Elements(dominated);
    Push(dominated, j);
    var beats, beaten := ClassifyPair(y, m, i, j);
    if beats {
      dominated' := dominated + [j];
    }
    if beaten {
      count' := count + 1;
    }
  }

  /** Row `i` of the domination table: the candidates it dominates and how many dominate it. */
  method DominationRow(y: Matrix, m: nat, i: nat) returns (dominated: seq<nat>, count: nat)
    requires HasColumns(y, m) && i < |y|
    ensures IsRow(y, m, i, Range(|y|), dominated, count)
  {
    dominated, count := [], 0;
    ghost var seen: set<nat> := {};
    for j := 0 to |y|
      invariant forall x: nat :: x in seen <==> x < j
      invariant IsRow(y, m, i, seen, dominated, count)
    {
      dominated, count := CompareNext(y, m, i, j, dominated, count, seen);
      seen := seen + {j};
    }
    assert seen == Range(|y|);
  }

  /** The domination table: row `i` lists whom `i` dominates. */
  ghost predicate IsTable(y: Matrix, m: nat, dominated: seq<seq<nat>>)
    requires HasColumns(y, m)
  {
    && |dominated| == |y|
    && forall i | 0 <= i < |y| ::
         Distinct(dominated[i]) && Elements(dominated[i]) == DominatedIn(y, m, Range(|y|), i)
  }

  /** Every candidate's counter is the number of its dominators still in `live`. */
  ghost predicate Counts(y: Matrix, m: nat, live: set<nat>, count: seq<nat>)
    requires HasColumns(y, m) && Within(y, live)
  {
    && |count| == |y|
    && forall j | 0 <= j < |y| :: count[j] == |DominatorsIn(y, m, live, j)|
  }

  /** Whoever has been peeled has no dominator left. */
  ghost predicate PeeledAbove(y: Matrix, m: nat, rest: set<nat>)
    requires HasColumns(y, m) && Within(y, rest)
  {
    forall j | 0 <= j < |y| && j !in rest :: DominatorsIn(y, m, rest, j) == {}
  }

  lemma DominatorLeaves(y: Matrix, m: nat, live: set<nat>, i: nat, j: nat)
    requires HasColumns(y, m) && Within(y, live) && i in live && j < |y|
    ensures |DominatorsIn(y, m, live - {i}, j)| == |DominatorsIn(y, m, live, j)| - (if Dominates(y, m, i, j) then 1 else 0)
  {
    var was, now := DominatorsIn(y, m, live, j), DominatorsIn(y, m, live - {i}, j);
    assert now == was - {i};
  }

  /** Lowers the counter of everyone `i` dominates; whoever reaches zero joins the next front. */
  method Release(y: Matrix, m: nat, dominated: seq<seq<nat>>, count: array<nat>, i: nat,
                 next: seq<nat>, ghost rest: set<nat>, ghost live: set<nat>)
    returns (next': seq<nat>)
    requires HasColumns(y, m) && Within(y, rest) && live <= rest && i in live
    requires IsTable(y, m, dominated) && Counts(y, m, live, count[..])
    requires Distinct(next)
    requires forall j: nat :: j in next <==> j < |y| && DominatorsIn(y, m, rest, j) != {} && count[j] == 0
    modifies count
    ensures Counts(y, m, live - {i}, count[..])
    ensures Distinct(next')
    ensures forall j: nat :: j in next' <==> j < |y| && DominatorsIn(y, m, rest, j) != {} && count[j] == 0
  {
    next' := next;
    assert |count[..]| == |y|;
    forall j | 0 <= j < |y| ensures count[j] == |DominatorsIn(y, m, live, j)| {
      assert count[j] == count[..][j];
    }
    for b := 0 to |dominated[i]|
      invariant forall j | 0 <= j < |y| ::
          count[j] == |DominatorsIn(y, m, live, j)| - (if j in dominated[i][..b] then 1 else 0)
      invariant Distinct(next')
      invariant forall j: nat :: j in next' <==> j < |y| && DominatorsIn(y, m, rest, j) != {} && count[j] == 0
    {
      var j := dominated[i][b];
      assert j in Elements(dominated[i]);
      assert i in DominatorsIn(y, m, live, j) && i in DominatorsIn(y, m, rest, j);
      assert j !in dominated[i][..b];
      assert dominated[i][..b + 1] == dominated[i][..b] + [j];
      count[j] := count[j] - 1;
      if count[j] == 0 {
        next' := next' + [j];
      }
    }
    assert dominated[i][..|dominated[i]|] == dominated[i];
    forall j | 0 <= j < |y| ensures count[..][j] == |DominatorsIn(y, m, live - {i}, j)| {
      DominatorLeaves(y, m, live, i, j);
      assert j in dominated[i] <==> j in Elements(dominated[i]);
    }
  }

  lemma PeelKeepsAbove(y: Matrix, m: nat, rest: set<nat>)
    requires HasColumns(y, m) && Within(y, rest) && PeeledAbove(y, m, rest)
    ensures PeeledAbove(y, m, rest - Maxima(y, m, rest))
    ensures forall j | 0 <= j < |y| :: j in Maxima(y, m, rest - Maxima(y, m, rest)) <==>
              DominatorsIn(y, m, rest, j) != {} && DominatorsIn(y, m, rest - Maxima(y, m, rest), j) == {}
  {
    var after := rest - Maxima(y, m, rest);
    forall j | 0 <= j < |y| ensures DominatorsIn(y, m, after, j) <= DominatorsIn(y, m, rest, j) {
    }
  }

  lemma ReleasedAreMaxima(y: Matrix, m: nat, rest: set<nat>, next: seq<nat>)
    requires HasColumns(y, m) && Within(y, rest) && PeeledAbove(y, m, rest)
    requires forall j: nat :: j in next <==> j < |y| && DominatorsIn(y, m, rest, j) != {}
                                             && DominatorsIn(y, m, rest - Maxima(y, m, rest), j) == {}
    ensures Elements(next) == Maxima(y, m, rest - Maxima(y, m, rest))
  {
    PeelKeepsAbove(y, m, rest);
    var next', maxima := Elements(next), Maxima(y, m, rest - Maxima(y, m, rest));
    forall j: nat ensures j in next' <==> j in maxima {
      if j < |y| {
        assert j in maxima <==> DominatorsIn(y, m, rest, j) != {} && DominatorsIn(y, m, rest - Maxima(y, m, rest), j) == {};
      }
    }
  }

  /** One round: releases everyone the current front dominates and returns the next front. */
  method PeelFront(y: Matrix, m: nat, dominated: seq<seq<nat>>, count: array<nat>, current: seq<nat>, ghost rest: set<nat>)
    returns (next: seq<nat>)
    requires HasColumns(y, m) && Within(y, rest) && PeeledAbove(y, m, rest)
    requires IsTable(y, m, dominated) && Counts(y, m, rest, count[..])
    requires Distinct(current) && Elements(current) == Maxima(y, m, rest)
    modifies count
    ensures Counts(y, m, rest - Maxima(y, m, rest), count[..])
    ensures Distinct(next) && Elements(next) == Maxima(y, m, rest - Maxima(y, m, rest))
  {
    next := [];
    ghost var live := rest;
    assert forall j | 0 <= j < |y| && DominatorsIn(y, m, rest, j) != {} :: count[..][j] == count[j] != 0;
    for a := 0 to |current|
      invariant live == rest - Elements(current[..a])
      invariant Counts(y, m, live, count[..])
      invariant Distinct(next)
      invariant forall j: nat :: j in next <==> j < |y| && DominatorsIn(y, m, rest, j) != {} && count[j] == 0
    {
      var i := current[a];
      assert i in Elements(current) && i !in current[..a];
      assert current[..a + 1] == current[..a] + [i];
      next := Release(y, m, dominated, count, i, next, rest, live);
      live := live - {i};
    }
    assert current[..|current|] == current;
    forall j | 0 <= j < |y| ensures count[j] == 0 <==> DominatorsIn(y, m, live, j) == {} {
      assert count[j] == count[..][j];
    }
    ReleasedAreMaxima(y, m, rest, next);
  }

  /** The fronts found so far are the first ones, and the remaining ones are those of `rest`. */
  ghost predicate Peeled(y: Matrix, m: nat, all: seq<set<nat>>, fronts: seq<seq<nat>>, rest: set<nat>)
    requires HasColumns(y, m) && Within(y, rest)
  {
    && |fronts| <= |all| && SameFronts(fronts, all[..|fronts|])
    && all[|fronts|..] == Fronts(y, m, rest)
  }

  lemma FrontsCons(y: Matrix, m: nat, all: seq<set<nat>>, fronts: seq<seq<nat>>, front: seq<nat>, rest: set<nat>)
    requires HasColumns(y, m) && Within(y, rest) && rest != {} && Peeled(y, m, all, fronts, rest)
    requires Distinct(front) && Elements(front) == Maxima(y, m, rest)
    ensures Peeled(y, m, all, fronts + [front], rest - Maxima(y, m, rest))
  {
    assert Fronts(y, m, rest)[0] == all[|fronts|];
    assert Fronts(y, m, rest)[1..] == all[|fronts| + 1..];
  }

  lemma AllPeeled(y: Matrix, m: nat, all: seq<set<nat>>, fronts: seq<seq<nat>>, rest: set<nat>)
    requires HasColumns(y, m) && Within(y, rest) && Peeled(y, m, all, fronts, rest)
    requires Maxima(y, m, rest) == {}
    ensures SameFronts(fronts, all)
  {
    if rest != {} {
      MaximaNonempty(y, m, rest);
    }
    assert all[..|fronts|] == all;
  }

  /** The whole table, and the counters as the comparisons leave them. */
  method DominationTable(y: Matrix, m: nat, count: array<nat>) returns (dominated: seq<seq<nat>>)
    requires HasColumns(y, m) && count.Length == |y|
    modifies count
    ensures IsTable(y, m, dominated) && Counts(y, m, Range(|y|), count[..])
  {
    dominated := [];
    for i := 0 to |y|
      invariant |dominated| == i
      invariant forall a | 0 <= a < i :: IsRow(y, m, a, Range(|y|), dominated[a], count[a])
    {
      var row, c := DominationRow(y, m, i);
      dominated, count[i] := dominated + [row], c;
    }
  }

  /** The first front: the candidates nobody dominates. */
  method Undominated(y: Matrix, m: nat, count: array<nat>) returns (front: seq<nat>)
    requires HasColumns(y, m) && Counts(y, m, Range(|y|), count[..])
    ensures Distinct(front) && Elements(front) == Maxima(y, m, Range(|y|))
  {
    front := [];
    for i := 0 to |y|
      invariant Distinct(front)
      invariant forall x: nat :: x in front <==> x < i && count[x] == 0
    {
      if count[i] == 0 {
        front := front + [i];
      }
    }
    ghost var maxima := Maxima(y, m, Range(|y|));
    forall x: nat ensures x in Elements(front) <==> x in maxima {
      if x < |y| {
        assert count[x] == count[..][x];
      }
    }
  }

  /** The sort for any number of objectives other than two. Every decrement is of a positive
      counter, because the counter is the number of dominators not yet peeled. */
  method NonDominSortGeneral(y: Matrix, m: nat) returns (fronts: seq<seq<nat>>)
    requires HasColumns(y, m)
    ensures SameFronts(fronts, Fronts(y, m, Range(|y|)))
    ensures Layered(y, FrontSets(fronts))
    ensures fronts != [] ==> forall i: nat | i < |y| :: i in fronts[0] <==> Unbeaten(y, i)
  {
    fronts := [];
    if |y| == 0 {
      SortIsLayered(y, m, fronts);
      return;
    }
    var count := new nat[|y|];
    var dominated := DominationTable(y, m, count);
    var current := Undominated(y, m, count);
    ghost var rest := Range(|y|);
    ghost var all := Fronts(y, m, rest);
    while current != []
      invariant Within(y, rest) && PeeledAbove(y, m, rest) && Counts(y, m, rest, count[..])
      invariant Distinct(current) && Elements(current) == Maxima(y, m, rest)
      invariant Peeled(y, m, all, fronts, rest)
      decreases |rest|
    {
      assert current[0] in Elements(current);
      MaximaNonempty(y, m, rest);
      FrontsCons(y, m, all, fronts, current, rest);
      var next := PeelFront(y, m, dominated, count, current, rest);
      PeelKeepsAbove(y, m, rest);
      rest := rest - Maxima(y, m, rest);
      fronts := fronts + [current];
      current := next;
    }
    AllPeeled(y, m, all, fronts, rest);
    SortIsLayered(y, m, fronts);
    FirstLayer(y, FrontSets(fronts));
  }

  // ---- Two objectives: sort and sweep --------------------------------------

  /** Just enough of a float for the sweep's trackers, which start at -inf and NaN. */
  datatype Float = NegInf | NaN | Finite(value: real)

  predicate Exceeds(v: real, bound: Float) {
    bound.NegInf? || (bound.Finite? && v > bound.value)
  }

  predicate EqualTo(v: real, bound: Float) {
    bound.Finite? && v == bound.value
  }

  function Objective(y: Matrix, i: nat, k: nat): real {
    if i < |y| && k < |y[i]| then y[i][k] else 0.0
  }

  /** Objective 0 descending, then objective 1 descending. */
  predicate SweepOrder(y: Matrix, i: nat, j: nat) {
    || Objective(y, i, 0) > Objective(y, j, 0)
    || (Objective(y, i, 0) == Objective(y, j, 0) && Objective(y, i, 1) >= Objective(y, j, 1))
  }

  lemma Dominates2d(y: Matrix, i: nat, j: nat)
    requires HasColumns(y, 2) && i < |y| && j < |y|
    ensures Dominates(y, 2, i, j) <==>
      && y[i][0] >= y[j][0] && y[i][1] >= y[j][1] && (y[i][0] > y[j][0] || y[i][1] > y[j][1])
  {
    if y[i][0] >= y[j][0] && y[i][1] >= y[j][1] && (y[i][0] > y[j][0] || y[i][1] > y[j][1]) {
      if y[i][0] > y[j][0] {
        assert Dominates(y, 2, i, j);
      }
    }
    if Dominates(y, 2, i, j) {
      var k :| 0 <= k < 2 && y[i][k] > y[j][k];
      assert k == 0 || k == 1;
    }
  }

  /** A duplicate-free sweep order over existing candidates. */
  ghost predicate Swept(y: Matrix, sorted: seq<nat>)
    requires HasColumns(y, 2)
  {
    && (forall p | 0 <= p < |sorted| :: sorted[p] < |y|)
    && Distinct(sorted)
    && Sorting.Sorted((i, j) => SweepOrder(y, i, j), sorted)
  }

  /** The trackers after sweeping the first `p`: the best second objective, and the first point that reached it. */
  ghost predicate Tracks(y: Matrix, sorted: seq<nat>, p: nat, best: Float, last0: Float, last1: Float)
    requires HasColumns(y, 2) && Swept(y, sorted) && p <= |sorted|
  {
    if p == 0 then
      best == NegInf && last0 == NaN && last1 == NaN
    else
      && best.Finite? && last0.Finite? && last1 == best
      && (forall q | 0 <= q < p :: Below(y, sorted[q], best.value, last0.value))
      && (exists q :: 0 <= q < p && Attains(y, sorted[q], best.value, last0.value))
  }

  ghost predicate Below(y: Matrix, i: nat, best: real, first: real)
    requires HasColumns(y, 2) && i < |y|
  {
    y[i][1] <= best && (y[i][1] == best ==> y[i][0] <= first)
  }

  ghost predicate Attains(y: Matrix, i: nat, best: real, first: real)
    requires HasColumns(y, 2) && i < |y|
  {
    y[i][1] == best && y[i][0] == first
  }

  predicate Keeps(v0: real, v1: real, best: Float, last0: Float, last1: Float) {
    Exceeds(v1, best) || (EqualTo(v1, best) && EqualTo(v0, last0) && EqualTo(v1, last1))
  }

  /** The sweep's test at position `p` is exactly non-domination within the whole remaining set. */
  lemma SweepTest(y: Matrix, sorted: seq<nat>, p: nat, best: Float, last0: Float, last1: Float)
    requires HasColumns(y, 2) && Swept(y, sorted) && p < |sorted|
    requires Tracks(y, sorted, p, best, last0, last1)
    ensures sorted[p] in Maxima(y, 2, Elements(sorted))
       <==> Keeps(y[sorted[p]][0], y[sorted[p]][1], best, last0, last1)
  {
    var i := sorted[p];
    if Keeps(y[i][0], y[i][1], best, last0, last1) {
      KeptIsMaximal(y, sorted, p, best, last0, last1);
    } else {
      var q :| 0 <= q < p && Attains(y, sorted[q], best.value, last0.value);
      BeforeInSweep(y, sorted, p, q);
      Dominates2d(y, sorted[q], i);
      assert sorted[q] in DominatorsIn(y, 2, Elements(sorted), i);
    }
  }

  lemma KeptIsMaximal(y: Matrix, sorted: seq<nat>, p: nat, best: Float, last0: Float, last1: Float)
    requires HasColumns(y, 2) && Swept(y, sorted) && p < |sorted|
    requires Tracks(y, sorted, p, best, last0, last1)
    requires Keeps(y[sorted[p]][0], y[sorted[p]][1], best, last0, last1)
    ensures sorted[p] in Maxima(y, 2, Elements(sorted))
  {
    forall q | 0 <= q < |sorted| ensures !Dominates(y, 2, sorted[q], sorted[p]) {
      Dominates2d(y, sorted[q], sorted[p]);
      BeforeInSweep(y, sorted, p, q);
      assert q < p ==> Below(y, sorted[q], best.value, last0.value);
    }
  }

  lemma BeforeInSweep(y: Matrix, sorted: seq<nat>, p: nat, q: nat)
    requires HasColumns(y, 2) && Swept(y, sorted) && p < |sorted| && q < |sorted|
    ensures q < p ==> y[sorted[q]][0] >= y[sorted[p]][0]
    ensures Dominates(y, 2, sorted[q], sorted[p]) ==> q < p
  {
    var le := (i, j) => SweepOrder(y, i, j);
    Dominates2d(y, sorted[q], sorted[p]);
    if q < p {
      assert le(sorted[q], sorted[p]);
    } else if p < q {
      assert le(sorted[p], sorted[q]);
    }
  }

  lemma TrackNext(y: Matrix, sorted: seq<nat>, p: nat, best: Float, last0: Float, last1: Float)
    requires HasColumns(y, 2) && Swept(y, sorted) && p < |sorted|
    requires Tracks(y, sorted, p, best, last0, last1)
    ensures var v0, v1 := y[sorted[p]][0], y[sorted[p]][1];
      if Exceeds(v1, best) then Tracks(y, sorted, p + 1, Finite(v1), Finite(v0), Finite(v1))
      else Tracks(y, sorted, p + 1, best, last0, last1)
  {
    var i := sorted[p];
    if Exceeds(y[i][1], best) {
      assert Attains(y, sorted[p], y[i][1], y[i][0]);
    } else {
      var q :| 0 <= q < p && Attains(y, sorted[q], best.value, last0.value);
      BeforeInSweep(y, sorted, p, q);
    }
  }

  lemma SweepSoFar(y: Matrix, sorted: seq<nat>, p: nat)
    requires HasColumns(y, 2) && Swept(y, sorted) && p < |sorted|
    ensures Elements(sorted[..p + 1]) == Elements(sorted[..p]) + {sorted[p]}
    ensures sorted[p] !in Elements(sorted[..p])
  {
    assert sorted[..p + 1] == sorted[..p] + [sorted[p]];
  }

  /** Extracts the current front from the sorted remaining candidates in one pass. */
  method SweepFront(y: Matrix, sorted: seq<nat>) returns (front: seq<nat>)
    requires HasColumns(y, 2) && Swept(y, sorted)
    ensures Distinct(front) && Elements(front) == Maxima(y, 2, Elements(sorted))
  {
    front := [];
    var best, last0, last1 := NegInf, NaN, NaN;
    ghost var maxima := Maxima(y, 2, Elements(sorted));
    for p := 0 to |sorted|
      invariant Tracks(y, sorted, p, best, last0, last1)
      invariant Distinct(front)
      invariant Elements(front) == Elements(sorted[..p]) * maxima
    {
      var idx := sorted[p];
      SweepSoFar(y, sorted, p);
      SweepTest(y, sorted, p, best, last0, last1);
      TrackNext(y, sorted, p, best, last0, last1);
      assert idx !in Elements(front);
      Push(front, idx);
      var obj0, obj1 := y[idx][0], y[idx][1];
      if Exceeds(obj1, best) {
        front := front + [idx];
        best, last0, last1 := Finite(obj1), Finite(obj0), Finite(obj1);
      } else if EqualTo(obj1, best) && EqualTo(obj0, last0) && EqualTo(obj1, last1) {
        front := front + [idx];
      }
    }
    assert sorted[..|sorted|] == sorted;
  }

  /** Keeps, in order, the entries whose flag is down. */
  method Retain(s: seq<nat>, drop: array<bool>) returns (kept: seq<nat>)
    requires Distinct(s) && forall x | x in s :: x < drop.Length
    ensures Distinct(kept) && Elements(kept) == set x | x in s && !drop[x]
  {
    kept := [];
    for p := 0 to |s|
      invariant Distinct(kept)
      invariant forall x | x in s[..p] :: x in s
      invariant Elements(kept) == set x | x in s[..p] && !drop[x]
    {
      assert s[p] in s;
      assert s[..p + 1] == s[..p] + [s[p]];
      assert s[p] !in s[..p];
      if !drop[s[p]] {
        assert s[p] !in Elements(kept);
        Push(kept, s[p]);
        kept := kept + [s[p]];
      }
    }
    assert s[..|s|] == s;
  }

  method RemoveFront(n: nat, remaining: seq<nat>, front: seq<nat>) returns (kept: seq<nat>)
    requires Distinct(remaining) && (forall x | x in remaining :: x < n) && forall x | x in front :: x < n
    ensures Distinct(kept) && Elements(kept) == Elements(remaining) - Elements(front)
  {
    var inFront := new bool[n](_ => false);
    for p := 0 to |front|
      invariant forall x | 0 <= x < n :: inFront[x] <==> x in front[..p]
    {
      assert front[..p + 1] == front[..p] + [front[p]];
      assert front[p] in front;
      inFront[front[p]] := true;
    }
    assert front[..|front|] == front;
    kept := Retain(remaining, inFront);
  }

  lemma SweepOrderIsPreorder(y: Matrix)
    ensures Sorting.TotalPreorder((i, j) => SweepOrder(y, i, j))
  {
  }

  lemma SortedStillDistinct(s: seq<nat>, r: seq<nat>)
    requires Distinct(s) && multiset(r) == multiset(s)
    ensures Distinct(r) && Elements(r) == Elements(s)
  {
    Sorting.StillDistinct(s, r);
  }

  /** One round of the two-objective sort: sort what remains, sweep out its front, remove it. */
  method PeelOnce2d(y: Matrix, remaining: seq<nat>) returns (front: seq<nat>, kept: seq<nat>)
    requires HasColumns(y, 2) && Distinct(remaining) && Within(y, Elements(remaining))
    ensures Distinct(front) && Elements(front) == Maxima(y, 2, Elements(remaining))
    ensures Distinct(kept) && Elements(kept) == Elements(remaining) - Elements(front)
  {
    SweepOrderIsPreorder(y);
    var sorted: seq<nat> := Sorting.Sort((i: nat, j: nat) => SweepOrder(y, i, j), remaining);
    SortedStillDistinct(remaining, sorted);
    forall i | i in sorted ensures i < |y| {
      assert i in Elements(sorted);
    }
    forall p | 0 <= p < |sorted| ensures sorted[p] < |y| {
      assert sorted[p] in sorted;
    }
    front := SweepFront(y, sorted);
    forall i | i in front ensures i < |y| {
      assert i in Elements(front);
    }
    kept := RemoveFront(|y|, sorted, front);
  }

  /** The two-objective sort, for tables with two columns. */
  method NonDominSort2d(y: Matrix) returns (fronts: seq<seq<nat>>)
    requires HasColumns(y, 2)
    ensures SameFronts(fronts, Fronts(y, 2, Range(|y|)))
  {
    fronts := [];
    if |y| == 0 {
      return;
    }
    var remaining: seq<nat> := seq(|y|, i requires i >= 0 => i);
    ghost var all := Fronts(y, 2, Range(|y|));
    AllIndices(remaining);
    while remaining != []
      invariant Distinct(remaining) && Within(y, Elements(remaining))
      invariant Peeled(y, 2, all, fronts, Elements(remaining))
      decreases |Elements(remaining)|
    {
      ghost var rest := Elements(remaining);
      assert remaining[0] in rest;
      MaximaNonempty(y, 2, rest);
      var front, kept := PeelOnce2d(y, remaining);
      FrontsCons(y, 2, all, fronts, front, rest);
      remaining := kept;
      fronts := fronts + [front];
    }
    AllPeeled(y, 2, all, fronts, {});
  }

  lemma AllIndices(s: seq<nat>)
    requires forall i | 0 <= i < |s| :: s[i] == i
    ensures Distinct(s) && Elements(s) == Range(|s|)
  {
    forall x | x in Range(|s|) ensures x in Elements(s) {
      assert s[x] == x;
    }
  }

  /** The dispatch: two columns take the sweep, every other width the domination counts. */
  method NonDominSort(y: Matrix, m: nat) returns (fronts: seq<seq<nat>>)
    requires HasColumns(y, m)
    ensures SameFronts(fronts, Fronts(y, m, Range(|y|)))
    ensures Layered(y, FrontSets(fronts))
  {
    if m == 2 {
      fronts := NonDominSort2d(y);
    } else {
      fronts := NonDominSortGeneral(y, m);
    }
    SortIsLayered(y, m, fronts);
  }

  /** Run on the same two-objective table, the two algorithms return the same fronts. */
  method SortsAgree(y: Matrix) returns (general: seq<seq<nat>>, fast: seq<seq<nat>>)
    requires HasColumns(y, 2)
    ensures |general| == |fast|
    ensures forall t | 0 <= t < |general| ::
              |general[t]| == |fast[t]| && Elements(general[t]) == Elements(fast[t])
  {
    general := NonDominSortGeneral(y, 2);
    fast := NonDominSort2d(y);
    forall t | 0 <= t < |general| ensures |general[t]| == |fast[t]| {
      DistinctSize(general[t]);
      DistinctSize(fast[t]);
    }
  }

  // ---- Selection of arms ---------------------------------------------------

  datatype AcquisitionError = NoCandidates | InvalidParameter

  /** Whoever is selected from a front comes after every member of all earlier fronts. */
  ghost predicate FrontByFront(selected: seq<nat>, spec: seq<set<nat>>) {
    forall p, t, u | 0 <= p < |selected| && 0 <= t < u < |spec| && selected[p] in spec[u] ::
      spec[t] <= Elements(selected[..p])
  }

  lemma {:induction false} UnionTakesNext(spec: seq<set<nat>>, t: nat)
    requires t < |spec|
    ensures Union(spec[..t + 1]) == Union(spec[..t]) + spec[t]
  {
    if t == 0 {
      assert Union(spec[..1][1..]) == {};
    } else {
      UnionTakesNext(spec[1..], t - 1);
      assert spec[..t + 1][1..] == spec[1..][..t] && spec[..t][1..] == spec[1..][..t - 1];
    }
  }

  lemma {:induction false} InSomePart(spec: seq<set<nat>>, x: nat) returns (t: nat)
    requires x in Union(spec)
    ensures t < |spec| && x in spec[t]
  {
    if x in spec[0] {
      t := 0;
    } else {
      t := InSomePart(spec[1..], x);
      t := t + 1;
    }
  }

  lemma NextPartIsNew(spec: seq<set<nat>>, s: set<nat>, t: nat)
    requires Partitions(spec, s) && t < |spec|
    ensures Union(spec[..t]) !! spec[t]
  {
    forall x | x in Union(spec[..t]) ensures x !in spec[t] {
      var e := InSomePart(spec[..t], x);
      assert spec[e] !! spec[t];
    }
  }

  lemma ExtendSelection(spec: seq<set<nat>>, s: set<nat>, t: nat, selected: seq<nat>, add: seq<nat>)
    requires Partitions(spec, s) && t < |spec|
    requires Distinct(selected) && FrontByFront(selected, spec) && Elements(selected) == Union(spec[..t])
    requires Distinct(add) && Elements(add) <= spec[t]
    ensures Distinct(selected + add) && FrontByFront(selected + add, spec)
    ensures Elements(selected + add) == Elements(selected) + Elements(add)
    ensures Elements(selected + add) <= Union(spec[..t + 1])
    ensures Elements(add) == spec[t] ==> Elements(selected + add) == Union(spec[..t + 1])
  {
    UnionTakesNext(spec, t);
    NextPartIsNew(spec, s, t);
    var all := selected + add;
    forall i, j | 0 <= i < j < |all| ensures all[i] != all[j] {
      if i < |selected| <= j {
        assert all[i] in Elements(selected) && add[j - |selected|] in Elements(add);
      }
    }
    forall p, e, u | 0 <= p < |all| && 0 <= e < u < |spec| && all[p] in spec[u]
      ensures spec[e] <= Elements(all[..p])
    {
      if p < |selected| {
        assert all[..p] == selected[..p];
      } else {
        assert add[p - |selected|] in Elements(add);
        assert u == t;
        assert all[..p] == selected + add[..p - |selected|];
        PartInUnion(spec[..t], e);
      }
    }
  }

  /** How far the loop over fronts has come before front `t`. */
  ghost predicate SelectedSoFar(spec: seq<set<nat>>, selected: seq<nat>, numArms: nat, t: nat)
    requires t <= |spec|
  {
    && Distinct(selected) && FrontByFront(selected, spec) && |selected| <= numArms
    && Elements(selected) <= Union(spec[..t])
    && (|selected| < numArms ==> Elements(selected) == Union(spec[..t]))
  }

  lemma StopEarly(spec: seq<set<nat>>, selected: seq<nat>, numArms: nat, t: nat)
    requires t <= |spec| && |selected| == numArms && SelectedSoFar(spec, selected, numArms, t)
    ensures SelectedSoFar(spec, selected, numArms, |spec|)
    decreases |spec| - t
  {
    if t < |spec| {
      UnionTakesNext(spec, t);
      StopEarly(spec, selected, numArms, t + 1);
    }
  }

  /** Takes whole fronts while they fit and a shuffled part of the first one that does not. */
  method TakeFromFronts(fronts: seq<seq<nat>>, numArms: nat, shuffle: seq<nat> -> seq<nat>,
                        ghost spec: seq<set<nat>>, ghost s: set<nat>)
    returns (selected: seq<nat>)
    requires forall f: seq<nat> :: multiset(shuffle(f)) == multiset(f)
    requires Partitions(spec, s) && SameFronts(fronts, spec)
    ensures SelectedSoFar(spec, selected, numArms, |spec|)
  {
    selected := [];
    for t := 0 to |fronts|
      invariant SelectedSoFar(spec, selected, numArms, t)
    {
      if |selected| >= numArms {
        StopEarly(spec, selected, numArms, t);
        return;
      }
      var remaining := numArms - |selected|;
      var add := fronts[t];
      if |add| > remaining {
        add := shuffle(add);
        SortedStillDistinct(fronts[t], add);
        Sorting.SameMultisetSameLength(fronts[t], add);
        assert forall x | x in add[..remaining] :: x in Elements(add);
        add := add[..remaining];
      }
      ExtendSelection(spec, s, t, selected, add);
      selected := selected + add;
    }
  }

  /** Whoever beats a selected candidate has been selected before it. */
  ghost predicate BetterFirst(y: Matrix, selected: seq<nat>) {
    forall p, j | 0 <= p < |selected| && Beats(y, j, selected[p]) :: j in selected[..p]
  }

  lemma SelectedBetterFirst(y: Matrix, selected: seq<nat>, spec: seq<set<nat>>)
    requires Layered(y, spec) && FrontByFront(selected, spec)
    ensures BetterFirst(y, selected)
  {
    forall p, j | 0 <= p < |selected| && Beats(y, j, selected[p]) ensures j in selected[..p] {
      assert Placed(spec, |spec|, selected[p]);
      var u :| 0 <= u < |spec| && selected[p] in spec[u];
      assert Placed(spec, u, j);
      var t :| 0 <= t < u && j in spec[t];
      assert spec[t] <= Elements(selected[..p]);
    }
  }

  /** The multi-objective branch of `select`; a single column is delegated elsewhere. */
  method Select(mu: Matrix, mCols: nat, se: Matrix, seCols: nat, numArms: nat, shuffle: seq<nat> -> seq<nat>)
    returns (r: Result<seq<nat>, AcquisitionError>)
    requires HasColumns(mu, mCols) && HasColumns(se, seCols) && mCols != 1
    requires forall f: seq<nat> :: multiset(shuffle(f)) == multiset(f)
    ensures r.Err? <==> mu == [] || (numArms > 0 && (|mu| != |se| || mCols != seCols))
    ensures r.Err? ==> r.error == if mu == [] then NoCandidates else InvalidParameter
    ensures r.Ok? ==>
      && |r.value| == Sorting.Min(numArms, |mu|) && Distinct(r.value) && (forall i | i in r.value :: i < |mu|)
      && FrontByFront(r.value, Fronts(mu, mCols, Range(|mu|)))
      && BetterFirst(mu, r.value)
  {
    if |mu| == 0 {
      return Err(NoCandidates);
    }
    if numArms == 0 {
      return Ok([]);
    }
    if |mu| != |se| || mCols != seCols {
      return Err(InvalidParameter);
    }
    var fronts := NonDominSort(mu, mCols);
    ghost var all := Range(|mu|);
    ghost var spec := Fronts(mu, mCols, all);
    FrontsPartition(mu, mCols, all);
    var selected := TakeFromFronts(fronts, numArms, shuffle, spec, all);
    assert spec[..|spec|] == spec;
    assert forall i | i in selected :: i in Elements(selected);
    DistinctSize(selected);
    Smaller(Elements(selected), all);
    FrontsAreLayered(mu, mCols);
    SelectedBetterFirst(mu, selected, spec);
    r := Ok(selected);
  }
}
