/**
 Candidate points: Latin hypercube designs, random subspace perturbations and the unit cube.
 Every random draw is an arbitrary input in its range.
 */
module Candidates {
  import opened Reals

  // ---- The unit cube -------------------------------------------------------

  function FromUnit(u: real, lower: real, upper: real): real {
    lower + Times(u, upper - lower)
  }

  /** A dimension without extent has everything in its middle. */
  function ToUnit(x: real, lower: real, upper: real): real {
    if upper - lower > 0.0 then Over(x - lower, upper - lower) else 0.5
  }

  /** The ends of the unit interval go to the bounds, and equal steps to equal steps. */
  lemma UnitIsStretched(u: real, v: real, lower: real, upper: real)
    ensures FromUnit(0.0, lower, upper) == lower && FromUnit(1.0, lower, upper) == upper
    ensures FromUnit(u, lower, upper) - FromUnit(v, lower, upper) == (u - v) * (upper - lower)
    ensures lower < upper ==> ToUnit(lower, lower, upper) == 0.0 && ToUnit(upper, lower, upper) == 1.0
  {
    TimesZero(upper - lower);
    TimesIs(u - v, upper - lower);
    TimesAdds(u - v, v, upper - lower);
    assert Times(1.0, upper - lower) == upper - lower;
    if lower < upper {
      OverIs(0.0, upper - lower, 0.0);
      OverIs(upper - lower, upper - lower, 1.0);
    }
  }

  /** There and back is the identity except in a dimension without extent, where only its middle survives:
      so it is the identity on all points within the bounds. */
  lemma ThereAndBackExactly(x: real, lower: real, upper: real)
    ensures FromUnit(ToUnit(x, lower, upper), lower, upper) == x
      <==> upper > lower || x == lower + Times(0.5, upper - lower)
    ensures lower <= x <= upper ==> FromUnit(ToUnit(x, lower, upper), lower, upper) == x
  {
    if upper > lower {
      OverTimes(x - lower, upper - lower);
    } else if lower == upper {
      TimesZero(0.5);
    }
  }

  // ---- Shuffling -----------------------------------------------------------

  function Swap(s: seq<nat>, i: nat, j: nat): (r: seq<nat>)
    requires i < |s| && j < |s|
    ensures |r| == |s|
  {
    s[i := s[j]][j := s[i]]
  }

  /** The shuffle from position `i` down to 1, with one choice for every position. */
  function Shuffled(s: seq<nat>, choices: seq<nat>, i: nat): (r: seq<nat>)
    requires i < |s| == |choices| || i == 0
    requires |s| == |choices| && forall k | 0 <= k < |choices| :: choices[k] <= k
    ensures |r| == |s|
    decreases i
  {
    if i == 0 then s else Shuffled(Swap(s, i, choices[i]), choices, i - 1)
  }

  /** Every number below the length, once. */
  ghost predicate IsPermutation(s: seq<nat>) {
    && (forall i | 0 <= i < |s| :: s[i] < |s|)
    && (forall i, j | 0 <= i < j < |s| :: s[i] != s[j])
    && (forall b: nat | b < |s| :: b in s)
  }

  lemma SwapKeeps(s: seq<nat>, i: nat, j: nat)
    requires IsPermutation(s) && i < |s| && j < |s|
    ensures IsPermutation(Swap(s, i, j))
  {
    var t := Swap(s, i, j);
    forall b: nat | b < |s| ensures b in t {
      assert b in s;
      var k :| 0 <= k < |s| && s[k] == b;
      assert t[if k == i then j else if k == j then i else k] == b;
    }
  }

  method FisherYates(n: nat, choices: seq<nat>) returns (perm: array<nat>)
    requires |choices| == n && forall k | 0 <= k < n :: choices[k] <= k
    ensures fresh(perm) && perm.Length == n && IsPermutation(perm[..])
    ensures perm[..] == Shuffled(Identity(n), choices, if n == 0 then 0 else n - 1)
  {
    perm := new nat[n](i => i);
    assert perm[..] == Identity(n);
    IdentityIsPermutation(n);
    if n == 0 {
      return;
    }
    var i: nat := n - 1;
    while i > 0
      invariant i < n && IsPermutation(perm[..])
      invariant Shuffled(perm[..], choices, i) == Shuffled(Identity(n), choices, n - 1)
    {
      ghost var before := perm[..];
      SwapKeeps(before, i, choices[i]);
      perm[i], perm[choices[i]] := perm[choices[i]], perm[i];
      assert perm[..] == Swap(before, i, choices[i]);
      i := i - 1;
    }
  }

  function Identity(n: nat): (s: seq<nat>)
    ensures |s| == n && forall i | 0 <= i < n :: s[i] == i
  {
    seq(n, i requires 0 <= i < n => i)
  }

  lemma IdentityIsPermutation(n: nat)
    ensures IsPermutation(Identity(n))
  {
    var s := Identity(n);
    forall b: nat | b < n ensures b in s {
      assert s[b] == b;
    }
  }

  /** Every order of the elements comes from some choices, so no design is out of reach. */
  lemma {:induction false} EveryOrderReachable(s: seq<nat>, target: seq<nat>, i: nat) returns (choices: seq<nat>)
    requires |target| == |s| > i && multiset(s[..i + 1]) == multiset(target[..i + 1]) && s[i + 1..] == target[i + 1..]
    ensures |choices| == |s| && (forall k | 0 <= k < |s| :: choices[k] <= k) && Shuffled(s, choices, i) == target
    decreases i
  {
    if i == 0 {
      choices := seq(|s|, _ => 0);
      assert s[..1] == [s[0]] && target[..1] == [target[0]];
      assert target[0] in multiset([s[0]]);
      assert s == [s[0]] + s[1..] && target == [target[0]] + target[1..];
    } else {
      var c := Find(s, target, i);
      var t := Swap(s, i, c);
      SwapMovesLast(s, target, i, c);
      var rest := EveryOrderReachable(t, target, i - 1);
      choices := rest[i := c];
      SameChoices(t, rest, choices, i - 1);
    }
  }

  lemma Find(s: seq<nat>, target: seq<nat>, i: nat) returns (c: nat)
    requires |target| == |s| > i && multiset(s[..i + 1]) == multiset(target[..i + 1])
    ensures c <= i && s[c] == target[i]
  {
    assert target[..i + 1][i] in multiset(target[..i + 1]);
    assert target[i] in s[..i + 1];
    c :| 0 <= c < i + 1 && s[..i + 1][c] == target[i];
  }

  lemma SwapMovesLast(s: seq<nat>, target: seq<nat>, i: nat, c: nat)
    requires |target| == |s| > i > 0 && multiset(s[..i + 1]) == multiset(target[..i + 1]) && s[i + 1..] == target[i + 1..]
    requires c <= i && s[c] == target[i]
    ensures var t := Swap(s, i, c); multiset(t[..i]) == multiset(target[..i]) && t[i..] == target[i..]
  {
    var t, head := Swap(s, i, c), s[..i + 1];
    assert t[..i + 1] == Swap(head, i, c);
    SwapSameMultiset(head, i, c);
    SameWithoutLast(t, target, i);
    assert t[i..] == [t[i]] + s[i + 1..] && target[i..] == [target[i]] + target[i + 1..];
  }

  lemma SameWithoutLast(t: seq<nat>, target: seq<nat>, i: nat)
    requires i < |t| == |target| && multiset(t[..i + 1]) == multiset(target[..i + 1]) && t[i] == target[i]
    ensures multiset(t[..i]) == multiset(target[..i])
  {
    assert t[..i + 1] == t[..i] + [t[i]] && target[..i + 1] == target[..i] + [target[i]];
    var a, b := multiset(t[..i]), multiset(target[..i]);
    assert a + multiset{t[i]} == b + multiset{target[i]};
    assert a == (a + multiset{t[i]}) - multiset{t[i]} && b == (b + multiset{t[i]}) - multiset{t[i]};
  }

  lemma SwapSameMultiset(s: seq<nat>, i: nat, j: nat)
    requires i < |s| && j < |s|
    ensures multiset(Swap(s, i, j)) == multiset(s)
  {
    var t: seq<nat>, once: seq<nat> := Swap(s, i, j), s[i := s[j]];
    forall x: nat ensures multiset(t)[x] == multiset(s)[x] {
      assert multiset(s[i := s[j]])[x] == multiset(s)[x] - (if s[i] == x then 1 else 0) + (if s[j] == x then 1 else 0);
    }
    assert multiset(t) == multiset(s);
  }

  lemma {:induction false} SameChoices(s: seq<nat>, a: seq<nat>, b: seq<nat>, i: nat)
    requires |a| == |b| == |s| > i && (forall k | 0 <= k < |s| :: a[k] <= k && b[k] <= k)
    requires forall k | 0 <= k <= i :: a[k] == b[k]
    ensures Shuffled(s, a, i) == Shuffled(s, b, i)
    decreases i
  {
    if i > 0 {
      SameChoices(Swap(s, i, a[i]), a, b, i - 1);
    }
  }

  /** Different choices give different orders: with as many choices as orders, every order has the same chance. */
  lemma {:induction false} ChoicesAreDetermined(s: seq<nat>, a: seq<nat>, b: seq<nat>, i: nat)
    requires IsPermutation(s) && |a| == |b| == |s| > i && (forall k | 0 <= k < |s| :: a[k] <= k && b[k] <= k)
    requires Shuffled(s, a, i) == Shuffled(s, b, i)
    ensures forall k | 1 <= k <= i :: a[k] == b[k]
    decreases i
  {
    hide IsPermutation;
    if i > 0 {
      SettledAbove(Swap(s, i, a[i]), a, i - 1, i);
      SettledAbove(Swap(s, i, b[i]), b, i - 1, i);
      OncePermuted(s, a[i], b[i]);
      SwapKeeps(s, i, a[i]);
      ChoicesAreDetermined(Swap(s, i, a[i]), a, b, i - 1);
    }
  }

  lemma OncePermuted(s: seq<nat>, i: nat, j: nat)
    requires IsPermutation(s) && i < |s| && j < |s| && s[i] == s[j]
    ensures i == j
  {
  }

  lemma {:induction false} SettledAbove(s: seq<nat>, choices: seq<nat>, i: nat, p: nat)
    requires |choices| == |s| && i < p < |s| && forall k | 0 <= k < |s| :: choices[k] <= k
    ensures Shuffled(s, choices, i)[p] == s[p]
    decreases i
  {
    if i > 0 {
      SettledAbove(Swap(s, i, choices[i]), choices, i - 1, p);
    }
  }

  // ---- Latin hypercube designs ---------------------------------------------

  /** `x` lies in the stratum `b` of `n` equal ones, counted from the lower bound. */
  predicate InStratum(x: real, lower: real, upper: real, n: nat, b: nat)
    requires n > 0
  {
    FromUnit(Over(b as real, n as real), lower, upper) <= x < FromUnit(Over((b + 1) as real, n as real), lower, upper)
  }

  /** The random draws of a design: the shuffle choices of every dimension, and an offset for every cell. */
  datatype Draws = Draws(choices: seq<seq<nat>>, offsets: seq<seq<real>>)

  ghost predicate ValidDraws(d: Draws, n: nat, dims: nat) {
    && |d.choices| == |d.offsets| == dims
    && (forall j | 0 <= j < dims :: ValidColumn(d.choices[j], d.offsets[j], n))
  }

  ghost predicate ValidColumn(choices: seq<nat>, offsets: seq<real>, n: nat) {
    && |choices| == |offsets| == n
    && (forall k | 0 <= k < n :: choices[k] <= k)
    && (forall k | 0 <= k < n :: 0.0 <= offsets[k] < 1.0)
  }

  /** Every stratum holds exactly one of the samples, and all samples lie within the bounds. */
  ghost predicate Latin(column: seq<real>, lower: real, upper: real) {
    && (forall i | 0 <= i < |column| :: lower <= column[i] < upper)
    && forall b: nat | b < |column| :: ExactlyOneIn(column, lower, upper, b)
  }

  ghost predicate ExactlyOneIn(column: seq<real>, lower: real, upper: real, b: nat) {
    && (exists i :: 0 <= i < |column| && InStratum(column[i], lower, upper, |column|, b))
    && (forall i, k | 0 <= i < k < |column| ::
        !(InStratum(column[i], lower, upper, |column|, b) && InStratum(column[k], lower, upper, |column|, b)))
  }

  /** A Latin column of the unit interval, stretched over the bounds whichever way they lie: in the bounds
      it is Latin again if they have an extent, and constant if they have none. */
  ghost predicate IsDesign(column: seq<real>, lower: real, upper: real) {
    && (exists units :: Latin(units, 0.0, 1.0) && Stretches(column, units, lower, upper))
    && (lower < upper ==> Latin(column, lower, upper))
    && (lower == upper ==> forall i | 0 <= i < |column| :: column[i] == lower)
  }

  ghost predicate Stretches(column: seq<real>, units: seq<real>, lower: real, upper: real) {
    |column| == |units| && forall i | 0 <= i < |column| :: column[i] == FromUnit(units[i], lower, upper)
  }

  /** Sample `i` lies as far into its stratum as its offset says. */
  ghost predicate OffsetSamples(column: seq<real>, lower: real, upper: real, strata: seq<nat>, offsets: seq<real>) {
    && |column| <= |strata| == |offsets|
    && forall i | 0 <= i < |column| :: column[i] == FromUnit(Over(strata[i] as real + offsets[i], |strata| as real), lower, upper)
  }

  /** The shuffle says which stratum that is. */
  ghost predicate AsDrawn(column: seq<real>, lower: real, upper: real, choices: seq<nat>, offsets: seq<real>)
    requires forall k | 0 <= k < |choices| :: choices[k] <= k
  {
    var n := |choices|;
    |column| == n && OffsetSamples(column, lower, upper, Shuffled(Identity(n), choices, if n == 0 then 0 else n - 1), offsets)
  }

  lemma OffsetInStratum(bin: nat, n: nat, offset: real)
    requires n > 0
    ensures var lo, hi := Over(bin as real, n as real), Over((bin + 1) as real, n as real);
      lo + Times(offset, hi - lo) == Over(bin as real + offset, n as real)
  {
    var lo, hi, d := Over(bin as real, n as real), Over((bin + 1) as real, n as real), n as real;
    OverTimes(bin as real, d);
    OverTimes((bin + 1) as real, d);
    TimesAdds(hi - lo, lo, d);
    TimesAssociates(offset, hi - lo, d);
    assert Times(offset, 1.0) == offset;
    TimesAdds(lo, Times(offset, hi - lo), d);
    OverIs(bin as real + offset, d, lo + Times(offset, hi - lo));
  }

  method LhdColumn(n: nat, lower: real, upper: real, choices: seq<nat>, offsets: seq<real>) returns (column: seq<real>)
    requires ValidColumn(choices, offsets, n)
    ensures |column| == n && IsDesign(column, lower, upper)
    ensures AsDrawn(column, lower, upper, choices, offsets)
  {
    hide IsDesign, AsDrawn, SamplesSoFar;
    var perm := FisherYates(n, choices);
    ghost var p := perm[..];
    column := [];
    ghost var units: seq<real> := [];
    NoSamples(lower, upper, p, offsets);
    for i := 0 to n
      invariant |column| == |units| == i && perm[..] == p
      invariant SamplesSoFar(column, units, lower, upper, p, offsets)
    {
      var x, unit := LhdSample(perm[i], n, offsets[i], lower, upper);
      AddSample(column, units, lower, upper, p, offsets, x, unit);
      column := column + [x];
      units := units + [unit];
    }
    SamplesAreDesign(column, units, lower, upper, p, choices, offsets);
  }

  /** The samples up to now, each in the stratum of its place in the shuffle. */
  ghost predicate SamplesSoFar(column: seq<real>, units: seq<real>, lower: real, upper: real, p: seq<nat>, offsets: seq<real>) {
    && |column| == |units| <= |p| && OffsetSamples(column, lower, upper, p, offsets)
    && (forall k | 0 <= k < |column| :: Placed(column[k], units[k], lower, upper, |p|, p[k]))
  }

  lemma NoSamples(lower: real, upper: real, p: seq<nat>, offsets: seq<real>)
    requires |p| == |offsets|
    ensures SamplesSoFar([], [], lower, upper, p, offsets)
  {
  }

  lemma AddSample(column: seq<real>, units: seq<real>, lower: real, upper: real, p: seq<nat>, offsets: seq<real>, x: real, unit: real)
    requires SamplesSoFar(column, units, lower, upper, p, offsets) && |column| < |p|
    requires Placed(x, unit, lower, upper, |p|, p[|column|])
    requires x == FromUnit(Over(p[|column|] as real + offsets[|column|], |p| as real), lower, upper)
    ensures SamplesSoFar(column + [x], units + [unit], lower, upper, p, offsets)
  {
    hide Placed, FromUnit;
  }

  lemma SamplesAreDesign(column: seq<real>, units: seq<real>, lower: real, upper: real, p: seq<nat>, choices: seq<nat>, offsets: seq<real>)
    requires SamplesSoFar(column, units, lower, upper, p, offsets) && |column| == |p| == |choices| && IsPermutation(p)
    requires (forall k | 0 <= k < |choices| :: choices[k] <= k)
    requires p == Shuffled(Identity(|p|), choices, if |p| == 0 then 0 else |p| - 1)
    ensures IsDesign(column, lower, upper) && AsDrawn(column, lower, upper, choices, offsets)
  {
    hide Placed, OffsetSamples, IsDesign, Shuffled;
    PlacedAreDesign(column, units, p, lower, upper);
  }

  method LhdSample(bin: nat, n: nat, offset: real, lower: real, upper: real) returns (x: real, ghost unit: real)
    requires bin < n && 0.0 <= offset < 1.0
    ensures Placed(x, unit, lower, upper, n, bin)
    ensures x == FromUnit(Over(bin as real + offset, n as real), lower, upper)
  {
    var binStart, binEnd := Over(bin as real, n as real), Over((bin + 1) as real, n as real);
    var u := binStart + Times(offset, binEnd - binStart);
    x := lower + Times(u, upper - lower);
    unit := u;
    PlacedIn(bin, n, offset, lower, upper);
    OffsetInStratum(bin, n, offset);
  }

  /** `x` is the point at `unit`, which lies in stratum `b` of the unit interval. */
  ghost predicate Placed(x: real, unit: real, lower: real, upper: real, n: nat, b: nat)
    requires n > 0
  {
    && x == FromUnit(unit, lower, upper) && InStratum(unit, 0.0, 1.0, n, b)
    && (lower < upper ==> InStratum(x, lower, upper, n, b))
  }

  lemma PlacedIn(bin: nat, n: nat, offset: real, lower: real, upper: real)
    requires bin < n && 0.0 <= offset < 1.0
    ensures var lo, hi := Over(bin as real, n as real), Over((bin + 1) as real, n as real);
      var unit := lo + Times(offset, hi - lo);
      Placed(lower + Times(unit, upper - lower), unit, lower, upper, n, bin)
  {
    var lo, hi := Over(bin as real, n as real), Over((bin + 1) as real, n as real);
    var unit := lo + Times(offset, hi - lo);
    UnitInBin(bin, n, offset);
    assert Times(lo, 1.0) == lo && Times(hi, 1.0) == hi;
    if lower < upper {
      Stretched(lo, unit, hi, lower, upper);
    }
  }

  lemma PlacedAreDesign(column: seq<real>, units: seq<real>, p: seq<nat>, lower: real, upper: real)
    requires |p| == |column| == |units| && IsPermutation(p)
    requires forall k | 0 <= k < |column| :: Placed(column[k], units[k], lower, upper, |column|, p[k])
    ensures IsDesign(column, lower, upper)
  {
    StrataAreLatin(units, p, 0.0, 1.0);
    assert Stretches(column, units, lower, upper);
    if lower < upper {
      StrataAreLatin(column, p, lower, upper);
    }
    forall i | 0 <= i < |column| && lower == upper ensures column[i] == lower {
      TimesZero(units[i]);
    }
  }

  method GenerateLhd(n: nat, bounds: seq<(real, real)>, draws: Draws) returns (columns: seq<seq<real>>)
    requires ValidDraws(draws, n, |bounds|)
    ensures |columns| == |bounds|
    ensures forall j | 0 <= j < |bounds| :: |columns[j]| == n && IsDesign(columns[j], bounds[j].0, bounds[j].1)
    ensures forall j | 0 <= j < |bounds| ::
              AsDrawn(columns[j], bounds[j].0, bounds[j].1, draws.choices[j], draws.offsets[j])
  {
    columns := [];
    for j := 0 to |bounds|
      invariant |columns| == j
      invariant forall l | 0 <= l < j :: |columns[l]| == n && IsDesign(columns[l], bounds[l].0, bounds[l].1)
      invariant forall l | 0 <= l < j ::
                  AsDrawn(columns[l], bounds[l].0, bounds[l].1, draws.choices[l], draws.offsets[l])
    {
      var column := LhdColumn(n, bounds[j].0, bounds[j].1, draws.choices[j], draws.offsets[j]);
      columns := columns + [column];
    }
  }

  lemma QuotientLess(a: nat, b: nat, n: nat)
    requires n > 0 && a < b
    ensures Over(a as real, n as real) < Over(b as real, n as real)
  {
    var q := Over(b as real, n as real);
    OverTimes(b as real, n as real);
    if Over(a as real, n as real) >= q {
      OverLe(a as real, n as real, q);
    }
  }

  lemma UnitInBin(bin: nat, n: nat, offset: real)
    requires bin < n && 0.0 <= offset < 1.0
    ensures var lo, hi := Over(bin as real, n as real), Over((bin + 1) as real, n as real);
      lo <= lo + Times(offset, hi - lo) < hi
  {
    var lo, hi := Over(bin as real, n as real), Over((bin + 1) as real, n as real);
    QuotientLess(bin, bin + 1, n);
    NonNegativeTimes(offset, hi - lo);
    TimesLess(offset, 1.0, hi - lo);
    assert Times(1.0, hi - lo) == hi - lo;
  }

  lemma Stretched(a: real, u: real, b: real, lower: real, upper: real)
    requires lower < upper && a <= u < b
    ensures FromUnit(a, lower, upper) <= lower + Times(u, upper - lower) < FromUnit(b, lower, upper)
  {
    TimesLe(a, u, upper - lower);
    TimesLess(u, b, upper - lower);
  }

  /** No point lies in two strata. */
  lemma StrataDisjoint(x: real, lower: real, upper: real, n: nat, a: nat, b: nat)
    requires lower < upper && n > 0 && InStratum(x, lower, upper, n, a) && InStratum(x, lower, upper, n, b)
    ensures a == b
  {
    if a < b {
      StrataOrdered(a, b, n, lower, upper);
    } else if b < a {
      StrataOrdered(b, a, n, lower, upper);
    }
  }

  lemma StrataOrdered(a: nat, b: nat, n: nat, lower: real, upper: real)
    requires lower < upper && n > 0 && a < b
    ensures FromUnit(Over((a + 1) as real, n as real), lower, upper) <= FromUnit(Over(b as real, n as real), lower, upper)
  {
    if a + 1 < b {
      QuotientLess(a + 1, b, n);
    }
    TimesLe(Over((a + 1) as real, n as real), Over(b as real, n as real), upper - lower);
  }

  lemma StratumInBounds(x: real, lower: real, upper: real, n: nat, b: nat)
    requires lower < upper && b < n && InStratum(x, lower, upper, n, b)
    ensures lower <= x < upper
  {
    var lo, hi := Over(b as real, n as real), Over((b + 1) as real, n as real);
    OverLe(b as real, n as real, 0.0);
    TimesZero(n as real);
    OverLe((b + 1) as real, n as real, 1.0);
    assert Times(1.0, n as real) == n as real;
    NonNegativeTimes(lo, upper - lower);
    TimesLe(hi, 1.0, upper - lower);
    assert Times(1.0, upper - lower) == upper - lower;
  }

  lemma StrataAreLatin(column: seq<real>, p: seq<nat>, lower: real, upper: real)
    requires lower < upper && |p| == |column| && IsPermutation(p)
    requires forall k | 0 <= k < |column| :: InStratum(column[k], lower, upper, |column|, p[k])
    ensures Latin(column, lower, upper)
  {
    var n := |column|;
    forall i | 0 <= i < n ensures lower <= column[i] < upper {
      StratumInBounds(column[i], lower, upper, n, p[i]);
    }
    forall b: nat | b < n ensures ExactlyOneIn(column, lower, upper, b) {
      assert b in p;
      var i :| 0 <= i < n && p[i] == b;
      assert InStratum(column[i], lower, upper, n, b);
      forall k | 0 <= k < n && InStratum(column[k], lower, upper, n, b) ensures p[k] == b {
        StrataDisjoint(column[k], lower, upper, n, p[k], b);
      }
    }
  }

  // ---- Random subspace perturbation ----------------------------------------

  ghost predicate NonDecreasing(cdf: seq<real>) {
    forall i, j | 0 <= i <= j < |cdf| :: cdf[i] <= cdf[j]
  }

  /** The least dimension whose cumulative probability reaches `r`, or the last one. */
  ghost predicate IsDrawn(cdf: seq<real>, r: real, dim: nat) {
    && dim < |cdf|
    && (forall j | 0 <= j < dim :: cdf[j] < r)
    && (dim < |cdf| - 1 ==> r <= cdf[dim])
  }

  /** The draw lies above the cumulative probability before `dim`, if there is one, and not above its own. */
  ghost predicate InShare(cdf: seq<real>, r: real, dim: nat) {
    && dim < |cdf|
    && (dim == 0 || cdf[dim - 1] < r)
    && (dim == |cdf| - 1 || r <= cdf[dim])
  }

  /** The draw is in the share of the dimension found even if the cumulative probabilities go up and down,
      as they do for negative lengthscales. */
  method RaaspDimFromCdf(cdf: seq<real>, r: real) returns (dim: nat)
    requires cdf != []
    ensures InShare(cdf, r, dim)
    ensures NonDecreasing(cdf) ==> IsDrawn(cdf, r, dim)
  {
    var lo: nat, hi: nat := 0, |cdf| - 1;
    while lo < hi
      invariant lo <= hi < |cdf|
      invariant lo == 0 || cdf[lo - 1] < r
      invariant hi < |cdf| - 1 ==> r <= cdf[hi]
    {
      var mid := lo + (hi - lo) / 2;
      if r <= cdf[mid] {
        hi := mid;
      } else {
        lo := mid + 1;
      }
    }
    dim := lo;
  }

  /** A draw picks a dimension exactly when it falls into that dimension's share. */
  lemma DrawnExactly(cdf: seq<real>, r: real, dim: nat)
    requires cdf != [] && NonDecreasing(cdf) && dim < |cdf|
    ensures IsDrawn(cdf, r, dim) <==> InShare(cdf, r, dim)
  {
  }

  /** Shares proportional to the lengthscales if there are any, equal ones otherwise. */
  function Probabilities(lengthscales: seq<real>, dims: nat): (p: seq<real>)
    requires dims > 0 && (lengthscales == [] || |lengthscales| == dims)
    ensures |p| == dims && ((forall j | 0 <= j < |lengthscales| :: lengthscales[j] >= 0.0) ==> forall j | 0 <= j < dims :: p[j] >= 0.0)
  {
    var total := Sum(lengthscales);
    if lengthscales != [] && total > 0.0 then
      SharesNonNegative(lengthscales, total);
      seq(dims, j requires 0 <= j < dims => Over(lengthscales[j], total))
    else
      OverLe(1.0, dims as real, 0.0);
      TimesZero(dims as real);
      seq(dims, _ => Over(1.0, dims as real))
  }

  lemma SharesNonNegative(s: seq<real>, total: real)
    requires total > 0.0
    ensures forall j | 0 <= j < |s| :: Over(s[j], total) >= 0.0 <==> s[j] >= 0.0
  {
    forall j | 0 <= j < |s| ensures Over(s[j], total) >= 0.0 <==> s[j] >= 0.0 {
      OverLe(s[j], total, 0.0);
      TimesZero(total);
    }
  }

  method Cumulative(p: seq<real>) returns (cdf: seq<real>)
    ensures |cdf| == |p| && ((forall j | 0 <= j < |p| :: p[j] >= 0.0) ==> NonDecreasing(cdf))
    ensures forall j | 0 <= j < |p| :: cdf[j] == Sum(p[..j + 1])
  {
    cdf := [];
    var c := 0.0;
    for j := 0 to |p|
      invariant |cdf| == j && c == Sum(p[..j])
      invariant (forall l | 0 <= l < |p| :: p[l] >= 0.0) ==> NonDecreasing(cdf)
      invariant j > 0 ==> cdf[j - 1] == c
      invariant forall l | 0 <= l < j :: cdf[l] == Sum(p[..l + 1])
    {
      assert p[..j + 1][..j] == p[..j];
      c := c + p[j];
      cdf := cdf + [c];
    }
  }

  /** `candidate` agrees with the centre outside `touched`, and inside it lies within the bounds. */
  ghost predicate PerturbedAt(candidate: seq<real>, center: seq<real>, lower: seq<real>, upper: seq<real>, touched: seq<nat>)
    requires |candidate| == |center| == |lower| == |upper|
  {
    && (forall j: nat | j < |center| && j !in touched :: candidate[j] == center[j])
    && (forall j: nat | j in touched :: j < |center| && lower[j] <= candidate[j] < upper[j])
  }

  /** The lengths that dimensions are drawn by: all equal if none are given, or if those given do not add up to a
      positive number. */
  function Lengths(lengthscales: seq<real>, dims: nat): (l: seq<real>)
    requires lengthscales == [] || |lengthscales| == dims
    ensures |l| == dims
  {
    if lengthscales != [] && Sum(lengthscales) > 0.0 then lengthscales else seq(dims, _ => 1.0)
  }

  /** Laid end to end, the lengths up to `dim` are the first to reach the share `r` of the whole. */
  ghost predicate DrawnByLength(lengths: seq<real>, r: real, dim: nat) {
    && dim < |lengths|
    && (dim == 0 || Sum(lengths[..dim]) < Times(r, Sum(lengths)))
    && (dim == |lengths| - 1 || Times(r, Sum(lengths)) <= Sum(lengths[..dim + 1]))
  }

  lemma {:induction false} SumOfOnes(s: seq<real>)
    requires forall i | 0 <= i < |s| :: s[i] == 1.0
    ensures Sum(s) == |s| as real
  {
    if s != [] {
      SumOfOnes(s[..|s| - 1]);
    }
  }

  /** The lengths are the probabilities times a positive total. */
  lemma LengthsTotal(lengthscales: seq<real>, dims: nat)
    requires dims > 0 && (lengthscales == [] || |lengthscales| == dims)
    ensures var p, l := Probabilities(lengthscales, dims), Lengths(lengthscales, dims);
      Sum(l) > 0.0 && forall j | 0 <= j < dims :: l[j] == Times(p[j], Sum(l))
  {
    var p, l := Probabilities(lengthscales, dims), Lengths(lengthscales, dims);
    if !(lengthscales != [] && Sum(lengthscales) > 0.0) {
      SumOfOnes(l);
    }
    forall j | 0 <= j < dims ensures l[j] == Times(p[j], Sum(l)) {
      OverTimes(l[j], Sum(l));
    }
  }

  /** Comparing a draw with the cumulative probabilities is comparing its share of the whole with the lengths. */
  lemma ShareIsLength(lengthscales: seq<real>, dims: nat, cdf: seq<real>, r: real, dim: nat)
    requires dims > 0 && (lengthscales == [] || |lengthscales| == dims) && |cdf| == dims && dim < dims
    requires forall j | 0 <= j < dims :: cdf[j] == Sum(Probabilities(lengthscales, dims)[..j + 1])
    ensures InShare(cdf, r, dim) <==> DrawnByLength(Lengths(lengthscales, dims), r, dim)
  {
    CompareShare(lengthscales, dims, r, dim + 1);
    CompareShare(lengthscales, dims, r, dim);
    assert dim > 0 ==> cdf[dim - 1] == Sum(Probabilities(lengthscales, dims)[..dim]);
  }

  lemma CompareShare(lengthscales: seq<real>, dims: nat, r: real, n: nat)
    requires dims > 0 && (lengthscales == [] || |lengthscales| == dims) && n <= dims
    ensures var p, l := Probabilities(lengthscales, dims), Lengths(lengthscales, dims);
      Sum(p[..n]) < r <==> Sum(l[..n]) < Times(r, Sum(l))
  {
    var p, l := Probabilities(lengthscales, dims), Lengths(lengthscales, dims);
    LengthsTotal(lengthscales, dims);
    ScaledSum(p[..n], Sum(l), l[..n]);
    if Sum(p[..n]) < r {
      TimesLess(Sum(p[..n]), r, Sum(l));
    } else {
      TimesLe(r, Sum(p[..n]), Sum(l));
    }
  }

  /** A perturbation: where the cumulative probabilities are probed, and how far into the interval the new value lies. */
  datatype Probe = Probe(r: real, unit: real)

  ghost predicate ValidProbes(probes: seq<Probe>) {
    forall i | 0 <= i < |probes| :: 0.0 <= probes[i].unit < 1.0
  }

  /** Where a coordinate was touched it holds what its last touch drew, everything else is the centre's. */
  ghost predicate HoldsLastTouch(candidate: seq<real>, center: seq<real>, lower: seq<real>, upper: seq<real>,
                                 touched: seq<nat>, probes: seq<Probe>)
    requires |candidate| == |center| == |lower| == |upper| && |touched| <= |probes|
  {
    && (forall i | 0 <= i < |touched| :: touched[i] < |center|)
    && (forall j: nat | j < |center| && j !in touched :: candidate[j] == center[j])
    && (forall i | 0 <= i < |touched| && touched[i] !in touched[i + 1..] ::
          candidate[touched[i]] == FromUnit(probes[i].unit, lower[touched[i]], upper[touched[i]]))
  }

  lemma NothingTouched(center: seq<real>, lower: seq<real>, upper: seq<real>, probes: seq<Probe>)
    requires |center| == |lower| == |upper|
    ensures HoldsLastTouch(center, center, lower, upper, [], probes)
  {
  }

  lemma TouchAgain(candidate: seq<real>, center: seq<real>, lower: seq<real>, upper: seq<real>,
                   touched: seq<nat>, probes: seq<Probe>, dim: nat)
    requires |candidate| == |center| == |lower| == |upper| && |touched| < |probes| && dim < |center|
    requires HoldsLastTouch(candidate, center, lower, upper, touched, probes)
    ensures var value := FromUnit(probes[|touched|].unit, lower[dim], upper[dim]);
      HoldsLastTouch(candidate[dim := value], center, lower, upper, touched + [dim], probes)
  {
    var more := touched + [dim];
    var next := candidate[dim := FromUnit(probes[|touched|].unit, lower[dim], upper[dim])];
    forall i | 0 <= i < |more| && more[i] !in more[i + 1..]
      ensures next[more[i]] == FromUnit(probes[i].unit, lower[more[i]], upper[more[i]])
    {
      if i < |touched| {
        assert more[i + 1..] == touched[i + 1..] + [dim];
        assert dim in more[i + 1..];
      }
    }
    forall j: nat | j < |center| && j !in more ensures next[j] == center[j] {
      assert more[|touched|] == dim;
      assert j !in touched;
    }
  }

  /** Every probe touches the dimension whose share of the lengths it falls into, and the candidate holds what the
      last touch of every dimension drew. */
  ghost predicate IsPerturbation(candidate: seq<real>, center: seq<real>, lengths: seq<real>, lower: seq<real>, upper: seq<real>,
                                 probes: seq<Probe>)
    requires |center| == |lower| == |upper|
  {
    exists touched: seq<nat> :: Touches(candidate, center, lengths, lower, upper, probes, touched)
  }

  ghost predicate Touches(candidate: seq<real>, center: seq<real>, lengths: seq<real>, lower: seq<real>, upper: seq<real>,
                          probes: seq<Probe>, touched: seq<nat>)
    requires |center| == |lower| == |upper|
  {
    && |candidate| == |center| && |touched| == |probes|
    && (forall i | 0 <= i < |probes| :: DrawnByLength(lengths, probes[i].r, touched[i]))
    && HoldsLastTouch(candidate, center, lower, upper, touched, probes)
  }

  method Perturb(center: seq<real>, lower: seq<real>, upper: seq<real>, cdf: seq<real>, probes: seq<Probe>)
    returns (candidate: seq<real>, ghost touched: seq<nat>)
    requires |center| == |lower| == |upper| == |cdf| > 0 && ValidProbes(probes)
    requires forall j | 0 <= j < |lower| :: lower[j] < upper[j]
    ensures |candidate| == |center| && |touched| == |probes|
    ensures PerturbedAt(candidate, center, lower, upper, touched)
    ensures HoldsLastTouch(candidate, center, lower, upper, touched, probes)
    ensures forall i | 0 <= i < |probes| :: InShare(cdf, probes[i].r, touched[i])
  {
    hide HoldsLastTouch;
    candidate := center;
    touched := [];
    NothingTouched(center, lower, upper, probes);
    for i := 0 to |probes|
      invariant |candidate| == |center| && |touched| == i
      invariant PerturbedAt(candidate, center, lower, upper, touched)
      invariant HoldsLastTouch(candidate, center, lower, upper, touched, probes)
      invariant forall l | 0 <= l < i :: InShare(cdf, probes[l].r, touched[l])
    {
      var dim := RaaspDimFromCdf(cdf, probes[i].r);
      var value := FromUnit(probes[i].unit, lower[dim], upper[dim]);
      FromUnitInBounds(probes[i].unit, lower[dim], upper[dim]);
      TouchAgain(candidate, center, lower, upper, touched, probes, dim);
      candidate := candidate[dim := value];
      touched := touched + [dim];
    }
  }

  lemma FromUnitInBounds(u: real, lower: real, upper: real)
    requires 0.0 <= u < 1.0 && lower < upper
    ensures lower <= FromUnit(u, lower, upper) < upper
  {
    NonNegativeTimes(u, upper - lower);
    TimesLess(u, 1.0, upper - lower);
    assert Times(1.0, upper - lower) == upper - lower;
  }

  /** The dimensions in which two points differ. */
  function Differing(a: seq<real>, b: seq<real>): (dims: seq<nat>)
    requires |a| == |b|
    ensures forall j: nat :: j in dims <==> j < |a| && a[j] != b[j]
    ensures forall i, k | 0 <= i < k < |dims| :: dims[i] < dims[k]
  {
    if a == [] then []
    else
      var n := |a| - 1;
      var before := Differing(a[..n], b[..n]);
      assert forall i | 0 <= i < |before| :: before[i] in before;
      if a[n] != b[n] then before + [n] else before
  }

  lemma {:induction false} NoMoreThanListed(dims: seq<nat>, touched: seq<nat>)
    requires forall i, k | 0 <= i < k < |dims| :: dims[i] != dims[k]
    requires forall j | j in dims :: j in touched
    ensures |dims| <= |touched|
  {
    if dims != [] {
      var n := |dims| - 1;
      assert dims[n] in dims;
      assert dims[n] in touched;
      var i :| 0 <= i < |touched| && touched[i] == dims[n];
      var rest := touched[..i] + touched[i + 1..];
      forall j | j in dims[..n] ensures j in rest {
        var k :| 0 <= k < n && dims[k] == j;
        assert dims[k] in dims;
        assert j in touched;
        var l :| 0 <= l < |touched| && touched[l] == j;
        assert rest[if l < i then l else l - 1] == j;
      }
      NoMoreThanListed(dims[..n], rest);
    }
  }

  /** Every candidate differs from the centre in at most `max(numPert, 1)` coordinates. */
  method GenerateRaasp(center: seq<real>, lengthscales: seq<real>, lower: seq<real>, upper: seq<real>,
                       numPert: nat, probes: seq<seq<Probe>>) returns (candidates: seq<seq<real>>)
    requires |center| == |lower| == |upper| > 0 && (lengthscales == [] || |lengthscales| == |center|)
    requires forall j | 0 <= j < |lower| :: lower[j] < upper[j]
    requires forall i | 0 <= i < |probes| :: |probes[i]| == (if numPert > 1 then numPert else 1) && ValidProbes(probes[i])
    ensures |candidates| == |probes|
    ensures forall i | 0 <= i < |candidates| :: FewDiffer(candidates[i], center, if numPert > 1 then numPert else 1)
    ensures forall i | 0 <= i < |candidates| :: StaysNear(candidates[i], center, lower, upper)
    ensures forall i | 0 <= i < |candidates| ::
              IsPerturbation(candidates[i], center, Lengths(lengthscales, |center|), lower, upper, probes[i])
  {
    hide FewDiffer, StaysNear, IsPerturbation, Probabilities, Lengths;
    var p := Probabilities(lengthscales, |center|);
    var cdf := Cumulative(p);
    candidates := [];
    for i := 0 to |probes|
      invariant |candidates| == i
      invariant forall l | 0 <= l < i :: FewDiffer(candidates[l], center, if numPert > 1 then numPert else 1)
      invariant forall l | 0 <= l < i :: StaysNear(candidates[l], center, lower, upper)
      invariant forall l | 0 <= l < i ::
                  IsPerturbation(candidates[l], center, Lengths(lengthscales, |center|), lower, upper, probes[l])
    {
      var candidate := OneCandidate(center, lengthscales, lower, upper, cdf, probes[i]);
      candidates := candidates + [candidate];
    }
  }

  method OneCandidate(center: seq<real>, ghost lengthscales: seq<real>, lower: seq<real>, upper: seq<real>, cdf: seq<real>, probes: seq<Probe>)
    returns (candidate: seq<real>)
    requires |center| == |lower| == |upper| == |cdf| > 0 && (lengthscales == [] || |lengthscales| == |center|)
    requires forall j | 0 <= j < |lower| :: lower[j] < upper[j]
    requires forall j | 0 <= j < |cdf| :: cdf[j] == Sum(Probabilities(lengthscales, |center|)[..j + 1])
    requires ValidProbes(probes)
    ensures FewDiffer(candidate, center, |probes|) && StaysNear(candidate, center, lower, upper)
    ensures IsPerturbation(candidate, center, Lengths(lengthscales, |center|), lower, upper, probes)
  {
    ghost var touched;
    candidate, touched := Perturb(center, lower, upper, cdf, probes);
    PerturbedByLength(candidate, center, lengthscales, lower, upper, cdf, probes, touched);
    NoMoreThanListed(Differing(candidate, center), touched);
  }

  lemma PerturbedByLength(candidate: seq<real>, center: seq<real>, lengthscales: seq<real>, lower: seq<real>, upper: seq<real>,
                          cdf: seq<real>, probes: seq<Probe>, touched: seq<nat>)
    requires |candidate| == |center| == |lower| == |upper| == |cdf| > 0 && |touched| == |probes|
    requires lengthscales == [] || |lengthscales| == |center|
    requires forall j | 0 <= j < |cdf| :: cdf[j] == Sum(Probabilities(lengthscales, |center|)[..j + 1])
    requires HoldsLastTouch(candidate, center, lower, upper, touched, probes)
    requires forall i | 0 <= i < |probes| :: InShare(cdf, probes[i].r, touched[i])
    ensures IsPerturbation(candidate, center, Lengths(lengthscales, |center|), lower, upper, probes)
  {
    forall i | 0 <= i < |probes| ensures DrawnByLength(Lengths(lengthscales, |center|), probes[i].r, touched[i]) {
      ShareIsLength(lengthscales, |center|, cdf, probes[i].r, touched[i]);
    }
    assert Touches(candidate, center, Lengths(lengthscales, |center|), lower, upper, probes, touched);
  }

  ghost predicate FewDiffer(a: seq<real>, b: seq<real>, most: nat) {
    |a| == |b| && |Differing(a, b)| <= most
  }

  /** Every coordinate is the centre's or lies within the bounds. */
  ghost predicate StaysNear(candidate: seq<real>, center: seq<real>, lower: seq<real>, upper: seq<real>) {
    && |candidate| == |center| == |lower| == |upper|
    && forall j | 0 <= j < |center| :: candidate[j] == center[j] || lower[j] <= candidate[j] < upper[j]
  }
}
