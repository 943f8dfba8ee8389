/**
 The posterior at one query and one metric: neighbours weighted by the inverse of their variance.
 Arithmetic is over the reals; the square root is any function that is one.
 */
module Posterior {
  import opened Layout
  import opened Reals
  import opened Wrappers

  const EPS_VAR: real := 0.000000001

  /** One neighbour: squared distance, value, and noise variance in original units. */
  datatype Neighbor = Neighbor(dist2: real, y: real, yvar: real)

  datatype Setup = Setup(epistemicScale: real, aleatoricScale: real, hasYvar: bool, observationNoise: bool, yScale: real)

  datatype Stats = Stats(weights: seq<real>, l2: real, mu: real, se: real, seEpi: real, seAle: real)

  /** What one query and one metric get. Without neighbours there are no weights, norm and mean are zero,
      and dividing one by the empty sum makes the total and the epistemic error infinite. */
  datatype Cell = Computed(stats: Stats) | NoNeighbors

  ghost predicate IsRoot(sqrt: real -> real) {
    forall x: real | x >= 0.0 :: sqrt(x) >= 0.0 && Times(sqrt(x), sqrt(x)) == x
  }

  predicate ValidSetup(p: Setup) {
    p.epistemicScale >= 0.0 && p.aleatoricScale >= 0.0 && p.yScale > 0.0
  }

  predicate NonNegative(ns: seq<Neighbor>) {
    forall i | 0 <= i < |ns| :: ns[i].dist2 >= 0.0 && ns[i].yvar >= 0.0
  }

  predicate ValidNeighbors(ns: seq<Neighbor>) {
    ns != [] && NonNegative(ns)
  }

  // ---- Weighted sums -------------------------------------------------------

  function Dot(v: seq<real>, y: seq<real>): real
    requires |y| == |v|
  {
    if v == [] then 0.0 else Dot(v[..|v| - 1], y[..|v| - 1]) + Times(v[|v| - 1], y[|v| - 1])
  }

  function SumSquares(v: seq<real>): (s: real)
    ensures s >= 0.0
  {
    if v == [] then 0.0 else SumSquares(v[..|v| - 1]) + Squared(v[|v| - 1])
  }

  /** A weighted sum lies between its least and greatest entry, times the total weight. */
  lemma {:induction false} DotBounds(v: seq<real>, y: seq<real>, lo: real, hi: real)
    requires |v| == |y| && forall i | 0 <= i < |v| :: v[i] >= 0.0 && lo <= y[i] <= hi
    ensures Times(lo, Sum(v)) <= Dot(v, y) <= Times(hi, Sum(v))
  {
    if v == [] {
      TimesZero(lo);
      TimesZero(hi);
    } else {
      var n := |v| - 1;
      DotBounds(v[..n], y[..n], lo, hi);
      TimesLe(lo, y[n], v[n]);
      TimesLe(y[n], hi, v[n]);
      TimesCommutes(y[n], v[n]);
      TimesAdds(Sum(v[..n]), v[n], lo);
      TimesAdds(Sum(v[..n]), v[n], hi);
    }
  }

  /** A weighted sum is linear in the values, */
  lemma {:induction false} DotIsLinear(v: seq<real>, x: seq<real>, c: real, y: seq<real>, z: seq<real>)
    requires |v| == |x| == |y| == |z| && forall i | 0 <= i < |v| :: z[i] == Times(c, x[i]) + y[i]
    ensures Dot(v, z) == Times(c, Dot(v, x)) + Dot(v, y)
  {
    if v == [] {
      TimesZero(c);
    } else {
      var n := |v| - 1;
      DotIsLinear(v[..n], x[..n], c, y[..n], z[..n]);
      TimesAdds(Times(c, x[n]), y[n], v[n]);
      TimesAdds(Dot(v[..n], x[..n]), Times(v[n], x[n]), c);
      TimesAssociates(c, v[n], x[n]);
      TimesCommutes(c, v[n]);
      TimesAssociates(v[n], c, x[n]);
    }
  }

  /** and a value that stands alone counts with its own weight. */
  lemma {:induction false} DotOfOne(v: seq<real>, y: seq<real>, i: nat)
    requires i < |v| == |y| && forall j | 0 <= j < |y| && j != i :: y[j] == 0.0
    ensures Dot(v, y) == v[i] * y[i]
  {
    var n := |v| - 1;
    TimesZero(v[n]);
    if i < n {
      DotOfOne(v[..n], y[..n], i);
    } else {
      DotOfZeros(v[..n], y[..n]);
      TimesIs(v[n], y[n]);
    }
  }

  lemma {:induction false} DotOfZeros(v: seq<real>, y: seq<real>)
    requires |v| == |y| && forall j | 0 <= j < |y| :: y[j] == 0.0
    ensures Dot(v, y) == 0.0
  {
    if v != [] {
      DotOfZeros(v[..|v| - 1], y[..|v| - 1]);
      TimesZero(v[|v| - 1]);
    }
  }

  /** Squares of two lists add up, and a single number gives its square. */
  lemma {:induction false} SumSquaresAdds(a: seq<real>, b: seq<real>)
    ensures SumSquares(a + b) == SumSquares(a) + SumSquares(b)
    ensures |b| == 1 ==> SumSquares(b) == b[0] * b[0]
  {
    if b == [] {
      assert a + b == a;
    } else {
      var n := |b| - 1;
      SumSquaresAdds(a, b[..n]);
      assert (a + b)[..|a + b| - 1] == a + b[..n];
      SquaredIs(b[n]);
    }
  }

  /** Squares lie above every tangent. */
  lemma {:induction false} SquaresAboveTangent(v: seq<real>, c: real)
    ensures SumSquares(v) >= 2.0 * Times(c, Sum(v)) - Times(|v| as real, Squared(c))
  {
    if v == [] {
      TimesZero(c);
      TimesZero(Squared(c));
    } else {
      var n := |v| - 1;
      SquaresAboveTangent(v[..n], c);
      TimesAdds(Sum(v[..n]), v[n], c);
      TimesAdds(n as real, 1.0, Squared(c));
      Tangent(v[n], c);
      assert Times(1.0, Squared(c)) == Squared(c);
    }
  }

  lemma Tangent(x: real, c: real)
    ensures Squared(x) >= 2.0 * Times(c, x) - Squared(c)
  {
    SquareSign(x - c);
    assert Times(x - c, x - c) == Times(x, x) - 2.0 * Times(c, x) + Times(c, c);
  }

  lemma {:induction false} SquaresBelow(v: seq<real>)
    requires forall i | 0 <= i < |v| :: 0.0 <= v[i] <= 1.0
    ensures SumSquares(v) <= Sum(v)
  {
    if v != [] {
      var n := |v| - 1;
      SquaresBelow(v[..n]);
      TimesLe(v[n], 1.0, v[n]);
      assert Times(1.0, v[n]) == v[n];
    }
  }

  // ---- Specification -------------------------------------------------------

  /** The variance of a neighbour's observation noise in scaled units. */
  function NoiseVar(p: Setup, n: Neighbor): (v: real)
    requires p.yScale > 0.0
    ensures n.yvar >= 0.0 ==> v >= 0.0
  {
    PositiveTimes(p.yScale, p.yScale);
    OverLe(n.yvar, Times(p.yScale, p.yScale), 0.0);
    TimesZero(Times(p.yScale, p.yScale));
    if p.hasYvar then Over(n.yvar, Times(p.yScale, p.yScale)) else 0.0
  }

  /** The variance of a single neighbour. */
  function VarTotal(p: Setup, n: Neighbor): real
    requires p.yScale > 0.0
  {
    EPS_VAR + Times(p.epistemicScale, n.dist2) + p.aleatoricScale + NoiseVar(p, n)
  }

  lemma VarAtLeast(p: Setup, n: Neighbor)
    requires ValidSetup(p) && n.dist2 >= 0.0 && n.yvar >= 0.0
    ensures VarTotal(p, n) >= EPS_VAR
  {
    NonNegativeTimes(p.epistemicScale, n.dist2);
  }

  function Weights(p: Setup, ns: seq<Neighbor>): (w: seq<real>)
    requires ValidSetup(p) && forall i | 0 <= i < |ns| :: ns[i].dist2 >= 0.0 && ns[i].yvar >= 0.0
    ensures |w| == |ns|
    ensures forall i | 0 <= i < |ns| :: VarTotal(p, ns[i]) >= EPS_VAR && w[i] == Over(1.0, VarTotal(p, ns[i]))
  {
    if ns == [] then []
    else
      VarAtLeast(p, ns[|ns| - 1]);
      Weights(p, ns[..|ns| - 1]) + [Over(1.0, VarTotal(p, ns[|ns| - 1]))]
  }

  lemma WeightRange(p: Setup, ns: seq<Neighbor>, i: nat)
    requires ValidSetup(p) && ValidNeighbors(ns) && i < |ns|
    ensures 0.0 < Weights(p, ns)[i] <= Over(1.0, EPS_VAR)
  {
    Reciprocal(VarTotal(p, ns[i]), EPS_VAR);
  }

  lemma Reciprocal(v: real, floor: real)
    requires v >= floor > 0.0
    ensures 0.0 < Over(1.0, v) <= Over(1.0, floor)
  {
    OverLe(1.0, v, 0.0);
    TimesZero(v);
    var q := Over(1.0, v);
    OverTimes(1.0, v);
    if q <= 0.0 {
      TimesLe(q, 0.0, v);
    }
    OverLe(1.0, floor, q);
    TimesCommutes(q, v);
    TimesCommutes(q, floor);
    TimesLe(floor, v, q);
  }

  lemma NormPositive(p: Setup, ns: seq<Neighbor>)
    requires ValidSetup(p) && ValidNeighbors(ns)
    ensures Sum(Weights(p, ns)) > 0.0
  {
    forall i | 0 <= i < |ns| ensures Weights(p, ns)[i] > 0.0 {
      WeightRange(p, ns, i);
    }
    PartOfSum(Weights(p, ns), 0);
  }

  /** The variance left when all neighbours are combined: the inverse of the total weight. */
  function EpistemicVar(p: Setup, ns: seq<Neighbor>): (v: real)
    requires ValidSetup(p) && ValidNeighbors(ns)
    ensures v > 0.0
  {
    NormPositive(p, ns);
    Reciprocal(Sum(Weights(p, ns)), Sum(Weights(p, ns)));
    Over(1.0, Sum(Weights(p, ns)))
  }

  function Normalized(p: Setup, ns: seq<Neighbor>): (v: seq<real>)
    requires ValidSetup(p) && ValidNeighbors(ns)
    ensures |v| == |ns|
  {
    seq(|ns|, i requires 0 <= i < |ns| => Times(Weights(p, ns)[i], EpistemicVar(p, ns)))
  }

  function Values(ns: seq<Neighbor>): (y: seq<real>)
    ensures |y| == |ns|
  {
    seq(|ns|, i requires 0 <= i < |ns| => ns[i].y)
  }

  /** Every neighbour's own noise. */
  function Noises(p: Setup, ns: seq<Neighbor>): (v: seq<real>)
    requires p.yScale > 0.0
    ensures |v| == |ns|
  {
    seq(|ns|, i requires 0 <= i < |ns| => p.aleatoricScale + NoiseVar(p, ns[i]))
  }

  // ---- What the numbers mean -----------------------------------------------

  /** A neighbour's variance in full: the floor, its distance times the epistemic scale, the noise common to all,
      and, where variances were observed, its own noise divided by the square of the output scale. */
  lemma VarTotalIs(p: Setup, n: Neighbor)
    requires p.yScale > 0.0
    ensures VarTotal(p, n) == 0.000000001 + p.epistemicScale * n.dist2 + p.aleatoricScale
                              + (if p.hasYvar then n.yvar / p.yScale / p.yScale else 0.0)
  {
    var y := p.yScale;
    PositiveTimes(y, y);
    TimesIs(p.epistemicScale, n.dist2);
    OverTimes(n.yvar, y);
    OverTimes(Over(n.yvar, y), y);
    TimesAssociates(Over(Over(n.yvar, y), y), y, y);
    OverIs(n.yvar, Times(y, y), Over(Over(n.yvar, y), y));
  }

  /** Weights are inversely proportional to variances: weight times variance is the same for all neighbours. */
  lemma WeightsAreInverse(p: Setup, ns: seq<Neighbor>, i: nat, j: nat)
    requires ValidSetup(p) && ValidNeighbors(ns) && i < |ns| && j < |ns|
    ensures Times(Normalized(p, ns)[i], VarTotal(p, ns[i])) == Times(Normalized(p, ns)[j], VarTotal(p, ns[j]))
  {
    WeightTimesVar(p, ns, i);
    WeightTimesVar(p, ns, j);
  }

  lemma WeightTimesVar(p: Setup, ns: seq<Neighbor>, i: nat)
    requires ValidSetup(p) && ValidNeighbors(ns) && i < |ns|
    ensures Times(Normalized(p, ns)[i], VarTotal(p, ns[i])) == EpistemicVar(p, ns)
  {
    var w, inv, v := Weights(p, ns)[i], EpistemicVar(p, ns), VarTotal(p, ns[i]);
    OverTimes(1.0, v);
    TimesCommutes(w, inv);
    TimesAssociates(inv, w, v);
    assert Times(inv, 1.0) == inv;
  }

  predicate NoWorse(p: Setup, m: Neighbor, n: Neighbor) {
    m.dist2 <= n.dist2 && (p.hasYvar ==> m.yvar <= n.yvar)
  }

  /** A neighbour that is at least as near and no noisier weighs at least as much, and more when the distance
      counts and it is nearer. */
  lemma NearerWeighsMore(p: Setup, ns: seq<Neighbor>, i: nat, j: nat)
    requires ValidSetup(p) && ValidNeighbors(ns) && i < |ns| && j < |ns|
    requires NoWorse(p, ns[i], ns[j])
    ensures Normalized(p, ns)[i] >= Normalized(p, ns)[j]
    ensures p.epistemicScale > 0.0 && ns[i].dist2 < ns[j].dist2 ==> Normalized(p, ns)[i] > Normalized(p, ns)[j]
    ensures p.hasYvar && ns[i].yvar < ns[j].yvar ==> Normalized(p, ns)[i] > Normalized(p, ns)[j]
  {
    var a, b, x, y := Normalized(p, ns)[i], Normalized(p, ns)[j], VarTotal(p, ns[i]), VarTotal(p, ns[j]);
    WeightsSumToOne(p, ns);
    WeightsAreInverse(p, ns, i, j);
    VarGrows(p, ns[i], ns[j]);
    VarAtLeast(p, ns[i]);
    VarAtLeast(p, ns[j]);
    EqualProducts(a, x, b, y);
  }

  lemma EqualProducts(a: real, x: real, b: real, y: real)
    requires a > 0.0 && b > 0.0 && 0.0 < x <= y && Times(a, x) == Times(b, y)
    ensures a >= b && (x < y ==> a > b)
  {
    TimesCommutes(a, x);
    TimesCommutes(a, y);
    TimesLe(x, y, a);
    if x < y {
      TimesLess(x, y, a);
    }
    if a <= b {
      TimesLe(a, b, y);
    }
    if a < b {
      TimesLess(a, b, y);
    }
  }

  lemma VarGrows(p: Setup, m: Neighbor, n: Neighbor)
    requires ValidSetup(p) && NoWorse(p, m, n)
    ensures VarTotal(p, m) <= VarTotal(p, n)
    ensures p.epistemicScale > 0.0 && m.dist2 < n.dist2 ==> VarTotal(p, m) < VarTotal(p, n)
    ensures p.hasYvar && m.yvar < n.yvar ==> VarTotal(p, m) < VarTotal(p, n)
  {
    var e := p.epistemicScale;
    TimesCommutes(e, m.dist2);
    TimesCommutes(e, n.dist2);
    TimesLe(m.dist2, n.dist2, e);
    if e > 0.0 && m.dist2 < n.dist2 {
      TimesLess(m.dist2, n.dist2, e);
    }
    if p.hasYvar {
      NoiseGrows(p, m, n);
    }
  }

  lemma NoiseGrows(p: Setup, m: Neighbor, n: Neighbor)
    requires ValidSetup(p) && p.hasYvar && m.yvar <= n.yvar
    ensures NoiseVar(p, m) <= NoiseVar(p, n)
    ensures m.yvar < n.yvar ==> NoiseVar(p, m) < NoiseVar(p, n)
  {
    var d := Times(p.yScale, p.yScale);
    PositiveTimes(p.yScale, p.yScale);
    OverTimes(n.yvar, d);
    OverTimes(m.yvar, d);
    OverLe(m.yvar, d, Over(n.yvar, d));
    OverLe(n.yvar, d, Over(m.yvar, d));
  }

  /** The normalised weights are positive and sum to one. */
  lemma WeightsSumToOne(p: Setup, ns: seq<Neighbor>)
    requires ValidSetup(p) && ValidNeighbors(ns)
    ensures Sum(Normalized(p, ns)) == 1.0
    ensures forall i | 0 <= i < |ns| :: 0.0 < Normalized(p, ns)[i] <= 1.0
  {
    var w, v, inv := Weights(p, ns), Normalized(p, ns), EpistemicVar(p, ns);
    NormPositive(p, ns);
    ScaledSum(w, inv, v);
    OverTimes(1.0, Sum(w));
    TimesCommutes(Sum(w), inv);
    forall i | 0 <= i < |ns| ensures v[i] > 0.0 {
      WeightRange(p, ns, i);
      PositiveTimes(w[i], inv);
    }
    forall i | 0 <= i < |ns| ensures v[i] <= 1.0 {
      PartOfSum(v, i);
    }
  }

  /** The mean lies between the least and the greatest neighbour value. */
  lemma MeanWithinNeighbors(p: Setup, ns: seq<Neighbor>, lo: real, hi: real)
    requires ValidSetup(p) && ValidNeighbors(ns)
    requires forall i | 0 <= i < |ns| :: lo <= ns[i].y <= hi
    ensures lo <= Dot(Normalized(p, ns), Values(ns)) <= hi
  {
    WeightsSumToOne(p, ns);
    DotBounds(Normalized(p, ns), Values(ns), lo, hi);
    assert Times(lo, 1.0) == lo && Times(hi, 1.0) == hi;
  }

  /** The squared norm of the weights lies between one over their number and one. */
  lemma WeightNormRange(p: Setup, ns: seq<Neighbor>)
    requires ValidSetup(p) && ValidNeighbors(ns)
    ensures Over(1.0, |ns| as real) <= SumSquares(Normalized(p, ns)) <= 1.0
  {
    var v, k := Normalized(p, ns), |ns| as real;
    var c := Over(1.0, k);
    WeightsSumToOne(p, ns);
    SquaresBelow(v);
    SquaresAboveTangent(v, c);
    OverTimes(1.0, k);
    TimesCommutes(c, k);
    TimesAssociates(k, c, c);
    assert Times(1.0, c) == c && Times(c, 1.0) == c;
  }

  /** Combining never beats the variance floor shared among the neighbours, and is at least as good as every one alone. */
  lemma EpistemicVarRange(p: Setup, ns: seq<Neighbor>, i: nat)
    requires ValidSetup(p) && ValidNeighbors(ns) && i < |ns|
    ensures Over(EPS_VAR, |ns| as real) <= EpistemicVar(p, ns) <= VarTotal(p, ns[i])
  {
    var w, inv := Weights(p, ns), EpistemicVar(p, ns);
    NormPositive(p, ns);
    forall j | 0 <= j < |ns| ensures 0.0 < w[j] <= Over(1.0, EPS_VAR) {
      WeightRange(p, ns, j);
    }
    PartOfSum(w, i);
    InverseOfLarger(VarTotal(p, ns[i]), Sum(w));
    SumBounds(w, 0.0, Over(1.0, EPS_VAR));
    InverseOfSmaller(|ns| as real, EPS_VAR, Sum(w));
  }

  lemma InverseOfLarger(v: real, norm: real)
    requires v > 0.0 && norm > 0.0 && norm >= Over(1.0, v)
    ensures Over(1.0, norm) <= v
  {
    OverTimes(1.0, v);
    TimesLe(Over(1.0, v), norm, v);
    TimesCommutes(norm, v);
    OverLe(1.0, norm, v);
  }

  lemma InverseOfSmaller(k: real, eps: real, norm: real)
    requires k > 0.0 && eps > 0.0 && 0.0 < norm <= Times(k, Over(1.0, eps))
    ensures Over(eps, k) <= Over(1.0, norm)
  {
    var q := Over(1.0, norm);
    OverTimes(1.0, norm);
    TimesLe(norm, Times(k, Over(1.0, eps)), eps);
    TimesAssociates(k, Over(1.0, eps), eps);
    OverTimes(1.0, eps);
    assert Times(k, 1.0) == k;
    // norm * eps <= k, hence eps <= q * k.
    Reciprocal(norm, norm);
    TimesLe(Times(norm, eps), k, q);
    TimesCommutes(Times(norm, eps), q);
    TimesAssociates(q, norm, eps);
    assert Times(1.0, eps) == eps;
    TimesCommutes(k, q);
    OverLe(eps, k, q);
  }

  /** One more neighbour always leaves less variance. */
  lemma AnotherNeighborHelps(p: Setup, ns: seq<Neighbor>, n: Neighbor)
    requires ValidSetup(p) && ValidNeighbors(ns) && n.dist2 >= 0.0 && n.yvar >= 0.0
    ensures EpistemicVar(p, ns + [n]) < EpistemicVar(p, ns)
  {
    var more := ns + [n];
    assert more[..|ns|] == ns;
    WeightRange(p, more, |ns|);
    var a, b := Sum(Weights(p, ns)), Sum(Weights(p, more));
    assert Weights(p, more) == Weights(p, ns) + [Weights(p, more)[|ns|]];
    SumAdds(Weights(p, ns), Weights(p, more)[|ns|]);
    NormPositive(p, ns);
    InverseDecreases(a, b);
  }

  lemma InverseDecreases(a: real, b: real)
    requires 0.0 < a < b
    ensures Over(1.0, b) < Over(1.0, a)
  {
    var q := Over(1.0, a);
    Reciprocal(a, a);
    OverTimes(1.0, a);
    TimesCommutes(q, a);
    TimesLess(a, b, q);
    TimesCommutes(b, q);
    if Over(1.0, b) >= q {
      OverLe(1.0, b, q);
    }
  }

  // ---- Splitting the variance ----------------------------------------------

  function SeFromVarianceComponents(sqrt: real -> real, epistemicVar: real, aleatoricVar: real, yScale: real): (real, real, real) {
    var sum := epistemicVar + aleatoricVar;
    if sum < EPS_VAR then
      var se := Times(sqrt(EPS_VAR), yScale);
      (se, se, 0.0)
    else
      (Times(sqrt(sum), yScale), Times(sqrt(epistemicVar), yScale), Times(sqrt(aleatoricVar), yScale))
  }

  lemma RootSquared(sqrt: real -> real, x: real, scale: real)
    requires IsRoot(sqrt) && x >= 0.0
    ensures Squared(Times(sqrt(x), scale)) == Times(x, Squared(scale))
  {
    SquareOfProduct(sqrt(x), scale);
  }

  lemma SquareOfProduct(a: real, b: real)
    ensures Squared(Times(a, b)) == Times(Times(a, a), Squared(b))
  {
    TimesAssociates(Times(a, b), a, b);
    TimesCommutes(Times(a, b), a);
    TimesAssociates(a, a, b);
    TimesAssociates(Times(a, a), b, b);
  }

  /** The parts add up in squares on both sides of the floor, and the total never falls below it. */
  lemma ErrorsAddInSquares(sqrt: real -> real, epistemicVar: real, aleatoricVar: real, yScale: real)
    requires IsRoot(sqrt) && epistemicVar >= 0.0 && aleatoricVar >= 0.0
    ensures var (se, epi, ale) := SeFromVarianceComponents(sqrt, epistemicVar, aleatoricVar, yScale);
      && Squared(se) == Squared(epi) + Squared(ale)
      && Squared(se) == Times(if epistemicVar + aleatoricVar < EPS_VAR then EPS_VAR else epistemicVar + aleatoricVar, Squared(yScale))
      && Squared(se) >= Times(EPS_VAR, Squared(yScale))
      && (epistemicVar + aleatoricVar < EPS_VAR ==> ale == 0.0)
      && (epistemicVar + aleatoricVar >= EPS_VAR ==>
            Squared(epi) == Times(epistemicVar, Squared(yScale)) && Squared(ale) == Times(aleatoricVar, Squared(yScale)))
  {
    var sum := epistemicVar + aleatoricVar;
    if sum < EPS_VAR {
      RootSquared(sqrt, EPS_VAR, yScale);
      assert Squared(0.0) == 0.0;
    } else {
      RootSquared(sqrt, sum, yScale);
      RootSquared(sqrt, epistemicVar, yScale);
      RootSquared(sqrt, aleatoricVar, yScale);
      TimesAdds(epistemicVar, aleatoricVar, Squared(yScale));
      TimesLe(EPS_VAR, sum, Squared(yScale));
    }
  }

  // ---- The computation -----------------------------------------------------

  function AleatoricVar(p: Setup, ns: seq<Neighbor>): real
    requires ValidSetup(p) && ValidNeighbors(ns)
  {
    if p.observationNoise then Dot(Normalized(p, ns), Noises(p, ns)) else 0.0
  }

  /** What is computed for one query and one metric. */
  ghost predicate IsStats(sqrt: real -> real, p: Setup, ns: seq<Neighbor>, s: Stats)
    requires ValidSetup(p) && ValidNeighbors(ns)
  {
    && s.weights == Normalized(p, ns)
    && s.l2 == sqrt(SumSquares(Normalized(p, ns)))
    && s.mu == Dot(Normalized(p, ns), Values(ns))
    && (s.se, s.seEpi, s.seAle) == SeFromVarianceComponents(sqrt, EpistemicVar(p, ns), AleatoricVar(p, ns), p.yScale)
  }

  ghost predicate IsCell(sqrt: real -> real, p: Setup, ns: seq<Neighbor>, c: Cell)
    requires ValidSetup(p) && NonNegative(ns)
  {
    if ns == [] then c == NoNeighbors else c.Computed? && IsStats(sqrt, p, ns, c.stats)
  }

  /** Everything a caller may rely on, whatever the neighbours are. */
  lemma StatsAreSane(sqrt: real -> real, p: Setup, ns: seq<Neighbor>, s: Stats, lo: real, hi: real)
    requires IsRoot(sqrt) && ValidSetup(p) && ValidNeighbors(ns) && IsStats(sqrt, p, ns, s)
    requires forall i | 0 <= i < |ns| :: lo <= ns[i].y <= hi
    ensures Sum(s.weights) == 1.0 && lo <= s.mu <= hi
    ensures Over(1.0, |ns| as real) <= Squared(s.l2) <= 1.0
    ensures Squared(s.se) == Squared(s.seEpi) + Squared(s.seAle) >= Times(EPS_VAR, Squared(p.yScale))
    ensures forall i, j | 0 <= i < |ns| && 0 <= j < |ns| && NoWorse(p, ns[i], ns[j]) :: s.weights[i] >= s.weights[j] > 0.0
  {
    WeightsSumToOne(p, ns);
    forall i, j | 0 <= i < |ns| && 0 <= j < |ns| && NoWorse(p, ns[i], ns[j]) ensures s.weights[i] >= s.weights[j] {
      NearerWeighsMore(p, ns, i, j);
    }
    MeanWithinNeighbors(p, ns, lo, hi);
    WeightNormRange(p, ns);
    AleatoricNonNegative(p, ns);
    ErrorsAddInSquares(sqrt, EpistemicVar(p, ns), AleatoricVar(p, ns), p.yScale);
  }

  /** The aleatoric part is a weighted mean of the neighbours' noise variances, and nothing when noise was not asked for. */
  lemma AleatoricRange(p: Setup, ns: seq<Neighbor>, lo: real, hi: real)
    requires ValidSetup(p) && ValidNeighbors(ns)
    requires forall i | 0 <= i < |ns| :: lo <= p.aleatoricScale + NoiseVar(p, ns[i]) <= hi
    ensures if p.observationNoise then lo <= AleatoricVar(p, ns) <= hi else AleatoricVar(p, ns) == 0.0
  {
    WeightsSumToOne(p, ns);
    DotBounds(Normalized(p, ns), Noises(p, ns), lo, hi);
    assert Times(lo, 1.0) == lo && Times(hi, 1.0) == hi;
  }

  lemma AleatoricNonNegative(p: Setup, ns: seq<Neighbor>)
    requires ValidSetup(p) && ValidNeighbors(ns)
    ensures AleatoricVar(p, ns) >= 0.0
  {
    WeightsSumToOne(p, ns);
    var v, y := Normalized(p, ns), Noises(p, ns);
    NonNegativeDot(v, y);
  }

  lemma {:induction false} NonNegativeDot(v: seq<real>, y: seq<real>)
    requires |v| == |y| && forall i | 0 <= i < |v| :: v[i] >= 0.0 && y[i] >= 0.0
    ensures Dot(v, y) >= 0.0
  {
    if v != [] {
      var n := |v| - 1;
      NonNegativeDot(v[..n], y[..n]);
      NonNegativeTimes(v[n], y[n]);
    }
  }

  /** One query and one metric, from the weights of its neighbours. */
  method CellStats(sqrt: real -> real, p: Setup, ns: seq<Neighbor>, w: seq<real>) returns (s: Stats)
    requires ValidSetup(p) && ValidNeighbors(ns) && w == Weights(p, ns)
    ensures IsStats(sqrt, p, ns, s)
  {
    var k := |ns|;
    var norm := 0.0;
    for j := 0 to k
      invariant norm == Sum(w[..j])
    {
      assert w[..j + 1][..j] == w[..j];
      norm := norm + w[j];
    }
    assert w[..k] == w;
    NormPositive(p, ns);
    var invNorm := Over(1.0, norm);
    var weights, l2Sq, mu := Combine(w, Values(ns), invNorm);
    assert weights == Normalized(p, ns);
    var aleatoricVar := 0.0;
    if p.observationNoise {
      aleatoricVar := Noise(p, ns, weights);
    }
    var (se, seEpi, seAle) := SeFromVarianceComponents(sqrt, invNorm, aleatoricVar, p.yScale);
    s := Stats(weights, sqrt(l2Sq), mu, se, seEpi, seAle);
  }

  /** Scales the weights and gathers their squares and the weighted values on the way. */
  method Combine(w: seq<real>, y: seq<real>, invNorm: real) returns (weights: seq<real>, l2Sq: real, mu: real)
    requires |w| == |y|
    ensures |weights| == |w| && forall j | 0 <= j < |w| :: weights[j] == Times(w[j], invNorm)
    ensures l2Sq == SumSquares(weights) && mu == Dot(weights, y)
  {
    weights, l2Sq, mu := [], 0.0, 0.0;
    for j := 0 to |w|
      invariant |weights| == j && forall i | 0 <= i < j :: weights[i] == Times(w[i], invNorm)
      invariant l2Sq == SumSquares(weights) && mu == Dot(weights, y[..j])
    {
      var wNorm := Times(w[j], invNorm);
      SumsNext(weights, y, wNorm);
      weights := weights + [wNorm];
      l2Sq := l2Sq + Squared(wNorm);
      mu := mu + Times(wNorm, y[j]);
    }
    assert y[..|w|] == y;
  }

  lemma SumsNext(v: seq<real>, y: seq<real>, x: real)
    requires |v| < |y|
    ensures SumSquares(v + [x]) == SumSquares(v) + Squared(x)
    ensures Dot(v + [x], y[..|v| + 1]) == Dot(v, y[..|v|]) + Times(x, y[|v|])
  {
    var more, n := v + [x], |v|;
    assert more[..n] == v && y[..n + 1][..n] == y[..n];
  }

  method Noise(p: Setup, ns: seq<Neighbor>, weights: seq<real>) returns (sum: real)
    requires ValidSetup(p) && ValidNeighbors(ns) && |weights| == |ns|
    ensures sum == Dot(weights, Noises(p, ns))
  {
    sum := 0.0;
    ghost var noises := Noises(p, ns);
    for j := 0 to |ns|
      invariant sum == Dot(weights[..j], noises[..j])
    {
      assert weights[..j + 1][..j] == weights[..j] && noises[..j + 1][..j] == noises[..j];
      var varAle := p.aleatoricScale + NoiseVar(p, ns[j]);
      sum := sum + Times(weights[j], varAle);
    }
    assert weights[..|ns|] == weights && noises[..|ns|] == noises;
  }

  /** The tables a batch of queries comes with; rows of `y` and `yvar` are grouped by query. */
  datatype Batch = Batch(dist2s: seq<seq<real>>, y: seq<seq<real>>, yvar: Option<seq<seq<real>>>,
                         epistemicScale: real, aleatoricScale: real, observationNoise: bool, yScale: seq<real>)

  ghost predicate Shaped(b: Batch, k: nat) {
    && Width(b.dist2s, k) && b.epistemicScale >= 0.0 && b.aleatoricScale >= 0.0
    && |b.y| == |b.dist2s| * k && Width(b.y, |b.yScale|)
    && (b.yvar.Some? ==> |b.yvar.value| == |b.dist2s| * k && Width(b.yvar.value, |b.yScale|))
    && (forall m | 0 <= m < |b.yScale| :: b.yScale[m] > 0.0)
    && (forall i, j | 0 <= i < |b.dist2s| && 0 <= j < k :: b.dist2s[i][j] >= 0.0)
    && (b.yvar.Some? ==> forall r, m | 0 <= r < |b.yvar.value| && 0 <= m < |b.yScale| :: b.yvar.value[r][m] >= 0.0)
  }

  function SetupFor(b: Batch, m: nat): Setup
    requires m < |b.yScale|
  {
    Setup(b.epistemicScale, b.aleatoricScale, b.yvar.Some?, b.observationNoise, b.yScale[m])
  }

  /** Row `r` of the tables is a neighbour of the query with these distances. */
  function NeighborAt(b: Batch, k: nat, i: nat, j: nat, m: nat): (n: Neighbor)
    requires Shaped(b, k) && i < |b.dist2s| && j < k && m < |b.yScale|
    ensures n.dist2 >= 0.0 && n.yvar >= 0.0
  {
    RowWithin(i, |b.dist2s|, k);
    var r := i * k + j;
    Neighbor(b.dist2s[i][j], b.y[r][m], if b.yvar.Some? then b.yvar.value[r][m] else 0.0)
  }

  function Neighbors(b: Batch, k: nat, i: nat, m: nat): (ns: seq<Neighbor>)
    requires Shaped(b, k) && i < |b.dist2s| && m < |b.yScale|
    ensures |ns| == k && NonNegative(ns)
  {
    seq(k, j requires 0 <= j < k => NeighborAt(b, k, i, j, m))
  }

  /** When the tables list the neighbours of one query after those of the other, every neighbour is read
      from its own query's part. */
  lemma NeighborIsOwn(b: Batch, k: nat, ys: seq<seq<seq<real>>>, i: nat, j: nat, m: nat)
    requires Shaped(b, k) && i < |b.dist2s| && j < k && m < |b.yScale|
    requires Width(ys, k) && |ys| == |b.dist2s| && b.y == Flatten(ys)
    ensures |ys[i][j]| == |b.yScale| && NeighborAt(b, k, i, j, m).y == ys[i][j][m]
    ensures NeighborAt(b, k, i, j, m).dist2 == b.dist2s[i][j]
  {
    FlatRow(ys, k, i);
    assert b.y[i * k..i * k + k][j] == b.y[i * k + j];
  }

  /** The same of the variances. */
  lemma VarianceIsOwn(b: Batch, k: nat, yvars: seq<seq<seq<real>>>, i: nat, j: nat, m: nat)
    requires Shaped(b, k) && i < |b.dist2s| && j < k && m < |b.yScale|
    requires b.yvar.Some? && Width(yvars, k) && |yvars| == |b.dist2s| && b.yvar.value == Flatten(yvars)
    ensures |yvars[i][j]| == |b.yScale| && NeighborAt(b, k, i, j, m).yvar == yvars[i][j][m]
  {
    FlatRow(yvars, k, i);
    assert b.yvar.value[i * k..i * k + k][j] == b.yvar.value[i * k + j];
  }

  method CellWeights(p: Setup, ns: seq<Neighbor>) returns (w: seq<real>)
    requires ValidSetup(p) && NonNegative(ns)
    ensures w == Weights(p, ns)
  {
    w := [];
    for j := 0 to |ns|
      invariant w == Weights(p, ns[..j])
    {
      assert ns[..j + 1][..j] == ns[..j];
      VarAtLeast(p, ns[j]);
      var varTotal := EPS_VAR + Times(p.epistemicScale, ns[j].dist2) + p.aleatoricScale + NoiseVar(p, ns[j]);
      w := w + [Over(1.0, varTotal)];
    }
    assert ns[..|ns|] == ns;
  }

  /** The variance of neighbour `j` of query `i` under metric `m`, from the tables alone. */
  ghost function TableVar(b: Batch, k: nat, i: nat, j: nat, m: nat): real
    requires Shaped(b, k) && i < |b.dist2s| && j < k && m < |b.yScale|
  {
    RowWithin(i, |b.dist2s|, k);
    0.000000001 + b.epistemicScale * b.dist2s[i][j] + b.aleatoricScale
    + (if b.yvar.Some? then b.yvar.value[i * k + j][m] / b.yScale[m] / b.yScale[m] else 0.0)
  }

  lemma TableVarIs(b: Batch, k: nat, i: nat, j: nat, m: nat)
    requires Shaped(b, k) && i < |b.dist2s| && j < k && m < |b.yScale|
    ensures VarTotal(SetupFor(b, m), NeighborAt(b, k, i, j, m)) == TableVar(b, k, i, j, m)
  {
    VarTotalIs(SetupFor(b, m), NeighborAt(b, k, i, j, m));
  }

  /** In every cell the weights are inversely proportional to the variances of the tables. */
  lemma CellWeightsAreInverse(sqrt: real -> real, b: Batch, k: nat, stats: seq<seq<Cell>>, i: nat, m: nat, j: nat, l: nat)
    requires Shaped(b, k) && RowsDone(sqrt, b, k, stats) && i < |stats| && m < |b.yScale| && j < k && l < k
    ensures stats[i][m].Computed? && |stats[i][m].stats.weights| == k
    ensures var w := stats[i][m].stats.weights;
      Times(w[j], TableVar(b, k, i, j, m)) == Times(w[l], TableVar(b, k, i, l, m))
  {
    assert RowDone(sqrt, b, k, i, stats[i]);
    assert IsCell(sqrt, SetupFor(b, m), Neighbors(b, k, i, m), stats[i][m]);
    TableVarIs(b, k, i, j, m);
    TableVarIs(b, k, i, l, m);
    WeightsAreInverse(SetupFor(b, m), Neighbors(b, k, i, m), j, l);
  }

  ghost predicate RowDone(sqrt: real -> real, b: Batch, k: nat, i: nat, row: seq<Cell>)
    requires Shaped(b, k) && i < |b.dist2s|
  {
    && |row| <= |b.yScale|
    && forall m: nat | m < |row| :: IsCell(sqrt, SetupFor(b, m), Neighbors(b, k, i, m), row[m])
  }

  method QueryStats(sqrt: real -> real, b: Batch, k: nat, i: nat) returns (row: seq<Cell>)
    requires Shaped(b, k) && i < |b.dist2s|
    ensures |row| == |b.yScale| && RowDone(sqrt, b, k, i, row)
  {
    row := [];
    for m := 0 to |b.yScale|
      invariant |row| == m && RowDone(sqrt, b, k, i, row)
    {
      var p, ns := SetupFor(b, m), Neighbors(b, k, i, m);
      var w := CellWeights(p, ns);
      var cell := NoNeighbors;
      if k > 0 {
        var s := CellStats(sqrt, p, ns, w);
        cell := Computed(s);
      }
      row := row + [cell];
    }
  }

  /** Every cell of these rows belongs to its own query and its own metric. */
  ghost predicate RowsDone(sqrt: real -> real, b: Batch, k: nat, stats: seq<seq<Cell>>)
    requires Shaped(b, k)
  {
    && |stats| <= |b.dist2s|
    && forall i | 0 <= i < |stats| :: |stats[i]| == |b.yScale| && RowDone(sqrt, b, k, i, stats[i])
  }

  method ComputeWeightedStats(sqrt: real -> real, b: Batch, k: nat) returns (stats: seq<seq<Cell>>)
    requires Shaped(b, k)
    ensures |stats| == |b.dist2s| && RowsDone(sqrt, b, k, stats)
  {
    stats := [];
    for i := 0 to |b.dist2s|
      invariant |stats| == i && RowsDone(sqrt, b, k, stats)
    {
      var row := QueryStats(sqrt, b, k, i);
      AddRow(sqrt, b, k, stats, row);
      stats := stats + [row];
    }
  }

  lemma AddRow(sqrt: real -> real, b: Batch, k: nat, stats: seq<seq<Cell>>, row: seq<Cell>)
    requires Shaped(b, k) && RowsDone(sqrt, b, k, stats) && |stats| < |b.dist2s|
    requires |row| == |b.yScale| && RowDone(sqrt, b, k, |stats|, row)
    ensures RowsDone(sqrt, b, k, stats + [row])
  {
    var more := stats + [row];
    forall i | 0 <= i < |more| ensures |more[i]| == |b.yScale| && RowDone(sqrt, b, k, i, more[i]) {
      assert i < |stats| ==> more[i] == stats[i];
    }
  }
}
