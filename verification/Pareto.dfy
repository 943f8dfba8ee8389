/**
 What non-dominated sorting means: objectives are maximised, and the fronts of a
 candidate set are its maxima, the maxima of what is left, and so on.
 */
module Pareto {

  /** One row of objective values per candidate. */
  type Matrix = seq<seq<real>>

  ghost predicate HasColumns(y: Matrix, m: nat) {
    forall i | 0 <= i < |y| :: |y[i]| == m
  }

  predicate Dominates(y: Matrix, m: nat, i: nat, j: nat)
    requires HasColumns(y, m) && i < |y| && j < |y|
  {
    && (forall k | 0 <= k < m :: y[i][k] >= y[j][k])
    && (exists k | 0 <= k < m :: y[i][k] > y[j][k])
  }

  /** To dominate is to be at least as good in every objective without being the same row. */
  lemma DominatesMeans(y: Matrix, m: nat, i: nat, j: nat)
    requires HasColumns(y, m) && i < |y| && j < |y|
    ensures Dominates(y, m, i, j) <==> (forall k | 0 <= k < m :: y[i][k] >= y[j][k]) && y[i] != y[j]
  {
    if (forall k | 0 <= k < m :: y[i][k] >= y[j][k]) && y[i] != y[j] {
      var k :| 0 <= k < m && y[i][k] != y[j][k];
      assert y[i][k] > y[j][k];
    }
  }

  ghost predicate Within(y: Matrix, s: set<nat>) {
    forall i | i in s :: i < |y|
  }

  /** The candidates 0..n. */
  ghost function Range(n: nat): (s: set<nat>)
    ensures forall i: nat :: i in s <==> i < n
    ensures |s| == n
  {
    if n == 0 then {} else Range(n - 1) + {n - 1}
  }

  ghost function DominatorsIn(y: Matrix, m: nat, s: set<nat>, j: nat): (d: set<nat>)
    requires HasColumns(y, m) && Within(y, s) && j < |y|
  {
    set i | i in s && Dominates(y, m, i, j)
  }

  ghost function Maxima(y: Matrix, m: nat, s: set<nat>): (front: set<nat>)
    requires HasColumns(y, m) && Within(y, s)
  {
    set i | i in s && DominatorsIn(y, m, s, i) == {}
  }

  lemma DominanceIsStrictOrder(y: Matrix, m: nat, a: nat, b: nat, c: nat)
    requires HasColumns(y, m) && a < |y| && b < |y| && c < |y|
    ensures !Dominates(y, m, a, a)
    ensures Dominates(y, m, a, b) && Dominates(y, m, b, c) ==> Dominates(y, m, a, c)
  {
    if Dominates(y, m, a, b) && Dominates(y, m, b, c) {
      var k :| 0 <= k < m && y[a][k] > y[b][k];
      assert y[a][k] > y[c][k];
    }
  }

  /** Above every candidate of a set there is, or it is itself, a maximal one. */
  lemma {:induction false} MaximalAbove(y: Matrix, m: nat, s: set<nat>, j: nat) returns (top: nat)
    requires HasColumns(y, m) && Within(y, s) && j in s
    ensures top in Maxima(y, m, s)
    ensures top == j || Dominates(y, m, top, j)
    decreases |s|
  {
    var above := DominatorsIn(y, m, s, j);
    if above == {} {
      return j;
    }
    DominanceIsStrictOrder(y, m, j, j, j);
    assert above <= s - {j};
    Shrinks(above, s, j);
    var i :| i in above;
    top := MaximalAbove(y, m, above, i);
    forall d | d in DominatorsIn(y, m, s, top) ensures d in DominatorsIn(y, m, above, top) {
      DominanceIsStrictOrder(y, m, d, top, j);
    }
  }

  lemma Shrinks(a: set<nat>, s: set<nat>, x: nat)
    requires a <= s - {x} && x in s
    ensures |a| < |s|
  {
    Smaller(a, s - {x});
  }

  lemma {:induction false} Smaller(a: set<nat>, b: set<nat>)
    requires a <= b
    ensures |a| <= |b| && |b - a| == |b| - |a|
  {
    assert b == a + (b - a);
  }

  lemma MaximaNonempty(y: Matrix, m: nat, s: set<nat>)
    requires HasColumns(y, m) && Within(y, s) && s != {}
    ensures Maxima(y, m, s) != {} && |s - Maxima(y, m, s)| < |s|
  {
    var j :| j in s;
    var top := MaximalAbove(y, m, s, j);
    Smaller(Maxima(y, m, s), s);
  }

  /** The fronts: maxima, then maxima of the rest, until nothing is left. */
  ghost function Fronts(y: Matrix, m: nat, s: set<nat>): (fronts: seq<set<nat>>)
    requires HasColumns(y, m) && Within(y, s)
    decreases |s|
  {
    if s == {} then []
    else
      var front := Maxima(y, m, s);
      MaximaNonempty(y, m, s);
      [front] + Fronts(y, m, s - front)
  }

  ghost function Union(sets: seq<set<nat>>): (u: set<nat>) {
    if sets == [] then {} else sets[0] + Union(sets[1..])
  }

  ghost predicate Partitions(parts: seq<set<nat>>, s: set<nat>) {
    && Union(parts) == s
    && (forall t, u | 0 <= t < u < |parts| :: parts[t] !! parts[u])
    && (forall t | 0 <= t < |parts| :: parts[t] != {})
  }

  lemma PartInUnion(parts: seq<set<nat>>, t: nat)
    requires t < |parts|
    ensures parts[t] <= Union(parts)
  {
    if t > 0 {
      PartInUnion(parts[1..], t - 1);
    }
  }

  lemma PartitionsCons(part: set<nat>, parts: seq<set<nat>>, s: set<nat>)
    requires part != {} && part <= s && Partitions(parts, s - part)
    ensures Partitions([part] + parts, s)
  {
    var all := [part] + parts;
    assert all[1..] == parts;
    forall t, u | 0 <= t < u < |all| ensures all[t] !! all[u] {
      PartInUnion(parts, u - 1);
    }
  }

  /** The fronts partition the candidates: nobody is lost, nobody is in two fronts, none is empty. */
  lemma {:induction false} FrontsPartition(y: Matrix, m: nat, s: set<nat>)
    requires HasColumns(y, m) && Within(y, s)
    ensures Partitions(Fronts(y, m, s), s)
    decreases |s|
  {
    if s != {} {
      var front := Maxima(y, m, s);
      MaximaNonempty(y, m, s);
      FrontsPartition(y, m, s - front);
      PartitionsCons(front, Fronts(y, m, s - front), s);
    }
  }

  ghost function Head(chain: seq<nat>, i: nat): nat {
    if chain == [] then i else chain[0]
  }

  /** `chain` lists candidates of `s`, each dominating the next and the last one dominating `i`. */
  ghost predicate ChainAbove(y: Matrix, m: nat, s: set<nat>, chain: seq<nat>, i: nat)
    requires HasColumns(y, m) && Within(y, s) && i < |y|
    decreases |chain|
  {
    chain == [] ||
    (chain[0] in s && Head(chain[1..], i) < |y|
     && Dominates(y, m, chain[0], Head(chain[1..], i)) && ChainAbove(y, m, s, chain[1..], i))
  }

  lemma {:induction false} LastInChainDominates(y: Matrix, m: nat, s: set<nat>, chain: seq<nat>, i: nat)
    requires HasColumns(y, m) && Within(y, s) && i < |y|
    requires chain != [] && ChainAbove(y, m, s, chain, i)
    ensures DominatorsIn(y, m, s, i) != {}
  {
    if |chain| == 1 {
      assert chain[0] in DominatorsIn(y, m, s, i);
    } else {
      LastInChainDominates(y, m, s, chain[1..], i);
    }
  }

  lemma {:induction false} ChainInLargerSet(y: Matrix, m: nat, s: set<nat>, r: set<nat>, chain: seq<nat>, i: nat)
    requires HasColumns(y, m) && Within(y, s) && r <= s && i < |y|
    requires ChainAbove(y, m, r, chain, i)
    ensures ChainAbove(y, m, s, chain, i)
  {
    if chain != [] {
      ChainInLargerSet(y, m, s, r, chain[1..], i);
    }
  }

  /** A chain below the first front is headed by a dominated candidate, so it can be extended. */
  lemma ChainGrows(y: Matrix, m: nat, s: set<nat>, c: seq<nat>, i: nat) returns (longer: seq<nat>)
    requires HasColumns(y, m) && Within(y, s) && i in s - Maxima(y, m, s)
    requires ChainAbove(y, m, s - Maxima(y, m, s), c, i)
    ensures |longer| == |c| + 1 && ChainAbove(y, m, s, longer, i)
  {
    var head := Head(c, i);
    var d :| d in DominatorsIn(y, m, s, head);
    longer := [d] + c;
    assert longer[1..] == c;
    ChainInLargerSet(y, m, s, s - Maxima(y, m, s), c, i);
  }

  /** Everything in a chain but its head is dominated, so lies below the first front. */
  lemma {:induction false} ChainTailBelowFront(y: Matrix, m: nat, s: set<nat>, chain: seq<nat>, i: nat)
    requires HasColumns(y, m) && Within(y, s) && i < |y|
    requires chain != [] && ChainAbove(y, m, s, chain, i)
    ensures ChainAbove(y, m, s - Maxima(y, m, s), chain[1..], i)
  {
    var tail := chain[1..];
    if tail != [] {
      assert chain[0] in DominatorsIn(y, m, s, tail[0]);
      ChainTailBelowFront(y, m, s, tail, i);
    }
  }

  /** `i` is a maximum after `t` rounds of peeling. */
  ghost predicate InFront(y: Matrix, m: nat, s: set<nat>, t: nat, i: nat)
    requires HasColumns(y, m) && Within(y, s)
    decreases t
  {
    if t == 0 then i in Maxima(y, m, s) else InFront(y, m, s - Maxima(y, m, s), t - 1, i)
  }

  lemma {:induction false} FrontsPeel(y: Matrix, m: nat, s: set<nat>, t: nat, i: nat)
    requires HasColumns(y, m) && Within(y, s)
    requires t < |Fronts(y, m, s)| && i in Fronts(y, m, s)[t]
    ensures InFront(y, m, s, t, i)
    decreases t
  {
    if t > 0 {
      var rest := s - Maxima(y, m, s);
      assert Fronts(y, m, s) == [Maxima(y, m, s)] + Fronts(y, m, rest);
      FrontsPeel(y, m, rest, t - 1, i);
    }
  }

  lemma {:induction false} InFrontIsMember(y: Matrix, m: nat, s: set<nat>, t: nat, i: nat)
    requires HasColumns(y, m) && Within(y, s) && InFront(y, m, s, t, i)
    ensures i in s
    decreases t
  {
    if t > 0 {
      InFrontIsMember(y, m, s - Maxima(y, m, s), t - 1, i);
    }
  }

  lemma {:induction false} ChainToFront(y: Matrix, m: nat, s: set<nat>, t: nat, i: nat) returns (chain: seq<nat>)
    requires HasColumns(y, m) && Within(y, s) && i in s && InFront(y, m, s, t, i)
    ensures |chain| == t && ChainAbove(y, m, s, chain, i)
    decreases t
  {
    chain := [];
    if t > 0 {
      InFrontIsMember(y, m, s - Maxima(y, m, s), t - 1, i);
      var c := ChainToFront(y, m, s - Maxima(y, m, s), t - 1, i);
      chain := ChainGrows(y, m, s, c, i);
    }
  }

  lemma {:induction false} NoLongerChain(y: Matrix, m: nat, s: set<nat>, t: nat, i: nat, chain: seq<nat>)
    requires HasColumns(y, m) && Within(y, s) && i < |y| && InFront(y, m, s, t, i)
    requires ChainAbove(y, m, s, chain, i)
    ensures |chain| <= t
    decreases t
  {
    if chain != [] {
      if t == 0 {
        LastInChainDominates(y, m, s, chain, i);
      } else {
        ChainTailBelowFront(y, m, s, chain, i);
        NoLongerChain(y, m, s - Maxima(y, m, s), t - 1, i, chain[1..]);
      }
    }
  }

  /** The front number of a candidate is the length of its longest chain of dominators:
      such a chain exists, and no chain is longer. */
  lemma FrontNumberIsLongestChain(y: Matrix, m: nat, s: set<nat>, t: nat, i: nat)
    requires HasColumns(y, m) && Within(y, s)
    requires t < |Fronts(y, m, s)| && i in Fronts(y, m, s)[t]
    ensures i in s
    ensures exists chain :: |chain| == t && ChainAbove(y, m, s, chain, i)
    ensures forall chain | ChainAbove(y, m, s, chain, i) :: |chain| <= t
  {
    FrontsPeel(y, m, s, t, i);
    InFrontIsMember(y, m, s, t, i);
    var longest := ChainToFront(y, m, s, t, i);
    forall chain | ChainAbove(y, m, s, chain, i) ensures |chain| <= t {
      NoLongerChain(y, m, s, t, i, chain);
    }
  }

  // ---- The fronts in terms of the rows ---------------------------------------

  /** Row `j` is another row than `i` and at least as good everywhere. */
  ghost predicate Beats(y: Matrix, j: nat, i: nat) {
    && i < |y| && j < |y| && |y[i]| == |y[j]| && y[i] != y[j]
    && forall k | 0 <= k < |y[i]| :: y[j][k] >= y[i][k]
  }

  /** `i` is in one of the first `t` fronts. */
  ghost predicate Placed(fronts: seq<set<nat>>, t: nat, i: nat) {
    exists e :: 0 <= e < t && e < |fronts| && i in fronts[e]
  }

  ghost predicate BeatenIn(y: Matrix, front: set<nat>, i: nat) {
    exists j :: j in front && Beats(y, j, i)
  }

  /** Every row is in one front; whoever beats it is in an earlier one, and someone in the front just
      before does beat it. */
  ghost predicate Layered(y: Matrix, fronts: seq<set<nat>>) {
    && (forall i: nat :: i < |y| <==> Placed(fronts, |fronts|, i))
    && (forall t | 0 <= t < |fronts| :: fronts[t] != {})
    && (forall t, u | 0 <= t < u < |fronts| :: fronts[t] !! fronts[u])
    && (forall t, i, j | 0 <= t < |fronts| && i in fronts[t] && Beats(y, j, i) :: Placed(fronts, t, j))
    && (forall t, i | 0 < t < |fronts| && i in fronts[t] :: PreviousBeats(y, fronts, t, i))
  }

  ghost predicate PreviousBeats(y: Matrix, fronts: seq<set<nat>>, t: nat, i: nat)
    requires 0 < t < |fronts|
  {
    BeatenIn(y, fronts[t - 1], i)
  }

  lemma BeatsIsDominates(y: Matrix, m: nat, j: nat, i: nat)
    requires HasColumns(y, m) && i < |y| && j < |y|
    ensures Beats(y, j, i) <==> Dominates(y, m, j, i)
  {
    DominatesMeans(y, m, j, i);
  }

  lemma NoneBeatsMaximum(y: Matrix, m: nat, s: set<nat>, i: nat, j: nat)
    requires HasColumns(y, m) && Within(y, s) && i in Maxima(y, m, s) && j in s
    ensures !Beats(y, j, i)
  {
    BeatsIsDominates(y, m, j, i);
    assert j !in DominatorsIn(y, m, s, i);
  }

  lemma SomeMaximumBeats(y: Matrix, m: nat, s: set<nat>, i: nat)
    requires HasColumns(y, m) && Within(y, s) && i in s - Maxima(y, m, s)
    ensures BeatenIn(y, Maxima(y, m, s), i)
  {
    var top := MaximalAbove(y, m, s, i);
    BeatsIsDominates(y, m, top, i);
  }

  /** Who beats a member of front `t` of a set is in an earlier front of it, and one in the front before does. */
  lemma {:induction false} FrontBeaten(y: Matrix, m: nat, s: set<nat>, t: nat, i: nat)
    requires HasColumns(y, m) && Within(y, s) && t < |Fronts(y, m, s)| && i in Fronts(y, m, s)[t]
    ensures i in s && (t > 0 ==> PreviousBeats(y, Fronts(y, m, s), t, i))
    ensures forall j | j in s && Beats(y, j, i) :: Placed(Fronts(y, m, s), t, j)
    decreases t
  {
    var fronts, front := Fronts(y, m, s), Maxima(y, m, s);
    var rest := s - front;
    var later := Fronts(y, m, rest);
    assert fronts == [front] + later;
    if t == 0 {
      forall j | j in s ensures !Beats(y, j, i) {
        NoneBeatsMaximum(y, m, s, i, j);
      }
    } else {
      FrontBeaten(y, m, rest, t - 1, i);
      forall j | j in s && Beats(y, j, i) ensures Placed(fronts, t, j) {
        PlacedShifts(front, later, t - 1, j);
      }
      if t == 1 {
        SomeMaximumBeats(y, m, s, i);
      } else {
        assert fronts[t - 1] == later[t - 2] && BeatenIn(y, later[t - 2], i);
      }
    }
  }

  lemma PlacedShifts(front: set<nat>, later: seq<set<nat>>, t: nat, j: nat)
    ensures j in front || Placed(later, t, j) ==> Placed([front] + later, t + 1, j)
  {
    var fronts := [front] + later;
    if j in front {
      assert j in fronts[0];
    } else if Placed(later, t, j) {
      var e :| 0 <= e < t && e < |later| && j in later[e];
      assert j in fronts[e + 1];
    }
  }

  /** The fronts of all rows are layered by who beats whom, without any mention of how they are peeled. */
  lemma FrontsAreLayered(y: Matrix, m: nat)
    requires HasColumns(y, m)
    ensures Layered(y, Fronts(y, m, Range(|y|)))
  {
    var s := Range(|y|);
    var fronts := Fronts(y, m, s);
    FrontsPartition(y, m, s);
    forall i: nat ensures i < |y| <==> Placed(fronts, |fronts|, i) {
      InUnion(fronts, i);
    }
    forall t, i, j | 0 <= t < |fronts| && i in fronts[t] && Beats(y, j, i) ensures Placed(fronts, t, j) {
      FrontBeaten(y, m, s, t, i);
    }
    forall t, i | 0 < t < |fronts| && i in fronts[t] ensures PreviousBeats(y, fronts, t, i) {
      FrontBeaten(y, m, s, t, i);
    }
  }

  lemma {:induction false} InUnion(sets: seq<set<nat>>, x: nat)
    ensures x in Union(sets) <==> Placed(sets, |sets|, x)
  {
    if sets != [] {
      InUnion(sets[1..], x);
      PlacedShifts(sets[0], sets[1..], |sets| - 1, x);
      assert sets == [sets[0]] + sets[1..];
      if x !in sets[0] && Placed(sets, |sets|, x) {
        var e :| 0 <= e < |sets| && x in sets[e];
        assert x in sets[1..][e - 1];
      }
    }
  }

  /** That is only so in one way, so it says what the fronts are. */
  lemma LayeredIsUnique(y: Matrix, f: seq<set<nat>>, g: seq<set<nat>>)
    requires Layered(y, f) && Layered(y, g)
    ensures f == g
  {
    SameLayers(y, f, g, |f|);
    SameLayers(y, g, f, |g|);
  }

  ghost predicate Agree(f: seq<set<nat>>, g: seq<set<nat>>, t: nat) {
    t <= |f| && t <= |g| && forall e | 0 <= e < t :: f[e] == g[e]
  }

  lemma {:induction false} SameLayers(y: Matrix, f: seq<set<nat>>, g: seq<set<nat>>, t: nat)
    requires Layered(y, f) && Layered(y, g) && t <= |f|
    ensures Agree(f, g, t)
  {
    if t > 0 {
      SameLayers(y, f, g, t - 1);
      LayerWithin(y, f, g, t - 1);
      LayerWithin(y, g, f, t - 1);
    }
  }

  lemma LayerWithin(y: Matrix, f: seq<set<nat>>, g: seq<set<nat>>, t: nat)
    requires Layered(y, f) && Layered(y, g) && Agree(f, g, t) && t < |f|
    ensures t < |g| && f[t] <= g[t]
  {
    forall i | i in f[t] ensures t < |g| && i in g[t] {
      assert Placed(f, |f|, i);
      assert Placed(g, |g|, i);
      var u :| 0 <= u < |g| && i in g[u];
      NotElsewhere(y, f, g, t, u, i);
    }
    var i :| i in f[t];
  }

  lemma NotElsewhere(y: Matrix, f: seq<set<nat>>, g: seq<set<nat>>, t: nat, u: nat, i: nat)
    requires Layered(y, f) && Layered(y, g) && Agree(f, g, t) && t < |f| && u < |g| && i in f[t] && i in g[u]
    ensures u == t
  {
    hide Layered;
    if u < t {
      OnlyOnce(y, f, u, t, i);
    } else if t < u {
      var j := EarlierBeater(y, g, u, i);
      var e := BeaterPlaced(y, f, t, i, j);
      OnlyOnce(y, g, e, u - 1, j);
    }
  }

  lemma OnlyOnce(y: Matrix, fronts: seq<set<nat>>, t: nat, u: nat, i: nat)
    requires Layered(y, fronts) && t < |fronts| && u < |fronts| && i in fronts[t] && i in fronts[u]
    ensures t == u
  {
  }

  lemma EarlierBeater(y: Matrix, fronts: seq<set<nat>>, t: nat, i: nat) returns (j: nat)
    requires Layered(y, fronts) && 0 < t < |fronts| && i in fronts[t]
    ensures j in fronts[t - 1] && Beats(y, j, i)
  {
    assert PreviousBeats(y, fronts, t, i);
    j :| j in fronts[t - 1] && Beats(y, j, i);
  }

  lemma BeaterPlaced(y: Matrix, fronts: seq<set<nat>>, t: nat, i: nat, j: nat) returns (e: nat)
    requires Layered(y, fronts) && t < |fronts| && i in fronts[t] && Beats(y, j, i)
    ensures e < t && j in fronts[e]
  {
    assert Placed(fronts, t, j);
    e :| 0 <= e < t && e < |fronts| && j in fronts[e];
  }
}
