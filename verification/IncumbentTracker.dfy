/**
 The incremental incumbent tracker: whatever has been told, the bounded summary it keeps
 answers as if the whole history had been kept.
 */
module IncumbentTracker {
  import opened Sorting

  const ALL_CANDIDATES_M_THRESHOLD := 1_000_000_000

  /** An observation: its index and its objective values. */
  datatype Told = Told(index: nat, y: seq<real>)

  datatype Entry = Entry(index: nat, value: real)

  /** Best value first, smaller index first among equals. */
  predicate EntryLe(a: Entry, b: Entry) {
    a.value > b.value || (a.value == b.value && a.index <= b.index)
  }

  const Better: (Entry, Entry) -> bool := (a, b) => EntryLe(a, b)

  const Ascending: (nat, nat) -> bool := (a, b) => a <= b

  lemma BetterIsTotalOrder()
    ensures TotalOrder(Better)
  {
  }

  lemma AscendingIsTotalOrder()
    ensures TotalOrder(Ascending)
  {
  }

  function TopEntries(entries: seq<Entry>, m: nat): (r: seq<Entry>)
    ensures |r| == Min(m, |entries|)
  {
    BetterIsTotalOrder();
    Top(Better, entries, m)
  }

  /** How many entries come before `e`: larger ones, and as large ones with a smaller index. */
  function Ahead(entries: seq<Entry>, e: Entry): (n: nat)
    ensures n <= |entries|
  {
    if entries == [] then 0 else
      var last := entries[|entries| - 1];
      Ahead(entries[..|entries| - 1], e) + if last.value > e.value || (last.value == e.value && last.index < e.index) then 1 else 0
  }

  lemma {:induction false} AheadAdds(a: seq<Entry>, b: seq<Entry>, e: Entry)
    ensures Ahead(a + b, e) == Ahead(a, e) + Ahead(b, e)
  {
    if b == [] {
      assert a + b == a;
    } else {
      var n := |b| - 1;
      AheadAdds(a, b[..n], e);
      assert (a + b)[..|a + b| - 1] == a + b[..n];
    }
  }

  lemma TakeOut(b: seq<Entry>, j: nat, e: Entry)
    requires j < |b|
    ensures multiset(b) == multiset(b[..j] + b[j + 1..]) + multiset{b[j]}
    ensures Ahead(b, e) == Ahead(b[..j] + b[j + 1..], e) + Ahead([b[j]], e)
  {
    assert b == b[..j] + [b[j]] + b[j + 1..];
    AheadAdds(b[..j], b[j + 1..], e);
    AheadAdds(b[..j], [b[j]], e);
    AheadAdds(b[..j] + [b[j]], b[j + 1..], e);
  }

  lemma SameWithout(m: multiset<Entry>, p: multiset<Entry>, q: multiset<Entry>, x: Entry)
    requires m == p + multiset{x} && m == q + multiset{x}
    ensures p == q
  {
    assert p == m - multiset{x} && q == m - multiset{x};
  }

  lemma {:induction false} AheadOfPermutation(a: seq<Entry>, b: seq<Entry>, e: Entry)
    requires multiset(a) == multiset(b)
    ensures Ahead(a, e) == Ahead(b, e)
  {
    hide Ahead;
    SameMultisetSameLength(a, b);
    if a == [] {
      assert a == b;
    } else {
      assert a[0] in multiset(b);
      var j :| 0 <= j < |b| && b[j] == a[0];
      TakeOut(a, 0, e);
      TakeOut(b, j, e);
      var a', b' := a[..0] + a[1..], b[..j] + b[j + 1..];
      SameWithout(multiset(a), multiset(a'), multiset(b'), a[0]);
      AheadOfPermutation(a', b', e);
    }
  }

  lemma {:induction false} AllAhead(entries: seq<Entry>, e: Entry)
    requires forall i | 0 <= i < |entries| :: entries[i] != e && EntryLe(entries[i], e)
    ensures Ahead(entries, e) == |entries|
  {
    if entries != [] {
      AllAhead(entries[..|entries| - 1], e);
    }
  }

  lemma {:induction false} NoneAhead(entries: seq<Entry>, e: Entry)
    requires forall i | 0 <= i < |entries| :: EntryLe(e, entries[i])
    ensures Ahead(entries, e) == 0
  {
    if entries != [] {
      NoneAhead(entries[..|entries| - 1], e);
    }
  }

  /** In a ranking the first place of an entry is the number of those before it. */
  lemma AheadIsPlace(r: seq<Entry>, e: Entry, j: nat)
    requires Sorted(Better, r) && j < |r| && r[j] == e && e !in r[..j]
    ensures Ahead(r, e) == j
  {
    forall i | 0 <= i < j ensures r[..j][i] != e && EntryLe(r[..j][i], e) {
      assert Better(r[i], r[j]);
    }
    forall i | 0 <= i < |r[j..]| ensures EntryLe(e, r[j..][i]) {
      assert i > 0 ==> Better(r[j], r[j + i]);
    }
    AllAhead(r[..j], e);
    NoneAhead(r[j..], e);
    AheadAdds(r[..j], r[j..], e);
    assert r == r[..j] + r[j..];
  }

  lemma {:induction false} FirstPlace(r: seq<Entry>, e: Entry) returns (j: nat)
    requires e in r
    ensures j < |r| && r[j] == e && e !in r[..j]
  {
    if e in r[..|r| - 1] {
      j := FirstPlace(r[..|r| - 1], e);
      assert r[..|r| - 1][..j] == r[..j];
    } else {
      j := |r| - 1;
    }
  }

  /** The best m are those with fewer than m before them. */
  lemma TopIsFewAhead(entries: seq<Entry>, m: nat, e: Entry)
    ensures e in TopEntries(entries, m) <==> e in entries && Ahead(entries, e) < m
  {
    BetterIsTotalOrder();
    var r := Sort(Better, entries);
    SameMultisetSameLength(r, entries);
    assert e in multiset(r) <==> e in multiset(entries);
    if e in r {
      var j := FirstPlace(r, e);
      AheadIsPlace(r, e, j);
      AheadOfPermutation(r, entries, e);
      InFirst(r, Min(m, |r|), e, j);
    }
  }

  lemma InFirst(r: seq<Entry>, n: nat, e: Entry, j: nat)
    requires n <= |r| && j < |r| && r[j] == e && e !in r[..j]
    ensures e in r[..n] <==> j < n
  {
    if j < n {
      assert r[..n][j] == e;
    } else {
      assert forall x :: x in r[..n] ==> x in r[..j];
    }
  }

  function SortUp(s: seq<nat>): (r: seq<nat>)
    ensures multiset(r) == multiset(s) && |r| == |s|
    ensures forall i, j | 0 <= i < j < |r| :: r[i] <= r[j]
  {
    AscendingIsTotalOrder();
    var r := Sort(Ascending, s);
    SameMultisetSameLength(r, s);
    assert forall i, j | 0 <= i < j < |r| :: Ascending(r[i], r[j]);
    r
  }

  lemma SortUpKeeps(s: seq<nat>)
    ensures forall x :: x in SortUp(s) <==> x in s
  {
    forall x ensures x in SortUp(s) <==> x in s {
      assert x in multiset(SortUp(s)) <==> x in multiset(s);
    }
  }

  // ---- Recomputation from the whole history --------------------------------

  /** The values of one metric over the whole history. */
  function Column(history: seq<Told>, col: nat): (entries: seq<Entry>)
    requires HasMetric(history, col)
    ensures |entries| == |history|
    ensures forall i | 0 <= i < |history| :: entries[i] == Entry(history[i].index, history[i].y[col])
  {
    if history == [] then [] else
      var last := history[|history| - 1];
      Column(history[..|history| - 1], col) + [Entry(last.index, last.y[col])]
  }

  /** One number of each element, in order. */
  function Each<T>(s: seq<T>, number: T -> nat): (r: seq<nat>)
    ensures |r| == |s| && forall i | 0 <= i < |r| :: r[i] == number(s[i])
  {
    seq(|s|, i requires 0 <= i < |s| => number(s[i]))
  }

  function IndicesOf(entries: seq<Entry>): (r: seq<nat>)
    ensures |r| == |entries| && forall i | 0 <= i < |r| :: r[i] == entries[i].index
  {
    Each(entries, (e: Entry) => e.index)
  }

  function MaxValue(entries: seq<Entry>): (v: real)
    requires entries != []
    ensures forall e | e in entries :: e.value <= v
  {
    var last := entries[|entries| - 1];
    if |entries| == 1 then last.value
    else
      var v := MaxValue(entries[..|entries| - 1]);
      assert forall e :: e in entries <==> e in entries[..|entries| - 1] || e == last;
      if last.value > v then last.value else v
  }

  /** The maximum is attained, so the argmax of a non-empty history is never empty. */
  lemma {:induction false} MaxIsAttained(entries: seq<Entry>)
    requires entries != []
    ensures ArgMax(entries) != []
  {
    var last := entries[|entries| - 1];
    if |entries| > 1 {
      MaxIsAttained(entries[..|entries| - 1]);
    }
  }

  function WithValue(entries: seq<Entry>, v: real): (r: seq<Entry>)
    ensures forall e :: e in r <==> e in entries && e.value == v
  {
    if entries == [] then [] else
      var last := entries[|entries| - 1];
      WithValue(entries[..|entries| - 1], v) + (if last.value == v then [last] else [])
  }

  /** Everyone who attains the largest value, in order of arrival. */
  function ArgMax(entries: seq<Entry>): (r: seq<Entry>) {
    if entries == [] then [] else WithValue(entries, MaxValue(entries))
  }

  function AllIndices(history: seq<Told>): (r: seq<nat>)
    ensures |r| == |history| && forall i | 0 <= i < |r| :: r[i] == history[i].index
  {
    Each(history, (t: Told) => t.index)
  }

  lemma IndicesAre(history: seq<Told>)
    ensures forall x :: x in AllIndices(history) <==> exists t :: t in history && t.index == x
  {
    forall x ensures x in AllIndices(history) <==> exists t :: t in history && t.index == x {
      if t :| t in history && t.index == x {
        var i :| 0 <= i < |history| && history[i] == t;
        assert AllIndices(history)[i] == x;
      }
      if x in AllIndices(history) {
        var i :| 0 <= i < |history| && AllIndices(history)[i] == x;
        assert history[i] in history;
      }
    }
  }

  lemma {:induction false} NobodyHas(entries: seq<Entry>, v: real)
    requires forall e | e in entries :: e.value < v
    ensures WithValue(entries, v) == []
  {
    if entries != [] {
      NobodyHas(entries[..|entries| - 1], v);
      assert entries[|entries| - 1] in entries;
    }
  }

  /** A new value above all others stands alone; one that ties joins; a smaller one changes nothing. */
  lemma ArgMaxNext(entries: seq<Entry>, e: Entry)
    ensures ArgMax(entries + [e]) ==
      if entries == [] || e.value > MaxValue(entries) then [e]
      else if e.value == MaxValue(entries) then ArgMax(entries) + [e]
      else ArgMax(entries)
    ensures MaxValue(entries + [e]) == if entries == [] || e.value > MaxValue(entries) then e.value else MaxValue(entries)
  {
    var all := entries + [e];
    assert all[..|all| - 1] == entries;
    if entries == [] {
      assert WithValue(all, e.value) == [e];
    } else if e.value > MaxValue(entries) {
      NobodyHas(entries, e.value);
      assert WithValue(all, e.value) == [] + [e];
    }
  }

  /** `s` lists a set in increasing order. */
  ghost predicate ListsUp(s: seq<nat>, members: set<nat>) {
    && (forall i, j | 0 <= i < j < |s| :: s[i] < s[j])
    && (forall x :: x in s <==> x in members)
  }

  function Members(s: seq<nat>): (r: set<nat>) {
    set x | x in s
  }

  /** The indices of the best m of one metric. */
  function BestOfMetric(history: seq<Told>, m: nat): nat -> set<nat> {
    col => if HasMetric(history, col) then Members(IndicesOf(TopEntries(Column(history, col), m))) else {}
  }

  predicate HasMetric(history: seq<Told>, col: nat) {
    forall t | t in history :: col < |t.y|
  }

  function UnionUpTo(f: nat -> set<nat>, n: nat): (r: set<nat>) {
    if n == 0 then {} else UnionUpTo(f, n - 1) + f(n - 1)
  }

  lemma {:induction false} InUnionUpTo(f: nat -> set<nat>, n: nat, x: nat)
    ensures x in UnionUpTo(f, n) <==> exists c | 0 <= c < n :: x in f(c)
  {
    if n > 0 {
      InUnionUpTo(f, n - 1, x);
    }
  }

  /** Who is among the best m of at least one of the first `metrics` metrics. */
  function BestOfSomeMetric(history: seq<Told>, metrics: nat, m: nat): (r: set<nat>) {
    UnionUpTo(BestOfMetric(history, m), metrics)
  }

  lemma ColumnNext(history: seq<Told>, t: Told, col: nat)
    requires HasMetric(history, col) && col < |t.y|
    ensures HasMetric(history + [t], col)
    ensures Column(history + [t], col) == Column(history, col) + [Entry(t.index, t.y[col])]
  {
    assert (history + [t])[..|history|] == history;
  }

  ghost predicate KeepsTop(entries: seq<Entry>, history: seq<Told>, col: nat, m: nat) {
    HasMetric(history, col) && entries == TopEntries(Column(history, col), m)
  }

  /** How many observations are better than `t` under one metric: larger there, or as large with a smaller
      index. */
  function Rivals(history: seq<Told>, col: nat, t: Told): (n: nat)
    requires HasMetric(history, col) && col < |t.y|
  {
    if history == [] then 0 else
      var u := history[|history| - 1];
      Rivals(history[..|history| - 1], col, t) + if u.y[col] > t.y[col] || (u.y[col] == t.y[col] && u.index < t.index) then 1 else 0
  }

  lemma {:induction false} RivalsAreAhead(history: seq<Told>, col: nat, t: Told)
    requires HasMetric(history, col) && col < |t.y|
    ensures Rivals(history, col, t) == Ahead(Column(history, col), Entry(t.index, t.y[col]))
  {
    if history != [] {
      var n := |history| - 1;
      RivalsAreAhead(history[..n], col, t);
      assert Column(history, col)[..n] == Column(history[..n], col);
    }
  }

  /** Observation `t` has index `x` and fewer than m rivals under the metric. */
  ghost predicate WellPlaced(history: seq<Told>, col: nat, m: nat, t: Told, x: nat) {
    HasMetric(history, col) && t in history && t.index == x && Rivals(history, col, t) < m
  }

  ghost predicate BestUnder(history: seq<Told>, col: nat, m: nat, x: nat) {
    exists t: Told :: WellPlaced(history, col, m, t, x)
  }

  /** Some observation with index `x` has fewer than m rivals under one of the metrics. */
  ghost predicate AmongBest(history: seq<Told>, metrics: nat, m: nat, x: nat) {
    exists col: nat :: col < metrics && BestUnder(history, col, m, x)
  }

  lemma TopOfMetric(history: seq<Told>, col: nat, m: nat, x: nat)
    requires HasMetric(history, col)
    ensures x in IndicesOf(TopEntries(Column(history, col), m)) <==> BestUnder(history, col, m, x)
  {
    var entries := Column(history, col);
    var top := TopEntries(entries, m);
    if x in IndicesOf(top) {
      var i :| 0 <= i < |top| && top[i].index == x;
      TopIsFewAhead(entries, m, top[i]);
      var j :| 0 <= j < |entries| && entries[j] == top[i];
      RivalsAreAhead(history, col, history[j]);
      assert WellPlaced(history, col, m, history[j], x);
    }
    if t: Told :| WellPlaced(history, col, m, t, x) {
      RivalsAreAhead(history, col, t);
      var j :| 0 <= j < |history| && history[j] == t;
      TopIsFewAhead(entries, m, entries[j]);
      var i :| 0 <= i < |top| && top[i] == entries[j];
      assert IndicesOf(top)[i] == x;
    }
  }

  lemma OnlyMetric(history: seq<Told>, metrics: nat, m: nat, x: nat)
    requires metrics == 1
    ensures AmongBest(history, metrics, m, x) <==> BestUnder(history, 0, m, x)
  {
    if BestUnder(history, 0, m, x) {
      var col: nat := 0;
      assert col < metrics && BestUnder(history, col, m, x);
    }
  }

  /** The first of one metric. */
  lemma TopOfOne(history: seq<Told>, m: nat, x: nat)
    requires HasMetric(history, 0)
    ensures x in IndicesOf(TopEntries(Column(history, 0), m)) <==> AmongBest(history, 1, m, x)
  {
    TopOfMetric(history, 0, m, x);
    OnlyMetric(history, 1, m, x);
  }

  lemma TopOfSome(history: seq<Told>, metrics: nat, m: nat, x: nat)
    requires WideEnough(history, metrics)
    ensures x in BestOfSomeMetric(history, metrics, m) <==> AmongBest(history, metrics, m, x)
  {
    InUnionUpTo(BestOfMetric(history, m), metrics, x);
    forall col: nat | col < metrics
      ensures x in BestOfMetric(history, m)(col) <==> BestUnder(history, col, m, x)
    {
      TopOfMetric(history, col, m, x);
    }
  }

  /** Who is kept beats who is not: a larger value, or an equal one and no larger index. */
  lemma {:induction false} BetterHasFewerRivals(history: seq<Told>, t: Told, u: Told)
    requires HasMetric(history, 0) && 0 < |t.y| && 0 < |u.y|
    requires t.y[0] > u.y[0] || (t.y[0] == u.y[0] && t.index <= u.index)
    ensures Rivals(history, 0, t) <= Rivals(history, 0, u)
  {
    if history != [] {
      BetterHasFewerRivals(history[..|history| - 1], t, u);
    }
  }

  ghost predicate Beats(t: Told, u: Told)
    requires 0 < |t.y| && 0 < |u.y|
  {
    t.y[0] > u.y[0] || (t.y[0] == u.y[0] && t.index <= u.index)
  }

  /** Everyone in `out` beats everyone who is not. */
  ghost predicate KeptBeatRest(history: seq<Told>, out: seq<nat>)
    requires HasMetric(history, 0)
  {
    forall t, u | t in history && u in history && t.index in out && u.index !in out && ToldOnce(history, t) :: Beats(t, u)
  }

  ghost predicate ToldOnce(history: seq<Told>, t: Told) {
    forall u | u in history && u.index == t.index :: u == t
  }

  lemma AmongBestBeatRest(history: seq<Told>, m: nat, out: seq<nat>)
    requires HasMetric(history, 0) && forall x :: x in out <==> AmongBest(history, 1, m, x)
    ensures KeptBeatRest(history, out)
  {
    forall t, u | t in history && u in history && t.index in out && u.index !in out && ToldOnce(history, t)
      ensures Beats(t, u)
    {
      assert BestUnder(history, 0, m, t.index) && !BestUnder(history, 0, m, u.index);
      var v: Told :| WellPlaced(history, 0, m, v, t.index);
      assert v == t && !WellPlaced(history, 0, m, u, u.index);
      if !Beats(t, u) {
        BetterHasFewerRivals(history, u, t);
      }
    }
  }

  /** Observation `t` has index `x`, and none is larger. */
  ghost predicate IsMaximum(history: seq<Told>, t: Told, x: nat)
    requires HasMetric(history, 0)
  {
    t in history && t.index == x && forall u | u in history :: u.y[0] <= t.y[0]
  }

  lemma ArgMaxIs(history: seq<Told>, x: nat)
    requires HasMetric(history, 0)
    ensures x in IndicesOf(ArgMax(Column(history, 0))) <==> exists t: Told :: IsMaximum(history, t, x)
  {
    var entries := Column(history, 0);
    var best := ArgMax(entries);
    if x in IndicesOf(best) {
      var i :| 0 <= i < |best| && best[i].index == x;
      assert best[i] in entries;
      var j :| 0 <= j < |entries| && entries[j] == best[i];
      forall u | u in history ensures u.y[0] <= history[j].y[0] {
        var k :| 0 <= k < |history| && history[k] == u;
        assert entries[k] in entries;
      }
      assert IsMaximum(history, history[j], x);
    }
    if t: Told :| IsMaximum(history, t, x) {
      var j :| 0 <= j < |history| && history[j] == t;
      assert entries[j] in entries;
      MaxIsAttained(entries);
      var e := best[0];
      assert e in best;
      var k :| 0 <= k < |entries| && entries[k] == e;
      assert history[k] in history;
      assert entries[j] in best;
      var i :| 0 <= i < |best| && best[i] == entries[j];
      assert IndicesOf(best)[i] == x;
    }
  }

  /** Every told row has at least `metrics` values. */
  ghost predicate WideEnough(history: seq<Told>, metrics: nat) {
    forall t | t in history :: metrics <= |t.y|
  }

  class IncrementalIncumbentTracker {
    const m: nat
    const metrics: nat
    var observationCount: nat
    var allIndices: seq<nat>
    var maxY: real
    var maxIndices: seq<nat>
    var maxInitialized: bool
    var topEntries: seq<Entry>
    var perMetricEntries: seq<seq<Entry>>
    const useAllCandidates: bool
    const useNoiselessMax: bool
    const useScalarTopm: bool
    ghost var history: seq<Told>

    ghost predicate Modes() {
      && m >= 1 && metrics >= 1
      && (useAllCandidates ==> !useNoiselessMax && !useScalarTopm)
      && (useNoiselessMax ==> metrics == 1 && !useScalarTopm)
      && (useScalarTopm ==> metrics == 1)
    }

    ghost predicate UsesMultiTopm() {
      !useAllCandidates && !useNoiselessMax && !useScalarTopm
    }

    ghost predicate Valid()
      reads this
    {
      && Modes() && observationCount == |history|
      && |perMetricEntries| == (if UsesMultiTopm() then metrics else 0)
      && Summarises(history)
    }

    /** The fields of the mode in use hold what that mode needs of the history. */
    ghost predicate Summarises(h: seq<Told>)
      reads this
    {
      if useAllCandidates then allIndices == AllIndices(h)
      else
        && WideEnough(h, metrics) && HasMetric(h, 0)
        && if useNoiselessMax then MaxHolds(Column(h, 0))
           else if useScalarTopm then topEntries == TopEntries(Column(h, 0), m)
           else |perMetricEntries| == metrics && forall c | 0 <= c < metrics :: KeepsTop(perMetricEntries[c], h, c, m)
    }

    /** The running maximum and everyone who attains it. */
    ghost predicate MaxHolds(entries: seq<Entry>)
      reads this
    {
      && maxInitialized == (entries != [])
      && maxIndices == IndicesOf(ArgMax(entries))
      && (maxInitialized ==> maxY == MaxValue(entries))
    }

    constructor (m: nat, noiseAware: bool, numMetrics: nat)
      requires m >= 1 && numMetrics >= 1
      ensures Valid() && history == [] && this.m == m && metrics == numMetrics
      ensures useAllCandidates == (m >= ALL_CANDIDATES_M_THRESHOLD)
      ensures useNoiselessMax == (!useAllCandidates && numMetrics == 1 && !noiseAware)
      ensures useScalarTopm == (!useAllCandidates && numMetrics == 1 && noiseAware)
    {
      this.m, metrics := m, numMetrics;
      useAllCandidates := m >= ALL_CANDIDATES_M_THRESHOLD;
      useNoiselessMax := m < ALL_CANDIDATES_M_THRESHOLD && numMetrics == 1 && !noiseAware;
      useScalarTopm := m < ALL_CANDIDATES_M_THRESHOLD && numMetrics == 1 && noiseAware;
      observationCount, allIndices, maxY, maxIndices, maxInitialized, topEntries := 0, [], 0.0, [], false, [];
      perMetricEntries := if m < ALL_CANDIDATES_M_THRESHOLD && numMetrics > 1 then seq(numMetrics, _ => []) else [];
      history := [];
    }

    static method PushTopM(entries: seq<Entry>, index: nat, value: real, m: nat, ghost all: seq<Entry>) returns (r: seq<Entry>)
      requires entries == TopEntries(all, m)
      ensures r == TopEntries(all + [Entry(index, value)], m)
      ensures |r| == Min(m, |all| + 1)
      ensures forall e :: e in r <==> e in all + [Entry(index, value)] && Ahead(all + [Entry(index, value)], e) < m
    {
      forall e ensures e in TopEntries(all + [Entry(index, value)], m)
                  <==> e in all + [Entry(index, value)] && Ahead(all + [Entry(index, value)], e) < m {
        TopIsFewAhead(all + [Entry(index, value)], m, e);
      }
      BetterIsTotalOrder();
      TopOfTop(Better, all, [Entry(index, value)], m);
      var sorted := Sort(Better, entries + [Entry(index, value)]);
      SameMultisetSameLength(sorted, entries + [Entry(index, value)]);
      r := sorted[..Min(m, |sorted|)];
    }

    method Tell(index: nat, y: seq<real>)
      requires Valid() && (!useAllCandidates ==> metrics <= |y|)
      modifies this
      ensures Valid() && history == old(history) + [Told(index, y)]
    {
      if useAllCandidates {
        allIndices := allIndices + [index];
      } else {
        TellColumns(index, y);
      }
      observationCount := observationCount + 1;
      history := history + [Told(index, y)];
    }

    method TellColumns(index: nat, y: seq<real>)
      requires Modes() && !useAllCandidates && metrics <= |y| && Summarises(history)
      modifies this`maxY, this`maxIndices, this`maxInitialized, this`topEntries, this`perMetricEntries
      ensures Summarises(history + [Told(index, y)]) && |perMetricEntries| == old(|perMetricEntries|)
    {
      ColumnNext(history, Told(index, y), 0);
      if useNoiselessMax {
        TellMax(index, y[0], Column(history, 0));
      } else if useScalarTopm {
        topEntries := PushTopM(topEntries, index, y[0], m, Column(history, 0));
      } else {
        perMetricEntries := PushAll(perMetricEntries, index, y, m, metrics, history);
      }
    }

    method TellMax(index: nat, value: real, ghost entries: seq<Entry>)
      requires MaxHolds(entries)
      modifies this`maxY, this`maxIndices, this`maxInitialized
      ensures MaxHolds(entries + [Entry(index, value)])
    {
      ArgMaxNext(entries, Entry(index, value));
      if !maxInitialized || value > maxY {
        maxY := value;
        maxIndices := [index];
        maxInitialized := true;
      } else if value == maxY {
        maxIndices := maxIndices + [index];
      }
    }

    static method PushAll(perMetric: seq<seq<Entry>>, index: nat, y: seq<real>, m: nat, metrics: nat, ghost before: seq<Told>)
      returns (r: seq<seq<Entry>>)
      requires metrics <= |y| && |perMetric| == metrics
      requires forall c | 0 <= c < metrics :: KeepsTop(perMetric[c], before, c, m)
      ensures |r| == metrics
      ensures forall c | 0 <= c < metrics :: KeepsTop(r[c], before + [Told(index, y)], c, m)
    {
      r := perMetric;
      for col := 0 to metrics
        invariant |r| == metrics
        invariant forall c | 0 <= c < col :: KeepsTop(r[c], before + [Told(index, y)], c, m)
        invariant forall c | col <= c < metrics :: r[c] == perMetric[c]
      {
        assert KeepsTop(perMetric[col], before, col, m);
        var top := PushOne(perMetric[col], index, y, col, m, before);
        r := r[col := top];
      }
    }

    static method PushOne(entries: seq<Entry>, index: nat, y: seq<real>, col: nat, m: nat, ghost before: seq<Told>)
      returns (r: seq<Entry>)
      requires col < |y| && KeepsTop(entries, before, col, m)
      ensures KeepsTop(r, before + [Told(index, y)], col, m)
    {
      ColumnNext(before, Told(index, y), col);
      r := PushTopM(entries, index, y[col], m, Column(before, col));
    }

    method Ask() returns (out: seq<nat>)
      requires Valid()
      ensures useAllCandidates ==> out == SortUp(AllIndices(history))
      ensures useNoiselessMax ==> out == SortUp(IndicesOf(ArgMax(Column(history, 0))))
      ensures useScalarTopm ==> out == SortUp(IndicesOf(TopEntries(Column(history, 0), m)))
      ensures UsesMultiTopm() ==> ListsUp(out, BestOfSomeMetric(history, metrics, m))
      ensures out == [] <==> history == []
      ensures forall i, j | 0 <= i < j < |out| :: out[i] <= out[j]
      ensures useAllCandidates ==> |out| == |history| && forall x :: x in out <==> exists t :: t in history && t.index == x
      ensures !useAllCandidates ==> WideEnough(history, metrics) && HasMetric(history, 0)
      ensures useNoiselessMax ==> forall x :: x in out <==> exists t: Told :: IsMaximum(history, t, x)
      ensures useScalarTopm ==> |out| == (if m < |history| then m else |history|)
      ensures useScalarTopm ==> KeptBeatRest(history, out)
      ensures !useAllCandidates && !useNoiselessMax ==> forall x :: x in out <==> AmongBest(history, metrics, m, x)
    {
      out := AskMode();
      AskedIs(out);
    }

    /** The answer of each mode, in the terms of the history. */
    lemma AskedIs(out: seq<nat>)
      requires Valid()
      requires useAllCandidates ==> out == SortUp(AllIndices(history))
      requires useNoiselessMax ==> out == SortUp(IndicesOf(ArgMax(Column(history, 0))))
      requires useScalarTopm ==> out == SortUp(IndicesOf(TopEntries(Column(history, 0), m)))
      requires UsesMultiTopm() ==> ListsUp(out, BestOfSomeMetric(history, metrics, m))
      ensures useAllCandidates ==> |out| == |history| && forall x :: x in out <==> exists t :: t in history && t.index == x
      ensures useNoiselessMax ==> forall x :: x in out <==> exists t: Told :: IsMaximum(history, t, x)
      ensures useScalarTopm ==> KeptBeatRest(history, out)
      ensures !useAllCandidates && !useNoiselessMax ==> forall x :: x in out <==> AmongBest(history, metrics, m, x)
    {
      if useAllCandidates {
        SortUpKeeps(AllIndices(history));
        IndicesAre(history);
      } else if useNoiselessMax {
        SortUpKeeps(IndicesOf(ArgMax(Column(history, 0))));
        forall x ensures x in out <==> exists t: Told :: IsMaximum(history, t, x) {
          ArgMaxIs(history, x);
        }
      } else if useScalarTopm {
        SortUpKeeps(IndicesOf(TopEntries(Column(history, 0), m)));
        forall x ensures x in out <==> AmongBest(history, 1, m, x) {
          TopOfOne(history, m, x);
        }
        AmongBestBeatRest(history, m, out);
      } else {
        forall x ensures x in out <==> AmongBest(history, metrics, m, x) {
          TopOfSome(history, metrics, m, x);
        }
      }
    }

    method AskMode() returns (out: seq<nat>)
      requires Valid()
      ensures useAllCandidates ==> out == SortUp(AllIndices(history))
      ensures useNoiselessMax ==> out == SortUp(IndicesOf(ArgMax(Column(history, 0))))
      ensures useScalarTopm ==> out == SortUp(IndicesOf(TopEntries(Column(history, 0), m)))
      ensures UsesMultiTopm() ==> ListsUp(out, BestOfSomeMetric(history, metrics, m))
      ensures out == [] <==> history == []
    {
      if observationCount == 0 {
        NothingTold(history, m, metrics);
        return [];
      }
      if useAllCandidates {
        return SortUp(allIndices);
      }
      if useNoiselessMax {
        MaxIsAttained(Column(history, 0));
        return SortUp(maxIndices);
      }
      if useScalarTopm {
        return SortUp(IndicesOf(topEntries));
      }
      out := AskUnion();
    }

    method AskUnion() returns (out: seq<nat>)
      requires Valid() && UsesMultiTopm()
      ensures ListsUp(out, BestOfSomeMetric(history, metrics, m))
      ensures history != [] ==> out != []
    {
      out := UnionUp(perMetricEntries, history, m);
      if history != [] {
        SomeoneIsBest(history, metrics, m);
        var x :| x in BestOfSomeMetric(history, metrics, m);
        assert x in out;
      }
    }

    static method UnionUp(perMetric: seq<seq<Entry>>, ghost history: seq<Told>, m: nat) returns (out: seq<nat>)
      requires forall c | 0 <= c < |perMetric| :: KeepsTop(perMetric[c], history, c, m)
      ensures ListsUp(out, BestOfSomeMetric(history, |perMetric|, m))
    {
      var union: set<nat> := {};
      for c := 0 to |perMetric|
        invariant union == UnionUpTo(BestOfMetric(history, m), c)
      {
        assert KeepsTop(perMetric[c], history, c, m);
        union := union + Members(IndicesOf(perMetric[c]));
      }
      out := DrainUp(union);
    }

    method Reset()
      requires Valid()
      modifies this
      ensures Valid() && history == []
    {
      history := [];
      observationCount, allIndices, maxY, maxIndices, maxInitialized, topEntries := 0, [], 0.0, [], false, [];
      perMetricEntries := seq(|perMetricEntries|, _ => []);
    }

    /** Afterwards the tracker is in the state of one that was told rows 0..n. */
    method Rebuild(yObs: seq<seq<real>>)
      requires Valid() && (!useAllCandidates ==> forall i | 0 <= i < |yObs| :: metrics <= |yObs[i]|)
      modifies this
      ensures Valid() && |history| == |yObs| && forall i | 0 <= i < |yObs| :: history[i] == Told(i, yObs[i])
    {
      Reset();
      for i := 0 to |yObs|
        invariant Valid() && |history| == i && forall j | 0 <= j < i :: history[j] == Told(j, yObs[j])
      {
        Tell(i, yObs[i]);
      }
    }
  }

  /** The best of the first metric are among the best of some metric. */
  lemma SomeoneIsBest(history: seq<Told>, metrics: nat, m: nat)
    requires history != [] && metrics >= 1 && m >= 1 && HasMetric(history, 0)
    ensures BestOfSomeMetric(history, metrics, m) != {}
  {
    FirstHasBest(history, m);
    UnionHasFirst(BestOfMetric(history, m), metrics);
  }

  lemma FirstHasBest(history: seq<Told>, m: nat)
    requires history != [] && m >= 1 && HasMetric(history, 0)
    ensures BestOfMetric(history, m)(0) != {}
  {
    var best := IndicesOf(TopEntries(Column(history, 0), m));
    assert best[0] in Members(best);
  }

  lemma UnionHasFirst(f: nat -> set<nat>, n: nat)
    requires n >= 1 && f(0) != {}
    ensures UnionUpTo(f, n) != {}
  {
    var x :| x in f(0);
    InUnionUpTo(f, n, x);
  }

  lemma {:induction false} NothingTold(history: seq<Told>, m: nat, n: nat)
    requires history == []
    ensures UnionUpTo(BestOfMetric(history, m), n) == {}
  {
    if n > 0 {
      NothingTold(history, m, n - 1);
    }
  }

  /** The members of a set in increasing order, as a sorted set yields them. */
  method DrainUp(s: set<nat>) returns (out: seq<nat>)
    ensures ListsUp(out, s)
  {
    var listed: seq<nat> := [];
    var left := s;
    while left != {}
      invariant left <= s && (forall x :: x in listed <==> x in s && x !in left)
      invariant forall i, j | 0 <= i < j < |listed| :: listed[i] != listed[j]
      decreases left
    {
      var x :| x in left;
      left := left - {x};
      listed := listed + [x];
    }
    out := SortUp(listed);
    SortedDistinct(listed, out);
  }

  lemma SortedDistinct(listed: seq<nat>, out: seq<nat>)
    requires forall i, j | 0 <= i < j < |listed| :: listed[i] != listed[j]
    requires multiset(out) == multiset(listed) && forall i, j | 0 <= i < j < |out| :: out[i] <= out[j]
    ensures forall i, j | 0 <= i < j < |out| :: out[i] < out[j]
    ensures forall x :: x in out <==> x in listed
  {
    StillDistinct(listed, out);
  }
}
