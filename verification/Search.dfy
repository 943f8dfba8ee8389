/**
 Nearest-neighbour search over the observation store: the bounded heap scan, the merge of
 two candidate legs, and the two search paths (one flat scan for few rows, indexed leg plus
 pending leg for many), all proved against one ranking of all rows by (distance, id).
 */
module Search {
  import opened Distance
  import opened Layout
  import opened Sorting
  import opened Wrappers

  datatype Hit = Hit(id: nat, dist: real)

  const SMALL_N_INCORE_SEARCH_LIMIT := 8192

  // ---- The ranking ---------------------------------------------------------

  /** Nearer first, lower id first among equals. */
  predicate HitLe(a: Hit, b: Hit) {
    a.dist < b.dist || (a.dist == b.dist && a.id <= b.id)
  }

  const Nearer: (Hit, Hit) -> bool := (a, b) => HitLe(a, b)

  lemma NearerIsTotalOrder()
    ensures TotalOrder(Nearer)
  {
  }

  ghost predicate SortedHits(s: seq<Hit>) {
    forall i, j | 0 <= i < j < |s| :: HitLe(s[i], s[j])
  }

  function SortHits(s: seq<Hit>): (r: seq<Hit>)
    ensures |r| == |s| && multiset(r) == multiset(s) && SortedHits(r)
  {
    NearerIsTotalOrder();
    var r := Sort(Nearer, s);
    SameMultisetSameLength(r, s);
    assert forall i, j | 0 <= i < j < |r| :: Nearer(r[i], r[j]);
    r
  }

  function TopHits(s: seq<Hit>, m: nat): (r: seq<Hit>)
    ensures |r| == Min(m, |s|)
  {
    SortHits(s)[..Min(m, |s|)]
  }

  lemma TopHitsIsTop(s: seq<Hit>, m: nat)
    ensures TotalPreorder(Nearer) && TopHits(s, m) == Top(Nearer, s, m)
  {
    NearerIsTotalOrder();
  }

  lemma SortHitsUnique(s: seq<Hit>, r: seq<Hit>)
    requires SortedHits(r) && multiset(r) == multiset(s)
    ensures r == SortHits(s)
  {
    NearerIsTotalOrder();
    SortedUnique(Nearer, r, Sort(Nearer, s));
  }

  lemma TopHitsOfPermutation(s: seq<Hit>, t: seq<Hit>, m: nat)
    requires multiset(s) == multiset(t)
    ensures TopHits(s, m) == TopHits(t, m)
  {
    SameMultisetSameLength(s, t);
    SortHitsUnique(t, SortHits(s));
  }

  lemma TopHitsOfTop(s: seq<Hit>, more: seq<Hit>, m: nat)
    ensures TopHits(TopHits(s, m) + more, m) == TopHits(s + more, m)
  {
    TopHitsIsTop(s, m);
    TopHitsIsTop(TopHits(s, m) + more, m);
    TopHitsIsTop(s + more, m);
    NearerIsTotalOrder();
    TopOfTop(Nearer, s, more, m);
  }

  lemma TopHitsFrom(s: seq<Hit>, kept: seq<Hit>, rest: seq<Hit>)
    requires multiset(kept) + multiset(rest) == multiset(s)
    requires forall a, b | a in kept && b in rest :: HitLe(a, b)
    ensures TopHits(s, |kept|) == SortHits(kept)
  {
    var sorted := SortHits(kept);
    NearerIsTotalOrder();
    SameMultisetSameLength(kept + rest, s);
    forall a, b | a in sorted && b in rest ensures Nearer(a, b) {
      assert a in multiset(kept);
    }
    TopFrom(Nearer, s, |kept|, sorted, rest);
    TopHitsIsTop(s, |kept|);
  }

  lemma InSortHits(s: seq<Hit>, h: Hit)
    ensures h in SortHits(s) <==> h in s
  {
    assert h in multiset(SortHits(s)) <==> h in multiset(s);
  }

  /** Rows `lo..hi` with their distances. */
  function Hits(dist: nat -> real, lo: nat, hi: nat): (hits: seq<Hit>)
    requires lo <= hi
    ensures |hits| == hi - lo && forall i | 0 <= i < |hits| :: hits[i] == Hit(lo + i, dist(lo + i))
    decreases hi
  {
    if lo == hi then [] else Hits(dist, lo, hi - 1) + [Hit(hi - 1, dist(hi - 1))]
  }

  lemma InHits(dist: nat -> real, lo: nat, hi: nat, h: Hit)
    requires lo <= hi
    ensures h in Hits(dist, lo, hi) <==> lo <= h.id < hi && h.dist == dist(h.id)
  {
    if lo <= h.id < hi {
      assert Hits(dist, lo, hi)[h.id - lo] == Hit(h.id, dist(h.id));
    }
  }

  /** The exact top `k` of rows `lo..hi`. */
  function Nearest(dist: nat -> real, lo: nat, hi: nat, k: nat): (hits: seq<Hit>)
    requires lo <= hi
    ensures |hits| == Min(k, hi - lo)
  {
    TopHits(Hits(dist, lo, hi), k)
  }

  /** All rows below `total`, nearest first. */
  function Ranking(dist: nat -> real, total: nat): (hits: seq<Hit>)
    ensures |hits| == total
  {
    SortHits(Hits(dist, 0, total))
  }

  lemma RankedAreRows(dist: nat -> real, total: nat, h: Hit)
    ensures h in Ranking(dist, total) <==> h.id < total && h.dist == dist(h.id)
  {
    InSortHits(Hits(dist, 0, total), h);
    InHits(dist, 0, total, h);
  }

  lemma RankedOnce(dist: nat -> real, total: nat, i: nat, j: nat)
    requires i < j < total
    ensures Ranking(dist, total)[i].id != Ranking(dist, total)[j].id
  {
    var r := Ranking(dist, total);
    RankedAreRows(dist, total, r[i]);
    RankedAreRows(dist, total, r[j]);
    if r[i].id == r[j].id {
      OnceInDistinct(Hits(dist, 0, total), r[i]);
      TwiceWhenEqual(r, i, j);
    }
  }

  /** Rows `a` and `b` in plain numbers: `a` is nearer, or as near with a lower id. */
  ghost predicate ComesFirst(a: Hit, b: Hit) {
    a.dist < b.dist || (a.dist == b.dist && a.id < b.id)
  }

  ghost predicate Lists(row: seq<Hit>, id: nat) {
    exists i | 0 <= i < |row| :: row[i].id == id
  }

  /** What the k nearest of the rows below `total` are, without any ranking: min(k, total) different rows
      with their distances, the one that comes first listed first, and none left out that would come
      before a listed one. */
  ghost predicate NearestRows(dist: nat -> real, total: nat, k: nat, row: seq<Hit>) {
    && |row| == (if k < total then k else total)
    && (forall i | 0 <= i < |row| :: row[i].id < total && row[i].dist == dist(row[i].id))
    && (forall i, j | 0 <= i < j < |row| :: ComesFirst(row[i], row[j]))
    && (forall i: nat, u: nat | i < |row| && u < total && !Lists(row, u) :: ComesFirst(row[i], Hit(u, dist(u))))
  }

  lemma RankingIsNearest(dist: nat -> real, total: nat, k: nat)
    ensures NearestRows(dist, total, k, Ranking(dist, total)[..Min(k, total)])
  {
    var r := Ranking(dist, total);
    var row := r[..Min(k, total)];
    forall i | 0 <= i < total ensures r[i].id < total && r[i].dist == dist(r[i].id) {
      RankedAreRows(dist, total, r[i]);
    }
    forall i, j | 0 <= i < j < total ensures ComesFirst(r[i], r[j]) {
      RankedOnce(dist, total, i, j);
      assert HitLe(r[i], r[j]);
    }
    forall i: nat, u: nat | i < |row| && u < total && !Lists(row, u) ensures ComesFirst(row[i], Hit(u, dist(u))) {
      RankedAreRows(dist, total, Hit(u, dist(u)));
      var j :| 0 <= j < total && r[j] == Hit(u, dist(u));
      FirstAreListed(r, |row|, j);
    }
  }

  lemma FirstAreListed(r: seq<Hit>, n: nat, j: nat)
    requires n <= |r|
    ensures j < n ==> Lists(r[..n], r[j].id)
  {
    if j < n {
      assert r[..n][j] == r[j];
    }
  }

  lemma NoLater(dist: nat -> real, total: nat, k: nat, a: seq<Hit>, b: seq<Hit>, i: nat)
    requires NearestRows(dist, total, k, a) && NearestRows(dist, total, k, b)
    requires i < |a| && a[..i] == b[..i]
    ensures b[i] == a[i] || ComesFirst(b[i], a[i])
  {
    forall j | 0 <= j < i ensures b[j] == a[j] && ComesFirst(a[j], a[i]) {
      assert b[..i][j] == a[..i][j];
    }
    if Lists(b, a[i].id) {
      var j :| 0 <= j < |b| && b[j].id == a[i].id;
      assert !(j < i);
      assert j > i ==> ComesFirst(b[i], b[j]);
    }
  }

  /** There is only one such list. */
  lemma {:induction false} NearestRowsUnique(dist: nat -> real, total: nat, k: nat, a: seq<Hit>, b: seq<Hit>)
    requires NearestRows(dist, total, k, a) && NearestRows(dist, total, k, b)
    ensures a == b
  {
    for i := 0 to |a|
      invariant a[..i] == b[..i]
    {
      NoLater(dist, total, k, a, b, i);
      NoLater(dist, total, k, b, a, i);
      assert a[..i + 1] == a[..i] + [a[i]] && b[..i + 1] == b[..i] + [b[i]];
    }
  }

  // ---- The bounded heap ----------------------------------------------------

  /** The distance of row `i` of a flat row-major matrix from the query. */
  function FlatDist(query: seq<real>, flat: seq<real>, i: nat): real {
    if i * |query| + |query| <= |flat| then SqL2(query, flat[i * |query|..i * |query| + |query|]) else 0.0
  }

  function FlatDists(query: seq<real>, flat: seq<real>): nat -> real {
    (i: nat) => FlatDist(query, flat, i)
  }

  /** The greatest entry, which is what the top of a max-heap shows. */
  method PeekGreatest(heap: seq<Hit>) returns (w: nat)
    requires heap != []
    ensures w < |heap| && forall j | 0 <= j < |heap| :: HitLe(heap[j], heap[w])
  {
    w := 0;
    for j := 0 to |heap|
      invariant w < |heap| && forall l | 0 <= l < j :: HitLe(heap[l], heap[w])
    {
      if HitLe(heap[w], heap[j]) {
        w := j;
      }
    }
  }

  /** A full heap of the `k` best, a new row with a larger id: replacing the worst exactly when
      the new distance is strictly smaller keeps the heap at the `k` best, ties included. */
  lemma ReplaceWorst(heap: seq<Hit>, w: nat, h: Hit)
    requires w < |heap| && forall j | 0 <= j < |heap| :: HitLe(heap[j], heap[w])
    requires forall j | 0 <= j < |heap| :: heap[j].id < h.id
    ensures multiset(TopHits(heap + [h], |heap|))
         == if h.dist < heap[w].dist then multiset(heap[..w] + heap[w + 1..] + [h]) else multiset(heap)
  {
    if h.dist < heap[w].dist {
      WorstLeaves(heap, w, h);
    } else {
      NewcomerStaysOut(heap, w, h);
    }
  }

  lemma WorstLeaves(heap: seq<Hit>, w: nat, h: Hit)
    requires w < |heap| && forall j | 0 <= j < |heap| :: HitLe(heap[j], heap[w])
    requires h.dist < heap[w].dist
    ensures TopHits(heap + [h], |heap|) == SortHits(heap[..w] + heap[w + 1..] + [h])
  {
    var kept := heap[..w] + heap[w + 1..] + [h];
    WithoutOne(heap, w, h);
    forall a, b | a in kept && b in [heap[w]] ensures HitLe(a, b) {
      assert a in heap || a == h;
    }
    TopHitsFrom(heap + [h], kept, [heap[w]]);
  }

  lemma NewcomerStaysOut(heap: seq<Hit>, w: nat, h: Hit)
    requires w < |heap| && forall j | 0 <= j < |heap| :: HitLe(heap[j], heap[w])
    requires h.dist >= heap[w].dist && forall j | 0 <= j < |heap| :: heap[j].id < h.id
    ensures TopHits(heap + [h], |heap|) == SortHits(heap)
  {
    forall a, b | a in heap && b in [h] ensures HitLe(a, b) {
    }
    TopHitsFrom(heap + [h], heap, [h]);
  }

  lemma WithoutOne(heap: seq<Hit>, w: nat, h: Hit)
    requires w < |heap|
    ensures multiset(heap[..w] + heap[w + 1..] + [h]) + multiset([heap[w]]) == multiset(heap + [h])
    ensures forall a :: a in heap[..w] + heap[w + 1..] + [h] ==> a in heap || a == h
  {
    assert heap == heap[..w] + [heap[w]] + heap[w + 1..];
  }

  lemma NextRow(dist: nat -> real, i: nat, k: nat)
    ensures Nearest(dist, 0, i + 1, k) == TopHits(Nearest(dist, 0, i, k) + [Hit(i, dist(i))], k)
  {
    TopHitsOfTop(Hits(dist, 0, i), [Hit(i, dist(i))], k);
  }

  lemma NearestAreRows(dist: nat -> real, lo: nat, hi: nat, k: nat, h: Hit)
    requires lo <= hi && h in Nearest(dist, lo, hi, k)
    ensures lo <= h.id < hi && h.dist == dist(h.id)
  {
    InSortHits(Hits(dist, lo, hi), h);
    InHits(dist, lo, hi, h);
  }

  /** What the heap holds after scanning rows `0..i`. */
  ghost predicate HeapHolds(heap: seq<Hit>, dist: nat -> real, i: nat, k: nat) {
    multiset(heap) == multiset(Nearest(dist, 0, i, k))
  }

  lemma HeapSize(heap: seq<Hit>, dist: nat -> real, i: nat, k: nat)
    requires HeapHolds(heap, dist, i, k)
    ensures |heap| == Min(k, i)
  {
    SameMultisetSameLength(heap, Nearest(dist, 0, i, k));
  }

  lemma HeapPush(heap: seq<Hit>, dist: nat -> real, i: nat, k: nat)
    requires HeapHolds(heap, dist, i, k) && |heap| < k
    ensures HeapHolds(heap + [Hit(i, dist(i))], dist, i + 1, k)
  {
    var pool := heap + [Hit(i, dist(i))];
    NextRow(dist, i, k);
    TopHitsOfPermutation(Nearest(dist, 0, i, k) + [Hit(i, dist(i))], pool, k);
    assert SortHits(pool)[..|pool|] == SortHits(pool);
  }

  lemma HeapReplace(heap: seq<Hit>, dist: nat -> real, i: nat, k: nat, w: nat)
    requires HeapHolds(heap, dist, i, k) && |heap| == k
    requires w < |heap| && forall j | 0 <= j < |heap| :: HitLe(heap[j], heap[w])
    ensures HeapHolds(if dist(i) < heap[w].dist then heap[..w] + heap[w + 1..] + [Hit(i, dist(i))]
                      else heap, dist, i + 1, k)
  {
    var h := Hit(i, dist(i));
    NextRow(dist, i, k);
    TopHitsOfPermutation(Nearest(dist, 0, i, k) + [h], heap + [h], k);
    forall j | 0 <= j < |heap| ensures heap[j].id < h.id {
      assert heap[j] in multiset(heap);
      NearestAreRows(dist, 0, i, k, heap[j]);
    }
    ReplaceWorst(heap, w, h);
  }

  lemma SortedHeap(heap: seq<Hit>, dist: nat -> real, n: nat, k: nat)
    requires HeapHolds(heap, dist, n, Min(k, n))
    ensures SortHits(heap) == Nearest(dist, 0, n, k)
  {
    var r := Nearest(dist, 0, n, k);
    SortHitsUnique(heap, r);
  }

  method ScoreRow(query: seq<real>, flat: seq<real>, n: nat, d: nat, i: nat) returns (h: Hit)
    requires |query| == d && |flat| == n * d && i < n
    ensures h == Hit(i, FlatDist(query, flat, i))
  {
    RowWithin(i, n, d);
    var dist := L2SqF32(query, flat[i * d..i * d + d]);
    h := Hit(i, dist);
  }

  /** The flat scan returns exactly the first min(k, n) rows of the ranking. */
  method TopkFlatSqL2(query: seq<real>, flat: seq<real>, n: nat, d: nat, k: nat) returns (out: seq<Hit>)
    requires |query| == d && |flat| == n * d
    ensures out == Nearest(FlatDists(query, flat), 0, n, k)
    ensures NearestRows(FlatDists(query, flat), n, k, out)
  {
    ghost var dist := FlatDists(query, flat);
    RankingIsNearest(dist, n, k);
    if k == 0 || n == 0 {
      return [];
    }
    var k' := Min(k, n);
    var heap: seq<Hit> := [];
    for i := 0 to n
      invariant HeapHolds(heap, dist, i, k')
    {
      var h := ScoreRow(query, flat, n, d, i);
      heap := Offer(heap, h, k', i, dist);
    }
    SortedHeap(heap, dist, n, k);
    out := SortHits(heap);
  }

  /** Pushes while there is room; afterwards replaces the worst entry by a strictly nearer row. */
  method Offer(heap: seq<Hit>, h: Hit, k: nat, ghost i: nat, ghost dist: nat -> real) returns (heap': seq<Hit>)
    requires k > 0 && h == Hit(i, dist(i)) && HeapHolds(heap, dist, i, k)
    ensures HeapHolds(heap', dist, i + 1, k)
  {
    HeapSize(heap, dist, i, k);
    heap' := heap;
    if |heap| < k {
      HeapPush(heap, dist, i, k);
      heap' := heap + [h];
    } else {
      var w := PeekGreatest(heap);
      HeapReplace(heap, dist, i, k, w);
      if h.dist < heap[w].dist {
        heap' := heap[..w] + heap[w + 1..] + [h];
      }
    }
  }

  // ---- Merging two legs ----------------------------------------------------

  ghost predicate DistinctIds(s: seq<Hit>) {
    forall i, j | 0 <= i < j < |s| :: s[i].id != s[j].id
  }

  /** Keeps the first entry of every id. */
  function FirstWins(s: seq<Hit>): (r: seq<Hit>) {
    if s == [] then []
    else
      var r, last := FirstWins(s[..|s| - 1]), s[|s| - 1];
      if HasId(r, last.id) then r else r + [last]
  }

  predicate HasId(s: seq<Hit>, id: nat) {
    exists i | 0 <= i < |s| :: s[i].id == id
  }

  lemma {:induction false} FirstWinsDistinct(s: seq<Hit>)
    requires DistinctIds(s)
    ensures FirstWins(s) == s
  {
    if s != [] {
      FirstWinsDistinct(s[..|s| - 1]);
      assert s == s[..|s| - 1] + [s[|s| - 1]];
    }
  }

  /** The hash map after some candidates, against the list of first entries. */
  ghost predicate Seen(seen: map<nat, real>, r: seq<Hit>) {
    && DistinctIds(r)
    && forall h :: h in r <==> h.id in seen && seen[h.id] == h.dist
  }

  lemma SeenNext(seen: map<nat, real>, r: seq<Hit>, h: Hit)
    requires Seen(seen, r)
    ensures HasId(r, h.id) <==> h.id in seen
    ensures !HasId(r, h.id) ==> Seen(seen[h.id := h.dist], r + [h])
  {
    if h.id in seen {
      assert Hit(h.id, seen[h.id]) in r;
    }
    if HasId(r, h.id) {
      var i :| 0 <= i < |r| && r[i].id == h.id;
      assert r[i] in r;
    }
  }

  /** Drains the map in whatever order it yields its entries. */
  method Drain(seen: map<nat, real>) returns (entries: seq<Hit>)
    ensures Seen(seen, entries)
  {
    entries := [];
    var left := seen.Keys;
    while left != {}
      invariant left <= seen.Keys && DistinctIds(entries)
      invariant forall h :: h in entries <==> h.id in seen && h.id !in left && seen[h.id] == h.dist
      decreases left
    {
      var id :| id in left;
      left := left - {id};
      assert forall i | 0 <= i < |entries| :: entries[i] in entries;
      entries := entries + [Hit(id, seen[id])];
    }
  }

  lemma {:induction false} SameEntries(a: seq<Hit>, b: seq<Hit>)
    requires DistinctIds(a) && DistinctIds(b) && forall h :: h in a <==> h in b
    ensures multiset(a) == multiset(b)
  {
    forall h: Hit ensures multiset(a)[h] == multiset(b)[h] {
      OnceInDistinct(a, h);
      OnceInDistinct(b, h);
      assert h in multiset(a) <==> h in a;
      assert h in multiset(b) <==> h in b;
    }
  }

  /** Drop the nearest if asked and if something remains, then cut to the pool and to `kOut`. */
  function Window(ranked: seq<Hit>, kOut: nat, poolK: nat, excludeNearest: bool): (r: seq<Hit>)
    ensures |r| <= kOut
  {
    var rest := if excludeNearest && |ranked| > 1 then ranked[1..] else ranked;
    var pool := rest[..Min(poolK, |rest|)];
    pool[..Min(kOut, |pool|)]
  }

  method MergeTopkPrecomputedDist(legA: seq<Hit>, legB: seq<Hit>, kOut: nat, poolK: nat, excludeNearest: bool)
    returns (ranked: seq<Hit>)
    ensures ranked == Window(SortHits(FirstWins(legA + legB)), kOut, poolK, excludeNearest)
  {
    var seen: map<nat, real> := map[];
    var all := legA + legB;
    for p := 0 to |all|
      invariant Seen(seen, FirstWins(all[..p]))
    {
      assert all[..p + 1][..p] == all[..p];
      SeenNext(seen, FirstWins(all[..p]), all[p]);
      if all[p].id !in seen {
        seen := seen[all[p].id := all[p].dist];
      }
    }
    assert all[..|all|] == all;
    ranked := RankEntries(seen, FirstWins(all), kOut, poolK, excludeNearest);
  }

  method RankEntries(seen: map<nat, real>, ghost first: seq<Hit>, kOut: nat, poolK: nat, excludeNearest: bool)
    returns (ranked: seq<Hit>)
    requires Seen(seen, first)
    ensures ranked == Window(SortHits(first), kOut, poolK, excludeNearest)
  {
    var entries := Drain(seen);
    SameEntries(entries, first);
    SortHitsUnique(first, SortHits(entries));
    ranked := SortHits(entries);
    if excludeNearest && |ranked| > 1 {
      ranked := ranked[1..];
    }
    ranked := ranked[..Min(poolK, |ranked|)];
    ranked := ranked[..Min(kOut, |ranked|)];
  }

  function Rescore(dist: nat -> real, s: seq<Hit>): (r: seq<Hit>)
    ensures |r| == |s| && forall i | 0 <= i < |s| :: r[i] == Hit(s[i].id, dist(s[i].id))
  {
    seq(|s|, i requires 0 <= i < |s| => Hit(s[i].id, dist(s[i].id)))
  }

  /** The scaled variant reads every candidate row again and recomputes its distance;
      a candidate that is not a row is an error. */
  method MergeTopkCandidates(dist: nat -> real, nrows: nat, legA: seq<Hit>, legB: seq<Hit>,
                             kOut: nat, poolK: nat, excludeNearest: bool)
    returns (r: Option<seq<Hit>>)
    ensures r.None? <==> exists h :: h in legA + legB && h.id >= nrows
    ensures r.Some? ==>
      r.value == Window(SortHits(FirstWins(Rescore(dist, legA + legB))), kOut, poolK, excludeNearest)
  {
    var seen: map<nat, real> := map[];
    var all := legA + legB;
    ghost var scored := Rescore(dist, all);
    for p := 0 to |all|
      invariant SeenRows(seen, scored, all, p, nrows)
    {
      if all[p].id !in seen {
        if all[p].id >= nrows {
          assert all[p] in all;
          return None;
        }
        NewRowSeen(seen, scored, all, p, nrows);
        seen := seen[all[p].id := dist(all[p].id)];
      } else {
        OldRowSeen(seen, scored, all, p, nrows);
      }
    }
    assert scored[..|all|] == scored;
    var ranked := RankEntries(seen, FirstWins(scored), kOut, poolK, excludeNearest);
    r := Some(ranked);
  }

  /** The first `p` candidates are rows, and the map holds each once, rescored. */
  ghost predicate SeenRows(seen: map<nat, real>, scored: seq<Hit>, all: seq<Hit>, p: nat, nrows: nat)
    requires p <= |all| == |scored|
  {
    Seen(seen, FirstWins(scored[..p])) && forall q | 0 <= q < p :: all[q].id < nrows
  }

  lemma NewRowSeen(seen: map<nat, real>, scored: seq<Hit>, all: seq<Hit>, p: nat, nrows: nat)
    requires p < |all| == |scored| && SeenRows(seen, scored, all, p, nrows)
    requires scored[p].id == all[p].id < nrows && all[p].id !in seen
    ensures SeenRows(seen[all[p].id := scored[p].dist], scored, all, p + 1, nrows)
  {
    assert scored[..p + 1][..p] == scored[..p];
    SeenNext(seen, FirstWins(scored[..p]), scored[p]);
  }

  lemma OldRowSeen(seen: map<nat, real>, scored: seq<Hit>, all: seq<Hit>, p: nat, nrows: nat)
    requires p < |all| == |scored| && SeenRows(seen, scored, all, p, nrows)
    requires (forall i | 0 <= i < |all| :: scored[i].id == all[i].id) && all[p].id in seen
    ensures SeenRows(seen, scored, all, p + 1, nrows)
  {
    assert scored[..p + 1][..p] == scored[..p];
    SeenNext(seen, FirstWins(scored[..p]), scored[p]);
    SeenWasARow(seen, scored, all, p, nrows);
  }

  lemma SeenWasARow(seen: map<nat, real>, scored: seq<Hit>, all: seq<Hit>, p: nat, nrows: nat)
    requires p < |all| == |scored| && forall i | 0 <= i < |all| :: scored[i].id == all[i].id
    requires Seen(seen, FirstWins(scored[..p])) && all[p].id in seen
    requires forall q | 0 <= q < p :: all[q].id < nrows
    ensures all[p].id < nrows
  {
    var h := Hit(all[p].id, seen[all[p].id]);
    assert h in FirstWins(scored[..p]);
    FirstWinsFrom(scored[..p], h);
    var q :| 0 <= q < p && scored[..p][q] == h;
  }

  lemma {:induction false} FirstWinsFrom(s: seq<Hit>, h: Hit)
    requires h in FirstWins(s)
    ensures h in s
  {
    if h in FirstWins(s[..|s| - 1]) {
      FirstWinsFrom(s[..|s| - 1], h);
      assert h in s[..|s| - 1];
    }
  }

  // ---- The answer ----------------------------------------------------------

  /** What one query row of `search` is: the first k rows of the ranking, or ranks 2..k+1 when the
      nearest is excluded; when that asks for more rows than there are, the last slot keeps
      its initial value (id 0, distance 0). */
  function Answer(dist: nat -> real, total: nat, k: nat, excludeNearest: bool): (row: seq<Hit>)
    ensures |row| == Min(k, total)
  {
    if excludeNearest && total > 1 then
      Ranking(dist, total)[1..Min(k + 1, total)] + (if k >= total then [Hit(0, 0.0)] else [])
    else
      Ranking(dist, total)[..Min(k, total)]
  }

  /** The same without a ranking: the k nearest rows; or those behind the nearest row, and when that asks for
      more rows than there are, (0, 0.0) in the last slot. */
  ghost predicate PlainAnswer(dist: nat -> real, total: nat, k: nat, excludeNearest: bool, row: seq<Hit>) {
    if !excludeNearest || total <= 1 then NearestRows(dist, total, k, row)
    else exists nearest: Hit :: BehindOne(dist, total, k, nearest, row)
  }

  ghost predicate BehindOne(dist: nat -> real, total: nat, k: nat, nearest: Hit, row: seq<Hit>) {
    if k < total then NearestRows(dist, total, k + 1, [nearest] + row)
    else |row| == total > 0 && row[total - 1] == Hit(0, 0.0) && NearestRows(dist, total, total, [nearest] + row[..total - 1])
  }

  lemma AnswerIsPlain(dist: nat -> real, total: nat, k: nat, excludeNearest: bool)
    ensures PlainAnswer(dist, total, k, excludeNearest, Answer(dist, total, k, excludeNearest))
  {
    var r, row := Ranking(dist, total), Answer(dist, total, k, excludeNearest);
    if !excludeNearest || total <= 1 {
      RankingIsNearest(dist, total, k);
    } else {
      if k < total {
        RankingIsNearest(dist, total, k + 1);
        assert row == r[1..k + 1] && [r[0]] + row == r[..k + 1];
      } else {
        RankingIsNearest(dist, total, total);
        assert row[..total - 1] == r[1..total] && [r[0]] + row[..total - 1] == r[..total];
      }
      assert BehindOne(dist, total, k, r[0], row);
    }
  }

  lemma BehindOneUnique(dist: nat -> real, total: nat, k: nat, a: Hit, row: seq<Hit>, b: Hit, other: seq<Hit>)
    requires BehindOne(dist, total, k, a, row) && BehindOne(dist, total, k, b, other)
    ensures row == other
  {
    if k < total {
      NearestRowsUnique(dist, total, k + 1, [a] + row, [b] + other);
      assert row == ([a] + row)[1..] && other == ([b] + other)[1..];
    } else {
      var n := total - 1;
      NearestRowsUnique(dist, total, total, [a] + row[..n], [b] + other[..n]);
      assert row[..n] == ([a] + row[..n])[1..] && other[..n] == ([b] + other[..n])[1..];
      assert row == row[..n] + [row[n]] && other == other[..n] + [other[n]];
    }
  }

  /** And nothing else is such an answer. */
  lemma PlainAnswerUnique(dist: nat -> real, total: nat, k: nat, excludeNearest: bool, row: seq<Hit>)
    ensures PlainAnswer(dist, total, k, excludeNearest, row) <==> row == Answer(dist, total, k, excludeNearest)
  {
    var answer := Answer(dist, total, k, excludeNearest);
    AnswerIsPlain(dist, total, k, excludeNearest);
    if PlainAnswer(dist, total, k, excludeNearest, row) {
      if !excludeNearest || total <= 1 {
        NearestRowsUnique(dist, total, k, row, answer);
      } else {
        var a: Hit :| BehindOne(dist, total, k, a, row);
        var b: Hit :| BehindOne(dist, total, k, b, answer);
        BehindOneUnique(dist, total, k, a, row, b, answer);
      }
    }
  }

  function PoolK(total: nat, k: nat, excludeNearest: bool): nat {
    if excludeNearest then Min(k + 1, total) else Min(k, total)
  }

  /** Result rows start as zeros; ranked entries overwrite a prefix. */
  function Padded(ranked: seq<Hit>, k: nat): (row: seq<Hit>)
    requires |ranked| <= k
    ensures |row| == k
  {
    ranked + seq(k - |ranked|, _ => Hit(0, 0.0))
  }

  /** Only the first `PoolK` entries of a ranking reach the answer. */
  lemma WindowIsAnswer(dist: nat -> real, total: nat, k: nat, excludeNearest: bool, ranked: seq<Hit>)
    requires var p := PoolK(total, k, excludeNearest);
      p <= |ranked| <= total && ranked[..p] == Ranking(dist, total)[..p]
    ensures Padded(Window(ranked, Min(k, total), PoolK(total, k, excludeNearest), excludeNearest), Min(k, total))
         == Answer(dist, total, k, excludeNearest)
  {
    if excludeNearest && total > 1 {
      if |ranked| > 1 {
        WindowSkips(ranked, Ranking(dist, total), total, k);
      } else {
        assert k == 0;
      }
    } else {
      var e := Min(k, total);
      assert Window(ranked, e, PoolK(total, k, excludeNearest), excludeNearest)
          == ranked[..PoolK(total, k, excludeNearest)][..e];
    }
  }

  lemma WindowSkips(ranked: seq<Hit>, all: seq<Hit>, total: nat, k: nat)
    requires |all| == total > 1
    requires 1 < |ranked| <= total && Min(k + 1, total) <= |ranked|
    requires ranked[..Min(k + 1, total)] == all[..Min(k + 1, total)]
    ensures Window(ranked, Min(k, total), Min(k + 1, total), true) == all[1..Min(k + 1, total)]
  {
    var p := Min(k + 1, total);
    var rest := ranked[1..];
    var pool := rest[..Min(p, |rest|)];
    assert Window(ranked, Min(k, total), p, true) == pool[..Min(Min(k, total), |pool|)];
    assert Min(Min(k, total), |pool|) == p - 1;
    assert pool[..p - 1] == rest[..p - 1] == ranked[1..p];
    assert ranked[1..p] == ranked[..p][1..] && all[1..p] == all[..p][1..];
  }

  lemma TopHitsShorter(s: seq<Hit>, more: seq<Hit>, a: nat, m: nat)
    requires m <= a
    ensures TopHits(TopHits(s, a) + more, m) == TopHits(s + more, m)
  {
    TopHitsOfTop(s, more, a);
    PrefixOfTop(TopHits(s, a) + more, a, m);
    PrefixOfTop(s + more, a, m);
  }

  lemma PrefixOfTop(s: seq<Hit>, a: nat, m: nat)
    requires m <= a
    ensures TopHits(s, m) == TopHits(s, a)[..Min(m, |s|)]
  {
  }

  lemma {:induction false} HitsSplit(dist: nat -> real, indexed: nat, total: nat)
    requires indexed <= total
    ensures Hits(dist, 0, indexed) + Hits(dist, indexed, total) == Hits(dist, 0, total)
  {
  }

  /** The two exact legs together start like the ranking of all rows. */
  lemma LegsCoverRanking(dist: nat -> real, indexed: nat, total: nat, a: nat, b: nat, p: nat)
    requires indexed <= total && p <= a && p <= b && p <= total
    ensures var legs := Nearest(dist, 0, indexed, a) + Nearest(dist, indexed, total, b);
      && p <= |legs| <= total && SortHits(legs)[..p] == Ranking(dist, total)[..p]
  {
    TwoTops(Hits(dist, 0, indexed), Hits(dist, indexed, total), a, b, p);
    HitsSplit(dist, indexed, total);
  }

  lemma TwoTops(x: seq<Hit>, y: seq<Hit>, a: nat, b: nat, p: nat)
    requires p <= a && p <= b
    ensures TopHits(TopHits(x, a) + TopHits(y, b), p) == TopHits(x + y, p)
  {
    TopHitsShorter(x, TopHits(y, b), a, p);
    Swap(x, TopHits(y, b), p);
    TopHitsShorter(y, x, b, p);
    Swap(y, x, p);
  }

  lemma Swap(x: seq<Hit>, y: seq<Hit>, p: nat)
    ensures TopHits(x + y, p) == TopHits(y + x, p)
  {
    TopHitsOfPermutation(x + y, y + x, p);
  }

  lemma NearestDistinct(dist: nat -> real, lo: nat, hi: nat, k: nat)
    requires lo <= hi
    ensures DistinctIds(Nearest(dist, lo, hi, k))
  {
    var hits := Hits(dist, lo, hi);
    var r := SortHits(hits);
    forall i, j | 0 <= i < j < |r| ensures r[i].id != r[j].id {
      InSortHits(hits, r[i]);
      InSortHits(hits, r[j]);
      InHits(dist, lo, hi, r[i]);
      InHits(dist, lo, hi, r[j]);
      if r[i].id == r[j].id {
        OnceInDistinct(hits, r[i]);
        TwiceWhenEqual(r, i, j);
      }
    }
  }

  function IndexK(kEff: nat, poolK: nat, excludeNearest: bool): nat {
    if excludeNearest then (if poolK >= 2 * kEff then poolK else 2 * kEff) else kEff
  }

  function AtLeastOne(k: nat): nat {
    if k == 0 then 1 else k
  }

  /** A leg of different indexed rows with their true distances; nothing says that it is complete. */
  ghost predicate ListsIndexed(dist: nat -> real, indexed: nat, legA: seq<Hit>) {
    DistinctIds(legA) && forall c | c in legA :: c.id < indexed && c.dist == dist(c.id)
  }

  /** The candidates that are merged: what the index found, and the nearest pending rows. */
  function Candidates(dist: nat -> real, indexed: nat, total: nat, k: nat, excludeNearest: bool, legA: seq<Hit>): seq<Hit>
    requires indexed <= total
  {
    legA + Nearest(dist, indexed, total, PoolK(total, k, excludeNearest))
  }

  /** What comes of them. */
  function LegAnswer(dist: nat -> real, indexed: nat, total: nat, k: nat, excludeNearest: bool, legA: seq<Hit>): (row: seq<Hit>)
    requires indexed <= total
    ensures |row| == Min(k, total)
  {
    var legs := Candidates(dist, indexed, total, k, excludeNearest, legA);
    Padded(Window(SortHits(legs), Min(k, total), PoolK(total, k, excludeNearest), excludeNearest), Min(k, total))
  }

  /** One query over many rows: the index answers for rows `0..indexed`, a brute-force leg for the
      rest, and the merge ranks the union. `candidates` is the index, exact or not. */
  method SearchLegs(dist: nat -> real, total: nat, indexed: nat, candidates: nat -> seq<Hit>,
                    k: nat, excludeNearest: bool, scaleX: bool)
    returns (row: seq<Hit>)
    requires indexed <= total
    requires forall c: nat :: ListsIndexed(dist, indexed, candidates(c))
    ensures row == LegAnswer(dist, indexed, total, k, excludeNearest, IndexLeg(total, indexed, candidates, k, excludeNearest))
  {
    var kEff, poolK := Min(k, total), PoolK(total, k, excludeNearest);
    var indexK := AtLeastOne(IndexK(kEff, poolK, excludeNearest));
    var legA := if indexed > 0 then candidates(indexK) else [];
    var legB := if indexed < total then Nearest(dist, indexed, total, poolK) else [];
    assert legB == Nearest(dist, indexed, total, poolK);
    LegsAreDistinctRows(dist, indexed, total, poolK, legA);
    var merged := MergeLegs(dist, total, legA, legB, kEff, poolK, excludeNearest, scaleX);
    row := Padded(merged, kEff);
  }

  /** How many candidates the index is asked for, and what it gives. */
  function IndexLeg(total: nat, indexed: nat, candidates: nat -> seq<Hit>, k: nat, excludeNearest: bool): seq<Hit> {
    if indexed > 0 then candidates(AtLeastOne(IndexK(Min(k, total), PoolK(total, k, excludeNearest), excludeNearest))) else []
  }

  /** With an exact index that is the answer of the ranking of all rows. */
  method SearchIndexedAndPending(dist: nat -> real, total: nat, indexed: nat, candidates: nat -> seq<Hit>,
                                 k: nat, excludeNearest: bool, scaleX: bool)
    returns (row: seq<Hit>)
    requires indexed <= total
    requires forall c: nat :: candidates(c) == Nearest(dist, 0, indexed, c)
    ensures row == Answer(dist, total, k, excludeNearest)
    ensures PlainAnswer(dist, total, k, excludeNearest, row)
  {
    forall c: nat ensures ListsIndexed(dist, indexed, candidates(c)) {
      NearestListsIndexed(dist, indexed, c);
    }
    row := SearchLegs(dist, total, indexed, candidates, k, excludeNearest, scaleX);
    var legA := IndexLeg(total, indexed, candidates, k, excludeNearest);
    var a, p := AtLeastOne(IndexK(Min(k, total), PoolK(total, k, excludeNearest), excludeNearest)), PoolK(total, k, excludeNearest);
    assert legA == Nearest(dist, 0, indexed, a);
    LegsCoverRanking(dist, indexed, total, a, p, p);
    WindowIsAnswer(dist, total, k, excludeNearest, SortHits(Candidates(dist, indexed, total, k, excludeNearest, legA)));
    AnswerIsPlain(dist, total, k, excludeNearest);
  }

  lemma NearestListsIndexed(dist: nat -> real, indexed: nat, c: nat)
    ensures ListsIndexed(dist, indexed, Nearest(dist, 0, indexed, c))
  {
    NearestDistinct(dist, 0, indexed, c);
    forall h | h in Nearest(dist, 0, indexed, c) ensures h.id < indexed && h.dist == dist(h.id) {
      NearestAreRows(dist, 0, indexed, c, h);
    }
  }

  lemma LegsAreDistinctRows(dist: nat -> real, indexed: nat, total: nat, p: nat, legA: seq<Hit>)
    requires indexed <= total && ListsIndexed(dist, indexed, legA)
    ensures var legs := legA + Nearest(dist, indexed, total, p);
      DistinctIds(legs) && forall h | h in legs :: h.id < total && h.dist == dist(h.id)
  {
    var legB := Nearest(dist, indexed, total, p);
    LegADistinct(dist, indexed, total, p, legA);
    forall h | h in legA + legB ensures h.id < total && h.dist == dist(h.id) {
      if h !in legA {
        NearestAreRows(dist, indexed, total, p, h);
      }
    }
  }

  /** On legs that list rows with their true distances, both merges rank the union. */
  method MergeLegs(dist: nat -> real, total: nat, legA: seq<Hit>, legB: seq<Hit>,
                   kOut: nat, poolK: nat, excludeNearest: bool, scaleX: bool)
    returns (merged: seq<Hit>)
    requires DistinctIds(legA + legB)
    requires forall h | h in legA + legB :: h.id < total && h.dist == dist(h.id)
    ensures merged == Window(SortHits(legA + legB), kOut, poolK, excludeNearest)
  {
    FirstWinsDistinct(legA + legB);
    if scaleX {
      assert Rescore(dist, legA + legB) == legA + legB;
      var r := MergeTopkCandidates(dist, total, legA, legB, kOut, poolK, excludeNearest);
      merged := r.value;
    } else {
      merged := MergeTopkPrecomputedDist(legA, legB, kOut, poolK, excludeNearest);
    }
  }

  /** One query over few rows: the flat scan is the only leg. */
  method ScoreQueryFlat(query: seq<real>, flat: seq<real>, total: nat, d: nat, k: nat, excludeNearest: bool)
    returns (row: seq<Hit>)
    requires |query| == d && |flat| == total * d
    ensures row == Answer(FlatDists(query, flat), total, k, excludeNearest)
    ensures PlainAnswer(FlatDists(query, flat), total, k, excludeNearest, row)
  {
    ghost var dist := FlatDists(query, flat);
    var kEff, poolK := Min(k, total), PoolK(total, k, excludeNearest);
    var leg := TopkFlatSqL2(query, flat, total, d, poolK);
    var merged := MergeTopkPrecomputedDist(leg, [], kEff, poolK, excludeNearest);
    NearestDistinct(dist, 0, total, poolK);
    assert leg + [] == leg;
    FirstWinsDistinct(leg);
    LegsCoverRanking(dist, total, total, poolK, poolK, poolK);
    assert Nearest(dist, total, total, poolK) == [];
    WindowIsAnswer(dist, total, k, excludeNearest, SortHits(leg));
    row := Padded(merged, kEff);
    AnswerIsPlain(dist, total, k, excludeNearest);
  }

  /** What a caller wants of `exclude_nearest`: k different rows, none of them the nearest one. */
  ghost predicate OthersThanNearest(dist: nat -> real, total: nat, row: seq<Hit>)
    requires total > 0
  {
    && DistinctIds(row)
    && forall i | 0 <= i < |row| :: row[i] in Ranking(dist, total) && row[i].id != Ranking(dist, total)[0].id
  }

  /** The answer meets that wish exactly when fewer than all rows were asked for. */
  lemma ExcludeNearestExactly(dist: nat -> real, total: nat, k: nat)
    requires total > 0
    ensures OthersThanNearest(dist, total, Answer(dist, total, k, true)) <==> k < total
    ensures k < total ==> Answer(dist, total, k, true) == Ranking(dist, total)[1..k + 1]
  {
    var r, row := Ranking(dist, total), Answer(dist, total, k, true);
    forall i, j | 0 <= i < j < total ensures r[i].id != r[j].id {
      RankedOnce(dist, total, i, j);
    }
    if k >= total {
      if total == 1 {
        assert row[0] == r[0];
      } else {
        PhantomRow(dist, total, k);
      }
    } else if total == 1 {
      assert row == [];
    }
  }

  /** With k at least the number of rows, the padding is the nearest row again or a repetition. */
  lemma PhantomRow(dist: nat -> real, total: nat, k: nat)
    requires 1 < total <= k
    ensures !OthersThanNearest(dist, total, Answer(dist, total, k, true))
  {
    var r, row := Ranking(dist, total), Answer(dist, total, k, true);
    var zero := Hit(0, dist(0));
    RankedAreRows(dist, total, zero);
    var q :| 0 <= q < total && r[q] == zero;
    assert row[total - 1] == Hit(0, 0.0);
    if q > 0 {
      assert row[q - 1] == zero;
    }
  }

  /** Two rows at distances 0 and 1, two results asked for without the nearest: the second result
      is the row that was just left out. */
  lemma PhantomExample(dist: nat -> real)
    requires dist(0) == 0.0 && dist(1) == 1.0
    ensures Answer(dist, 2, 2, true) == [Hit(1, 1.0), Hit(0, 0.0)]
    ensures !OthersThanNearest(dist, 2, Answer(dist, 2, 2, true))
  {
    PhantomRow(dist, 2, 2);
    TwoRowRanking(dist);
  }

  lemma TwoRowRanking(dist: nat -> real)
    requires dist(0) == 0.0 && dist(1) == 1.0
    ensures Ranking(dist, 2) == [Hit(0, 0.0), Hit(1, 1.0)]
  {
    var hits := [Hit(0, 0.0), Hit(1, 1.0)];
    assert Hits(dist, 0, 2) == hits;
    SortHitsUnique(hits, hits);
  }

  // ---- An index that is only approximate -----------------------------------

  /** Fewer rivals can only improve a rank: what is among the first m of `s` is among the first m
      of any part of `s` that still contains it. */
  lemma FewerRivals(s: seq<Hit>, part: seq<Hit>, m: nat, h: Hit)
    requires multiset(part) <= multiset(s)
    requires h in part && h in TopHits(s, m)
    ensures h in TopHits(part, m)
  {
    var all, some := SortHits(s), SortHits(part);
    var i :| 0 <= i < Min(m, |s|) && all[i] == h;
    InSortHits(part, h);
    var j :| 0 <= j < |some| && some[j] == h;
    if h !in some[..Min(m, |part|)] {
      assert m <= j;
      AheadOf(all, some, i, m, h);
    }
  }

  lemma AheadOf(all: seq<Hit>, some: seq<Hit>, i: nat, m: nat, h: Hit)
    requires SortedHits(all) && SortedHits(some) && multiset(some) <= multiset(all)
    requires i < |all| && all[i] == h && m < |some| && h in some[m..] && h !in some[..m]
    ensures m <= i
  {
    assert all == all[..i] + all[i..] && some == some[..m] + some[m..];
    forall x | x in some[..m] ensures x !in all[i..] {
      var q :| 0 <= q < m && some[q] == x;
      var j :| m <= j < |some| && some[j] == h;
      assert HitLe(x, h);
    }
    MultisetWithin(some[..m], multiset(some[m..]) + (multiset(all) - multiset(some)), all[..i], all[i..]);
  }

  /** A pending row that is ranked within the pool is in the pending leg. */
  lemma InPendingLeg(dist: nat -> real, indexed: nat, total: nat, p: nat, h: Hit)
    requires indexed <= total && p <= total && h in Ranking(dist, total)[..p] && h.id >= indexed
    ensures h in Nearest(dist, indexed, total, p)
  {
    var x, y := Hits(dist, 0, indexed), Hits(dist, indexed, total);
    HitsSplit(dist, indexed, total);
    RankedAreRows(dist, total, h);
    InHits(dist, indexed, total, h);
    FewerRivals(x + y, y, p, h);
  }

  /** And it is ranked within the pool among the candidates. */
  lemma PendingRanked(dist: nat -> real, indexed: nat, total: nat, k: nat, excludeNearest: bool, legA: seq<Hit>, h: Hit)
    requires indexed <= total && ListsIndexed(dist, indexed, legA) && h.id >= indexed
    requires h in Ranking(dist, total)[..PoolK(total, k, excludeNearest)]
    ensures h in TopHits(Candidates(dist, indexed, total, k, excludeNearest, legA), PoolK(total, k, excludeNearest))
    ensures h in Candidates(dist, indexed, total, k, excludeNearest, legA)
  {
    var p := PoolK(total, k, excludeNearest);
    InPendingLeg(dist, indexed, total, p, h);
    CandidatesWithin(dist, indexed, total, p, legA);
    FewerRivals(Hits(dist, 0, total), Candidates(dist, indexed, total, k, excludeNearest, legA), p, h);
  }

  lemma CandidatesWithin(dist: nat -> real, indexed: nat, total: nat, p: nat, legA: seq<Hit>)
    requires indexed <= total && ListsIndexed(dist, indexed, legA)
    ensures multiset(legA + Nearest(dist, indexed, total, p)) <= multiset(Hits(dist, 0, total))
  {
    HitsSplit(dist, indexed, total);
    LegAWithin(dist, indexed, legA);
    TopWithin(Hits(dist, indexed, total), p);
  }

  /** However incomplete the index's leg is: without leaving out the nearest, no pending row that belongs
      into the answer is ever lost. */
  lemma PendingNeverLost(dist: nat -> real, indexed: nat, total: nat, k: nat, legA: seq<Hit>, h: Hit)
    requires indexed <= total && ListsIndexed(dist, indexed, legA)
    requires h in Answer(dist, total, k, false) && h.id >= indexed
    ensures h in LegAnswer(dist, indexed, total, k, false, legA)
  {
    PendingRanked(dist, indexed, total, k, false, legA, h);
  }

  /** A row behind the nearest that is ranked within the pool: it belongs into the answer without the nearest. */
  ghost predicate BehindNearest(dist: nat -> real, total: nat, k: nat, h: Hit) {
    total > 0 && h in Ranking(dist, total)[..PoolK(total, k, true)] && h != Ranking(dist, total)[0]
  }

  ghost predicate NoneNearer(legs: seq<Hit>, h: Hit) {
    forall c | c in legs :: HitLe(h, c)
  }

  /** When the nearest is left out, a pending row that belongs into the answer is lost exactly when no
      candidate is nearer, and there are others: then the merge takes it for the row to leave out. */
  lemma PendingLostExactly(dist: nat -> real, indexed: nat, total: nat, k: nat, legA: seq<Hit>, h: Hit)
    requires indexed <= total && ListsIndexed(dist, indexed, legA)
    requires BehindNearest(dist, total, k, h) && h.id >= indexed
    ensures var legs := Candidates(dist, indexed, total, k, true, legA);
      h !in LegAnswer(dist, indexed, total, k, true, legA) <==> |legs| > 1 && NoneNearer(legs, h)
  {
    var legs := Candidates(dist, indexed, total, k, true, legA);
    PendingRanked(dist, indexed, total, k, true, legA, h);
    CandidatesAreFew(dist, indexed, total, k, legA);
    InSortHits(legs, h);
    FirstIsNearest(legs, h);
    if NoneNearer(legs, h) {
      MissedNearest(dist, indexed, total, k, legA, h);
    }
    KeptInAnswer(SortHits(legs), total, k, h);
  }

  lemma CandidatesAreFew(dist: nat -> real, indexed: nat, total: nat, k: nat, legA: seq<Hit>)
    requires indexed <= total && ListsIndexed(dist, indexed, legA)
    ensures var ranked := SortHits(Candidates(dist, indexed, total, k, true, legA));
      DistinctIds(ranked) && |ranked| <= total
  {
    var legs := Candidates(dist, indexed, total, k, true, legA);
    LegsAreDistinctRows(dist, indexed, total, PoolK(total, k, true), legA);
    NoMoreThanRows(dist, total, legs);
    SortedDistinct(legs);
  }

  /** The first of the sorted candidates is the one that none is nearer than. */
  lemma FirstIsNearest(legs: seq<Hit>, h: Hit)
    requires h in legs
    ensures SortHits(legs)[0] == h <==> NoneNearer(legs, h)
  {
    var ranked := SortHits(legs);
    forall c ensures c in ranked <==> c in legs {
      InSortHits(legs, c);
    }
    assert ranked[0] in ranked;
  }

  lemma SortedDistinct(legs: seq<Hit>)
    requires DistinctIds(legs)
    ensures DistinctIds(SortHits(legs))
  {
    var r := SortHits(legs);
    forall i, j | 0 <= i < j < |r| ensures r[i].id != r[j].id {
      InSortHits(legs, r[i]);
      InSortHits(legs, r[j]);
      if r[i].id == r[j].id {
        var a :| 0 <= a < |legs| && legs[a] == r[i];
        var b :| 0 <= b < |legs| && legs[b] == r[j];
        OnceInDistinct(legs, r[i]);
        TwiceWhenEqual(r, i, j);
      }
    }
  }

  /** Of at least two entries within the pool only the first is left out. */
  lemma KeptBehindFirst(ranked: seq<Hit>, total: nat, k: nat, h: Hit)
    requires DistinctIds(ranked) && |ranked| <= total && PoolK(total, k, true) >= 2
    requires h in ranked[..Min(PoolK(total, k, true), |ranked|)]
    ensures h in Window(ranked, Min(k, total), PoolK(total, k, true), true) <==> |ranked| <= 1 || ranked[0] != h
  {
    var n := Min(PoolK(total, k, true), |ranked|);
    if |ranked| > 1 {
      assert Window(ranked, Min(k, total), PoolK(total, k, true), true) == ranked[1..n];
      assert ranked[..n] == [ranked[0]] + ranked[1..n];
    }
  }

  lemma KeptInAnswer(ranked: seq<Hit>, total: nat, k: nat, h: Hit)
    requires DistinctIds(ranked) && |ranked| <= total && PoolK(total, k, true) >= 2
    requires h in ranked[..Min(PoolK(total, k, true), |ranked|)] && (ranked[0] == h ==> h.id != 0)
    ensures h in Padded(Window(ranked, Min(k, total), PoolK(total, k, true), true), Min(k, total))
       <==> |ranked| <= 1 || ranked[0] != h
  {
    KeptBehindFirst(ranked, total, k, h);
  }

  lemma FoundIsCandidate(dist: nat -> real, indexed: nat, total: nat, k: nat, legA: seq<Hit>, h: Hit)
    requires indexed <= total
    ensures h in legA ==> h in Candidates(dist, indexed, total, k, true, legA)
  {
  }

  /** A pending row in front of all candidates, but not of all rows, is not row 0: some row is indexed. */
  lemma MissedNearest(dist: nat -> real, indexed: nat, total: nat, k: nat, legA: seq<Hit>, h: Hit)
    requires indexed <= total && ListsIndexed(dist, indexed, legA)
    requires BehindNearest(dist, total, k, h) && h.id >= indexed
    requires NoneNearer(Candidates(dist, indexed, total, k, true, legA), h)
    ensures Ranking(dist, total)[0].id < indexed && Ranking(dist, total)[0] !in legA && h.id != 0
  {
    var r, p := Ranking(dist, total), PoolK(total, k, true);
    var i :| 0 <= i < p && r[i] == h;
    assert HitLe(r[0], h) && r[0] in r[..p];
    FoundIsCandidate(dist, indexed, total, k, legA, r[0]);
    if r[0].id >= indexed {
      PendingRanked(dist, indexed, total, k, true, legA, r[0]);
    }
  }

  lemma NoMoreThanRows(dist: nat -> real, total: nat, legs: seq<Hit>)
    requires ListsIndexed(dist, total, legs)
    ensures |legs| <= total
  {
    var all := Hits(dist, 0, total);
    LegAWithin(dist, total, legs);
    MultisetWithin(legs, multiset(all) - multiset(legs), all, []);
  }

  /** So none is lost exactly when there is only one candidate, or the nearest row is among them, or the
      nearest candidate is not a pending row that belongs into the answer. */
  lemma NoPendingLostExactly(dist: nat -> real, indexed: nat, total: nat, k: nat, legA: seq<Hit>)
    requires indexed <= total && total > 0 && ListsIndexed(dist, indexed, legA)
    ensures var nearest, legs := Ranking(dist, total)[0], Candidates(dist, indexed, total, k, true, legA);
      (forall h | BehindNearest(dist, total, k, h) && h.id >= indexed :: h in LegAnswer(dist, indexed, total, k, true, legA))
      <==> |legs| <= 1 || nearest in legA || nearest.id >= indexed
           || SortHits(legs)[0].id < indexed || !BehindNearest(dist, total, k, SortHits(legs)[0])
  {
    var nearest, legs := Ranking(dist, total)[0], Candidates(dist, indexed, total, k, true, legA);
    forall h | BehindNearest(dist, total, k, h) && h.id >= indexed
      ensures h in LegAnswer(dist, indexed, total, k, true, legA) <==> |legs| <= 1 || SortHits(legs)[0] != h
      ensures |legs| > 1 && SortHits(legs)[0] == h ==> nearest.id < indexed && nearest !in legA
    {
      PendingLostExactly(dist, indexed, total, k, legA, h);
      PendingRanked(dist, indexed, total, k, true, legA, h);
      InSortHits(legs, h);
      FirstIsNearest(legs, h);
      if |legs| > 1 && SortHits(legs)[0] == h {
        MissedNearest(dist, indexed, total, k, legA, h);
      }
    }
  }

  /** Three rows at distances 0, 1 and 2, the first one indexed and missed by the index: asked for one row
      besides the nearest, the answer is row 1, but row 2 comes back. */
  lemma PendingLostExample(dist: nat -> real)
    requires dist(0) == 0.0 && dist(1) == 1.0 && dist(2) == 2.0
    ensures Answer(dist, 3, 1, true) == [Hit(1, 1.0)] && LegAnswer(dist, 1, 3, 1, true, []) == [Hit(2, 2.0)]
  {
    AscendingRows(dist, 0, 3);
    AscendingRows(dist, 1, 3);
    AnswerOfThree(dist, Hits(dist, 0, 3));
    CandidatesOfTwo(dist, Hits(dist, 1, 3));
  }

  lemma AscendingRows(dist: nat -> real, lo: nat, hi: nat)
    requires lo <= hi && forall i, j | lo <= i < j < hi :: dist(i) < dist(j)
    ensures SortHits(Hits(dist, lo, hi)) == Hits(dist, lo, hi) && SortedHits(Hits(dist, lo, hi))
  {
    SortedStays(Hits(dist, lo, hi));
  }

  lemma SortedStays(s: seq<Hit>)
    requires SortedHits(s)
    ensures SortHits(s) == s
  {
    SortHitsUnique(s, s);
  }

  lemma AnswerOfThree(dist: nat -> real, all: seq<Hit>)
    requires |all| == 3 && SortHits(Hits(dist, 0, 3)) == all
    ensures Answer(dist, 3, 1, true) == [all[1]]
  {
  }

  lemma CandidatesOfTwo(dist: nat -> real, pending: seq<Hit>)
    requires |pending| == 2 && SortedHits(pending) && SortHits(Hits(dist, 1, 3)) == pending
    ensures LegAnswer(dist, 1, 3, 1, true, []) == [pending[1]]
  {
    assert Candidates(dist, 1, 3, 1, true, []) == pending;
    SortedStays(pending);
  }

  lemma LegADistinct(dist: nat -> real, indexed: nat, total: nat, k: nat, legA: seq<Hit>)
    requires indexed <= total
    requires DistinctIds(legA) && forall c | c in legA :: c.id < indexed
    ensures DistinctIds(legA + Nearest(dist, indexed, total, k))
  {
    var legB := Nearest(dist, indexed, total, k);
    NearestDistinct(dist, indexed, total, k);
    forall i, j | 0 <= i < |legA| && 0 <= j < |legB| ensures legA[i].id != legB[j].id {
      assert legA[i] in legA;
      NearestAreRows(dist, indexed, total, k, legB[j]);
    }
  }

  lemma TopWithin(s: seq<Hit>, m: nat)
    ensures multiset(TopHits(s, m)) <= multiset(s)
  {
    var r := SortHits(s);
    assert r == r[..Min(m, |s|)] + r[Min(m, |s|)..];
  }

  lemma LegAWithin(dist: nat -> real, indexed: nat, legA: seq<Hit>)
    requires ListsIndexed(dist, indexed, legA)
    ensures multiset(legA) <= multiset(Hits(dist, 0, indexed))
  {
    forall c ensures multiset(legA)[c] <= multiset(Hits(dist, 0, indexed))[c] {
      OnceInDistinct(legA, c);
      if c in legA {
        InHits(dist, 0, indexed, c);
        assert c in multiset(Hits(dist, 0, indexed));
      }
    }
  }

  // ---- Both paths ----------------------------------------------------------

  lemma {:induction false} HitsAgree(f: nat -> real, g: nat -> real, total: nat)
    requires forall i | 0 <= i < total :: f(i) == g(i)
    ensures Hits(f, 0, total) == Hits(g, 0, total)
  {
  }

  /** The few-rows path and the many-rows path give the same answer. */
  method BothPathsAgree(query: seq<real>, rows: seq<seq<real>>, indexed: nat, candidates: nat -> seq<Hit>,
                        k: nat, excludeNearest: bool, scaleX: bool)
    returns (small: seq<Hit>, large: seq<Hit>)
    requires Width(rows, |query|)
    requires indexed <= |rows|
    requires forall c: nat :: candidates(c) == Nearest(RowDist(query, rows), 0, indexed, c)
    ensures small == large == Answer(RowDist(query, rows), |rows|, k, excludeNearest)
    ensures PlainAnswer(RowDist(query, rows), |rows|, k, excludeNearest, small)
    ensures !excludeNearest && k > 0 ==> FindsItself(query, rows, small)
  {
    FlattenSize(rows, |query|);
    small := ScoreQueryFlat(query, Flatten(rows), |rows|, |query|, k, excludeNearest);
    FlatAnswer(query, rows, k, excludeNearest);
    large := SearchIndexedAndPending(RowDist(query, rows), |rows|, indexed, candidates, k, excludeNearest, scaleX);
    if !excludeNearest && k > 0 {
      NearestFindsItself(query, rows, k, small);
    }
  }

  function RowDist(query: seq<real>, rows: seq<seq<real>>): nat -> real {
    (i: nat) => if i < |rows| && |rows[i]| == |query| then SqL2(query, rows[i]) else 0.0
  }

  lemma FlatAnswer(query: seq<real>, rows: seq<seq<real>>, k: nat, excludeNearest: bool)
    requires Width(rows, |query|)
    ensures Answer(FlatDists(query, Flatten(rows)), |rows|, k, excludeNearest)
         == Answer(RowDist(query, rows), |rows|, k, excludeNearest)
  {
    forall i | 0 <= i < |rows| ensures FlatDists(query, Flatten(rows))(i) == RowDist(query, rows)(i) {
      FlatDistIs(query, rows, i);
    }
    AnswersAgree(FlatDists(query, Flatten(rows)), RowDist(query, rows), |rows|, k, excludeNearest);
  }

  lemma AnswersAgree(f: nat -> real, g: nat -> real, total: nat, k: nat, excludeNearest: bool)
    requires forall i | 0 <= i < total :: f(i) == g(i)
    ensures Answer(f, total, k, excludeNearest) == Answer(g, total, k, excludeNearest)
  {
    HitsAgree(f, g, total);
  }

  lemma FlatDistIs(query: seq<real>, rows: seq<seq<real>>, i: nat)
    requires Width(rows, |query|) && i < |rows|
    ensures FlatDist(query, Flatten(rows), i) == SqL2(query, rows[i])
  {
    FlatRow(rows, |query|, i);
  }

  // ---- Batches of queries --------------------------------------------------

  /** Every query has got its answer over all rows. */
  ghost predicate AllAnswered(queries: seq<seq<real>>, rows: seq<seq<real>>, k: nat, excludeNearest: bool, out: seq<seq<Hit>>) {
    |out| == |queries| && forall q | 0 <= q < |out| :: out[q] == Answer(RowDist(queries[q], rows), |rows|, k, excludeNearest)
  }

  /** In plain terms: the listed rows, their distances, and that none left out comes before them. */
  ghost predicate AllNearest(queries: seq<seq<real>>, rows: seq<seq<real>>, k: nat, excludeNearest: bool, out: seq<seq<Hit>>) {
    |out| == |queries| && forall q | 0 <= q < |out| :: PlainAnswer(RowDist(queries[q], rows), |rows|, k, excludeNearest, out[q])
  }

  lemma AnsweredIsNearest(queries: seq<seq<real>>, rows: seq<seq<real>>, k: nat, excludeNearest: bool, out: seq<seq<Hit>>)
    requires AllAnswered(queries, rows, k, excludeNearest, out)
    ensures AllNearest(queries, rows, k, excludeNearest, out)
  {
    forall q | 0 <= q < |out| ensures PlainAnswer(RowDist(queries[q], rows), |rows|, k, excludeNearest, out[q]) {
      AnswerIsPlain(RowDist(queries[q], rows), |rows|, k, excludeNearest);
    }
  }

  /** A query that is a stored row gets distance zero and the lowest such row first. */
  ghost predicate FindsItself(query: seq<real>, rows: seq<seq<real>>, row: seq<Hit>) {
    forall i: nat | i < |rows| && rows[i] == query ::
      row != [] && row[0].dist == 0.0 && row[0].id <= i && row[0].id < |rows| && rows[row[0].id] == query
  }

  lemma NearestFindsItself(query: seq<real>, rows: seq<seq<real>>, k: nat, row: seq<Hit>)
    requires Width(rows, |query|) && k > 0 && NearestRows(RowDist(query, rows), |rows|, k, row)
    ensures FindsItself(query, rows, row)
  {
    forall i: nat | i < |rows| && rows[i] == query
      ensures row != [] && row[0].dist == 0.0 && row[0].id <= i && row[0].id < |rows| && rows[row[0].id] == query
    {
      var first := row[0].id;
      ZeroExactly(query, rows[i]);
      ZeroExactly(query, rows[first]);
      if Lists(row, i) {
        var j :| 0 <= j < |row| && row[j].id == i;
        assert j > 0 ==> ComesFirst(row[0], row[j]);
      }
    }
  }

  /** And when the nearest is left out, no other row is as good as the query itself: every listed row is
      a different one, at a positive distance, if it is stored once. */
  lemma LeavesItselfOut(query: seq<real>, rows: seq<seq<real>>, k: nat, row: seq<Hit>, i: nat)
    requires Width(rows, |query|) && k < |rows| && i < |rows|
    requires forall j | 0 <= j < |rows| :: rows[j] == query <==> j == i
    requires PlainAnswer(RowDist(query, rows), |rows|, k, true, row)
    ensures |row| == k && forall j | 0 <= j < k :: row[j].id != i && row[j].dist > 0.0
  {
    if |rows| > 1 {
      var nearest: Hit :| BehindOne(RowDist(query, rows), |rows|, k, nearest, row);
      var all := [nearest] + row;
      NearestFindsItself(query, rows, k + 1, all);
      forall j | 0 <= j < k ensures row[j].id != i && row[j].dist > 0.0 {
        assert ComesFirst(all[0], all[j + 1]);
        ZeroExactly(query, rows[row[j].id]);
      }
    }
  }

  ghost predicate AllFound(queries: seq<seq<real>>, rows: seq<seq<real>>, out: seq<seq<Hit>>) {
    |out| == |queries| && forall q | 0 <= q < |out| :: FindsItself(queries[q], rows, out[q])
  }

  lemma AnsweredIsFound(queries: seq<seq<real>>, rows: seq<seq<real>>, d: nat, k: nat, out: seq<seq<Hit>>)
    requires Width(queries, d) && Width(rows, d) && k > 0 && AllAnswered(queries, rows, k, false, out)
    ensures AllFound(queries, rows, out)
  {
    AnsweredIsNearest(queries, rows, k, false, out);
    forall q | 0 <= q < |out| ensures FindsItself(queries[q], rows, out[q]) {
      NearestFindsItself(queries[q], rows, k, out[q]);
    }
  }

  /** The index search of every query returns exactly the nearest of the indexed rows. */
  ghost predicate ExactIndex(queries: seq<seq<real>>, rows: seq<seq<real>>, indexed: nat, candidates: nat -> nat -> seq<Hit>) {
    forall q: nat, c: nat | q < |queries| :: candidates(q)(c) == Nearest(RowDist(queries[q], rows), 0, indexed, c)
  }

  lemma NothingToFind(queries: seq<seq<real>>, rows: seq<seq<real>>, k: nat, excludeNearest: bool, out: seq<seq<Hit>>)
    requires rows == [] && |out| == |queries| && forall q | 0 <= q < |out| :: out[q] == []
    ensures AllAnswered(queries, rows, k, excludeNearest, out)
  {
  }

  lemma AnsweredNext(queries: seq<seq<real>>, rows: seq<seq<real>>, k: nat, excludeNearest: bool, out: seq<seq<Hit>>, row: seq<Hit>)
    requires |out| < |queries| && AllAnswered(queries[..|out|], rows, k, excludeNearest, out)
    requires row == Answer(RowDist(queries[|out|], rows), |rows|, k, excludeNearest)
    ensures AllAnswered(queries[..|out| + 1], rows, k, excludeNearest, out + [row])
  {
    var more, n := out + [row], |out|;
    forall q | 0 <= q <= n ensures more[q] == Answer(RowDist(queries[..n + 1][q], rows), |rows|, k, excludeNearest) {
      assert q < n ==> queries[..n][q] == queries[..n + 1][q] && more[q] == out[q];
    }
  }

  /** One resident matrix answers all queries. */
  method ScoreQueriesFlat(queries: seq<seq<real>>, flat: seq<real>, ghost rows: seq<seq<real>>, total: nat, d: nat,
                          k: nat, excludeNearest: bool)
    returns (out: seq<seq<Hit>>)
    requires Width(queries, d) && Width(rows, d) && |rows| == total && flat == Flatten(rows)
    ensures AllAnswered(queries, rows, k, excludeNearest, out)
    ensures AllNearest(queries, rows, k, excludeNearest, out)
  {
    out := [];
    FlattenSize(rows, d);
    for q := 0 to |queries|
      invariant |out| == q && AllAnswered(queries[..q], rows, k, excludeNearest, out)
    {
      var row := ScoreQueryFlat(queries[q], flat, total, d, k, excludeNearest);
      FlatAnswer(queries[q], rows, k, excludeNearest);
      AnsweredNext(queries, rows, k, excludeNearest, out, row);
      out := out + [row];
    }
    assert queries[..|queries|] == queries;
    AnsweredIsNearest(queries, rows, k, excludeNearest, out);
  }

  /** The two legs of every query; `candidates` is the index search of each. */
  method SearchAllIndexedAndPending(queries: seq<seq<real>>, rows: seq<seq<real>>, indexed: nat,
                                    candidates: nat -> nat -> seq<Hit>, k: nat, excludeNearest: bool, scaleX: bool)
    returns (out: seq<seq<Hit>>)
    requires indexed <= |rows|
    requires ExactIndex(queries, rows, indexed, candidates)
    ensures AllAnswered(queries, rows, k, excludeNearest, out)
    ensures AllNearest(queries, rows, k, excludeNearest, out)
  {
    out := [];
    for q := 0 to |queries|
      invariant |out| == q && AllAnswered(queries[..q], rows, k, excludeNearest, out)
    {
      var row := SearchIndexedAndPending(RowDist(queries[q], rows), |rows|, indexed, candidates(q), k, excludeNearest, scaleX);
      AnsweredNext(queries, rows, k, excludeNearest, out, row);
      out := out + [row];
    }
    assert queries[..|queries|] == queries;
    AnsweredIsNearest(queries, rows, k, excludeNearest, out);
  }
}
