/**
 Hashed normal draws for many seeds, indices and metrics at once, against one draw at a time.
 */
module Hash {
  import opened Layout
  import opened Sorting
  import opened SplitMix
  import opened Wrappers

  datatype HashError = InvalidNumMetrics(given: int)

  /** One draw for a seed, an index and a metric: any function. */
  type Draw = (int, int, nat) -> real

  // ---- The words behind one draw -------------------------------------------

  /** The word that is mixed for the first uniform: 64-bit arithmetic on the bits of seed and index. */
  function Combined(seed: int, index: int, metric: nat): Word {
    ((seed * 1_000_003 + index) * 1_000_003 + metric) % 0x1_0000_0000_0000_0000
  }

  /** Within one seed, different indices and metrics never share the word they are drawn from, as
      long as the indices lie within 18446688733642 of each other and there are no more metrics than the prime. */
  lemma StreamsNeverMeet(seed: int, i: int, j: int, m: nat, n: nat)
    requires -18446688733642 <= i - j <= 18446688733642 && m < 1_000_003 && n < 1_000_003
    requires i != j || m != n
    ensures SplitMix64(Combined(seed, i, m)) != SplitMix64(Combined(seed, j, n))
  {
    DifferentWords(seed, i, j, m, n);
    SplitMixIsBijective(Combined(seed, i, m));
    SplitMixIsBijective(Combined(seed, j, n));
  }

  /** The same computed with every operation wrapping around, as the sources do. */
  lemma WrapsEverywhere(seed: int, index: int, metric: nat)
    ensures Combined(seed, index, metric)
         == Plus(Plus(seed % 0x1_0000_0000_0000_0000 * 1_000_003, index % 0x1_0000_0000_0000_0000) * 1_000_003, metric)
  {
    var w := 0x1_0000_0000_0000_0000;
    var s, i := seed % w, index % w;
    assert seed == seed / w * w + s && index == index / w * w + i;
    var base := Plus(s * 1_000_003, i);
    assert s * 1_000_003 + i == (s * 1_000_003 + i) / w * w + base;
    var full := (seed * 1_000_003 + index) * 1_000_003 + metric;
    var k := (seed / w * 1_000_003 + index / w + (s * 1_000_003 + i) / w) * 1_000_003;
    assert full == base * 1_000_003 + metric + k * w;
    SameResidue(full, base * 1_000_003 + metric, k);
  }

  lemma SameResidue(a: int, b: int, k: int)
    requires a == b + k * 0x1_0000_0000_0000_0000
    ensures a % 0x1_0000_0000_0000_0000 == b % 0x1_0000_0000_0000_0000
  {
  }

  /** Two draws share their first word exactly when the differences of their seeds, indices and metrics, weighted by
      the square of the prime, the prime and one, add up to a multiple of 2^64. */
  lemma SameWordExactly(s: int, i: int, m: nat, t: int, j: int, n: nat)
    ensures Combined(s, i, m) == Combined(t, j, n)
       <==> ((s - t) * 1_000_006_000_009 + (i - j) * 1_000_003 + (m - n)) % 0x1_0000_0000_0000_0000 == 0
  {
    var a, b := (s * 1_000_003 + i) * 1_000_003 + m, (t * 1_000_003 + j) * 1_000_003 + n;
    assert a - b == (s - t) * 1_000_006_000_009 + (i - j) * 1_000_003 + (m - n);
    EqualResidues(a, b);
  }

  lemma EqualResidues(a: int, b: int)
    ensures a % 0x1_0000_0000_0000_0000 == b % 0x1_0000_0000_0000_0000 <==> (a - b) % 0x1_0000_0000_0000_0000 == 0
  {
  }

  /** Different seeds never share a word, as long as they lie within 18446632 of each other, their indices within the
      prime, and there are no more metrics than the prime. */
  lemma SeedsNeverMeet(s: int, t: int, i: int, j: int, m: nat, n: nat)
    requires s != t && -18446632 <= s - t <= 18446632
    requires -1_000_003 < i - j < 1_000_003 && m < 1_000_003 && n < 1_000_003
    ensures SplitMix64(Combined(s, i, m)) != SplitMix64(Combined(t, j, n))
  {
    var d := (s - t) * 1_000_006_000_009 + (i - j) * 1_000_003 + (m - n);
    SameWordExactly(s, i, m, t, j, n);
    assert d != 0 && -0x1_0000_0000_0000_0000 < d < 0x1_0000_0000_0000_0000;
    DifferentResidues(d, 0);
    SplitMixIsBijective(Combined(s, i, m));
    SplitMixIsBijective(Combined(t, j, n));
  }

  /** The word that is mixed for the second uniform. */
  function Second(first: Word): Word {
    WordSize();
    XorBounded(first, 0xD2B74407B1CE6E93, 64);
    Xor(first, 0xD2B74407B1CE6E93)
  }

  /** It is never the first one, and different for different first ones. */
  lemma SecondWords(a: Word, b: Word)
    ensures SplitMix64(Second(a)) != SplitMix64(a)
    ensures a != b ==> SplitMix64(Second(a)) != SplitMix64(Second(b))
  {
    XorUndone(a, 0xD2B74407B1CE6E93);
    XorUndone(b, 0xD2B74407B1CE6E93);
    XorCancels(a);
    SplitMixIsBijective(a);
    SplitMixIsBijective(Second(a));
    SplitMixIsBijective(Second(b));
  }

  lemma XorUndone(a: nat, c: nat)
    ensures Xor(Xor(a, c), c) == a && Xor(Xor(a, c), a) == c
  {
    XorAssociates(a, c, c);
    XorCancels(c);
    XorCommutes(a, c);
    XorAssociates(c, a, a);
    XorCancels(a);
  }

  lemma DifferentWords(seed: int, i: int, j: int, m: nat, n: nat)
    requires -18446688733642 <= i - j <= 18446688733642 && m < 1_000_003 && n < 1_000_003
    requires i != j || m != n
    ensures Combined(seed, i, m) != Combined(seed, j, n)
  {
    var a, b := (seed * 1_000_003 + i) * 1_000_003 + m, (seed * 1_000_003 + j) * 1_000_003 + n;
    assert a - b == (i - j) * 1_000_003 + (m - n) != 0;
    DifferentResidues(a, b);
  }

  lemma DifferentResidues(a: int, b: int)
    requires a != b && -0x1_0000_0000_0000_0000 < a - b < 0x1_0000_0000_0000_0000
    ensures a % 0x1_0000_0000_0000_0000 != b % 0x1_0000_0000_0000_0000
  {
  }

  // ---- Unique indices ------------------------------------------------------

  ghost predicate Increasing(s: seq<int>) {
    forall i, j | 0 <= i < j < |s| :: s[i] < s[j]
  }

  method Dedup(sorted: seq<int>) returns (unique: seq<int>)
    requires forall i, j | 0 <= i < j < |sorted| :: sorted[i] <= sorted[j]
    ensures Increasing(unique) && forall x :: x in unique <==> x in sorted
  {
    unique := [];
    for i := 0 to |sorted|
      invariant Increasing(unique)
      invariant forall x :: x in unique <==> x in sorted[..i]
      invariant unique != [] ==> i > 0 && unique[|unique| - 1] == sorted[i - 1]
    {
      assert sorted[..i + 1] == sorted[..i] + [sorted[i]];
      forall x | x in unique ensures x <= sorted[i] {
        var k :| 0 <= k < i && sorted[..i][k] == x;
      }
      assert forall k | 0 <= k < |unique| :: unique[k] in unique;
      if unique == [] || unique[|unique| - 1] != sorted[i] {
        unique := unique + [sorted[i]];
      }
    }
    assert sorted[..|sorted|] == sorted;
  }

  /** The sorted duplicate-free indices, and where each input index is among them. */
  method UniqueIndexInverse(indices: seq<int>) returns (unique: seq<int>, inverse: seq<nat>)
    ensures Increasing(unique) && forall x :: x in unique <==> x in indices
    ensures |inverse| == |indices|
    ensures forall i | 0 <= i < |indices| :: inverse[i] < |unique| && unique[inverse[i]] == indices[i]
  {
    var sorted := SortInts(indices);
    unique := Dedup(sorted);
    var position := Positions(unique);
    inverse := [];
    for i := 0 to |indices|
      invariant |inverse| == i
      invariant forall j | 0 <= j < i :: inverse[j] < |unique| && unique[inverse[j]] == indices[j]
    {
      assert indices[i] in indices;
      assert indices[i] in unique;
      inverse := inverse + [position[indices[i]]];
    }
  }

  method Positions(unique: seq<int>) returns (position: map<int, nat>)
    ensures forall x :: x in position <==> x in unique
    ensures forall x | x in position :: position[x] < |unique| && unique[position[x]] == x
  {
    position := map[];
    for i := 0 to |unique|
      invariant forall x :: x in position <==> x in unique[..i]
      invariant forall x | x in position :: position[x] < i && unique[position[x]] == x
    {
      assert unique[..i + 1] == unique[..i] + [unique[i]];
      position := position[unique[i] := i];
    }
    assert unique[..|unique|] == unique;
  }

  // ---- The batch -----------------------------------------------------------

  /** The draws of one seed and index for all metrics. */
  function Row(draw: Draw, seed: int, index: int, metrics: nat): (row: seq<real>)
    ensures |row| == metrics
  {
    seq(metrics, (m: nat) => draw(seed, index, m))
  }

  function Rows(draw: Draw, seed: int, indices: seq<int>, metrics: nat): (rows: seq<seq<real>>)
    ensures |rows| == |indices| && Width(rows, metrics)
    ensures forall i | 0 <= i < |indices| :: rows[i] == Row(draw, seed, indices[i], metrics)
  {
    seq(|indices|, i requires 0 <= i < |indices| => Row(draw, seed, indices[i], metrics))
  }

  function Block(draw: Draw, seed: int, indices: seq<int>, metrics: nat): (flat: seq<real>)
  {
    Flatten(Rows(draw, seed, indices, metrics))
  }

  lemma BlockNext(draw: Draw, seed: int, indices: seq<int>, metrics: nat, i: nat)
    requires i < |indices|
    ensures Block(draw, seed, indices[..i + 1], metrics)
         == Block(draw, seed, indices[..i], metrics) + Row(draw, seed, indices[i], metrics)
    ensures |Block(draw, seed, indices[..i], metrics)| == Extent(i, metrics)
  {
    var before, after := Rows(draw, seed, indices[..i], metrics), Rows(draw, seed, indices[..i + 1], metrics);
    assert after[..|after| - 1] == before;
    FlattenSize(before, metrics);
    ExtentIsProduct(i, metrics);
  }

  lemma BlockSize(draw: Draw, seed: int, indices: seq<int>, metrics: nat)
    ensures |Block(draw, seed, indices, metrics)| == Extent(|indices|, metrics)
  {
    FlattenSize(Rows(draw, seed, indices, metrics), metrics);
    ExtentIsProduct(|indices|, metrics);
  }

  lemma BlockRow(draw: Draw, seed: int, indices: seq<int>, metrics: nat, i: nat)
    requires i < |indices|
    ensures Extent(i, metrics) + metrics <= |Block(draw, seed, indices, metrics)|
    ensures Block(draw, seed, indices, metrics)[Extent(i, metrics)..Extent(i, metrics) + metrics]
         == Row(draw, seed, indices[i], metrics)
  {
    FlatRow(Rows(draw, seed, indices, metrics), metrics, i);
    ExtentIsProduct(i, metrics);
  }

  /** Overwrites the whole cache, whatever an earlier seed left in it. */
  method FillCache(draw: Draw, seed: int, unique: seq<int>, metrics: nat, cache: array<real>)
    requires cache.Length == Extent(|unique|, metrics)
    modifies cache
    ensures cache[..] == Block(draw, seed, unique, metrics)
  {
    BlockSize(draw, seed, unique, metrics);
    for u := 0 to |unique|
      invariant Extent(u, metrics) <= cache.Length
      invariant cache[..Extent(u, metrics)] == Block(draw, seed, unique[..u], metrics)
    {
      BlockNext(draw, seed, unique, metrics, u);
      ExtentGrows(u + 1, |unique|, metrics);
      var start := CellsOf(u, metrics);
      FillRow(draw, seed, unique[u], metrics, cache, start);
    }
    assert unique[..|unique|] == unique;
  }

  method FillRow(draw: Draw, seed: int, index: int, metrics: nat, cache: array<real>, start: nat)
    requires start + metrics <= cache.Length
    modifies cache
    ensures cache[..start + metrics] == old(cache[..start]) + Row(draw, seed, index, metrics)
  {
    ghost var row := Row(draw, seed, index, metrics);
    for metric := 0 to metrics
      invariant cache[..start] == old(cache[..start])
      invariant cache[start..start + metric] == row[..metric]
    {
      cache[start + metric] := draw(seed, index, metric);
      assert cache[start..start + metric + 1] == cache[start..start + metric] + [row[metric]];
    }
    assert cache[..start + metrics] == cache[..start] + cache[start..start + metrics];
  }

  /** Writes the rows of the indices in their order, each copied from the cached row of its value. */
  method CopyRows(draw: Draw, seed: int, indices: seq<int>, unique: seq<int>, inverse: seq<nat>, metrics: nat,
                  cache: array<real>, out: array<real>)
    requires cache != out && cache[..] == Block(draw, seed, unique, metrics) && out.Length == Extent(|indices|, metrics)
    requires |inverse| == |indices|
    requires forall i | 0 <= i < |indices| :: inverse[i] < |unique| && unique[inverse[i]] == indices[i]
    modifies out
    ensures out[..] == Block(draw, seed, indices, metrics)
  {
    for d := 0 to |indices|
      invariant Extent(d, metrics) <= out.Length
      invariant out[..Extent(d, metrics)] == Block(draw, seed, indices[..d], metrics)
    {
      BlockNext(draw, seed, indices, metrics, d);
      ExtentGrows(d + 1, |indices|, metrics);
      BlockRow(draw, seed, unique, metrics, inverse[d]);
      var source := CellsOf(inverse[d], metrics);
      var target := CellsOf(d, metrics);
      CopyRow(cache, source, out, target, metrics);
    }
    assert indices[..|indices|] == indices;
  }

  method CopyRow(cache: array<real>, source: nat, out: array<real>, target: nat, n: nat)
    requires cache != out && source + n <= cache.Length && target + n <= out.Length
    modifies out
    ensures out[..target + n] == old(out[..target]) + cache[source..source + n]
  {
    for k := 0 to n
      invariant out[..target] == old(out[..target])
      invariant out[target..target + k] == cache[source..source + k]
    {
      out[target + k] := cache[source + k];
    }
    assert out[..target + n] == out[..target] + out[target..target + n];
  }

  /** The blocks of all seeds, one after the other. */
  function Blocks(draw: Draw, seeds: seq<int>, indices: seq<int>, metrics: nat): (blocks: seq<seq<real>>)
    ensures |blocks| == |seeds|
    ensures forall s | 0 <= s < |seeds| :: blocks[s] == Block(draw, seeds[s], indices, metrics)
  {
    seq(|seeds|, s requires 0 <= s < |seeds| => Block(draw, seeds[s], indices, metrics))
  }

  /** Splitting the buffer into blocks of no cells is refused, so the indices must not be empty. */
  method BatchMultiSeed(draw: Draw, seeds: seq<int>, indices: seq<int>, numMetrics: int) returns (r: Result<seq<real>, HashError>)
    requires indices != []
    ensures r.Err? <==> numMetrics <= 0
    ensures r.Err? ==> r.error == InvalidNumMetrics(numMetrics)
    ensures r.Ok? ==> r.value == Flatten(Blocks(draw, seeds, indices, numMetrics))
    ensures r.Ok? ==> forall s: nat, d: nat, m: nat | s < |seeds| && d < |indices| && m < numMetrics ::
      CellAt(r.value, |indices|, numMetrics, s, d, m, draw(seeds[s], indices[d], m))
  {
    if numMetrics <= 0 {
      return Err(InvalidNumMetrics(numMetrics));
    }
    var metrics: nat := numMetrics;
    var unique, inverse := UniqueIndexInverse(indices);
    var cells := CellsOf(|unique|, metrics);
    var blockCells := CellsOf(|indices|, metrics);
    var cache := new real[cells];
    var flat: seq<real> := [];
    for s := 0 to |seeds|
      invariant flat == Flatten(Blocks(draw, seeds[..s], indices, metrics))
    {
      var out := new real[blockCells];
      FillCache(draw, seeds[s], unique, metrics, cache);
      CopyRows(draw, seeds[s], indices, unique, inverse, metrics, cache, out);
      var blocks := Blocks(draw, seeds[..s + 1], indices, metrics);
      assert blocks[..|blocks| - 1] == Blocks(draw, seeds[..s], indices, metrics);
      flat := flat + out[..];
    }
    assert seeds[..|seeds|] == seeds;
    forall s: nat, d: nat, m: nat | s < |seeds| && d < |indices| && m < metrics
      ensures CellAt(flat, |indices|, metrics, s, d, m, draw(seeds[s], indices[d], m))
    {
      CellIsDraw(draw, seeds, indices, metrics, s, d, m);
    }
    r := Ok(flat);
  }

  /** The cell at `[s, d, m]` of a flat array of shape `[.., indices, metrics]` in row-major order. */
  ghost predicate CellAt(flat: seq<real>, indices: nat, metrics: nat, s: nat, d: nat, m: nat, value: real) {
    var at := Extent(s, Extent(indices, metrics)) + Extent(d, metrics) + m;
    at < |flat| && flat[at] == value
  }

  lemma CellIsDraw(draw: Draw, seeds: seq<int>, indices: seq<int>, metrics: nat, s: nat, d: nat, m: nat)
    requires s < |seeds| && d < |indices| && m < metrics
    ensures CellAt(Flatten(Blocks(draw, seeds, indices, metrics)), |indices|, metrics, s, d, m, draw(seeds[s], indices[d], m))
  {
    var blocks, size := Blocks(draw, seeds, indices, metrics), Extent(|indices|, metrics);
    forall i | 0 <= i < |seeds| ensures |blocks[i]| == size {
      BlockSize(draw, seeds[i], indices, metrics);
    }
    FlatRow(blocks, size, s);
    ExtentIsProduct(s, size);
    BlockRow(draw, seeds[s], indices, metrics, d);
    var block, start := blocks[s], Extent(d, metrics);
    assert block[start..start + metrics][m] == block[start + m];
    assert Flatten(blocks)[s * size..s * size + size][start + m] == Flatten(blocks)[s * size + (start + m)];
  }
}
