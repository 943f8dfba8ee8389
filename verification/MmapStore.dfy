/**
 The memory-mapped column store. Every change to a file goes through the working directory,
 which records the state it leaves and accepts a change only if it extends what is committed
 or cuts the metadata file for writing: a crash may strike after any recorded state.

 A store is one data file seen as rows of words. Growing, touching, copying and reading rows
 are methods that state what happens to the committed rows as well as to the new ones.
 */
module MmapStore {
  import Bytes
  import opened Disk
  import opened Layout
  import opened Wrappers

  const MMAP_GROW_ROWS := 64
  /** Words in a 4096-byte page. */
  const PAGE_WORDS := 512

  datatype StoreError = InvalidParameter | InvalidShape

  /** A recorded state of the files, and what a store opened on it would see. */
  datatype Moment = Moment(files: Files, view: View)

  /** `g` is `f` with its metadata file cut down to nothing. */
  ghost predicate IsCut(f: Files, g: Files) {
    g == f.(metadata := Empty)
  }

  /** From one state to the next the sidecar never falls, other dimensions are never recorded, and either
      nothing committed is lost or the metadata file has been cut. */
  ghost predicate Follows(prev: Moment, next: Moment, numDim: nat, numMetrics: nat) {
    && Sidecar(prev.files) <= Sidecar(next.files)
    && (Describes(prev.files, numDim, numMetrics) ==> Describes(next.files, numDim, numMetrics))
    && (Grows(prev.view, next.view) || IsCut(prev.files, next.files))
  }

  /** Every state can be opened, and each follows from the one before. */
  ghost predicate Safe(history: seq<Moment>, numDim: nat, numMetrics: nat) {
    && history != []
    && var last := history[|history| - 1];
    && Sound(last.files, numDim, numMetrics) && last.view == ViewOf(last.files, numDim, numMetrics)
    && (|history| > 1 ==>
          Safe(history[..|history| - 1], numDim, numMetrics) && Follows(history[|history| - 2], last, numDim, numMetrics))
  }

  lemma {:induction false} SafeAt(history: seq<Moment>, numDim: nat, numMetrics: nat, i: nat)
    requires Safe(history, numDim, numMetrics) && i < |history|
    ensures Sound(history[i].files, numDim, numMetrics)
    ensures history[i].view == ViewOf(history[i].files, numDim, numMetrics)
    ensures i > 0 ==> Follows(history[i - 1], history[i], numDim, numMetrics)
  {
    if i < |history| - 1 {
      SafeAt(history[..|history| - 1], numDim, numMetrics, i);
    }
  }

  /** Step `k` does not cut a metadata file that counts more rows than the sidecar. */
  ghost predicate CutsSettled(history: seq<Moment>, k: nat)
    requires 0 < k < |history|
  {
    IsCut(history[k - 1].files, history[k].files) ==> Settled(history[k - 1].files)
  }

  /** One step keeps every committed row exactly when it does not cut an unsettled metadata file. */
  lemma StepKeepsRowsExactly(history: seq<Moment>, numDim: nat, numMetrics: nat, k: nat)
    requires Safe(history, numDim, numMetrics) && 0 < k < |history|
    ensures Grows(history[k - 1].view, history[k].view) <==> CutsSettled(history, k)
  {
    SafeAt(history, numDim, numMetrics, k - 1);
    SafeAt(history, numDim, numMetrics, k);
    TruncationKeepsExactly(history[k - 1].files, numDim, numMetrics);
  }

  /** Over a whole run, crashes and reopenings included, committed rows only accumulate as long as the
      metadata file is rewritten only when the sidecar counts all its rows: every recorded state can be
      opened and shows all that any earlier state showed. */
  lemma {:induction false} CommittedRowsSurvive(history: seq<Moment>, numDim: nat, numMetrics: nat, i: nat, j: nat)
    requires Safe(history, numDim, numMetrics) && i <= j < |history|
    requires forall k | i < k <= j :: CutsSettled(history, k)
    ensures Sound(history[i].files, numDim, numMetrics) && Sound(history[j].files, numDim, numMetrics)
    ensures Grows(ViewOf(history[i].files, numDim, numMetrics), ViewOf(history[j].files, numDim, numMetrics))
    decreases j - i
  {
    SafeAt(history, numDim, numMetrics, j);
    if i < j {
      CommittedRowsSurvive(history, numDim, numMetrics, i, j - 1);
      SafeAt(history, numDim, numMetrics, j - 1);
      StepKeepsRowsExactly(history, numDim, numMetrics, j);
    }
  }

  /** A run that finds its own dimensions recorded, or none, never records others. */
  lemma {:induction false} DimensionsStay(history: seq<Moment>, numDim: nat, numMetrics: nat, i: nat)
    requires Safe(history, numDim, numMetrics) && i < |history|
    ensures Describes(history[0].files, numDim, numMetrics) ==> Describes(history[i].files, numDim, numMetrics)
  {
    if i > 0 {
      DimensionsStay(history, numDim, numMetrics, i - 1);
      SafeAt(history, numDim, numMetrics, i);
    }
  }

  /** The rows that the sidecar counts survive every run and every crash, without any condition. */
  lemma CountedRowsSurvive(history: seq<Moment>, numDim: nat, numMetrics: nat, i: nat, j: nat)
    requires Safe(history, numDim, numMetrics) && i <= j < |history|
    ensures Sound(history[i].files, numDim, numMetrics) && Sound(history[j].files, numDim, numMetrics)
    ensures Grows(CountedView(history[i].files, numDim, numMetrics), ViewOf(history[j].files, numDim, numMetrics))
  {
    CountedOnlyGrow(history, numDim, numMetrics, i, j);
    TruncationKeepsExactly(history[j].files, numDim, numMetrics);
    GrowsTransitive(CountedView(history[i].files, numDim, numMetrics), CountedView(history[j].files, numDim, numMetrics),
                    ViewOf(history[j].files, numDim, numMetrics));
  }

  lemma {:induction false} CountedOnlyGrow(history: seq<Moment>, numDim: nat, numMetrics: nat, i: nat, j: nat)
    requires Safe(history, numDim, numMetrics) && i <= j < |history|
    ensures Sound(history[i].files, numDim, numMetrics) && Sound(history[j].files, numDim, numMetrics)
    ensures Grows(CountedView(history[i].files, numDim, numMetrics), CountedView(history[j].files, numDim, numMetrics))
    decreases j - i
  {
    SafeAt(history, numDim, numMetrics, j);
    if i < j {
      CountedOnlyGrow(history, numDim, numMetrics, i, j - 1);
      SafeAt(history, numDim, numMetrics, j - 1);
      CountedRowsGrow(history[j - 1], history[j], numDim, numMetrics);
      GrowsTransitive(CountedView(history[i].files, numDim, numMetrics), CountedView(history[j - 1].files, numDim, numMetrics),
                      CountedView(history[j].files, numDim, numMetrics));
    }
  }

  lemma GrowsTransitive(u: View, v: View, w: View)
    requires Grows(u, v) && Grows(v, w)
    ensures Grows(u, w)
  {
  }

  lemma CountedRowsGrow(prev: Moment, next: Moment, numDim: nat, numMetrics: nat)
    requires Sound(prev.files, numDim, numMetrics) && prev.view == ViewOf(prev.files, numDim, numMetrics)
    requires Sound(next.files, numDim, numMetrics) && next.view == ViewOf(next.files, numDim, numMetrics)
    requires Follows(prev, next, numDim, numMetrics)
    ensures Grows(CountedView(prev.files, numDim, numMetrics), CountedView(next.files, numDim, numMetrics))
  {
    TruncationKeepsExactly(prev.files, numDim, numMetrics);
    TruncationKeepsExactly(next.files, numDim, numMetrics);
    var m, n := Sidecar(prev.files), Sidecar(next.files);
    ExtentGrows(m, n, numDim);
    ExtentGrows(m, n, numMetrics);
    if Grows(prev.view, next.view) {
      CountedWithin(Content(prev.files, TrainX), Content(next.files, TrainX), Extent(m, numDim), Extent(n, numDim),
                    Extent(prev.view.n, numDim), Extent(next.view.n, numDim));
      CountedWithin(Content(prev.files, TrainY), Content(next.files, TrainY), Extent(m, numMetrics), Extent(n, numMetrics),
                    Extent(prev.view.n, numMetrics), Extent(next.view.n, numMetrics));
    }
  }

  lemma CountedWithin(s: seq<Word>, t: seq<Word>, m: nat, n: nat, a: nat, b: nat)
    requires m <= a <= |s| && m <= n <= b <= |t| && s[..a] <= t[..b]
    ensures s[..m] <= t[..n]
  {
    assert s[..m] == s[..a][..m] && t[..m] == t[..b][..m] && t[..b][..a] == s[..a];
  }

  /** The states added from `before` to `after` all show the same rows. */
  ghost predicate Quiet(before: seq<Moment>, after: seq<Moment>) {
    && 0 < |before| && before <= after
    && forall i | |before| <= i < |after| :: after[i].view == before[|before| - 1].view
  }

  /** What a crash during an operation can leave visible: the rows from before, or those from after. */
  ghost predicate Atomic(before: seq<Moment>, after: seq<Moment>) {
    && 0 < |before| && before <= after
    && forall i | |before| <= i < |after| ::
         after[i].view == before[|before| - 1].view || after[i].view == after[|after| - 1].view
  }

  /** Quiet states before and after change nothing about whether what lies between is atomic. */
  lemma QuietSteps(a: seq<Moment>, b: seq<Moment>, c: seq<Moment>, d: seq<Moment>)
    requires Quiet(a, b) && b <= c && Quiet(c, d)
    ensures Atomic(a, d) <==> Atomic(b, c)
    ensures Quiet(b, c) ==> Quiet(a, d)
  {
    assert |b| > 0 && b[|b| - 1].view == a[|a| - 1].view;
    assert d[|d| - 1].view == c[|c| - 1].view;
    forall i | 0 <= i < |c| ensures c[i] == d[i] && (i < |b| ==> b[i] == c[i]) {
    }
  }

  /** `g` is `f` but for the content of one existing data file. */
  ghost predicate OnlyData(f: Files, g: Files, id: FileId) {
    id in g.data && g == f.(data := f.data[id := g.data[id]])
  }

  class WorkDir {
    const numDim: nat
    const numMetrics: nat
    var files: Files
    ghost var history: seq<Moment>

    ghost predicate Valid()
      reads this
    {
      history != [] && Safe(history, numDim, numMetrics) && history[|history| - 1].files == files
    }

    /** A directory as some earlier process, finished or crashed, has left it. */
    constructor (found: Files, numDim: nat, numMetrics: nat)
      requires Sound(found, numDim, numMetrics)
      ensures Valid() && files == found && history == [Moment(found, ViewOf(found, numDim, numMetrics))]
      ensures this.numDim == numDim && this.numMetrics == numMetrics
    {
      this.numDim, this.numMetrics := numDim, numMetrics;
      files, history := found, [Moment(found, ViewOf(found, numDim, numMetrics))];
    }

    /** The committed rows as of now. */
    ghost function Visible(): View
      requires history != []
      reads this
    {
      history[|history| - 1].view
    }

    /** One physical change of the files. */
    method Put(next: Files)
      requires Valid() && Sound(next, numDim, numMetrics) && Sidecar(files) <= Sidecar(next)
      requires Describes(files, numDim, numMetrics) ==> Describes(next, numDim, numMetrics)
      requires Grows(Visible(), ViewOf(next, numDim, numMetrics))
      modifies this
      ensures Valid() && files == next
      ensures history == old(history) + [Moment(next, ViewOf(next, numDim, numMetrics))]
    {
      files := next;
      history := history + [Moment(next, ViewOf(next, numDim, numMetrics))];
      assert history[..|history| - 1] == old(history);
    }

    /** What writing the metadata file begins with: it is empty until the text arrives. */
    method Truncate()
      requires Valid()
      modifies this
      ensures Valid() && files == old(files).(metadata := Empty) && Committed(files) == Sidecar(files)
      ensures history == old(history) + [Moment(files, ViewOf(files, numDim, numMetrics))]
      ensures Visible() == old(Visible()) <==> old(Settled(files))
      ensures Visible().n <= old(Visible()).n
    {
      TruncationKeepsExactly(files, numDim, numMetrics);
      files := files.(metadata := Empty);
      history := history + [Moment(files, ViewOf(files, numDim, numMetrics))];
      assert history[..|history| - 1] == old(history);
    }

    /** A change that leaves the committed rows alone. */
    method PutQuietly(next: Files)
      requires Valid() && Sound(next, numDim, numMetrics) && Sidecar(files) <= Sidecar(next)
      requires Describes(files, numDim, numMetrics) ==> Describes(next, numDim, numMetrics)
      requires Visible() == ViewOf(next, numDim, numMetrics)
      modifies this
      ensures Valid() && files == next && Quiet(old(history), history)
    {
      Put(next);
    }

    /** A change of a data file past its committed rows. */
    method PutData(id: FileId, words: seq<Word>)
      requires Valid()
      requires id == TrainX ==> KeepsPrefix(files, id, numDim, words)
      requires id == TrainY ==> KeepsPrefix(files, id, numMetrics, words)
      modifies this
      ensures Valid() && files == old(files).(data := old(files).data[id := words])
      ensures Quiet(old(history), history) && Committed(files) == old(Committed(files))
    {
      UncommittedWordsDoNotMatter(files, id, words, numDim, numMetrics);
      PutQuietly(files.(data := files.data[id := words]));
    }

    /** A change of the small files that leaves the committed count alone. */
    method PutSidecars(next: Files)
      requires Valid() && next.data == files.data && next.metadata == files.metadata
      requires Committed(next) == Committed(files) && Sidecar(files) <= Sidecar(next)
      modifies this
      ensures Valid() && files == next && Quiet(old(history), history)
    {
      RaisingCountIsSafe(files, next, Committed(next), numDim, numMetrics);
      PutQuietly(next);
    }

    /** Creates an empty file where there is none. */
    method EnsureExists(id: FileId)
      requires Valid()
      modifies this
      ensures Valid() && OnlyData(old(files), files, id) && files.data[id] == old(Content(files, id))
      ensures Quiet(old(history), history) && Committed(files) == old(Committed(files))
    {
      if id !in files.data {
        PutData(id, []);
      }
    }
  }

  class MmapColumnStore {
    const dir: WorkDir
    const id: FileId
    const ncols: nat
    var nrows: nat

    /** The mapping covers all rows, and for the train files nothing committed lies past them. */
    ghost predicate Valid()
      reads this, dir
    {
      && dir.Valid()
      && id in dir.files.data
      && Extent(nrows, ncols) <= |dir.files.data[id]|
      && (id == TrainX ==> ncols == dir.numDim && Committed(dir.files) <= nrows)
      && (id == TrainY ==> ncols == dir.numMetrics && Committed(dir.files) <= nrows)
    }

    /** The words of all rows, committed or not. */
    ghost function Words(): (words: seq<Word>)
      requires Valid()
      reads this, dir
    {
      dir.files.data[id][..Extent(nrows, ncols)]
    }

    constructor (dir: WorkDir, id: FileId, ncols: nat, nrows: nat)
      ensures this.dir == dir && this.id == id && this.ncols == ncols && this.nrows == nrows
    {
      this.dir, this.id, this.ncols, this.nrows := dir, id, ncols, nrows;
    }

    /** Opens the file, creating an empty one if missing; fails only when told of more rows than it holds. */
    static method OpenOrCreate(dir: WorkDir, id: FileId, ncols: nat, known: Option<nat>) returns (r: Result<MmapColumnStore, StoreError>)
      requires dir.Valid()
      requires id == TrainX ==> ncols == dir.numDim && known.Some? && Committed(dir.files) <= known.value
      requires id == TrainY ==> ncols == dir.numMetrics && known.Some? && Committed(dir.files) <= known.value
      modifies dir
      ensures dir.Valid() && Quiet(old(dir.history), dir.history)
      ensures Committed(dir.files) == old(Committed(dir.files))
      ensures OnlyData(old(dir.files), dir.files, id) && dir.files.data[id] == old(Content(dir.files, id))
      ensures r.Err? <==> known.Some? && Extent(known.value, ncols) > |old(Content(dir.files, id))|
      ensures r.Ok? ==> fresh(r.value) && r.value.dir == dir && r.value.id == id && r.value.ncols == ncols && r.value.Valid()
      ensures r.Ok? ==> r.value.nrows == RowsOf(|old(Content(dir.files, id))|, ncols, known)
    {
      dir.EnsureExists(id);
      var words := dir.files.data[id];
      if known.Some? {
        var need := CellsOf(known.value, ncols);
        if need > |words| {
          return Err(InvalidParameter);
        }
      }
      var nrows := RowsOf(|words|, ncols, known);
      var store := new MmapColumnStore(dir, id, ncols, nrows);
      r := Ok(store);
    }

    /** A file that already reaches far enough stays; otherwise it gets at least 64 new rows of zeros. */
    ghost predicate GrownFor(needRows: nat, before: seq<Word>, after: seq<Word>)
      reads this
    {
      if Extent(needRows, ncols) <= |before| then after == before
      else
        && needRows > nrows
        && |after| == Extent(nrows + (if needRows - nrows > 64 then needRows - nrows else 64), ncols)
        && before <= after && forall k | |before| <= k < |after| :: after[k] == 0
    }

    method EnsureCapacity(needRows: nat)
      requires Valid()
      modifies dir
      ensures Valid() && Words() == old(Words()) && Extent(needRows, ncols) <= |dir.files.data[id]|
      ensures Quiet(old(dir.history), dir.history)
      ensures Committed(dir.files) == old(Committed(dir.files))
      ensures OnlyData(old(dir.files), dir.files, id)
      ensures old(dir.files.data[id]) <= dir.files.data[id]
      ensures GrownFor(needRows, old(dir.files.data[id]), dir.files.data[id])
    {
      var words := dir.files.data[id];
      var needWords := CellsOf(needRows, ncols);
      if needWords <= |words| {
        return;
      }
      NeedMore(needRows, nrows, ncols, |words|);
      var growRows := if needRows - nrows >= MMAP_GROW_ROWS then needRows - nrows else MMAP_GROW_ROWS;
      var newLen := CellsOf(nrows + growRows, ncols);
      ExtentGrows(needRows, nrows + growRows, ncols);
      SetLength(newLen);
    }

    /** A longer file has zeros behind the words it had. */
    method SetLength(newLen: nat)
      requires Valid() && |dir.files.data[id]| <= newLen
      modifies dir
      ensures Valid() && Words() == old(Words())
      ensures Quiet(old(dir.history), dir.history)
      ensures Committed(dir.files) == old(Committed(dir.files))
      ensures OnlyData(old(dir.files), dir.files, id)
      ensures dir.files.data[id] == old(dir.files.data[id]) + seq(newLen - |old(dir.files.data[id])|, _ => 0)
    {
      var words := dir.files.data[id];
      dir.PutData(id, words + seq(newLen - |words|, _ => 0));
    }

    /** Writes a zero byte into every page. Only allowed while there are no rows to overwrite: whatever
        words the file holds all the same do not stay as they were. */
    method Pretouch()
      requires Valid() && nrows == 0
      modifies dir
      ensures Valid() && Quiet(old(dir.history), dir.history)
      ensures Committed(dir.files) == old(Committed(dir.files))
      ensures OnlyData(old(dir.files), dir.files, id)
      ensures Touched(old(dir.files.data[id]), dir.files.data[id])
    {
      var i := 0;
      while i < |dir.files.data[id]|
        invariant Valid() && i % 512 == 0
        invariant Quiet(old(dir.history), dir.history)
        invariant Committed(dir.files) == old(Committed(dir.files))
        invariant OnlyData(old(dir.files), dir.files, id)
        invariant |dir.files.data[id]| == |old(dir.files.data[id])|
        invariant forall k | 0 <= k < |dir.files.data[id]| ::
          dir.files.data[id][k] == if k < i then TouchedWord(old(dir.files.data[id])[k], k) else old(dir.files.data[id])[k]
        decreases |dir.files.data[id]| - i
      {
        var words := dir.files.data[id];
        dir.PutData(id, words[i := ClearLowByte(words[i])]);
        i := i + PAGE_WORDS;
      }
    }

    /** Copies the rows behind the existing ones; an intermediate state may lack some or all of them. */
    method Append(rows: seq<seq<Word>>, cols: nat) returns (r: Result<(), StoreError>)
      requires Valid() && Width(rows, cols)
      modifies this, dir
      ensures Valid() && Quiet(old(dir.history), dir.history)
      ensures Committed(dir.files) == old(Committed(dir.files))
      ensures OnlyData(old(dir.files), dir.files, id)
      ensures r.Err? <==> rows != [] && cols != ncols
      ensures r.Err? ==> r.error == InvalidShape && dir.files == old(dir.files) && nrows == old(nrows)
      ensures r.Ok? ==> nrows == old(nrows) + |rows|
      ensures r.Ok? ==> Words() == old(Words()) + Flatten(rows)
    {
      if |rows| == 0 {
        return Ok(());
      }
      if cols != ncols {
        return Err(InvalidShape);
      }
      EnsureCapacity(nrows + |rows|);
      CopyIn(rows);
      r := Ok(());
    }

    method CopyIn(rows: seq<seq<Word>>)
      requires Valid() && Width(rows, ncols)
      requires Extent(nrows + |rows|, ncols) <= |dir.files.data[id]|
      modifies this, dir
      ensures Valid() && Quiet(old(dir.history), dir.history)
      ensures Committed(dir.files) == old(Committed(dir.files))
      ensures OnlyData(old(dir.files), dir.files, id)
      ensures nrows == old(nrows) + |rows| && Words() == old(Words()) + Flatten(rows)
    {
      var copied := Overwrite(dir.files.data[id], nrows, rows, ncols, Committed(dir.files));
      dir.PutData(id, copied);
      nrows := nrows + |rows|;
    }

    /** Row `i`, or an error past the last row. */
    method RowSlice(i: nat) returns (r: Result<seq<Word>, StoreError>)
      requires Valid()
      ensures r.Ok? <==> i < nrows
      ensures r.Ok? ==> Extent(i, ncols) + ncols <= |Words()| && r.value == Words()[Extent(i, ncols)..Extent(i, ncols) + ncols]
      ensures forall rows | r.Ok? && StoredRows(Words(), rows, nrows, ncols) :: r.value == rows[i]
    {
      if i >= nrows {
        return Err(InvalidParameter);
      }
      var start := CellsOf(i, ncols);
      ExtentGrows(i + 1, nrows, ncols);
      r := Ok(dir.files.data[id][start..start + ncols]);
      ReadsBack(dir.files.data[id], nrows, ncols, i);
      assert Extent(i + 1, ncols) == Extent(i, ncols) + ncols;
      SliceOfTake(dir.files.data[id], Extent(nrows, ncols), start, start + ncols);
    }

    /** The rows at the given indices in that order, duplicates included; one bad index fails the whole. */
    method Gather(indices: seq<nat>) returns (r: Result<seq<seq<Word>>, StoreError>)
      requires Valid()
      ensures r.Ok? <==> forall j | 0 <= j < |indices| :: indices[j] < nrows
      ensures r.Ok? ==> |r.value| == |indices|
      ensures forall rows | r.Ok? && StoredRows(Words(), rows, nrows, ncols) :: Picked(rows, indices, r.value)
    {
      var out: seq<seq<Word>> := [];
      for j := 0 to |indices|
        invariant |out| == j && forall l | 0 <= l < j :: indices[l] < nrows
        invariant forall rows | StoredRows(Words(), rows, nrows, ncols) :: Picked(rows, indices[..j], out)
      {
        var row := RowSlice(indices[j]);
        if row.Err? {
          return Err(row.error);
        }
        out := out + [row.value];
      }
      assert indices[..|indices|] == indices;
      r := Ok(out);
    }
  }

  ghost predicate Picked(rows: seq<seq<Word>>, indices: seq<nat>, out: seq<seq<Word>>) {
    |out| == |indices| && forall j | 0 <= j < |indices| :: indices[j] < |rows| && out[j] == rows[indices[j]]
  }

  /** Reading row `i` of a mapping that starts with these rows gives exactly that row. */
  lemma ReadsBack(words: seq<Word>, nrows: nat, ncols: nat, i: nat)
    requires i < nrows && Extent(nrows, ncols) <= |words|
    ensures Extent(i, ncols) + ncols <= |words|
    ensures forall rows | StoredRows(words[..Extent(nrows, ncols)], rows, nrows, ncols) ::
              words[Extent(i, ncols)..Extent(i, ncols) + ncols] == rows[i]
  {
    ExtentGrows(i + 1, nrows, ncols);
    forall rows | StoredRows(words[..Extent(nrows, ncols)], rows, nrows, ncols)
      ensures words[Extent(i, ncols)..Extent(i, ncols) + ncols] == rows[i]
    {
      FlatRow(rows, ncols, i);
      ExtentIsProduct(i, ncols);
      SliceOfTake(words, Extent(nrows, ncols), Extent(i, ncols), Extent(i, ncols) + ncols);
    }
  }

  lemma SliceOfTake(words: seq<Word>, n: nat, lo: nat, hi: nat)
    requires lo <= hi <= n <= |words|
    ensures words[..n][lo..hi] == words[lo..hi]
  {
  }

  /** `words` are exactly these `nrows` rows. */
  ghost predicate StoredRows(words: seq<Word>, rows: seq<seq<Word>>, nrows: nat, ncols: nat) {
    Width(rows, ncols) && |rows| == nrows && words == Flatten(rows)
  }

  lemma NeedMore(need: nat, have: nat, cols: nat, len: nat)
    requires Extent(have, cols) <= len < Extent(need, cols)
    ensures have < need
  {
    if need <= have {
      ExtentGrows(need, have, cols);
    }
  }

  lemma RowsFit(words: seq<Word>, nrows: nat, rows: seq<seq<Word>>, ncols: nat)
    requires Width(rows, ncols) && Extent(nrows + |rows|, ncols) <= |words|
    ensures Extent(nrows, ncols) + Extent(|rows|, ncols) <= |words|
    ensures |Flatten(rows)| == Extent(|rows|, ncols)
    ensures Extent(nrows + |rows|, ncols) == Extent(nrows, ncols) + Extent(|rows|, ncols)
  {
    FlattenSize(rows, ncols);
    ExtentIsProduct(|rows|, ncols);
    ExtentAdds(nrows, |rows|, ncols);
  }

  /** The words with the rows copied in behind the first `nrows`; everything else stays. */
  method Overwrite(words: seq<Word>, nrows: nat, rows: seq<seq<Word>>, ncols: nat, ghost c: nat) returns (copied: seq<Word>)
    requires Width(rows, ncols) && Extent(nrows + |rows|, ncols) <= |words|
    ensures |copied| == |words| && Extent(nrows, ncols) <= |words|
    ensures copied[..Extent(nrows + |rows|, ncols)] == words[..Extent(nrows, ncols)] + Flatten(rows)
    ensures c <= nrows ==> Extent(c, ncols) <= |words| && copied[..Extent(c, ncols)] == words[..Extent(c, ncols)]
  {
    RowsFit(words, nrows, rows, ncols);
    var offset := CellsOf(nrows, ncols);
    var n := CellsOf(|rows|, ncols);
    copied := words[..offset] + Flatten(rows) + words[offset + n..];
    CopiedRows(words, nrows, rows, ncols, c);
  }

  /** Copying rows behind `nrows` existing ones leaves everything before them alone. */
  lemma CopiedRows(words: seq<Word>, nrows: nat, rows: seq<seq<Word>>, ncols: nat, c: nat)
    requires Width(rows, ncols) && Extent(nrows + |rows|, ncols) <= |words|
    requires Extent(nrows, ncols) + Extent(|rows|, ncols) <= |words|
    ensures var copied := words[..Extent(nrows, ncols)] + Flatten(rows) + words[Extent(nrows, ncols) + Extent(|rows|, ncols)..];
      && |copied| == |words|
      && copied[..Extent(nrows + |rows|, ncols)] == words[..Extent(nrows, ncols)] + Flatten(rows)
      && (c <= nrows ==> Extent(c, ncols) <= |words| && copied[..Extent(c, ncols)] == words[..Extent(c, ncols)])
  {
    RowsFit(words, nrows, rows, ncols);
    if c <= nrows {
      ExtentGrows(c, nrows, ncols);
    }
  }

  /** The row count of a file: as told, or else as many whole rows as it holds. */
  function RowsOf(len: nat, ncols: nat, known: Option<nat>): (n: nat)
    requires known.Some? ==> Extent(known.value, ncols) <= len
    ensures Extent(n, ncols) <= len
    ensures known.None? && ncols > 0 ==> len < Extent(n + 1, ncols)
  {
    var n := if known.Some? then known.value else if ncols > 0 then len / ncols else 0;
    ExtentIsProduct(n, ncols);
    ExtentIsProduct(n + 1, ncols);
    n
  }

  function ClearLowByte(w: Word): Word {
    w - w % 256
  }

  /** The first word of every page loses its low byte. */
  function TouchedWord(w: Word, i: nat): Word {
    if i % 512 == 0 then ClearLowByte(w) else w
  }

  /** Byte `b` of a file of words that are stored low byte first. */
  ghost function ByteAt(words: seq<Word>, b: nat): nat
    requires b < 8 * |words|
  {
    words[b / 8] / Bytes.Range(b % 8) % 256
  }

  lemma ClearedByte(w: Word, k: nat)
    ensures ClearLowByte(w) / Bytes.Range(k) % 256 == if k == 0 then 0 else w / Bytes.Range(k) % 256
  {
    if k > 0 {
      Bytes.DivideTwice(w, Bytes.Range(k - 1));
      Bytes.DivideTwice(ClearLowByte(w), Bytes.Range(k - 1));
    }
  }

  /** In bytes: every 4096th byte is zero now, and all the others are what they were. */
  lemma TouchedBytes(before: seq<Word>, after: seq<Word>, b: nat)
    requires TouchedStart(before, after) && b < 8 * |before|
    ensures ByteAt(after, b) == if b % 4096 == 0 then 0 else ByteAt(before, b)
  {
    ClearedByte(before[b / 8], b % 8);
    assert b % 4096 == 0 <==> b % 8 == 0 && b / 8 % 512 == 0;
  }

  /** The words there were before have been touched; the file may have grown. */
  ghost predicate TouchedStart(before: seq<Word>, after: seq<Word>) {
    |before| <= |after| && forall i | 0 <= i < |before| :: after[i] == TouchedWord(before[i], i)
  }

  ghost predicate Touched(before: seq<Word>, after: seq<Word>) {
    |after| == |before| && forall i | 0 <= i < |after| :: after[i] == TouchedWord(before[i], i)
  }
}
