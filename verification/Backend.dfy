/**
 The observation backend: opening a working directory, appending rows, keeping the index in
 step, the resident cache for small searches, and what survives a crash.

 The index is present as the number of rows it covers. Every method says which step of the
 state machine in `IndexState` it takes, what the directory shows afterwards, and through
 which moments a crash could have caught it.
 */
module Backend {
  import opened Disk
  import opened Distance
  import opened Layout
  import opened MmapStore
  import opened IndexState
  import Search
  import Sorting
  import opened Wrappers

  const MAX_NUM_DIM := 100_000
  const MAX_RECORD_STRIDE := 8 * 1024 * 1024
  const U32_MAX := 0xFFFF_FFFF

  /** The rows the index is taken to cover when a directory with `n` rows is opened. */
  function IndexedOnOpen(f: Files, n: nat): (indexed: nat)
    ensures indexed <= n
  {
    var recorded := OrZero(LoadIndexedRows(f));
    if recorded <= n then recorded else n
  }

  /** The rows covered by the index pages on disk, which are only opened if some rows are indexed. */
  function PersistedRows(f: Files, indexed: nat): nat {
    if indexed > 0 then OrZero(f.indexHeader) else 0
  }

  /** A variance table handed to an append: its rows and their width. */
  datatype Yvar = NoYvar | Yvar(rows: seq<seq<Word>>, cols: nat)

  /** The variance table, if one is open, as its number of rows, and the words of its file. */
  datatype VarianceTable = VarianceTable(rows: Option<nat>, content: seq<Word>)

  function NextVariance(v: VarianceTable, committed: nat): nat {
    if v.rows.Some? then v.rows.value else committed
  }

  /** An accepted variance table follows the variance words there were; without one, and after a refused
      one, table and file hold what they held. */
  ghost predicate VarianceFollows(before: VarianceTable, committed: nat, cols: nat, yvar: Yvar, accepted: bool, after: VarianceTable) {
    if accepted && yvar.Yvar? then
      var n := NextVariance(before, committed);
      && after.rows == Some(n + |yvar.rows|)
      && Extent(n, cols) <= |before.content| && Extent(n + |yvar.rows|, cols) <= |after.content|
      && after.content[..Extent(n + |yvar.rows|, cols)] == before.content[..Extent(n, cols)] + Flatten(yvar.rows)
    else after == before
  }

  /** Rows read back, with their variances if there is a table of them. */
  datatype Gathered = Gathered(x: seq<seq<Word>>, y: seq<seq<Word>>, yvar: Option<seq<seq<Word>>>)

  class BpannBackend {
    const dir: WorkDir
    const trainX: MmapColumnStore
    const trainY: MmapColumnStore
    var trainYvar: MmapColumnStore?
    const numDim: nat
    const numMetrics: nat
    var scaleX: bool
    var xScale: seq<real>
    var indexedRows: nat
    var pendingFlushThreshold: nat
    var pendingHardFlushThreshold: nat
    var deferAppendIndexing: bool
    var pendingUnindexed: nat
    var indexDirty: bool
    /** The cached row count and the flat matrix of scaled rows. */
    var smallNXCache: Option<(nat, seq<real>)>
    /** The number a stored bit pattern stands for. */
    const decode: Word -> real

    ghost function Repr(): set<object>
      reads this
    {
      {this, dir, trainX, trainY} + (if trainYvar == null then {} else {trainYvar})
    }

    ghost predicate Valid()
      reads this, Repr()
    {
      && dir.Valid() && dir.numDim == numDim && dir.numMetrics == numMetrics
      && trainX.dir == dir && trainX.id == TrainX && trainX.Valid()
      && trainY.dir == dir && trainY.id == TrainY && trainY.Valid()
      && trainX != trainY && trainX.nrows == trainY.nrows
      && (trainYvar != null ==> trainYvar.dir == dir && trainYvar.id == TrainYvar && trainYvar.ncols == numMetrics && trainYvar.Valid())
      && dir.files.numObsBin.Some? && dir.files.metadata.Whole?
      && |xScale| == numDim && (forall j | 0 <= j < numDim :: xScale[j] != 0.0)
      && pendingHardFlushThreshold >= pendingFlushThreshold
      && indexedRows <= trainX.nrows
      && (smallNXCache.Some? ==> smallNXCache.value.0 <= trainX.nrows)
    }

    ghost function State(): IndexState.State
      reads this, trainX
    {
      IndexState.State(trainX.nrows, indexedRows, pendingUnindexed, indexDirty, pendingFlushThreshold,
                       pendingHardFlushThreshold, deferAppendIndexing, None)
    }

    /** Everything in memory is committed. */
    ghost predicate AllCommitted()
      reads this, trainX, dir
    {
      Committed(dir.files) == trainX.nrows
    }

    /** The index covers what is recorded on disk, as far as there are rows; the rest is pending. */
    static ghost predicate IndexAsFound(found: Files, backend: BpannBackend)
      reads backend, backend.trainX
    {
      var n := backend.trainX.nrows;
      && backend.indexedRows
         == (if found.indexedRowsBin.Some? then Sorting.Min(found.indexedRowsBin.value, n)
             else if found.metadata.Whole? then Sorting.Min(found.metadata.meta.indexedRows, n)
             else 0)
      && backend.pendingUnindexed == n - backend.indexedRows && (backend.indexDirty <==> backend.indexedRows < n)
      && backend.pendingFlushThreshold == 250 && backend.pendingHardFlushThreshold == 3000 && backend.deferAppendIndexing
    }

    /** What is recorded of the coverage is what the index covers. */
    ghost predicate CoverageRecorded()
      reads this, dir
    {
      dir.files.indexedRowsBin == Some(indexedRows)
    }

    /** Everything in memory is counted by the sidecar, and so committed twice over. */
    ghost predicate AllCounted()
      reads this, trainX, dir
    {
      Sidecar(dir.files) == trainX.nrows
    }

    /** A variance table, where there is one, has a row for every observation. */
    ghost predicate YvarAligned()
      reads this, trainX, trainYvar
    {
      trainYvar != null ==> trainYvar.nrows == trainX.nrows
    }

    // ---- The small files ---------------------------------------------------

    /** Writes the coverage counter: it is cut to nothing first, and reads as absent then. */
    static method WriteIndexedRows(dir: WorkDir, n: nat)
      requires dir.Valid()
      modifies dir
      ensures dir.Valid() && Quiet(old(dir.history), dir.history)
      ensures dir.files == old(dir.files).(indexedRowsBin := Some(n))
    {
      dir.PutSidecars(dir.files.(indexedRowsBin := None));
      dir.PutSidecars(dir.files.(indexedRowsBin := Some(n)));
    }

    /** Writes the metadata file, which commits every row up to `meta.numObs`. The file is cut to nothing
        first: only if the sidecar counts what the file counted do no rows disappear in between. */
    static method WriteMetadata(dir: WorkDir, meta: Metadata)
      requires dir.Valid() && Committed(dir.files) <= meta.numObs
      requires meta.numDim == dir.numDim && meta.numMetrics == dir.numMetrics
      requires Extent(meta.numObs, dir.numDim) <= |Content(dir.files, TrainX)|
      requires Extent(meta.numObs, dir.numMetrics) <= |Content(dir.files, TrainY)|
      modifies dir
      ensures dir.Valid() && dir.files == old(dir.files).(metadata := Whole(meta)) && Committed(dir.files) == meta.numObs
      ensures |dir.history| == |old(dir.history)| + 2 && old(dir.history) <= dir.history
      ensures dir.history[|dir.history| - 2].files == old(dir.files).(metadata := Empty)
      ensures Atomic(old(dir.history), dir.history) <==> old(Settled(dir.files))
      ensures Grows(old(dir.Visible()), dir.Visible())
    {
      ghost var found := dir.files;
      var next := dir.files.(metadata := Whole(meta));
      RaisingCountIsSafe(found, next, meta.numObs, dir.numDim, dir.numMetrics);
      dir.Truncate();
      RaisingCountIsSafe(dir.files, next, meta.numObs, dir.numDim, dir.numMetrics);
      dir.Put(next);
      TruncationKeepsExactly(found, dir.numDim, dir.numMetrics);
    }

    // ---- Keeping the index in step -----------------------------------------

    /** Brings the index up to the current rows; by contract the index covers them afterwards
        and its coverage is recorded on disk. */
    method EnsureIndexSync()
      requires Valid()
      modifies this`indexedRows, this`pendingUnindexed, dir
      ensures Valid() && State() == EnsureSynced(old(State()))
      ensures Matrix() == old(Matrix())
      ensures Quiet(old(dir.history), dir.history)
      ensures Committed(dir.files) == old(Committed(dir.files))
      ensures dir.files == if old(indexedRows) >= trainX.nrows then old(dir.files)
                           else old(dir.files).(indexedRowsBin := Some(trainX.nrows))
      ensures old(CoverageRecorded()) || old(indexedRows) < trainX.nrows ==> CoverageRecorded()
    {
      var end := trainX.nrows;
      if indexedRows >= end {
        pendingUnindexed := 0;
        return;
      }
      indexedRows := end;
      WriteIndexedRows(dir, indexedRows);
      pendingUnindexed := 0;
    }

    method ResetIndex()
      requires Valid()
      modifies this`indexedRows, this`pendingUnindexed, this`indexDirty
      ensures Valid() && State() == Step(old(State()), IndexState.ResetIndex)
    {
      indexedRows := 0;
      pendingUnindexed := trainX.nrows;
      indexDirty := true;
    }

    /** Rewrites the index files when dirty or behind, or when the disk differs anyway. That is atomic
        exactly when there is nothing to rewrite or the sidecar counts all committed rows. */
    method PersistIndexToDisk(diskDiffers: bool)
      requires Valid()
      modifies this`indexedRows, this`pendingUnindexed, this`indexDirty, dir
      ensures Valid() && State() == Persisted(old(State()), diskDiffers) && Matrix() == old(Matrix())
      ensures dir.files.data == old(dir.files.data) && Sidecar(dir.files) == old(Sidecar(dir.files))
      ensures old(dir.history) <= dir.history
      ensures Atomic(old(dir.history), dir.history)
         <==> old(Settled(dir.files)) || !(old(indexDirty) || old(indexedRows) < trainX.nrows || diskDiffers)
      ensures Grows(old(dir.Visible()), dir.Visible())
      ensures old(AllCounted()) ==> AllCounted() && AllCommitted() && Quiet(old(dir.history), dir.history)
      ensures old(indexDirty) || old(indexedRows) < trainX.nrows || diskDiffers ==> trainX.nrows == 0 || IndexRecorded()
    {
      if !(indexDirty || indexedRows < trainX.nrows || diskDiffers) {
        MarkClean();
        return;
      }
      SyncAndWrite();
      MarkClean();
    }

    /** The files say what the index covers and count every row. */
    ghost predicate IndexRecorded()
      reads this, dir, trainX
    {
      && dir.files.indexHeader == Some(indexedRows) && dir.files.indexedRowsBin == Some(indexedRows)
      && dir.files.metadata == Whole(Metadata(trainX.nrows, numDim, numMetrics, scaleX, indexedRows))
    }

    method MarkClean()
      requires Valid()
      modifies this`pendingUnindexed, this`indexDirty
      ensures Valid() && State() == old(State()).(pending := 0, dirty := false) && Matrix() == old(Matrix())
    {
      pendingUnindexed := 0;
      indexDirty := false;
    }

    method SyncAndWrite()
      requires Valid()
      modifies this`indexedRows, this`pendingUnindexed, dir
      ensures Valid() && State() == EnsureSynced(old(State())) && Matrix() == old(Matrix())
      ensures dir.files.data == old(dir.files.data) && Sidecar(dir.files) == old(Sidecar(dir.files))
      ensures old(dir.history) <= dir.history && (Atomic(old(dir.history), dir.history) <==> old(Settled(dir.files)))
      ensures Grows(old(dir.Visible()), dir.Visible())
      ensures old(AllCounted()) ==> Quiet(old(dir.history), dir.history)
      ensures trainX.nrows == 0 || IndexRecorded()
    {
      ghost var before := dir.history;
      EnsureIndexSync();
      ghost var synced := dir.history;
      if indexedRows > 0 {
        WriteIndexFiles();
        QuietSteps(before, synced, dir.history, dir.history);
      } else {
        assert Committed(dir.files) == 0;
      }
    }

    /** The index pages, then the metadata, then the coverage counter. */
    method WriteIndexFiles()
      requires Valid()
      modifies dir
      ensures Valid() && dir.files.data == old(dir.files.data) && Sidecar(dir.files) == old(Sidecar(dir.files))
      ensures old(dir.history) <= dir.history && (Atomic(old(dir.history), dir.history) <==> old(Settled(dir.files)))
      ensures Grows(old(dir.Visible()), dir.Visible()) && IndexRecorded()
      ensures old(AllCounted()) ==> Quiet(old(dir.history), dir.history)
    {
      ghost var before := dir.history;
      dir.PutSidecars(dir.files.(indexHeader := Some(indexedRows)));
      ghost var paged := dir.history;
      WriteMetadata(dir, Metadata(trainX.nrows, numDim, numMetrics, scaleX, indexedRows));
      ghost var written := dir.history;
      WriteIndexedRows(dir, indexedRows);
      QuietSteps(before, paged, written, dir.history);
    }

    // ---- Opening -----------------------------------------------------------

    constructor (dir: WorkDir, trainX: MmapColumnStore, trainY: MmapColumnStore, trainYvar: MmapColumnStore?,
                 scaleX: bool, xScale: seq<real>, decode: Word -> real, indexed: nat)
      requires TwoStores(dir, trainX, trainY) && trainX.nrows == trainY.nrows && VarianceStore(dir, trainYvar)
      requires dir.files.numObsBin.Some? && dir.files.metadata.Whole?
      requires |xScale| == dir.numDim && forall j | 0 <= j < dir.numDim :: xScale[j] != 0.0
      requires indexed <= trainX.nrows
      ensures this.dir == dir && this.trainX == trainX && this.trainY == trainY && this.trainYvar == trainYvar
      ensures this.scaleX == scaleX && this.xScale == xScale && this.decode == decode && smallNXCache == None
      ensures Valid() && State() == Opened(trainX.nrows, indexed)
    {
      this.dir, this.trainX, this.trainY, this.trainYvar := dir, trainX, trainY, trainYvar;
      this.numDim, this.numMetrics, this.decode := dir.numDim, dir.numMetrics, decode;
      this.scaleX, this.xScale := scaleX, xScale;
      indexedRows, pendingUnindexed, indexDirty := indexed, trainX.nrows - indexed, indexed < trainX.nrows;
      pendingFlushThreshold, pendingHardFlushThreshold := DEFAULT_PENDING_FLUSH_THRESHOLD, DEFAULT_PENDING_HARD_FLUSH_THRESHOLD;
      deferAppendIndexing := true;
      smallNXCache := None;
    }

    /** The two train files, opened at the committed count. */
    static method OpenBoth(dir: WorkDir) returns (trainX: MmapColumnStore, trainY: MmapColumnStore)
      requires dir.Valid() && dir.files.numObsBin.Some?
      modifies dir
      ensures Quiet(old(dir.history), dir.history)
      ensures dir.files == old(dir.files).(data := dir.files.data)
      ensures SameYvarFile(old(dir.files), dir.files)
      ensures Content(dir.files, TrainX) == old(Content(dir.files, TrainX))
      ensures fresh(trainX) && fresh(trainY) && TwoStores(dir, trainX, trainY)
      ensures trainX.nrows == trainY.nrows == Committed(dir.files)
    {
      var known := LoadNumObs(dir.files);
      var rx := MmapColumnStore.OpenOrCreate(dir, TrainX, dir.numDim, known);
      trainX := rx.value;
      var ry := MmapColumnStore.OpenOrCreate(dir, TrainY, dir.numMetrics, known);
      trainY := ry.value;
    }

    /** The stores of the two train files of one directory. */
    static ghost predicate TwoStores(dir: WorkDir, trainX: MmapColumnStore, trainY: MmapColumnStore)
      reads dir, trainX, trainY
    {
      && trainX.dir == dir && trainX.id == TrainX && trainX.ncols == dir.numDim && trainX.Valid()
      && trainY.dir == dir && trainY.id == TrainY && trainY.ncols == dir.numMetrics && trainY.Valid()
      && trainX != trainY
    }

    /** The variance table of a directory, if there is one. */
    static ghost predicate VarianceStore(dir: WorkDir, store: MmapColumnStore?)
      reads dir, store
    {
      store != null ==> store.dir == dir && store.id == TrainYvar && store.ncols == dir.numMetrics && store.Valid()
    }

    /** The variance file has not been touched. */
    static ghost predicate SameYvarFile(f: Files, g: Files) {
      Content(f, TrainYvar) == Content(g, TrainYvar) && (TrainYvar in f.data <==> TrainYvar in g.data)
    }

    /** Appends to both train files; nothing of it is committed yet. */
    static method AppendBoth(dir: WorkDir, trainX: MmapColumnStore, trainY: MmapColumnStore,
                             x: seq<seq<Word>>, y: seq<seq<Word>>)
      requires TwoStores(dir, trainX, trainY)
      requires Width(x, dir.numDim) && Width(y, dir.numMetrics)
      modifies dir, trainX, trainY
      ensures TwoStores(dir, trainX, trainY) && Quiet(old(dir.history), dir.history)
      ensures dir.files == old(dir.files).(data := dir.files.data)
      ensures SameYvarFile(old(dir.files), dir.files)
      ensures trainX.nrows == old(trainX.nrows) + |x| && trainX.Words() == old(trainX.Words()) + Flatten(x)
      ensures trainY.nrows == old(trainY.nrows) + |y| && trainY.Words() == old(trainY.Words()) + Flatten(y)
    {
      var ax := trainX.Append(x, dir.numDim);
      var ay := trainY.Append(y, dir.numMetrics);
    }

    /** Opens the train files; initial rows go in only when nothing is committed yet, and only
        while there are no rows at all is the space pre-grown and pre-touched. */
    static method OpenStores(dir: WorkDir, x: seq<seq<Word>>, y: seq<seq<Word>>)
      returns (trainX: MmapColumnStore, trainY: MmapColumnStore)
      requires dir.Valid() && dir.files.numObsBin.Some?
      requires Width(x, dir.numDim) && Width(y, dir.numMetrics) && EvenStart(dir.files, x, y)
      modifies dir
      ensures Quiet(old(dir.history), dir.history)
      ensures dir.files == old(dir.files).(data := dir.files.data)
      ensures SameYvarFile(old(dir.files), dir.files)
      ensures fresh(trainX) && fresh(trainY) && TwoStores(dir, trainX, trainY)
      ensures trainX.nrows == trainY.nrows == OpenedRows(old(dir.files), |x|)
      ensures old(Committed(dir.files)) == 0 ==> trainX.Words() == Flatten(x) && trainY.Words() == Flatten(StoredY(x, y))
      ensures trainX.nrows == 0 ==> TouchedStart(old(Content(dir.files, TrainX)), Content(dir.files, TrainX))
    {
      trainX, trainY := OpenBoth(dir);
      if trainX.nrows == 0 && |x| > 0 {
        AppendBoth(dir, trainX, trainY, x, y);
      }
      if trainX.nrows == 0 {
        PrepareEmpty(dir, trainX, trainY);
      }
    }

    /** Where initial rows are stored, both tables have as many. */
    static predicate EvenStart(found: Files, x: seq<seq<Word>>, y: seq<seq<Word>>) {
      Committed(found) == 0 && x != [] ==> |x| == |y|
    }

    /** Without inputs no outcomes are stored either. */
    static function StoredY(x: seq<seq<Word>>, y: seq<seq<Word>>): seq<seq<Word>> {
      if x == [] then [] else y
    }

    static function OpenedRows(found: Files, initial: nat): nat {
      if Committed(found) == 0 then initial else Committed(found)
    }

    static method PrepareEmpty(dir: WorkDir, trainX: MmapColumnStore, trainY: MmapColumnStore)
      requires TwoStores(dir, trainX, trainY) && trainX.nrows == trainY.nrows == 0
      modifies dir
      ensures TwoStores(dir, trainX, trainY) && Quiet(old(dir.history), dir.history)
      ensures dir.files == old(dir.files).(data := dir.files.data)
      ensures SameYvarFile(old(dir.files), dir.files)
      ensures TouchedStart(old(Content(dir.files, TrainX)), Content(dir.files, TrainX))
    {
      hide Safe;
      trainX.EnsureCapacity(MMAP_GROW_ROWS);
      trainY.EnsureCapacity(MMAP_GROW_ROWS);
      trainX.Pretouch();
      trainY.Pretouch();
    }

    /** Whether the variance table given on opening is accepted: the file reaches to the committed rows,
        and rows are only stored, and so only have to fit, where nothing is committed yet. */
    static ghost predicate YvarOpens(f: Files, numMetrics: nat, yvar: Yvar) {
      yvar.NoYvar? || (
        && Extent(Committed(f), numMetrics) <= |Content(f, TrainYvar)|
        && (Committed(f) == 0 && yvar.rows != [] ==> yvar.cols == numMetrics))
    }

    /** The variance table given on opening: opened at the committed count, and filled if that is zero. */
    static method OpenYvar(dir: WorkDir, yvar: Yvar) returns (r: Result<MmapColumnStore?, StoreError>)
      requires dir.Valid() && dir.files.numObsBin.Some? && (yvar.Yvar? ==> Width(yvar.rows, yvar.cols))
      modifies dir
      ensures dir.Valid() && Quiet(old(dir.history), dir.history)
      ensures r.Err? <==> !YvarOpens(old(dir.files), dir.numMetrics, yvar)
      ensures yvar.Yvar? ==> OnlyData(old(dir.files), dir.files, TrainYvar)
      ensures yvar.NoYvar? ==> dir.files == old(dir.files) && r.value == null
      ensures r.Ok? ==> VarianceStore(dir, r.value)
      ensures r.Ok? && yvar.Yvar? ==>
                && r.value != null && fresh(r.value)
                && r.value.nrows == OpenedRows(old(dir.files), |yvar.rows|)
                && r.value.Words() == if old(Committed(dir.files)) == 0 then Flatten(yvar.rows)
                                      else old(Content(dir.files, TrainYvar))[..Extent(old(Committed(dir.files)), dir.numMetrics)]
    {
      hide Safe;
      if yvar.NoYvar? {
        return Ok(null);
      }
      var found := MmapColumnStore.OpenOrCreate(dir, TrainYvar, dir.numMetrics, LoadNumObs(dir.files));
      if found.Err? {
        return Err(found.error);
      }
      var filled := FillEmpty(found.value, yvar.rows, yvar.cols);
      r := if filled.Ok? then Ok(found.value) else Err(filled.error);
    }

    static method FillEmpty(store: MmapColumnStore, rows: seq<seq<Word>>, cols: nat) returns (r: Result<(), StoreError>)
      requires store.Valid() && store.id == TrainYvar && Width(rows, cols)
      modifies store, store.dir
      ensures store.Valid() && Quiet(old(store.dir.history), store.dir.history)
      ensures OnlyData(old(store.dir.files), store.dir.files, TrainYvar)
      ensures r.Err? <==> old(store.nrows) == 0 && rows != [] && cols != store.ncols
      ensures r.Ok? && old(store.nrows) == 0 ==> store.nrows == |rows| && store.Words() == Flatten(rows)
      ensures old(store.nrows) > 0 ==> store.nrows == old(store.nrows) && store.Words() == old(store.Words())
    {
      r := Ok(());
      if store.nrows == 0 {
        r := store.Append(rows, cols);
      }
    }

    /** Opens a directory with the dimensions it is seen with. With admissible dimensions and variances this cannot fail, whatever state a
        crash left: the store shows exactly the committed rows, or the initial rows where nothing was
        committed. The two moments before the last are the cut metadata file and the written one with
        the counter still to come. */
    static method Open(dir: WorkDir, x: seq<seq<Word>>, y: seq<seq<Word>>, yvar: Yvar,
                       scaleX: bool, xScale: seq<real>, decode: Word -> real)
      returns (r: Result<BpannBackend, StoreError>)
      requires dir.Valid() && Width(x, dir.numDim) && Width(y, dir.numMetrics) && EvenStart(dir.files, x, y)
      requires yvar.Yvar? ==> Width(yvar.rows, yvar.cols)
      requires |xScale| == dir.numDim && forall j | 0 <= j < dir.numDim :: xScale[j] != 0.0
      modifies dir
      ensures dir.Valid()
      ensures r.Err? <==> dir.numDim > MAX_NUM_DIM || !YvarOpens(old(dir.files), dir.numMetrics, yvar)
      ensures r.Err? ==> Quiet(old(dir.history), dir.history)
      ensures old(dir.history) <= dir.history
      ensures r.Ok? ==> (Atomic(old(dir.history), dir.history) <==> old(Settled(dir.files)))
      ensures r.Ok? ==> CommitWindow(dir.history, dir.files, old(Sidecar(dir.files)))
      ensures r.Ok? ==> fresh(r.value) && fresh(r.value.trainX) && fresh(r.value.trainY)
      ensures r.Ok? ==> r.value.dir == dir && r.value.Valid() && (r.value.trainYvar != null ==> fresh(r.value.trainYvar))
      ensures r.Ok? ==> r.value.AllCommitted() && r.value.AllCounted() && Settled(dir.files)
      ensures r.Ok? ==>
                dir.files.metadata == Whole(Metadata(r.value.trainX.nrows, dir.numDim, dir.numMetrics, scaleX, r.value.indexedRows))
      ensures r.Ok? ==> r.value.smallNXCache == None && r.value.decode == decode && r.value.scaleX == scaleX && r.value.xScale == xScale
      ensures r.Ok? ==> Committed(dir.files) == OpenedRows(old(dir.files), |x|)
      ensures r.Ok? && old(Committed(dir.files)) == 0 ==>
                r.value.trainX.Words() == Flatten(x) && r.value.trainY.Words() == Flatten(StoredY(x, y))
      ensures r.Ok? && old(Committed(dir.files)) > 0 ==>
                && r.value.trainX.Words() == old(CommittedWords(dir.files, TrainX, dir.numDim))
                && r.value.trainY.Words() == old(CommittedWords(dir.files, TrainY, dir.numMetrics))
      ensures r.Ok? && Committed(dir.files) == 0 ==> TouchedStart(old(Content(dir.files, TrainX)), Content(dir.files, TrainX))
      ensures r.Ok? && yvar.NoYvar? ==> r.value.trainYvar == null && SameYvarFile(old(dir.files), dir.files)
      ensures r.Ok? && yvar.Yvar? ==>
                && r.value.trainYvar != null && r.value.trainYvar.nrows == OpenedRows(old(dir.files), |yvar.rows|)
                && r.value.trainYvar.Words() == if old(Committed(dir.files)) == 0 then Flatten(yvar.rows)
                     else old(Content(dir.files, TrainYvar))[..Extent(old(Committed(dir.files)), dir.numMetrics)]
      ensures r.Ok? ==> (r.value.YvarAligned() <==> yvar.NoYvar? || old(Committed(dir.files)) > 0 || |yvar.rows| == |x|)
      ensures r.Ok? ==> r.value.State() == Opened(r.value.trainX.nrows, IndexedOnOpen(old(dir.files), r.value.trainX.nrows))
      ensures r.Ok? ==> IndexAsFound(old(dir.files), r.value)
    {
      hide Safe;
      if dir.numDim > MAX_NUM_DIM || dir.numDim * 8 > MAX_RECORD_STRIDE {
        return Err(InvalidParameter);
      }
      ghost var before := dir.history;
      var trainX, trainY, found := OpenFiles(dir, x, y, yvar);
      if found.Err? {
        return Err(found.error);
      }
      ghost var stored := dir.history;
      var backend := CommitOpened(dir, trainX, trainY, found.value, scaleX, xScale, decode);
      QuietSteps(before, stored, dir.history, dir.history);
      r := Ok(backend);
    }

    /** The last three moments of opening: the metadata file cut, written, and the counter set. */
    static ghost predicate CommitWindow(history: seq<Moment>, files: Files, sidecar: nat) {
      && |history| >= 3 && files.numObsBin.Some? && files.metadata.Whole? && files.metadata.meta.numObs == Committed(files)
      && history[|history| - 1].files == files
      && history[|history| - 2].files == files.(numObsBin := Some(sidecar))
      && history[|history| - 3].files == files.(numObsBin := Some(sidecar), metadata := Empty)
    }

    /** Everything opening does to the data files before it commits: none of it is visible. */
    static method OpenFiles(dir: WorkDir, x: seq<seq<Word>>, y: seq<seq<Word>>, yvar: Yvar)
      returns (trainX: MmapColumnStore, trainY: MmapColumnStore, r: Result<MmapColumnStore?, StoreError>)
      requires dir.Valid() && Width(x, dir.numDim) && Width(y, dir.numMetrics) && EvenStart(dir.files, x, y)
      requires yvar.Yvar? ==> Width(yvar.rows, yvar.cols)
      modifies dir
      ensures Quiet(old(dir.history), dir.history)
      ensures dir.files == old(dir.files).(data := dir.files.data, numObsBin := Some(old(Sidecar(dir.files))))
      ensures Settled(dir.files) == old(Settled(dir.files)) && Sidecar(dir.files) == old(Sidecar(dir.files))
      ensures r.Err? <==> !YvarOpens(old(dir.files), dir.numMetrics, yvar)
      ensures fresh(trainX) && fresh(trainY) && TwoStores(dir, trainX, trainY)
      ensures trainX.nrows == trainY.nrows == OpenedRows(old(dir.files), |x|)
      ensures old(Committed(dir.files)) == 0 ==> trainX.Words() == Flatten(x) && trainY.Words() == Flatten(StoredY(x, y))
      ensures old(Committed(dir.files)) > 0 ==>
                && trainX.Words() == old(CommittedWords(dir.files, TrainX, dir.numDim))
                && trainY.Words() == old(CommittedWords(dir.files, TrainY, dir.numMetrics))
      ensures trainX.nrows == 0 ==> TouchedStart(old(Content(dir.files, TrainX)), Content(dir.files, TrainX))
      ensures yvar.NoYvar? ==> r == Ok(null) && SameYvarFile(old(dir.files), dir.files)
      ensures r.Ok? ==> VarianceStore(dir, r.value)
      ensures r.Ok? && yvar.Yvar? ==>
                && r.value != null && fresh(r.value) && r.value.nrows == OpenedRows(old(dir.files), |yvar.rows|)
                && r.value.Words() == if old(Committed(dir.files)) == 0 then Flatten(yvar.rows)
                                      else old(Content(dir.files, TrainYvar))[..Extent(old(Committed(dir.files)), dir.numMetrics)]
    {
      OpenCounter(dir);
      trainX, trainY := OpenStores(dir, x, y);
      r := OpenYvar(dir, yvar);
    }

    /** The rows the index covers on opening; if its pages cover fewer they are built again. */
    static method SyncOnOpen(dir: WorkDir, n: nat) returns (indexed: nat)
      requires dir.Valid()
      modifies dir
      ensures dir.Valid() && Quiet(old(dir.history), dir.history)
      ensures dir.files == old(dir.files).(indexedRowsBin := dir.files.indexedRowsBin)
      ensures Committed(dir.files) == old(Committed(dir.files))
      ensures indexed == IndexedOnOpen(old(dir.files), n)
    {
      indexed := IndexedOnOpen(dir.files, n);
      if PersistedRows(dir.files, indexed) < indexed {
        WriteIndexedRows(dir, indexed);
      }
    }

    /** Creates the sidecar counter at zero if it is missing; that commits nothing. */
    static method OpenCounter(dir: WorkDir)
      requires dir.Valid()
      modifies dir
      ensures dir.Valid() && Quiet(old(dir.history), dir.history)
      ensures Committed(dir.files) == old(Committed(dir.files))
      ensures dir.files == old(dir.files).(numObsBin := Some(old(Sidecar(dir.files))))
    {
      if dir.files.numObsBin.None? {
        dir.PutSidecars(dir.files.(numObsBin := Some(0)));
      }
    }

    /** The end of opening: the coverage, then the metadata, which commits whatever rows there are, and
        then the counter. */
    static method CommitOpened(dir: WorkDir, trainX: MmapColumnStore, trainY: MmapColumnStore, trainYvar: MmapColumnStore?,
                               scaleX: bool, xScale: seq<real>, decode: Word -> real)
      returns (backend: BpannBackend)
      requires TwoStores(dir, trainX, trainY) && trainX.nrows == trainY.nrows && VarianceStore(dir, trainYvar)
      requires |xScale| == dir.numDim && (forall j | 0 <= j < dir.numDim :: xScale[j] != 0.0)
      requires dir.files.numObsBin.Some?
      modifies dir
      ensures old(dir.history) <= dir.history && (Atomic(old(dir.history), dir.history) <==> old(Settled(dir.files)))
      ensures CommitWindow(dir.history, dir.files, old(Sidecar(dir.files)))
      ensures dir.files.data == old(dir.files.data) && Settled(dir.files)
      ensures dir.files.metadata == Whole(Metadata(trainX.nrows, dir.numDim, dir.numMetrics, scaleX, backend.indexedRows))
      ensures fresh(backend) && backend.dir == dir && backend.trainX == trainX && backend.trainY == trainY
      ensures backend.trainYvar == trainYvar && backend.Valid() && backend.AllCommitted() && backend.AllCounted()
      ensures backend.smallNXCache == None && backend.decode == decode && backend.scaleX == scaleX && backend.xScale == xScale
      ensures backend.State() == Opened(trainX.nrows, IndexedOnOpen(old(dir.files), trainX.nrows))
    {
      ghost var before := dir.history;
      var indexed := SyncOnOpen(dir, trainX.nrows);
      ghost var synced := dir.history;
      CommitFiles(dir, trainX.nrows, scaleX, indexed);
      QuietSteps(before, synced, dir.history, dir.history);
      backend := new BpannBackend(dir, trainX, trainY, trainYvar, scaleX, xScale, decode, indexed);
    }

    static method CommitFiles(dir: WorkDir, n: nat, scaleX: bool, indexed: nat)
      requires dir.Valid() && dir.files.numObsBin.Some? && Committed(dir.files) <= n
      requires Extent(n, dir.numDim) <= |Content(dir.files, TrainX)| && Extent(n, dir.numMetrics) <= |Content(dir.files, TrainY)|
      modifies dir
      ensures dir.Valid() && old(dir.history) <= dir.history
      ensures Atomic(old(dir.history), dir.history) <==> old(Settled(dir.files))
      ensures CommitWindow(dir.history, dir.files, old(Sidecar(dir.files)))
      ensures dir.files == old(dir.files).(metadata := Whole(Metadata(n, dir.numDim, dir.numMetrics, scaleX, indexed)), numObsBin := Some(n))
      ensures Committed(dir.files) == n
    {
      ghost var before := dir.history;
      WriteMetadata(dir, Metadata(n, dir.numDim, dir.numMetrics, scaleX, indexed));
      ghost var written := dir.history;
      var next := dir.files.(numObsBin := Some(n));
      RaisingCountIsSafe(dir.files, next, n, dir.numDim, dir.numMetrics);
      dir.Put(next);
      QuietSteps(before, before, written, dir.history);
    }

    /** A new process opens what it finds, with the dimensions of the tables it is given. Besides the
        limits it needs files that reach to the committed rows at these widths, which narrower rows always
        do. The rows that were stored are shown exactly when the dimensions are those they were stored
        with; other dimensions cut the same words into other rows. */
    static method OpenFound(found: Files, numDim: nat, numMetrics: nat, x: seq<seq<Word>>, y: seq<seq<Word>>, yvar: Yvar,
                            scaleX: bool, xScale: seq<real>, decode: Word -> real)
      returns (r: Result<BpannBackend, StoreError>)
      requires Width(x, numDim) && Width(y, numMetrics) && EvenStart(found, x, y)
      requires yvar.Yvar? ==> Width(yvar.rows, yvar.cols)
      requires |xScale| == numDim && forall j | 0 <= j < numDim :: xScale[j] != 0.0
      ensures r.Err? <==> numDim > MAX_NUM_DIM || !Sound(found, numDim, numMetrics) || !YvarOpens(found, numMetrics, yvar)
      ensures r.Ok? ==> fresh(r.value) && fresh(r.value.dir) && fresh(r.value.trainX) && fresh(r.value.trainY)
      ensures r.Ok? && r.value.trainYvar != null ==> fresh(r.value.trainYvar)
      ensures r.Ok? ==> OpenedFrom(found, r.value) && r.value.numDim == numDim && r.value.numMetrics == numMetrics
      ensures r.Ok? ==> r.value.scaleX == scaleX && r.value.xScale == xScale && r.value.decode == decode
      ensures r.Ok? ==> r.value.trainX.nrows == OpenedRows(found, |x|) && (yvar.NoYvar? ==> r.value.trainYvar == null)
      ensures r.Ok? && Committed(found) == 0 ==>
                r.value.trainX.Words() == Flatten(x) && r.value.trainY.Words() == Flatten(StoredY(x, y))
      ensures forall d, m | r.Ok? && Committed(found) > 0 && Sound(found, d, m) ::
                r.value.Shown() == ViewOf(found, d, m) <==> d == numDim && m == numMetrics
    {
      hide Safe;
      if numDim > MAX_NUM_DIM {
        return Err(InvalidParameter);
      }
      var needX := CellsOf(Committed(found), numDim);
      var needY := CellsOf(Committed(found), numMetrics);
      if needX > |Content(found, TrainX)| || needY > |Content(found, TrainY)| {
        return Err(InvalidParameter);
      }
      var dir := new WorkDir(found, numDim, numMetrics);
      r := Open(dir, x, y, yvar, scaleX, xScale, decode);
      forall d, m | r.Ok? && Committed(found) > 0 && Sound(found, d, m)
        ensures r.value.Shown() == ViewOf(found, d, m) <==> d == numDim && m == numMetrics
      {
        OtherDimensions(found, d, m, numDim, numMetrics);
      }
    }

    /** All rows of the store. */
    ghost function Shown(): View
      requires Valid()
      reads this, Repr()
    {
      View(trainX.nrows, trainX.Words(), trainY.Words())
    }

    /** A fresh store on a directory that was found like this, with everything committed and counted. */
    static ghost predicate OpenedFrom(found: Files, backend: BpannBackend)
      reads backend, backend.Repr()
    {
      && backend.Valid() && backend.AllCommitted() && backend.AllCounted() && backend.smallNXCache == None
      && Sound(found, backend.numDim, backend.numMetrics) && IndexAsFound(found, backend)
      && [Moment(found, ViewOf(found, backend.numDim, backend.numMetrics))] <= backend.dir.history
      && (Atomic(backend.dir.history[..1], backend.dir.history) <==> Settled(found))
    }

    /** Reopens with the dimensions recorded in the metadata, without a variance table. Whatever a crash
        left behind, this shows exactly the committed rows; it fails where no metadata was ever written,
        and where the file was cut, though every counted row is still there. */
    static method Reopen(found: Files, decode: Word -> real) returns (r: Result<BpannBackend, StoreError>)
      ensures r.Err? <==>
                || !found.metadata.Whole? || found.metadata.meta.numDim > MAX_NUM_DIM
                || !Sound(found, found.metadata.meta.numDim, found.metadata.meta.numMetrics)
      ensures r.Ok? ==> fresh(r.value) && fresh(r.value.dir) && fresh(r.value.trainX) && fresh(r.value.trainY)
      ensures r.Ok? ==> OpenedFrom(found, r.value) && r.value.trainYvar == null
      ensures r.Ok? ==> r.value.numDim == found.metadata.meta.numDim && r.value.numMetrics == found.metadata.meta.numMetrics
      ensures r.Ok? ==> r.value.scaleX == found.metadata.meta.scaleX && r.value.xScale == seq(r.value.numDim, _ => 1.0)
      ensures r.Ok? ==> r.value.Shown() == ViewOf(found, r.value.numDim, r.value.numMetrics)
    {
      if !found.metadata.Whole? {
        return Err(InvalidParameter);
      }
      var meta := found.metadata.meta;
      r := OpenFound(found, meta.numDim, meta.numMetrics, [], [], NoYvar, meta.scaleX, seq(meta.numDim, _ => 1.0), decode);
    }

    /** How the optimiser opens its disk backend: a directory with a metadata file and no rows to add is
        reopened with the dimensions it records, every other one opened with those of the tables. */
    static method OpenOrReopen(found: Files, numDim: nat, numMetrics: nat, x: seq<seq<Word>>, y: seq<seq<Word>>, yvar: Yvar,
                               scaleX: bool, xScale: seq<real>, decode: Word -> real)
      returns (r: Result<BpannBackend, StoreError>)
      requires Width(x, numDim) && Width(y, numMetrics) && EvenStart(found, x, y)
      requires yvar.Yvar? ==> Width(yvar.rows, yvar.cols)
      requires |xScale| == numDim && forall j | 0 <= j < numDim :: xScale[j] != 0.0
      ensures x == y == [] && found.metadata == Empty ==> r.Err?
      ensures x == y == [] && found.metadata.Whole? ==>
                var d, m := found.metadata.meta.numDim, found.metadata.meta.numMetrics;
                && (r.Err? <==> d > MAX_NUM_DIM || !Sound(found, d, m))
                && (r.Ok? ==> r.value.numDim == d && r.value.numMetrics == m)
      ensures x != [] || y != [] || found.metadata == Missing ==>
                && (r.Err? <==> numDim > MAX_NUM_DIM || !Sound(found, numDim, numMetrics) || !YvarOpens(found, numMetrics, yvar))
                && (r.Ok? ==> r.value.numDim == numDim && r.value.numMetrics == numMetrics)
      ensures r.Ok? ==> fresh(r.value) && fresh(r.value.dir) && fresh(r.value.trainX) && fresh(r.value.trainY)
      ensures r.Ok? && r.value.trainYvar != null ==> fresh(r.value.trainYvar)
      ensures r.Ok? ==> OpenedFrom(found, r.value) && r.value.trainX.nrows == OpenedRows(found, |x|)
      ensures r.Ok? && Committed(found) > 0 ==> r.value.Shown() == ViewOf(found, r.value.numDim, r.value.numMetrics)
    {
      if |x| == 0 && |y| == 0 && found.metadata != Missing {
        r := Reopen(found, decode);
      } else {
        r := OpenFound(found, numDim, numMetrics, x, y, yvar, scaleX, xScale, decode);
      }
    }

    /** Stops a run after any recorded file change `i` and opens what is on disk then: the store shows the
        rows committed at that moment. They include all that the sidecar ever counted, and all that was
        ever committed as long as no unsettled metadata file was cut. */
    static method RecoverAfterCrash(run: WorkDir, ghost i: nat, found: Files, decode: Word -> real)
      returns (store: BpannBackend)
      requires run.Valid() && run.numDim <= MAX_NUM_DIM
      requires i < |run.history| && found == run.history[i].files
      ensures store.Valid() && store.AllCommitted()
      ensures store.Shown() == run.history[i].view
      ensures forall j | 0 <= j <= i ::
                && Sound(run.history[j].files, run.numDim, run.numMetrics)
                && Grows(CountedView(run.history[j].files, run.numDim, run.numMetrics), run.history[i].view)
      ensures (forall k | 0 < k <= i :: CutsSettled(run.history, k)) ==>
                forall j | 0 <= j <= i :: Grows(run.history[j].view, run.history[i].view)
    {
      SurvivesUntil(run.history, run.numDim, run.numMetrics, i);
      var r := OpenFound(found, run.numDim, run.numMetrics, [], [], NoYvar, false, seq(run.numDim, _ => 1.0), decode);
      store := r.value;
    }

    /** The same through the recorded dimensions, where the run began with its own recorded or with none:
        that works unless the metadata file is absent or cut at that moment. */
    static method ReopenAfterCrash(run: WorkDir, ghost i: nat, found: Files, decode: Word -> real)
      returns (r: Result<BpannBackend, StoreError>)
      requires run.Valid() && run.numDim <= MAX_NUM_DIM
      requires i < |run.history| && found == run.history[i].files
      requires Describes(run.history[0].files, run.numDim, run.numMetrics)
      ensures r.Err? <==> !found.metadata.Whole?
      ensures r.Ok? ==> r.value.Valid() && r.value.AllCommitted() && r.value.Shown() == run.history[i].view
    {
      SafeAt(run.history, run.numDim, run.numMetrics, i);
      DimensionsStay(run.history, run.numDim, run.numMetrics, i);
      r := Reopen(found, decode);
    }

    // ---- Appending ---------------------------------------------------------

    ghost function Variances(): VarianceTable
      reads this, trainYvar, dir
    {
      VarianceTable(if trainYvar == null then None else Some(trainYvar.nrows), Content(dir.files, TrainYvar))
    }

    /** Where the next variance rows go: behind the table, or behind the committed rows of the file. */
    ghost function VarianceRows(): nat
      reads this, trainYvar, dir
    {
      NextVariance(Variances(), Committed(dir.files))
    }

    /** Whether the variance rows can be stored: they need the right width, and the file of a table that
        is not open yet a row for every committed observation. */
    ghost predicate YvarAccepted(yvar: Yvar)
      requires Valid()
      reads this, Repr()
    {
      yvar.NoYvar? || (
        && (yvar.rows == [] || yvar.cols == numMetrics)
        && Extent(VarianceRows(), numMetrics) <= |Content(dir.files, TrainYvar)|)
    }

    method AppendYvarOnAdd(yvar: Yvar) returns (r: Result<(), StoreError>)
      requires Valid() && (yvar.Yvar? ==> Width(yvar.rows, yvar.cols))
      modifies this`trainYvar, dir, trainYvar
      ensures Valid() && (r.Ok? <==> old(YvarAccepted(yvar)))
      ensures Quiet(old(dir.history), dir.history)
      ensures dir.files == old(dir.files).(data := dir.files.data)
      ensures dir.files.data[TrainX] == old(dir.files.data[TrainX]) && dir.files.data[TrainY] == old(dir.files.data[TrainY])
      ensures trainYvar == old(trainYvar) || fresh(trainYvar)
      ensures VarianceFollows(old(Variances()), old(Committed(dir.files)), numMetrics, yvar, r.Ok?, Variances())
    {
      match yvar
      case NoYvar => r := Ok(());
      case Yvar(rows, cols) =>
        if trainYvar != null {
          r := trainYvar.Append(rows, cols);
        } else {
          r := CreateYvar(rows, cols);
        }
    }

    /** The first variance rows of this process: open the file at the committed count, then append. */
    method CreateYvar(rows: seq<seq<Word>>, cols: nat) returns (r: Result<(), StoreError>)
      requires Valid() && Width(rows, cols) && trainYvar == null
      modifies this`trainYvar, dir
      ensures Valid() && (r.Ok? <==> old(YvarAccepted(Yvar(rows, cols))))
      ensures Quiet(old(dir.history), dir.history)
      ensures dir.files == old(dir.files).(data := dir.files.data)
      ensures dir.files.data[TrainX] == old(dir.files.data[TrainX]) && dir.files.data[TrainY] == old(dir.files.data[TrainY])
      ensures trainYvar == null || fresh(trainYvar)
      ensures VarianceFollows(old(Variances()), old(Committed(dir.files)), numMetrics, Yvar(rows, cols), r.Ok?, Variances())
    {
      hide Safe;
      var found := MmapColumnStore.OpenOrCreate(dir, TrainYvar, numMetrics, LoadNumObs(dir.files));
      if found.Err? {
        return Err(found.error);
      }
      var store := found.value;
      r := store.Append(rows, cols);
      if r.Ok? {
        trainYvar := store;
      }
    }

    /** What `append_rows` checks before it touches anything. */
    function ShapeError(x: seq<seq<Word>>, xCols: nat, y: seq<seq<Word>>, yCols: nat): (e: Option<StoreError>)
      reads trainX
      ensures e.None? <==> xCols == numDim && yCols == numMetrics && |x| == |y| && trainX.nrows + |x| < U32_MAX
    {
      if xCols != numDim || yCols != numMetrics || |x| != |y| then Some(InvalidShape)
      else if trainX.nrows + |x| >= U32_MAX then Some(InvalidParameter)
      else None
    }

    /** Appends a batch. On success all of it is committed in one step; after a refused variance
        table the train rows are in memory and in the files, but neither committed nor accounted for.
        A variance table stays aligned exactly when each batch brings as many variances as rows. */
    method AppendRows(x: seq<seq<Word>>, xCols: nat, y: seq<seq<Word>>, yCols: nat, yvar: Yvar) returns (r: Result<(), StoreError>)
      requires Valid() && Width(x, xCols) && Width(y, yCols) && (yvar.Yvar? ==> Width(yvar.rows, yvar.cols))
      modifies this, dir, trainX, trainY, trainYvar
      ensures Valid() && Atomic(old(dir.history), dir.history)
      ensures x == [] ==> r.Ok?
      ensures x == [] || old(ShapeError(x, xCols, y, yCols)).Some? ==>
                State() == old(State()) && dir.files == old(dir.files)
      ensures x != [] && old(ShapeError(x, xCols, y, yCols)).Some? ==> r == Err(old(ShapeError(x, xCols, y, yCols)).value)
      ensures x != [] && old(ShapeError(x, xCols, y, yCols)).None? ==>
                && (r.Ok? <==> old(YvarAccepted(yvar)))
                && trainX.Words() == old(trainX.Words()) + Flatten(x) && trainY.Words() == old(trainY.Words()) + Flatten(y)
                && State() == (if r.Ok? then Appended(old(State()), |x|) else old(State()).(len := old(State()).len + |x|))
                && Committed(dir.files) == (if r.Ok? then trainX.nrows else old(Committed(dir.files)))
                && Sidecar(dir.files) == (if r.Ok? then trainX.nrows else old(Sidecar(dir.files)))
                && (old(Accounted(State())) ==> (Accounted(State()) <==> old(YvarAccepted(yvar))))
      ensures trainYvar == old(trainYvar) || fresh(trainYvar)
      ensures VarianceFollows(old(Variances()), old(Committed(dir.files)), numMetrics, yvar, r.Ok? && x != [], Variances())
      ensures x != [] && r.Ok? && old(AllCommitted() && YvarAligned()) ==>
                (YvarAligned() <==> trainYvar == null || (yvar.Yvar? && |yvar.rows| == |x|))
      ensures old(Settled(dir.files)) ==> Settled(dir.files)
      ensures old(CoverageRecorded()) ==> CoverageRecorded()
      ensures x != [] && r.Ok? ==> smallNXCache == None
      ensures x == [] || r.Err? ==> smallNXCache == old(smallNXCache)
      ensures scaleX == old(scaleX) && xScale == old(xScale)
      ensures old(CacheFresh()) ==> CacheFresh()
    {
      hide Safe, Flatten, Extent;
      if |x| == 0 {
        return Ok(());
      }
      var bad := ShapeError(x, xCols, y, yCols);
      if bad.Some? {
        return Err(bad.value);
      }
      AppendKeepsAccounts(State(), |x|);
      r := AppendChecked(x, y, yvar);
    }

    method AppendChecked(x: seq<seq<Word>>, y: seq<seq<Word>>, yvar: Yvar) returns (r: Result<(), StoreError>)
      requires Valid() && x != [] && Width(x, numDim) && Width(y, numMetrics) && |x| == |y|
      requires yvar.Yvar? ==> Width(yvar.rows, yvar.cols)
      modifies this`trainYvar, this`pendingUnindexed, this`indexDirty, this`smallNXCache, this`indexedRows
      modifies dir, trainX, trainY, trainYvar
      ensures Valid() && Atomic(old(dir.history), dir.history)
      ensures r.Ok? <==> old(YvarAccepted(yvar))
      ensures trainX.Words() == old(trainX.Words()) + Flatten(x) && trainY.Words() == old(trainY.Words()) + Flatten(y)
      ensures State() == (if r.Ok? then Appended(old(State()), |x|) else old(State()).(len := old(State()).len + |x|))
      ensures Committed(dir.files) == (if r.Ok? then trainX.nrows else old(Committed(dir.files)))
      ensures Sidecar(dir.files) == (if r.Ok? then trainX.nrows else old(Sidecar(dir.files)))
      ensures dir.files.metadata == old(dir.files.metadata)
      ensures trainYvar == old(trainYvar) || fresh(trainYvar)
      ensures VarianceFollows(old(Variances()), old(Committed(dir.files)), numMetrics, yvar, r.Ok?, Variances())
      ensures smallNXCache == if r.Ok? then None else old(smallNXCache)
      ensures old(CoverageRecorded()) ==> CoverageRecorded()
    {
      hide Safe, VarianceFollows, Flatten, Extent;
      r := StoreRows(x, y, yvar);
      if r.Ok? {
        CommitRows(|x|);
      }
    }

    /** The rows reach the files and the mappings, but not yet the committed count. */
    method StoreRows(x: seq<seq<Word>>, y: seq<seq<Word>>, yvar: Yvar) returns (r: Result<(), StoreError>)
      requires Valid() && Width(x, numDim) && Width(y, numMetrics) && |x| == |y|
      requires yvar.Yvar? ==> Width(yvar.rows, yvar.cols)
      modifies this`trainYvar, dir, trainX, trainY, trainYvar
      ensures Valid() && (r.Ok? <==> old(YvarAccepted(yvar)))
      ensures Quiet(old(dir.history), dir.history)
      ensures dir.files == old(dir.files).(data := dir.files.data)
      ensures State() == old(State()).(len := old(State()).len + |x|)
      ensures trainX.Words() == old(trainX.Words()) + Flatten(x) && trainY.Words() == old(trainY.Words()) + Flatten(y)
      ensures trainYvar == old(trainYvar) || fresh(trainYvar)
      ensures VarianceFollows(old(Variances()), old(Committed(dir.files)), numMetrics, yvar, r.Ok?, Variances())
    {
      AppendBoth(dir, trainX, trainY, x, y);
      r := AppendYvarOnAdd(yvar);
    }

    /** The bookkeeping of a stored batch: pending count, dirty flag, cache, the committing write, and
        a sync when a threshold is reached. */
    method CommitRows(n: nat)
      requires Valid() && 0 < n <= trainX.nrows
      modifies this`pendingUnindexed, this`indexDirty, this`smallNXCache, this`indexedRows, dir
      ensures Valid() && State() == Appended(old(State()).(len := old(State()).len - n), n)
      ensures Atomic(old(dir.history), dir.history)
      ensures Committed(dir.files) == Sidecar(dir.files) == trainX.nrows && dir.files.data == old(dir.files.data)
      ensures dir.files.metadata == old(dir.files.metadata) && smallNXCache == None && Variances() == old(Variances())
      ensures old(CoverageRecorded()) ==> CoverageRecorded()
    {
      pendingUnindexed := pendingUnindexed + n;
      indexDirty := true;
      smallNXCache := None;
      SetCounter();
      FlushIfDue();
    }

    method FlushIfDue()
      requires Valid()
      modifies this`indexedRows, this`pendingUnindexed, dir
      ensures Valid() && State() == (if FlushDue(old(State())) then EnsureSynced(old(State())) else old(State()))
      ensures Quiet(old(dir.history), dir.history)
      ensures dir.files == old(dir.files).(indexedRowsBin := dir.files.indexedRowsBin)
      ensures old(CoverageRecorded()) ==> CoverageRecorded()
    {
      if pendingUnindexed >= pendingHardFlushThreshold
         || (!deferAppendIndexing && pendingUnindexed >= pendingFlushThreshold)
      {
        EnsureIndexSync();
      }
    }

    /** Stores the row count in the sidecar: the one step that commits the new rows. */
    method SetCounter()
      requires Valid()
      modifies dir
      ensures Valid() && Committed(dir.files) == trainX.nrows
      ensures dir.files == old(dir.files).(numObsBin := Some(trainX.nrows))
      ensures dir.history == old(dir.history) + [Moment(dir.files, dir.Visible())]
    {
      var next := dir.files.(numObsBin := Some(trainX.nrows));
      RaisingCountIsSafe(dir.files, next, trainX.nrows, numDim, numMetrics);
      dir.Put(next);
    }

    // ---- Reading rows back -------------------------------------------------

    /** The rows at the given indices. One index past the rows fails the whole, and so does one past the
        variance table: of an aligned table that is the same. */
    method TrainRowsAt(indices: seq<nat>) returns (r: Result<Gathered, StoreError>)
      requires Valid()
      ensures r.Ok? <==> forall j | 0 <= j < |indices| ::
                indices[j] < trainX.nrows && (trainYvar != null ==> indices[j] < trainYvar.nrows)
      ensures YvarAligned() ==> (r.Ok? <==> forall j | 0 <= j < |indices| :: indices[j] < trainX.nrows)
      ensures r.Ok? ==> (r.value.yvar.Some? <==> trainYvar != null)
      ensures forall rows | r.Ok? && StoredRows(trainX.Words(), rows, trainX.nrows, numDim) :: Picked(rows, indices, r.value.x)
      ensures forall rows | r.Ok? && StoredRows(trainY.Words(), rows, trainY.nrows, numMetrics) :: Picked(rows, indices, r.value.y)
      ensures forall rows | r.Ok? && trainYvar != null && StoredRows(trainYvar.Words(), rows, trainYvar.nrows, numMetrics) ::
                Picked(rows, indices, r.value.yvar.value)
    {
      for i := 0 to |indices|
        invariant forall j | 0 <= j < i :: indices[j] < trainX.nrows
      {
        if indices[i] >= trainX.nrows {
          return Err(InvalidParameter);
        }
      }
      var x := trainX.Gather(indices);
      var y := trainY.Gather(indices);
      if trainYvar == null {
        return Ok(Gathered(x.value, y.value, None));
      }
      var yvar := trainYvar.Gather(indices);
      if yvar.Err? {
        return Err(yvar.error);
      }
      r := Ok(Gathered(x.value, y.value, Some(yvar.value)));
    }

    // ---- Thresholds and detached builds ------------------------------------

    method WithPendingFlushThreshold(threshold: nat)
      requires Valid()
      modifies this`pendingFlushThreshold, this`pendingHardFlushThreshold
      ensures Valid() && State() == Step(old(State()), SetSoft(threshold))
    {
      pendingFlushThreshold := threshold;
      if pendingHardFlushThreshold < threshold {
        pendingHardFlushThreshold := threshold;
      }
    }

    method WithPendingHardFlushThreshold(threshold: nat)
      requires Valid()
      modifies this`pendingHardFlushThreshold
      ensures Valid() && State() == Step(old(State()), SetHard(threshold))
    {
      pendingHardFlushThreshold := Max(threshold, pendingFlushThreshold);
    }

    method ReconfigureFlushThresholds(soft: nat, hard: nat)
      requires Valid()
      modifies this`pendingFlushThreshold, this`pendingHardFlushThreshold
      ensures Valid() && State() == Step(old(State()), Reconfigure(soft, hard))
    {
      var soft' := Max(soft, 1);
      pendingFlushThreshold := soft';
      pendingHardFlushThreshold := Max(hard, soft');
    }

    /** A detached index covering the current rows, or nothing if the live one already does. The live
        state is untouched, but the coverage counter on disk already moves. */
    method SoftSyncBuild() returns (built: Option<nat>)
      requires Valid()
      modifies dir
      ensures Valid() && State() == old(State()) && built == Step(old(State()), Build).built && Matrix() == old(Matrix())
      ensures dir.files == if built.None? then old(dir.files) else old(dir.files).(indexedRowsBin := built)
      ensures Quiet(old(dir.history), dir.history)
    {
      var end := trainX.nrows;
      if indexedRows >= end {
        return None;
      }
      WriteIndexedRows(dir, end);
      built := Some(end);
    }

    method SoftSyncPublish(built: nat)
      requires Valid() && built <= trainX.nrows
      modifies this`indexedRows, this`pendingUnindexed
      ensures Valid() && State() == Step(old(State()).(built := Some(built)), Publish)
    {
      indexedRows := built;
      pendingUnindexed := 0;
    }

    // ---- The resident cache ------------------------------------------------

    /** All current rows as the search reads them. */
    ghost function Matrix(): (rows: seq<seq<real>>)
      requires Valid()
      reads this, Repr()
      ensures |rows| == trainX.nrows && Width(rows, numDim)
    {
      ScaledRows(trainX.Words(), trainX.nrows, numDim, decode, scaleX, xScale)
    }

    /** A cache entry for the current row count holds the current rows. */
    ghost predicate CacheFresh()
      requires Valid()
      reads this, Repr()
    {
      smallNXCache.Some? && smallNXCache.value.0 == trainX.nrows ==> smallNXCache.value.1 == Flatten(Matrix())
    }

    /** Reads and scales every row. */
    method ReadRows() returns (rows: seq<seq<real>>)
      requires Valid()
      ensures rows == Matrix()
    {
      rows := [];
      for i := 0 to trainX.nrows
        invariant Extent(i, numDim) <= |trainX.Words()|
        invariant rows == ScaledRows(trainX.Words(), i, numDim, decode, scaleX, xScale)
      {
        var row := trainX.RowSlice(i);
        ExtentGrows(i + 1, trainX.nrows, numDim);
        rows := rows + [ScaledRow(row.value, decode, scaleX, xScale)];
      }
    }

    method LoadOrBuildSmallNCache(n: nat) returns (flat: seq<real>)
      requires Valid() && n == trainX.nrows && n <= Search.SMALL_N_INCORE_SEARCH_LIMIT
      modifies this`smallNXCache
      ensures Valid() && (old(CacheFresh()) ==> CacheFresh() && flat == Flatten(Matrix()))
      ensures smallNXCache == Some((n, flat)) && |flat| == n * numDim
      ensures State() == old(State()) && Matrix() == old(Matrix())
    {
      if smallNXCache.Some? && smallNXCache.value.0 == n && |smallNXCache.value.1| == n * numDim {
        return smallNXCache.value.1;
      }
      var rows := ReadRows();
      FlattenSize(rows, numDim);
      flat := Flatten(rows);
      smallNXCache := Some((n, flat));
    }

    /** Few rows: one resident matrix answers all queries, which come scaled. */
    method SearchFlat(scaled: seq<seq<real>>, searchK: nat, excludeNearest: bool) returns (rows: seq<seq<Search.Hit>>)
      requires Valid() && CacheFresh() && Width(scaled, numDim) && trainX.nrows <= Search.SMALL_N_INCORE_SEARCH_LIMIT
      modifies this`smallNXCache
      ensures Valid() && CacheFresh() && State() == old(State()) && Matrix() == old(Matrix())
      ensures Search.AllAnswered(scaled, Matrix(), searchK, excludeNearest, rows)
    {
      var flat := LoadOrBuildSmallNCache(trainX.nrows);
      rows := Search.ScoreQueriesFlat(scaled, flat, Matrix(), trainX.nrows, numDim, searchK, excludeNearest);
    }

    /** A batch of queries: the flat scan while there are few rows, otherwise the indexed and the pending
        leg. With a fresh cache and an exact index every query gets the answer of the ranking of all
        current rows. */
    method SearchBatch(queries: seq<seq<real>>, searchK: nat, excludeNearest: bool, candidates: nat -> nat -> seq<Search.Hit>)
      returns (rows: seq<seq<Search.Hit>>)
      requires Valid() && CacheFresh() && Width(queries, numDim)
      requires Search.ExactIndex(ScaledQueries(queries, scaleX, xScale), Matrix(), indexedRows, candidates)
      modifies this`smallNXCache
      ensures Valid() && CacheFresh() && State() == old(State())
      ensures Search.AllAnswered(ScaledQueries(queries, scaleX, xScale), Matrix(), searchK, excludeNearest, rows)
      ensures Search.AllNearest(ScaledQueries(queries, scaleX, xScale), Matrix(), searchK, excludeNearest, rows)
      ensures !excludeNearest && searchK > 0 ==> AllStoredFound(queries, trainX.Words(), trainX.nrows, numDim, decode, rows)
    {
      hide Safe;
      var scaled := ScaledQueries(queries, scaleX, xScale);
      ghost var current := Matrix();
      if trainX.nrows == 0 {
        rows := seq(|queries|, _ => []);
        Search.NothingToFind(scaled, current, searchK, excludeNearest, rows);
        assert Search.AllAnswered(scaled, current, searchK, excludeNearest, rows);
      } else if trainX.nrows <= Search.SMALL_N_INCORE_SEARCH_LIMIT {
        rows := SearchFlat(scaled, searchK, excludeNearest);
        assert Search.AllAnswered(scaled, current, searchK, excludeNearest, rows);
      } else {
        var matrix := ReadRows();
        rows := Search.SearchAllIndexedAndPending(scaled, matrix, indexedRows, candidates, searchK, excludeNearest, scaleX);
        assert Search.AllAnswered(scaled, current, searchK, excludeNearest, rows);
      }
      assert current == Matrix() && scaled == ScaledQueries(queries, scaleX, xScale);
      Search.AnsweredIsNearest(scaled, current, searchK, excludeNearest, rows);
      if !excludeNearest && searchK > 0 {
        StoredAreFound(queries, trainX.Words(), trainX.nrows, numDim, decode, scaleX, xScale, searchK, rows);
      }
    }

    /** Switches the scaling. The index starts over, but the cache is left as it was: an entry for the
        current rows stays right exactly when no stored number notices the difference. */
    method EnsureIndexSyncWithScale(newScaleX: bool, newXScale: seq<real>)
      requires Valid() && |newXScale| == numDim && forall j | 0 <= j < numDim :: newXScale[j] != 0.0
      modifies this`scaleX, this`xScale, this`indexedRows, this`pendingUnindexed, this`indexDirty, dir
      ensures Valid() && scaleX == newScaleX && xScale == newXScale && smallNXCache == old(smallNXCache)
      ensures Quiet(old(dir.history), dir.history) && dir.files.data == old(dir.files.data)
      ensures State() == (if old(scaleX) != newScaleX || old(xScale) != newXScale
                          then EnsureSynced(Step(old(State()), IndexState.ResetIndex)) else EnsureSynced(old(State())))
      ensures old(CacheFresh()) && smallNXCache.Some? && smallNXCache.value.0 == trainX.nrows ==>
        (CacheFresh() <==> ScalingUnnoticed(trainX.Words(), trainX.nrows, numDim, decode, old(scaleX), old(xScale), newScaleX, newXScale))
    {
      if scaleX != newScaleX || xScale != newXScale {
        SwitchScale(newScaleX, newXScale);
      } else {
        SameScaling(trainX.Words(), trainX.nrows, numDim, decode, scaleX, xScale);
      }
      EnsureIndexSync();
    }

    method SwitchScale(newScaleX: bool, newXScale: seq<real>)
      requires Valid() && |newXScale| == numDim && forall j | 0 <= j < numDim :: newXScale[j] != 0.0
      modifies this`scaleX, this`xScale, this`indexedRows, this`pendingUnindexed, this`indexDirty
      ensures Valid() && scaleX == newScaleX && xScale == newXScale
      ensures State() == Step(old(State()), IndexState.ResetIndex)
      ensures old(CacheFresh()) && smallNXCache.Some? && smallNXCache.value.0 == trainX.nrows ==>
        (CacheFresh() <==> ScalingUnnoticed(trainX.Words(), trainX.nrows, numDim, decode, old(scaleX), old(xScale), newScaleX, newXScale))
    {
      hide Safe;
      StaleExactly(trainX.Words(), trainX.nrows, numDim, decode, scaleX, xScale, newScaleX, newXScale);
      scaleX := newScaleX;
      xScale := newXScale;
      ResetIndex();
    }
  }

  lemma SingleCells(v: Word)
    ensures Extent(0, 1) == 0 && Extent(1, 1) == 1 && Extent(2, 1) == 2 && Flatten([[v]]) == [v]
  {
    assert Extent(1, 1) == Extent(0, 1) + 1 && Extent(2, 1) == Extent(1, 1) + 1;
    assert [[v]][..0] == [];
  }

  /** A new directory with one row, with or without its variance. */
  method OpenWithRow(x: Word, y: Word, yvar: Yvar, decode: Word -> real) returns (backend: BpannBackend)
    requires yvar.Yvar? ==> Width(yvar.rows, yvar.cols) && |yvar.rows| == yvar.cols == 1
    ensures fresh(backend) && fresh(backend.dir) && fresh(backend.trainX) && fresh(backend.trainY)
    ensures backend.Valid() && backend.numDim == backend.numMetrics == 1 && backend.trainX.nrows == 1
    ensures backend.AllCommitted() && backend.YvarAligned() && Accounted(backend.State())
    ensures if yvar.NoYvar? then backend.trainYvar == null && Content(backend.dir.files, TrainYvar) == []
            else backend.trainYvar != null && fresh(backend.trainYvar)
  {
    SingleCells(x);
    var dir := new WorkDir(EmptyDirectory, 1, 1);
    var r := BpannBackend.Open(dir, [[x]], [[y]], yvar, false, [1.0], decode);
    backend := r.value;
  }

  /** A store whose index covers every row and has recorded it takes a batch that does not reach a
      threshold; a process that opens the directory after that has exactly the rows of the batch pending. */
  method PendingAfterReopen(backend: BpannBackend, x: seq<seq<Word>>, y: seq<seq<Word>>) returns (r: Result<BpannBackend, StoreError>)
    requires backend.Valid() && backend.AllCommitted() && backend.CoverageRecorded() && backend.indexedRows == backend.trainX.nrows
    requires backend.numDim <= MAX_NUM_DIM && backend.pendingUnindexed == 0
    requires x != [] && Width(x, backend.numDim) && Width(y, backend.numMetrics)
    requires backend.ShapeError(x, backend.numDim, y, backend.numMetrics).None?
    requires |x| < backend.pendingHardFlushThreshold && (backend.deferAppendIndexing || |x| < backend.pendingFlushThreshold)
    modifies backend, backend.dir, backend.trainX, backend.trainY, backend.trainYvar
    ensures r.Ok? && r.value.Valid() && r.value.trainX.nrows == old(backend.trainX.nrows) + |x|
    ensures r.value.indexedRows == old(backend.trainX.nrows) && r.value.pendingUnindexed == |x| && r.value.indexDirty
  {
    var appended := backend.AppendRows(x, backend.numDim, y, backend.numMetrics, NoYvar);
    r := BpannBackend.OpenFound(backend.dir.files, backend.numDim, backend.numMetrics, [], [], NoYvar,
                                backend.scaleX, backend.xScale, backend.decode);
  }

  /** A batch whose variances are refused: a first row is committed without any, a second one stays in
      memory and in the files, uncommitted and unaccounted for, because no file has a variance for the
      first. */
  method RefusedVariance(x: seq<Word>, y: seq<Word>, e: Word, decode: Word -> real) returns (backend: BpannBackend, r: Result<(), StoreError>)
    requires |x| == |y| == 2
    ensures r.Err? && backend.Valid() && backend.trainX.nrows == 2 && Committed(backend.dir.files) == 1
    ensures !Accounted(backend.State()) && backend.trainYvar == null
  {
    SingleCells(e);
    backend := OpenWithRow(x[0], y[0], NoYvar, decode);
    r := backend.AppendRows([[x[1]]], 1, [[y[1]]], 1, Yvar([[e]], 1));
  }

  /** A variance table that falls behind: a row with its variance, then one without. Both are committed, and
      the second cannot be read back. */
  method VarianceFallsBehind(x: seq<Word>, y: seq<Word>, e: Word, decode: Word -> real)
    returns (backend: BpannBackend, r: Result<Gathered, StoreError>)
    requires |x| == |y| == 2
    ensures backend.Valid() && backend.trainX.nrows == 2 && backend.AllCommitted()
    ensures !backend.YvarAligned() && r.Err?
  {
    backend := OpenWithRow(x[0], y[0], Yvar([[e]], 1), decode);
    var second := backend.AppendRows([[x[1]]], 1, [[y[1]]], 1, NoYvar);
    var indices := [1];
    assert indices[0] == 1;
    r := backend.TrainRowsAt(indices);
  }

  /** A process that stops between the metadata file and the counter of a new directory with one row. */
  method StoppedBeforeCounter(x: Word, y: Word, decode: Word -> real) returns (run: WorkDir, ghost i: nat, left: Files)
    ensures run.Valid() && run.numDim == run.numMetrics == 1 && i < |run.history| && run.history[i].files == left
    ensures Sound(left, 1, 1) && run.history[i].view == ViewOf(left, 1, 1) == View(1, [x], [y])
    ensures Sidecar(left) == 0
  {
    SingleCells(x);
    SingleCells(y);
    run := new WorkDir(EmptyDirectory, 1, 1);
    var r := BpannBackend.Open(run, [[x]], [[y]], NoYvar, false, [1.0], decode);
    i := |run.history| - 2;
    SafeAt(run.history, 1, 1, i);
    left := run.files.(numObsBin := Some(0));
  }

  /** A process that stops while it rewrites the metadata file of a directory where the sidecar counts nothing. */
  method StoppedInMetadata(found: Files, decode: Word -> real) returns (run: WorkDir, ghost j: nat, left: Files)
    requires Sound(found, 1, 1) && Sidecar(found) == 0 && Committed(found) == 1
    ensures run.Valid() && run.history[0] == Moment(found, ViewOf(found, 1, 1))
    ensures j < |run.history| && run.history[j].files == left
    ensures Sound(left, 1, 1) && run.history[j].view == ViewOf(left, 1, 1) && Committed(left) == 0
    ensures Extent(1, 1) <= |Content(left, TrainX)| && Content(left, TrainX)[..Extent(1, 1)] == CommittedWords(found, TrainX, 1)
  {
    run := new WorkDir(found, 1, 1);
    var r := BpannBackend.Open(run, [], [], NoYvar, false, [1.0], decode);
    j := |run.history| - 3;
    SafeAt(run.history, 1, 1, j);
    left := run.files.(numObsBin := Some(0), metadata := Empty);
  }

  /** A directory with nothing committed is opened empty, and the words its file holds all the same are touched. */
  method OpenUncommitted(found: Files, decode: Word -> real) returns (backend: BpannBackend)
    requires Sound(found, 1, 1) && Committed(found) == 0
    ensures backend.Valid() && backend.trainX.nrows == 0
    ensures backend.dir.history != [] && backend.dir.history[0] == Moment(found, ViewOf(found, 1, 1))
    ensures TouchedStart(Content(found, TrainX), Content(backend.dir.files, TrainX))
  {
    var dir := new WorkDir(found, 1, 1);
    var r := BpannBackend.Open(dir, [], [], NoYvar, false, [1.0], decode);
    backend := r.value;
  }

  /** Two crashes that lose a committed row. The first strikes between the metadata file and the counter
      of a directory opened with one row, the second while the next process rewrites the metadata; the
      third process finds nothing committed and touches the page that holds the row. */
  method TwoCrashesLoseRow(x: Word, y: Word, decode: Word -> real)
    returns (run1: WorkDir, ghost i: nat, run2: WorkDir, ghost j: nat, last: BpannBackend)
    ensures run1.Valid() && i < |run1.history| && run1.history[i].view == View(1, [x], [y])
    ensures run2.Valid() && j < |run2.history| && run2.history[0] == run1.history[i] && run2.history[j].view.n == 0
    ensures last.Valid() && last.dir.history != [] && last.dir.history[0] == run2.history[j]
    ensures last.trainX.nrows == 0 && 0 < |Content(last.dir.files, TrainX)|
    ensures Content(last.dir.files, TrainX)[0] == ClearLowByte(x)
  {
    SingleCells(x);
    var left1, left2;
    run1, i, left1 := StoppedBeforeCounter(x, y, decode);
    run2, j, left2 := StoppedInMetadata(left1, decode);
    assert Content(left2, TrainX)[..1] == [x];
    assert Content(left2, TrainX)[0] == x;
    last := OpenUncommitted(left2, decode);
  }

  /** What moment `i` of a history shows of all the moments before. */
  lemma SurvivesUntil(history: seq<Moment>, numDim: nat, numMetrics: nat, i: nat)
    requires Safe(history, numDim, numMetrics) && i < |history|
    ensures Sound(history[i].files, numDim, numMetrics) && history[i].view == ViewOf(history[i].files, numDim, numMetrics)
    ensures forall j | 0 <= j <= i ::
              && Sound(history[j].files, numDim, numMetrics)
              && Grows(CountedView(history[j].files, numDim, numMetrics), history[i].view)
    ensures (forall k | 0 < k <= i :: CutsSettled(history, k)) ==>
              forall j | 0 <= j <= i :: Grows(history[j].view, history[i].view)
  {
    SafeAt(history, numDim, numMetrics, i);
    forall j | 0 <= j <= i
      ensures && Sound(history[j].files, numDim, numMetrics)
              && Grows(CountedView(history[j].files, numDim, numMetrics), history[i].view)
    {
      CountedRowsSurvive(history, numDim, numMetrics, j, i);
    }
    if forall k | 0 < k <= i :: CutsSettled(history, k) {
      forall j | 0 <= j <= i ensures Grows(history[j].view, history[i].view) {
        SafeAt(history, numDim, numMetrics, j);
        CommittedRowsSurvive(history, numDim, numMetrics, j, i);
      }
    }
  }

  /** A stored row as the search reads it: decoded and, if asked, divided by the scale. */
  function ScaledRow(row: seq<Word>, decode: Word -> real, scaled: bool, scale: seq<real>): (r: seq<real>)
    requires |scale| == |row| && forall j | 0 <= j < |scale| :: scale[j] != 0.0
    ensures |r| == |row| && forall j | 0 <= j < |row| :: r[j] == decode(row[j]) / Divisor(scaled, scale, j)
  {
    seq(|row|, j requires 0 <= j < |row| => if scaled then decode(row[j]) / scale[j] else decode(row[j]))
  }

  function Decoded(row: seq<Word>, decode: Word -> real): (r: seq<real>)
    ensures |r| == |row|
  {
    seq(|row|, j requires 0 <= j < |row| => decode(row[j]))
  }

  /** Stored rows and queries are scaled alike. */
  lemma StoredAsQuery(row: seq<Word>, decode: Word -> real, scaled: bool, scale: seq<real>)
    requires |scale| == |row| && forall j | 0 <= j < |scale| :: scale[j] != 0.0
    ensures ScaledRow(row, decode, scaled, scale) == Scaled(Decoded(row, decode), scaled, scale)
  {
  }

  function ScaledQueries(queries: seq<seq<real>>, scaled: bool, scale: seq<real>): (r: seq<seq<real>>)
    requires Width(queries, |scale|) && forall j | 0 <= j < |scale| :: scale[j] != 0.0
    ensures |r| == |queries| && Width(r, |scale|) && forall q | 0 <= q < |r| :: r[q] == Scaled(queries[q], scaled, scale)
  {
    seq(|queries|, q requires 0 <= q < |queries| => Scaled(queries[q], scaled, scale))
  }

  ghost function RowWords(words: seq<Word>, i: nat, cols: nat): (row: seq<Word>)
    requires Extent(i, cols) + cols <= |words|
    ensures |row| == cols
  {
    words[Extent(i, cols)..Extent(i, cols) + cols]
  }

  ghost function ScaledRows(words: seq<Word>, n: nat, cols: nat, decode: Word -> real, scaled: bool, scale: seq<real>): (rows: seq<seq<real>>)
    requires Extent(n, cols) <= |words| && |scale| == cols && forall j | 0 <= j < cols :: scale[j] != 0.0
    ensures |rows| == n && Width(rows, cols)
  {
    if n == 0 then [] else
      ScaledRows(words, n - 1, cols, decode, scaled, scale) + [ScaledRow(RowWords(words, n - 1, cols), decode, scaled, scale)]
  }

  lemma {:induction false} ScaledRowAt(words: seq<Word>, n: nat, cols: nat, decode: Word -> real, scaled: bool, scale: seq<real>, i: nat)
    requires Extent(n, cols) <= |words| && |scale| == cols && (forall j | 0 <= j < cols :: scale[j] != 0.0) && i < n
    ensures Extent(i, cols) + cols <= |words|
    ensures ScaledRows(words, n, cols, decode, scaled, scale)[i] == ScaledRow(RowWords(words, i, cols), decode, scaled, scale)
  {
    ExtentGrows(i + 1, n, cols);
    if i < n - 1 {
      ScaledRowAt(words, n - 1, cols, decode, scaled, scale, i);
    }
  }

  /** A query that is a stored row is answered with distance zero and the lowest such row first. */
  ghost predicate StoredFound(query: seq<real>, words: seq<Word>, n: nat, cols: nat, decode: Word -> real, row: seq<Search.Hit>)
    requires Extent(n, cols) <= |words|
  {
    forall i: nat | HoldsRow(query, words, n, cols, decode, i) ::
      row != [] && row[0].dist == 0.0 && row[0].id <= i && HoldsRow(query, words, n, cols, decode, row[0].id)
  }

  ghost predicate HoldsRow(query: seq<real>, words: seq<Word>, n: nat, cols: nat, decode: Word -> real, i: nat) {
    i < n && Extent(i, cols) + cols <= |words| && Decoded(RowWords(words, i, cols), decode) == query
  }

  ghost predicate AllStoredFound(queries: seq<seq<real>>, words: seq<Word>, n: nat, cols: nat, decode: Word -> real, rows: seq<seq<Search.Hit>>)
    requires Extent(n, cols) <= |words|
  {
    |rows| == |queries| && forall q | 0 <= q < |rows| :: StoredFound(queries[q], words, n, cols, decode, rows[q])
  }

  /** Scaling makes rows equal exactly when they were. */
  lemma HoldsScaled(query: seq<real>, words: seq<Word>, n: nat, cols: nat, decode: Word -> real, scaled: bool, scale: seq<real>, i: nat)
    requires Extent(n, cols) <= |words| && |query| == |scale| == cols && (forall j | 0 <= j < cols :: scale[j] != 0.0) && i < n
    ensures HoldsRow(query, words, n, cols, decode, i)
       <==> ScaledRows(words, n, cols, decode, scaled, scale)[i] == Scaled(query, scaled, scale)
  {
    ScaledRowAt(words, n, cols, decode, scaled, scale, i);
    var row := RowWords(words, i, cols);
    StoredAsQuery(row, decode, scaled, scale);
    ScaledEqual(Decoded(row, decode), query, scaled, scale);
  }

  lemma StoredIsFound(query: seq<real>, words: seq<Word>, n: nat, cols: nat, decode: Word -> real, scaled: bool, scale: seq<real>, row: seq<Search.Hit>)
    requires Extent(n, cols) <= |words| && |query| == |scale| == cols && forall j | 0 <= j < cols :: scale[j] != 0.0
    requires Search.FindsItself(Scaled(query, scaled, scale), ScaledRows(words, n, cols, decode, scaled, scale), row)
    ensures StoredFound(query, words, n, cols, decode, row)
  {
    forall i: nat | HoldsRow(query, words, n, cols, decode, i)
      ensures row != [] && row[0].dist == 0.0 && row[0].id <= i && HoldsRow(query, words, n, cols, decode, row[0].id)
    {
      HoldsScaled(query, words, n, cols, decode, scaled, scale, i);
      HoldsScaled(query, words, n, cols, decode, scaled, scale, row[0].id);
    }
  }

  lemma StoredAreFound(queries: seq<seq<real>>, words: seq<Word>, n: nat, cols: nat, decode: Word -> real, scaled: bool, scale: seq<real>,
                       k: nat, rows: seq<seq<Search.Hit>>)
    requires Extent(n, cols) <= |words| && |scale| == cols && (forall j | 0 <= j < cols :: scale[j] != 0.0) && Width(queries, cols) && k > 0
    requires Search.AllAnswered(ScaledQueries(queries, scaled, scale), ScaledRows(words, n, cols, decode, scaled, scale), k, false, rows)
    ensures AllStoredFound(queries, words, n, cols, decode, rows)
  {
    Search.AnsweredIsFound(ScaledQueries(queries, scaled, scale), ScaledRows(words, n, cols, decode, scaled, scale), cols, k, rows);
    forall q | 0 <= q < |rows| ensures StoredFound(queries[q], words, n, cols, decode, rows[q]) {
      StoredIsFound(queries[q], words, n, cols, decode, scaled, scale, rows[q]);
    }
  }

  /** Every stored number is zero or has the same divisor before and after. */
  ghost predicate ScalingUnnoticed(words: seq<Word>, n: nat, cols: nat, decode: Word -> real,
                                   s0: bool, x0: seq<real>, s1: bool, x1: seq<real>)
    requires Extent(n, cols) <= |words| && |x0| == cols && |x1| == cols
    requires forall j | 0 <= j < cols :: x0[j] != 0.0 && x1[j] != 0.0
  {
    forall i | 0 <= i < n :: RowUnnoticed(words, i, cols, decode, s0, x0, s1, x1)
  }

  ghost predicate RowUnnoticed(words: seq<Word>, i: nat, cols: nat, decode: Word -> real,
                               s0: bool, x0: seq<real>, s1: bool, x1: seq<real>)
    requires |x0| == cols && |x1| == cols && forall j | 0 <= j < cols :: x0[j] != 0.0 && x1[j] != 0.0
  {
    Extent(i, cols) + cols <= |words| &&
    forall j | 0 <= j < cols :: decode(RowWords(words, i, cols)[j]) == 0.0 || Divisor(s0, x0, j) == Divisor(s1, x1, j)
  }

  lemma SameScaling(words: seq<Word>, n: nat, cols: nat, decode: Word -> real, s: bool, x: seq<real>)
    requires Extent(n, cols) <= |words| && |x| == cols && forall j | 0 <= j < cols :: x[j] != 0.0
    ensures ScalingUnnoticed(words, n, cols, decode, s, x, s, x)
  {
    forall i | 0 <= i < n ensures RowUnnoticed(words, i, cols, decode, s, x, s, x) {
      ExtentGrows(i + 1, n, cols);
    }
  }

  lemma SameQuotient(v: real, a: real, b: real)
    requires a != 0.0 && b != 0.0
    ensures v / a == v / b <==> v == 0.0 || a == b
  {
    if v / a == v / b {
      assert v * b == v / a * a * b == v / b * b * a == v * a;
      assert v * (b - a) == 0.0;
    }
  }

  lemma RowNotices(words: seq<Word>, i: nat, cols: nat, decode: Word -> real, s0: bool, x0: seq<real>, s1: bool, x1: seq<real>)
    requires Extent(i, cols) + cols <= |words| && |x0| == cols && |x1| == cols
    requires forall j | 0 <= j < cols :: x0[j] != 0.0 && x1[j] != 0.0
    ensures ScaledRow(RowWords(words, i, cols), decode, s0, x0) == ScaledRow(RowWords(words, i, cols), decode, s1, x1)
       <==> RowUnnoticed(words, i, cols, decode, s0, x0, s1, x1)
  {
    var row := RowWords(words, i, cols);
    var a, b := ScaledRow(row, decode, s0, x0), ScaledRow(row, decode, s1, x1);
    forall j | 0 <= j < cols ensures a[j] == b[j] <==> decode(row[j]) == 0.0 || Divisor(s0, x0, j) == Divisor(s1, x1, j) {
      SameQuotient(decode(row[j]), Divisor(s0, x0, j), Divisor(s1, x1, j));
    }
  }

  /** The flat matrices under two scalings agree exactly when no stored number notices the difference. */
  lemma StaleExactly(words: seq<Word>, n: nat, cols: nat, decode: Word -> real, s0: bool, x0: seq<real>, s1: bool, x1: seq<real>)
    requires Extent(n, cols) <= |words| && |x0| == cols && |x1| == cols
    requires forall j | 0 <= j < cols :: x0[j] != 0.0 && x1[j] != 0.0
    ensures Flatten(ScaledRows(words, n, cols, decode, s0, x0)) == Flatten(ScaledRows(words, n, cols, decode, s1, x1))
       <==> ScalingUnnoticed(words, n, cols, decode, s0, x0, s1, x1)
  {
    var a, b := ScaledRows(words, n, cols, decode, s0, x0), ScaledRows(words, n, cols, decode, s1, x1);
    forall i | 0 <= i < n ensures a[i] == b[i] <==> RowUnnoticed(words, i, cols, decode, s0, x0, s1, x1) {
      ScaledRowAt(words, n, cols, decode, s0, x0, i);
      ScaledRowAt(words, n, cols, decode, s1, x1, i);
      RowNotices(words, i, cols, decode, s0, x0, s1, x1);
    }
    FlattenInjective(a, b, cols);
  }

  /** One stored value of 1, first unscaled and then divided by 2. */
  lemma StaleExample(one: Word, decode: Word -> real)
    requires decode(one) == 1.0
    ensures Extent(1, 1) == 1
    ensures Flatten(ScaledRows([one], 1, 1, decode, false, [1.0])) != Flatten(ScaledRows([one], 1, 1, decode, true, [2.0]))
  {
    assert Extent(0, 1) == 0 && Extent(1, 1) == 1;
    StaleExactly([one], 1, 1, decode, false, [1.0], true, [2.0]);
    assert RowWords([one], 0, 1) == [one];
    assert !RowUnnoticed([one], 0, 1, decode, false, [1.0], true, [2.0]) by {
      assert Divisor(false, [1.0], 0) != Divisor(true, [2.0], 0);
    }
  }

  lemma FlattenInjective(a: seq<seq<real>>, b: seq<seq<real>>, cols: nat)
    requires Width(a, cols) && Width(b, cols) && |a| == |b|
    ensures Flatten(a) == Flatten(b) <==> forall i | 0 <= i < |a| :: a[i] == b[i]
  {
    if Flatten(a) == Flatten(b) {
      forall i | 0 <= i < |a| ensures a[i] == b[i] {
        FlatRow(a, cols, i);
        FlatRow(b, cols, i);
      }
    } else {
      assert a != b;
    }
  }
}
