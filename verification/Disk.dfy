/**
 The files of a working directory and what a store opened on them would see. A data file is
 an array of 64-bit words in row-major order; the rows that count are the committed ones,
 and the committed count is the larger of the sidecar counter and the metadata field.
 Behind the committed rows may be anything: it is what an interrupted append leaves.
 A metadata file may have been cut down to nothing by a write that did not get further.
 */
module Disk {
  import opened Layout
  import opened Wrappers

  datatype FileId = TrainX | TrainY | TrainYvar

  datatype Metadata = Metadata(numObs: nat, numDim: nat, numMetrics: nat, scaleX: bool, indexedRows: nat)

  /** The metadata file: absent, emptied by a write that has just begun, or written. */
  datatype MetaFile = Missing | Empty | Whole(meta: Metadata)

  /** A counter file of the wrong length reads like an absent one. */
  datatype Files = Files(
    data: map<FileId, seq<Word>>,
    numObsBin: Option<nat>,
    indexedRowsBin: Option<nat>,
    indexHeader: Option<nat>,
    metadata: MetaFile)

  const EmptyDirectory := Files(map[], None, None, None, Missing)

  /** The content of a data file; a missing file counts as empty. */
  function Content(f: Files, id: FileId): seq<Word> {
    if id in f.data then f.data[id] else []
  }

  function OrZero(n: Option<nat>): nat {
    if n.Some? then n.value else 0
  }

  /** The larger of the two recorded counts, or the one there is. */
  function LargerCount(sidecar: Option<nat>, meta: Option<nat>): Option<nat> {
    match (sidecar, meta)
    case (Some(s), Some(m)) => Some(if s >= m then s else m)
    case (Some(s), None) => Some(s)
    case (None, Some(m)) => Some(m)
    case (None, None) => None
  }

  function LoadNumObs(f: Files): Option<nat> {
    LargerCount(f.numObsBin, if f.metadata.Whole? then Some(f.metadata.meta.numObs) else None)
  }

  function LoadIndexedRows(f: Files): Option<nat> {
    if f.indexedRowsBin.Some? then f.indexedRowsBin
    else if f.metadata.Whole? then Some(f.metadata.meta.indexedRows)
    else None
  }

  /** The count in the sidecar alone. */
  function Sidecar(f: Files): nat {
    OrZero(f.numObsBin)
  }

  /** The sidecar counts every row that the metadata counts. */
  ghost predicate Settled(f: Files) {
    f.metadata.Whole? ==> f.metadata.meta.numObs <= Sidecar(f)
  }

  /** The committed row count: opening creates a zero counter when nothing is recorded. */
  function Committed(f: Files): nat {
    OrZero(LoadNumObs(f))
  }

  /** Every committed row is really in the file. */
  ghost predicate Holds(f: Files, id: FileId, cols: nat) {
    Extent(Committed(f), cols) <= |Content(f, id)|
  }

  /** The committed count is the largest that is recorded: the sidecar's, the metadata's, or zero. */
  lemma CommittedIsLargest(f: Files)
    ensures f.numObsBin.Some? ==> f.numObsBin.value <= Committed(f)
    ensures f.metadata.Whole? ==> f.metadata.meta.numObs <= Committed(f)
    ensures || Committed(f) == 0 || f.numObsBin == Some(Committed(f))
            || (f.metadata.Whole? && f.metadata.meta.numObs == Committed(f))
  {
  }

  /** Metadata, where there is any, records these dimensions. */
  ghost predicate Describes(f: Files, numDim: nat, numMetrics: nat) {
    f.metadata.Whole? ==> f.metadata.meta.numDim == numDim && f.metadata.meta.numMetrics == numMetrics
  }

  /** A directory whose files reach to the committed rows when they are this wide. */
  ghost predicate Sound(f: Files, numDim: nat, numMetrics: nat) {
    Holds(f, TrainX, numDim) && Holds(f, TrainY, numMetrics)
  }

  /** The committed rows, as words. */
  ghost function CommittedWords(f: Files, id: FileId, cols: nat): (words: seq<Word>)
    requires Holds(f, id, cols)
  {
    Content(f, id)[..Extent(Committed(f), cols)]
  }

  /** What a store opened on a directory sees: the committed rows of the two train files. */
  datatype View = View(n: nat, x: seq<Word>, y: seq<Word>)

  ghost function ViewOf(f: Files, numDim: nat, numMetrics: nat): View
    requires Sound(f, numDim, numMetrics)
  {
    View(Committed(f), CommittedWords(f, TrainX, numDim), CommittedWords(f, TrainY, numMetrics))
  }

  /** Nothing committed is lost or changed. */
  ghost predicate Grows(v: View, w: View) {
    v.n <= w.n && v.x <= w.x && v.y <= w.y
  }

  /** Whatever happens to a data file past its committed rows, a torn or half-finished write
      included, what a store opened afterwards sees does not change. */
  lemma UncommittedWordsDoNotMatter(f: Files, id: FileId, words: seq<Word>, numDim: nat, numMetrics: nat)
    requires Sound(f, numDim, numMetrics)
    requires id == TrainX ==> KeepsPrefix(f, id, numDim, words)
    requires id == TrainY ==> KeepsPrefix(f, id, numMetrics, words)
    ensures var g := f.(data := f.data[id := words]);
      Sound(g, numDim, numMetrics) && ViewOf(g, numDim, numMetrics) == ViewOf(f, numDim, numMetrics)
  {
    var g := f.(data := f.data[id := words]);
    assert Content(g, id) == words;
    assert forall other | other != id :: Content(g, other) == Content(f, other);
  }

  /** `words` start with the committed rows of the file. */
  ghost predicate KeepsPrefix(f: Files, id: FileId, cols: nat, words: seq<Word>) {
    && Holds(f, id, cols) && Extent(Committed(f), cols) <= |words|
    && words[..Extent(Committed(f), cols)] == CommittedWords(f, id, cols)
  }

  /** Raising the committed count is safe exactly as far as both files reach. */
  lemma RaisingCountIsSafe(f: Files, g: Files, n: nat, numDim: nat, numMetrics: nat)
    requires Sound(f, numDim, numMetrics) && g.data == f.data
    requires Committed(f) <= n == Committed(g)
    ensures Sound(g, numDim, numMetrics) <==>
      Extent(n, numDim) <= |Content(f, TrainX)| && Extent(n, numMetrics) <= |Content(f, TrainY)|
    ensures Sound(g, numDim, numMetrics) ==> Grows(ViewOf(f, numDim, numMetrics), ViewOf(g, numDim, numMetrics))
    ensures Sound(g, numDim, numMetrics) && n == Committed(f) ==> ViewOf(f, numDim, numMetrics) == ViewOf(g, numDim, numMetrics)
  {
    if Sound(g, numDim, numMetrics) {
      ExtentGrows(Committed(f), n, numDim);
      ExtentGrows(Committed(f), n, numMetrics);
      PrefixesNest(Content(f, TrainX), Extent(Committed(f), numDim), Extent(n, numDim));
      PrefixesNest(Content(f, TrainY), Extent(Committed(f), numMetrics), Extent(n, numMetrics));
    }
  }

  /** Rows that are at most as wide as the stored ones are always found, and those of another width show
      other words, unless nothing is committed. */
  lemma OtherDimensions(f: Files, numDim: nat, numMetrics: nat, numDim': nat, numMetrics': nat)
    requires Sound(f, numDim, numMetrics)
    ensures numDim' <= numDim && numMetrics' <= numMetrics ==> Sound(f, numDim', numMetrics')
    ensures Sound(f, numDim', numMetrics') ==>
      (ViewOf(f, numDim', numMetrics') == ViewOf(f, numDim, numMetrics)
       <==> Committed(f) == 0 || (numDim' == numDim && numMetrics' == numMetrics))
  {
    ExtentWidens(Committed(f), numDim', numDim);
    ExtentWidens(Committed(f), numMetrics', numMetrics);
    if Sound(f, numDim', numMetrics') {
      SameWords(Content(f, TrainX), Extent(Committed(f), numDim'), Extent(Committed(f), numDim));
      SameWords(Content(f, TrainY), Extent(Committed(f), numMetrics'), Extent(Committed(f), numMetrics));
    }
  }

  lemma SameWords(s: seq<Word>, a: nat, b: nat)
    requires a <= |s| && b <= |s|
    ensures s[..a] == s[..b] <==> a == b
  {
    assert |s[..a]| == a && |s[..b]| == b;
  }

  lemma ExtentWidens(n: nat, a: nat, b: nat)
    ensures a <= b ==> Extent(n, a) <= Extent(n, b)
    ensures Extent(n, a) == Extent(n, b) <==> n == 0 || a == b
  {
    ExtentIsProduct(n, a);
    ExtentIsProduct(n, b);
    if a < b {
      assert n * b == n * a + n * (b - a);
    } else if b < a {
      assert n * a == n * b + n * (a - b);
    }
  }

  /** Cutting the metadata file down to nothing hides rows exactly when the sidecar had not counted
      them yet: what stays visible is what the sidecar counts. */
  lemma TruncationKeepsExactly(f: Files, numDim: nat, numMetrics: nat)
    requires Sound(f, numDim, numMetrics)
    ensures var g := f.(metadata := Empty);
      && Sound(g, numDim, numMetrics) && Committed(g) == Sidecar(f) <= Committed(f)
      && (ViewOf(g, numDim, numMetrics) == ViewOf(f, numDim, numMetrics) <==> Settled(f))
      && (Settled(f) <==> Committed(f) == Sidecar(f))
      && Grows(ViewOf(g, numDim, numMetrics), ViewOf(f, numDim, numMetrics))
  {
    ExtentGrows(Sidecar(f), Committed(f), numDim);
    ExtentGrows(Sidecar(f), Committed(f), numMetrics);
    RaisingCountIsSafe(f.(metadata := Empty), f, Committed(f), numDim, numMetrics);
  }

  /** The rows that the sidecar alone counts. */
  ghost function CountedView(f: Files, numDim: nat, numMetrics: nat): View
    requires Sound(f, numDim, numMetrics)
  {
    TruncationKeepsExactly(f, numDim, numMetrics);
    ViewOf(f.(metadata := Empty), numDim, numMetrics)
  }

  lemma PrefixesNest(s: seq<Word>, a: nat, b: nat)
    requires a <= b <= |s|
    ensures s[..a] <= s[..b]
  {
  }
}
