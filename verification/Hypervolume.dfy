/**
 The two-objective hypervolume sweep over integer objectives, proved to be the true
 measure: the number of unit lattice cells above the reference point that lie below
 at least one input point.
 */
module Hypervolume {
  import Sorting
  import opened Wrappers

  datatype Point = Point(x: int, y: int)

  datatype HypervolumeError = InvalidColumnCount | InvalidRefPoint

  // ---- The measure ---------------------------------------------------------

  predicate Under(c: Point, p: Point) {
    c.x < p.x && c.y < p.y
  }

  ghost predicate Covered(points: seq<Point>, ref: Point, c: Point) {
    ref.x <= c.x && ref.y <= c.y && exists p :: p in points && Under(c, p)
  }

  ghost predicate InBox(c: Point, p: Point, ref: Point) {
    ref.x <= c.x && ref.y <= c.y && Under(c, p)
  }

  lemma CoverLast(points: seq<Point>, ref: Point, p: Point, c: Point)
    ensures Covered(points + [p], ref, c) <==> Covered(points, ref, c) || InBox(c, p, ref)
  {
    if Covered(points, ref, c) {
      var q :| q in points && Under(c, q);
      assert q in points + [p];
    }
    if InBox(c, p, ref) {
      assert p in points + [p];
    }
  }

  ghost predicate IsCover(cells: set<Point>, points: seq<Point>, ref: Point) {
    forall c :: c in cells <==> Covered(points, ref, c)
  }

  /** The union of the boxes between the reference point and each input point. */
  ghost function Cells(points: seq<Point>, ref: Point): (cells: set<Point>)
    ensures IsCover(cells, points, ref)
  {
    CoverExists(points, ref);
    var cells :| IsCover(cells, points, ref);
    cells
  }

  /** Finitely many points cover finitely many cells. */
  lemma {:induction false} CoverExists(points: seq<Point>, ref: Point)
    ensures exists cells :: IsCover(cells, points, ref)
  {
    if points == [] {
      assert IsCover({}, points, ref);
    } else {
      var last := points[|points| - 1];
      var rest := points[..|points| - 1];
      CoverExists(rest, ref);
      var cells :| IsCover(cells, rest, ref);
      var box: set<Point> := Rect(ref.x, last.x, ref.y, last.y);
      assert points == rest + [last];
      forall c ensures c in cells + box <==> Covered(points, ref, c) {
        CoverLast(rest, ref, last, c);
      }
      assert IsCover(cells + box, points, ref);
    }
  }

  ghost predicate IsRect(cells: set<Point>, x0: int, x1: int, lo: int, hi: int) {
    forall c :: c in cells <==> x0 <= c.x < x1 && lo <= c.y < hi
  }

  /** The area of a rectangle, column by column. */
  ghost function Area(width: nat, height: int): int {
    if width == 0 then 0 else Area(width - 1, height) + height
  }

  lemma {:induction false} AreaIsProduct(width: nat, height: int)
    ensures Area(width, height) == width * height
  {
    if width > 0 {
      AreaIsProduct(width - 1, height);
      assert width * height == (width - 1) * height + height;
    }
  }

  lemma {:induction false} Column(x: int, lo: int, hi: int) returns (cells: set<Point>)
    requires lo <= hi
    ensures IsRect(cells, x, x + 1, lo, hi) && |cells| == hi - lo
    decreases hi - lo
  {
    if lo == hi {
      cells := {};
    } else {
      cells := Column(x, lo, hi - 1);
      cells := cells + {Point(x, hi - 1)};
    }
  }

  lemma {:induction false} Rect(x0: int, x1: int, lo: int, hi: int) returns (cells: set<Point>)
    ensures IsRect(cells, x0, x1, lo, hi)
    ensures x0 <= x1 && lo <= hi ==> |cells| == Area(x1 - x0, hi - lo)
    decreases x1 - x0
  {
    if x1 <= x0 || hi < lo {
      cells := {};
    } else {
      var left := Rect(x0, x1 - 1, lo, hi);
      var last := Column(x1 - 1, lo, hi);
      cells := left + last;
      DisjointSum(cells, left, last);
    }
  }

  // ---- The sweep -----------------------------------------------------------

  predicate FurtherRight(a: Point, b: Point) {
    a.x >= b.x
  }

  /** Points sorted by first objective descending, all strictly above the reference. */
  ghost predicate Frontier(d: seq<Point>, ref: Point) {
    && (forall i | 0 <= i < |d| :: d[i].x > ref.x && d[i].y > ref.y)
    && (forall i, j | 0 <= i < j < |d| :: d[i].x >= d[j].x)
  }

  function StripEnd(d: seq<Point>, ref: Point, i: nat): int {
    if i < |d| then d[i].x else ref.x
  }

  ghost function RightOf(cells: set<Point>, x: int): (r: set<Point>) {
    set c | c in cells && c.x >= x
  }

  /** The height of the frontier after the first `i` points. */
  ghost function Height(d: seq<Point>, ref: Point, i: nat): (best: int)
    requires i <= |d|
    ensures Highest(d, ref, i, best)
  {
    if i == 0 then ref.y
    else if d[i - 1].y > Height(d, ref, i - 1) then d[i - 1].y
    else Height(d, ref, i - 1)
  }

  /** What the sweep has accumulated after the first `i` points. */
  ghost function StripSum(d: seq<Point>, ref: Point, i: nat): int
    requires Frontier(d, ref) && i <= |d|
  {
    if i == 0 then 0
    else StripSum(d, ref, i - 1) + Area(d[i - 1].x - StripEnd(d, ref, i), Height(d, ref, i) - ref.y)
  }

  ghost predicate Highest(d: seq<Point>, ref: Point, i: nat, best: int)
    requires i <= |d|
  {
    && best >= ref.y
    && (forall q | 0 <= q < i :: d[q].y <= best)
    && (best == ref.y || exists q :: 0 <= q < i && d[q].y == best)
  }

  /** Left of point `i`, all points so far count, so a column is covered up to the best height. */
  lemma StripCovered(d: seq<Point>, ref: Point, i: nat, best: int, c: Point)
    requires Frontier(d, ref) && i < |d| && Highest(d, ref, i + 1, best)
    requires ref.x <= c.x < d[i].x
    ensures Covered(d[..i + 1], ref, c) <==> ref.y <= c.y < best
  {
    if ref.y <= c.y < best {
      var q :| 0 <= q < i + 1 && d[q].y == best;
      assert d[..i + 1][q] == d[q] && Under(c, d[q]);
    }
    if Covered(d[..i + 1], ref, c) {
      var p :| p in d[..i + 1] && Under(c, p);
      var q :| 0 <= q < i + 1 && d[..i + 1][q] == p;
    }
  }

  lemma StripCell(d: seq<Point>, ref: Point, i: nat, best: int, c: Point)
    requires Frontier(d, ref) && i < |d| && Highest(d, ref, i + 1, best)
    ensures Covered(d[..i + 1], ref, c) && c.x >= StripEnd(d, ref, i + 1) <==>
      || (Covered(d[..i], ref, c) && c.x >= d[i].x)
      || (StripEnd(d, ref, i + 1) <= c.x < d[i].x && ref.y <= c.y < best)
  {
    assert d[..i + 1] == d[..i] + [d[i]];
    CoverLast(d[..i], ref, d[i], c);
    if StripEnd(d, ref, i + 1) <= c.x < d[i].x {
      StripCovered(d, ref, i, best, c);
    }
  }

  /** One strip: moving left from point `i` to the next adds a full-height rectangle. */
  lemma Strip(d: seq<Point>, ref: Point, i: nat, best: int)
    requires Frontier(d, ref) && i < |d| && Highest(d, ref, i + 1, best)
    ensures |RightOf(Cells(d[..i + 1], ref), StripEnd(d, ref, i + 1))|
         == |RightOf(Cells(d[..i], ref), d[i].x)| + Area(d[i].x - StripEnd(d, ref, i + 1), best - ref.y)
  {
    var end := StripEnd(d, ref, i + 1);
    var was := RightOf(Cells(d[..i], ref), d[i].x);
    var strip: set<Point> := Rect(end, d[i].x, ref.y, best);
    var now := RightOf(Cells(d[..i + 1], ref), end);
    forall c ensures c in now <==> c in was || c in strip {
      StripCell(d, ref, i, best, c);
    }
    DisjointSum(now, was, strip);
  }

  /** The accumulated strips are the covered cells to the right of the sweep line. */
  lemma {:induction false} StripSumIsMeasure(d: seq<Point>, ref: Point, i: nat)
    requires Frontier(d, ref) && i <= |d|
    ensures StripSum(d, ref, i) == |RightOf(Cells(d[..i], ref), StripEnd(d, ref, i))|
  {
    if i > 0 {
      StripSumIsMeasure(d, ref, i - 1);
      Strip(d, ref, i - 1, Height(d, ref, i));
    }
  }

  lemma DisjointSum(all: set<Point>, a: set<Point>, b: set<Point>)
    requires forall c :: c in all <==> c in a || c in b
    requires forall c :: c in a ==> c !in b
    ensures |all| == |a| + |b|
  {
    assert all == a + b && a !! b;
  }

  method Dominating(y: seq<seq<int>>, ref: Point) returns (d: seq<Point>)
    requires forall i | 0 <= i < |y| :: |y[i]| == 2
    ensures forall p :: p in d <==> p in Points(y) && p.x > ref.x && p.y > ref.y
  {
    d := [];
    for i := 0 to |y|
      invariant forall p :: p in d <==> p in Points(y)[..i] && p.x > ref.x && p.y > ref.y
    {
      assert Points(y)[..i + 1] == Points(y)[..i] + [Points(y)[i]];
      var x0, x1 := y[i][0], y[i][1];
      if x0 > ref.x && x1 > ref.y {
        d := d + [Point(x0, x1)];
      }
    }
    assert Points(y)[..|y|] == Points(y);
  }

  ghost function Points(y: seq<seq<int>>): (points: seq<Point>)
    requires forall i | 0 <= i < |y| :: |y[i]| == 2
  {
    seq(|y|, i requires 0 <= i < |y| => Point(y[i][0], y[i][1]))
  }

  method RectangleArea(x0: int, xNext: int, bestY1: int, ref1: int) returns (area: int)
    requires xNext <= x0
    ensures area == Area(x0 - xNext, bestY1 - ref1)
  {
    AreaIsProduct(x0 - xNext, bestY1 - ref1);
    area := (x0 - xNext) * (bestY1 - ref1);
  }

  method Sweep(d: seq<Point>, ref: Point) returns (hv: int)
    requires Frontier(d, ref)
    ensures hv == |Cells(d, ref)|
  {
    hv := 0;
    var bestY1 := ref.y;
    for i := 0 to |d|
      invariant bestY1 == Height(d, ref, i)
      invariant hv == StripSum(d, ref, i)
    {
      var x0, y1 := d[i].x, d[i].y;
      if y1 > bestY1 {
        bestY1 := y1;
      }
      var xNext := if i + 1 < |d| then d[i + 1].x else ref.x;
      var area := RectangleArea(x0, xNext, bestY1, ref.y);
      hv := hv + area;
    }
    StripsCoverAll(d, ref);
  }

  lemma StripsCoverAll(d: seq<Point>, ref: Point)
    requires Frontier(d, ref)
    ensures StripSum(d, ref, |d|) == |Cells(d, ref)|
  {
    StripSumIsMeasure(d, ref, |d|);
    assert d[..|d|] == d;
    assert RightOf(Cells(d, ref), ref.x) == Cells(d, ref);
  }

  /** For every table and reference point: the area is the number of covered cells. */
  method Hypervolume2dMax(y: seq<seq<int>>, cols: nat, refPoint: seq<int>) returns (r: Result<int, HypervolumeError>)
    requires forall i | 0 <= i < |y| :: |y[i]| == cols
    ensures cols != 2 ==> r == Err(InvalidColumnCount)
    ensures cols == 2 && |refPoint| != 2 ==> r == Err(InvalidRefPoint)
    ensures cols == 2 && |refPoint| == 2 ==> r == Ok(|Cells(Points(y), Point(refPoint[0], refPoint[1]))|)
  {
    if cols != 2 {
      return Err(InvalidColumnCount);
    }
    if |refPoint| != 2 {
      return Err(InvalidRefPoint);
    }
    if |y| == 0 {
      return Ok(0);
    }
    var ref := Point(refPoint[0], refPoint[1]);
    var dominating := Dominating(y, ref);
    SameCover(Points(y), dominating, ref);
    if |dominating| == 0 {
      return Ok(0);
    }
    var d := Sorting.Sort((a, b) => FurtherRight(a, b), dominating);
    SortedFrontier(dominating, d, ref);
    var hv := Sweep(d, ref);
    r := Ok(hv);
  }

  lemma BoxIsRect(p: Point, ref: Point, box: set<Point>)
    requires IsRect(box, ref.x, p.x, ref.y, p.y)
    ensures Cells([p], ref) == box
  {
    forall c ensures Covered([p], ref, c) <==> ref.x <= c.x < p.x && ref.y <= c.y < p.y {
      assert p in [p];
    }
  }

  /** The area of one row is the product of its distances from the reference, and nothing if it does not lie above
      the reference in both objectives. */
  lemma OneRow(y: seq<seq<int>>, refPoint: seq<int>)
    requires |y| == 1 && |y[0]| == 2 == |refPoint|
    ensures |Cells(Points(y), Point(refPoint[0], refPoint[1]))|
         == if y[0][0] > refPoint[0] && y[0][1] > refPoint[1] then (y[0][0] - refPoint[0]) * (y[0][1] - refPoint[1]) else 0
  {
    var p, ref := Point(y[0][0], y[0][1]), Point(refPoint[0], refPoint[1]);
    assert Points(y) == [p];
    if p.x > ref.x && p.y > ref.y {
      var box := Rect(ref.x, p.x, ref.y, p.y);
      BoxIsRect(p, ref, box);
      AreaIsProduct(p.x - ref.x, p.y - ref.y);
    } else {
      BoxIsRect(p, ref, {});
    }
  }

  function MeetAt(q: Point, p: Point): Point {
    Point(if q.x < p.x then q.x else p.x, if q.y < p.y then q.y else p.y)
  }

  /** Every point cut back to what it shares with `p`. */
  function Clipped(points: seq<Point>, p: Point): (r: seq<Point>)
    ensures |r| == |points| && forall i | 0 <= i < |r| :: r[i] == MeetAt(points[i], p)
  {
    seq(|points|, i requires 0 <= i < |points| => MeetAt(points[i], p))
  }

  lemma ClippedCover(points: seq<Point>, p: Point, ref: Point, c: Point)
    ensures Covered(Clipped(points, p), ref, c) <==> Covered(points, ref, c) && InBox(c, p, ref)
  {
    var clipped := Clipped(points, p);
    if Covered(clipped, ref, c) {
      var i :| 0 <= i < |clipped| && Under(c, clipped[i]);
      assert points[i] in points && Under(c, points[i]);
    }
    if Covered(points, ref, c) && InBox(c, p, ref) {
      var i :| 0 <= i < |points| && Under(c, points[i]);
      assert clipped[i] in clipped && Under(c, clipped[i]);
    }
  }

  lemma UnionSize(a: set<Point>, b: set<Point>)
    ensures |a + b| == |a| + |b| - |a * b|
  {
    DisjointSum(a + b, a, b - a);
    DisjointSum(b, a * b, b - a);
  }

  /** One more point adds its own box less what it shares with the points before. With the area of one row
      that leaves one measure only. */
  lemma InclusionExclusion(points: seq<Point>, p: Point, ref: Point)
    ensures |Cells(points + [p], ref)| == |Cells(points, ref)| + |Cells([p], ref)| - |Cells(Clipped(points, p), ref)|
  {
    var a, b := Cells(points, ref), Cells([p], ref);
    forall c ensures Covered([p], ref, c) <==> InBox(c, p, ref) {
      assert p in [p];
    }
    forall c ensures c in Cells(points + [p], ref) <==> c in a + b {
      CoverLast(points, ref, p, c);
    }
    forall c ensures c in Cells(Clipped(points, p), ref) <==> c in a * b {
      ClippedCover(points, p, ref, c);
    }
    assert Cells(points + [p], ref) == a + b && Cells(Clipped(points, p), ref) == a * b;
    UnionSize(a, b);
  }

  lemma SortedFrontier(dominating: seq<Point>, d: seq<Point>, ref: Point)
    requires multiset(d) == multiset(dominating)
    requires Sorting.Sorted((a, b) => FurtherRight(a, b), d)
    requires forall p | p in dominating :: p.x > ref.x && p.y > ref.y
    ensures Frontier(d, ref) && Cells(d, ref) == Cells(dominating, ref)
  {
    forall p ensures p in d <==> p in dominating {
      assert p in multiset(d) <==> p in multiset(dominating);
    }
    assert forall i | 0 <= i < |d| :: d[i] in dominating;
    var le := (a, b) => FurtherRight(a, b);
    assert forall i, j | 0 <= i < j < |d| :: le(d[i], d[j]);
    SameCover(dominating, d, ref);
  }

  /** Only points strictly above the reference in both objectives contribute. */
  lemma SameCover(a: seq<Point>, b: seq<Point>, ref: Point)
    requires forall p :: p in b <==> p in a && p.x > ref.x && p.y > ref.y
    ensures Cells(a, ref) == Cells(b, ref)
  {
    forall c ensures Covered(a, ref, c) <==> Covered(b, ref, c) {
      if Covered(a, ref, c) {
        var p :| p in a && Under(c, p);
        assert p in b;
      }
    }
  }

  // ---- What a measure must satisfy -----------------------------------------

  lemma MonotoneInPoints(a: seq<Point>, b: seq<Point>, ref: Point)
    requires forall p | p in a :: p in b
    ensures |Cells(a, ref)| <= |Cells(b, ref)|
  {
    MonotoneInCells(Cells(a, ref), Cells(b, ref));
  }

  lemma PermutationInvariant(a: seq<Point>, b: seq<Point>, ref: Point)
    requires multiset(a) == multiset(b)
    ensures |Cells(a, ref)| == |Cells(b, ref)|
  {
    forall p ensures p in a <==> p in b {
      assert p in multiset(a) <==> p in multiset(b);
    }
    assert Cells(a, ref) == Cells(b, ref);
  }

  /** Adding a point changes the hypervolume exactly when it covers a cell nobody else covers. */
  lemma AddedPointCounts(a: seq<Point>, p: Point, ref: Point)
    ensures |Cells(a + [p], ref)| > |Cells(a, ref)| <==>
              p.x > ref.x && p.y > ref.y && !exists q :: q in a && q.x >= p.x && q.y >= p.y
  {
    if p.x > ref.x && p.y > ref.y && !exists q :: q in a && q.x >= p.x && q.y >= p.y {
      NewCorner(a, p, ref);
    } else {
      forall c ensures Covered(a + [p], ref, c) <==> Covered(a, ref, c) {
        CoverLast(a, ref, p, c);
        if InBox(c, p, ref) {
          var q :| q in a && q.x >= p.x && q.y >= p.y;
          assert Under(c, q);
        }
      }
      assert Cells(a, ref) == Cells(a + [p], ref);
    }
  }

  lemma NewCorner(a: seq<Point>, p: Point, ref: Point)
    requires p.x > ref.x && p.y > ref.y && !exists q :: q in a && q.x >= p.x && q.y >= p.y
    ensures |Cells(a + [p], ref)| > |Cells(a, ref)|
  {
    var corner := Point(p.x - 1, p.y - 1);
    CoverLast(a, ref, p, corner);
    assert !Covered(a, ref, corner);
    forall c | Covered(a, ref, c) ensures Covered(a + [p], ref, c) {
      CoverLast(a, ref, p, c);
    }
    OneMoreCell(Cells(a, ref), Cells(a + [p], ref), corner);
  }

  lemma OneMoreCell(a: set<Point>, b: set<Point>, c: Point)
    requires a <= b && c in b && c !in a
    ensures |a| < |b|
  {
    MonotoneInCells(a, b - {c});
  }

  lemma MonotoneInCells(a: set<Point>, b: set<Point>)
    requires a <= b
    ensures |a| <= |b|
  {
    assert b == a + (b - a);
  }
}
