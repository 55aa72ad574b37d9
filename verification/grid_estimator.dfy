/** The grid estimate: the top-left origin of the Sudoku grid and the size of
    one cell, derived from the extrema of the detected segment endpoints
    (calculate_cells and cell_dims). The estimate is the four-element list
    [top-left x, top-left y, cell width, cell height]. */
module GridEstimator {
  import opened Segments

  /** Python's min over a non-empty list (it raises on an empty one). */
  function Min(s: seq<int>): (m: int)
    requires |s| > 0
    ensures m in s
    ensures forall k :: 0 <= k < |s| ==> m <= s[k]
  {
    MinFrom(s, |s| - 1)
  }

  /** The least of s[0], ..., s[n]. */
  function MinFrom(s: seq<int>, n: nat): (m: int)
    requires n < |s|
    ensures exists k :: 0 <= k <= n && s[k] == m
    ensures forall k :: 0 <= k <= n ==> m <= s[k]
  {
    if n == 0 then s[0]
    else
      var rest := MinFrom(s, n - 1);
      if s[n] < rest then s[n] else rest
  }

  /** Python's max over a non-empty list (it raises on an empty one). */
  function Max(s: seq<int>): (m: int)
    requires |s| > 0
    ensures m in s
    ensures forall k :: 0 <= k < |s| ==> s[k] <= m
  {
    MaxFrom(s, |s| - 1)
  }

  /** The greatest of s[0], ..., s[n]. */
  function MaxFrom(s: seq<int>, n: nat): (m: int)
    requires n < |s|
    ensures exists k :: 0 <= k <= n && s[k] == m
    ensures forall k :: 0 <= k <= n ==> s[k] <= m
  {
    if n == 0 then s[0]
    else
      var rest := MaxFrom(s, n - 1);
      if s[n] > rest then s[n] else rest
  }

  /** Min and max see only which values occur, not where or how often. */
  lemma ExtremaDependOnValues(s: seq<int>, t: seq<int>)
    requires |s| > 0 && |t| > 0
    requires forall v :: v in s <==> v in t
    ensures Min(s) == Min(t) && Max(s) == Max(t)
  {
    var i :| 0 <= i < |t| && t[i] == Min(s);
    var j :| 0 <= j < |s| && s[j] == Min(t);
    assert Min(t) <= t[i] && Min(s) <= s[j];
    var p :| 0 <= p < |t| && t[p] == Max(s);
    var q :| 0 <= q < |s| && s[q] == Max(t);
    assert t[p] <= Max(t) && s[q] <= Max(s);
  }

  /** The extrema of a list are the elements that bound all the others. */
  lemma ExtremaAt(s: seq<int>, lo: nat, hi: nat)
    requires lo < |s| && hi < |s|
    requires forall k :: 0 <= k < |s| ==> s[lo] <= s[k] <= s[hi]
    ensures Min(s) == s[lo] && Max(s) == s[hi]
  {
    var i :| 0 <= i < |s| && s[i] == Min(s);
    var j :| 0 <= j < |s| && s[j] == Max(s);
  }

  /** The spread of one endpoint list. */
  function Spread(s: seq<int>): (d: int)
    requires |s| > 0
    ensures 0 <= d
  {
    Max(s) - Min(s)
  }

  /** The total width (or height) of the grid: the floor average of the
      spreads of the two endpoint lists. The source writes the second spread
      as max(x2_list - min(x2_list)); on a list of numpy integers the
      subtraction broadcasts over the list, so that is max(x2) - min(x2). */
  function Extent(a: seq<int>, b: seq<int>): (e: int)
    requires |a| > 0 && |b| > 0
    ensures 0 <= e
    ensures Spread(a) <= Spread(b) ==> Spread(a) <= e <= Spread(b)
    ensures Spread(b) <= Spread(a) ==> Spread(b) <= e <= Spread(a)
    ensures 2 * e <= Spread(a) + Spread(b) < 2 * e + 2
  {
    (Spread(a) + Spread(b)) / 2
  }

  /** cell_dims: the cell width and height, each a ninth of the total extent,
      rounded down. */
  function CellDims(x1s: seq<int>, y1s: seq<int>, x2s: seq<int>, y2s: seq<int>): (dims: (int, int))
    requires |x1s| > 0 && |y1s| > 0 && |x2s| > 0 && |y2s| > 0
    ensures 0 <= dims.0 && 9 * dims.0 <= Extent(x1s, x2s) < 9 * dims.0 + 9
    ensures 0 <= dims.1 && 9 * dims.1 <= Extent(y1s, y2s) < 9 * dims.1 + 9
  {
    (Extent(x1s, x2s) / 9, Extent(y1s, y2s) / 9)
  }

  /** The grid's top-left coordinate on one axis: the smaller of the two
      endpoint lists' minima. */
  function Origin(a: seq<int>, b: seq<int>): (o: int)
    requires |a| > 0 && |b| > 0
    ensures o in a || o in b
    ensures forall k :: 0 <= k < |a| ==> o <= a[k]
    ensures forall k :: 0 <= k < |b| ==> o <= b[k]
  {
    Min([Min(a), Min(b)])
  }

  /** The estimated total width and height of the grid. */
  function TotalWidth(segs: seq<Segment>): int
    requires |segs| > 0
  {
    Extent(Column(segs, X1), Column(segs, X2))
  }

  function TotalHeight(segs: seq<Segment>): int
    requires |segs| > 0
  {
    Extent(Column(segs, Y1), Column(segs, Y2))
  }

  /** The grid estimate for a non-empty list of segments:
      [top-left x, top-left y, cell width, cell height]. */
  function GridInfo(segs: seq<Segment>): (info: seq<int>)
    requires |segs| > 0
    ensures |info| == 4
  {
    var x1s, y1s, x2s, y2s := Column(segs, X1), Column(segs, Y1), Column(segs, X2), Column(segs, Y2);
    var dims := CellDims(x1s, y1s, x2s, y2s);
    [Origin(x1s, x2s), Origin(y1s, y2s), dims.0, dims.1]
  }

  /** The origin is the smallest endpoint coordinate on each axis, and some
      segment attains it. */
  lemma GridInfoOrigin(segs: seq<Segment>)
    requires |segs| > 0
    ensures forall s :: s in segs ==>
      GridInfo(segs)[0] <= s.x1 && GridInfo(segs)[0] <= s.x2 &&
      GridInfo(segs)[1] <= s.y1 && GridInfo(segs)[1] <= s.y2
    ensures exists s :: s in segs && (GridInfo(segs)[0] == s.x1 || GridInfo(segs)[0] == s.x2)
    ensures exists s :: s in segs && (GridInfo(segs)[1] == s.y1 || GridInfo(segs)[1] == s.y2)
  {
    var x1s, y1s, x2s, y2s := Column(segs, X1), Column(segs, Y1), Column(segs, X2), Column(segs, Y2);
    var info := GridInfo(segs);
    assert info[0] == Origin(x1s, x2s) && info[1] == Origin(y1s, y2s);
    forall s | s in segs
      ensures info[0] <= s.x1 && info[0] <= s.x2 && info[1] <= s.y1 && info[1] <= s.y2
    {
      var k :| 0 <= k < |segs| && segs[k] == s;
      assert x1s[k] == s.x1 && x2s[k] == s.x2 && y1s[k] == s.y1 && y2s[k] == s.y2;
    }
    var k :| 0 <= k < |segs| && (x1s[k] == info[0] || x2s[k] == info[0]);
    assert segs[k] in segs;
    var l :| 0 <= l < |segs| && (y1s[l] == info[1] || y2s[l] == info[1]);
    assert segs[l] in segs;
  }

  /** The cell width and height are a ninth of the estimated total width and
      height, rounded down, and never negative. */
  lemma GridInfoCellSize(segs: seq<Segment>)
    requires |segs| > 0
    ensures 0 <= GridInfo(segs)[2] && 9 * GridInfo(segs)[2] <= TotalWidth(segs) < 9 * GridInfo(segs)[2] + 9
    ensures 0 <= GridInfo(segs)[3] && 9 * GridInfo(segs)[3] <= TotalHeight(segs) < 9 * GridInfo(segs)[3] + 9
  {
    var dims := CellDims(Column(segs, X1), Column(segs, Y1), Column(segs, X2), Column(segs, Y2));
    assert GridInfo(segs)[2] == dims.0 && GridInfo(segs)[3] == dims.1;
  }

  /** calculate_cells: decomposes the detector's lines and appends the origin
      and the cell dimensions to the grid-info list, in that order. The source
      raises when there is no entry at all (min of an empty list). */
  method CalculateCells(houghLines: seq<seq<Segment>>) returns (gridInfo: seq<int>)
    requires Entries(houghLines) != []
    ensures gridInfo == GridInfo(Entries(houghLines))
  {
    gridInfo := [];
    var x1s, y1s, x2s, y2s := DecomposeLines(houghLines);
    var startX := Origin(x1s, x2s);
    var startY := Origin(y1s, y2s);
    gridInfo := gridInfo + [startX];
    gridInfo := gridInfo + [startY];
    var cellTuple := CellDims(x1s, y1s, x2s, y2s);
    gridInfo := gridInfo + [cellTuple.0];
    gridInfo := gridInfo + [cellTuple.1];
  }

  /** Two lists holding the same segments have columns holding the same
      values. */
  lemma ColumnsSameValues(a: seq<Segment>, b: seq<Segment>, c: Coordinate)
    requires forall s :: s in a <==> s in b
    ensures forall v :: v in Column(a, c) <==> v in Column(b, c)
  {
    forall v
      ensures v in Column(a, c) ==> v in Column(b, c)
      ensures v in Column(b, c) ==> v in Column(a, c)
    {
      if v in Column(a, c) {
        var k :| 0 <= k < |a| && Column(a, c)[k] == v;
        assert a[k] in b;
        var l :| 0 <= l < |b| && b[l] == a[k];
        assert Column(b, c)[l] == v;
      }
      if v in Column(b, c) {
        var k :| 0 <= k < |b| && Column(b, c)[k] == v;
        assert b[k] in a;
        var l :| 0 <= l < |a| && a[l] == b[k];
        assert Column(a, c)[l] == v;
      }
    }
  }

  lemma ColumnExtremaAgree(a: seq<Segment>, b: seq<Segment>, c: Coordinate)
    requires |a| > 0
    requires forall s :: s in a <==> s in b
    ensures |b| > 0
    ensures Min(Column(a, c)) == Min(Column(b, c)) && Max(Column(a, c)) == Max(Column(b, c))
  {
    assert a[0] in b;
    ColumnsSameValues(a, b, c);
    ExtremaDependOnValues(Column(a, c), Column(b, c));
  }

  /** Reordering the segments, or repeating some, leaves the estimate
      unchanged: only the extrema of each coordinate matter, so any two lists
      holding the same segments agree. */
  lemma GridInfoOrderIndependent(a: seq<Segment>, b: seq<Segment>)
    requires |a| > 0
    requires forall s :: s in a <==> s in b
    ensures |b| > 0 && GridInfo(a) == GridInfo(b)
  {
    ColumnExtremaAgree(a, b, X1);
    ColumnExtremaAgree(a, b, Y1);
    ColumnExtremaAgree(a, b, X2);
    ColumnExtremaAgree(a, b, Y2);
    assert Spread(Column(a, X1)) == Spread(Column(b, X1)) && Spread(Column(a, X2)) == Spread(Column(b, X2));
    assert Spread(Column(a, Y1)) == Spread(Column(b, Y1)) && Spread(Column(a, Y2)) == Spread(Column(b, Y2));
    assert TotalWidth(a) == TotalWidth(b) && TotalHeight(a) == TotalHeight(b);
    assert Origin(Column(a, X1), Column(a, X2)) == Origin(Column(b, X1), Column(b, X2));
    assert Origin(Column(a, Y1), Column(a, Y2)) == Origin(Column(b, Y1), Column(b, Y2));
  }

  /** The detector's lines may come in any order: reordering them leaves the
      estimate that calculate_cells builds unchanged. */
  lemma LinesOrderIndependent(a: seq<seq<Segment>>, b: seq<seq<Segment>>)
    requires Entries(a) != []
    requires multiset(a) == multiset(b)
    ensures Entries(b) != [] && GridInfo(Entries(a)) == GridInfo(Entries(b))
  {
    EntriesPermutation(a, b);
    assert |multiset(Entries(b))| == |multiset(Entries(a))| > 0;
    forall s
      ensures s in Entries(a) <==> s in Entries(b)
    {
      assert s in Entries(a) <==> s in multiset(Entries(a));
      assert s in Entries(b) <==> s in multiset(Entries(b));
    }
    GridInfoOrderIndependent(Entries(a), Entries(b));
  }

  /** A single segment spans no width and no height once averaged over its
      two endpoint lists: the cells come out zero-sized. */
  lemma SingleSegmentDegenerate(s: Segment)
    ensures GridInfo([s]) == [if s.x1 <= s.x2 then s.x1 else s.x2,
                              if s.y1 <= s.y2 then s.y1 else s.y2, 0, 0]
  {
    assert Column([s], X1) == [s.x1] && Column([s], X2) == [s.x2];
    assert Column([s], Y1) == [s.y1] && Column([s], Y2) == [s.y2];
  }

  /** The four borders of an axis-aligned w by h rectangle whose top-left
      corner is (x, y): top, bottom, left and right. */
  function Borders(x: int, y: int, w: nat, h: nat): seq<Segment>
  {
    [Segment(x, y, x + w, y), Segment(x, y + h, x + w, y + h),
     Segment(x, y, x, y + h), Segment(x + w, y, x + w, y + h)]
  }

  lemma BordersExtrema(x: int, y: int, w: nat, h: nat)
    ensures Min(Column(Borders(x, y, w, h), X1)) == x && Max(Column(Borders(x, y, w, h), X1)) == x + w
    ensures Min(Column(Borders(x, y, w, h), X2)) == x && Max(Column(Borders(x, y, w, h), X2)) == x + w
    ensures Min(Column(Borders(x, y, w, h), Y1)) == y && Max(Column(Borders(x, y, w, h), Y1)) == y + h
    ensures Min(Column(Borders(x, y, w, h), Y2)) == y && Max(Column(Borders(x, y, w, h), Y2)) == y + h
  {
    var segs := Borders(x, y, w, h);
    var x1s, y1s, x2s, y2s := Column(segs, X1), Column(segs, Y1), Column(segs, X2), Column(segs, Y2);
    assert |segs| == 4;
    assert x1s[0] == x1s[1] == x1s[2] == x && x1s[3] == x + w;
    assert y1s[0] == y1s[2] == y1s[3] == y && y1s[1] == y + h;
    assert x2s[0] == x2s[1] == x2s[3] == x + w && x2s[2] == x;
    assert y2s[0] == y && y2s[1] == y2s[2] == y2s[3] == y + h;
    ExtremaAt(x1s, 0, 3);
    ExtremaAt(y1s, 0, 1);
    ExtremaAt(x2s, 2, 0);
    ExtremaAt(y2s, 0, 1);
  }

  /** The four outer borders alone of a w by h rectangle at (x, y) give the
      origin (x, y) and cells of w / 9 by h / 9, rounded down. */
  lemma BordersEstimate(x: int, y: int, w: nat, h: nat)
    ensures GridInfo(Borders(x, y, w, h)) == [x, y, w / 9, h / 9]
  {
    var segs := Borders(x, y, w, h);
    var x1s, y1s, x2s, y2s := Column(segs, X1), Column(segs, Y1), Column(segs, X2), Column(segs, Y2);
    BordersExtrema(x, y, w, h);
    assert Extent(x1s, x2s) == w && Extent(y1s, y2s) == h;
    assert Origin(x1s, x2s) == x && Origin(y1s, y2s) == y;
  }

  /** Both endpoints of the segment lie in the w by h rectangle at (x, y). */
  predicate Inside(s: Segment, x: int, y: int, w: nat, h: nat)
  {
    x <= s.x1 <= x + w && x <= s.x2 <= x + w && y <= s.y1 <= y + h && y <= s.y2 <= y + h
  }

  /** The least and greatest value of one coordinate column sit at the
      segments lo and hi when they bound every segment on that coordinate. */
  lemma ColumnExtremaAt(segs: seq<Segment>, c: Coordinate, lo: nat, hi: nat)
    requires lo < |segs| && hi < |segs|
    requires forall k :: 0 <= k < |segs| ==>
      Component(segs[lo], c) <= Component(segs[k], c) <= Component(segs[hi], c)
    ensures Min(Column(segs, c)) == Component(segs[lo], c)
    ensures Max(Column(segs, c)) == Component(segs[hi], c)
  {
    ExtremaAt(Column(segs, c), lo, hi);
  }

  /** The segment with its endpoints reported the other way round. */
  function Flip(s: Segment): (f: Segment)
    ensures f.x1 == s.x2 && f.y1 == s.y2 && f.x2 == s.x1 && f.y2 == s.y1
  {
    Segment(s.x2, s.y2, s.x1, s.y1)
  }

  /** The index of a segment b, reported in either endpoint order. */
  lemma FindEither(segs: seq<Segment>, b: Segment) returns (k: nat)
    requires b in segs || Flip(b) in segs
    ensures k < |segs| && (segs[k] == b || segs[k] == Flip(b))
  {
    if b in segs {
      k :| 0 <= k < |segs| && segs[k] == b;
    } else {
      k :| 0 <= k < |segs| && segs[k] == Flip(b);
    }
  }

  /** Within a rectangle that contains its borders, each reported in either
      endpoint order, the extremes of every coordinate column are the
      rectangle's edges. */
  lemma EnclosedExtrema(segs: seq<Segment>, x: int, y: int, w: nat, h: nat)
    requires forall b :: b in Borders(x, y, w, h) ==> b in segs || Flip(b) in segs
    requires forall k :: 0 <= k < |segs| ==> Inside(segs[k], x, y, w, h)
    ensures |segs| > 0
    ensures Min(Column(segs, X1)) == x && Max(Column(segs, X1)) == x + w
    ensures Min(Column(segs, X2)) == x && Max(Column(segs, X2)) == x + w
    ensures Min(Column(segs, Y1)) == y && Max(Column(segs, Y1)) == y + h
    ensures Min(Column(segs, Y2)) == y && Max(Column(segs, Y2)) == y + h
  {
    var borders := Borders(x, y, w, h);
    assert borders[0] in borders && borders[1] in borders && borders[2] in borders && borders[3] in borders;
    var top := FindEither(segs, borders[0]);
    var bottom := FindEither(segs, borders[1]);
    var left := FindEither(segs, borders[2]);
    var right := FindEither(segs, borders[3]);
    ColumnExtremaAt(segs, X1, left, right);
    ColumnExtremaAt(segs, X2, left, right);
    ColumnExtremaAt(segs, Y1, top, bottom);
    ColumnExtremaAt(segs, Y2, top, bottom);
  }

  /** Lines inside the rectangle do not move the estimate: any segments that
      include the four borders of a w by h rectangle at (x, y), each in either
      endpoint order, and stay within it, in any order and with any interior
      lines, give the origin (x, y) and cells of w / 9 by h / 9, rounded down. */
  lemma EnclosedLinesEstimate(segs: seq<Segment>, x: int, y: int, w: nat, h: nat)
    requires forall b :: b in Borders(x, y, w, h) ==> b in segs || Flip(b) in segs
    requires forall k :: 0 <= k < |segs| ==> Inside(segs[k], x, y, w, h)
    ensures |segs| > 0 && GridInfo(segs) == [x, y, w / 9, h / 9]
  {
    EnclosedExtrema(segs, x, y, w, h);
    var x1s, y1s, x2s, y2s := Column(segs, X1), Column(segs, Y1), Column(segs, X2), Column(segs, Y2);
    assert Extent(x1s, x2s) == w && Extent(y1s, y2s) == h;
    assert Origin(x1s, x2s) == x && Origin(y1s, y2s) == y;
  }

  /** The ideal grid of 9 by 9 cells of c by d pixels at (x, y): ten
      horizontal lines, one every d pixels, then ten vertical lines, one
      every c pixels. */
  function IdealGrid(x: int, y: int, c: nat, d: nat): seq<Segment>
  {
    seq(10, k requires 0 <= k < 10 => Segment(x, y + d * k, x + 9 * c, y + d * k)) +
    seq(10, k requires 0 <= k < 10 => Segment(x + c * k, y, x + c * k, y + 9 * d))
  }

  lemma ScaledBetween(c: nat, k: int)
    requires 0 <= k <= 9
    ensures 0 <= c * k <= 9 * c
  {
  }

  /** The ideal grid is estimated exactly: origin (x, y) and cells of c by d;
      a 180 by 180 grid at (0, 0), with cells of 20 by 20, gives
      [0, 0, 20, 20]. */
  lemma IdealGridEstimate(x: int, y: int, c: nat, d: nat)
    ensures GridInfo(IdealGrid(x, y, c, d)) == [x, y, c, d]
  {
    var segs := IdealGrid(x, y, c, d);
    assert segs[0] == Segment(x, y, x + 9 * c, y);
    assert segs[9] == Segment(x, y + 9 * d, x + 9 * c, y + 9 * d);
    assert segs[10] == Segment(x, y, x, y + 9 * d);
    assert segs[19] == Segment(x + 9 * c, y, x + 9 * c, y + 9 * d);
    forall k | 0 <= k < |segs|
      ensures Inside(segs[k], x, y, 9 * c, 9 * d)
    {
      if k < 10 {
        ScaledBetween(d, k);
      } else {
        ScaledBetween(c, k - 10);
      }
    }
    EnclosedLinesEstimate(segs, x, y, 9 * c, 9 * d);
    assert (9 * c) / 9 == c && (9 * d) / 9 == d;
  }
}
