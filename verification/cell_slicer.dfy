/** The cell slicer: lays out the 9 by 9 cell rectangles from a grid estimate
    and cuts each one out of the image (collect_squares and grid_slice). The
    image is a read-only value, a list of rows indexed [first][second]; the
    library resize of each cut-out is a parameter of the model. */
module CellSlicer {
  import opened Segments
  import opened GridEstimator

  /** A slice bound as Python and numpy normalise it for a step of 1: a
      negative bound counts from the end, and the result is clamped to
      [0, n]. */
  function SliceBound(i: int, n: nat): (b: nat)
    ensures b <= n
    ensures 0 <= i <= n ==> b == i
    ensures n < i ==> b == n
    ensures i < 0 ==> b == (if i + n < 0 then 0 else i + n)
  {
    if i < 0 then (if i + n < 0 then 0 else i + n)
    else if i > n then n
    else i
  }

  /** s[start:stop] with Python's slice semantics: never out of range, empty
      when the normalised bounds cross. */
  function Slice<T>(s: seq<T>, start: int, stop: int): (r: seq<T>)
    ensures |r| <= |s|
    ensures 0 <= start <= stop <= |s| ==> r == s[start..stop]
    ensures |s| <= start ==> r == []
  {
    var lo, hi := SliceBound(start, |s|), SliceBound(stop, |s|);
    if lo <= hi then s[lo..hi] else []
  }

  /** The rectangle of width + 1 by height + 1 pixels at (xStart, yStart)
      lies inside the image. */
  ghost predicate Fits<T>(img: seq<seq<T>>, xStart: int, yStart: int, width: int, height: int)
  {
    0 <= xStart && 0 <= yStart && 0 <= width && 0 <= height &&
    xStart + width + 1 <= |img| &&
    forall i :: xStart <= i < xStart + width + 1 ==> yStart + height + 1 <= |img[i]|
  }

  /** grid_slice: img[x_start : x_start + width + 1, y_start : y_start + height + 1].
      x indexes the first dimension of the image, y the second, and each range
      is one wider than the cell. Nothing is bounds-checked: like numpy, a
      range past the edge is cut short. */
  function GridSlice<T>(img: seq<seq<T>>, xStart: int, yStart: int, width: int, height: int): (cell: seq<seq<T>>)
    ensures |cell| <= |img|
    ensures |img| <= xStart ==> cell == []
  {
    var rows := Slice(img, xStart, xStart + width + 1);
    seq(|rows|, i requires 0 <= i < |rows| => Slice(rows[i], yStart, yStart + height + 1))
  }

  /** Inside the image, the slice is exactly the width + 1 by height + 1
      block of pixels whose corner is img[xStart][yStart]. */
  lemma GridSliceFits<T>(img: seq<seq<T>>, xStart: int, yStart: int, width: int, height: int)
    requires Fits(img, xStart, yStart, width, height)
    ensures |GridSlice(img, xStart, yStart, width, height)| == width + 1
    ensures forall i :: 0 <= i <= width ==>
      |GridSlice(img, xStart, yStart, width, height)[i]| == height + 1 &&
      forall j :: 0 <= j <= height ==>
        GridSlice(img, xStart, yStart, width, height)[i][j] == img[xStart + i][yStart + j]
  {
  }

  /** How many of the count positions start, start + 1, .. lie below n. */
  function Clip(start: nat, count: nat, n: nat): (c: nat)
    ensures c <= count && (n <= start ==> c == 0)
    ensures start < n ==> start + c <= n && (c == count || start + c == n)
  {
    if n <= start then 0 else if start + count <= n then count else n - start
  }

  /** From a non-negative corner, the slice is cut short at the image edge on
      each axis: it keeps the rows xStart .. of the image that exist, at most
      width + 1 of them, and of each such row the pixels yStart .. that exist,
      at most height + 1, in place. */
  lemma GridSliceClipped<T>(img: seq<seq<T>>, xStart: int, yStart: int, width: int, height: int)
    requires 0 <= xStart && 0 <= yStart && 0 <= width && 0 <= height
    ensures |GridSlice(img, xStart, yStart, width, height)| == Clip(xStart, width + 1, |img|)
    ensures forall i :: 0 <= i < |GridSlice(img, xStart, yStart, width, height)| ==>
      |GridSlice(img, xStart, yStart, width, height)[i]| == Clip(yStart, height + 1, |img[xStart + i]|) &&
      forall j :: 0 <= j < |GridSlice(img, xStart, yStart, width, height)[i]| ==>
        GridSlice(img, xStart, yStart, width, height)[i][j] == img[xStart + i][yStart + j]
  {
  }

  /** Where the k-th cell along one axis begins: k whole cells past the
      origin. */
  function CellStart(origin: int, size: int, k: int): int
  {
    origin + size * k
  }

  /** The raw rectangle of the cell at grid offsets (x, y). */
  function CellRect<T>(img: seq<seq<T>>, gridInfo: seq<int>, x: int, y: int): seq<seq<T>>
    requires |gridInfo| >= 4
  {
    GridSlice(img, CellStart(gridInfo[0], gridInfo[2], x), CellStart(gridInfo[1], gridInfo[3], y),
              gridInfo[2], gridInfo[3])
  }

  /** A slot of the 9 by 9 result: the source preallocates every slot with
      the integer 0 before it stores an image there. */
  datatype Slot<U> = Placeholder | Digit(image: U)

  /** A cut-out that cv2.resize refuses: one with no rows, or an empty first
      row. For a rectangular image, as numpy arrays are, the first row's
      length is the column count, so this is "no rows or no columns". */
  predicate EmptyCut<T>(cell: seq<seq<T>>)
  {
    |cell| == 0 || |cell[0]| == 0
  }

  /** What collect_squares produces: the 9 by 9 list of digit images, or the
      error cv2.resize raises at the first cell, at offsets (x, y), whose
      cut-out is empty. */
  datatype Collected<U> = Squares(digitImgs: seq<seq<Slot<U>>>) | ResizeError(x: int, y: int)

  /** The slots [i][j] of the first n cells in the order collect_squares
      visits them (j outer, i inner) hold the resized cut-out of cell
      (i + 1, j + 1). */
  ghost predicate FilledUpTo<T, U>(digitImgs: seq<seq<Slot<U>>>, img: seq<seq<T>>, gridInfo: seq<int>,
                                  resize: seq<seq<T>> -> U, n: int)
    requires |gridInfo| >= 4
  {
    |digitImgs| == 9 && (forall i :: 0 <= i < 9 ==> |digitImgs[i]| == 9) &&
    forall i, j :: 0 <= i < 9 && 0 <= j < 9 && 9 * j + i < n ==>
      digitImgs[i][j] == Digit(resize(CellRect(img, gridInfo, i + 1, j + 1)))
  }

  /** The first n cells (x, y) in the order collect_squares visits them
      (y outer, x inner, both from 1 to 9) have non-empty cut-outs. With n
      = 81 that is every cell. */
  ghost predicate NonEmptyUpTo<T>(img: seq<seq<T>>, gridInfo: seq<int>, n: int)
    requires |gridInfo| >= 4
  {
    forall x, y :: 1 <= x <= 9 && 1 <= y <= 9 && 9 * (y - 1) + (x - 1) < n ==>
      !EmptyCut(CellRect(img, gridInfo, x, y))
  }

  /** The k-th write goes to slot [k % 9][k / 9]. */
  ghost predicate WriteOrder(writes: seq<(int, int)>)
  {
    forall k :: 0 <= k < |writes| ==>
      0 <= writes[k].0 < 9 && 0 <= writes[k].1 && 9 * writes[k].1 + writes[k].0 == k
  }

  lemma FillStep<T, U>(digitImgs: seq<seq<Slot<U>>>, img: seq<seq<T>>, gridInfo: seq<int>,
                       resize: seq<seq<T>> -> U, x: int, y: int)
    requires |gridInfo| >= 4 && 1 <= x <= 9 && 1 <= y <= 9
    requires FilledUpTo(digitImgs, img, gridInfo, resize, 9 * (y - 1) + (x - 1))
    ensures FilledUpTo(digitImgs[x - 1 := digitImgs[x - 1][y - 1 := Digit(resize(CellRect(img, gridInfo, x, y)))]],
                       img, gridInfo, resize, 9 * (y - 1) + x)
  {
  }

  lemma NonEmptyStep<T>(img: seq<seq<T>>, gridInfo: seq<int>, x: int, y: int)
    requires |gridInfo| >= 4 && 1 <= x <= 9 && 1 <= y <= 9
    requires NonEmptyUpTo(img, gridInfo, 9 * (y - 1) + (x - 1))
    requires !EmptyCut(CellRect(img, gridInfo, x, y))
    ensures NonEmptyUpTo(img, gridInfo, 9 * (y - 1) + x)
  {
    forall x', y' | 1 <= x' <= 9 && 1 <= y' <= 9 && 9 * (y' - 1) + (x' - 1) < 9 * (y - 1) + x
      ensures !EmptyCut(CellRect(img, gridInfo, x', y'))
    {
      if y' == y && x' == x {
      } else if y' == y {
        assert 9 * (y' - 1) + (x' - 1) < 9 * (y - 1) + (x - 1);
      } else {
        assert y' < y;
        assert 9 * (y' - 1) + (x' - 1) < 9 * (y - 1) + (x - 1);
      }
    }
  }

  /** The cell (x, y) is among the 81 cells, so an empty cut-out there
      breaks NonEmptyUpTo(81). */
  lemma EmptyCutBlocks<T>(img: seq<seq<T>>, gridInfo: seq<int>, x: int, y: int)
    requires |gridInfo| >= 4 && 1 <= x <= 9 && 1 <= y <= 9
    requires EmptyCut(CellRect(img, gridInfo, x, y))
    ensures !NonEmptyUpTo(img, gridInfo, 81)
  {
  }

  /** collect_squares: for y and x from 1 to 9 (in that nesting), cuts the
      cell starting x cells right and y cells down from the origin and stores
      its resized image at [x - 1][y - 1]. cv2.resize raises on an empty
      cut-out, which ends the loops: the result is then the error at that
      cell. The ghost `writes` logs each store, with the same slot indices
      the store uses, in the order the stores happen. */
  method CollectSquares<T, U>(img: seq<seq<T>>, gridInfo: seq<int>, resize: seq<seq<T>> -> U)
    returns (result: Collected<U>, ghost writes: seq<(int, int)>)
    requires |gridInfo| >= 4
    ensures result.Squares? <==> NonEmptyUpTo(img, gridInfo, 81)
    ensures result.Squares? ==>
      |result.digitImgs| == 9 && (forall i :: 0 <= i < 9 ==> |result.digitImgs[i]| == 9) &&
      (forall i, j :: 0 <= i < 9 && 0 <= j < 9 ==>
        result.digitImgs[i][j] == Digit(resize(CellRect(img, gridInfo, i + 1, j + 1)))) &&
      |writes| == 81
    ensures result.ResizeError? ==>
      1 <= result.x <= 9 && 1 <= result.y <= 9 &&
      EmptyCut(CellRect(img, gridInfo, result.x, result.y)) &&
      |writes| == 9 * (result.y - 1) + (result.x - 1) &&
      NonEmptyUpTo(img, gridInfo, |writes|)
    ensures forall k :: 0 <= k < |writes| ==> 0 <= writes[k].0 < 9 && 0 <= writes[k].1 < 9
    ensures forall k, l :: 0 <= k < l < |writes| ==> writes[k] != writes[l]
    ensures WriteOrder(writes)
  {
    var xPos, yPos := gridInfo[0], gridInfo[1];
    var cellWidth, cellHeight := gridInfo[2], gridInfo[3];
    var digitImgs := seq(9, _ => seq(9, _ => Placeholder));
    writes := [];
    for y := 1 to 10
      invariant FilledUpTo(digitImgs, img, gridInfo, resize, 9 * (y - 1))
      invariant NonEmptyUpTo(img, gridInfo, 9 * (y - 1))
      invariant |writes| == 9 * (y - 1) && WriteOrder(writes)
    {
      for x := 1 to 10
        invariant FilledUpTo(digitImgs, img, gridInfo, resize, 9 * (y - 1) + (x - 1))
        invariant NonEmptyUpTo(img, gridInfo, 9 * (y - 1) + (x - 1))
        invariant |writes| == 9 * (y - 1) + (x - 1) && WriteOrder(writes)
      {
        var cellImg := GridSlice(img, xPos + cellWidth * x, yPos + cellHeight * y, cellWidth, cellHeight);
        assert cellImg == CellRect(img, gridInfo, x, y);
        if EmptyCut(cellImg) {
          EmptyCutBlocks(img, gridInfo, x, y);
          result := ResizeError(x, y);
          return;
        }
        var i, j := x - 1, y - 1;
        NonEmptyStep(img, gridInfo, x, y);
        FillStep(digitImgs, img, gridInfo, resize, x, y);
        digitImgs := digitImgs[i := digitImgs[i][j := Digit(resize(cellImg))]];
        writes := writes + [(i, j)];
      }
    }
    result := Squares(digitImgs);
  }

  /** When the image holds the whole layout, no cut-out is empty, so
      collect_squares does not raise. */
  lemma NoEmptyCutWhenFits<T>(img: seq<seq<T>>, gridInfo: seq<int>)
    requires GridFits(img, gridInfo)
    ensures NonEmptyUpTo(img, gridInfo, 81)
  {
    forall x, y | 1 <= x <= 9 && 1 <= y <= 9
      ensures !EmptyCut(CellRect(img, gridInfo, x, y))
    {
      CellFits(img, gridInfo, x, y);
      GridSliceFits(img, CellStart(gridInfo[0], gridInfo[2], x), CellStart(gridInfo[1], gridInfo[3], y),
                    gridInfo[2], gridInfo[3]);
    }
  }

  /** Pixel line r (on either axis) lies in one of the nine cells whose
      starts are 1 .. 9 cells past the origin. */
  ghost predicate Covered(origin: int, size: int, r: int)
  {
    exists k :: 1 <= k <= 9 && CellStart(origin, size, k) <= r < CellStart(origin, size, k) + size + 1
  }

  /** Because the offsets run from 1 to 9 and each cell is one line wider
      than its size, the cells together cover exactly the lines from one
      cell past the origin up to ten cells past it, inclusive: the cells
      before the first offset are skipped, and neighbouring cells share
      their boundary line. */
  lemma LayoutCoverage(origin: int, size: nat, r: int)
    ensures Covered(origin, size, r) <==>
      CellStart(origin, size, 1) <= r < CellStart(origin, size, 10) + 1
  {
    if Covered(origin, size, r) {
      var k :| 1 <= k <= 9 && CellStart(origin, size, k) <= r < CellStart(origin, size, k) + size + 1;
      MulBetween(size, k);
    }
    if CellStart(origin, size, 1) <= r < CellStart(origin, size, 10) + 1 {
      var k := CoveringCell(origin, size, r);
    }
  }

  /** The offset of a cell that holds line r, for r inside the layout. */
  lemma CoveringCell(origin: int, size: nat, r: int) returns (k: int)
    requires CellStart(origin, size, 1) <= r < CellStart(origin, size, 10) + 1
    ensures 1 <= k <= 9 && CellStart(origin, size, k) <= r < CellStart(origin, size, k) + size + 1
  {
    if size == 0 {
      k := 1;
    } else {
      var q := (r - origin) / size;
      DivBounds(r - origin, size);
      MulMonotone(size, 1, q);
      if q <= 9 {
        k := q;
      } else {
        MulMonotone(size, 10, q);
        k := 9;
      }
    }
  }

  lemma DivBounds(a: int, b: int)
    requires 0 < b
    ensures b * (a / b) <= a < b * (a / b) + b
  {
  }

  lemma MulMonotone(a: nat, b: int, c: int)
    requires b <= c
    ensures a * b <= a * c
  {
    assert a * c - a * b == a * (c - b);
  }

  lemma MulBetween(a: nat, k: int)
    requires 1 <= k <= 9
    ensures a <= a * k && a * k + a <= a * 10
  {
    MulMonotone(a, 1, k);
    MulMonotone(a, k, 9);
  }

  /** The image holds every pixel the 81 cells of a grid estimate touch:
      lines 1 .. 10 cells past the origin on both axes. */
  ghost predicate GridFits<T>(img: seq<seq<T>>, gridInfo: seq<int>)
  {
    |gridInfo| >= 4 &&
    0 <= gridInfo[0] && 0 <= gridInfo[1] && 0 <= gridInfo[2] && 0 <= gridInfo[3] &&
    gridInfo[0] + 10 * gridInfo[2] + 1 <= |img| &&
    forall i :: gridInfo[0] + gridInfo[2] <= i < gridInfo[0] + 10 * gridInfo[2] + 1 ==>
      gridInfo[1] + 10 * gridInfo[3] + 1 <= |img[i]|
  }

  /** When the image holds the whole layout, the rectangle of every cell
      (x, y), for x and y in 1 .. 9, lies inside the image; by GridSliceFits
      its cut-out is then exactly the cell width + 1 by cell height + 1 block
      of pixels that starts x cells and y cells past the origin. */
  lemma CellFits<T>(img: seq<seq<T>>, gridInfo: seq<int>, x: int, y: int)
    requires GridFits(img, gridInfo)
    requires 1 <= x <= 9 && 1 <= y <= 9
    ensures Fits(img, CellStart(gridInfo[0], gridInfo[2], x), CellStart(gridInfo[1], gridInfo[3], y),
                 gridInfo[2], gridInfo[3])
  {
    MulBetween(gridInfo[2], x);
    MulBetween(gridInfo[3], y);
  }

  /** Laid out from an estimate, the cells leave out the estimated origin line
      on each axis whenever the cells have a size, and, once a cell is at
      least 9 pixels, reach past the estimated far edge of the grid. */
  lemma LayoutAgainstEstimate(segs: seq<Segment>)
    requires |segs| > 0
    ensures 0 < GridInfo(segs)[2] ==> !Covered(GridInfo(segs)[0], GridInfo(segs)[2], GridInfo(segs)[0])
    ensures 0 < GridInfo(segs)[3] ==> !Covered(GridInfo(segs)[1], GridInfo(segs)[3], GridInfo(segs)[1])
    ensures 9 <= GridInfo(segs)[2] ==>
      Covered(GridInfo(segs)[0], GridInfo(segs)[2], GridInfo(segs)[0] + TotalWidth(segs) + 1)
    ensures 9 <= GridInfo(segs)[3] ==>
      Covered(GridInfo(segs)[1], GridInfo(segs)[3], GridInfo(segs)[1] + TotalHeight(segs) + 1)
  {
    var g := GridInfo(segs);
    GridInfoCellSize(segs);
    LayoutCoverage(g[0], g[2], g[0]);
    LayoutCoverage(g[1], g[3], g[1]);
    assert CellStart(g[0], g[2], 1) == g[0] + g[2] && CellStart(g[0], g[2], 10) == g[0] + 10 * g[2];
    assert CellStart(g[1], g[3], 1) == g[1] + g[3] && CellStart(g[1], g[3], 10) == g[1] + 10 * g[3];
    LayoutCoverage(g[0], g[2], g[0] + TotalWidth(segs) + 1);
    LayoutCoverage(g[1], g[3], g[1] + TotalHeight(segs) + 1);
  }
}
