# Sudoku grid geometry from Hough line segments

This project models the grid-geometry step of `hough_grid.py`, part of a
Sudoku board reader. The probabilistic Hough detector reports line segments
`[x1, y1, x2, y2]`. The code turns them into a grid estimate: the top-left
origin of the board and the width and height of one cell. It then lays out
the 9 by 9 cell rectangles and cuts each one out of the grayscale image.

The model has three modules, one per stage of that step:

- `Segments` (`segments.dfy`): the segment datatype and `decompose_lines`.
  The detector's nested list (lines, each a list of entries) becomes four
  parallel coordinate lists. This is an imperative method with nested loops
  that append, proved against the flattening `Entries` and the projection
  `Column`.
- `GridEstimator` (`grid_estimator.dfy`): Python's `min` and `max`, `cell_dims`
  and `calculate_cells`. The grid estimate is the four-element list
  `[top-left x, top-left y, cell width, cell height]`. `GridInfo` is the
  estimate as a function. `CalculateCells` builds the list by successive
  appends, as the source does, and is proved equal to `GridInfo`.
- `CellSlicer` (`cell_slicer.dfy`): `grid_slice`, with numpy's slice
  semantics, and `collect_squares`. `collect_squares` is an imperative method
  that fills a preallocated 9 by 9 list through nested loops. `cv2.resize`
  raises on an empty cut-out, so the method returns either the filled list or
  the error at the first cell whose cut-out is empty. A ghost log of the
  slots it writes proves that each slot is written at most once, and all 81
  exactly once when no error occurs.

Two quirks of the source are reproduced as written:

- The offsets run from 1 to 9 (hough_grid.py:111-112), so the first cell starts
  one whole cell past the estimated origin. `LayoutCoverage` and
  `LayoutAgainstEstimate` state what this does to the layout.
- `grid_slice` uses the x start to index the first image dimension and the
  y start to index the second (hough_grid.py:126). Each range is one pixel
  wider than the cell, so neighbouring cells share their boundary line.

Lines 93 and 95 write `max(x2_list - min(x2_list))`. The list holds numpy
integers, so the subtraction broadcasts over it and the result equals
`max(x2_list) - min(x2_list)`. `Extent` models it that way.

A stricter design would raise explicit "no lines", "degenerate grid" and
"out of bounds" errors. The code has none of them, and the model follows the
code:

- An empty segment list is a precondition, because `min` of an empty list raises.
- Zero-sized cells are computed as they are (`SingleSegmentDegenerate`).
- A slice past the image edge is cut short, as numpy does (`GridSliceClipped`).
- A cut-out left empty by that clipping, for instance a cell that starts
  past the image's first dimension, makes `cv2.resize` raise. `CollectSquares`
  returns that error (`ResizeError`). When the image holds the whole layout,
  this cannot happen (`NoEmptyCutWhenFits`).

## Model

| member | source | states |
|---|---|---|
| `Segments.EntriesAt` | hough_grid.py:77-78 | entry j of line i is at position (number of entries in lines before i) + j of the flattened list, so the nested loops keep input order |
| `Segments.EntriesLength` | hough_grid.py:77-78 | the flattened list holds every entry of every line: its length is the sum of the line lengths |
| `Segments.EntriesPermutation` | hough_grid.py:77-78 | reordering the detector's lines gives flattened lists that hold the same entries, each as often |
| `Segments.DecomposeLines` | hough_grid.py:74-83 | the four returned lists are the x1, y1, x2 and y2 columns of the flattened entries: equal length, one element per entry, the k-th element taken from the k-th entry |
| `GridEstimator.MinFrom` | hough_grid.py:60-61 | the least of s[0..n] is one of those elements and no greater than any of them |
| `GridEstimator.MaxFrom` | hough_grid.py:92-95 | the greatest of s[0..n] is one of those elements and no smaller than any of them |
| `GridEstimator.Min` | hough_grid.py:60-61 | Python `min` on a non-empty list: an element of the list that is no greater than any element |
| `GridEstimator.Max` | hough_grid.py:92-95 | Python `max` on a non-empty list: an element of the list that is no smaller than any element |
| `GridEstimator.ExtremaDependOnValues` | hough_grid.py:60-61 | two lists holding the same set of values have the same min and the same max |
| `GridEstimator.Spread` | hough_grid.py:92-95 | max minus min of an endpoint list is never negative |
| `GridEstimator.Extent` | hough_grid.py:92-95 | the total width (height) is the floor average of the two endpoint lists' spreads: non-negative, between the two spreads, and 2e <= sum < 2e + 2 |
| `GridEstimator.CellDims` | hough_grid.py:89-99 | cell width and height are non-negative and satisfy 9c <= total < 9c + 9, i.e. a ninth of the total rounded down |
| `GridEstimator.Origin` | hough_grid.py:60-61 | the top-left coordinate on an axis is an element of one of the two endpoint lists and no greater than any element of either |
| `GridEstimator.GridInfo` | hough_grid.py:54-55 | the grid estimate is a list of exactly four values |
| `GridEstimator.GridInfoOrigin` | hough_grid.py:59-63 | start_x is <= every x1 and x2 and equals one of them; start_y likewise for the y values |
| `GridEstimator.GridInfoCellSize` | hough_grid.py:64-67 | the third and fourth values are non-negative and a ninth, rounded down, of the estimated total width and height |
| `GridEstimator.CalculateCells` | hough_grid.py:56-68 | on a non-empty input, the appended list is [origin x, origin y, cell width, cell height] of the flattened entries |
| `GridEstimator.GridInfoOrderIndependent` | hough_grid.py:60-61 | any two segment lists holding the same segments, reordered or with some repeated, give the same grid estimate |
| `GridEstimator.LinesOrderIndependent` | hough_grid.py:56-68 | reordering the detector's nested list of lines leaves the estimate built from it unchanged, and keeps it non-empty |
| `GridEstimator.SingleSegmentDegenerate` | hough_grid.py:92-98 | a single segment yields origin (min(x1, x2), min(y1, y2)) and zero-sized cells |
| `GridEstimator.BordersEstimate` | hough_grid.py:56-68 | the four outer borders alone of a w by h rectangle at (x, y) yield [x, y, w / 9, h / 9] |
| `GridEstimator.EnclosedExtrema` | hough_grid.py:60-61 | segments that include the four borders of a w by h rectangle at (x, y), each with its endpoints in either order, and stay inside it have, on every coordinate list, min and max equal to the rectangle's edges |
| `GridEstimator.EnclosedLinesEstimate` | hough_grid.py:56-68 | any segments, in any order, that include the four borders of a w by h rectangle at (x, y), each with its endpoints in either order, and stay inside it, interior lines included, yield [x, y, w / 9, h / 9] |
| `GridEstimator.IdealGridEstimate` | hough_grid.py:56-68 | the ideal grid of ten horizontal and ten vertical lines with c by d cells at (x, y) yields exactly [x, y, c, d]; a 180 by 180 grid at (0, 0) gives [0, 0, 20, 20] |
| `CellSlicer.SliceBound` | hough_grid.py:126 | a numpy slice bound in [0, n] is left alone, one past n becomes n, and a negative one counts back from n and stops at 0 |
| `CellSlicer.Slice` | hough_grid.py:126 | a numpy slice never reads out of range: in range it is s[start..stop], and it is empty from the end on |
| `CellSlicer.GridSlice` | hough_grid.py:123-126 | the cut-out never has more rows than the image, and a start past the image gives an empty cut-out |
| `CellSlicer.GridSliceClipped` | hough_grid.py:123-126 | from a non-negative corner, the cut-out keeps min(width + 1, rows left) rows of the image; row i keeps min(height + 1, pixels left) pixels of image row x_start + i, or none when y_start is past its end; pixel [i][j] is img[x_start + i][y_start + j] |
| `CellSlicer.GridSliceFits` | hough_grid.py:124-126 | inside the image, the cut-out is the (width + 1) by (height + 1) block with corner img[x_start][y_start], x on the first dimension |
| `CellSlicer.CollectSquares` | hough_grid.py:106-117 | the list is returned exactly when all 81 cut-outs are non-empty; it is then 9 by 9, slot [x-1][y-1] holds the resized cut-out of the cell starting at (x_pos + cell_width*x, y_pos + cell_height*y), and the 81 writes hit distinct in-range slots; otherwise the error names the first empty cell in loop order (y outer, x inner), and every cell before it was non-empty; in both cases the k-th logged write is slot [k % 9][k / 9], so exactly the cells before the stopping point were written, each once |
| `CellSlicer.NoEmptyCutWhenFits` | hough_grid.py:113-116 | when the image holds the whole layout, none of the 81 cut-outs is empty, so the resize never raises |
| `CellSlicer.LayoutCoverage` | hough_grid.py:111-114 | the cells for offsets 1..9 together cover exactly the lines from one cell to ten cells past the origin, the last line included |
| `CellSlicer.CellFits` | hough_grid.py:113-114 | when the image holds the whole layout, the rectangle of every cell (x, y) with x, y in 1..9 lies inside the image, so its cut-out is the full (w + 1) by (h + 1) block starting x cells and y cells past the origin |
| `CellSlicer.LayoutAgainstEstimate` | hough_grid.py:110-114 | from an estimate with non-zero cells, no cell contains the origin line; with cells of at least 9 pixels, the layout reaches past the estimated far edge |

## Left out

- `canny_edges` and the `cv2.HoughLinesP` call (hough_grid.py:32-33, 42) are calls into the vision library. The model starts from the detector's list of segments.
- `cv2.resize` to 28 by 28 (hough_grid.py:115-116) is library-defined floating-point interpolation. It is the parameter `resize` of `CollectSquares`, so the size of the resized images is not modelled. Its one failure that depends on the input, an empty cut-out, is modelled as `ResizeError`.
- CellSlicer.GridSliceClipped: only covers non-negative corners and sizes. Negative starts wrap around from the image's end as `SliceBound` states. They arise only from a malformed estimate, since detected pixel coordinates are non-negative and `GridInfoCellSize` gives non-negative cell sizes.
- `count_sudoku`'s display loop (`imshow`, `waitKey`, `destroyAllWindows`, hough_grid.py:46-50) is user-interface I/O.
- `THETA` (hough_grid.py:14), the other detector thresholds, the drawing constants and the matplotlib import (hough_grid.py:4, 20-23) are only passed to the library or are unused.
- `cv2.HoughLinesP` returns `None`, not an empty list, when it finds no line. Iterating over `None` raises in `decompose_lines`. The model's segment lists are never `None`, and `CalculateCells` requires at least one entry.
- Coordinates are unbounded integers. numpy's 32-bit integer wrap-around is not modelled, because pixel coordinates are far below that range.
- An entry is modelled as exactly four integers. The source only reads `entry[0]` to `entry[3]`.
- The image is an immutable value (`seq<seq<T>>`). That it is not modified holds by construction. Rows of different lengths, which a numpy array cannot have, are allowed but unused by the lemmas.
- CellSlicer.CollectSquares: decides an empty cut-out with `EmptyCut`, which looks only at the number of rows and the first row's length. On a rectangular image, as every numpy image is, that is exactly numpy's empty size. On a ragged image, a cut-out whose later row is empty would still be passed to `resize`.
- numpy slices are views that share memory with the image. The model copies the values, so aliasing between cells and the image is not captured.
