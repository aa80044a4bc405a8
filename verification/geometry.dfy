/**
 The rectangle and index arithmetic of the letter-table extractor
 (IS-N3/main.py): splitting a table image into equal cells, cutting a cell
 into quadrants, and cutting a table along detected grid lines. Images are
 represented by their height and width only; a cut-out is the region of
 the slice `image[top:bottom, left:right]` the source asks for.
 */
module Geometry {

  /** A computation that may stop with Python's ZeroDivisionError. */
  datatype Divided<T> = Ok(value: T) | ZeroDivisionError

  /** Python's `a // b`: the quotient rounded towards minus infinity. */
  function FloorDiv(a: int, b: int): (q: int)
    requires b != 0
    ensures b > 0 ==> q * b <= a < q * b + b
    ensures b < 0 ==> q * b + b < a <= q * b
  {
    if b > 0 then a / b else (-a) / (-b)
  }

  /** `[f(i, j) for i in range(n) for j in range(m)]`: row-major, i outer.
      A non-positive bound gives no entries. */
  function Nested<T>(n: int, m: int, f: (int, int) --> T): (r: seq<T>)
    requires forall i, j :: 0 <= i < n && 0 <= j < m ==> f.requires(i, j)
    ensures |r| == if n > 0 && m > 0 then n * m else 0
    decreases n
  {
    if n <= 0 || m <= 0 then []
    else Nested(n - 1, m, f) + seq(m, j requires 0 <= j < m => f(n - 1, j))
  }

  lemma MulMonotone(a: int, b: int, m: nat)
    requires a <= b
    ensures a * m <= b * m
  {
  }

  /** Entry i * m + j of the nested list is f(i, j). */
  lemma {:induction false} NestedAt<T>(n: int, m: int, f: (int, int) --> T, i: int, j: int)
    requires forall i, j :: 0 <= i < n && 0 <= j < m ==> f.requires(i, j)
    requires 0 <= i < n && 0 <= j < m
    ensures 0 <= i * m + j < |Nested(n, m, f)|
    ensures Nested(n, m, f)[i * m + j] == f(i, j)
    decreases n
  {
    var prev := Nested(n - 1, m, f);
    MulMonotone(i, n - 1, m);
    if i < n - 1 {
      MulMonotone(i + 1, n - 1, m);
      NestedAt(n - 1, m, f, i, j);
      assert i * m + j < |prev|;
    } else {
      assert i * m == |prev|;
    }
  }

  /** Every entry of the nested list is f(k / m, k % m): exactly the pairs
      (i, j) with 0 <= i < n and 0 <= j < m, in row-major order. */
  lemma NestedIndex<T>(n: int, m: int, f: (int, int) --> T, k: int)
    requires forall i, j :: 0 <= i < n && 0 <= j < m ==> f.requires(i, j)
    requires 0 <= k < |Nested(n, m, f)|
    ensures 0 <= k / m < n && 0 <= k % m < m
    ensures Nested(n, m, f)[k] == f(k / m, k % m)
  {
    assert n > 0 && m > 0;
    var i, j := k / m, k % m;
    assert k == i * m + j;
    if i >= n {
      MulMonotone(n, i, m);
    }
    NestedAt(n, m, f, i, j);
  }

  /** The region `image[top:bottom, left:right]`. */
  datatype Region = Region(top: int, bottom: int, left: int, right: int) {
    function Height(): int { bottom - top }
    function Width(): int { right - left }

    /** Lies within an image of height h and width w. */
    predicate Within(h: int, w: int) {
      0 <= top <= bottom <= h && 0 <= left <= right <= w
    }
  }

  /** The two regions share no pixel. */
  predicate Disjoint(a: Region, b: Region) {
    a.bottom <= b.top || b.bottom <= a.top || a.right <= b.left || b.right <= a.left
  }

  /** A cut-out tagged with its (row, column) index. */
  datatype Tile = Tile(row: int, col: int, region: Region)

  /** The cell of `split_table_into_cells` at (i, j). */
  function TableCell(i: int, j: int, cellHeight: int, cellWidth: int): Tile {
    Tile(i, j, Region(i * cellHeight, i * cellHeight + cellHeight, j * cellWidth, j * cellWidth + cellWidth))
  }

  /** `split_table_into_cells` (lines 40-52) on an h x w image. Both
      divisions happen before the loops, so a zero count of either kind
      fails even when the other is negative. */
  function SplitTable(h: nat, w: nat, rows: int, cols: int): (r: Divided<seq<Tile>>)
    ensures r.ZeroDivisionError? <==> rows == 0 || cols == 0
    ensures r.Ok? ==> |r.value| == if rows > 0 && cols > 0 then rows * cols else 0
  {
    if rows == 0 || cols == 0 then ZeroDivisionError
    else
      var cellHeight := FloorDiv(h, rows);
      var cellWidth := FloorDiv(w, cols);
      Ok(Nested(rows, cols, (i, j) => TableCell(i, j, cellHeight, cellWidth)))
  }

  /** i equal slices of size n // d fit into n when 0 <= i <= d. */
  lemma SlicesFit(n: nat, d: int, i: int)
    requires 0 < d && 0 <= i <= d
    ensures 0 <= FloorDiv(n, d) && i * FloorDiv(n, d) <= n
  {
    MulMonotone(i, d, FloorDiv(n, d));
  }

  /** Slice i of size n // d, for 0 <= i < d, lies within [0, n]. */
  lemma SliceWithin(n: nat, d: int, i: int)
    requires 0 < d && 0 <= i < d
    ensures 0 <= i * FloorDiv(n, d) && i * FloorDiv(n, d) + FloorDiv(n, d) <= n
  {
    var q := FloorDiv(n, d);
    SlicesFit(n, d, i + 1);
    assert (i + 1) * q == i * q + q;
  }

  /** Entry k of the split table is the cell tagged (k / cols, k % cols):
      it starts at row (k / cols) * (h // rows) and column
      (k % cols) * (w // cols), has size (h // rows) x (w // cols) and lies
      within the image. */
  lemma SplitTableAt(h: nat, w: nat, rows: int, cols: int, k: int)
    requires rows != 0 && cols != 0 && 0 <= k < |SplitTable(h, w, rows, cols).value|
    ensures 0 <= k / cols < rows && 0 <= k % cols < cols
    ensures var cell := SplitTable(h, w, rows, cols).value[k];
            && cell == TableCell(k / cols, k % cols, FloorDiv(h, rows), FloorDiv(w, cols))
            && cell.region.Height() == FloorDiv(h, rows) && cell.region.Width() == FloorDiv(w, cols)
            && cell.region.Within(h, w)
  {
    var ch, cw := FloorDiv(h, rows), FloorDiv(w, cols);
    var f := (i, j) => TableCell(i, j, ch, cw);
    assert SplitTable(h, w, rows, cols).value == Nested(rows, cols, f);
    NestedIndex(rows, cols, f, k);
    TableCellWithin(h, w, rows, cols, k / cols, k % cols);
  }

  /** The cell at (i, j) lies within the image when 0 <= i < rows and
      0 <= j < cols. */
  lemma TableCellWithin(h: nat, w: nat, rows: int, cols: int, i: int, j: int)
    requires 0 <= i < rows && 0 <= j < cols
    ensures TableCell(i, j, FloorDiv(h, rows), FloorDiv(w, cols)).region.Within(h, w)
  {
    SliceWithin(h, rows, i);
    SliceWithin(w, cols, j);
  }

  /** Distinct indices have distinct (quotient, remainder) pairs. */
  lemma DivModApart(k: int, l: int, m: int)
    requires 0 < m && k != l
    ensures (k / m, k % m) != (l / m, l % m)
  {
  }

  /** No two cells of the split table share a pixel. */
  lemma SplitTableDisjoint(h: nat, w: nat, rows: int, cols: int, k: int, l: int)
    requires rows != 0 && cols != 0
    requires 0 <= k < |SplitTable(h, w, rows, cols).value| && 0 <= l < |SplitTable(h, w, rows, cols).value| && k != l
    ensures Disjoint(SplitTable(h, w, rows, cols).value[k].region, SplitTable(h, w, rows, cols).value[l].region)
  {
    SplitTableAt(h, w, rows, cols, k);
    SplitTableAt(h, w, rows, cols, l);
    SlicesFit(h, rows, 0);
    SlicesFit(w, cols, 0);
    DivModApart(k, l, cols);
    TilesApart(k / cols, k % cols, l / cols, l % cols, FloorDiv(h, rows), FloorDiv(w, cols));
  }

  /** Cells of the same size at different grid positions do not overlap. */
  lemma TilesApart(i1: int, j1: int, i2: int, j2: int, ch: nat, cw: nat)
    requires (i1, j1) != (i2, j2)
    ensures Disjoint(TableCell(i1, j1, ch, cw).region, TableCell(i2, j2, ch, cw).region)
  {
    if i1 < i2 {
      MulMonotone(i1 + 1, i2, ch);
    } else if i2 < i1 {
      MulMonotone(i2 + 1, i1, ch);
    } else if j1 < j2 {
      MulMonotone(j1 + 1, j2, cw);
    } else {
      MulMonotone(j2 + 1, j1, cw);
    }
  }

  function Min(a: int, b: int): int {
    if a <= b then a else b
  }

  /** The quadrant of `divide_into_quadrants` at (i, j): its far edges are
      clipped to the image. */
  function Quadrant(i: int, j: int, quadHeight: int, quadWidth: int, h: int, w: int): Tile {
    Tile(i, j, Region(i * quadHeight, Min((i + 1) * quadHeight, h), j * quadWidth, Min((j + 1) * quadWidth, w)))
  }

  /** `divide_into_quadrants` (lines 159-176) on an h x w image. */
  function Quadrants(h: nat, w: nat, widthDiv: int, heightDiv: int): (r: Divided<seq<Tile>>)
    ensures r.ZeroDivisionError? <==> widthDiv == 0 || heightDiv == 0
    ensures r.Ok? ==> |r.value| == if heightDiv > 0 && widthDiv > 0 then heightDiv * widthDiv else 0
  {
    if heightDiv == 0 || widthDiv == 0 then ZeroDivisionError
    else
      var quadHeight := FloorDiv(h, heightDiv);
      var quadWidth := FloorDiv(w, widthDiv);
      Ok(Nested(heightDiv, widthDiv, (i, j) => Quadrant(i, j, quadHeight, quadWidth, h, w)))
  }

  /** Inside the loops the clip to the image edge never bites. */
  lemma QuadrantUnclipped(h: nat, w: nat, widthDiv: int, heightDiv: int, i: int, j: int)
    requires 0 <= i < heightDiv && 0 <= j < widthDiv
    ensures Quadrant(i, j, FloorDiv(h, heightDiv), FloorDiv(w, widthDiv), h, w)
         == TableCell(i, j, FloorDiv(h, heightDiv), FloorDiv(w, widthDiv))
  {
    SlicesFit(h, heightDiv, i + 1);
    SlicesFit(w, widthDiv, j + 1);
  }

  /** The clipping never takes effect: the quadrants are exactly the cells
      `split_table_into_cells` cuts with heightDiv rows and widthDiv
      columns, so they too are tagged in row-major order, lie within the
      image and are pairwise disjoint. */
  lemma QuadrantsAreTableCells(h: nat, w: nat, widthDiv: int, heightDiv: int)
    requires widthDiv != 0 && heightDiv != 0
    ensures Quadrants(h, w, widthDiv, heightDiv) == SplitTable(h, w, heightDiv, widthDiv)
  {
    var qh, qw := FloorDiv(h, heightDiv), FloorDiv(w, widthDiv);
    var f := (i, j) => Quadrant(i, j, qh, qw, h, w);
    var g := (i, j) => TableCell(i, j, qh, qw);
    var a, b := Nested(heightDiv, widthDiv, f), Nested(heightDiv, widthDiv, g);
    forall k | 0 <= k < |a|
      ensures a[k] == b[k]
    {
      NestedIndex(heightDiv, widthDiv, f, k);
      NestedIndex(heightDiv, widthDiv, g, k);
      QuadrantUnclipped(h, w, widthDiv, heightDiv, k / widthDiv, k % widthDiv);
    }
    assert a == b;
  }

  /** A cell cut along detected grid lines: its corners and its tag (i, j),
      i indexing the vertical lines `xs` and j the horizontal lines `ys`. */
  datatype LineCell = LineCell(x1: int, y1: int, x2: int, y2: int, i: int, j: int) {
    function Area(): Region { Region(y1, y2, x1, x2) }
  }

  /** `get_cell_from_image` (lines 97-108): one cell between each pair of
      consecutive vertical lines and each pair of consecutive horizontal
      lines, shrunk by `padding` on every side, with the xs index outer. */
  function CellsFromLines(xs: seq<int>, ys: seq<int>, padding: int): (r: seq<LineCell>)
    ensures |r| == if |xs| >= 2 && |ys| >= 2 then (|xs| - 1) * (|ys| - 1) else 0
  {
    Nested(|xs| - 1, |ys| - 1,
      (i, j) requires 0 <= i < |xs| - 1 && 0 <= j < |ys| - 1 => PaddedCell(xs, ys, padding, i, j))
  }

  /** The padded rectangle between lines i and i + 1 of xs and lines j
      and j + 1 of ys, tagged (i, j). */
  function PaddedCell(xs: seq<int>, ys: seq<int>, padding: int, i: int, j: int): LineCell
    requires 0 <= i < |xs| - 1 && 0 <= j < |ys| - 1
  {
    LineCell(xs[i] + padding, ys[j] + padding, xs[i + 1] - padding, ys[j + 1] - padding, i, j)
  }

  /** Entry k is the padded cell i = k / (|ys| - 1), j = k % (|ys| - 1):
      the xs index is the outer one. */
  lemma CellsFromLinesAt(xs: seq<int>, ys: seq<int>, padding: int, k: int)
    requires 0 <= k < |CellsFromLines(xs, ys, padding)|
    ensures 0 <= k / (|ys| - 1) < |xs| - 1 && 0 <= k % (|ys| - 1) < |ys| - 1
    ensures CellsFromLines(xs, ys, padding)[k] == PaddedCell(xs, ys, padding, k / (|ys| - 1), k % (|ys| - 1))
  {
    NestedIndex(|xs| - 1, |ys| - 1,
      (i, j) requires 0 <= i < |xs| - 1 && 0 <= j < |ys| - 1 => PaddedCell(xs, ys, padding, i, j), k);
  }

  /** The last cell is tagged (|xs| - 2, |ys| - 2). */
  lemma LastCellTag(xs: seq<int>, ys: seq<int>, padding: int)
    requires |CellsFromLines(xs, ys, padding)| > 0
    ensures var cells := CellsFromLines(xs, ys, padding);
            cells[|cells| - 1].i == |xs| - 2 && cells[|cells| - 1].j == |ys| - 2
  {
    var a, b := |xs| - 1, |ys| - 1;
    assert (a - 1) * b + (b - 1) == a * b - 1;
    NestedAt(a, b,
      (i, j) requires 0 <= i < |xs| - 1 && 0 <= j < |ys| - 1 => PaddedCell(xs, ys, padding, i, j), a - 1, b - 1);
  }

  /** The letters of the table, one per column of cells. */
  const LetterColumns: nat := 25
  /** The samples of each letter, one per row of cells. */
  const SampleRows: nat := 50

  /** The sanity checks of lines 286-292: 25 x 50 cells, the last tagged
      (24, 49). */
  predicate ChecksPass(cells: seq<LineCell>) {
    |cells| == LetterColumns * SampleRows
    && cells[|cells| - 1].i == LetterColumns - 1 && cells[|cells| - 1].j == SampleRows - 1
  }

  /** The checks pass exactly when 26 vertical and 51 horizontal grid
      lines were found, and then every column tag indexes a letter. */
  lemma ChecksPassExactly(xs: seq<int>, ys: seq<int>, padding: int)
    ensures ChecksPass(CellsFromLines(xs, ys, padding)) <==> |xs| == LetterColumns + 1 && |ys| == SampleRows + 1
    ensures ChecksPass(CellsFromLines(xs, ys, padding)) ==>
              forall k :: 0 <= k < |CellsFromLines(xs, ys, padding)| ==>
                0 <= CellsFromLines(xs, ys, padding)[k].i < LetterColumns
  {
    var cells := CellsFromLines(xs, ys, padding);
    if ChecksPass(cells) {
      LastCellTag(xs, ys, padding);
      forall k | 0 <= k < |cells|
        ensures 0 <= cells[k].i < LetterColumns
      {
        CellsFromLinesAt(xs, ys, padding, k);
      }
    } else if |xs| == LetterColumns + 1 && |ys| == SampleRows + 1 {
      LastCellTag(xs, ys, padding);
    }
  }
}
