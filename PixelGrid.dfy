/**
  The single-channel 8-bit image (an OpenCV `Mat` of type CV_8UC1) that every
  other part of the program passes around: `rows` by `cols` samples, stored
  row by row.
 */
module PixelGrid {

  /** An `uchar` sample. */
  type Byte = x: int | 0 <= x < 256

  datatype Grid = Grid(rows: nat, cols: nat, samples: seq<Byte>) {

    /** The samples fill the grid exactly, in row-major order. */
    predicate Valid() {
      |samples| == rows * cols
    }

    /** The `cols` samples of row `i` (what `ptr<uchar>(i)` points at). */
    function Row(i: nat): (row: seq<Byte>)
      requires Valid() && i < rows
      ensures |row| == cols
    {
      RowEndInBounds(rows, cols, i);
      samples[i * cols .. i * cols + cols]
    }

    /** The grid of the rows below the first one. */
    function BelowFirstRow(): (g: Grid)
      requires Valid() && rows > 0
      ensures g.Valid() && g.rows == rows - 1 && g.cols == cols
    {
      DropRow(rows, cols);
      Grid(rows - 1, cols, samples[cols..])
    }
  }

  /** The offsets at which two equally long sample buffers differ. */
  function Changed(s: seq<Byte>, t: seq<Byte>): set<nat>
    requires |s| == |t|
  {
    set p: nat | p < |s| && s[p] != t[p]
  }

  /** The sample `at<uchar>(j, i)` (row `j`, column `i`) lies inside the buffer. */
  lemma OffsetInBounds(rows: nat, cols: nat, j: nat, i: nat)
    requires j < rows && i < cols
    ensures j * cols + i < rows * cols
  {
    RowEndInBounds(rows, cols, j);
  }

  /** The offset `j * cols + i` is row `j`, column `i`: the row-major layout can be undone. */
  lemma OffsetCoordinates(cols: nat, j: nat, i: nat)
    requires i < cols
    ensures (j * cols + i) / cols == j && (j * cols + i) % cols == i
  {
    var p := j * cols + i;
    var q, r := p / cols, p % cols;
    assert q * cols + r == p;
    MulStrict(q, j + 1, cols);
    MulStrict(j, q + 1, cols);
  }

  /** A positive factor preserves strict order. */
  lemma MulStrict(a: int, b: int, c: int)
    requires c > 0 && a * c < b * c
    ensures a < b
  {
  }

  /** Row `j` ends no later than the buffer does. */
  lemma RowEndInBounds(rows: nat, cols: nat, j: nat)
    requires j < rows
    ensures j * cols + cols <= rows * cols
  {
    NextRowStart(j, cols);
    MulMonotone(j + 1, rows, cols);
  }

  /** Below its first row, a grid is the grid of its remaining rows, shifted up by one. */
  lemma RowOfRest(g: Grid, i: nat)
    requires g.Valid() && 0 < i < g.rows
    ensures g.BelowFirstRow().Row(i - 1) == g.Row(i)
  {
    RowEndInBounds(g.rows, g.cols, i);
    NextRowStart(i - 1, g.cols);
    SliceOfDrop(g.samples, g.cols, (i - 1) * g.cols, g.cols);
  }

  /** A slice of what follows the first `d` samples is a slice of the whole, shifted by `d`. */
  lemma SliceOfDrop(s: seq<Byte>, d: nat, a: nat, n: nat)
    requires d + a + n <= |s|
    ensures s[d..][a .. a + n] == s[d + a .. d + a + n]
  {
  }

  /** A non-negative factor preserves order. */
  lemma MulMonotone(a: nat, b: nat, c: nat)
    requires a <= b
    ensures a * c <= b * c
  {
  }

  /** Row `j + 1` starts where row `j` ends. */
  lemma NextRowStart(j: nat, cols: nat)
    ensures (j + 1) * cols == j * cols + cols
  {
  }

  /** Removing the first row leaves `rows - 1` rows. */
  lemma DropRow(rows: nat, cols: nat)
    requires rows > 0
    ensures rows * cols == cols + (rows - 1) * cols
  {
  }
}
