/** Where a grid cell (row r, column c) lands in the pixel buffer sent to the LEDs.

    - avgdepth.c:49 and particles.c:54 wire the strip as a serpentine: column c holds the
      indices [c*rows, (c+1)*rows), even columns run from row 0 down, odd columns back up.
    - play.c:299 looks the cell up in a table read from map.txt, after optionally
      mirroring the 25 columns (`c_flip`). */
module Layout {
  import opened CArith

  datatype Cell = Cell(r: int, c: int)

  /** `pixel_rc(r, c)` of avgdepth.c and particles.c, as a buffer index. */
  function SerpentineIndex(rows: nat, r: int, c: nat): (i: int)
    requires 0 <= r < rows
    ensures c * rows <= i < c * rows + rows
  {
    c * rows + (if (c + 1) % 2 != 0 then r else rows - 1 - r)
  }

  /** The cell wired to buffer index i. */
  function SerpentineCell(rows: nat, i: nat): (cell: Cell)
    requires 0 < rows
    ensures 0 <= cell.r < rows && 0 <= cell.c
  {
    DivNonneg(i, rows);
    var c := i / rows;
    var off := i % rows;
    Cell(if c % 2 == 0 then off else rows - 1 - off, c)
  }

  /** Every grid cell is recovered from its index (so distinct cells get distinct indices). */
  lemma SerpentineRoundTrip(rows: nat, r: int, c: nat)
    requires 0 <= r < rows
    ensures SerpentineCell(rows, SerpentineIndex(rows, r, c)) == Cell(r, c)
  {
    var i := SerpentineIndex(rows, r, c);
    DivModUnique(i, c, i - c * rows, rows);
  }

  /** The index lies in [0, rows*cols) for every cell of a rows x cols grid. */
  lemma SerpentineInRange(rows: nat, cols: nat, r: int, c: nat)
    requires 0 <= r < rows && c < cols
    ensures 0 <= SerpentineIndex(rows, r, c) < rows * cols
  {
    MulNonneg(c, rows);
    MulMonotone(c + 1, cols, rows);
  }

  /** Every index of [0, rows*cols) is wired to a cell of the grid: together with the round
      trip, the serpentine is a bijection from the grid onto [0, rows*cols). */
  lemma SerpentineOnto(rows: nat, cols: nat, i: nat)
    requires 0 < rows && i < rows * cols
    ensures SerpentineCell(rows, i).c < cols
    ensures SerpentineIndex(rows, SerpentineCell(rows, i).r, SerpentineCell(rows, i).c) == i
  {
    DivNonneg(i, rows);
    var c := i / rows;
    assert i == c * rows + i % rows;
    if c >= cols {
      MulMonotone(cols, c, rows);
      assert false;
    }
  }

  lemma SerpentineInjective(rows: nat, r1: int, c1: nat, r2: int, c2: nat)
    requires 0 <= r1 < rows && 0 <= r2 < rows
    requires SerpentineIndex(rows, r1, c1) == SerpentineIndex(rows, r2, c2)
    ensures r1 == r2 && c1 == c2
  {
    SerpentineRoundTrip(rows, r1, c1);
    SerpentineRoundTrip(rows, r2, c2);
  }

  /** Consecutive LEDs sit in neighbouring cells: down an even column, up an odd one, and
      from the end of one column across to the same row of the next. */
  lemma SerpentineContiguous(rows: nat, i: nat)
    requires 0 < rows
    ensures var a, b := SerpentineCell(rows, i), SerpentineCell(rows, i + 1);
      Abs(a.r - b.r) + Abs(a.c - b.c) == 1
  {
    DivNonneg(i, rows);
    var c := i / rows;
    var off := i % rows;
    assert i == c * rows + off;
    if off + 1 < rows {
      DivModUnique(i + 1, c, off + 1, rows);
    } else {
      DivModUnique(i + 1, c + 1, 0, rows);
    }
  }

  // ---------------------------------------------------------------- play.c

  /** The camera frame: 640 x 480 depth samples, row-major. */
  const CamWidth := 640
  const CamHeight := 480
  const CamSize := 640 * 480

  /** play.c's LED grid: 50 rows of 25 columns, 1250 pixels. */
  const LedRows := 50
  const LedCols := 25
  const LedCount := 1250

  /** `c_flip ? 24 - c : c`. */
  function MirrorColumn(c: int, flip: bool): (m: int)
    requires 0 <= c < LedCols
    ensures 0 <= m < LedCols
    ensures flip ==> m + c == LedCols - 1
    ensures !flip ==> m == c
  {
    if flip then LedCols - 1 - c else c
  }

  /** Mirroring twice restores the column, so mirroring is a bijection of [0, 25). */
  lemma MirrorInvolution(c: int, flip: bool)
    requires 0 <= c < LedCols
    ensures MirrorColumn(MirrorColumn(c, flip), flip) == c
  {}

  predicate WellShapedMap(pixelMap: seq<seq<int>>)
  {
    |pixelMap| == LedRows && forall r :: 0 <= r < LedRows ==> |pixelMap[r]| == LedCols
  }

  /** `pixel_rc(r, c)` of play.c, as a buffer index: the map entry of the mirrored column. */
  function PlayPixelIndex(pixelMap: seq<seq<int>>, r: int, c: int, flip: bool): int
    requires WellShapedMap(pixelMap)
    requires 0 <= r < LedRows && 0 <= c < LedCols
  {
    pixelMap[r][MirrorColumn(c, flip)]
  }

  /** Toggling the flip mirrors the strip: cell c with the flip addresses what cell 24 - c
      addresses without it. */
  lemma PlayFlipMirrors(pixelMap: seq<seq<int>>, r: int, c: int)
    requires WellShapedMap(pixelMap)
    requires 0 <= r < LedRows && 0 <= c < LedCols
    ensures PlayPixelIndex(pixelMap, r, c, true) == PlayPixelIndex(pixelMap, r, LedCols - 1 - c, false)
  {}
}
