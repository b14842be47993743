/**
 * Pixel geometry of the board: the compile-time constants of main.c and the
 * integer arithmetic that snaps a pointer coordinate to the origin of the cell
 * under it.
 */
module Geometry {
  /** Size of one cell in pixels. */
  const CELLSIZE: int := 40
  /** Number of cells along the board's first index (which main.c maps to the x axis). */
  const GRID_HEIGHT: int := 21
  /** Number of cells along the board's second index (which main.c maps to the y axis). */
  const GRID_WIDTH: int := 21
  /** Window size in pixels: one extra pixel for the closing grid line. */
  const WINDOW_HEIGHT: int := CELLSIZE * GRID_HEIGHT + 1
  const WINDOW_WIDTH: int := CELLSIZE * GRID_WIDTH + 1

  /** An SDL_Rect: origin and size, in pixels. */
  datatype Rect = Rect(x: int, y: int, w: int, h: int)

  /**
   * C's `p / CELLSIZE` on a signed int: the quotient truncated toward zero
   * (Dafny's own `/` is Euclidean, which differs for negative `p`).
   * The result is the index of the cell column or row that contains `p`
   * for non-negative `p`.
   */
  function CellIndex(p: int): (k: int)
    ensures 0 <= p ==> 0 <= k && k * CELLSIZE <= p < k * CELLSIZE + CELLSIZE
    ensures p < 0 ==> k <= 0 && k * CELLSIZE - CELLSIZE < p <= k * CELLSIZE
  {
    if p >= 0 then p / CELLSIZE else -((-p) / CELLSIZE)
  }

  /**
   * `(p / CELLSIZE) * CELLSIZE` in C: the pixel coordinate of the origin of
   * the cell containing `p`. For a negative `p` the truncating division
   * rounds toward zero, so the result lies above `p`.
   */
  function Snap(p: int): (r: int)
    ensures r % CELLSIZE == 0
    ensures 0 <= p ==> 0 <= r <= p < r + CELLSIZE
    ensures p < 0 ==> r - CELLSIZE < p <= r <= 0
  {
    CellIndex(p) * CELLSIZE
  }

  /** The cell-sized rectangle at the snapped origin of pixel (x, y): where a press or motion puts its cell. */
  function CursorAt(x: int, y: int): Rect
  {
    Rect(Snap(x), Snap(y), CELLSIZE, CELLSIZE)
  }

  /** The cell origin `k * CELLSIZE` lies in cell `k`, whatever the sign of `k`. */
  lemma CellIndexOfOrigin(k: int)
    ensures CellIndex(k * CELLSIZE) == k
  {
  }

  /** A snapped coordinate lies in the same cell as the coordinate it came from. */
  lemma CellIndexOfSnap(p: int)
    ensures CellIndex(Snap(p)) == CellIndex(p)
  {
    CellIndexOfOrigin(CellIndex(p));
  }

  /** Snapping an already snapped coordinate leaves it unchanged. */
  lemma SnapIdempotent(p: int)
    ensures Snap(Snap(p)) == Snap(p)
  {
    CellIndexOfSnap(p);
  }

  /** Every multiple of CELLSIZE is a fixed point of snapping. */
  lemma SnapOfMultiple(r: int)
    requires r % CELLSIZE == 0
    ensures Snap(r) == r
  {
    CellIndexOfOrigin(r / CELLSIZE);
  }

  /**
   * Snap picks THE multiple of CELLSIZE in the half-open cell `[r, r + CELLSIZE)`
   * containing a non-negative `p`: any multiple of CELLSIZE within that distance
   * below `p` is the snapped value.
   */
  lemma SnapIsNearestMultipleBelow(p: int, r: int)
    requires 0 <= p
    requires r % CELLSIZE == 0 && r <= p < r + CELLSIZE
    ensures r == Snap(p)
  {
    var k := r / CELLSIZE;
    assert r == k * CELLSIZE;
    assert CellIndex(p) == k;
  }

  /**
   * A coordinate inside the window (0 <= p < CELLSIZE * n + 1) falls in cell
   * 0 .. n; cell index n, beyond the last cell, is reached only by the very
   * last pixel, on the closing grid line.
   */
  lemma InWindowIndex(p: int, n: int)
    requires 0 <= n
    requires 0 <= p < CELLSIZE * n + 1
    ensures 0 <= CellIndex(p) <= n
    ensures CellIndex(p) == n <==> p == CELLSIZE * n
  {
  }
}
