/**
 * The board of main.c as a value: GRID_HEIGHT rows of GRID_WIDTH cells, the
 * first index giving the cell's x origin and the second its y origin. This
 * module states what initialisation produces and what one frame's click pass
 * does to it; the class in module Game runs the same steps in place on an
 * array and is proved against these functions.
 */
module Board {
  import opened Wrappers
  import opened Geometry

  /** A cell_t without its `ismine` flag, which main.c never sets or reads. */
  datatype Cell = Cell(pos: Rect, clicked: bool)

  type Cells = seq<seq<Cell>>

  /** The rectangle covered by cell [i][j]: x from the first index, y from the second. */
  function CellRect(i: int, j: int): Rect
  {
    Rect(i * CELLSIZE, j * CELLSIZE, CELLSIZE, CELLSIZE)
  }

  /** Cell [i][j] as the initialisation loop leaves it. */
  function InitialCell(i: int, j: int): Cell
  {
    Cell(CellRect(i, j), false)
  }

  /** The whole board as the initialisation loop leaves it. */
  function InitialCells(): (b: Cells)
    ensures |b| == GRID_HEIGHT
    ensures forall i :: 0 <= i < GRID_HEIGHT ==> |b[i]| == GRID_WIDTH
  {
    seq(GRID_HEIGHT, i => seq(GRID_WIDTH, j => InitialCell(i, j)))
  }

  /** Board shape and cell geometry: every cell covers the rectangle its indices give it. */
  ghost predicate WellPlaced(b: Cells)
  {
    && |b| == GRID_HEIGHT
    && (forall i :: 0 <= i < GRID_HEIGHT ==> |b[i]| == GRID_WIDTH)
    && (forall i, j :: 0 <= i < GRID_HEIGHT && 0 <= j < GRID_WIDTH ==> b[i][j].pos == CellRect(i, j))
  }

  /** The set of index pairs of clicked cells. */
  ghost function ClickedSet(b: Cells): set<(int, int)>
  {
    set i, j | 0 <= i < |b| && 0 <= j < |b[i]| && b[i][j].clicked :: (i, j)
  }

  /** The comparison in the click pass: the last press position equals this cell's origin. */
  predicate Hit(player: Option<Rect>, c: Cell)
  {
    player.Some? && player.value.x == c.pos.x && player.value.y == c.pos.y
  }

  /**
   * One cell after the click pass; no press yet means nothing to compare
   * against. The cell keeps its place, and `clicked` changes only from false
   * to true and only when the press position is the cell's origin.
   */
  function MarkCell(c: Cell, player: Option<Rect>): (r: Cell)
    ensures r.pos == c.pos
    ensures c.clicked ==> r.clicked
    ensures r.clicked != c.clicked ==> player.Some? && player.value.x == c.pos.x && player.value.y == c.pos.y
    ensures player.Some? && player.value.x == c.pos.x && player.value.y == c.pos.y ==> r.clicked
  {
    if Hit(player, c) then c.(clicked := true) else c
  }

  /** The board after one frame's click pass, cell by cell. */
  function Mark(b: Cells, player: Option<Rect>): (r: Cells)
    ensures |r| == |b|
    ensures forall i :: 0 <= i < |b| ==> |r[i]| == |b[i]|
    ensures forall i, j :: 0 <= i < |b| && 0 <= j < |b[i]| ==>
              r[i][j].pos == b[i][j].pos && (b[i][j].clicked ==> r[i][j].clicked)
  {
    seq(|b|, i requires 0 <= i < |b| => seq(|b[i]|, j requires 0 <= j < |b[i]| => MarkCell(b[i][j], player)))
  }

  /** Initialisation yields a well-placed board with no cell clicked. */
  lemma InitialCellsFacts()
    ensures WellPlaced(InitialCells())
    ensures ClickedSet(InitialCells()) == {}
    ensures forall i, j :: 0 <= i < GRID_HEIGHT && 0 <= j < GRID_WIDTH ==>
              var c := InitialCells()[i][j];
              !c.clicked && c.pos.x == i * CELLSIZE && c.pos.y == j * CELLSIZE
              && c.pos.w == CELLSIZE && c.pos.h == CELLSIZE
  {
  }

  /** The click pass moves no cell and keeps every click. */
  lemma MarkKeepsPlacementAndClicks(b: Cells, player: Option<Rect>)
    ensures WellPlaced(b) ==> WellPlaced(Mark(b, player))
    ensures ClickedSet(b) <= ClickedSet(Mark(b, player))
  {
  }

  /**
   * On a well-placed board the click pass clicks exactly cell [px / CELLSIZE][py / CELLSIZE]
   * (C division) for a press snapped from pixel (px, py): every other cell keeps its state.
   */
  lemma MarkClicksSnappedCell(b: Cells, px: int, py: int)
    requires WellPlaced(b)
    ensures forall i, j :: 0 <= i < GRID_HEIGHT && 0 <= j < GRID_WIDTH ==>
              Mark(b, Some(CursorAt(px, py)))[i][j].clicked
              == (b[i][j].clicked || (i == CellIndex(px) && j == CellIndex(py)))
  {
    var p := Some(CursorAt(px, py));
    forall i, j | 0 <= i < GRID_HEIGHT && 0 <= j < GRID_WIDTH
      ensures Mark(b, p)[i][j].clicked == (b[i][j].clicked || (i == CellIndex(px) && j == CellIndex(py)))
    {
      assert b[i][j].pos == CellRect(i, j);
      assert Hit(p, b[i][j]) <==> i == CellIndex(px) && j == CellIndex(py);
    }
  }

  /** The cell a press at pixel (px, py) targets, when that index pair is on the board. */
  function Target(px: int, py: int): (t: Option<(int, int)>)
    ensures t.Some? ==> 0 <= t.value.0 < GRID_HEIGHT && 0 <= t.value.1 < GRID_WIDTH
    ensures t.None? <==> !(0 <= CellIndex(px) < GRID_HEIGHT && 0 <= CellIndex(py) < GRID_WIDTH)
    ensures t.Some? ==> t.value == (CellIndex(px), CellIndex(py))
  {
    var i, j := CellIndex(px), CellIndex(py);
    if 0 <= i < GRID_HEIGHT && 0 <= j < GRID_WIDTH then Some((i, j)) else None
  }

  /** The set of index pairs an optional target contributes. */
  function TargetSet(t: Option<(int, int)>): set<(int, int)>
  {
    if t.Some? then {t.value} else {}
  }

  /**
   * The clicked set after the pass is the old one plus the press's target, if
   * that is on the board; so it grows by at most one cell.
   */
  lemma MarkClickedSet(b: Cells, px: int, py: int)
    requires WellPlaced(b)
    ensures ClickedSet(Mark(b, Some(CursorAt(px, py))))
            == ClickedSet(b) + TargetSet(Target(px, py))
    ensures |ClickedSet(Mark(b, Some(CursorAt(px, py))))| <= |ClickedSet(b)| + 1
  {
    var p := Some(CursorAt(px, py));
    MarkClicksSnappedCell(b, px, py);
    var after, before, t := ClickedSet(Mark(b, p)), ClickedSet(b), TargetSet(Target(px, py));
    forall q | q in after ensures q in before + t {
      var (i, j) := q;
      assert Mark(b, p)[i][j].clicked;
    }
    forall q | q in before + t ensures q in after {
      var (i, j) := q;
      assert Mark(b, p)[i][j].clicked;
    }
    assert after == before + t;
  }

  /** Without any press the click pass changes nothing. */
  lemma MarkWithoutPress(b: Cells)
    ensures Mark(b, None) == b
  {
    forall i | 0 <= i < |b| ensures Mark(b, None)[i] == b[i] {
      assert Mark(b, None)[i] == seq(|b[i]|, j requires 0 <= j < |b[i]| => b[i][j]);
    }
  }

  /**
   * A press on the closing grid line at the window's right edge (x = 840 in
   * the 841-pixel window) snaps to index GRID_HEIGHT, past the last cell, and
   * clicks nothing; likewise on the bottom edge.
   */
  lemma EdgePressClicksNothing(b: Cells, px: int, py: int)
    requires WellPlaced(b)
    requires 0 <= px < WINDOW_WIDTH && 0 <= py < WINDOW_HEIGHT
    requires px == WINDOW_WIDTH - 1 || py == WINDOW_HEIGHT - 1
    ensures Mark(b, Some(CursorAt(px, py))) == b
  {
    var p := Some(CursorAt(px, py));
    MarkClicksSnappedCell(b, px, py);
    InWindowIndex(px, GRID_HEIGHT);
    InWindowIndex(py, GRID_WIDTH);
    var m := Mark(b, p);
    forall i | 0 <= i < GRID_HEIGHT ensures m[i] == b[i] {
      forall j | 0 <= j < GRID_WIDTH ensures m[i][j] == b[i][j] {
        assert m[i][j].clicked == b[i][j].clicked;
      }
    }
  }
}
