/**
 * The state of main's animation loop and the loop itself: the board array,
 * the pointer state, initialisation, event handling, the per-frame click pass
 * and the loop that alternates poll batches and click passes until quit. The
 * class Game runs these in place; GameState, Frame and Animate say, as
 * values, what they compute.
 */
module Minesweeper {
  import opened Wrappers
  import opened Geometry
  import opened Board
  import opened Input

  /** Everything the animation loop updates: pointer state and board. */
  datatype GameState = GameState(pointer: Pointer, cells: Cells)

  /**
   * The state before the first poll: fresh board, no press, no motion, no
   * flag set. It satisfies the between-frames invariant with no cell clicked.
   */
  function InitialState(): (g: GameState)
    ensures Inv(g)
    ensures ClickedSet(g.cells) == {}
    ensures g.pointer.player.None? && g.pointer.ghostPos.None?
    ensures !g.pointer.active && !g.pointer.hover && !g.pointer.quit
  {
    InitialPointerInv();
    InitialCellsFacts();
    GameState(InitialPointer, InitialCells())
  }

  /**
   * One iteration of the animation loop: a poll batch, then the click pass
   * with the resulting player position. The pass keeps every cell in place
   * and every click.
   */
  function Frame(g: GameState, es: seq<Event>): (r: GameState)
    ensures WellPlaced(g.cells) ==> WellPlaced(r.cells)
    ensures ClickedSet(g.cells) <= ClickedSet(r.cells)
    ensures g.pointer.quit ==> r.pointer.quit
  {
    var p := Poll(g.pointer, es);
    MarkKeepsPlacementAndClicks(g.cells, p.player);
    GameState(p, Mark(g.cells, p.player))
  }

  /**
   * The animation loop over a finite sequence of poll batches: `hasquit` is
   * tested before each iteration, so the batch holding the quit event still
   * gets its click pass and the batches after it are never polled. Clicks
   * are never undone, and once quit is set the loop does nothing more.
   */
  function Animate(g: GameState, batches: seq<seq<Event>>): (r: GameState)
    ensures ClickedSet(g.cells) <= ClickedSet(r.cells)
    ensures g.pointer.quit ==> r == g
    decreases |batches|
  {
    if batches == [] || g.pointer.quit then g else Animate(Frame(g, batches[0]), batches[1..])
  }

  /** The number of loop iterations Animate runs: one per batch until quit is set, so at most the number of batches. */
  function FramesRun(g: GameState, batches: seq<seq<Event>>): (n: nat)
    ensures n <= |batches|
    ensures g.pointer.quit ==> n == 0
    ensures !g.pointer.quit && batches != [] ==> n >= 1
    decreases |batches|
  {
    if batches == [] || g.pointer.quit then 0 else 1 + FramesRun(Frame(g, batches[0]), batches[1..])
  }

  /**
   * What holds between frames: pointer positions are snapped, cells are in
   * place, and the cell of the last press (if on the board) is clicked.
   */
  ghost predicate Inv(g: GameState)
  {
    && PointerInv(g.pointer)
    && WellPlaced(g.cells)
    && (g.pointer.player.Some? ==> PressTarget(Some((g.pointer.player.value.x, g.pointer.player.value.y))) <= ClickedSet(g.cells))
  }

  /** A snapped position is the cursor of its own origin. */
  lemma SnappedIsCursor(r: Rect)
    requires Snapped(Some(r))
    ensures r == CursorAt(r.x, r.y)
  {
    SnapOfMultiple(r.x);
    SnapOfMultiple(r.y);
  }

  /** The cells a press at pixel (px, py) addresses on the board: none, or the one under it. */
  function PressTarget(press: Option<(int, int)>): set<(int, int)>
  {
    if press.Some? then TargetSet(Target(press.value.0, press.value.1)) else {}
  }

  /**
   * The click pass after a batch, on the board alone: the player position is
   * the last press's cell or, without a press, the one kept from earlier
   * frames, whose cell is already clicked. Only the last press's cell is added.
   */
  lemma ClickPass(b: Cells, before: Option<Rect>, press: Option<(int, int)>)
    requires WellPlaced(b) && Snapped(before)
    requires before.Some? ==> PressTarget(Some((before.value.x, before.value.y))) <= ClickedSet(b)
    ensures var after := if press.Some? then CursorOf(press) else before;
      && ClickedSet(Mark(b, after)) == ClickedSet(b) + PressTarget(press)
      && (after.Some? ==> PressTarget(Some((after.value.x, after.value.y))) <= ClickedSet(Mark(b, after)))
  {
    if press.Some? {
      var (px, py) := press.value;
      MarkClickedSet(b, px, py);
      CellIndexOfSnap(px);
      CellIndexOfSnap(py);
    } else if before.Some? {
      var r := before.value;
      SnappedIsCursor(r);
      MarkClickedSet(b, r.x, r.y);
    } else {
      MarkWithoutPress(b);
    }
  }

  /**
   * One frame adds to the clicked cells exactly the cell under the LAST press
   * of its batch, when that cell is on the board: earlier presses of the
   * batch, and a batch without presses, click nothing new. The state after
   * the frame again satisfies the invariant.
   */
  lemma FrameClicks(g: GameState, es: seq<Event>)
    requires Inv(g)
    ensures Inv(Frame(g, es))
    ensures ClickedSet(Frame(g, es).cells) == ClickedSet(g.cells) + PressTarget(LastPress(es))
    ensures |ClickedSet(Frame(g, es).cells)| <= |ClickedSet(g.cells)| + 1
  {
    var p := Poll(g.pointer, es);
    PollKeepsInv(g.pointer, es);
    PollPlayer(g.pointer, es);
    ClickPass(g.cells, g.pointer.player, LastPress(es));
    assert Frame(g, es) == GameState(p, Mark(g.cells, p.player));
    assert |PressTarget(LastPress(es))| <= 1;
  }

  /**
   * Over the whole loop clicks are never undone and each frame actually run
   * adds at most one clicked cell.
   */
  lemma {:induction false} AnimateClicks(g: GameState, batches: seq<seq<Event>>)
    requires Inv(g)
    ensures Inv(Animate(g, batches))
    ensures ClickedSet(g.cells) <= ClickedSet(Animate(g, batches).cells)
    ensures |ClickedSet(Animate(g, batches).cells)| <= |ClickedSet(g.cells)| + FramesRun(g, batches)
    decreases |batches|
  {
    if batches != [] && !g.pointer.quit {
      FrameClicks(g, batches[0]);
      AnimateClicks(Frame(g, batches[0]), batches[1..]);
    }
  }

  /** The game object of main: the board array and the pointer state, updated in place. */
  class Game {
    var board: array2<Cell>
    var player: Option<Rect>
    var ghostPos: Option<Rect>
    var active: bool
    var hover: bool
    var hasquit: bool

    /** The pointer fields as a value. */
    function PointerState(): Pointer
      reads this
    {
      Pointer(player, ghostPos, active, hover, hasquit)
    }

    /** The board array as a value. */
    ghost function Cells(): Cells
      reads this`board, board
    {
      var a := board;
      seq(a.Length0, i requires 0 <= i < a.Length0 reads a =>
        seq(a.Length1, j requires 0 <= i < a.Length0 && 0 <= j < a.Length1 reads a => a[i, j]))
    }

    ghost function State(): GameState
      reads this, board
    {
      GameState(PointerState(), Cells())
    }

    /** Board dimensions, cell placement and snapped pointer positions. */
    ghost predicate Valid()
      reads this, board
    {
      && board.Length0 == GRID_HEIGHT
      && board.Length1 == GRID_WIDTH
      && WellPlaced(Cells())
      && PointerInv(PointerState())
    }

    /** Allocation of the board and the initialisation loops for board and mouse. */
    constructor ()
      ensures Valid() && fresh(board)
      ensures State() == InitialState()
    {
      var cells := new Cell[GRID_HEIGHT, GRID_WIDTH];
      for i := 0 to GRID_HEIGHT
        invariant forall a, b :: 0 <= a < i && 0 <= b < GRID_WIDTH ==> cells[a, b] == InitialCell(a, b)
      {
        for j := 0 to GRID_WIDTH
          invariant forall a, b :: 0 <= a < i && 0 <= b < GRID_WIDTH ==> cells[a, b] == InitialCell(a, b)
          invariant forall b :: 0 <= b < j ==> cells[i, b] == InitialCell(i, b)
        {
          cells[i, j] := Cell(Rect(i * CELLSIZE, j * CELLSIZE, CELLSIZE, CELLSIZE), false);
        }
      }
      board := cells;
      player, ghostPos := None, None;
      active, hover, hasquit := false, false, false;
      new;
      assert Cells() == InitialCells() by {
        forall i | 0 <= i < GRID_HEIGHT ensures Cells()[i] == InitialCells()[i] {
        }
      }
    }

    /** One iteration of the event switch. */
    method HandleEvent(e: Event)
      requires Valid()
      modifies this`player, this`ghostPos, this`active, this`hover, this`hasquit
      ensures Valid()
      ensures PointerState() == Step(old(PointerState()), e)
    {
      StepKeepsInv(PointerState(), e);
      match e
      case MouseButtonDown(x, y) =>
        player := Some(CursorAt(x, y));
      case MouseMotion(x, y) =>
        ghostPos := Some(CursorAt(x, y));
        if !active {
          active := true;
        }
      case WindowEvent(kind) =>
        if kind == Enter && !hover {
          hover := true;
        } else if kind == Leave && hover {
          hover := false;
        }
      case QuitEvent =>
        hasquit := true;
      case OtherEvent =>
    }

    /** The poll loop: every event of the batch, in order. */
    method PollEvents(events: seq<Event>)
      requires Valid()
      modifies this`player, this`ghostPos, this`active, this`hover, this`hasquit
      ensures Valid()
      ensures PointerState() == Poll(old(PointerState()), events)
    {
      var k := 0;
      while k < |events|
        invariant 0 <= k <= |events|
        invariant Valid()
        invariant PointerState() == Poll(old(PointerState()), events[..k])
      {
        assert events[..k + 1][..k] == events[..k];
        HandleEvent(events[k]);
        k := k + 1;
      }
      assert events[..k] == events;
    }

    /** The click pass: every cell whose origin is the last press position becomes clicked. */
    method MarkClicks()
      requires Valid()
      modifies board
      ensures Valid()
      ensures Cells() == Mark(old(Cells()), player)
    {
      for i := 0 to GRID_HEIGHT
        invariant forall a, b :: 0 <= a < i && 0 <= b < GRID_WIDTH ==> board[a, b] == MarkCell(old(board[a, b]), player)
        invariant forall a, b :: i <= a < GRID_HEIGHT && 0 <= b < GRID_WIDTH ==> board[a, b] == old(board[a, b])
      {
        for j := 0 to GRID_WIDTH
          invariant forall a, b :: 0 <= a < i && 0 <= b < GRID_WIDTH ==> board[a, b] == MarkCell(old(board[a, b]), player)
          invariant forall b :: 0 <= b < j ==> board[i, b] == MarkCell(old(board[i, b]), player)
          invariant forall a, b :: i <= a < GRID_HEIGHT && 0 <= b < GRID_WIDTH && (a > i || b >= j) ==> board[a, b] == old(board[a, b])
        {
          if player.Some? && player.value.x == board[i, j].pos.x && player.value.y == board[i, j].pos.y {
            board[i, j] := board[i, j].(clicked := true);
          }
        }
      }
      ghost var before := old(Cells());
      assert Cells() == Mark(before, player) by {
        forall i | 0 <= i < GRID_HEIGHT ensures Cells()[i] == Mark(before, player)[i] {
        }
      }
      MarkKeepsPlacementAndClicks(before, player);
    }

    /** The ghost cell to draw this frame, if any: drawn only while the mouse is active and hovering. */
    method GhostToDraw() returns (r: Option<Rect>)
      requires Valid()
      ensures r.Some? <==> active && hover
      ensures r.Some? ==> r == ghostPos && r.value.w == CELLSIZE && r.value.h == CELLSIZE
    {
      r := GhostShown(PointerState());
    }

    /** One iteration of the animation loop without its drawing. */
    method RunFrame(events: seq<Event>)
      requires Valid()
      modifies this`player, this`ghostPos, this`active, this`hover, this`hasquit, board
      ensures Valid()
      ensures State() == Frame(old(State()), events)
    {
      PollEvents(events);
      MarkClicks();
    }

    /**
     * The animation loop, fed one poll batch per iteration until quit or until
     * the batches run out; `frames` is the number of iterations run.
     */
    method Run(batches: seq<seq<Event>>) returns (frames: nat)
      requires Valid()
      modifies this`player, this`ghostPos, this`active, this`hover, this`hasquit, board
      ensures Valid()
      ensures State() == Animate(old(State()), batches)
      ensures frames == FramesRun(old(State()), batches)
    {
      var k := 0;
      while !hasquit && k < |batches|
        invariant 0 <= k <= |batches|
        invariant Valid()
        invariant Animate(old(State()), batches) == Animate(State(), batches[k..])
        invariant FramesRun(old(State()), batches) == k + FramesRun(State(), batches[k..])
      {
        RunFrame(batches[k]);
        assert batches[k..][1..] == batches[k + 1..];
        k := k + 1;
      }
      frames := k;
    }
  }
}
