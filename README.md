# Minesweeper cursor iteration: a Dafny model

This project models the game logic of `main.c`, the cursor and ghost-cursor
iteration of an SDL Minesweeper. Here that logic is lifted out of the SDL calls.

- **Board.** A fixed 21 × 21 array of cells. Cell `[i][j]` covers the
  40-pixel square whose origin is `(i*40, j*40)`. The first index gives the
  x axis, even though it runs to `GRID_HEIGHT`. Both dimensions are 21, so
  this transposition cannot be observed. Every cell starts unclicked.
- **Pointer state.** The last press position (`player`) and the hovered
  cell (`ghost`). Both are snapped to a cell origin by C's truncating
  `(p / 40) * 40`. The `mouse.active` and `mouse.hover` flags, and `hasquit`.
- **Poll batch.** Each event of the batch updates the pointer state in
  order: a press, a motion, a window enter or leave, or quit.
- **Click pass.** Once per frame, the cell whose origin equals the last
  press position is marked clicked. No click is ever undone.
- **Ghost.** The ghost cell is drawn only while the mouse is both active
  and hovering.

Modules:

- `Geometry` (geometry.dfy): the constants, C division toward zero (`CellIndex`) and `Snap`.
- `Board` (board.dfy): the board as a value.
  - `InitialCells` is the result of the initialisation loops.
  - `Mark` is one click pass.
  - `ClickedSet` is the set of clicked index pairs.
- `Input` (input.dfy): the events, the pointer state `Pointer`, one event (`Step`) and one batch (`Poll`).
- `Minesweeper` (game.dfy): the animation loop.
  - As values: `Frame` and `Animate`.
  - As the class `Game`, which owns an `array2<Cell>` and the pointer fields and updates them in place.
  - Each method of `Game` is proved to compute what the value-level function says.
- `Wrappers` (wrappers.dfy): `Option`. The model uses it for positions that the C program leaves uninitialised.

Where the pixel arithmetic matters:

- Dafny's `/` is Euclidean, but C's truncates, so `CellIndex` writes the truncation out.
- A negative coordinate between -39 and -1 therefore snaps to 0, as it does in C.
- SDL coordinates are 32-bit. The snapped value never exceeds the coordinate in magnitude, so nothing here can overflow.

## Model

| member | source | states |
|---|---|---|
| Geometry.CellIndex | main.c:136-141 | `p / CELLSIZE` truncated toward zero: for `p >= 0` a non-negative `k` with `k*40 <= p < k*40 + 40`; for `p < 0` a `k <= 0` with `k*40 - 40 < p <= k*40` |
| Geometry.Snap | main.c:136-141 | the snapped coordinate is a multiple of 40; for `p >= 0` it is at most `p` and greater than `p - 40`; for negative `p` it lies in `[p, p + 40)` and is at most 0 |
| Geometry.CellIndexOfOrigin | main.c:116-117 | the origin `k*40` of cell `k` lies in cell `k`, for every sign of `k` |
| Geometry.CellIndexOfSnap | main.c:136-137 | a snapped coordinate lies in the same cell as the coordinate it came from |
| Geometry.SnapIdempotent | main.c:136-141 | snapping an already snapped coordinate returns it unchanged |
| Geometry.SnapOfMultiple | main.c:140-141 | every multiple of 40 is a fixed point of snapping |
| Geometry.SnapIsNearestMultipleBelow | main.c:136-137 | for `p >= 0`, any multiple of 40 in `(p - 40, p]` is the snapped value, so `Snap` is the unique such multiple |
| Geometry.InWindowIndex | main.c:10-11 | a coordinate inside the `40*n + 1`-pixel window lies in cell 0..n; index n, past the last cell, is reached only by the last pixel `40*n` |
| Board.InitialCells | main.c:114-122 | the initialised board has `GRID_HEIGHT` rows of `GRID_WIDTH` cells |
| Board.InitialCellsFacts | main.c:114-122 | after initialisation every cell is unclicked, with `pos.x == i*40`, `pos.y == j*40` and `w == h == 40`; the board is well placed and its clicked set is empty |
| Board.MarkCell | main.c:182-185 | one cell of the click pass (the comparison is `Hit`). The cell keeps its rectangle and its click. `clicked` turns true exactly when a press exists and its position equals the cell's origin |
| Board.Mark | main.c:179-195 | the whole click pass, cell by cell: same board shape, every cell keeps its rectangle, and no `clicked` turns back to false |
| Board.MarkKeepsPlacementAndClicks | main.c:179-195 | the click pass moves no cell and never turns `clicked` back to false |
| Board.MarkClicksSnappedCell | main.c:179-185 | for a press at pixel `(px, py)`, cell `[i][j]` is clicked after the pass iff it was clicked before or `i == px/40 && j == py/40` (C division); every other cell keeps its state |
| Board.Target | main.c:182-185 | the addressed index pair is present iff both C quotients lie on the board. It is then `(px / 40, py / 40)`: the x quotient first, as the board is indexed |
| Board.MarkClickedSet | main.c:179-195 | the clicked set after the pass is the old set plus the press's target when the target is on the board; it grows by at most one |
| Board.MarkWithoutPress | main.c:179-185 | with no press yet, the click pass leaves the board unchanged |
| Board.EdgePressClicksNothing | main.c:10-11 | a press on the last pixel row or column of the 841-pixel window (x or y = 840, index 21) clicks no cell |
| Input.InitialPointerInv | main.c:124-127 | the initial pointer state has no positions, and inactive and not-hovering flags; it satisfies the pointer invariant |
| Input.Step | main.c:134-154 | one pass of the event switch. A press sets only the player position, to the press's snapped cell. A motion sets the ghost position and makes `active` true. Enter makes `hover` true and Leave makes it false. Every other event, including every other window event, leaves `hover` unchanged. Quit sets `hasquit`. Other events change nothing |
| Input.Poll | main.c:133-155 | the poll loop applies the batch's events in order. `active` and `hasquit` are never cleared, and a batch of only ignored events changes nothing. Ignored events are the ones the switch has no case for, and window events other than enter and leave |
| Input.StepKeepsInv | main.c:134-154 | every event keeps positions snapped, and keeps "a ghost position exists iff the mouse is active" |
| Input.PollKeepsInv | main.c:133-155 | a whole poll batch keeps the pointer invariant |
| Input.PollPlayer | main.c:133-138 | after a batch the player position is the snapped cell of the batch's LAST press; a batch without a press leaves it unchanged |
| Input.PollGhostAndActive | main.c:139-144 | the ghost follows the batch's last motion; `active` holds afterwards iff it held before or the batch contains a motion, so it never reverts |
| Input.PollHover | main.c:145-150 | `hover` afterwards is decided by the batch's last enter (true) or leave (false); presses, motions, quit and other events never change it |
| Input.PollQuit | main.c:151-153 | `hasquit` holds after a batch iff it held before or the batch contains a quit event |
| Input.GhostShown | main.c:198-204 | a ghost rectangle is drawn iff `active && hover`, and then it is the snapped ghost position |
| Minesweeper.InitialState | main.c:114-129 | the state before the first frame: no press, no ghost, every flag false. It satisfies the between-frames invariant, with no cell clicked |
| Minesweeper.Frame | main.c:131-195 | one loop iteration: the poll batch, then the click pass at the resulting player position. Cells stay in place, clicks are kept, and quit stays set |
| Minesweeper.Animate | main.c:129-213 | the `while (!hasquit)` loop over the supplied batches. The batch holding quit still gets its click pass and later batches are not polled. Clicks are never undone, and once quit is set nothing changes |
| Minesweeper.FramesRun | main.c:129-131 | the number of loop iterations run: none once quit is set, at least one otherwise when a batch is supplied, never more than the number of batches |
| Minesweeper.ClickPass | main.c:179-185 | the click pass at the player position after a batch: the last press's cell, or else the position kept from earlier frames (already clicked). It adds exactly the last press's on-board cell to the clicked set, and leaves the player's cell clicked |
| Minesweeper.FrameClicks | main.c:131-195 | one frame adds exactly the on-board cell under the last press of its batch to the clicked set. Earlier presses and press-free batches add nothing, so the set grows by at most one. The invariant is preserved |
| Minesweeper.AnimateClicks | main.c:129-213 | over the whole loop the clicked set only grows, and by at most the number of frames actually run (`FramesRun`); the invariant is preserved |
| Minesweeper.Game.constructor | main.c:77-127 | the initialisation loops leave the board array equal to the initial board, with no press, no motion and all flags false |
| Minesweeper.Game.HandleEvent | main.c:134-154 | one pass of the event switch updates the pointer fields exactly as `Step`, keeping the object invariant |
| Minesweeper.Game.PollEvents | main.c:133-155 | the poll loop applies the batch in order: the new pointer state is `Poll` of the old one |
| Minesweeper.Game.MarkClicks | main.c:179-195 | the nested loop leaves the array equal to `Mark` of its old contents under the current player position |
| Minesweeper.Game.GhostToDraw | main.c:198-204 | the ghost is drawn iff `active && hover`, and then at the cell-sized ghost position |
| Minesweeper.Game.RunFrame | main.c:131-195 | one loop iteration (poll batch, then click pass) turns the state into `Frame` of the old state |
| Minesweeper.Game.Run | main.c:129-213 | the animation loop, fed one batch per iteration while `hasquit` is false, ends in `Animate` of the state it started from and returns the number of iterations, `FramesRun` |

## Left out

- SDL initialisation is not modelled. This covers window and renderer creation and their failure and cleanup paths (main.c:43-75, 215-218). These are calls into a foreign library.
- All drawing is left out: the colours, background clear, grid lines, filled cells, the ghost and player rectangles, and `SDL_RenderPresent`. What is drawn follows from the modelled state. The ghost decision is modelled as `GhostShown`/`GhostToDraw`.
- `SDL_PollEvent` is not modelled. Each poll batch is an injected sequence of events, and events the switch ignores become `OtherEvent`.
- The animation loop is fed a finite sequence of batches. `Run` also stops when the batches run out, whereas the program would go on polling.
- Before the first press, `player.pos.x/y` are uninitialised in C, and they are copied into `ghost` (main.c:77-85). The model starts these positions as `None` instead. With no press, the click pass compares against nothing and clicks no cell. That is one choice for what C leaves undefined.
- The `ismine` field of a cell is never set or read in this file, so it is not part of `Cell`.
- The `w` and `h` fields of `player` and `ghost` always hold 40 here. `Snapped` records this as an invariant.
