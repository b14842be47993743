/**
 * The event half of main.c's animation loop: the events the poll loop
 * dispatches on, the pointer state they update (the `player` and `ghost`
 * cells, the `mouse` flags and `hasquit`), one event's effect and the effect
 * of one poll batch, applied in order.
 */
module Input {
  import opened Wrappers
  import opened Geometry

  datatype WindowEventKind = Enter | Leave | OtherWindowEvent

  /**
   * The events the switch distinguishes, with pixel coordinates where it reads
   * them. A press of any mouse button is a MouseButtonDown; SDL's button and
   * motion records keep x and y at the same place, so reading them through
   * `event.motion` gives the press position.
   */
  datatype Event =
    | MouseButtonDown(x: int, y: int)
    | MouseMotion(x: int, y: int)
    | WindowEvent(kind: WindowEventKind)
    | QuitEvent
    | OtherEvent

  /**
   * The pointer state of main: the last press's cell (`player`), the hovered
   * cell (`ghost`), `mouse.active`, `mouse.hover` and `hasquit`. A position is
   * None until the first event that sets it.
   */
  datatype Pointer = Pointer(player: Option<Rect>, ghostPos: Option<Rect>, active: bool, hover: bool, quit: bool)

  const InitialPointer: Pointer := Pointer(None, None, false, false, false)

  /**
   * One iteration of the switch in the poll loop. Each kind of event touches
   * only its own part of the state: presses the player position, motions the
   * ghost position and `active`, window crossings `hover`, quit `hasquit`.
   */
  function Step(s: Pointer, e: Event): (r: Pointer)
    ensures r.player == if e.MouseButtonDown? then Some(CursorAt(e.x, e.y)) else s.player
    ensures r.ghostPos == if e.MouseMotion? then Some(CursorAt(e.x, e.y)) else s.ghostPos
    ensures r.active == (s.active || e.MouseMotion?)
    ensures !(e.WindowEvent? && e.kind != OtherWindowEvent) ==> r.hover == s.hover
    ensures e.WindowEvent? && e.kind == Enter ==> r.hover
    ensures e.WindowEvent? && e.kind == Leave ==> !r.hover
    ensures r.quit == (s.quit || e.QuitEvent?)
  {
    match e
    case MouseButtonDown(x, y) => s.(player := Some(CursorAt(x, y)))
    case MouseMotion(x, y) =>
      var s' := s.(ghostPos := Some(CursorAt(x, y)));
      if !s'.active then s'.(active := true) else s'
    case WindowEvent(kind) =>
      if kind == Enter && !s.hover then s.(hover := true)
      else if kind == Leave && s.hover then s.(hover := false)
      else s
    case QuitEvent => s.(quit := true)
    case OtherEvent => s
  }

  /**
   * A whole poll batch, events applied in order (the last event last).
   * Neither `active` nor `hasquit` is ever cleared, and a batch of events
   * that are neither presses, motions, window crossings nor quit changes nothing.
   */
  function Poll(s: Pointer, es: seq<Event>): (r: Pointer)
    ensures s.active ==> r.active
    ensures s.quit ==> r.quit
    ensures (forall k :: 0 <= k < |es| ==> es[k].OtherEvent? || es[k] == WindowEvent(OtherWindowEvent)) ==> r == s
    decreases |es|
  {
    if es == [] then s else Step(Poll(s, es[..|es| - 1]), es[|es| - 1])
  }

  /** A position produced by snapping: a cell origin with the cell's size. */
  predicate Snapped(r: Option<Rect>)
  {
    r.Some? ==> r.value.x % CELLSIZE == 0 && r.value.y % CELLSIZE == 0 && r.value.w == CELLSIZE && r.value.h == CELLSIZE
  }

  /** What every reachable pointer state satisfies: snapped positions, and a hover position exactly once the mouse is active. */
  predicate PointerInv(s: Pointer)
  {
    Snapped(s.player) && Snapped(s.ghostPos) && (s.active <==> s.ghostPos.Some?)
  }

  lemma InitialPointerInv()
    ensures PointerInv(InitialPointer)
  {
  }

  lemma StepKeepsInv(s: Pointer, e: Event)
    requires PointerInv(s)
    ensures PointerInv(Step(s, e))
  {
  }

  lemma {:induction false} PollKeepsInv(s: Pointer, es: seq<Event>)
    requires PointerInv(s)
    ensures PointerInv(Poll(s, es))
    decreases |es|
  {
    if es != [] {
      PollKeepsInv(s, es[..|es| - 1]);
      StepKeepsInv(Poll(s, es[..|es| - 1]), es[|es| - 1]);
    }
  }

  /** Pixel position of the last press in a batch, if there is one. */
  function LastPress(es: seq<Event>): (r: Option<(int, int)>)
    ensures r.Some? <==> exists k :: 0 <= k < |es| && es[k].MouseButtonDown?
    decreases |es|
  {
    if es == [] then None
    else if es[|es| - 1].MouseButtonDown? then Some((es[|es| - 1].x, es[|es| - 1].y))
    else LastPress(es[..|es| - 1])
  }

  /** Pixel position of the last motion in a batch, if there is one. */
  function LastMotion(es: seq<Event>): (r: Option<(int, int)>)
    ensures r.Some? <==> exists k :: 0 <= k < |es| && es[k].MouseMotion?
    decreases |es|
  {
    if es == [] then None
    else if es[|es| - 1].MouseMotion? then Some((es[|es| - 1].x, es[|es| - 1].y))
    else LastMotion(es[..|es| - 1])
  }

  /** The last window enter (true) or leave (false) in a batch, if there is one. */
  function LastCrossing(es: seq<Event>): (r: Option<bool>)
    ensures r.Some? <==> exists k :: 0 <= k < |es| && es[k].WindowEvent? && es[k].kind != OtherWindowEvent
    decreases |es|
  {
    if es == [] then None
    else if es[|es| - 1].WindowEvent? && es[|es| - 1].kind != OtherWindowEvent then Some(es[|es| - 1].kind == Enter)
    else LastCrossing(es[..|es| - 1])
  }

  /** The cell that an optional pixel position snaps to. */
  function CursorOf(p: Option<(int, int)>): Option<Rect>
  {
    if p.Some? then Some(CursorAt(p.value.0, p.value.1)) else None
  }

  /**
   * Within one batch only the last press decides the player position;
   * a batch without a press leaves it as it was.
   */
  lemma {:induction false} PollPlayer(s: Pointer, es: seq<Event>)
    ensures Poll(s, es).player == if LastPress(es).Some? then CursorOf(LastPress(es)) else s.player
    decreases |es|
  {
    if es != [] {
      PollPlayer(s, es[..|es| - 1]);
    }
  }

  /**
   * The ghost follows the last motion of the batch, and the mouse is active
   * afterwards iff it was before or the batch holds a motion: `active` never reverts.
   */
  lemma {:induction false} PollGhostAndActive(s: Pointer, es: seq<Event>)
    ensures Poll(s, es).ghostPos == if LastMotion(es).Some? then CursorOf(LastMotion(es)) else s.ghostPos
    ensures Poll(s, es).active <==> s.active || LastMotion(es).Some?
    decreases |es|
  {
    if es != [] {
      PollGhostAndActive(s, es[..|es| - 1]);
    }
  }

  /**
   * Hover is decided by the last window enter or leave of the batch, and
   * only by those: presses, motions and other events never change it.
   */
  lemma {:induction false} PollHover(s: Pointer, es: seq<Event>)
    ensures Poll(s, es).hover == if LastCrossing(es).Some? then LastCrossing(es).value else s.hover
    decreases |es|
  {
    if es != [] {
      PollHover(s, es[..|es| - 1]);
    }
  }

  /** Quit is sticky and set by any quit event in the batch; later events of the batch are still applied. */
  lemma {:induction false} PollQuit(s: Pointer, es: seq<Event>)
    ensures Poll(s, es).quit <==> s.quit || exists k :: 0 <= k < |es| && es[k].QuitEvent?
    decreases |es|
  {
    if es != [] {
      var init := es[..|es| - 1];
      PollQuit(s, init);
      assert forall k :: 0 <= k < |init| ==> init[k] == es[k];
    }
  }

  /**
   * The ghost rectangle drawn this frame: drawn only when the mouse is both
   * active and hovering, and then it is the cell under the last motion.
   */
  function GhostShown(s: Pointer): (r: Option<Rect>)
    requires PointerInv(s)
    ensures r.Some? <==> s.active && s.hover
    ensures r.Some? ==> r == s.ghostPos && Snapped(r)
  {
    if s.active && s.hover then s.ghostPos else None
  }
}
