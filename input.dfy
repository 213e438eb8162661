/** The input step of `retro_run`: four joypad directions move the square's
    corner by one pixel each, clamped to the screen after every move. */
module Input {
  import opened Prelude
  import opened Raster

  /** Largest corner coordinates that keep the whole square on screen. */
  const MAX_X := WIDTH - SQUARE
  const MAX_Y := HEIGHT - SQUARE

  /** The four direction buttons of joypad 0 as the input-state callback
      reports them for one frame (all false when no callback is set). */
  datatype Joypad = Joypad(right: bool, left: bool, down: bool, up: bool)

  const NO_BUTTONS := Joypad(false, false, false, false)

  /** The top-left corner of the square (`square_x`, `square_y`). */
  datatype Cursor = Cursor(x: int, y: int)

  const ORIGIN := Cursor(0, 0)

  predicate InRange(c: Cursor)
  {
    0 <= c.x <= MAX_X && 0 <= c.y <= MAX_Y
  }

  /** One frame's input handling: right, left, down, up in this order, each
      move followed at once by its own one-sided clamp. */
  function Step(c: Cursor, pad: Joypad): (r: Cursor)
    ensures InRange(c) ==> InRange(r)
    ensures InRange(c) ==> -1 <= r.x - c.x <= 1 && -1 <= r.y - c.y <= 1
  {
    var x1 := if pad.right then (if c.x + 1 > MAX_X then MAX_X else c.x + 1) else c.x;
    var x2 := if pad.left then (if x1 - 1 < 0 then 0 else x1 - 1) else x1;
    var y1 := if pad.down then (if c.y + 1 > MAX_Y then MAX_Y else c.y + 1) else c.y;
    var y2 := if pad.up then (if y1 - 1 < 0 then 0 else y1 - 1) else y1;
    Cursor(x2, y2)
  }

  /** Closed form of one step from an in-range corner, axis by axis: a single
      press moves one pixel unless at the edge; two opposite presses cancel
      except at the far edge (300 or 220), where the first move is clamped
      away and the second still applies. */
  lemma StepClosedForm(c: Cursor, pad: Joypad)
    requires InRange(c)
    ensures Step(c, pad).x ==
      if pad.right && pad.left then (if c.x == MAX_X then MAX_X - 1 else c.x)
      else if pad.right then Min(c.x + 1, MAX_X)
      else if pad.left then (if c.x == 0 then 0 else c.x - 1)
      else c.x
    ensures Step(c, pad).y ==
      if pad.down && pad.up then (if c.y == MAX_Y then MAX_Y - 1 else c.y)
      else if pad.down then Min(c.y + 1, MAX_Y)
      else if pad.up then (if c.y == 0 then 0 else c.y - 1)
      else c.y
  {
  }

  /** The two edge cases of the source: at x = 300 right+left leaves 299, at
      x = 0 right+left leaves 0. */
  lemma OppositePressesAtEdges(y: int)
    requires 0 <= y <= MAX_Y
    ensures Step(Cursor(MAX_X, y), Joypad(true, true, false, false)) == Cursor(MAX_X - 1, y)
    ensures Step(Cursor(0, y), Joypad(true, true, false, false)) == Cursor(0, y)
  {
  }

  /** Without a press the square stays where it is, so idle frames repeat. */
  lemma IdleStepKeepsCursor(c: Cursor)
    ensures Step(c, NO_BUTTONS) == c
  {
  }

  /** The cursor after a sequence of frames' inputs, the first applied first. */
  function Steps(c: Cursor, pads: seq<Joypad>): Cursor
    decreases |pads|
  {
    if pads == [] then c else Steps(Step(c, pads[0]), pads[1..])
  }

  /** For every starting corner in range and every sequence of inputs the
      corner stays in [0, 300] x [0, 220]. */
  lemma {:induction false} StepsStayInRange(c: Cursor, pads: seq<Joypad>)
    requires InRange(c)
    ensures InRange(Steps(c, pads))
    decreases |pads|
  {
    if pads != [] {
      StepsStayInRange(Step(c, pads[0]), pads[1..]);
    }
  }

  /** Over n frames the corner moves at most n pixels along each axis. */
  lemma {:induction false} StepsSpeedLimit(c: Cursor, pads: seq<Joypad>)
    requires InRange(c)
    ensures -|pads| <= Steps(c, pads).x - c.x <= |pads|
    ensures -|pads| <= Steps(c, pads).y - c.y <= |pads|
    decreases |pads|
  {
    if pads != [] {
      StepsSpeedLimit(Step(c, pads[0]), pads[1..]);
    }
  }
}
