/** The per-frame state of the Hello World core and the lifecycle entry points
    the frontend calls: init, deinit, reset, load, unload and run. */
module HelloWorldCore {
  import opened Prelude
  import opened Raster
  import opened Input
  import opened Content

  const HELLO := Ascii("Hello World")
  const LOADED_MESSAGE := Ascii("Loaded ZIP with script.lua")

  /** Where the three text lines go: all start at x = 50. */
  const TEXT_X := 50
  const HELLO_Y := 50
  const STATUS_Y := 100
  const PREVIEW_Y := 120

  /** What `retro_load_game` returns, with the reason it logs on failure. */
  datatype LoadOutcome = Loaded | Failed(why: LoadError)

  /** The screen a successful `retro_load_game` leaves: black with the
      confirmation message at (50, 100). */
  function LoadedScreen(font: Font): seq<u16>
  {
    DrawStringSpec(font, Blank(), TEXT_X, STATUS_Y, LOADED_MESSAGE, COLOR_WHITE)
  }

  /** The frame `retro_run` composes for the cursor after input: a black
      screen, the red square, "Hello World"; with a stored path also the
      status line and, when the archive reads this frame, the preview. */
  function RenderedFrame(font: Font, cursor: Cursor, zipPath: Option<CString>, reopened: Option<Archive>): seq<u16>
  {
    var squared := SquareSpec(Blank(), cursor.x, cursor.y);
    var greeted := DrawStringSpec(font, squared, TEXT_X, HELLO_Y, HELLO, COLOR_WHITE);
    match zipPath
    case None => greeted
    case Some(p) =>
      var status := DrawStringSpec(font, greeted, TEXT_X, STATUS_Y, StatusLine(p), COLOR_WHITE);
      match Preview(reopened)
      case None => status
      case Some(text) => DrawStringSpec(font, status, TEXT_X, PREVIEW_Y, text, COLOR_WHITE)
  }

  /** The rows the three text lines can touch. */
  predicate InTextRows(row: int)
  {
    || HELLO_Y <= row < HELLO_Y + 8
    || STATUS_Y <= row < STATUS_Y + 8
    || PREVIEW_Y <= row < PREVIEW_Y + 8
  }

  /** A rendered frame uses three colours only: black, red and white. */
  lemma FramePalette(font: Font, cursor: Cursor, zipPath: Option<CString>, reopened: Option<Archive>)
    ensures var frame := RenderedFrame(font, cursor, zipPath, reopened);
      |frame| == PIXELS &&
      forall i :: 0 <= i < PIXELS ==> frame[i] in {COLOR_BLACK, COLOR_RED, COLOR_WHITE}
  {
    var squared := SquareSpec(Blank(), cursor.x, cursor.y);
    assert forall i :: 0 <= i < PIXELS ==> squared[i] in {COLOR_BLACK, COLOR_RED};
    var greeted := DrawStringSpec(font, squared, TEXT_X, HELLO_Y, HELLO, COLOR_WHITE);
    DrawStringColors(font, squared, TEXT_X, HELLO_Y, HELLO, COLOR_WHITE);
    if zipPath.Some? {
      var status := DrawStringSpec(font, greeted, TEXT_X, STATUS_Y, StatusLine(zipPath.value), COLOR_WHITE);
      DrawStringColors(font, greeted, TEXT_X, STATUS_Y, StatusLine(zipPath.value), COLOR_WHITE);
      if Preview(reopened).Some? {
        DrawStringColors(font, status, TEXT_X, PREVIEW_Y, Preview(reopened).value, COLOR_WHITE);
      }
    }
  }

  /** Away from the text rows a rendered frame is exactly the square on
      black: a pixel is red if and only if it lies in the square. */
  lemma FrameShowsSquare(font: Font, cursor: Cursor, zipPath: Option<CString>, reopened: Option<Archive>)
    ensures var frame := RenderedFrame(font, cursor, zipPath, reopened);
      |frame| == PIXELS &&
      forall i :: 0 <= i < PIXELS && !InTextRows(Row(i)) ==>
        frame[i] == if InSquare(cursor.x, cursor.y, Col(i), Row(i)) then COLOR_RED else COLOR_BLACK
  {
    var squared := SquareSpec(Blank(), cursor.x, cursor.y);
    var greeted := DrawStringSpec(font, squared, TEXT_X, HELLO_Y, HELLO, COLOR_WHITE);
    DrawStringBand(font, squared, TEXT_X, HELLO_Y, HELLO, COLOR_WHITE);
    if zipPath.Some? {
      var status := DrawStringSpec(font, greeted, TEXT_X, STATUS_Y, StatusLine(zipPath.value), COLOR_WHITE);
      DrawStringBand(font, greeted, TEXT_X, STATUS_Y, StatusLine(zipPath.value), COLOR_WHITE);
      if Preview(reopened).Some? {
        DrawStringBand(font, status, TEXT_X, PREVIEW_Y, Preview(reopened).value, COLOR_WHITE);
      }
    }
  }

  /** After a successful load the screen is black outside the message's rows. */
  lemma LoadedScreenBlackElsewhere(font: Font)
    ensures |LoadedScreen(font)| == PIXELS
    ensures forall i :: 0 <= i < PIXELS && !(STATUS_Y <= Row(i) < STATUS_Y + 8) ==>
      LoadedScreen(font)[i] == COLOR_BLACK
  {
    DrawStringBand(font, Blank(), TEXT_X, STATUS_Y, LOADED_MESSAGE, COLOR_WHITE);
  }

  /** The process-wide state of the core. */
  class Core {
    /** `font_8x8`: the glyph table from font.h. */
    const font: Font
    /** `framebuffer[WIDTH * HEIGHT]`, RGB565. */
    const framebuffer: array<u16>
    /** `square_x`, `square_y`. */
    var squareX: int
    var squareY: int
    /** `zip_path`: the stored archive path, None for NULL. */
    var zipPath: Option<CString>
    /** `rom_size`: uncompressed size of the loaded `script.lua`. */
    var romSize: nat
    var initialized: bool

    /** The buffer has its fixed size and the square's corner stays in
        [0, 300] x [0, 220]. */
    ghost predicate Valid()
      reads this
    {
      framebuffer.Length == PIXELS && InRange(Position())
    }

    ghost function Position(): Cursor
      reads this
    {
      Cursor(squareX, squareY)
    }

    /** The state at process start: static storage is zero-filled. */
    constructor (font: Font)
      ensures Valid() && fresh(framebuffer)
      ensures this.font == font && framebuffer[..] == Blank()
      ensures Position() == ORIGIN && zipPath == None && romSize == 0 && !initialized
    {
      this.font := font;
      framebuffer := new u16[PIXELS](_ => COLOR_BLACK);
      squareX, squareY := 0, 0;
      zipPath := None;
      romSize := 0;
      initialized := false;
    }

    /** `clear_framebuffer`: every pixel becomes black. */
    method ClearFramebuffer()
      requires Valid()
      modifies framebuffer
      ensures framebuffer[..] == Blank()
    {
      forall i | 0 <= i < framebuffer.Length {
        framebuffer[i] := COLOR_BLACK;
      }
    }

    /** `draw_char`: blit the glyph of c with its corner at (x, y), clipped to
        the screen; a character outside 32..126 draws nothing. */
    method DrawChar(x: int, y: int, c: byte, color: u16)
      requires Valid()
      modifies framebuffer
      ensures framebuffer[..] == DrawCharSpec(font, old(framebuffer[..]), x, y, c, color)
    {
      if c < 32 || c > 126 {
        return;
      }
      var glyph := font[c - 32];
      for gy := 0 to 8
        invariant forall i :: 0 <= i < PIXELS ==>
          framebuffer[i] == if Covers(font, c, x, y, Col(i), Row(i)) && Row(i) - y < gy then color else old(framebuffer[i])
      {
        for gx := 0 to 8
          invariant forall i :: 0 <= i < PIXELS ==>
            framebuffer[i] == if Covers(font, c, x, y, Col(i), Row(i)) && (Row(i) - y < gy || (Row(i) - y == gy && Col(i) - x < gx))
                              then color else old(framebuffer[i])
        {
          if BitSet(glyph[gy], 7 - gx) {
            var px := x + gx;
            var py := y + gy;
            if px >= 0 && px < WIDTH && py >= 0 && py < HEIGHT {
              IndexCoords(px, py);
              framebuffer[py * WIDTH + px] := color;
            }
          }
        }
      }
    }

    /** `draw_string`: draw character k at x + 8k until the first NUL. */
    method DrawString(x: int, y: int, s: seq<byte>, color: u16)
      requires Valid()
      modifies framebuffer
      ensures framebuffer[..] == DrawStringSpec(font, old(framebuffer[..]), x, y, s, color)
    {
      var cx := x;
      var i := 0;
      while i < |s| && s[i] != 0
        invariant 0 <= i <= |s| && cx == x + ADVANCE * i
        invariant DrawStringSpec(font, framebuffer[..], cx, y, s[i..], color)
               == DrawStringSpec(font, old(framebuffer[..]), x, y, s, color)
      {
        assert s[i..][1..] == s[i + 1..];
        DrawChar(cx, y, s[i], color);
        cx := cx + ADVANCE;
        i := i + 1;
      }
    }

    /** The square blit of `retro_run`: the 20x20 box at the cursor turns red,
        pixels beyond the right or bottom edge are skipped. */
    method DrawSquare()
      requires Valid()
      modifies framebuffer
      ensures framebuffer[..] == SquareSpec(old(framebuffer[..]), squareX, squareY)
    {
      for y := 0 to SQUARE
        invariant forall i :: 0 <= i < PIXELS ==>
          framebuffer[i] == if InSquare(squareX, squareY, Col(i), Row(i)) && Row(i) - squareY < y then COLOR_RED else old(framebuffer[i])
      {
        for x := 0 to SQUARE
          invariant forall i :: 0 <= i < PIXELS ==>
            framebuffer[i] == if InSquare(squareX, squareY, Col(i), Row(i))
                                 && (Row(i) - squareY < y || (Row(i) - squareY == y && Col(i) - squareX < x))
                              then COLOR_RED else old(framebuffer[i])
        {
          if squareX + x < WIDTH && squareY + y < HEIGHT {
            IndexCoords(x + squareX, y + squareY);
            framebuffer[(y + squareY) * WIDTH + (x + squareX)] := COLOR_RED;
          }
        }
      }
      assert forall i :: 0 <= i < PIXELS ==> framebuffer[i] == SquareSpec(old(framebuffer[..]), squareX, squareY)[i];
    }

    /** The input step of `retro_run`: right, left, down, up, each move
        clamped at once. */
    method HandleInput(pad: Joypad)
      requires Valid()
      modifies this`squareX, this`squareY
      ensures Valid()
      ensures Position() == Step(old(Position()), pad)
    {
      if pad.right {
        squareX := squareX + 1;
        if squareX > WIDTH - SQUARE { squareX := WIDTH - SQUARE; }
      }
      if pad.left {
        squareX := squareX - 1;
        if squareX < 0 { squareX := 0; }
      }
      if pad.down {
        squareY := squareY + 1;
        if squareY > HEIGHT - SQUARE { squareY := HEIGHT - SQUARE; }
      }
      if pad.up {
        squareY := squareY - 1;
        if squareY < 0 { squareY := 0; }
      }
    }

    /** `retro_init`: mark the core ready and clear the screen. */
    method Init()
      requires Valid()
      modifies this`initialized, framebuffer
      ensures Valid()
      ensures initialized && framebuffer[..] == Blank()
    {
      initialized := true;
      ClearFramebuffer();
    }

    /** `retro_deinit`: release the stored path (and with it the size), mark
        the core uninitialised and put the cursor back at (0, 0). The screen
        is left as it is. */
    method Deinit()
      requires Valid()
      modifies this`zipPath, this`romSize, this`initialized, this`squareX, this`squareY
      ensures Valid()
      ensures zipPath == None && romSize == (if old(zipPath).Some? then 0 else old(romSize))
      ensures !initialized && Position() == ORIGIN
    {
      if zipPath.Some? {
        zipPath := None;
        romSize := 0;
      }
      initialized := false;
      squareX := 0;
      squareY := 0;
    }

    /** `retro_reset`: black screen, cursor at (0, 0); the loaded content and
        the initialised flag stay. */
    method Reset()
      requires Valid()
      modifies framebuffer, this`squareX, this`squareY
      ensures Valid()
      ensures framebuffer[..] == Blank() && Position() == ORIGIN
    {
      ClearFramebuffer();
      squareX := 0;
      squareY := 0;
    }

    /** `retro_unload_game`: release the stored path and its size. */
    method UnloadGame()
      requires Valid()
      modifies this`zipPath, this`romSize
      ensures Valid()
      ensures zipPath == None && romSize == (if old(zipPath).Some? then 0 else old(romSize))
    {
      if zipPath.Some? {
        zipPath := None;
        romSize := 0;
      }
    }

    /** `retro_load_game` for a descriptor with the given path. `archive` is
        what opening that path yields and `allocOk` whether `strdup` succeeds.
        A rejected path or archive changes nothing; an accepted one records
        the script's size, releases the old path and stores the new one, and
        shows the confirmation message. When `strdup` fails the size is
        already recorded and the old path already released. */
    method LoadGame(path: Option<CString>, archive: Option<Archive>, allocOk: bool) returns (outcome: LoadOutcome)
      requires Valid()
      modifies this`zipPath, this`romSize, framebuffer
      ensures Valid()
      ensures Validate(path, archive).Rejected? ==>
        && outcome == Failed(Validate(path, archive).why)
        && zipPath == old(zipPath) && romSize == old(romSize) && unchanged(framebuffer)
      ensures Validate(path, archive).Accepted? && allocOk ==>
        && outcome == Loaded
        && zipPath == path && romSize == Validate(path, archive).size
        && framebuffer[..] == LoadedScreen(font)
      ensures Validate(path, archive).Accepted? && !allocOk ==>
        && outcome == Failed(OutOfMemory)
        && zipPath == None && romSize == Validate(path, archive).size && unchanged(framebuffer)
    {
      if path.None? {
        return Failed(NoPath);
      }
      var ext := Extension(path.value);
      if ext.None? {
        return Failed(NoExtension);
      }
      if !EqualsIgnoreCase(ext.value, ZIP_EXT) {
        return Failed(NotZip);
      }
      if archive.None? {
        return Failed(OpenFailed);
      }
      var found := FindScript(archive.value);
      if found.None? {
        return Failed(ScriptMissing);
      }
      romSize := archive.value[found.value].Size();
      zipPath := None;
      if !allocOk {
        return Failed(OutOfMemory);
      }
      zipPath := path;
      ClearFramebuffer();
      DrawString(TEXT_X, STATUS_Y, LOADED_MESSAGE, COLOR_WHITE);
      return Loaded;
    }

    /** `retro_run`. Before `retro_init` it does nothing at all. Otherwise it
        clears the screen, applies this frame's input, draws the square and
        the text lines, and pushes the frame when a video callback is set.
        `reopened` is what reopening the stored path yields this frame. */
    method Run(pad: Joypad, videoAttached: bool, reopened: Option<Archive>) returns (pushed: Option<seq<u16>>)
      requires Valid()
      modifies framebuffer, this`squareX, this`squareY
      ensures Valid()
      ensures !old(initialized) ==> pushed == None && unchanged(this) && unchanged(framebuffer)
      ensures old(initialized) ==>
        && Position() == Step(old(Position()), pad)
        && framebuffer[..] == RenderedFrame(font, Position(), zipPath, reopened)
        && pushed == if videoAttached then Some(framebuffer[..]) else None
    {
      if !initialized {
        return None;
      }
      ClearFramebuffer();
      HandleInput(pad);
      DrawSquare();
      DrawString(TEXT_X, HELLO_Y, HELLO, COLOR_WHITE);
      if zipPath.Some? {
        DrawString(TEXT_X, STATUS_Y, StatusLine(zipPath.value), COLOR_WHITE);
        if reopened.Some? {
          var k := FindScript(reopened.value);
          if k.Some? && reopened.value[k.value].extractOk {
            var display := SanitizePreview(reopened.value[k.value].data);
            ghost var before := framebuffer[..];
            DrawString(TEXT_X, PREVIEW_Y, display, COLOR_WHITE);
            DrawStringStopsAtNul(font, before, TEXT_X, PREVIEW_Y, display, COLOR_WHITE, |display| - 1);
            assert display[..|display| - 1] == Sanitized(reopened.value[k.value].data);
          }
        }
      }
      pushed := if videoAttached then Some(framebuffer[..]) else None;
    }
  }

  /** Two frames without input, after `retro_init`, with the same archive
      behind the stored path, push the same picture: each frame re-extracts
      and re-draws everything from the cursor, the path and the archive. */
  method IdleFramesRepeat(core: Core, reopened: Option<Archive>) returns (first: Option<seq<u16>>, second: Option<seq<u16>>)
    requires core.Valid() && core.initialized
    modifies core.framebuffer, core`squareX, core`squareY
    ensures first.Some? && first == second
    ensures core.Position() == old(core.Position())
  {
    first := core.Run(NO_BUTTONS, true, reopened);
    second := core.Run(NO_BUTTONS, true, reopened);
  }

  /** A frontend session: after a successful load, reset clears the screen
      and the cursor but keeps the archive; unload then releases it. */
  method Session(font: Font, path: CString, archive: Archive, pad: Joypad) returns (core: Core)
    requires Validate(Some(path), Some(archive)).Accepted?
    ensures fresh(core) && core.Valid() && core.initialized
    ensures core.zipPath == None && core.romSize == 0
    ensures core.Position() == ORIGIN && core.framebuffer[..] == Blank()
  {
    core := new Core(font);
    var idle := core.Run(pad, true, Some(archive));
    assert idle == None;
    core.Init();
    var outcome := core.LoadGame(Some(path), Some(archive), true);
    assert outcome == Loaded && core.zipPath == Some(path);
    var frame := core.Run(pad, true, Some(archive));
    assert frame.Some? && core.Position() == Step(ORIGIN, pad);
    core.Reset();
    assert core.zipPath == Some(path) && core.Position() == ORIGIN && core.framebuffer[..] == Blank();
    core.UnloadGame();
  }
}
