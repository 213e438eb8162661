/** The 320x240 RGB565 framebuffer as a value, and what clearing it, blitting
    an 8x8 glyph, laying out a string and painting the 20x20 square do to it. */
module Raster {
  import opened Prelude

  const WIDTH := 320
  const HEIGHT := 240
  const PIXELS := WIDTH * HEIGHT

  const COLOR_BLACK: u16 := 0
  const COLOR_WHITE: u16 := 0xFFFF
  const COLOR_RED: u16 := 0xF800

  /** Side of the movable square, in pixels. */
  const SQUARE := 20

  /** Horizontal advance of one character, in pixels. */
  const ADVANCE := 8

  /** Column and row of framebuffer index i (the buffer is row-major). */
  function Col(i: int): int { i % WIDTH }
  function Row(i: int): int { i / WIDTH }

  /** The index of pixel (px, py) is py * WIDTH + px, and that index maps back. */
  lemma IndexCoords(px: int, py: int)
    requires 0 <= px < WIDTH && 0 <= py < HEIGHT
    ensures 0 <= py * WIDTH + px < PIXELS
    ensures Col(py * WIDTH + px) == px && Row(py * WIDTH + px) == py
  {
  }

  /** An all-black frame: what `memset(framebuffer, 0, ...)` leaves. */
  function Blank(): (r: seq<u16>)
    ensures |r| == PIXELS
    ensures forall i :: 0 <= i < |r| ==> r[i] == COLOR_BLACK
  {
    seq(PIXELS, _ => COLOR_BLACK)
  }

  // ---------------------------------------------------------------- glyphs

  /** One glyph: eight rows, the most significant bit is the leftmost pixel. */
  type Glyph = g: seq<byte> | |g| == 8 witness [0, 0, 0, 0, 0, 0, 0, 0]

  const BLANK_GLYPH: Glyph := [0, 0, 0, 0, 0, 0, 0, 0]

  /** The 8x8 font: one glyph for each character 32..126. The table itself is
      a parameter of the model. */
  type Font = f: seq<Glyph> | |f| == 95 witness seq(95, _ => BLANK_GLYPH)

  /** Bit k of a glyph row: `row & (1 << k)` is non-zero. */
  predicate BitSet(row: byte, k: int)
    requires 0 <= k < 8
  {
    (row as bv8) & ((1 as bv8) << k) != 0
  }

  /** Pixel (px, py) is one of the set pixels of printable c's glyph placed with
      its top-left corner at (x, y). */
  predicate Covers(font: Font, c: byte, x: int, y: int, px: int, py: int)
  {
    && Printable(c)
    && x <= px < x + 8 && y <= py < y + 8
    && BitSet(font[c - 32][py - y], 7 - (px - x))
  }

  /** The frame after `draw_char(x, y, c, color)`: every covered pixel inside
      the screen takes color, all others keep their value. */
  function DrawCharSpec(font: Font, fb: seq<u16>, x: int, y: int, c: byte, color: u16): (r: seq<u16>)
    requires |fb| == PIXELS
  {
    seq(PIXELS, i requires 0 <= i < PIXELS =>
      if Covers(font, c, x, y, Col(i), Row(i)) then color else fb[i])
  }

  /** A character outside 32..126 leaves the frame as it was. */
  lemma DrawCharRejects(font: Font, fb: seq<u16>, x: int, y: int, c: byte, color: u16)
    requires |fb| == PIXELS && !Printable(c)
    ensures DrawCharSpec(font, fb, x, y, c, color) == fb
  {
  }

  /** In glyph coordinates: pixel (x + gx, y + gy), when it is on screen, takes
      color exactly when bit 7 - gx of glyph row gy is set, and keeps its value
      otherwise (unset bits are transparent). */
  lemma DrawCharGlyphPixel(font: Font, fb: seq<u16>, x: int, y: int, c: byte, color: u16, gx: int, gy: int)
    requires |fb| == PIXELS && Printable(c)
    requires 0 <= gx < 8 && 0 <= gy < 8
    requires 0 <= x + gx < WIDTH && 0 <= y + gy < HEIGHT
    ensures var i := (y + gy) * WIDTH + (x + gx);
      && 0 <= i < PIXELS
      && DrawCharSpec(font, fb, x, y, c, color)[i]
         == if BitSet(font[c - 32][gy], 7 - gx) then color else fb[i]
  {
  }

  /** Pixels outside the 8x8 cell at (x, y) keep their value. */
  lemma DrawCharOutsideCell(font: Font, fb: seq<u16>, x: int, y: int, c: byte, color: u16, px: int, py: int)
    requires |fb| == PIXELS
    requires 0 <= px < WIDTH && 0 <= py < HEIGHT
    requires !(x <= px < x + 8 && y <= py < y + 8)
    ensures DrawCharSpec(font, fb, x, y, c, color)[py * WIDTH + px] == fb[py * WIDTH + px]
  {
  }

  // --------------------------------------------------------------- strings

  /** The frame after `draw_string(x, y, s, color)`: `draw_char` applied to
      each character in order, character k at x + 8k, up to the first NUL
      (or the end of s). */
  function DrawStringSpec(font: Font, fb: seq<u16>, x: int, y: int, s: seq<byte>, color: u16): (r: seq<u16>)
    requires |fb| == PIXELS
    ensures |r| == PIXELS
    decreases |s|
  {
    if s == [] || s[0] == 0 then fb
    else DrawStringSpec(font, DrawCharSpec(font, fb, x, y, s[0], color), x + ADVANCE, y, s[1..], color)
  }

  /** Drawing stops at the first NUL: what follows it is never drawn. */
  lemma {:induction false} DrawStringStopsAtNul(font: Font, fb: seq<u16>, x: int, y: int, s: seq<byte>, color: u16, k: nat)
    requires |fb| == PIXELS
    requires k < |s| && s[k] == 0
    ensures DrawStringSpec(font, fb, x, y, s, color) == DrawStringSpec(font, fb, x, y, s[..k], color)
    decreases k
  {
    if s[0] != 0 {
      assert k > 0;
      var fb' := DrawCharSpec(font, fb, x, y, s[0], color);
      DrawStringStopsAtNul(font, fb', x + ADVANCE, y, s[1..], color, k - 1);
      assert s[..k][1..] == s[1..][..k - 1];
    }
  }

  /** Drawing a + b is drawing a, then drawing b starting 8|a| pixels to the
      right, provided a holds no NUL. */
  lemma {:induction false} DrawStringConcat(font: Font, fb: seq<u16>, x: int, y: int, a: seq<byte>, b: seq<byte>, color: u16)
    requires |fb| == PIXELS && 0 !in a
    ensures DrawStringSpec(font, fb, x, y, a + b, color)
         == DrawStringSpec(font, DrawStringSpec(font, fb, x, y, a, color), x + ADVANCE * |a|, y, b, color)
    decreases |a|
  {
    if a != [] {
      assert a[0] in a;
      var fb' := DrawCharSpec(font, fb, x, y, a[0], color);
      assert 0 !in a[1..] by {
        forall j | 0 <= j < |a[1..]| ensures a[1..][j] != 0 { assert a[1..][j] == a[j + 1]; }
      }
      DrawStringConcat(font, fb', x + ADVANCE, y, a[1..], b, color);
      assert (a + b)[1..] == a[1..] + b;
    } else {
      assert a + b == b;
    }
  }

  /** A single non-NUL character is drawn exactly as `draw_char` draws it. */
  lemma DrawStringSingle(font: Font, fb: seq<u16>, x: int, y: int, c: byte, color: u16)
    requires |fb| == PIXELS && c != 0
    ensures DrawStringSpec(font, fb, x, y, [c], color) == DrawCharSpec(font, fb, x, y, c, color)
  {
  }

  /** A string drawn at row y touches only rows y..y+7. */
  lemma {:induction false} DrawStringBand(font: Font, fb: seq<u16>, x: int, y: int, s: seq<byte>, color: u16)
    requires |fb| == PIXELS
    ensures forall i :: 0 <= i < PIXELS && !(y <= Row(i) < y + 8) ==>
      DrawStringSpec(font, fb, x, y, s, color)[i] == fb[i]
    decreases |s|
  {
    if s != [] && s[0] != 0 {
      var fb' := DrawCharSpec(font, fb, x, y, s[0], color);
      DrawStringBand(font, fb', x + ADVANCE, y, s[1..], color);
    }
  }

  /** Every pixel of the result is either the old pixel or the drawing colour. */
  lemma {:induction false} DrawStringColors(font: Font, fb: seq<u16>, x: int, y: int, s: seq<byte>, color: u16)
    requires |fb| == PIXELS
    ensures forall i :: 0 <= i < PIXELS ==>
      DrawStringSpec(font, fb, x, y, s, color)[i] in {fb[i], color}
    decreases |s|
  {
    if s != [] && s[0] != 0 {
      var fb' := DrawCharSpec(font, fb, x, y, s[0], color);
      DrawStringColors(font, fb', x + ADVANCE, y, s[1..], color);
    }
  }

  // ---------------------------------------------------------------- square

  /** Pixel (px, py) lies in the 20x20 square whose top-left corner is (sx, sy). */
  predicate InSquare(sx: int, sy: int, px: int, py: int)
  {
    sx <= px < sx + SQUARE && sy <= py < sy + SQUARE
  }

  /** The frame after the square blit of `retro_run`: the on-screen part of
      the square is red, every other pixel keeps its value. */
  function SquareSpec(fb: seq<u16>, sx: int, sy: int): (r: seq<u16>)
    requires |fb| == PIXELS
  {
    seq(PIXELS, i requires 0 <= i < PIXELS =>
      if InSquare(sx, sy, Col(i), Row(i)) then COLOR_RED else fb[i])
  }

  /** With the square's corner in [0, 300] x [0, 220], the whole square lies on
      screen (every index written is below 320 * 240) and each of its pixels is
      red; every pixel outside it keeps its value. */
  lemma SquareBox(fb: seq<u16>, sx: int, sy: int)
    requires |fb| == PIXELS
    requires 0 <= sx <= WIDTH - SQUARE && 0 <= sy <= HEIGHT - SQUARE
    ensures forall px, py :: InSquare(sx, sy, px, py) ==>
      && 0 <= px < WIDTH && 0 <= py < HEIGHT
      && 0 <= py * WIDTH + px < PIXELS
      && SquareSpec(fb, sx, sy)[py * WIDTH + px] == COLOR_RED
    ensures forall px, py :: 0 <= px < WIDTH && 0 <= py < HEIGHT && !InSquare(sx, sy, px, py) ==>
      SquareSpec(fb, sx, sy)[py * WIDTH + px] == fb[py * WIDTH + px]
  {
  }
}
