/** Machine-level vocabulary shared by the whole model: C bytes, 16-bit pixels,
    NUL-terminated strings and an optional value. */
module Prelude {

  /** One C `char`/`uint8_t`. The core only ever compares characters against
      32 and 126, which classifies every byte the same way whether `char` is
      signed or unsigned, so bytes are modelled as 0..255. */
  newtype byte = x: int | 0 <= x < 256

  /** One `uint16_t` framebuffer pixel (RGB565). */
  newtype u16 = x: int | 0 <= x < 0x1_0000

  /** The bytes of a C string before its terminating NUL. */
  type CString = s: seq<byte> | 0 !in s

  /** Printable ASCII, 32..126: the characters `draw_char` accepts and the
      bytes the preview keeps. */
  predicate Printable(c: byte) { 32 <= c <= 126 }

  datatype Option<T> = None | Some(value: T)

  function Min(a: int, b: int): int { if a < b then a else b }

  /** The bytes of an ASCII string literal. */
  function Ascii(s: string): seq<byte>
  {
    seq(|s|, i requires 0 <= i < |s| => (s[i] as int % 256) as byte)
  }
}
