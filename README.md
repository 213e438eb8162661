# Hello World libretro core — a verified model

The Hello World core is a minimal libretro plugin. A frontend drives it
through callbacks. It owns one 320x240 RGB565 framebuffer, a movable 20x20
red square, and an optional reference to a loaded zip archive. That reference
is the archive's path plus the uncompressed size of its `script.lua` entry.
Each frame it clears the screen, moves the square by the joypad, draws the
square and a "Hello World" line, then adds the archive's path and a
sanitised preview of `script.lua` when content is loaded.

This project models `src/hello_world_core.c` in Dafny:

- `prelude.dfy` (module `Prelude`): bytes, 16-bit pixels, C strings (`CString`, no NUL inside), `Option`.
- `raster.dfy` (module `Raster`): the framebuffer as a value. It holds what
  `clear_framebuffer`, `draw_char`, `draw_string` and the square blit do, as
  functions on `seq<u16>`, with lemmas in pixel coordinates.
- `input.dfy` (module `Input`): the clamped input step. Right, left, down
  and up are applied in that order, each clamped at once.
- `content.dfy` (module `Content`): the content checks of `retro_load_game`.
  These are the `strrchr` extension check, `_stricmp` against ".zip", and the
  search for the first entry whose stat succeeds and whose name is
  `script.lua`. The module also holds the status line (`snprintf` into 64
  bytes) and the preview sanitiser of `retro_run`.
- `core.dfy` (module `HelloWorldCore`): class `Core`, with the globals of the
  C file as fields. The framebuffer is an `array<u16>` updated in place.
  Its methods are `retro_init`, `retro_deinit`, `retro_reset`,
  `retro_load_game`, `retro_unload_game` and `retro_run`, plus the drawing
  routines. Each method is proved against the value-level functions.
  `Valid()` holds the invariant that the square's corner stays in
  [0, 300] x [0, 220].

Things the frontend or the file system supplies are parameters:

- `Run` gets this frame's joypad state (`Joypad`) and whether a video
  callback is set. It also gets what reopening the stored path yields. It
  returns the pushed frame.
- `LoadGame` gets the descriptor's path and what opening it yields
  (`Option<Archive>`, None when opening fails). It also gets whether `strdup`
  succeeds.
- The glyph table `font_8x8` (font.h is not part of this model) is a
  constructor parameter: 95 glyphs of 8 rows each.

Behaviour of the code worth noting:

- A failing `strdup` does not leave the state unchanged. The previous path is
  already freed, so `zip_path` is NULL. `rom_size` already holds the new size.
- `retro_unload_game` and `retro_deinit` reset `rom_size` to 0 only when a
  path is stored. After a failed `strdup`, `rom_size` keeps the stale size.
- Opposite directions pressed together are not simply additive. At x = 300,
  right is clamped away and left still applies, giving 299.
- An archive with several `script.lua` entries is accepted. The first one
  whose stat succeeds is used.
- The square blit clips only at the right and bottom edges. The cursor
  invariant keeps it fully on screen anyway.
- `retro_deinit` leaves the framebuffer as it is.

## Model

| member | source | states |
|---|---|---|
| Raster.Blank | src/hello_world_core.c:72-74 | the cleared frame has 320*240 pixels, all black (0) |
| Raster.DrawCharRejects | src/hello_world_core.c:78-84 | a character below 32 or above 126 leaves the whole frame unchanged |
| Raster.DrawCharGlyphPixel | src/hello_world_core.c:85-96 | on-screen pixel (x+gx, y+gy) takes the colour exactly when bit 7-gx of glyph row gy is set; otherwise it keeps its value, so unset bits are transparent |
| Raster.DrawCharOutsideCell | src/hello_world_core.c:86-96 | no pixel outside the 8x8 cell at (x, y) changes |
| Raster.DrawStringStopsAtNul | src/hello_world_core.c:102 | drawing stops at the first NUL: the string draws exactly as its part before that NUL |
| Raster.DrawStringConcat | src/hello_world_core.c:100-106 | drawing a+b (a NUL-free) is drawing a, then b from x + 8 * len(a): characters go in order, 8 px apart |
| Raster.DrawStringSingle | src/hello_world_core.c:102-104 | a one-character string draws exactly as `draw_char` does |
| Raster.DrawStringBand | src/hello_world_core.c:100-106 | a string drawn at row y changes only rows y..y+7 |
| Raster.DrawStringColors | src/hello_world_core.c:92 | every pixel after drawing is either its old value or the drawing colour |
| Raster.SquareBox | src/hello_world_core.c:449-454 | with the corner in [0,300]x[0,220], each of the 400 pixels of the box has an index below 320*240 and is 0xF800; every pixel outside the box keeps its value |
| Input.Step | src/hello_world_core.c:429-446 | from an in-range corner the new corner is in range and moves at most one pixel on each axis |
| Input.StepClosedForm | src/hello_world_core.c:430-445 | closed form per axis: one press moves one pixel unless at the edge; opposite presses cancel except at 300/220, where the result is 299/219 |
| Input.OppositePressesAtEdges | src/hello_world_core.c:430-437 | right+left at x=300 gives 299; at x=0 gives 0 |
| Input.IdleStepKeepsCursor | src/hello_world_core.c:429-446 | with no button pressed the cursor does not move |
| Input.StepsStayInRange | src/hello_world_core.c:429-446 | for every sequence of frame inputs, a corner that starts in [0,300]x[0,220] stays there |
| Input.StepsSpeedLimit | src/hello_world_core.c:429-446 | over n frames the corner moves at most n pixels on each axis |
| Content.LastIndexOf | src/hello_world_core.c:326 | `strrchr`: a returned index holds the byte and no later index does; None means the byte does not occur |
| Content.ZipExtensionIff | src/hello_world_core.c:326-346 | the extension check (suffix from the last '.', compared ignoring case with ".zip") accepts a path exactly when it ends in ".zip" in any letter case |
| Content.FirstScript | src/hello_world_core.c:358-372 | the index returned names an entry whose stat succeeded and whose name is `script.lua` ignoring case, and no earlier entry qualifies; None exactly when no entry qualifies |
| Content.FindScript | src/hello_world_core.c:359-372 | the entry loop returns the first qualifying entry, or none |
| Content.ValidateAcceptsIff | src/hello_world_core.c:326-382 | loading is accepted with size n exactly when the path ends in ".zip" (any case), the archive opens, and some entry is `script.lua`; n is the size of the first such entry |
| Content.ValidateRejections | src/hello_world_core.c:326-382 | the failure reasons: no '.' gives NoExtension; a '.' without a ".zip" ending gives NotZip; an archive that does not open gives OpenFailed; no `script.lua` gives ScriptMissing |
| Content.RomPathRejected | src/hello_world_core.c:340-346 | "game.rom" is rejected as not a zip, whatever the archive |
| Content.ReadmeOnlyRejected | src/hello_world_core.c:358-382 | an archive holding only "readme.txt" is rejected with ScriptMissing |
| Content.UpperCaseScriptAccepted | src/hello_world_core.c:340-372 | "GAME.ZIP" holding "SCRIPT.LUA" is accepted with that entry's size |
| Content.Sanitized | src/hello_world_core.c:476-482 | the preview has min(n, 63) bytes, all in [32,126]; a byte in [32,126] is kept and any other byte (NUL included) becomes '.' |
| Content.SanitizedIdempotent | src/hello_world_core.c:476-482 | the sanitiser is idempotent on its own output: a sanitised preview holds only printable bytes, which it keeps |
| Content.SanitizedPrefix | src/hello_world_core.c:476-477 | only the first 63 bytes of the script affect the preview |
| Content.SanitizePreview | src/hello_world_core.c:475-482 | the copy-terminate-replace loop leaves the sanitised preview followed by its NUL |
| Content.StatusLine | src/hello_world_core.c:461-462 | the status text is "ZIP: " and then as much of the path as fits in 63 characters; it is the whole text when the path has at most 58 characters, and it holds no NUL |
| HelloWorldCore.FramePalette | src/hello_world_core.c:424-483 | every pixel of a rendered frame is black, red or white |
| HelloWorldCore.FrameShowsSquare | src/hello_world_core.c:424-483 | outside the text rows a pixel of a rendered frame is red exactly when it lies in the square, and black otherwise |
| HelloWorldCore.LoadedScreenBlackElsewhere | src/hello_world_core.c:398-400 | after a successful load the screen is black outside rows 100..107 |
| HelloWorldCore.Core.constructor | src/hello_world_core.c:24-32 | initial state: black screen, cursor (0,0), no path, size 0, not initialised |
| HelloWorldCore.Core.ClearFramebuffer | src/hello_world_core.c:72-74 | the framebuffer becomes all black |
| HelloWorldCore.Core.DrawChar | src/hello_world_core.c:77-97 | the nested glyph loops leave the frame as `DrawCharSpec` of the old frame |
| HelloWorldCore.Core.DrawString | src/hello_world_core.c:100-106 | the character loop leaves the frame as `DrawStringSpec` of the old frame |
| HelloWorldCore.Core.DrawSquare | src/hello_world_core.c:449-454 | the nested loops paint the square as `SquareSpec` of the old frame |
| HelloWorldCore.Core.HandleInput | src/hello_world_core.c:429-446 | the new corner is `Step` of the old one and stays in range |
| HelloWorldCore.Core.Init | src/hello_world_core.c:184-191 | sets initialized and clears the screen; cursor and content unchanged |
| HelloWorldCore.Core.Deinit | src/hello_world_core.c:222-236 | path cleared (size reset to 0 when a path was held), not initialised, cursor (0,0), screen untouched |
| HelloWorldCore.Core.Reset | src/hello_world_core.c:286-289 | black screen and cursor (0,0); path, size and initialised flag kept |
| HelloWorldCore.Core.UnloadGame | src/hello_world_core.c:522-526 | path cleared; size reset to 0 when a path was held |
| HelloWorldCore.Core.LoadGame | src/hello_world_core.c:297-407 | a rejected load returns its reason and changes nothing. An accepted one stores the path and the script size and shows the confirmation screen. After a failed `strdup` the size is set and the path is cleared |
| HelloWorldCore.Core.Run | src/hello_world_core.c:410-507 | before init nothing changes and nothing is pushed. Otherwise the cursor takes one `Step` and the frame becomes the rendered frame for the new cursor, path and reopened archive. The frame is pushed exactly when a video callback is set |
| HelloWorldCore.IdleFramesRepeat | src/hello_world_core.c:410-507 | after init, two frames without input and with the same archive behind the path push the same picture and leave the cursor where it was |
| HelloWorldCore.Session | src/hello_world_core.c:286-289 | a session that loads an accepted archive, runs a frame, resets and unloads ends initialised, with no path, size 0, cursor (0,0) and a black screen; on the way, reset keeps the stored path and unload releases it |

## Left out

- Logging: `log_cb`, `fallback_log`, `fallback_log_format`, `core.log` and
  stderr are not modelled. They are text output only. The same goes for the
  `printf` calls in `retro_init` and `retro_load_game`.
- Host callback setters (`retro_set_environment`, `retro_set_video_refresh`,
  `retro_set_input_poll`, `retro_set_input_state`, the audio setters) are
  not modelled. They only store handles. Their effect on a frame is the
  `pad` and `videoAttached` parameters of `Run`. A missing input-state
  callback is the same as no button pressed. The input-poll call has no
  effect on the state.
- Pixel-format negotiation, the shutdown request and the log-interface
  request in `retro_init` are host calls with no effect on the modelled state.
- The `SET_SUPPORT_NO_GAME` call, `contentless_set`, `env_call_count`, the
  commented-out code and closing the log file in `retro_deinit` are not
  modelled: they are dead state or I/O.
- The metadata and stub entry points are left out. These are
  `retro_get_system_info`, `retro_get_system_av_info` (floating-point timing),
  `retro_set_controller_port_device`, `retro_get_region`,
  `retro_load_game_special`, the serialize, cheat and memory stubs, and
  `retro_api_version`. They return constants.
- miniz is abstracted. Opening, stat and extraction become an `Archive` value:
  a sequence of entries, each with a stat flag, name, bytes and extract flag.
  A failing `malloc` of the extraction buffer counts as a failed extraction.
  `retro_run` extracts by name. The model takes the bytes of the entry the
  loop found.
- The null-descriptor check of `retro_load_game` is not modelled. The
  descriptor is dereferenced before it is checked, so that branch is not
  reachable as written. The model takes a descriptor and models only its
  possibly missing path.
- `src/miniz_unzip.c` is not modelled. It is a standalone listing program.
- Integer widths: coordinates are unbounded integers. C `int` overflow in
  `draw_string`'s `cx += 8` needs a string of more than 2^28 characters,
  which no caller passes. The cursor stays in [0, 300] x [0, 220]. `rom_size`
  (`size_t`) is a natural number.
- The video push is modelled as `Run` returning the frame. The width, height
  and pitch arguments are constants (320, 240, 640) and are not modelled.
