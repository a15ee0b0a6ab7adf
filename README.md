# LVGL on SDL2: flush and mouse-input glue, modelled in Dafny

The demo wires the LVGL GUI toolkit to an SDL2 window. Two pieces of its
glue hold logic of their own, and this project models both:

- **The flush callback** (`flush_cb`). LVGL hands over a dirty rectangle
  `(x1, y1)`–`(x2, y2)` and a render buffer with 4 bytes per pixel. The
  callback copies the rectangle, row by row, into a global 800×480 `uint32`
  framebuffer. Each pixel becomes one ARGB word: blue in bits 0-7, green in
  8-15, red in 16-23, alpha in 24-31. `pixel.dfy` (module `Pixel`) holds the
  packing and its inverse. `flush.dfy` (module `Flush`) holds the copy over
  an `array<bv32>`. `FlushCb` runs the outer loop over rows and `CopyRowLoop`
  the inner loop over columns. Their contracts tie the new framebuffer to the
  pure functions `CopyRow` and `CopyRows`, and lemmas about those functions
  say what every word holds afterwards. A ghost
  out-parameter records the destination of each store, in order. Lemmas about
  that write order show the copy makes exactly `w*h` distinct writes, all
  inside the rectangle, and that it covers the whole rectangle.
- **The mouse handler** (`handle_mouse_events`). Each call drains SDL's event
  queue and reduces the events to one pointer report, `(point, pressed)`,
  which it passes to `lv_indev_set_data`. The point starts at the one the
  previous call reported, which is kept in a `static` variable. `pressed`
  starts released on every call. `mouse.dfy` (module `Mouse`) models the
  batch as a `seq<Event>`. The loop's result is specified by a pure fold,
  `Fold`, and a reference definition, `LastWins`, says that the last pointer
  event decides the report. The static state is a class, `MouseInput`.

`lv_color32_from_buf` decodes 4 bytes into a colour, and its byte order is
decided inside LVGL. The model therefore takes it as a parameter of type
`ColorReader`. The area passed to the callback must lie on the display and
be non-empty (`OnScreen`), and the render buffer must cover it
(`CoversArea`). The callback does not check either condition. It relies on
LVGL for both, so `FlushCb` states them as preconditions.

SDL fills in `event.motion.x`/`y` for button events too. The button-event and
motion-event records put `x` and `y` at the same offsets, so the model gives
button events their own coordinates. An `SDL_QUIT` event ends the process with
`exit(0)`. The model shows this as the outcome `Exit`: nothing is reported and
the saved point is left as it was.

## Model

| member | source | states |
|---|---|---|
| `Pixel.Pack` | examples/test_app.c:33 | packing places blue, green, red and alpha in bits 0-7, 8-15, 16-23 and 24-31: unpacking those byte fields returns the original channels |
| `Pixel.PackUnpack` | examples/test_app.c:33 | every 32-bit word is the packing of its own four byte fields (the other half of the round trip) |
| `Pixel.PackInjective` | examples/test_app.c:33 | two colours that pack to the same word are equal |
| `Pixel.AlphaShiftInRange` | examples/test_app.c:33 | `alpha << 24` on the promoted signed int fits in `int` exactly when alpha < 0x80; for alpha 0xFF it does not |
| `Flush.Width` | examples/test_app.c:24 | the width is stored as a `uint32`; for an on-screen area it is `x2 - x1 + 1`, between 1 and 800 |
| `Flush.Height` | examples/test_app.c:25 | the height is stored as a `uint32`; for an on-screen area it is `y2 - y1 + 1`, between 1 and 480 |
| `Flush.DestIndex` | examples/test_app.c:32 | the destination index `(y1+yy)*800 + x1+xx` is below 800*480, and its column and row are the absolute coordinates `(x1+xx, y1+yy)` inside the area |
| `Flush.SrcOffset` | examples/test_app.c:30-31 | the source byte offset `(yy*w+xx)*4` is 4-aligned, and all 4 bytes read there lie within the first `w*h*4` bytes of the render buffer |
| `Flush.CopyRowLoop` | examples/test_app.c:29-34 | the inner loop turns the framebuffer into `CopyRow` of its old contents for row `yy`, storing at the indices of that row from left to right |
| `Flush.FlushCb` | examples/test_app.c:21-35 | the framebuffer becomes `CopyRows` of its old contents over all `h` rows; for every `(xx, yy)` in the area, the word at `(y1+yy)*800 + x1+xx` becomes the packed colour read at byte `(yy*w+xx)*4`; every word outside the area is unchanged; the stores go in row-major order (`WriteOrder`) |
| `Flush.CopyRowAt` | examples/test_app.c:29-33 | after the first `x` stores of row `yy`, a word holds the rendered pixel if it lies in that row before column `x1+x`, and its earlier value otherwise |
| `Flush.CopyRowsAt` | examples/test_app.c:28-35 | after the first `y` rows, a word holds the rendered pixel if it lies in the area above row `y1+y`, and its original value otherwise |
| `Flush.CopyComplete` | examples/test_app.c:28-35 | after all rows, every pixel of the area holds its packed source colour and every word outside the area keeps its original value |
| `Flush.WriteOrderLength` | examples/test_app.c:28-29 | the first `rows` rows of the loop make `rows*w` writes |
| `Flush.WriteOrderMembers` | examples/test_app.c:28-32 | an index is written by the first `rows` rows exactly when it lies in the area, in one of those rows |
| `Flush.WriteOrderDistinct` | examples/test_app.c:28-32 | the loop never writes the same framebuffer index twice |
| `Flush.FlushWrites` | examples/test_app.c:28-35 | the copy makes exactly `w*h` distinct writes, and the written indices are exactly the in-bounds indices inside the area |
| `Flush.OnePixelWrite` | examples/test_app.c:24-32 | a one-pixel area yields a single write, at `y1*800 + x1` |
| `Mouse.LastPointerIndex` | examples/test_app.c:103-119 | finds the last button or motion event of the batch (-1 if none): every later event is of another type |
| `Mouse.FoldKeepsLast` | examples/test_app.c:103-124 | the polling loop's result depends only on the last pointer event, or is its starting value if there is none |
| `Mouse.FoldIsLastWins` | examples/test_app.c:100-124 | the loop, started from the saved point and released, computes the last-event-wins report |
| `Mouse.ReportedPoint` | examples/test_app.c:101-126 | without quit, the reported point is that of the last button or motion event, or the point saved by the previous call if there is none |
| `Mouse.ReportedPressed` | examples/test_app.c:100-118 | without quit, pressed holds exactly when the last pointer event is a button-down, or a motion with the left-button bit set; with no pointer event it is released |
| `Mouse.PressedNotCarriedOver` | examples/test_app.c:100-127 | a call with no pointer events after a reporting call reports the same point, released, whatever the earlier pressed state was |
| `Mouse.FoldConcat` | examples/test_app.c:103-124 | processing two runs of events in a row is processing their concatenation |
| `Mouse.OtherIgnored` | examples/test_app.c:104-123 | an event of another type, anywhere in the batch, changes neither point nor pressed state |
| `Mouse.MouseInput.constructor` | examples/test_app.c:91-92 | the saved state starts at point (0, 0), released |
| `Mouse.MouseInput.HandleMouseEvents` | examples/test_app.c:88-130 | the outcome is `HandleBatch` of the events and the saved point (exit if a quit event occurs); on a report the saved point and pressed state become the reported ones; on exit nothing changes |

## Left out

- `hal_init` (SDL initialisation; window, renderer and texture creation; the framebuffer `malloc`; LVGL display registration). It is foreign-library I/O with log-and-return error paths. The model takes the 800×480 framebuffer as an array argument of that length.
- The SDL presentation calls and `lv_display_flush_ready` at the end of `flush_cb`. They act on external objects and have no contract to state.
- `lv_color32_from_buf`: its byte order lives in LVGL, which is not part of this model. It is the `ColorReader` parameter.
- `SDL_PollEvent`: the polled events are an input sequence.
- The lazy `lv_indev_create` / `lv_indev_set_type` and the `lv_indev_set_data` call. They are opaque LVGL calls; the model returns the values passed to `lv_indev_set_data` as the `SetData` outcome.
- `main`, `btn_event_cb` and widget creation: the LVGL object tree, logging, and the endless polling loop with `SDL_Delay`.
- Flush.Width, Flush.Height: the `int32` subtraction `x2 - x1 + 1` is taken as a mathematical integer before the conversion to `uint32`. Signed overflow for extreme coordinates is not modelled.
- Flush.FlushCb: the inner loop is a method of its own, `CopyRowLoop`, which keeps each proof small. The loop counters are `int32` compared against `uint32` bounds. Under the preconditions they stay small and non-negative, so the model uses natural numbers.
- Mouse.MouseInput.HandleMouseEvents: coordinates are unbounded integers, not `int32`.

## Findings

| source | as written | input that shows it | evidently intended | confidence | as-written member | corrected member |
|---|---|---|---|---|---|---|
| examples/test_app.c:33 | `color.alpha << 24` shifts a `uint8_t` promoted to signed `int`; ISO C leaves the shift undefined when the result exceeds `INT_MAX` | any pixel with alpha ≥ 0x80, e.g. an opaque pixel (alpha 0xFF): 0xFF × 2^24 > 0x7FFFFFFF | an unsigned 32-bit shift giving alpha in bits 24-31 (common compilers produce this bit pattern) | high for the C rule; not executed | `Pixel.AlphaShiftInRange` | `Pixel.Pack` |
