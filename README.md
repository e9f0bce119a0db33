# Framebuffer of a software rasterizer, in Dafny

This project models the framebuffer of a CPU-only 3D renderer written in Rust
(`src/framebuffer.rs`). The framebuffer is a fixed-size store of
`width * height` packed 32-bit colours (`Vec<u32>`) in row-major order. It
also holds two colour registers: the background colour, which `clear` floods
the buffer with, and the current colour, which `point` draws with.

The model has two modules:

- `PixelGrid` (`pixel_grid.dfy`) is the value-level view. It defines the Rust
  integer types it needs (`u32` as a newtype, `usize` as a 64-bit subset
  type) and the row-major index `y * width + x` with its inverse
  `(i % width, i / width)`. It also defines `Cleared` and `Plotted`, the
  buffer contents after `clear` and after `point`. The class relies on one
  lemma, the index bound: an in-bounds pixel always has an index inside the
  buffer. Injectivity of the index (distinct pixels never share a slot)
  supports the pixel-level lemmas, which prove how draws and clears combine:
  the last draw at a pixel wins, draws at different pixels commute, `clear`
  is idempotent, and `clear` erases every earlier draw.
- `Framebuffers` (`framebuffer.dfy`) holds the class `Framebuffer`. `width`,
  `height` and the `array<u32>` buffer are fixed at construction. The two
  colours are mutable fields. The object invariant `Valid()` says that `buffer.Length == width *
  height` and that this product fits in a `usize`. Each method states its
  whole new state: the setters name the one field they may change, and
  `Clear` and `Point` tie `buffer[..]` to `Cleared` and `Plotted` of the old
  contents. `Clear` is a loop over the buffer, like the Rust `iter_mut` loop.
  `Point` computes the index as a `usize`, and the verifier checks that this
  index neither overflows nor falls outside the buffer.

Two edge cases of the code:

- `new` accepts zero dimensions and builds an empty buffer, and so does the
  constructor.
- Coordinates are `usize`, so `point` tests only the upper bounds. `Point`
  takes `usize` coordinates and drops every `x >= width` or `y >= height`.

## Model

| member | source | states |
|---|---|---|
| `Framebuffers.Framebuffer.constructor` | src/framebuffer.rs:12-20 | the new framebuffer has the given dimensions, a fresh buffer of exactly `width * height` pixels that are all 0, both colour registers 0, and satisfies the length invariant |
| `Framebuffers.Framebuffer.SetBackgroundColor` | src/framebuffer.rs:22-24 | the background colour becomes the argument; the current colour and every pixel are unchanged, and nothing else may be modified |
| `Framebuffers.Framebuffer.SetCurrentColor` | src/framebuffer.rs:26-28 | the current colour becomes the argument; the background colour and every pixel are unchanged, and nothing else may be modified |
| `Framebuffers.Framebuffer.Clear` | src/framebuffer.rs:30-34 | every pixel of the buffer now holds the background colour (`Cleared` of the old contents); the length, dimensions and both colours are unchanged |
| `Framebuffers.Framebuffer.Point` | src/framebuffer.rs:36-40 | the buffer becomes `Plotted` of its old contents: the pixel at index `y * width + x` takes the current colour when `x < width && y < height`, every other pixel keeps its value, and an out-of-range point changes nothing; the index is a valid `usize` inside the buffer |
| `Framebuffers.Framebuffer.GetBuffer` | src/framebuffer.rs:42-44 | returns exactly the current pixel contents, `width * height` of them, and modifies nothing |
| `PixelGrid.Cleared` | src/framebuffer.rs:30-34 | the cleared buffer has the same length as before and every pixel equals the background colour |
| `PixelGrid.Plotted` | src/framebuffer.rs:36-40 | the buffer after a point has the same length; an out-of-range point leaves it equal to the old buffer; an in-range point sets slot `y * width + x`, which lies inside the buffer, to the draw colour; every other slot keeps its old value |
| `PixelGrid.PixelAt` | src/framebuffer.rs:38 | reading pixel `(x, y)` in bounds reads a colour that is stored in the buffer (the row-major index is inside it) |
| `PixelGrid.IndexInRange` | src/framebuffer.rs:37-38 | whenever the bounds check `x < width && y < height` passes, `y * width + x < width * height`, so the write in `point` is never out of range |
| `PixelGrid.IndexRoundTrip` | src/framebuffer.rs:38 | for `x < width`, the index `y * width + x` decodes back to `(x, y)` by `(i % width, i / width)` |
| `PixelGrid.CoordinatesRoundTrip` | src/framebuffer.rs:16 | every slot `i < width * height` of the buffer is the row-major index of an in-bounds pixel, namely `(i % width, i / width)`, so the buffer has no slot that `point` cannot reach |
| `PixelGrid.IndexInjective` | src/framebuffer.rs:38 | two pixels in a row of length `width` share a buffer slot if and only if they are the same pixel |
| `PixelGrid.PlottedAt` | src/framebuffer.rs:36-40 | after a point, the in-bounds pixel `(u, v)` reads the draw colour when it is the drawn pixel, and its old colour otherwise |
| `PixelGrid.PlotOverwrites` | src/framebuffer.rs:36-40 | two points at the same coordinates leave the buffer as the second alone would: the later colour wins |
| `PixelGrid.PlotsCommute` | src/framebuffer.rs:36-40 | points at two different coordinates give the same buffer in either order |
| `PixelGrid.ClearIdempotent` | src/framebuffer.rs:30-34 | clearing twice with the same background colour gives the same buffer as clearing once |
| `PixelGrid.ClearErasesPlot` | src/framebuffer.rs:30-40 | a clear after a point gives the same buffer as a clear alone: nothing drawn before a clear survives it |
| `PixelGrid.ClearThenPlot` | src/framebuffer.rs:30-40 | after a clear and a point, the drawn in-bounds pixel reads the draw colour and every other pixel reads the background colour |

## Left out

- `Framebuffer::display` (src/framebuffer.rs:46-60) opens a window through the `minifb` library and polls for the Escape key. It is I/O on a foreign library and is not modelled.
- `src/main.rs` is not modelled. It holds window setup, the per-frame loop with its sleep pacing, keyboard polling (`handle_input`) and the `f32` trigonometry of `create_model_matrix`. All of it is I/O, or floating point through the `nalgebra_glm` library.
- The rasterizer, shaders, uniforms, render driver, mesh loader, line and bounding-box modules (declared at src/main.rs:7-16) are outside the framebuffer and are not modelled.
- `src/main.rs:73` calls `framebuffer.color_array_to_u32()`, a method that `src/framebuffer.rs` does not define. It is not modelled.
- `Framebuffers.Framebuffer.constructor`: requires `width * height` to fit in a 64-bit `usize`. In Rust that multiplication panics on overflow in debug builds, wraps in release builds, and an allocation that large fails anyway. The model does not capture the panic or the wrapped length.
- `Framebuffers.Framebuffer.GetBuffer`: returns the pixel contents as a value (`seq<u32>`), where Rust returns a shared borrow `&[u32]` of the live vector. The model does not capture the aliasing; the borrow checker already forbids mutation through it.
- The model makes `width`, `height` and `buffer` constant after construction. It does not capture outside code reassigning or resizing these `pub` fields (for example truncating the `pub buffer` vector, after which `point` in Rust can panic on the index at src/framebuffer.rs:38).
