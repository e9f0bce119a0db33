/** The framebuffer of the renderer: a fixed-size, row-major store of packed
    32-bit colours with a background (clear) colour and a current draw colour. */
module Framebuffers {
  import opened PixelGrid

  class Framebuffer {
    // The dimensions and the pixel store are fixed at construction; no
    // operation replaces them, only the pixels inside the store change.
    const width: usize
    const height: usize
    const buffer: array<u32>
    var backgroundColor: u32
    var currentColor: u32

    /** The buffer holds exactly one slot per pixel, and every row-major
        index of an in-bounds pixel is a valid `usize`. */
    ghost predicate Valid()
    {
      buffer.Length == width * height && width * height < USIZE_LIMIT
    }

    /** `new(width, height)`: a zero-filled buffer, both colours 0. */
    constructor (width: usize, height: usize)
      requires width * height < USIZE_LIMIT
      ensures Valid()
      ensures this.width == width && this.height == height
      ensures fresh(buffer)
      ensures buffer[..] == seq(width * height, _ => 0)
      ensures backgroundColor == 0 && currentColor == 0
    {
      this.width := width;
      this.height := height;
      var n: usize := width * height;
      var a := new u32[n](_ => 0);
      assert a[..] == seq(n, _ => 0);
      buffer := a;
      backgroundColor := 0;
      currentColor := 0;
    }

    /** Sets the colour that `Clear` floods the buffer with; nothing else changes. */
    method SetBackgroundColor(color: u32)
      modifies this`backgroundColor
      ensures backgroundColor == color
      ensures currentColor == old(currentColor)
      ensures buffer[..] == old(buffer[..])
    {
      backgroundColor := color;
    }

    /** Sets the colour that `Point` draws with; nothing else changes. */
    method SetCurrentColor(color: u32)
      modifies this`currentColor
      ensures currentColor == color
      ensures backgroundColor == old(backgroundColor)
      ensures buffer[..] == old(buffer[..])
    {
      currentColor := color;
    }

    /** Overwrites every pixel with the background colour. */
    method Clear()
      requires Valid()
      modifies buffer
      ensures buffer[..] == Cleared(old(buffer[..]), backgroundColor)
    {
      for i := 0 to buffer.Length
        invariant forall k :: 0 <= k < i ==> buffer[k] == backgroundColor
      {
        buffer[i] := backgroundColor;
      }
    }

    /** Draws the current colour at (x, y) when the pixel is inside the
        buffer; coordinates outside it are dropped without any effect. */
    method Point(x: usize, y: usize)
      requires Valid()
      modifies buffer
      ensures buffer[..] == Plotted(old(buffer[..]), width, height, x, y, currentColor)
    {
      if x < width && y < height {
        IndexInRange(width, height, x, y);
        var i: usize := y * width + x;
        buffer[i] := currentColor;
      }
    }

    /** Read-only export of the pixel store, one colour per pixel in row-major order. */
    method GetBuffer() returns (pixels: seq<u32>)
      requires Valid()
      ensures |pixels| == width * height
      ensures pixels == buffer[..]
    {
      pixels := buffer[..];
    }
  }
}
