/** Value-level view of a framebuffer: a row-major sequence of packed 32-bit
    colours, `width` pixels per row.  The class in module Framebuffers is
    specified against the functions here. */
module PixelGrid {

  /** Rust's `u32`: a packed colour value. */
  newtype u32 = x: int | 0 <= x < 0x1_0000_0000

  const USIZE_LIMIT: int := 0x1_0000_0000_0000_0000

  /** Rust's `usize` on a 64-bit target. */
  type usize = x: int | 0 <= x < USIZE_LIMIT

  /** Position of pixel (x, y) in the flat buffer: `y * width + x`. */
  function RowMajorIndex(width: nat, x: nat, y: nat): nat
  {
    y * width + x
  }

  /** The pixel position that flat index `i` stands for. */
  function Coordinates(width: nat, i: nat): (nat, nat)
    requires width > 0
  {
    (i % width, i / width)
  }

  /** True when (x, y) lies inside a width-by-height grid. */
  predicate InBounds(width: nat, height: nat, x: nat, y: nat)
  {
    x < width && y < height
  }

  /** Colour of pixel (x, y) in a row-major buffer. */
  function PixelAt(pixels: seq<u32>, width: nat, height: nat, x: nat, y: nat): (c: u32)
    requires |pixels| == width * height
    requires InBounds(width, height, x, y)
    ensures c in pixels
  {
    IndexInRange(width, height, x, y);
    pixels[RowMajorIndex(width, x, y)]
  }

  /** Every in-bounds pixel has a flat index inside the buffer. */
  lemma {:induction false} IndexInRange(width: nat, height: nat, x: nat, y: nat)
    requires InBounds(width, height, x, y)
    ensures RowMajorIndex(width, x, y) < width * height
  {
    calc {
      RowMajorIndex(width, x, y);
      == y * width + x;
      < y * width + width;
      == (y + 1) * width;
      <= { MulMonotone(y + 1, height, width); }
      height * width;
    }
  }

  lemma MulMonotone(a: nat, b: nat, c: nat)
    requires a <= b
    ensures a * c <= b * c
  {
  }

  /** Decoding the index of an in-row pixel gives back its coordinates. */
  lemma {:induction false} IndexRoundTrip(width: nat, x: nat, y: nat)
    requires x < width
    ensures Coordinates(width, RowMajorIndex(width, x, y)) == (x, y)
  {
    var i := RowMajorIndex(width, x, y);
    var q, r := i / width, i % width;
    assert i == q * width + r;
    assert 0 <= r < width;
    // (y - q) * width == r - x, and |r - x| < width, so y == q.
    assert (y - q) * width == r - x;
    if y > q {
      MulMonotone(1, y - q, width);
      assert false;
    } else if y < q {
      MulMonotone(1, q - y, width);
      assert false;
    }
  }

  /** Every flat index of the buffer is the index of exactly one in-bounds pixel. */
  lemma {:induction false} CoordinatesRoundTrip(width: nat, height: nat, i: nat)
    requires i < width * height
    ensures width > 0
    ensures InBounds(width, height, Coordinates(width, i).0, Coordinates(width, i).1)
    ensures RowMajorIndex(width, Coordinates(width, i).0, Coordinates(width, i).1) == i
  {
  }

  /** Distinct in-bounds pixels never share a buffer slot. */
  lemma {:induction false} IndexInjective(width: nat, x1: nat, y1: nat, x2: nat, y2: nat)
    requires x1 < width && x2 < width
    ensures RowMajorIndex(width, x1, y1) == RowMajorIndex(width, x2, y2) <==> (x1, y1) == (x2, y2)
  {
    IndexRoundTrip(width, x1, y1);
    IndexRoundTrip(width, x2, y2);
  }

  /** The buffer after `clear`: every pixel holds the background colour.
      Written pixel by pixel, front to back, in the order the `iter_mut` scan
      visits them; the result is the same as `seq(|pixels|, _ => background)`. */
  function Cleared(pixels: seq<u32>, background: u32): (r: seq<u32>)
    ensures |r| == |pixels|
    ensures forall i :: 0 <= i < |r| ==> r[i] == background
  {
    if pixels == [] then [] else [background] + Cleared(pixels[1..], background)
  }

  /** The buffer after `point(x, y)` with draw colour `color`: the pixel at
      (x, y) takes the colour when it is in bounds; otherwise nothing changes. */
  function Plotted(pixels: seq<u32>, width: nat, height: nat, x: nat, y: nat, color: u32): (r: seq<u32>)
    requires |pixels| == width * height
    ensures |r| == |pixels|
    ensures !InBounds(width, height, x, y) ==> r == pixels
    ensures InBounds(width, height, x, y) ==>
      RowMajorIndex(width, x, y) < |r| && r[RowMajorIndex(width, x, y)] == color
    ensures forall i :: 0 <= i < |r| && i != RowMajorIndex(width, x, y) ==> r[i] == pixels[i]
  {
    if InBounds(width, height, x, y) then
      IndexInRange(width, height, x, y);
      pixels[RowMajorIndex(width, x, y) := color]
    else
      pixels
  }

  /** Pixel view of `point`: the target pixel, when in bounds, reads the draw
      colour; every other pixel reads what it read before. */
  lemma {:induction false} PlottedAt(pixels: seq<u32>, width: nat, height: nat, x: nat, y: nat, color: u32, u: nat, v: nat)
    requires |pixels| == width * height
    requires InBounds(width, height, u, v)
    ensures PixelAt(Plotted(pixels, width, height, x, y, color), width, height, u, v)
         == if (u, v) == (x, y) then color else PixelAt(pixels, width, height, u, v)
  {
    var after := Plotted(pixels, width, height, x, y, color);
    var j := RowMajorIndex(width, u, v);
    IndexInRange(width, height, u, v);
    assert PixelAt(after, width, height, u, v) == after[j];
    assert PixelAt(pixels, width, height, u, v) == pixels[j];
    if InBounds(width, height, x, y) {
      IndexInjective(width, x, y, u, v);
    }
  }

  /** Two draws at the same pixel: the later colour wins. */
  lemma {:induction false} PlotOverwrites(pixels: seq<u32>, width: nat, height: nat, x: nat, y: nat, c1: u32, c2: u32)
    requires |pixels| == width * height
    ensures Plotted(Plotted(pixels, width, height, x, y, c1), width, height, x, y, c2)
         == Plotted(pixels, width, height, x, y, c2)
  {
  }

  /** Draws at two different pixels do not interfere: their order is irrelevant. */
  lemma {:induction false} PlotsCommute(pixels: seq<u32>, width: nat, height: nat,
                                        x1: nat, y1: nat, c1: u32, x2: nat, y2: nat, c2: u32)
    requires |pixels| == width * height
    requires (x1, y1) != (x2, y2)
    ensures Plotted(Plotted(pixels, width, height, x1, y1, c1), width, height, x2, y2, c2)
         == Plotted(Plotted(pixels, width, height, x2, y2, c2), width, height, x1, y1, c1)
  {
    if InBounds(width, height, x1, y1) && InBounds(width, height, x2, y2) {
      IndexInjective(width, x1, y1, x2, y2);
    }
  }

  /** Clearing twice leaves the same buffer as clearing once. */
  lemma {:induction false} ClearIdempotent(pixels: seq<u32>, background: u32)
    ensures Cleared(Cleared(pixels, background), background) == Cleared(pixels, background)
  {
  }

  /** A clear erases every earlier draw: what was plotted before it is lost. */
  lemma {:induction false} ClearErasesPlot(pixels: seq<u32>, width: nat, height: nat, x: nat, y: nat,
                                           color: u32, background: u32)
    requires |pixels| == width * height
    ensures Cleared(Plotted(pixels, width, height, x, y, color), background) == Cleared(pixels, background)
  {
  }

  /** After a clear and one in-bounds draw, the drawn pixel reads the draw
      colour and every other pixel reads the background colour. */
  lemma {:induction false} ClearThenPlot(pixels: seq<u32>, width: nat, height: nat, x: nat, y: nat,
                                         color: u32, background: u32, u: nat, v: nat)
    requires |pixels| == width * height
    requires InBounds(width, height, u, v)
    ensures PixelAt(Plotted(Cleared(pixels, background), width, height, x, y, color), width, height, u, v)
         == if (u, v) == (x, y) then color else background
  {
    PlottedAt(Cleared(pixels, background), width, height, x, y, color, u, v);
  }
}
