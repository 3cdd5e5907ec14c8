/**
 * The software renderer's frame buffer (src/windowing.rs): a `width × height` colour buffer
 * and a depth buffer of the same size. Row 0 of the buffers is the top of the screen, so pixel
 * `(x, y)`, counted from the bottom, lives in row `height - 1 - y`.
 */
module Windowing {

  import opened Common

  type U8 = n: int | 0 <= n < 256

  datatype Color = Color(r: U8, g: U8, b: U8, a: U8)

  /** `f32::MIN`, the depth of a pixel nothing has been drawn on; depths are modelled as reals. */
  const DEPTH_MIN: real := -340282346638528859811704183484516925440.0

  /**
   * The buffer index of pixel `(x, y)`: column `x` of the flipped row `height - 1 - y`. It lies
   * inside the buffer and gives the pixel's coordinates back, so distinct pixels never share it.
   */
  function PixelIndex(width: nat, height: nat, x: nat, y: nat): (i: nat)
    requires x < width && y < height
    ensures i < width * height
    ensures i % width == x && i / width == height - 1 - y
  {
    RowMajorBound(x, height - 1 - y, width, height);
    DivModUnique(x + (height - 1 - y) * width, width, height - 1 - y, x);
    x + (height - 1 - y) * width
  }

  /** Two pixels share a buffer index only when they are the same pixel. */
  lemma PixelIndexInjective(width: nat, height: nat, x1: nat, y1: nat, x2: nat, y2: nat)
    requires x1 < width && y1 < height && x2 < width && y2 < height
    ensures PixelIndex(width, height, x1, y1) == PixelIndex(width, height, x2, y2) <==> x1 == x2 && y1 == y2
  {
  }

  /** Every buffer index is the index of exactly one pixel. */
  lemma PixelIndexOnto(width: nat, height: nat, i: nat)
    requires i < width * height
    ensures width > 0 && i / width < height
    ensures PixelIndex(width, height, i % width, height - 1 - i / width) == i
  {
    assert width > 0;
    if i / width >= height {
      MulMonotone(height, i / width, width);
      assert false;
    }
  }

  class Canvas {
    const width: nat
    const height: nat
    const buffer: array<Color>
    var zbuffer: array<real>

    /** Both buffers hold one entry per pixel. */
    ghost predicate Valid()
      reads this
    {
      buffer.Length == width * height && zbuffer.Length == width * height
    }

    /** `Canvas::new`: every pixel has `color` and the minimum depth. */
    constructor (width: nat, height: nat, color: Color)
      requires width * height < USIZE_MODULUS
      ensures this.width == width && this.height == height && Valid()
      ensures fresh(buffer) && fresh(zbuffer)
      ensures forall i | 0 <= i < buffer.Length :: buffer[i] == color
      ensures forall i | 0 <= i < zbuffer.Length :: zbuffer[i] == DEPTH_MIN
    {
      this.width, this.height := width, height;
      buffer := new Color[width * height](_ => color);
      zbuffer := new real[width * height](_ => DEPTH_MIN);
    }

    /** `clear`: every pixel gets `color`; the depths are left as they are. */
    method Clear(color: Color)
      modifies buffer
      ensures forall i | 0 <= i < buffer.Length :: buffer[i] == color
      ensures zbuffer[..] == old(zbuffer[..])
    {
      for i := 0 to buffer.Length
        invariant forall j | 0 <= j < i :: buffer[j] == color
      {
        buffer[i] := color;
      }
    }

    /**
     * `set_with_depth`: an in-range pixel whose stored depth is strictly below `depth` takes the
     * colour and the depth; any other call changes nothing. No stored depth ever decreases, and
     * an in-range pixel is left at least as deep as `depth`.
     */
    method SetWithDepth(x: nat, y: nat, depth: real, color: Color)
      requires Valid()
      modifies buffer, zbuffer
      ensures x < width && y < height && old(zbuffer[PixelIndex(width, height, x, y)]) < depth ==>
        buffer[..] == old(buffer[..])[PixelIndex(width, height, x, y) := color]
        && zbuffer[..] == old(zbuffer[..])[PixelIndex(width, height, x, y) := depth]
      ensures !(x < width && y < height && old(zbuffer[PixelIndex(width, height, x, y)]) < depth) ==>
        buffer[..] == old(buffer[..]) && zbuffer[..] == old(zbuffer[..])
      ensures forall i | 0 <= i < zbuffer.Length :: old(zbuffer[i]) <= zbuffer[i]
      ensures x < width && y < height ==> depth <= zbuffer[PixelIndex(width, height, x, y)]
    {
      if x < width && y < height {
        var index := PixelIndex(width, height, x, y);
        if zbuffer[index] < depth {
          zbuffer[index] := depth;
          buffer[index] := color;
        }
      }
    }

    /** `set`: an in-range pixel takes the colour, whatever its depth; out of range it is a no-op. */
    method Set(x: nat, y: nat, color: Color)
      requires Valid()
      modifies buffer
      ensures x < width && y < height ==> buffer[..] == old(buffer[..])[PixelIndex(width, height, x, y) := color]
      ensures !(x < width && y < height) ==> buffer[..] == old(buffer[..])
      ensures zbuffer[..] == old(zbuffer[..])
    {
      if x < width && y < height {
        buffer[PixelIndex(width, height, x, y)] := color;
      }
    }

    /** `clear_zbuffer`: a new depth buffer, one minimum depth per pixel; the colours stay. */
    method ClearZbuffer()
      requires Valid()
      modifies this
      ensures Valid() && fresh(zbuffer)
      ensures forall i | 0 <= i < zbuffer.Length :: zbuffer[i] == DEPTH_MIN
      ensures buffer[..] == old(buffer[..])
    {
      zbuffer := new real[width * height](_ => DEPTH_MIN);
    }
  }
}
