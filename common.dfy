/** Shared vocabulary of the placement engine: optional values, calls that may
    raise, positions, 8-bit rasters and importance masks. */
module Common {

  datatype Option<+T> = None | Some(value: T)

  /** The outcome of a Python call that may raise: it either raises an
      exception or returns a value. */
  datatype Call<+T> = Raises | Returns(value: T)

  /** Top-left corner of a marker slot, in pixels: column x, row y. */
  datatype Pos = Pos(x: int, y: int)

  /** Side of the square marker in pixels, in every component. */
  const QrSize: nat := 150

  /** One 8-bit channel value, as numpy's and PIL's uint8. */
  type Byte = b: int | 0 <= b < 256

  const White: Byte := 255

  /** A raster held by value, row-major: g[row][column]. */
  type Grid = seq<seq<Byte>>

  /** An importance mask: per-pixel sum of the mask channels. */
  type Mask = seq<seq<nat>>

  /** g has `height` rows of `width` columns each. */
  predicate IsGrid<T>(g: seq<seq<T>>, width: nat, height: nat)
  {
    |g| == height && forall r :: 0 <= r < |g| ==> |g[r]| == width
  }

  /** The size x size square whose top-left corner is p lies on a
      width x height page. */
  predicate Fits(p: Pos, size: nat, width: int, height: int)
  {
    0 <= p.x && 0 <= p.y && p.x + size <= width && p.y + size <= height
  }

  /** Pixel (r, c) lies in the w x h rectangle whose top-left corner is (x, y). */
  predicate InRect(r: int, c: int, x: int, y: int, w: int, h: int)
  {
    y <= r < y + h && x <= c < x + w
  }

  /** A w x h raster filled with one value. */
  function Filled(w: nat, h: nat, v: Byte): (g: Grid)
    ensures IsGrid(g, w, h)
    ensures forall r, c :: 0 <= r < h && 0 <= c < w ==> g[r][c] == v
  {
    seq(h, _ => seq(w, _ => v))
  }
}
