/** `QOID::Image` (QOID.hpp and src/QOID/image.hpp, which carry the same class): a fixed-size
    grid of packed pixels in row-major order, with bounds-checked and unchecked accessors. */
module Images {
  import opened Bytes
  import opened Pixel32
  import opened Grids

  class Image {
    /** The host's byte order, which fixes how a default pixel is packed. */
    const big: bool
    const width: u32
    const height: u32
    /** `m_pixel_data`. */
    var data: seq<Pixel>

    /** Every cell of the `width * height` grid exists. */
    predicate Valid()
      reads this
    {
      |data| == CellCount(width, height)
    }

    /** Cell (x, y). */
    function At(x: nat, y: nat): Pixel
      reads this
      requires Valid() && x < width && y < height
    {
      data[CellIndex(x, y, width)]
    }

    /** `Image(width, height)`: `width * height` default (opaque black) pixels. */
    constructor (big: bool, width: u32, height: u32)
      ensures Valid() && this.big == big && this.width == width && this.height == height
      ensures forall x: nat, y: nat :: x < width && y < height ==> At(x, y) == Default(big)
    {
      this.big := big;
      this.width := width;
      this.height := height;
      data := seq(CellCount(width, height), _ => Default(big));
    }

    /** The copy constructor `Image(Image &I)`: same size, same pixels. */
    constructor Copy(other: Image)
      requires other.Valid()
      ensures Valid() && big == other.big && width == other.width && height == other.height
      ensures data == other.data
    {
      big := other.big;
      width := other.width;
      height := other.height;
      data := other.data;
    }

    /** `fSetPixel(P, x, y)`: `memcpy` of P into cell `x + y * width`, with no bounds check; the
        index has to lie inside the vector. */
    method FSetPixel(p: Pixel, x: u32, y: u32)
      requires Valid() && CellIndex(x, y, width) < |data|
      modifies this
      ensures Valid()
      ensures data == old(data)[CellIndex(x, y, width) := p]
    {
      data := data[CellIndex(x, y, width) := p];
    }

    /** `SetPixel(P, x, y)`: out-of-range coordinates throw and leave the grid alone; otherwise
        cell (x, y) becomes P and every other cell keeps its pixel. */
    method SetPixel(p: Pixel, x: u32, y: u32) returns (outcome: Outcome)
      requires Valid()
      modifies this
      ensures Valid()
      ensures outcome == if x >= width || y >= height then Threw(OutOfRange) else Completed
      ensures outcome.Threw? ==> data == old(data)
      ensures outcome.Completed? ==> forall i: nat, j: nat :: i < width && j < height ==>
                At(i, j) == if i == x && j == y then p else old(At(i, j))
    {
      if x >= width || y >= height {
        return Threw(OutOfRange);
      }
      CellIndexInBounds(x, y, width, height);
      FSetPixel(p, x, y);
      forall i: nat, j: nat | i < width && j < height
        ensures At(i, j) == if i == x && j == y then p else old(At(i, j))
      {
        CellIndexInBounds(i, j, width, height);
        if CellIndex(i, j, width) == CellIndex(x, y, width) {
          CellIndexInjective(i, j, x, y, width);
        }
      }
      return Completed;
    }

    /** `fGetPixel(x, y)`: cell `x + y * width`, unchecked; the index has to lie inside the
        vector. For in-bounds coordinates it is cell (x, y). */
    method FGetPixel(x: u32, y: u32) returns (p: Pixel)
      requires Valid() && CellIndex(x, y, width) < |data|
      ensures p == data[CellIndex(x, y, width)]
      ensures x < width && y < height ==> p == At(x, y)
    {
      p := data[CellIndex(x, y, width)];
    }

    /** `GetPixel(x, y)`: an image with no pixels throws `runtime_error` whatever the
        coordinates; otherwise out-of-range coordinates throw `out_of_range`, and in-range ones give
        cell (x, y). */
    method GetPixel(x: u32, y: u32) returns (r: Result<Pixel>)
      requires Valid()
      ensures |data| == 0 ==> r == Failure(RuntimeError)
      ensures |data| != 0 && (x >= width || y >= height) ==> r == Failure(OutOfRange)
      ensures |data| != 0 && x < width && y < height ==> r == Value(At(x, y))
    {
      if |data| == 0 {
        return Failure(RuntimeError);
      }
      if x >= width || y >= height {
        return Failure(OutOfRange);
      }
      CellIndexInBounds(x, y, width, height);
      var p := FGetPixel(x, y);
      return Value(p);
    }

    /** `Fill(P)`: every cell becomes P. */
    method Fill(p: Pixel)
      requires Valid()
      modifies this
      ensures Valid()
      ensures forall i: nat, j: nat :: i < width && j < height ==> At(i, j) == p
    {
      data := seq(|data|, _ => p);
      forall i: nat, j: nat | i < width && j < height
        ensures At(i, j) == p
      {
        CellIndexInBounds(i, j, width, height);
      }
    }
  }
}
