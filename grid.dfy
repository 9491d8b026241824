/** What the two pixel grids (`Image` and `RawImage`) share: a row-major vector of
    `width * height` pixels whose cell (x, y) sits at index `x + y * width`, and the exceptions
    their accessors throw. */
module Grids {
  import opened Bytes

  /** The standard exceptions the grids throw. */
  datatype Exception = OutOfRange | RuntimeError | InvalidArgument

  /** How a mutator ends: normally, or by throwing. */
  datatype Outcome = Completed | Threw(error: Exception)

  /** What an accessor gives back: a value, or the exception it throws. */
  datatype Result<T> = Value(value: T) | Failure(error: Exception)

  /** The row-major index of cell (x, y) in a grid `width` cells wide. */
  function CellIndex(x: nat, y: nat, width: nat): (i: nat)
    ensures x < width ==> i / width == y && i % width == x
  {
    if x < width then
      DivMod(y, x, width);
      x + y * width
    else
      x + y * width
  }

  /** Every in-bounds cell has an index inside the vector of `width * height` pixels. */
  lemma {:induction false} CellIndexInBounds(x: nat, y: nat, width: nat, height: nat)
    requires x < width && y < height
    ensures CellIndex(x, y, width) < width * height
  {
    assert CellIndex(x, y, width) < (y + 1) * width;
    MulMonotone(y + 1, height, width);
  }

  lemma {:induction false} MulMonotone(a: nat, b: nat, w: nat)
    requires a <= b
    ensures a * w <= b * w
    decreases b - a
  {
    if a < b {
      MulMonotone(a, b - 1, w);
      assert b * w == (b - 1) * w + w;
    }
  }

  /** Distinct in-bounds cells have distinct indices: the index gives back the coordinates. */
  lemma {:induction false} CellIndexInjective(x: nat, y: nat, x': nat, y': nat, width: nat)
    requires x < width && x' < width
    requires CellIndex(x, y, width) == CellIndex(x', y', width)
    ensures x == x' && y == y'
  {
    DivMod(y, x, width);
    DivMod(y', x', width);
  }

  /** The pixel count the constructors compute: `width * height` in `uint32_t` (`ui`), which
      wraps around modulo 2^32. */
  function CellCountAsWritten(width: u32, height: u32): (n: u32)
    ensures width * height < 0x1_0000_0000 ==> n == width * height
  {
    var product: nat := width * height;
    if product < 0x1_0000_0000 then product else product % 0x1_0000_0000
  }

  /** The count does not depend on which side is multiplied first (`getHeight() * getWidth()`
      in one writer, `width * height` in the other). */
  lemma CellCountAsWrittenSymmetric(width: u32, height: u32)
    ensures CellCountAsWritten(height, width) == CellCountAsWritten(width, height)
  {
    assert height * width == width * height;
  }

  /** When the product does not fit in 32 bits the vector is too short: the last in-bounds cell,
      which passes the bounds check of `SetPixel` and `GetPixel`, lies past its end. A
      65536 x 65536 image gets no pixels at all, yet cell (0, 0) is in bounds. */
  lemma {:induction false} CellCountAsWrittenTooSmall(width: u32, height: u32)
    requires width * height >= 0x1_0000_0000
    ensures width > 0 && height > 0
    ensures CellIndex(width - 1, height - 1, width) >= CellCountAsWritten(width, height)
    ensures CellCountAsWritten(0x1_0000, 0x1_0000) == 0
  {
    assert width > 0 && height > 0;
    assert CellIndex(width - 1, height - 1, width) == width * height - 1 by {
      assert (height - 1) * width == height * width - width;
    }
    assert 0x1_0000 * 0x1_0000 == 0x1_0000_0000 * 1 + 0;
    DivMod(1, 0, 0x1_0000_0000);
  }

  /** A fresh grid as the constructors are meant to make it: one default pixel per cell, so every
      in-bounds cell exists. */
  function CellCount(width: u32, height: u32): (n: nat)
    ensures forall x: nat, y: nat :: x < width && y < height ==> CellIndex(x, y, width) < n
  {
    forall x: nat, y: nat | x < width && y < height
      ensures CellIndex(x, y, width) < width * height
    {
      CellIndexInBounds(x, y, width, height);
    }
    width * height
  }
}
