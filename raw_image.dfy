/** `QOID::RawImage` (Code/QOID/rawimage.hpp and rawimage.cpp): a resizable grid of packed
    pixels in row-major order, with bounds-checked accessors, `Resize` and `FillRegion`. */
module RawImages {
  import opened Bytes
  import opened Pixel32
  import opened Grids

  class RawImage {
    /** The host's byte order, which fixes how a default pixel is packed. */
    const big: bool
    var sizeX: u32
    var sizeY: u32
    /** `Data`. */
    var data: seq<Pixel>

    predicate Valid()
      reads this
    {
      |data| == CellCount(sizeX, sizeY)
    }

    /** Cell (x, y). */
    function At(x: nat, y: nat): Pixel
      reads this
      requires Valid() && x < sizeX && y < sizeY
    {
      data[CellIndex(x, y, sizeX)]
    }

    /** `RawImage(X, Y)`: `X * Y` default (opaque black) pixels. */
    constructor (big: bool, x: u32, y: u32)
      ensures Valid() && this.big == big && sizeX == x && sizeY == y
      ensures forall i: nat, j: nat :: i < x && j < y ==> At(i, j) == Default(big)
    {
      this.big := big;
      sizeX := x;
      sizeY := y;
      data := seq(CellCount(x, y), _ => Default(big));
    }

    /** `SetPixel(P, X, Y)`: out-of-range coordinates throw `out_of_range` and leave the grid
        alone; otherwise cell (X, Y) becomes P and every other cell keeps its pixel. */
    method SetPixel(p: Pixel, x: u32, y: u32) returns (outcome: Outcome)
      requires Valid()
      modifies this
      ensures Valid() && sizeX == old(sizeX) && sizeY == old(sizeY)
      ensures outcome == if x >= sizeX || y >= sizeY then Threw(OutOfRange) else Completed
      ensures outcome.Threw? ==> data == old(data)
      ensures outcome.Completed? ==> forall i: nat, j: nat :: i < sizeX && j < sizeY ==>
                At(i, j) == if i == x && j == y then p else old(At(i, j))
    {
      if x >= sizeX || y >= sizeY {
        return Threw(OutOfRange);
      }
      CellIndexInBounds(x, y, sizeX, sizeY);
      data := data[CellIndex(x, y, sizeX) := p];
      forall i: nat, j: nat | i < sizeX && j < sizeY
        ensures At(i, j) == if i == x && j == y then p else old(At(i, j))
      {
        CellIndexInBounds(i, j, sizeX, sizeY);
        if CellIndex(i, j, sizeX) == CellIndex(x, y, sizeX) {
          CellIndexInjective(i, j, x, y, sizeX);
        }
      }
      return Completed;
    }

    /** `GetPixel(X, Y)`: out-of-range coordinates throw `out_of_range`; in-range ones give
        cell (X, Y). */
    method GetPixel(x: u32, y: u32) returns (r: Result<Pixel>)
      requires Valid()
      ensures x >= sizeX || y >= sizeY ==> r == Failure(OutOfRange)
      ensures x < sizeX && y < sizeY ==> r == Value(At(x, y))
    {
      if x >= sizeX || y >= sizeY {
        return Failure(OutOfRange);
      }
      CellIndexInBounds(x, y, sizeX, sizeY);
      return Value(data[CellIndex(x, y, sizeX)]);
    }

    /** `Fill(P)`: every cell becomes P. */
    method Fill(p: Pixel)
      requires Valid()
      modifies this
      ensures Valid() && sizeX == old(sizeX) && sizeY == old(sizeY)
      ensures forall i: nat, j: nat :: i < sizeX && j < sizeY ==> At(i, j) == p
    {
      data := seq(|data|, _ => p);
      forall i: nat, j: nat | i < sizeX && j < sizeY
        ensures At(i, j) == p
      {
        CellIndexInBounds(i, j, sizeX, sizeY);
      }
    }

    /** `Resize(new_x, new_y)`: a new grid of default pixels into which the top-left overlap of
        the old one is copied cell by cell; every cell outside the overlap is opaque black. */
    method Resize(newX: u32, newY: u32)
      requires Valid()
      modifies this
      ensures Valid() && sizeX == newX && sizeY == newY
      ensures forall i: nat, j: nat :: i < newX && j < newY ==>
                At(i, j) == if i < old(sizeX) && j < old(sizeY) then old(At(i, j)) else Default(big)
    {
      var newData := seq(CellCount(newX, newY), _ => Default(big));
      var rows := Min(sizeY, newY);
      var cols := Min(sizeX, newX);
      var y := 0;
      while y < rows
        invariant 0 <= y <= rows && |newData| == CellCount(newX, newY) && unchanged(this)
        invariant forall i: nat, j: nat :: i < newX && j < newY ==>
                    newData[CellIndex(i, j, newX)] == if i < cols && j < y then At(i, j) else Default(big)
      {
        var x := 0;
        while x < cols
          invariant 0 <= x <= cols && |newData| == CellCount(newX, newY) && unchanged(this)
          invariant forall i: nat, j: nat :: i < newX && j < newY ==>
                      newData[CellIndex(i, j, newX)] ==
                        if i < cols && (j < y || (j == y && i < x)) then At(i, j) else Default(big)
        {
          var cell := GetPixel(x, y);
          newData := StoreCell(newData, x, y, newX, newY, cell.value);
          x := x + 1;
        }
        y := y + 1;
      }
      data := newData;
      sizeX := newX;
      sizeY := newY;
    }

    /** `FillRegion(P, x1, y1, x2, y2)`: checks the start corner, then the end corner, then the
        order of the corners, and throws before writing anything; otherwise every cell of the
        half-open rectangle [x1, x2) x [y1, y2) becomes P and every other cell keeps its pixel. */
    method FillRegion(p: Pixel, x1: u32, y1: u32, x2: u32, y2: u32) returns (outcome: Outcome)
      requires Valid()
      modifies this
      ensures Valid() && sizeX == old(sizeX) && sizeY == old(sizeY)
      ensures outcome == if x1 >= sizeX || y1 >= sizeY then Threw(OutOfRange)
                         else if x2 > sizeX || y2 > sizeY then Threw(OutOfRange)
                         else if x1 > x2 || y1 > y2 then Threw(InvalidArgument)
                         else Completed
      ensures outcome.Threw? ==> data == old(data)
      ensures outcome.Completed? ==> forall i: nat, j: nat :: i < sizeX && j < sizeY ==>
                At(i, j) == if x1 <= i < x2 && y1 <= j < y2 then p else old(At(i, j))
    {
      if x1 >= sizeX || y1 >= sizeY {
        return Threw(OutOfRange);
      }
      if x2 > sizeX || y2 > sizeY {
        return Threw(OutOfRange);
      }
      if x1 > x2 || y1 > y2 {
        return Threw(InvalidArgument);
      }
      ghost var before := data;
      var y := y1;
      while y < y2
        invariant y1 <= y <= y2 && Valid() && sizeX == old(sizeX) && sizeY == old(sizeY)
        invariant forall i: nat, j: nat :: i < sizeX && j < sizeY ==>
                    At(i, j) == if x1 <= i < x2 && y1 <= j < y then p else before[CellIndex(i, j, sizeX)]
      {
        var x := x1;
        while x < x2
          invariant x1 <= x <= x2 && Valid() && sizeX == old(sizeX) && sizeY == old(sizeY)
          invariant forall i: nat, j: nat :: i < sizeX && j < sizeY ==>
                      At(i, j) == if x1 <= i < x2 && (y1 <= j < y || (j == y && x1 <= i < x)) then p
                                  else before[CellIndex(i, j, sizeX)]
        {
          var _ := SetPixel(p, x, y);
          x := x + 1;
        }
        y := y + 1;
      }
      return Completed;
    }
  }

  /** `newData[x + y * new_x] = v` on a grid `w * h` cells large: cell (x, y) becomes v and no
      other cell changes. */
  function StoreCell(cells: seq<Pixel>, x: nat, y: nat, w: u32, h: u32, v: Pixel): (r: seq<Pixel>)
    requires |cells| == CellCount(w, h) && x < w && y < h
    ensures |r| == |cells|
    ensures forall i: nat, j: nat :: i < w && j < h ==>
              r[CellIndex(i, j, w)] == if i == x && j == y then v else cells[CellIndex(i, j, w)]
  {
    var r := cells[CellIndex(x, y, w) := v];
    forall i: nat, j: nat | i < w && j < h && CellIndex(i, j, w) == CellIndex(x, y, w)
      ensures i == x && j == y
    {
      CellIndexInjective(i, j, x, y, w);
    }
    r
  }
}
