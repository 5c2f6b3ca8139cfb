/** Row-major addressing shared by every plane and table of the demo:
    cell (row, col) of a grid `width` cells wide lives at `row * width + col`. */
module RowMajor {

  /** Flat index of (row, col) in a row-major grid of the given width. */
  function Flat(width: int, row: int, col: int): int {
    row * width + col
  }

  /** A cell inside a `width` x `height` grid has a flat index inside the grid's storage. */
  lemma FlatInRange(width: int, height: int, row: int, col: int)
    requires 0 <= row < height && 0 <= col < width
    ensures 0 <= Flat(width, row, col) < width * height
  {
    assert row * width <= (height - 1) * width by {
      MulMonotone(row, height - 1, width);
    }
    assert (height - 1) * width + width == width * height;
  }

  /** Two cells of the same grid share a flat index only if they are the same cell. */
  lemma FlatInjective(width: int, row1: int, col1: int, row2: int, col2: int)
    requires 0 <= col1 < width && 0 <= col2 < width
    requires Flat(width, row1, col1) == Flat(width, row2, col2)
    ensures row1 == row2 && col1 == col2
  {
    if row1 < row2 {
      MulMonotone(row1 + 1, row2, width);
      assert false;
    } else if row2 < row1 {
      MulMonotone(row2 + 1, row1, width);
      assert false;
    }
  }

  /** Division and remainder by the width give back the row and the column of a flat index. */
  lemma FlatParts(width: int, row: int, col: int)
    requires 0 <= col < width
    ensures Flat(width, row, col) / width == row && Flat(width, row, col) % width == col
  {
    var index := Flat(width, row, col);
    FlatInjective(width, index / width, index % width, row, col);
  }

  /** Every non-negative index is the flat index of the cell (index / width, index % width). */
  lemma FlatDecompose(width: int, index: int)
    requires width >= 1 && index >= 0
    ensures 0 <= index % width < width && index / width >= 0
    ensures Flat(width, index / width, index % width) == index
  {
  }

  /** An index below width * height lies in a row below height. */
  lemma RowOfIndexInRange(width: int, height: int, index: int)
    requires width >= 1 && 0 <= index < width * height
    ensures 0 <= index / width < height
  {
    FlatDecompose(width, index);
    if index / width >= height {
      MulMonotone(height, index / width, width);
      assert false;
    }
  }

  lemma MulMonotone(a: int, b: int, k: int)
    requires a <= b && k >= 0
    ensures a * k <= b * k
  {
  }
}
