/** Block-wise luma coding: the w x h luma plane `ys` is cut into N x N blocks, each block is
    gathered into a matrix, transformed by `dct2`, truncated by zigzag rank, and later inverse
    transformed by `idct2` and scattered back into the reconstructed plane.

    The transforms are opaque: they are parameters. The plane's width and height are taken to be
    multiples of N, so that the block grid is (h / N) x (w / N) whole blocks. */
module BlockCodec {
  import opened RowMajor
  import opened Truncation

  /** Entry (i, j) of block (row, col) exists in a w x h plane cut into n x n blocks. */
  predicate BlockEntry(w: int, h: int, n: int, row: int, col: int, i: int, j: int) {
    n >= 1 && 0 <= row < h / n && 0 <= col < w / n && 0 <= i < n && 0 <= j < n
  }

  /** Number of whole blocks: browsCount * bcolsCount. */
  function BlockCount(w: nat, h: nat, n: nat): int
    requires n >= 1
  {
    (h / n) * (w / n)
  }

  /** Slot of block (row, col) in the row-major list of blocks. */
  function BlockSlot(w: nat, h: nat, n: nat, row: int, col: int): (s: int)
    requires n >= 1 && 0 <= row < h / n && 0 <= col < w / n
    ensures 0 <= s < BlockCount(w, h, n)
  {
    FlatInRange(w / n, h / n, row, col);
    Flat(w / n, row, col)
  }

  /** Plane index of entry (i, j) of block (row, col): pixel (row * n + i, col * n + j). */
  function BlockPixel(w: nat, h: nat, n: nat, row: int, col: int, i: int, j: int): (p: int)
    requires BlockEntry(w, h, n, row, col, i, j)
    ensures 0 <= p < w * h
  {
    BlockCoordInRange(h, n, row, i);
    BlockCoordInRange(w, n, col, j);
    FlatInRange(w, h, row * n + i, col * n + j);
    Flat(w, row * n + i, col * n + j)
  }

  /** The block entry covering pixel p of a plane whose sides are multiples of n. */
  function EntryOfPixel(w: nat, h: nat, n: nat, p: int): (e: (int, int, int, int))
    requires n >= 1 && w % n == 0 && h % n == 0 && 0 <= p < w * h
    ensures BlockEntry(w, h, n, e.0, e.1, e.2, e.3)
    ensures BlockPixel(w, h, n, e.0, e.1, e.2, e.3) == p
  {
    RowOfIndexInRange(w, h, p);
    FlatDecompose(w, p);
    var y, x := p / w, p % w;
    CoordInBlockGrid(h, n, y);
    CoordInBlockGrid(w, n, x);
    (y / n, x / n, y % n, x % n)
  }

  lemma BlockCoordInRange(extent: nat, n: nat, b: int, i: int)
    requires n >= 1 && 0 <= b < extent / n && 0 <= i < n
    ensures 0 <= b * n + i < extent
  {
    FlatDecompose(n, extent);
    MulMonotone(b + 1, extent / n, n);
  }

  lemma CoordInBlockGrid(extent: nat, n: nat, y: int)
    requires n >= 1 && extent % n == 0 && 0 <= y < extent
    ensures 0 <= y / n < extent / n && 0 <= y % n < n
    ensures (y / n) * n + y % n == y
  {
    FlatDecompose(n, y);
    FlatDecompose(n, extent);
    if y / n >= extent / n {
      MulMonotone(extent / n, y / n, n);
      assert false;
    }
  }

  /** Distinct block entries address distinct pixels: each pixel belongs to one block entry only. */
  lemma BlockPixelInjective(w: nat, h: nat, n: nat, row1: int, col1: int, i1: int, j1: int,
                                                    row2: int, col2: int, i2: int, j2: int)
    requires BlockEntry(w, h, n, row1, col1, i1, j1) && BlockEntry(w, h, n, row2, col2, i2, j2)
    requires BlockPixel(w, h, n, row1, col1, i1, j1) == BlockPixel(w, h, n, row2, col2, i2, j2)
    ensures row1 == row2 && col1 == col2 && i1 == i2 && j1 == j2
  {
    BlockCoordInRange(w, n, col1, j1);
    BlockCoordInRange(w, n, col2, j2);
    FlatInjective(w, row1 * n + i1, col1 * n + j1, row2 * n + i2, col2 * n + j2);
    FlatInjective(n, row1, i1, row2, i2);
    FlatInjective(n, col1, j1, col2, j2);
  }

  /** Distinct blocks use distinct slots. */
  lemma BlockSlotInjective(w: nat, h: nat, n: nat, row1: int, col1: int, row2: int, col2: int)
    requires n >= 1 && 0 <= row1 < h / n && 0 <= col1 < w / n && 0 <= row2 < h / n && 0 <= col2 < w / n
    requires BlockSlot(w, h, n, row1, col1) == BlockSlot(w, h, n, row2, col2)
    ensures row1 == row2 && col1 == col2
  {
    FlatInjective(w / n, row1, col1, row2, col2);
  }

  function Zeros(n: nat): (m: Matrix<int>)
    ensures IsSquare(m, n)
  {
    seq(n, _ => seq(n, _ => 0))
  }

  /** Copies block (row, col) of the luma plane into an n x n matrix. */
  method GatherBlock(ys: seq<int>, w: nat, h: nat, n: nat, row: int, col: int) returns (lmx: Matrix<int>)
    requires |ys| == w * h && n >= 1 && 0 <= row < h / n && 0 <= col < w / n
    ensures IsSquare(lmx, n)
    ensures forall i, j :: 0 <= i < n && 0 <= j < n ==>
      lmx[i][j] == ys[BlockPixel(w, h, n, row, col, i, j)]
  {
    var y := row * n;
    var x := col * n;
    lmx := Zeros(n);
    for i := 0 to n
      invariant IsSquare(lmx, n)
      invariant forall i', j :: 0 <= i' < i && 0 <= j < n ==>
        lmx[i'][j] == ys[BlockPixel(w, h, n, row, col, i', j)]
    {
      for j := 0 to n
        invariant IsSquare(lmx, n)
        invariant forall i', j' :: 0 <= i' < i && 0 <= j' < n ==>
          lmx[i'][j'] == ys[BlockPixel(w, h, n, row, col, i', j')]
        invariant forall j' :: 0 <= j' < j ==> lmx[i][j'] == ys[BlockPixel(w, h, n, row, col, i, j')]
      {
        var py := y + i;
        var px := x + j;
        assert py * w + px == BlockPixel(w, h, n, row, col, i, j);
        lmx := lmx[i := lmx[i][j := ys[py * w + px]]];
      }
    }
  }

  /** Forward pass over every block: yCoefficients[slot] receives the gathered block and
      dctCoefficients[slot] its transform with every coefficient of zigzag rank
      >= coefficientsNumber zeroed. */
  method CalculateDctCoefficients(ys: seq<int>, w: nat, h: nat, n: nat,
                                  pairToSingle: seq<int>, coefficientsNumber: int,
                                  dct2: Matrix<int> -> Matrix<real>,
                                  yCoefficients: array<Matrix<int>>, dctCoefficients: array<Matrix<real>>)
    requires n >= 1 && w % n == 0 && h % n == 0 && |ys| == w * h
    requires yCoefficients.Length == BlockCount(w, h, n) && dctCoefficients.Length == BlockCount(w, h, n)
    modifies yCoefficients, dctCoefficients
    ensures forall row, col, i, j :: BlockEntry(w, h, n, row, col, i, j) ==>
      GatheredAt(yCoefficients[BlockSlot(w, h, n, row, col)], ys, w, h, n, row, col, i, j)
    ensures forall s :: 0 <= s < dctCoefficients.Length ==>
      dctCoefficients[s] == Truncate(n, pairToSingle, coefficientsNumber, dct2(yCoefficients[s]))
  {
    var browsCount, bcolsCount := h / n, w / n;
    for row := 0 to browsCount
      invariant forall row', col', i, j ::
        (BlockEntry(w, h, n, row', col', i, j) && BlockSlot(w, h, n, row', col') < row * bcolsCount) ==>
        GatheredAt(yCoefficients[BlockSlot(w, h, n, row', col')], ys, w, h, n, row', col', i, j)
      invariant forall s :: 0 <= s < row * bcolsCount && s < dctCoefficients.Length ==>
        dctCoefficients[s] == Truncate(n, pairToSingle, coefficientsNumber, dct2(yCoefficients[s]))
    {
      for col := 0 to bcolsCount
        invariant forall row', col', i, j ::
          (BlockEntry(w, h, n, row', col', i, j) && BlockSlot(w, h, n, row', col') < row * bcolsCount + col) ==>
          GatheredAt(yCoefficients[BlockSlot(w, h, n, row', col')], ys, w, h, n, row', col', i, j)
        invariant forall s :: 0 <= s < row * bcolsCount + col && s < dctCoefficients.Length ==>
          dctCoefficients[s] == Truncate(n, pairToSingle, coefficientsNumber, dct2(yCoefficients[s]))
      {
        var slot := BlockSlot(w, h, n, row, col);
        forall row', col' | 0 <= row' < h / n && 0 <= col' < w / n && BlockSlot(w, h, n, row', col') == slot
          ensures row' == row && col' == col
        {
          BlockSlotInjective(w, h, n, row', col', row, col);
        }
        var lmx := GatherBlock(ys, w, h, n, row, col);
        yCoefficients[row * bcolsCount + col] := lmx;
        var block := dct2(lmx);
        dctCoefficients[row * bcolsCount + col] := Truncate(n, pairToSingle, coefficientsNumber, block);
      }
      assert row * bcolsCount + bcolsCount == (row + 1) * bcolsCount;
    }
  }

  /** Entry (i, j) of the n x n matrix m is the plane sample at entry (i, j) of block (row, col). */
  predicate GatheredAt(m: Matrix<int>, ys: seq<int>, w: nat, h: nat, n: nat, row: int, col: int, i: int, j: int)
    requires |ys| == w * h && BlockEntry(w, h, n, row, col, i, j)
  {
    IsSquare(m, n) && m[i][j] == ys[BlockPixel(w, h, n, row, col, i, j)]
  }

  /** Inverse pass over every block: each pixel (row * n + i, col * n + j) of the reconstructed
      plane receives entry (i, j) of the inverse transform of that block's coefficients. */
  method RegenerateLumaComponents(dctCoefficients: seq<Matrix<real>>, idct2: Matrix<real> -> Matrix<real>,
                                  w: nat, h: nat, n: nat, reconstructed: array<real>)
    requires n >= 1 && w % n == 0 && h % n == 0
    requires |dctCoefficients| == BlockCount(w, h, n) && reconstructed.Length == w * h
    requires forall s :: 0 <= s < |dctCoefficients| ==> IsSquare(idct2(dctCoefficients[s]), n)
    modifies reconstructed
    ensures forall row, col, i, j :: BlockEntry(w, h, n, row, col, i, j) ==>
      reconstructed[BlockPixel(w, h, n, row, col, i, j)]
        == InverseEntry(dctCoefficients, idct2, w, h, n, row, col, i, j)
    ensures forall p :: 0 <= p < reconstructed.Length ==>
      reconstructed[p] == InverseAt(dctCoefficients, idct2, w, h, n, p)
  {
    var browsCount, bcolsCount := h / n, w / n;
    for row := 0 to browsCount
      invariant forall row', col', i, j ::
        (BlockEntry(w, h, n, row', col', i, j) && BlockSlot(w, h, n, row', col') < row * bcolsCount) ==>
        reconstructed[BlockPixel(w, h, n, row', col', i, j)]
          == InverseEntry(dctCoefficients, idct2, w, h, n, row', col', i, j)
    {
      for col := 0 to bcolsCount
        invariant forall row', col', i, j ::
          (BlockEntry(w, h, n, row', col', i, j) && BlockSlot(w, h, n, row', col') < row * bcolsCount + col) ==>
          reconstructed[BlockPixel(w, h, n, row', col', i, j)]
            == InverseEntry(dctCoefficients, idct2, w, h, n, row', col', i, j)
      {
        var slot := BlockSlot(w, h, n, row, col);
        forall row', col' | 0 <= row' < h / n && 0 <= col' < w / n && BlockSlot(w, h, n, row', col') == slot
          ensures row' == row && col' == col
        {
          BlockSlotInjective(w, h, n, row', col', row, col);
        }
        var block := idct2(dctCoefficients[row * bcolsCount + col]);
        ScatterBlock(reconstructed, w, h, n, row, col, block);
      }
      assert row * bcolsCount + bcolsCount == (row + 1) * bcolsCount;
    }
    forall p | 0 <= p < reconstructed.Length
      ensures reconstructed[p] == InverseAt(dctCoefficients, idct2, w, h, n, p)
    {
      var e := EntryOfPixel(w, h, n, p);
      assert reconstructed[BlockPixel(w, h, n, e.0, e.1, e.2, e.3)]
          == InverseEntry(dctCoefficients, idct2, w, h, n, e.0, e.1, e.2, e.3);
    }
  }

  /** Entry (i, j) of the inverse transform of block (row, col)'s coefficients. */
  function InverseEntry(dctCoefficients: seq<Matrix<real>>, idct2: Matrix<real> -> Matrix<real>,
                        w: nat, h: nat, n: nat, row: int, col: int, i: int, j: int): real
    requires BlockEntry(w, h, n, row, col, i, j) && |dctCoefficients| == BlockCount(w, h, n)
    requires forall s :: 0 <= s < |dctCoefficients| ==> IsSquare(idct2(dctCoefficients[s]), n)
  {
    var block := idct2(dctCoefficients[BlockSlot(w, h, n, row, col)]);
    assert IsSquare(block, n);
    block[i][j]
  }

  /** The value the inverse pass gives pixel p: the entry covering p in the inverse transform of
      the coefficients of the block that contains p. */
  function InverseAt(dctCoefficients: seq<Matrix<real>>, idct2: Matrix<real> -> Matrix<real>,
                     w: nat, h: nat, n: nat, p: int): real
    requires n >= 1 && w % n == 0 && h % n == 0 && 0 <= p < w * h
    requires |dctCoefficients| == BlockCount(w, h, n)
    requires forall s :: 0 <= s < |dctCoefficients| ==> IsSquare(idct2(dctCoefficients[s]), n)
  {
    var e := EntryOfPixel(w, h, n, p);
    InverseEntry(dctCoefficients, idct2, w, h, n, e.0, e.1, e.2, e.3)
  }

  /** Writes block (row, col) into the plane; every pixel outside the block keeps its value, in
      particular every pixel of another block. */
  method ScatterBlock(reconstructed: array<real>, w: nat, h: nat, n: nat, row: int, col: int,
                      block: Matrix<real>)
    requires reconstructed.Length == w * h && n >= 1 && 0 <= row < h / n && 0 <= col < w / n
    requires IsSquare(block, n)
    modifies reconstructed
    ensures forall i, j :: 0 <= i < n && 0 <= j < n ==>
      reconstructed[BlockPixel(w, h, n, row, col, i, j)] == block[i][j]
    ensures forall row', col', i, j :: BlockEntry(w, h, n, row', col', i, j) && (row', col') != (row, col) ==>
      reconstructed[BlockPixel(w, h, n, row', col', i, j)] == old(reconstructed[BlockPixel(w, h, n, row', col', i, j)])
    ensures forall p :: (0 <= p < reconstructed.Length &&
      (forall i, j :: 0 <= i < n && 0 <= j < n ==> p != BlockPixel(w, h, n, row, col, i, j))) ==>
      reconstructed[p] == old(reconstructed[p])
  {
    var cornerPixelX := col * n;
    var cornerPixelY := row * n;
    for i := 0 to n
      invariant forall i', j :: 0 <= i' < i && 0 <= j < n ==>
        reconstructed[BlockPixel(w, h, n, row, col, i', j)] == block[i'][j]
      invariant forall row', col', i', j :: BlockEntry(w, h, n, row', col', i', j) && (row', col') != (row, col) ==>
        reconstructed[BlockPixel(w, h, n, row', col', i', j)] == old(reconstructed[BlockPixel(w, h, n, row', col', i', j)])
      invariant forall p :: (0 <= p < reconstructed.Length &&
        (forall i', j :: 0 <= i' < n && 0 <= j < n ==> p != BlockPixel(w, h, n, row, col, i', j))) ==>
        reconstructed[p] == old(reconstructed[p])
    {
      for j := 0 to n
        invariant forall i', j' :: 0 <= i' < i && 0 <= j' < n ==>
          reconstructed[BlockPixel(w, h, n, row, col, i', j')] == block[i'][j']
        invariant forall j' :: 0 <= j' < j ==> reconstructed[BlockPixel(w, h, n, row, col, i, j')] == block[i][j']
        invariant forall row', col', i', j' :: BlockEntry(w, h, n, row', col', i', j') && (row', col') != (row, col) ==>
          reconstructed[BlockPixel(w, h, n, row', col', i', j')] == old(reconstructed[BlockPixel(w, h, n, row', col', i', j')])
        invariant forall p :: (0 <= p < reconstructed.Length &&
          (forall i', j' :: 0 <= i' < n && 0 <= j' < n ==> p != BlockPixel(w, h, n, row, col, i', j'))) ==>
          reconstructed[p] == old(reconstructed[p])
      {
        var pixelY := cornerPixelY + i;
        var pixelX := cornerPixelX + j;
        var pixelIndex := pixelY * w + pixelX;
        assert pixelIndex == BlockPixel(w, h, n, row, col, i, j);
        forall row', col', i', j' | BlockEntry(w, h, n, row', col', i', j') &&
            BlockPixel(w, h, n, row', col', i', j') == pixelIndex
          ensures row' == row && col' == col && i' == i && j' == j
        {
          BlockPixelInjective(w, h, n, row', col', i', j', row, col, i, j);
        }
        reconstructed[pixelIndex] := block[i][j];
      }
    }
  }
}
