# JPEG teaching demo: verified index and permutation logic

This project models the integer core of a small JPEG teaching demo in Dafny. The demo loads a 24-bit BMP file, converts every pixel to (Y, Cb, Cr), and samples chroma 4:2:0. It cuts the luma plane into N x N blocks and transforms each block with a 2-D DCT. Coefficients are kept by zigzag rank, and the blocks are transformed back and reassembled.

The real-valued parts (the colour matrices, the cosine basis and the DCT itself) are opaque here. They are function parameters. What is modelled and proved is everything that decides *which* value goes *where*:

- **`ZigzagScan`** (`zigzag.dfy`): the zigzag order of an N x N block, the order of section A.3.6, Figure A.6 of ITU-T T.81.
  - `Zigzag(n)` is a specification built from the anti-diagonals. `Rank` is its closed-form inverse.
  - `ZigzagOrder` is the demo's loop, proved equal to `Zigzag(n)`.
  - Lemmas cover the permutation, the diagonal runs, the direction on each diagonal, and the first and last entries.
- **`ZigzagRank`** (`ranktable.dfy`): `pairToSingle`, the table of zigzag ranks indexed by `row * N + col`. It is built by scattering the zigzag list into an array and is proved to be the inverse of the list and a permutation.
- **`Truncation`** (`truncation.dfy`): the coefficient mask. The kept positions are exactly the first `min(max(K, 0), N²)` cells of the zigzag scan, and they grow with K.
- **`BlockCodec`** (`blockcodec.dfy`): the forward pass `calculateDCTCoefficients` and the inverse pass `regenerateLumaComponents`. Both are imperative loops over arrays, with `dct2` and `idct2` as parameters. Gather and scatter use row-major addressing.
- **`Header`** (`header.dfy`): `getHeaderValue`, the little-endian fold over a byte slice, with JavaScript's 32-bit `<<` and `|` modelled exactly.
- **`Convert`** (`convert.dfy`): `rtoy` and `ytor` around opaque matrix products, and the clamp-and-round applied to every output of `ytor`.
- **`Chroma`** (`chroma.dfy`): the stage's sampling loop. It fills the luma plane and the ceil(w/2) x ceil(h/2) chroma planes.
- **`Sketch`** (`sketch.dfy`): the p5 sketch's variant. Its setup loop keeps full-resolution chroma, and its draw step snaps odd coordinates down to even ones.
- **`RowMajor`** (`rowmajor.dfy`): the shared `row * width + col` addressing.

Two details follow the code where common descriptions of JPEG pipelines differ:

- The offset `(128, 0, 0)` is added to Y, not to Cb and Cr (`src/convert.ts:27`).
- The block grid is `h / N` by `w / N` without flooring (`src/stage.ts:244-245`). The model requires the sides to be multiples of N, so the two readings coincide.

## Model

| member | source | states |
|---|---|---|
| ZigzagScan.ZigzagOrder | src/convert.ts:79-93 | the loop over diagonals S = 0 .. 2(N-1), with its two inner walks, builds exactly the specification order `Zigzag(n)`: N² cells, each in the block, the cell at position k having rank k |
| ZigzagScan.PushDiagonal | src/convert.ts:82-90 | one pass of the outer loop appends exactly diagonal S in walk order: the row walks down from min(S, N-1) on even S, the column walks down from min(S, N-1) on odd S, while both stay in the block |
| ZigzagScan.ZigzagLength | src/convert.ts:81-91 | the order has exactly N² entries, and the diagonals' lengths add up to N² |
| ZigzagScan.OffsetClosedForm | src/convert.ts:81-90 | the number of cells on the first s diagonals is s(s+1)/2 up to the middle diagonal, and N² - (2N-1-s)(2N-s)/2 after it |
| ZigzagScan.DiagLenFormula | src/convert.ts:83 | diagonal S of the block holds min(S, 2(N-1)-S) + 1 cells |
| ZigzagScan.ZigzagIsPermutation | src/convert.ts:79-93 | the order is a permutation of the N x N grid: every entry is inside the block, no entry repeats, and every (row, col) occurs |
| ZigzagScan.ZigzagAtRank | src/convert.ts:79-93 | every cell of the block is found at position `Rank(cell)` of the order, and that rank is in 0 .. N²-1 |
| ZigzagScan.RankAtZigzag | src/convert.ts:79-93 | the entry at position k is a cell of the block whose rank is k, so `Rank` inverts the order on both sides |
| ZigzagScan.RankOfScan | src/convert.ts:81-91 | after the first s diagonals, every pushed cell lies in the block, on a diagonal before s, at the position equal to its rank |
| ZigzagScan.ScanAt | src/convert.ts:81-91 | diagonal t's m-th cell sits at position Offset(t) + m of any longer scan |
| ZigzagScan.ZigzagDiagonalOrder | src/convert.ts:81 | along the order, row + col never decreases |
| ZigzagScan.RankOrdersDiagonals | src/convert.ts:81 | a cell of a later diagonal never has a smaller rank than a cell of an earlier one |
| ZigzagScan.RankInRunOf | src/convert.ts:81-90 | a cell lies on diagonal S exactly when its rank falls in diagonal S's run of positions |
| ZigzagScan.ZigzagDiagonalRun | src/convert.ts:81-90 | diagonal S occupies exactly one contiguous run of min(S, 2(N-1)-S) + 1 positions (if and only if), holding that diagonal's cells in walk order |
| ZigzagScan.ZigzagDiagonalDirection | src/convert.ts:82-90 | on even S the row of the m-th cell is min(S, N-1) - m (walking down); on odd S it is S - min(S, N-1) + m (walking up) |
| ZigzagScan.ZigzagEnds | src/convert.ts:79-93 | for N >= 1 the order starts at (0, 0) and ends at (N-1, N-1) |
| ZigzagScan.ZigzagOpening | src/convert.ts:81-90 | for N >= 2 the next entries are (0,1), (1,0), and for N >= 3 then (2,0), (1,1), (0,2), as in Figure A.6 of ITU-T T.81 |
| ZigzagRank.PairToSingle | src/stage.ts:254-261 | scattering each list position k into slot `row * N + col` of its cell yields exactly the reference rank table `RankTable(N)` |
| ZigzagRank.RankTableInverse | src/stage.ts:255-258 | `pairToSingle[r*N + c] == k` holds if and only if `singleToPair[k] == (r, c)` |
| ZigzagRank.RankTableIsPermutation | src/stage.ts:254-261 | the rank table has N² entries, all in 0 .. N²-1, pairwise distinct, and every rank occurs |
| ZigzagRank.RankTableAt | src/stage.ts:257 | the table entry at a cell's slot is the cell's closed-form zigzag rank |
| ZigzagRank.RankTableEntry | src/stage.ts:255-258 | the rank stored at slot p is in range and the zigzag list visits slot p's cell at that rank |
| ZigzagRank.CellIndex | src/stage.ts:257 | the slot `i * N + j` of a block cell is in 0 .. N²-1 and gives back i and j by division and remainder, so distinct cells get distinct slots |
| Truncation.Truncate | src/stage.ts:287-289 | the mask keeps the block's shape, and every entry is either the original coefficient or 0 |
| Truncation.Kept | src/stage.ts:288 | the survival test `pairToSingle[i*N + j] < K`, false when the slot is outside the table (JavaScript `undefined < K`); its meaning with the demo's table is stated by KeptByRank |
| Truncation.TruncateByRank | src/stage.ts:287-289 | with the demo's table, entry (i, j) stays unchanged if its zigzag rank is below K and becomes 0 otherwise |
| Truncation.KeptByRank | src/stage.ts:288 | the test `pairToSingle[i*N + j] < K` holds exactly when the zigzag rank of (i, j) is below K |
| Truncation.TruncateKeepAll | src/stage.ts:287-289 | K >= N² leaves the block unchanged |
| Truncation.TruncateKeepNone | src/stage.ts:287-289 | K <= 0 zeroes every coefficient |
| Truncation.TruncateTwice | src/stage.ts:287-289 | masking with K1 after K2 is masking with min(K1, K2) |
| Truncation.KeptMonotone | src/stage.ts:288 | the set of kept positions grows with K |
| Truncation.KeptIsZigzagPrefix | src/stage.ts:287-289 | the kept positions are exactly the first min(max(K, 0), N²) cells of the zigzag order |
| Truncation.KeptCount | src/stage.ts:287-289 | exactly min(max(K, 0), N²) positions survive |
| BlockCodec.GatherBlock | src/stage.ts:273-282 | the N x N matrix of block (row, col) holds `ys[(row*N + i) * w + col*N + j]` at entry (i, j) |
| BlockCodec.CalculateDctCoefficients | src/stage.ts:270-292 | every block entry is gathered into slot `row * bcolsCount + col` of `yCoefficients`, and every slot of `dctCoefficients` holds the truncated `dct2` of that slot's block |
| BlockCodec.RegenerateLumaComponents | src/stage.ts:298-316 | pixel (row*N + i, col*N + j) receives entry (i, j) of `idct2` of its block's coefficients, and so every pixel of the plane holds the value of the one block entry covering it |
| BlockCodec.ScatterBlock | src/stage.ts:306-313 | writing one block sets its N² pixels to the block's entries and leaves every pixel outside the block unchanged, whether it belongs to another block or lies outside the block grid |
| BlockCodec.BlockSlot | src/stage.ts:283 | the slot `row * bcolsCount + col` of an in-grid block is in 0 .. browsCount*bcolsCount - 1 |
| BlockCodec.BlockPixel | src/stage.ts:278-280 | the plane index of a block entry lies inside the w x h plane |
| BlockCodec.EntryOfPixel | src/stage.ts:306-311 | for sides that are multiples of N, every pixel of the plane is the pixel of some block entry |
| BlockCodec.BlockPixelInjective | src/stage.ts:308-311 | distinct block entries write distinct pixels, so each pixel is written once |
| BlockCodec.BlockSlotInjective | src/stage.ts:283 | distinct blocks use distinct slots |
| Header.Fold | src/stage.ts:15 | the reduce's accumulator after k steps is an int32; FoldIsLittleEndian gives its value |
| Header.JsShl | src/stage.ts:15 | `x << count` is an int32 congruent to x · 2^(count mod 32) modulo 2^32 |
| Header.JsOr | src/stage.ts:15 | JavaScript's bitwise or of x and y is an int32 whose 32 bits are the bitwise or of the two operands' 32 bits |
| Header.BitOrBound | src/stage.ts:15 | or-ing two numbers below 2^m stays below 2^m, so the or of two 32-bit operands fits in 32 bits |
| Header.GetHeaderValue | src/stage.ts:12-15 | the fold over the clipped slice is an int32; for at most 4 bytes it is ToInt32 of the little-endian value Σ b[i]·256^i, and for at most 3 bytes it is that value itself, below 256^size |
| Header.FoldIsLittleEndian | src/sketch.ts:45-48 | the same reduce, step by step: after k <= 4 steps the accumulator is ToInt32 of the little-endian value of the first k bytes, and for k <= 3 it equals that value |
| Header.FourByteField | src/stage.ts:32-38 | a 4-byte field with top byte below 0x80 decodes to its little-endian value; with top byte 0x80 or more it decodes to that value minus 2^32 |
| Header.FoldStep | src/stage.ts:15 | one step of the reduce over at most 4 bytes, or-ing `b << 8*i` into the accumulator, turns the value of the first i bytes into ToInt32 of the value of the first i + 1 bytes |
| Header.OrDisjoint | src/stage.ts:15 | or-ing a number below 2^m into a multiple of 2^m adds them, since no bits overlap |
| Header.ShlByte | src/stage.ts:15 | `b << 8*i` for a byte and i <= 3 puts b·256^i into the result's 32 bits |
| Header.LittleEndianBound | src/stage.ts:15 | k bytes make a little-endian value below 256^k |
| Header.Slice | src/stage.ts:14 | the slice has at most `size` bytes, and is exactly `data[offset .. offset+size]` when that lies in the array |
| Convert.JsRound | src/stage.ts:55 | Math.round returns the integer v with v - 0.5 <= x < v + 0.5 |
| Convert.Rtoy | src/convert.ts:31 | subtracting the offset (128, 0, 0) from rtoy's result, as ytor does first, gives back the forward matrix product |
| Convert.Ytor | src/convert.ts:32-41 | each component is the clamp of the inverse product's component: in 0 .. 255, within 1/2 of that component when it lies in 0 .. 255, and 0 or 255 below or above; ColourRoundTrip states its round trip with Rtoy |
| Convert.Clamp | src/convert.ts:33-41 | the output is in 0 .. 255, and within 1/2 of the input whenever the input lies in 0 .. 255 |
| Convert.ClampSaturates | src/convert.ts:34-39 | inputs below 0 give 0 and inputs above 255 give 255 |
| Convert.ClampFixesBytes | src/convert.ts:40 | an integer in 0 .. 255 comes back unchanged |
| Convert.ClampMonotone | src/convert.ts:33-41 | x <= y implies Clamp(x) <= Clamp(y) |
| Convert.ColourRoundTrip | src/convert.ts:31-41 | when the inverse product undoes the forward one up to a drift below 1/2 in each component, `ytor(rtoy(rgb)) == rgb` for every integer colour in 0 .. 255; an exact inverse is the case without drift |
| Convert.ClampAbsorbsDrift | src/convert.ts:33-41 | every input within 1/2 of a byte value c (c - 1/2 <= x < c + 1/2) is clamped and rounded to c |
| Chroma.SampleImage | src/stage.ts:39-67 | luma entry k is the rounded Y of pixel k, read as bytes B, G, R; each chroma cell holds the rounded (Cb, Cr) of its top-left pixel if the loop reaches it, and 0 otherwise |
| Chroma.SampleChroma | src/stage.ts:57-66 | one loop step writes pixel k's chroma into its cell when x and y are both even, and no other cell changes |
| Chroma.PixelYcc | src/stage.ts:48-53 | pixel k's (Y, Cb, Cr) is rtoy of (r, g, b) read from bytes pxOffset + 3k + 2, + 1 and + 0: subtracting the offset gives the product of that column |
| Chroma.ChromaIndex | src/stage.ts:57-63 | for a pixel (x, y) of the plane, the index `floor(y/2) * cw + floor(x/2)` gives back floor(y/2) and floor(x/2) by division and remainder by cw |
| Chroma.ChromaSide | src/stage.ts:34-35 | ceil(extent / 2) is the side s with 2s - 1 <= extent <= 2s |
| Chroma.WholeSize | src/stage.ts:39-40 | imageSize minus its remainder modulo 3 is a multiple of 3 and at most imageSize |
| Chroma.ChromaIndexInRange | src/stage.ts:57-63 | for a pixel of the w x h plane, `floor(y/2) * cw + floor(x/2)` is below cw * ch |
| Chroma.ChromaIndexSquares | src/stage.ts:59-63 | two pixels share a chroma index exactly when they lie in the same 2 x 2 square |
| Chroma.PixelCoordinates | src/stage.ts:54-58 | the loop's pixel k is (x, y) = (k % w, floor(k / w)), inside the plane, with k = y*w + x |
| Chroma.TopLeftOfCell | src/stage.ts:62-63 | pixel p is the top-left pixel of chroma cell s exactly when p's coordinates are both even and s is p's chroma index, so each cell is written by one pixel only |
| Sketch.Setup | src/sketch.ts:56-71 | entry k of the three planes is the unrounded (Y, Cb, Cr) of pixel k = i/3, read as bytes B, G, R |
| Sketch.Snap | src/sketch.ts:100-101 | the snapped coordinate is even and is x or x - 1 |
| Sketch.SnapIndex | src/sketch.ts:100-102 | for a pixel (x, y) of the plane, the index `cy * w + cx` gives back the snapped row and column by division and remainder by w |
| Sketch.SnapIndexInRange | src/sketch.ts:102 | for a pixel of the w x h plane, `cy * w + cx` is below w * h |
| Sketch.SnapSquare | src/sketch.ts:100-102 | the four pixels of a 2 x 2 square with even corner (x0, y0) all read index y0 * w + x0 |
| Sketch.SnapMatchesStage | src/sketch.ts:100-102 | the sketch's snapped index is the top-left pixel of the stage's chroma cell for the same pixel, so both show the same pixel's chroma |
| RowMajor.FlatInRange | src/stage.ts:280 | a cell of a width x height grid has a row-major index inside the grid's storage |
| RowMajor.FlatInjective | src/stage.ts:310 | two cells with columns inside the width share a row-major index only if they are the same cell |
| RowMajor.FlatParts | src/stage.ts:280 | division and remainder by the width give back the row and the column of `row * width + col` |
| RowMajor.FlatDecompose | src/stage.ts:57-58 | every index k is the row-major index of (floor(k / w), k % w) |

## Left out

- The colour matrices, the cosine basis, `dct`, `dct2` and `idct2` are floating-point numerics. They are opaque functions passed as parameters, and nothing is claimed about their values or their round trips.
- The YQ quantisation table is not modelled. It is unused, because its call is commented out.
- Rendering, zooming, mouse and input handlers, and the debug properties exposed on `window` are not modelled. They have no statable result.
- The input listener that re-runs the passes for a new coefficient count is not modelled. The model takes that count as an integer, so the NaN that `parseInt` can return is not covered.
- Fetching and loading the BMP file is left out. Only the byte fold of header fields is modelled, not the meaning of the header offsets.
- Header.GetHeaderValue: for slices longer than 4 bytes the shift count wraps modulo 32. The result is then only stated to be an int32, not characterised further. Offsets and sizes are taken as non-negative integers.
- BlockCodec.CalculateDctCoefficients and BlockCodec.RegenerateLumaComponents: the plane's sides must be multiples of N, and `ys` must hold exactly w·h samples. Other sizes make the source's fractional block counts read past row ends and grow arrays; that behaviour is not modelled.
- BlockCodec.RegenerateLumaComponents: it takes the coefficient blocks as a sequence of values, not as the array the forward pass filled. The initial copy `ys.slice()` of the plane is the caller's job.
- Chroma.SampleImage and Sketch.Setup: the arrays indexed by pixel are allocated at the length the loop leaves them with, wholeSize / 3. These are the stage's luma array and all three of the sketch's arrays. The source creates the stage's luma array at `(wholeSize - pxOffset) / bpp` (`src/stage.ts:41-43`) and the sketch's arrays at `(wholeSize - pxOffset) / 3` (`src/sketch.ts:58-61`), and writes past the end grow them. The stage's chroma arrays are created at cw·ch (`src/stage.ts:42-45`), as in the model.
  - The initial length must be a whole number, or the source cannot create the array; hence `pxOffset % 3 == 0`.
  - The initial length must also be non-negative, so `pxOffset <= wholeSize` is required, and imageSize and pxOffset are taken as non-negative integers. When the pixel data offset exceeds wholeSize (an image with fewer bytes of pixels than its header offset, such as a 4 x 4 24-bit BMP with imageSize 48 and offset 54), or when the 4-byte imageSize decodes negative, `new Array(len)` throws a RangeError (`src/stage.ts:43`, `src/sketch.ts:59`). That error path is not modelled.
  - The pixel bytes must lie inside the file.
  - The stage also needs 3 bytes per pixel and no more pixels than w·h, which keeps its chroma writes inside ceil(w/2)·ceil(h/2) cells.
- Chroma.SampleImage: takes w and h as non-negative integers. A 4-byte header field can decode to a negative number (see Header.FourByteField). A negative height, as in a top-down BMP, makes cw·ch negative, and `new Array(slen)` then throws (`src/stage.ts:44`). That error path is not modelled.
- ZigzagRank.PairToSingle: the source starts from an array of `undefined` entries. All of them are overwritten, so the model starts from zeros.
- Sketch: the draw loops only compute indices and colours for drawing. The index computation is modelled; the drawing is not.
