/** The p5 sketch's variant of the pipeline: `setup` converts every pixel without rounding into
    three full-resolution planes, and `draw` reads the chroma of pixel (x, y) from the pixel with
    both coordinates snapped down to even, so every 2 x 2 square shows its top-left chroma. */
module Sketch {
  import opened RowMajor
  import opened Header
  import opened Convert
  import opened Chroma

  /** The setup loop: pixel k = i / 3 gets the unrounded (Y, Cb, Cr) of its bytes. The initial
      length (wholeSize - pxOffset) / 3 must be a non-negative whole number for the arrays to be
      created; the model allocates them at the length the loop leaves them with. */
  method Setup(data: seq<byte>, imageSize: nat, pxOffset: nat, mul: Triple -> Triple)
    returns (ys: array<real>, cbs: array<real>, crs: array<real>)
    requires pxOffset % 3 == 0 && pxOffset <= WholeSize(imageSize)
    requires pxOffset + WholeSize(imageSize) <= |data|
    ensures ys.Length == WholeSize(imageSize) / 3 && cbs.Length == ys.Length && crs.Length == ys.Length
    ensures forall k :: 0 <= k < ys.Length ==> (ys[k], cbs[k], crs[k]) == PixelYcc(data, pxOffset, mul, k)
  {
    var wholeSize := WholeSize(imageSize);
    var count := wholeSize / 3;
    assert wholeSize == 3 * count;
    ys := new real[count](_ => 0.0);
    cbs := new real[count](_ => 0.0);
    crs := new real[count](_ => 0.0);
    var i, k := 0, 0;
    while i < wholeSize
      invariant 0 <= i <= wholeSize && i == 3 * k
      invariant SetupDone(ys[..], cbs[..], crs[..], data, pxOffset, mul, k)
    {
      var j := i + pxOffset;
      var ycc := Rtoy(mul, ((data[j + 2] as int) as real, (data[j + 1] as int) as real, (data[j] as int) as real));
      assert i / 3 == k && k < count;
      assert ycc == PixelYcc(data, pxOffset, mul, k);
      ghost var ys0, cbs0, crs0 := ys[..], cbs[..], crs[..];
      ys[i / 3] := ycc.0;
      cbs[i / 3] := ycc.1;
      crs[i / 3] := ycc.2;
      assert ys[..] == ys0[k := ycc.0];
      assert cbs[..] == cbs0[k := ycc.1];
      assert crs[..] == crs0[k := ycc.2];
      SetupStep(ys0, cbs0, crs0, data, pxOffset, mul, k);
      i, k := i + 3, k + 1;
    }
  }

  /** The first k entries of the three planes hold their pixels' (Y, Cb, Cr). */
  predicate SetupDone(ys: seq<real>, cbs: seq<real>, crs: seq<real>, data: seq<byte>, pxOffset: nat,
                      mul: Triple -> Triple, k: nat)
    requires k <= |ys| && |cbs| == |ys| && |crs| == |ys| && pxOffset + 3 * k <= |data|
  {
    forall k' :: 0 <= k' < k ==> (ys[k'], cbs[k'], crs[k']) == PixelYcc(data, pxOffset, mul, k')
  }

  /** One step of the setup loop: writing pixel k's (Y, Cb, Cr) at index k extends the filled
      prefix by one. */
  lemma SetupStep(ys: seq<real>, cbs: seq<real>, crs: seq<real>, data: seq<byte>, pxOffset: nat,
                  mul: Triple -> Triple, k: nat)
    requires k < |ys| && |cbs| == |ys| && |crs| == |ys| && pxOffset + 3 * (k + 1) <= |data|
    requires SetupDone(ys, cbs, crs, data, pxOffset, mul, k)
    ensures var ycc := PixelYcc(data, pxOffset, mul, k);
      SetupDone(ys[k := ycc.0], cbs[k := ycc.1], crs[k := ycc.2], data, pxOffset, mul, k + 1)
  {
  }

  /** `v` if it is even, `v - 1` otherwise: the even coordinate at or just below v. */
  function Snap(v: nat): (c: int)
    ensures 0 <= c && c % 2 == 0 && c <= v <= c + 1
  {
    if v % 2 == 0 then v else v - 1
  }

  /** The chroma read index of pixel (x, y) in draw: cy * w + cx with both coordinates snapped.
      For a pixel of a plane w wide, division and remainder by w give back the snapped row and
      column. */
  function SnapIndex(w: nat, x: nat, y: nat): (ci: int)
    ensures x < w ==> 0 <= ci && ci / w == Snap(y) && ci % w == Snap(x)
  {
    if x < w then
      FlatParts(w, Snap(y), Snap(x));
      Flat(w, Snap(y), Snap(x))
    else
      Flat(w, Snap(y), Snap(x))
  }

  /** The snapped index of a pixel of the w x h plane stays inside the plane. */
  lemma SnapIndexInRange(w: nat, h: nat, x: nat, y: nat)
    requires x < w && y < h
    ensures 0 <= SnapIndex(w, x, y) < w * h
  {
    FlatInRange(w, h, Snap(y), Snap(x));
  }

  /** All four pixels of a 2 x 2 square with even top-left corner (x0, y0) read index y0 * w + x0. */
  lemma SnapSquare(w: nat, x0: nat, y0: nat, dx: nat, dy: nat)
    requires x0 % 2 == 0 && y0 % 2 == 0 && dx <= 1 && dy <= 1
    ensures SnapIndex(w, x0 + dx, y0 + dy) == y0 * w + x0
  {
  }

  /** The sketch and the stage sample the same pixel for a pixel's chroma: the snapped index is
      the top-left pixel of the stage's chroma cell of (x, y). */
  lemma SnapMatchesStage(w: nat, x: nat, y: nat)
    requires x < w
    ensures SnapIndex(w, x, y) == TopLeft(w, ChromaIndex(w, x, y))
  {
    var cw := ChromaSide(w);
    var s := ChromaIndex(w, x, y);
    assert Snap(x) == 2 * (x / 2) && Snap(y) == 2 * (y / 2);
    assert x / 2 < cw;
    FlatDecompose(cw, s);
    FlatInjective(cw, s / cw, s % cw, y / 2, x / 2);
  }
}
