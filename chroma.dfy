/** Sampling of the decoded BMP pixels into a full-resolution luma plane and two 4:2:0 chroma
    planes. Pixel k's bytes sit at pxOffset + 3k in B, G, R order; the luma of every pixel is kept,
    and the chroma of a pixel is kept only when both its coordinates are even, in a plane of
    ceil(w / 2) x ceil(h / 2) cells. */
module Chroma {
  import opened RowMajor
  import opened Header
  import opened Convert

  /** Math.ceil(extent / 2) for a whole extent. */
  function ChromaSide(extent: nat): (side: nat)
    ensures 2 * side - 1 <= extent <= 2 * side
  {
    (extent + 1) / 2
  }

  /** Index of the chroma cell of pixel (x, y): floor(y / 2) * cw + floor(x / 2). For a pixel of
      a plane w wide, division and remainder by cw give back floor(y / 2) and floor(x / 2). */
  function ChromaIndex(w: nat, x: int, y: int): (ci: int)
    ensures 0 <= x < w && 0 <= y ==>
      0 <= ci && ci / ChromaSide(w) == y / 2 && ci % ChromaSide(w) == x / 2
  {
    if 0 <= x < w && 0 <= y then
      FlatParts(ChromaSide(w), y / 2, x / 2);
      Flat(ChromaSide(w), y / 2, x / 2)
    else
      Flat(ChromaSide(w), y / 2, x / 2)
  }

  /** Plane index of the top-left pixel of chroma cell s, the pixel whose chroma the cell holds. */
  function TopLeft(w: nat, s: int): int
    requires w >= 1
  {
    Flat(w, 2 * (s / ChromaSide(w)), 2 * (s % ChromaSide(w)))
  }

  /** Bytes of the pixel data section cover pixel k. */
  predicate HasPixel(data: seq<byte>, pxOffset: nat, k: int) {
    0 <= k && pxOffset + 3 * k + 2 < |data|
  }

  /** (Y, Cb, Cr) of pixel k: rtoy of the column (r, g, b) read from the bytes b, g, r at
      pxOffset + 3k. */
  function PixelYcc(data: seq<byte>, pxOffset: nat, mul: Triple -> Triple, k: int): (ycc: Triple)
    requires HasPixel(data, pxOffset, k)
    ensures var j := pxOffset + 3 * k;
      Sub(ycc, Offset) == mul(((data[j + 2] as int) as real, (data[j + 1] as int) as real, (data[j] as int) as real))
  {
    var j := pxOffset + 3 * k;
    Rtoy(mul, ((data[j + 2] as int) as real, (data[j + 1] as int) as real, (data[j] as int) as real))
  }

  /** What chroma cell with top-left pixel p holds once the first `done` pixels are sampled:
      the rounded (Cb, Cr) of p if p was visited, the initial zeros otherwise. */
  function Sampled(data: seq<byte>, pxOffset: nat, mul: Triple -> Triple, done: nat, p: int): (int, int)
    requires pxOffset + 3 * done <= |data|
  {
    if 0 <= p < done then
      var ycc := PixelYcc(data, pxOffset, mul, p);
      (JsRound(ycc.1), JsRound(ycc.2))
    else (0, 0)
  }

  /** imageSize with its remainder modulo 3 dropped. */
  function WholeSize(imageSize: nat): (whole: nat)
    ensures whole % 3 == 0 && whole <= imageSize
  {
    imageSize - imageSize % 3
  }

  /** The chroma index of a pixel of the w x h plane lies inside the ceil(w/2) x ceil(h/2) plane. */
  lemma ChromaIndexInRange(w: nat, h: nat, x: int, y: int)
    requires 0 <= x < w && 0 <= y < h
    ensures 0 <= ChromaIndex(w, x, y) < ChromaSide(w) * ChromaSide(h)
  {
    FlatInRange(ChromaSide(w), ChromaSide(h), y / 2, x / 2);
  }

  /** The four pixels of a 2 x 2 square with even top-left corner share one chroma cell, and
      pixels of different squares use different cells. */
  lemma ChromaIndexSquares(w: nat, x1: int, y1: int, x2: int, y2: int)
    requires 0 <= x1 < w && 0 <= y1 && 0 <= x2 < w && 0 <= y2
    ensures ChromaIndex(w, x1, y1) == ChromaIndex(w, x2, y2) <==> (x1 / 2 == x2 / 2 && y1 / 2 == y2 / 2)
  {
    if ChromaIndex(w, x1, y1) == ChromaIndex(w, x2, y2) {
      FlatInjective(ChromaSide(w), y1 / 2, x1 / 2, y2 / 2, x2 / 2);
    }
  }

  /** Pixel k of the loop is (k % w, floor(k / w)), inside the plane when k < w * h. */
  lemma PixelCoordinates(w: nat, h: nat, k: int)
    requires w >= 1 && 0 <= k < w * h
    ensures 0 <= k % w < w && 0 <= k / w < h
    ensures Flat(w, k / w, k % w) == k
  {
    FlatDecompose(w, k);
    RowOfIndexInRange(w, h, k);
  }

  /** Cell s and the pixel p determine each other: p is the top-left pixel of s exactly when p has
      even coordinates and s is p's chroma index. */
  lemma TopLeftOfCell(w: nat, s: int, p: int)
    requires w >= 1 && 0 <= s && 0 <= p
    ensures TopLeft(w, s) == p <==> (p % w % 2 == 0 && p / w % 2 == 0 && ChromaIndex(w, p % w, p / w) == s)
  {
    var cw := ChromaSide(w);
    FlatDecompose(cw, s);
    FlatDecompose(w, p);
    var cy, cx := s / cw, s % cw;
    assert 2 * cx < w;
    if TopLeft(w, s) == p {
      FlatInjective(w, 2 * cy, 2 * cx, p / w, p % w);
    }
    if p % w % 2 == 0 && p / w % 2 == 0 && ChromaIndex(w, p % w, p / w) == s {
      FlatInjective(cw, (p / w) / 2, (p % w) / 2, cy, cx);
    }
  }

  /** The sampling loop of the stage. Bytes per pixel must be 3 (the loop's k = i / 3 assumes
      it), the pixel data must lie inside `data`, and the luma array's initial length
      (wholeSize - pxOffset) / 3 must be a non-negative whole number for the array to be
      created; the model allocates the arrays at the length the loop leaves them with. */
  method SampleImage(data: seq<byte>, w: nat, h: nat, bpp: int, imageSize: nat, pxOffset: nat,
                     mul: Triple -> Triple)
    returns (ys: array<int>, cbs: array<int>, crs: array<int>)
    requires bpp == 3 && w >= 1
    requires pxOffset % 3 == 0 && pxOffset <= WholeSize(imageSize)
    requires pxOffset + WholeSize(imageSize) <= |data|
    requires WholeSize(imageSize) / 3 <= w * h
    ensures ys.Length == WholeSize(imageSize) / 3
    ensures cbs.Length == ChromaSide(w) * ChromaSide(h) && crs.Length == cbs.Length
    ensures forall k :: 0 <= k < ys.Length ==> ys[k] == JsRound(PixelYcc(data, pxOffset, mul, k).0)
    ensures forall s :: 0 <= s < cbs.Length ==>
      (cbs[s], crs[s]) == Sampled(data, pxOffset, mul, ys.Length, TopLeft(w, s))
  {
    var wholeSize := WholeSize(imageSize);
    var count := wholeSize / 3;
    assert wholeSize == 3 * count;
    var cw, ch := ChromaSide(w), ChromaSide(h);
    ys := new int[count](_ => 0);
    cbs := new int[cw * ch](_ => 0);
    crs := new int[cw * ch](_ => 0);
    var i, k := 0, 0;
    while i < wholeSize
      invariant 0 <= i <= wholeSize && i == 3 * k
      invariant LumaDone(ys[..], data, pxOffset, mul, k)
      invariant ChromaDone(cbs[..], crs[..], data, w, pxOffset, mul, k)
    {
      var j := i + pxOffset;
      var ycc := Rtoy(mul, ((data[j + 2] as int) as real, (data[j + 1] as int) as real, (data[j] as int) as real));
      assert i / 3 == k && k < count;
      assert ycc == PixelYcc(data, pxOffset, mul, k);
      ys[i / 3] := JsRound(ycc.0);
      SampleChroma(data, w, h, pxOffset, mul, k, ycc, cbs, crs);
      assert ChromaDone(cbs[..], crs[..], data, w, pxOffset, mul, k + 1);
      i, k := i + 3, k + 1;
    }
  }

  /** The first k luma entries hold the rounded Y of their pixels. */
  predicate LumaDone(ys: seq<int>, data: seq<byte>, pxOffset: nat, mul: Triple -> Triple, k: nat)
    requires k <= |ys| && pxOffset + 3 * k <= |data|
  {
    forall k' :: 0 <= k' < k ==> ys[k'] == JsRound(PixelYcc(data, pxOffset, mul, k').0)
  }

  /** Every chroma cell holds what it holds once the first k pixels are sampled. */
  predicate ChromaDone(cbs: seq<int>, crs: seq<int>, data: seq<byte>, w: nat, pxOffset: nat,
                       mul: Triple -> Triple, k: nat)
    requires w >= 1 && |crs| == |cbs| && pxOffset + 3 * k <= |data|
  {
    forall s :: 0 <= s < |cbs| ==> (cbs[s], crs[s]) == Sampled(data, pxOffset, mul, k, TopLeft(w, s))
  }

  /** One step of the sampling loop on the chroma planes: pixel k writes its rounded (Cb, Cr)
      into its chroma cell when both its coordinates are even. */
  method SampleChroma(data: seq<byte>, w: nat, h: nat, pxOffset: nat, mul: Triple -> Triple, k: nat,
                      ycc: Triple, cbs: array<int>, crs: array<int>)
    requires w >= 1 && k < w * h && pxOffset + 3 * (k + 1) <= |data|
    requires ycc == PixelYcc(data, pxOffset, mul, k)
    requires cbs != crs && cbs.Length == ChromaSide(w) * ChromaSide(h) && crs.Length == cbs.Length
    requires forall s :: 0 <= s < cbs.Length ==>
      (cbs[s], crs[s]) == Sampled(data, pxOffset, mul, k, TopLeft(w, s))
    modifies cbs, crs
    ensures forall s :: 0 <= s < cbs.Length ==>
      (cbs[s], crs[s]) == Sampled(data, pxOffset, mul, k + 1, TopLeft(w, s))
  {
    PixelCoordinates(w, h, k);
    var x := k % w;
    var y := k / w;
    if x % 2 == 0 && y % 2 == 0 {
      var ci := (y / 2) * ChromaSide(w) + x / 2;
      ChromaIndexInRange(w, h, x, y);
      cbs[ci] := JsRound(ycc.1);
      crs[ci] := JsRound(ycc.2);
    }
    forall s | 0 <= s < cbs.Length
      ensures TopLeft(w, s) == k <==> (x % 2 == 0 && y % 2 == 0 && s == ChromaIndex(w, x, y))
    {
      TopLeftOfCell(w, s, k);
    }
  }
}
