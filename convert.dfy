/** Colour conversion: `rtoy` maps an (r, g, b) column to (Y, Cb, Cr) by a 3 x 3 matrix product
    plus the offset (128, 0, 0); `ytor` subtracts the offset, multiplies by the inverse matrix and
    clamps every component to a displayable 0 .. 255. The matrix products are floating-point
    numerics and stay opaque: they are passed in as functions on triples. */
module Convert {

  type Triple = (real, real, real)

  /** The offset added after the forward product. */
  const Offset: Triple := (128.0, 0.0, 0.0)

  const Min: int := 0
  const Max: int := 255

  function Add(a: Triple, b: Triple): Triple {
    (a.0 + b.0, a.1 + b.1, a.2 + b.2)
  }

  function Sub(a: Triple, b: Triple): Triple {
    (a.0 - b.0, a.1 - b.1, a.2 - b.2)
  }

  /** JavaScript Math.round: the nearest integer, halves rounded up. */
  function JsRound(x: real): (v: int)
    ensures v as real - 0.5 <= x < v as real + 0.5
  {
    (x + 0.5).Floor
  }

  /** The per-component lambda of ytor: 0 below Min, 255 above Max, otherwise rounded. On
      0 .. 255 the library's round (halves away from zero) and Math.round agree. */
  function Clamp(x: real): (v: int)
    ensures Min <= v <= Max
    ensures Min as real <= x <= Max as real ==> v as real - 0.5 <= x < v as real + 0.5
  {
    if x < Min as real then Min
    else if x > Max as real then Max
    else JsRound(x)
  }

  /** rtoy with the matrix product `mul` left abstract: subtracting the offset, as ytor does
      first, gives back the forward product. */
  function Rtoy(mul: Triple -> Triple, rgb: Triple): (ycc: Triple)
    ensures Sub(ycc, Offset) == mul(rgb)
  {
    Add(mul(rgb), Offset)
  }

  /** ytor with the inverse matrix product `invMul` left abstract: every component is a
      displayable 0 .. 255, within 1/2 of the inverse product's component when that lies in
      0 .. 255, and 0 or 255 when it lies below or above. */
  function Ytor(invMul: Triple -> Triple, ycc: Triple): (rgb: (int, int, int))
    ensures Min <= rgb.0 <= Max && Min <= rgb.1 <= Max && Min <= rgb.2 <= Max
    ensures var t := invMul(Sub(ycc, Offset));
      (Min as real <= t.0 <= Max as real ==> rgb.0 as real - 0.5 <= t.0 < rgb.0 as real + 0.5) &&
      (Min as real <= t.1 <= Max as real ==> rgb.1 as real - 0.5 <= t.1 < rgb.1 as real + 0.5) &&
      (Min as real <= t.2 <= Max as real ==> rgb.2 as real - 0.5 <= t.2 < rgb.2 as real + 0.5)
    ensures var t := invMul(Sub(ycc, Offset));
      (t.0 < Min as real ==> rgb.0 == Min) && (t.0 > Max as real ==> rgb.0 == Max) &&
      (t.1 < Min as real ==> rgb.1 == Min) && (t.1 > Max as real ==> rgb.1 == Max) &&
      (t.2 < Min as real ==> rgb.2 == Min) && (t.2 > Max as real ==> rgb.2 == Max)
  {
    var t := invMul(Sub(ycc, Offset));
    (Clamp(t.0), Clamp(t.1), Clamp(t.2))
  }

  /** The clamp saturates: inputs below 0 give 0 and inputs above 255 give 255. */
  lemma ClampSaturates(x: real)
    ensures x < 0.0 ==> Clamp(x) == 0
    ensures x > 255.0 ==> Clamp(x) == 255
  {
  }

  /** An integer in 0 .. 255 comes back unchanged. */
  lemma ClampFixesBytes(k: int)
    requires 0 <= k <= 255
    ensures Clamp(k as real) == k
  {
  }

  /** The clamp never reverses the order of two values. */
  lemma ClampMonotone(x: real, y: real)
    requires x <= y
    ensures Clamp(x) <= Clamp(y)
  {
    if Min as real <= x <= Max as real && Min as real <= y <= Max as real {
      assert (x + 0.5).Floor <= (y + 0.5).Floor;
    }
  }

  /** The clamp maps every input within 1/2 of a byte value c (from below inclusive) to c: the
      rounding absorbs any drift smaller than 1/2, and near 0 and 255 the saturation does. */
  lemma ClampAbsorbsDrift(c: int, x: real)
    requires 0 <= c <= 255 && c as real - 0.5 <= x < c as real + 0.5
    ensures Clamp(x) == c
  {
  }

  /** When `invMul` undoes `mul` up to a drift below 1/2 in every component, ytor recovers every
      displayable colour that rtoy converted: the offset cancels, and the clamp's rounding and
      saturation remove the drift. An exact inverse is the special case without drift. */
  lemma ColourRoundTrip(mul: Triple -> Triple, invMul: Triple -> Triple, r: int, g: int, b: int)
    requires 0 <= r <= 255 && 0 <= g <= 255 && 0 <= b <= 255
    requires r as real - 0.5 <= invMul(mul((r as real, g as real, b as real))).0 < r as real + 0.5
    requires g as real - 0.5 <= invMul(mul((r as real, g as real, b as real))).1 < g as real + 0.5
    requires b as real - 0.5 <= invMul(mul((r as real, g as real, b as real))).2 < b as real + 0.5
    ensures Ytor(invMul, Rtoy(mul, (r as real, g as real, b as real))) == (r, g, b)
  {
    var rgb := (r as real, g as real, b as real);
    assert Sub(Rtoy(mul, rgb), Offset) == mul(rgb);
    var t := invMul(mul(rgb));
    ClampAbsorbsDrift(r, t.0);
    ClampAbsorbsDrift(g, t.1);
    ClampAbsorbsDrift(b, t.2);
  }
}
