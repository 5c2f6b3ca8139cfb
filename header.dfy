/** Little-endian header fields of the BMP file: `getHeaderValue` slices `size` bytes at `offset`
    and folds them with `(b << 8 * i) | value`, starting from 0. JavaScript evaluates `<<` and `|`
    on 32-bit two's-complement integers, which is modelled exactly here: operands go through
    ToUint32, the shift count is taken modulo 32, and results come back through ToInt32. */
module Header {
  import opened RowMajor

  newtype byte = x: int | 0 <= x < 256

  const TwoTo32: int := 0x1_0000_0000
  const TwoTo31: int := 0x8000_0000

  function Pow2(k: nat): (p: nat)
    ensures p >= 1
  {
    if k == 0 then 1 else 2 * Pow2(k - 1)
  }

  /** ECMAScript ToUint32 on an integer value. */
  function ToUint32(v: int): (u: int)
    ensures 0 <= u < TwoTo32
  {
    v % TwoTo32
  }

  /** ECMAScript ToInt32 on an integer value. */
  function ToInt32(v: int): (s: int)
    ensures -TwoTo31 <= s < TwoTo31
    ensures (s - v) % TwoTo32 == 0
  {
    var u := ToUint32(v);
    if u >= TwoTo31 then u - TwoTo32 else u
  }

  /** Bitwise or of two non-negative integers, bit by bit from the least significant end. */
  function BitOr(a: nat, b: nat): nat
    decreases a + b
  {
    if a == 0 then b
    else if b == 0 then a
    else 2 * BitOr(a / 2, b / 2) + (if a % 2 == 1 || b % 2 == 1 then 1 else 0)
  }

  /** JavaScript `x << count`: an int32 congruent to x * 2^(count mod 32) modulo 2^32. */
  function JsShl(x: int, count: int): (v: int)
    ensures -TwoTo31 <= v < TwoTo31
    ensures (v - x * Pow2(ToUint32(count) % 32)) % TwoTo32 == 0
  {
    var p := Pow2(ToUint32(count) % 32);
    ShlCongruent(x, p);
    ToInt32(ToUint32(x) * p)
  }

  /** JavaScript `x | y`: an int32 whose 32 bits are the bitwise or of the operands' 32 bits. */
  function JsOr(x: int, y: int): (v: int)
    ensures -TwoTo31 <= v < TwoTo31
    ensures ToUint32(v) == BitOr(ToUint32(x), ToUint32(y))
  {
    var bits := BitOr(ToUint32(x), ToUint32(y));
    Pow2Table();
    BitOrBound(ToUint32(x), ToUint32(y), 32);
    Uint32OfInt32(bits);
    ToInt32(bits)
  }

  /** Or-ing two numbers below 2^m gives a number below 2^m. */
  lemma {:induction false} BitOrBound(a: nat, b: nat, m: nat)
    requires a < Pow2(m) && b < Pow2(m)
    ensures BitOr(a, b) < Pow2(m)
    decreases m
  {
    if a != 0 && b != 0 {
      BitOrBound(a / 2, b / 2, m - 1);
    }
  }

  /** ToInt32 of ToUint32(x) * p agrees with x * p modulo 2^32. */
  lemma ShlCongruent(x: int, p: nat)
    ensures (ToInt32(ToUint32(x) * p) - x * p) % TwoTo32 == 0
  {
    var u := ToUint32(x);
    var q1 := x / TwoTo32;
    assert u == x - q1 * TwoTo32;
    var v := ToInt32(u * p);
    var q2 := (v - u * p) / TwoTo32;
    assert v - u * p == q2 * TwoTo32;
    assert v - x * p == (q2 - q1 * p) * TwoTo32 by {
      assert u * p == x * p - (q1 * p) * TwoTo32;
    }
    MultipleMod(q2 - q1 * p);
  }

  lemma MultipleMod(q: int)
    ensures (q * TwoTo32) % TwoTo32 == 0
  {
  }

  /** Uint8Array.prototype.slice(offset, offset + size) for non-negative arguments:
      both ends are clipped to the array's length. */
  function Slice(data: seq<byte>, offset: nat, size: nat): (s: seq<byte>)
    ensures |s| <= size
    ensures offset + size <= |data| ==> s == data[offset..offset + size]
  {
    var start := if offset < |data| then offset else |data|;
    var end := if offset + size < |data| then offset + size else |data|;
    data[start..end]
  }

  /** The reduce's accumulator after its first k steps over `bytes`. */
  function Fold(bytes: seq<byte>, k: nat): (v: int)
    requires k <= |bytes|
    ensures -TwoTo31 <= v < TwoTo31
  {
    if k == 0 then 0 else JsOr(JsShl(bytes[k - 1] as int, 8 * (k - 1)), Fold(bytes, k - 1))
  }

  /** getHeaderValue(data, offset, size): the fold over the whole slice. */
  function GetHeaderValue(data: seq<byte>, offset: nat, size: nat): (r: int)
    ensures -TwoTo31 <= r < TwoTo31
    ensures |Slice(data, offset, size)| <= 4 ==> r == ToInt32(LittleEndian(Slice(data, offset, size)))
    ensures |Slice(data, offset, size)| <= 3 ==>
      r == LittleEndian(Slice(data, offset, size)) && r < Pow2(8 * |Slice(data, offset, size)|)
  {
    var s := Slice(data, offset, size);
    FoldIsLittleEndian(s, |s|);
    Fold(s, |s|)
  }

  /** Reference value of a byte string: the sum of bytes[i] * 256^i. */
  function LittleEndian(bytes: seq<byte>): nat {
    LittleEndianPrefix(bytes, |bytes|)
  }

  function LittleEndianPrefix(bytes: seq<byte>, k: nat): nat
    requires k <= |bytes|
  {
    if k == 0 then 0 else LittleEndianPrefix(bytes, k - 1) + bytes[k - 1] as int * Pow2(8 * (k - 1))
  }

  /** The first k bytes make a number below 256^k. */
  lemma {:induction false} LittleEndianBound(bytes: seq<byte>, k: nat)
    requires k <= |bytes|
    ensures LittleEndianPrefix(bytes, k) < Pow2(8 * k)
  {
    if k > 0 {
      LittleEndianBound(bytes, k - 1);
      var p := Pow2(8 * (k - 1));
      Pow2Add(8 * (k - 1), 8);
      Pow2Table();
      MulMonotone(bytes[k - 1] as int, 255, p);
      assert Pow2(8 * k) == 256 * p;
    }
  }

  /** The powers of two that byte shifts reach. */
  lemma Pow2Table()
    ensures Pow2(8) == 256 && Pow2(16) == 0x1_0000 && Pow2(24) == 0x100_0000 && Pow2(32) == TwoTo32
  {
    assert Pow2(8) == 256;
    Pow2Add(8, 8);
    Pow2Add(16, 8);
    Pow2Add(24, 8);
  }

  lemma {:induction false} Pow2Add(a: nat, b: nat)
    ensures Pow2(a + b) == Pow2(a) * Pow2(b)
  {
    if b > 0 {
      Pow2Add(a, b - 1);
      assert Pow2(a + b) == 2 * Pow2(a + b - 1);
    }
  }

  /** Or-ing a number below 2^m into a multiple of 2^m is addition: the bits do not overlap. */
  lemma {:induction false} OrDisjoint(high: nat, low: nat, m: nat)
    requires low < Pow2(m)
    ensures BitOr(high * Pow2(m), low) == high * Pow2(m) + low
  {
    var a := high * Pow2(m);
    if m > 0 && a != 0 && low != 0 {
      assert a == 2 * (high * Pow2(m - 1));
      assert a / 2 == high * Pow2(m - 1) && a % 2 == 0;
      OrDisjoint(high, low / 2, m - 1);
    }
  }

  /** 256^k for the byte positions 0 .. 3 of a field is at most 256^3. */
  lemma ByteWeight(k: nat)
    requires k <= 3
    ensures Pow2(8 * k) <= 0x100_0000
  {
    Pow2Table();
    if k == 1 {
      assert Pow2(8 * k) == Pow2(8);
    } else if k == 2 {
      assert Pow2(8 * k) == Pow2(16);
    } else if k == 3 {
      assert Pow2(8 * k) == Pow2(24);
    }
  }

  /** ToInt32 leaves a value of the non-negative int32 range alone. */
  lemma Int32Identity(v: int)
    requires 0 <= v < TwoTo31
    ensures ToUint32(v) == v && ToInt32(v) == v
  {
  }

  /** ToUint32 undoes ToInt32 on the uint32 range. */
  lemma Uint32OfInt32(v: int)
    requires 0 <= v < TwoTo32
    ensures ToUint32(ToInt32(v)) == v
  {
  }

  /** Shifting a byte left by 8k bits, k <= 3, puts b * 256^k into the 32 bits of the result. */
  lemma ShlByte(b: byte, k: nat)
    requires k <= 3
    ensures 0 <= b as int * Pow2(8 * k) < TwoTo32
    ensures ToUint32(JsShl(b as int, 8 * k)) == b as int * Pow2(8 * k)
  {
    ByteWeight(k);
    var p := Pow2(8 * k);
    MulMonotone(b as int, 255, p);
    Int32Identity(b as int);
    assert ToUint32(8 * k) % 32 == 8 * k;
    assert JsShl(b as int, 8 * k) == ToInt32(b as int * p);
    Uint32OfInt32(b as int * p);
  }

  /** One step of the reduce over a field of at most 4 bytes: or-ing byte k-1, shifted into
      place, into an accumulator that holds the first k-1 bytes' value yields ToInt32 of the
      first k bytes' value. */
  lemma FoldStep(bytes: seq<byte>, k: nat)
    requires 1 <= k <= 4 && k <= |bytes|
    requires Fold(bytes, k - 1) == LittleEndianPrefix(bytes, k - 1)
    ensures Fold(bytes, k) == ToInt32(LittleEndianPrefix(bytes, k))
  {
    var acc := LittleEndianPrefix(bytes, k - 1);
    LittleEndianBound(bytes, k - 1);
    ByteWeight(k - 1);
    Int32Identity(acc);
    var b := bytes[k - 1];
    var shifted := b as int * Pow2(8 * (k - 1));
    ShlByte(b, k - 1);
    OrDisjoint(b as int, acc, 8 * (k - 1));
    var sum := BitOr(ToUint32(JsShl(b as int, 8 * (k - 1))), ToUint32(Fold(bytes, k - 1)));
    assert sum == shifted + acc;
    assert Fold(bytes, k) == ToInt32(sum);
    assert LittleEndianPrefix(bytes, k) == acc + shifted;
  }

  /** For up to four bytes the fold computes the little-endian value, read as a signed 32-bit
      integer; for up to three it is the little-endian value itself. */
  lemma {:induction false} FoldIsLittleEndian(bytes: seq<byte>, k: nat)
    requires k <= |bytes|
    ensures k <= 4 ==> Fold(bytes, k) == ToInt32(LittleEndianPrefix(bytes, k))
    ensures k <= 3 ==> Fold(bytes, k) == LittleEndianPrefix(bytes, k) && Fold(bytes, k) < Pow2(8 * k)
  {
    if k == 0 {
      Int32Identity(0);
    } else if k <= 4 {
      FoldIsLittleEndian(bytes, k - 1);
      FoldStep(bytes, k);
      if k <= 3 {
        LittleEndianBound(bytes, k);
        ByteWeight(k);
        Int32Identity(LittleEndianPrefix(bytes, k));
      }
    }
  }

  /** A 4-byte string's value is its low three bytes' value plus the top byte times 256^3, so it
      is below 2^31 exactly when the top byte is below 0x80, and below 2^32 in any case. */
  lemma TopByte(s: seq<byte>)
    requires |s| == 4
    ensures LittleEndian(s) == LittleEndianPrefix(s, 3) + s[3] as int * 0x100_0000
    ensures LittleEndian(s) < TwoTo32
    ensures s[3] < 0x80 <==> LittleEndian(s) < TwoTo31
  {
    LittleEndianBound(s, 3);
    Pow2Table();
    var low := LittleEndianPrefix(s, 3);
    assert LittleEndian(s) == low + s[3] as int * Pow2(24);
    if s[3] < 0x80 {
      MulMonotone(s[3] as int, 0x7f, 0x100_0000);
    } else {
      MulMonotone(0x80, s[3] as int, 0x100_0000);
    }
    MulMonotone(s[3] as int, 0xff, 0x100_0000);
  }

  /** ToInt32 on the uint32 range: the value itself below 2^31, the value minus 2^32 above. */
  lemma Int32OfUint32(v: int)
    requires 0 <= v < TwoTo32
    ensures v < TwoTo31 ==> ToInt32(v) == v
    ensures v >= TwoTo31 ==> ToInt32(v) == v - TwoTo32
  {
  }

  /** A four-byte field whose top byte is below 0x80, such as a BMP width, height or size, decodes
      to its little-endian value; with the top byte at 0x80 or above it comes out negative. */
  lemma FourByteField(data: seq<byte>, offset: nat)
    requires offset + 4 <= |data|
    ensures data[offset + 3] < 0x80 ==>
      GetHeaderValue(data, offset, 4) == LittleEndian(data[offset..offset + 4])
    ensures data[offset + 3] >= 0x80 ==>
      GetHeaderValue(data, offset, 4) == LittleEndian(data[offset..offset + 4]) - TwoTo32
  {
    var s := data[offset..offset + 4];
    assert Slice(data, offset, 4) == s;
    assert s[3] == data[offset + 3];
    TopByte(s);
    Int32OfUint32(LittleEndian(s));
  }
}
