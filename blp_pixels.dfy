/** The integer side of a block-compressed (DXT) BLP2 image,
    src/formats/blp/blp.ts: RGB565 endpoint colours widened to 8 bits, the
    colour table of a block, its sixteen 2-bit colour indices, and the alpha of
    DXT3 (4 bits a pixel) and DXT5 (an 8-entry table and 3-bit indices).

    For a non-negative number below 2^31, `x >> k` is x / 2^k, `x & (2^k - 1)`
    is x % 2^k and `x | y` of two disjoint bit ranges is x + y; the functions
    below are written that way. Reading the mip bytes past their end gives
    `undefined`, which the bitwise operators take as 0. */
module BlpPixels {
  import opened Results
  import opened Bytes

  /** BLPPixelFormat.DXT5. */
  const FormatDxt5 := 7

  /** The compression a block uses. */
  datatype Variant = Dxt1 | Dxt3 | Dxt5

  /** DXT5 when the image has more than one bit of alpha and the DXT5 pixel
      format, DXT3 for more than one bit of alpha otherwise, DXT1 for at most
      one bit. */
  function VariantOf(alphaDepth: int, format: int): Variant {
    if alphaDepth > 1 then (if format == FormatDxt5 then Dxt5 else Dxt3) else Dxt1
  }

  /** Bytes per 4x4 block. */
  function BlockSize(v: Variant): (n: nat)
    ensures n == 8 || n == 16
  {
    if v == Dxt1 then 8 else 16
  }

  /** A block is 8 bytes exactly when the image has at most one bit of alpha
      (DXT1) and 16 otherwise; DXT5 is chosen exactly for more than one bit of
      alpha with the DXT5 pixel format, DXT3 for more than one bit with any
      other format. */
  lemma VariantBlockSize(alphaDepth: int, format: int)
    ensures BlockSize(VariantOf(alphaDepth, format)) == 8 <==> alphaDepth <= 1
    ensures BlockSize(VariantOf(alphaDepth, format)) == 16 <==> alphaDepth > 1
    ensures VariantOf(alphaDepth, format) == Dxt5 <==> alphaDepth > 1 && format == FormatDxt5
    ensures VariantOf(alphaDepth, format) == Dxt3 <==> alphaDepth > 1 && format != FormatDxt5
  {
  }

  /** `raw[k]` inside a bitwise expression. */
  function RawBits(raw: seq<byte>, k: int): byte {
    if 0 <= k < |raw| then raw[k] else 0
  }

  /** `raw[k]` as a value: `undefined` past the end. */
  function RawValue(raw: seq<byte>, k: int): Option<byte> {
    if 0 <= k < |raw| then Some(raw[k]) else None
  }

  // ---------------------------------------------------------------------------
  // Numbers the colour interpolation produces, and how ImageData stores them

  type Denominator = d: int | 1 <= d <= 3 witness 1

  /** A number of the colour table: an integer, or the exact value of an
      interpolation such as (2 * c + d) / 3. */
  datatype Fraction = Fraction(num: int, den: Denominator)

  function Whole(v: int): Fraction {
    Fraction(v, 1)
  }

  /** The byte a Uint8ClampedArray stores for a number: clamped to 0..255 and
      rounded to the nearest integer, a tie going to the even one. (The double
      nearest to a third is never a tie, so the exact value rounds alike.) */
  function Clamp(v: Fraction): byte {
    var q := if v.den == 1 then v.num else if v.den == 2 then v.num / 2 else v.num / 3;
    var twice := if v.den == 1 then 0 else if v.den == 2 then 2 * (v.num % 2) else 2 * (v.num % 3);
    var rounded := if twice > v.den || (twice == v.den && q % 2 == 1) then q + 1 else q;
    if rounded < 0 then 0 else if rounded > 255 then 255 else rounded
  }

  /** A stored value is the nearest byte to the number, and on a tie the even
      one; a whole byte is stored as itself. */
  lemma ClampNearest(v: Fraction)
    requires 0 <= v.num <= 255 * v.den
    ensures -(v.den as int) <= 2 * (Clamp(v) * v.den - v.num) <= v.den
    ensures 2 * (Clamp(v) * v.den - v.num) == v.den || 2 * (Clamp(v) * v.den - v.num) == -(v.den as int) ==> Clamp(v) % 2 == 0
    ensures v.den == 1 ==> Clamp(v) == v.num
  {
    if v.den == 2 {
      assert Clamp(v) * 2 == 2 * Clamp(v);
    } else if v.den == 3 {
      assert Clamp(v) * 3 == 3 * Clamp(v);
    }
  }

  // ---------------------------------------------------------------------------
  // decompressColour

  /** The 16-bit colour at `index + offset`, low byte first. */
  function ColourValue(raw: seq<byte>, index: int): (value: int)
    ensures 0 <= value < Two16
  {
    RawBits(raw, index) + 0x100 * RawBits(raw, index + 1)
  }

  /** `(c << 3) | (c >> 2)`: a 5-bit channel widened to 8 bits. */
  function Widen5(c: int): int
    requires 0 <= c < 32
  {
    c * 8 + c / 4
  }

  /** `(c << 2) | (c >> 4)`: a 6-bit channel widened to 8 bits. */
  function Widen6(c: int): int
    requires 0 <= c < 64
  {
    c * 4 + c / 16
  }

  /** The red, green, blue and alpha that decompressColour writes for an RGB565
      value. */
  function Rgb(value: int): (c: seq<int>)
    requires 0 <= value < Two16
    ensures |c| == 4
  {
    [Widen5(value / 2048 % 32), Widen6(value / 32 % 64), Widen5(value % 32), 255]
  }

  /** Each widened channel is a byte whose top bits are the channel itself, so
      the 16-bit value can be read back from the colour; the smallest channel
      widens to 0 and the largest to 255; alpha is opaque. */
  lemma RgbRoundTrip(value: int)
    requires 0 <= value < Two16
    ensures var c := Rgb(value);
      && (forall k :: 0 <= k < 4 ==> 0 <= c[k] < 256)
      && (c[0] / 8) * 2048 + (c[1] / 4) * 32 + c[2] / 8 == value
      && c[3] == 255
    ensures Widen5(0) == 0 && Widen5(31) == 255 && Widen6(0) == 0 && Widen6(63) == 255
  {
    var r, g, b := value / 2048 % 32, value / 32 % 64, value % 32;
    Widen5Top(r);
    Widen6Top(g);
    Widen5Top(b);
    RgbFields(value);
  }

  /** The three fields of an RGB565 value, weighted by their place, give it back. */
  lemma RgbFields(value: int)
    requires 0 <= value < Two16
    ensures (value / 2048 % 32) * 2048 + (value / 32 % 64) * 32 + value % 32 == value
  {
    var q := value / 32;
    assert value == 32 * q + value % 32;
    assert q == 64 * (q / 64) + q % 64;
    assert q / 64 == value / 2048 && value / 2048 < 32;
  }

  /** A widened 5-bit channel keeps the channel in its top five bits. */
  lemma Widen5Top(c: int)
    requires 0 <= c < 32
    ensures 0 <= Widen5(c) < 256 && Widen5(c) / 8 == c
  {
    assert c / 4 < 8;
  }

  /** A widened 6-bit channel keeps the channel in its top six bits. */
  lemma Widen6Top(c: int)
    requires 0 <= c < 64
    ensures 0 <= Widen6(c) < 256 && Widen6(c) / 4 == c
  {
    assert c / 16 < 4;
  }

  /** decompressColour writes the colour's four channels at `bufferOffset` and
      leaves the rest of the buffer alone. */
  method DecompressColour(raw: seq<byte>, index: int, offset: int, buffer: array<Fraction>, bufferOffset: nat) returns (value: int)
    requires bufferOffset + 4 <= buffer.Length
    modifies buffer
    ensures value == ColourValue(raw, index + offset)
    ensures forall k :: 0 <= k < buffer.Length ==>
      buffer[k] == if bufferOffset <= k < bufferOffset + 4 then Whole(Rgb(value)[k - bufferOffset]) else old(buffer[k])
  {
    value := RawBits(raw, index + offset) + RawBits(raw, index + 1 + offset) * 0x100;
    var r := (value / 2048) % 32;
    var g := (value / 32) % 64;
    var b := value % 32;
    buffer[bufferOffset] := Whole(r * 8 + r / 4);
    buffer[bufferOffset + 1] := Whole(g * 4 + g / 16);
    buffer[bufferOffset + 2] := Whole(b * 8 + b / 4);
    buffer[bufferOffset + 3] := Whole(255);
  }

  function Wholes(c: seq<int>): (r: seq<Fraction>)
    ensures |r| == |c|
  {
    seq(|c|, k requires 0 <= k < |c| => Whole(c[k]))
  }

  // ---------------------------------------------------------------------------
  // The colour table and the colour indices of a block

  /** DXT1 with a first endpoint not above the second: three colours and
      transparent black. */
  predicate Transparent(a: int, b: int, dxt1: bool) {
    dxt1 && a <= b
  }

  /** The third and fourth colours between the endpoint colours `c` and `d`. */
  function Between(c: seq<int>, d: seq<int>, transparent: bool): (r: seq<Fraction>)
    requires |c| == 4 && |d| == 4
    ensures |r| == 8
  {
    seq(8, k requires 0 <= k < 8 => BetweenNumber(c, d, transparent, k))
  }

  /** Number `k` of the third colour (k < 4) and the fourth (k >= 4): half way,
      or a third and two thirds of the way, from `c` to `d`; opaque, or
      transparent black. */
  function BetweenNumber(c: seq<int>, d: seq<int>, transparent: bool, k: int): Fraction
    requires |c| == 4 && |d| == 4 && 0 <= k < 8
  {
    if k == 3 then Whole(255)
    else if k == 7 then Whole(if transparent then 0 else 255)
    else if k < 3 then (if transparent then Fraction(c[k] + d[k], 2) else Fraction(2 * c[k] + d[k], 3))
    else if transparent then Whole(0)
    else Fraction(c[k - 4] + 2 * d[k - 4], 3)
  }

  /** The sixteen numbers of a block's colour table: the two endpoints at
      `colourIndex` and two colours between them. */
  function ColourTable(raw: seq<byte>, colourIndex: int, dxt1: bool): (r: seq<Fraction>)
    ensures |r| == 16
  {
    var a := ColourValue(raw, colourIndex);
    var b := ColourValue(raw, colourIndex + 2);
    Wholes(Rgb(a)) + Wholes(Rgb(b)) + Between(Rgb(a), Rgb(b), Transparent(a, b, dxt1))
  }

  /** The in-between colours lie between the endpoints, channel by channel,
      once stored; the transparent fourth colour is black with alpha 0. */
  lemma ColourTableBetween(raw: seq<byte>, colourIndex: int, dxt1: bool)
    ensures var a := ColourValue(raw, colourIndex);
      var b := ColourValue(raw, colourIndex + 2);
      var t := ColourTable(raw, colourIndex, dxt1);
      && (forall i :: 0 <= i < 3 ==>
            && Min(Rgb(a)[i], Rgb(b)[i]) <= Clamp(t[8 + i]) <= Max(Rgb(a)[i], Rgb(b)[i])
            && (!Transparent(a, b, dxt1) ==> Min(Rgb(a)[i], Rgb(b)[i]) <= Clamp(t[12 + i]) <= Max(Rgb(a)[i], Rgb(b)[i])))
      && Clamp(t[11]) == 255
      && (Transparent(a, b, dxt1) ==> forall i :: 12 <= i < 16 ==> Clamp(t[i]) == 0)
      && (!Transparent(a, b, dxt1) ==> Clamp(t[15]) == 255)
  {
    var a := ColourValue(raw, colourIndex);
    var b := ColourValue(raw, colourIndex + 2);
    var ca, cb, transparent := Rgb(a), Rgb(b), Transparent(a, b, dxt1);
    RgbBytes(a);
    RgbBytes(b);
    BetweenBounds(ca, cb, transparent);
    var t := ColourTable(raw, colourIndex, dxt1);
    var r := Between(ca, cb, transparent);
    assert t == Wholes(ca) + Wholes(cb) + r;
    assert forall k :: 0 <= k < 8 ==> t[8 + k] == r[k];
  }

  /** The four numbers of a colour are bytes. */
  lemma RgbBytes(value: int)
    requires 0 <= value < Two16
    ensures forall k :: 0 <= k < 4 ==> 0 <= Rgb(value)[k] < 256
  {
    var r, g, b := value / 2048 % 32, value / 32 % 64, value % 32;
    Widen5Top(r);
    Widen6Top(g);
    Widen5Top(b);
  }

  /** The colours between two colours of bytes, once stored, lie between them
      channel by channel. */
  lemma BetweenBounds(c: seq<int>, d: seq<int>, transparent: bool)
    requires |c| == 4 && |d| == 4 && forall k :: 0 <= k < 4 ==> 0 <= c[k] < 256 && 0 <= d[k] < 256
    ensures forall i :: 0 <= i < 3 ==> Min(c[i], d[i]) <= Clamp(Between(c, d, transparent)[i]) <= Max(c[i], d[i])
    ensures !transparent ==> forall i :: 0 <= i < 3 ==> Min(c[i], d[i]) <= Clamp(Between(c, d, transparent)[4 + i]) <= Max(c[i], d[i])
    ensures Clamp(Between(c, d, transparent)[3]) == 255
    ensures transparent ==> forall i :: 4 <= i < 8 ==> Clamp(Between(c, d, transparent)[i]) == 0
    ensures !transparent ==> Clamp(Between(c, d, transparent)[7]) == 255
  {
    forall i | 0 <= i < 3
      ensures Min(c[i], d[i]) <= Clamp(Between(c, d, transparent)[i]) <= Max(c[i], d[i])
      ensures !transparent ==> Min(c[i], d[i]) <= Clamp(Between(c, d, transparent)[4 + i]) <= Max(c[i], d[i])
    {
      ChannelBounds(c, d, transparent, i);
    }
  }

  lemma ChannelBounds(c: seq<int>, d: seq<int>, transparent: bool, i: int)
    requires |c| == 4 && |d| == 4 && 0 <= i < 3 && 0 <= c[i] < 256 && 0 <= d[i] < 256
    ensures Min(c[i], d[i]) <= Clamp(Between(c, d, transparent)[i]) <= Max(c[i], d[i])
    ensures !transparent ==> Min(c[i], d[i]) <= Clamp(Between(c, d, transparent)[4 + i]) <= Max(c[i], d[i])
  {
    var lo, hi := Min(c[i], d[i]), Max(c[i], d[i]);
    var r := Between(c, d, transparent);
    if transparent {
      assert r[i] == Fraction(c[i] + d[i], 2);
      HalfBetween(r[i], lo, hi);
    } else {
      assert r[i] == Fraction(2 * c[i] + d[i], 3) && r[4 + i] == Fraction(c[i] + 2 * d[i], 3);
      ThirdBetween(r[i], lo, hi);
      ThirdBetween(r[4 + i], lo, hi);
    }
  }

  /** A half between two bytes is stored as a byte between them. */
  lemma HalfBetween(f: Fraction, lo: int, hi: int)
    requires 0 <= lo <= hi <= 255 && f.den == 2 && 2 * lo <= f.num <= 2 * hi
    ensures lo <= Clamp(f) <= hi
  {
    var q := f.num / 2;
    assert lo <= q <= hi && (q == hi ==> f.num % 2 == 0);
  }

  /** A third between two bytes is stored as a byte between them. */
  lemma ThirdBetween(f: Fraction, lo: int, hi: int)
    requires 0 <= lo <= hi <= 255 && f.den == 3 && 3 * lo <= f.num <= 3 * hi
    ensures lo <= Clamp(f) <= hi
  {
    var q := f.num / 3;
    assert lo <= q <= hi && (q == hi ==> f.num % 3 == 0);
  }

  function Min(x: int, y: int): int {
    if x <= y then x else y
  }

  function Max(x: int, y: int): int {
    if x <= y then y else x
  }

  /** `(packed >> 2 * j) & 0x3`: index `j` (0 to 3) of the four 2-bit indices
      packed in a byte, lowest bits first; a shift by 2j is j shifts by 2. */
  function TwoBits(packed: int, j: int): (r: int)
    requires 0 <= j < 4
    ensures 0 <= r < 4
    decreases j
  {
    if j == 0 then packed % 4 else TwoBits(packed / 4, j - 1)
  }

  /** The sixteen 2-bit colour indices of a block, from the four bytes after the
      endpoints: byte i holds pixels 4i to 4i + 3, lowest bits first. */
  function ColourIndices(raw: seq<byte>, colourIndex: int): (r: seq<int>)
    ensures |r| == 16 && forall k :: 0 <= k < 16 ==> 0 <= r[k] < 4
  {
    seq(16, k requires 0 <= k < 16 => TwoBits(RawBits(raw, colourIndex + 4 + k / 4), k % 4))
  }

  /** The four indices of a byte, weighted by their place, give the byte back. */
  lemma ColourIndicesRoundTrip(raw: seq<byte>, colourIndex: int, i: int)
    requires 0 <= i < 4
    ensures var r := ColourIndices(raw, colourIndex);
      r[4 * i] + 4 * r[4 * i + 1] + 16 * r[4 * i + 2] + 64 * r[4 * i + 3] == RawBits(raw, colourIndex + 4 + i)
  {
    var b := RawBits(raw, colourIndex + 4 + i);
    ColourIndexAt(raw, colourIndex, i, 0);
    ColourIndexAt(raw, colourIndex, i, 1);
    ColourIndexAt(raw, colourIndex, i, 2);
    ColourIndexAt(raw, colourIndex, i, 3);
    BaseFourDigits(b);
  }

  lemma ColourIndexAt(raw: seq<byte>, colourIndex: int, i: nat, j: nat)
    requires i < 4 && j < 4
    ensures ColourIndices(raw, colourIndex)[4 * i + j] == TwoBits(RawBits(raw, colourIndex + 4 + i), j)
  {
    PlaceOf(i, j, 4);
  }

  /** Place `j` of group `i`, in groups of `n`. */
  lemma PlaceOf(i: nat, j: nat, n: nat)
    requires (n == 4 || n == 8) && j < n
    ensures (n * i + j) / n == i && (n * i + j) % n == j
  {
    if n == 4 {
      assert (4 * i + j) / 4 == i;
    } else {
      assert (8 * i + j) / 8 == i;
    }
  }

  /** A byte is the sum of its four base-4 digits. */
  lemma BaseFourDigits(b: nat)
    requires b < 256
    ensures TwoBits(b, 0) + 4 * TwoBits(b, 1) + 16 * TwoBits(b, 2) + 64 * TwoBits(b, 3) == b
  {
    var q1 := b / 4;
    var q2 := q1 / 4;
    var q3 := q2 / 4;
    assert TwoBits(b, 1) == TwoBits(q1, 0);
    assert TwoBits(b, 2) == TwoBits(q1, 1) == TwoBits(q2, 0);
    assert TwoBits(b, 3) == TwoBits(q1, 2) == TwoBits(q2, 1) == TwoBits(q3, 0);
    NestedFour(b);
  }

  lemma NestedFour(b: nat)
    requires b < 256
    ensures var q1 := b / 4; var q2 := q1 / 4; var q3 := q2 / 4;
      b % 4 + 4 * (q1 % 4) + 16 * (q2 % 4) + 64 * (q3 % 4) == b
  {
    var q1 := b / 4;
    var q2 := q1 / 4;
    var q3 := q2 / 4;
    assert b == 4 * q1 + b % 4 && q1 == 4 * q2 + q1 % 4 && q2 == 4 * q3 + q2 % 4 && q3 < 4;
  }

  /** The block's sixteen pixels in the colours the indices pick: pixel i takes
      the four numbers of colour `index[i]`. */
  function ColourBlock(colours: seq<Fraction>, index: seq<int>): (r: seq<Fraction>)
    requires |colours| == 16 && |index| == 16 && forall k :: 0 <= k < 16 ==> 0 <= index[k] < 4
    ensures |r| == 64
  {
    seq(64, k requires 0 <= k < 64 => colours[4 * index[k / 4] + k % 4])
  }

  // ---------------------------------------------------------------------------
  // DXT3 alpha

  /** `low | (low << 4)` and `high | (high >> 4)` for the nibbles of a byte: a
      4-bit alpha widened to 8 bits. */
  function Nibble17(n: int): int {
    n * 16 + n
  }

  /** The alpha of DXT3 pixel k: eight bytes at `pos`, the low nibble for the
      even pixel and the high one for the odd. */
  function Dxt3Alpha(raw: seq<byte>, pos: int, k: int): int {
    var packed := RawBits(raw, pos + k / 2);
    if k % 2 == 0 then Nibble17(packed % 16) else Nibble17(packed / 16)
  }

  /** The block with DXT3 alpha in the fourth number of every pixel. */
  function WithDxt3Alpha(block: seq<Fraction>, raw: seq<byte>, pos: int): (r: seq<Fraction>)
    requires |block| == 64
    ensures |r| == 64
  {
    seq(64, k requires 0 <= k < 64 => if k % 4 == 3 then Whole(Dxt3Alpha(raw, pos, k / 4)) else block[k])
  }

  /** A widened nibble is a byte whose top four bits are the nibble; 0 and 15
      widen to 0 and 255. */
  lemma Nibble17RoundTrip(n: int)
    requires 0 <= n < 16
    ensures 0 <= Nibble17(n) < 256 && Nibble17(n) / 16 == n && Nibble17(n) % 16 == n
    ensures Nibble17(0) == 0 && Nibble17(15) == 255
  {
  }

  // ---------------------------------------------------------------------------
  // DXT5 alpha

  /** An endpoint alpha as ImageData stores it: `undefined` becomes 0. */
  function Stored(a: Option<byte>): int {
    if a.Some? then a.value else 0
  }

  /** 5 when the first endpoint is not above the second (six alphas, then 0
      and 255), 7 otherwise (eight alphas); an `undefined` endpoint compares
      false. */
  function Roll(a0: Option<byte>, a1: Option<byte>): int {
    if a0.Some? && a1.Some? && a0.value <= a1.value then 5 else 7
  }

  /** `((roll - i) * a0 + i * a1) / roll | 0`: 0 when an endpoint is
      `undefined`, as NaN | 0 is. */
  function Lerp(a0: Option<byte>, a1: Option<byte>, i: int): int {
    var roll := Roll(a0, a1);
    if a0.Some? && a1.Some? then ((roll - i) * a0.value + i * a1.value) / roll else 0
  }

  /** The eight alphas of a DXT5 block. */
  function AlphaTable(a0: Option<byte>, a1: Option<byte>): (r: seq<int>)
    ensures |r| == 8
  {
    var roll := Roll(a0, a1);
    [Stored(a0), Stored(a1)] + seq(roll - 1, k requires 0 <= k < roll - 1 => Lerp(a0, a1, k + 1))
      + (if roll == 5 then [0, 255] else [])
  }

  /** The alphas between the endpoints lie between them, in order from the
      first to the second; the five-step table ends in 0 and 255. */
  lemma AlphaTableBetween(a0: byte, a1: byte)
    ensures var r := AlphaTable(Some(a0), Some(a1));
      && r[0] == a0 && r[1] == a1
      && (forall k :: 2 <= k < Roll(Some(a0), Some(a1)) + 1 ==> Min(a0, a1) <= r[k] <= Max(a0, a1))
      && (a0 <= a1 ==> r[6] == 0 && r[7] == 255)
  {
    var roll := Roll(Some(a0), Some(a1));
    forall i | 1 <= i < roll
      ensures Min(a0, a1) <= Lerp(Some(a0), Some(a1), i) <= Max(a0, a1)
    {
      LerpBetween(a0, a1, roll, i);
    }
  }

  lemma LerpBetween(a0: byte, a1: byte, roll: int, i: int)
    requires roll == 5 || roll == 7
    requires 1 <= i < roll
    ensures Min(a0, a1) * roll <= (roll - i) * a0 + i * a1 <= Max(a0, a1) * roll
  {
    var lo, hi := Min(a0, a1), Max(a0, a1);
    assert (roll - i) * a0 >= (roll - i) * lo && i * a1 >= i * lo;
    assert (roll - i) * a0 <= (roll - i) * hi && i * a1 <= i * hi;
  }

  /** The 24-bit group of three bytes at `p`, low byte first. */
  function Group(raw: seq<byte>, p: int): (g: int)
    ensures 0 <= g < 0x100_0000
  {
    RawBits(raw, p) + 0x100 * RawBits(raw, p + 1) + 0x1_0000 * RawBits(raw, p + 2)
  }

  /** `(value >> 3 * j) & 0x07`: index `j` (0 to 7) of the eight 3-bit indices
      of a group, lowest first; a shift by 3j is j shifts by 3. */
  function ThreeBits(value: int, j: int): (r: int)
    requires 0 <= j < 8
    ensures 0 <= r < 8
    decreases j
  {
    if j == 0 then value % 8 else ThreeBits(value / 8, j - 1)
  }

  /** The sixteen 3-bit alpha indices of a DXT5 block: two groups of three bytes
      from `pos + 2`, each holding eight indices. */
  function AlphaIndices(raw: seq<byte>, pos: int): (r: seq<int>)
    ensures |r| == 16 && forall k :: 0 <= k < 16 ==> 0 <= r[k] < 8
  {
    seq(16, k requires 0 <= k < 16 => ThreeBits(Group(raw, pos + 2 + 3 * (k / 8)), k % 8))
  }

  /** The eight indices of a group, weighted by their place, give the group
      back. */
  lemma AlphaIndicesRoundTrip(raw: seq<byte>, pos: int, half: int)
    requires 0 <= half < 2
    ensures var r := AlphaIndices(raw, pos);
      var i := 8 * half;
      r[i] + 8 * r[i + 1] + 64 * r[i + 2] + 0x200 * r[i + 3] + 0x1000 * r[i + 4]
        + 0x8000 * r[i + 5] + 0x4_0000 * r[i + 6] + 0x20_0000 * r[i + 7] == Group(raw, pos + 2 + 3 * half)
  {
    GroupIndices(raw, pos, half);
    BaseEightDigits(Group(raw, pos + 2 + 3 * half));
  }

  /** The eight indices of group `half` are the group's eight 3-bit fields. */
  lemma GroupIndices(raw: seq<byte>, pos: int, half: int)
    requires 0 <= half < 2
    ensures forall k :: 8 * half <= k < 8 * half + 8 ==> AlphaIndices(raw, pos)[k] == ThreeBits(Group(raw, pos + 2 + 3 * half), k - 8 * half)
  {
    forall k | 8 * half <= k < 8 * half + 8
      ensures AlphaIndices(raw, pos)[k] == ThreeBits(Group(raw, pos + 2 + 3 * half), k - 8 * half)
    {
      AlphaIndexAt(raw, pos, half, k - 8 * half);
    }
  }

  lemma AlphaIndexAt(raw: seq<byte>, pos: int, half: nat, j: nat)
    requires half < 2 && j < 8
    ensures AlphaIndices(raw, pos)[8 * half + j] == ThreeBits(Group(raw, pos + 2 + 3 * half), j)
  {
    PlaceOf(half, j, 8);
  }

  /** A 24-bit group is the sum of its eight base-8 digits. */
  lemma BaseEightDigits(g: nat)
    requires g < 0x100_0000
    ensures ThreeBits(g, 0) + 8 * ThreeBits(g, 1) + 64 * ThreeBits(g, 2) + 0x200 * ThreeBits(g, 3)
      + 0x1000 * ThreeBits(g, 4) + 0x8000 * ThreeBits(g, 5) + 0x4_0000 * ThreeBits(g, 6) + 0x20_0000 * ThreeBits(g, 7) == g
  {
    var q1 := g / 8;
    var q2 := q1 / 8;
    var q3 := q2 / 8;
    var q4 := q3 / 8;
    var q5 := q4 / 8;
    var q6 := q5 / 8;
    var q7 := q6 / 8;
    assert ThreeBits(g, 1) == ThreeBits(q1, 0);
    assert ThreeBits(g, 2) == ThreeBits(q1, 1) == ThreeBits(q2, 0);
    assert ThreeBits(g, 3) == ThreeBits(q1, 2) == ThreeBits(q2, 1) == ThreeBits(q3, 0);
    assert ThreeBits(g, 4) == ThreeBits(q1, 3) == ThreeBits(q2, 2) == ThreeBits(q3, 1) == ThreeBits(q4, 0);
    assert ThreeBits(g, 5) == ThreeBits(q1, 4) == ThreeBits(q2, 3) == ThreeBits(q3, 2) == ThreeBits(q4, 1) == ThreeBits(q5, 0);
    assert ThreeBits(g, 6) == ThreeBits(q1, 5) == ThreeBits(q2, 4) == ThreeBits(q3, 3) == ThreeBits(q4, 2) == ThreeBits(q5, 1)
      == ThreeBits(q6, 0);
    assert ThreeBits(g, 7) == ThreeBits(q1, 6) == ThreeBits(q2, 5) == ThreeBits(q3, 4) == ThreeBits(q4, 3) == ThreeBits(q5, 2)
      == ThreeBits(q6, 1) == ThreeBits(q7, 0);
    NestedEight(g);
  }

  lemma NestedEight(g: nat)
    requires g < 0x100_0000
    ensures var q1 := g / 8; var q2 := q1 / 8; var q3 := q2 / 8; var q4 := q3 / 8;
      var q5 := q4 / 8; var q6 := q5 / 8; var q7 := q6 / 8;
      g % 8 + 8 * (q1 % 8) + 64 * (q2 % 8) + 0x200 * (q3 % 8) + 0x1000 * (q4 % 8)
        + 0x8000 * (q5 % 8) + 0x4_0000 * (q6 % 8) + 0x20_0000 * (q7 % 8) == g
  {
    var q1 := g / 8;
    var q2 := q1 / 8;
    var q3 := q2 / 8;
    var q4 := q3 / 8;
    var q5 := q4 / 8;
    var q6 := q5 / 8;
    var q7 := q6 / 8;
    LowThreeDigits(g);
    LowThreeDigits(q3);
    assert q6 == 8 * q7 + q6 % 8;
    assert q7 < 8;
  }

  /** Any number is its three lowest base-8 digits plus 512 times the rest. */
  lemma LowThreeDigits(x: nat)
    ensures x % 8 + 8 * (x / 8 % 8) + 64 * (x / 8 / 8 % 8) + 512 * (x / 8 / 8 / 8) == x
  {
    var q1 := x / 8;
    var q2 := q1 / 8;
    assert x == 8 * q1 + x % 8 && q1 == 8 * q2 + q1 % 8 && q2 == 8 * (q2 / 8) + q2 % 8;
  }

  /** The block with DXT5 alpha in the fourth number of every pixel. */
  function WithDxt5Alpha(block: seq<Fraction>, raw: seq<byte>, pos: int): (r: seq<Fraction>)
    requires |block| == 64
    ensures |r| == 64
  {
    var table := AlphaTable(RawValue(raw, pos), RawValue(raw, pos + 1));
    var indices := AlphaIndices(raw, pos);
    seq(64, k requires 0 <= k < 64 => if k % 4 == 3 then Whole(table[indices[k / 4]]) else block[k])
  }

  // ---------------------------------------------------------------------------
  // One block

  /** The 64 numbers of the block at `pos`: DXT1 has its colours at `pos`, DXT3
      and DXT5 eight bytes of alpha first. */
  function Block(raw: seq<byte>, pos: int, v: Variant): (r: seq<Fraction>)
    ensures |r| == 64
  {
    var colourIndex := if v == Dxt1 then pos else pos + 8;
    var colours := ColourBlock(ColourTable(raw, colourIndex, v == Dxt1), ColourIndices(raw, colourIndex));
    match v
    case Dxt1 => colours
    case Dxt3 => WithDxt3Alpha(colours, raw, pos)
    case Dxt5 => WithDxt5Alpha(colours, raw, pos)
  }
}
