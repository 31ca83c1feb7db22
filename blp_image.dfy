/** The pixel loops of src/formats/blp/blp.ts. `getAlpha` takes the alpha of
    pixel `index` of a paletted image out of packed bits. `getCompressed` walks
    the image in 4x4 blocks, row of blocks by row of blocks. For each block it
    decodes the 64 numbers of the block from the mip bytes (the function
    `Block` of BlpPixels), copies them into the RGBA bytes of the ImageData
    while clipping the parts of a block past the right and bottom edges, and
    moves `pos` on by the block size. Once `pos` equals the length of the mip
    bytes, every remaining block is skipped. */
module BlpImage {
  import opened Bytes
  import opened BlpPixels

  // ---------------------------------------------------------------------------
  // getAlpha

  /** `x >> n`, one bit at a time. */
  function Shr(x: nat, n: nat): nat {
    if n == 0 then x else Shr(x / 2, n - 1)
  }

  function GetAlpha(alphaDepth: int, data: seq<byte>, index: nat): (a: int)
    requires alphaDepth == 0 || alphaDepth == 1 || alphaDepth == 2 || alphaDepth == 4 || alphaDepth == 8
    ensures alphaDepth == 0 ==> a == 1
    ensures alphaDepth > 0 ==> 0 <= a < Pow2(alphaDepth)
  {
    if alphaDepth == 0 then 1
    else
      var b := RawBits(data, index * alphaDepth / 8);
      var valsPerByte := 8 / alphaDepth;
      Shr(b, valsPerByte - index % valsPerByte - 1) % Pow2(alphaDepth)
  }

  lemma AlphaWholeBytes(data: seq<byte>, index: nat)
    ensures GetAlpha(8, data, index) == RawBits(data, index)
  {
    assert Pow2(8) == 256;
  }

  lemma {:induction false} ShrBit(x: nat, k: nat)
    ensures Shr(x, k) % 2 == Bit(x, k)
  {
    if k > 0 {
      ShrBit(x / 2, k - 1);
    }
  }

  lemma AlphaSingleBits(data: seq<byte>, index: nat)
    ensures GetAlpha(1, data, index) == Bit(RawBits(data, index / 8), 7 - index % 8)
  {
    ShrBit(RawBits(data, index / 8), 7 - index % 8);
  }

  lemma AlphaNibblesOverlap()
    ensures GetAlpha(4, [0xF0], 0) == 8 && GetAlpha(4, [0xF0], 1) == 0
    ensures 16 * GetAlpha(4, [0xF0], 0) + GetAlpha(4, [0xF0], 1) != 0xF0
  {
    assert Pow2(4) == 16;
    assert Shr(0xF0, 1) == 0x78;
  }

  function FieldAlpha(alphaDepth: int, data: seq<byte>, index: nat): (a: int)
    requires alphaDepth == 0 || alphaDepth == 1 || alphaDepth == 2 || alphaDepth == 4 || alphaDepth == 8
    ensures alphaDepth == 0 ==> a == 1
    ensures alphaDepth > 0 ==> 0 <= a < Pow2(alphaDepth)
  {
    if alphaDepth == 0 then 1
    else
      var b := RawBits(data, index * alphaDepth / 8);
      var valsPerByte := 8 / alphaDepth;
      Shr(b, alphaDepth * (valsPerByte - index % valsPerByte - 1)) % Pow2(alphaDepth)
  }

  lemma FieldAlphaAgrees(alphaDepth: int, data: seq<byte>, index: nat)
    requires alphaDepth == 0 || alphaDepth == 1 || alphaDepth == 8
    ensures FieldAlpha(alphaDepth, data, index) == GetAlpha(alphaDepth, data, index)
  {
  }

  lemma ShrSmall(b: nat)
    ensures Shr(b, 2) == b / 4 && Shr(b, 4) == b / 16 && Shr(b, 6) == b / 64
  {
    ShrTwo(b);
    ShrTwo(b / 4);
    ShrTwo(b / 16);
    ShrAdd(b, 2, 2);
    ShrAdd(b, 4, 2);
  }

  lemma {:induction false} ShrAdd(x: nat, m: nat, n: nat)
    ensures Shr(x, m + n) == Shr(Shr(x, m), n)
  {
    if m > 0 {
      ShrAdd(x / 2, m - 1, n);
    }
  }

  lemma ShrTwo(b: nat)
    ensures Shr(b, 2) == b / 4
  {
    assert Shr(b, 2) == Shr(b / 2, 1) == Shr(b / 2 / 2, 0);
  }

  lemma FieldAlphaNibbles(data: seq<byte>, j: nat)
    ensures 16 * FieldAlpha(4, data, 2 * j) + FieldAlpha(4, data, 2 * j + 1) == RawBits(data, j)
  {
    var b := RawBits(data, j);
    ShrSmall(b);
    assert Pow2(4) == 16;
    assert FieldAlpha(4, data, 2 * j) == b / 16 % 16 by {
      assert (2 * j) * 4 / 8 == j && (2 * j) % 2 == 0;
    }
    assert FieldAlpha(4, data, 2 * j + 1) == b % 16 by {
      assert (2 * j + 1) * 4 / 8 == j && (2 * j + 1) % 2 == 1;
    }
  }

  lemma FieldAlphaPairs(data: seq<byte>, j: nat)
    ensures 64 * FieldAlpha(2, data, 4 * j) + 16 * FieldAlpha(2, data, 4 * j + 1)
          + 4 * FieldAlpha(2, data, 4 * j + 2) + FieldAlpha(2, data, 4 * j + 3) == RawBits(data, j)
  {
    var b := RawBits(data, j);
    ShrSmall(b);
    PairField(data, j, 0);
    PairField(data, j, 1);
    PairField(data, j, 2);
    PairField(data, j, 3);
    ByteOfPairs(b);
  }

  lemma ByteOfPairs(b: byte)
    ensures 64 * (b / 64 % 4) + 16 * (b / 16 % 4) + 4 * (b / 4 % 4) + b % 4 == b
  {
    assert b / 16 == 4 * (b / 64) + b / 16 % 4;
    assert b / 4 == 4 * (b / 16) + b / 4 % 4;
  }

  /** Pixel `4 * j + k` of a two-bit alpha is field k of byte j, counted from
      the top. */
  lemma PairField(data: seq<byte>, j: nat, k: nat)
    requires k < 4
    ensures FieldAlpha(2, data, 4 * j + k) == Shr(RawBits(data, j), 2 * (3 - k)) % 4
  {
    assert Pow2(2) == 4;
    assert (4 * j + k) * 2 / 8 == j && (4 * j + k) % 4 == k;
  }

  // ---------------------------------------------------------------------------
  // The RGBA bytes of the image

  /** `width * rows`, the start of row `rows` counted in pixels, built up one
      row at a time. */
  function RowStart(width: nat, rows: nat): nat {
    if rows == 0 then 0 else RowStart(width, rows - 1) + width
  }

  lemma {:induction false} RowStartIsProduct(width: nat, rows: nat)
    ensures RowStart(width, rows) == width * rows
  {
    if rows > 0 {
      RowStartIsProduct(width, rows - 1);
    }
  }

  /** A later row starts at least a whole row further on. */
  lemma {:induction false} RowStartGrows(width: nat, a: nat, b: nat)
    requires a < b
    ensures RowStart(width, a) + width <= RowStart(width, b)
    decreases b - a
  {
    if a + 1 < b {
      RowStartGrows(width, a + 1, b);
    }
  }

  /** `4 * (width * sY + sX) + i`: channel `i` of pixel (sX, sY). */
  function PixelIndex(width: nat, sx: nat, sy: nat, c: nat): nat {
    4 * (RowStart(width, sy) + sx) + c
  }

  /** The length of `imageData.data`, `4 * width * height`. */
  function ImageSize(width: nat, height: nat): nat {
    4 * RowStart(width, height)
  }

  /** Channel `c` of pixel (sx, sy) is one of the image's; its byte is then
      inside `imageData.data`. */
  predicate InImage(width: nat, height: nat, sx: nat, sy: nat, c: nat)
    ensures InImage(width, height, sx, sy, c) ==> PixelIndex(width, sx, sy, c) < ImageSize(width, height)
  {
    sx < width && sy < height && c < 4 && (PixelInImage(width, height, sx, sy, c); true)
  }

  /** Every channel of every pixel is a byte of the image. */
  lemma PixelInImage(width: nat, height: nat, sx: nat, sy: nat, c: nat)
    requires sx < width && sy < height && c < 4
    ensures PixelIndex(width, sx, sy, c) < ImageSize(width, height)
  {
    RowStartGrows(width, sy, height);
  }

  /** The four bytes of pixel (sx, sy) hold channel c of pixel (tx, ty) exactly
      when the two pixels are the same one. */
  lemma SamePixel(width: nat, sx: nat, sy: nat, tx: nat, ty: nat, c: nat)
    requires sx < width && tx < width && c < 4
    ensures PixelIndex(width, sx, sy, 0) <= PixelIndex(width, tx, ty, c) < PixelIndex(width, sx, sy, 0) + 4
        <==> tx == sx && ty == sy
  {
    if ty < sy {
      RowStartGrows(width, ty, sy);
    } else if sy < ty {
      RowStartGrows(width, sy, ty);
    }
  }

  /** The innermost loop of the copy: the four numbers at `blockPos` go into
      pixel (sx, sy), stored as a Uint8ClampedArray stores them; no other byte
      changes. */
  method CopyPixel(data: array<byte>, width: nat, height: nat, sx: nat, sy: nat, block: seq<Fraction>, blockPos: nat)
    requires data.Length == ImageSize(width, height) && sx < width && sy < height
    requires blockPos + 4 <= |block|
    modifies data
    ensures forall tx: nat, ty: nat, c: nat :: InImage(width, height, tx, ty, c) ==>
      data[PixelIndex(width, tx, ty, c)] ==
        if tx == sx && ty == sy then Clamp(block[blockPos + c]) else old(data[PixelIndex(width, tx, ty, c)])
  {
    var pixel := 4 * (RowStart(width, sy) + sx);
    PixelInImage(width, height, sx, sy, 3);
    for i := 0 to 4
      invariant forall j :: 0 <= j < data.Length ==>
        data[j] == if pixel <= j < pixel + i then Clamp(block[blockPos + (j - pixel)]) else old(data[j])
    {
      data[pixel + i] := Clamp(block[blockPos + i]);
    }
    forall tx: nat, ty: nat, c: nat | InImage(width, height, tx, ty, c)
      ensures data[PixelIndex(width, tx, ty, c)] ==
        if tx == sx && ty == sy then Clamp(block[blockPos + c]) else old(data[PixelIndex(width, tx, ty, c)])
    {
      PixelInImage(width, height, tx, ty, c);
      SamePixel(width, sx, sy, tx, ty, c);
    }
  }

  /** Row `pY` of a block at (x, y): the pixels of the row that are inside the
      image get their four numbers, the ones past the right or bottom edge are
      left out, and no other byte changes. */
  method CopyBlockRow(data: array<byte>, width: nat, height: nat, x: nat, y: nat, pY: nat, block: seq<Fraction>)
    requires data.Length == ImageSize(width, height) && |block| == 64 && pY < 4
    modifies data
    ensures forall tx: nat, ty: nat, c: nat :: InImage(width, height, tx, ty, c) ==>
      data[PixelIndex(width, tx, ty, c)] ==
        if ty == y + pY && x <= tx < x + 4 then Clamp(block[4 * (4 * pY + (tx - x)) + c])
        else old(data[PixelIndex(width, tx, ty, c)])
  {
    var blockPos := 4 * (4 * pY);
    for pX := 0 to 4
      invariant blockPos == 4 * (4 * pY + pX)
      invariant forall tx: nat, ty: nat, c: nat :: InImage(width, height, tx, ty, c) ==>
        data[PixelIndex(width, tx, ty, c)] ==
          if ty == y + pY && x <= tx < x + pX then Clamp(block[4 * (4 * pY + (tx - x)) + c])
          else old(data[PixelIndex(width, tx, ty, c)])
    {
      var sX := x + pX;
      var sY := y + pY;
      if sX < width && sY < height {
        CopyPixel(data, width, height, sX, sY, block, blockPos);
      }
      blockPos := blockPos + 4;
    }
  }

  /** The copy of a block to (x, y): every pixel of the 4x4 square that is
      inside the image gets the block's numbers for its place in the block,
      and every other byte of the image is left as it was. */
  method CopyBlock(data: array<byte>, width: nat, height: nat, x: nat, y: nat, block: seq<Fraction>)
    requires data.Length == ImageSize(width, height) && |block| == 64
    modifies data
    ensures forall tx: nat, ty: nat, c: nat :: InImage(width, height, tx, ty, c) ==>
      data[PixelIndex(width, tx, ty, c)] ==
        if y <= ty < y + 4 && x <= tx < x + 4 then Clamp(block[4 * (4 * (ty - y) + (tx - x)) + c])
        else old(data[PixelIndex(width, tx, ty, c)])
  {
    for pY := 0 to 4
      invariant forall tx: nat, ty: nat, c: nat :: InImage(width, height, tx, ty, c) ==>
        data[PixelIndex(width, tx, ty, c)] ==
          if y <= ty < y + pY && x <= tx < x + 4 then Clamp(block[4 * (4 * (ty - y) + (tx - x)) + c])
          else old(data[PixelIndex(width, tx, ty, c)])
    {
      CopyBlockRow(data, width, height, x, y, pY, block);
    }
  }

  // ---------------------------------------------------------------------------
  // The block loops

  /** `pos` when the loops reach block `k`, blocks numbered row by row: it
      moves on by the block size after every decoded block and stays where it
      is once it equals the length of the mip bytes. */
  function PosAt(length: nat, blockSize: nat, k: nat): nat {
    if k == 0 then 0
    else
      var p := PosAt(length, blockSize, k - 1);
      if p == length then p else p + blockSize
  }

  /** Blocks are read back to back until `pos` meets the end exactly; when the
      length is not a multiple of the block size it never does, and the blocks
      past the end are decoded from missing bytes. */
  lemma {:induction false} PosAtValue(length: nat, blockSize: nat, k: nat)
    requires blockSize == 8 || blockSize == 16
    ensures PosAt(length, blockSize, k) ==
      if length % blockSize == 0 && length / blockSize <= k then length else k * blockSize
  {
    if k > 0 {
      PosAtValue(length, blockSize, k - 1);
      assert (k - 1) * blockSize + blockSize == k * blockSize;
      if blockSize == 8 {
        assert (k - 1) * 8 == length <==> length % 8 == 0 && length / 8 == k - 1;
      } else {
        assert (k - 1) * 16 == length <==> length % 16 == 0 && length / 16 == k - 1;
      }
    }
  }

  /** A skipped block is followed by skipped blocks only. */
  lemma {:induction false} SkipPersists(length: nat, blockSize: nat, k: nat, m: nat)
    requires k <= m && PosAt(length, blockSize, k) == length
    ensures PosAt(length, blockSize, m) == length
    decreases m - k
  {
    if k < m {
      SkipPersists(length, blockSize, k + 1, m);
    }
  }

  /** The number of blocks in a row: the width divided by 4, rounded up. */
  function BlocksPerRow(width: nat): nat {
    (width + 3) / 4
  }

  /** The number of the block that holds pixel (sx, sy). */
  function BlockNumber(width: nat, sx: nat, sy: nat): nat {
    RowStart(BlocksPerRow(width), sy / 4) + sx / 4
  }

  /** What getCompressed leaves in channel `c` of pixel (sx, sy): the number at
      the pixel's place in its block, decoded from where `pos` stood when the
      loops reached that block; or the byte as it was if that block was
      skipped. */
  function CompressedPixel(raw: seq<byte>, v: Variant, width: nat, sx: nat, sy: nat, c: nat, before: byte): byte
    requires c < 4
  {
    var pos := PosAt(|raw|, BlockSize(v), BlockNumber(width, sx, sy));
    if pos == |raw| then before else Clamp(Block(raw, pos, v)[4 * (4 * (sy % 4) + sx % 4) + c])
  }

  /** Mip bytes enough for every block of the image: pixel (sx, sy) comes from
      the block `BlockNumber(width, sx, sy)` blocks into the bytes, whatever
      the image held before. */
  lemma FullMipDecoded(raw: seq<byte>, v: Variant, width: nat, height: nat, sx: nat, sy: nat, c: nat, before: byte)
    requires InImage(width, height, sx, sy, c)
    requires |raw| >= BlockSize(v) * RowStart(BlocksPerRow(width), BlocksPerRow(height))
    ensures CompressedPixel(raw, v, width, sx, sy, c, before) ==
      Clamp(Block(raw, BlockSize(v) * BlockNumber(width, sx, sy), v)[4 * (4 * (sy % 4) + sx % 4) + c])
  {
    var n := BlockNumber(width, sx, sy);
    var cols := BlocksPerRow(width);
    var total := RowStart(cols, BlocksPerRow(height));
    RowStartGrows(cols, sy / 4, BlocksPerRow(height));
    assert n + 1 <= total;
    EnoughBlocks(|raw|, BlockSize(v), n, total);
  }

  /** With bytes for `total` blocks, block n < total is read from n blocks in. */
  lemma EnoughBlocks(length: nat, bs: nat, n: nat, total: nat)
    requires bs == 8 || bs == 16
    requires n + 1 <= total && length >= bs * total
    ensures PosAt(length, bs, n) == bs * n && bs * n != length
  {
    PosAtValue(length, bs, n);
    if bs == 8 {
      assert length >= 8 * n + 8;
    } else {
      assert length >= 16 * n + 16;
    }
  }

  /** A pixel of the block at (x, y), numbered k, holds what block k decodes to
      at its offset from (x, y), or what it held before when block k is
      skipped. */
  lemma PixelOfBlock(raw: seq<byte>, v: Variant, width: nat, x: nat, y: nat, tx: nat, ty: nat, c: nat, before: byte)
    requires x % 4 == 0 && y % 4 == 0 && x <= tx < x + 4 && y <= ty < y + 4 && c < 4
    ensures var pos := PosAt(|raw|, BlockSize(v), RowStart(BlocksPerRow(width), y / 4) + x / 4);
      CompressedPixel(raw, v, width, tx, ty, c, before) ==
        if pos == |raw| then before else Clamp(Block(raw, pos, v)[4 * (4 * (ty - y) + (tx - x)) + c])
  {
    SameBlock(x, tx);
    SameBlock(y, ty);
    assert BlockNumber(width, tx, ty) == RowStart(BlocksPerRow(width), y / 4) + x / 4;
  }

  /** A coordinate up to three past a multiple of 4 lies in that one's block. */
  lemma SameBlock(x: nat, tx: nat)
    requires x % 4 == 0 && x <= tx < x + 4
    ensures tx / 4 == x / 4 && tx % 4 == tx - x
  {
  }

  lemma NextColumn(x: nat, width: nat)
    requires x % 4 == 0 && x < width
    ensures x + 4 <= 4 * BlocksPerRow(width) && (x + 4) / 4 == x / 4 + 1
  {
  }

  /** One turn of the inner loop: the block at (x, y) is skipped when `pos`
      equals the length of the mip bytes, and otherwise decoded at `pos` and
      copied; `pos` then moves on by the block size. */
  method CompressedBlock(raw: seq<byte>, v: Variant, data: array<byte>, width: nat, height: nat, x: nat, y: nat, pos0: nat)
    returns (pos: nat)
    requires data.Length == ImageSize(width, height) && x % 4 == 0 && y % 4 == 0
    requires pos0 == PosAt(|raw|, BlockSize(v), RowStart(BlocksPerRow(width), y / 4) + x / 4)
    modifies data
    ensures pos == PosAt(|raw|, BlockSize(v), RowStart(BlocksPerRow(width), y / 4) + x / 4 + 1)
    ensures forall tx: nat, ty: nat, c: nat :: InImage(width, height, tx, ty, c) ==>
      data[PixelIndex(width, tx, ty, c)] ==
        if y <= ty < y + 4 && x <= tx < x + 4 then CompressedPixel(raw, v, width, tx, ty, c, old(data[PixelIndex(width, tx, ty, c)]))
        else old(data[PixelIndex(width, tx, ty, c)])
  {
    pos := pos0;
    if |raw| != pos {
      var block := Block(raw, pos, v);
      CopyBlock(data, width, height, x, y, block);
      forall tx: nat, ty: nat, c: nat | InImage(width, height, tx, ty, c) && y <= ty < y + 4 && x <= tx < x + 4
        ensures CompressedPixel(raw, v, width, tx, ty, c, old(data[PixelIndex(width, tx, ty, c)]))
             == Clamp(block[4 * (4 * (ty - y) + (tx - x)) + c])
      {
        PixelOfBlock(raw, v, width, x, y, tx, ty, c, old(data[PixelIndex(width, tx, ty, c)]));
      }
      pos := pos + BlockSize(v);
    } else {
      forall tx: nat, ty: nat, c: nat | InImage(width, height, tx, ty, c) && y <= ty < y + 4 && x <= tx < x + 4
        ensures CompressedPixel(raw, v, width, tx, ty, c, old(data[PixelIndex(width, tx, ty, c)]))
             == old(data[PixelIndex(width, tx, ty, c)])
      {
        PixelOfBlock(raw, v, width, x, y, tx, ty, c, old(data[PixelIndex(width, tx, ty, c)]));
      }
    }
  }

  /** The loop over the blocks of one row, at height y. */
  method CompressedRow(raw: seq<byte>, v: Variant, data: array<byte>, width: nat, height: nat, y: nat, pos0: nat)
    returns (pos: nat)
    requires data.Length == ImageSize(width, height) && y % 4 == 0
    requires pos0 == PosAt(|raw|, BlockSize(v), RowStart(BlocksPerRow(width), y / 4))
    modifies data
    ensures pos == PosAt(|raw|, BlockSize(v), RowStart(BlocksPerRow(width), y / 4) + BlocksPerRow(width))
    ensures forall tx: nat, ty: nat, c: nat :: InImage(width, height, tx, ty, c) ==>
      data[PixelIndex(width, tx, ty, c)] ==
        if y <= ty < y + 4 then CompressedPixel(raw, v, width, tx, ty, c, old(data[PixelIndex(width, tx, ty, c)]))
        else old(data[PixelIndex(width, tx, ty, c)])
  {
    pos := pos0;
    var x := 0;
    ghost var k := RowStart(BlocksPerRow(width), y / 4);
    while x < width
      invariant x % 4 == 0 && x <= 4 * BlocksPerRow(width)
      invariant k == RowStart(BlocksPerRow(width), y / 4) + x / 4
      invariant pos == PosAt(|raw|, BlockSize(v), k)
      invariant forall tx: nat, ty: nat, c: nat :: InImage(width, height, tx, ty, c) ==>
        data[PixelIndex(width, tx, ty, c)] ==
          if y <= ty < y + 4 && tx < x then CompressedPixel(raw, v, width, tx, ty, c, old(data[PixelIndex(width, tx, ty, c)]))
          else old(data[PixelIndex(width, tx, ty, c)])
    {
      pos := CompressedBlock(raw, v, data, width, height, x, y, pos);
      NextColumn(x, width);
      x := x + 4;
      k := k + 1;
    }
  }

  /** `getCompressed`: every pixel of the image ends up as its block's number
      for its place, or as it was where its block was skipped. */
  method GetCompressed(raw: seq<byte>, alphaDepth: int, format: int, data: array<byte>, width: nat, height: nat)
    requires data.Length == ImageSize(width, height)
    modifies data
    ensures forall tx: nat, ty: nat, c: nat :: InImage(width, height, tx, ty, c) ==>
      data[PixelIndex(width, tx, ty, c)] ==
        CompressedPixel(raw, VariantOf(alphaDepth, format), width, tx, ty, c, old(data[PixelIndex(width, tx, ty, c)]))
  {
    var flags := VariantOf(alphaDepth, format);
    var pos := 0;
    var y := 0;
    while y < height
      invariant y % 4 == 0
      invariant pos == PosAt(|raw|, BlockSize(flags), RowStart(BlocksPerRow(width), y / 4))
      invariant forall tx: nat, ty: nat, c: nat :: InImage(width, height, tx, ty, c) ==>
        data[PixelIndex(width, tx, ty, c)] ==
          if ty < y then CompressedPixel(raw, flags, width, tx, ty, c, old(data[PixelIndex(width, tx, ty, c)]))
          else old(data[PixelIndex(width, tx, ty, c)])
    {
      pos := CompressedRow(raw, flags, data, width, height, y, pos);
      assert (y + 4) / 4 == y / 4 + 1;
      y := y + 4;
    }
  }
}
