/** The header of a BLP2 texture, src/formats/blp/blp.ts: the "BLP2" keyword,
    version 1, four single-byte fields, the size of the largest image, and
    sixteen mip slots of which the ones with a non-zero offset are levels of
    the image. A paletted image carries a 256-entry BGRA palette after them. */
module BlpHeader {
  import opened Results
  import opened Bytes
  import opened BinaryReader

  const NotBlp := "Not a blp image - "
  const InvalidVersion := "Invalid version"

  /** BLPColorEncoding. */
  const Palette := 1
  const Dxt := 2

  /** The number of mip slots, and the palette's size in bytes. */
  const MipSlots := 16
  const PaletteBytes := 256 * 4

  datatype MipMap = MipMap(offset: int, size: int)

  datatype Header = Header(
    encoding: int,
    alphaDepth: int,
    format: int,
    width: int,
    height: int,
    mipmaps: seq<MipMap>,
    palette: seq<int>)

  /** The levels among the first `n` slots, in slot order. */
  function MipMaps(offsets: seq<int>, sizes: seq<int>, n: nat): (r: seq<MipMap>)
    requires n <= |offsets| && n <= |sizes|
    ensures |r| <= n
  {
    if n == 0 then []
    else MipMaps(offsets, sizes, n - 1) + (if offsets[n - 1] != 0 then [MipMap(offsets[n - 1], sizes[n - 1])] else [])
  }

  /** `slots` are the slot numbers below `n` whose offset is not zero, in
      increasing order. */
  ghost predicate NonZeroSlots(offsets: seq<int>, n: nat, slots: seq<nat>)
    requires n <= |offsets|
  {
    && (forall k, l :: 0 <= k < l < |slots| ==> slots[k] < slots[l])
    && (forall k :: 0 <= k < |slots| ==> slots[k] < n && offsets[slots[k]] != 0)
    && (forall j {:trigger j in slots} :: 0 <= j < n && offsets[j] != 0 ==> j in slots)
  }

  /** `mipmaps` pairs each of `slots` with its size. */
  ghost predicate Paired(offsets: seq<int>, sizes: seq<int>, slots: seq<nat>, mipmaps: seq<MipMap>)
  {
    && |mipmaps| == |slots|
    && (forall k :: 0 <= k < |slots| ==>
          slots[k] < |offsets| && slots[k] < |sizes| && mipmaps[k] == MipMap(offsets[slots[k]], sizes[slots[k]]))
  }

  /** The slots with a non-zero offset, in order. */
  ghost function Slots(offsets: seq<int>, n: nat): seq<nat>
    requires n <= |offsets|
  {
    if n == 0 then [] else Slots(offsets, n - 1) + (if offsets[n - 1] != 0 then [n - 1] else [])
  }

  lemma {:induction false} SlotsInOrder(offsets: seq<int>, n: nat)
    requires n <= |offsets|
    ensures NonZeroSlots(offsets, n, Slots(offsets, n))
  {
    if n > 0 && offsets[n - 1] != 0 {
      SlotsInOrder(offsets, n - 1);
      var slots := Slots(offsets, n - 1);
      var more := slots + [n - 1];
      assert Slots(offsets, n) == more;
      forall k, l | 0 <= k < l < |more|
        ensures more[k] < more[l]
      {
        if l == |slots| {
          assert more[k] == slots[k];
        }
      }
      forall j | 0 <= j < n && offsets[j] != 0
        ensures j in more
      {
        if j == n - 1 {
          assert more[|slots|] == j;
        } else {
          assert j in slots;
        }
      }
    } else if n > 0 {
      SlotsInOrder(offsets, n - 1);
      assert Slots(offsets, n) == Slots(offsets, n - 1);
    }
  }

  lemma {:induction false} SlotsPaired(offsets: seq<int>, sizes: seq<int>, n: nat)
    requires n <= |offsets| && n <= |sizes|
    ensures Paired(offsets, sizes, Slots(offsets, n), MipMaps(offsets, sizes, n))
  {
    if n > 0 {
      SlotsPaired(offsets, sizes, n - 1);
      SlotsInOrder(offsets, n - 1);
    }
  }

  /** The list of levels holds exactly the slots with a non-zero offset, in
      order, each with the size at the same index. */
  lemma MipMapsAreSlots(offsets: seq<int>, sizes: seq<int>, n: nat)
    requires n <= |offsets| && n <= |sizes|
    ensures exists slots :: NonZeroSlots(offsets, n, slots) && Paired(offsets, sizes, slots, MipMaps(offsets, sizes, n))
  {
    SlotsInOrder(offsets, n);
    SlotsPaired(offsets, sizes, n);
    var slots := Slots(offsets, n);
    assert NonZeroSlots(offsets, n, slots) && Paired(offsets, sizes, slots, MipMaps(offsets, sizes, n));
  }

  /** What the constructor makes of a file: the keyword must be "BLP2" and the
      version 1; encoding, alphaDepth, format and mipsType are single bytes at
      8 to 11, width and height uint32s at 12 and 16, the sixteen mip offsets
      at 20 and their sizes at 84, and a paletted image's palette at 148. A
      read past the end throws a RangeError. */
  function HeaderOf(s: seq<byte>): Result<Header>
  {
    if WordAt(s, 0) != "BLP2" then Err(BadData(NotBlp + WordAt(s, 0)))
    else if !InBounds(s, 4, 4) then Err(RangeError)
    else if U32At(s, 4) != 1 then Err(BadData(InvalidVersion))
    else if !InBounds(s, 8, 140) then Err(RangeError)
    else if s[8] == Palette && !InBounds(s, 148, PaletteBytes) then Err(RangeError)
    else
      var offsets := seq(MipSlots, k requires 0 <= k < MipSlots => U32At(s, 20 + 4 * k));
      var sizes := seq(MipSlots, k requires 0 <= k < MipSlots => U32At(s, 84 + 4 * k));
      Ok(Header(s[8], s[9], s[10], U32At(s, 12), U32At(s, 16), MipMaps(offsets, sizes, MipSlots),
                if s[8] == Palette then s[148..148 + PaletteBytes] else []))
  }

  /** A file is accepted exactly when it starts with the bytes of "BLP2" and
      version 1, is long enough for the 148-byte header and, when paletted, for
      the palette after it. */
  lemma HeaderAccepted(s: seq<byte>)
    ensures HeaderOf(s).Ok? <==>
      && |s| >= 148 && s[..4] == [0x42, 0x4C, 0x50, 0x32] && U32At(s, 4) == 1
      && (s[8] == Palette ==> |s| >= 148 + PaletteBytes)
  {
    if |s| >= 4 {
      WordAtBytes(s, 0);
      assert WordAt(s, 0) == "BLP2" <==> s[..4] == [0x42, 0x4C, 0x50, 0x32];
    }
  }

  /** The loop over the mip slots: a level is pushed for every non-zero offset. */
  method CollectMipMaps(offsets: seq<int>, sizes: seq<int>) returns (mipmaps: seq<MipMap>)
    requires |offsets| <= |sizes|
    ensures mipmaps == MipMaps(offsets, sizes, |offsets|)
  {
    mipmaps := [];
    var i := 0;
    while i < |offsets|
      invariant 0 <= i <= |offsets|
      invariant mipmaps == MipMaps(offsets, sizes, i)
    {
      if offsets[i] != 0 {
        mipmaps := mipmaps + [MipMap(offsets[i], sizes[i])];
      }
      i := i + 1;
    }
  }

  /** The sixteen uint32s of a slot array starting at `p`. */
  lemma SlotArray(s: seq<byte>, p: int)
    requires InBounds(s, p, 64)
    ensures var o := ReadNumbers(s, p, UInt32, MipSlots);
      && o.result == Ok(seq(MipSlots, k requires 0 <= k < MipSlots => U32At(s, p + 4 * k)))
      && o.pos == p + 64
  {
    ReadNumbersLayout(s, p, UInt32, MipSlots);
    var o := ReadNumbers(s, p, UInt32, MipSlots);
    assert o.result.value == seq(MipSlots, k requires 0 <= k < MipSlots => U32At(s, p + 4 * k));
  }

  /** The four bytes and two uint32s after the version, read at 8. */
  method ReadFields(reader: Reader) returns (r: Result<(int, int, int, int, int)>)
    requires reader.pos == 8
    modifies reader
    ensures r.Ok? <==> InBounds(reader.buffer, 8, 12)
    ensures r.Err? ==> r.error == RangeError
    ensures r.Ok? ==> var s := reader.buffer;
      r.value == (s[8], s[9], s[10], U32At(s, 12), U32At(s, 16)) && reader.pos == 20
  {
    var encoding :- reader.Number(UInt8);
    var alphaDepth :- reader.Number(UInt8);
    var format :- reader.Number(UInt8);
    var mipsType :- reader.Number(UInt8);
    var width :- reader.Number(UInt32);
    var height :- reader.Number(UInt32);
    return Ok((encoding, alphaDepth, format, width, height));
  }

  /** The two slot arrays, read at 20. */
  method ReadSlots(reader: Reader) returns (r: Result<(seq<int>, seq<int>)>)
    requires reader.pos == 20
    modifies reader
    ensures r.Ok? <==> InBounds(reader.buffer, 20, 128)
    ensures r.Err? ==> r.error == RangeError
    ensures r.Ok? ==> var s := reader.buffer;
      && r.value.0 == seq(MipSlots, k requires 0 <= k < MipSlots => U32At(s, 20 + 4 * k))
      && r.value.1 == seq(MipSlots, k requires 0 <= k < MipSlots => U32At(s, 84 + 4 * k))
      && reader.pos == 148
  {
    ReadNumbersLayout(reader.buffer, 20, UInt32, MipSlots);
    var offsets :- reader.Numbers(UInt32, MipSlots);
    ReadNumbersLayout(reader.buffer, 84, UInt32, MipSlots);
    var sizes :- reader.Numbers(UInt32, MipSlots);
    SlotArray(reader.buffer, 20);
    SlotArray(reader.buffer, 84);
    return Ok((offsets, sizes));
  }

  /** The palette of a paletted image, read at 148; none for the others. */
  method ReadPalette(reader: Reader, encoding: int) returns (r: Result<seq<int>>)
    requires reader.pos == 148
    modifies reader
    ensures r.Ok? <==> encoding != Palette || InBounds(reader.buffer, 148, PaletteBytes)
    ensures r.Err? ==> r.error == RangeError
    ensures r.Ok? ==> r.value == if encoding == Palette then reader.buffer[148..148 + PaletteBytes] else []
  {
    if encoding != Palette {
      return Ok([]);
    }
    ReadNumbersLayout(reader.buffer, 148, UInt8, PaletteBytes);
    var palette :- reader.Numbers(UInt8, PaletteBytes);
    return Ok(palette);
  }

  /** The constructor's reads, one after the other on a fresh reader. */
  method ReadHeader(buffer: seq<byte>) returns (r: Result<Header>)
    ensures r == HeaderOf(buffer)
  {
    var reader := new Reader(buffer);
    var word := reader.Keyword();
    if word != "BLP2" {
      return Err(BadData(NotBlp + word));
    }
    var version :- reader.Number(UInt32);
    if version != 1 {
      return Err(BadData(InvalidVersion));
    }
    var fields :- ReadFields(reader);
    var (encoding, alphaDepth, format, width, height) := fields;
    var slots :- ReadSlots(reader);
    var (offsets, sizes) := slots;
    var mipmaps := CollectMipMaps(offsets, sizes);
    var palette :- ReadPalette(reader, encoding);
    return Ok(Header(encoding, alphaDepth, format, width, height, mipmaps, palette));
  }
}
