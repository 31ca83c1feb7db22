/** The fixed-layout MPQ records (src/formats/mpq/structs.ts): the 32-byte archive
    header and the two 16-byte table entries, every field little-endian. */
module MpqStructs {
  import opened Bytes

  datatype Header = Header(
    magic: seq<byte>,
    headerSize: int,
    archiveSize: int,
    formatVersion: int,
    sectorSizeShift: int,
    hashTableOffset: int,
    blockTableOffset: int,
    hashTableEntries: int,
    blockTableEntries: int)

  datatype HashEntry = HashEntry(hashA: int, hashB: int, locale: int, platform: int, blockTableIndex: int)

  datatype BlockEntry = BlockEntry(offset: int, archivedSize: int, size: int, flags: int)

  predicate IsU16(x: int) { 0 <= x < Two16 }
  predicate IsU32(x: int) { 0 <= x < Two32 }

  /** Header fields as the decoder produces them: four magic bytes, 16- and 32-bit unsigned numbers. */
  predicate WellFormedHeader(h: Header) {
    |h.magic| == 4 && IsU32(h.headerSize) && IsU32(h.archiveSize) && IsU16(h.formatVersion)
    && IsU16(h.sectorSizeShift) && IsU32(h.hashTableOffset) && IsU32(h.blockTableOffset)
    && IsU32(h.hashTableEntries) && IsU32(h.blockTableEntries)
  }

  predicate WellFormedHashEntry(e: HashEntry) {
    IsU32(e.hashA) && IsU32(e.hashB) && IsU16(e.locale) && IsU16(e.platform) && IsU32(e.blockTableIndex)
  }

  predicate WellFormedBlockEntry(e: BlockEntry) {
    IsU32(e.offset) && IsU32(e.archivedSize) && IsU32(e.size) && IsU32(e.flags)
  }

  /** MPQFileHeader's constructor: the magic is the first four bytes. */
  function DecodeHeader(data: seq<byte>): (h: Header)
    requires |data| >= 32
    ensures WellFormedHeader(h)
    ensures h.magic == data[..4]
  {
    Header(data[..4], U32At(data, 4), U32At(data, 8), U16At(data, 12), U16At(data, 14),
      U32At(data, 16), U32At(data, 20), U32At(data, 24), U32At(data, 28))
  }

  /** MPQHashTableEntry's constructor at byte `pos`. */
  function DecodeHashEntry(data: seq<byte>, pos: nat): (e: HashEntry)
    requires pos + 16 <= |data|
    ensures WellFormedHashEntry(e)
  {
    HashEntry(U32At(data, pos), U32At(data, pos + 4), U16At(data, pos + 8), U16At(data, pos + 10), U32At(data, pos + 12))
  }

  /** MPQBlockTableEntry's constructor at byte `pos`. */
  function DecodeBlockEntry(data: seq<byte>, pos: nat): (e: BlockEntry)
    requires pos + 16 <= |data|
    ensures WellFormedBlockEntry(e)
  {
    BlockEntry(U32At(data, pos), U32At(data, pos + 4), U32At(data, pos + 8), U32At(data, pos + 12))
  }

  // ---------------------------------------------------------------------------
  // The writing side, as an independent definition of the layout

  function EncodeHeader(h: Header): (r: seq<byte>)
    requires WellFormedHeader(h)
    ensures |r| == 32
  {
    h.magic + Le32(h.headerSize) + Le32(h.archiveSize) + Le16(h.formatVersion) + Le16(h.sectorSizeShift)
    + Le32(h.hashTableOffset) + Le32(h.blockTableOffset) + Le32(h.hashTableEntries) + Le32(h.blockTableEntries)
  }

  function EncodeHashEntry(e: HashEntry): (r: seq<byte>)
    requires WellFormedHashEntry(e)
    ensures |r| == 16
  {
    Le32(e.hashA) + Le32(e.hashB) + Le16(e.locale) + Le16(e.platform) + Le32(e.blockTableIndex)
  }

  function EncodeBlockEntry(e: BlockEntry): (r: seq<byte>)
    requires WellFormedBlockEntry(e)
    ensures |r| == 16
  {
    Le32(e.offset) + Le32(e.archivedSize) + Le32(e.size) + Le32(e.flags)
  }

  /** A uint32 written between two other pieces is read back at the length of the first. */
  lemma Field32(pre: seq<byte>, x: int, post: seq<byte>)
    requires IsU32(x)
    ensures U32At(pre + Le32(x) + post, |pre|) == x
  {
    var s := pre + Le32(x) + post;
    assert s[|pre|..|pre| + 4] == Le32(x);
    Le32Read(s, |pre|, x);
  }

  /** The same for a uint16. */
  lemma Field16(pre: seq<byte>, x: int, post: seq<byte>)
    requires IsU16(x)
    ensures U16At(pre + Le16(x) + post, |pre|) == x
  {
    var s := pre + Le16(x) + post;
    assert s[|pre|..|pre| + 2] == Le16(x);
    Le16Read(s, |pre|, x);
  }

  /** The magic and the four fields before the table positions. */
  lemma HeaderFront(h: Header)
    requires WellFormedHeader(h)
    ensures var s := EncodeHeader(h);
      && s[..4] == h.magic && U32At(s, 4) == h.headerSize && U32At(s, 8) == h.archiveSize
      && U16At(s, 12) == h.formatVersion && U16At(s, 14) == h.sectorSizeShift
  {
    var s := EncodeHeader(h);
    var m, f1, f2 := h.magic, Le32(h.headerSize), Le32(h.archiveSize);
    var f3, f4 := Le16(h.formatVersion), Le16(h.sectorSizeShift);
    var back := Le32(h.hashTableOffset) + Le32(h.blockTableOffset) + Le32(h.hashTableEntries) + Le32(h.blockTableEntries);
    assert s == m + f1 + f2 + f3 + f4 + back;
    assert s[..4] == m;
    assert s == m + f1 + (f2 + f3 + f4 + back);
    Field32(m, h.headerSize, f2 + f3 + f4 + back);
    assert s == (m + f1) + f2 + (f3 + f4 + back);
    Field32(m + f1, h.archiveSize, f3 + f4 + back);
    assert s == (m + f1 + f2) + f3 + (f4 + back);
    Field16(m + f1 + f2, h.formatVersion, f4 + back);
    assert s == (m + f1 + f2 + f3) + f4 + back;
    Field16(m + f1 + f2 + f3, h.sectorSizeShift, back);
  }

  /** The four table fields at 16 to 28. */
  lemma HeaderBack(h: Header)
    requires WellFormedHeader(h)
    ensures var s := EncodeHeader(h);
      && U32At(s, 16) == h.hashTableOffset && U32At(s, 20) == h.blockTableOffset
      && U32At(s, 24) == h.hashTableEntries && U32At(s, 28) == h.blockTableEntries
  {
    var s := EncodeHeader(h);
    var front := h.magic + Le32(h.headerSize) + Le32(h.archiveSize) + Le16(h.formatVersion) + Le16(h.sectorSizeShift);
    var f5, f6 := Le32(h.hashTableOffset), Le32(h.blockTableOffset);
    var f7, f8 := Le32(h.hashTableEntries), Le32(h.blockTableEntries);
    assert s == front + f5 + f6 + f7 + f8;
    assert s == front + f5 + (f6 + f7 + f8);
    Field32(front, h.hashTableOffset, f6 + f7 + f8);
    assert s == (front + f5) + f6 + (f7 + f8);
    Field32(front + f5, h.blockTableOffset, f7 + f8);
    assert s == (front + f5 + f6) + f7 + f8;
    Field32(front + f5 + f6, h.hashTableEntries, f8);
    assert s == (front + f5 + f6 + f7) + f8 + [];
    Field32(front + f5 + f6 + f7, h.blockTableEntries, []);
  }

  /** The header decoder reads every field at the offset the layout gives it. */
  lemma HeaderRoundTrip(h: Header)
    requires WellFormedHeader(h)
    ensures DecodeHeader(EncodeHeader(h)) == h
  {
    HeaderFront(h);
    HeaderBack(h);
  }

  /** A hash entry stored anywhere in a buffer decodes back to itself. */
  lemma HashEntryRoundTrip(e: HashEntry, before: seq<byte>, after: seq<byte>)
    requires WellFormedHashEntry(e)
    ensures DecodeHashEntry(before + EncodeHashEntry(e) + after, |before|) == e
  {
    var s := before + EncodeHashEntry(e) + after;
    var p := |before|;
    assert s[p..p + 16] == EncodeHashEntry(e);
    Le32Read(s, p, e.hashA);
    Le32Read(s, p + 4, e.hashB);
    Le16Read(s, p + 8, e.locale);
    Le16Read(s, p + 10, e.platform);
    Le32Read(s, p + 12, e.blockTableIndex);
  }

  /** A block entry stored anywhere in a buffer decodes back to itself. */
  lemma BlockEntryRoundTrip(e: BlockEntry, before: seq<byte>, after: seq<byte>)
    requires WellFormedBlockEntry(e)
    ensures DecodeBlockEntry(before + EncodeBlockEntry(e) + after, |before|) == e
  {
    var s := before + EncodeBlockEntry(e) + after;
    var p := |before|;
    assert s[p..p + 16] == EncodeBlockEntry(e);
    Le32Read(s, p, e.offset);
    Le32Read(s, p + 4, e.archivedSize);
    Le32Read(s, p + 8, e.size);
    Le32Read(s, p + 12, e.flags);
  }

  /** The entry decoders look only at the sixteen bytes of their record. */
  lemma {:induction false} EntryReadsOwnBytes(s: seq<byte>, t: seq<byte>, p: nat, q: nat)
    requires p + 16 <= |s| && q + 16 <= |t|
    requires s[p..p + 16] == t[q..q + 16]
    ensures DecodeHashEntry(s, p) == DecodeHashEntry(t, q)
    ensures DecodeBlockEntry(s, p) == DecodeBlockEntry(t, q)
  {
    forall k | p <= k < p + 16
      ensures s[k] == t[k - p + q]
    {
      assert s[k] == s[p..p + 16][k - p];
    }
  }
}
