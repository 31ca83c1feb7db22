/** The archive engine of src/formats/mpq/mpq.ts: opening an archive (`readHeader`),
    finding a file by its two name hashes (`getFileEntry`, `exists`) and reading
    it back sector by sector (`extract`, `decompressSector`). The archive is the
    byte sequence the file holds; the two decompressors are given functions. */
module MpqArchive {
  import opened Results
  import opened Bytes
  import opened MpqStructs
  import opened MpqCrypto
  import opened Text

  /** "MPQ\x1a": the only header magic accepted. */
  const MpqMagic: seq<byte> := [0x4D, 0x50, 0x51, 0x1A]

  // The block flags consulted by `extract` (MpqFlags).
  const EncryptedFlag: int := 0x0001_0000
  const EncryptionFixFlag: int := 0x0002_0000
  const SingleUnitFlag: int := 0x0100_0000
  const CrcFlag: int := 0x0400_0000
  const ExistsFlag: int := 0x8000_0000

  // The codec tags of a compressed sector (MpqCompressionType).
  const ZlibTag: int := 0x02
  const PkWareTag: int := 0x08

  /** A decompressor: the foreign zlib or PKWare implode decoder, None when it throws. */
  type Codec = seq<byte> -> Option<seq<byte>>

  // ---------------------------------------------------------------------------
  // Reading the archive

  /** `read(offset, count)`: `count` bytes from `offset`. Bytes past the end of the
      file are left as allocated; the model reads them as zero. */
  function ReadAt(file: seq<byte>, offset: nat, count: nat): (r: seq<byte>)
    ensures |r| == count
    ensures offset + count <= |file| ==> r == file[offset..offset + count]
    ensures forall k :: 0 <= k < count && offset + k >= |file| ==> r[k] == 0
  {
    seq(count, k requires 0 <= k < count => if offset + k < |file| then file[offset + k] else 0)
  }

  // ---------------------------------------------------------------------------
  // Opening: header checks, the two tables deciphered and decoded

  /** What `readHeader` leaves behind: the header, the hash map keyed on
      (hashB, hashA) and the block list. */
  datatype Tables = Tables(header: Header, hashTable: map<(int, int), HashEntry>, blockTable: seq<BlockEntry>)

  /** The source keys its map on the string `${hashB}.${hashA}`, which two different
      pairs of numbers never share; the pair itself is the key here. */
  function HashKey(e: HashEntry): (int, int) {
    (e.hashB, e.hashA)
  }

  /** The map built by setting the first `n` entries of a decoded hash table in order. */
  function HashMapOf(buf: seq<byte>, n: nat): (m: map<(int, int), HashEntry>)
    requires 16 * n <= |buf|
  {
    if n == 0 then map[]
    else
      var e := DecodeHashEntry(buf, 16 * (n - 1));
      HashMapOf(buf, n - 1)[HashKey(e) := e]
  }

  /** The first `n` block entries of a decoded block table, in order. */
  function BlockEntries(buf: seq<byte>, n: nat): (bs: seq<BlockEntry>)
    requires 16 * n <= |buf|
    ensures |bs| == n
    ensures forall j :: 0 <= j < n ==> bs[j] == DecodeBlockEntry(buf, 16 * j)
  {
    if n == 0 then [] else BlockEntries(buf, n - 1) + [DecodeBlockEntry(buf, 16 * (n - 1))]
  }

  /** A table of `entries` records at `offset`, deciphered with the table-flavour hash of `name`. */
  function TableBytes(file: seq<byte>, offset: nat, entries: nat, name: string): (r: seq<byte>)
    requires Hash(name, TableKey).Ok?
    ensures |r| == 16 * entries
  {
    var buf := ReadAt(file, offset, 16 * entries);
    DecryptedBytes(buf, Hash(name, TableKey).value, 0, |buf|)
  }

  /** `readHeader`: the magic and the format version are checked, then both tables are
      read, deciphered in full and decoded. */
  function Opened(file: seq<byte>): (r: Result<Tables>)
    ensures r.Ok? ==> forall j :: 0 <= j < |r.value.blockTable| ==> Sizes(r.value.blockTable[j])
  {
    var h := DecodeHeader(ReadAt(file, 0, 32));
    if h.magic != MpqMagic then Err(FormatError)
    else if h.formatVersion != 0 then Err(FormatError)
    else
      TableKeysHash();
      var hashBuf := TableBytes(file, h.hashTableOffset, h.hashTableEntries, HashTableName);
      var blockBuf := TableBytes(file, h.blockTableOffset, h.blockTableEntries, BlockTableName);
      Ok(Tables(h, HashMapOf(hashBuf, h.hashTableEntries), BlockEntries(blockBuf, h.blockTableEntries)))
  }

  /** An archive opens exactly when it starts with the magic and stores format version 0. */
  lemma OpenedIff(file: seq<byte>)
    ensures Opened(file).Ok? <==>
      |file| >= 4 && file[..4] == MpqMagic && U16At(ReadAt(file, 0, 32), 12) == 0
    ensures Opened(file).Err? ==> Opened(file).error == FormatError
  {
    var buf := ReadAt(file, 0, 32);
    if |file| < 4 {
      assert buf[|file|] == 0 && MpqMagic[|file|] != 0;
      assert buf[..4] != MpqMagic;
    } else {
      assert buf[..4] == file[..4];
    }
  }

  /** Setting the entries one after the other keeps every key that some entry carries. */
  lemma {:induction false} HashMapHasEntry(buf: seq<byte>, n: nat, j: nat)
    requires 16 * n <= |buf| && j < n
    ensures HashKey(DecodeHashEntry(buf, 16 * j)) in HashMapOf(buf, n)
  {
    if j < n - 1 {
      HashMapHasEntry(buf, n - 1, j);
    }
  }

  /** A key present in the map comes from an entry, and from the last entry that
      carries it: a later duplicate overwrites an earlier one. */
  lemma {:induction false} HashMapLastWins(buf: seq<byte>, n: nat, key: (int, int)) returns (j: nat)
    requires 16 * n <= |buf| && key in HashMapOf(buf, n)
    ensures j < n && HashKey(DecodeHashEntry(buf, 16 * j)) == key
    ensures HashMapOf(buf, n)[key] == DecodeHashEntry(buf, 16 * j)
    ensures forall k :: j < k < n ==> HashKey(DecodeHashEntry(buf, 16 * k)) != key
  {
    var last := DecodeHashEntry(buf, 16 * (n - 1));
    if HashKey(last) == key {
      j := n - 1;
    } else {
      j := HashMapLastWins(buf, n - 1, key);
    }
  }

  // ---------------------------------------------------------------------------
  // Finding a file

  /** `getFileEntry`: the archive is opened, the name's HashA and HashB flavours
      are computed (either can throw), and the pair is looked up. */
  function FileEntry(t: Tables, name: string): Result<Option<HashEntry>> {
    var a :- Hash(name, HashA);
    var b :- Hash(name, HashB);
    Ok(if (b, a) in t.hashTable then Some(t.hashTable[(b, a)]) else None)
  }

  // ---------------------------------------------------------------------------
  // Extracting a file

  /** The decoder's guarantee for the fields `extract` computes with; the flags may
      turn negative once `extract` has cleared a bit (`&` yields a signed int32). */
  predicate Sizes(b: BlockEntry) {
    IsU32(b.offset) && IsU32(b.archivedSize) && IsU32(b.size)
  }

  /** `(flags & F) == F` on a JavaScript number. */
  predicate HasFlag(flags: int, f: int) {
    JsAnd(flags, f) == f
  }

  /** The bitwise xor of two non-negative BigInts. */
  function BigXor(a: nat, b: nat): (r: nat)
    decreases a + b
  {
    if a == 0 && b == 0 then 0 else (a % 2 + b % 2) % 2 + 2 * BigXor(a / 2, b / 2)
  }

  /** The EncryptionFix adjustment of a key: (key + offset) xor size, unmasked. */
  function AdjustKey(k: Result<int>, b: BlockEntry): (r: Result<int>)
    requires Sizes(b) && (k.Ok? ==> k.value >= 0)
    ensures r.Ok? ==> r.value >= 0
  {
    var key :- k;
    if HasFlag(b.flags, EncryptionFixFlag) then Ok(BigXor(key + b.offset, b.size)) else Ok(key)
  }

  /** The key of an encrypted file: the table-flavour hash of its base name
      (`decryptionKey`), adjusted when the file has EncryptionFix. */
  function FileKey(name: string, b: BlockEntry): (r: Result<int>)
    requires Sizes(b)
    ensures r.Ok? ==> r.value >= 0
  {
    AdjustKey(Hash(BaseName(name), TableKey), b)
  }

  /** `512 << sectorSizeShift` as a signed 32-bit shift. */
  function SectorSize(shift: int): int {
    JsShl(512, shift)
  }

  /** `Math.ceil(size / sectorSize)`; a zero sector size makes it Infinity. */
  datatype SectorCount = Finite(n: int) | Infinite

  function SectorCountOf(size: nat, ss: int): (c: SectorCount)
    ensures c.Infinite? <==> ss == 0
    ensures ss < 0 ==> c.n <= 0
  {
    if ss == 0 then Infinite
    else if ss > 0 then Finite((size + ss - 1) / ss)
    else Finite(-(size / -ss))
  }

  /** With a positive sector size the sectors cover the file and the last one is
      not empty. */
  lemma SectorCountCovers(size: nat, ss: int)
    requires ss > 0
    ensures var n := SectorCountOf(size, ss).n;
      n * ss >= size && (n - 1) * ss < size
  {
  }

  /** The `size` the sector offset table is deciphered with: (sectors + 1) * 4. For
      Infinity any size with more words than the buffer holds behaves the same
      (every whole word is deciphered, then the next read throws). */
  function OffsetTableSize(c: SectorCount, len: nat): int {
    match c
    case Finite(n) => (n + 1) * 4
    case Infinite => 4 * (len / 4 + 1)
  }

  /** The per-file values the sector loop uses. */
  datatype SectorParams = SectorParams(encrypted: bool, key: int, sectorSize: int, archivedSize: nat)

  /** The two decompressors. */
  datatype Codecs = Codecs(inflate: Codec, explode: Codec)

  /** The file's bytes (deciphered in place as the loop goes) and the output buffer. */
  datatype SectorState = SectorState(data: seq<byte>, out: seq<byte>)

  /** `decompressSector`: the first byte picks the codec, which gets the rest of the
      sector; a byte past the end of the buffer reads as `undefined`. */
  function DecompressSector(data: seq<byte>, offset: nat, size: int, codecs: Codecs): (r: Result<seq<byte>>)
    ensures r.Ok? ==> offset < |data|
    ensures r.Ok? ==> var body := Slice(data, offset + 1, offset + size);
      || (data[offset] == PkWareTag && codecs.explode(body) == Some(r.value))
      || (data[offset] == ZlibTag && codecs.inflate(body) == Some(r.value))
    ensures offset >= |data| ==> r == Err(UnsupportedCompression(None))
  {
    var tag := if offset < |data| then Some(data[offset] as int) else None;
    var body := Slice(data, offset + 1, offset + size);
    if tag == Some(PkWareTag) then
      (match codecs.explode(body) case Some(out) => Ok(out) case None => Err(CodecFailed))
    else if tag == Some(ZlibTag) then
      (match codecs.inflate(body) case Some(out) => Ok(out) case None => Err(CodecFailed))
    else Err(UnsupportedCompression(tag))
  }

  /** The sector deciphered in place with `key` when the file is encrypted. */
  function DecipherSector(data: seq<byte>, key: int, cur: nat, css: int, encrypted: bool): (r: seq<byte>)
    ensures |r| == |data|
  {
    if encrypted then DecryptedBytes(data, key, cur, css) else data
  }

  /** The sector placed at i * sectorSize in the output: copied verbatim when it
      fills a whole sector, decompressed otherwise. */
  function PlaceSector(data: seq<byte>, out: seq<byte>, i: nat, cur: nat, css: int, ss: nat, codecs: Codecs): (r: Result<seq<byte>>)
    requires cur <= |data|
    ensures r.Ok? ==> |r.value| == |out|
  {
    if css == ss then Ok(CopyInto(out, i * ss, data, cur, cur + ss))
    else
      var bytes :- DecompressSector(data, cur, css, codecs);
      Ok(CopyInto(out, i * ss, bytes, 0, |bytes|))
  }

  /** The three consistency checks on a sector's offsets, any of which throws. */
  predicate SectorCorrupt(cur: int, next: int, p: SectorParams) {
    next < cur || next - cur > p.sectorSize || cur > p.archivedSize
  }

  /** One turn of the sector loop, once both offset words are inside the buffer:
      the offsets are checked, then the sector is read. */
  function ReadSector(st: SectorState, i: nat, p: SectorParams, codecs: Codecs): (r: Result<SectorState>)
    requires 4 * i + 8 <= |st.data| == p.archivedSize && p.sectorSize >= 0
    ensures r.Ok? ==> |r.value.data| == |st.data| && |r.value.out| == |st.out|
  {
    var cur := U32At(st.data, 4 * i);
    var next := U32At(st.data, 4 * i + 4);
    if SectorCorrupt(cur, next, p) then Err(CorruptArchive)
    else ReadSectorBody(st, i, p.key + i, cur, next - cur, p.encrypted, p.sectorSize, codecs)
  }

  /** A sector that passed the checks: deciphered with `key` (the file key + i)
      when the file is encrypted, throwing if that runs past the buffer, then
      placed in the output. */
  function ReadSectorBody(st: SectorState, i: nat, key: int, cur: nat, css: int, encrypted: bool, ss: nat,
                          codecs: Codecs): (r: Result<SectorState>)
    requires cur <= |st.data|
    ensures r.Ok? ==> |r.value.data| == |st.data| && |r.value.out| == |st.out|
  {
    if encrypted && !DecryptFits(|st.data|, cur, css) then Err(RangeError)
    else
      var data := DecipherSector(st.data, key, cur, css, encrypted);
      var out :- PlaceSector(data, st.out, i, cur, css, ss, codecs);
      Ok(SectorState(data, out))
  }

  /** The sector loop from sector `i` on; reading an offset word past the end of the
      buffer throws. */
  function SectorsFrom(st: SectorState, i: nat, count: SectorCount, p: SectorParams, codecs: Codecs): (r: Result<SectorState>)
    requires |st.data| == p.archivedSize
    requires p.sectorSize >= 0 || (count.Finite? && count.n <= i)
    ensures r.Ok? ==> |r.value.out| == |st.out|
    decreases |st.data| - 4 * i
  {
    if count.Finite? && i >= count.n then Ok(st)
    else if 4 * i + 8 > |st.data| then Err(RangeError)
    else
      var next :- ReadSector(st, i, p, codecs);
      SectorsFrom(next, i + 1, count, p, codecs)
  }

  /** One turn of the sector loop: sector `i` read, then the rest from the state
      it leaves. */
  lemma SectorsFromNext(st: SectorState, i: nat, count: SectorCount, p: SectorParams, codecs: Codecs)
    requires 4 * i + 8 <= |st.data| == p.archivedSize && p.sectorSize >= 0
    requires count.Infinite? || i < count.n
    ensures var next := ReadSector(st, i, p, codecs);
      SectorsFrom(st, i, count, p, codecs)
      == if next.Ok? then SectorsFrom(next.value, i + 1, count, p, codecs) else Err(next.error)
  {
  }

  /** Whether `extract` gets past its early returns to the sector loop (the Exists
      test is written out as the source has it). */
  predicate ReadsSectors(b: BlockEntry) {
    !HasFlag(b.flags, ExistsFlag) && b.archivedSize != 0 && b.size > 1
  }

  /** The sector loop of `extract` over the `archivedSize` bytes at `offset`: the
      sector offset table deciphered with key - 1 when the file is encrypted, then
      every sector read into an output buffer of `size` bytes. */
  function ExtractSectors(file: seq<byte>, b: BlockEntry, encrypted: bool, key: int, ss: int, codecs: Codecs)
    : (r: Result<seq<byte>>)
    requires Sizes(b)
    ensures r.Ok? ==> |r.value| == b.size
  {
    var count := SectorCountOf(b.size, ss);
    var data := ReadAt(file, b.offset, b.archivedSize);
    if encrypted && !DecryptFits(|data|, 0, OffsetTableSize(count, |data|)) then Err(RangeError)
    else
      var table := if encrypted then DecryptedBytes(data, key - 1, 0, OffsetTableSize(count, |data|)) else data;
      var st :- SectorsFrom(SectorState(table, Zeros(b.size)), 0, count,
                            SectorParams(encrypted, key, ss, b.archivedSize), codecs);
      Ok(st.out)
  }

  /** `extract` once the block entry is found: the early returns, then the sectors. */
  function ExtractBlock(file: seq<byte>, shift: int, b: BlockEntry, name: string, codecs: Codecs)
    : (r: Result<Option<seq<byte>>>)
    requires Sizes(b)
    ensures r.Ok? && r.value.Some? && ReadsSectors(b) ==> |r.value.value| == b.size
  {
    if HasFlag(b.flags, ExistsFlag) then Ok(None)
    else if b.archivedSize == 0 then Ok(Some([]))
    else if b.size <= 1 then Ok(Some([0]))
    else
      var out :- BlockSectors(file, shift, b, name, codecs);
      Ok(Some(out))
  }

  /** The rest of `extract`: the unsupported flags (checked as `flags & F`, truthy
      when non-zero), the key, then the sector loop. */
  function BlockSectors(file: seq<byte>, shift: int, b: BlockEntry, name: string, codecs: Codecs)
    : (r: Result<seq<byte>>)
    requires Sizes(b)
    ensures r.Ok? ==> |r.value| == b.size
  {
    if JsAnd(b.flags, SingleUnitFlag) != 0 || JsAnd(b.flags, CrcFlag) != 0 then Err(UnsupportedFeature)
    else
      var key :- BlockKey(name, b);
      ExtractSectors(file, b, HasFlag(b.flags, EncryptedFlag), key, SectorSize(shift), codecs)
  }

  /** The key the sectors are read with: the file key when the file is encrypted,
      -1 (never used) otherwise. */
  function BlockKey(name: string, b: BlockEntry): (r: Result<int>)
    requires Sizes(b)
    ensures r.Ok? && HasFlag(b.flags, EncryptedFlag) ==> r.value >= 0
  {
    if HasFlag(b.flags, EncryptedFlag) then FileKey(name, b) else Ok(-1)
  }

  /** What `extract` returns, and the block table it leaves (the entry's Encrypted
      bit is cleared once its sectors are read). */
  datatype Extracted = Extracted(data: Option<seq<byte>>, blockTable: seq<BlockEntry>)

  function ClearEncrypted(b: BlockEntry): BlockEntry {
    b.(flags := JsAnd(b.flags, JsNot(EncryptedFlag)))
  }

  /** Bit 16 of `~Encrypted` as a 32-bit pattern is clear. */
  lemma EncryptedMaskBit()
    ensures Bit(0xFFFE_FFFF, 16) == 0
  {
    assert Bit(0xFFFE, 0) == 0;
    assert Bit(0xF_FFEF, 4) == 0;
    assert Bit(0xFF_FEFF, 8) == 0;
    assert Bit(0xFFF_EFFF, 12) == 0;
  }

  /** `flags & ~Encrypted` no longer carries the Encrypted bit, whatever the flags were. */
  lemma ClearEncryptedClears(b: BlockEntry)
    ensures !HasFlag(ClearEncrypted(b).flags, EncryptedFlag)
  {
    var lf := Low32(b.flags);
    assert Low32(JsNot(EncryptedFlag)) == 0xFFFE_FFFF;
    var a := BitAnd(lf, 0xFFFE_FFFF, 32);
    Pow2At32();
    Low32ToInt32(a);
    BitAndBit(lf, 0xFFFE_FFFF, 32, 16);
    EncryptedMaskBit();
    BitAndPow2(a, 16, 32);
    assert Low32(EncryptedFlag) == Pow2(16);
  }

  /** `extract(name)` on an opened archive. */
  function ExtractEntry(file: seq<byte>, t: Tables, name: string, codecs: Codecs): (r: Result<Extracted>)
    requires forall j :: 0 <= j < |t.blockTable| ==> Sizes(t.blockTable[j])
    ensures r.Ok? ==> |r.value.blockTable| == |t.blockTable|
    ensures r.Ok? ==> forall j :: 0 <= j < |r.value.blockTable| ==> Sizes(r.value.blockTable[j])
  {
    var entry :- FileEntry(t, name);
    if entry.None? then Ok(Extracted(None, t.blockTable))
    else
      var idx := entry.value.blockTableIndex;
      if !(0 <= idx < |t.blockTable|) then Ok(Extracted(None, t.blockTable))
      else
        var b := t.blockTable[idx];
        var data :- ExtractBlock(file, t.header.sectorSizeShift, b, name, codecs);
        Ok(Extracted(data, if ReadsSectors(b) then t.blockTable[idx := ClearEncrypted(b)] else t.blockTable))
  }
}
