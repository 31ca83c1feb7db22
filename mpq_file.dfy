/** The `MpqFile` class of src/formats/mpq/mpq.ts: an archive whose header and
    tables are read on first use and kept, looked up by name and read back file
    by file. The archive's bytes stand for the file handle; every method is
    proved to compute what the functions of MpqArchive describe. */
module Mpq {
  import opened Results
  import opened Bytes
  import opened MpqStructs
  import opened MpqCrypto
  import opened MpqArchive

  class MpqFile {
    /** The path the archive was opened with. */
    const fileName: string
    /** The bytes of the archive on disk. */
    const file: seq<byte>
    /** The zlib and PKWare decoders. */
    const codecs: Codecs
    /** `_header`: set by the first successful `readHeader`. */
    var header: Option<Header>
    var hashTable: map<(int, int), HashEntry>
    var blockTable: seq<BlockEntry>

    /** The header and hash map, once read, are those of the archive; every block
        entry keeps 32-bit sizes. */
    ghost predicate Valid()
      reads this
    {
      && (header.Some? ==>
            Opened(file).Ok? && header.value == Opened(file).value.header
            && hashTable == Opened(file).value.hashTable)
      && (forall j :: 0 <= j < |blockTable| ==> Sizes(blockTable[j]))
    }

    /** The tables every operation works on: those already read, or those the
        first read will produce (or its error). */
    ghost function Loaded(): (r: Result<Tables>)
      requires Valid()
      reads this
      ensures r.Ok? ==> forall j :: 0 <= j < |r.value.blockTable| ==> Sizes(r.value.blockTable[j])
    {
      if header.Some? then Ok(Tables(header.value, hashTable, blockTable)) else Opened(file)
    }

    constructor(fileName: string, file: seq<byte>, codecs: Codecs)
      ensures Valid() && this.fileName == fileName && this.file == file && this.codecs == codecs
      ensures header == None && Loaded() == Opened(file)
    {
      this.fileName := fileName;
      this.file := file;
      this.codecs := codecs;
      header := None;
      hashTable := map[];
      blockTable := [];
    }

    /** `read(offset, byteCount)`: a fresh buffer of the bytes at `offset`. */
    method Read(offset: nat, count: nat) returns (buf: array<byte>)
      ensures fresh(buf) && buf[..] == ReadAt(file, offset, count)
    {
      var f := file;
      buf := new byte[count](k => if 0 <= k && offset + k < |f| then f[offset + k] else 0);
    }

    /** `readHeader`: the header checked, both tables read, deciphered in place and
        decoded; the two tables are stored only once everything has been read. */
    method ReadHeader() returns (r: Result<Header>)
      modifies this
      ensures Opened(file).Err? ==> r == Err(Opened(file).error) && unchanged(this)
      ensures Opened(file).Ok? ==>
        && r == Ok(Opened(file).value.header)
        && hashTable == Opened(file).value.hashTable
        && blockTable == Opened(file).value.blockTable
      ensures header == old(header)
    {
      var t := ReadTables();
      if t.Err? {
        return Err(t.error);
      }
      blockTable := t.value.blockTable;
      hashTable := t.value.hashTable;
      r := Ok(t.value.header);
    }

    /** The reading and checking part of `readHeader`. */
    method ReadTables() returns (r: Result<Tables>)
      ensures r == Opened(file)
    {
      var headerBuf := Read(0, 32);
      var h := DecodeHeader(headerBuf[..]);
      if h.magic != MpqMagic {
        return Err(FormatError);
      }
      if h.formatVersion != 0 {
        return Err(FormatError);
      }
      TableKeysHash();
      var hashBuf := ReadTable(h.hashTableOffset, h.hashTableEntries, HashTableName);
      var blockBuf := ReadTable(h.blockTableOffset, h.blockTableEntries, BlockTableName);
      var blocks := DecodeBlocks(blockBuf, h.blockTableEntries);
      var hashes := DecodeHashes(hashBuf, h.hashTableEntries);
      r := Ok(Tables(h, hashes, blocks));
    }

    /** One table read at `offset` and deciphered in place with the hash of `name`. */
    method ReadTable(offset: nat, entries: nat, name: string) returns (buf: array<byte>)
      requires Hash(name, TableKey).Ok?
      ensures fresh(buf) && buf[..] == TableBytes(file, offset, entries, name)
    {
      buf := Read(offset, entries * 16);
      var key := ComputeHash(name, TableKey);
      var _ := Decrypt(buf, key.value, 0, buf.Length);
    }

    /** The block table loop: one entry per 16 bytes, in order. */
    static method DecodeBlocks(buf: array<byte>, entries: nat) returns (blocks: seq<BlockEntry>)
      requires 16 * entries <= buf.Length
      ensures blocks == BlockEntries(buf[..], entries)
    {
      blocks := [];
      var i := 0;
      while i < entries
        invariant 0 <= i <= entries
        invariant blocks == BlockEntries(buf[..], i)
      {
        blocks := blocks + [DecodeBlockEntry(buf[..], i * 16)];
        i := i + 1;
      }
    }

    /** The hash table loop: every entry set under (hashB, hashA), later ones overwriting. */
    static method DecodeHashes(buf: array<byte>, entries: nat) returns (m: map<(int, int), HashEntry>)
      requires 16 * entries <= buf.Length
      ensures m == HashMapOf(buf[..], entries)
    {
      m := map[];
      var i := 0;
      while i < entries
        invariant 0 <= i <= entries
        invariant m == HashMapOf(buf[..], i)
      {
        var entry := DecodeHashEntry(buf[..], i * 16);
        m := m[HashKey(entry) := entry];
        i := i + 1;
      }
    }

    /** The `header` getter: read once, then served from the field; a failed read
        leaves nothing behind and is retried next time. */
    method GetHeader() returns (r: Result<Header>)
      requires Valid()
      modifies this
      ensures Valid() && Loaded() == old(Loaded())
      ensures old(Loaded()).Err? ==> r == Err(old(Loaded()).error) && unchanged(this)
      ensures old(Loaded()).Ok? ==> r == Ok(old(Loaded()).value.header) && header.Some?
    {
      if header.Some? {
        return Ok(header.value);
      }
      r := ReadHeader();
      if r.Ok? {
        header := Some(r.value);
      }
    }

    /** `getFileEntry`: the header is made sure of, then the name's two hashes are
        looked up. */
    method GetFileEntry(name: string) returns (r: Result<Option<HashEntry>>)
      requires Valid()
      modifies this
      ensures Valid() && Loaded() == old(Loaded())
      ensures old(Loaded()).Err? ==> r == Err(old(Loaded()).error)
      ensures old(Loaded()).Ok? ==> r == FileEntry(old(Loaded()).value, name) && header.Some?
    {
      var h :- GetHeader();
      var hashA :- ComputeHash(name, HashA);
      var hashB :- ComputeHash(name, HashB);
      if (hashB, hashA) in hashTable {
        return Ok(Some(hashTable[(hashB, hashA)]));
      }
      return Ok(None);
    }

    /** `exists`: whether `getFileEntry` finds an entry. */
    method Exists(name: string) returns (r: Result<bool>)
      requires Valid()
      modifies this
      ensures Valid() && Loaded() == old(Loaded())
      ensures old(Loaded()).Err? ==> r == Err(old(Loaded()).error)
      ensures old(Loaded()).Ok? ==> var e := FileEntry(old(Loaded()).value, name);
        (e.Err? ==> r == Err(e.error)) && (e.Ok? ==> r == Ok(e.value.Some?))
    {
      var entry :- GetFileEntry(name);
      return Ok(entry.Some?);
    }

    /** `extract`: the entry looked up, the early returns and unsupported flags,
        the key, the sectors, and the Encrypted bit cleared on the stored entry. */
    method Extract(name: string) returns (r: Result<Option<seq<byte>>>)
      requires Valid()
      modifies this
      ensures Valid()
      ensures old(Loaded()).Err? ==> r == Err(old(Loaded()).error) && Loaded() == old(Loaded())
      ensures old(Loaded()).Ok? ==>
        var x := ExtractEntry(file, old(Loaded()).value, name, codecs);
        && (x.Err? ==> r == Err(x.error) && Loaded() == old(Loaded()))
        && (x.Ok? ==> r == Ok(x.value.data) && Loaded() == Ok(old(Loaded()).value.(blockTable := x.value.blockTable)))
    {
      var h :- GetHeader();
      var entry :- GetFileEntry(name);
      if entry.None? {
        return Ok(None);
      }
      var idx := entry.value.blockTableIndex;
      if !(0 <= idx < |blockTable|) {
        return Ok(None);
      }
      r := ExtractIndex(idx, h.sectorSizeShift, name);
    }

    /** `extract` once the entry names block `idx`: the early returns, the sectors,
        and the Encrypted bit cleared once they are read. */
    method ExtractIndex(idx: int, shift: int, name: string) returns (r: Result<Option<seq<byte>>>)
      requires Valid() && 0 <= idx < |blockTable|
      modifies this
      ensures Valid() && header == old(header) && hashTable == old(hashTable)
      ensures var b := old(blockTable)[idx];
        && r == ExtractBlock(file, shift, b, name, codecs)
        && blockTable == if r.Ok? && ReadsSectors(b) then old(blockTable)[idx := ClearEncrypted(b)] else old(blockTable)
    {
      var b := blockTable[idx];
      if HasFlag(b.flags, ExistsFlag) {
        return Ok(None);
      }
      if b.archivedSize == 0 {
        return Ok(Some([]));
      }
      if b.size <= 1 {
        return Ok(Some([0]));
      }
      var out :- ReadBlockSectors(b, shift, name);
      blockTable := blockTable[idx := ClearEncrypted(b)];
      return Ok(Some(out));
    }

    /** The part of `extract` past the early returns: the unsupported flags, the
        key (the name's hash, adjusted by EncryptionFix), then the sectors. */
    method ReadBlockSectors(b: BlockEntry, shift: int, name: string) returns (r: Result<seq<byte>>)
      requires Sizes(b)
      ensures r == BlockSectors(file, shift, b, name, codecs)
    {
      if JsAnd(b.flags, SingleUnitFlag) != 0 {
        return Err(UnsupportedFeature);
      }
      if JsAnd(b.flags, CrcFlag) != 0 {
        return Err(UnsupportedFeature);
      }
      var key :- ReadKey(b, name);
      r := ReadSectors(b, HasFlag(b.flags, EncryptedFlag), key, SectorSize(shift));
    }

    /** The key of `extract`: -1 unless the file is encrypted, then `decryptionKey`
        of the name, which EncryptionFix adjusts by the offset and size. */
    static method ReadKey(b: BlockEntry, name: string) returns (r: Result<int>)
      requires Sizes(b)
      ensures r == BlockKey(name, b)
    {
      if HasFlag(b.flags, EncryptedFlag) {
        var hash := DecryptionKey(name);
        r := AdjustKey(hash, b);
      } else {
        r := Ok(-1);
      }
    }

    /** The sector loop of `extract`: the offset table deciphered with key - 1, then
        each sector in turn until the count is reached or a read throws. */
    method ReadSectors(b: BlockEntry, encrypted: bool, key: int, sectorSize: int) returns (r: Result<seq<byte>>)
      requires Sizes(b)
      ensures r == ExtractSectors(file, b, encrypted, key, sectorSize, codecs)
    {
      var count := SectorCountOf(b.size, sectorSize);
      var data := Read(b.offset, b.archivedSize);
      if encrypted {
        var ok := Decrypt(data, key - 1, 0, OffsetTableSize(count, data.Length));
        if !ok {
          return Err(RangeError);
        }
      }
      var out := new byte[b.size](k => 0);
      assert out[..] == Zeros(b.size);
      var p := SectorParams(encrypted, key, sectorSize, b.archivedSize);
      var _ :- ReadSectorsFrom(data, out, count, p);
      return Ok(out[..]);
    }

    /** The loop itself, over the offset table in `data`, writing into `out`. */
    method ReadSectorsFrom(data: array<byte>, out: array<byte>, count: SectorCount, p: SectorParams) returns (r: Result<()>)
      requires data != out && data.Length == p.archivedSize && (p.sectorSize >= 0 || (count.Finite? && count.n <= 0))
      modifies data, out
      ensures SectorsFrom(SectorState(old(data[..]), old(out[..])), 0, count, p, codecs)
           == if r.Ok? then Ok(SectorState(data[..], out[..])) else Err(r.error)
    {
      ghost var start := SectorState(data[..], out[..]);
      var i := 0;
      while count.Infinite? || i < count.n
        invariant 4 * i <= data.Length
        invariant p.sectorSize >= 0 || (count.Finite? && count.n <= i)
        invariant SectorsFrom(SectorState(data[..], out[..]), i, count, p, codecs)
               == SectorsFrom(start, 0, count, p, codecs)
        decreases data.Length - 4 * i
      {
        if 4 * i + 8 > data.Length {
          return Err(RangeError);
        }
        SectorsFromNext(SectorState(data[..], out[..]), i, count, p, codecs);
        var step := ReadSectorAt(data, out, i, p);
        if step.Err? {
          return Err(step.error);
        }
        i := i + 1;
      }
      return Ok(());
    }

    /** One sector: its offsets checked, then read. */
    method ReadSectorAt(data: array<byte>, out: array<byte>, i: nat, p: SectorParams) returns (r: Result<()>)
      requires data != out && data.Length == p.archivedSize && 4 * i + 8 <= data.Length && p.sectorSize >= 0
      modifies data, out
      ensures ReadSector(SectorState(old(data[..]), old(out[..])), i, p, codecs)
           == if r.Ok? then Ok(SectorState(data[..], out[..])) else Err(r.error)
    {
      var cur := U32At(data[..], 4 * i);
      var next := U32At(data[..], 4 * i + 4);
      if SectorCorrupt(cur, next, p) {
        return Err(CorruptArchive);
      }
      r := ReadSectorBodyAt(data, out, i, p.key + i, cur, next - cur, p.encrypted, p.sectorSize);
    }

    /** A sector that passed the checks: deciphered in place with `key` (the
        file key + i) when the file is encrypted, then placed. */
    method ReadSectorBodyAt(data: array<byte>, out: array<byte>, i: nat, key: int, cur: nat, css: int,
                            encrypted: bool, sectorSize: nat) returns (r: Result<()>)
      requires data != out && cur <= data.Length
      modifies data, out
      ensures ReadSectorBody(SectorState(old(data[..]), old(out[..])), i, key, cur, css, encrypted, sectorSize, codecs)
           == if r.Ok? then Ok(SectorState(data[..], out[..])) else Err(r.error)
    {
      ghost var before := data[..];
      if encrypted {
        var ok := Decrypt(data, key, cur, css);
        if !ok {
          return Err(RangeError);
        }
      }
      assert data[..] == DecipherSector(before, key, cur, css, encrypted);
      r := PlaceSectorAt(data, out, i, cur, css, sectorSize);
    }

    /** Copied verbatim when the sector fills a whole sector, decompressed otherwise;
        the result lands at i * sectorSize. */
    method PlaceSectorAt(data: array<byte>, out: array<byte>, i: nat, cur: nat, css: int, sectorSize: nat)
      returns (r: Result<()>)
      requires data != out && cur <= data.Length
      modifies out
      ensures PlaceSector(data[..], old(out[..]), i, cur, css, sectorSize, codecs)
           == if r.Ok? then Ok(out[..]) else Err(r.error)
    {
      if css == sectorSize {
        CopyBytes(out, i * sectorSize, data, cur, cur + sectorSize);
        return Ok(());
      }
      var bytes :- DecompressSector(data[..], cur, css, codecs);
      var source := new byte[|bytes|](k requires 0 <= k < |bytes| => bytes[k]);
      assert source[..] == bytes;
      CopyBytes(out, i * sectorSize, source, 0, source.Length);
      return Ok(());
    }
  }
}
