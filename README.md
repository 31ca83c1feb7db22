# wow-mdx-viewer: MPQ archives, binary decoders and lookup tables in Dafny

This project models the data side of wow-mdx-viewer, a viewer for World of
Warcraft models, and proves properties of that model. It covers the MPQ archive
reader, the decoders that read what the archives hold (the binary cursor, the MDX
model parser, DBC tables and BLP2 textures), and the managers that build lookup
tables from DBC rows and route file requests to archives.

Numbers are unbounded integers. Every width, wrap-around and sign the source
relies on is written out. Strings are sequences of characters.

## The MPQ archive reader (`src/formats/mpq`)

- the 1280-word cipher table (`mpq_cipher_table.dfy`);
- the name hash, the in-place word stream cipher, and the file key with its
  EncryptionFix adjustment (`mpq_crypto.dfy`);
- `readHeader` with its memoised header, hash map and block list, `getFileEntry`
  and `exists` (`mpq_archive.dfy`, `mpq_file.dfy`);
- `extract`, with its sector offset table, sector checks, codec dispatch and the
  Encrypted bit cleared on the stored block entry (`mpq_extraction.dfy`,
  `mpq_file.dfy`);
- the three fixed-layout records (`mpq_structs.dfy`).

The archive is the byte sequence the file holds. The zlib and PKWare decoders are
given functions (`Codecs`).

The source's 32-bit behaviour is written out:
- `&`, `~` and `<<` on JavaScript numbers yield signed 32-bit values (`JsAnd`,
  `JsNot`, `JsShl`);
- the BigInt arithmetic of `hash` and `decrypt` is masked explicitly with `Low32`;
- the EncryptionFix key is left unmasked, as the source leaves it.

Quirks of the source that the model keeps as written:
- The Exists test of `extract` never fires: `flags & 0x80000000` is a negative
  int32 and never equals 2^31 (`MpqExtraction.ExistsTestNeverFires`).
- The EncryptionFix key `(key + offset) ^ size` is a BigInt and is not masked, so
  the cipher's first seed can exceed 32 bits. The offset table key `key - 1` can
  be -1.
- `512 << sectorSizeShift` is an int32 shift, and JavaScript takes the shift
  count modulo 32 (`sectorSizeShift` is a uint16, so it can exceed 31):
  - it is 512 · 2^(shift % 32) for `shift % 32` from 0 to 21;
  - it is -2^31 when `shift % 32` is 22, so the sector count is at most 0, no
    sector is read, and the output buffer is returned without any byte written
    into it;
  - it is 0 when `shift % 32` is 23 to 31, which makes the sector count
    Infinity, so the loop always throws.
- A sector whose stored size is not exactly the sector size always goes through
  the codec its first byte names. The Compressed and Implode flags are never
  consulted.
- The Encrypted bit is cleared on the stored block entry after a successful
  extract. A second extract of the same file therefore reads the sectors without
  deciphering them (`MpqExtraction.ExtractAgainReadsCiphertext`).

## The decoders

- **The cursor** (`src/formats/reader.ts`, `reader.dfy`): a `Reader` object whose
  methods advance `pos`. Each method is proved equal to a function of the buffer
  and the old position (`ReadNumbers`, `StrAt`, `ReadKeys`, `ReadAnimVector`).
  The lemmas beside them state the layout: which bytes a read needs, where it
  leaves the cursor, and the `animVector` default rules. A float is its 32-bit
  pattern, and a packed quaternion is its eight bytes.
- **DBC tables** (`src/formats/dbc/dbc.ts`, `dbc.dfy`): the constructor copies the
  record block and the string block into fresh arrays. `Buffer.copy` throws a
  RangeError when its source start lies past the end of the file, so a file
  whose record block runs past its end is rejected. The string block reads
  zeros past the end of the file. `int`, `bool` and `string` read the record
  block. `Dbc.Rows` is the
  `for (let i = 0; i < rowCount; i++)` loop that every manager runs over a table,
  stopping at the first row that throws.
- **BLP2 textures** (`src/formats/blp/blp.ts`):
  - `blp_header.dfy`: the constructor's header checks and reads, and the mip list;
  - `blp_pixels.dfy`: `decompressColour`, the DXT colour and alpha tables, and the
    2-bit and 3-bit index unpacking;
  - `blp_image.dfy`: `getAlpha` and the `getCompressed` block loop with its clipped
    copy into `imageData.data`.

  `ImageData` stores numbers into a `Uint8ClampedArray`. The interpolated DXT
  colours are fractions with denominator 2 or 3, kept exact and stored with that
  array's round-half-to-even clamping (`Clamp`). A fraction with denominator 3 is
  never within a float's rounding error of a half, so this is what the doubles
  of the source store too.
- **MDX models** (`src/formats/mdx/modelreader.ts`):
  - `mdx_model.dfy`: the model's values and the pure pieces (node storage by
    ObjectId, the MATS group fill, the bone lookup, face padding);
  - `mdx_chunks.dfy`: `parseNode`, `parseVersion`, `parseTextures`,
    `parsePivotPoints`, `parseGlobalSequences` and `parseHitTestShapes`;
  - `mdx_geosets_old.dfy` and `mdx_geosets_new.dfy`: the two geoset layouts;
  - `mdx_reader.dfy`: `read`, with the magic, the chunk loop, the keyword
    dispatch and the pivot loop.

  Every parser is a method on the shared `Reader`, proved equal to a function
  from the buffer and a start position to a value and an end position
  (`Lift(Outcome(r, reader.pos)) == XAt(buffer, old(pos))`). The chunk parsers
  that are not modelled are one given function, `Parser`.

  A hit-test shape is the same object that `parseNode` stores in
  `model.Nodes`, so the pivot loop reaches it. Nodes are values here. Each
  carries `origin`, the buffer position its record starts at, which stands for
  the object's identity. A shape gets a pivot when the node stored under its
  ObjectId equals its own, origin included.

## The managers (`src/managers`)

- `manager_consts.dfy`: `CharVariation` with `setTexture` and `getTexture`;
  `TextureVariation` with `set`, `get` and `toString`; and the first-occurrence
  de-duplication by `toString` that the item and creature managers share.
- `manager_character.dfy`: the hair and facial hair geoset maps, the two model
  map builders, the choice between them, and the name normalisations.
- `manager_item.dfy` and `manager_creature.dfy`: the name normalisations, the
  model-to-ids maps, `exists` and `getTextures`.
- `manager_file.dfy`: the data directory rule, `exists`, the archive routing,
  the look-up in which the last archive holding a name wins, the archive cache,
  the list file, and the model tree view.

Each manager is a class whose fields its methods update. A table that
`DBC.Load` would give is a parameter (`Dbc.Table?`, null when the file is
missing). The disk is a map from paths to bytes.

## Model

| member | source | states |
|---|---|---|
| MpqCipherTable.LcgNth | src/formats/mpq/encryption.ts:8-16 | every state of the generator (x125 + 3 mod 0x2AAAAB, from 0x00100001) lies in [0, 0x2AAAAB) |
| MpqCipherTable.CombineHalves | src/formats/mpq/encryption.ts:14-18 | a table word carries the low 16 bits of the first state in its high half and those of the second in its low half |
| MpqCipherTable.Table | src/formats/mpq/encryption.ts:10-20 | the table has exactly the keys 0..0x4FF and every value is below 2^32 |
| MpqCipherTable.EntryAt | src/formats/mpq/encryption.ts:10-20 | slot i + 0x100 j holds the word built from generator outputs 10i + 2j + 1 and 10i + 2j + 2 |
| MpqCipherTable.SlotIndexInjective | src/formats/mpq/encryption.ts:11-19 | no two (i, j) pairs of the loop write the same key, so every key is written once |
| MpqCipherTable.BuildTable | src/formats/mpq/encryption.ts:10-21 | the nested loop builds exactly `Table()`, so two builds give the same contents |
| MpqCipherTable.FillRow | src/formats/mpq/encryption.ts:11-20 | one pass of the inner loop adds the five slots of row i and advances the generator by ten steps |
| MpqCipherTable.NextSlot | src/formats/mpq/encryption.ts:13-18 | two generator steps give the slot's value and the state after it |
| MpqCipherTable.FirstEntryIsStandard | src/formats/mpq/encryption.ts:8-18 | slot 0 is 0x55C636E2 |
| MpqStructs.DecodeHeader | src/formats/mpq/structs.ts:11-22 | the magic is bytes 0..3 and every field is within its 16- or 32-bit range |
| MpqStructs.HeaderRoundTrip | src/formats/mpq/structs.ts:11-22 | decoding the little-endian encoding of a header gives the header back, so each field sits at its offset |
| MpqStructs.HashEntryRoundTrip | src/formats/mpq/structs.ts:32-38 | hashA at pos, hashB at pos+4, locale at pos+8, platform at pos+10 and blockTableIndex at pos+12 decode back, whatever surrounds the record |
| MpqStructs.BlockEntryRoundTrip | src/formats/mpq/structs.ts:47-52 | offset, archivedSize, size and flags at pos, pos+4, pos+8 and pos+12 decode back, whatever surrounds the record |
| MpqStructs.EntryReadsOwnBytes | src/formats/mpq/structs.ts:32-52 | a record depends only on the 16 bytes at its position |
| MpqCrypto.NormalizeShape | src/formats/mpq/mpq.ts:209-213 | the hashed name has no lower-case letter, and keeps a '/' only if the name also held a '\' |
| MpqCrypto.NormalizeIdempotent | src/formats/mpq/mpq.ts:209-213 | normalising twice is normalising once |
| MpqCrypto.HashFromFailsIff | src/formats/mpq/mpq.ts:217-226 | the hash fails exactly when some character has no table slot, and it reports the first such character |
| MpqCrypto.HashIgnoresCase | src/formats/mpq/mpq.ts:208-229 | upper-casing or normalising a name does not change its hash |
| MpqCrypto.AsciiHashes | src/formats/mpq/mpq.ts:217-226 | every 7-bit ASCII name hashes under every flavour |
| MpqCrypto.TableKeysHash | src/formats/mpq/mpq.ts:88-92 | "(hash table)" and "(block table)" always hash with the table flavour |
| MpqCrypto.Hash | src/formats/mpq/mpq.ts:208-229 | a successful hash is a number in [0, 2^32) |
| MpqCrypto.ComputeHash | src/formats/mpq/mpq.ts:208-229 | the loop returns the hash of the normalised name, or the error for the first character with no table slot |
| Text.BaseNameSpec | src/formats/mpq/mpq.ts:198-205 | the part after the last '\' or '/' is a suffix of the name with no separator in it, and a separator precedes it |
| MpqCrypto.DecryptionKey | src/formats/mpq/mpq.ts:198-206 | the backwards scan hashes exactly the base name with the table flavour |
| MpqCrypto.DecryptEncrypt | src/formats/mpq/mpq.ts:236-252 | deciphering the enciphered words gives the words back |
| MpqCrypto.EncryptDecrypt | src/formats/mpq/mpq.ts:236-252 | enciphering the deciphered words gives the cipher words back: seed2 advances with the plaintext on both sides |
| MpqCrypto.WriteWordRead | src/formats/mpq/mpq.ts:251 | a word written little-endian reads back, and no other byte changes |
| MpqCrypto.DecryptedBytesShape | src/formats/mpq/mpq.ts:231-253 | every byte outside [offset, offset + 4 floor(size/4)) is unchanged, and the words inside are the deciphered word stream |
| MpqCrypto.DecryptedBytesRoundTrip | src/formats/mpq/mpq.ts:231-253 | enciphering the rewritten words with the same key gives the original words |
| MpqCrypto.Decrypt | src/formats/mpq/mpq.ts:231-253 | the in-place loop leaves the buffer as `DecryptedBytes`, and reports failure exactly when a word it must read lies past the end |
| MpqCrypto.DecryptWordAt | src/formats/mpq/mpq.ts:237-251 | one turn reads the word at offset + 4i, writes cipher xor (seed1 + seed2) back and advances the seeds, or fails when the word is past the end |
| MpqArchive.ReadAt | src/formats/mpq/mpq.ts:66-70 | `read` returns `count` bytes, the file's own where it has them |
| MpqArchive.Opened | src/formats/mpq/mpq.ts:77-109 | every decoded block entry has 32-bit sizes |
| MpqArchive.OpenedIff | src/formats/mpq/mpq.ts:77-84 | an archive opens exactly when it starts with "MPQ\x1a" and has format version 0; otherwise it is a format error |
| MpqArchive.BlockEntries | src/formats/mpq/mpq.ts:94-96 | block j is the record decoded at 16 j, for each of the declared entries |
| MpqArchive.HashMapHasEntry | src/formats/mpq/mpq.ts:100-105 | every hash entry's (hashB, hashA) pair is a key of the map |
| MpqArchive.HashMapLastWins | src/formats/mpq/mpq.ts:100-105 | a key maps to the last entry that carries it; a later duplicate overwrites an earlier one |
| MpqArchive.SectorCountOf | src/formats/mpq/mpq.ts:159-160 | the count is Infinity exactly when the sector size is 0, and at most 0 when the size is negative |
| MpqArchive.SectorCountCovers | src/formats/mpq/mpq.ts:160 | with a positive sector size the sectors cover the file and the last one is not empty |
| MpqArchive.DecompressSector | src/formats/mpq/mpq.ts:255-266 | a result comes from the PKWare decoder for tag 0x08 or the zlib decoder for tag 0x02, fed the rest of the sector |
| MpqArchive.ClearEncryptedClears | src/formats/mpq/mpq.ts:193-194 | `flags & ~Encrypted` no longer has the Encrypted bit, whatever the flags were |
| MpqExtraction.ExistsTestNeverFires | src/formats/mpq/mpq.ts:134-135 | the Exists test is false for every flags value |
| MpqExtraction.SectorSizeValues | src/formats/mpq/mpq.ts:159 | `512 << shift` is 512 * 2^(shift mod 32) up to 21, -2^31 at 22 and 0 from 23 on |
| MpqExtraction.InfiniteSectorsFail | src/formats/mpq/mpq.ts:160-177 | with a sector count of Infinity the loop can only end by throwing |
| MpqExtraction.ZeroSectorSizeNeverExtracts | src/formats/mpq/mpq.ts:159-191 | a shift that makes the sector size 0 never yields a file past the early returns |
| MpqExtraction.NegativeSectorSizeReadsNothing | src/formats/mpq/mpq.ts:159-195 | with a negative sector size no sector is read: the result does not depend on the archive's bytes or the codecs, and has `b.size` bytes |
| MpqExtraction.SectorCorruptIff | src/formats/mpq/mpq.ts:168-177 | a sector is reported corrupt exactly when next < cur, next - cur > sectorSize or cur > archivedSize |
| MpqExtraction.RawSectorCopied | src/formats/mpq/mpq.ts:184-187 | a sector of exactly sectorSize bytes is copied verbatim to i * sectorSize, and no other output byte changes |
| MpqExtraction.ShortSectorDecompressed | src/formats/mpq/mpq.ts:189-190 | any other sector succeeds exactly when its codec does, and the decoded bytes land at i * sectorSize |
| MpqExtraction.ExtractAgainReadsCiphertext | src/formats/mpq/mpq.ts:150-194 | once the Encrypted bit is cleared, the entry's key is -1 and its sectors are read without deciphering |
| Mpq.MpqFile.constructor | src/formats/mpq/mpq.ts:47-56 | a new archive keeps its file name, bytes and codecs, has no header yet, and what it will load is what the file opens to |
| Mpq.MpqFile.Read | src/formats/mpq/mpq.ts:66-70 | a fresh buffer holding `ReadAt(file, offset, count)` |
| Mpq.MpqFile.ReadHeader | src/formats/mpq/mpq.ts:77-109 | on success, the header and both tables are those of `Opened`; on failure nothing changes |
| Mpq.MpqFile.ReadTables | src/formats/mpq/mpq.ts:77-108 | the checks, the two deciphered tables and the decoding compute exactly `Opened(file)` |
| Mpq.MpqFile.ReadTable | src/formats/mpq/mpq.ts:86-92 | a table is read at its offset and deciphered in place with the hash of its name |
| Mpq.MpqFile.DecodeBlocks | src/formats/mpq/mpq.ts:94-96 | the loop decodes the block entries in order |
| Mpq.MpqFile.DecodeHashes | src/formats/mpq/mpq.ts:100-105 | the loop builds the map, later entries overwriting earlier ones |
| Mpq.MpqFile.GetHeader | src/formats/mpq/mpq.ts:58-60 | the header is read once and then kept; a failed read leaves the object unchanged |
| Mpq.MpqFile.GetFileEntry | src/formats/mpq/mpq.ts:111-117 | the entry found is the one under the name's (hashB, hashA) pair, or the error of opening or hashing |
| Mpq.MpqFile.Exists | src/formats/mpq/mpq.ts:119-121 | true exactly when `getFileEntry` finds an entry |
| Mpq.MpqFile.Extract | src/formats/mpq/mpq.ts:123-196 | the result and the new block table are those of `ExtractEntry`; on failure the tables are unchanged |
| Mpq.MpqFile.ExtractIndex | src/formats/mpq/mpq.ts:130-196 | the early returns and the sectors as `ExtractBlock`, and the Encrypted bit is cleared on the entry once its sectors are read |
| Mpq.MpqFile.ReadBlockSectors | src/formats/mpq/mpq.ts:141-195 | SingleUnit and Crc throw, then the file is read with its key as `BlockSectors` |
| Mpq.MpqFile.ReadKey | src/formats/mpq/mpq.ts:150-157 | the key is -1, or the hash of the base name, which EncryptionFix turns into (key + offset) xor size |
| Mpq.MpqFile.ReadSectors | src/formats/mpq/mpq.ts:159-195 | the offset table is deciphered with key - 1, then the sectors are read as `ExtractSectors` |
| Mpq.MpqFile.ReadSectorsFrom | src/formats/mpq/mpq.ts:167-191 | the sector loop computes `SectorsFrom` from sector 0 |
| Mpq.MpqFile.ReadSectorAt | src/formats/mpq/mpq.ts:168-191 | one sector's checks, its decipherment with key + i and its placement, as `ReadSector` |
| Mpq.MpqFile.ReadSectorBodyAt | src/formats/mpq/mpq.ts:179-190 | a checked sector is deciphered in place with its key, then placed, as `ReadSectorBody` |
| Mpq.MpqFile.PlaceSectorAt | src/formats/mpq/mpq.ts:183-190 | a sector is copied or decompressed into the output, as `PlaceSector` |

| BinaryReader.Width | src/formats/reader.ts:71-97 | each scalar read takes between one and four bytes |
| BinaryReader.ReadNumbers | src/formats/reader.ts:99-117 | an array read that succeeds yields exactly `length` values and never moves the cursor back; an array read fails only with a RangeError |
| BinaryReader.ReadNumbersLayout | src/formats/reader.ts:71-117 | n reads of width w succeed iff n is 0 or the n·w bytes from the cursor are in the buffer; the cursor then moves by n·w, and value k is the little-endian number at p + k·w |
| BinaryReader.ReadNumbersStops | src/formats/reader.ts:99-117 | once one read of an array throws, reading more elements gives the same error and cursor |
| BinaryReader.WordAtBytes | src/formats/reader.ts:43-53 | inside the buffer a keyword is its four bytes, taken one character each |
| BinaryReader.CharsFromBytes | src/formats/reader.ts:119-124 | the decoded text has one character per byte, with the byte's code |
| BinaryReader.StrAtContents | src/formats/reader.ts:119-124 | with no zero byte after the cursor the string is empty; otherwise it is the bytes up to the first zero or up to p + length, whichever comes first, and none of them is zero |
| BinaryReader.ReadVectorLayout | src/formats/reader.ts:147-157 | a vector read succeeds iff its bytes (4 per int32 or float component, 8 for a quaternion) are in the buffer |
| BinaryReader.ReadKeyLayout | src/formats/reader.ts:144-176 | a key read succeeds iff its bytes are in the buffer; the frame is the int32 at the cursor, and the key has tangents iff the line type is Hermite or Bezier |
| BinaryReader.KeysAppendedFrames | src/formats/reader.ts:143-177 | after one more key is pushed, key k's frame is the int32 at p + k·(key size) and it has tangents iff the line type says so |
| BinaryReader.ReadKeysLayout | src/formats/reader.ts:143-177 | reading n keys lays them out back to back, each key's size apart, with the frames and tangents above |
| BinaryReader.ReadKeysStops | src/formats/reader.ts:143-177 | once a key read throws, the key loop ends with that error whatever the key count |
| BinaryReader.TrackLayout | src/formats/reader.ts:132-177 | a track reads a 12-byte header; it has max(count, 0) keys, the stored line type, the global sequence id with -1 read as none, keys with tangents iff Hermite or Bezier, and ends 12 + n·(key size) bytes on |
| BinaryReader.TrackDefault | src/formats/reader.ts:179-190 | a given static value is the default; otherwise there is at least one key, and the default is the inverted first component for a single FLOAT1 key, the first component for one-component types, and the first vector otherwise; with no keys and no value the read throws a TypeError |
| BinaryReader.Reader.constructor | src/formats/reader.ts:37-41 | the cursor starts at 0 and the length is the buffer's byte length |
| BinaryReader.Reader.Keyword | src/formats/reader.ts:43-53 | the four characters at the cursor, and the cursor moves by four |
| BinaryReader.Reader.ExpectKeyword | src/formats/reader.ts:55-60 | the cursor moves by four; it succeeds iff the word read is the expected one, and otherwise throws with the given text |
| BinaryReader.Reader.HasKeyword | src/formats/reader.ts:62-69 | true iff the word at the cursor is the keyword; the cursor moves by four only then |
| BinaryReader.Reader.Number | src/formats/reader.ts:71-97 | the value and new cursor are those of `ReadNumber` at the old cursor |
| BinaryReader.Reader.Numbers | src/formats/reader.ts:99-117 | the values and new cursor are `ReadNumbers` at the old cursor, with a negative length read as 0 |
| BinaryReader.Reader.Str | src/formats/reader.ts:119-124 | the text is `StrAt` at the old cursor and the cursor always moves by `length` |
| BinaryReader.Reader.Quaternion | src/formats/reader.ts:193-213 | eight bytes are read, as `ReadQuaternion` states |
| BinaryReader.Reader.Vector | src/formats/reader.ts:147-157 | the vector and new cursor are `ReadVector` at the old cursor |
| BinaryReader.Reader.Key | src/formats/reader.ts:144-176 | the key and new cursor are `ReadKey` at the old cursor |
| BinaryReader.Reader.Keys | src/formats/reader.ts:143-177 | the key loop gives `ReadKeys` at the old cursor, with a negative count read as 0 |
| BinaryReader.Reader.NextKey | src/formats/reader.ts:144-176 | one turn of the key loop turns the outcome of i keys into the outcome of i + 1 |
| BinaryReader.Reader.AnimVector | src/formats/reader.ts:132-191 | the track and new cursor are `ReadAnimVector` at the old cursor |
| Dbc.Block | src/formats/dbc/dbc.ts:16-20 | a copied block has the requested length, and byte k is the file's byte at start + k or 0 past the end of the file |
| Dbc.CopyIsBlock | src/formats/dbc/dbc.ts:19-20 | `Buffer.copy` into a zero-filled buffer gives exactly that block |
| Dbc.CopyBlock | src/formats/dbc/dbc.ts:16-20 | throws a RangeError exactly when the copy would start past the end of the file, and otherwise gives a fresh array holding the block |
| Dbc.RecordsInFile | src/formats/dbc/dbc.ts:16-20 | in a file the constructor accepts, the record block is exactly the file's bytes after the header, so no record reads a zero from past the end |
| Dbc.Sheet.Int | src/formats/dbc/dbc.ts:34-37 | succeeds iff the four bytes at index·rowSize + offset·4 are in the record block, and otherwise throws a RangeError |
| Dbc.Sheet.Bool | src/formats/dbc/dbc.ts:44-46 | succeeds iff `int` does, and is true iff that field is not 0 |
| Dbc.Sheet.String | src/formats/dbc/dbc.ts:28-32 | succeeds iff `int` does |
| Dbc.Table.constructor | src/formats/dbc/dbc.ts:11-21 | on a file it does not throw on (`Loadable`: the header is there and the record block ends within the file), rowCount, fieldCount and rowSize are the uint32 values at 4, 8 and 12; the record block and string block are fresh copies of the file |
| Dbc.Table.Contents | src/formats/dbc/dbc.ts:4-9 | the value view holds the table's three counts and both blocks |
| Dbc.Table.IntFromFile | src/formats/dbc/dbc.ts:11-37 | outside the record block the read throws a RangeError; inside it is the file's int32 at 20 + ptr, or 0 where the file has ended (which `RecordsInFile` rules out for a file the constructor accepts) |
| Dbc.Table.StringContents | src/formats/dbc/dbc.ts:28-32 | a start inside the string block gives the bytes up to the next zero, none of them zero, or "" with no zero; a start past the end gives ""; a negative start counts from the end |
| Dbc.Open | src/formats/dbc/dbc.ts:11-21 | a table comes back iff the file has its 20 header bytes and its record block ends within the file, and otherwise a RangeError; the table's counts are the header's and its blocks are the file's |
| Dbc.RowsRead | src/managers/charactermanager.ts:132-141 | when the row loop succeeds it holds one row per index 0 .. n - 1, each the one `read` gave |
| Dbc.RowsLength | src/managers/charactermanager.ts:132-141 | a successful row loop holds max(n, 0) rows |
| Dbc.RowsAt | src/managers/charactermanager.ts:132-141 | row k of a successful loop is what `read(k)` gave |
| Dbc.RowsNext | src/managers/charactermanager.ts:132-141 | reading row i after rows 0 .. i - 1 appends it |
| Dbc.RowsErr | src/managers/charactermanager.ts:132-141 | the first row that throws makes the whole loop throw its error |
| BlpHeader.MipMaps | src/formats/blp/blp.ts:88-95 | no more levels than slots looked at |
| BlpHeader.SlotsInOrder | src/formats/blp/blp.ts:88-95 | the slots the loop keeps are, in increasing order, exactly those with a non-zero offset |
| BlpHeader.SlotsPaired | src/formats/blp/blp.ts:88-95 | level k holds the offset and the size of the k-th kept slot |
| BlpHeader.MipMapsAreSlots | src/formats/blp/blp.ts:88-95 | the mip list pairs the non-zero-offset slots, in order, with their sizes |
| BlpHeader.HeaderAccepted | src/formats/blp/blp.ts:70-99 | the header is accepted iff the file has 148 bytes, starts with "BLP2" and has version 1, and a paletted image also has its 1024 palette bytes |
| BlpHeader.CollectMipMaps | src/formats/blp/blp.ts:88-95 | the loop builds `MipMaps` over all sixteen slots |
| BlpHeader.SlotArray | src/formats/blp/blp.ts:85-86 | a slot array is the sixteen little-endian uint32 values from its start |
| BlpHeader.ReadFields | src/formats/blp/blp.ts:77-83 | encoding, alphaDepth and format are bytes 8, 9 and 10, width and height the uint32 values at 12 and 16; it throws a RangeError iff those 12 bytes are not there |
| BlpHeader.ReadSlots | src/formats/blp/blp.ts:85-86 | the offsets are the uint32 values at 20 + 4k and the sizes those at 84 + 4k; it throws iff the 128 bytes are not there |
| BlpHeader.ReadPalette | src/formats/blp/blp.ts:97-99 | a paletted image reads the 1024 bytes at 148 and throws iff they are missing; other encodings have no palette |
| BlpHeader.ReadHeader | src/formats/blp/blp.ts:56-100 | the constructor's reads on a fresh reader give exactly `HeaderOf(buffer)` |
| BlpPixels.BlockSize | src/formats/blp/blp.ts:146 | a block is 8 or 16 bytes |
| BlpPixels.VariantBlockSize | src/formats/blp/blp.ts:145-146 | blocks are 8 bytes iff alphaDepth ≤ 1 and 16 iff alphaDepth > 1; DXT5 iff alphaDepth > 1 and the format is DXT5, DXT3 iff alphaDepth > 1 and it is not |
| BlpPixels.ClampNearest | src/formats/blp/blp.ts:166-170 | storing a fraction in 0..255 rounds to the nearest byte, a tie to the even one, and a whole number is stored as itself |
| BlpPixels.ColourValue | src/formats/blp/blp.ts:287 | the two bytes, low first, give a 16-bit value |
| BlpPixels.RgbRoundTrip | src/formats/blp/blp.ts:288-295 | the four channels are bytes, alpha is 255, and the top 5, 6 and 5 bits of red, green and blue give the RGB565 value back |
| BlpPixels.RgbFields | src/formats/blp/blp.ts:288-290 | the three RGB565 fields, each weighted by its place, add up to the value |
| BlpPixels.Widen5Top | src/formats/blp/blp.ts:292-294 | c shifted left by 3, or-ed with c shifted right by 2, is a byte whose top five bits are c |
| BlpPixels.Widen6Top | src/formats/blp/blp.ts:293 | c shifted left by 2, or-ed with c shifted right by 4, is a byte whose top six bits are c |
| BlpPixels.DecompressColour | src/formats/blp/blp.ts:286-298 | returns the 16-bit value at index + offset; the four buffer cells from bufferOffset hold its widened RGB and 255, and every other cell is unchanged |
| BlpPixels.ColourTableBetween | src/formats/blp/blp.ts:156-175 | each channel of the third colour, and of the fourth unless the block is transparent, lies between the endpoint colours' channels; the third colour's alpha is 255; a transparent DXT1 block (a ≤ b) has a fourth colour of zeros, and otherwise its alpha is 255 |
| BlpPixels.BetweenBounds | src/formats/blp/blp.ts:161-175 | the same bounds for any two endpoint colours of bytes |
| BlpPixels.HalfBetween | src/formats/blp/blp.ts:166 | the stored half-sum of two bytes lies between them |
| BlpPixels.ThirdBetween | src/formats/blp/blp.ts:169-170 | a stored third of the way between two bytes lies between them |
| BlpPixels.TwoBits | src/formats/blp/blp.ts:180-183 | a 2-bit field is in 0..3 |
| BlpPixels.ColourIndices | src/formats/blp/blp.ts:177-184 | sixteen indices, each in 0..3 |
| BlpPixels.ColourIndicesRoundTrip | src/formats/blp/blp.ts:177-184 | indices 4i .. 4i + 3, weighted 1, 4, 16 and 64, give byte colourIndex + 4 + i back |
| BlpPixels.ColourIndexAt | src/formats/blp/blp.ts:179-183 | index 4i + j is field j of byte colourIndex + 4 + i |
| BlpPixels.BaseFourDigits | src/formats/blp/blp.ts:180-183 | a byte is the weighted sum of its four 2-bit fields |
| BlpPixels.ColourBlock | src/formats/blp/blp.ts:186-192 | the block has 64 numbers, four per pixel |
| BlpPixels.WithDxt3Alpha | src/formats/blp/blp.ts:195-203 | the DXT3 alpha pass keeps the block's 64 numbers |
| BlpPixels.Nibble17RoundTrip | src/formats/blp/blp.ts:197-201 | a 4-bit alpha widened by or-ing n with n shifted left by 4 is a byte with the nibble in both halves, so 0 stays 0 and 15 becomes 255 |
| BlpPixels.AlphaTable | src/formats/blp/blp.ts:210-218 | the DXT5 alpha table has eight entries |
| BlpPixels.AlphaTableBetween | src/formats/blp/blp.ts:207-218 | entries 0 and 1 are the endpoints; the interpolated ones lie between them; when a0 ≤ a1, entries 6 and 7 are 0 and 255 |
| BlpPixels.LerpBetween | src/formats/blp/blp.ts:217-218 | ((roll - i)·a0 + i·a1) lies between roll·min and roll·max, so its truncated quotient is a value between the endpoints |
| BlpPixels.Group | src/formats/blp/blp.ts:225-228 | three bytes, low first, make a 24-bit group |
| BlpPixels.ThreeBits | src/formats/blp/blp.ts:230-231 | a 3-bit field is in 0..7 |
| BlpPixels.AlphaIndices | src/formats/blp/blp.ts:220-232 | sixteen alpha indices, each in 0..7 |
| BlpPixels.AlphaIndicesRoundTrip | src/formats/blp/blp.ts:220-232 | the eight indices of each half, weighted by powers of 8, give the 24-bit group at pos + 2 + 3·half back |
| BlpPixels.GroupIndices | src/formats/blp/blp.ts:224-232 | the indices of half h are the eight 3-bit fields of group h |
| BlpPixels.AlphaIndexAt | src/formats/blp/blp.ts:230-231 | index 8h + j is field j of group h |
| BlpPixels.BaseEightDigits | src/formats/blp/blp.ts:230-231 | a 24-bit group is the weighted sum of its eight 3-bit fields |
| BlpPixels.WithDxt5Alpha | src/formats/blp/blp.ts:234-235 | the DXT5 alpha pass keeps the block's 64 numbers |
| BlpPixels.Block | src/formats/blp/blp.ts:156-236 | a decoded block is 64 numbers |
| BlpImage.GetAlpha | src/formats/blp/blp.ts:277-284 | depth 0 gives 1; any other depth gives a value below 2^depth |
| BlpImage.AlphaWholeBytes | src/formats/blp/blp.ts:281-283 | with depth 8 the alpha of pixel i is byte i |
| BlpImage.AlphaSingleBits | src/formats/blp/blp.ts:281-283 | with depth 1 the alpha of pixel i is bit 7 - i mod 8 of byte i / 8, the first pixel in the highest bit |
| BlpImage.AlphaNibblesOverlap | src/formats/blp/blp.ts:281-283 | with depth 4, byte 0xF0 gives pixel alphas 8 and 0, which do not give the byte back |
| BlpImage.FieldAlpha | src/formats/blp/blp.ts:277-284 | the corrected reading: depth 0 gives 1, any other depth a value below 2^depth |
| BlpImage.FieldAlphaAgrees | src/formats/blp/blp.ts:277-284 | for depths 0, 1 and 8 the corrected reading is the source's |
| BlpImage.FieldAlphaNibbles | src/formats/blp/blp.ts:277-284 | with depth 4, the alphas of pixels 2j and 2j + 1 are the high and low nibbles of byte j |
| BlpImage.FieldAlphaPairs | src/formats/blp/blp.ts:277-284 | with depth 2, the alphas of pixels 4j .. 4j + 3 are the four 2-bit fields of byte j, highest first |
| BlpImage.PairField | src/formats/blp/blp.ts:277-284 | with depth 2, pixel 4j + k takes bits 2·(3 - k) and up of byte j |
| BlpImage.RowStartIsProduct | src/formats/blp/blp.ts:246 | the start of row sY is width·sY |
| BlpImage.RowStartGrows | src/formats/blp/blp.ts:246 | a later row starts at least a whole row further on |
| BlpImage.InImage | src/formats/blp/blp.ts:245-246 | a pixel inside the image has its four channels inside `imageData.data` |
| BlpImage.PixelInImage | src/formats/blp/blp.ts:245-246 | 4·(width·sY + sX) + i is below 4·width·height for a pixel inside the image |
| BlpImage.SamePixel | src/formats/blp/blp.ts:246-248 | a channel index falls in the four cells of pixel (sX, sY) iff it belongs to that pixel |
| BlpImage.CopyPixel | src/formats/blp/blp.ts:245-249 | the pixel's four channels become the block's four stored numbers; no other pixel changes |
| BlpImage.CopyBlockRow | src/formats/blp/blp.ts:241-252 | the pixels of one block row that are inside the image take the block's numbers; nothing else changes |
| BlpImage.CopyBlock | src/formats/blp/blp.ts:238-253 | every pixel of the 4x4 square at (x, y) that is inside the image takes its block number, the square clipped at the image's edges; nothing else changes |
| BlpImage.PosAtValue | src/formats/blp/blp.ts:148-255 | block k starts at k·blockSize, unless the data ends exactly at a block boundary at or before it; then every later block is skipped |
| BlpImage.SkipPersists | src/formats/blp/blp.ts:153-154 | once a block is skipped because the data is used up, every later block is skipped too |
| BlpImage.FullMipDecoded | src/formats/blp/blp.ts:150-257 | when the data holds every block, each pixel is its block's decoded number, its block being (sX / 4, sY / 4) in row-major order |
| BlpImage.PixelOfBlock | src/formats/blp/blp.ts:150-257 | a pixel of the block at (x, y) keeps its old value when that block is skipped, and otherwise takes the block's number for its place |
| BlpImage.CompressedBlock | src/formats/blp/blp.ts:153-255 | one block: its in-image pixels become `CompressedPixel`, nothing else changes, and pos moves to the next block's start |
| BlpImage.CompressedRow | src/formats/blp/blp.ts:151-256 | one row of blocks: the in-image pixels of rows y .. y + 3 become `CompressedPixel`, nothing else changes |
| BlpImage.GetCompressed | src/formats/blp/blp.ts:144-260 | every pixel of the image becomes `CompressedPixel` for the variant alphaDepth and format choose |
| MdxModel.StoreNodeLookup | src/formats/mdx/modelreader.ts:104 | after `Nodes[ObjectId] = node` the node is found under its id and every other id finds what it found before; a non-negative id extends the array to id + 1 when it was shorter, and a null or negative id leaves the array part unchanged |
| MdxModel.LastWithId | src/formats/mdx/modelreader.ts:104 | the position found holds a node with that id and no later node has it, or -1 |
| MdxModel.StoreNodesLookup | src/formats/mdx/modelreader.ts:104 | after storing several nodes, an id finds the last of them that has it, or what it found before when none does |
| MdxModel.PivotCountBounds | src/formats/mdx/modelreader.ts:472-473 | the loop over i < size / 12 runs ⌈size / 12⌉ times: none iff size ≤ 0 |
| MdxModel.GlobalSequenceCountBounds | src/formats/mdx/modelreader.ts:531 | `int32Array(size / 4)` reads ⌊size / 4⌋ values, and none for a negative size |
| MdxModel.ReplacementName | src/formats/mdx/modelreader.ts:219 | ids 0 to 0xE have a non-empty TextureReplacement name; any other id makes `.toString()` of undefined throw a TypeError |
| MdxModel.TextureImage | src/formats/mdx/modelreader.ts:218-219 | a non-empty image name is kept, and an empty one becomes the replaceable id's name |
| MdxModel.EmptyGroups | src/formats/mdx/modelreader.ts:277-280 | group g has `sizes[g]` empty slots |
| MdxModel.FillFromAll | src/formats/mdx/modelreader.ts:283-291 | the forward MATS loop from the empty MTGC groups is the fill `FillAll` describes |
| MdxModel.FillExact | src/formats/mdx/modelreader.ts:283-291 | with non-empty groups and exactly as many values as slots, the loop succeeds and slot j of group g holds value Prefix(g) + j |
| MdxModel.FillAllStops | src/formats/mdx/modelreader.ts:285-291 | once the loop has thrown, more values do not change the outcome |
| MdxModel.FullFillThrows | src/formats/mdx/modelreader.ts:286-290 | once every slot is written, the next value moves past the last group and throws a TypeError |
| MdxModel.FillOverflow | src/formats/mdx/modelreader.ts:283-291 | more values than slots make the MATS loop throw a TypeError |
| MdxModel.EmptyGroupTakesValue | src/formats/mdx/modelreader.ts:286-290 | an empty group still takes one value: sizes 1, 0, 1 and values 7, 8 give groups [7], [8] and an unwritten one |
| MdxModel.IndexOf | src/formats/mdx/modelreader.ts:363 | -1 iff the item is absent; otherwise its first position |
| MdxModel.BoneLookup | src/formats/mdx/modelreader.ts:352-369 | the bone lookup is free of repeats and holds only tuples that occur; vertex j's group index points at its own tuple |
| MdxModel.BoneLookupNext | src/formats/mdx/modelreader.ts:363-368 | one more vertex appends its tuple when it is new and takes its old position when it is not |
| MdxModel.ToUint8 | src/formats/mdx/modelreader.ts:368 | a store into a Uint8Array keeps a value in 0..255 and wraps any other into that range |
| MdxModel.TrimZeros | src/formats/mdx/modelreader.ts:373 | the trimmed tuple is a non-empty prefix that drops only trailing zeros and, when longer than one, ends in a non-zero |
| MdxModel.FacePaddingAligns | src/formats/mdx/modelreader.ts:385-386 | the padding is even, below 16, and brings 2n + padding to a multiple of 16 |
| MdxModel.ShapeFloats | src/formats/mdx/modelreader.ts:507-512 | shapes 0 to 3 (box, cylinder, sphere, plane) read vertices, and every other shape reads none |
| MdxChunks.Num | src/formats/reader.ts:71-97 | a scalar read needs its bytes and moves the cursor by its width |
| MdxChunks.Nums | src/formats/reader.ts:99-117 | an array read yields max(n, 0) values and moves the cursor by their width |
| MdxChunks.Expect | src/formats/reader.ts:55-60 | on success the cursor is four bytes on |
| MdxChunks.Anim | src/formats/reader.ts:132-191 | a track takes at least its 12 header bytes |
| MdxChunks.NodeAt | src/formats/mdx/modelreader.ts:80-105 | a node takes at least its 0x60 fixed bytes |
| MdxChunks.NodeHeadAt | src/formats/mdx/modelreader.ts:81-92 | the fixed part of a node ends 0x60 bytes on |
| MdxChunks.NodeHeader | src/formats/mdx/modelreader.ts:81-92 | size is the int32 at p, the name is the string at p + 4 of 0x50 bytes, ObjectId and Parent are the int32 values at 0x54 and 0x58 with -1 read as null, and Flags is the uint32 at 0x5C |
| MdxChunks.NodeTracksKeep | src/formats/mdx/modelreader.ts:94-102 | the sub-chunk loop changes only the translation, rotation and scaling tracks |
| MdxChunks.NodeTracksKeywords | src/formats/mdx/modelreader.ts:94-102 | inside the node any keyword other than KGTR, KGRT or KGSC throws "Incorrect node chunk data"; a successful loop ends at or past the node's end |
| MdxChunks.ReadNodeTracks | src/formats/mdx/modelreader.ts:94-102 | the loop gives `NodeTracks` from the old cursor |
| MdxChunks.NextTrack | src/formats/mdx/modelreader.ts:95-101 | one turn moves the cursor forward and continues the same `NodeTracks` outcome |
| MdxChunks.ParseNode | src/formats/mdx/modelreader.ts:80-105 | the node and new cursor are `NodeAt` from the old cursor, and the node is stored under its ObjectId |
| MdxChunks.ReadNodeHead | src/formats/mdx/modelreader.ts:81-92 | the reads give `NodeHeadAt` from the old cursor |
| MdxChunks.VersionAt | src/formats/mdx/modelreader.ts:131-136 | the version is accepted iff the int32 is there and lies in 1300..1500; otherwise it throws "Invalid version" |
| MdxChunks.ParseVersion | src/formats/mdx/modelreader.ts:131-136 | the result and cursor are `VersionAt` from the old cursor |
| MdxChunks.TextureAt | src/formats/mdx/modelreader.ts:212-219 | a texture record takes 0x10C bytes and its image name is never empty |
| MdxChunks.TexturesLayout | src/formats/mdx/modelreader.ts:208-223 | the loop pushes ⌈(end - p) / 0x10C⌉ textures after the existing ones, keeps those, and ends that many records on |
| MdxChunks.ParseTextures | src/formats/mdx/modelreader.ts:208-223 | the textures and cursor are `TexturesFrom` over [old cursor, old cursor + size) |
| MdxChunks.NextTexture | src/formats/mdx/modelreader.ts:212-221 | one turn moves the cursor forward and continues the same `TexturesFrom` outcome |
| MdxChunks.ReadTexture | src/formats/mdx/modelreader.ts:212-219 | the reads give `TextureAt` from the old cursor |
| MdxChunks.SetOrAppend | src/formats/mdx/modelreader.ts:474 | `PivotPoints[i] = v` sets slot i, extends the array by one when i is its length, and keeps every other slot |
| MdxChunks.PivotsLayout | src/formats/mdx/modelreader.ts:473-475 | points i .. n - 1 succeed iff their 12-byte records are in the buffer; point k is the record at p + 12(k - i), the other points are kept, and the cursor ends after the records |
| MdxChunks.PivotPointsLayout | src/formats/mdx/modelreader.ts:471-476 | the chunk succeeds iff size ≤ 0 or the PivotCount(size) records are in the buffer, with the layout above |
| MdxChunks.ParsePivotPoints | src/formats/mdx/modelreader.ts:471-476 | the points and cursor are `PivotPointsAt` from the old cursor |
| MdxChunks.GlobalSequencesLayout | src/formats/mdx/modelreader.ts:530-532 | the chunk succeeds iff there are no values or the 4n bytes are in the buffer; value k is the int32 at p + 4k and the cursor moves by 4n |
| MdxChunks.ParseGlobalSequences | src/formats/mdx/modelreader.ts:530-532 | the list and cursor are `GlobalSequencesAt` from the old cursor |
| MdxChunks.ShapeAt | src/formats/mdx/modelreader.ts:501-512 | the shape is a byte; it has vertices iff it is at most 3, and then 6, 5, 4 or 2 of them |
| MdxChunks.ShapesLayout | src/formats/mdx/modelreader.ts:497-516 | the loop appends max(count, 0) shapes after the existing ones, keeps those, and stores every new shape's node in order |
| MdxChunks.ShapeOrigins | src/formats/mdx/modelreader.ts:497-516 | each new shape is a distinct object: its node's record starts past the chunk's start, before where the loop ends, and past the node of the shape before it |
| MdxChunks.ReplacedShapeNotStored | src/formats/mdx/modelreader.ts:500-513 | of two shapes of one chunk under the same ObjectId, the earlier is no longer the object `model.Nodes` holds, so the pivot loop does not reach it, even when both records hold equal fields |
| MdxChunks.StoreNodesFirst | src/formats/mdx/modelreader.ts:104 | storing a node and then a list is storing the list with the node in front |
| MdxChunks.ParseHitTestShapes | src/formats/mdx/modelreader.ts:497-516 | the node table, shapes and cursor are `HitTestShapesAt` from the old cursor |
| MdxChunks.ReadShape | src/formats/mdx/modelreader.ts:501-512 | one shape is `ShapeAt` from the old cursor, and its node is stored under its ObjectId |
| MdxGeosetsOld.CountedLayout | src/formats/mdx/modelreader.ts:244-274 | a counted chunk succeeds iff its keyword is there, its count is in the buffer and its count·scale values are; value k is decoded at p + 8 + k·width; a wrong keyword throws "Incorrect geosets format" |
| MdxGeosetsOld.ReadCounted | src/formats/mdx/modelreader.ts:244-274 | `expectKeyword` and `xxxArray(int32() * scale)` give `CountedAt` from the old cursor |
| MdxGeosetsOld.UvasAt | src/formats/mdx/modelreader.ts:250-257 | without the UVAS keyword there are no texture-coordinate sets and the cursor stays put |
| MdxGeosetsOld.TVerticesLayout | src/formats/mdx/modelreader.ts:254-256 | the loop appends max(count, 0) sets after the existing ones, each of the requested width |
| MdxGeosetsOld.ReadUvas | src/formats/mdx/modelreader.ts:250-257 | the sets and cursor are `UvasAt` from the old cursor |
| MdxGeosetsOld.PrimitivesCheck | src/formats/mdx/modelreader.ts:260-265 | the primitive loop succeeds iff every primitive byte is in the buffer and equals 4 |
| MdxGeosetsOld.CheckPrimitives | src/formats/mdx/modelreader.ts:259-265 | the cursor after PTYP, its count and the checked bytes, as `PrimitivesAt` states |
| MdxGeosetsOld.SizesLayout | src/formats/mdx/modelreader.ts:277-280 | the MTGC loop appends one group size per count, size k being the int32 at p + 4k, and moves the cursor by 4 per group |
| MdxGeosetsOld.ReadGroupSizes | src/formats/mdx/modelreader.ts:276-280 | the sizes and cursor are `GroupSizesAt` from the old cursor |
| MdxGeosetsOld.MatsFold | src/formats/mdx/modelreader.ts:285-291 | the loop reading its values one by one is the fill over the int32 values it reads, ending after them |
| MdxGeosetsOld.MatsIsFill | src/formats/mdx/modelreader.ts:282-291 | the MATS loop from the MTGC groups is `FillAll` over the values read, so `FillExact` and `FillOverflow` describe it |
| MdxGeosetsOld.ReadMats | src/formats/mdx/modelreader.ts:282-291 | the groups and cursor are `MatsAt` from the old cursor |
| MdxGeosetsOld.NextMat | src/formats/mdx/modelreader.ts:286-290 | one turn of the MATS loop continues the same `MatsFrom` outcome |
| MdxGeosetsOld.ExtentAt | src/formats/reader.ts:126-130 | an extent is 28 bytes, with three floats for each corner |
| MdxGeosetsOld.ReadExtent | src/formats/reader.ts:126-130 | the extent and cursor are `ExtentAt` from the old cursor |
| MdxGeosetsOld.AnimsLayout | src/formats/mdx/modelreader.ts:304-309 | max(count, 0) extents are appended after the existing ones, 28 bytes each |
| MdxGeosetsOld.ReadAnims | src/formats/mdx/modelreader.ts:304-309 | the extents and cursor are `AnimsFrom` from the old cursor |
| MdxGeosetsOld.GeosetAt | src/formats/mdx/modelreader.ts:236-311 | a geoset never moves the cursor back |
| MdxGeosetsOld.ReadHead | src/formats/mdx/modelreader.ts:242-257 | the size, VRTX, NRMS and UVAS reads give `HeadAt` from the old cursor |
| MdxGeosetsOld.ReadFaces | src/formats/mdx/modelreader.ts:259-274 | the PTYP, PCNT, PVTX and GNDX reads give `FacesAt` |
| MdxGeosetsOld.ReadGroups | src/formats/mdx/modelreader.ts:276-297 | the MTGC, MATS, BIDX and BWGT reads give `GroupsAt` |
| MdxGeosetsOld.ReadTail | src/formats/mdx/modelreader.ts:299-309 | the MaterialID, SelectionGroup, Flags, extent and animation reads give `TailAt` |
| MdxGeosetsOld.ReadGeoset | src/formats/mdx/modelreader.ts:236-311 | one geoset is `GeosetAt` from the old cursor |
| MdxGeosetsOld.GeosetsLayout | src/formats/mdx/modelreader.ts:235-312 | the loop appends max(count, 0) geosets after the existing ones and keeps those |
| MdxGeosetsOld.ParseGeosets | src/formats/mdx/modelreader.ts:232-313 | the geosets and cursor are `GeosetsAt` from the old cursor |
| Bytes.Zeros | src/formats/mdx/modelreader.ts:341-344 | a fresh typed array of n elements, every one 0 |
| MdxGeosetsNew.HeaderFieldsLayout | src/formats/mdx/modelreader.ts:325-330 | the fields take 32 bytes and are read iff they are in the buffer: MaterialID at 0, BoundsRadius at 16, SelectionGroup at 20 and Flags at 28 |
| MdxGeosetsNew.HeaderCountsLayout | src/formats/mdx/modelreader.ts:332-337 | PVTX, PTYP and PVTX with their counts are read iff the 24 bytes are there and the keywords match; the vertex count is the first count; a wrong first keyword throws "Incorrect geosets format" |
| MdxGeosetsNew.HeaderLayout | src/formats/mdx/modelreader.ts:319-344 | a header succeeds iff its 56 bytes are there, the keywords match and the vertex count is not negative; the geoset holds the fields and zeroed arrays for n vertices; a negative count makes `new Float32Array` throw a RangeError |
| MdxGeosetsNew.ReadHeader | src/formats/mdx/modelreader.ts:319-344 | the reads and the padding give `HeaderAt` from the old cursor |
| MdxGeosetsNew.HeadersLayout | src/formats/mdx/modelreader.ts:318-347 | the first loop keeps the existing geosets and moves the cursor by 64 bytes per header |
| MdxGeosetsNew.ReadHeaders | src/formats/mdx/modelreader.ts:318-347 | the geosets and cursor are `HeadersFrom` from the old cursor |
| MdxGeosetsNew.SetIntoAt | src/formats/mdx/modelreader.ts:355-359 | `set(values, offset)` writes exactly the slots from offset on and keeps the others |
| MdxGeosetsNew.OverwriteAt | src/formats/mdx/modelreader.ts:355-359 | writing the values one by one from offset on changes those slots and no other |
| MdxGeosetsNew.VerticesReadWhen | src/formats/mdx/modelreader.ts:354-369 | for a geoset whose arrays were allocated for n vertices, the vertex loop from vertex j succeeds iff j is n or the records from j on are in the buffer (48 bytes each, the last one's unused 8 bytes skipped) |
| MdxGeosetsNew.FreshPass | src/formats/mdx/modelreader.ts:349-369 | from the allocated arrays, the loop succeeds iff n is 0 or 48n - 8 bytes are there; vertex k's position, normal and texture coordinates are the words at 0, 20 and 32 of record k; the bone lookup is `BoneLookup` of the records' tuples, and vertex k's group is its index stored as a Uint8 |
| MdxGeosetsNew.PassNeedsUvs | src/formats/mdx/modelreader.ts:359 | a geoset with vertices but no texture-coordinate array throws |
| MdxGeosetsNew.ReadVertex | src/formats/mdx/modelreader.ts:355-368 | one vertex record is `VertexAt` from the old cursor |
| MdxGeosetsNew.NextVertex | src/formats/mdx/modelreader.ts:354-369 | one turn of the vertex loop continues the same `VerticesFrom` outcome |
| MdxGeosetsNew.ReadVertices | src/formats/mdx/modelreader.ts:354-369 | the loop's state and cursor are `VerticesFrom` from the old cursor |
| MdxGeosetsNew.FaceFieldsLayout | src/formats/mdx/modelreader.ts:375-381 | the four face fields take 16 bytes, are read iff in the buffer, and the face count is the uint16 at 8 |
| MdxGeosetsNew.FaceBlockLayout | src/formats/mdx/modelreader.ts:375-386 | the face block succeeds iff its 16 bytes and the 2n face bytes are in the buffer; the faces are the uint16 values after the fields and the cursor skips the padding |
| MdxGeosetsNew.ReadFaceBlock | src/formats/mdx/modelreader.ts:375-386 | the faces and cursor are `FaceBlockAt` from the old cursor |
| MdxGeosetsNew.GeosetPassFresh | src/formats/mdx/modelreader.ts:349-387 | for a geoset allocated for n vertices the second pass succeeds iff the vertex records and the face block are there; the geoset gets the vertex loop's arrays, the trimmed bone tuples as groups and the faces, and nothing else changes |
| MdxGeosetsNew.ReadGeosetPass | src/formats/mdx/modelreader.ts:350-386 | one geoset of the second pass is `GeosetPassAt` from the old cursor |
| MdxGeosetsNew.PassKeeps | src/formats/mdx/modelreader.ts:349-387 | the second pass leaves the geosets from `count` on as they were |
| MdxGeosetsNew.ParseGeosetsNew | src/formats/mdx/modelreader.ts:315-388 | the geosets and cursor are `GeosetsNewAt` from the old cursor |
| MdxReader.ChunksFrom | src/formats/mdx/modelreader.ts:59-69 | the chunk loop ends only at or past the end of the buffer |
| MdxReader.MagicRequired | src/formats/mdx/modelreader.ts:16-18 | a model is read only from a buffer starting with "MDLX"; any other start throws "Not a mdx model" |
| MdxReader.ChunkHead | src/formats/mdx/modelreader.ts:60-68 | a chunk whose size is cut off throws a RangeError; an unknown keyword throws "Unknown group"; a known one runs its parser after the 8 header bytes |
| MdxReader.SizeIgnored | src/formats/mdx/modelreader.ts:131-136 | a VERS chunk reads its four bytes whatever its declared size says |
| MdxReader.VersionGate | src/formats/mdx/modelreader.ts:131-136 | a VERS chunk outside 1300..1500 makes the whole read throw "Invalid version" |
| MdxReader.GeosetsFollowVersion | src/formats/mdx/modelreader.ts:225-230 | after VERS, a GEOS chunk is read with the version 1500 layout iff the version is 1500, and the older layout otherwise |
| MdxReader.PivotsAssigned | src/formats/mdx/modelreader.ts:71-75 | after the pivot loop a stored node has `PivotPoints[ObjectId]` when that point exists, and keeps its old pivot otherwise; an empty slot stays empty |
| MdxReader.ShapePivotsFollowNodes | src/formats/mdx/modelreader.ts:71-75 | a hit-test shape whose node is the object stored under its ObjectId (equal fields and the same record origin) gets the same pivot as that node; any other shape is unchanged |
| MdxReader.ParseChunk | src/formats/mdx/modelreader.ts:63-64 | the keyword's parser on the shared cursor gives `ChunkBodyAt` |
| MdxReader.AssignPivots | src/formats/mdx/modelreader.ts:71-75 | the loop gives `WithPivots` |
| MdxReader.NextChunk | src/formats/mdx/modelreader.ts:60-68 | one turn moves the cursor forward and continues the same `ChunksFrom` outcome |
| MdxReader.Read | src/formats/mdx/modelreader.ts:13-78 | the model is `ModelAt(buffer)` |
| ManagerConsts.SetGetTexture | src/managers/consts.ts:49-58 | after `setTexture`, `getTexture` at that variation and colour gives the texture; other variations read as before; another colour of the same variation reads as before, and as present once the variation has been created |
| ManagerConsts.WithCellSpec | src/managers/consts.ts:49-54 | a store into one cell of one list keeps race and gender; a cell reads the new texture exactly when it is the cell written, and otherwise what it held |
| ManagerConsts.NewCharVariationEmpty | src/managers/consts.ts:32-47 | a new `CharVariation` keeps its race and gender and holds no texture in any cell of any of its eleven lists |
| Results.Holes | src/managers/consts.ts:64-66 | `new Array(0xF)`: n slots, every one unset |
| ManagerConsts.Slotted | src/managers/consts.ts:68-70 | storing into slot k keeps the length when k is inside the array and otherwise grows it to k + 1 |
| ManagerConsts.SlottedGet | src/managers/consts.ts:68-74 | `get` of the slot just `set` gives the file name; every other slot reads as before |
| ManagerConsts.KeyEmpty | src/managers/consts.ts:76 | `toString` is empty exactly when every slot is unset or holds "" |
| ManagerConsts.KeyOfOne | src/managers/consts.ts:76 | a variation with a single slot set has that file name, upper-cased, as its `toString` |
| ManagerConsts.JoinedOne | src/managers/consts.ts:76 | `join('')` of an array with a single slot set is that slot's file name |
| ManagerConsts.JoinedUnset | src/managers/consts.ts:76 | `join('')` of an array with no slot set is "" |
| ManagerConsts.TextureVariation.constructor | src/managers/consts.ts:64-66 | a new variation has 0xF slots and none set |
| ManagerConsts.TextureVariation.Set | src/managers/consts.ts:68-70 | `set` stores the file name in its slot (growing the array past its end) and changes nothing else |
| ManagerConsts.DedupFirstOccurrences | src/managers/itemmanager.ts:45-52 | the de-duplication keeps exactly the entries that are the first of their non-empty `toString` key, in their order |
| ManagerConsts.DedupKeys | src/managers/itemmanager.ts:45-48 | the keys of the map after n entries are the non-empty keys among those n entries |
| ManagerConsts.SeenKeysMembers | src/managers/itemmanager.ts:45-48 | a key has been seen exactly when an earlier entry has it and it is non-empty |
| ManagerConsts.IsFirstUnseen | src/managers/itemmanager.ts:47 | an entry is kept (`!!key && !map.has(key)`) exactly when its key is non-empty and no earlier entry has it |
| ManagerConsts.DedupDistinct | src/managers/itemmanager.ts:45-52 | every variation returned has a non-empty key, and no two have the same key |
| ManagerConsts.DedupPrefix | src/managers/itemmanager.ts:45-52 | the first n entries decide what is kept after them: later entries do not change it |
| ManagerConsts.GatheredIsDedup | src/managers/creaturemanager.ts:43-50 | the map's values after reading the rows are the de-duplication of the entries the rows yield |
| ManagerConsts.GatheredFrom | src/managers/creaturemanager.ts:43-50 | every variation returned has a non-empty key and is the entry of some row |
| ManagerConsts.Collect | src/managers/creaturemanager.ts:44-46 | one step of the map: the entry is appended exactly when its key is non-empty and new, and the key set follows |
| ManagerConsts.AddAllConcat | src/managers/itemmanager.ts:66-68 | adding ids in two runs is adding them in one |
| ManagerConsts.IdsOfMembers | src/managers/itemmanager.ts:55-73 | a model is a key of the map exactly when some add names it, and an id is in its set exactly when that (model, id) was added |
| ManagerConsts.IdLoop | src/managers/creaturemanager.ts:53-68 | the loop of `getModelMap` returns the map built from all rows, or the error of the first row that throws |
| ManagerConsts.AddIds | src/managers/itemmanager.ts:59-69 | the inner loop adds each (model, id) of a row to the map in turn |
| ManagerConsts.TableHas | src/managers/itemmanager.ts:55-73 | every (model, id) a row yields is in the finished map |
| ManagerConsts.TableKeys | src/managers/creaturemanager.ts:53-68 | every model in the finished map comes from some row |
| Characters.NormalizePath | src/managers/charactermanager.ts:273-275 | the name is upper case and holds no path separator |
| Characters.NormalizePathCase | src/managers/charactermanager.ts:273-275 | upper-casing the file name first gives the same key |
| Characters.NormalizeTexture | src/managers/charactermanager.ts:277-279 | the texture name keeps its length |
| Characters.NormalizeTextureUpper | src/managers/charactermanager.ts:277-279 | the texture name is upper case |
| Characters.NormalizeTextureTga | src/managers/charactermanager.ts:277-279 | a ".tga" texture is looked up as the upper-cased stem with ".BLP" |
| Characters.GeosetKeys | src/managers/charactermanager.ts:128-144 | a key is in the geoset map exactly when some row has it |
| Characters.GeosetsLastRow | src/managers/charactermanager.ts:146-177 | the last row with a key and style is the one whose geosets are kept |
| Characters.GeosetsUnwritten | src/managers/charactermanager.ts:128-177 | with no row for a key and style the sparse array holds nothing there |
| Characters.GeosetsForRows | src/managers/charactermanager.ts:82-90 | `getHairGeosets` answers `[0]` for a model no row names, the last row's geosets for a written style, and undefined for an unwritten style of a known model |
| Characters.ReadGeosets | src/managers/charactermanager.ts:128-177 | `getHairMap` and `getFacialHairMap` return the map of their table's rows, or the first error (a missing table throws) |
| Characters.GeosetLoop | src/managers/charactermanager.ts:132-141 | the row loop stores each row read in turn and stops at the first row that throws |
| Characters.BetaNames | src/managers/charactermanager.ts:243-264 | a CharSections row names one texture per list its section fills |
| Characters.ApplyConcat | src/managers/charactermanager.ts:194-222 | storing two runs of textures is storing them in one |
| Characters.VariationsOfKey | src/managers/charactermanager.ts:190-271 | the entry of a key is a new variation with the race and gender of the first row of that key, with every texture of that key's rows stored in order |
| Characters.VariationsWithout | src/managers/charactermanager.ts:190-271 | a key no kept row has is not in the map |
| Characters.ApplyKeepsIds | src/managers/charactermanager.ts:205-221 | storing textures never changes a variation's race and gender |
| Characters.ApplyLastWrite | src/managers/charactermanager.ts:207-219 | the last texture stored into a cell is the one it holds |
| Characters.ApplyUnwritten | src/managers/charactermanager.ts:243-265 | a cell no texture is stored into keeps what it held |
| Characters.ReadVariations | src/managers/charactermanager.ts:190-271 | `getAlphaModelMap` and `getBetaModelMap` return the map of their table's rows, with NPC rows skipped, or the first error |
| Characters.VariationLoop | src/managers/charactermanager.ts:194-222 | the row loop stores each kept row into its key's entry and stops at the first row that throws |
| Characters.StoreRow | src/managers/charactermanager.ts:204-221 | one row: `map.get(key) || new CharVariation`, its textures stored, then `map.set` |
| Characters.CharacterManager.constructor | src/managers/charactermanager.ts:36 | all maps start empty |
| Characters.CharacterManager.GetModelMap | src/managers/charactermanager.ts:179-188 | `nakedByDefault` is the negation of whether CharTextureVariationsV2 exists; the map is read from that table when it exists and from CharSections otherwise; no map changes |
| Characters.CharacterManager.Load | src/managers/charactermanager.ts:42-46 | the model map, the hair map and the facial hair map are set in that order; the first table that throws is the error, and the maps after it keep their old values |
| Items.IsSuffixSpec | src/managers/itemmanager.ts:8-12 | a race-gender suffix is exactly one of the sixteen listed |
| Items.NormalizeShape | src/managers/itemmanager.ts:75-84 | the key is upper case and ends in ".MDX" |
| Items.SuffixPlain | src/managers/itemmanager.ts:8-12 | a suffix is upper case and holds no '_', '.' or separator |
| Items.NormalizeStripsSuffix | src/managers/itemmanager.ts:75-84 | a name ending in "_" and a suffix is keyed by its upper-cased stem with ".MDX" |
| Items.NormalizeBareSuffix | src/managers/itemmanager.ts:79-83 | a name that is only a suffix is keyed ".MDX" |
| Items.NormalizeCase | src/managers/itemmanager.ts:75-84 | upper-casing the file name first gives the same key |
| Items.ModelMapHas | src/managers/itemmanager.ts:55-73 | every non-empty left or right model name of every row maps to that row's id |
| Items.RowHas | src/managers/itemmanager.ts:59-69 | one row yields the id of each non-empty model name it holds |
| Items.ModelMapKeys | src/managers/itemmanager.ts:55-73 | every model in the map is the key of a non-empty model name of some row |
| Items.SkinKey | src/managers/itemmanager.ts:36-46 | a row's variation has as key its skin path upper-cased, or "" when the row names no texture |
| Items.UnknownModelThrows | src/managers/itemmanager.ts:31-35 | a model the map does not know throws (`modelIds.has` on undefined) as soon as there is a row |
| Items.TexturesAreSkins | src/managers/itemmanager.ts:27-53 | every variation returned sets the object skin, and only it, to a named texture in the model's directory |
| Items.SkinRow | src/managers/itemmanager.ts:36-44 | a row that yields a variation with a key set the object skin to a non-empty texture |
| Items.ItemManager.constructor | src/managers/itemmanager.ts:14-16 | no table and an empty model map |
| Items.ItemManager.Load | src/managers/itemmanager.ts:18-21 | the display table is stored, then the model map is built from it; an error leaves the old map and is returned |
| Items.ItemManager.GetTextures | src/managers/itemmanager.ts:27-53 | the variations returned are the de-duplicated variations of the display rows of the model's ids; a missing table, an unknown model or a row that throws gives the error |
| Items.TextureLoop | src/managers/itemmanager.ts:34-50 | the loop over display rows returns the de-duplicated entries of all rows, or the first row's error |
| Items.NewEntry | src/managers/itemmanager.ts:35-43 | a row of the model gives a fresh variation with the right texture when the right model is this one, else the left |
| Items.Absorb | src/managers/itemmanager.ts:35-48 | one turn of the loop throws exactly when its row does; otherwise the row's variation is kept exactly when its key is non-empty and new (`Keep`) |
| Items.ExistsCase | src/managers/itemmanager.ts:23-25 | `exists` ignores case |
| Creatures.NormalizePathCase | src/managers/creaturemanager.ts:70-72 | upper-casing the file name first gives the same key |
| Creatures.NormalizePathMdl | src/managers/creaturemanager.ts:70-72 | a ".mdl" model is keyed by its upper-cased stem with ".MDX" |
| Creatures.NormalizePathMdx | src/managers/creaturemanager.ts:70-72 | a ".mdx" model is keyed by its upper-cased stem with ".MDX" |
| Creatures.ModelMapHas | src/managers/creaturemanager.ts:53-68 | every row of a non-character model maps that model to the row's id |
| Creatures.NoCharacterModels | src/managers/creaturemanager.ts:59-60 | no model starting with CHARACTER is in the map |
| Creatures.ModelRowFrom | src/managers/creaturemanager.ts:58-64 | a row yields no character model |
| Creatures.SkinNames | src/managers/creaturemanager.ts:35-36 | a display row has three monster skin columns |
| Creatures.MonsterSlotsAt | src/managers/creaturemanager.ts:32-41 | after n skin columns, Monster slot j holds skin j's path when it is named, and every other slot is unset |
| Creatures.MonsterSlotsStep | src/managers/creaturemanager.ts:35-41 | one more skin column changes at most its own slot |
| Creatures.MonsterSlotsShape | src/managers/creaturemanager.ts:32-41 | the skins never grow the slot array, and every column read succeeded |
| Creatures.MonsterSlotsErr | src/managers/creaturemanager.ts:35-36 | a skin column that throws makes the whole row throw |
| Creatures.UnknownModelThrows | src/managers/creaturemanager.ts:27-31 | a model the map does not know throws as soon as there is a row |
| Creatures.TexturesFromRows | src/managers/creaturemanager.ts:23-51 | every variation returned holds the three skins of a display row whose model id is one of the model's |
| Creatures.CreatureManager.constructor | src/managers/creaturemanager.ts:10-12 | no table and an empty model map |
| Creatures.CreatureManager.Load | src/managers/creaturemanager.ts:14-17 | the display table is stored, then the model map is built from CreatureModelData; an error leaves the old map and is returned |
| Creatures.CreatureManager.GetTextures | src/managers/creaturemanager.ts:23-51 | the variations returned are the de-duplicated variations of the display rows of the model's ids; a missing table, an unknown model or a row that throws gives the error |
| Creatures.ExistsCase | src/managers/creaturemanager.ts:19-21 | `exists` ignores case |
| Creatures.TextureLoop | src/managers/creaturemanager.ts:30-48 | the loop over display rows returns the de-duplicated entries of all rows, or the first row's error |
| Creatures.NewEntry | src/managers/creaturemanager.ts:31-41 | a row of the model gives a fresh variation with its monster skins |
| Creatures.Absorb | src/managers/creaturemanager.ts:31-46 | one turn of the loop throws exactly when its row does; otherwise the row's variation is kept exactly when its key is non-empty and new (`Keep`) |
| Files.DataDirectoryEnds | src/managers/filemanager.ts:44-45 | the directory chosen ends in "data" in any case, so choosing again keeps it |
| Files.LowerKeepsSuffix | src/managers/filemanager.ts:44 | lowering a string lowers its suffix |
| Files.ArchivesForSpec | src/managers/filemanager.ts:156-173 | the archives asked are the patch archive (first, when there is one) and the archive of the extension, none twice, and none for an empty name |
| Files.ArchivesForDistinct | src/managers/filemanager.ts:156-173 | no archive is asked twice |
| Files.AdvanceKeeps | src/managers/filemanager.ts:72-75 | asking an archive keeps its header, its hash table and the number of its block entries |
| Files.FetchLastHolder | src/managers/filemanager.ts:68-76 | the result is what the last archive holding the name extracts |
| Files.FetchOk | src/managers/filemanager.ts:68-76 | archives that all answer give a result |
| Files.FetchNone | src/managers/filemanager.ts:64-84 | no archive holding the name gives null |
| Files.FetchThrows | src/managers/filemanager.ts:71-76 | the first archive that throws ends the look-up with its error |
| Files.FetchStep | src/managers/filemanager.ts:72-75 | one archive either throws or replaces the result when it holds the name |
| Files.FetchPrefixErr | src/managers/filemanager.ts:71-76 | an error part way through is the error of the whole look-up |
| Files.FirstError | src/managers/filemanager.ts:71-76 | the index of the first archive that throws, every archive before it answering; -1 when all answer |
| Files.Asked | src/managers/filemanager.ts:71-76 | the loop asks at most every archive |
| Files.FetchFailsAtFirstError | src/managers/filemanager.ts:71-76 | the look-up throws exactly when some archive throws, with the first one's error; otherwise every archive was asked |
| Files.FetchAskedUpTo | src/managers/filemanager.ts:71-76 | when the archives before k answer and archive k throws, k + 1 archives are asked |
| Files.Updates | src/managers/filemanager.ts:72-75 | every archive that stored a value is in the cache |
| Files.UpdatesNext | src/managers/filemanager.ts:72-75 | one more asked archive replaces its own cache entry |
| Files.UpdatesElsewhere | src/managers/filemanager.ts:72-75 | an archive not asked keeps its cache entry, or its absence |
| Files.UpdatesAt | src/managers/filemanager.ts:72-75 | among distinct archives, each asked one holds what it stored |
| Files.UpdatesCache | src/managers/filemanager.ts:70-76 | after the first n distinct archives are asked, those hold what they stored and every other cache entry is as it was |
| Files.ListAnswers | src/managers/filemanager.ts:139-153 | one answer per archive of the list, in that order |
| Files.ListLinesSpec | src/managers/filemanager.ts:142-150 | an archive contributes lines exactly when it exists and lists a file, and its lines joined with CR LF are the list file |
| Files.ListedSome | src/managers/filemanager.ts:136-154 | the list is non-empty exactly when some archive carries a list |
| Files.ListedStep | src/managers/filemanager.ts:139-153 | each archive appends its lines, or ends the reading with its error |
| Files.ListedErr | src/managers/filemanager.ts:139-153 | an error part way through is the error of the whole reading |
| Files.Gathered | src/managers/filemanager.ts:136-154 | when every list is read, the lines kept are the whole list |
| Files.GatheredAtError | src/managers/filemanager.ts:139-153 | when the list of archive k throws, the lines kept are those of the archives before it |
| Files.ModelNames | src/managers/filemanager.ts:86-88 | every name kept ends in ".mdx" in any case |
| Files.ModelNamesSpec | src/managers/filemanager.ts:100 | the filter keeps exactly the listed names that end in ".mdx" |
| Files.Find | src/managers/filemanager.ts:105 | the node found in a level carries the name |
| Files.FindSpec | src/managers/filemanager.ts:105 | no node before the one found carries the name |
| Files.FindSameNames | src/managers/filemanager.ts:104-125 | a level whose names are unchanged finds every name where it did |
| Files.FindAppended | src/managers/filemanager.ts:121 | a node pushed at the end of a level moves no earlier find |
| Files.InsertSeen | src/managers/filemanager.ts:104-125 | a path whose chain of names already leads to a node changes nothing |
| Files.FreshReaches | src/managers/filemanager.ts:106-121 | a new chain of nodes ends in a selectable file node tagged with its path |
| Files.InsertReaches | src/managers/filemanager.ts:102-126 | after inserting a path its chain of names leads to a node |
| Files.InsertNew | src/managers/filemanager.ts:104-125 | a new path ends in a selectable node tagged with it |
| Files.InsertKeeps | src/managers/filemanager.ts:104-125 | every chain that led to a node before still does, to the same kind of node |
| Files.ReachesAt | src/managers/filemanager.ts:104-125 | a chain leads somewhere exactly when there is a node at its end |
| Files.InsertDistinct | src/managers/filemanager.ts:105-121 | inserting never puts two nodes of one name in a level |
| Files.FreshDistinct | src/managers/filemanager.ts:106-121 | a new chain has distinct names at every level |
| Files.InsertTagged | src/managers/filemanager.ts:115-119 | every selectable node stays tagged with its own path |
| Files.FreshTagged | src/managers/filemanager.ts:115-119 | the new file node is tagged with the path it ends |
| Files.TreeSpec | src/managers/filemanager.ts:95-129 | the tree has distinct names at every level, every selectable node is tagged with its own path, and every model path leads to a node |
| Files.FileManager.Answers | src/managers/filemanager.ts:71-76 | one answer per archive path, each what that archive says about the name |
| Files.FileManager.constructor | src/managers/filemanager.ts:21-35 | no directory, no list, no patch archive and no cached archive |
| Files.FileManager.LoadArchive | src/managers/filemanager.ts:175-183 | the cached archive of the path, or a new one that is then cached |
| Files.FileManager.Visit | src/managers/filemanager.ts:72-75 | one archive is loaded and asked; its cache entry takes what it read |
| Files.FileManager.GetFile | src/managers/filemanager.ts:64-84 | the result is the look-up over the archives of the name; each archive asked, up to the first that throws, holds in the cache what it read; every other cache entry is unchanged |
| Files.FileManager.Visited | src/managers/filemanager.ts:72-75 | what each archive keeps in the cache once asked for the name |
| Files.FileManager.FetchAll | src/managers/filemanager.ts:70-76 | the loop over distinct archive paths gives the look-up over their answers, and the cache becomes the old one with the asked archives' entries replaced by what they read |
| Files.FileManager.Close | src/managers/filemanager.ts:131-134 | every cached archive is closed and the cache emptied; a cached archive never opened throws |
| Files.FileManager.ListOf | src/managers/filemanager.ts:140-151 | the lines of one archive's list file, none when it is missing or lists nothing |
| Files.FileManager.GetListFile | src/managers/filemanager.ts:136-154 | the list becomes the lines of every archive in order, or the first error is returned and the list keeps the lines of the archives before the failing one |
| Files.FileManager.SetDirectory | src/managers/filemanager.ts:41-57 | when closing throws, nothing but the error changes; otherwise the cache is closed, the data directory and its patch archive chosen, the list read as far as it goes, and the result says whether the list names anything |
| Files.FileManager.GetModelTreeView | src/managers/filemanager.ts:95-129 | the tree built from the model names in the collator's order |
| Files.Ask | src/managers/filemanager.ts:73-75 | `exists` then `extract` on one archive: what it answers and what it reads |
| Files.ExistsIgnoresCase | src/managers/filemanager.ts:59-62 | `exists` ignores case |
| Files.ExistsListed | src/managers/filemanager.ts:59-62 | every listed name exists, in any case |
| Text.SplitJoin | src/managers/filemanager.ts:103 | splitting on '\' and joining again gives the path |
| Text.SplitLinesJoin | src/managers/filemanager.ts:146-147 | splitting on CR LF and joining again gives the text |

## Left out

- File I/O: an archive is the byte sequence its file holds, and the disk is a map
  from paths to bytes. The file descriptor itself is not modelled.
- `read` past the end of the file: `Buffer.allocUnsafe` leaves those bytes
  unspecified. The model reads them as zero.
- The zlib and PKWare implode decoders are foreign libraries. They are parameters
  (`Codecs`) that either return bytes or fail.
- MpqExtraction.NegativeSectorSizeReadsNothing: states only that the result has
  `b.size` bytes and does not depend on the archive or the codecs. The output
  buffer of `extract` comes from `Buffer.allocUnsafe`, so the bytes no sector
  writes (all of them here, and the tail after a short decompressed sector) are
  unspecified in the program. The model fills that buffer with zeros.
- Text decoding: `toString('utf-8')` in `str`, in DBC `string` and on the list
  file is modelled as one character per byte. Multi-byte UTF-8 sequences are not
  decoded.
- Case mapping is ASCII only, in the MPQ name hash and in every manager's
  normalisation. A name with a non-ASCII letter is upper-cased differently by
  the program.
- Floating point: a float is its 32-bit pattern and a packed quaternion its
  eight bytes. No value is decoded, and no arithmetic is done on floats.
- BLP `getImageData`, `getUncompressed` and `getBGRA` (palette, raw BGRA and the
  dispatch between them), and `Load`: the model covers the header, the DXT
  decoding and `getCompressed`.
- BlpImage.GetAlpha: defined for alpha depths 0, 1, 2, 4 and 8 only, the depths
  BLP2 files carry. Other depths give fractional shifts in the program.
- The MDX chunk parsers other than `VERS`, `GLBS`, `TEXS`, `GEOS`, `PIVT` and
  `HTST` (sequences, materials, bones, lights, emitters, cameras, collision and
  the others): they are one given function, `Parser`, that is assumed never to
  move the cursor back (`Advances`). Nothing constrains the nodes such a parser
  stores, so the identity argument (`ReplacedShapeNotStored`) covers the
  shapes of one HTST chunk, not nodes the given parsers store.
- BinaryReader.Reader.ExpectKeyword: the error carries the caller's text only;
  the ". Expected <keyword>" suffix of the message is not modelled.
- Dbc.Table.constructor: requires a `Loadable` file, because a Dafny
  constructor cannot throw. The files `new DBC` throws on (shorter than the
  header, or with a record block running past the end) are `Dbc.Open`'s
  RangeError.
- DBC `float` and `DBC.Load`: `float` reads a float (see above), and a table that
  `Load` would open is a parameter, null when the file is missing.
- Manager fields before `load`: the program leaves them undefined; the model
  starts them empty (or null for a table).
- The character manager's `getTextures`, `getStyleOptions` and
  `getTextureRegions`: they only read the maps modelled here for the renderer,
  whose character state is not part of this model.
- Paths use Windows semantics (backslash separators): `path.join`, `parse`,
  `dirname` and `extname` are modelled for names without drive letters, `..` or
  repeated separators.
- The Intl.Collator order of `getModelTreeView` is an input: the caller supplies
  the model names sorted; the model requires only that they are a permutation of
  the listed names.
- `loadManagers`, the file manager's `getTextures` dispatch to the first manager
  that knows the model, and `getFileNames` with a general regular expression:
  only the `.mdx` filter is modelled.
- Logging through `console`, and the `getInstance` singletons.
- The tree view keeps its levels as plain sequences. The program indexes a level
  by name through object properties. A path part named `result` finds the
  level's own list of children, and a name such as `constructor` finds a
  prototype member. The model compares names only.
- The file manager's cache holds, per path, the tables the archive has read
  rather than `MpqFile` objects; `close` on an archive is modelled by whether it
  ever opened its file.

## Findings

| source | as written | input that shows it | evidently intended | confidence | as-written member | corrected member |
|---|---|---|---|---|---|---|
| src/formats/blp/blp.ts:277-284 | `getAlpha` shifts the byte by `valsPerByte - index % valsPerByte - 1`, a count of values, not of bits, so for alpha depths 2 and 4 the fields overlap | alpha depth 4, byte 0xF0: pixels 0 and 1 get 8 and 0 instead of 15 and 0 | shift by `alphaDepth * (valsPerByte - index % valsPerByte - 1)`, so the byte splits into its fields | not executed | BlpImage.AlphaNibblesOverlap | BlpImage.FieldAlphaNibbles |
