/** What the sector loop of src/formats/mpq/mpq.ts guarantees: the signed shift
    behind the sector size, the sector count it yields, and how each sector is
    deciphered and placed. */
module MpqExtraction {
  import opened Results
  import opened Bytes
  import opened MpqStructs
  import opened MpqCrypto
  import opened MpqArchive

  /** The Exists test can never fire: `&` yields a signed 32-bit value, and 2^31
      is not one. */
  lemma ExistsTestNeverFires(flags: int)
    ensures !HasFlag(flags, ExistsFlag)
  {
  }

  lemma {:induction false} Pow2Add(a: nat, b: nat)
    ensures Pow2(a + b) == Pow2(a) * Pow2(b)
  {
    if a > 0 {
      Pow2Add(a - 1, b);
    }
  }

  lemma Pow2At9()
    ensures Pow2(9) == 512
  {
    assert Pow2(4) == 16;
  }

  lemma {:induction false} Pow2Monotone(a: nat, b: nat)
    requires a <= b
    ensures Pow2(a) <= Pow2(b)
  {
    if a < b {
      Pow2Monotone(a, b - 1);
    }
  }

  lemma Pow2Below31(k: nat)
    requires k <= 21
    ensures 512 * Pow2(k) < Two31
  {
    Pow2At32();
    assert Pow2(21) == 2 * 2 * 2 * 2 * 2 * Pow2(16);
    Pow2Monotone(k, 21);
  }

  lemma Pow2Above32(k: nat)
    requires 23 <= k
    ensures 512 * Pow2(k) == 0x1_0000_0000 * Pow2(k - 23)
  {
    Pow2At32();
    Pow2At9();
    Pow2Add(9, k);
    Pow2Add(32, k - 23);
  }

  lemma Pow2At22()
    ensures 512 * Pow2(22) == Two31
  {
    Pow2At32();
    Pow2At9();
    Pow2Add(9, 22);
  }

  lemma SectorSizeOf(shift: int)
    ensures SectorSize(shift) == ToInt32(512 * Pow2(shift % 32))
  {
    assert Low32(512) == 512;
  }

  lemma SectorSizeSmall(shift: int)
    requires shift % 32 <= 21
    ensures SectorSize(shift) == 512 * Pow2(shift % 32) > 0
  {
    var x := 512 * Pow2(shift % 32);
    SectorSizeOf(shift);
    Pow2Below31(shift % 32);
    assert x % 0x1_0000_0000 == x;
  }

  lemma SectorSizeSignBit(shift: int)
    requires shift % 32 == 22
    ensures SectorSize(shift) == -Two31
  {
    SectorSizeOf(shift);
    Pow2At22();
  }

  lemma SectorSizeShiftedOut(shift: int)
    requires shift % 32 >= 23
    ensures SectorSize(shift) == 0
  {
    var k := shift % 32;
    SectorSizeOf(shift);
    Pow2Above32(k);
    var m := Pow2(k - 23);
    assert (0x1_0000_0000 * m) % 0x1_0000_0000 == 0;
  }

  /** `512 << shift` doubles for each shift up to 21; 22 reaches the sign bit, and
      from 23 on every bit is shifted out (the count itself is taken mod 32). */
  lemma SectorSizeValues(shift: int)
    ensures shift % 32 <= 21 ==> SectorSize(shift) == 512 * Pow2(shift % 32) > 0
    ensures shift % 32 == 22 ==> SectorSize(shift) == -Two31
    ensures shift % 32 >= 23 ==> SectorSize(shift) == 0
  {
    if shift % 32 <= 21 {
      SectorSizeSmall(shift);
    } else if shift % 32 == 22 {
      SectorSizeSignBit(shift);
    } else {
      SectorSizeShiftedOut(shift);
    }
  }

  /** With a sector size of zero the count is Infinity: the loop only stops by
      throwing. */
  lemma {:induction false} InfiniteSectorsFail(st: SectorState, i: nat, p: SectorParams, codecs: Codecs)
    requires |st.data| == p.archivedSize && p.sectorSize == 0
    ensures SectorsFrom(st, i, Infinite, p, codecs).Err?
    decreases |st.data| - 4 * i
  {
    if 4 * i + 8 <= |st.data| {
      var next := ReadSector(st, i, p, codecs);
      if next.Ok? {
        InfiniteSectorsFail(next.value, i + 1, p, codecs);
      }
    }
  }

  /** A shift that makes the sector size zero (23 to 31, mod 32) never yields a file. */
  lemma ZeroSectorSizeNeverExtracts(file: seq<byte>, shift: int, b: BlockEntry, name: string, codecs: Codecs)
    requires Sizes(b) && SectorSize(shift) == 0 && b.archivedSize != 0 && b.size > 1
    ensures ExtractBlock(file, shift, b, name, codecs).Err?
  {
    var encrypted := HasFlag(b.flags, EncryptedFlag);
    var key := if encrypted then FileKey(name, b) else Ok(-1);
    if key.Ok? {
      var data := ReadAt(file, b.offset, b.archivedSize);
      var count := SectorCountOf(b.size, 0);
      var table := if encrypted then DecryptedBytes(data, key.value - 1, 0, OffsetTableSize(count, |data|)) else data;
      InfiniteSectorsFail(SectorState(table, Zeros(b.size)), 0,
        SectorParams(encrypted, key.value, 0, b.archivedSize), codecs);
    }
  }

  /** A shift of 22 makes the sector size negative and the count 0 or -1: no
      sector is read, so the result is the output buffer as allocated, whatever
      the archive's bytes and the codecs are. */
  lemma NegativeSectorSizeReadsNothing(file: seq<byte>, other: seq<byte>, shift: int, b: BlockEntry, name: string,
                                       codecs: Codecs, otherCodecs: Codecs)
    requires Sizes(b) && SectorSize(shift) < 0 && ReadsSectors(b)
    ensures ExtractBlock(file, shift, b, name, codecs) == ExtractBlock(other, shift, b, name, otherCodecs)
    ensures ExtractBlock(file, shift, b, name, codecs).Ok? ==> |ExtractBlock(file, shift, b, name, codecs).value.value| == b.size
  {
  }

  /** The three structural checks of a sector are exactly the ones that report a
      corrupt archive. */
  lemma SectorCorruptIff(st: SectorState, i: nat, p: SectorParams, codecs: Codecs)
    requires 4 * i + 8 <= |st.data| == p.archivedSize && p.sectorSize >= 0
    ensures var cur := U32At(st.data, 4 * i);
      var next := U32At(st.data, 4 * i + 4);
      ReadSector(st, i, p, codecs) == Err(CorruptArchive) <==> next < cur || next - cur > p.sectorSize || cur > p.archivedSize
  {
  }

  /** A sector stored at full size is copied byte for byte to i * sectorSize (as
      far as both buffers reach); the rest of the output is untouched. */
  lemma RawSectorCopied(data: seq<byte>, out: seq<byte>, i: nat, cur: nat, ss: nat, codecs: Codecs)
    requires cur <= |data|
    ensures PlaceSector(data, out, i, cur, ss, ss, codecs).Ok?
    ensures var r := PlaceSector(data, out, i, cur, ss, ss, codecs).value;
      && (forall k :: i * ss <= k < i * ss + ss && k < |out| && cur + (k - i * ss) < |data| ==>
            r[k] == data[cur + (k - i * ss)])
      && (forall k :: 0 <= k < |out| && !(i * ss <= k < i * ss + ss) ==> r[k] == out[k])
  {
  }

  /** A sector stored shorter than a sector goes through the codec its first byte
      names (0x08 PKWare, 0x02 zlib, anything else throws), and what the codec
      returns lands at i * sectorSize. */
  lemma ShortSectorDecompressed(data: seq<byte>, out: seq<byte>, i: nat, cur: nat, css: int, ss: nat, codecs: Codecs)
    requires cur <= |data| && css != ss
    ensures var r := PlaceSector(data, out, i, cur, css, ss, codecs);
      var bytes := DecompressSector(data, cur, css, codecs);
      && (r.Ok? <==> bytes.Ok?)
      && (r.Ok? ==> r.value == CopyInto(out, i * ss, bytes.value, 0, |bytes.value|))
      && (r.Err? ==> r.error == bytes.error)
  {
  }

  /** Once `extract` has cleared the Encrypted bit on the stored entry, extracting
      the same entry again reads its sectors without deciphering them (key -1),
      so an encrypted file comes back as ciphertext the second time. */
  lemma ExtractAgainReadsCiphertext(file: seq<byte>, shift: int, b: BlockEntry, name: string, codecs: Codecs)
    requires Sizes(b)
    ensures Sizes(ClearEncrypted(b)) && BlockKey(name, ClearEncrypted(b)) == Ok(-1)
    ensures var again := BlockSectors(file, shift, ClearEncrypted(b), name, codecs);
      again == Err(UnsupportedFeature) || again == ExtractSectors(file, b, false, -1, SectorSize(shift), codecs)
  {
    ClearEncryptedClears(b);
  }
}
