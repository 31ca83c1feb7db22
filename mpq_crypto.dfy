/** The MPQ string hash and the word stream cipher of src/formats/mpq/mpq.ts
    (`hash`, `decryptionKey`, `decrypt`), both driven by the cipher table. */
module MpqCrypto {
  import opened Results
  import opened Bytes
  import opened Text
  import T = MpqCipherTable

  /** The four hash flavours; the flavour selects a 256-slot band of the table. */
  datatype HashType = TableOffset | HashA | HashB | TableKey

  function Band(t: HashType): (r: int)
    ensures 0 <= r < 4
  {
    match t
    case TableOffset => 0
    case HashA => 1
    case HashB => 2
    case TableKey => 3
  }

  // ---------------------------------------------------------------------------
  // Name normalisation

  /** `str.replace(/\//g, '\\')`. */
  function SlashesToBackslashes(s: string): (r: string)
    ensures |r| == |s|
    ensures forall k :: 0 <= k < |s| ==> r[k] == (if s[k] == '/' then '\\' else s[k])
  {
    seq(|s|, k requires 0 <= k < |s| => if s[k] == '/' then '\\' else s[k])
  }

  /** The name `hash` actually hashes: '/' becomes '\' only when the name has a
      '/' and no '\', then everything is upper-cased. */
  function Normalize(s: string): string {
    ToUpper(if '/' in s && '\\' !in s then SlashesToBackslashes(s) else s)
  }

  predicate IsLowerAscii(c: char) { 'a' <= c <= 'z' }

  /** A normalised name has no lower-case letter, and keeps its '/' only when it
      also had a '\' (so mixed separators survive untouched). */
  lemma NormalizeShape(s: string)
    ensures |Normalize(s)| == |s|
    ensures forall k :: 0 <= k < |s| ==> !IsLowerAscii(Normalize(s)[k])
    ensures '/' in Normalize(s) ==> '\\' in s && '/' in s
  {
    var r := Normalize(s);
    if '/' in r {
      var k :| 0 <= k < |r| && r[k] == '/';
      assert s[k] == '/';
      if '\\' !in s {
        assert SlashesToBackslashes(s)[k] == '\\';
      }
    }
  }

  lemma NormalizeIdempotent(s: string)
    ensures Normalize(Normalize(s)) == Normalize(s)
  {
    var r := Normalize(s);
    NormalizeShape(s);
    if '/' in r {
      assert '\\' in s;
      var k :| 0 <= k < |s| && s[k] == '\\';
      assert r[k] == '\\';
    }
    assert ToUpper(r) == r;
  }

  /** Case and '/' versus '\' do not matter to the hash input. */
  lemma NormalizeIgnoresCase(s: string)
    ensures Normalize(ToUpper(s)) == Normalize(s)
  {
    var u := ToUpper(s);
    assert ('/' in u) == ('/' in s) by {
      if '/' in u { var k :| 0 <= k < |u| && u[k] == '/'; assert s[k] == '/'; }
      if '/' in s { var k :| 0 <= k < |s| && s[k] == '/'; assert u[k] == '/'; }
    }
    assert ('\\' in u) == ('\\' in s) by {
      if '\\' in u { var k :| 0 <= k < |u| && u[k] == '\\'; assert s[k] == '\\'; }
      if '\\' in s { var k :| 0 <= k < |s| && s[k] == '\\'; assert u[k] == '\\'; }
    }
  }

  // ---------------------------------------------------------------------------
  // The string hash

  const HashSeed1: int := 0x7FED7FED
  const HashSeed2: int := 0xEEEEEEEE

  /** The table slot a character hashes through. */
  function Slot(t: HashType, c: char): int {
    Band(t) * 0x100 + c as int
  }

  predicate Hashable(t: HashType, c: char) { Slot(t, c) < T.TableSize }

  /** One character of the hash loop: seed1 takes the table word xored with
      seed1 + seed2, seed2 mixes in the character and the new seed1 (all mod 2^32). */
  function HashStep(t: HashType, c: char, seed1: int, seed2: int): (r: (int, int))
    requires Hashable(t, c)
    ensures 0 <= r.0 < Two32 && 0 <= r.1 < Two32
  {
    var s1 := Xor32(T.Table()[Slot(t, c)], seed1 + seed2);
    (s1, Low32(c as int + s1 + seed2 + seed2 * 32 + 3))
  }

  /** The hash loop from a given pair of seeds: fails on the first character
      whose slot is past the table. */
  function HashFrom(s: string, t: HashType, seed1: int, seed2: int): Result<int>
    decreases |s|
  {
    if |s| == 0 then Ok(seed1)
    else if !Hashable(t, s[0]) then Err(UnsupportedCharacter(s[0] as int))
    else
      var next := HashStep(t, s[0], seed1, seed2);
      HashFrom(s[1..], t, next.0, next.1)
  }

  /** `hash(str, type)`: the result is a number in [0, 2^32). */
  function Hash(s: string, t: HashType): (r: Result<int>)
    ensures r.Ok? ==> 0 <= r.value < Two32
  {
    HashFromRange(Normalize(s), t, HashSeed1, HashSeed2);
    HashFrom(Normalize(s), t, HashSeed1, HashSeed2)
  }

  lemma {:induction false} HashFromRange(s: string, t: HashType, seed1: int, seed2: int)
    requires 0 <= seed1 < Two32
    ensures HashFrom(s, t, seed1, seed2).Ok? ==> 0 <= HashFrom(s, t, seed1, seed2).value < Two32
    decreases |s|
  {
    if |s| > 0 && Hashable(t, s[0]) {
      var next := HashStep(t, s[0], seed1, seed2);
      HashFromRange(s[1..], t, next.0, next.1);
    }
  }

  /** Index of the first character outside the hash type's band of the table, or |s|. */
  function FirstUnhashable(s: string, t: HashType): (r: nat)
    ensures r <= |s|
    ensures forall k :: 0 <= k < r ==> Hashable(t, s[k])
    ensures r < |s| ==> !Hashable(t, s[r])
  {
    if |s| == 0 then 0
    else if !Hashable(t, s[0]) then 0
    else 1 + FirstUnhashable(s[1..], t)
  }

  /** The hash fails exactly when some character falls outside the table, and it
      names the first such character. */
  lemma {:induction false} HashFromFailsIff(s: string, t: HashType, seed1: int, seed2: int)
    ensures HashFrom(s, t, seed1, seed2).Ok? <==> FirstUnhashable(s, t) == |s|
    ensures HashFrom(s, t, seed1, seed2).Err? ==>
      HashFrom(s, t, seed1, seed2).error == UnsupportedCharacter(s[FirstUnhashable(s, t)] as int)
    decreases |s|
  {
    if |s| > 0 && Hashable(t, s[0]) {
      var next := HashStep(t, s[0], seed1, seed2);
      HashFromFailsIff(s[1..], t, next.0, next.1);
    }
  }

  /** Case and separator spelling do not change a name's hash. */
  lemma HashIgnoresCase(s: string, t: HashType)
    ensures Hash(ToUpper(s), t) == Hash(s, t)
    ensures Hash(Normalize(s), t) == Hash(s, t)
  {
    NormalizeIgnoresCase(s);
    NormalizeIdempotent(s);
  }

  /** Every 7-bit ASCII name hashes under every flavour: with 0x500 slots, the
      failure is reserved for characters from 0x500 - 0x100 * band up (0x500 for
      TableOffset, 0x400 for HashA, 0x300 for HashB and 0x200 for TableKey). */
  lemma AsciiHashes(s: string, t: HashType)
    requires forall c :: c in s ==> c as int < 0x80
    ensures Hash(s, t).Ok?
  {
    var n := Normalize(s);
    forall k | 0 <= k < |n| ensures Hashable(t, n[k]) {
      assert s[k] in s;
      var c := if '/' in s && '\\' !in s then SlashesToBackslashes(s)[k] else s[k];
      assert n[k] == UpperAscii(c);
    }
    HashFromFailsIff(n, t, HashSeed1, HashSeed2);
  }

  /** The names whose TableKey hashes decrypt the archive's two tables. */
  const HashTableName: string := "(hash table)"
  const BlockTableName: string := "(block table)"

  /** The two table keys used when the archive is opened always hash. */
  lemma TableKeysHash()
    ensures Hash(HashTableName, TableKey).Ok?
    ensures Hash(BlockTableName, TableKey).Ok?
  {
    AsciiHashes(HashTableName, TableKey);
    AsciiHashes(BlockTableName, TableKey);
  }

  /** `hash`: the loop over the normalised name. */
  method ComputeHash(str: string, t: HashType) returns (r: Result<int>)
    ensures r == Hash(str, t)
  {
    var s := Normalize(str);
    var seed1 := HashSeed1;
    var seed2 := HashSeed2;
    var i := 0;
    while i < |s|
      invariant 0 <= i <= |s|
      invariant HashFrom(s[i..], t, seed1, seed2) == HashFrom(s, t, HashSeed1, HashSeed2)
    {
      var ch := s[i];
      var slot := Band(t) * 0x100 + ch as int;
      if slot !in T.Table() {
        return Err(UnsupportedCharacter(ch as int));
      }
      assert s[i..][1..] == s[i + 1..];
      var next := HashStep(t, ch, seed1, seed2);
      seed1, seed2 := next.0, next.1;
      i := i + 1;
    }
    HashFromRange(s, t, HashSeed1, HashSeed2);
    return Ok(seed1);
  }

  // ---------------------------------------------------------------------------
  // The file key: hash of the name after its last separator

  /** `decryptionKey`: scans back for the last separator, then hashes the rest
      with the table flavour. */
  method DecryptionKey(str: string) returns (r: Result<int>)
    ensures r == Hash(BaseName(str), TableKey)
  {
    var lastIndex := |str| - 1;
    while lastIndex >= 0
      invariant -1 <= lastIndex < |str|
      invariant forall k :: lastIndex < k < |str| ==> !IsSeparator(str[k])
    {
      var ch := str[lastIndex];
      if ch == '\\' { break; }
      if ch == '/' { break; }
      lastIndex := lastIndex - 1;
    }
    LastSeparatorIs(str, lastIndex);
    r := ComputeHash(str[lastIndex + 1..], TableKey);
  }

  // ---------------------------------------------------------------------------
  // The word stream cipher

  /** The cipher's two seeds. The first starts as the caller's key, an unbounded
      integer (the adjusted key of an archive entry can exceed 32 bits and the
      offset-table key can be -1); every step leaves both in [0, 2^32). */
  datatype CipherState = CipherState(seed1: int, seed2: int)

  function InitialState(key: int): CipherState {
    CipherState(key, 0xEEEEEEEE)
  }

  /** The table word `T[0x400 + (seed1 & 0xFF)]`; that slot always exists, so the
      source's "unable to decrypt" error cannot happen. */
  function KeyWord(seed1: int): int {
    T.Table()[0x400 + seed1 % 0x100]
  }

  /** seed2 after the table word is added. */
  function Mixed(st: CipherState): int {
    Low32(st.seed2 + KeyWord(st.seed1))
  }

  /** The word xored onto the next cipher word: the low 32 bits of seed1 + seed2. */
  function Pad(st: CipherState): int {
    Low32(st.seed1 + Mixed(st))
  }

  /** `((~seed1 << 21) + 0x11111111) | (seed1 >> 11)`, masked to 32 bits, on a
      two's complement integer of any size (`~s` is `-s - 1`, `s >> 11` floors). */
  function NextSeed1(s: int): (r: int)
    ensures 0 <= r < Two32
  {
    Or32((-s - 1) * 0x20_0000 + 0x1111_1111, s / 0x800)
  }

  /** The state after one word whose plaintext is `plain`. */
  function Advance(st: CipherState, plain: int): CipherState {
    var m := Mixed(st);
    CipherState(NextSeed1(st.seed1), Low32(plain + m + m * 32 + 3))
  }

  predicate IsWords(ws: seq<int>) {
    forall i :: 0 <= i < |ws| ==> 0 <= ws[i] < Two32
  }

  function DecryptWords(st: CipherState, c: seq<int>): (p: seq<int>)
    ensures |p| == |c| && IsWords(p)
    decreases |c|
  {
    if |c| == 0 then []
    else
      var plain := Xor32(c[0], Pad(st));
      [plain] + DecryptWords(Advance(st, plain), c[1..])
  }

  /** The encrypting direction: the same state machine, advanced by the plaintext. */
  function EncryptWords(st: CipherState, p: seq<int>): (c: seq<int>)
    ensures |c| == |p| && IsWords(c)
    decreases |p|
  {
    if |p| == 0 then []
    else [Xor32(p[0], Pad(st))] + EncryptWords(Advance(st, p[0]), p[1..])
  }

  lemma {:induction false} DecryptEncrypt(st: CipherState, p: seq<int>)
    requires IsWords(p)
    ensures DecryptWords(st, EncryptWords(st, p)) == p
    decreases |p|
  {
    if |p| > 0 {
      var c := EncryptWords(st, p);
      Xor32Cancel(p[0], Pad(st));
      assert c[0] == Xor32(p[0], Pad(st)) && c[1..] == EncryptWords(Advance(st, p[0]), p[1..]);
      DecryptEncrypt(Advance(st, p[0]), p[1..]);
      assert p == [p[0]] + p[1..];
    }
  }

  lemma {:induction false} EncryptDecrypt(st: CipherState, c: seq<int>)
    requires IsWords(c)
    ensures EncryptWords(st, DecryptWords(st, c)) == c
    decreases |c|
  {
    if |c| > 0 {
      var p := DecryptWords(st, c);
      var plain := Xor32(c[0], Pad(st));
      Xor32Cancel(c[0], Pad(st));
      assert p[0] == plain && p[1..] == DecryptWords(Advance(st, plain), c[1..]);
      EncryptDecrypt(Advance(st, plain), c[1..]);
    }
  }

  // ---------------------------------------------------------------------------
  // Words in a byte buffer

  function ReadWords(s: seq<byte>, offset: nat, n: nat): (ws: seq<int>)
    requires n == 0 || offset + 4 * n <= |s|
    ensures |ws| == n && IsWords(ws)
    ensures forall i :: 0 <= i < n ==> ws[i] == U32At(s, offset + 4 * i)
  {
    seq(n, i requires 0 <= i < n => U32At(s, offset + 4 * i))
  }

  /** writeUInt32LE(w, p). */
  function WriteWord(s: seq<byte>, p: nat, w: int): (r: seq<byte>)
    requires p + 4 <= |s| && 0 <= w < Two32
    ensures |r| == |s|
  {
    var b := Le32(w);
    s[p := b[0]][p + 1 := b[1]][p + 2 := b[2]][p + 3 := b[3]]
  }

  /** The written word reads back, and no other byte changes. */
  lemma WriteWordRead(s: seq<byte>, p: nat, w: int)
    requires p + 4 <= |s| && 0 <= w < Two32
    ensures U32At(WriteWord(s, p, w), p) == w
    ensures forall k :: 0 <= k < |s| && (k < p || k >= p + 4) ==> WriteWord(s, p, w)[k] == s[k]
  {
    var r := WriteWord(s, p, w);
    assert r[p..p + 4] == Le32(w);
    Le32Read(r, p, w);
  }

  /** The buffer with the first `i` words of `ws` written from `offset` on. */
  function Spliced(s: seq<byte>, offset: nat, ws: seq<int>, i: nat): (r: seq<byte>)
    requires i <= |ws| && IsWords(ws) && (i == 0 || offset + 4 * i <= |s|)
    ensures |r| == |s|
  {
    if i == 0 then s
    else WriteWord(Spliced(s, offset, ws, i - 1), offset + 4 * (i - 1), ws[i - 1])
  }

  /** Number of whole words from `offset` that lie inside a buffer of `len` bytes. */
  function WordsAvailable(len: nat, offset: nat): (n: nat)
    ensures offset + 4 * n <= len || n == 0
    ensures offset + 4 * (n + 1) > len
  {
    if offset > len then 0 else (len - offset) / 4
  }

  /** `Math.floor(size / 4)`, the number of words asked for (none when negative). */
  function WordsRequested(size: int): nat {
    if size < 0 then 0 else size / 4
  }

  /** The words `decrypt` rewrites before it either finishes or throws. */
  function WordsDecrypted(len: nat, offset: nat, size: int): (n: nat)
    ensures n == 0 || offset + 4 * n <= len
    ensures n <= WordsRequested(size)
  {
    var a := WordsAvailable(len, offset);
    var q := WordsRequested(size);
    if q <= a then q else a
  }

  /** `decrypt` runs to completion exactly when every requested word is inside the buffer. */
  predicate DecryptFits(len: nat, offset: nat, size: int) {
    WordsRequested(size) <= WordsAvailable(len, offset)
  }

  /** The buffer after `decrypt(data, key, offset, size)`, including the words
      already rewritten when the read past the end throws: the word stream
      deciphered from the key, written over the words it came from. */
  function DecryptedBytes(s: seq<byte>, key: int, offset: nat, size: int): (r: seq<byte>)
    ensures |r| == |s|
  {
    // Written byte by byte so that the word stream is only built where a byte of
    // the result is looked at.
    seq(|s|, k requires 0 <= k < |s| =>
      Spliced(s, offset, DecryptWords(InitialState(key), ReadWords(s, offset, WordsDecrypted(|s|, offset, size))),
        WordsDecrypted(|s|, offset, size))[k])
  }

  /** The buffer after `decrypt` as the deciphered word stream spliced in. */
  lemma DecryptedBytesSpliced(s: seq<byte>, key: int, offset: nat, size: int)
    ensures var n := WordsDecrypted(|s|, offset, size);
      DecryptedBytes(s, key, offset, size) == Spliced(s, offset, DecryptWords(InitialState(key), ReadWords(s, offset, n)), n)
  {
  }

  /** One more word spliced is one more word written. */
  lemma SplicedStep(s: seq<byte>, offset: nat, ws: seq<int>, i: nat)
    requires i < |ws| && IsWords(ws) && offset + 4 * (i + 1) <= |s|
    ensures Spliced(s, offset, ws, i + 1) == WriteWord(Spliced(s, offset, ws, i), offset + 4 * i, ws[i])
  {
  }

  /** Splicing touches no byte outside the words written. */
  lemma {:induction false} SplicedOutside(s: seq<byte>, offset: nat, ws: seq<int>, i: nat, k: int)
    requires i <= |ws| && IsWords(ws) && (i == 0 || offset + 4 * i <= |s|)
    requires 0 <= k < |s| && (k < offset || k >= offset + 4 * i)
    ensures Spliced(s, offset, ws, i)[k] == s[k]
  {
    if i > 0 {
      SplicedOutside(s, offset, ws, i - 1, k);
      WriteWordRead(Spliced(s, offset, ws, i - 1), offset + 4 * (i - 1), ws[i - 1]);
    }
  }

  /** The word after the ones written still holds its old value. */
  lemma SplicedReadsAhead(s: seq<byte>, offset: nat, ws: seq<int>, i: nat)
    requires i <= |ws| && IsWords(ws) && offset + 4 * (i + 1) <= |s|
    ensures U32At(Spliced(s, offset, ws, i), offset + 4 * i) == U32At(s, offset + 4 * i)
  {
    var p := offset + 4 * i;
    SplicedOutside(s, offset, ws, i, p);
    SplicedOutside(s, offset, ws, i, p + 1);
    SplicedOutside(s, offset, ws, i, p + 2);
    SplicedOutside(s, offset, ws, i, p + 3);
  }

  /** Every word written reads back. */
  lemma {:induction false} SplicedWords(s: seq<byte>, offset: nat, ws: seq<int>, i: nat, j: nat)
    requires i <= |ws| && IsWords(ws) && offset + 4 * i <= |s| && j < i
    ensures U32At(Spliced(s, offset, ws, i), offset + 4 * j) == ws[j]
  {
    var prev := Spliced(s, offset, ws, i - 1);
    WriteWordRead(prev, offset + 4 * (i - 1), ws[i - 1]);
    if j < i - 1 {
      SplicedWords(s, offset, ws, i - 1, j);
      var r := Spliced(s, offset, ws, i);
      var p := offset + 4 * j;
      assert r[p] == prev[p] && r[p + 1] == prev[p + 1] && r[p + 2] == prev[p + 2] && r[p + 3] == prev[p + 3];
    }
  }

  /** The words in [offset, offset + 4 floor(size/4)) are deciphered (as the word
      stream deciphered from the key); every other byte is kept. */
  lemma DecryptedBytesShape(s: seq<byte>, key: int, offset: nat, size: int)
    ensures var n := WordsDecrypted(|s|, offset, size);
      var r := DecryptedBytes(s, key, offset, size);
      && (forall k :: 0 <= k < |s| && (k < offset || k >= offset + 4 * n) ==> r[k] == s[k])
      && ReadWords(r, offset, n) == DecryptWords(InitialState(key), ReadWords(s, offset, n))
  {
    var n := WordsDecrypted(|s|, offset, size);
    var ps := DecryptWords(InitialState(key), ReadWords(s, offset, n));
    var r := DecryptedBytes(s, key, offset, size);
    DecryptedBytesSpliced(s, key, offset, size);
    forall k | 0 <= k < |s| && (k < offset || k >= offset + 4 * n)
      ensures r[k] == s[k]
    {
      SplicedOutside(s, offset, ps, n, k);
    }
    forall j | 0 <= j < n ensures ReadWords(r, offset, n)[j] == ps[j] {
      SplicedWords(s, offset, ps, n, j);
    }
  }

  /** Encrypting the deciphered words with the same key gives the original words back. */
  lemma DecryptedBytesRoundTrip(s: seq<byte>, key: int, offset: nat, size: int)
    ensures var n := WordsDecrypted(|s|, offset, size);
      EncryptWords(InitialState(key), ReadWords(DecryptedBytes(s, key, offset, size), offset, n)) == ReadWords(s, offset, n)
  {
    var n := WordsDecrypted(|s|, offset, size);
    DecryptedBytesShape(s, key, offset, size);
    EncryptDecrypt(InitialState(key), ReadWords(s, offset, n));
  }

  /** Where the decrypt loop at word `i` stands against the words that fit. */
  lemma DecryptCount(len: nat, offset: nat, size: int, i: nat)
    requires i <= WordsDecrypted(len, offset, size)
    ensures i < size / 4 && offset + 4 * i + 4 > len ==> i == WordsDecrypted(len, offset, size) && !DecryptFits(len, offset, size)
    ensures i < size / 4 && offset + 4 * i + 4 <= len ==> i < WordsDecrypted(len, offset, size)
    ensures i >= size / 4 ==> i == WordsDecrypted(len, offset, size) && DecryptFits(len, offset, size)
  {
  }

  /** Deciphering from word `i` on: its plaintext is the cipher word xored with the
      pad, and the rest follows from the state that plaintext advances to. */
  lemma DecryptFrom(st: CipherState, cs: seq<int>, ps: seq<int>, i: nat)
    requires i < |cs| && |ps| == |cs| && ps[i..] == DecryptWords(st, cs[i..])
    ensures ps[i] == Xor32(cs[i], Pad(st))
    ensures ps[i + 1..] == DecryptWords(Advance(st, ps[i]), cs[i + 1..])
  {
    assert ps[i..][0] == ps[i] && cs[i..][0] == cs[i];
    assert ps[i..][1..] == ps[i + 1..] && cs[i..][1..] == cs[i + 1..];
  }

  /** Where `decrypt` stands after `i` words: those words of the buffer hold the
      deciphered stream, the rest still hold `s`, and `st` deciphers what is left. */
  ghost predicate DecryptedUpTo(d: seq<byte>, s: seq<byte>, key: int, offset: nat, size: int, i: nat, st: CipherState) {
    var n := WordsDecrypted(|s|, offset, size);
    var cs := ReadWords(s, offset, n);
    var ps := DecryptWords(InitialState(key), cs);
    i <= n && d == Spliced(s, offset, ps, i) && ps[i..] == DecryptWords(st, cs[i..])
  }

  /** `decrypt(data, key, offset, size)` on the buffer in place. It returns false
      where the source throws a RangeError: the word read past the end. */
  method Decrypt(data: array<byte>, key: int, offset: nat, size: int) returns (ok: bool)
    modifies data
    ensures ok == DecryptFits(data.Length, offset, size)
    ensures data[..] == DecryptedBytes(old(data[..]), key, offset, size)
  {
    ghost var s := data[..];
    var st := InitialState(key);
    DecryptStart(s, key, offset, size);
    var itLen := size / 4;
    var i := 0;
    while i < itLen
      invariant DecryptedUpTo(data[..], s, key, offset, size, i, st)
    {
      ok, st := DecryptWordAt(data, s, key, offset, size, i, st);
      if !ok {
        return;
      }
      i := i + 1;
    }
    DecryptDone(data[..], s, key, offset, size, i, st);
    return true;
  }

  lemma DecryptStart(s: seq<byte>, key: int, offset: nat, size: int)
    ensures DecryptedUpTo(s, s, key, offset, size, 0, InitialState(key))
  {
    var n := WordsDecrypted(|s|, offset, size);
    var cs := ReadWords(s, offset, n);
    var ps := DecryptWords(InitialState(key), cs);
    assert ps[0..] == ps && cs[0..] == cs;
  }

  lemma DecryptDone(d: seq<byte>, s: seq<byte>, key: int, offset: nat, size: int, i: nat, st: CipherState)
    requires DecryptedUpTo(d, s, key, offset, size, i, st) && i >= size / 4
    ensures DecryptFits(|s|, offset, size) && d == DecryptedBytes(s, key, offset, size)
  {
    DecryptCount(|s|, offset, size, i);
    DecryptedBytesSpliced(s, key, offset, size);
  }

  /** The values `DecryptedUpTo` names, handed out explicitly. */
  lemma DecryptedUpToParts(d: seq<byte>, s: seq<byte>, key: int, offset: nat, size: int, i: nat, st: CipherState)
    returns (n: nat, cs: seq<int>, ps: seq<int>)
    requires DecryptedUpTo(d, s, key, offset, size, i, st)
    ensures n == WordsDecrypted(|s|, offset, size) && cs == ReadWords(s, offset, n) && ps == DecryptWords(InitialState(key), cs)
    ensures i <= n && d == Spliced(s, offset, ps, i) && ps[i..] == DecryptWords(st, cs[i..])
  {
    n := WordsDecrypted(|s|, offset, size);
    cs := ReadWords(s, offset, n);
    ps := DecryptWords(InitialState(key), cs);
  }

  /** One more word deciphered and written back keeps `DecryptedUpTo`. */
  lemma DecryptedUpToNext(d: seq<byte>, before: seq<byte>, s: seq<byte>, key: int, offset: nat, size: int,
                          i: nat, st: CipherState, w: int)
    requires DecryptedUpTo(before, s, key, offset, size, i, st)
    requires i < size / 4 && offset + 4 * i + 4 <= |before| == |s|
    requires w == Xor32(U32At(before, offset + 4 * i), Pad(st))
    requires d == WriteWord(before, offset + 4 * i, w)
    ensures DecryptedUpTo(d, s, key, offset, size, i + 1, Advance(st, w))
  {
    var n, cs, ps := DecryptedUpToParts(before, s, key, offset, size, i, st);
    DecryptCount(|s|, offset, size, i);
    SplicedReadsAhead(s, offset, ps, i);
    DecryptFrom(st, cs, ps, i);
    SplicedStep(s, offset, ps, i);
  }

  /** One turn of the decrypt loop: the word at offset + 4i is read (false when it
      lies past the end, where the source throws), seed2 takes the table word, the
      word is xored with seed1 + seed2 and written back, then seed1 is scrambled and
      seed2 mixes in the plaintext (see Pad and Advance). */
  method DecryptWordAt(data: array<byte>, ghost s: seq<byte>, key: int, offset: nat, size: int, i: nat, st: CipherState)
    returns (ok: bool, next: CipherState)
    requires |s| == data.Length && i < size / 4 && DecryptedUpTo(data[..], s, key, offset, size, i, st)
    modifies data
    ensures ok ==> DecryptedUpTo(data[..], s, key, offset, size, i + 1, next)
    ensures !ok ==> !DecryptFits(|s|, offset, size) && data[..] == DecryptedBytes(s, key, offset, size)
  {
    DecryptCount(|s|, offset, size, i);
    var p := offset + 4 * i;
    if p + 4 > data.Length {
      return false, st;
    }
    ghost var before := data[..];
    var w := Xor32(U32At(data[..], p), Pad(st));
    next := Advance(st, w);
    var bytes := Le32(w);
    data[p] := bytes[0];
    data[p + 1] := bytes[1];
    data[p + 2] := bytes[2];
    data[p + 3] := bytes[3];
    assert data[..] == WriteWord(before, p, w);
    DecryptedUpToNext(data[..], before, s, key, offset, size, i, st, w);
    ok := true;
  }
}
