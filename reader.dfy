/** The cursor of src/formats/reader.ts: a byte buffer and a position that every
    read advances. Node's Buffer reads throw a RangeError past the end; a read
    that throws leaves the position where the source leaves it. Float values are
    kept as their 32-bit patterns and packed quaternions as their 8 raw bytes:
    no floating-point value is interpreted. */
module BinaryReader {
  import opened Results
  import opened Bytes

  /** The five scalar reads: `uint8`, `uint16`, `int32`, `uint32` and `float`. */
  datatype NumberKind = UInt8 | UInt16 | Int32 | UInt32 | Float

  function Width(kind: NumberKind): (w: nat)
    ensures 1 <= w <= 4
  {
    match kind
    case UInt8 => 1
    case UInt16 => 2
    case _ => 4
  }

  /** The little-endian value at `p` (for a float, its bit pattern). */
  function Decode(s: seq<byte>, p: int, kind: NumberKind): int
    requires InBounds(s, p, Width(kind))
  {
    match kind
    case UInt8 => s[p]
    case UInt16 => U16At(s, p)
    case Int32 => I32At(s, p)
    case _ => U32At(s, p)
  }

  /** What a read yields together with where it leaves the cursor. */
  datatype Outcome<+T> = Outcome(result: Result<T>, pos: int) {
    function Fail<U>(): Outcome<U>
      requires result.Err?
    {
      Outcome(Err(result.error), pos)
    }
  }

  /** One scalar read at `p`. `uint8` increments the position before reading, so
      it moves on even when the read throws; the others move only on success. */
  function ReadNumber(s: seq<byte>, p: int, kind: NumberKind): (o: Outcome<int>)
  {
    if InBounds(s, p, Width(kind)) then Outcome(Ok(Decode(s, p, kind)), p + Width(kind))
    else Outcome(Err(RangeError), if kind == UInt8 then p + 1 else p)
  }

  /** `count` reads one after the other, stopping at the first that throws. */
  function ReadNumbers(s: seq<byte>, p: int, kind: NumberKind, count: nat): (o: Outcome<seq<int>>)
    ensures o.result.Ok? ==> |o.result.value| == count && o.pos >= p
    ensures o.result.Err? ==> o.result.error == RangeError
  {
    if count == 0 then Outcome(Ok([]), p)
    else
      var before := ReadNumbers(s, p, kind, count - 1);
      if before.result.Err? then before
      else
        var next := ReadNumber(s, before.pos, kind);
        if next.result.Err? then next.Fail()
        else Outcome(Ok(before.result.value + [next.result.value]), next.pos)
  }

  /** An array read of `n` elements succeeds exactly when all `n * width` bytes are
      in the buffer; it then holds element k read at p + k * width, and the cursor
      has moved by n * width. */
  lemma {:induction false} ReadNumbersLayout(s: seq<byte>, p: int, kind: NumberKind, n: nat)
    ensures var o := ReadNumbers(s, p, kind, n);
      && (o.result.Ok? <==> n == 0 || InBounds(s, p, n * Width(kind)))
      && (o.result.Ok? ==> o.pos == p + n * Width(kind))
      && (o.result.Ok? ==> forall k :: 0 <= k < n ==>
            InBounds(s, p + k * Width(kind), Width(kind)) && o.result.value[k] == Decode(s, p + k * Width(kind), kind))
  {
    if n > 0 {
      ReadNumbersLayout(s, p, kind, n - 1);
      var w := Width(kind);
      assert (n - 1) * w + w == n * w;
      if n - 1 > 0 && !InBounds(s, p, (n - 1) * w) {
        assert !InBounds(s, p, n * w);
      }
    }
  }

  /** Once a read in the sequence has thrown, reading further elements is never
      attempted: the outcome stays the same. */
  lemma {:induction false} ReadNumbersStops(s: seq<byte>, p: int, kind: NumberKind, i: nat, n: nat)
    requires i <= n && ReadNumbers(s, p, kind, i).result.Err?
    ensures ReadNumbers(s, p, kind, n) == ReadNumbers(s, p, kind, i)
    decreases n - i
  {
    if i < n {
      ReadNumbersStops(s, p, kind, i, n - 1);
    }
  }

  /** `String.fromCharCode(buffer[p])`: a position outside the buffer reads
      `undefined`, which becomes the character 0. */
  function CharAt(s: seq<byte>, p: int): char
  {
    if 0 <= p < |s| then s[p] as char else 0 as char
  }

  /** The four characters `keyword` reads at `p`. */
  function WordAt(s: seq<byte>, p: int): (w: string)
    ensures |w| == 4
  {
    [CharAt(s, p), CharAt(s, p + 1), CharAt(s, p + 2), CharAt(s, p + 3)]
  }

  /** Inside the buffer, a keyword is its four bytes taken as characters. */
  lemma WordAtBytes(s: seq<byte>, p: int)
    requires InBounds(s, p, 4)
    ensures WordAt(s, p) == Chars(s[p..p + 4])
  {
  }

  /** What `str(length)` returns at `p`: the bytes from `p` to the first NUL at or
      after it, cut at p + length. */
  function StrAt(s: seq<byte>, p: int, length: int): string
  {
    var z := IndexOfZero(s, p);
    var index := if z < p + length then z else p + length;
    var st := if p <= 0 then 0 else p;
    var en := if index > |s| then |s| else index;
    if st >= |s| || en <= st then "" else CharsFrom(s, st, en - st)
  }

  /** The `n` bytes from `st`, one character each. */
  function CharsFrom(s: seq<byte>, st: nat, n: nat): string
    requires st + n <= |s|
  {
    if n == 0 then "" else CharsFrom(s, st, n - 1) + [s[st + n - 1] as char]
  }

  lemma {:induction false} CharsFromBytes(s: seq<byte>, st: nat, n: nat)
    requires st + n <= |s|
    ensures |CharsFrom(s, st, n)| == n
    ensures forall k :: 0 <= k < n ==> CharsFrom(s, st, n)[k] as int == s[st + k]
  {
    if n > 0 {
      CharsFromBytes(s, st, n - 1);
    }
  }

  /** Inside the buffer, `str` yields the bytes before the first NUL, at most
      `length` of them, none of them NUL; with no NUL left it yields "". */
  lemma StrAtContents(s: seq<byte>, p: nat, length: nat)
    ensures FirstZeroFrom(s, p) == -1 ==> |StrAt(s, p, length)| == 0
    ensures var z := FirstZeroFrom(s, p);
      z != -1 ==> var end := if z < p + length then z else p + length;
        && p <= end <= |s|
        && |StrAt(s, p, length)| == end - p
        && forall k :: p <= k < end ==> StrAt(s, p, length)[k - p] as int == s[k] != 0
  {
    var z := FirstZeroFrom(s, p);
    FirstZeroFromSpec(s, p);
    if z != -1 {
      var end := if z < p + length then z else p + length;
      CharsFromBytes(s, p, end - p);
    }
  }

  // ---------------------------------------------------------------------------
  // animVector

  /** AnimVectorType: the element layout of the keys. */
  datatype VectorType = Int1 | Float1 | Float3 | Float4

  /** `animVectorSize`. */
  function VectorSize(t: VectorType): (n: nat)
    ensures n >= 1
  {
    match t
    case Int1 => 1
    case Float1 => 1
    case Float3 => 3
    case Float4 => 4
  }

  /** LineType values that carry tangents: Hermite (2) and Bezier (3). */
  predicate HasTangents(lineType: int) {
    lineType == 2 || lineType == 3
  }

  /** A key's vector: int32 or float (as bits) components, or a packed quaternion. */
  datatype Vector = Components(values: seq<int>) | Packed(raw: seq<byte>)

  /** A packed quaternion: the 8 bytes `readBigInt64LE` reads at `p`. */
  function ReadQuaternion(s: seq<byte>, p: int): (o: Outcome<Vector>)
  {
    if InBounds(s, p, 8) then Outcome(Ok(Packed(s[p..p + 8])), p + 8) else Outcome(Err(RangeError), p)
  }

  /** One vector of type `t`: INT1 as `int32Array(1)`, FLOAT4 as a quaternion,
      the others as `floatArray(size)`. */
  function ReadVector(s: seq<byte>, p: int, t: VectorType): (o: Outcome<Vector>)
    ensures o.result.Ok? ==> o.pos > p
  {
    match t
    case Float4 => ReadQuaternion(s, p)
    case _ =>
      var o := ReadNumbers(s, p, if t == Int1 then Int32 else Float, VectorSize(t));
      if o.result.Err? then o.Fail() else Outcome(Ok(Components(o.result.value)), o.pos)
  }

  /** The bytes a vector of type `t` occupies. */
  function VectorBytes(t: VectorType): nat {
    if t == Float4 then 8 else 4 * VectorSize(t)
  }

  datatype Keyframe = Keyframe(frame: int, vector: Vector, tangents: Option<(Vector, Vector)>)

  /** One key: the frame, the vector, and the in and out tangents when the line
      type has them. */
  function ReadKey(s: seq<byte>, p: int, t: VectorType, lineType: int): (o: Outcome<Keyframe>)
    ensures o.result.Ok? ==> o.pos > p
  {
    var frame := ReadNumber(s, p, Int32);
    if frame.result.Err? then frame.Fail() else
    var v := ReadVector(s, frame.pos, t);
    if v.result.Err? then v.Fail() else
    if !HasTangents(lineType) then Outcome(Ok(Keyframe(frame.result.value, v.result.value, None)), v.pos) else
    var inTan := ReadVector(s, v.pos, t);
    if inTan.result.Err? then inTan.Fail() else
    var outTan := ReadVector(s, inTan.pos, t);
    if outTan.result.Err? then outTan.Fail() else
    Outcome(Ok(Keyframe(frame.result.value, v.result.value, Some((inTan.result.value, outTan.result.value)))), outTan.pos)
  }

  /** The bytes a key occupies. */
  function KeyBytes(t: VectorType, lineType: int): nat {
    4 + (if HasTangents(lineType) then 3 else 1) * VectorBytes(t)
  }

  /** `count` keys one after the other, stopping at the first that throws. */
  function ReadKeys(s: seq<byte>, p: int, t: VectorType, lineType: int, count: nat): (o: Outcome<seq<Keyframe>>)
    ensures o.result.Ok? ==> |o.result.value| == count && o.pos >= p
    ensures o.result.Err? ==> o.result.error == RangeError
  {
    if count == 0 then Outcome(Ok([]), p)
    else
      var before := ReadKeys(s, p, t, lineType, count - 1);
      if before.result.Err? then before
      else
        AppendKey(before, ReadKey(s, before.pos, t, lineType))
  }

  /** The keys read so far followed by the outcome of reading one more. */
  function AppendKey(before: Outcome<seq<Keyframe>>, next: Outcome<Keyframe>): Outcome<seq<Keyframe>>
    requires before.result.Ok?
  {
    if next.result.Err? then next.Fail()
    else Outcome(Ok(before.result.value + [next.result.value]), next.pos)
  }

  /** The static value of a track. */
  datatype DefaultValue =
    | Given(value: seq<int>)   // the value the caller supplied
    | FirstComponent(x: int)   // Keys[0].Vector[0], for one-component types
    | FirstVector(v: Vector)   // Keys[0].Vector
    | FirstInverted(x: int)    // Keys[0].Vector[0] ^ 1 for a FLOAT1 track with one key; the float-to-int32 conversion is not evaluated

  /** The source's AnimVector. */
  datatype Track = Track(keys: seq<Keyframe>, lineType: int, globalSeqId: Option<int>, default: DefaultValue)

  /** The first component of a one-component vector (or of any component vector). */
  function First(v: Vector): int {
    if v.Components? && |v.values| > 0 then v.values[0] else 0
  }

  /** The default, as the source sets it after the keys: the supplied value, else
      the first key's vector (or its first component); a FLOAT1 track with exactly
      one key and no supplied value then takes that component xor 1. Reading the
      first key of an empty track throws. */
  function DefaultOf(t: VectorType, keys: seq<Keyframe>, value: Option<seq<int>>): Result<DefaultValue>
  {
    var d :-
      if value.Some? then Ok(Given(value.value))
      else if |keys| == 0 then Err(TypeError)
      else if VectorSize(t) == 1 then Ok(FirstComponent(First(keys[0].vector)))
      else Ok(FirstVector(keys[0].vector));
    if t == Float1 && |keys| == 1 && value.None? then Ok(FirstInverted(First(keys[0].vector))) else Ok(d)
  }

  /** `animVector(type, value)` at `p`: keysCount, LineType and GlobalSeqId as
      int32 (a GlobalSeqId of -1 becomes null), then the keys, then the default. */
  function ReadAnimVector(s: seq<byte>, p: int, t: VectorType, value: Option<seq<int>>): (o: Outcome<Track>)
    ensures o.result.Ok? ==> o.pos >= p + 12
  {
    var count := ReadNumber(s, p, Int32);
    if count.result.Err? then count.Fail() else
    var lineType := ReadNumber(s, count.pos, Int32);
    if lineType.result.Err? then lineType.Fail() else
    var seqId := ReadNumber(s, lineType.pos, Int32);
    if seqId.result.Err? then seqId.Fail() else
    var keys := ReadKeys(s, seqId.pos, t, lineType.result.value, if count.result.value < 0 then 0 else count.result.value);
    if keys.result.Err? then keys.Fail() else
    var default := DefaultOf(t, keys.result.value, value);
    if default.Err? then Outcome(Err(default.error), keys.pos) else
    var id := seqId.result.value;
    Outcome(Ok(Track(keys.result.value, lineType.result.value, if id == -1 then None else Some(id), default.value)), keys.pos)
  }

  /** A vector read succeeds exactly when its bytes are in the buffer, and then
      moves the cursor past them; component vectors have `animVectorSize` entries. */
  lemma ReadVectorLayout(s: seq<byte>, p: int, t: VectorType)
    ensures var o := ReadVector(s, p, t);
      && (o.result.Ok? <==> InBounds(s, p, VectorBytes(t)))
      && (o.result.Ok? ==> o.pos == p + VectorBytes(t))
      && (o.result.Ok? && t != Float4 ==> o.result.value.Components? && |o.result.value.values| == VectorSize(t))
  {
    if t != Float4 {
      ReadNumbersLayout(s, p, if t == Int1 then Int32 else Float, VectorSize(t));
    }
  }

  /** A key read succeeds exactly when its bytes are in the buffer; its frame is
      the int32 at `p`, and it has tangents exactly for Hermite and Bezier lines. */
  lemma ReadKeyLayout(s: seq<byte>, p: int, t: VectorType, lineType: int)
    ensures var o := ReadKey(s, p, t, lineType);
      && (o.result.Ok? <==> InBounds(s, p, KeyBytes(t, lineType)))
      && (o.result.Ok? ==> o.pos == p + KeyBytes(t, lineType) && o.result.value.frame == I32At(s, p))
      && (o.result.Ok? ==> (o.result.value.tangents.Some? <==> HasTangents(lineType)))
  {
    var vb := VectorBytes(t);
    if !InBounds(s, p, 4) {
      return;
    }
    var v := ReadVector(s, p + 4, t);
    ReadVectorLayout(s, p + 4, t);
    if v.result.Err? || !HasTangents(lineType) {
      return;
    }
    var inTan := ReadVector(s, p + 4 + vb, t);
    ReadVectorLayout(s, p + 4 + vb, t);
    if inTan.result.Err? {
      return;
    }
    ReadVectorLayout(s, p + 4 + 2 * vb, t);
  }

  /** What a key read at `p` guarantees. */
  predicate KeyLaidOut(s: seq<byte>, p: int, kb: nat, lineType: int, o: Outcome<Keyframe>) {
    && (o.result.Ok? <==> InBounds(s, p, kb))
    && (o.result.Ok? ==> o.pos == p + kb && InBounds(s, p, 4) && o.result.value.frame == I32At(s, p))
    && (o.result.Ok? ==> (o.result.value.tangents.Some? <==> HasTangents(lineType)))
  }

  /** What reading `n` keys at `p` guarantees. */
  predicate KeysLaidOut(s: seq<byte>, p: int, kb: nat, lineType: int, n: nat, o: Outcome<seq<Keyframe>>) {
    && (o.result.Ok? <==> n == 0 || InBounds(s, p, n * kb))
    && (o.result.Ok? ==> o.pos == p + n * kb && |o.result.value| == n)
    && (o.result.Ok? ==> forall k :: 0 <= k < n ==>
          InBounds(s, p + k * kb, 4)
          && o.result.value[k].frame == I32At(s, p + k * kb)
          && (o.result.value[k].tangents.Some? <==> HasTangents(lineType)))
  }

  /** The arithmetic of one more key, apart from how the keys are read. */
  lemma KeysLaidOutStep(s: seq<byte>, p: int, kb: nat, lineType: int, n: nat,
                        before: Outcome<seq<Keyframe>>, next: Outcome<Keyframe>)
    requires n > 0 && KeysLaidOut(s, p, kb, lineType, n - 1, before)
    requires before.result.Ok? ==> KeyLaidOut(s, before.pos, kb, lineType, next)
    ensures KeysLaidOut(s, p, kb, lineType, n, if before.result.Err? then before else AppendKey(before, next))
  {
    var m := (n - 1) * kb;
    assert m >= 0 && m + kb == n * kb;
    if before.result.Ok? {
      var o := AppendKey(before, next);
      assert before.pos == p + m;
      assert InBounds(s, p + m, kb) <==> InBounds(s, p, n * kb) by {
        assert n - 1 > 0 ==> InBounds(s, p, m);
      }
      if o.result.Ok? {
        KeysAppendedFrames(s, p, kb, lineType, n, before, next);
      }
    } else {
      assert !InBounds(s, p, m);
    }
  }

  /** The frames of the keys after one more is appended. */
  lemma KeysAppendedFrames(s: seq<byte>, p: int, kb: nat, lineType: int, n: nat,
                           before: Outcome<seq<Keyframe>>, next: Outcome<Keyframe>)
    requires n > 0 && KeysLaidOut(s, p, kb, lineType, n - 1, before) && before.result.Ok?
    requires before.pos == p + (n - 1) * kb && KeyLaidOut(s, before.pos, kb, lineType, next) && next.result.Ok?
    ensures var o := AppendKey(before, next);
      forall k :: 0 <= k < n ==>
        InBounds(s, p + k * kb, 4)
        && o.result.value[k].frame == I32At(s, p + k * kb)
        && (o.result.value[k].tangents.Some? <==> HasTangents(lineType))
  {
    var o := AppendKey(before, next);
    forall k | 0 <= k < n
      ensures InBounds(s, p + k * kb, 4) && o.result.value[k].frame == I32At(s, p + k * kb)
      ensures o.result.value[k].tangents.Some? <==> HasTangents(lineType)
    {
      if k < n - 1 {
        assert o.result.value[k] == before.result.value[k];
      } else {
        assert o.result.value[k] == next.result.value;
      }
    }
  }

  /** `count` keys succeed exactly when all their bytes are in the buffer; key k
      then starts k key sizes after `p`. */
  lemma {:induction false} ReadKeysLayout(s: seq<byte>, p: int, t: VectorType, lineType: int, n: nat)
    ensures KeysLaidOut(s, p, KeyBytes(t, lineType), lineType, n, ReadKeys(s, p, t, lineType, n))
  {
    if n > 0 {
      var before := ReadKeys(s, p, t, lineType, n - 1);
      ReadKeysLayout(s, p, t, lineType, n - 1);
      if before.result.Ok? {
        ReadKeyLayout(s, before.pos, t, lineType);
      }
      KeysLaidOutStep(s, p, KeyBytes(t, lineType), lineType, n, before, ReadKey(s, before.pos, t, lineType));
    }
  }

  /** The header of a track: keysCount (a negative count reads no key), LineType
      and GlobalSeqId (-1 becomes null), followed by the keys back to back. */
  lemma TrackLayout(s: seq<byte>, p: int, t: VectorType, value: Option<seq<int>>)
    ensures var o := ReadAnimVector(s, p, t, value);
      o.result.Ok? ==>
        && InBounds(s, p, 12)
        && var n := if I32At(s, p) < 0 then 0 else I32At(s, p);
        && |o.result.value.keys| == n
        && o.result.value.lineType == I32At(s, p + 4)
        && o.result.value.globalSeqId == (if I32At(s, p + 8) == -1 then None else Some(I32At(s, p + 8)))
        && o.pos == p + 12 + n * KeyBytes(t, I32At(s, p + 4))
        && forall k :: 0 <= k < n ==> (o.result.value.keys[k].tangents.Some? <==> HasTangents(I32At(s, p + 4)))
  {
    var o := ReadAnimVector(s, p, t, value);
    if o.result.Ok? {
      TrackHead(s, p, t, value);
      var n := if I32At(s, p) < 0 then 0 else I32At(s, p);
      ReadKeysLayout(s, p + 12, t, I32At(s, p + 4), n);
    }
  }

  /** A track that reads has its three header words in the buffer, and its keys
      are the `n` keys read after them. */
  lemma TrackHead(s: seq<byte>, p: int, t: VectorType, value: Option<seq<int>>)
    requires ReadAnimVector(s, p, t, value).result.Ok?
    ensures InBounds(s, p, 12)
    ensures var n := if I32At(s, p) < 0 then 0 else I32At(s, p);
      var keys := ReadKeys(s, p + 12, t, I32At(s, p + 4), n);
      var o := ReadAnimVector(s, p, t, value);
      && keys.result.Ok? && o.result.value.keys == keys.result.value && o.pos == keys.pos
      && o.result.value.lineType == I32At(s, p + 4)
      && o.result.value.globalSeqId == (if I32At(s, p + 8) == -1 then None else Some(I32At(s, p + 8)))
  {
    var count := ReadNumber(s, p, Int32);
    assert count.result.Ok?;
    assert count == Outcome(Ok(I32At(s, p)), p + 4);
    var lineType := ReadNumber(s, p + 4, Int32);
    assert lineType.result.Ok?;
    assert lineType == Outcome(Ok(I32At(s, p + 4)), p + 8);
    var seqId := ReadNumber(s, p + 8, Int32);
    assert seqId.result.Ok?;
    assert seqId == Outcome(Ok(I32At(s, p + 8)), p + 12);
  }

  /** The default of a track read without a supplied value: the first key's
      vector, or its first component for one-component types, except that a FLOAT1
      track with a single key inverts it; a track with no key throws. With a
      supplied value, the default is that value. */
  lemma TrackDefault(s: seq<byte>, p: int, t: VectorType, value: Option<seq<int>>)
    ensures var o := ReadAnimVector(s, p, t, value);
      && (o.result.Ok? && value.Some? ==> o.result.value.default == Given(value.value))
      && (o.result.Ok? && value.None? ==> |o.result.value.keys| > 0)
      && (o.result.Ok? && value.None? ==>
            var first := o.result.value.keys[0].vector;
            o.result.value.default ==
              if t == Float1 && |o.result.value.keys| == 1 then FirstInverted(First(first))
              else if VectorSize(t) == 1 then FirstComponent(First(first))
              else FirstVector(first))
      && (value.None? && InBounds(s, p, 12) && I32At(s, p) <= 0 ==> o.result == Err(TypeError))
  {
  }

  // ---------------------------------------------------------------------------
  // The cursor

  class Reader {
    const buffer: seq<byte>
    /** `byteLength` of the buffer. */
    const length: int
    var pos: int

    constructor(buffer: seq<byte>)
      ensures this.buffer == buffer && length == |buffer| && pos == 0
    {
      this.buffer := buffer;
      length := |buffer|;
      pos := 0;
    }

    /** `keyword`: four characters, and the cursor moves by four. */
    method Keyword() returns (word: string)
      modifies this
      ensures word == WordAt(buffer, old(pos)) && pos == old(pos) + 4
    {
      word := WordAt(buffer, pos);
      pos := pos + 4;
    }

    /** `expectKeyword`: the cursor always moves by four; a different word throws
      with the caller's error text. */
    method ExpectKeyword(keyword: string, errorText: string) returns (r: Result<()>)
      modifies this
      ensures pos == old(pos) + 4
      ensures r.Ok? <==> WordAt(buffer, old(pos)) == keyword
      ensures r.Err? ==> r.error == BadData(errorText)
    {
      var word := Keyword();
      if word != keyword {
        return Err(BadData(errorText));
      }
      return Ok(());
    }

    /** `hasKeyword`: on a match the cursor stays after the word; otherwise it is
      rewound to where it was. */
    method HasKeyword(keyword: string) returns (b: bool)
      modifies this
      ensures b <==> WordAt(buffer, old(pos)) == keyword
      ensures pos == if b then old(pos) + 4 else old(pos)
    {
      var word := Keyword();
      if word != keyword {
        pos := pos - 4;
        return false;
      }
      return true;
    }

    /** `uint8`, `uint16`, `int32`, `uint32` and `float`. */
    method Number(kind: NumberKind) returns (r: Result<int>)
      modifies this
      ensures Outcome(r, pos) == ReadNumber(buffer, old(pos), kind)
    {
      var p := pos;
      if kind == UInt8 {
        pos := pos + 1;
      }
      if !InBounds(buffer, p, Width(kind)) {
        return Err(RangeError);
      }
      r := Ok(Decode(buffer, p, kind));
      pos := p + Width(kind);
    }

    /** `uint8Array`, `uint16Array`, `int32Array`, `uint32Array` and `floatArray`:
      `length` reads in order (none for a negative length). */
    method Numbers(kind: NumberKind, length: int) returns (r: Result<seq<int>>)
      modifies this
      ensures Outcome(r, pos) == ReadNumbers(buffer, old(pos), kind, if length < 0 then 0 else length)
    {
      var start := pos;
      var n: nat := if length < 0 then 0 else length;
      var values: seq<int> := [];
      var i := 0;
      while i < n
        invariant 0 <= i <= n
        invariant ReadNumbers(buffer, start, kind, i) == Outcome(Ok(values), pos)
      {
        var x := Number(kind);
        if x.Err? {
          ReadNumbersStops(buffer, start, kind, i + 1, n);
          return Err(x.error);
        }
        values := values + [x.value];
        i := i + 1;
      }
      r := Ok(values);
    }

    /** `str(length)`: the cursor always moves by `length`. */
    method Str(length: int) returns (s: string)
      modifies this
      ensures s == StrAt(buffer, old(pos), length) && pos == old(pos) + length
    {
      s := StrAt(buffer, pos, length);
      pos := pos + length;
    }

    /** `quaternion`: eight raw bytes. */
    method Quaternion() returns (r: Result<Vector>)
      modifies this
      ensures Outcome(r, pos) == ReadQuaternion(buffer, old(pos))
    {
      if !InBounds(buffer, pos, 8) {
        return Err(RangeError);
      }
      r := Ok(Packed(buffer[pos..pos + 8]));
      pos := pos + 8;
    }

    method Vector(t: VectorType) returns (r: Result<Vector>)
      modifies this
      ensures Outcome(r, pos) == ReadVector(buffer, old(pos), t)
    {
      if t == Float4 {
        r := Quaternion();
      } else {
        var values :- Numbers(if t == Int1 then Int32 else Float, VectorSize(t));
        r := Ok(Components(values));
      }
    }

    /** One key of `animVector`. */
    method Key(t: VectorType, lineType: int) returns (r: Result<Keyframe>)
      modifies this
      ensures Outcome(r, pos) == ReadKey(buffer, old(pos), t, lineType)
    {
      var frame :- Number(Int32);
      var v :- Vector(t);
      if !HasTangents(lineType) {
        return Ok(Keyframe(frame, v, None));
      }
      var inTan :- Vector(t);
      var outTan :- Vector(t);
      r := Ok(Keyframe(frame, v, Some((inTan, outTan))));
    }

    /** The key loop of `animVector`. */
    method Keys(t: VectorType, lineType: int, count: int) returns (r: Result<seq<Keyframe>>)
      modifies this
      ensures Outcome(r, pos) == ReadKeys(buffer, old(pos), t, lineType, if count < 0 then 0 else count)
    {
      var start := pos;
      var n: nat := if count < 0 then 0 else count;
      var keys: seq<Keyframe> := [];
      var i := 0;
      while i < n
        invariant 0 <= i <= n
        invariant ReadKeys(buffer, start, t, lineType, i) == Outcome(Ok(keys), pos)
      {
        var next := NextKey(start, t, lineType, i, keys);
        if next.Err? {
          ReadKeysStops(buffer, start, t, lineType, i + 1, n);
          return next;
        }
        keys := next.value;
        i := i + 1;
      }
      r := Ok(keys);
    }

    /** One turn of the key loop: the keys so far with one more pushed. */
    method NextKey(ghost start: int, t: VectorType, lineType: int, ghost i: nat, keys: seq<Keyframe>)
      returns (r: Result<seq<Keyframe>>)
      requires ReadKeys(buffer, start, t, lineType, i) == Outcome(Ok(keys), pos)
      modifies this
      ensures Outcome(r, pos) == ReadKeys(buffer, start, t, lineType, i + 1)
    {
      var key := Key(t, lineType);
      if key.Err? {
        return Err(key.error);
      }
      r := Ok(keys + [key.value]);
    }

    /** `animVector(type, value)`. */
    method AnimVector(t: VectorType, value: Option<seq<int>>) returns (r: Result<Track>)
      modifies this
      ensures Outcome(r, pos) == ReadAnimVector(buffer, old(pos), t, value)
    {
      var count :- Number(Int32);
      var lineType :- Number(Int32);
      var seqId :- Number(Int32);
      var keys :- Keys(t, lineType, count);
      var default :- DefaultOf(t, keys, value);
      r := Ok(Track(keys, lineType, if seqId == -1 then None else Some(seqId), default));
    }
  }

  lemma {:induction false} ReadKeysStops(s: seq<byte>, p: int, t: VectorType, lineType: int, i: nat, n: nat)
    requires i <= n && ReadKeys(s, p, t, lineType, i).result.Err?
    ensures ReadKeys(s, p, t, lineType, n) == ReadKeys(s, p, t, lineType, i)
    decreases n - i
  {
    if i < n {
      ReadKeysErrNext(s, p, t, lineType, i);
      ReadKeysStops(s, p, t, lineType, i + 1, n);
    }
  }

  /** A key loop that has thrown gives the same outcome one key later. */
  lemma ReadKeysErrNext(s: seq<byte>, p: int, t: VectorType, lineType: int, n: nat)
    requires ReadKeys(s, p, t, lineType, n).result.Err?
    ensures ReadKeys(s, p, t, lineType, n + 1) == ReadKeys(s, p, t, lineType, n)
  {
  }
}
