/** Byte buffers as the viewer's Node code sees them: little-endian reads, the
    JavaScript integer conversions and bitwise operators on numbers and BigInts,
    and the Buffer operations (`indexOf(0, from)`, `toString(enc, start, end)`,
    `copy`, `slice`) whose edge cases the readers rely on. */
module Bytes {

  type byte = b: int | 0 <= b < 0x100

  const Two16: int := 0x1_0000
  const Two31: int := 0x8000_0000
  const Two32: int := 0x1_0000_0000

  // ---------------------------------------------------------------------------
  // Bitwise operators on non-negative integers, bit by bit from the bottom

  function Pow2(n: nat): (r: nat)
    ensures r >= 1
  {
    if n == 0 then 1 else 2 * Pow2(n - 1)
  }

  /** The low `n` bits of `a ^ b`. */
  function BitXor(a: nat, b: nat, n: nat): (r: nat)
    ensures r < Pow2(n)
  {
    if n == 0 then 0 else (if a % 2 == b % 2 then 0 else 1) + 2 * BitXor(a / 2, b / 2, n - 1)
  }

  /** The low `n` bits of `a | b`. */
  function BitOr(a: nat, b: nat, n: nat): (r: nat)
    ensures r < Pow2(n)
  {
    if n == 0 then 0 else (if a % 2 == 1 || b % 2 == 1 then 1 else 0) + 2 * BitOr(a / 2, b / 2, n - 1)
  }

  /** The low `n` bits of `a & b`. */
  function BitAnd(a: nat, b: nat, n: nat): (r: nat)
    ensures r < Pow2(n)
  {
    if n == 0 then 0 else (if a % 2 == 1 && b % 2 == 1 then 1 else 0) + 2 * BitAnd(a / 2, b / 2, n - 1)
  }

  /** Bit `k` of a non-negative number. */
  function Bit(x: nat, k: nat): (r: nat)
    ensures r < 2
  {
    if k == 0 then x % 2 else Bit(x / 2, k - 1)
  }

  /** The bottom bit and the rest of `bit + 2 * rest`. */
  lemma SplitLowBit(bit: int, rest: int)
    requires 0 <= bit < 2
    ensures (bit + 2 * rest) % 2 == bit && (bit + 2 * rest) / 2 == rest
  {
  }

  /** Xoring twice with the same value gives the original back. */
  lemma {:induction false} XorCancel(a: nat, b: nat, n: nat)
    requires a < Pow2(n)
    ensures BitXor(BitXor(a, b, n), b, n) == a
  {
    if n > 0 {
      var low := BitXor(a / 2, b / 2, n - 1);
      SplitLowBit(if a % 2 == b % 2 then 0 else 1, low);
      XorCancel(a / 2, b / 2, n - 1);
    }
  }

  /** Bit `k` of `a & b` is set exactly when it is set in both. */
  lemma {:induction false} BitAndBit(a: nat, b: nat, n: nat, k: nat)
    requires k < n
    ensures Bit(BitAnd(a, b, n), k) == (if Bit(a, k) == 1 && Bit(b, k) == 1 then 1 else 0)
  {
    SplitLowBit(if a % 2 == 1 && b % 2 == 1 then 1 else 0, BitAnd(a / 2, b / 2, n - 1));
    if k > 0 {
      BitAndBit(a / 2, b / 2, n - 1, k - 1);
    }
  }

  lemma {:induction false} BitAndZero(a: nat, n: nat)
    ensures BitAnd(a, 0, n) == 0
  {
    if n > 0 {
      BitAndZero(a / 2, n - 1);
    }
  }

  /** Anding with 2^k keeps bit k alone. */
  lemma {:induction false} BitAndPow2(a: nat, k: nat, n: nat)
    requires k < n
    ensures BitAnd(a, Pow2(k), n) == if Bit(a, k) == 1 then Pow2(k) else 0
  {
    if k == 0 {
      BitAndZero(a / 2, n - 1);
    } else {
      assert Pow2(k) % 2 == 0 && Pow2(k) / 2 == Pow2(k - 1);
      BitAndPow2(a / 2, k - 1, n - 1);
    }
  }

  lemma Pow2At32()
    ensures Pow2(16) == Two16 && Pow2(31) == Two31 && Pow2(32) == Two32
  {
    assert Pow2(8) == 0x100;
    assert Pow2(16) == 0x100 * Pow2(8) by {
      assert Pow2(16) == 2 * 2 * 2 * 2 * 2 * 2 * 2 * 2 * Pow2(8);
    }
    assert Pow2(24) == 0x100 * Pow2(16) by {
      assert Pow2(24) == 2 * 2 * 2 * 2 * 2 * 2 * 2 * 2 * Pow2(16);
    }
    assert Pow2(31) == 0x80 * Pow2(24) by {
      assert Pow2(31) == 2 * 2 * 2 * 2 * 2 * 2 * 2 * Pow2(24);
    }
  }

  // ---------------------------------------------------------------------------
  // JavaScript number conversions and 32-bit operators

  /** The low 32 bits of an unbounded (two's complement) integer: `x & 0xFFFFFFFF` on BigInts. */
  function Low32(x: int): (r: nat)
    ensures r < Two32
  {
    x % 0x1_0000_0000
  }

  /** ECMAScript ToInt32: the signed 32-bit value congruent to `x`. */
  function ToInt32(x: int): (r: int)
    ensures -Two31 <= r < Two31
    ensures (x - r) % 0x1_0000_0000 == 0
  {
    var m := x % 0x1_0000_0000;
    if m >= Two31 then m - Two32 else m
  }

  /** The 32-bit xor of two words. */
  function Xor32(a: int, b: int): (r: nat)
    ensures r < Two32
  {
    Pow2At32();
    BitXor(Low32(a), Low32(b), 32)
  }

  /** The 32-bit or of two words. */
  function Or32(a: int, b: int): (r: nat)
    ensures r < Two32
  {
    Pow2At32();
    BitOr(Low32(a), Low32(b), 32)
  }

  lemma Xor32Cancel(a: int, b: int)
    requires 0 <= a < Two32
    ensures Xor32(Xor32(a, b), b) == a
  {
    var lb := Low32(b);
    Pow2At32();
    XorCancel(a, lb, 32);
    var x := BitXor(a, lb, 32);
    Low32Of(a);
    Low32Of(x);
  }

  /** A number already in [0, 2^32) is its own low 32 bits. */
  lemma Low32Of(x: int)
    requires 0 <= x < 0x1_0000_0000
    ensures Low32(x) == x
  {
  }

  /** A 32-bit pattern survives ToInt32 and back. */
  lemma Low32ToInt32(x: int)
    requires 0 <= x < 0x1_0000_0000
    ensures Low32(ToInt32(x)) == x
  {
  }

  /** JavaScript `a & b` on numbers: both operands go through ToInt32, the result is signed. */
  function JsAnd(a: int, b: int): (r: int)
    ensures -Two31 <= r < Two31
  {
    ToInt32(BitAnd(Low32(a), Low32(b), 32))
  }

  /** JavaScript `~a` on a number. */
  function JsNot(a: int): (r: int)
    ensures -Two31 <= r < Two31
  {
    -ToInt32(a) - 1
  }

  /** JavaScript `a << n` on numbers: the count is taken modulo 32 and the result is signed. */
  function JsShl(a: int, n: int): (r: int)
    ensures -Two31 <= r < Two31
  {
    ToInt32(Low32(a) * Pow2(n % 32))
  }

  /** A freshly allocated buffer or typed array: every element 0. */
  function Zeros(n: nat): (r: seq<byte>)
    ensures |r| == n && forall k :: 0 <= k < n ==> r[k] == 0
  {
    seq(n, k => 0)
  }

  // ---------------------------------------------------------------------------
  // Little-endian reads (Buffer.readUInt16LE / readUInt32LE / readInt32LE)

  predicate InBounds(s: seq<byte>, p: int, width: nat) {
    0 <= p && p + width <= |s|
  }

  function U16At(s: seq<byte>, p: int): (r: int)
    requires InBounds(s, p, 2)
    ensures 0 <= r < Two16
  {
    s[p] as int + 0x100 * s[p + 1] as int
  }

  function U32At(s: seq<byte>, p: int): (r: int)
    requires InBounds(s, p, 4)
    ensures 0 <= r < Two32
  {
    s[p] as int + 0x100 * s[p + 1] as int + 0x1_0000 * s[p + 2] as int + 0x100_0000 * s[p + 3] as int
  }

  function I32At(s: seq<byte>, p: int): (r: int)
    requires InBounds(s, p, 4)
    ensures -Two31 <= r < Two31
    ensures r >= 0 ==> r == U32At(s, p)
    ensures r < 0 ==> r == U32At(s, p) - Two32
  {
    var u := U32At(s, p);
    if u >= Two31 then u - Two32 else u
  }

  // ---------------------------------------------------------------------------
  // Little-endian writes (writeUInt16LE / writeUInt32LE), the inverse of the reads

  function Le16(x: int): (r: seq<byte>)
    requires 0 <= x < Two16
    ensures |r| == 2
  {
    [x % 0x100, x / 0x100]
  }

  function Le32(x: int): (r: seq<byte>)
    requires 0 <= x < Two32
    ensures |r| == 4
  {
    [x % 0x100, x / 0x100 % 0x100, x / 0x100 / 0x100 % 0x100, x / 0x100 / 0x100 / 0x100]
  }

  lemma Le16Read(s: seq<byte>, p: nat, x: int)
    requires 0 <= x < Two16 && p + 2 <= |s| && s[p..p + 2] == Le16(x)
    ensures U16At(s, p) == x
  {
    assert s[p] == Le16(x)[0] && s[p + 1] == Le16(x)[1];
  }

  lemma Le32Read(s: seq<byte>, p: nat, x: int)
    requires 0 <= x < Two32 && p + 4 <= |s| && s[p..p + 4] == Le32(x)
    ensures U32At(s, p) == x
  {
    var q1 := x / 0x100;
    var q2 := q1 / 0x100;
    assert s[p] == x % 0x100 && s[p + 1] == q1 % 0x100 && s[p + 2] == q2 % 0x100 && s[p + 3] == q2 / 0x100 by {
      assert s[p..p + 4][0] == s[p] && s[p..p + 4][1] == s[p + 1] && s[p..p + 4][2] == s[p + 2] && s[p..p + 4][3] == s[p + 3];
    }
  }

  // ---------------------------------------------------------------------------
  // Buffer.indexOf(0, from), Buffer.toString(enc, start, end), Buffer.slice

  /** First index `k >= from` holding a NUL byte, or -1. */
  function FirstZeroFrom(s: seq<byte>, from: nat): (r: int)
    decreases |s| - from
    ensures r == -1 || from <= r < |s|
  {
    if from >= |s| then -1
    else if s[from] == 0 then from
    else FirstZeroFrom(s, from + 1)
  }

  /** The index found holds a NUL and no byte before it (from `from` on) does;
      -1 means no byte from `from` on is NUL. */
  lemma {:induction false} FirstZeroFromSpec(s: seq<byte>, from: nat)
    ensures var r := FirstZeroFrom(s, from);
      && (r != -1 ==> s[r] == 0)
      && forall k :: from <= k < (if r == -1 then |s| else r) ==> s[k] != 0
    decreases |s| - from
  {
    if from < |s| && s[from] != 0 {
      FirstZeroFromSpec(s, from + 1);
    }
  }

  /** Node's `buf.indexOf(0, byteOffset)`: a negative offset counts back from the end
      (and is clamped to 0); an offset with no byte at or after it finds nothing. */
  function IndexOfZero(s: seq<byte>, byteOffset: int): (r: int)
    ensures r == -1 || 0 <= r < |s|
    ensures byteOffset >= 0 ==> r == FirstZeroFrom(s, byteOffset)
  {
    if |s| == 0 then -1
    else if byteOffset < 0 then FirstZeroFrom(s, if byteOffset + |s| >= 0 then byteOffset + |s| else 0)
    else FirstZeroFrom(s, byteOffset)
  }

  /** The bytes Node's `buf.toString(enc, start, end)` decodes: a start at or below 0
      reads from 0, one at or past the end gives "", an end past the buffer is
      clamped, and an end at or before the start gives "". */
  function SliceForString(s: seq<byte>, start: int, end: int): (r: seq<byte>)
    ensures |r| <= |s|
    ensures 0 <= start <= end <= |s| ==> r == s[start..end]
    ensures end <= start ==> r == []
  {
    var st := if start <= 0 then 0 else start;
    var en := if end > |s| then |s| else end;
    if st >= |s| || en <= st then [] else s[st..en]
  }

  /** `buf.slice(start, end)` for non-negative bounds: both are clamped to the
      length, and an end before the start gives an empty buffer. */
  function Slice(s: seq<byte>, start: nat, end: int): (r: seq<byte>)
    ensures start <= end <= |s| ==> r == s[start..end]
    ensures |r| <= |s|
  {
    var st := if start > |s| then |s| else start;
    var en := if end > |s| then |s| else end;
    if en <= st then [] else s[st..en]
  }

  /** Decodes bytes one character per byte; multi-byte UTF-8 is not modelled. */
  function Chars(bs: seq<byte>): (r: string)
    ensures |r| == |bs|
    ensures forall k :: 0 <= k < |bs| ==> r[k] as int == bs[k]
  {
    seq(|bs|, k requires 0 <= k < |bs| => bs[k] as char)
  }

  // ---------------------------------------------------------------------------
  // Buffer.copy(target, targetStart, sourceStart, sourceEnd)

  /** How many bytes Buffer.copy moves: as many as fit in both the source range
      and the rest of the target. */
  function CopyCount(targetLen: nat, targetStart: nat, sourceLen: nat, sourceStart: nat, sourceEnd: int): (n: nat)
    requires sourceStart <= sourceLen
    ensures sourceStart + n <= sourceLen
    ensures n > 0 ==> targetStart + n <= targetLen
  {
    var se := if sourceEnd > sourceLen then sourceLen else sourceEnd;
    if targetStart >= targetLen || se <= sourceStart then 0
    else
      var avail := se - sourceStart;
      if avail < targetLen - targetStart then avail else targetLen - targetStart
  }

  /** The target after Buffer.copy, once its arguments are valid. */
  function CopyInto(target: seq<byte>, targetStart: nat, source: seq<byte>, sourceStart: nat, sourceEnd: int): (r: seq<byte>)
    requires sourceStart <= |source|
    ensures |r| == |target|
    ensures forall k :: 0 <= k < |target| ==>
      r[k] == (if targetStart <= k < targetStart + CopyCount(|target|, targetStart, |source|, sourceStart, sourceEnd)
               then source[sourceStart + (k - targetStart)] else target[k])
  {
    var n := CopyCount(|target|, targetStart, |source|, sourceStart, sourceEnd);
    seq(|target|, k requires 0 <= k < |target| =>
      if targetStart <= k < targetStart + n then source[sourceStart + (k - targetStart)] else target[k])
  }

  /** Buffer.copy on arrays, one byte at a time. */
  method CopyBytes(target: array<byte>, targetStart: nat, source: array<byte>, sourceStart: nat, sourceEnd: int)
    requires sourceStart <= source.Length
    requires target != source
    modifies target
    ensures target[..] == CopyInto(old(target[..]), targetStart, source[..], sourceStart, sourceEnd)
  {
    var n := CopyCount(target.Length, targetStart, source.Length, sourceStart, sourceEnd);
    var i := 0;
    while i < n
      invariant 0 <= i <= n
      invariant forall k :: 0 <= k < target.Length ==>
        target[k] == (if targetStart <= k < targetStart + i then source[sourceStart + (k - targetStart)] else old(target[k]))
    {
      target[targetStart + i] := source[sourceStart + i];
      i := i + 1;
    }
  }
}
