/** The string operations the viewer relies on, as JavaScript and Node's `path`
    module (its win32 flavour) perform them: case mapping restricted to ASCII,
    `split` on one character, `replace` of the first occurrence, and the base
    name, extension, directory and join of a path. */
module Text {

  // ---------------------------------------------------------------------------
  // Case

  function UpperAscii(c: char): char {
    if 'a' <= c <= 'z' then (c as int - 32) as char else c
  }

  function LowerAscii(c: char): char {
    if 'A' <= c <= 'Z' then (c as int + 32) as char else c
  }

  /** `toUpperCase` restricted to ASCII letters. */
  function ToUpper(s: string): (r: string)
    ensures |r| == |s|
    ensures forall k :: 0 <= k < |s| ==> r[k] == UpperAscii(s[k])
  {
    seq(|s|, k requires 0 <= k < |s| => UpperAscii(s[k]))
  }

  /** `toLowerCase` restricted to ASCII letters. */
  function ToLower(s: string): (r: string)
    ensures |r| == |s|
    ensures forall k :: 0 <= k < |s| ==> r[k] == LowerAscii(s[k])
  {
    seq(|s|, k requires 0 <= k < |s| => LowerAscii(s[k]))
  }

  lemma ToUpperAppend(a: string, b: string)
    ensures ToUpper(a + b) == ToUpper(a) + ToUpper(b)
  {
  }

  lemma ToUpperIdempotent(s: string)
    ensures ToUpper(ToUpper(s)) == ToUpper(s)
  {
  }

  /** A string without lower-case letters is its own upper case. */
  lemma ToUpperFixed(s: string)
    requires forall k :: 0 <= k < |s| ==> !('a' <= s[k] <= 'z')
    ensures ToUpper(s) == s
  {
  }

  /** Upper-casing and lower-casing identify the same strings. */
  lemma SameCaseFold(a: string, b: string)
    ensures ToLower(a) == ToLower(b) <==> ToUpper(a) == ToUpper(b)
  {
    if ToLower(a) == ToLower(b) {
      assert |a| == |b|;
      forall k | 0 <= k < |a| ensures ToUpper(a)[k] == ToUpper(b)[k] {
        assert LowerAscii(a[k]) == LowerAscii(b[k]);
      }
    }
    if ToUpper(a) == ToUpper(b) {
      assert |a| == |b|;
      forall k | 0 <= k < |a| ensures ToLower(a)[k] == ToLower(b)[k] {
        assert UpperAscii(a[k]) == UpperAscii(b[k]);
      }
    }
  }

  /** Lower-casing ignores an earlier upper-casing. */
  lemma ToLowerUpper(s: string)
    ensures ToLower(ToUpper(s)) == ToLower(s)
  {
    ToUpperIdempotent(s);
    SameCaseFold(ToUpper(s), s);
  }

  // ---------------------------------------------------------------------------
  // Searching, replacing, splitting

  predicate StartsWith(s: string, prefix: string) {
    |prefix| <= |s| && s[..|prefix|] == prefix
  }

  predicate EndsWith(s: string, suffix: string) {
    |suffix| <= |s| && s[|s| - |suffix|..] == suffix
  }

  predicate OccursAt(s: string, pattern: string, k: int) {
    0 <= k && k + |pattern| <= |s| && s[k..k + |pattern|] == pattern
  }

  /** `indexOf(pattern, from)`: the first occurrence at or after `from`, or -1. */
  function IndexOfFrom(s: string, pattern: string, from: nat): (r: int)
    ensures r == -1 || (from <= r && OccursAt(s, pattern, r))
    decreases |s| - from
  {
    if from + |pattern| > |s| then -1
    else if s[from..from + |pattern|] == pattern then from
    else IndexOfFrom(s, pattern, from + 1)
  }

  /** No occurrence at or after `from` precedes the one found. */
  lemma {:induction false} IndexOfFromFirst(s: string, pattern: string, from: nat)
    ensures var r := IndexOfFrom(s, pattern, from);
      forall k :: from <= k && (r == -1 || k < r) ==> !OccursAt(s, pattern, k)
    decreases |s| - from
  {
    if from + |pattern| <= |s| && s[from..from + |pattern|] != pattern {
      IndexOfFromFirst(s, pattern, from + 1);
    }
  }

  /** `replace(pattern, replacement)` with a string pattern: only the first
      occurrence is replaced. */
  function ReplaceFirst(s: string, pattern: string, replacement: string): (r: string)
  {
    var k := IndexOfFrom(s, pattern, 0);
    if k == -1 then s else s[..k] + replacement + s[k + |pattern|..]
  }

  /** Without an occurrence of the pattern the string is left unchanged. */
  lemma ReplaceFirstAbsent(s: string, pattern: string, replacement: string)
    requires forall k :: !OccursAt(s, pattern, k)
    ensures ReplaceFirst(s, pattern, replacement) == s
  {
  }

  /** With a first occurrence at k, the result is the text before it, the
      replacement and the text after it. */
  lemma ReplaceFirstAt(s: string, pattern: string, replacement: string, k: int)
    requires OccursAt(s, pattern, k)
    requires forall j :: 0 <= j < k ==> !OccursAt(s, pattern, j)
    ensures ReplaceFirst(s, pattern, replacement) == s[..k] + replacement + s[k + |pattern|..]
  {
    IndexOfFromFirst(s, pattern, 0);
    var i := IndexOfFrom(s, pattern, 0);
    assert i != -1 && !(k < i) && !(i < k);
  }

  /** `split(c)` with a one-character separator: never empty, "" gives [""]. */
  function Split(s: string, c: char): (r: seq<string>)
    ensures |r| >= 1
  {
    if |s| == 0 then [""]
    else
      var rest := Split(s[1..], c);
      if s[0] == c then [""] + rest else [[s[0]] + rest[0]] + rest[1..]
  }

  /** `parts.join(c)`. */
  function JoinWith(parts: seq<string>, c: char): string
    requires |parts| >= 1
  {
    if |parts| == 1 then parts[0] else parts[0] + [c] + JoinWith(parts[1..], c)
  }

  lemma JoinWithFirst(x: string, parts: seq<string>, c: char)
    requires |parts| >= 1
    ensures JoinWith([x + parts[0]] + parts[1..], c) == x + JoinWith(parts, c)
  {
    var all := [x + parts[0]] + parts[1..];
    assert all[1..] == parts[1..];
  }

  /** Splitting loses nothing: the parts hold no separator and joining them
      with it gives the string back. */
  lemma {:induction false} SplitJoin(s: string, c: char)
    ensures JoinWith(Split(s, c), c) == s
    ensures forall k :: 0 <= k < |Split(s, c)| ==> c !in Split(s, c)[k]
  {
    if |s| > 0 {
      var rest := Split(s[1..], c);
      SplitJoin(s[1..], c);
      var parts := Split(s, c);
      if s[0] == c {
        assert parts[1..] == rest;
        assert s == [c] + s[1..];
      } else {
        JoinWithFirst([s[0]], rest, c);
        assert s == [s[0]] + s[1..];
        forall k | 0 <= k < |parts| ensures c !in parts[k] {
          if k > 0 {
            assert parts[k] == rest[k];
          }
        }
      }
    }
  }

  /** `split('\r\n')`: the text between line breaks, never empty. */
  function SplitLines(s: string): (r: seq<string>)
    ensures |r| >= 1
  {
    if |s| == 0 then [""]
    else if |s| >= 2 && s[0] == '\r' && s[1] == '\n' then [""] + SplitLines(s[2..])
    else
      var rest := SplitLines(s[1..]);
      [[s[0]] + rest[0]] + rest[1..]
  }

  /** `parts.join('\r\n')`. */
  function JoinLines(parts: seq<string>): string
    requires |parts| >= 1
  {
    if |parts| == 1 then parts[0] else parts[0] + "\r\n" + JoinLines(parts[1..])
  }

  /** Splitting on line breaks loses nothing. */
  lemma {:induction false} SplitLinesJoin(s: string)
    ensures JoinLines(SplitLines(s)) == s
  {
    if |s| >= 2 && s[0] == '\r' && s[1] == '\n' {
      SplitLinesJoin(s[2..]);
      assert SplitLines(s)[1..] == SplitLines(s[2..]);
      assert s == "\r\n" + s[2..];
    } else if |s| > 0 {
      var rest := SplitLines(s[1..]);
      SplitLinesJoin(s[1..]);
      var parts := SplitLines(s);
      assert parts[1..] == rest[1..];
      if |rest| > 1 {
        assert JoinLines(rest) == rest[0] + "\r\n" + JoinLines(rest[1..]);
      }
      assert s == [s[0]] + s[1..];
    }
  }

  /** `s.split(c).pop()`. */
  function LastPart(s: string, c: char): string {
    var parts := Split(s, c);
    parts[|parts| - 1]
  }

  /** The last part is the text after the last `c`: a suffix of the string
      holding no `c`, preceded by a `c` when it is not the whole string. */
  predicate IsLastPart(s: string, c: char, p: string) {
    |p| <= |s| && s[|s| - |p|..] == p && c !in p && (|p| < |s| ==> s[|s| - |p| - 1] == c)
  }

  lemma {:induction false} LastPartSuffix(s: string, c: char)
    ensures IsLastPart(s, c, LastPart(s, c))
  {
    if |s| > 0 {
      var t := s[1..];
      LastPartSuffix(t, c);
      SplitJoin(t, c);
      if s[0] == c {
        LastPartAfterSeparator(s, c);
      } else if |Split(t, c)| == 1 {
        LastPartWhole(s, c);
      } else {
        LastPartInner(s, c);
      }
    }
  }

  /** Only one part is the last. */
  lemma LastPartUnique(s: string, c: char, p: string, q: string)
    requires IsLastPart(s, c, p) && IsLastPart(s, c, q)
    ensures p == q
  {
    NotLonger(s, c, p, q);
    NotLonger(s, c, q, p);
  }

  /** A last part is at least as long as any other: the character before the
      shorter one is a `c`, which the longer one would hold. */
  lemma NotLonger(s: string, c: char, p: string, q: string)
    requires IsLastPart(s, c, p) && IsLastPart(s, c, q)
    ensures |q| <= |p|
  {
    forall k | |s| - |q| <= k < |s| ensures s[k] != c {
      assert s[k] == q[k - (|s| - |q|)];
    }
  }

  /** The text after the last `c`, for a string that ends in `c` and then
      text without `c`. */
  lemma LastPartAfter(prefix: string, c: char, part: string)
    requires c !in part
    ensures LastPart(prefix + [c] + part, c) == part
  {
    var s := prefix + [c] + part;
    LastPartSuffix(s, c);
    assert s[|s| - |part|..] == part;
    assert s[|s| - |part| - 1] == c;
    LastPartUnique(s, c, LastPart(s, c), part);
  }

  /** Without a `c` the whole string is the last part. */
  lemma LastPartNone(s: string, c: char)
    requires c !in s
    ensures LastPart(s, c) == s
  {
    LastPartSuffix(s, c);
    assert IsLastPart(s, c, s);
    LastPartUnique(s, c, LastPart(s, c), s);
  }

  lemma LastPartAfterSeparator(s: string, c: char)
    requires |s| > 0 && s[0] == c && IsLastPart(s[1..], c, LastPart(s[1..], c))
    ensures IsLastPart(s, c, LastPart(s, c))
  {
    var t := s[1..];
    var p := LastPart(t, c);
    assert LastPart(s, c) == p;
    assert t[|t| - |p|..] == s[|s| - |p|..];
    if |p| == |t| {
      assert s[|s| - |p| - 1] == s[0];
    } else {
      assert s[|s| - |p| - 1] == t[|t| - |p| - 1];
    }
  }

  lemma LastPartWhole(s: string, c: char)
    requires |s| > 0 && s[0] != c && |Split(s[1..], c)| == 1
    requires JoinWith(Split(s[1..], c), c) == s[1..]
    requires forall k :: 0 <= k < |Split(s[1..], c)| ==> c !in Split(s[1..], c)[k]
    ensures IsLastPart(s, c, LastPart(s, c))
  {
    var rest := Split(s[1..], c);
    assert rest[0] == s[1..];
    assert LastPart(s, c) == [s[0]] + s[1..] == s;
  }

  lemma LastPartInner(s: string, c: char)
    requires |s| > 0 && s[0] != c && |Split(s[1..], c)| > 1
    requires JoinWith(Split(s[1..], c), c) == s[1..]
    requires IsLastPart(s[1..], c, LastPart(s[1..], c))
    ensures IsLastPart(s, c, LastPart(s, c))
  {
    var t := s[1..];
    var rest := Split(t, c);
    var p := LastPart(t, c);
    assert LastPart(s, c) == p;
    assert t[|t| - |p|..] == s[|s| - |p|..];
    assert t == rest[0] + [c] + JoinWith(rest[1..], c);
    assert t[|rest[0]|] == c;
    assert |p| < |t|;
    assert s[|s| - |p| - 1] == t[|t| - |p| - 1];
  }

  /** Upper-casing a dot-free stem and a suffix that upper-cases to `pattern`,
      then replacing the first `pattern`, replaces the suffix. */
  lemma ReplaceAfterStem(stem: string, suffix: string, pattern: string, replacement: string)
    requires '.' !in stem && |pattern| > 0 && pattern[0] == '.' && ToUpper(suffix) == pattern
    ensures ReplaceFirst(ToUpper(stem + suffix), pattern, replacement) == ToUpper(stem) + replacement
  {
    var s := ToUpper(stem + suffix);
    ToUpperAppend(stem, suffix);
    assert s == ToUpper(stem) + pattern;
    assert OccursAt(s, pattern, |stem|);
    forall j | 0 <= j < |stem| ensures !OccursAt(s, pattern, j) {
      assert s[j] == UpperAscii(stem[j]);
      assert stem[j] in stem;
    }
    ReplaceFirstAt(s, pattern, replacement, |stem|);
    assert s[..|stem|] == ToUpper(stem);
    assert s[|stem| + |pattern|..] == [];
  }

  /** `s.substr(0, n)`: a negative length takes nothing, a length past the
      end takes everything. */
  function Head(s: string, n: int): (r: string)
    ensures |r| == (if n <= 0 then 0 else if n < |s| then n else |s|)
    ensures r == s[..|r|]
  {
    if n <= 0 then "" else if n < |s| then s[..n] else s
  }

  // ---------------------------------------------------------------------------
  // Paths (Node's `path`, win32 flavour)

  predicate IsSeparator(c: char) { c == '\\' || c == '/' }

  /** Index of the last '\' or '/', or -1. */
  function LastSeparator(s: string): (r: int)
    ensures -1 <= r < |s|
  {
    if |s| == 0 then -1
    else if IsSeparator(s[|s| - 1]) then |s| - 1
    else LastSeparator(s[..|s| - 1])
  }

  /** It is a separator, and none follows it. */
  lemma {:induction false} LastSeparatorSpec(s: string)
    ensures var r := LastSeparator(s);
      (r >= 0 ==> IsSeparator(s[r])) && forall k :: r < k < |s| ==> !IsSeparator(s[k])
  {
    if |s| > 0 && !IsSeparator(s[|s| - 1]) {
      LastSeparatorSpec(s[..|s| - 1]);
    }
  }

  /** Conversely, a separator that none follows, or -1 when the string holds
      none, is the last one. */
  lemma {:induction false} LastSeparatorIs(s: string, i: int)
    requires -1 <= i < |s| && (i >= 0 ==> IsSeparator(s[i]))
    requires forall k :: i < k < |s| ==> !IsSeparator(s[k])
    ensures LastSeparator(s) == i
  {
    if |s| > 0 && i < |s| - 1 {
      LastSeparatorIs(s[..|s| - 1], i);
    }
  }

  /** The text after the last separator. */
  function BaseName(s: string): (r: string)
    ensures |r| <= |s|
  {
    s[LastSeparator(s) + 1..]
  }

  /** A suffix of the path without separators, after a separator when it is
      not the whole path. */
  lemma BaseNameSpec(s: string)
    ensures var r := BaseName(s);
      (forall c :: c in r ==> !IsSeparator(c)) && r == s[|s| - |r|..]
      && (|r| < |s| ==> IsSeparator(s[|s| - |r| - 1]))
  {
    var k := LastSeparator(s);
    LastSeparatorSpec(s);
    AfterLast(s, k);
  }

  lemma AfterLast(s: string, k: int)
    requires -1 <= k < |s| && forall j :: k < j < |s| ==> !IsSeparator(s[j])
    ensures forall c :: c in s[k + 1..] ==> !IsSeparator(c)
  {
    forall c | c in s[k + 1..] ensures !IsSeparator(c) {
      var j :| 0 <= j < |s| - k - 1 && s[k + 1..][j] == c;
      assert s[k + 1 + j] == c;
    }
  }

  /** Index of the last '.', or -1. */
  function LastDot(s: string): (r: int)
    ensures -1 <= r < |s|
  {
    if |s| == 0 then -1
    else if s[|s| - 1] == '.' then |s| - 1
    else LastDot(s[..|s| - 1])
  }

  /** It is a dot, and none follows it. */
  lemma {:induction false} LastDotSpec(s: string)
    ensures var r := LastDot(s);
      (r >= 0 ==> s[r] == '.') && forall k :: r < k < |s| ==> s[k] != '.'
  {
    if |s| > 0 && s[|s| - 1] != '.' {
      LastDotSpec(s[..|s| - 1]);
    }
  }

  /** Where the extension of a base name starts: at its last '.', unless there
      is none, the dot is the first character, or the name is "..". */
  function ExtensionStart(base: string): (r: nat)
    ensures r <= |base|
  {
    var d := LastDot(base);
    if d <= 0 || base == ".." then |base| else d
  }

  /** `path.parse(s).name`: the base name without its extension. */
  function ParseName(s: string): string {
    var base := BaseName(s);
    base[..ExtensionStart(base)]
  }

  /** `path.extname(s)`: the extension with its dot, or "". */
  function ExtName(s: string): string {
    var base := BaseName(s);
    base[ExtensionStart(base)..]
  }

  /** A path is its directory part, its name and its extension. */
  lemma PathParts(s: string)
    ensures var base := BaseName(s);
      base == ParseName(s) + ExtName(s)
      && (ExtName(s) == [] || (ExtName(s)[0] == '.' && '.' !in ExtName(s)[1..] && |ParseName(s)| > 0))
  {
    var base := BaseName(s);
    var e := ExtensionStart(base);
    assert base == base[..e] + base[e..];
    if e < |base| {
      ExtensionShape(base);
    }
  }

  /** An extension starts with its dot, holds no other, and follows a
      non-empty name. */
  lemma ExtensionShape(base: string)
    requires ExtensionStart(base) < |base|
    ensures var e := ExtensionStart(base);
      base[e] == '.' && '.' !in base[e + 1..] && e > 0
  {
    var e := ExtensionStart(base);
    LastDotSpec(base);
    var rest := base[e + 1..];
    forall k | 0 <= k < |rest| ensures rest[k] != '.' {
      assert rest[k] == base[e + 1 + k];
    }
  }

  /** `path.dirname(s)`: the text before the last separator, the root itself
      when that separator starts the path, "." when there is none. */
  function DirName(s: string): string {
    var k := LastSeparator(s);
    if k == -1 then "." else if k == 0 then s[..1] else s[..k]
  }

  /** `path.join(a, b)` for a directory and a relative name. */
  function JoinPath(a: string, b: string): string {
    if a == "" || a == "." then b
    else if IsSeparator(a[|a| - 1]) then a + b
    else a + "\\" + b
  }

  /** Joining names to one directory keeps different names apart, and the
      joined path ends with the name. */
  lemma JoinPathInjective(a: string, x: string, y: string)
    ensures EndsWith(JoinPath(a, x), x)
    ensures JoinPath(a, x) == JoinPath(a, y) ==> x == y
  {
    var p := if a == "" || a == "." then "" else if IsSeparator(a[|a| - 1]) then a else a + "\\";
    assert JoinPath(a, x) == p + x && JoinPath(a, y) == p + y;
    assert (p + x)[|p|..] == x && (p + y)[|p|..] == y;
  }

  /** Upper-casing commutes with taking the name of a path: separators and
      dots are not letters. */
  lemma {:induction false} LastSeparatorUpper(s: string)
    ensures LastSeparator(ToUpper(s)) == LastSeparator(s)
    decreases |s|
  {
    if |s| > 0 && !IsSeparator(s[|s| - 1]) {
      assert ToUpper(s)[..|s| - 1] == ToUpper(s[..|s| - 1]);
      LastSeparatorUpper(s[..|s| - 1]);
    }
  }

  lemma {:induction false} LastDotUpper(s: string)
    ensures LastDot(ToUpper(s)) == LastDot(s)
    decreases |s|
  {
    if |s| > 0 && s[|s| - 1] != '.' {
      assert ToUpper(s)[..|s| - 1] == ToUpper(s[..|s| - 1]);
      LastDotUpper(s[..|s| - 1]);
    }
  }

  lemma BaseNameUpper(s: string)
    ensures BaseName(ToUpper(s)) == ToUpper(BaseName(s))
  {
    LastSeparatorUpper(s);
    var k := LastSeparator(s) + 1;
    assert ToUpper(s)[k..] == ToUpper(s[k..]);
  }

  lemma ExtensionStartUpper(base: string)
    ensures ExtensionStart(ToUpper(base)) == ExtensionStart(base)
  {
    LastDotUpper(base);
    if ToUpper(base) == ".." {
      assert base[0] == '.' && base[1] == '.';
      assert base == "..";
    }
  }

  lemma ParseNameUpper(s: string)
    ensures ParseName(ToUpper(s)) == ToUpper(ParseName(s))
  {
    var base := BaseName(s);
    BaseNameUpper(s);
    ExtensionStartUpper(base);
    PrefixUpper(base, ExtensionStart(base));
  }

  lemma PrefixUpper(s: string, e: nat)
    requires e <= |s|
    ensures ToUpper(s)[..e] == ToUpper(s[..e])
  {
  }

  /** A name without dots or separators is its own parsed name. */
  lemma ParseNamePlain(s: string)
    requires forall k :: 0 <= k < |s| ==> s[k] != '.' && !IsSeparator(s[k])
    ensures ParseName(s) == s
  {
    Absent(s);
    assert BaseName(s) == s;
  }

  lemma {:induction false} Absent(s: string)
    requires forall k :: 0 <= k < |s| ==> s[k] != '.' && !IsSeparator(s[k])
    ensures LastSeparator(s) == -1 && LastDot(s) == -1
  {
    if |s| > 0 {
      var init := s[..|s| - 1];
      assert forall k :: 0 <= k < |init| ==> init[k] == s[k];
      Absent(init);
    }
  }
}
