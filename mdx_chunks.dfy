/** The chunk parsers of src/formats/mdx/modelreader.ts other than the geosets:
    `parseNode`, `parseVersion`, `parseTextures`, `parsePivotPoints`,
    `parseGlobalSequences` and `parseHitTestShapes`. Each is a function of the
    buffer and the cursor position (what the parser computes and where it leaves
    the cursor) and a method on the shared `Reader` proved to compute it. A
    parser that throws aborts the whole model, so where the cursor stands after
    a throw is not tracked. */
module MdxChunks {
  import opened Results
  import opened Bytes
  import opened BinaryReader
  import opened MdxModel

  const NameLength := 0x50
  const FileNameLength := 0x104

  const KGTR := "KGTR"
  const KGRT := "KGRT"
  const KGSC := "KGSC"

  const IncorrectNode := "Incorrect node chunk data"
  const InvalidVersion := "Invalid version"

  /** A parsed value together with where the cursor stands after it. */
  datatype At<+T> = At(value: T, pos: int)

  /** A read's outcome with its cursor after a throw dropped. */
  function Lift<T>(o: Outcome<T>): (r: Result<At<T>>)
    ensures r.Ok? <==> o.result.Ok?
  {
    if o.result.Ok? then Ok(At(o.result.value, o.pos)) else Err(o.result.error)
  }

  function Num(s: seq<byte>, p: int, kind: NumberKind): (r: Result<At<int>>)
    ensures r.Ok? ==> InBounds(s, p, Width(kind)) && r.value.pos == p + Width(kind)
  {
    Lift(ReadNumber(s, p, kind))
  }

  /** `xxxArray(n)`: none for a negative n. */
  function Nums(s: seq<byte>, p: int, kind: NumberKind, n: int): (r: Result<At<seq<int>>>)
    ensures r.Ok? ==> |r.value.value| == (if n < 0 then 0 else n)
    ensures r.Ok? ==> r.value.pos == p + (if n < 0 then 0 else n) * Width(kind)
  {
    ReadNumbersLayout(s, p, kind, if n < 0 then 0 else n);
    Lift(ReadNumbers(s, p, kind, if n < 0 then 0 else n))
  }

  /** `expectKeyword(keyword, errorText)`. */
  function Expect(s: seq<byte>, p: int, keyword: string, errorText: string): (r: Result<int>)
    ensures r.Ok? ==> r.value == p + 4
  {
    if WordAt(s, p) == keyword then Ok(p + 4) else Err(BadData(errorText))
  }

  /** `animVector(type)` with no supplied default. */
  function Anim(s: seq<byte>, p: int, t: VectorType): (r: Result<At<Track>>)
    ensures r.Ok? ==> r.value.pos >= p + 12
  {
    Lift(ReadAnimVector(s, p, t, None))
  }

  /** -1 in the file becomes null. */
  function NullIfMinusOne(x: int): Option<int> {
    if x == -1 then None else Some(x)
  }

  // ---------------------------------------------------------------------------
  // parseNode

  /** `parseNode` at `p`: the node's size and fixed fields, then its track
      sub-chunks up to `p + size`. */
  function NodeAt(s: seq<byte>, p: int): (r: Result<At<Node>>)
    ensures r.Ok? ==> r.value.pos >= p + 0x60 && r.value.value.origin == p
  {
    var head :- NodeHeadAt(s, p);
    NodeTracks(s, head.pos, p + head.value.size, head.value.node)
  }

  /** The fixed part of a node: its size, its name (0x50 bytes), ObjectId, Parent
      and Flags, and no tracks yet. */
  function NodeHeadAt(s: seq<byte>, p: int): (r: Result<At<NodeHead>>)
    ensures r.Ok? ==> r.value.pos == p + 0x60 && r.value.value.node.origin == p
  {
    var size :- Num(s, p, Int32);
    var objectId :- Num(s, p + 4 + NameLength, Int32);
    var parent :- Num(s, objectId.pos, Int32);
    var flags :- Num(s, parent.pos, UInt32);
    Ok(At(NodeHead(size.value, Node(StrAt(s, p + 4, NameLength), NullIfMinusOne(objectId.value),
                                    NullIfMinusOne(parent.value), flags.value, None, None, None, None, p)), flags.pos))
  }

  /** A node's declared size and its fixed fields. */
  datatype NodeHead = NodeHead(size: int, node: Node)

  /** The sub-chunk loop of `parseNode`: while the cursor is before `end`, a
      KGTR, KGRT or KGSC track (FLOAT3, FLOAT4, FLOAT3), any other keyword
      throwing. A later track of the same kind replaces the earlier one. */
  function NodeTracks(s: seq<byte>, p: int, end: int, node: Node): (r: Result<At<Node>>)
    ensures r.Ok? ==> r.value.pos >= p && r.value.value.origin == node.origin
    decreases end - p
  {
    if p >= end then Ok(At(node, p))
    else
      var keyword := WordAt(s, p);
      if keyword == KGTR then
        var track :- Anim(s, p + 4, Float3);
        NodeTracks(s, track.pos, end, node.(translation := Some(track.value)))
      else if keyword == KGRT then
        var track :- Anim(s, p + 4, Float4);
        NodeTracks(s, track.pos, end, node.(rotation := Some(track.value)))
      else if keyword == KGSC then
        var track :- Anim(s, p + 4, Float3);
        NodeTracks(s, track.pos, end, node.(scaling := Some(track.value)))
      else Err(BadData(IncorrectNode))
  }

  /** The fixed part of a node: Name is the string in the 0x50 bytes after the
      size, and an ObjectId or Parent of -1 becomes null. */
  lemma NodeHeader(s: seq<byte>, p: int)
    ensures var r := NodeHeadAt(s, p);
      r.Ok? ==>
        && InBounds(s, p, 4) && InBounds(s, p + 0x54, 12)
        && r.value.value.size == I32At(s, p)
        && r.value.value.node.name == StrAt(s, p + 4, 0x50)
        && r.value.value.node.objectId == (if I32At(s, p + 0x54) == -1 then None else Some(I32At(s, p + 0x54)))
        && r.value.value.node.parent == (if I32At(s, p + 0x58) == -1 then None else Some(I32At(s, p + 0x58)))
        && r.value.value.node.flags == U32At(s, p + 0x5C)
  {
  }

  /** The sub-chunk loop only sets the tracks. */
  lemma {:induction false} NodeTracksKeep(s: seq<byte>, p: int, end: int, node: Node)
    ensures var r := NodeTracks(s, p, end, node);
      r.Ok? ==> (r.value.value.(translation := None, rotation := None, scaling := None)
                 == node.(translation := None, rotation := None, scaling := None))
    decreases end - p
  {
    if p < end {
      var keyword := WordAt(s, p);
      var t := if keyword == KGRT then Float4 else Float3;
      var track := Anim(s, p + 4, t);
      if track.Ok? {
        if keyword == KGTR {
          NodeTracksKeep(s, track.value.pos, end, node.(translation := Some(track.value.value)));
        } else if keyword == KGRT {
          NodeTracksKeep(s, track.value.pos, end, node.(rotation := Some(track.value.value)));
        } else if keyword == KGSC {
          NodeTracksKeep(s, track.value.pos, end, node.(scaling := Some(track.value.value)));
        }
      }
    }
  }

  /** Inside the node, any keyword other than KGTR, KGRT and KGSC throws; the
      loop ends only at or past `p + size` (the size never re-syncs the cursor). */
  lemma NodeTracksKeywords(s: seq<byte>, p: int, end: int, node: Node)
    ensures p < end && WordAt(s, p) !in {KGTR, KGRT, KGSC} ==>
      NodeTracks(s, p, end, node) == Err(BadData(IncorrectNode))
    ensures NodeTracks(s, p, end, node).Ok? ==> NodeTracks(s, p, end, node).value.pos >= end
    decreases end - p
  {
    if p < end {
      var keyword := WordAt(s, p);
      var t := if keyword == KGRT then Float4 else Float3;
      var track := Anim(s, p + 4, t);
      if track.Ok? {
        if keyword == KGTR {
          NodeTracksKeywords(s, track.value.pos, end, node.(translation := Some(track.value.value)));
        } else if keyword == KGRT {
          NodeTracksKeywords(s, track.value.pos, end, node.(rotation := Some(track.value.value)));
        } else if keyword == KGSC {
          NodeTracksKeywords(s, track.value.pos, end, node.(scaling := Some(track.value.value)));
        }
      }
    }
  }

  method ReadNodeTracks(reader: Reader, end: int, node: Node) returns (r: Result<Node>)
    modifies reader
    ensures Lift(Outcome(r, reader.pos)) == NodeTracks(reader.buffer, old(reader.pos), end, node)
  {
    ghost var goal := NodeTracks(reader.buffer, reader.pos, end, node);
    var n := node;
    while reader.pos < end
      invariant NodeTracks(reader.buffer, reader.pos, end, n) == goal
      decreases end - reader.pos
    {
      var next := NextTrack(reader, end, n);
      if next.Err? {
        return next;
      }
      n := next.value;
    }
    return Ok(n);
  }

  /** One turn of the sub-chunk loop of `parseNode`. */
  method NextTrack(reader: Reader, end: int, node: Node) returns (r: Result<Node>)
    requires reader.pos < end
    modifies reader
    ensures r.Ok? ==> reader.pos > old(reader.pos)
    ensures NodeTracks(reader.buffer, old(reader.pos), end, node)
         == if r.Ok? then NodeTracks(reader.buffer, reader.pos, end, r.value) else Err(r.error)
  {
    ghost var p := reader.pos;
    var keyword := reader.Keyword();
    var t := if keyword == KGRT then Float4 else Float3;
    if keyword != KGTR && keyword != KGRT && keyword != KGSC {
      return Err(BadData(IncorrectNode));
    }
    var track := reader.AnimVector(t, None);
    assert Lift(Outcome(track, reader.pos)) == Anim(reader.buffer, p + 4, t);
    if track.Err? {
      return Err(track.error);
    }
    if keyword == KGTR {
      r := Ok(node.(translation := Some(track.value)));
    } else if keyword == KGRT {
      r := Ok(node.(rotation := Some(track.value)));
    } else {
      r := Ok(node.(scaling := Some(track.value)));
    }
  }

  /** `parseNode`: reads the node and stores it at `Nodes[ObjectId]`. */
  method ParseNode(reader: Reader, nodes: NodeTable) returns (r: Result<Node>, stored: NodeTable)
    modifies reader
    ensures Lift(Outcome(r, reader.pos)) == NodeAt(reader.buffer, old(reader.pos))
    ensures r.Ok? ==> stored == StoreNode(nodes, r.value)
  {
    stored := nodes;
    var startPos := reader.pos;
    var head := ReadNodeHead(reader);
    if head.Err? {
      return Err(head.error), stored;
    }
    r := ReadNodeTracks(reader, startPos + head.value.size, head.value.node);
    if r.Ok? {
      stored := StoreNode(nodes, r.value);
    }
  }

  /** The first statements of `parseNode`, up to the -1 to null mapping. */
  method ReadNodeHead(reader: Reader) returns (r: Result<NodeHead>)
    modifies reader
    ensures Lift(Outcome(r, reader.pos)) == NodeHeadAt(reader.buffer, old(reader.pos))
  {
    var start := reader.pos;
    var size :- reader.Number(Int32);
    var name := reader.Str(NameLength);
    var objectId :- reader.Number(Int32);
    var parent :- reader.Number(Int32);
    var flags :- reader.Number(UInt32);
    r := Ok(NodeHead(size, Node(name, NullIfMinusOne(objectId), NullIfMinusOne(parent), flags, None, None, None, None, start)));
  }

  // ---------------------------------------------------------------------------
  // parseVersion

  /** `parseVersion`: an int32, which must lie in [1300, 1500]. */
  function VersionAt(s: seq<byte>, p: int): (r: Result<At<int>>)
    ensures r.Ok? <==> InBounds(s, p, 4) && 1300 <= I32At(s, p) <= 1500
    ensures r.Ok? ==> r.value == At(I32At(s, p), p + 4)
    ensures r.Err? && InBounds(s, p, 4) ==> r.error == BadData(InvalidVersion)
  {
    var v :- Num(s, p, Int32);
    if v.value < 1300 || v.value > 1500 then Err(BadData(InvalidVersion)) else Ok(v)
  }

  method ParseVersion(reader: Reader) returns (r: Result<int>)
    modifies reader
    ensures Lift(Outcome(r, reader.pos)) == VersionAt(reader.buffer, old(reader.pos))
  {
    var v := reader.Number(Int32);
    if v.Err? {
      return v;
    }
    if v.value < 1300 || v.value > 1500 {
      return Err(BadData(InvalidVersion));
    }
    return v;
  }

  // ---------------------------------------------------------------------------
  // parseTextures

  /** One texture record: ReplaceableId, Image (0x104 bytes) and Flags; an
      empty image takes the name of the replaceable id. */
  function TextureAt(s: seq<byte>, p: int): (r: Result<At<Texture>>)
    ensures r.Ok? ==> r.value.pos == p + 0x10C && |r.value.value.image| > 0
  {
    var id :- Num(s, p, Int32);
    var flags :- Num(s, p + 4 + FileNameLength, Int32);
    var image :- TextureImage(id.value, StrAt(s, p + 4, FileNameLength));
    Ok(At(Texture(id.value, image, flags.value), flags.pos))
  }

  /** The loop of `parseTextures`: records are read while the cursor is before
      `end`, and each is pushed after the textures already there. */
  function TexturesFrom(s: seq<byte>, p: int, end: int, textures: seq<Texture>): (r: Result<At<seq<Texture>>>)
    ensures r.Ok? ==> r.value.pos >= p
    decreases end - p
  {
    if p >= end then Ok(At(textures, p))
    else
      var texture :- TextureAt(s, p);
      TexturesFrom(s, texture.pos, end, textures + [texture.value])
  }

  /** What reading texture records from `p` to `end` guarantees: one record per
      started block of 0x10C bytes, each with a non-empty image, after the
      textures already there. */
  ghost predicate TexturesLaidOut(p: int, end: int, textures: seq<Texture>, r: Result<At<seq<Texture>>>) {
    r.Ok? ==>
      && var n := if end <= p then 0 else (end - p + 0x10B) / 0x10C;
      && |r.value.value| == |textures| + n
      && r.value.value[..|textures|] == textures
      && r.value.pos == p + n * 0x10C
      && forall k :: |textures| <= k < |r.value.value| ==> |r.value.value[k].image| > 0
  }

  lemma {:induction false} TexturesLayout(s: seq<byte>, p: int, end: int, textures: seq<Texture>)
    ensures TexturesLaidOut(p, end, textures, TexturesFrom(s, p, end, textures))
    decreases end - p
  {
    if p < end {
      var texture := TextureAt(s, p);
      if texture.Ok? {
        var next := textures + [texture.value.value];
        TexturesLayout(s, p + 0x10C, end, next);
        TexturesStep(p, end, textures, texture.value.value, TexturesFrom(s, p + 0x10C, end, next));
      }
    }
  }

  /** The arithmetic of one more record. */
  lemma TexturesStep(p: int, end: int, textures: seq<Texture>, t: Texture, r: Result<At<seq<Texture>>>)
    requires p < end && |t.image| > 0
    requires TexturesLaidOut(p + 0x10C, end, textures + [t], r)
    ensures TexturesLaidOut(p, end, textures, r)
  {
    if r.Ok? {
      var n := (end - p + 0x10B) / 0x10C;
      var m := if end <= p + 0x10C then 0 else (end - (p + 0x10C) + 0x10B) / 0x10C;
      assert n == m + 1;
      assert r.value.value[..|textures|] == r.value.value[..|textures| + 1][..|textures|];
    }
  }

  method ParseTextures(reader: Reader, textures: seq<Texture>, size: int) returns (r: Result<seq<Texture>>)
    modifies reader
    ensures Lift(Outcome(r, reader.pos)) == TexturesFrom(reader.buffer, old(reader.pos), old(reader.pos) + size, textures)
  {
    var startPos := reader.pos;
    ghost var goal := TexturesFrom(reader.buffer, reader.pos, startPos + size, textures);
    var all := textures;
    while reader.pos < startPos + size
      invariant TexturesFrom(reader.buffer, reader.pos, startPos + size, all) == goal
      decreases startPos + size - reader.pos
    {
      var next := NextTexture(reader, startPos + size, all);
      if next.Err? {
        return next;
      }
      all := next.value;
    }
    return Ok(all);
  }

  /** One turn of the `parseTextures` loop. */
  method NextTexture(reader: Reader, end: int, textures: seq<Texture>) returns (r: Result<seq<Texture>>)
    requires reader.pos < end
    modifies reader
    ensures r.Ok? ==> reader.pos > old(reader.pos)
    ensures TexturesFrom(reader.buffer, old(reader.pos), end, textures)
         == if r.Ok? then TexturesFrom(reader.buffer, reader.pos, end, r.value) else Err(r.error)
  {
    var texture := ReadTexture(reader);
    if texture.Err? {
      return Err(texture.error);
    }
    r := Ok(textures + [texture.value]);
  }

  method ReadTexture(reader: Reader) returns (r: Result<Texture>)
    modifies reader
    ensures Lift(Outcome(r, reader.pos)) == TextureAt(reader.buffer, old(reader.pos))
  {
    var id :- reader.Number(Int32);
    var image := reader.Str(FileNameLength);
    var flags :- reader.Number(Int32);
    var name :- TextureImage(id, image);
    r := Ok(Texture(id, name, flags));
  }

  // ---------------------------------------------------------------------------
  // parsePivotPoints

  /** The three float patterns of a pivot point at `q`. */
  function PointAt(s: seq<byte>, q: int): seq<int>
    requires InBounds(s, q, 12)
  {
    [U32At(s, q), U32At(s, q + 4), U32At(s, q + 8)]
  }

  /** `model.PivotPoints[i] = v`: `i` never passes the end of the array, so the
      point either replaces one from an earlier PIVT chunk or is appended. */
  function SetOrAppend(points: seq<seq<int>>, i: nat, v: seq<int>): (r: seq<seq<int>>)
    requires i <= |points|
    ensures |r| == if i < |points| then |points| else i + 1
    ensures r[i] == v && forall k :: 0 <= k < |points| && k != i ==> r[k] == points[k]
  {
    if i < |points| then points[i := v] else points + [v]
  }

  /** The loop of `parsePivotPoints` from point `i` on: `floatArray(3)` for each
      point up to `n`. */
  function PivotsFrom(s: seq<byte>, p: int, i: nat, n: nat, points: seq<seq<int>>): (r: Result<At<seq<seq<int>>>>)
    requires i <= n && i <= |points|
    decreases n - i
  {
    if i == n then Ok(At(points, p))
    else
      var point :- Nums(s, p, Float, 3);
      PivotsFrom(s, point.pos, i + 1, n, SetOrAppend(points, i, point.value))
  }

  /** `parsePivotPoints`: PivotCount(size) points into the existing array. */
  function PivotPointsAt(s: seq<byte>, p: int, size: int, points: seq<seq<int>>): Result<At<seq<seq<int>>>> {
    PivotsFrom(s, p, 0, PivotCount(size), points)
  }

  /** What reading points `i` to `n` from `p` leaves: point k comes from
      p + 12 * (k - i), and every other slot keeps its earlier point. */
  ghost predicate PivotsLaidOut(s: seq<byte>, p: int, i: nat, n: nat, points: seq<seq<int>>, a: At<seq<seq<int>>>) {
    && i <= n && i <= |points|
    && a.pos == p + 12 * (n - i)
    && |a.value| == (if n < |points| then |points| else n)
    && (forall k :: 0 <= k < i ==> a.value[k] == points[k])
    && (forall k :: n <= k < |points| ==> a.value[k] == points[k])
    && (i < n ==> InBounds(s, p, 12 * (n - i)))
    && (forall k :: i <= k < n ==> a.value[k] == PointAt(s, p + 12 * (k - i)))
  }

  lemma {:induction false} PivotsLayout(s: seq<byte>, p: int, i: nat, n: nat, points: seq<seq<int>>)
    requires i <= n && i <= |points|
    ensures var r := PivotsFrom(s, p, i, n, points);
      && (r.Ok? <==> i == n || InBounds(s, p, 12 * (n - i)))
      && (r.Ok? ==> PivotsLaidOut(s, p, i, n, points, r.value))
    decreases n - i
  {
    if i < n {
      var point := Nums(s, p, Float, 3);
      ReadNumbersLayout(s, p, Float, 3);
      if point.Ok? {
        assert point.value.value == PointAt(s, p);
        var next := SetOrAppend(points, i, point.value.value);
        PivotsLayout(s, p + 12, i + 1, n, next);
        PivotsStep(s, p, i, n, points, PivotsFrom(s, p + 12, i + 1, n, next));
      }
    }
  }

  /** The arithmetic of one more point. */
  lemma PivotsStep(s: seq<byte>, p: int, i: nat, n: nat, points: seq<seq<int>>, r: Result<At<seq<seq<int>>>>)
    requires i < n && i <= |points| && InBounds(s, p, 12)
    requires r.Ok? <==> i + 1 == n || InBounds(s, p + 12, 12 * (n - i - 1))
    requires r.Ok? ==> PivotsLaidOut(s, p + 12, i + 1, n, SetOrAppend(points, i, PointAt(s, p)), r.value)
    ensures r.Ok? <==> InBounds(s, p, 12 * (n - i))
    ensures r.Ok? ==> PivotsLaidOut(s, p, i, n, points, r.value)
  {
    assert 12 * (n - i) == 12 + 12 * (n - i - 1);
    if r.Ok? {
      PivotsShift(s, p, i, n, r.value.value);
    }
  }

  /** Points i + 1 to n read from p + 12 are points i + 1 to n read from p. */
  lemma PivotsShift(s: seq<byte>, p: int, i: nat, n: nat, a: seq<seq<int>>)
    requires n <= |a| && i < n && InBounds(s, p, 12 * (n - i))
    requires forall k :: i + 1 <= k < n ==> a[k] == PointAt(s, p + 12 + 12 * (k - (i + 1)))
    ensures forall k :: i + 1 <= k < n ==> a[k] == PointAt(s, p + 12 * (k - i))
  {
    forall k | i + 1 <= k < n
      ensures a[k] == PointAt(s, p + 12 * (k - i))
    {
      assert p + 12 + 12 * (k - (i + 1)) == p + 12 * (k - i);
    }
  }

  /** `parsePivotPoints` reads exactly PivotCount(size) points, all inside the
      buffer, or throws. */
  lemma PivotPointsLayout(s: seq<byte>, p: int, size: int, points: seq<seq<int>>)
    ensures var r := PivotPointsAt(s, p, size, points);
      && (r.Ok? <==> size <= 0 || InBounds(s, p, 12 * PivotCount(size)))
      && (r.Ok? ==> PivotsLaidOut(s, p, 0, PivotCount(size), points, r.value))
  {
    PivotsLayout(s, p, 0, PivotCount(size), points);
    PivotCountBounds(size);
  }

  method ParsePivotPoints(reader: Reader, points: seq<seq<int>>, size: int) returns (r: Result<seq<seq<int>>>)
    modifies reader
    ensures Lift(Outcome(r, reader.pos)) == PivotPointsAt(reader.buffer, old(reader.pos), size, points)
  {
    ghost var goal := PivotPointsAt(reader.buffer, reader.pos, size, points);
    PivotCountBounds(size);
    var all := points;
    var i := 0;
    while 12 * i < size
      invariant i <= PivotCount(size) && i <= |all|
      invariant PivotsFrom(reader.buffer, reader.pos, i, PivotCount(size), all) == goal
      decreases size - 12 * i
    {
      ghost var p := reader.pos;
      var point := reader.Numbers(Float, 3);
      assert Lift(Outcome(point, reader.pos)) == Nums(reader.buffer, p, Float, 3);
      if point.Err? {
        return Err(point.error);
      }
      all := SetOrAppend(all, i, point.value);
      i := i + 1;
    }
    return Ok(all);
  }

  // ---------------------------------------------------------------------------
  // parseGlobalSequences

  /** `parseGlobalSequences`: `int32Array(size / 4)`, replacing the list. */
  function GlobalSequencesAt(s: seq<byte>, p: int, size: int): Result<At<seq<int>>> {
    Nums(s, p, Int32, GlobalSequenceCount(size))
  }

  /** The list holds the int32 at p + 4k for every k below size / 4, and the read
      succeeds exactly when those bytes are in the buffer. */
  lemma GlobalSequencesLayout(s: seq<byte>, p: int, size: int)
    ensures var n := GlobalSequenceCount(size);
      var r := GlobalSequencesAt(s, p, size);
      && (r.Ok? <==> n == 0 || InBounds(s, p, 4 * n))
      && (r.Ok? ==> r.value.pos == p + 4 * n && |r.value.value| == n)
      && (r.Ok? ==> forall k :: 0 <= k < n ==> InBounds(s, p + 4 * k, 4) && r.value.value[k] == I32At(s, p + 4 * k))
  {
    var n := GlobalSequenceCount(size);
    ReadNumbersLayout(s, p, Int32, n);
  }

  method ParseGlobalSequences(reader: Reader, size: int) returns (r: Result<seq<int>>)
    modifies reader
    ensures Lift(Outcome(r, reader.pos)) == GlobalSequencesAt(reader.buffer, old(reader.pos), size)
  {
    r := reader.Numbers(Int32, size / 4);
  }

  // ---------------------------------------------------------------------------
  // parseHitTestShapes

  /** One shape record: a size that is skipped, a node, the shape byte, and the
      floats the shape calls for. */
  function ShapeAt(s: seq<byte>, p: int): (r: Result<At<HitTestShape>>)
    ensures r.Ok? ==> var h := r.value.value;
      && h.node.origin == p + 4 && r.value.pos >= p + 4 + 0x60
      && 0 <= h.shape < 256
      && (h.vertices.Some? <==> h.shape <= 3)
      && (h.vertices.Some? ==> |h.vertices.value| == [6, 5, 4, 2][h.shape])
  {
    var size :- Num(s, p, Int32);
    var node :- NodeAt(s, size.pos);
    var shape :- Num(s, node.pos, UInt8);
    var floats := ShapeFloats(shape.value);
    if floats.None? then Ok(At(HitTestShape(node.value, shape.value, None), shape.pos))
    else
      var vertices :- Nums(s, shape.pos, Float, floats.value);
      Ok(At(HitTestShape(node.value, shape.value, Some(vertices.value)), vertices.pos))
  }

  /** The loop of `parseHitTestShapes` from shape `i` on: each shape's node goes
      into `model.Nodes` and the shape is pushed. */
  function ShapesFrom(s: seq<byte>, p: int, i: int, count: int, nodes: NodeTable, shapes: seq<HitTestShape>)
    : (r: Result<At<(NodeTable, seq<HitTestShape>)>>)
    ensures r.Ok? ==> r.value.pos >= p
    decreases count - i
  {
    if i >= count then Ok(At((nodes, shapes), p))
    else
      var h :- ShapeAt(s, p);
      ShapesFrom(s, h.pos, i + 1, count, StoreNode(nodes, h.value.node), shapes + [h.value])
  }

  /** `parseHitTestShapes`: an int32 count, then that many shapes. */
  function HitTestShapesAt(s: seq<byte>, p: int, nodes: NodeTable, shapes: seq<HitTestShape>)
    : (r: Result<At<(NodeTable, seq<HitTestShape>)>>)
    ensures r.Ok? ==> r.value.pos >= p
  {
    var count :- Num(s, p, Int32);
    ShapesFrom(s, count.pos, 0, count.value, nodes, shapes)
  }

  function NodesOf(shapes: seq<HitTestShape>): (r: seq<Node>)
    ensures |r| == |shapes| && forall k :: 0 <= k < |shapes| ==> r[k] == shapes[k].node
  {
    seq(|shapes|, k requires 0 <= k < |shapes| => shapes[k].node)
  }

  /** The loop pushes one shape per turn after the ones already there, and the
      node table ends up with the new shapes' nodes stored in order. */
  lemma {:induction false} ShapesLayout(s: seq<byte>, p: int, i: int, count: int, nodes: NodeTable, shapes: seq<HitTestShape>)
    ensures var r := ShapesFrom(s, p, i, count, nodes, shapes);
      r.Ok? ==>
        && |r.value.value.1| == |shapes| + (if count < i then 0 else count - i)
        && r.value.value.1[..|shapes|] == shapes
        && r.value.value.0 == StoreNodes(nodes, NodesOf(r.value.value.1[|shapes|..]))
    decreases count - i
  {
    if i < count {
      var h := ShapeAt(s, p);
      if h.Ok? {
        var t := StoreNode(nodes, h.value.value.node);
        var more := shapes + [h.value.value];
        ShapesLayout(s, h.value.pos, i + 1, count, t, more);
        var r := ShapesFrom(s, h.value.pos, i + 1, count, t, more);
        if r.Ok? {
          ShapesStep(nodes, shapes, h.value.value, r.value.value.1, r.value.value.0);
        }
      }
    }
  }

  /** Peeling the first new shape off the stored nodes. */
  lemma ShapesStep(nodes: NodeTable, shapes: seq<HitTestShape>, h: HitTestShape, all: seq<HitTestShape>, t: NodeTable)
    requires |all| >= |shapes| + 1 && all[..|shapes| + 1] == shapes + [h]
    requires t == StoreNodes(StoreNode(nodes, h.node), NodesOf(all[|shapes| + 1..]))
    ensures all[..|shapes|] == shapes
    ensures t == StoreNodes(nodes, NodesOf(all[|shapes|..]))
  {
    assert all[..|shapes|] == all[..|shapes| + 1][..|shapes|];
    var rest := NodesOf(all[|shapes| + 1..]);
    assert NodesOf(all[|shapes|..]) == [h.node] + rest;
    StoreNodesFirst(nodes, h.node, rest);
  }

  /** Storing a node and then a list is storing the list with the node in front. */
  lemma {:induction false} StoreNodesFirst(t: NodeTable, node: Node, rest: seq<Node>)
    ensures StoreNodes(StoreNode(t, node), rest) == StoreNodes(t, [node] + rest)
    decreases |rest|
  {
    if |rest| > 0 {
      var init := rest[..|rest| - 1];
      StoreNodesFirst(t, node, init);
      assert ([node] + rest)[..|rest|] == [node] + init;
    }
  }

  /** The shapes of one chunk are read from successive records, so they are
      distinct objects: each new shape's node starts past `p` and past the
      node of the shape before it. */
  lemma {:induction false} ShapeOrigins(s: seq<byte>, p: int, i: int, count: int, nodes: NodeTable, shapes: seq<HitTestShape>)
    ensures var r := ShapesFrom(s, p, i, count, nodes, shapes);
      r.Ok? ==>
        && |r.value.value.1| >= |shapes|
        && (forall a :: |shapes| <= a < |r.value.value.1| ==> p < r.value.value.1[a].node.origin < r.value.pos)
        && (forall a, b :: |shapes| <= a < b < |r.value.value.1| ==>
              r.value.value.1[a].node.origin < r.value.value.1[b].node.origin)
    decreases count - i
  {
    if i < count {
      var h := ShapeAt(s, p);
      if h.Ok? {
        var more := shapes + [h.value.value];
        var t := StoreNode(nodes, h.value.value.node);
        var r := ShapesFrom(s, h.value.pos, i + 1, count, t, more);
        ShapesFromNext(s, p, i, count, nodes, shapes);
        ShapeOrigins(s, h.value.pos, i + 1, count, t, more);
        ShapesLayout(s, h.value.pos, i + 1, count, t, more);
        if r.Ok? {
          var all := r.value.value.1;
          assert all[|shapes|] == more[|shapes|];
          assert p < all[|shapes|].node.origin < h.value.pos;
        }
      }
    }
  }

  /** One turn of the shape loop, when its record is read. */
  lemma ShapesFromNext(s: seq<byte>, p: int, i: int, count: int, nodes: NodeTable, shapes: seq<HitTestShape>)
    requires i < count && ShapeAt(s, p).Ok?
    ensures var h := ShapeAt(s, p).value;
      ShapesFrom(s, p, i, count, nodes, shapes)
      == ShapesFrom(s, h.pos, i + 1, count, StoreNode(nodes, h.value.node), shapes + [h.value])
  {
  }

  /** Of two shapes of one chunk under the same ObjectId, the earlier is no
      longer the object `model.Nodes` holds: the later one replaced it, so the
      pivot loop does not reach the earlier shape. */
  lemma ReplacedShapeNotStored(s: seq<byte>, p: int, nodes: NodeTable, shapes: seq<HitTestShape>, j: int, k: int)
    requires HitTestShapesAt(s, p, nodes, shapes).Ok?
    requires var all := HitTestShapesAt(s, p, nodes, shapes).value.value.1;
      |shapes| <= j < k < |all| && all[j].node.objectId == all[k].node.objectId
    ensures var r := HitTestShapesAt(s, p, nodes, shapes).value.value;
      !StoredInArray(r.0.indexed, r.1[j].node)
  {
    var count := Num(s, p, Int32).value;
    var r := HitTestShapesAt(s, p, nodes, shapes).value.value;
    ShapesLayout(s, count.pos, 0, count.value, nodes, shapes);
    ShapeOrigins(s, count.pos, 0, count.value, nodes, shapes);
    var added := NodesOf(r.1[|shapes|..]);
    var id := r.1[j].node.objectId;
    StoreNodesLookup(nodes, added, id);
    var last := LastWithId(added, id);
    assert added[k - |shapes|].objectId == id;
    assert last >= k - |shapes|;
    assert added[last] == r.1[|shapes| + last].node;
  }

  method ParseHitTestShapes(reader: Reader, nodes: NodeTable, shapes: seq<HitTestShape>)
    returns (r: Result<(NodeTable, seq<HitTestShape>)>)
    modifies reader
    ensures Lift(Outcome(r, reader.pos)) == HitTestShapesAt(reader.buffer, old(reader.pos), nodes, shapes)
  {
    var count :- reader.Number(Int32);
    ghost var goal := ShapesFrom(reader.buffer, reader.pos, 0, count, nodes, shapes);
    var table := nodes;
    var all := shapes;
    var i := 0;
    while i < count
      invariant ShapesFrom(reader.buffer, reader.pos, i, count, table, all) == goal
      decreases count - i
    {
      var h, stored := ReadShape(reader, table);
      if h.Err? {
        return Err(h.error);
      }
      table := stored;
      all := all + [h.value];
      i := i + 1;
    }
    return Ok((table, all));
  }

  /** One turn of the `parseHitTestShapes` loop. */
  method ReadShape(reader: Reader, nodes: NodeTable) returns (r: Result<HitTestShape>, stored: NodeTable)
    modifies reader
    ensures Lift(Outcome(r, reader.pos)) == ShapeAt(reader.buffer, old(reader.pos))
    ensures r.Ok? ==> stored == StoreNode(nodes, r.value.node)
  {
    stored := nodes;
    var size := reader.Number(Int32);
    if size.Err? {
      return Err(size.error), stored;
    }
    var node;
    node, stored := ParseNode(reader, nodes);
    if node.Err? {
      return Err(node.error), stored;
    }
    var shape := reader.Number(UInt8);
    if shape.Err? {
      return Err(shape.error), stored;
    }
    var floats := ShapeFloats(shape.value);
    if floats.None? {
      return Ok(HitTestShape(node.value, shape.value, None)), stored;
    }
    var vertices := reader.Numbers(Float, floats.value);
    if vertices.Err? {
      return Err(vertices.error), stored;
    }
    r := Ok(HitTestShape(node.value, shape.value, Some(vertices.value)));
  }
}
