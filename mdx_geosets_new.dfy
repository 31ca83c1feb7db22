/** `parseGeosetsNew` of src/formats/mdx/modelreader.ts: the geoset chunk of
    version 1500 models. A first pass reads every geoset's header and pushes a
    geoset whose arrays are allocated to its vertex count; a second pass then
    reads, for `model.Geosets[i]` with i counted from 0, one 48-byte record per
    vertex (position, bone weights, four bone indices, normal, texture
    coordinate, unused bytes), groups the vertices by their bone tuples, and
    reads the faces. */
module MdxGeosetsNew {
  import opened Results
  import opened Bytes
  import opened BinaryReader
  import opened MdxModel
  import opened MdxChunks
  import opened MdxGeosetsOld

  // ---------------------------------------------------------------------------
  // First pass: the headers

  /** The fixed fields of a header: MaterialID, the bounds centre (dropped),
      BoundsRadius, SelectionGroup, the geoset index (dropped) and Flags. */
  function HeaderFieldsAt(s: seq<byte>, p: int): (r: Result<At<Geoset>>)
    ensures r.Ok? ==> r.value.pos == p + 32
  {
    var materialId :- Num(s, p, Int32);
    var center :- Nums(s, materialId.pos, Float, 3);
    var radius :- Num(s, center.pos, Float);
    var selectionGroup :- Num(s, radius.pos, Int32);
    var index :- Num(s, selectionGroup.pos, Int32);
    var flags :- Num(s, index.pos, Int32);
    Ok(At(NoGeoset.(materialId := materialId.value, selectionGroup := selectionGroup.value, flags := flags.value,
                    boundsRadius := radius.value), flags.pos))
  }

  /** PVTX and the vertex count, PTYP and its count, PVTX and its count. */
  function HeaderCountsAt(s: seq<byte>, p: int): (r: Result<At<int>>)
    ensures r.Ok? ==> r.value.pos == p + 24
  {
    var q1 :- Expect(s, p, PVTX, IncorrectGeosets);
    var vertexCount :- Num(s, q1, Int32);
    var q2 :- Expect(s, vertexCount.pos, PTYP, IncorrectGeosets);
    var typeCount :- Num(s, q2, Int32);
    var q3 :- Expect(s, typeCount.pos, PVTX, IncorrectGeosets);
    var primitiveCount :- Num(s, q3, Int32);
    Ok(At(vertexCount.value, primitiveCount.pos))
  }

  /** The containers of a geoset with `n` vertices. */
  function Allocated(g: Geoset, n: nat): Geoset {
    g.(vertices := Zeros(3 * n), normals := Zeros(3 * n), tVertices := [Zeros(2 * n)], vertexGroup := Zeros(n))
  }

  /** A geoset's header: its fields, its counts and 8 bytes of padding; then the
      containers are allocated, where `new Float32Array(n)` throws a RangeError
      for a negative n. Faces stay unset (here empty). */
  function HeaderAt(s: seq<byte>, p: int): (r: Result<At<Geoset>>)
    ensures r.Ok? ==> r.value.pos == p + 64
  {
    var fields :- HeaderFieldsAt(s, p);
    var vertexCount :- HeaderCountsAt(s, fields.pos);
    if vertexCount.value < 0 then Err(RangeError) else Ok(At(Allocated(fields.value, vertexCount.value), vertexCount.pos + 8))
  }

  /** The fields are 32 bytes, read exactly when they are all in the buffer. */
  lemma HeaderFieldsLayout(s: seq<byte>, p: int)
    ensures var r := HeaderFieldsAt(s, p);
      && (r.Ok? <==> InBounds(s, p, 32))
      && (r.Ok? ==> r.value.value == NoGeoset.(materialId := I32At(s, p), selectionGroup := I32At(s, p + 20),
                                               flags := I32At(s, p + 28), boundsRadius := U32At(s, p + 16)))
  {
    ReadNumbersLayout(s, p + 4, Float, 3);
  }

  /** The counts are 24 bytes, read exactly when they are all in the buffer and
      the three keywords match; a wrong keyword throws the geoset error. */
  lemma HeaderCountsLayout(s: seq<byte>, p: int)
    ensures var r := HeaderCountsAt(s, p);
      && (r.Ok? <==> InBounds(s, p, 24) && WordAt(s, p) == PVTX && WordAt(s, p + 8) == PTYP && WordAt(s, p + 16) == PVTX)
      && (r.Ok? ==> r.value.value == I32At(s, p + 4))
      && (WordAt(s, p) != PVTX ==> r == Err(BadData(IncorrectGeosets)))
  {
  }

  /** A header is 56 bytes and 8 of padding. It reads exactly when those 56
      bytes are there, the keywords match and the vertex count is not negative;
      the geoset then has arrays of that count, all zero. */
  lemma HeaderLayout(s: seq<byte>, p: int)
    ensures var r := HeaderAt(s, p);
      && (r.Ok? <==> && InBounds(s, p, 56) && WordAt(s, p + 32) == PVTX && WordAt(s, p + 40) == PTYP
                     && WordAt(s, p + 48) == PVTX && I32At(s, p + 36) >= 0)
      && (r.Ok? ==> r.value.value == Allocated(NoGeoset.(materialId := I32At(s, p), selectionGroup := I32At(s, p + 20),
                                               flags := I32At(s, p + 28), boundsRadius := U32At(s, p + 16)), I32At(s, p + 36)))
      && ((&& InBounds(s, p, 56) && WordAt(s, p + 32) == PVTX && WordAt(s, p + 40) == PTYP
           && WordAt(s, p + 48) == PVTX && I32At(s, p + 36) < 0) ==> r == Err(RangeError))
  {
    HeaderFieldsLayout(s, p);
    HeaderCountsLayout(s, p + 32);
  }

  method ReadHeaderFields(reader: Reader) returns (r: Result<Geoset>)
    modifies reader
    ensures Lift(Outcome(r, reader.pos)) == HeaderFieldsAt(reader.buffer, old(reader.pos))
  {
    var materialId :- reader.Number(Int32);
    var center :- reader.Numbers(Float, 3);
    var radius :- reader.Number(Float);
    var selectionGroup :- reader.Number(Int32);
    var index :- reader.Number(Int32);
    var flags :- reader.Number(Int32);
    r := Ok(NoGeoset.(materialId := materialId, selectionGroup := selectionGroup, flags := flags, boundsRadius := radius));
  }

  method ReadHeaderCounts(reader: Reader) returns (r: Result<int>)
    modifies reader
    ensures Lift(Outcome(r, reader.pos)) == HeaderCountsAt(reader.buffer, old(reader.pos))
  {
    var e1 := reader.ExpectKeyword(PVTX, IncorrectGeosets);
    if e1.Err? {
      return Err(e1.error);
    }
    var vertexCount :- reader.Number(Int32);
    var e2 := reader.ExpectKeyword(PTYP, IncorrectGeosets);
    if e2.Err? {
      return Err(e2.error);
    }
    var typeCount :- reader.Number(Int32);
    var e3 := reader.ExpectKeyword(PVTX, IncorrectGeosets);
    if e3.Err? {
      return Err(e3.error);
    }
    var primitiveCount :- reader.Number(Int32);
    r := Ok(vertexCount);
  }

  method ReadHeader(reader: Reader) returns (r: Result<Geoset>)
    modifies reader
    ensures Lift(Outcome(r, reader.pos)) == HeaderAt(reader.buffer, old(reader.pos))
  {
    var fields :- ReadHeaderFields(reader);
    var vertexCount :- ReadHeaderCounts(reader);
    reader.pos := reader.pos + 8;
    if vertexCount < 0 {
      return Err(RangeError);
    }
    r := Ok(Allocated(fields, vertexCount));
  }

  /** The first loop: each header's geoset is pushed after those already in
      the model. */
  function HeadersFrom(s: seq<byte>, p: int, i: int, count: int, geosets: seq<Geoset>): (r: Result<At<seq<Geoset>>>)
    ensures r.Ok? ==> |r.value.value| == |geosets| + (if count < i then 0 else count - i)
    decreases count - i
  {
    if i >= count then Ok(At(geosets, p))
    else
      var g :- HeaderAt(s, p);
      HeadersFrom(s, g.pos, i + 1, count, geosets + [g.value])
  }

  /** The pushed geosets come after the ones already there, one header every
      64 bytes. */
  lemma {:induction false} HeadersLayout(s: seq<byte>, p: int, i: int, count: int, geosets: seq<Geoset>)
    ensures var r := HeadersFrom(s, p, i, count, geosets);
      r.Ok? ==>
        && r.value.value[..|geosets|] == geosets
        && r.value.pos == p + 64 * (if count < i then 0 else count - i)
    decreases count - i
  {
    if i < count {
      var g := HeaderAt(s, p);
      if g.Ok? {
        var more := geosets + [g.value.value];
        HeadersLayout(s, p + 64, i + 1, count, more);
        var r := HeadersFrom(s, p + 64, i + 1, count, more);
        if r.Ok? {
          assert r.value.value[..|geosets|] == r.value.value[..|more|][..|geosets|];
        }
      }
    }
  }

  method ReadHeaders(reader: Reader, count: int, geosets: seq<Geoset>) returns (r: Result<seq<Geoset>>)
    modifies reader
    ensures Lift(Outcome(r, reader.pos)) == HeadersFrom(reader.buffer, old(reader.pos), 0, count, geosets)
  {
    ghost var goal := HeadersFrom(reader.buffer, reader.pos, 0, count, geosets);
    var all := geosets;
    var i := 0;
    while i < count
      invariant HeadersFrom(reader.buffer, reader.pos, i, count, all) == goal
      decreases count - i
    {
      var g := ReadHeader(reader);
      if g.Err? {
        return Err(g.error);
      }
      all := all + [g.value];
      i := i + 1;
    }
    return Ok(all);
  }

  // ---------------------------------------------------------------------------
  // Second pass: the vertices

  /** The state of the vertex loop: the geoset's four arrays and `boneLookup`. */
  datatype Pass = Pass(vertices: seq<int>, normals: seq<int>, tVertices: seq<seq<int>>, vertexGroup: seq<int>,
                       lookup: seq<seq<int>>)

  /** `array.set(values, offset)` on a typed array: a RangeError when the values
      do not fit. */
  function SetInto(xs: seq<int>, offset: nat, values: seq<int>): (r: Result<seq<int>>)
    ensures r.Ok? <==> offset + |values| <= |xs|
    ensures r.Ok? ==> |r.value| == |xs|
  {
    if offset + |values| > |xs| then Err(RangeError) else Ok(Overwrite(xs, offset, values))
  }

  /** The values written one by one from `offset` on. */
  function Overwrite(xs: seq<int>, offset: nat, values: seq<int>): (r: seq<int>)
    requires offset + |values| <= |xs|
    ensures |r| == |xs|
    decreases |values|
  {
    if |values| == 0 then xs else Overwrite(xs[offset := values[0]], offset + 1, values[1..])
  }

  /** `set` writes exactly the slots from `offset` on and keeps the others. */
  lemma {:induction false} OverwriteAt(xs: seq<int>, offset: nat, values: seq<int>)
    requires offset + |values| <= |xs|
    ensures forall i :: 0 <= i < |xs| ==>
      Overwrite(xs, offset, values)[i] == if offset <= i < offset + |values| then values[i - offset] else xs[i]
    decreases |values|
  {
    if |values| > 0 {
      OverwriteAt(xs[offset := values[0]], offset + 1, values[1..]);
    }
  }

  lemma SetIntoAt(xs: seq<int>, offset: nat, values: seq<int>)
    requires offset + |values| <= |xs|
    ensures forall i :: 0 <= i < |xs| ==>
      SetInto(xs, offset, values).value[i] == if offset <= i < offset + |values| then values[i - offset] else xs[i]
  {
    OverwriteAt(xs, offset, values);
  }

  /** `VertexGroup[j] = index` on a Uint8Array: the value is kept mod 256, and a
      write past the end is dropped. */
  function StoreUint8(xs: seq<int>, j: nat, v: int): (r: seq<int>)
    ensures |r| == |xs|
  {
    if j < |xs| then xs[j := ToUint8(v)] else xs
  }

  /** The four bone indices of a vertex record. */
  function BonesAt(s: seq<byte>, q: int): (r: seq<int>)
    requires InBounds(s, q, 4)
  {
    [s[q], s[q + 1], s[q + 2], s[q + 3]]
  }

  /** The first 20 bytes of vertex `j`: its position, read and set into the
      vertices, the bone weights (skipped) and the four bone indices. */
  function VertexHeadAt(s: seq<byte>, p: int, j: nat, vertices: seq<int>): (r: Result<At<(seq<int>, seq<int>)>>)
    ensures r.Ok? ==> r.value.pos == p + 20 && |r.value.value.0| == |vertices| && InBounds(s, p, 20)
  {
    ReadNumbersLayout(s, p, Float, 3);
    ReadNumbersLayout(s, p + 16, UInt8, 4);
    var v :- Nums(s, p, Float, 3);
    var written :- SetInto(vertices, 3 * j, v.value);
    var weights :- Num(s, v.pos, UInt32);
    var bones :- Nums(s, weights.pos, UInt8, 4);
    Ok(At((written, bones.value), bones.pos))
  }

  /** The last 28 bytes of vertex `j`: its normal, read and set; `TVertices[0]`,
      looked up before its coordinates are read (a geoset without one throws a
      TypeError), the coordinates set into it; 8 unused bytes. */
  function VertexTailAt(s: seq<byte>, p: int, j: nat, normals: seq<int>, tVertices: seq<seq<int>>)
    : (r: Result<At<(seq<int>, seq<seq<int>>)>>)
    ensures r.Ok? ==> r.value.pos == p + 28 && InBounds(s, p, 20)
  {
    ReadNumbersLayout(s, p, Float, 3);
    ReadNumbersLayout(s, p + 12, Float, 2);
    var n :- Nums(s, p, Float, 3);
    var written :- SetInto(normals, 3 * j, n.value);
    if |tVertices| == 0 then Err(TypeError)
    else
      var uv :- Nums(s, n.pos, Float, 2);
      var uvWritten :- SetInto(tVertices[0], 2 * j, uv.value);
      Ok(At((written, tVertices[0 := uvWritten]), uv.pos + 8))
  }

  /** `boneLookup.indexOf(tuple)`, the tuple being pushed when it is new: the
      lookup after it and the tuple's group. */
  function LookupStep(lookup: seq<seq<int>>, tuple: seq<int>): (seq<seq<int>>, int) {
    var index := IndexOf(lookup, tuple);
    if index == -1 then (lookup + [tuple], |lookup|) else (lookup, index)
  }

  /** Vertex `j`: its 48-byte record, then its group stored into the vertex
      groups. */
  function VertexAt(s: seq<byte>, p: int, j: nat, st: Pass): (r: Result<At<Pass>>)
    ensures r.Ok? ==> r.value.pos == p + 48 && |r.value.value.vertices| == |st.vertices| && InBounds(s, p, 40)
  {
    var head :- VertexHeadAt(s, p, j, st.vertices);
    var tail :- VertexTailAt(s, head.pos, j, st.normals, st.tVertices);
    var step := LookupStep(st.lookup, head.value.1);
    Ok(At(Pass(head.value.0, tail.value.0, tail.value.1, StoreUint8(st.vertexGroup, j, step.1), step.0), tail.pos))
  }

  /** The vertex loop: `j < Vertices.length / 3` in real division, so a length
      that is not a multiple of 3 runs one more turn. */
  function VerticesFrom(s: seq<byte>, p: int, j: nat, st: Pass): (r: Result<At<Pass>>)
    decreases |st.vertices| - 3 * j, 1
  {
    if 3 * j >= |st.vertices| then Ok(At(st, p)) else VertexThenRest(s, p, j, st)
  }

  /** One turn of the vertex loop, then the turns after it. */
  function VertexThenRest(s: seq<byte>, p: int, j: nat, st: Pass): (r: Result<At<Pass>>)
    requires 3 * j < |st.vertices|
    decreases |st.vertices| - 3 * j, 0
  {
    var v :- VertexStep(s, p, j, st);
    VerticesFrom(s, v.pos, j + 1, v.value)
  }

  /** Vertex j's slots exist in every array it is set into. */
  predicate Room(j: nat, st: Pass) {
    3 * j + 3 <= |st.vertices| && 3 * j + 3 <= |st.normals| && |st.tVertices| > 0 && 2 * j + 2 <= |st.tVertices[0]|
  }

  /** What reading vertex j comes to: the next state when its 40 bytes are in
      the buffer and its slots exist; a TypeError when the record's first 32
      bytes are there and both position and normal fit but there is no
      texture-coordinate set; a RangeError otherwise. */
  function VertexStep(s: seq<byte>, p: int, j: nat, st: Pass): (r: Result<At<Pass>>)
  {
    if InBounds(s, p, 40) && Room(j, st) then Ok(At(NextPass(s, p, j, st), p + 48))
    else if InBounds(s, p, 32) && 3 * j + 3 <= |st.vertices| && 3 * j + 3 <= |st.normals| && |st.tVertices| == 0 then Err(TypeError)
    else Err(RangeError)
  }

  // ---------------------------------------------------------------------------
  // What the vertex loop computes for a freshly allocated geoset

  /** The 32-bit word at `offset` in vertex record `k` (0 outside the buffer). */
  function RecordWord(s: seq<byte>, p: int, k: int, offset: int): int {
    var q := p + 48 * k + offset;
    if InBounds(s, q, 4) then U32At(s, q) else 0
  }

  /** Coordinate c of the k-th triple of `xs`. */
  function Coord3(xs: seq<int>, k: int, c: int): int
    requires 0 <= 3 * k + c < |xs|
  {
    xs[3 * k + c]
  }

  /** Coordinate c of the k-th pair of `xs`. */
  function Coord2(xs: seq<int>, k: int, c: int): int
    requires 0 <= 2 * k + c < |xs|
  {
    xs[2 * k + c]
  }

  /** The first j triples of `xs` are the three words at `offset` of the
      first j vertex records. */
  ghost predicate Triples(xs: seq<int>, j: nat, s: seq<byte>, p: int, offset: int) {
    && 3 * j <= |xs|
    && forall k, c :: 0 <= k < j && 0 <= c < 3 ==> Coord3(xs, k, c) == RecordWord(s, p, k, offset + 4 * c)
  }

  /** The first j pairs of `xs` are the two words at `offset` of the first j
      vertex records. */
  ghost predicate Pairs(xs: seq<int>, j: nat, s: seq<byte>, p: int, offset: int) {
    && 2 * j <= |xs|
    && forall k, c :: 0 <= k < j && 0 <= c < 2 ==> Coord2(xs, k, c) == RecordWord(s, p, k, offset + 4 * c)
  }

  /** The bone tuples of the first `n` vertex records. */
  function Tuples(s: seq<byte>, p: int, n: nat): (r: seq<seq<int>>)
    requires n == 0 || InBounds(s, p, 48 * n - 8)
    ensures |r| == n
  {
    seq(n, k requires 0 <= k < n => BonesAt(s, p + 48 * k + 16))
  }

  /** The positions, normals and texture coordinates of the first j vertices
      are those of their records. */
  ghost predicate Items(s: seq<byte>, p: int, j: nat, st: Pass) {
    && |st.tVertices| > 0
    && Triples(st.vertices, j, s, p, 0)
    && Triples(st.normals, j, s, p, 20)
    && Pairs(st.tVertices[0], j, s, p, 32)
  }

  /** The array lengths the header pass allocates for n vertices. */
  ghost predicate Shaped(n: nat, st: Pass) {
    && |st.vertices| == 3 * n && |st.normals| == 3 * n && |st.tVertices| == 1 && |st.tVertices[0]| == 2 * n
    && |st.vertexGroup| == n
  }

  /** The lookup is BoneLookup over `tuples`, and the group of each of those
      vertices is the index BoneLookup gives it, kept mod 256. */
  ghost predicate Grouped(lookup: seq<seq<int>>, groups: seq<int>, tuples: seq<seq<int>>) {
    && |tuples| <= |groups|
    && lookup == BoneLookup(tuples).0
    && forall k :: 0 <= k < |tuples| ==> groups[k] == ToUint8(BoneLookup(tuples).1[k])
  }

  /** The words of a record at `q`. */
  function Words(s: seq<byte>, q: int, n: nat): (r: seq<int>)
    requires InBounds(s, q, 4 * n)
    ensures |r| == n
  {
    seq(n, c requires 0 <= c < n => U32At(s, q + 4 * c))
  }

  /** The state after one more vertex read at `q`, when it fits. */
  function NextPass(s: seq<byte>, q: int, j: nat, st: Pass): Pass
    requires InBounds(s, q, 40) && Room(j, st)
  {
    var step := LookupStep(st.lookup, BonesAt(s, q + 16));
    Pass(Overwrite(st.vertices, 3 * j, Words(s, q, 3)), Overwrite(st.normals, 3 * j, Words(s, q + 20, 3)),
         st.tVertices[0 := Overwrite(st.tVertices[0], 2 * j, Words(s, q + 32, 2))],
         StoreUint8(st.vertexGroup, j, step.1), step.0)
  }

  /** The head of a record inside the buffer. */
  lemma VertexHeadRead(s: seq<byte>, q: int, j: nat, vertices: seq<int>)
    requires InBounds(s, q, 20) && 3 * j + 3 <= |vertices|
    ensures VertexHeadAt(s, q, j, vertices)
         == Ok(At((SetInto(vertices, 3 * j, Words(s, q, 3)).value, BonesAt(s, q + 16)), q + 20))
  {
    ReadNumbersLayout(s, q, Float, 3);
    ReadNumbersLayout(s, q + 16, UInt8, 4);
    assert Nums(s, q, Float, 3).value.value == Words(s, q, 3);
    assert Nums(s, q + 16, UInt8, 4).value.value == BonesAt(s, q + 16);
  }

  /** The tail of a record inside the buffer, for a geoset with room for it. */
  lemma VertexTailRead(s: seq<byte>, q: int, j: nat, normals: seq<int>, tVertices: seq<seq<int>>)
    requires InBounds(s, q, 20) && 3 * j + 3 <= |normals| && |tVertices| > 0 && 2 * j + 2 <= |tVertices[0]|
    ensures VertexTailAt(s, q, j, normals, tVertices)
         == Ok(At((SetInto(normals, 3 * j, Words(s, q, 3)).value,
                   tVertices[0 := SetInto(tVertices[0], 2 * j, Words(s, q + 12, 2)).value]), q + 28))
  {
    ReadNumbersLayout(s, q, Float, 3);
    ReadNumbersLayout(s, q + 12, Float, 2);
    assert Nums(s, q, Float, 3).value.value == Words(s, q, 3);
    assert Nums(s, q + 12, Float, 2).value.value == Words(s, q + 12, 2);
  }

  /** The head of a record that is cut short or has no room: a RangeError. */
  lemma VertexHeadFails(s: seq<byte>, q: int, j: nat, vertices: seq<int>)
    requires !(InBounds(s, q, 20) && 3 * j + 3 <= |vertices|)
    ensures VertexHeadAt(s, q, j, vertices) == Err(RangeError)
  {
    ReadNumbersLayout(s, q, Float, 3);
    ReadNumbersLayout(s, q + 16, UInt8, 4);
  }

  /** The tail of a record that does not get through: a TypeError when the
      normal is read and set but there is no texture-coordinate set, a
      RangeError otherwise. */
  lemma VertexTailFails(s: seq<byte>, q: int, j: nat, normals: seq<int>, tVertices: seq<seq<int>>)
    requires !(InBounds(s, q, 20) && 3 * j + 3 <= |normals| && |tVertices| > 0 && 2 * j + 2 <= |tVertices[0]|)
    ensures VertexTailAt(s, q, j, normals, tVertices)
         == if InBounds(s, q, 12) && 3 * j + 3 <= |normals| && |tVertices| == 0 then Err(TypeError) else Err(RangeError)
  {
    ReadNumbersLayout(s, q, Float, 3);
    ReadNumbersLayout(s, q + 12, Float, 2);
  }

  /** A record inside the buffer, for a geoset with room for it. */
  lemma VertexRead(s: seq<byte>, q: int, j: nat, st: Pass)
    requires InBounds(s, q, 40) && Room(j, st)
    ensures VertexAt(s, q, j, st) == Ok(At(NextPass(s, q, j, st), q + 48))
  {
    VertexHeadRead(s, q, j, st.vertices);
    VertexTailRead(s, q + 20, j, st.normals, st.tVertices);
  }

  /** The vertex read as the code does it comes to VertexStep, on every input. */
  lemma VertexAtIsStep(s: seq<byte>, p: int, j: nat, st: Pass)
    ensures VertexAt(s, p, j, st) == VertexStep(s, p, j, st)
  {
    if InBounds(s, p, 40) && Room(j, st) {
      VertexRead(s, p, j, st);
    } else if !(InBounds(s, p, 20) && 3 * j + 3 <= |st.vertices|) {
      VertexHeadFails(s, p, j, st.vertices);
    } else {
      VertexHeadRead(s, p, j, st.vertices);
      VertexTailFails(s, p + 20, j, st.normals, st.tVertices);
    }
  }

  /** Writing triple j keeps the triples before it and makes triple j the record's. */
  lemma WriteTriple(xs: seq<int>, j: nat, s: seq<byte>, p: int, offset: int, q: int)
    requires q == p + 48 * j + offset
    requires 3 * j + 3 <= |xs| && InBounds(s, q, 12)
    requires Triples(xs, j, s, p, offset)
    ensures Triples(Overwrite(xs, 3 * j, Words(s, q, 3)), j + 1, s, p, offset)
  {
    var w := Words(s, q, 3);
    var ys := Overwrite(xs, 3 * j, w);
    OverwriteAt(xs, 3 * j, w);
    forall k, c | 0 <= k < j + 1 && 0 <= c < 3
      ensures Coord3(ys, k, c) == RecordWord(s, p, k, offset + 4 * c)
    {
      assert ys[3 * k + c] == if k == j then w[c] else xs[3 * k + c];
      if k == j {
        assert InBounds(s, q + 4 * c, 4);
        assert w[c] == U32At(s, p + 48 * k + (offset + 4 * c));
      } else {
        assert Coord3(xs, k, c) == RecordWord(s, p, k, offset + 4 * c);
      }
    }
  }

  /** Writing pair j keeps the pairs before it and makes pair j the record's. */
  lemma WritePair(xs: seq<int>, j: nat, s: seq<byte>, p: int, offset: int, q: int)
    requires q == p + 48 * j + offset
    requires 2 * j + 2 <= |xs| && InBounds(s, q, 8)
    requires Pairs(xs, j, s, p, offset)
    ensures Pairs(Overwrite(xs, 2 * j, Words(s, q, 2)), j + 1, s, p, offset)
  {
    var w := Words(s, q, 2);
    var ys := Overwrite(xs, 2 * j, w);
    OverwriteAt(xs, 2 * j, w);
    forall k, c | 0 <= k < j + 1 && 0 <= c < 2
      ensures Coord2(ys, k, c) == RecordWord(s, p, k, offset + 4 * c)
    {
      assert ys[2 * k + c] == if k == j then w[c] else xs[2 * k + c];
      if k == j {
        assert InBounds(s, q + 4 * c, 4);
        assert w[c] == U32At(s, p + 48 * k + (offset + 4 * c));
      } else {
        assert Coord2(xs, k, c) == RecordWord(s, p, k, offset + 4 * c);
      }
    }
  }

  /** The lookup step of vertex j is the step of BoneLookup, and the group it
      stores is the one BoneLookup gives vertex j. */
  lemma GroupStep(tuples: seq<seq<int>>, j: nat, lookup: seq<seq<int>>, groups: seq<int>)
    requires j < |tuples| && j < |groups|
    requires Grouped(lookup, groups, tuples[..j])
    ensures var step := LookupStep(lookup, tuples[j]);
      Grouped(step.0, StoreUint8(groups, j, step.1), tuples[..j + 1])
  {
    BoneLookupNext(tuples, j);
    var before := BoneLookup(tuples[..j]);
    var step := LookupStep(lookup, tuples[j]);
    GroupsExtend(before.1, step.1, groups, j);
  }

  /** Storing group `g` of vertex j keeps the groups of the vertices before it. */
  lemma GroupsExtend(indices: seq<int>, g: int, groups: seq<int>, j: nat)
    requires |indices| == j < |groups|
    requires forall k :: 0 <= k < j ==> groups[k] == ToUint8(indices[k])
    ensures forall k :: 0 <= k < j + 1 ==> StoreUint8(groups, j, g)[k] == ToUint8((indices + [g])[k])
  {
  }

  /** The positions, normals and texture coordinates of one more vertex. */
  lemma ItemsNext(s: seq<byte>, p: int, j: nat, st: Pass)
    requires InBounds(s, p + 48 * j, 40) && Room(j, st)
    requires Items(s, p, j, st)
    ensures Items(s, p, j + 1, NextPass(s, p + 48 * j, j, st))
  {
    var q := p + 48 * j;
    WriteTriple(st.vertices, j, s, p, 0, q);
    WriteTriple(st.normals, j, s, p, 20, q + 20);
    WritePair(st.tVertices[0], j, s, p, 32, q + 32);
  }

  /** The lookup and the groups of one more vertex. */
  lemma GroupedNext(s: seq<byte>, p: int, j: nat, lookup: seq<seq<int>>, groups: seq<int>)
    requires InBounds(s, p, 48 * (j + 1) - 8) && j < |groups|
    requires Grouped(lookup, groups, Tuples(s, p, j))
    ensures var step := LookupStep(lookup, BonesAt(s, p + 48 * j + 16));
      Grouped(step.0, StoreUint8(groups, j, step.1), Tuples(s, p, j + 1))
  {
    var tuples := Tuples(s, p, j + 1);
    assert tuples[..j] == Tuples(s, p, j);
    assert tuples[j] == BonesAt(s, p + 48 * j + 16);
    GroupStep(tuples, j, lookup, groups);
    assert tuples[..j + 1] == tuples;
  }

  /** The rest of the vertex loop over arrays allocated for n vertices reads
      exactly when the remaining records are in the buffer (the last one's 8
      unused bytes are skipped, not read). */
  lemma {:induction false} VerticesReadWhen(s: seq<byte>, p: int, n: nat, j: nat, st: Pass)
    requires Shaped(n, st) && j <= n
    ensures VerticesFrom(s, p + 48 * j, j, st).Ok? <==> j == n || InBounds(s, p + 48 * j, 48 * (n - j) - 8)
    decreases n - j
  {
    var q := p + 48 * j;
    if j < n && InBounds(s, q, 40) {
      assert q + 48 == p + 48 * (j + 1);
      VerticesReadWhen(s, p, n, j + 1, NextPass(s, q, j, st));
    }
  }

  /** The vertex loop never moves the cursor back. */
  lemma {:induction false} VerticesAdvance(s: seq<byte>, p: int, j: nat, st: Pass)
    ensures var r := VerticesFrom(s, p, j, st); r.Ok? ==> r.value.pos >= p
    decreases |st.vertices| - 3 * j
  {
    if 3 * j < |st.vertices| {
      var v := VertexStep(s, p, j, st);
      if v.Ok? {
        VerticesAdvance(s, v.value.pos, j + 1, v.value.value);
      }
    }
  }

  /** The states the vertex loop goes through from vertex j of n on, when the
      remaining records are in the buffer. */
  ghost function Passes(s: seq<byte>, p: int, j: nat, n: nat, st: Pass): (r: Pass)
    requires Shaped(n, st) && j <= n && (j == n || InBounds(s, p + 48 * j, 48 * (n - j) - 8))
    ensures Shaped(n, r)
    decreases n - j
  {
    if j == n then st else Passes(s, p, j + 1, n, NextPass(s, p + 48 * j, j, st))
  }

  /** When the records are in the buffer, the loop ends after them in the state
      Passes describes. */
  lemma {:induction false} VerticesAsPasses(s: seq<byte>, p: int, n: nat, j: nat, st: Pass)
    requires Shaped(n, st) && j <= n && (j == n || InBounds(s, p + 48 * j, 48 * (n - j) - 8))
    ensures VerticesFrom(s, p + 48 * j, j, st) == Ok(At(Passes(s, p, j, n, st), p + 48 * n))
    decreases n - j
  {
    if j < n {
      var q := p + 48 * j;
      assert q + 48 == p + 48 * (j + 1);
      assert InBounds(s, q, 40) && Room(j, st);
      VerticesFromNext(s, q, j, st);
      VerticesAsPasses(s, p, n, j + 1, NextPass(s, q, j, st));
    }
  }

  /** A vertex whose record is in the buffer and whose slots exist moves the
      loop on by one record. */
  lemma VerticesFromNext(s: seq<byte>, q: int, j: nat, st: Pass)
    requires InBounds(s, q, 40) && Room(j, st)
    ensures VerticesFrom(s, q, j, st) == VerticesFrom(s, q + 48, j + 1, NextPass(s, q, j, st))
  {
  }

  /** Every vertex the loop reads over a fresh geoset gets its record's
      position, normal and texture coordinates. */
  lemma {:induction false} ItemsKeep(s: seq<byte>, p: int, n: nat, j: nat, st: Pass)
    requires Shaped(n, st) && j <= n && (n == 0 || InBounds(s, p, 48 * n - 8))
    requires Items(s, p, j, st)
    ensures Items(s, p, n, Passes(s, p, j, n, st))
    decreases n - j
  {
    if j < n {
      ItemsNext(s, p, j, st);
      ItemsKeep(s, p, n, j + 1, NextPass(s, p + 48 * j, j, st));
    }
  }

  /** The loop over a fresh geoset builds the lookup and the groups BoneLookup
      describes. */
  lemma {:induction false} GroupsKeep(s: seq<byte>, p: int, n: nat, j: nat, st: Pass)
    requires Shaped(n, st) && j <= n && (n == 0 || InBounds(s, p, 48 * n - 8))
    requires Grouped(st.lookup, st.vertexGroup, Tuples(s, p, j))
    ensures var r := Passes(s, p, j, n, st); Grouped(r.lookup, r.vertexGroup, Tuples(s, p, n))
    decreases n - j
  {
    if j < n {
      GroupedNext(s, p, j, st.lookup, st.vertexGroup);
      GroupsKeep(s, p, n, j + 1, NextPass(s, p + 48 * j, j, st));
    }
  }

  /** The vertex loop over a geoset the header pass allocated for n vertices:
      it reads exactly when the n records are in the buffer (all but the last
      8 bytes), and then every position, normal and texture coordinate is the
      one in its record, the lookup is BoneLookup over the bone tuples and each
      vertex's group is the index BoneLookup gives it, kept mod 256. */
  lemma FreshPass(s: seq<byte>, p: int, n: nat)
    ensures var r := VerticesFrom(s, p, 0, Pass(Zeros(3 * n), Zeros(3 * n), [Zeros(2 * n)], Zeros(n), []));
      && (r.Ok? <==> n == 0 || InBounds(s, p, 48 * n - 8))
      && (r.Ok? ==> var st := r.value.value;
            && r.value.pos == p + 48 * n
            && |st.vertices| == 3 * n && |st.normals| == 3 * n && |st.tVertices| == 1 && |st.tVertices[0]| == 2 * n
            && |st.vertexGroup| == n
            && (forall k, c :: 0 <= k < n && 0 <= c < 3 ==> Coord3(st.vertices, k, c) == RecordWord(s, p, k, 4 * c))
            && (forall k, c :: 0 <= k < n && 0 <= c < 3 ==> Coord3(st.normals, k, c) == RecordWord(s, p, k, 20 + 4 * c))
            && (forall k, c :: 0 <= k < n && 0 <= c < 2 ==> Coord2(st.tVertices[0], k, c) == RecordWord(s, p, k, 32 + 4 * c))
            && st.lookup == BoneLookup(Tuples(s, p, n)).0
            && (forall k :: 0 <= k < n ==> st.vertexGroup[k] == ToUint8(BoneLookup(Tuples(s, p, n)).1[k])))
  {
    var st := Pass(Zeros(3 * n), Zeros(3 * n), [Zeros(2 * n)], Zeros(n), []);
    assert Tuples(s, p, 0) == [];
    VerticesReadWhen(s, p, n, 0, st);
    if n == 0 || InBounds(s, p, 48 * n - 8) {
      VerticesAsPasses(s, p, n, 0, st);
      ItemsKeep(s, p, n, 0, st);
      GroupsKeep(s, p, n, 0, st);
    }
  }

  /** A geoset with vertices but no texture-coordinate set (an old geoset
      without UVAS, revisited by the second loop) never gets through. */
  lemma PassNeedsUvs(s: seq<byte>, p: int, st: Pass)
    requires |st.tVertices| == 0 && |st.vertices| > 0
    ensures VerticesFrom(s, p, 0, st).Err?
  {
  }

  method ReadVertexHead(reader: Reader, j: nat, vertices: seq<int>) returns (r: Result<(seq<int>, seq<int>)>)
    modifies reader
    ensures Lift(Outcome(r, reader.pos)) == VertexHeadAt(reader.buffer, old(reader.pos), j, vertices)
  {
    var v :- reader.Numbers(Float, 3);
    var written :- SetInto(vertices, 3 * j, v);
    var weights :- reader.Number(UInt32);
    var bones :- reader.Numbers(UInt8, 4);
    r := Ok((written, bones));
  }

  method ReadVertexTail(reader: Reader, j: nat, normals: seq<int>, tVertices: seq<seq<int>>)
    returns (r: Result<(seq<int>, seq<seq<int>>)>)
    modifies reader
    ensures Lift(Outcome(r, reader.pos)) == VertexTailAt(reader.buffer, old(reader.pos), j, normals, tVertices)
  {
    var n :- reader.Numbers(Float, 3);
    var written :- SetInto(normals, 3 * j, n);
    if |tVertices| == 0 {
      return Err(TypeError);
    }
    var uv :- reader.Numbers(Float, 2);
    var uvWritten :- SetInto(tVertices[0], 2 * j, uv);
    reader.pos := reader.pos + 8;
    r := Ok((written, tVertices[0 := uvWritten]));
  }

  method ReadVertex(reader: Reader, j: nat, st: Pass) returns (r: Result<Pass>)
    modifies reader
    ensures Lift(Outcome(r, reader.pos)) == VertexAt(reader.buffer, old(reader.pos), j, st)
  {
    var head :- ReadVertexHead(reader, j, st.vertices);
    var tail :- ReadVertexTail(reader, j, st.normals, st.tVertices);
    var lookup := st.lookup;
    var index := IndexOf(lookup, head.1);
    if index == -1 {
      index := |lookup|;
      lookup := lookup + [head.1];
    }
    r := Ok(Pass(head.0, tail.0, tail.1, StoreUint8(st.vertexGroup, j, index), lookup));
  }

  /** One turn of the vertex loop. */
  method NextVertex(reader: Reader, j: nat, st: Pass) returns (r: Result<Pass>)
    requires 3 * j < |st.vertices|
    modifies reader
    ensures r.Ok? ==> |r.value.vertices| == |st.vertices|
    ensures VerticesFrom(reader.buffer, old(reader.pos), j, st)
         == if r.Ok? then VerticesFrom(reader.buffer, reader.pos, j + 1, r.value) else Err(r.error)
  {
    r := ReadVertex(reader, j, st);
    VertexAtIsStep(reader.buffer, old(reader.pos), j, st);
  }

  method ReadVertices(reader: Reader, st: Pass) returns (r: Result<Pass>)
    modifies reader
    ensures Lift(Outcome(r, reader.pos)) == VerticesFrom(reader.buffer, old(reader.pos), 0, st)
  {
    ghost var goal := VerticesFrom(reader.buffer, reader.pos, 0, st);
    var cur := st;
    var j: nat := 0;
    while 3 * j < |cur.vertices|
      invariant VerticesFrom(reader.buffer, reader.pos, j, cur) == goal
      decreases |cur.vertices| - 3 * j
    {
      var next := NextVertex(reader, j, cur);
      if next.Err? {
        return next;
      }
      cur := next.value;
      j := j + 1;
    }
    return Ok(cur);
  }

  // ---------------------------------------------------------------------------
  // Second pass: the faces

  /** After the vertices: the primitive type and an unknown int32, then the
      uint16 primitive-vertex count, minVertex, maxVertex and padding. */
  function FaceFieldsAt(s: seq<byte>, p: int): (r: Result<At<int>>)
    ensures r.Ok? ==> r.value.pos == p + 16 && 0 <= r.value.value < 0x1_0000
  {
    var primitiveType :- Num(s, p, Int32);
    var unknown :- Num(s, primitiveType.pos, Int32);
    var count :- Num(s, unknown.pos, UInt16);
    var minVertex :- Num(s, count.pos, UInt16);
    var maxVertex :- Num(s, minVertex.pos, UInt16);
    var padding :- Num(s, maxVertex.pos, UInt16);
    Ok(At(count.value, padding.pos))
  }

  /** The fields, the faces, and padding up to a multiple of 8 faces. */
  function FaceBlockAt(s: seq<byte>, p: int): (r: Result<At<seq<int>>>)
  {
    var count :- FaceFieldsAt(s, p);
    var faces :- Nums(s, count.pos, UInt16, count.value);
    Ok(At(faces.value, faces.pos + FacePadding(count.value)))
  }

  /** The fields are 16 bytes, read exactly when they are in the buffer. */
  lemma FaceFieldsLayout(s: seq<byte>, p: int)
    ensures var r := FaceFieldsAt(s, p);
      && (r.Ok? <==> InBounds(s, p, 16))
      && (r.Ok? ==> r.value.value == U16At(s, p + 8))
  {
  }

  /** The block is 16 bytes of fields, n faces and the padding: it reads exactly
      when the fields and the faces are in the buffer, and the cursor ends on a
      16-byte boundary from where the faces start. */
  lemma FaceBlockLayout(s: seq<byte>, p: int)
    ensures var r := FaceBlockAt(s, p);
      && (r.Ok? <==> InBounds(s, p, 16) && (U16At(s, p + 8) == 0 || InBounds(s, p + 16, 2 * U16At(s, p + 8))))
      && (r.Ok? ==> var n := U16At(s, p + 8);
            && |r.value.value| == n
            && r.value.pos == p + 16 + 2 * n + FacePadding(n)
            && (r.value.pos - (p + 16)) % 16 == 0
            && forall k :: 0 <= k < n ==> InBounds(s, p + 16 + 2 * k, 2) && r.value.value[k] == U16At(s, p + 16 + 2 * k))
  {
    FaceFieldsLayout(s, p);
    if InBounds(s, p, 16) {
      var n := U16At(s, p + 8);
      ReadNumbersLayout(s, p + 16, UInt16, n);
      FacePaddingAligns(n);
    }
  }

  method ReadFaceFields(reader: Reader) returns (r: Result<int>)
    modifies reader
    ensures Lift(Outcome(r, reader.pos)) == FaceFieldsAt(reader.buffer, old(reader.pos))
  {
    var primitiveType :- reader.Number(Int32);
    var unknown :- reader.Number(Int32);
    var count :- reader.Number(UInt16);
    var minVertex :- reader.Number(UInt16);
    var maxVertex :- reader.Number(UInt16);
    var padding :- reader.Number(UInt16);
    r := Ok(count);
  }

  method ReadFaceBlock(reader: Reader) returns (r: Result<seq<int>>)
    modifies reader
    ensures Lift(Outcome(r, reader.pos)) == FaceBlockAt(reader.buffer, old(reader.pos))
  {
    var count :- ReadFaceFields(reader);
    r := reader.Numbers(UInt16, count);
    if r.Ok? && count % 8 != 0 {
      reader.pos := reader.pos + 2 * (8 - count % 8);
    }
  }

  // ---------------------------------------------------------------------------
  // Second pass: one geoset, and the chunk

  /** The second pass over one geoset: its vertices, then `Groups` from the bone
      lookup (each tuple without its trailing zeros), then its faces. */
  function GeosetPassAt(s: seq<byte>, p: int, g: Geoset): (r: Result<At<Geoset>>)
    ensures r.Ok? ==> r.value.pos >= p
  {
    VerticesAdvance(s, p, 0, Pass(g.vertices, g.normals, g.tVertices, g.vertexGroup, []));
    var vs :- VerticesFrom(s, p, 0, Pass(g.vertices, g.normals, g.tVertices, g.vertexGroup, []));
    var faces :- FaceBlockAt(s, vs.pos);
    Ok(At(g.(vertices := vs.value.vertices, normals := vs.value.normals, tVertices := vs.value.tVertices,
             vertexGroup := vs.value.vertexGroup, groups := GroupsOf(vs.value.lookup), faces := faces.value),
          faces.pos))
  }

  method ReadGeosetPass(reader: Reader, g: Geoset) returns (r: Result<Geoset>)
    modifies reader
    ensures Lift(Outcome(r, reader.pos)) == GeosetPassAt(reader.buffer, old(reader.pos), g)
  {
    var vs :- ReadVertices(reader, Pass(g.vertices, g.normals, g.tVertices, g.vertexGroup, []));
    var faces :- ReadFaceBlock(reader);
    r := Ok(g.(vertices := vs.vertices, normals := vs.normals, tVertices := vs.tVertices,
               vertexGroup := vs.vertexGroup, groups := GroupsOf(vs.lookup), faces := faces));
  }

  /** The second pass over a geoset whose header allocated it for n vertices:
      it reads exactly when the n vertex records are in the buffer and the face
      block after them reads; then the vertex arrays are those FreshPass
      describes, Groups is built from BoneLookup over the bone tuples, the faces
      are the face block's and the header fields are kept. */
  lemma GeosetPassFresh(s: seq<byte>, p: int, h: Geoset, n: nat)
    ensures var r := GeosetPassAt(s, p, Allocated(h, n));
      && (r.Ok? <==> (n == 0 || InBounds(s, p, 48 * n - 8)) && FaceBlockAt(s, p + 48 * n).Ok?)
      && (r.Ok? ==> var g := r.value.value; var faces := FaceBlockAt(s, p + 48 * n).value;
            var vs := VerticesFrom(s, p, 0, Pass(Zeros(3 * n), Zeros(3 * n), [Zeros(2 * n)], Zeros(n), [])).value.value;
            && r.value.pos == faces.pos
            && g == h.(vertices := vs.vertices, normals := vs.normals, tVertices := vs.tVertices,
                       vertexGroup := vs.vertexGroup, groups := GroupsOf(BoneLookup(Tuples(s, p, n)).0),
                       faces := faces.value))
  {
    var g := Allocated(h, n);
    assert Pass(g.vertices, g.normals, g.tVertices, g.vertexGroup, []) == Pass(Zeros(3 * n), Zeros(3 * n), [Zeros(2 * n)], Zeros(n), []);
    FreshPass(s, p, n);
  }

  /** The second loop: `model.Geosets[i]` for i from 0, which are the geosets
      just pushed only when the model had none before. */
  function PassFrom(s: seq<byte>, p: int, i: nat, count: int, geosets: seq<Geoset>): (r: Result<At<seq<Geoset>>>)
    requires count <= |geosets|
    ensures r.Ok? ==> |r.value.value| == |geosets|
    ensures r.Ok? ==> r.value.pos >= p
    decreases count - i, 1
  {
    if i >= count then Ok(At(geosets, p)) else GeosetThenRest(s, p, i, count, geosets)
  }

  /** One turn of the second loop, then the rest. */
  function GeosetThenRest(s: seq<byte>, p: int, i: nat, count: int, geosets: seq<Geoset>): (r: Result<At<seq<Geoset>>>)
    requires i < count <= |geosets|
    ensures r.Ok? ==> |r.value.value| == |geosets|
    ensures r.Ok? ==> r.value.pos >= p
    decreases count - i, 0
  {
    var g :- GeosetPassAt(s, p, geosets[i]);
    PassFrom(s, g.pos, i + 1, count, geosets[i := g.value])
  }

  /** The second loop stops at index count: the geosets from count on (pushed
      by this chunk when the model already had geosets) keep the containers
      their headers allocated. */
  lemma {:induction false} PassKeeps(s: seq<byte>, p: int, i: nat, count: int, geosets: seq<Geoset>)
    requires count <= |geosets|
    ensures var r := PassFrom(s, p, i, count, geosets);
      r.Ok? ==> forall k :: 0 <= k < |geosets| && count <= k ==> r.value.value[k] == geosets[k]
    decreases count - i
  {
    if i < count {
      var g := GeosetPassAt(s, p, geosets[i]);
      if g.Ok? {
        PassKeeps(s, g.value.pos, i + 1, count, geosets[i := g.value.value]);
      }
    }
  }

  /** `parseGeosetsNew`: an int32 count, the headers, then the second pass. */
  function GeosetsNewAt(s: seq<byte>, p: int, geosets: seq<Geoset>): (r: Result<At<seq<Geoset>>>)
    ensures r.Ok? ==> r.value.pos >= p
  {
    var count :- Num(s, p, Int32);
    HeadersLayout(s, count.pos, 0, count.value, geosets);
    var pushed :- HeadersFrom(s, count.pos, 0, count.value, geosets);
    PassFrom(s, pushed.pos, 0, count.value, pushed.value)
  }

  method ParseGeosetsNew(reader: Reader, geosets: seq<Geoset>) returns (r: Result<seq<Geoset>>)
    modifies reader
    ensures Lift(Outcome(r, reader.pos)) == GeosetsNewAt(reader.buffer, old(reader.pos), geosets)
  {
    var count :- reader.Number(Int32);
    var all :- ReadHeaders(reader, count, geosets);
    ghost var goal := PassFrom(reader.buffer, reader.pos, 0, count, all);
    var i := 0;
    while i < count
      invariant |all| == |geosets| + (if count < 0 then 0 else count)
      invariant PassFrom(reader.buffer, reader.pos, i, count, all) == goal
      decreases count - i
    {
      var g := ReadGeosetPass(reader, all[i]);
      if g.Err? {
        return Err(g.error);
      }
      all := all[i := g.value];
      i := i + 1;
    }
    return Ok(all);
  }
}
