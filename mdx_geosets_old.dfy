/** `parseGeosetsOld` of src/formats/mdx/modelreader.ts: the geoset chunk of
    models before version 1500. Each geoset is a run of keyword-tagged arrays:
    VRTX, NRMS, an optional UVAS, PTYP (every primitive must be a triangle
    list, type 4), PCNT, PVTX (the faces), GNDX (the vertex groups), MTGC (the
    group sizes), MATS (the group members, filled group after group), BIDX and
    BWGT, then the material, selection group, flags, extent and the extents of
    the animations. */
module MdxGeosetsOld {
  import opened Results
  import opened Bytes
  import opened BinaryReader
  import opened MdxModel
  import opened MdxChunks

  const IncorrectGeosets := "Incorrect geosets format"

  const VRTX := "VRTX"
  const NRMS := "NRMS"
  const UVAS := "UVAS"
  const PTYP := "PTYP"
  const PCNT := "PCNT"
  const PVTX := "PVTX"
  const GNDX := "GNDX"
  const MTGC := "MTGC"
  const MATS := "MATS"
  const BIDX := "BIDX"
  const BWGT := "BWGT"

  /** A geoset before any of its chunks is read. */
  const NoGeoset := Geoset([], [], [], [], [], [], 0, 0, 0, 0, None, None, [])

  // ---------------------------------------------------------------------------
  // Keyword-tagged arrays

  /** `expectKeyword(keyword)` and then `xxxArray(int32() * scale)`. */
  function CountedAt(s: seq<byte>, p: int, keyword: string, kind: NumberKind, scale: int): (r: Result<At<seq<int>>>)
    ensures r.Ok? ==> WordAt(s, p) == keyword && InBounds(s, p + 4, 4)
  {
    var q :- Expect(s, p, keyword, IncorrectGeosets);
    var count :- Num(s, q, Int32);
    Nums(s, count.pos, kind, count.value * scale)
  }

  /** A tagged array is the keyword, an int32 count and count * scale values
      right after it, and the read fails exactly when one of these is missing. */
  lemma CountedLayout(s: seq<byte>, p: int, keyword: string, kind: NumberKind, scale: int)
    ensures var r := CountedAt(s, p, keyword, kind, scale);
      && (r.Ok? <==> WordAt(s, p) == keyword && InBounds(s, p + 4, 4)
                     && var n := I32At(s, p + 4) * scale; n <= 0 || InBounds(s, p + 8, n * Width(kind)))
      && (r.Ok? ==> var n := I32At(s, p + 4) * scale;
            && |r.value.value| == (if n < 0 then 0 else n)
            && r.value.pos == p + 8 + (if n < 0 then 0 else n) * Width(kind)
            && forall k :: 0 <= k < n ==>
                 (InBounds(s, p + 8 + k * Width(kind), Width(kind)) && r.value.value[k] == Decode(s, p + 8 + k * Width(kind), kind)))
      && (r.Err? && WordAt(s, p) != keyword ==> r.error == BadData(IncorrectGeosets))
  {
    if WordAt(s, p) == keyword && InBounds(s, p + 4, 4) {
      var n := I32At(s, p + 4) * scale;
      ReadNumbersLayout(s, p + 8, kind, if n < 0 then 0 else n);
    }
  }

  method ReadCounted(reader: Reader, keyword: string, kind: NumberKind, scale: int) returns (r: Result<seq<int>>)
    modifies reader
    ensures Lift(Outcome(r, reader.pos)) == CountedAt(reader.buffer, old(reader.pos), keyword, kind, scale)
  {
    var e := reader.ExpectKeyword(keyword, IncorrectGeosets);
    if e.Err? {
      return Err(e.error);
    }
    var count :- reader.Number(Int32);
    r := reader.Numbers(kind, count * scale);
  }

  // ---------------------------------------------------------------------------
  // UVAS

  /** The texture-coordinate sets: `count` arrays of `width` floats each. */
  function TVerticesFrom(s: seq<byte>, p: int, i: int, count: int, width: int, sets: seq<seq<int>>)
    : (r: Result<At<seq<seq<int>>>>)
    ensures r.Ok? ==> r.value.pos >= p
    decreases count - i
  {
    if i >= count then Ok(At(sets, p))
    else
      var uv :- Nums(s, p, Float, width);
      TVerticesFrom(s, uv.pos, i + 1, count, width, sets + [uv.value])
  }

  /** `hasKeyword("UVAS")`: without it there are no texture coordinates and the
      cursor stays where it was. */
  function UvasAt(s: seq<byte>, p: int, width: int): (r: Result<At<seq<seq<int>>>>)
    ensures WordAt(s, p) != UVAS ==> r == Ok(At([], p))
  {
    if WordAt(s, p) != UVAS then Ok(At([], p))
    else
      var count :- Num(s, p + 4, Int32);
      TVerticesFrom(s, count.pos, 0, count.value, width, [])
  }

  /** One set per count, each as wide as asked, after the sets already there. */
  lemma {:induction false} TVerticesLayout(s: seq<byte>, p: int, i: int, count: int, width: int, sets: seq<seq<int>>)
    ensures var r := TVerticesFrom(s, p, i, count, width, sets);
      r.Ok? ==>
        && |r.value.value| == |sets| + (if count < i then 0 else count - i)
        && r.value.value[..|sets|] == sets
        && forall k :: |sets| <= k < |r.value.value| ==> |r.value.value[k]| == (if width < 0 then 0 else width)
    decreases count - i
  {
    if i < count {
      var uv := Nums(s, p, Float, width);
      if uv.Ok? {
        var more := sets + [uv.value.value];
        TVerticesLayout(s, uv.value.pos, i + 1, count, width, more);
        var r := TVerticesFrom(s, uv.value.pos, i + 1, count, width, more);
        if r.Ok? {
          assert r.value.value[..|sets|] == r.value.value[..|more|][..|sets|];
        }
      }
    }
  }

  method ReadUvas(reader: Reader, width: int) returns (r: Result<seq<seq<int>>>)
    modifies reader
    ensures Lift(Outcome(r, reader.pos)) == UvasAt(reader.buffer, old(reader.pos), width)
  {
    var present := reader.HasKeyword(UVAS);
    if !present {
      return Ok([]);
    }
    var count :- reader.Number(Int32);
    ghost var goal := TVerticesFrom(reader.buffer, reader.pos, 0, count, width, []);
    var sets := [];
    var i := 0;
    while i < count
      invariant TVerticesFrom(reader.buffer, reader.pos, i, count, width, sets) == goal
      decreases count - i
    {
      ghost var p := reader.pos;
      var uv := reader.Numbers(Float, width);
      assert Lift(Outcome(uv, reader.pos)) == Nums(reader.buffer, p, Float, width);
      if uv.Err? {
        return Err(uv.error);
      }
      sets := sets + [uv.value];
      i := i + 1;
    }
    return Ok(sets);
  }

  // ---------------------------------------------------------------------------
  // PTYP

  /** The primitive-type loop: each byte must be 4 (triangles). */
  function PrimitivesFrom(s: seq<byte>, p: int, i: int, count: int): (r: Result<int>)
    ensures r.Ok? ==> r.value >= p
    decreases count - i
  {
    if i >= count then Ok(p)
    else
      var b :- Num(s, p, UInt8);
      if b.value != 4 then Err(BadData(IncorrectGeosets)) else PrimitivesFrom(s, b.pos, i + 1, count)
  }

  /** The loop passes exactly when the count - i bytes are all in the buffer and
      all equal 4, and then stands right after them. */
  lemma {:induction false} PrimitivesCheck(s: seq<byte>, p: int, i: int, count: int)
    ensures var r := PrimitivesFrom(s, p, i, count);
      && (r.Ok? <==> i >= count || (InBounds(s, p, count - i) && forall k :: p <= k < p + count - i ==> s[k] == 4))
      && (r.Ok? ==> r.value == p + (if count < i then 0 else count - i))
    decreases count - i
  {
    if i < count {
      if InBounds(s, p, 1) && s[p] == 4 {
        PrimitivesCheck(s, p + 1, i + 1, count);
      }
    }
  }

  /** `expectKeyword('PTYP')`, the count and the check of every primitive. */
  function PrimitivesAt(s: seq<byte>, p: int): Result<int> {
    var q :- Expect(s, p, PTYP, IncorrectGeosets);
    var count :- Num(s, q, Int32);
    PrimitivesFrom(s, count.pos, 0, count.value)
  }

  method CheckPrimitives(reader: Reader) returns (r: Result<int>)
    modifies reader
    ensures r.Ok? ==> r.value == reader.pos
    ensures r == PrimitivesAt(reader.buffer, old(reader.pos))
  {
    var e := reader.ExpectKeyword(PTYP, IncorrectGeosets);
    if e.Err? {
      return Err(e.error);
    }
    var count :- reader.Number(Int32);
    ghost var goal := PrimitivesFrom(reader.buffer, reader.pos, 0, count);
    var i := 0;
    while i < count
      invariant PrimitivesFrom(reader.buffer, reader.pos, i, count) == goal
      decreases count - i
    {
      var b := reader.Number(UInt8);
      if b.Err? {
        return Err(b.error);
      }
      if b.value != 4 {
        return Err(BadData(IncorrectGeosets));
      }
      i := i + 1;
    }
    return Ok(reader.pos);
  }

  // ---------------------------------------------------------------------------
  // MTGC

  /** `Groups[i] = new Array(int32())` for each group: a negative length throws. */
  function SizesFrom(s: seq<byte>, p: int, i: int, count: int, sizes: seq<nat>): (r: Result<At<seq<nat>>>)
    ensures r.Ok? ==> r.value.pos >= p
    decreases count - i
  {
    if i >= count then Ok(At(sizes, p))
    else
      var n :- Num(s, p, Int32);
      if n.value < 0 then Err(RangeError) else SizesFrom(s, n.pos, i + 1, count, sizes + [n.value])
  }

  /** The sizes are the count - i int32 values from `p` on, after the sizes
      already there, and none of them was negative. */
  lemma {:induction false} SizesLayout(s: seq<byte>, p: int, i: int, count: int, sizes: seq<nat>)
    ensures var r := SizesFrom(s, p, i, count, sizes);
      r.Ok? ==>
        && var n := if count < i then 0 else count - i;
        && |r.value.value| == |sizes| + n
        && r.value.value[..|sizes|] == sizes
        && r.value.pos == p + 4 * n
        && forall k :: 0 <= k < n ==> InBounds(s, p + 4 * k, 4) && r.value.value[|sizes| + k] == I32At(s, p + 4 * k)
    decreases count - i
  {
    if i < count {
      var n := Num(s, p, Int32);
      if n.Ok? && n.value.value >= 0 {
        var more := sizes + [n.value.value];
        SizesLayout(s, p + 4, i + 1, count, more);
        var r := SizesFrom(s, p + 4, i + 1, count, more);
        if r.Ok? {
          SizesStep(s, p, sizes, more, count - i, r.value);
        }
      }
    }
  }

  /** The arithmetic of one more size. */
  lemma SizesStep(s: seq<byte>, p: int, sizes: seq<nat>, more: seq<nat>, n: nat, a: At<seq<nat>>)
    requires n > 0 && InBounds(s, p, 4) && more == sizes + [I32At(s, p)]
    requires && |a.value| == |more| + (n - 1)
             && a.value[..|more|] == more
             && a.pos == p + 4 + 4 * (n - 1)
             && forall k :: 0 <= k < n - 1 ==> InBounds(s, p + 4 + 4 * k, 4) && a.value[|more| + k] == I32At(s, p + 4 + 4 * k)
    ensures && |a.value| == |sizes| + n
            && a.value[..|sizes|] == sizes
            && a.pos == p + 4 * n
            && forall k :: 0 <= k < n ==> InBounds(s, p + 4 * k, 4) && a.value[|sizes| + k] == I32At(s, p + 4 * k)
  {
    assert a.value[..|sizes|] == a.value[..|more|][..|sizes|];
    forall k | 0 <= k < n
      ensures InBounds(s, p + 4 * k, 4) && a.value[|sizes| + k] == I32At(s, p + 4 * k)
    {
      if k == 0 {
        assert a.value[|sizes|] == a.value[..|more|][|sizes|];
      } else {
        assert p + 4 + 4 * (k - 1) == p + 4 * k;
        assert |more| + (k - 1) == |sizes| + k;
      }
    }
  }

  /** `expectKeyword('MTGC')`, the count and the group sizes. */
  function GroupSizesAt(s: seq<byte>, p: int): Result<At<seq<nat>>> {
    var q :- Expect(s, p, MTGC, IncorrectGeosets);
    var count :- Num(s, q, Int32);
    SizesFrom(s, count.pos, 0, count.value, [])
  }

  method ReadGroupSizes(reader: Reader) returns (r: Result<seq<nat>>)
    modifies reader
    ensures Lift(Outcome(r, reader.pos)) == GroupSizesAt(reader.buffer, old(reader.pos))
  {
    var e := reader.ExpectKeyword(MTGC, IncorrectGeosets);
    if e.Err? {
      return Err(e.error);
    }
    var count :- reader.Number(Int32);
    ghost var goal := SizesFrom(reader.buffer, reader.pos, 0, count, []);
    var sizes: seq<nat> := [];
    var i := 0;
    while i < count
      invariant SizesFrom(reader.buffer, reader.pos, i, count, sizes) == goal
      decreases count - i
    {
      var n := reader.Number(Int32);
      if n.Err? {
        return Err(n.error);
      }
      if n.value < 0 {
        return Err(RangeError);
      }
      sizes := sizes + [n.value];
      i := i + 1;
    }
    return Ok(sizes);
  }

  // ---------------------------------------------------------------------------
  // MATS

  /** The MATS loop as the reader sees it: the test for a full group, then the
      int32 read, then the write (which throws past the last group). */
  function MatsFrom(s: seq<byte>, p: int, i: int, total: int, st: Fill): (r: Result<At<Fill>>)
    requires Writable(st)
    ensures r.Ok? ==> r.value.pos >= p
    decreases total - i
  {
    if i >= total then Ok(At(st, p))
    else
      var a :- Advance(st);
      var v :- Num(s, p, Int32);
      var next :- Put(a, v.value);
      MatsFrom(s, v.pos, i + 1, total, next)
  }

  /** `expectKeyword('MATS')`, the count and the fill, from the MTGC groups. */
  function MatsAt(s: seq<byte>, p: int, sizes: seq<nat>): Result<At<Fill>> {
    var q :- Expect(s, p, MATS, IncorrectGeosets);
    var total :- Num(s, q, Int32);
    MatsFrom(s, total.pos, 0, total.value, Fill(EmptyGroups(sizes), 0, 0))
  }

  /** The `n` int32 values from `p` on. */
  function Int32s(s: seq<byte>, p: int, n: nat): (r: seq<int>)
    requires n == 0 || InBounds(s, p, 4 * n)
    ensures |r| == n
    decreases n
  {
    if n == 0 then [] else [I32At(s, p)] + Int32s(s, p + 4, n - 1)
  }

  /** A fill result with the cursor where the values end. */
  function Ending(r: Result<Fill>, pos: int): Result<At<Fill>> {
    if r.Ok? then Ok(At(r.value, pos)) else Err(r.error)
  }

  /** With its values inside the buffer, the MATS loop from turn `i` is the
      fill over the values it reads, and ends past them. */
  lemma {:induction false} MatsFold(s: seq<byte>, q: int, i: int, total: int, st: Fill)
    requires i <= total && (i == total || InBounds(s, q, 4 * (total - i))) && Writable(st)
    ensures MatsFrom(s, q, i, total, st) == Ending(FillFrom(st, Int32s(s, q, total - i)), q + 4 * (total - i))
    decreases total - i
  {
    if i < total {
      var values := Int32s(s, q, total - i);
      assert values[0] == I32At(s, q);
      assert values[1..] == Int32s(s, q + 4, total - i - 1);
      var a := Advance(st);
      if a.Ok? {
        var next := Put(a.value, values[0]);
        if next.Ok? {
          MatsFold(s, q + 4, i + 1, total, next.value);
        }
      }
    }
  }

  /** From the empty MTGC groups, with all its values inside the buffer, the
      MATS loop yields exactly FillAll over the values, the throws included. */
  lemma MatsIsFill(s: seq<byte>, p: int, sizes: seq<nat>, total: nat, values: seq<int>)
    requires total == 0 || InBounds(s, p, 4 * total)
    requires values == Int32s(s, p, total)
    ensures MatsFrom(s, p, 0, total, Fill(EmptyGroups(sizes), 0, 0)) == Ending(FillAll(sizes, values), p + 4 * total)
  {
    var st := Fill(EmptyGroups(sizes), 0, 0);
    MatsFold(s, p, 0, total, st);
    assert Int32s(s, p, total - 0) == values;
    FillFromAll(sizes, values);
    assert FillFrom(st, values) == FillAll(sizes, values);
  }

  method ReadMats(reader: Reader, sizes: seq<nat>) returns (r: Result<Fill>)
    modifies reader
    ensures Lift(Outcome(r, reader.pos)) == MatsAt(reader.buffer, old(reader.pos), sizes)
  {
    var e := reader.ExpectKeyword(MATS, IncorrectGeosets);
    if e.Err? {
      return Err(e.error);
    }
    var total :- reader.Number(Int32);
    var st := Fill(EmptyGroups(sizes), 0, 0);
    ghost var goal := MatsFrom(reader.buffer, reader.pos, 0, total, st);
    var i := 0;
    while i < total
      invariant Writable(st)
      invariant MatsFrom(reader.buffer, reader.pos, i, total, st) == goal
      decreases total - i
    {
      var next := NextMat(reader, i, total, st);
      if next.Err? {
        return next;
      }
      st := next.value;
      i := i + 1;
    }
    return Ok(st);
  }

  /** One turn of the MATS loop. */
  method NextMat(reader: Reader, i: int, total: int, st: Fill) returns (r: Result<Fill>)
    requires i < total && Writable(st)
    modifies reader
    ensures r.Ok? ==> Writable(r.value)
    ensures MatsFrom(reader.buffer, old(reader.pos), i, total, st)
         == if r.Ok? then MatsFrom(reader.buffer, reader.pos, i + 1, total, r.value) else Err(r.error)
  {
    var groupIndex := st.index;
    var groupCounter := st.counter;
    if groupCounter >= |st.groups| {
      return Err(TypeError);
    }
    if groupIndex >= |st.groups[groupCounter]| {
      groupIndex := 0;
      groupCounter := groupCounter + 1;
    }
    var v := reader.Number(Int32);
    if v.Err? {
      return Err(v.error);
    }
    if groupCounter >= |st.groups| {
      return Err(TypeError);
    }
    var g := st.groups[groupCounter];
    var g' := if groupIndex < |g| then g[groupIndex := Some(v.value)] else g + [Some(v.value)];
    r := Ok(Fill(st.groups[groupCounter := g'], groupIndex + 1, groupCounter));
  }

  // ---------------------------------------------------------------------------
  // The rest of a geoset

  /** `extent`: BoundsRadius, then MinimumExtent and MaximumExtent. */
  function ExtentAt(s: seq<byte>, p: int): (r: Result<At<Extent>>)
    ensures r.Ok? ==> r.value.pos == p + 28 && |r.value.value.minimum| == 3 && |r.value.value.maximum| == 3
  {
    var radius :- Num(s, p, Float);
    var minimum :- Nums(s, radius.pos, Float, 3);
    var maximum :- Nums(s, minimum.pos, Float, 3);
    Ok(At(Extent(radius.value, minimum.value, maximum.value), maximum.pos))
  }

  method ReadExtent(reader: Reader) returns (r: Result<Extent>)
    modifies reader
    ensures Lift(Outcome(r, reader.pos)) == ExtentAt(reader.buffer, old(reader.pos))
  {
    var radius :- reader.Number(Float);
    var minimum :- reader.Numbers(Float, 3);
    var maximum :- reader.Numbers(Float, 3);
    r := Ok(Extent(radius, minimum, maximum));
  }

  /** The extents of the geoset's animations. */
  function AnimsFrom(s: seq<byte>, p: int, i: int, count: int, anims: seq<Extent>): (r: Result<At<seq<Extent>>>)
    ensures r.Ok? ==> r.value.pos >= p
    decreases count - i
  {
    if i >= count then Ok(At(anims, p))
    else
      var e :- ExtentAt(s, p);
      AnimsFrom(s, e.pos, i + 1, count, anims + [e.value])
  }

  /** One extent of 28 bytes per animation, after the ones already there. */
  lemma {:induction false} AnimsLayout(s: seq<byte>, p: int, i: int, count: int, anims: seq<Extent>)
    ensures var r := AnimsFrom(s, p, i, count, anims);
      r.Ok? ==>
        && var n := if count < i then 0 else count - i;
        && |r.value.value| == |anims| + n
        && r.value.value[..|anims|] == anims
        && r.value.pos == p + 28 * n
    decreases count - i
  {
    if i < count {
      var e := ExtentAt(s, p);
      if e.Ok? {
        var more := anims + [e.value.value];
        AnimsLayout(s, p + 28, i + 1, count, more);
        var r := AnimsFrom(s, p + 28, i + 1, count, more);
        if r.Ok? {
          assert r.value.value[..|anims|] == r.value.value[..|more|][..|anims|];
        }
      }
    }
  }

  method ReadAnims(reader: Reader, count: int) returns (r: Result<seq<Extent>>)
    modifies reader
    ensures Lift(Outcome(r, reader.pos)) == AnimsFrom(reader.buffer, old(reader.pos), 0, count, [])
  {
    ghost var goal := AnimsFrom(reader.buffer, reader.pos, 0, count, []);
    var anims := [];
    var i := 0;
    while i < count
      invariant AnimsFrom(reader.buffer, reader.pos, i, count, anims) == goal
      decreases count - i
    {
      var e := ReadExtent(reader);
      if e.Err? {
        return Err(e.error);
      }
      anims := anims + [e.value];
      i := i + 1;
    }
    return Ok(anims);
  }

  // ---------------------------------------------------------------------------
  // One geoset

  /** The size (skipped), VRTX, NRMS and the optional UVAS, whose sets hold two
      floats per vertex. */
  function HeadAt(s: seq<byte>, p: int): (r: Result<At<Geoset>>)
    ensures r.Ok? ==> r.value.pos >= p
  {
    var size :- Num(s, p, Int32);
    var vertices :- CountedAt(s, size.pos, VRTX, Float, 3);
    var normals :- CountedAt(s, vertices.pos, NRMS, Float, 3);
    var uvs :- UvasAt(s, normals.pos, |vertices.value| / 3 * 2);
    Ok(At(NoGeoset.(vertices := vertices.value, normals := normals.value, tVertices := uvs.value), uvs.pos))
  }

  /** PTYP, PCNT (read and dropped), PVTX (the faces) and GNDX (the vertex groups). */
  function FacesAt(s: seq<byte>, p: int, g: Geoset): (r: Result<At<Geoset>>)
    ensures r.Ok? ==> r.value.pos >= p
  {
    var q :- PrimitivesAt(s, p);
    var faceGroups :- CountedAt(s, q, PCNT, Int32, 1);
    var faces :- CountedAt(s, faceGroups.pos, PVTX, UInt16, 1);
    var vertexGroup :- CountedAt(s, faces.pos, GNDX, UInt8, 1);
    Ok(At(g.(faces := faces.value, vertexGroup := vertexGroup.value), vertexGroup.pos))
  }

  /** MTGC and MATS (the groups), then BIDX and BWGT (read and dropped). */
  function GroupsAt(s: seq<byte>, p: int, g: Geoset): (r: Result<At<Geoset>>)
    ensures r.Ok? ==> r.value.pos >= p
  {
    var sizes :- GroupSizesAt(s, p);
    var mats :- MatsAt(s, sizes.pos, sizes.value);
    var boneIndices :- CountedAt(s, mats.pos, BIDX, UInt32, 1);
    var boneWeights :- CountedAt(s, boneIndices.pos, BWGT, UInt32, 1);
    Ok(At(g.(groups := mats.value.groups), boneWeights.pos))
  }

  /** MaterialID, SelectionGroup, Flags, the extent and the animation extents. */
  function TailAt(s: seq<byte>, p: int, g: Geoset): (r: Result<At<Geoset>>)
    ensures r.Ok? ==> r.value.pos >= p
  {
    var materialId :- Num(s, p, Int32);
    var selectionGroup :- Num(s, materialId.pos, Int32);
    var flags :- Num(s, selectionGroup.pos, Int32);
    var extent :- ExtentAt(s, flags.pos);
    var count :- Num(s, extent.pos, Int32);
    var anims :- AnimsFrom(s, count.pos, 0, count.value, []);
    Ok(At(g.(materialId := materialId.value, selectionGroup := selectionGroup.value, flags := flags.value,
             boundsRadius := extent.value.boundsRadius, minimumExtent := Some(extent.value.minimum),
             maximumExtent := Some(extent.value.maximum), anims := anims.value), anims.pos))
  }

  /** One geoset of the old layout. */
  function GeosetAt(s: seq<byte>, p: int): (r: Result<At<Geoset>>)
    ensures r.Ok? ==> r.value.pos >= p
  {
    var head :- HeadAt(s, p);
    var faces :- FacesAt(s, head.pos, head.value);
    var groups :- GroupsAt(s, faces.pos, faces.value);
    TailAt(s, groups.pos, groups.value)
  }

  method ReadHead(reader: Reader) returns (r: Result<Geoset>)
    modifies reader
    ensures Lift(Outcome(r, reader.pos)) == HeadAt(reader.buffer, old(reader.pos))
  {
    var size :- reader.Number(Int32);
    var vertices :- ReadCounted(reader, VRTX, Float, 3);
    var normals :- ReadCounted(reader, NRMS, Float, 3);
    var uvs :- ReadUvas(reader, |vertices| / 3 * 2);
    r := Ok(NoGeoset.(vertices := vertices, normals := normals, tVertices := uvs));
  }

  method ReadFaces(reader: Reader, g: Geoset) returns (r: Result<Geoset>)
    modifies reader
    ensures Lift(Outcome(r, reader.pos)) == FacesAt(reader.buffer, old(reader.pos), g)
  {
    var q :- CheckPrimitives(reader);
    var faceGroups :- ReadCounted(reader, PCNT, Int32, 1);
    var faces :- ReadCounted(reader, PVTX, UInt16, 1);
    var vertexGroup :- ReadCounted(reader, GNDX, UInt8, 1);
    r := Ok(g.(faces := faces, vertexGroup := vertexGroup));
  }

  method ReadGroups(reader: Reader, g: Geoset) returns (r: Result<Geoset>)
    modifies reader
    ensures Lift(Outcome(r, reader.pos)) == GroupsAt(reader.buffer, old(reader.pos), g)
  {
    var sizes :- ReadGroupSizes(reader);
    var mats :- ReadMats(reader, sizes);
    var boneIndices :- ReadCounted(reader, BIDX, UInt32, 1);
    var boneWeights :- ReadCounted(reader, BWGT, UInt32, 1);
    r := Ok(g.(groups := mats.groups));
  }

  method ReadTail(reader: Reader, g: Geoset) returns (r: Result<Geoset>)
    modifies reader
    ensures Lift(Outcome(r, reader.pos)) == TailAt(reader.buffer, old(reader.pos), g)
  {
    var materialId :- reader.Number(Int32);
    var selectionGroup :- reader.Number(Int32);
    var flags :- reader.Number(Int32);
    var extent :- ReadExtent(reader);
    var count :- reader.Number(Int32);
    var anims :- ReadAnims(reader, count);
    r := Ok(g.(materialId := materialId, selectionGroup := selectionGroup, flags := flags,
               boundsRadius := extent.boundsRadius, minimumExtent := Some(extent.minimum),
               maximumExtent := Some(extent.maximum), anims := anims));
  }

  method ReadGeoset(reader: Reader) returns (r: Result<Geoset>)
    modifies reader
    ensures Lift(Outcome(r, reader.pos)) == GeosetAt(reader.buffer, old(reader.pos))
  {
    var head :- ReadHead(reader);
    var faces :- ReadFaces(reader, head);
    var groups :- ReadGroups(reader, faces);
    r := ReadTail(reader, groups);
  }

  // ---------------------------------------------------------------------------
  // The chunk

  /** The loop of `parseGeosetsOld`: each geoset is pushed after the ones
      already in the model. */
  function GeosetsFrom(s: seq<byte>, p: int, i: int, count: int, geosets: seq<Geoset>): (r: Result<At<seq<Geoset>>>)
    ensures r.Ok? ==> r.value.pos >= p
    decreases count - i
  {
    if i >= count then Ok(At(geosets, p))
    else
      var g :- GeosetAt(s, p);
      GeosetsFrom(s, g.pos, i + 1, count, geosets + [g.value])
  }

  /** `parseGeosetsOld`: an int32 count and that many geosets. */
  function GeosetsAt(s: seq<byte>, p: int, geosets: seq<Geoset>): (r: Result<At<seq<Geoset>>>)
    ensures r.Ok? ==> r.value.pos >= p
  {
    var count :- Num(s, p, Int32);
    GeosetsFrom(s, count.pos, 0, count.value, geosets)
  }

  /** One geoset per count, pushed after the geosets already there. */
  lemma {:induction false} GeosetsLayout(s: seq<byte>, p: int, i: int, count: int, geosets: seq<Geoset>)
    ensures var r := GeosetsFrom(s, p, i, count, geosets);
      r.Ok? ==>
        && |r.value.value| == |geosets| + (if count < i then 0 else count - i)
        && r.value.value[..|geosets|] == geosets
    decreases count - i
  {
    if i < count {
      var g := GeosetAt(s, p);
      if g.Ok? {
        var more := geosets + [g.value.value];
        GeosetsLayout(s, g.value.pos, i + 1, count, more);
        var r := GeosetsFrom(s, g.value.pos, i + 1, count, more);
        if r.Ok? {
          assert r.value.value[..|geosets|] == r.value.value[..|more|][..|geosets|];
        }
      }
    }
  }

  method ParseGeosets(reader: Reader, geosets: seq<Geoset>) returns (r: Result<seq<Geoset>>)
    modifies reader
    ensures Lift(Outcome(r, reader.pos)) == GeosetsAt(reader.buffer, old(reader.pos), geosets)
  {
    var count :- reader.Number(Int32);
    ghost var goal := GeosetsFrom(reader.buffer, reader.pos, 0, count, geosets);
    var all := geosets;
    var i := 0;
    while i < count
      invariant GeosetsFrom(reader.buffer, reader.pos, i, count, all) == goal
      decreases count - i
    {
      var g := ReadGeoset(reader);
      if g.Err? {
        return Err(g.error);
      }
      all := all + [g.value];
      i := i + 1;
    }
    return Ok(all);
  }
}
