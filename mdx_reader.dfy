/** `ModelReader.read` of src/formats/mdx/modelreader.ts: the MDLX magic, then
    chunks until the cursor reaches the end of the buffer, each a keyword and an
    int32 size followed by what the keyword's parser reads, and at the end the
    pivot point of every node. The parsers of the chunks outside this model
    (MODL, SEQS, MTLS, TXAN, GEOA, BONE, LITE, HELP, ATCH, PREM, CAMS, EVTS,
    PRE2, RIBB, CLID) are a parameter. */
module MdxReader {
  import opened Results
  import opened Bytes
  import opened BinaryReader
  import opened MdxModel
  import opened MdxChunks
  import MdxGeosetsOld
  import MdxGeosetsNew

  const MDLX := "MDLX"
  const NotMdx := "Not a mdx model"
  const UnknownGroup := "Unknown group"

  /** The keys of `Parsers`. */
  const Keywords: seq<string> := ["VERS", "MODL", "SEQS", "GLBS", "MTLS", "TEXS", "TXAN", "GEOS", "GEOA", "BONE",
                                  "LITE", "HELP", "ATCH", "PIVT", "PREM", "CAMS", "EVTS", "PRE2", "HTST", "RIBB",
                                  "CLID"]

  /** The parts of `Model` that the modelled chunks fill. */
  datatype Model = Model(
    version: int,
    globalSequences: seq<int>,
    textures: seq<Texture>,
    geosets: seq<Geoset>,
    hitTestShapes: seq<HitTestShape>,
    pivotPoints: seq<seq<int>>,
    nodes: NodeTable)

  /** The model `read` starts from: version 1300, every list empty. */
  const Initial := Model(1300, [], [], [], [], [], NoNodes)

  /** A parser of a chunk outside this model, over the same buffer: given its
      keyword, the position after its size, its size and the model so far, the
      model after it and where it leaves the cursor. */
  type Parser = (string, int, int, Model) -> Result<At<Model>>

  /** No parser moves the shared cursor back. */
  ghost predicate Advances(other: Parser) {
    forall keyword, q, size, m :: other(keyword, q, size, m).Ok? ==> other(keyword, q, size, m).value.pos >= q
  }

  // ---------------------------------------------------------------------------
  // One chunk

  /** `parseGeosets`: the version 1500 layout, or the older one. */
  function GeosetsOf(s: seq<byte>, q: int, m: Model): (r: Result<At<seq<Geoset>>>)
    ensures r.Ok? ==> r.value.pos >= q
  {
    if m.version == 1500 then MdxGeosetsNew.GeosetsNewAt(s, q, m.geosets) else MdxGeosetsOld.GeosetsAt(s, q, m.geosets)
  }

  /** `this.Parsers[keyword](model, reader, size, this)`, from position q. */
  function ChunkBodyAt(s: seq<byte>, q: int, keyword: string, size: int, m: Model, other: Parser)
    : (r: Result<At<Model>>)
    requires Advances(other)
    ensures r.Ok? ==> r.value.pos >= q
  {
    if keyword == "VERS" then
      var v :- VersionAt(s, q);
      Ok(At(m.(version := v.value), v.pos))
    else if keyword == "GLBS" then
      var g :- GlobalSequencesAt(s, q, size);
      Ok(At(m.(globalSequences := g.value), g.pos))
    else if keyword == "TEXS" then
      var t :- TexturesFrom(s, q, q + size, m.textures);
      Ok(At(m.(textures := t.value), t.pos))
    else if keyword == "GEOS" then
      var g :- GeosetsOf(s, q, m);
      Ok(At(m.(geosets := g.value), g.pos))
    else if keyword == "PIVT" then
      PivotPointsLayout(s, q, size, m.pivotPoints);
      var points :- PivotPointsAt(s, q, size, m.pivotPoints);
      Ok(At(m.(pivotPoints := points.value), points.pos))
    else if keyword == "HTST" then
      var h :- HitTestShapesAt(s, q, m.nodes, m.hitTestShapes);
      Ok(At(m.(nodes := h.value.0, hitTestShapes := h.value.1), h.pos))
    else
      other(keyword, q, size, m)
  }

  /** One turn of the chunk loop: the keyword, the size, and the keyword's
      parser; a keyword without one throws. */
  function ChunkAt(s: seq<byte>, p: int, m: Model, other: Parser): (r: Result<At<Model>>)
    requires Advances(other)
    ensures r.Ok? ==> r.value.pos >= p + 8
  {
    var keyword := WordAt(s, p);
    var size :- Num(s, p + 4, Int32);
    if keyword !in Keywords then Err(BadData(UnknownGroup))
    else ChunkBodyAt(s, size.pos, keyword, size.value, m, other)
  }

  /** The chunk loop from position p: chunks are read while the cursor is before
      the end, so it ends at or past the end. */
  function ChunksFrom(s: seq<byte>, p: int, m: Model, other: Parser): (r: Result<At<Model>>)
    requires Advances(other)
    ensures r.Ok? ==> r.value.pos >= |s|
    decreases |s| - p
  {
    if p >= |s| then Ok(At(m, p))
    else
      var c :- ChunkAt(s, p, m, other);
      ChunksFrom(s, c.pos, c.value, other)
  }

  // ---------------------------------------------------------------------------
  // Pivot points and the whole model

  /** The node array after the pivot loop. */
  function Pivoted(indexed: seq<Option<Node>>, pivots: seq<seq<int>>): (r: seq<Option<Node>>)
    ensures |r| == |indexed|
  {
    seq(|indexed|, i requires 0 <= i < |indexed| => WithPivot(indexed[i], pivots))
  }

  /** The hit-test shapes after the pivot loop. */
  function PivotedShapes(shapes: seq<HitTestShape>, indexed: seq<Option<Node>>, pivots: seq<seq<int>>)
    : (r: seq<HitTestShape>)
    ensures |r| == |shapes|
  {
    seq(|shapes|, k requires 0 <= k < |shapes| => ShapeWithPivot(shapes[k], indexed, pivots))
  }

  function WithPivots(m: Model): Model {
    m.(nodes := m.nodes.(indexed := Pivoted(m.nodes.indexed, m.pivotPoints)),
       hitTestShapes := PivotedShapes(m.hitTestShapes, m.nodes.indexed, m.pivotPoints))
  }

  /** `read`: the magic, the chunks from offset 4, then the pivot points. */
  function ModelAt(s: seq<byte>, other: Parser): (r: Result<Model>)
    requires Advances(other)
  {
    if WordAt(s, 0) != MDLX then Err(BadData(NotMdx))
    else
      var m :- ChunksFrom(s, 4, Initial, other);
      Ok(WithPivots(m.value))
  }

  // ---------------------------------------------------------------------------
  // Properties

  /** A model is read only from a buffer that starts with the bytes "MDLX"; any
      other start throws "Not a mdx model" before a chunk is read. */
  lemma MagicRequired(s: seq<byte>, other: Parser)
    requires Advances(other)
    ensures ModelAt(s, other).Ok? ==> |s| >= 4 && s[..4] == [0x4D, 0x44, 0x4C, 0x58]
    ensures !(|s| >= 4 && s[..4] == [0x4D, 0x44, 0x4C, 0x58]) ==> ModelAt(s, other) == Err(BadData(NotMdx))
  {
    if |s| >= 4 && s[..4] == [0x4D, 0x44, 0x4C, 0x58] {
      assert WordAt(s, 0) == MDLX;
    }
  }

  /** The head of every chunk: a missing size throws a RangeError, then an
      unknown keyword throws; otherwise the keyword's parser starts right after
      the size, with the size as read. */
  lemma ChunkHead(s: seq<byte>, p: int, m: Model, other: Parser)
    requires Advances(other)
    ensures !InBounds(s, p + 4, 4) ==> ChunkAt(s, p, m, other) == Err(RangeError)
    ensures InBounds(s, p + 4, 4) && WordAt(s, p) !in Keywords ==> ChunkAt(s, p, m, other) == Err(BadData(UnknownGroup))
    ensures InBounds(s, p + 4, 4) && WordAt(s, p) in Keywords ==>
      ChunkAt(s, p, m, other) == ChunkBodyAt(s, p + 8, WordAt(s, p), I32At(s, p + 4), m, other)
  {
    var size := Num(s, p + 4, Int32);
    if InBounds(s, p + 4, 4) {
      assert size == Ok(At(I32At(s, p + 4), p + 8));
    } else {
      assert size == Err(RangeError);
    }
  }

  /** The size of a chunk does not move the cursor: after a valid VERS chunk
      the next chunk starts 12 bytes on, whatever size the chunk declares. */
  lemma SizeIgnored(s: seq<byte>, p: int, m: Model, other: Parser)
    requires Advances(other)
    requires InBounds(s, p, 12) && WordAt(s, p) == "VERS" && 1300 <= I32At(s, p + 8) <= 1500
    ensures ChunkAt(s, p, m, other) == Ok(At(m.(version := I32At(s, p + 8)), p + 12))
  {
    ChunkHead(s, p, m, other);
  }

  /** A VERS chunk outside [1300, 1500] throws, so no later chunk is read. */
  lemma VersionGate(s: seq<byte>, p: int, m: Model, other: Parser)
    requires Advances(other)
    requires 0 <= p < |s| && InBounds(s, p, 12) && WordAt(s, p) == "VERS"
    requires !(1300 <= I32At(s, p + 8) <= 1500)
    ensures ChunksFrom(s, p, m, other) == Err(BadData(InvalidVersion))
  {
    ChunkHead(s, p, m, other);
  }

  /** The geosets of a GEOS chunk right after a VERS chunk are read in the
      version 1500 layout exactly when that chunk says 1500. */
  lemma GeosetsFollowVersion(s: seq<byte>, p: int, m: Model, other: Parser)
    requires Advances(other)
    requires 0 <= p && InBounds(s, p, 20) && WordAt(s, p) == "VERS" && 1300 <= I32At(s, p + 8) <= 1500
    requires WordAt(s, p + 12) == "GEOS"
    ensures var v := I32At(s, p + 8);
      var g := if v == 1500 then MdxGeosetsNew.GeosetsNewAt(s, p + 20, m.geosets)
               else MdxGeosetsOld.GeosetsAt(s, p + 20, m.geosets);
      ChunksFrom(s, p, m, other) ==
        if g.Err? then Err(g.error)
        else ChunksFrom(s, g.value.pos, m.(version := v, geosets := g.value.value), other)
  {
    SizeIgnored(s, p, m, other);
    var v := I32At(s, p + 8);
    ChunkHead(s, p + 12, m.(version := v), other);
  }

  /** After the chunks, every node in the array whose ObjectId indexes a pivot
      point carries that point; a node without one keeps its own, and the nodes
      kept under a null or negative ObjectId get none. */
  lemma PivotsAssigned(t: NodeTable, pivots: seq<seq<int>>, id: Option<int>)
    ensures var after := LookupNode(t.(indexed := Pivoted(t.indexed, pivots)), id);
      && (LookupNode(t, id).None? ==> after.None?)
      && (id.Some? && id.value >= 0 && LookupNode(t, id).Some? ==>
            var node := LookupNode(t, id).value;
            after == Some(if node.objectId.Some? && 0 <= node.objectId.value < |pivots|
                          then node.(pivotPoint := Some(pivots[node.objectId.value])) else node))
      && (!(id.Some? && id.value >= 0) ==> after == LookupNode(t, id))
  {
  }

  /** A hit-test shape whose node is still the one stored under its ObjectId
      shares that node's pivot point afterwards; any other shape (replaced by a
      later node, or kept under a null or negative id) is left as it was. */
  lemma ShapePivotsFollowNodes(m: Model, k: int)
    requires 0 <= k < |m.hitTestShapes|
    ensures var h := m.hitTestShapes[k];
      var after := WithPivots(m);
      if StoredInArray(m.nodes.indexed, h.node)
      then LookupNode(after.nodes, h.node.objectId) == Some(after.hitTestShapes[k].node)
      else after.hitTestShapes[k] == h
  {
  }

  // ---------------------------------------------------------------------------
  // The reader

  /** One chunk's parser on the shared cursor. */
  method ParseChunk(reader: Reader, keyword: string, size: int, m: Model, other: Parser) returns (r: Result<Model>)
    requires Advances(other)
    modifies reader
    ensures Lift(Outcome(r, reader.pos)) == ChunkBodyAt(reader.buffer, old(reader.pos), keyword, size, m, other)
  {
    if keyword == "VERS" {
      var v :- ParseVersion(reader);
      r := Ok(m.(version := v));
    } else if keyword == "GLBS" {
      var g :- ParseGlobalSequences(reader, size);
      r := Ok(m.(globalSequences := g));
    } else if keyword == "TEXS" {
      var t :- ParseTextures(reader, m.textures, size);
      r := Ok(m.(textures := t));
    } else if keyword == "GEOS" {
      var g;
      if m.version == 1500 {
        g := MdxGeosetsNew.ParseGeosetsNew(reader, m.geosets);
      } else {
        g := MdxGeosetsOld.ParseGeosets(reader, m.geosets);
      }
      if g.Err? {
        return Err(g.error);
      }
      r := Ok(m.(geosets := g.value));
    } else if keyword == "PIVT" {
      var points :- ParsePivotPoints(reader, m.pivotPoints, size);
      r := Ok(m.(pivotPoints := points));
    } else if keyword == "HTST" {
      var h :- ParseHitTestShapes(reader, m.nodes, m.hitTestShapes);
      r := Ok(m.(nodes := h.0, hitTestShapes := h.1));
    } else {
      var o := other(keyword, reader.pos, size, m);
      if o.Err? {
        return Err(o.error);
      }
      reader.pos := o.value.pos;
      r := Ok(o.value.value);
    }
  }

  /** The pivot loop over `model.Nodes`. The second loop writes out what the
      aliasing does: a shape still stored in the array is the object the first
      loop updated. */
  method AssignPivots(m: Model) returns (r: Model)
    ensures r == WithPivots(m)
  {
    var nodes := m.nodes.indexed;
    var pivots := m.pivotPoints;
    for i := 0 to |nodes|
      invariant |nodes| == |m.nodes.indexed|
      invariant forall k :: 0 <= k < |nodes| ==> nodes[k] == if k < i then WithPivot(m.nodes.indexed[k], pivots) else m.nodes.indexed[k]
    {
      if nodes[i].Some? {
        var node := nodes[i].value;
        if node.objectId.Some? && 0 <= node.objectId.value < |pivots| {
          nodes := nodes[i := Some(node.(pivotPoint := Some(pivots[node.objectId.value])))];
        }
      }
    }
    var shapes := m.hitTestShapes;
    for k := 0 to |shapes|
      invariant |shapes| == |m.hitTestShapes|
      invariant forall j :: 0 <= j < |shapes| ==>
        shapes[j] == if j < k then ShapeWithPivot(m.hitTestShapes[j], m.nodes.indexed, pivots) else m.hitTestShapes[j]
    {
      var node := shapes[k].node;
      if node.objectId.Some? && 0 <= node.objectId.value < |nodes| && m.nodes.indexed[node.objectId.value] == Some(node) {
        shapes := shapes[k := shapes[k].(node := nodes[node.objectId.value].value)];
      }
    }
    r := m.(nodes := m.nodes.(indexed := nodes), hitTestShapes := shapes);
  }

  /** One turn of the chunk loop on the shared cursor. */
  method NextChunk(reader: Reader, m: Model, other: Parser) returns (r: Result<Model>)
    requires Advances(other) && reader.pos < |reader.buffer|
    modifies reader
    ensures r.Ok? ==> reader.pos > old(reader.pos)
    ensures ChunksFrom(reader.buffer, old(reader.pos), m, other)
         == if r.Ok? then ChunksFrom(reader.buffer, reader.pos, r.value, other) else Err(r.error)
  {
    ghost var p := reader.pos;
    var keyword := reader.Keyword();
    var size := reader.Number(Int32);
    if size.Err? {
      return Err(size.error);
    }
    if keyword !in Keywords {
      return Err(BadData(UnknownGroup));
    }
    r := ParseChunk(reader, keyword, size.value, m, other);
    ChunkHead(reader.buffer, p, m, other);
  }

  /** `read`. */
  method Read(buffer: seq<byte>, other: Parser) returns (r: Result<Model>)
    requires Advances(other)
    ensures r == ModelAt(buffer, other)
  {
    var reader := new Reader(buffer);
    var magic := reader.Keyword();
    if magic != MDLX {
      return Err(BadData(NotMdx));
    }
    ghost var goal := ChunksFrom(buffer, reader.pos, Initial, other);
    var model := Initial;
    while reader.pos < reader.length
      invariant reader.buffer == buffer && reader.length == |buffer|
      invariant ChunksFrom(buffer, reader.pos, model, other) == goal
      decreases |buffer| - reader.pos
    {
      var next := NextChunk(reader, model, other);
      if next.Err? {
        return Err(next.error);
      }
      model := next.value;
    }
    var withPivots := AssignPivots(model);
    r := Ok(withPivots);
  }
}
