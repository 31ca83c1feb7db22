/** The parts of a model that src/formats/mdx/modelreader.ts builds in the chunks
    modelled here (the types of src/formats/mdx/model.ts), and the pure
    computations behind them: where `parseNode` stores a node, the name of a
    replaceable texture, the MATS group fill of old geosets, the bone lookup and
    group trimming of new geosets, face padding and the pivot count. Float values
    are kept as their 32-bit patterns. */
module MdxModel {
  import opened Results
  import opened BinaryReader

  // ---------------------------------------------------------------------------
  // Data

  /** A node object. `origin`, the buffer position its record starts at, stands
      for the object's identity: two objects read from different records are
      different objects however equal their other fields are. */
  datatype Node = Node(
    name: string,
    objectId: Option<int>,   // -1 in the file becomes null
    parent: Option<int>,     // -1 in the file becomes null
    flags: int,
    translation: Option<Track>,
    rotation: Option<Track>,
    scaling: Option<Track>,
    pivotPoint: Option<seq<int>>,
    origin: int)

  datatype Texture = Texture(replaceableId: int, image: string, flags: int)

  /** `extent`: BoundsRadius, MinimumExtent and MaximumExtent. */
  datatype Extent = Extent(boundsRadius: int, minimum: seq<int>, maximum: seq<int>)

  /** A geoset. Groups of old geosets may keep holes (`new Array(n)` slots MATS
      never filled), hence `Option`. New geosets set no extents. */
  datatype Geoset = Geoset(
    vertices: seq<int>,
    normals: seq<int>,
    tVertices: seq<seq<int>>,
    vertexGroup: seq<int>,
    faces: seq<int>,
    groups: seq<seq<Option<int>>>,
    materialId: int,
    selectionGroup: int,
    flags: int,
    boundsRadius: int,
    minimumExtent: Option<seq<int>>,
    maximumExtent: Option<seq<int>>,
    anims: seq<Extent>)

  datatype HitTestShape = HitTestShape(node: Node, shape: int, vertices: Option<seq<int>>)

  // ---------------------------------------------------------------------------
  // `model.Nodes[node.ObjectId] = node`

  /** `model.Nodes`: a JavaScript array. A non-negative id is an array index (the
      array grows with holes up to it); null and negative ids become ordinary
      properties ("null", "-5"), which the array's length does not count. */
  datatype NodeTable = NodeTable(indexed: seq<Option<Node>>, named: map<Option<int>, Node>)

  const NoNodes := NodeTable([], map[])

  function StoreNode(t: NodeTable, node: Node): NodeTable {
    match node.objectId
    case Some(i) =>
      if i < 0 then t.(named := t.named[node.objectId := node])
      else if i < |t.indexed| then t.(indexed := t.indexed[i := Some(node)])
      else t.(indexed := t.indexed + Holes(i - |t.indexed|) + [Some(node)])
    case None => t.(named := t.named[None := node])
  }

  /** `model.Nodes[id]`. */
  function LookupNode(t: NodeTable, id: Option<int>): Option<Node> {
    if id.Some? && id.value >= 0 then
      (if id.value < |t.indexed| then t.indexed[id.value] else None)
    else if id in t.named then Some(t.named[id]) else None
  }

  /** After storing, the node is found under its own id and every other id finds
      what it found before; an index past the end lengthens the array to it. */
  lemma StoreNodeLookup(t: NodeTable, node: Node, id: Option<int>)
    ensures LookupNode(StoreNode(t, node), node.objectId) == Some(node)
    ensures id != node.objectId ==> LookupNode(StoreNode(t, node), id) == LookupNode(t, id)
    ensures node.objectId.Some? && node.objectId.value >= 0 ==>
      |StoreNode(t, node).indexed| == if node.objectId.value < |t.indexed| then |t.indexed| else node.objectId.value + 1
    ensures !(node.objectId.Some? && node.objectId.value >= 0) ==> StoreNode(t, node).indexed == t.indexed
  {
  }

  /** Several nodes stored one after the other. */
  function StoreNodes(t: NodeTable, nodes: seq<Node>): NodeTable
    decreases |nodes|
  {
    if |nodes| == 0 then t else StoreNode(StoreNodes(t, nodes[..|nodes| - 1]), nodes[|nodes| - 1])
  }

  /** The position of the last node with ObjectId `id`, or -1. */
  function LastWithId(nodes: seq<Node>, id: Option<int>): (r: int)
    ensures -1 <= r < |nodes|
    ensures r >= 0 ==> nodes[r].objectId == id
    ensures forall k :: r < k < |nodes| ==> nodes[k].objectId != id
  {
    if |nodes| == 0 then -1
    else if nodes[|nodes| - 1].objectId == id then |nodes| - 1
    else LastWithId(nodes[..|nodes| - 1], id)
  }

  /** After storing several nodes, an id finds the last of them that carries
      it, or what it found before when none does. */
  lemma {:induction false} StoreNodesLookup(t: NodeTable, nodes: seq<Node>, id: Option<int>)
    ensures var k := LastWithId(nodes, id);
      LookupNode(StoreNodes(t, nodes), id) == if k == -1 then LookupNode(t, id) else Some(nodes[k])
    decreases |nodes|
  {
    if |nodes| > 0 {
      var init := nodes[..|nodes| - 1];
      StoreNodesLookup(t, init, id);
      StoreNodeLookup(StoreNodes(t, init), nodes[|nodes| - 1], id);
    }
  }

  // ---------------------------------------------------------------------------
  // Pivot points

  /** The assignment after all chunks: every node in the array whose ObjectId
      indexes a pivot point receives it. */
  function WithPivot(entry: Option<Node>, pivots: seq<seq<int>>): Option<Node> {
    match entry
    case None => None
    case Some(node) => Some(NodeWithPivot(node, pivots))
  }

  function NodeWithPivot(node: Node, pivots: seq<seq<int>>): Node {
    if node.objectId.Some? && 0 <= node.objectId.value < |pivots|
    then node.(pivotPoint := Some(pivots[node.objectId.value]))
    else node
  }

  /** Whether a node is the object the array holds under its ObjectId (the
      same fields and the same origin). A hit-test shape is the very object
      `parseNode` stores there, so while no later node replaces it, the pivot
      loop reaches the shape too. */
  predicate StoredInArray(indexed: seq<Option<Node>>, node: Node) {
    node.objectId.Some? && 0 <= node.objectId.value < |indexed| && indexed[node.objectId.value] == Some(node)
  }

  /** A shape after the pivot loop: its node receives the pivot point when it
      is still the node stored in the array. */
  function ShapeWithPivot(h: HitTestShape, indexed: seq<Option<Node>>, pivots: seq<seq<int>>): HitTestShape {
    if StoredInArray(indexed, h.node) then h.(node := NodeWithPivot(h.node, pivots)) else h
  }

  /** How many points `parsePivotPoints` reads: the loop runs while i < size / 12
      in real division, so a partial last point is read too. */
  function PivotCount(size: int): (n: nat)
  {
    if size <= 0 then 0 else (size + 11) / 12
  }

  lemma PivotCountBounds(size: int)
    ensures PivotCount(size) == 0 <==> size <= 0
    ensures PivotCount(size) > 0 ==> 12 * (PivotCount(size) - 1) < size <= 12 * PivotCount(size)
  {
  }

  /** How many int32 values `parseGlobalSequences` reads: a typed array's length
      is `size / 4` truncated, and none for a negative size. */
  function GlobalSequenceCount(size: int): (n: nat)
  {
    if size <= 0 then 0 else size / 4
  }

  lemma GlobalSequenceCountBounds(size: int)
    ensures size >= 0 ==> 4 * GlobalSequenceCount(size) <= size < 4 * GlobalSequenceCount(size) + 4
    ensures size < 0 ==> GlobalSequenceCount(size) == 0
  {
  }

  // ---------------------------------------------------------------------------
  // Textures

  /** The names of the TextureReplacement enum, by value. */
  const ReplacementNames: seq<string> := ["None", "Skin", "ObjectSkin", "WeaponBlade", "WeaponHandle",
    "Environment", "CharHair", "CharFacialHair", "SkinExtra", "UISkin", "TaurenMane", "Monster1",
    "Monster2", "Monster3", "ItemIcon"]

  /** `TextureReplacement[id].toString()`: the enum's name for ids 0 to 0xE; any
      other id reads `undefined` and calling `toString` on it throws. */
  function ReplacementName(id: int): (r: Result<string>)
    ensures r.Ok? <==> 0 <= id <= 0xE
    ensures r.Ok? ==> |r.value| > 0
    ensures r.Err? ==> r.error == TypeError
  {
    if 0 <= id < |ReplacementNames| then Ok(ReplacementNames[id]) else Err(TypeError)
  }

  /** The image of a texture record: its file name, or for an empty name the
      name of its replaceable id. */
  function TextureImage(replaceableId: int, image: string): (r: Result<string>)
    ensures |image| > 0 ==> r == Ok(image)
    ensures |image| == 0 ==> r == ReplacementName(replaceableId)
  {
    if |image| > 0 then Ok(image) else ReplacementName(replaceableId)
  }

  // ---------------------------------------------------------------------------
  // Old geosets: MTGC group sizes and the MATS fill

  /** The loop state of MATS: the groups, `groupIndex` and `groupCounter`. */
  datatype Fill = Fill(groups: seq<seq<Option<int>>>, index: nat, counter: nat)

  /** `new Array(n)` for every MTGC size: n empty slots. */
  function EmptyGroups(sizes: seq<nat>): (r: seq<seq<Option<int>>>)
    ensures |r| == |sizes| && forall g :: 0 <= g < |sizes| ==> |r[g]| == sizes[g] && forall j :: 0 <= j < sizes[g] ==> r[g][j] == None
  {
    seq(|sizes|, g requires 0 <= g < |sizes| => seq(sizes[g], j => None))
  }

  /** Writes happen at most one past the filled part of the current group. */
  ghost predicate Writable(st: Fill) {
    st.counter < |st.groups| ==> st.index <= |st.groups[st.counter]|
  }

  /** The test at the top of each MATS turn: a full group moves on to the next
      one (once per turn); a group counter past the groups reads `undefined`. */
  function Advance(st: Fill): (r: Result<Fill>)
    ensures r.Ok? && Writable(st) ==> Writable(r.value)
  {
    if st.counter >= |st.groups| then Err(TypeError)
    else if st.index >= |st.groups[st.counter]| then Ok(Fill(st.groups, 0, st.counter + 1))
    else Ok(st)
  }

  /** `Groups[groupCounter][groupIndex++] = v`: a write at the end of a group
      lengthens it; a write past the last group throws. */
  function Put(st: Fill, v: int): (r: Result<Fill>)
    requires Writable(st)
  {
    if st.counter >= |st.groups| then Err(TypeError)
    else
      var g := st.groups[st.counter];
      var g' := if st.index < |g| then g[st.index := Some(v)] else g + [Some(v)];
      Ok(Fill(st.groups[st.counter := g'], st.index + 1, st.counter))
  }

  /** The MATS loop over values already read, from the empty groups. */
  function FillAll(sizes: seq<nat>, values: seq<int>): (r: Result<Fill>)
    ensures r.Ok? ==> Writable(r.value) && |r.value.groups| == |sizes|
  {
    if |values| == 0 then Ok(Fill(EmptyGroups(sizes), 0, 0))
    else
      var before :- FillAll(sizes, values[..|values| - 1]);
      var st :- Advance(before);
      Put(st, values[|values| - 1])
  }

  /** Total of the first `g` group sizes. */
  function Prefix(sizes: seq<nat>, g: nat): nat
    requires g <= |sizes|
  {
    if g == 0 then 0 else Prefix(sizes, g - 1) + sizes[g - 1]
  }

  lemma {:induction false} PrefixMonotone(sizes: seq<nat>, a: nat, b: nat)
    requires a <= b <= |sizes|
    ensures Prefix(sizes, a) <= Prefix(sizes, b)
    decreases b
  {
    if a < b {
      PrefixMonotone(sizes, a, b - 1);
    }
  }

  /** Group `g`'s slot `j` holds value number Prefix(g) + j once that many values
      are written, and is still empty otherwise. */
  ghost predicate FilledUpTo(sizes: seq<nat>, values: seq<int>, groups: seq<seq<Option<int>>>, k: nat)
    requires k <= |values|
  {
    && |groups| == |sizes|
    && forall g :: 0 <= g < |sizes| ==>
         && |groups[g]| == sizes[g]
         && forall j :: 0 <= j < sizes[g] ==>
              groups[g][j] == if Prefix(sizes, g) + j < k then Some(values[Prefix(sizes, g) + j]) else None
  }

  /** The fill state after `k` of the values when every group has room: the
      counter sits on the group holding value k - 1, just after it. */
  ghost predicate FillAt(sizes: seq<nat>, values: seq<int>, st: Fill, k: nat)
    requires k <= |values|
  {
    FilledUpTo(sizes, values, st.groups, k) && Cursor(sizes, st, k)
  }

  /** The counter and index after `k` values, and the group lengths. */
  ghost predicate Cursor(sizes: seq<nat>, st: Fill, k: nat) {
    && |st.groups| == |sizes|
    && (forall g :: 0 <= g < |sizes| ==> |st.groups[g]| == sizes[g])
    && (k == 0 ==> st.index == 0 && st.counter == 0)
    && (k > 0 ==> st.counter < |sizes| && 1 <= st.index <= sizes[st.counter]
                  && Prefix(sizes, st.counter) + st.index == k)
  }

  /** Where the next value goes: the slot numbered k, strictly inside a group. */
  ghost predicate NextSlot(sizes: seq<nat>, st: Fill, k: nat) {
    st.counter < |sizes| && st.index < sizes[st.counter] && Prefix(sizes, st.counter) + st.index == k
  }

  /** The test at the top of a turn finds the slot numbered k, when every group
      has at least one slot and there is one left. */
  lemma AdvanceFindsSlot(sizes: seq<nat>, st: Fill, k: nat)
    requires k < Prefix(sizes, |sizes|)
    requires forall g :: 0 <= g < |sizes| ==> sizes[g] > 0
    requires Cursor(sizes, st, k)
    ensures Advance(st).Ok? && Advance(st).value.groups == st.groups
    ensures NextSlot(sizes, Advance(st).value, k)
  {
    assert |sizes| > 0;
    if k > 0 && st.index >= sizes[st.counter] {
      assert Prefix(sizes, st.counter + 1) == k;
      assert st.counter + 1 < |sizes|;
    }
  }

  /** Writing value k into the slot numbered k. */
  lemma PutFillsSlot(sizes: seq<nat>, values: seq<int>, a: Fill, k: nat)
    requires k < |values|
    requires FilledUpTo(sizes, values, a.groups, k) && NextSlot(sizes, a, k)
    ensures Writable(a) && Put(a, values[k]).Ok?
    ensures FillAt(sizes, values, Put(a, values[k]).value, k + 1)
  {
    var st' := Put(a, values[k]).value;
    forall g | 0 <= g < |sizes|
      ensures |st'.groups[g]| == sizes[g]
      ensures forall j :: 0 <= j < sizes[g] ==>
        st'.groups[g][j] == if Prefix(sizes, g) + j < k + 1 then Some(values[Prefix(sizes, g) + j]) else None
    {
      if g < a.counter {
        PrefixMonotone(sizes, g + 1, a.counter);
      } else if g > a.counter {
        PrefixMonotone(sizes, a.counter + 1, g);
      }
    }
  }

  /** One more value, when every group has at least one slot and the values do
      not outnumber the slots. */
  lemma FillAtStep(sizes: seq<nat>, values: seq<int>, st: Fill, k: nat)
    requires k < |values| && k < Prefix(sizes, |sizes|)
    requires forall g :: 0 <= g < |sizes| ==> sizes[g] > 0
    requires FillAt(sizes, values, st, k)
    ensures Advance(st).Ok? && Writable(Advance(st).value)
    ensures Put(Advance(st).value, values[k]).Ok?
    ensures FillAt(sizes, values, Put(Advance(st).value, values[k]).value, k + 1)
  {
    AdvanceFindsSlot(sizes, st, k);
    PutFillsSlot(sizes, values, Advance(st).value, k);
  }

  /** The FillAll state matches FillAt for the first `k` values. */
  lemma {:induction false} FillAllAt(sizes: seq<nat>, values: seq<int>, k: nat)
    requires k <= |values| && k <= Prefix(sizes, |sizes|)
    requires forall g :: 0 <= g < |sizes| ==> sizes[g] > 0
    ensures FillAll(sizes, values[..k]).Ok? && FillAt(sizes, values, FillAll(sizes, values[..k]).value, k)
  {
    if k == 0 {
      assert values[..0] == [];
    } else {
      FillAllAt(sizes, values, k - 1);
      var st := FillAll(sizes, values[..k - 1]).value;
      FillAtStep(sizes, values, st, k - 1);
      FillAllNext(sizes, values, k - 1);
    }
  }

  /** The fill of one more value, from the fill of the values before it. */
  lemma FillAllNext(sizes: seq<nat>, values: seq<int>, k: nat)
    requires k < |values| && FillAll(sizes, values[..k]).Ok?
    ensures var st := FillAll(sizes, values[..k]).value;
      FillAll(sizes, values[..k + 1]) == if Advance(st).Err? then Err(TypeError) else Put(Advance(st).value, values[k])
  {
    assert values[..k + 1][..k] == values[..k];
  }

  /** The MATS loop as it runs, from any writable state: one turn per value,
      front to back. */
  function FillFrom(st: Fill, values: seq<int>): (r: Result<Fill>)
    requires Writable(st)
    ensures r.Ok? ==> Writable(r.value)
    decreases |values|
  {
    if |values| == 0 then Ok(st)
    else
      var a :- Advance(st);
      var next :- Put(a, values[0]);
      FillFrom(next, values[1..])
  }

  /** Running the loop over one more value is one more turn after the others. */
  lemma {:induction false} FillFromSnoc(st: Fill, values: seq<int>, v: int)
    requires Writable(st)
    ensures var before := FillFrom(st, values);
      FillFrom(st, values + [v]) == if before.Err? then before else FillFrom(before.value, [v])
    decreases |values|
  {
    if |values| > 0 {
      assert (values + [v])[1..] == values[1..] + [v];
      var a := Advance(st);
      if a.Ok? {
        var next := Put(a.value, values[0]);
        if next.Ok? {
          FillFromSnoc(next.value, values[1..], v);
        }
      }
    } else {
      assert values + [v] == [v];
    }
  }

  /** The loop from the empty MTGC groups is the fill FillAll describes. */
  lemma {:induction false} FillFromAll(sizes: seq<nat>, values: seq<int>)
    ensures FillFrom(Fill(EmptyGroups(sizes), 0, 0), values) == FillAll(sizes, values)
    decreases |values|
  {
    if |values| > 0 {
      var init := Fill(EmptyGroups(sizes), 0, 0);
      var front := values[..|values| - 1];
      assert front + [values[|values| - 1]] == values;
      FillFromSnoc(init, front, values[|values| - 1]);
      FillFromAll(sizes, front);
    }
  }

  /** When every group has a slot and there are exactly as many values as slots,
      MATS fills the groups in order: slot j of group g holds value
      Prefix(g) + j, and no slot stays empty. */
  lemma FillExact(sizes: seq<nat>, values: seq<int>)
    requires forall g :: 0 <= g < |sizes| ==> sizes[g] > 0
    requires |values| == Prefix(sizes, |sizes|)
    ensures FillAll(sizes, values).Ok?
    ensures var groups := FillAll(sizes, values).value.groups;
      && |groups| == |sizes|
      && forall g :: 0 <= g < |sizes| ==> (|groups[g]| == sizes[g]
           && forall j :: 0 <= j < sizes[g] ==> Prefix(sizes, g) + j < |values| && groups[g][j] == Some(values[Prefix(sizes, g) + j]))
  {
    FillAllAt(sizes, values, |values|);
    assert values[..|values|] == values;
    forall g | 0 <= g < |sizes|
      ensures Prefix(sizes, g) + sizes[g] <= |values|
    {
      PrefixMonotone(sizes, g + 1, |sizes|);
    }
  }

  /** Once the fill has thrown it stays thrown. */
  lemma {:induction false} FillAllStops(sizes: seq<nat>, values: seq<int>, k: nat)
    requires k <= |values| && FillAll(sizes, values[..k]).Err?
    ensures FillAll(sizes, values) == FillAll(sizes, values[..k])
    decreases |values| - k
  {
    if k < |values| {
      assert values[..|values| - 1][..k] == values[..k];
      FillAllStops(sizes, values[..|values| - 1], k);
    } else {
      assert values[..k] == values;
    }
  }

  /** Once every slot is written, the next turn moves past the last group. */
  lemma FullFillThrows(sizes: seq<nat>, st: Fill)
    requires forall g :: 0 <= g < |sizes| ==> sizes[g] > 0
    requires Cursor(sizes, st, Prefix(sizes, |sizes|))
    ensures Advance(st).Ok? ==> Writable(Advance(st).value) && Put(Advance(st).value, 0) == Err(TypeError)
    ensures Advance(st).Err? ==> Advance(st) == Err(TypeError)
  {
    var total := Prefix(sizes, |sizes|);
    if total > 0 {
      var c := st.counter;
      PrefixMonotone(sizes, c + 1, |sizes|);
      assert st.index == sizes[c];
      if c + 1 < |sizes| {
        PrefixMonotone(sizes, c + 2, |sizes|);
      }
      assert c == |sizes| - 1;
    }
  }

  /** The state once every slot is written. */
  lemma FillAllFull(sizes: seq<nat>, values: seq<int>)
    requires forall g :: 0 <= g < |sizes| ==> sizes[g] > 0
    requires |values| > Prefix(sizes, |sizes|)
    ensures var total := Prefix(sizes, |sizes|);
      FillAll(sizes, values[..total]).Ok? && Cursor(sizes, FillAll(sizes, values[..total]).value, total)
  {
    FillAllAt(sizes, values, Prefix(sizes, |sizes|));
  }

  /** More values than slots: the turn after the last slot moves past the last
      group and throws a TypeError. */
  lemma FillOverflow(sizes: seq<nat>, values: seq<int>)
    requires forall g :: 0 <= g < |sizes| ==> sizes[g] > 0
    requires |values| > Prefix(sizes, |sizes|)
    ensures FillAll(sizes, values) == Err(TypeError)
  {
    var total := Prefix(sizes, |sizes|);
    FillAllFull(sizes, values);
    var st := FillAll(sizes, values[..total]).value;
    FullFillThrows(sizes, st);
    var next := values[..total + 1];
    assert next[..|next| - 1] == values[..total];
    assert FillAll(sizes, next) == Err(TypeError);
    FillAllStops(sizes, values, total + 1);
  }

  /** An empty MTGC group does not stay empty: the turn that moves into it also
      writes into it, lengthening it, so the values after it shift by one group. */
  lemma EmptyGroupTakesValue()
    ensures FillAll([1, 0, 1], [7, 8]) == Ok(Fill([[Some(7)], [Some(8)], [None]], 1, 1))
  {
    var sizes: seq<nat> := [1, 0, 1];
    var empty := EmptyGroups(sizes);
    assert empty[0] == [None] && empty[1] == [] && empty[2] == [None];
    assert [7, 8][..1] == [7] && [7][..0] == [];
    assert FillAll(sizes, []) == Ok(Fill(empty, 0, 0));
    assert Advance(Fill(empty, 0, 0)) == Ok(Fill(empty, 0, 0));
    assert [None][0 := Some(7)] == [Some(7)];
    assert Put(Fill(empty, 0, 0), 7) == Ok(Fill(empty[0 := [Some(7)]], 1, 0));
    assert FillAll(sizes, [7]) == Ok(Fill(empty[0 := [Some(7)]], 1, 0));
    assert Advance(Fill(empty[0 := [Some(7)]], 1, 0)) == Ok(Fill(empty[0 := [Some(7)]], 0, 1));
    assert empty[0 := [Some(7)]][1] == [] && [] + [Some(8)] == [Some(8)];
    assert Put(Fill(empty[0 := [Some(7)]], 0, 1), 8) == Ok(Fill(empty[0 := [Some(7)]][1 := [Some(8)]], 1, 1));
    assert empty[0 := [Some(7)]][1 := [Some(8)]] == [[Some(7)], [Some(8)], [None]];
  }

  // ---------------------------------------------------------------------------
  // New geosets: bone lookup, groups and faces

  /** First position of `x` in `xs`, or -1 (`indexOf`). */
  function IndexOf<T(==)>(xs: seq<T>, x: T): (r: int)
    ensures r == -1 <==> x !in xs
    ensures r != -1 ==> 0 <= r < |xs| && xs[r] == x && x !in xs[..r]
  {
    if |xs| == 0 then -1
    else if xs[|xs| - 1] == x && x !in xs[..|xs| - 1] then |xs| - 1
    else
      var r := IndexOf(xs[..|xs| - 1], x);
      assert xs[..|xs| - 1][..if r == -1 then 0 else r] == xs[..if r == -1 then 0 else r];
      r
  }

  predicate Distinct<T(==)>(xs: seq<T>) {
    forall a, b :: 0 <= a < b < |xs| ==> xs[a] != xs[b]
  }

  /** The vertex loop of a new geoset over the bone tuples (the comma-joined
      `uint8Array(4)` of each vertex; equal strings are equal tuples): each tuple
      gets the position of its first occurrence in `boneLookup`, a new tuple
      being appended. Returns the lookup and the group index of every vertex. */
  function BoneLookup(tuples: seq<seq<int>>): (r: (seq<seq<int>>, seq<int>))
    ensures |r.1| == |tuples|
    ensures Distinct(r.0)
    ensures forall k :: 0 <= k < |r.0| ==> r.0[k] in tuples
    ensures forall j :: 0 <= j < |tuples| ==> 0 <= r.1[j] < |r.0| && r.0[r.1[j]] == tuples[j]
  {
    if |tuples| == 0 then ([], [])
    else
      var before := BoneLookup(tuples[..|tuples| - 1]);
      var t := tuples[|tuples| - 1];
      var i := IndexOf(before.0, t);
      var lookup := if i == -1 then before.0 + [t] else before.0;
      var index := if i == -1 then |before.0| else i;
      assert forall k :: 0 <= k < |before.0| ==> before.0[k] in tuples by {
        assert forall k :: 0 <= k < |before.0| ==> before.0[k] in tuples[..|tuples| - 1];
      }
      (lookup, before.1 + [index])
  }

  /** One more vertex: its tuple's first position in the lookup so far, the
      tuple being appended when it is new. */
  lemma BoneLookupNext(tuples: seq<seq<int>>, j: nat)
    requires j < |tuples|
    ensures var before := BoneLookup(tuples[..j]);
      var i := IndexOf(before.0, tuples[j]);
      BoneLookup(tuples[..j + 1])
        == (if i == -1 then before.0 + [tuples[j]] else before.0, before.1 + [if i == -1 then |before.0| else i])
  {
    assert tuples[..j + 1][..j] == tuples[..j];
  }

  /** `geoset.VertexGroup[j] = index` stores into a Uint8Array: the index is kept
      mod 256, so with more than 256 distinct bone tuples indices wrap. */
  function ToUint8(x: int): (r: int)
    ensures 0 <= r < 256
    ensures 0 <= x < 256 ==> r == x
  {
    x % 256
  }

  /** `b.replace(/(,0)+$/, '').split(',').map(Number)` on a comma-joined tuple:
      the trailing zeros go, except that the first entry always stays (the
      pattern needs a comma before each zero it removes). */
  function TrimZeros(t: seq<int>): (r: seq<int>)
    ensures |t| > 0 ==> 0 < |r| <= |t|
    ensures |r| <= |t| && r == t[..|r|]
    ensures |r| > 1 ==> r[|r| - 1] != 0
    ensures forall k :: |r| <= k < |t| ==> t[k] == 0
  {
    if |t| > 1 && t[|t| - 1] == 0 then TrimZeros(t[..|t| - 1]) else t
  }

  /** `geoset.Groups`: every looked-up tuple, trimmed. */
  function GroupsOf(lookup: seq<seq<int>>): (r: seq<seq<Option<int>>>)
    ensures |r| == |lookup|
  {
    seq(|lookup|, g requires 0 <= g < |lookup| => Somes(TrimZeros(lookup[g])))
  }

  function Somes(xs: seq<int>): (r: seq<Option<int>>)
    ensures |r| == |xs| && forall k :: 0 <= k < |xs| ==> r[k] == Some(xs[k])
  {
    seq(|xs|, k requires 0 <= k < |xs| => Some(xs[k]))
  }

  /** The padding after the faces of a new geoset, in bytes. */
  function FacePadding(n: int): (pad: nat)
    requires n >= 0
  {
    if n % 8 != 0 then 2 * (8 - n % 8) else 0
  }

  /** The padding brings the face block to a whole number of 16-byte units. */
  lemma FacePaddingAligns(n: nat)
    ensures FacePadding(n) < 16 && FacePadding(n) % 2 == 0
    ensures (2 * n + FacePadding(n)) % 16 == 0
  {
  }

  // ---------------------------------------------------------------------------
  // Hit-test shapes

  /** The floats after a hit-test shape byte: 6 for Box (0), 5 for Cylinder (1),
      4 for Sphere (2), 2 for Plane (3), and nothing for any other shape. */
  function ShapeFloats(shape: int): (r: Option<nat>)
    ensures r.Some? <==> 0 <= shape <= 3
  {
    match shape
    case 0 => Some(6)
    case 1 => Some(5)
    case 2 => Some(4)
    case 3 => Some(2)
    case _ => None
  }
}
