/** The containers of src/managers/consts.ts: `CharVariation`, the texture lists
    of one race and gender, and `TextureVariation`, the fifteen replaceable
    texture slots of a model; with the first-occurrence de-duplication of
    variations by `toString` that the item and creature managers share. */
module ManagerConsts {
  import opened Results
  import opened Text
  import Dbc

  // ---------------------------------------------------------------------------
  // CharVariation

  /** A `string[]` indexed by numbers: a number that is not an array index
      becomes an ordinary property, which reads and writes alike. */
  type Column = map<int, string>

  /** A `string[][]`. */
  type Grid = map<int, Column>

  /** `CharVariation`. The source updates one in place and stores it back in
      its map; nothing else holds it, so it is modelled as a value. */
  datatype CharVariation = CharVariation(
    raceId: int,
    genderId: int,
    skin: Column,
    pelvis: Column,
    torso: Column,
    extra: Column,
    faceLower: Grid,
    faceUpper: Grid,
    hair: Grid,
    scalpLower: Grid,
    scalpUpper: Grid,
    facialHairLower: Grid,
    facialHairUpper: Grid)

  /** `new CharVariation(raceId, genderId)`. */
  function NewCharVariation(raceId: int, genderId: int): CharVariation {
    CharVariation(raceId, genderId, map[], map[], map[], map[], map[], map[], map[], map[], map[], map[], map[])
  }

  /** `setTexture`: the variation's row is created when missing, then the
      texture is stored at [variation][color]. */
  function SetTexture(g: Grid, variation: int, color: int, texture: string): Grid {
    var row := if variation in g then g[variation] else map[];
    g[variation := row[color := texture]]
  }

  /** `getTexture`: null (`None`) when the row is missing, otherwise the cell,
      which is undefined (`Some(None)`) when never set. */
  function GetTexture(g: Grid, variation: int, color: int): Option<Option<string>> {
    if variation in g then Some(if color in g[variation] then Some(g[variation][color]) else None) else None
  }

  /** After `setTexture` the cell reads back as the texture, every other cell
      reads as before, and the row of the variation exists. */
  lemma SetGetTexture(g: Grid, variation: int, color: int, texture: string, v: int, c: int)
    ensures GetTexture(SetTexture(g, variation, color, texture), variation, color) == Some(Some(texture))
    ensures v != variation ==> GetTexture(SetTexture(g, variation, color, texture), v, c) == GetTexture(g, v, c)
    ensures c != color ==> GetTexture(SetTexture(g, variation, color, texture), variation, c)
                           == Some(if variation in g && c in g[variation] then Some(g[variation][c]) else None)
  {
  }

  /** The eleven texture lists of a `CharVariation`. */
  datatype Region = Skin | Pelvis | Torso | Extra
                  | FaceLower | FaceUpper | Hair | ScalpLower | ScalpUpper | FacialHairLower | FacialHairUpper

  /** Whether a region is a `string[][]` indexed by variation and colour. */
  predicate IsGrid(r: Region) {
    !(r.Skin? || r.Pelvis? || r.Torso? || r.Extra?)
  }

  function ColumnOf(v: CharVariation, r: Region): Column
    requires !IsGrid(r)
  {
    match r
    case Skin => v.skin
    case Pelvis => v.pelvis
    case Torso => v.torso
    case Extra => v.extra
  }

  function GridOf(v: CharVariation, r: Region): Grid
    requires IsGrid(r)
  {
    match r
    case FaceLower => v.faceLower
    case FaceUpper => v.faceUpper
    case Hair => v.hair
    case ScalpLower => v.scalpLower
    case ScalpUpper => v.scalpUpper
    case FacialHairLower => v.facialHairLower
    case FacialHairUpper => v.facialHairUpper
  }

  /** The texture a variation holds for a region at (variation, colour); the
      variation index is ignored by the flat lists. */
  function Cell(v: CharVariation, r: Region, variation: int, color: int): Option<string> {
    if IsGrid(r) then
      var g := GridOf(v, r);
      if variation in g && color in g[variation] then Some(g[variation][color]) else None
    else
      var column := ColumnOf(v, r);
      if color in column then Some(column[color]) else None
  }

  /** `entry.skin[color] = texture` for a flat list, `entry.setTexture(entry.hair,
      variation, color, texture)` for a grid. */
  function WithCell(v: CharVariation, r: Region, variation: int, color: int, texture: string): CharVariation {
    match r
    case Skin => v.(skin := v.skin[color := texture])
    case Pelvis => v.(pelvis := v.pelvis[color := texture])
    case Torso => v.(torso := v.torso[color := texture])
    case Extra => v.(extra := v.extra[color := texture])
    case FaceLower => v.(faceLower := SetTexture(v.faceLower, variation, color, texture))
    case FaceUpper => v.(faceUpper := SetTexture(v.faceUpper, variation, color, texture))
    case Hair => v.(hair := SetTexture(v.hair, variation, color, texture))
    case ScalpLower => v.(scalpLower := SetTexture(v.scalpLower, variation, color, texture))
    case ScalpUpper => v.(scalpUpper := SetTexture(v.scalpUpper, variation, color, texture))
    case FacialHairLower => v.(facialHairLower := SetTexture(v.facialHairLower, variation, color, texture))
    case FacialHairUpper => v.(facialHairUpper := SetTexture(v.facialHairUpper, variation, color, texture))
  }

  /** Whether (r2, variation2, color2) names the cell a write to (r, variation,
      color) lands in. */
  predicate SameCell(r: Region, variation: int, color: int, r2: Region, variation2: int, color2: int) {
    r2 == r && color2 == color && (IsGrid(r) ==> variation2 == variation)
  }

  /** A write lands in exactly one cell: it reads back there, every other cell
      of every list keeps its texture, and the race and gender stay. */
  lemma WithCellSpec(v: CharVariation, r: Region, variation: int, color: int, texture: string,
                     r2: Region, variation2: int, color2: int)
    ensures var w := WithCell(v, r, variation, color, texture);
      && w.raceId == v.raceId && w.genderId == v.genderId
      && Cell(w, r2, variation2, color2)
         == if SameCell(r, variation, color, r2, variation2, color2) then Some(texture) else Cell(v, r2, variation2, color2)
  {
    if r2 == r {
      WithCellSameRegion(v, r, variation, color, texture, variation2, color2);
    } else {
      WithCellOtherRegion(v, r, variation, color, texture, r2);
    }
  }

  lemma WithCellSameRegion(v: CharVariation, r: Region, variation: int, color: int, texture: string,
                           variation2: int, color2: int)
    ensures var w := WithCell(v, r, variation, color, texture);
      && w.raceId == v.raceId && w.genderId == v.genderId
      && Cell(w, r, variation2, color2)
         == if SameCell(r, variation, color, r, variation2, color2) then Some(texture) else Cell(v, r, variation2, color2)
  {
    if IsGrid(r) {
      GridOfWithCell(v, r, variation, color, texture);
    } else {
      ColumnOfWithCell(v, r, variation, color, texture);
    }
  }

  lemma GridOfWithCell(v: CharVariation, r: Region, variation: int, color: int, texture: string)
    requires IsGrid(r)
    ensures var w := WithCell(v, r, variation, color, texture);
      && w.raceId == v.raceId && w.genderId == v.genderId
      && GridOf(w, r) == SetTexture(GridOf(v, r), variation, color, texture)
  {
  }

  lemma ColumnOfWithCell(v: CharVariation, r: Region, variation: int, color: int, texture: string)
    requires !IsGrid(r)
    ensures var w := WithCell(v, r, variation, color, texture);
      && w.raceId == v.raceId && w.genderId == v.genderId
      && ColumnOf(w, r) == ColumnOf(v, r)[color := texture]
  {
  }

  lemma WithCellOtherRegion(v: CharVariation, r: Region, variation: int, color: int, texture: string, r2: Region)
    requires r2 != r
    ensures var w := WithCell(v, r, variation, color, texture);
      && (IsGrid(r2) ==> GridOf(w, r2) == GridOf(v, r2))
      && (!IsGrid(r2) ==> ColumnOf(w, r2) == ColumnOf(v, r2))
  {
    if IsGrid(r) {
      GridWriteElsewhere(v, r, variation, color, texture, r2);
    } else {
      ColumnWriteElsewhere(v, r, color, texture, r2);
    }
  }

  lemma GridWriteElsewhere(v: CharVariation, r: Region, variation: int, color: int, texture: string, r2: Region)
    requires r2 != r && IsGrid(r)
    ensures var w := WithCell(v, r, variation, color, texture);
      && (IsGrid(r2) ==> GridOf(w, r2) == GridOf(v, r2))
      && (!IsGrid(r2) ==> ColumnOf(w, r2) == ColumnOf(v, r2))
  {
    var w := WithCell(v, r, variation, color, texture);
    match r
    case FaceLower => assert w == v.(faceLower := w.faceLower);
    case FaceUpper => assert w == v.(faceUpper := w.faceUpper);
    case Hair => assert w == v.(hair := w.hair);
    case ScalpLower => assert w == v.(scalpLower := w.scalpLower);
    case ScalpUpper => assert w == v.(scalpUpper := w.scalpUpper);
    case FacialHairLower => assert w == v.(facialHairLower := w.facialHairLower);
    case FacialHairUpper => assert w == v.(facialHairUpper := w.facialHairUpper);
    case _ =>
  }

  lemma ColumnWriteElsewhere(v: CharVariation, r: Region, color: int, texture: string, r2: Region)
    requires r2 != r && !IsGrid(r)
    ensures forall variation :: var w := WithCell(v, r, variation, color, texture);
      && (IsGrid(r2) ==> GridOf(w, r2) == GridOf(v, r2))
      && (!IsGrid(r2) ==> ColumnOf(w, r2) == ColumnOf(v, r2))
  {
  }

  /** A new variation keeps its race and gender and holds no texture at all. */
  lemma NewCharVariationEmpty(raceId: int, genderId: int, r: Region, variation: int, color: int)
    ensures NewCharVariation(raceId, genderId).raceId == raceId
    ensures NewCharVariation(raceId, genderId).genderId == genderId
    ensures Cell(NewCharVariation(raceId, genderId), r, variation, color) == None
  {
  }

  // ---------------------------------------------------------------------------
  // TextureVariation

  /** `TextureReplacement` values (src/formats/mdx/model.ts) used here. */
  const ObjectSkin := 2
  const Monster1 := 0xB

  /** `new Array(0xF)`. */
  const SlotCount := 0xF

  /** Slots of a texture array; `None` is a hole or undefined. */
  type Slots = seq<Option<string>>

  /** `textures[slot] = filename`: past the end the array grows, with holes. */
  function Slotted(ts: Slots, slot: nat, filename: string): (r: Slots)
    ensures |r| == if slot < |ts| then |ts| else slot + 1
  {
    if slot < |ts| then ts[slot := Some(filename)] else ts + Holes(slot - |ts|) + [Some(filename)]
  }

  /** `textures[slot]`. */
  function SlotAt(ts: Slots, slot: nat): Option<string> {
    if slot < |ts| then ts[slot] else None
  }

  /** `get` after `set` of the same slot gives the filename back; every other
      slot reads as before. */
  lemma SlottedGet(ts: Slots, slot: nat, filename: string, k: nat)
    ensures SlotAt(Slotted(ts, slot, filename), slot) == Some(filename)
    ensures k != slot ==> SlotAt(Slotted(ts, slot, filename), k) == SlotAt(ts, k)
  {
  }

  /** `textures.join('')`: holes and undefined join as "". */
  function Joined(ts: Slots): string {
    if |ts| == 0 then ""
    else Joined(ts[..|ts| - 1]) + (if ts[|ts| - 1].Some? then ts[|ts| - 1].value else "")
  }

  /** `toString`: the joined slots, upper-cased. */
  function Key(ts: Slots): string {
    ToUpper(Joined(ts))
  }

  /** The key is empty exactly when every slot is unset or "". */
  lemma {:induction false} KeyEmpty(ts: Slots)
    ensures |Key(ts)| == 0 <==> forall k :: 0 <= k < |ts| ==> ts[k] == None || |ts[k].value| == 0
  {
    if |ts| > 0 {
      var init := ts[..|ts| - 1];
      KeyEmpty(init);
      assert forall k :: 0 <= k < |init| ==> init[k] == ts[k];
    }
  }

  /** With one slot set on a fresh variation, its key is that filename
      upper-cased. */
  lemma {:induction false} KeyOfOne(n: nat, slot: nat, filename: string)
    requires slot < n
    ensures Key(Slotted(Holes(n), slot, filename)) == ToUpper(filename)
  {
    JoinedOne(n, slot, filename);
  }

  lemma {:induction false} JoinedOne(n: nat, slot: nat, filename: string)
    requires slot < n
    ensures Joined(Slotted(Holes(n), slot, filename)) == filename
  {
    var ts := Slotted(Holes(n), slot, filename);
    if n - 1 == slot {
      assert ts[..n - 1] == Holes(n - 1);
      JoinedUnset(n - 1);
    } else {
      assert ts[..n - 1] == Slotted(Holes(n - 1), slot, filename);
      JoinedOne(n - 1, slot, filename);
    }
  }

  lemma {:induction false} JoinedUnset(n: nat)
    ensures Joined(Holes(n)) == ""
  {
    if n > 0 {
      assert Holes<string>(n)[..n - 1] == Holes(n - 1);
      JoinedUnset(n - 1);
    }
  }

  /** `TextureVariation`. */
  class TextureVariation {
    var textures: Slots

    constructor()
      ensures textures == Holes(SlotCount)
    {
      textures := Holes(SlotCount);
    }

    /** `set(type, filename)`. */
    method Set(slot: nat, filename: string)
      modifies this
      ensures textures == Slotted(old(textures), slot, filename)
    {
      if slot < |textures| {
        textures := textures[slot := Some(filename)];
      } else {
        textures := textures + Holes(slot - |textures|) + [Some(filename)];
      }
    }

    /** `get(type)`. */
    function Get(slot: nat): Option<string>
      reads this
    {
      SlotAt(textures, slot)
    }

    /** `toString`. */
    function ToString(): string
      reads this
    {
      Key(textures)
    }
  }

  // ---------------------------------------------------------------------------
  // De-duplication by key

  /** The variations kept from `entries[..n]` by the managers' map: one whose
      key is non-empty and not yet in the map is added; Map iteration then
      returns them in insertion order. */
  function Dedup(entries: seq<Slots>, n: nat): (r: seq<Slots>)
    requires n <= |entries|
  {
    if n == 0 then []
    else
      var kept := Dedup(entries, n - 1);
      var key := Key(entries[n - 1]);
      if |key| > 0 && key !in KeysOf(kept) then kept + [entries[n - 1]] else kept
  }

  /** The keys of the variations kept so far: the map's keys. */
  function KeysOf(vs: seq<Slots>): set<string> {
    if |vs| == 0 then {} else KeysOf(vs[..|vs| - 1]) + {Key(vs[|vs| - 1])}
  }

  lemma {:induction false} KeysOfMembers(vs: seq<Slots>, i: int)
    requires 0 <= i < |vs|
    ensures Key(vs[i]) in KeysOf(vs)
  {
    if i < |vs| - 1 {
      KeysOfMembers(vs[..|vs| - 1], i);
    }
  }

  /** Whether entry i is the first of its non-empty key. */
  predicate IsFirst(entries: seq<Slots>, i: nat)
    requires i < |entries|
  {
    |Key(entries[i])| > 0 && forall j :: 0 <= j < i ==> Key(entries[j]) != Key(entries[i])
  }

  /** The positions among the first n that are the first of their key, in order. */
  function FirstPositions(entries: seq<Slots>, n: nat): (r: seq<nat>)
    requires n <= |entries|
    ensures forall k :: 0 <= k < |r| ==> r[k] < n
  {
    if n == 0 then []
    else FirstPositions(entries, n - 1) + (if Unseen(entries, n - 1) then [n - 1] else [])
  }

  /** The entries at the given positions, in order. */
  function Pick(entries: seq<Slots>, positions: seq<nat>): (r: seq<Slots>)
    requires forall k :: 0 <= k < |positions| ==> positions[k] < |entries|
    ensures |r| == |positions|
  {
    if |positions| == 0 then []
    else Pick(entries, positions[..|positions| - 1]) + [entries[positions[|positions| - 1]]]
  }

  /** The map keeps exactly the first entry of every non-empty key, in the
      order the entries come: the keys met so far are the non-empty keys of
      the first n entries. */
  lemma {:induction false} DedupFirstOccurrences(entries: seq<Slots>, n: nat)
    requires n <= |entries|
    ensures Dedup(entries, n) == Pick(entries, FirstPositions(entries, n))
  {
    if n > 0 {
      DedupFirstOccurrences(entries, n - 1);
      DedupKeys(entries, n - 1);
      DedupStep(entries, n);
    }
  }

  lemma DedupStep(entries: seq<Slots>, n: nat)
    requires 0 < n <= |entries|
    requires Dedup(entries, n - 1) == Pick(entries, FirstPositions(entries, n - 1))
    requires KeysOf(Dedup(entries, n - 1)) == SeenKeys(entries, n - 1)
    ensures Dedup(entries, n) == Pick(entries, FirstPositions(entries, n))
  {
    var fp := FirstPositions(entries, n - 1);
    if Unseen(entries, n - 1) {
      assert FirstPositions(entries, n) == fp + [n - 1];
      PickSnoc(entries, fp, n - 1);
    } else {
      assert FirstPositions(entries, n) == fp + [] == fp;
    }
  }

  /** The keys kept are the non-empty keys met so far. */
  lemma {:induction false} DedupKeys(entries: seq<Slots>, n: nat)
    requires n <= |entries|
    ensures KeysOf(Dedup(entries, n)) == SeenKeys(entries, n)
  {
    if n > 0 {
      DedupKeys(entries, n - 1);
      var kept := Dedup(entries, n - 1);
      var e := entries[n - 1];
      if |Key(e)| > 0 && Key(e) !in SeenKeys(entries, n - 1) {
        assert (kept + [e])[..|kept|] == kept;
      }
    }
  }

  /** The non-empty keys among the first n entries. */
  function SeenKeys(entries: seq<Slots>, n: nat): set<string>
    requires n <= |entries|
  {
    if n == 0 then {}
    else SeenKeys(entries, n - 1) + (if |Key(entries[n - 1])| > 0 then {Key(entries[n - 1])} else {})
  }

  /** A key has been seen exactly when an earlier entry has it. */
  lemma {:induction false} SeenKeysMembers(entries: seq<Slots>, n: nat, key: string)
    requires n <= |entries|
    ensures key in SeenKeys(entries, n) <==> exists j :: 0 <= j < n && |Key(entries[j])| > 0 && Key(entries[j]) == key
  {
    if n > 0 {
      SeenKeysMembers(entries, n - 1, key);
    }
  }

  /** Entry i has a non-empty key that no earlier entry has. */
  predicate Unseen(entries: seq<Slots>, i: nat)
    requires i < |entries|
  {
    |Key(entries[i])| > 0 && Key(entries[i]) !in SeenKeys(entries, i)
  }

  /** So the positions kept are those of the first entry of every key. */
  lemma IsFirstUnseen(entries: seq<Slots>, i: nat)
    requires i < |entries|
    ensures IsFirst(entries, i) <==> Unseen(entries, i)
  {
    SeenKeysMembers(entries, i, Key(entries[i]));
    if |Key(entries[i])| > 0 && Key(entries[i]) in SeenKeys(entries, i) {
      var j :| 0 <= j < i && |Key(entries[j])| > 0 && Key(entries[j]) == Key(entries[i]);
      assert !IsFirst(entries, i);
    }
  }

  lemma PickSnoc(entries: seq<Slots>, positions: seq<nat>, i: nat)
    requires i < |entries| && forall k :: 0 <= k < |positions| ==> positions[k] < |entries|
    ensures Pick(entries, positions + [i]) == Pick(entries, positions) + [entries[i]]
  {
    assert (positions + [i])[..|positions|] == positions;
  }

  /** The kept variations have distinct, non-empty keys. */
  lemma {:induction false} DedupDistinct(entries: seq<Slots>, n: nat)
    requires n <= |entries|
    ensures forall i :: 0 <= i < |Dedup(entries, n)| ==> |Key(Dedup(entries, n)[i])| > 0
    ensures forall i, j :: 0 <= i < j < |Dedup(entries, n)| ==> Key(Dedup(entries, n)[i]) != Key(Dedup(entries, n)[j])
  {
    if n > 0 {
      DedupDistinct(entries, n - 1);
      var kept := Dedup(entries, n - 1);
      var e := entries[n - 1];
      if |Key(e)| > 0 && Key(e) !in KeysOf(kept) {
        var r := kept + [e];
        forall i | 0 <= i < |r| ensures |Key(r[i])| > 0 {
          if i < |kept| {
            assert r[i] == kept[i];
          }
        }
        forall i, j | 0 <= i < j < |r| ensures Key(r[i]) != Key(r[j]) {
          assert r[i] == kept[i];
          if j == |kept| {
            assert r[j] == e;
            KeysOfMembers(kept, i);
          } else {
            assert r[j] == kept[j];
          }
        }
      }
    }
  }

  /** Dedup of the first n entries looks at those entries only. */
  lemma {:induction false} DedupPrefix(a: seq<Slots>, b: seq<Slots>, n: nat)
    requires n <= |a|
    ensures Dedup(a + b, n) == Dedup(a, n)
  {
    if n > 0 {
      DedupPrefix(a, b, n - 1);
      assert (a + b)[n - 1] == a[n - 1];
    }
  }

  /** The slots of the variations collected so far, in order. */
  function TexturesOf(vs: seq<TextureVariation>): (r: seq<Slots>)
    reads vs
    ensures |r| == |vs|
  {
    if |vs| == 0 then [] else TexturesOf(vs[..|vs| - 1]) + [vs[|vs| - 1].textures]
  }

  /** What an entry of the loop holds: its error, nothing, or the slots of its
      variation. */
  function EntrySlots(r: Result<Option<TextureVariation>>): Result<Option<Slots>>
    reads if r.Ok? && r.value.Some? then {r.value.value} else {}
  {
    if r.Err? then Err(r.error) else if r.value.None? then Ok(None) else Ok(Some(r.value.value.textures))
  }

  /** The de-duplication step of `getTextures` on the variations kept so
      far and one row: a variation is kept when its key is non-empty and not in
      the map yet. */
  function Keep(kept: seq<Slots>, row: Option<Slots>): seq<Slots> {
    if row.Some? && |Key(row.value)| > 0 && Key(row.value) !in KeysOf(kept) then kept + [row.value] else kept
  }

  /** The variations kept after the rows read, in the map's insertion order. */
  function Gathered(rows: seq<Option<Slots>>): seq<Slots> {
    if |rows| == 0 then [] else Keep(Gathered(rows[..|rows| - 1]), rows[|rows| - 1])
  }

  lemma GatheredNext(rows: seq<Option<Slots>>, row: Option<Slots>)
    ensures Gathered(rows + [row]) == Keep(Gathered(rows), row)
  {
    assert (rows + [row])[..|rows|] == rows;
  }

  /** The fold keeps exactly the first entry of every non-empty key among the
      rows that yield one. */
  lemma {:induction false} GatheredIsDedup(rows: seq<Option<Slots>>)
    ensures Gathered(rows) == Dedup(Present(rows), |Present(rows)|)
  {
    if |rows| > 0 {
      var init := rows[..|rows| - 1];
      var row := rows[|rows| - 1];
      GatheredIsDedup(init);
      assert rows == init + [row];
      PresentNext(init, row);
      var p := Present(init);
      if row.Some? {
        DedupPrefix(p, [row.value], |p|);
      } else {
        assert Present(rows) == p;
      }
    }
  }

  /** Every variation kept has a non-empty key and is the variation of one
      of the rows. */
  lemma {:induction false} GatheredFrom(rows: seq<Option<Slots>>, k: int)
    requires 0 <= k < |Gathered(rows)|
    ensures |Key(Gathered(rows)[k])| > 0
    ensures exists i :: 0 <= i < |rows| && rows[i] == Some(Gathered(rows)[k])
  {
    var init := rows[..|rows| - 1];
    var kept := Gathered(init);
    if k < |kept| {
      GatheredFrom(init, k);
      var i :| 0 <= i < |init| && init[i] == Some(kept[k]);
      assert rows[i] == init[i];
    } else {
      assert rows[|rows| - 1] == Some(Gathered(rows)[k]);
    }
  }

  /** The map step for a new variation. */
  method Collect(kept: seq<TextureVariation>, keys: set<string>, entry: TextureVariation, ghost g: seq<Slots>)
    returns (kept': seq<TextureVariation>, keys': set<string>)
    requires TexturesOf(kept) == g && keys == KeysOf(g)
    requires entry !in kept
    ensures TexturesOf(kept') == Keep(g, Some(entry.textures))
    ensures keys' == KeysOf(Keep(g, Some(entry.textures)))
    ensures kept' == kept || kept' == kept + [entry]
  {
    var key := entry.ToString();
    if |key| > 0 && key !in keys {
      kept' := kept + [entry];
      keys' := keys + {key};
      assert kept'[..|kept|] == kept;
    } else {
      kept' := kept;
      keys' := keys;
    }
  }

  /** The rows that yield an entry. */
  function Present(rows: seq<Option<Slots>>): seq<Slots> {
    if |rows| == 0 then []
    else Present(rows[..|rows| - 1]) + (if rows[|rows| - 1].Some? then [rows[|rows| - 1].value] else [])
  }

  lemma PresentNext(rows: seq<Option<Slots>>, row: Option<Slots>)
    ensures Present(rows + [row]) == Present(rows) + (if row.Some? then [row.value] else [])
  {
    assert (rows + [row])[..|rows|] == rows;
  }

  /** What `getTextures` returns for the rows read: the first entry of every
      non-empty key, in order; or the error of the first row that throws. */
  function Collected(rows: Result<seq<Option<Slots>>>): Result<seq<Slots>> {
    if rows.Ok? then Ok(Gathered(rows.value)) else Err(rows.error)
  }

  // ---------------------------------------------------------------------------
  // Model ids per model name

  /** `map.get(model) || new Set(); array.add(id); map.set(model, array)`. */
  datatype IdAdd = IdAdd(model: string, id: int)

  type IdMap = map<string, set<int>>

  function AddAll(m: IdMap, adds: seq<IdAdd>): IdMap {
    if |adds| == 0 then m
    else
      var m' := AddAll(m, adds[..|adds| - 1]);
      var a := adds[|adds| - 1];
      m'[a.model := (if a.model in m' then m'[a.model] else {}) + {a.id}]
  }

  lemma {:induction false} AddAllConcat(m: IdMap, a: seq<IdAdd>, b: seq<IdAdd>)
    ensures AddAll(m, a + b) == AddAll(AddAll(m, a), b)
    decreases |b|
  {
    if |b| == 0 {
      assert a + b == a;
    } else {
      assert (a + b)[..|a + b| - 1] == a + b[..|b| - 1];
      assert (a + b)[|a + b| - 1] == b[|b| - 1];
      AddAllConcat(m, a, b[..|b| - 1]);
    }
  }

  /** A model is in the map exactly when something was added for it, and its
      set holds exactly the ids added for it. */
  lemma {:induction false} IdsOfMembers(adds: seq<IdAdd>, model: string, id: int)
    ensures model in AddAll(map[], adds) <==> exists k :: 0 <= k < |adds| && adds[k].model == model
    ensures model in AddAll(map[], adds) ==> (id in AddAll(map[], adds)[model] <==> IdAdd(model, id) in adds)
  {
    if |adds| > 0 {
      var init := adds[..|adds| - 1];
      IdsOfMembers(init, model, id);
      assert adds == init + [adds[|adds| - 1]];
      if exists k :: 0 <= k < |init| && init[k].model == model {
        var k :| 0 <= k < |init| && init[k].model == model;
        assert adds[k].model == model;
      }
      if exists k :: 0 <= k < |adds| && adds[k].model == model {
        var k :| 0 <= k < |adds| && adds[k].model == model;
        if k < |init| {
          assert init[k].model == model;
        }
      }
    }
  }

  function Flatten(rows: seq<seq<IdAdd>>): seq<IdAdd> {
    if |rows| == 0 then [] else Flatten(rows[..|rows| - 1]) + rows[|rows| - 1]
  }

  /** What `getModelMap` builds from the rows read, or the error of the first
      row that throws. */
  function IdTable(rows: Result<seq<seq<IdAdd>>>): Result<IdMap> {
    if rows.Ok? then Ok(AddAll(map[], Flatten(rows.value))) else Err(rows.error)
  }

  /** The loop of `getModelMap`: every id a row yields is added in turn. */
  method IdLoop(read: int -> Result<seq<IdAdd>>, rowCount: int) returns (r: Result<IdMap>)
    ensures r == IdTable(Dbc.Rows(read, rowCount))
  {
    var m: IdMap := map[];
    ghost var rows: seq<seq<IdAdd>> := [];
    var i := 0;
    while i < rowCount
      invariant 0 <= i <= (if rowCount < 0 then 0 else rowCount)
      invariant Dbc.Rows(read, i) == Ok(rows) && m == AddAll(map[], Flatten(rows))
      decreases rowCount - i
    {
      var row := read(i);
      if row.Err? {
        Dbc.RowsErr(read, i, rowCount);
        return Err(row.error);
      }
      Dbc.RowsNext(read, i);
      m := AddIds(m, row.value);
      AddAllConcat(map[], Flatten(rows), row.value);
      rows := rows + [row.value];
      assert rows[..|rows| - 1] == rows[..|rows| - 1];
      i := i + 1;
    }
    assert Dbc.Rows(read, rowCount) == Dbc.Rows(read, i);
    return Ok(m);
  }

  /** The inner loop over one row's names. */
  method AddIds(m: IdMap, adds: seq<IdAdd>) returns (r: IdMap)
    ensures r == AddAll(m, adds)
  {
    r := m;
    for k := 0 to |adds|
      invariant r == AddAll(m, adds[..k])
    {
      var a := adds[k];
      assert adds[..k + 1][..k] == adds[..k];
      r := r[a.model := (if a.model in r then r[a.model] else {}) + {a.id}];
    }
    assert adds[..|adds|] == adds;
  }

  /** An id a row yields is in the map, under its model. */
  lemma {:induction false} FlattenHas(rows: seq<seq<IdAdd>>, k: int, a: IdAdd)
    requires 0 <= k < |rows| && a in rows[k]
    ensures a in Flatten(rows)
  {
    if k < |rows| - 1 {
      FlattenHas(rows[..|rows| - 1], k, a);
    }
  }

  /** Everything flattened comes from some row. */
  lemma {:induction false} FlattenFrom(rows: seq<seq<IdAdd>>, a: IdAdd)
    requires a in Flatten(rows)
    ensures exists k :: 0 <= k < |rows| && a in rows[k]
  {
    var init := rows[..|rows| - 1];
    if a in Flatten(init) {
      FlattenFrom(init, a);
      var k :| 0 <= k < |init| && a in init[k];
      assert rows[k] == init[k];
    } else {
      assert a in rows[|rows| - 1];
    }
  }

  /** Every (model, id) a row of the table yields is in the map built from it. */
  lemma TableHas(read: int -> Result<seq<IdAdd>>, n: int, k: int, a: IdAdd)
    requires IdTable(Dbc.Rows(read, n)).Ok? && 0 <= k < n && read(k).Ok? && a in read(k).value
    ensures var m := IdTable(Dbc.Rows(read, n)).value;
      a.model in m && a.id in m[a.model]
  {
    var rows := Dbc.Rows(read, n).value;
    Dbc.RowsRead(read, n);
    FlattenHas(rows, k, a);
    IdsOfMembers(Flatten(rows), a.model, a.id);
  }

  /** Every model in the map built from a table comes from one of its rows. */
  lemma TableKeys(read: int -> Result<seq<IdAdd>>, n: int, model: string)
    requires IdTable(Dbc.Rows(read, n)).Ok? && model in IdTable(Dbc.Rows(read, n)).value
    ensures exists k, a :: 0 <= k < n && read(k).Ok? && a in read(k).value && a.model == model
  {
    var rows := Dbc.Rows(read, n).value;
    Dbc.RowsRead(read, n);
    IdsOfMembers(Flatten(rows), model, 0);
    var j :| 0 <= j < |Flatten(rows)| && Flatten(rows)[j].model == model;
    var a := Flatten(rows)[j];
    FlattenFrom(rows, a);
    var k :| 0 <= k < |rows| && a in rows[k];
    assert read(k).Ok? && a in read(k).value;
  }
}
