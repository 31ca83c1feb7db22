/** src/managers/charactermanager.ts: the character textures and geosets of
    every race and gender, read from the client database tables. Each table is
    read row by row into a map keyed by race name + gender name; a later row
    overwrites what an earlier row with the same key stored in the same place. */
module Characters {
  import opened Results
  import opened Text
  import opened ManagerConsts
  import Dbc

  const Genders: seq<string> := ["MALE", "FEMALE"]
  const Races: seq<string> := ["", "HUMAN", "ORC", "DWARF", "NIGHTELF", "SCOURGE", "TAUREN", "GNOME", "TROLL"]

  /** What `getHairGeosets` answers for a model with no entry. */
  const EmptyMap: seq<int> := [0]

  /** `list[i]` turned into text by `+`: outside the array it reads undefined,
      which concatenates as "undefined". */
  function Named(list: seq<string>, i: int): string {
    if 0 <= i < |list| then list[i] else "undefined"
  }

  /** `Races[raceId] + Genders[genderId]`. */
  function MapKey(raceId: int, genderId: int): string {
    Named(Races, raceId) + Named(Genders, genderId)
  }

  // ---------------------------------------------------------------------------
  // Names

  const Tga := ".TGA"
  const Blp := ".BLP"

  /** `normalizePath`: the upper-cased name of the file without directory or
      extension. */
  function NormalizePath(filename: string): (r: string)
    ensures ToUpper(r) == r
    ensures forall c :: c in r ==> !IsSeparator(c)
  {
    var name := ParseName(filename);
    BaseNameSpec(filename);
    assert forall c :: c in name ==> c in BaseName(filename);
    ToUpperIdempotent(name);
    ToUpper(name)
  }

  /** Upper-casing a file name first changes nothing. */
  lemma NormalizePathCase(filename: string)
    ensures NormalizePath(ToUpper(filename)) == NormalizePath(filename)
  {
    ParseNameUpper(filename);
    ToUpperIdempotent(ParseName(filename));
  }

  /** `normalizeTexture`: upper-cased, and the first ".TGA" becomes ".BLP". */
  function NormalizeTexture(filename: string): (r: string)
    ensures |r| == |filename|
  {
    ReplaceFirst(ToUpper(filename), Tga, Blp)
  }

  /** The result is upper case. */
  lemma NormalizeTextureUpper(filename: string)
    ensures ToUpper(NormalizeTexture(filename)) == NormalizeTexture(filename)
  {
    var s := ToUpper(filename);
    ToUpperIdempotent(filename);
    var k := IndexOfFrom(s, Tga, 0);
    if k != -1 {
      assert ToUpper(Blp) == Blp;
      ToUpperAppend(s[..k], Blp);
      ToUpperAppend(s[..k] + Blp, s[k + |Tga|..]);
    }
  }

  /** A ".tga" name whose stem has no dot becomes the upper-cased stem with
      ".BLP". */
  lemma NormalizeTextureTga(stem: string)
    requires '.' !in stem
    ensures NormalizeTexture(stem + ".tga") == ToUpper(stem) + Blp
  {
    ReplaceAfterStem(stem, ".tga", Tga, Blp);
  }

  // ---------------------------------------------------------------------------
  // Geoset maps

  /** One row of CharHairGeosets or CharacterFacialHairStyles: where it goes
      and what it stores. */
  datatype GeosetRow = GeosetRow(key: string, variation: int, geosets: seq<int>)

  /** `Map<string, number[][]>`: per key, a sparse array indexed by style. */
  type GeosetMap = map<string, map<int, seq<int>>>

  /** `entry = map.get(key) || []; entry[variation] = geosets; map.set(key, entry)`. */
  function StoreGeosets(m: GeosetMap, row: GeosetRow): GeosetMap {
    var entry := if row.key in m then m[row.key] else map[];
    m[row.key := entry[row.variation := row.geosets]]
  }

  /** The map built from the rows in order. */
  function GeosetsOf(rows: seq<GeosetRow>): GeosetMap {
    if |rows| == 0 then map[] else StoreGeosets(GeosetsOf(rows[..|rows| - 1]), rows[|rows| - 1])
  }

  /** `map.get(key)[variation]`: `None` where there is nothing. */
  function GeosetAt(m: GeosetMap, key: string, variation: int): Option<seq<int>> {
    if key in m && variation in m[key] then Some(m[key][variation]) else None
  }

  predicate Hits(row: GeosetRow, key: string, variation: int) {
    row.key == key && row.variation == variation
  }

  /** A key is in the map exactly when some row has it. */
  lemma {:induction false} GeosetKeys(rows: seq<GeosetRow>, key: string)
    ensures key in GeosetsOf(rows) <==> exists j :: 0 <= j < |rows| && rows[j].key == key
  {
    if |rows| > 0 {
      var init := rows[..|rows| - 1];
      GeosetKeys(init, key);
      if exists j :: 0 <= j < |init| && init[j].key == key {
        var j :| 0 <= j < |init| && init[j].key == key;
        assert rows[j].key == key;
      }
      if exists j :: 0 <= j < |rows| && rows[j].key == key {
        var j :| 0 <= j < |rows| && rows[j].key == key;
        if j < |init| {
          assert init[j].key == key;
        }
      }
    }
  }

  /** The last row with a key and style is the one whose geosets are kept. */
  lemma {:induction false} GeosetsLastRow(rows: seq<GeosetRow>, key: string, variation: int, j: int)
    requires 0 <= j < |rows| && Hits(rows[j], key, variation)
    requires forall l :: j < l < |rows| ==> !Hits(rows[l], key, variation)
    ensures GeosetAt(GeosetsOf(rows), key, variation) == Some(rows[j].geosets)
  {
    if j < |rows| - 1 {
      var init := rows[..|rows| - 1];
      assert !Hits(rows[|rows| - 1], key, variation);
      GeosetsLastRow(init, key, variation, j);
    }
  }

  /** With no row for a key and style there is nothing there. */
  lemma {:induction false} GeosetsUnwritten(rows: seq<GeosetRow>, key: string, variation: int)
    requires forall l :: 0 <= l < |rows| ==> !Hits(rows[l], key, variation)
    ensures GeosetAt(GeosetsOf(rows), key, variation) == None
  {
    if |rows| > 0 {
      var init := rows[..|rows| - 1];
      assert !Hits(rows[|rows| - 1], key, variation);
      GeosetsUnwritten(init, key, variation);
    }
  }

  /** `getHairGeosets`/`getFacialHairGeosets` on a map: the entry's style, or
      [0] for a model with no entry. */
  function GeosetsFor(m: GeosetMap, model: string, style: int): Option<seq<int>> {
    if model in m then GeosetAt(m, model, style) else Some(EmptyMap)
  }

  /** What a model's style answers, in terms of the rows: [0] when no row has
      the model, the last row with the model and style, or undefined when rows
      have the model but none the style. */
  lemma GeosetsForRows(rows: seq<GeosetRow>, model: string, style: int, j: int)
    requires -1 <= j < |rows|
    requires j >= 0 ==> Hits(rows[j], model, style) && forall l :: j < l < |rows| ==> !Hits(rows[l], model, style)
    requires j == -1 ==> forall l :: 0 <= l < |rows| ==> !Hits(rows[l], model, style)
    ensures (forall l :: 0 <= l < |rows| ==> rows[l].key != model) ==> GeosetsFor(GeosetsOf(rows), model, style) == Some(EmptyMap)
    ensures j >= 0 ==> GeosetsFor(GeosetsOf(rows), model, style) == Some(rows[j].geosets)
    ensures j == -1 && (exists l :: 0 <= l < |rows| && rows[l].key == model) ==> GeosetsFor(GeosetsOf(rows), model, style) == None
  {
    GeosetKeys(rows, model);
    if j >= 0 {
      GeosetsLastRow(rows, model, style, j);
    } else {
      GeosetsUnwritten(rows, model, style);
    }
  }

  /** Row i of CharHairGeosets: race 1, gender 2, style 3, then the hair and
      scalp geosets 4 and 5. */
  function HairRow(t: Dbc.Sheet, i: int): Result<GeosetRow> {
    var raceId :- t.Int(i, 1);
    var genderId :- t.Int(i, 2);
    var variation :- t.Int(i, 3);
    var hair :- t.Int(i, 4);
    var scalp :- t.Int(i, 5);
    Ok(GeosetRow(MapKey(raceId, genderId), variation, [hair, scalp]))
  }

  /** Row i of CharacterFacialHairStyles: race 0, gender 1, style 2, then beard,
      moustache and sideburn from 3, 4, 5 in the six-field layout and from 6,
      8, 7 otherwise, offset by 100, 300 and 200. */
  function FacialHairRow(t: Dbc.Sheet, i: int): Result<GeosetRow> {
    var raceId :- t.Int(i, 0);
    var genderId :- t.Int(i, 1);
    var variation :- t.Int(i, 2);
    var geosets :-
      if t.fieldCount == 6 then
        var beard :- t.Int(i, 3);
        var moustache :- t.Int(i, 4);
        var sideburn :- t.Int(i, 5);
        Ok([100 + beard, 300 + moustache, 200 + sideburn])
      else
        var beard :- t.Int(i, 6);
        var moustache :- t.Int(i, 8);
        var sideburn :- t.Int(i, 7);
        Ok([100 + beard, 300 + moustache, 200 + sideburn]);
    Ok(GeosetRow(MapKey(raceId, genderId), variation, geosets))
  }

  function HairReader(t: Dbc.Sheet): int -> Result<GeosetRow> {
    i => HairRow(t, i)
  }

  function FacialHairReader(t: Dbc.Sheet): int -> Result<GeosetRow> {
    i => FacialHairRow(t, i)
  }

  /** The map built from a table's rows, or the error of the first row that
      could not be read. */
  function GeosetTable(rows: Result<seq<GeosetRow>>): Result<GeosetMap> {
    if rows.Ok? then Ok(GeosetsOf(rows.value)) else Err(rows.error)
  }

  /** `getHairMap` (or `getFacialHairMap`) on what `DBC.Load` answered: a
      missing table throws on its `rowCount`. */
  function GeosetsFrom(sheet: Option<Dbc.Sheet>, facial: bool): Result<GeosetMap> {
    match sheet
    case None => Err(TypeError)
    case Some(t) => GeosetTable(Dbc.Rows(if facial then FacialHairReader(t) else HairReader(t), t.rowCount))
  }

  /** The loop of `getHairMap` and `getFacialHairMap`. */
  method ReadGeosets(table: Dbc.Table?, facial: bool) returns (r: Result<GeosetMap>)
    ensures r == GeosetsFrom(Dbc.SheetOf(table), facial)
  {
    if table == null {
      return Err(TypeError);
    }
    var t := table.Contents();
    r := GeosetLoop(if facial then FacialHairReader(t) else HairReader(t), t.rowCount);
  }

  /** `for (let i = 0; i < rowCount; i++)`: each row read is stored in turn. */
  method GeosetLoop(read: int -> Result<GeosetRow>, rowCount: int) returns (r: Result<GeosetMap>)
    ensures r == GeosetTable(Dbc.Rows(read, rowCount))
  {
    var m: GeosetMap := map[];
    ghost var rows: seq<GeosetRow> := [];
    var i := 0;
    while i < rowCount
      invariant 0 <= i <= (if rowCount < 0 then 0 else rowCount)
      invariant Dbc.Rows(read, i) == Ok(rows) && m == GeosetsOf(rows)
      decreases rowCount - i
    {
      var row := read(i);
      if row.Err? {
        Dbc.RowsErr(read, i, rowCount);
        return Err(row.error);
      }
      Dbc.RowsNext(read, i);
      var entry := if row.value.key in m then m[row.value.key] else map[];
      m := m[row.value.key := entry[row.value.variation := row.value.geosets]];
      rows := rows + [row.value];
      assert rows[..|rows| - 1] == rows[..|rows| - 1];
      i := i + 1;
    }
    assert Dbc.Rows(read, rowCount) == Dbc.Rows(read, i);
    return Ok(m);
  }

  // ---------------------------------------------------------------------------
  // Texture variation maps

  /** One texture a row stores: which list, the place in it, and the
      normalised file name. */
  datatype CellWrite = CellWrite(region: Region, variation: int, color: int, texture: string)

  /** A row of CharTextureVariationsV2 or CharSections that is not an NPC's:
      its key, the race and gender an entry created for it gets, and the
      textures it stores in order. */
  datatype SectionRow = SectionRow(key: string, raceId: int, genderId: int, writes: seq<CellWrite>)

  /** The list a CharTextureVariationsV2 section id names; other ids name none. */
  function AlphaRegion(section: int): Option<Region> {
    match section
    case 0 => Some(Skin)
    case 1 => Some(Pelvis)
    case 2 => Some(Torso)
    case 3 => Some(Extra)
    case 4 => Some(FaceLower)
    case 5 => Some(FaceUpper)
    case 6 => Some(Hair)
    case 7 => Some(ScalpLower)
    case 8 => Some(ScalpUpper)
    case 9 => Some(FacialHairLower)
    case 10 => Some(FacialHairUpper)
    case _ => None
  }

  /** Row i of CharTextureVariationsV2: skipped (`None`) when field 6 is 1;
      otherwise race 1, gender 2, style 4, colour 5, the texture name 7, and
      the section 3 choosing the list. */
  function AlphaRow(t: Dbc.Sheet, i: int): Result<Option<SectionRow>> {
    var isNpc :- t.Int(i, 6);
    if isNpc == 1 then Ok(None)
    else
      var raceId :- t.Int(i, 1);
      var genderId :- t.Int(i, 2);
      var variation :- t.Int(i, 4);
      var color :- t.Int(i, 5);
      var name :- t.String(i, 7);
      var section :- t.Int(i, 3);
      var region := AlphaRegion(section);
      var writes := if region.Some? then [CellWrite(region.value, variation, color, NormalizeTexture(name))] else [];
      Ok(Some(SectionRow(MapKey(raceId, genderId), raceId, genderId, writes)))
  }

  /** The lists a CharSections section id fills from its texture names 6, 7
      (and 8): skin and extra, the face, the facial hair, hair and scalp, or
      pelvis and torso. */
  function BetaRegions(section: int): seq<Region> {
    match section
    case 0 => [Skin, Extra]
    case 1 => [FaceLower, FaceUpper]
    case 2 => [FacialHairLower, FacialHairUpper]
    case 3 => [Hair, ScalpLower, ScalpUpper]
    case 4 => [Pelvis, Torso]
    case _ => []
  }

  /** The texture names of fields 6 onwards, one per list. */
  function BetaNames(t: Dbc.Sheet, i: int, count: nat): (r: Result<seq<string>>)
    ensures r.Ok? ==> |r.value| == count
  {
    if count == 0 then Ok([])
    else
      var names :- BetaNames(t, i, count - 1);
      var name :- t.String(i, 6 + count - 1);
      Ok(names + [name])
  }

  function BetaWrites(regions: seq<Region>, names: seq<string>, variation: int, color: int): (r: seq<CellWrite>)
    requires |names| == |regions|
    ensures |r| == |regions|
  {
    seq(|regions|, k requires 0 <= k < |regions| => CellWrite(regions[k], variation, color, NormalizeTexture(names[k])))
  }

  /** Row i of CharSections: skipped when field 9 is 1; otherwise race 1,
      gender 2, style 4, colour 5 and section 3, then its texture names. */
  function BetaRow(t: Dbc.Sheet, i: int): Result<Option<SectionRow>> {
    var isNpc :- t.Int(i, 9);
    if isNpc == 1 then Ok(None)
    else
      var raceId :- t.Int(i, 1);
      var genderId :- t.Int(i, 2);
      var variation :- t.Int(i, 4);
      var color :- t.Int(i, 5);
      var section :- t.Int(i, 3);
      var regions := BetaRegions(section);
      var names :- BetaNames(t, i, |regions|);
      Ok(Some(SectionRow(MapKey(raceId, genderId), raceId, genderId, BetaWrites(regions, names, variation, color))))
  }

  function AlphaReader(t: Dbc.Sheet): int -> Result<Option<SectionRow>> {
    i => AlphaRow(t, i)
  }

  function BetaReader(t: Dbc.Sheet): int -> Result<Option<SectionRow>> {
    i => BetaRow(t, i)
  }

  /** The textures stored in order into one variation. */
  function Apply(v: CharVariation, writes: seq<CellWrite>): CharVariation {
    if |writes| == 0 then v
    else
      var w := writes[|writes| - 1];
      WithCell(Apply(v, writes[..|writes| - 1]), w.region, w.variation, w.color, w.texture)
  }

  /** `entry = map.get(key) || new CharVariation(raceId, genderId)`, the row's
      textures, `map.set(key, entry)`; a skipped row changes nothing. */
  function StoreSection(m: map<string, CharVariation>, row: Option<SectionRow>): map<string, CharVariation> {
    if row.None? then m
    else
      var s := row.value;
      var entry := if s.key in m then m[s.key] else NewCharVariation(s.raceId, s.genderId);
      m[s.key := Apply(entry, s.writes)]
  }

  function VariationsOf(rows: seq<Option<SectionRow>>): map<string, CharVariation> {
    if |rows| == 0 then map[] else StoreSection(VariationsOf(rows[..|rows| - 1]), rows[|rows| - 1])
  }

  function VariationTable(rows: Result<seq<Option<SectionRow>>>): Result<map<string, CharVariation>> {
    if rows.Ok? then Ok(VariationsOf(rows.value)) else Err(rows.error)
  }

  predicate HasKey(row: Option<SectionRow>, key: string) {
    row.Some? && row.value.key == key
  }

  /** Every texture the rows with a key store, in order. */
  function WritesFor(rows: seq<Option<SectionRow>>, key: string): seq<CellWrite> {
    if |rows| == 0 then []
    else WritesFor(rows[..|rows| - 1], key) + (if HasKey(rows[|rows| - 1], key) then rows[|rows| - 1].value.writes else [])
  }

  lemma {:induction false} ApplyConcat(v: CharVariation, a: seq<CellWrite>, b: seq<CellWrite>)
    ensures Apply(v, a + b) == Apply(Apply(v, a), b)
    decreases |b|
  {
    if |b| == 0 {
      assert a + b == a;
    } else {
      assert (a + b)[..|a + b| - 1] == a + b[..|b| - 1];
      assert (a + b)[|a + b| - 1] == b[|b| - 1];
      ApplyConcat(v, a, b[..|b| - 1]);
    }
  }

  /** A key is in the map exactly when some kept row has it; its entry has the
      race and gender of the first such row and every texture of all of them
      stored in order. */
  lemma {:induction false} VariationsOfKey(rows: seq<Option<SectionRow>>, key: string, first: int)
    requires 0 <= first < |rows| && HasKey(rows[first], key)
    requires forall l :: 0 <= l < first ==> !HasKey(rows[l], key)
    ensures key in VariationsOf(rows)
    ensures VariationsOf(rows)[key]
            == Apply(NewCharVariation(rows[first].value.raceId, rows[first].value.genderId), WritesFor(rows, key))
  {
    var init := rows[..|rows| - 1];
    var last := rows[|rows| - 1];
    if first == |rows| - 1 {
      VariationsWithout(init, key);
      assert WritesFor(rows, key) == [] + last.value.writes == last.value.writes;
    } else {
      assert forall l :: 0 <= l < first ==> init[l] == rows[l];
      assert init[first] == rows[first];
      VariationsOfKey(init, key, first);
      var start := NewCharVariation(rows[first].value.raceId, rows[first].value.genderId);
      assert VariationsOf(rows) == StoreSection(VariationsOf(init), last);
      if HasKey(last, key) {
        assert WritesFor(rows, key) == WritesFor(init, key) + last.value.writes;
        ApplyConcat(start, WritesFor(init, key), last.value.writes);
      } else {
        assert WritesFor(rows, key) == WritesFor(init, key) + [] == WritesFor(init, key);
        assert last.None? || last.value.key != key;
        assert StoreSection(VariationsOf(init), last)[key] == VariationsOf(init)[key];
      }
    }
  }

  /** Without a kept row for a key the key is not in the map. */
  lemma {:induction false} VariationsWithout(rows: seq<Option<SectionRow>>, key: string)
    requires forall l :: 0 <= l < |rows| ==> !HasKey(rows[l], key)
    ensures key !in VariationsOf(rows) && WritesFor(rows, key) == []
  {
    if |rows| > 0 {
      var init := rows[..|rows| - 1];
      assert forall l :: 0 <= l < |init| ==> init[l] == rows[l];
      VariationsWithout(init, key);
    }
  }

  /** A variation keeps its race and gender whatever is stored into it. */
  lemma {:induction false} ApplyKeepsIds(v: CharVariation, writes: seq<CellWrite>)
    ensures Apply(v, writes).raceId == v.raceId && Apply(v, writes).genderId == v.genderId
  {
    if |writes| > 0 {
      var w := writes[|writes| - 1];
      ApplyKeepsIds(v, writes[..|writes| - 1]);
      WithCellSpec(Apply(v, writes[..|writes| - 1]), w.region, w.variation, w.color, w.texture, w.region, w.variation, w.color);
    }
  }

  predicate Lands(w: CellWrite, r: Region, variation: int, color: int) {
    SameCell(w.region, w.variation, w.color, r, variation, color)
  }

  /** The last texture that lands in a cell is the one it holds. */
  lemma {:induction false} ApplyLastWrite(v: CharVariation, writes: seq<CellWrite>, r: Region, variation: int, color: int, j: int)
    requires 0 <= j < |writes| && Lands(writes[j], r, variation, color)
    requires forall l :: j < l < |writes| ==> !Lands(writes[l], r, variation, color)
    ensures Cell(Apply(v, writes), r, variation, color) == Some(writes[j].texture)
  {
    var init := writes[..|writes| - 1];
    var w := writes[|writes| - 1];
    WithCellSpec(Apply(v, init), w.region, w.variation, w.color, w.texture, r, variation, color);
    if j < |writes| - 1 {
      ApplyLastWrite(v, init, r, variation, color, j);
    }
  }

  /** A cell no texture lands in keeps what it held. */
  lemma {:induction false} ApplyUnwritten(v: CharVariation, writes: seq<CellWrite>, r: Region, variation: int, color: int)
    requires forall l :: 0 <= l < |writes| ==> !Lands(writes[l], r, variation, color)
    ensures Cell(Apply(v, writes), r, variation, color) == Cell(v, r, variation, color)
  {
    if |writes| > 0 {
      var init := writes[..|writes| - 1];
      var w := writes[|writes| - 1];
      WithCellSpec(Apply(v, init), w.region, w.variation, w.color, w.texture, r, variation, color);
      ApplyUnwritten(v, init, r, variation, color);
    }
  }

  /** `getAlphaModelMap` (`alpha`) or `getBetaModelMap` on what `DBC.Load`
      answered: a missing table throws on its `rowCount`. */
  function VariationsFrom(sheet: Option<Dbc.Sheet>, alpha: bool): Result<map<string, CharVariation>> {
    match sheet
    case None => Err(TypeError)
    case Some(t) => VariationTable(Dbc.Rows(if alpha then AlphaReader(t) else BetaReader(t), t.rowCount))
  }

  /** The loop of `getAlphaModelMap` and `getBetaModelMap`. */
  method ReadVariations(table: Dbc.Table?, alpha: bool) returns (r: Result<map<string, CharVariation>>)
    ensures r == VariationsFrom(Dbc.SheetOf(table), alpha)
  {
    if table == null {
      return Err(TypeError);
    }
    var t := table.Contents();
    r := VariationLoop(if alpha then AlphaReader(t) else BetaReader(t), t.rowCount);
  }

  /** `for (let i = 0; i < rowCount; i++)`, with the NPC rows skipped. */
  method VariationLoop(read: int -> Result<Option<SectionRow>>, rowCount: int) returns (r: Result<map<string, CharVariation>>)
    ensures r == VariationTable(Dbc.Rows(read, rowCount))
  {
    var m: map<string, CharVariation> := map[];
    ghost var rows: seq<Option<SectionRow>> := [];
    var i := 0;
    while i < rowCount
      invariant 0 <= i <= (if rowCount < 0 then 0 else rowCount)
      invariant Dbc.Rows(read, i) == Ok(rows) && m == VariationsOf(rows)
      decreases rowCount - i
    {
      var row := read(i);
      if row.Err? {
        Dbc.RowsErr(read, i, rowCount);
        return Err(row.error);
      }
      Dbc.RowsNext(read, i);
      m := StoreRow(m, row.value);
      rows := rows + [row.value];
      assert rows[..|rows| - 1] == rows[..|rows| - 1];
      i := i + 1;
    }
    assert Dbc.Rows(read, rowCount) == Dbc.Rows(read, i);
    return Ok(m);
  }

  /** One row of the loop: the entry is fetched or created, its textures are
      stored one by one, and it is put back. */
  method StoreRow(m: map<string, CharVariation>, row: Option<SectionRow>) returns (r: map<string, CharVariation>)
    ensures r == StoreSection(m, row)
  {
    if row.None? {
      return m;
    }
    var s := row.value;
    var entry := if s.key in m then m[s.key] else NewCharVariation(s.raceId, s.genderId);
    ghost var start := entry;
    for k := 0 to |s.writes|
      invariant entry == Apply(start, s.writes[..k])
    {
      var w := s.writes[k];
      assert s.writes[..k + 1][..k] == s.writes[..k];
      entry := WithCell(entry, w.region, w.variation, w.color, w.texture);
    }
    assert s.writes[..|s.writes|] == s.writes;
    return m[s.key := entry];
  }

  // ---------------------------------------------------------------------------
  // The manager

  class CharacterManager {
    var modelMap: map<string, CharVariation>
    var hairMap: GeosetMap
    var facialHairMap: GeosetMap
    var nakedByDefault: bool

    constructor()
      ensures modelMap == map[] && hairMap == map[] && facialHairMap == map[] && !nakedByDefault
    {
      modelMap := map[];
      hairMap := map[];
      facialHairMap := map[];
      nakedByDefault := false;
    }

    /** `getModelMap`: CharTextureVariationsV2 when the archives list it, with
        nakedByDefault false; CharSections otherwise, with nakedByDefault true.
        The flag is set before the table is read. */
    method GetModelMap(v2Exists: bool, variationsV2: Dbc.Table?, sections: Dbc.Table?)
      returns (r: Result<map<string, CharVariation>>)
      modifies this
      ensures nakedByDefault == !v2Exists
      ensures modelMap == old(modelMap) && hairMap == old(hairMap) && facialHairMap == old(facialHairMap)
      ensures r == if v2Exists then VariationsFrom(Dbc.SheetOf(variationsV2), true) else VariationsFrom(Dbc.SheetOf(sections), false)
    {
      if v2Exists {
        nakedByDefault := false;
        r := ReadVariations(variationsV2, true);
      } else {
        nakedByDefault := true;
        r := ReadVariations(sections, false);
      }
    }

    /** `load`: the model map, the hair map, then the facial hair map; a table
        that throws leaves the maps after it as they were. */
    method Load(v2Exists: bool, variationsV2: Dbc.Table?, sections: Dbc.Table?,
                hairGeosets: Dbc.Table?, facialHairStyles: Dbc.Table?) returns (r: Result<()>)
      modifies this
      ensures nakedByDefault == !v2Exists
      ensures var models := if v2Exists then VariationsFrom(Dbc.SheetOf(variationsV2), true) else VariationsFrom(Dbc.SheetOf(sections), false);
        var hair := GeosetsFrom(Dbc.SheetOf(hairGeosets), false);
        var facial := GeosetsFrom(Dbc.SheetOf(facialHairStyles), true);
        && modelMap == (if models.Ok? then models.value else old(modelMap))
        && hairMap == (if models.Ok? && hair.Ok? then hair.value else old(hairMap))
        && facialHairMap == (if models.Ok? && hair.Ok? && facial.Ok? then facial.value else old(facialHairMap))
        && r == (if models.Err? then Err(models.error)
                 else if hair.Err? then Err(hair.error)
                 else if facial.Err? then Err(facial.error)
                 else Ok(()))
    {
      var models := GetModelMap(v2Exists, variationsV2, sections);
      if models.Err? {
        return Err(models.error);
      }
      modelMap := models.value;
      var hair := ReadGeosets(hairGeosets, false);
      if hair.Err? {
        return Err(hair.error);
      }
      hairMap := hair.value;
      var facial := ReadGeosets(facialHairStyles, true);
      if facial.Err? {
        return Err(facial.error);
      }
      facialHairMap := facial.value;
      return Ok(());
    }

    /** `exists`: the normalised name is a key of the model map. */
    function Exists(filename: string): bool
      reads this
    {
      NormalizePath(filename) in modelMap
    }

    /** `getHairGeosets`. */
    function HairGeosets(model: string, hairStyle: int): Option<seq<int>>
      reads this
    {
      GeosetsFor(hairMap, model, hairStyle)
    }

    /** `getFacialHairGeosets`. */
    function FacialHairGeosets(model: string, facialHairStyle: int): Option<seq<int>>
      reads this
    {
      GeosetsFor(facialHairMap, model, facialHairStyle)
    }
  }
}
