/** The creature texture manager: which creature display rows use a model,
    and the monster skin variations those rows give it. */
module Creatures {
  import opened Results
  import opened Text
  import opened ManagerConsts
  import Dbc

  const Mdl := ".MDL"
  const Mdx := ".MDX"
  const BlpExtension := ".blp"
  /** Character models are served by the character manager. */
  const CharacterPrefix := "CHARACTER"
  /** Columns 6, 7 and 8 name the three monster skins. */
  const SkinColumns := 3

  // ---------------------------------------------------------------------------
  // Model names

  /** `normalizePath`: upper-cased, the first ".MDL" replaced by ".MDX". */
  function NormalizePath(filename: string): string {
    ReplaceFirst(ToUpper(filename), Mdl, Mdx)
  }

  /** Upper-casing the file name first changes nothing. */
  lemma NormalizePathCase(filename: string)
    ensures NormalizePath(ToUpper(filename)) == NormalizePath(filename)
  {
    ToUpperIdempotent(filename);
  }

  /** A ".mdl" model is looked up under its ".MDX" name. */
  lemma NormalizePathMdl(stem: string)
    requires '.' !in stem
    ensures NormalizePath(stem + ".mdl") == ToUpper(stem) + Mdx
  {
    ReplaceAfterStem(stem, ".mdl", Mdl, Mdx);
  }

  /** An ".mdx" model keeps its name, so both spellings of a model name the
      same entry. */
  lemma NormalizePathMdx(stem: string)
    requires '.' !in stem
    ensures NormalizePath(stem + ".mdx") == ToUpper(stem) + Mdx
  {
    var s := ToUpper(stem + ".mdx");
    ToUpperAppend(stem, ".mdx");
    assert s == ToUpper(stem) + Mdx;
    forall k | 0 <= k ensures !OccursAt(s, Mdl, k) {
      if k < |stem| {
        assert s[k] == UpperAscii(stem[k]);
        assert stem[k] in stem;
      } else if k == |stem| && k + 4 <= |s| {
        assert s[k + 3] == 'X';
      }
    }
    ReplaceFirstAbsent(s, Mdl, Mdx);
  }

  // ---------------------------------------------------------------------------
  // The model map, from the creature model table

  /** Row i of `getModelMap`: the normalised model path in column 2 maps to
      the id in column 0, unless it is a character model. */
  function ModelRow(t: Dbc.Sheet, i: int): Result<seq<IdAdd>> {
    var name :- t.String(i, 2);
    var model := NormalizePath(name);
    if StartsWith(model, CharacterPrefix) then Ok([])
    else
      var id :- t.Int(i, 0);
      Ok([IdAdd(model, id)])
  }

  function ModelReader(t: Dbc.Sheet): int -> Result<seq<IdAdd>> {
    i => ModelRow(t, i)
  }

  /** `getModelMap` on what `DBC.Load` answered for the model table; null
      throws at `rowCount`. */
  function ModelMapFrom(sheet: Option<Dbc.Sheet>): Result<IdMap> {
    if sheet.None? then Err(TypeError)
    else IdTable(Dbc.Rows(ModelReader(sheet.value), sheet.value.rowCount))
  }

  /** Every row of a non-character model maps its model to its id. */
  lemma ModelMapHas(t: Dbc.Sheet, i: int)
    requires ModelMapFrom(Some(t)).Ok? && 0 <= i < t.rowCount
    requires t.String(i, 2).Ok? && !StartsWith(NormalizePath(t.String(i, 2).value), CharacterPrefix)
    ensures t.Int(i, 0).Ok?
    ensures var model := NormalizePath(t.String(i, 2).value);
      model in ModelMapFrom(Some(t)).value && t.Int(i, 0).value in ModelMapFrom(Some(t)).value[model]
  {
    var read := ModelReader(t);
    Dbc.RowsAt(read, t.rowCount, i);
    assert read(i) == ModelRow(t, i);
    var a := IdAdd(NormalizePath(t.String(i, 2).value), t.Int(i, 0).value);
    assert ModelRow(t, i).value == [a];
    TableHas(read, t.rowCount, i, a);
  }

  /** No character model is in the map. */
  lemma NoCharacterModels(t: Dbc.Sheet, model: string)
    requires ModelMapFrom(Some(t)).Ok? && model in ModelMapFrom(Some(t)).value
    ensures !StartsWith(model, CharacterPrefix)
  {
    var read := ModelReader(t);
    TableKeys(read, t.rowCount, model);
    var i, a :| 0 <= i < t.rowCount && read(i).Ok? && a in read(i).value && a.model == model;
    assert read(i) == ModelRow(t, i);
    ModelRowFrom(t, i, a);
  }

  lemma ModelRowFrom(t: Dbc.Sheet, i: int, a: IdAdd)
    requires ModelRow(t, i).Ok? && a in ModelRow(t, i).value
    ensures !StartsWith(a.model, CharacterPrefix)
  {
  }

  // ---------------------------------------------------------------------------
  // Texture variations

  function Lookup(m: IdMap, model: string): Option<set<int>> {
    if model in m then Some(m[model]) else None
  }

  /** Monster skin j of row i: column 6 + j. */
  function SkinName(t: Dbc.Sheet, i: int, j: int): Result<string> {
    t.String(i, 6 + j)
  }

  /** The three monster skin columns of row i, as read. */
  function SkinNames(t: Dbc.Sheet, i: int): (r: seq<Result<string>>)
    ensures |r| == SkinColumns
  {
    seq(SkinColumns, j => SkinName(t, i, j))
  }

  /** The first n skins of a row on a fresh variation: skin j, when named,
      goes to slot `Monster1 + j`; the first column that throws throws. */
  function MonsterSlots(names: seq<Result<string>>, directory: string, n: nat): Result<Slots>
    requires n <= |names|
  {
    if n == 0 then Ok(Holes(SlotCount))
    else
      var prev :- MonsterSlots(names, directory, n - 1);
      var texture :- names[n - 1];
      Ok(if |texture| > 0 then Slotted(prev, Monster1 + n - 1, JoinPath(directory, texture + BlpExtension)) else prev)
  }

  /** What skin j puts in its slot: its path when it is named. */
  function SkinPath(names: seq<Result<string>>, directory: string, j: nat): Option<string>
    requires j < |names|
  {
    match names[j]
    case Ok(texture) => if |texture| > 0 then Some(JoinPath(directory, texture + BlpExtension)) else None
    case Err(_) => None
  }

  /** Slot `Monster1 + j` holds skin j's path when it is named; every other
      slot is unset. */
  lemma {:induction false} MonsterSlotsAt(names: seq<Result<string>>, directory: string, n: nat, k: nat)
    requires n <= |names| && MonsterSlots(names, directory, n).Ok?
    ensures SlotAt(MonsterSlots(names, directory, n).value, k)
      == if Monster1 <= k < Monster1 + n then SkinPath(names, directory, k - Monster1) else None
  {
    if n > 0 {
      MonsterSlotsAt(names, directory, n - 1, k);
      MonsterSlotsStep(names, directory, n, k);
    }
  }

  /** One more column changes at most its own slot. */
  lemma MonsterSlotsStep(names: seq<Result<string>>, directory: string, n: nat, k: nat)
    requires 0 < n <= |names| && MonsterSlots(names, directory, n).Ok?
    ensures MonsterSlots(names, directory, n - 1).Ok?
    ensures SlotAt(MonsterSlots(names, directory, n).value, k)
      == if k == Monster1 + n - 1 && SkinPath(names, directory, n - 1).Some? then SkinPath(names, directory, n - 1)
         else SlotAt(MonsterSlots(names, directory, n - 1).value, k)
  {
    var prev := MonsterSlots(names, directory, n - 1).value;
    var texture := names[n - 1].value;
    SlottedGet(prev, Monster1 + n - 1, JoinPath(directory, texture + BlpExtension), k);
  }

  /** The skins never grow the slot array, and every column read succeeded. */
  lemma {:induction false} MonsterSlotsShape(names: seq<Result<string>>, directory: string, n: nat, j: int)
    requires n <= |names| && n <= SkinColumns && MonsterSlots(names, directory, n).Ok?
    ensures |MonsterSlots(names, directory, n).value| == SlotCount
    ensures 0 <= j < n ==> names[j].Ok?
  {
    if n > 0 {
      MonsterSlotsShape(names, directory, n - 1, j);
    }
  }

  /** A column that throws makes the whole row throw. */
  lemma {:induction false} MonsterSlotsErr(names: seq<Result<string>>, directory: string, j: nat, n: nat)
    requires j < n <= |names| && MonsterSlots(names, directory, j).Ok? && names[j].Err?
    ensures MonsterSlots(names, directory, n) == Err(names[j].error)
  {
    if n > j + 1 {
      MonsterSlotsErr(names, directory, j, n - 1);
    }
  }

  /** Row i of `getTextures`: `modelIds.has` throws when the model is unknown;
      a row of another model (column 1) gives nothing; otherwise its three
      skins. */
  function TextureRow(t: Dbc.Sheet, ids: Option<set<int>>, directory: string, i: int): Result<Option<Slots>> {
    if ids.None? then Err(TypeError)
    else
      var id :- t.Int(i, 1);
      if id !in ids.value then Ok(None)
      else
        var slots :- MonsterSlots(SkinNames(t, i), directory, SkinColumns);
        Ok(Some(slots))
  }

  function TextureReader(t: Dbc.Sheet, ids: Option<set<int>>, directory: string): int -> Result<Option<Slots>> {
    i => TextureRow(t, ids, directory, i)
  }

  /** `getTextures(model)` on the display table and the model map. */
  function TexturesFrom(sheet: Option<Dbc.Sheet>, modelMap: IdMap, modelFilename: string): Result<seq<Slots>> {
    if sheet.None? then Err(TypeError)
    else
      var read := TextureReader(sheet.value, Lookup(modelMap, NormalizePath(modelFilename)), DirName(modelFilename));
      Collected(Dbc.Rows(read, sheet.value.rowCount))
  }

  /** A model the map does not know throws as soon as there is a row. */
  lemma UnknownModelThrows(t: Dbc.Sheet, modelMap: IdMap, modelFilename: string)
    requires NormalizePath(modelFilename) !in modelMap && t.rowCount > 0
    ensures TexturesFrom(Some(t), modelMap, modelFilename) == Err(TypeError)
  {
    var read := TextureReader(t, None, DirName(modelFilename));
    Dbc.RowsErr(read, 0, t.rowCount);
  }

  /** Every variation returned holds the three skins of a display row of one
      of the model's ids. */
  lemma TexturesFromRows(t: Dbc.Sheet, modelMap: IdMap, modelFilename: string, k: int)
    requires TexturesFrom(Some(t), modelMap, modelFilename).Ok?
    requires 0 <= k < |TexturesFrom(Some(t), modelMap, modelFilename).value|
    ensures var model := NormalizePath(modelFilename);
      model in modelMap
      && exists i :: (0 <= i < t.rowCount && t.Int(i, 1).Ok? && t.Int(i, 1).value in modelMap[model]
        && MonsterSlots(SkinNames(t, i), DirName(modelFilename), SkinColumns)
          == Ok(TexturesFrom(Some(t), modelMap, modelFilename).value[k]))
  {
    var ids := Lookup(modelMap, NormalizePath(modelFilename));
    var directory := DirName(modelFilename);
    var read := TextureReader(t, ids, directory);
    var rows := Dbc.Rows(read, t.rowCount).value;
    GatheredFrom(rows, k);
    var v := Gathered(rows)[k];
    var i :| 0 <= i < |rows| && rows[i] == Some(v);
    Dbc.RowsLength(read, t.rowCount);
    Dbc.RowsAt(read, t.rowCount, i);
    assert read(i) == TextureRow(t, ids, directory, i);
  }

  // ---------------------------------------------------------------------------
  // The manager

  /** `CreatureManager`. */
  class CreatureManager {
    var creatureDisplayInfo: Dbc.Table?
    var modelMap: IdMap

    constructor()
      ensures creatureDisplayInfo == null && modelMap == map[]
    {
      creatureDisplayInfo := null;
      modelMap := map[];
    }

    /** `load`, given what `DBC.Load` answered for the display table and for
        the model table `getModelMap` loads. */
    method Load(displayInfo: Dbc.Table?, modelData: Dbc.Table?) returns (r: Result<()>)
      modifies this
      ensures creatureDisplayInfo == displayInfo
      ensures var ids := ModelMapFrom(Dbc.SheetOf(modelData));
        r == (if ids.Ok? then Ok(()) else Err(ids.error))
        && modelMap == (if ids.Ok? then ids.value else old(modelMap))
    {
      creatureDisplayInfo := displayInfo;
      if modelData == null {
        return Err(TypeError);
      }
      var t := modelData.Contents();
      var ids := IdLoop(ModelReader(t), t.rowCount);
      if ids.Err? {
        return Err(ids.error);
      }
      modelMap := ids.value;
      return Ok(());
    }

    /** `exists`. */
    function Exists(filename: string): bool
      reads this
    {
      NormalizePath(filename) in modelMap
    }

    /** `getTextures(model)`, given the model's file name. */
    method GetTextures(modelFilename: string) returns (r: Result<seq<TextureVariation>>)
      ensures var spec := TexturesFrom(Dbc.SheetOf(creatureDisplayInfo), modelMap, modelFilename);
        r.Ok? == spec.Ok? && (r.Err? ==> r.error == spec.error)
        && (r.Ok? ==> TexturesOf(r.value) == spec.value)
    {
      var filename := NormalizePath(modelFilename);
      var directory := DirName(modelFilename);
      var ids := Lookup(modelMap, filename);
      if creatureDisplayInfo == null {
        return Err(TypeError);
      }
      var t := creatureDisplayInfo.Contents();
      r := TextureLoop(t, ids, directory);
    }
  }

  /** The name lookup ignores case. */
  lemma ExistsCase(manager: CreatureManager, filename: string)
    ensures manager.Exists(ToUpper(filename)) == manager.Exists(filename)
  {
    NormalizePathCase(filename);
  }

  /** The loop of `getTextures` over the display rows. */
  method TextureLoop(t: Dbc.Sheet, ids: Option<set<int>>, directory: string)
    returns (r: Result<seq<TextureVariation>>)
    ensures var spec := Collected(Dbc.Rows(TextureReader(t, ids, directory), t.rowCount));
      r.Ok? == spec.Ok? && (r.Err? ==> r.error == spec.error)
      && (r.Ok? ==> TexturesOf(r.value) == spec.value)
  {
    var kept: seq<TextureVariation> := [];
    var keys: set<string> := {};
    ghost var rows: seq<Option<Slots>> := [];
    var i := 0;
    while i < t.rowCount
      invariant 0 <= i <= (if t.rowCount < 0 then 0 else t.rowCount)
      invariant Dbc.Rows(TextureReader(t, ids, directory), i) == Ok(rows)
      invariant TexturesOf(kept) == Gathered(rows) && keys == KeysOf(Gathered(rows))
      decreases t.rowCount - i
    {
      var step := Absorb(t, ids, directory, i, kept, keys, Gathered(rows));
      if step.Err? {
        TextureRowsErr(t, ids, directory, i, rows);
        return Err(step.error);
      }
      ghost var row := TextureRow(t, ids, directory, i).value;
      TextureRowsNext(t, ids, directory, i, rows);
      kept, keys := step.value.0, step.value.1;
      rows := rows + [row];
      i := i + 1;
    }
    TextureRowsDone(t, ids, directory, i);
    return Ok(kept);
  }

  /** One turn of the loop: the entry of row i, kept when its key is new. */
  method Absorb(t: Dbc.Sheet, ids: Option<set<int>>, directory: string, i: int,
                kept: seq<TextureVariation>, keys: set<string>, ghost g: seq<Slots>)
    returns (r: Result<(seq<TextureVariation>, set<string>)>)
    requires TexturesOf(kept) == g && keys == KeysOf(g)
    ensures var row := TextureRow(t, ids, directory, i);
      (r.Err? <==> row.Err?) && (r.Err? ==> r.error == row.error)
      && (r.Ok? ==> TexturesOf(r.value.0) == Keep(g, row.value) && r.value.1 == KeysOf(Keep(g, row.value)))
  {
    var entry := NewEntry(t, ids, directory, i);
    if entry.Err? {
      return Err(entry.error);
    }
    if entry.value.Some? {
      var kept', keys' := Collect(kept, keys, entry.value.value, g);
      return Ok((kept', keys'));
    }
    return Ok((kept, keys));
  }

  /** Row i read: the rows read grow by it, and the variations kept by its entry. */
  lemma TextureRowsNext(t: Dbc.Sheet, ids: Option<set<int>>, directory: string, i: int, rows: seq<Option<Slots>>)
    requires 0 <= i && Dbc.Rows(TextureReader(t, ids, directory), i) == Ok(rows)
    requires TextureRow(t, ids, directory, i).Ok?
    ensures var row := TextureRow(t, ids, directory, i).value;
      Dbc.Rows(TextureReader(t, ids, directory), i + 1) == Ok(rows + [row])
      && Gathered(rows + [row]) == Keep(Gathered(rows), row)
  {
    var read := TextureReader(t, ids, directory);
    assert read(i) == TextureRow(t, ids, directory, i);
    Dbc.RowsNext(read, i);
    GatheredNext(rows, read(i).value);
  }

  /** Row i throws: so does the whole loop. */
  lemma TextureRowsErr(t: Dbc.Sheet, ids: Option<set<int>>, directory: string, i: int, rows: seq<Option<Slots>>)
    requires 0 <= i < t.rowCount && Dbc.Rows(TextureReader(t, ids, directory), i) == Ok(rows)
    requires TextureRow(t, ids, directory, i).Err?
    ensures Dbc.Rows(TextureReader(t, ids, directory), t.rowCount) == Err(TextureRow(t, ids, directory, i).error)
  {
    var read := TextureReader(t, ids, directory);
    assert read(i) == TextureRow(t, ids, directory, i);
    Dbc.RowsErr(read, i, t.rowCount);
  }

  /** The loop ends after every row, or at once when the count is not positive. */
  lemma TextureRowsDone(t: Dbc.Sheet, ids: Option<set<int>>, directory: string, i: int)
    requires i == (if t.rowCount < 0 then 0 else t.rowCount)
    ensures Dbc.Rows(TextureReader(t, ids, directory), t.rowCount) == Dbc.Rows(TextureReader(t, ids, directory), i)
  {
  }

  /** The body of the loop for row i: the new variation, if the row is one of
      the model's, with each named skin set in turn. */
  method NewEntry(t: Dbc.Sheet, ids: Option<set<int>>, directory: string, i: int)
    returns (r: Result<Option<TextureVariation>>)
    ensures EntrySlots(r) == TextureRow(t, ids, directory, i)
    ensures r.Ok? && r.value.Some? ==> fresh(r.value.value)
  {
    if ids.None? {
      return Err(TypeError);
    }
    var id :- t.Int(i, 1);
    if id !in ids.value {
      return Ok(None);
    }
    var entry := new TextureVariation();
    ghost var names := SkinNames(t, i);
    for j := 0 to SkinColumns
      invariant MonsterSlots(names, directory, j) == Ok(entry.textures)
    {
      var texture := t.String(i, 6 + j);
      assert texture == names[j];
      if texture.Err? {
        MonsterSlotsErr(names, directory, j, SkinColumns);
        return Err(texture.error);
      }
      if |texture.value| > 0 {
        entry.Set(Monster1 + j, JoinPath(directory, texture.value + BlpExtension));
      }
    }
    return Ok(Some(entry));
  }
}
