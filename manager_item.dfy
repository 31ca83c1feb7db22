/** The item texture manager: which item display rows use a model, and the
    texture variations those rows give it. */
module Items {
  import opened Results
  import opened Text
  import opened ManagerConsts
  import Dbc

  /** Race and gender suffixes an item model name may end with. */
  const Suffices: seq<string> := [
    "DWF", "DWM", "GNF", "GNM", "HUF", "HUM",
    "NIF", "NIM", "ORF", "ORM", "SCF", "SCM",
    "TAF", "TAM", "TRF", "TRM"
  ]

  const Mdx := ".MDX"
  const BlpExtension := ".blp"

  // ---------------------------------------------------------------------------
  // Model names

  /** A race (two letters) and a gender (F or M): one of `Suffices`. */
  predicate IsSuffix(s: string) {
    |s| == 3
    && ((s[0] == 'D' && s[1] == 'W') || (s[0] == 'G' && s[1] == 'N') || (s[0] == 'H' && s[1] == 'U')
      || (s[0] == 'N' && s[1] == 'I') || (s[0] == 'O' && s[1] == 'R') || (s[0] == 'S' && s[1] == 'C')
      || (s[0] == 'T' && s[1] == 'A') || (s[0] == 'T' && s[1] == 'R'))
    && (s[2] == 'F' || s[2] == 'M')
  }

  lemma IsSuffixSpec(s: string)
    ensures IsSuffix(s) <==> s in Suffices
  {
    if IsSuffix(s) {
      assert s == [s[0], s[1], s[2]];
    }
  }

  /** The name without its suffix, when the text after its last '_' is one. */
  function StripSuffix(name: string): string {
    var suffix := LastPart(name, '_');
    if IsSuffix(suffix) then Head(name, |name| - |suffix| - 1) else name
  }

  /** `normalize`: the parsed name, upper-cased, without a trailing
      `_<race><gender>` suffix, with ".MDX" appended. */
  function Normalize(filename: string): string {
    ToUpper(StripSuffix(ToUpper(ParseName(filename)))) + Mdx
  }

  /** The result is upper case and ends in ".MDX". */
  lemma NormalizeShape(filename: string)
    ensures EndsWith(Normalize(filename), Mdx)
    ensures ToUpper(Normalize(filename)) == Normalize(filename)
  {
    UpperTail(StripSuffix(ToUpper(ParseName(filename))));
  }

  lemma UpperTail(x: string)
    ensures EndsWith(ToUpper(x) + Mdx, Mdx) && ToUpper(ToUpper(x) + Mdx) == ToUpper(x) + Mdx
  {
    ToUpperAppend(ToUpper(x), Mdx);
    ToUpperIdempotent(x);
    ToUpperFixed(Mdx);
  }

  /** A suffix is upper case and holds no '_', '.' or separator. */
  lemma SuffixPlain(suffix: string)
    requires IsSuffix(suffix)
    ensures ToUpper(suffix) == suffix
    ensures forall k :: 0 <= k < |suffix| ==> suffix[k] != '_' && suffix[k] != '.' && !IsSeparator(suffix[k])
  {
    ToUpperFixed(suffix);
  }

  /** A race-gender suffix is dropped: "Helm_HuM" and "HELM" name the same
      model. */
  lemma NormalizeStripsSuffix(stem: string, suffix: string)
    requires IsSuffix(suffix)
    requires forall k :: 0 <= k < |stem| ==> stem[k] != '.' && !IsSeparator(stem[k])
    ensures Normalize(stem + "_" + suffix) == ToUpper(stem) + Mdx
  {
    SuffixPlain(suffix);
    var s := stem + "_" + suffix;
    forall k | 0 <= k < |s| ensures s[k] != '.' && !IsSeparator(s[k]) {
      if k < |stem| {
        assert s[k] == stem[k];
      } else if k > |stem| {
        assert s[k] == suffix[k - |stem| - 1];
      }
    }
    ParseNamePlain(s);
    UpperJoin(stem, suffix);
    StripAfter(ToUpper(stem), suffix);
    ToUpperIdempotent(stem);
  }

  lemma StripAfter(prefix: string, suffix: string)
    requires IsSuffix(suffix)
    ensures StripSuffix(prefix + ['_'] + suffix) == prefix
  {
    SuffixPlain(suffix);
    assert '_' !in suffix;
    LastPartAfter(prefix, '_', suffix);
    assert (prefix + ['_'] + suffix)[..|prefix|] == prefix;
  }

  lemma StripBare(suffix: string)
    requires IsSuffix(suffix)
    ensures StripSuffix(suffix) == ""
  {
    SuffixPlain(suffix);
    assert '_' !in suffix;
    LastPartNone(suffix, '_');
  }

  lemma UpperJoin(stem: string, suffix: string)
    requires ToUpper(suffix) == suffix
    ensures ToUpper(stem + "_" + suffix) == ToUpper(stem) + ['_'] + suffix
  {
    ToUpperAppend(stem + "_", suffix);
    ToUpperAppend(stem, "_");
  }

  /** A bare suffix leaves nothing: `substr` with a negative length is "". */
  lemma NormalizeBareSuffix(suffix: string)
    requires IsSuffix(suffix)
    ensures Normalize(suffix) == Mdx
  {
    SuffixPlain(suffix);
    ParseNamePlain(suffix);
    StripBare(suffix);
  }

  /** Upper-casing the file name first changes nothing. */
  lemma NormalizeCase(filename: string)
    ensures Normalize(ToUpper(filename)) == Normalize(filename)
  {
    ParseNameUpper(filename);
    ToUpperIdempotent(ParseName(filename));
  }

  // ---------------------------------------------------------------------------
  // The model map

  /** Model name j of row i: column 1 holds the left model, column 2 the
      right one. */
  function ModelName(t: Dbc.Sheet, i: int, j: int): Result<string> {
    t.String(i, 1 + j)
  }

  /** Model name j of row i: an id for its normalised name, or nothing when
      the name is "". */
  function NameAdd(t: Dbc.Sheet, i: int, j: int): Result<seq<IdAdd>> {
    var name :- ModelName(t, i, j);
    if |name| == 0 then Ok([])
    else
      var id :- t.Int(i, 0);
      Ok([IdAdd(Normalize(name), id)])
  }

  /** Row i of `getModelMap`: the left model name, then the right one. */
  function ModelRow(t: Dbc.Sheet, i: int): Result<seq<IdAdd>> {
    var left :- NameAdd(t, i, 0);
    var right :- NameAdd(t, i, 1);
    Ok(left + right)
  }

  function ModelReader(t: Dbc.Sheet): int -> Result<seq<IdAdd>> {
    i => ModelRow(t, i)
  }

  /** `getModelMap` on what `DBC.Load` answered; null throws at `rowCount`. */
  function ModelMapFrom(sheet: Option<Dbc.Sheet>): Result<IdMap> {
    if sheet.None? then Err(TypeError)
    else IdTable(Dbc.Rows(ModelReader(sheet.value), sheet.value.rowCount))
  }

  /** Every non-empty model name of every row maps to that row's id. */
  lemma ModelMapHas(t: Dbc.Sheet, i: int, j: int)
    requires ModelMapFrom(Some(t)).Ok? && 0 <= i < t.rowCount && 0 <= j < 2
    requires ModelName(t, i, j).Ok? && |ModelName(t, i, j).value| > 0
    ensures t.Int(i, 0).Ok?
    ensures var model := Normalize(ModelName(t, i, j).value);
      model in ModelMapFrom(Some(t)).value && t.Int(i, 0).value in ModelMapFrom(Some(t)).value[model]
  {
    var read := ModelReader(t);
    Dbc.RowsAt(read, t.rowCount, i);
    assert read(i) == ModelRow(t, i);
    RowHas(t, i, j);
    var a := IdAdd(Normalize(ModelName(t, i, j).value), t.Int(i, 0).value);
    TableHas(read, t.rowCount, i, a);
  }

  /** Row i yields the id of each non-empty name it holds. */
  lemma RowHas(t: Dbc.Sheet, i: int, j: int)
    requires ModelRow(t, i).Ok? && 0 <= j < 2
    requires ModelName(t, i, j).Ok? && |ModelName(t, i, j).value| > 0
    ensures t.Int(i, 0).Ok?
    ensures IdAdd(Normalize(ModelName(t, i, j).value), t.Int(i, 0).value) in ModelRow(t, i).value
  {
    var left := NameAdd(t, i, 0).value;
    var right := NameAdd(t, i, 1).value;
    assert ModelRow(t, i).value == left + right;
    NameAddShape(t, i, j);
    assert NameAdd(t, i, j).value == left || NameAdd(t, i, j).value == right;
  }

  lemma NameAddShape(t: Dbc.Sheet, i: int, j: int)
    requires NameAdd(t, i, j).Ok? && ModelName(t, i, j).Ok? && |ModelName(t, i, j).value| > 0
    ensures t.Int(i, 0).Ok?
    ensures NameAdd(t, i, j).value == [IdAdd(Normalize(ModelName(t, i, j).value), t.Int(i, 0).value)]
  {
  }

  /** Every model in the map is the normalised name in a model column of
      some row. */
  lemma ModelMapKeys(t: Dbc.Sheet, model: string)
    requires ModelMapFrom(Some(t)).Ok? && model in ModelMapFrom(Some(t)).value
    ensures exists i, j :: (0 <= i < t.rowCount && 0 <= j < 2 && ModelName(t, i, j).Ok?
      && |ModelName(t, i, j).value| > 0 && Normalize(ModelName(t, i, j).value) == model)
  {
    var read := ModelReader(t);
    TableKeys(read, t.rowCount, model);
    var i, a :| 0 <= i < t.rowCount && read(i).Ok? && a in read(i).value && a.model == model;
    assert read(i) == ModelRow(t, i);
    var left := NameAdd(t, i, 0).value;
    var right := NameAdd(t, i, 1).value;
    assert ModelRow(t, i).value == left + right;
    if a in left {
      NameAddFrom(t, i, 0, a);
    } else {
      NameAddFrom(t, i, 1, a);
    }
  }

  lemma NameAddFrom(t: Dbc.Sheet, i: int, j: int, a: IdAdd)
    requires NameAdd(t, i, j).Ok? && a in NameAdd(t, i, j).value
    ensures ModelName(t, i, j).Ok? && |ModelName(t, i, j).value| > 0 && Normalize(ModelName(t, i, j).value) == a.model
  {
  }

  // ---------------------------------------------------------------------------
  // Texture variations

  function Lookup(m: IdMap, model: string): Option<set<int>> {
    if model in m then Some(m[model]) else None
  }

  /** A fresh variation with the object skin set when the texture is named. */
  function SkinSlots(directory: string, texture: string): Slots {
    if |texture| > 0 then Slotted(Holes(SlotCount), ObjectSkin, JoinPath(directory, texture + BlpExtension))
    else Holes(SlotCount)
  }

  /** Its key is the skin path upper-cased, or "" without a texture. */
  lemma SkinKey(directory: string, texture: string)
    ensures Key(SkinSlots(directory, texture))
      == if |texture| > 0 then ToUpper(JoinPath(directory, texture + BlpExtension)) else ""
  {
    if |texture| > 0 {
      KeyOfOne(SlotCount, ObjectSkin, JoinPath(directory, texture + BlpExtension));
    } else {
      JoinedUnset(SlotCount);
    }
  }

  /** Row i of `getTextures`: `modelIds.has` throws when the model is unknown;
      a row of another model gives nothing; otherwise the right texture
      (column 4) when the row's right model is this model, else the left
      (column 3). */
  function TextureRow(t: Dbc.Sheet, ids: Option<set<int>>, filename: string, directory: string, i: int)
    : Result<Option<Slots>>
  {
    if ids.None? then Err(TypeError)
    else
      var id :- t.Int(i, 0);
      if id !in ids.value then Ok(None)
      else
        var right :- t.String(i, 2);
        var texture :- t.String(i, if Normalize(right) == filename then 4 else 3);
        Ok(Some(SkinSlots(directory, texture)))
  }

  function TextureReader(t: Dbc.Sheet, ids: Option<set<int>>, filename: string, directory: string)
    : int -> Result<Option<Slots>>
  {
    i => TextureRow(t, ids, filename, directory, i)
  }

  /** `getTextures(model)` on the display table and the model map. */
  function TexturesFrom(sheet: Option<Dbc.Sheet>, modelMap: IdMap, modelFilename: string): Result<seq<Slots>> {
    if sheet.None? then Err(TypeError)
    else
      var filename := Normalize(modelFilename);
      var read := TextureReader(sheet.value, Lookup(modelMap, filename), filename, DirName(modelFilename));
      Collected(Dbc.Rows(read, sheet.value.rowCount))
  }

  /** A model the map does not know throws as soon as there is a row. */
  lemma UnknownModelThrows(t: Dbc.Sheet, modelMap: IdMap, modelFilename: string)
    requires Normalize(modelFilename) !in modelMap && t.rowCount > 0
    ensures TexturesFrom(Some(t), modelMap, modelFilename) == Err(TypeError)
  {
    var filename := Normalize(modelFilename);
    var read := TextureReader(t, None, filename, DirName(modelFilename));
    Dbc.RowsErr(read, 0, t.rowCount);
  }

  /** Every variation returned sets the object skin, and only it, to a
      texture of the model's directory. */
  lemma TexturesAreSkins(t: Dbc.Sheet, modelMap: IdMap, modelFilename: string, k: int)
    requires TexturesFrom(Some(t), modelMap, modelFilename).Ok?
    requires 0 <= k < |TexturesFrom(Some(t), modelMap, modelFilename).value|
    ensures exists texture :: (|texture| > 0
      && TexturesFrom(Some(t), modelMap, modelFilename).value[k] == SkinSlots(DirName(modelFilename), texture))
  {
    var filename := Normalize(modelFilename);
    var ids := Lookup(modelMap, filename);
    var directory := DirName(modelFilename);
    var read := TextureReader(t, ids, filename, directory);
    var rows := Dbc.Rows(read, t.rowCount).value;
    GatheredFrom(rows, k);
    var v := Gathered(rows)[k];
    var i :| 0 <= i < |rows| && rows[i] == Some(v);
    Dbc.RowsLength(read, t.rowCount);
    Dbc.RowsAt(read, t.rowCount, i);
    assert read(i) == TextureRow(t, ids, filename, directory, i);
    SkinRow(t, ids, filename, directory, i, v);
  }

  lemma SkinRow(t: Dbc.Sheet, ids: Option<set<int>>, filename: string, directory: string, i: int, v: Slots)
    requires TextureRow(t, ids, filename, directory, i) == Ok(Some(v)) && |Key(v)| > 0
    ensures exists texture :: |texture| > 0 && v == SkinSlots(directory, texture)
  {
    var right := t.String(i, 2).value;
    var texture := t.String(i, if Normalize(right) == filename then 4 else 3).value;
    assert v == SkinSlots(directory, texture);
    SkinKey(directory, texture);
  }

  // ---------------------------------------------------------------------------
  // The manager

  /** `ItemManager`. */
  class ItemManager {
    var itemDisplayInfo: Dbc.Table?
    var modelMap: IdMap

    constructor()
      ensures itemDisplayInfo == null && modelMap == map[]
    {
      itemDisplayInfo := null;
      modelMap := map[];
    }

    /** `load`, given what `DBC.Load` answered for the item display table. */
    method Load(table: Dbc.Table?) returns (r: Result<()>)
      modifies this
      ensures itemDisplayInfo == table
      ensures var ids := ModelMapFrom(Dbc.SheetOf(table));
        r == (if ids.Ok? then Ok(()) else Err(ids.error))
        && modelMap == (if ids.Ok? then ids.value else old(modelMap))
    {
      itemDisplayInfo := table;
      if table == null {
        return Err(TypeError);
      }
      var t := table.Contents();
      var ids := IdLoop(ModelReader(t), t.rowCount);
      if ids.Err? {
        return Err(ids.error);
      }
      modelMap := ids.value;
      return Ok(());
    }

    /** `exists`. */
    function Exists(filename: string): bool
      reads this
    {
      Normalize(filename) in modelMap
    }

    /** `getTextures(model)`, given the model's file name. */
    method GetTextures(modelFilename: string) returns (r: Result<seq<TextureVariation>>)
      ensures var spec := TexturesFrom(Dbc.SheetOf(itemDisplayInfo), modelMap, modelFilename);
        r.Ok? == spec.Ok? && (r.Err? ==> r.error == spec.error)
        && (r.Ok? ==> TexturesOf(r.value) == spec.value)
      {
      var filename := Normalize(modelFilename);
      var directory := DirName(modelFilename);
      var ids := Lookup(modelMap, filename);
      if itemDisplayInfo == null {
        return Err(TypeError);
      }
      var t := itemDisplayInfo.Contents();
      r := TextureLoop(t, ids, filename, directory);
    }
  }

  /** The name lookup ignores case. */
  lemma ExistsCase(manager: ItemManager, filename: string)
    ensures manager.Exists(ToUpper(filename)) == manager.Exists(filename)
  {
    NormalizeCase(filename);
  }

  /** The loop of `getTextures` over the display rows. */
  method TextureLoop(t: Dbc.Sheet, ids: Option<set<int>>, filename: string, directory: string)
    returns (r: Result<seq<TextureVariation>>)
    ensures var spec := Collected(Dbc.Rows(TextureReader(t, ids, filename, directory), t.rowCount));
      r.Ok? == spec.Ok? && (r.Err? ==> r.error == spec.error)
      && (r.Ok? ==> TexturesOf(r.value) == spec.value)
  {
    var kept: seq<TextureVariation> := [];
    var keys: set<string> := {};
    ghost var rows: seq<Option<Slots>> := [];
    var i := 0;
    while i < t.rowCount
      invariant 0 <= i <= (if t.rowCount < 0 then 0 else t.rowCount)
      invariant Dbc.Rows(TextureReader(t, ids, filename, directory), i) == Ok(rows)
      invariant TexturesOf(kept) == Gathered(rows) && keys == KeysOf(Gathered(rows))
      decreases t.rowCount - i
    {
      var step := Absorb(t, ids, filename, directory, i, kept, keys, Gathered(rows));
      if step.Err? {
        TextureRowsErr(t, ids, filename, directory, i, rows);
        return Err(step.error);
      }
      ghost var row := TextureRow(t, ids, filename, directory, i).value;
      TextureRowsNext(t, ids, filename, directory, i, rows);
      kept, keys := step.value.0, step.value.1;
      rows := rows + [row];
      i := i + 1;
    }
    TextureRowsDone(t, ids, filename, directory, i);
    return Ok(kept);
  }

  /** One turn of the loop: the entry of row i, kept when its key is new. */
  method Absorb(t: Dbc.Sheet, ids: Option<set<int>>, filename: string, directory: string, i: int,
                kept: seq<TextureVariation>, keys: set<string>, ghost g: seq<Slots>)
    returns (r: Result<(seq<TextureVariation>, set<string>)>)
    requires TexturesOf(kept) == g && keys == KeysOf(g)
    ensures var row := TextureRow(t, ids, filename, directory, i);
      (r.Err? <==> row.Err?) && (r.Err? ==> r.error == row.error)
      && (r.Ok? ==> TexturesOf(r.value.0) == Keep(g, row.value) && r.value.1 == KeysOf(Keep(g, row.value)))
  {
    var entry := NewEntry(t, ids, filename, directory, i);
    if entry.Err? {
      return Err(entry.error);
    }
    if entry.value.Some? {
      var kept', keys' := Collect(kept, keys, entry.value.value, g);
      return Ok((kept', keys'));
    }
    return Ok((kept, keys));
  }

  /** Row i read: the rows read grow by it, and the variations kept by its entry. */
  lemma TextureRowsNext(t: Dbc.Sheet, ids: Option<set<int>>, filename: string, directory: string, i: int, rows: seq<Option<Slots>>)
    requires 0 <= i && Dbc.Rows(TextureReader(t, ids, filename, directory), i) == Ok(rows)
    requires TextureRow(t, ids, filename, directory, i).Ok?
    ensures var row := TextureRow(t, ids, filename, directory, i).value;
      Dbc.Rows(TextureReader(t, ids, filename, directory), i + 1) == Ok(rows + [row])
      && Gathered(rows + [row]) == Keep(Gathered(rows), row)
  {
    var read := TextureReader(t, ids, filename, directory);
    assert read(i) == TextureRow(t, ids, filename, directory, i);
    Dbc.RowsNext(read, i);
    GatheredNext(rows, read(i).value);
  }

  /** Row i throws: so does the whole loop. */
  lemma TextureRowsErr(t: Dbc.Sheet, ids: Option<set<int>>, filename: string, directory: string, i: int, rows: seq<Option<Slots>>)
    requires 0 <= i < t.rowCount && Dbc.Rows(TextureReader(t, ids, filename, directory), i) == Ok(rows)
    requires TextureRow(t, ids, filename, directory, i).Err?
    ensures Dbc.Rows(TextureReader(t, ids, filename, directory), t.rowCount) == Err(TextureRow(t, ids, filename, directory, i).error)
  {
    var read := TextureReader(t, ids, filename, directory);
    assert read(i) == TextureRow(t, ids, filename, directory, i);
    Dbc.RowsErr(read, i, t.rowCount);
  }

  /** The loop ends after every row, or at once when the count is not positive. */
  lemma TextureRowsDone(t: Dbc.Sheet, ids: Option<set<int>>, filename: string, directory: string, i: int)
    requires i == (if t.rowCount < 0 then 0 else t.rowCount)
    ensures Dbc.Rows(TextureReader(t, ids, filename, directory), t.rowCount) == Dbc.Rows(TextureReader(t, ids, filename, directory), i)
  {
  }

  /** The body of the loop for row i: the new variation, if the row is one of
      the model's. */
  method NewEntry(t: Dbc.Sheet, ids: Option<set<int>>, filename: string, directory: string, i: int)
    returns (r: Result<Option<TextureVariation>>)
    ensures EntrySlots(r) == TextureRow(t, ids, filename, directory, i)
    ensures r.Ok? && r.value.Some? ==> fresh(r.value.value)
  {
    if ids.None? {
      return Err(TypeError);
    }
    var id :- t.Int(i, 0);
    if id !in ids.value {
      return Ok(None);
    }
    var entry := new TextureVariation();
    var right :- t.String(i, 2);
    var index := if Normalize(right) == filename then 1 else 0;
    var texture :- t.String(i, 3 + index);
    if |texture| > 0 {
      entry.Set(ObjectSkin, JoinPath(directory, texture + BlpExtension));
    }
    return Ok(Some(entry));
  }
}
