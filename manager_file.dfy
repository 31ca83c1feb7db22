/** The `FileManager` of src/managers/filemanager.ts: the game's `Data` directory,
    the names its archives list, a file looked up through the archives its
    extension calls for, and the tree of model names the viewer offers. The disk
    is a map from path to bytes; an archive is an `Mpq.MpqFile` over those bytes. */
module Files {
  import opened Results
  import opened Text
  import opened Bytes
  import opened MpqArchive
  import Mpq

  /** The name under which an archive lists its own files. */
  const ListFileName := "(listfile)"
  /** The archives of a `Data` directory, in the order their lists are read. */
  const Archives := ["dbc.MPQ", "texture.MPQ", "model.MPQ", "patch.MPQ"]
  const PatchName := "patch.MPQ"

  /** The bytes stored at `path`; a missing file reads as none. */
  function DiskBytes(disk: map<string, seq<byte>>, path: string): seq<byte> {
    if path in disk then disk[path] else []
  }

  // ---------------------------------------------------------------------------
  // The data directory and the archives a name is looked up in

  /** `setDirectory`: a directory whose name ends in "data" (any case) is taken as
      it is, any other gets `Data` joined to it. */
  function DataDirectory(d: string): string {
    if EndsWith(ToLower(d), "data") then d else JoinPath(d, "Data")
  }

  /** The directory chosen always ends in "data", so choosing again keeps it. */
  lemma DataDirectoryEnds(d: string)
    ensures EndsWith(ToLower(DataDirectory(d)), "data")
    ensures DataDirectory(DataDirectory(d)) == DataDirectory(d)
  {
    if !EndsWith(ToLower(d), "data") {
      var r := JoinPath(d, "Data");
      assert DataDirectory(d) == r;
      JoinPathInjective(d, "Data", "Data");
      LowerKeepsSuffix(r, "Data");
      LowerData();
    }
  }

  lemma LowerData()
    ensures ToLower("Data") == "data"
  {
    var u := ToLower("Data");
    assert u[0] == 'd' && u[1] == 'a' && u[2] == 't' && u[3] == 'a';
  }

  /** Lowering a string lowers its suffix. */
  lemma LowerKeepsSuffix(s: string, suffix: string)
    requires EndsWith(s, suffix)
    ensures EndsWith(ToLower(s), ToLower(suffix))
  {
    var n := |s| - |suffix|;
    var t := ToLower(s);
    var u := ToLower(suffix);
    forall k | 0 <= k < |u|
      ensures t[n..][k] == u[k]
    {
      assert s[n..][k] == suffix[k];
      assert t[n..][k] == t[n + k] == LowerAscii(s[n + k]);
    }
    assert t[n..] == u;
  }

  /** The archive of the `Data` directory that holds files of a (lower-case)
      extension. */
  function ArchiveFor(ext: string): Option<string> {
    if ext == ".dbc" then Some("dbc.MPQ")
    else if ext == ".blp" then Some("texture.MPQ")
    else if ext == ".mdx" then Some("model.MPQ")
    else None
  }

  /** `getArchives`: nothing for an empty name; otherwise the patch archive when
      there is one, then the archive of the name's extension. */
  function ArchivesFor(directory: string, patch: Option<string>, filename: string): seq<string> {
    if |filename| == 0 then []
    else
      var ext := ArchiveFor(ToLower(ExtName(filename)));
      (if patch.Some? then [patch.value] else [])
        + (if ext.Some? then [JoinPath(directory, ext.value)] else [])
  }

  /** The archives consulted are the patch (first) and the archive of the
      extension, no other and none twice. */
  lemma ArchivesForSpec(directory: string, patch: Option<string>, filename: string, p: string)
    requires patch.Some? ==> patch.value == JoinPath(directory, PatchName)
    ensures var r := ArchivesFor(directory, patch, filename);
      && (forall i, j :: 0 <= i < j < |r| ==> r[i] != r[j])
      && (|filename| > 0 && patch.Some? ==> r[0] == patch.value)
      && (p in r <==>
            (|filename| > 0 &&
             ((patch.Some? && p == patch.value)
              || (ArchiveFor(ToLower(ExtName(filename))).Some? &&
                  p == JoinPath(directory, ArchiveFor(ToLower(ExtName(filename))).value)))))
  {
    var ext := ArchiveFor(ToLower(ExtName(filename)));
    if ext.Some? {
      JoinPathInjective(directory, PatchName, ext.value);
    }
  }

  // ---------------------------------------------------------------------------
  // Reading a file through archives

  /** One archive as a look-up sees it: whether its file exists, its bytes, and the
      tables it has read (or will read on first use). */
  datatype Source = Source(present: bool, file: seq<byte>, loaded: Loaded)

  /** Tables as read: every block entry keeps 32-bit sizes. */
  type Loaded = t: Result<Tables> | t.Ok? ==> forall j :: 0 <= j < |t.value.blockTable| ==> Sizes(t.value.blockTable[j])
    witness Err(FormatError)

  /** `archive.exists(name)` and, when it holds, `archive.extract(name)`: None when
      the archive lacks the name, Some of what extraction gives otherwise (itself
      None for an entry that names no block). Opening a missing file throws. */
  function Probe(s: Source, codecs: Codecs, name: string): Result<Option<Option<seq<byte>>>>
  {
    if !s.present then Err(NoSuchFile)
    else
      var t :- s.loaded;
      var entry :- FileEntry(t, name);
      if entry.None? then Ok(None)
      else
        var x :- ExtractEntry(s.file, t, name, codecs);
        Ok(Some(x.data))
  }

  /** The tables an archive keeps after `Probe`: an extraction that reads sectors
      clears the Encrypted flag of its block entry; nothing else changes them. */
  function Advance(s: Source, codecs: Codecs, name: string): Loaded {
    if !s.present || s.loaded.Err? then s.loaded
    else
      var t := s.loaded.value;
      var entry := FileEntry(t, name);
      if entry.Err? || entry.value.None? then s.loaded
      else
        var x := ExtractEntry(s.file, t, name, codecs);
        if x.Err? then s.loaded else Ok(t.(blockTable := x.value.blockTable))
  }

  /** Asking an archive keeps what it has read, but for the flags of the block
      entry it extracts: the same outcome, header, hash table and number of block
      entries. */
  lemma AdvanceKeeps(s: Source, codecs: Codecs, name: string)
    ensures var l := Advance(s, codecs, name);
      && (s.loaded.Err? ==> l == s.loaded)
      && (s.loaded.Ok? ==>
            && l.Ok? && l.value.header == s.loaded.value.header
            && l.value.hashTable == s.loaded.value.hashTable
            && |l.value.blockTable| == |s.loaded.value.blockTable|)
  {
  }

  /** What asking one archive gives: an error, None when the archive lacks the
      name, or Some of what extraction gives. */
  type Answer = Result<Option<Option<seq<byte>>>>

  /** The loop of `getFile`: the archives answer in turn and each one holding the
      name replaces the result so far. */
  function Fetch(answers: seq<Answer>): Result<Option<seq<byte>>> {
    if |answers| == 0 then Ok(None)
    else
      var res :- Fetch(answers[..|answers| - 1]);
      var found :- answers[|answers| - 1];
      Ok(if found.Some? then found.value else res)
  }

  /** The result is what the last archive holding the name extracts. */
  lemma {:induction false} FetchLastHolder(answers: seq<Answer>, k: int)
    requires 0 <= k < |answers|
    requires forall j :: 0 <= j < |answers| ==> answers[j].Ok?
    requires answers[k].value.Some?
    requires forall j :: k < j < |answers| ==> answers[j].value.None?
    ensures Fetch(answers) == Ok(answers[k].value.value)
    decreases |answers|
  {
    var init := answers[..|answers| - 1];
    if k < |answers| - 1 {
      FetchLastHolder(init, k);
    } else {
      FetchOk(init);
    }
  }

  /** Archives that all answer give a result. */
  lemma {:induction false} FetchOk(answers: seq<Answer>)
    requires forall j :: 0 <= j < |answers| ==> answers[j].Ok?
    ensures Fetch(answers).Ok?
    decreases |answers|
  {
    if |answers| > 0 {
      FetchOk(answers[..|answers| - 1]);
    }
  }

  /** No archive holding the name gives null. */
  lemma {:induction false} FetchNone(answers: seq<Answer>)
    requires forall j :: 0 <= j < |answers| ==> answers[j] == Ok(None)
    ensures Fetch(answers) == Ok(None)
    decreases |answers|
  {
    if |answers| > 0 {
      FetchNone(answers[..|answers| - 1]);
    }
  }

  /** The first archive that throws ends the look-up with its error. */
  lemma {:induction false} FetchThrows(answers: seq<Answer>, k: int)
    requires 0 <= k < |answers|
    requires forall j :: 0 <= j < k ==> answers[j].Ok?
    requires answers[k].Err?
    ensures Fetch(answers) == Err(answers[k].error)
    decreases |answers|
  {
    var init := answers[..|answers| - 1];
    if k < |answers| - 1 {
      FetchThrows(init, k);
    } else {
      FetchOk(init);
    }
  }

  /** One more archive answering: its error ends the look-up, and its data (if
      any) replaces the result so far. */
  lemma FetchStep(answers: seq<Answer>, i: int, res: Option<seq<byte>>)
    requires 0 <= i < |answers| && Fetch(answers[..i]) == Ok(res)
    ensures answers[i].Err? ==> Fetch(answers) == Err(answers[i].error)
    ensures answers[i].Ok? ==>
      Fetch(answers[..i + 1]) == Ok(if answers[i].value.Some? then answers[i].value.value else res)
  {
    assert answers[..i + 1][..i] == answers[..i];
    if answers[i].Err? {
      FetchPrefixErr(answers, i + 1);
      assert answers == answers[..|answers|];
    }
  }

  /** An error part way through is the error of the whole look-up. */
  lemma {:induction false} FetchPrefixErr(answers: seq<Answer>, i: int)
    requires 0 <= i <= |answers| && Fetch(answers[..i]).Err?
    ensures Fetch(answers) == Fetch(answers[..i])
    decreases |answers|
  {
    if i < |answers| {
      var init := answers[..|answers| - 1];
      assert init[..i] == answers[..i];
      FetchPrefixErr(init, i);
    } else {
      assert answers[..i] == answers;
    }
  }

  /** The cache after the archives at `keys` stored `vals`, one after another. */
  function Updates(m: map<string, Loaded>, keys: seq<string>, vals: seq<Loaded>): (r: map<string, Loaded>)
    requires |keys| == |vals|
    ensures forall p :: p in keys ==> p in r
    decreases |keys|
  {
    if |keys| == 0 then m
    else Updates(m, keys[..|keys| - 1], vals[..|keys| - 1])[keys[|keys| - 1] := vals[|keys| - 1]]
  }

  /** One more archive stores its value. */
  lemma UpdatesNext(m: map<string, Loaded>, keys: seq<string>, vals: seq<Loaded>, i: nat)
    requires |keys| == |vals| && i < |keys|
    ensures Updates(m, keys[..i + 1], vals[..i + 1]) == Updates(m, keys[..i], vals[..i])[keys[i] := vals[i]]
  {
    assert keys[..i + 1][..i] == keys[..i] && vals[..i + 1][..i] == vals[..i];
  }

  /** An archive not among the keys keeps its cache entry, or its absence. */
  lemma {:induction false} UpdatesElsewhere(m: map<string, Loaded>, keys: seq<string>, vals: seq<Loaded>, p: string)
    requires |keys| == |vals| && p !in keys
    ensures p in Updates(m, keys, vals) <==> p in m
    ensures p in m ==> Updates(m, keys, vals)[p] == m[p]
    decreases |keys|
  {
    if |keys| > 0 {
      assert p !in keys[..|keys| - 1];
      UpdatesElsewhere(m, keys[..|keys| - 1], vals[..|keys| - 1], p);
    }
  }

  /** Among distinct keys, each holds the value stored with it. */
  lemma {:induction false} UpdatesAt(m: map<string, Loaded>, keys: seq<string>, vals: seq<Loaded>, j: nat)
    requires |keys| == |vals| && j < |keys|
    requires forall a, b :: 0 <= a < b < |keys| ==> keys[a] != keys[b]
    ensures Updates(m, keys, vals)[keys[j]] == vals[j]
    decreases |keys|
  {
    if j < |keys| - 1 {
      UpdatesAt(m, keys[..|keys| - 1], vals[..|keys| - 1], j);
    }
  }

  /** The cache after the first n of distinct archives stored their values: those
      n hold what they stored, every other archive is as it was. */
  lemma UpdatesCache(m0: map<string, Loaded>, keys: seq<string>, vals: seq<Loaded>, n: nat, m: map<string, Loaded>)
    requires |keys| == |vals| && n <= |keys|
    requires forall a, b :: 0 <= a < b < |keys| ==> keys[a] != keys[b]
    requires m == Updates(m0, keys[..n], vals[..n])
    ensures forall j :: 0 <= j < n ==> keys[j] in m && m[keys[j]] == vals[j]
    ensures forall p :: p !in keys[..n] ==> (p in m <==> p in m0) && (p in m ==> m[p] == m0[p])
  {
    forall j | 0 <= j < n
      ensures keys[j] in m && m[keys[j]] == vals[j]
    {
      assert keys[..n][j] == keys[j];
      UpdatesAt(m0, keys[..n], vals[..n], j);
    }
    forall p | p !in keys[..n]
      ensures (p in m <==> p in m0) && (p in m ==> m[p] == m0[p])
    {
      UpdatesElsewhere(m0, keys[..n], vals[..n], p);
    }
  }

  /** Where the first archive that throws sits among the answers, or -1 when
      none does. */
  function FirstError(answers: seq<Answer>): (e: int)
    ensures -1 <= e < |answers|
    ensures e >= 0 ==> answers[e].Err?
    ensures forall j :: 0 <= j < |answers| && (e == -1 || j < e) ==> answers[j].Ok?
    decreases |answers|
  {
    if |answers| == 0 then -1
    else
      var e := FirstError(answers[..|answers| - 1]);
      if e >= 0 then e else if answers[|answers| - 1].Err? then |answers| - 1 else -1
  }

  /** How many archives the loop of `getFile` asks: all of them, or those up to
      and including the first that throws. */
  function Asked(answers: seq<Answer>): (n: nat)
    ensures n <= |answers|
  {
    var e := FirstError(answers);
    if e == -1 then |answers| else e + 1
  }

  /** The look-up throws exactly when some archive throws, with the first
      one's error; otherwise every archive was asked. */
  lemma FetchFailsAtFirstError(answers: seq<Answer>)
    ensures Fetch(answers).Err? <==> FirstError(answers) != -1
    ensures Fetch(answers).Err? ==> Fetch(answers).error == answers[FirstError(answers)].error
    ensures Fetch(answers).Ok? ==> Asked(answers) == |answers|
  {
    var e := FirstError(answers);
    if e == -1 {
      FetchOk(answers);
    } else {
      FetchThrows(answers, e);
    }
  }

  /** When the archives before k answer and archive k throws, the loop asks
      k + 1 archives. */
  lemma FetchAskedUpTo(answers: seq<Answer>, k: nat)
    requires k < |answers| && Fetch(answers[..k]).Ok? && answers[k].Err?
    ensures Asked(answers) == k + 1
  {
    FetchFailsAtFirstError(answers[..k]);
    assert forall j :: 0 <= j < k ==> answers[..k][j] == answers[j];
  }

  // ---------------------------------------------------------------------------
  // The list of names

  /** Asking the archive at `path` for its list; None when the file is missing. */
  function ListAnswer(disk: map<string, seq<byte>>, codecs: Codecs, path: string): Option<Answer> {
    if path !in disk then None
    else Some(Probe(Source(true, disk[path], Opened(disk[path])), codecs, ListFileName))
  }

  /** The answers of the directory's archives, in order. */
  function ListAnswers(disk: map<string, seq<byte>>, codecs: Codecs, directory: string): (r: seq<Option<Answer>>)
    ensures |r| == |Archives|
  {
    seq(|Archives|, k requires 0 <= k < |Archives| => ListAnswer(disk, codecs, JoinPath(directory, Archives[k])))
  }

  /** `getListFile` for one archive: nothing when the file is missing or lists
      nothing, its lines otherwise; an entry that extracts to null throws on
      `toString`. */
  function ListLines(found: Option<Answer>): Result<seq<string>> {
    if found.None? then Ok([])
    else
      var entry :- found.value;
      if entry.None? then Ok([])
      else if entry.value.None? then Err(TypeError)
      else Ok(SplitLines(Chars(entry.value.value)))
  }

  /** The archive carries a list that extracts. */
  predicate HasList(found: Option<Answer>) {
    found.Some? && found.value.Ok? && found.value.value.Some? && found.value.value.value.Some?
  }

  /** The lines of the archives, in order. */
  function Listed(answers: seq<Option<Answer>>): Result<seq<string>> {
    if |answers| == 0 then Ok([])
    else
      var prev :- Listed(answers[..|answers| - 1]);
      var part :- ListLines(answers[|answers| - 1]);
      Ok(prev + part)
  }

  /** One archive's part is not empty exactly when the archive carries a list, and
      joining its lines gives that list's text back. */
  lemma ListLinesSpec(found: Option<Answer>)
    requires ListLines(found).Ok?
    ensures |ListLines(found).value| > 0 <==> HasList(found)
    ensures HasList(found) ==> JoinLines(ListLines(found).value) == Chars(found.value.value.value.value)
  {
    if HasList(found) {
      SplitLinesJoin(Chars(found.value.value.value.value));
    }
  }

  /** The list is not empty exactly when one of the archives carries a list:
      `setDirectory` reports success on that. */
  lemma {:induction false} ListedSome(answers: seq<Option<Answer>>)
    requires Listed(answers).Ok?
    ensures |Listed(answers).value| > 0 <==> exists k :: 0 <= k < |answers| && HasList(answers[k])
    decreases |answers|
  {
    if |answers| > 0 {
      var init := answers[..|answers| - 1];
      ListedSome(init);
      ListLinesSpec(answers[|answers| - 1]);
      if exists k :: 0 <= k < |init| && HasList(init[k]) {
        var k :| 0 <= k < |init| && HasList(init[k]);
        assert answers[k] == init[k];
      }
      if exists k :: 0 <= k < |answers| && HasList(answers[k]) {
        var k :| 0 <= k < |answers| && HasList(answers[k]);
        if k < |init| {
          assert answers[k] == init[k];
        }
      }
    }
  }

  /** One more archive read: its error ends the reading, and its lines are
      appended otherwise. */
  lemma ListedStep(answers: seq<Option<Answer>>, k: int, prev: seq<string>)
    requires 0 <= k < |answers| && Listed(answers[..k]) == Ok(prev)
    ensures var part := ListLines(answers[k]);
      && (part.Err? ==> Listed(answers) == Err(part.error))
      && (part.Ok? ==> Listed(answers[..k + 1]) == Ok(prev + part.value))
  {
    assert answers[..k + 1][..k] == answers[..k];
    if ListLines(answers[k]).Err? {
      ListedErr(answers, k + 1);
    }
  }

  /** An archive whose list throws ends the reading with that error. */
  lemma {:induction false} ListedErr(answers: seq<Option<Answer>>, k: nat)
    requires k <= |answers| && Listed(answers[..k]).Err?
    ensures Listed(answers) == Listed(answers[..k])
    decreases |answers|
  {
    if k < |answers| {
      var init := answers[..|answers| - 1];
      assert init[..k] == answers[..k];
      ListedErr(init, k);
    } else {
      assert answers[..k] == answers;
    }
  }

  /** The lines `listfile` holds once the loop of `getListFile` ends: all of
      them, or, when an archive's list throws, those of the archives before it. */
  function Gathered(answers: seq<Option<Answer>>): (r: seq<string>)
    ensures Listed(answers).Ok? ==> r == Listed(answers).value
    decreases |answers|
  {
    if |answers| == 0 then []
    else
      var init := answers[..|answers| - 1];
      match Listed(init)
      case Err(_) => Gathered(init)
      case Ok(prev) =>
        match ListLines(answers[|answers| - 1])
        case Ok(part) => prev + part
        case Err(_) => prev
  }

  /** When the list of archive k throws, the lines gathered are those of the
      archives before it. */
  lemma {:induction false} GatheredAtError(answers: seq<Option<Answer>>, k: nat)
    requires k < |answers| && Listed(answers[..k]).Ok? && ListLines(answers[k]).Err?
    ensures Gathered(answers) == Listed(answers[..k]).value
    decreases |answers|
  {
    var init := answers[..|answers| - 1];
    if k < |answers| - 1 {
      assert init[..k] == answers[..k];
      assert init[k] == answers[k];
      assert init[..k + 1][..k] == init[..k];
      ListedErr(init, k + 1);
      GatheredAtError(init, k);
    } else {
      assert init == answers[..k];
    }
  }

  // ---------------------------------------------------------------------------
  // The model tree

  /** `TreeNode`: a name, the nodes below it, and for a file the path it stands for. */
  datatype TreeNode = TreeNode(text: string, nodes: seq<TreeNode>, selectable: bool, tags: seq<string>)

  /** `getFileNames(/.*\.mdx$/i)`: the names ending in ".mdx" in any case. */
  function ModelNames(names: seq<string>): (r: seq<string>)
    ensures forall k :: 0 <= k < |r| ==> EndsWith(ToLower(r[k]), ".mdx")
  {
    if |names| == 0 then []
    else
      var init := ModelNames(names[..|names| - 1]);
      var last := names[|names| - 1];
      if EndsWith(ToLower(last), ".mdx") then init + [last] else init
  }

  /** The filter keeps every model name and nothing else, in order. */
  lemma {:induction false} ModelNamesSpec(names: seq<string>)
    ensures forall s :: s in ModelNames(names) <==> s in names && EndsWith(ToLower(s), ".mdx")
    decreases |names|
  {
    if |names| > 0 {
      var init := names[..|names| - 1];
      ModelNamesSpec(init);
      assert names == init + [names[|names| - 1]];
    }
  }

  /** Where `name` sits in a level: the first node so named, or the level's length. */
  function Find(level: seq<TreeNode>, name: string): (k: nat)
    ensures k <= |level|
    ensures k < |level| ==> level[k].text == name
  {
    if |level| == 0 then 0
    else if level[0].text == name then 0
    else 1 + Find(level[1..], name)
  }

  lemma {:induction false} FindSpec(level: seq<TreeNode>, name: string)
    ensures forall j :: 0 <= j < Find(level, name) ==> level[j].text != name
  {
    if |level| > 0 && level[0].text != name {
      FindSpec(level[1..], name);
      assert forall j :: 1 <= j < Find(level, name) ==> level[j] == level[1..][j - 1];
    }
  }

  /** A level whose names are unchanged finds every name where it did. */
  lemma FindSameNames(level: seq<TreeNode>, other: seq<TreeNode>, name: string)
    requires |level| == |other|
    requires forall j :: 0 <= j < |level| ==> level[j].text == other[j].text
    ensures Find(other, name) == Find(level, name)
  {
    FindSpec(level, name);
    FindSpec(other, name);
    var a, b := Find(level, name), Find(other, name);
    assert !(a < b) && !(b < a);
  }

  /** A node added at the end of a level without its name is found there. */
  lemma FindAppended(level: seq<TreeNode>, x: TreeNode, name: string)
    ensures Find(level, name) < |level| ==> Find(level + [x], name) == Find(level, name)
    ensures Find(level, name) == |level| ==> Find(level + [x], name) == (if x.text == name then |level| else |level| + 1)
  {
    var all := level + [x];
    FindSpec(level, name);
    FindSpec(all, name);
    var a, b := Find(level, name), Find(all, name);
    assert forall j :: 0 <= j < |level| ==> all[j] == level[j];
    if b < |level| {
      assert level[b].text == name;
    }
    if a < |level| {
      assert all[a].text == name;
    }
    if b == |level| + 1 {
      assert all[|level|] == x;
    }
  }

  /** The chain of names `parts` leads from the level to a node. */
  predicate Reaches(level: seq<TreeNode>, parts: seq<string>)
    decreases |parts|
  {
    |parts| == 0 ||
    var k := Find(level, parts[0]);
    k < |level| && Reaches(level[k].nodes, parts[1..])
  }

  /** The node the chain of names leads to. */
  function At(level: seq<TreeNode>, parts: seq<string>): Option<TreeNode>
    requires |parts| > 0
    decreases |parts|
  {
    var k := Find(level, parts[0]);
    if k == |level| then None
    else if |parts| == 1 then Some(level[k])
    else At(level[k].nodes, parts[1..])
  }

  /** A new chain: one node per name, the last one the selectable file node
      tagged with the path. */
  function Fresh(parts: seq<string>, path: string): TreeNode
    requires |parts| > 0
    decreases |parts|
  {
    if |parts| == 1 then TreeNode(parts[0], [], true, [path])
    else TreeNode(parts[0], [Fresh(parts[1..], path)], false, [])
  }

  /** The `reduce` over the parts of one path: the node of each name is found in
      its level, or created and appended when the level has none. */
  function Insert(level: seq<TreeNode>, parts: seq<string>, path: string): seq<TreeNode>
    decreases |parts|
  {
    if |parts| == 0 then level
    else
      var k := Find(level, parts[0]);
      if k < |level| then level[k := level[k].(nodes := Insert(level[k].nodes, parts[1..], path))]
      else level + [Fresh(parts, path)]
  }

  /** `getModelTreeView`: the paths, in the order given, inserted one by one from
      the empty tree. */
  function Tree(paths: seq<string>): seq<TreeNode> {
    if |paths| == 0 then []
    else
      var last := paths[|paths| - 1];
      Insert(Tree(paths[..|paths| - 1]), Split(last, '\\'), last)
  }

  /** No level holds two nodes of the same name. */
  predicate Distinct(level: seq<TreeNode>)
    decreases level
  {
    && (forall i, j :: 0 <= i < j < |level| ==> level[i].text != level[j].text)
    && (forall k :: 0 <= k < |level| ==> Distinct(level[k].nodes))
  }

  /** A selectable node is tagged with exactly the path whose parts lead to it;
      any other node has no tag. */
  predicate Tagged(level: seq<TreeNode>, prefix: seq<string>)
    decreases level
  {
    forall k :: 0 <= k < |level| ==>
      && (level[k].selectable ==> |level[k].tags| == 1 && Split(level[k].tags[0], '\\') == prefix + [level[k].text])
      && (!level[k].selectable ==> level[k].tags == [])
      && Tagged(level[k].nodes, prefix + [level[k].text])
  }

  /** A path already in the tree changes nothing: in particular a file whose node
      was first made as a folder stays unselectable. */
  lemma {:induction false} InsertSeen(level: seq<TreeNode>, parts: seq<string>, path: string)
    requires Reaches(level, parts)
    ensures Insert(level, parts, path) == level
    decreases |parts|
  {
    if |parts| > 0 {
      var k := Find(level, parts[0]);
      InsertSeen(level[k].nodes, parts[1..], path);
      assert level[k].(nodes := level[k].nodes) == level[k];
    }
  }

  lemma {:induction false} FreshReaches(parts: seq<string>, path: string)
    requires |parts| > 0
    ensures Reaches([Fresh(parts, path)], parts)
    ensures At([Fresh(parts, path)], parts) == Some(TreeNode(parts[|parts| - 1], [], true, [path]))
    decreases |parts|
  {
    if |parts| > 1 {
      FreshReaches(parts[1..], path);
    }
  }

  /** After inserting a path its parts lead to a node. */
  lemma {:induction false} InsertReaches(level: seq<TreeNode>, parts: seq<string>, path: string)
    ensures Reaches(Insert(level, parts, path), parts)
    decreases |parts|
  {
    if |parts| > 0 {
      var k := Find(level, parts[0]);
      var r := Insert(level, parts, path);
      if k < |level| {
        InsertReaches(level[k].nodes, parts[1..], path);
        FindSameNames(level, r, parts[0]);
      } else {
        FindAppended(level, Fresh(parts, path), parts[0]);
        FreshReaches(parts, path);
        assert r[k] == Fresh(parts, path);
        if |parts| > 1 {
          assert Reaches([Fresh(parts, path)][0].nodes, parts[1..]);
        }
      }
    }
  }

  /** The first time a path's parts are inserted, its file node is selectable and
      tagged with it. */
  lemma {:induction false} InsertNew(level: seq<TreeNode>, parts: seq<string>, path: string)
    requires |parts| > 0 && !Reaches(level, parts)
    ensures At(Insert(level, parts, path), parts) == Some(TreeNode(parts[|parts| - 1], [], true, [path]))
    decreases |parts|
  {
    var k := Find(level, parts[0]);
    var r := Insert(level, parts, path);
    if k < |level| {
      FindSameNames(level, r, parts[0]);
      InsertNew(level[k].nodes, parts[1..], path);
    } else {
      FindAppended(level, Fresh(parts, path), parts[0]);
      FreshReaches(parts, path);
      assert r[k] == Fresh(parts, path);
      if |parts| > 1 {
        assert At(r, parts) == At(Fresh(parts, path).nodes, parts[1..]);
        assert At([Fresh(parts, path)], parts) == At(Fresh(parts, path).nodes, parts[1..]);
      }
    }
  }

  /** Inserting keeps every chain the tree had, and the node at its end keeps its
      mark and tags. */
  lemma {:induction false} InsertKeeps(level: seq<TreeNode>, parts: seq<string>, path: string, q: seq<string>)
    requires Reaches(level, q)
    ensures Reaches(Insert(level, parts, path), q)
    ensures |q| > 0 ==>
      && At(Insert(level, parts, path), q).Some? && At(level, q).Some?
      && At(Insert(level, parts, path), q).value.selectable == At(level, q).value.selectable
      && At(Insert(level, parts, path), q).value.tags == At(level, q).value.tags
    decreases |parts|
  {
    if |q| > 0 {
      ReachesAt(level, q);
    }
    if |parts| > 0 && |q| > 0 {
      var k := Find(level, parts[0]);
      var r := Insert(level, parts, path);
      var m := Find(level, q[0]);
      if k < |level| {
        FindSameNames(level, r, q[0]);
        if m == k {
          InsertKeeps(level[k].nodes, parts[1..], path, q[1..]);
        }
      } else {
        FindAppended(level, Fresh(parts, path), q[0]);
      }
      ReachesAt(r, q);
    }
  }

  /** A chain leads somewhere exactly when there is a node at its end. */
  lemma {:induction false} ReachesAt(level: seq<TreeNode>, q: seq<string>)
    requires |q| > 0
    ensures Reaches(level, q) <==> At(level, q).Some?
    decreases |q|
  {
    var k := Find(level, q[0]);
    if k < |level| && |q| > 1 {
      ReachesAt(level[k].nodes, q[1..]);
    }
  }

  /** Inserting never puts two nodes of one name in a level. */
  lemma {:induction false} InsertDistinct(level: seq<TreeNode>, parts: seq<string>, path: string)
    requires Distinct(level)
    ensures Distinct(Insert(level, parts, path))
    decreases |parts|
  {
    if |parts| > 0 {
      var k := Find(level, parts[0]);
      var r := Insert(level, parts, path);
      if k < |level| {
        InsertDistinct(level[k].nodes, parts[1..], path);
        assert forall j :: 0 <= j < |r| && j != k ==> r[j] == level[j];
      } else {
        FindSpec(level, parts[0]);
        FreshDistinct(parts, path);
        assert forall j :: 0 <= j < |level| ==> r[j] == level[j];
      }
    }
  }

  lemma {:induction false} FreshDistinct(parts: seq<string>, path: string)
    requires |parts| > 0
    ensures Distinct(Fresh(parts, path).nodes)
    decreases |parts|
  {
    if |parts| > 1 {
      FreshDistinct(parts[1..], path);
    }
  }

  /** Inserting a path keeps every selectable node tagged with its own path. */
  lemma {:induction false} InsertTagged(level: seq<TreeNode>, prefix: seq<string>, parts: seq<string>, path: string)
    requires Tagged(level, prefix) && |parts| > 0 && Split(path, '\\') == prefix + parts
    ensures Tagged(Insert(level, parts, path), prefix)
    decreases |parts|
  {
    var k := Find(level, parts[0]);
    var r := Insert(level, parts, path);
    if k < |level| {
      if |parts| > 1 {
        assert Split(path, '\\') == (prefix + [parts[0]]) + parts[1..];
        InsertTagged(level[k].nodes, prefix + [parts[0]], parts[1..], path);
      }
      assert forall j :: 0 <= j < |r| && j != k ==> r[j] == level[j];
    } else {
      FreshTagged(prefix, parts, path);
      assert forall j :: 0 <= j < |level| ==> r[j] == level[j];
    }
  }

  lemma {:induction false} FreshTagged(prefix: seq<string>, parts: seq<string>, path: string)
    requires |parts| > 0 && Split(path, '\\') == prefix + parts
    ensures Tagged([Fresh(parts, path)], prefix)
    decreases |parts|
  {
    if |parts| > 1 {
      assert Split(path, '\\') == (prefix + [parts[0]]) + parts[1..];
      FreshTagged(prefix + [parts[0]], parts[1..], path);
    }
  }

  /** The whole tree: names distinct per level, every path reachable, and every
      selectable node tagged with the path it stands for. */
  lemma {:induction false} TreeSpec(paths: seq<string>)
    ensures Distinct(Tree(paths)) && Tagged(Tree(paths), [])
    ensures forall i :: 0 <= i < |paths| ==> Reaches(Tree(paths), Split(paths[i], '\\'))
    decreases |paths|
  {
    if |paths| > 0 {
      var init := paths[..|paths| - 1];
      var last := paths[|paths| - 1];
      var t := Tree(init);
      TreeSpec(init);
      InsertDistinct(t, Split(last, '\\'), last);
      InsertTagged(t, [], Split(last, '\\'), last);
      InsertReaches(t, Split(last, '\\'), last);
      forall i | 0 <= i < |paths| - 1
        ensures Reaches(Tree(paths), Split(paths[i], '\\'))
      {
        assert paths[i] == init[i];
        InsertKeeps(t, Split(last, '\\'), last, Split(paths[i], '\\'));
      }
    }
  }

  // ---------------------------------------------------------------------------
  // The manager

  class FileManager {
    /** The files on disk, by path. */
    const disk: map<string, seq<byte>>
    /** The zlib and PKWare decoders the archives use. */
    const codecs: Codecs
    /** How an archive answers a look-up: `Probe` with the manager's decoders. */
    const probe: (Source, string) -> Answer
    /** The tables an archive keeps after a look-up: `Advance` with the manager's
        decoders. */
    const advance: (Source, string) -> Loaded
    /** What a new archive reads on first use: `Opened`. */
    const openTables: seq<byte> -> Loaded
    var directory: string
    var listfile: seq<string>
    var patchArchive: Option<string>
    /** The archives opened so far, by path, each as the tables it has read (or
        will read on first use). */
    var archives: map<string, Loaded>

    /** The patch archive is the directory's. */
    ghost predicate Valid()
      reads this
    {
      patchArchive.Some? ==> patchArchive.value == JoinPath(directory, PatchName)
    }

    /** How a look-up sees the archive at `p`: the cached one, or a new one. */
    function SourceOf(p: string): Source
      reads this
    {
      Source(p in disk, DiskBytes(disk, p), if p in archives then archives[p] else openTables(DiskBytes(disk, p)))
    }

    /** What the archives at `paths` answer when asked for `filename`. */
    ghost function Answers(paths: seq<string>, filename: string): (r: seq<Answer>)
      reads this
      ensures |r| == |paths|
      ensures forall j :: 0 <= j < |paths| ==> r[j] == probe(SourceOf(paths[j]), filename)
    {
      if |paths| == 0 then []
      else Answers(paths[..|paths| - 1], filename) + [probe(SourceOf(paths[|paths| - 1]), filename)]
    }

    /** What the archives at `paths` keep in the cache once asked for
        `filename`. */
    ghost function Visited(paths: seq<string>, filename: string): (r: seq<Loaded>)
      reads this
      ensures |r| == |paths|
      ensures forall j :: 0 <= j < |paths| ==> r[j] == advance(SourceOf(paths[j]), filename)
    {
      if |paths| == 0 then []
      else Visited(paths[..|paths| - 1], filename) + [advance(SourceOf(paths[|paths| - 1]), filename)]
    }

    /** A cached archive whose file was never opened: closing it throws. */
    ghost predicate Unopened()
      reads this
    {
      exists p :: p in archives && p !in disk
    }

    constructor(disk: map<string, seq<byte>>, codecs: Codecs)
      ensures Valid() && this.disk == disk && this.codecs == codecs
      ensures forall s, name :: probe(s, name) == Probe(s, codecs, name) && advance(s, name) == Advance(s, codecs, name)
      ensures forall file :: openTables(file) == Opened(file)
      ensures directory == "" && listfile == [] && patchArchive == None && archives == map[]
    {
      this.disk := disk;
      this.codecs := codecs;
      probe := (s, name) => Probe(s, codecs, name);
      advance := (s, name) => Advance(s, codecs, name);
      openTables := file => Opened(file);
      directory := "";
      listfile := [];
      patchArchive := None;
      archives := map[];
    }

    /** `exists`: whether the list names the file, ignoring case. */
    predicate Exists(filename: string)
      reads this
    {
      exists k :: 0 <= k < |listfile| && ToLower(listfile[k]) == ToLower(filename)
    }

    /** `loadArchive`: the cached archive of the path, or a new one cached. */
    method LoadArchive(path: string) returns (a: Loaded)
      requires Valid()
      modifies this
      ensures Valid() && a == old(SourceOf(path)).loaded
      ensures archives == old(archives)[path := a]
      ensures directory == old(directory) && listfile == old(listfile) && patchArchive == old(patchArchive)
    {
      if path !in archives {
        archives := archives[path := openTables(DiskBytes(disk, path))];
      }
      a := archives[path];
    }

    /** The body of the loop of `getFile`: the archive at `path` loaded (and
        cached), then asked for the name; what it reads stays in the cache. */
    method Visit(path: string, filename: string) returns (found: Answer)
      requires Valid()
      modifies this
      ensures Valid()
      ensures found == old(probe(SourceOf(path), filename))
      ensures archives == old(archives)[path := old(advance(SourceOf(path), filename))]
      ensures directory == old(directory) && listfile == old(listfile) && patchArchive == old(patchArchive)
    {
      var a := LoadArchive(path);
      var s := Source(path in disk, DiskBytes(disk, path), a);
      archives := archives[path := advance(s, filename)];
      found := probe(s, filename);
    }

    /** `getFile`: nothing for an empty name; otherwise every archive the name calls
        for is asked in turn, and the last one holding the name gives the result.
        Each archive asked (up to the first that throws) keeps in the cache what
        it read; every other archive stays as it was. */
    method GetFile(filename: string) returns (r: Result<Option<seq<byte>>>)
      requires Valid()
      modifies this
      ensures Valid()
      ensures r == Fetch(old(Answers(ArchivesFor(directory, patchArchive, filename), filename)))
      ensures directory == old(directory) && listfile == old(listfile) && patchArchive == old(patchArchive)
      ensures var paths := ArchivesFor(directory, patchArchive, filename);
        var asked := Asked(old(Answers(paths, filename)));
        && (forall j :: 0 <= j < asked ==>
              paths[j] in archives && archives[paths[j]] == old(Visited(paths, filename))[j])
        && (forall p :: p !in paths[..asked] ==>
              (p in archives <==> p in old(archives)) && (p in archives ==> archives[p] == old(archives)[p]))
    {
      if |filename| == 0 {
        assert Answers([], filename) == [];
        return Ok(None);
      }
      var paths := ArchivesFor(directory, patchArchive, filename);
      ArchivesForDistinct(directory, patchArchive, filename);
      ghost var visited := Visited(paths, filename);
      ghost var asked := Asked(Answers(paths, filename));
      r := FetchAll(paths, filename);
      UpdatesCache(old(archives), paths, visited, asked, archives);
    }

    /** The loop of `getFile` over archives at distinct paths. */
    method FetchAll(paths: seq<string>, filename: string) returns (r: Result<Option<seq<byte>>>)
      requires Valid()
      requires forall i, j :: 0 <= i < j < |paths| ==> paths[i] != paths[j]
      modifies this
      ensures Valid()
      ensures r == Fetch(old(Answers(paths, filename)))
      ensures directory == old(directory) && listfile == old(listfile) && patchArchive == old(patchArchive)
      ensures var asked := Asked(old(Answers(paths, filename)));
        archives == Updates(old(archives), paths[..asked], old(Visited(paths, filename))[..asked])
    {
      ghost var answers := Answers(paths, filename);
      ghost var visited := Visited(paths, filename);
      assert visited == old(Visited(paths, filename));
      assert answers == old(Answers(paths, filename));
      var res: Option<seq<byte>> := None;
      var i := 0;
      while i < |paths|
        invariant Valid() && 0 <= i <= |paths|
        invariant directory == old(directory) && listfile == old(listfile) && patchArchive == old(patchArchive)
        invariant Fetch(answers[..i]) == Ok(res)
        invariant archives == Updates(old(archives), paths[..i], visited[..i])
      {
        assert paths[i] !in paths[..i];
        UpdatesElsewhere(old(archives), paths[..i], visited[..i], paths[i]);
        assert SourceOf(paths[i]) == old(SourceOf(paths[i]));
        assert answers[i] == probe(SourceOf(paths[i]), filename);
        assert visited[i] == advance(SourceOf(paths[i]), filename);
        var found := Visit(paths[i], filename);
        assert found == answers[i];
        FetchStep(answers, i, res);
        UpdatesNext(old(archives), paths, visited, i);
        if found.Err? {
          FetchAskedUpTo(answers, i);
          return Err(found.error);
        }
        if found.value.Some? {
          res := found.value.value;
        }
        i := i + 1;
      }
      assert answers[..i] == answers;
      assert paths[..i] == paths;
      FetchFailsAtFirstError(answers);
      return Ok(res);
    }

    /** `close`: every cached archive closes its file and the cache empties; an
        archive whose file was never opened makes `closeSync` throw first. */
    method Close() returns (r: Result<()>)
      requires Valid()
      modifies this
      ensures Valid()
      ensures r.Err? <==> old(Unopened())
      ensures r.Err? ==> r.error == TypeError && archives == old(archives)
      ensures r.Ok? ==> archives == map[]
      ensures directory == old(directory) && listfile == old(listfile) && patchArchive == old(patchArchive)
    {
      if exists p :: p in archives && p !in disk {
        return Err(TypeError);
      }
      archives := map[];
      return Ok(());
    }

    /** The `forEach` body of `getListFile`: a fresh archive at `filepath`, if the
        file exists, asked for its list and closed again. */
    method ListOf(filepath: string) returns (r: Result<seq<string>>)
      ensures r == ListLines(ListAnswer(disk, codecs, filepath))
    {
      if filepath !in disk {
        return Ok([]);
      }
      var archive := new Mpq.MpqFile(filepath, disk[filepath], codecs);
      var found := Ask(archive, ListFileName);
      if found.Err? {
        return Err(found.error);
      }
      if found.value.None? {
        return Ok([]);
      }
      if found.value.value.None? {
        return Err(TypeError);
      }
      return Ok(SplitLines(Chars(found.value.value.value)));
    }

    /** `getListFile`: the lines of every archive's list, in the archives' order;
        each archive is opened afresh and closed again. When one archive's list
        throws, the lines of the archives before it stay in the list. */
    method GetListFile() returns (r: Result<()>)
      requires Valid()
      modifies this
      ensures Valid()
      ensures var l := Listed(ListAnswers(disk, codecs, directory));
        (l.Err? ==> r == Err(l.error)) && (l.Ok? ==> r == Ok(()) && listfile == l.value)
      ensures listfile == Gathered(ListAnswers(disk, codecs, directory))
      ensures directory == old(directory) && patchArchive == old(patchArchive) && archives == old(archives)
    {
      ghost var answers := ListAnswers(disk, codecs, directory);
      listfile := [];
      for k := 0 to |Archives|
        invariant directory == old(directory) && patchArchive == old(patchArchive) && archives == old(archives)
        invariant Listed(answers[..k]) == Ok(listfile)
      {
        var part := ListOf(JoinPath(directory, Archives[k]));
        ListedStep(answers, k, listfile);
        if part.Err? {
          GatheredAtError(answers, k);
          return Err(part.error);
        }
        listfile := listfile + part.value;
      }
      assert answers[..|Archives|] == answers;
      return Ok(());
    }

    /** `setDirectory`: the cache closed, the data directory and its patch archive
        chosen, the list read; true when the list names anything. */
    method SetDirectory(d: string) returns (r: Result<bool>)
      requires Valid()
      modifies this
      ensures Valid()
      ensures old(Unopened()) ==>
        && r == Err(TypeError) && archives == old(archives)
        && directory == old(directory) && patchArchive == old(patchArchive) && listfile == old(listfile)
      ensures !old(Unopened()) ==>
        && archives == map[]
        && directory == DataDirectory(d)
        && patchArchive == (if JoinPath(directory, PatchName) in disk then Some(JoinPath(directory, PatchName)) else None)
        && var l := Listed(ListAnswers(disk, codecs, directory));
           && (l.Err? ==> r == Err(l.error)) && (l.Ok? ==> r == Ok(|l.value| > 0))
           && listfile == Gathered(ListAnswers(disk, codecs, directory))
    {
      var closed := Close();
      if closed.Err? {
        return Err(closed.error);
      }
      directory := DataDirectory(d);
      var patch := JoinPath(directory, PatchName);
      patchArchive := if patch in disk then Some(patch) else None;
      var listed := GetListFile();
      if listed.Err? {
        return Err(listed.error);
      }
      return Ok(|listfile| > 0);
    }

    /** `getModelTreeView`, given the model names in the collator's order. */
    method GetModelTreeView(sorted: seq<string>) returns (result: seq<TreeNode>)
      requires multiset(sorted) == multiset(ModelNames(listfile))
      ensures result == Tree(sorted)
    {
      result := [];
      for i := 0 to |sorted|
        invariant result == Tree(sorted[..i])
      {
        assert sorted[..i + 1][..i] == sorted[..i];
        result := Insert(result, Split(sorted[i], '\\'), sorted[i]);
      }
      assert sorted[..|sorted|] == sorted;
    }
  }

  /** `archive.exists(name)` and, when it holds, `archive.extract(name)`, on an
      archive whose file exists: the answer is `Probe`'s and the archive's tables
      move on as `Advance` says. */
  method Ask(archive: Mpq.MpqFile, name: string) returns (r: Answer)
    requires archive.Valid()
    modifies archive
    ensures archive.Valid()
    ensures r == Probe(Source(true, archive.file, old(archive.Loaded())), archive.codecs, name)
    ensures archive.Loaded() == Advance(Source(true, archive.file, old(archive.Loaded())), archive.codecs, name)
  {
    ghost var s := Source(true, archive.file, archive.Loaded());
    ghost var probe := Probe(s, archive.codecs, name);
    ghost var next := Advance(s, archive.codecs, name);
    var has := archive.Exists(name);
    if has.Err? {
      assert probe == Err(has.error) && next == s.loaded;
      return Err(has.error);
    }
    assert s.loaded.Ok? && FileEntry(s.loaded.value, name).Ok?;
    if !has.value {
      assert probe == Ok(None) && next == s.loaded;
      return Ok(None);
    }
    ghost var x := ExtractEntry(archive.file, s.loaded.value, name, archive.codecs);
    var data := archive.Extract(name);
    if data.Err? {
      assert probe == Err(data.error) && next == s.loaded;
      return Err(data.error);
    }
    assert x.Ok? && data.value == x.value.data;
    assert probe == Ok(Some(data.value));
    return Ok(Some(data.value));
  }

  lemma ArchivesForDistinct(directory: string, patch: Option<string>, filename: string)
    requires patch.Some? ==> patch.value == JoinPath(directory, PatchName)
    ensures var r := ArchivesFor(directory, patch, filename);
      forall i, j :: 0 <= i < j < |r| ==> r[i] != r[j]
  {
    ArchivesForSpec(directory, patch, filename, "");
  }

  /** `exists` ignores case. */
  lemma ExistsIgnoresCase(fm: FileManager, f: string, g: string)
    requires ToUpper(f) == ToUpper(g)
    ensures fm.Exists(f) == fm.Exists(g)
  {
    SameCaseFold(f, g);
  }

  /** Every listed name exists, in any case. */
  lemma ExistsListed(fm: FileManager, f: string, k: int)
    requires 0 <= k < |fm.listfile| && ToUpper(fm.listfile[k]) == ToUpper(f)
    ensures fm.Exists(f)
  {
    SameCaseFold(fm.listfile[k], f);
  }
}
