/**
  The layout resolution of an uploaded save archive (the zip branch of the
  backend's save-file handler): from the entry names of the archive it derives
  the save identifier, fetches the mandatory `<save_id>/Level.sav` entry,
  selects the per-player `.sav` files under `<save_id>/Players/` and builds the
  map from player UUID to that player's bytes; then the messages the handler
  sends back over the WebSocket.

  The zip library is abstracted as an entry listing plus a map from entry
  name to the outcome of reading it (its bytes, or the message of the
  exception `zip_ref.read` raises),
  and `uuid.UUID` as a parameter `parse` mapping a stem to a UUID value of an
  abstract type `U`, or to the message of the exception the library raises.
 */
module SaveFileHandler {
  import opened Wrappers
  import opened PyText

  newtype byte = x: int | 0 <= x < 256

  type Bytes = seq<byte>

  /**
    What `zip_ref.read(name)` does for a name the archive knows: return the
    decompressed bytes, or raise (a corrupt or truncated entry, an encrypted
    one without a password, an unsupported compression method) with a message.
   */
  type Contents = map<string, Result<Bytes, string>>

  /** An opened zip archive: `namelist()` and the outcome of `read(name)` per known name. */
  datatype Archive = Archive(names: seq<string>, contents: Contents)

  /** What the zip library guarantees: `getinfo` finds every listed name. */
  predicate Consistent(a: Archive) {
    forall i :: 0 <= i < |a.names| ==> a.names[i] in a.contents
  }

  /** The exceptions the resolution can raise. */
  datatype LoadError =
    | EmptyListing                        // `file_list[0]` on an empty list
    | MissingLevelSav(names: seq<string>) // the `ValueError` naming the listing
    | InvalidUuid(stem: string, message: string) // `uuid.UUID` rejected the stem
    | MissingEntry(name: string)          // `zip_ref.read` of an unknown name (`KeyError`)
    | ReadFailed(name: string, message: string) // `zip_ref.read` raised on a known entry

  /** What a successful resolution hands to the save-file codec. */
  datatype Layout<U> = Layout(saveId: string, levelSav: Bytes, players: map<U, Bytes>)

  // ---------------------------------------------------------------------------
  // Entry names
  // ---------------------------------------------------------------------------

  /** `name.split("/")[0]` */
  function SaveIdOf(name: string): string {
    Split(name, '/')[0]
  }

  /** The save identifier is the first entry's text before its first `/`. */
  lemma SaveIdIsFirstSegment(name: string)
    ensures SaveIdOf(name) <= name && '/' !in SaveIdOf(name)
    ensures |SaveIdOf(name)| < |name| ==> name[|SaveIdOf(name)|] == '/'
    ensures '/' !in name ==> SaveIdOf(name) == name
  {
    SplitHead(name, '/');
  }

  /** The save identifier of `name` is the first piece of any `/`-path it joins. */
  lemma SaveIdOfPath(parts: seq<string>)
    requires |parts| >= 1
    requires forall i :: 0 <= i < |parts| ==> '/' !in parts[i]
    ensures SaveIdOf(Join(parts, '/')) == parts[0]
  {
    SplitJoin(parts, '/');
  }

  /** The listing entry that must hold the world save. */
  function LevelSavKey(saveId: string): string {
    saveId + "/Level.sav"
  }

  /** The directory prefix of the per-player saves. */
  function PlayersPrefix(saveId: string): string {
    saveId + "/Players/"
  }

  /** The comprehension's filter: under `<save_id>/Players/` and ending in `.sav`. */
  predicate IsPlayerFile(saveId: string, f: string) {
    StartsWith(f, PlayersPrefix(saveId)) && EndsWith(f, ".sav")
  }

  /** The list comprehension that keeps the player files of the save. */
  function SelectPlayerFiles(saveId: string, names: seq<string>): (r: seq<string>)
    ensures forall f :: f in r <==> f in names && IsPlayerFile(saveId, f)
    ensures |r| <= |names|
  {
    if names == [] then []
    else (if IsPlayerFile(saveId, names[0]) then [names[0]] else [])
         + SelectPlayerFiles(saveId, names[1..])
  }

  /**
    The selection is a filter: it keeps each entry on its own merits and in
    listing order, so selecting from a concatenation concatenates the selections.
   */
  lemma {:induction false} SelectConcat(saveId: string, a: seq<string>, b: seq<string>)
    ensures SelectPlayerFiles(saveId, a + b)
         == SelectPlayerFiles(saveId, a) + SelectPlayerFiles(saveId, b)
  {
    if a == [] {
      assert a + b == b;
    } else {
      assert (a + b)[1..] == a[1..] + b;
      SelectConcat(saveId, a[1..], b);
    }
  }

  /** Each selected entry is kept as often as it is listed; others are dropped. */
  lemma {:induction false} SelectCounts(saveId: string, names: seq<string>, f: string)
    ensures multiset(SelectPlayerFiles(saveId, names))[f]
         == if IsPlayerFile(saveId, f) then multiset(names)[f] else 0
  {
    if names != [] {
      SelectCounts(saveId, names[1..], f);
      assert names == [names[0]] + names[1..];
    }
  }

  /** `os.path.splitext(os.path.basename(f))[0]`: the text handed to `uuid.UUID`. */
  function PlayerStem(f: string): string {
    SplitExt(Basename(f)).0
  }

  /**
    The stem of an entry ending in `.sav` (so of every selected entry) is its
    basename without the final `.sav`,
    unless that basename is dots only (`.sav`, `..sav`), which `splitext`
    leaves whole. Nested directories below `Players/` only contribute their
    last component.
   */
  lemma PlayerStemOfSelected(f: string)
    requires EndsWith(f, ".sav")
    ensures EndsWith(Basename(f), ".sav")
    ensures var b := Basename(f);
            var body := b[..|b| - 4];
            PlayerStem(f) == if AllDots(body) then b else body
  {
    BasenameKeepsSuffix(f, ".sav");
    StemOfSav(Basename(f));
  }

  /** `splitext` of a `/`-free name ending in `.sav`. */
  lemma StemOfSav(b: string)
    requires '/' !in b && EndsWith(b, ".sav")
    ensures var body := b[..|b| - 4];
            SplitExt(b).0 == if AllDots(body) then b else body
  {
    assert '.' !in ".sav"[1..];
    StemOfExtension(b, ".sav");
  }

  /** `<save_id>/Players/` followed by anything ending in `.sav` is selected. */
  lemma PlayerPathSelected(saveId: string, rest: string)
    requires EndsWith(rest, ".sav")
    ensures IsPlayerFile(saveId, PlayersPrefix(saveId) + rest)
  {
    var f := PlayersPrefix(saveId) + rest;
    assert f[..|PlayersPrefix(saveId)|] == PlayersPrefix(saveId);
    assert f[|f| - 4..] == rest[|rest| - 4..];
  }

  /**
    A player file `<save_id>/Players/<dirs><id>.sav`, directly in `Players/`
    (`dirs` empty) or nested below it (`dirs` ending in `/`), is selected and
    its stem is `<id>`, provided `<id>` has no `/` and is not all dots. The
    path is the parameter `f`, fixed by the last precondition, so that the
    proof reasons about one variable rather than about the concatenation.
   */
  lemma PlayerStemOfPath(saveId: string, dirs: string, id: string, f: string)
    requires dirs == [] || dirs[|dirs| - 1] == '/'
    requires '/' !in id && !AllDots(id)
    requires f == PlayersPrefix(saveId) + dirs + id + ".sav"
    ensures IsPlayerFile(saveId, f) && PlayerStem(f) == id
  {
    NoSlashSav(id);
    assert f == PlayersPrefix(saveId) + (dirs + (id + ".sav"));
    StemBelowPlayers(saveId, dirs, id, f);
  }

  /** `PlayerStemOfPath` for the path grouped as `<save_id>/Players/` + (`dirs` + `<id>.sav`). */
  lemma StemBelowPlayers(saveId: string, dirs: string, id: string, f: string)
    requires dirs == [] || dirs[|dirs| - 1] == '/'
    requires '/' !in id + ".sav" && EndsWith(id + ".sav", ".sav") && !AllDots(id)
    requires f == PlayersPrefix(saveId) + (dirs + (id + ".sav"))
    ensures IsPlayerFile(saveId, f) && PlayerStem(f) == id
  {
    var b := id + ".sav";
    var rest := dirs + b;
    assert rest[|rest| - 4..] == b[|b| - 4..];
    PlayerPathSelected(saveId, rest);
    var head := PlayersPrefix(saveId) + dirs;
    assert f == head + b;
    assert head[|head| - 1] == '/';
    BasenameAfterSlash(head, b);
    StemOfSavName(f, id);
  }

  /** A path whose basename is `<id>.sav` has stem `<id>` unless `<id>` is all dots. */
  lemma StemOfSavName(f: string, id: string)
    requires Basename(f) == id + ".sav" && '/' !in id + ".sav" && !AllDots(id)
    ensures PlayerStem(f) == id
  {
    var b := id + ".sav";
    assert b[|b| - 4..] == ".sav";
    assert ".sav"[1..] == "sav";
    StemOfExtension(b, ".sav");
    assert b[..|b| - 4] == id;
  }

  /** Appending `.sav` to a `/`-free name keeps it `/`-free and ends it in `.sav`. */
  lemma NoSlashSav(id: string)
    requires '/' !in id
    ensures '/' !in id + ".sav" && EndsWith(id + ".sav", ".sav")
  {
    var b := id + ".sav";
    forall j | 0 <= j < |b|
      ensures b[j] != '/'
    {
      if j < |id| {
        assert b[j] == id[j];
      } else {
        assert b[j] == ".sav"[j - |id|];
      }
    }
    assert b[|b| - 4..] == ".sav";
  }

  // ---------------------------------------------------------------------------
  // Player map
  // ---------------------------------------------------------------------------

  /**
    The dictionary that a loop `for f in files: d[k] = v` builds when `step(f)`
    computes the pair `(k, v)` or raises: the first exception ends the loop and
    no dictionary is produced.
   */
  function FillMap<K(==), V, E>(files: seq<string>, step: string -> Result<(K, V), E>)
    : Result<map<K, V>, E>
    decreases |files|
  {
    if files == [] then Ok(map[])
    else
      match FillMap(files[..|files| - 1], step)
      case Err(e) => Err(e)
      case Ok(m) =>
        match step(files[|files| - 1])
        case Err(e) => Err(e)
        case Ok(entry) => Ok(m[entry.0 := entry.1])
  }

  /** Once a prefix of the files has failed, the whole loop fails the same way. */
  lemma {:induction false} FillMapPrefixError<K, V, E>(
    files: seq<string>, k: nat, step: string -> Result<(K, V), E>)
    requires k <= |files|
    requires FillMap(files[..k], step).Err?
    ensures FillMap(files, step) == FillMap(files[..k], step)
    decreases |files|
  {
    if k < |files| {
      var init := files[..|files| - 1];
      assert init[..k] == files[..k];
      FillMapPrefixError(init, k, step);
    } else {
      assert files[..k] == files;
    }
  }

  /** The loop completes exactly when no step raises. */
  lemma {:induction false} FillMapOkIff<K, V, E>(files: seq<string>, step: string -> Result<(K, V), E>)
    ensures FillMap(files, step).Ok? <==> forall i :: 0 <= i < |files| ==> step(files[i]).Ok?
    decreases |files|
  {
    if files != [] {
      var init := files[..|files| - 1];
      FillMapOkIff(init, step);
      assert forall i :: 0 <= i < |init| ==> init[i] == files[i];
    }
  }

  /** A failed loop reports the exception of the first step that raises. */
  lemma {:induction false} FillMapFirstError<K, V, E>(
    files: seq<string>, step: string -> Result<(K, V), E>, e: E)
    requires FillMap(files, step) == Err(e)
    ensures exists i :: 0 <= i < |files| && step(files[i]) == Err(e)
                      && forall j :: 0 <= j < i ==> step(files[j]).Ok?
    decreases |files|
  {
    var init := files[..|files| - 1];
    assert forall i :: 0 <= i < |init| ==> init[i] == files[i];
    if FillMap(init, step).Err? {
      FillMapFirstError(init, step, e);
      var i :| 0 <= i < |init| && step(init[i]) == Err(e)
               && forall j :: 0 <= j < i ==> step(init[j]).Ok?;
      assert step(files[i]) == Err(e);
    } else {
      FillMapOkIff(init, step);
      assert step(files[|files| - 1]) == Err(e);
    }
  }

  /** The keys of the finished dictionary are exactly the keys the steps computed. */
  lemma {:induction false} FillMapKeys<K, V, E>(
    files: seq<string>, step: string -> Result<(K, V), E>, m: map<K, V>)
    requires FillMap(files, step) == Ok(m)
    ensures forall k :: k in m <==>
      exists i :: 0 <= i < |files| && step(files[i]).Ok? && step(files[i]).value.0 == k
    decreases |files|
  {
    if files != [] {
      var init := files[..|files| - 1];
      var last := step(files[|files| - 1]).value;
      var m0 := FillMap(init, step).value;
      FillMapKeys(init, step, m0);
      assert m == m0[last.0 := last.1];
      assert forall i :: 0 <= i < |init| ==> init[i] == files[i];
      forall k | k in m
        ensures exists i :: 0 <= i < |files| && step(files[i]).Ok? && step(files[i]).value.0 == k
      {
        if k != last.0 {
          var i :| 0 <= i < |init| && step(init[i]).Ok? && step(init[i]).value.0 == k;
          assert files[i] == init[i];
        }
      }
    }
  }

  /** A key computed by several steps holds the value of the last of them. */
  lemma {:induction false} FillMapLastWins<K, V, E>(
    files: seq<string>, step: string -> Result<(K, V), E>, m: map<K, V>, i: nat)
    requires FillMap(files, step) == Ok(m)
    requires i < |files| && step(files[i]).Ok?
    requires forall j :: i < j < |files| && step(files[j]).Ok? ==>
               step(files[j]).value.0 != step(files[i]).value.0
    ensures step(files[i]).value.0 in m
    ensures m[step(files[i]).value.0] == step(files[i]).value.1
    decreases |files|
  {
    var init := files[..|files| - 1];
    var m0 := FillMap(init, step).value;
    if i < |files| - 1 {
      assert forall j :: 0 <= j < |init| ==> init[j] == files[j];
      FillMapLastWins(init, step, m0, i);
    }
  }

  /** `zip_ref.read(name)`: a `KeyError` for an unknown name, else the entry's outcome. */
  function Read(contents: Contents, name: string): Result<Bytes, LoadError> {
    if name !in contents then Err(MissingEntry(name))
    else
      match contents[name]
      case Err(msg) => Err(ReadFailed(name, msg))
      case Ok(data) => Ok(data)
  }

  /** `zip_ref.read(name)` returns bytes. */
  predicate Readable(contents: Contents, name: string) {
    name in contents && contents[name].Ok?
  }

  /** A read succeeds exactly on a readable entry, with that entry's bytes. */
  lemma ReadOk(contents: Contents, name: string)
    ensures Read(contents, name).Ok? <==> Readable(contents, name)
    ensures Readable(contents, name) ==> Read(contents, name).value == contents[name].value
    ensures name !in contents ==> Read(contents, name) == Err(MissingEntry(name))
    ensures name in contents && contents[name].Err? ==>
      Read(contents, name) == Err(ReadFailed(name, contents[name].error))
  {
  }

  /** One iteration of the player loop: parse the stem, then read the entry. */
  function ReadPlayer<U>(f: string, contents: Contents, parse: string -> Result<U, string>)
    : Result<(U, Bytes), LoadError>
  {
    var playerId := PlayerStem(f);
    match parse(playerId)
    case Err(msg) => Err(InvalidUuid(playerId, msg))
    case Ok(u) =>
      match Read(contents, f)
      case Err(e) => Err(e)
      case Ok(data) => Ok((u, data))
  }

  /** The loop body as a function of the file name. */
  function PlayerStep<U>(contents: Contents, parse: string -> Result<U, string>)
    : string -> Result<(U, Bytes), LoadError>
  {
    f => ReadPlayer(f, contents, parse)
  }

  /** The player dictionary the loop builds, or the first exception it raises. */
  function PlayerData<U(==)>(files: seq<string>, contents: Contents, parse: string -> Result<U, string>)
    : Result<map<U, Bytes>, LoadError>
  {
    FillMap(files, PlayerStep(contents, parse))
  }

  /** The UUID that `uuid.UUID` makes of a file's stem, if any. */
  function PlayerUuid<U>(f: string, parse: string -> Result<U, string>): Result<U, string> {
    parse(PlayerStem(f))
  }

  /** No later file in `files` names the UUID that `files[i]` names. */
  ghost predicate LastWithUuid<U>(files: seq<string>, parse: string -> Result<U, string>, i: nat)
    requires i < |files|
  {
    forall j :: i < j < |files| ==> PlayerUuid(files[j], parse) != PlayerUuid(files[i], parse)
  }

  /** One loop step succeeds exactly when the stem parses and the entry can be read. */
  lemma ReadPlayerOk<U>(f: string, contents: Contents, parse: string -> Result<U, string>)
    ensures PlayerStep(contents, parse)(f).Ok? <==> PlayerUuid(f, parse).Ok? && Readable(contents, f)
    ensures PlayerStep(contents, parse)(f).Ok? ==>
      PlayerStep(contents, parse)(f).value == (PlayerUuid(f, parse).value, contents[f].value)
  {
  }

  /** Every file's stem parses as a UUID and every file can be read. */
  predicate AllPlayersReadable<U>(files: seq<string>, contents: Contents, parse: string -> Result<U, string>) {
    forall i :: 0 <= i < |files| ==> PlayerUuid(files[i], parse).Ok? && Readable(contents, files[i])
  }

  /** The player map is built exactly when every stem parses and every file can be read. */
  lemma PlayerDataOkIff<U>(files: seq<string>, contents: Contents, parse: string -> Result<U, string>)
    ensures PlayerData(files, contents, parse).Ok? <==> AllPlayersReadable(files, contents, parse)
  {
    FillMapOkIff(files, PlayerStep(contents, parse));
    forall i | 0 <= i < |files| {
      ReadPlayerOk(files[i], contents, parse);
    }
  }

  /** The keys of the player map are exactly the UUIDs of the selected files' stems. */
  lemma PlayerDataKeys<U>(files: seq<string>, contents: Contents,
                          parse: string -> Result<U, string>, m: map<U, Bytes>)
    requires PlayerData(files, contents, parse) == Ok(m)
    ensures forall u :: u in m <==> exists i :: 0 <= i < |files| && PlayerUuid(files[i], parse) == Ok(u)
  {
    var step := PlayerStep(contents, parse);
    FillMapKeys(files, step, m);
    FillMapOkIff(files, step);
    forall i | 0 <= i < |files| {
      ReadPlayerOk(files[i], contents, parse);
    }
  }

  /**
    A UUID named by several selected files holds the bytes of the last of them
    in listing order: later assignments overwrite earlier ones.
   */
  lemma PlayerDataLastWins<U>(files: seq<string>, contents: Contents,
                              parse: string -> Result<U, string>, m: map<U, Bytes>, i: nat)
    requires PlayerData(files, contents, parse) == Ok(m)
    requires i < |files| && LastWithUuid(files, parse, i)
    ensures PlayerUuid(files[i], parse).Ok? && PlayerUuid(files[i], parse).value in m
    ensures Readable(contents, files[i])
    ensures m[PlayerUuid(files[i], parse).value] == contents[files[i]].value
  {
    var step := PlayerStep(contents, parse);
    FillMapOkIff(files, step);
    forall j | 0 <= j < |files| {
      ReadPlayerOk(files[j], contents, parse);
    }
    FillMapLastWins(files, step, m, i);
  }

  /**
    A failed player loop reports the first selected file whose stem is not a
    UUID or which cannot be read; no partial map survives.
   */
  lemma PlayerDataFirstError<U>(files: seq<string>, contents: Contents,
                                parse: string -> Result<U, string>, e: LoadError)
    requires PlayerData(files, contents, parse) == Err(e)
    ensures exists i :: 0 <= i < |files| && ReadPlayer(files[i], contents, parse) == Err(e)
                      && forall j :: 0 <= j < i ==> ReadPlayer(files[j], contents, parse).Ok?
  {
    FillMapFirstError(files, PlayerStep(contents, parse), e);
  }

  /** The player loop: fills the dictionary key by key, raising on the first bad file. */
  method BuildPlayerData<U(==)>(files: seq<string>, contents: Contents, parse: string -> Result<U, string>)
    returns (r: Result<map<U, Bytes>, LoadError>)
    ensures r == PlayerData(files, contents, parse)
  {
    var playerData: map<U, Bytes> := map[];
    for i := 0 to |files|
      invariant PlayerData(files[..i], contents, parse) == Ok(playerData)
    {
      var playerFile := files[i];
      assert files[..i + 1][..i] == files[..i];
      var playerId := PlayerStem(playerFile);
      var playerUuid := parse(playerId);
      if playerUuid.Err? {
        r := Err(InvalidUuid(playerId, playerUuid.error));
        FillMapPrefixError(files, i + 1, PlayerStep(contents, parse));
        return;
      }
      var content := Read(contents, playerFile);
      if content.Err? {
        r := Err(content.error);
        FillMapPrefixError(files, i + 1, PlayerStep(contents, parse));
        return;
      }
      playerData := playerData[playerUuid.value := content.value];
    }
    assert files[..|files|] == files;
    r := Ok(playerData);
  }

  // ---------------------------------------------------------------------------
  // Whole resolution
  // ---------------------------------------------------------------------------

  /** The resolution the handler performs inside its `with zipfile.ZipFile(...)` block. */
  function Resolve<U(==)>(a: Archive, parse: string -> Result<U, string>): Result<Layout<U>, LoadError> {
    if a.names == [] then Err(EmptyListing)
    else
      var saveId := SaveIdOf(a.names[0]);
      var levelSav := LevelSavKey(saveId);
      if levelSav !in a.names then Err(MissingLevelSav(a.names))
      else
        match Read(a.contents, levelSav)
        case Err(e) => Err(e)
        case Ok(levelSavData) =>
          match PlayerData(SelectPlayerFiles(saveId, a.names), a.contents, parse)
          case Err(e) => Err(e)
          case Ok(players) => Ok(Layout(saveId, levelSavData, players))
  }

  /** The handler's resolution steps, in the order the source runs them. */
  method ResolveArchive<U(==)>(a: Archive, parse: string -> Result<U, string>)
    returns (r: Result<Layout<U>, LoadError>)
    ensures r == Resolve(a, parse)
  {
    var fileList := a.names;
    if |fileList| == 0 {
      return Err(EmptyListing);
    }
    var saveId := SaveIdOf(fileList[0]);
    var levelSav := LevelSavKey(saveId);
    if levelSav !in fileList {
      return Err(MissingLevelSav(fileList));
    }
    var levelSavData := Read(a.contents, levelSav);
    if levelSavData.Err? {
      return Err(levelSavData.error);
    }
    var playerFiles := SelectPlayerFiles(saveId, fileList);
    var playerData := BuildPlayerData(playerFiles, a.contents, parse);
    match playerData
    case Err(e) => r := Err(e);
    case Ok(players) => r := Ok(Layout(saveId, levelSavData.value, players));
  }

  /**
    Resolution succeeds exactly when the listing is non-empty, lists (and can
    read) `<save_id>/Level.sav`, and every selected player file has a valid
    UUID stem and can be read.
   */
  lemma ResolveOkIff<U>(a: Archive, parse: string -> Result<U, string>)
    ensures Resolve(a, parse).Ok? <==>
      && a.names != []
      && LevelSavKey(SaveIdOf(a.names[0])) in a.names
      && Readable(a.contents, LevelSavKey(SaveIdOf(a.names[0])))
      && AllPlayersReadable(SelectPlayerFiles(SaveIdOf(a.names[0]), a.names), a.contents, parse)
  {
    if a.names != [] {
      var saveId := SaveIdOf(a.names[0]);
      var files := SelectPlayerFiles(saveId, a.names);
      PlayerDataOkIff(files, a.contents, parse);
      ReadOk(a.contents, LevelSavKey(saveId));
      if LevelSavKey(saveId) in a.names && Readable(a.contents, LevelSavKey(saveId)) {
        match PlayerData(files, a.contents, parse)
        case Err(e) =>
          assert Resolve(a, parse) == Err(e);
        case Ok(m) =>
          assert Resolve(a, parse) == Ok(Layout(saveId, a.contents[LevelSavKey(saveId)].value, m));
      }
    }
  }

  /**
    On an archive the zip library produced, no read fails with `KeyError`:
    every name the resolution reads is listed. (A listed entry can still fail
    to decompress; that is `ReadFailed`.)
   */
  lemma ResolveConsistentReads<U>(a: Archive, parse: string -> Result<U, string>, name: string)
    requires Consistent(a)
    ensures Resolve(a, parse) != Err(MissingEntry(name))
  {
    if a.names != [] && LevelSavKey(SaveIdOf(a.names[0])) in a.names {
      var saveId := SaveIdOf(a.names[0]);
      var files := SelectPlayerFiles(saveId, a.names);
      ReadOk(a.contents, LevelSavKey(saveId));
      if Read(a.contents, LevelSavKey(saveId)).Ok? && PlayerData(files, a.contents, parse).Err? {
        var e := PlayerData(files, a.contents, parse).error;
        PlayerDataFirstError(files, a.contents, parse, e);
        var i :| 0 <= i < |files| && ReadPlayer(files[i], a.contents, parse) == Err(e);
        assert files[i] in a.names;
        ReadOk(a.contents, files[i]);
      }
    }
  }

  /**
    What a successful resolution delivers: the save identifier is the first
    entry's text before its first `/`, the Level.sav bytes are those of exactly
    `<save_id>/Level.sav`, which is listed, and the player map is the complete
    one built from the selected files.
   */
  lemma ResolveOk<U>(a: Archive, parse: string -> Result<U, string>, layout: Layout<U>)
    requires Resolve(a, parse) == Ok(layout)
    ensures a.names != []
    ensures layout.saveId <= a.names[0] && '/' !in layout.saveId
    ensures |layout.saveId| < |a.names[0]| ==> a.names[0][|layout.saveId|] == '/'
    ensures LevelSavKey(layout.saveId) in a.names
    ensures Readable(a.contents, LevelSavKey(layout.saveId))
    ensures layout.levelSav == a.contents[LevelSavKey(layout.saveId)].value
    ensures PlayerData(SelectPlayerFiles(layout.saveId, a.names), a.contents, parse) == Ok(layout.players)
  {
    SaveIdIsFirstSegment(a.names[0]);
  }

  /** The empty listing never resolves (the `is None` guard cannot catch it). */
  lemma ResolveEmpty<U>(a: Archive, parse: string -> Result<U, string>)
    requires a.names == []
    ensures Resolve(a, parse) == Err(EmptyListing)
  {
  }

  // ---------------------------------------------------------------------------
  // Responses
  // ---------------------------------------------------------------------------

  /** The messages the handlers send back, one per `build_response` call. */
  datatype Response<P> =
    | ErrorResponse(text: string)
    | LoadZipFileResponse(name: string, size: nat)
    | GetPlayersResponse(players: P)
    | UpdateSaveFileResponse(text: string)
    | DownloadSaveFileResponse(name: string, content: string)

  /** What the save-file codec reports after loading: name, size and players. */
  datatype Loaded<P> = Loaded(name: string, size: nat, players: P)

  const ZipErrorPrefix: string := "Error processing zip file: "

  /** Python's `repr` of a list of plain strings. */
  function ListRepr(names: seq<string>): string {
    "[" + ReprItems(names) + "]"
  }

  /** The comma-separated quoted items inside `ListRepr`. */
  function ReprItems(names: seq<string>): string {
    if names == [] then ""
    else if |names| == 1 then "'" + names[0] + "'"
    else "'" + names[0] + "', " + ReprItems(names[1..])
  }

  /** `str(e)` for each exception the resolution raises. */
  function Describe(e: LoadError): string {
    match e
    case EmptyListing => "list index out of range"
    case MissingLevelSav(names) =>
      "Zip file does not contain 'Level.sav', available files: " + ListRepr(names)
    case InvalidUuid(_, message) => message
    case MissingEntry(name) => "\"There is no item named '" + name + "' in the archive\""
    case ReadFailed(_, message) => message
  }

  /**
    The responses of the zip handler. `upload` is the outcome of opening the
    upload with `zipfile.ZipFile` (the archive, or the message of the exception
    it raised); then comes the resolution, then the codec's
    `process_save_files` (the parameter `process`, failing with a message),
    then `LOAD_ZIP_FILE` and `GET_PLAYERS`. Any exception on the way becomes a
    single `ERROR`.
   */
  function ZipResponses<U(==), P>(
    upload: Result<Archive, string>, parse: string -> Result<U, string>,
    process: (string, Bytes, map<U, Bytes>) -> Result<Loaded<P>, string>)
    : seq<Response<P>>
  {
    match upload
    case Err(msg) => [ErrorResponse(ZipErrorPrefix + msg)]
    case Ok(a) =>
      match Resolve(a, parse)
      case Err(e) => [ErrorResponse(ZipErrorPrefix + Describe(e))]
      case Ok(layout) =>
        match process(layout.saveId, layout.levelSav, layout.players)
        case Err(msg) => [ErrorResponse(ZipErrorPrefix + msg)]
        case Ok(loaded) => [LoadZipFileResponse(loaded.name, loaded.size), GetPlayersResponse(loaded.players)]
  }

  /** The zip upload handler. */
  method LoadZipFile<U(==), P>(
    upload: Result<Archive, string>, parse: string -> Result<U, string>,
    process: (string, Bytes, map<U, Bytes>) -> Result<Loaded<P>, string>)
    returns (responses: seq<Response<P>>)
    ensures responses == ZipResponses(upload, parse, process)
  {
    if upload.Err? {
      return [ErrorResponse(ZipErrorPrefix + upload.error)];
    }
    var resolved := ResolveArchive(upload.value, parse);
    if resolved.Err? {
      return [ErrorResponse(ZipErrorPrefix + Describe(resolved.error))];
    }
    var layout := resolved.value;
    var loaded := process(layout.saveId, layout.levelSav, layout.players);
    if loaded.Err? {
      return [ErrorResponse(ZipErrorPrefix + loaded.error)];
    }
    responses := [LoadZipFileResponse(loaded.value.name, loaded.value.size),
                  GetPlayersResponse(loaded.value.players)];
  }

  /** Opening, resolving and loading all succeed. */
  predicate ZipLoads<U(==), P>(
    upload: Result<Archive, string>, parse: string -> Result<U, string>,
    process: (string, Bytes, map<U, Bytes>) -> Result<Loaded<P>, string>)
  {
    && upload.Ok?
    && Resolve(upload.value, parse).Ok?
    && var layout := Resolve(upload.value, parse).value;
       process(layout.saveId, layout.levelSav, layout.players).Ok?
  }

  /**
    The handler answers either with one `ERROR` whose text starts with
    "Error processing zip file: ", or with `LOAD_ZIP_FILE` followed by
    `GET_PLAYERS` carrying what the codec reported for the resolved layout; the
    second happens exactly when opening, resolution and the codec all succeed.
   */
  lemma ZipResponsesShape<U, P>(
    upload: Result<Archive, string>, parse: string -> Result<U, string>,
    process: (string, Bytes, map<U, Bytes>) -> Result<Loaded<P>, string>)
    ensures var rs := ZipResponses(upload, parse, process);
      !ZipLoads(upload, parse, process) ==>
        |rs| == 1 && rs[0].ErrorResponse? && ZipErrorPrefix <= rs[0].text
    ensures var rs := ZipResponses(upload, parse, process);
      ZipLoads(upload, parse, process) ==>
        var layout := Resolve(upload.value, parse).value;
        var loaded := process(layout.saveId, layout.levelSav, layout.players).value;
        rs == [LoadZipFileResponse(loaded.name, loaded.size), GetPlayersResponse(loaded.players)]
  {
  }

  /**
    A failed resolution yields exactly one `ERROR`, carrying the exception's
    text, and no `LOAD_ZIP_FILE`; the codec is never called: the outcome is the
    same whatever `process` does, so no partial player map reaches it.
   */
  lemma ZipFailureSkipsCodec<U, P>(
    a: Archive, parse: string -> Result<U, string>,
    process1: (string, Bytes, map<U, Bytes>) -> Result<Loaded<P>, string>,
    process2: (string, Bytes, map<U, Bytes>) -> Result<Loaded<P>, string>)
    requires Resolve(a, parse).Err?
    ensures ZipResponses(Ok(a), parse, process1) == ZipResponses(Ok(a), parse, process2)
    ensures ZipResponses(Ok(a), parse, process1)
         == [ErrorResponse(ZipErrorPrefix + Describe(Resolve(a, parse).error))]
    ensures var rs := ZipResponses(Ok(a), parse, process1);
      !exists k :: 0 <= k < |rs| && rs[k].LoadZipFileResponse?
  {
  }

  /**
    The update handler's guard: with no save file loaded it answers with the
    single error "Error processing changes: No save file loaded". Otherwise the
    codec (`apply`, standing for the pal and player updates and `get_players`)
    decides between an error and "Changes saved" followed by the players.
   */
  function UpdateSaveFileResponses<S, P>(saveFile: Option<S>, apply: S -> Result<P, string>)
    : (rs: seq<Response<P>>)
    ensures saveFile.None? ==> rs == [ErrorResponse("Error processing changes: No save file loaded")]
    ensures |rs| == 1 || |rs| == 2
    ensures |rs| == 1 ==> rs[0].ErrorResponse? && "Error processing changes: " <= rs[0].text
    ensures saveFile.Some? && apply(saveFile.value).Err? ==>
      rs == [ErrorResponse("Error processing changes: " + apply(saveFile.value).error)]
    ensures saveFile.Some? && apply(saveFile.value).Ok? ==>
      rs == [UpdateSaveFileResponse("Changes saved"), GetPlayersResponse(apply(saveFile.value).value)]
  {
    match saveFile
    case None => [ErrorResponse("Error processing changes: No save file loaded")]
    case Some(s) =>
      match apply(s)
      case Err(msg) => [ErrorResponse("Error processing changes: " + msg)]
      case Ok(players) => [UpdateSaveFileResponse("Changes saved"), GetPlayersResponse(players)]
  }

  /**
    The download handler's guard: with no save file loaded it answers with the
    single error "Error downloading file: No save file loaded". Otherwise
    `encode` (the codec's `sav()` followed by Base64) decides between an error
    and one `DOWNLOAD_SAVE_FILE` named `Level.sav`.
   */
  function DownloadSaveFileResponses<S, P>(saveFile: Option<S>, encode: S -> Result<string, string>)
    : (rs: seq<Response<P>>)
    ensures |rs| == 1
    ensures saveFile.None? ==> rs[0] == ErrorResponse("Error downloading file: No save file loaded")
    ensures rs[0].ErrorResponse? ==> "Error downloading file: " <= rs[0].text
    ensures rs[0].DownloadSaveFileResponse? ==> saveFile.Some? && rs[0].name == "Level.sav"
    ensures saveFile.Some? && encode(saveFile.value).Err? ==>
      rs[0] == ErrorResponse("Error downloading file: " + encode(saveFile.value).error)
    ensures saveFile.Some? && encode(saveFile.value).Ok? ==>
      rs[0] == DownloadSaveFileResponse("Level.sav", encode(saveFile.value).value)
  {
    match saveFile
    case None => [ErrorResponse("Error downloading file: No save file loaded")]
    case Some(s) =>
      match encode(s)
      case Err(msg) => [ErrorResponse("Error downloading file: " + msg)]
      case Ok(content) => [DownloadSaveFileResponse("Level.sav", content)]
  }
}
