# Save-archive layout resolution of the Palworld save editor backend

The backend's WebSocket handler `load_zip_file_handler` accepts an uploaded
zip of a dedicated-server world. It reads the archive's entry names and does
four things:

- It takes the save identifier from the first entry's top-level directory.
- It requires `<save_id>/Level.sav` and reads that entry's bytes.
- It keeps the per-player `.sav` entries under `<save_id>/Players/`.
- It fills a dictionary from each player's UUID (the stem of the file name) to
  that file's bytes.

It then hands `(save_id, Level.sav bytes, player map)` to the save-file codec
and answers with `LOAD_ZIP_FILE` and `GET_PLAYERS`. Any exception is caught and
sent back as a single `ERROR` message starting "Error processing zip file: ".

The model has three files:

- `wrappers.dfy` holds `Option` and `Result`.
- `pytext.dfy` (module `PyText`) holds the Python string and POSIX path
  semantics the handler depends on. These are `str.split` with its inverse
  `join`, `str.rfind`, `startswith`/`endswith`, `posixpath.basename` and
  `posixpath.splitext`.
- `save_file_handler.dfy` (module `SaveFileHandler`) holds the layout
  resolution and the responses.

The pure parts are functions: the save id, the Level.sav key, the player-file
comprehension and the stem computation. The player loop, which fills the
dictionary in place, is the method `BuildPlayerData`. It is proved against the
function `PlayerData`, which is an instance of `FillMap`: the generic meaning of
`for f in files: d[k] = v` when a step can raise. The whole resolution is the
method `ResolveArchive`, proved against `Resolve`. The handler is the method
`LoadZipFile`, proved against `ZipResponses`.

External collaborators are parameters:

- The opened archive is an `Archive`: the `namelist()` sequence plus a map
  from each name the archive knows to the outcome of `zip_ref.read` on it. That
  outcome is the entry's bytes, or the message of the exception the read raises
  (a bad CRC-32 or header, an encrypted entry without a password, an unsupported
  compression method); the message is passed through into the ERROR text. A
  read of a name missing from the map fails as `zipfile` does with `KeyError`.
  `Consistent` states the zip library's guarantee that `getinfo` finds every
  listed name.
- Opening the upload (`zipfile.ZipFile`) is the `upload` parameter: the archive,
  or the message of the exception that was raised.
- `uuid.UUID` is `parse`, a function from the stem to a UUID of an abstract type
  `U`, or to the library's error message.
- `app_state.process_save_files` and the save-file name, size and players it
  produces are `process`.

Two facts about the source shape the model:

- `namelist()` always returns a list, so the `file_list is None` guard (line
  142) never fires. An empty archive fails at `file_list[0]` instead, and the
  catch-all turns the `IndexError` into the error response. The model has no
  `None` case and reports `EmptyListing`.
- Duplicate UUIDs are not rejected. When two selected files name the same UUID,
  the later one in listing order overwrites the earlier one.

## Model

| member | source | states |
|---|---|---|
| PyText.Join | palworld_save_pal/ws/handlers/save_file_handler.py:145 | `sep.join(parts)`: the pieces with one separator between neighbours; the inverse of `Split` (see `JoinSplit`, `SplitJoin`) |
| PyText.Split | palworld_save_pal/ws/handlers/save_file_handler.py:145 | `str.split("/")` returns at least one piece, and no piece contains the separator |
| PyText.JoinSplit | palworld_save_pal/ws/handlers/save_file_handler.py:145 | joining the pieces of a split with the separator gives back the original name |
| PyText.SplitJoin | palworld_save_pal/ws/handlers/save_file_handler.py:145 | splitting a join of separator-free pieces gives back exactly those pieces |
| PyText.SplitHead | palworld_save_pal/ws/handlers/save_file_handler.py:145 | the first piece is a prefix of the name, followed by the separator when it is shorter; it is the whole name when there is no separator |
| PyText.SplitPrefix | palworld_save_pal/ws/handlers/save_file_handler.py:145 | a separator-free prefix joins the first piece of the remainder's split |
| PyText.RFind | palworld_save_pal/ws/handlers/save_file_handler.py:163 | `str.rfind` returns -1 or an index inside the string |
| PyText.RFindLast | palworld_save_pal/ws/handlers/save_file_handler.py:163 | a non-negative result points at the character, and no occurrence follows it |
| PyText.RFindAt | palworld_save_pal/ws/handlers/save_file_handler.py:163 | an occurrence with no later occurrence is exactly what `rfind` returns |
| PyText.RFindAbsent | palworld_save_pal/ws/handlers/save_file_handler.py:163 | `rfind` of an absent character is -1 |
| PyText.Basename | palworld_save_pal/ws/handlers/save_file_handler.py:163 | `os.path.basename`: the text after the last `/`, or the whole path when it has none |
| PyText.BasenameFacts | palworld_save_pal/ws/handlers/save_file_handler.py:163 | `basename` is a `/`-free suffix of the path, preceded by `/` when shorter than the path |
| PyText.BasenameAfterSlash | palworld_save_pal/ws/handlers/save_file_handler.py:163 | the basename of `dir/` followed by a `/`-free name is that name |
| PyText.BasenameKeepsSuffix | palworld_save_pal/ws/handlers/save_file_handler.py:163 | a `/`-free suffix of a path, such as `.sav`, is also a suffix of its basename, and the basename has no `/` |
| PyText.AllDotsIff | palworld_save_pal/ws/handlers/save_file_handler.py:163 | `AllDots` holds exactly when every character is a dot (the leading-dots rule of `splitext`) |
| PyText.SplitExt | palworld_save_pal/ws/handlers/save_file_handler.py:163 | `os.path.splitext`: cut at the last dot when it follows the last `/` and something other than dots precedes it within the last component; otherwise no extension |
| PyText.SplitExtFacts | palworld_save_pal/ws/handlers/save_file_handler.py:163 | `splitext` root and extension concatenate to the input; a non-empty extension is one dot followed by text with no dot and no `/` |
| PyText.StemOfExtension | palworld_save_pal/ws/handlers/save_file_handler.py:163 | for a name ending in a one-dot extension, `splitext` removes that extension unless everything before it is dots |
| SaveFileHandler.SaveIdOf | palworld_save_pal/ws/handlers/save_file_handler.py:145 | `save_id` is the first piece of splitting the first entry at `/` |
| SaveFileHandler.LevelSavKey | palworld_save_pal/ws/handlers/save_file_handler.py:146 | the mandatory entry is `<save_id>/Level.sav` |
| SaveFileHandler.PlayersPrefix | palworld_save_pal/ws/handlers/save_file_handler.py:159 | player files live under `<save_id>/Players/` |
| SaveFileHandler.IsPlayerFile | palworld_save_pal/ws/handlers/save_file_handler.py:159 | the comprehension's condition: starts with `<save_id>/Players/` and ends with `.sav` |
| SaveFileHandler.SaveIdIsFirstSegment | palworld_save_pal/ws/handlers/save_file_handler.py:145 | `save_id` is the first entry up to, not including, its first `/`, and the whole entry when it has no `/` |
| SaveFileHandler.SaveIdOfPath | palworld_save_pal/ws/handlers/save_file_handler.py:145 | the save id of a `/`-joined path is its first component |
| SaveFileHandler.SelectPlayerFiles | palworld_save_pal/ws/handlers/save_file_handler.py:156-160 | an entry is selected iff it is listed, starts with `<save_id>/Players/` and ends with `.sav` |
| SaveFileHandler.SelectConcat | palworld_save_pal/ws/handlers/save_file_handler.py:156-160 | the selection is an order-preserving filter: selecting from `a + b` is the selection from `a` followed by that from `b` |
| SaveFileHandler.SelectCounts | palworld_save_pal/ws/handlers/save_file_handler.py:156-160 | a selected entry occurs as often as it is listed; any other entry does not occur |
| SaveFileHandler.PlayerStem | palworld_save_pal/ws/handlers/save_file_handler.py:163 | the player id is the `splitext` root of the entry's basename |
| SaveFileHandler.PlayerStemOfSelected | palworld_save_pal/ws/handlers/save_file_handler.py:159-163 | the key of an entry ending in `.sav` (so of every selected entry) is its basename minus the final `.sav`, or the whole basename when what precedes `.sav` is dots only |
| SaveFileHandler.StemOfSav | palworld_save_pal/ws/handlers/save_file_handler.py:163 | `splitext` of a `/`-free name ending in `.sav` drops the `.sav` unless what precedes it is dots only |
| SaveFileHandler.PlayerPathSelected | palworld_save_pal/ws/handlers/save_file_handler.py:156-160 | `<save_id>/Players/` followed by any text ending in `.sav` is a selected player file |
| SaveFileHandler.PlayerStemOfPath | palworld_save_pal/ws/handlers/save_file_handler.py:156-163 | `<save_id>/Players/<dirs><id>.sav`, flat or nested, is selected and has key `<id>` |
| SaveFileHandler.StemOfSavName | palworld_save_pal/ws/handlers/save_file_handler.py:163 | a path whose basename is `<id>.sav` has key `<id>` unless `<id>` is dots only |
| SaveFileHandler.FillMap | palworld_save_pal/ws/handlers/save_file_handler.py:161-165 | the dictionary that `for f in files: d[k] = v` builds, or the first exception a step raises, with no dictionary |
| SaveFileHandler.FillMapPrefixError | palworld_save_pal/ws/handlers/save_file_handler.py:161-165 | once a prefix of the loop raises, the whole loop raises the same exception |
| SaveFileHandler.FillMapOkIff | palworld_save_pal/ws/handlers/save_file_handler.py:161-165 | the loop completes iff no step raises |
| SaveFileHandler.FillMapFirstError | palworld_save_pal/ws/handlers/save_file_handler.py:161-165 | a failed loop reports the exception of the first step that raises |
| SaveFileHandler.FillMapKeys | palworld_save_pal/ws/handlers/save_file_handler.py:161-165 | the finished dictionary's keys are exactly the keys the steps computed |
| SaveFileHandler.FillMapLastWins | palworld_save_pal/ws/handlers/save_file_handler.py:161-165 | a key computed by several steps holds the value of the last of them |
| SaveFileHandler.Read | palworld_save_pal/ws/handlers/save_file_handler.py:153 | `zip_ref.read`: `KeyError` for an unknown name, otherwise the entry's bytes or the exception its decompression raises |
| SaveFileHandler.ReadOk | palworld_save_pal/ws/handlers/save_file_handler.py:153 | a read succeeds iff the name is known and its entry decompresses, and then returns exactly that entry's bytes; an unknown name gives `KeyError`, a failing entry passes its message on |
| SaveFileHandler.ReadPlayer | palworld_save_pal/ws/handlers/save_file_handler.py:163-165 | one loop step: parse the stem with `uuid.UUID` (its error first), then read the entry, giving `(uuid, bytes)` |
| SaveFileHandler.PlayerData | palworld_save_pal/ws/handlers/save_file_handler.py:161-165 | the player loop as a value: `FillMap` over the selected files with `ReadPlayer` as the step |
| SaveFileHandler.ReadPlayerOk | palworld_save_pal/ws/handlers/save_file_handler.py:163-165 | one step succeeds iff the stem parses as a UUID and the entry is known and decompresses, and yields `(uuid, that entry's bytes)` |
| SaveFileHandler.PlayerDataOkIff | palworld_save_pal/ws/handlers/save_file_handler.py:161-165 | the player map is built iff every selected stem is a valid UUID and every selected entry is known and decompresses |
| SaveFileHandler.PlayerDataKeys | palworld_save_pal/ws/handlers/save_file_handler.py:161-165 | the player map's keys are exactly the UUIDs of the selected files |
| SaveFileHandler.PlayerDataLastWins | palworld_save_pal/ws/handlers/save_file_handler.py:161-165 | when several files name one UUID, the map holds the bytes of the last of them in listing order |
| SaveFileHandler.PlayerDataFirstError | palworld_save_pal/ws/handlers/save_file_handler.py:161-165 | a failed loop reports the first selected file whose stem is not a UUID or which cannot be read, and no map |
| SaveFileHandler.BuildPlayerData | palworld_save_pal/ws/handlers/save_file_handler.py:161-165 | the in-place dictionary loop returns exactly `PlayerData` of the selected files |
| SaveFileHandler.Resolve | palworld_save_pal/ws/handlers/save_file_handler.py:140-165 | the resolution as a value: an empty listing fails at `file_list[0]`; an unlisted `<save_id>/Level.sav` fails with the listing; a failed read of it fails; then the player loop; on success `(save_id, Level.sav bytes, player map)` |
| SaveFileHandler.ResolveArchive | palworld_save_pal/ws/handlers/save_file_handler.py:140-165 | the handler's resolution steps return exactly `Resolve` of the archive |
| SaveFileHandler.ResolveOkIff | palworld_save_pal/ws/handlers/save_file_handler.py:142-165 | resolution succeeds iff the listing is non-empty, lists `save_id + "/Level.sav"` and that entry reads, and every selected stem is a valid UUID of an entry that reads |
| SaveFileHandler.ResolveOk | palworld_save_pal/ws/handlers/save_file_handler.py:145-165 | on success: the save id is the first entry's text before its first `/`; `<save_id>/Level.sav` is listed and its bytes are returned; the player map is the complete one built from the selected files |
| SaveFileHandler.ResolveEmpty | palworld_save_pal/ws/handlers/save_file_handler.py:142-145 | an empty listing never resolves; it fails at `file_list[0]` |
| SaveFileHandler.ResolveConsistentReads | palworld_save_pal/ws/handlers/save_file_handler.py:148-165 | on an archive whose listed names `getinfo` all finds, no read fails with `KeyError` (a listed entry can still fail to decompress) |
| SaveFileHandler.ListRepr | palworld_save_pal/ws/handlers/save_file_handler.py:149-151 | the `{file_list}` text: Python's `repr` of a list of strings, items quoted and separated by `, ` |
| SaveFileHandler.Describe | palworld_save_pal/ws/handlers/save_file_handler.py:145-165 | `str(e)` of each exception: the `IndexError` text, the missing-Level.sav message with the listing, the `uuid.UUID` message, the `KeyError` text, and the read failure's message |
| SaveFileHandler.ZipResponses | palworld_save_pal/ws/handlers/save_file_handler.py:136-198 | the handler's messages as a value: an error in opening, resolving or the codec gives one prefixed ERROR; otherwise LOAD_ZIP_FILE with the codec's name and size, then GET_PLAYERS |
| SaveFileHandler.LoadZipFile | palworld_save_pal/ws/handlers/save_file_handler.py:136-198 | the handler sends exactly `ZipResponses` of its inputs |
| SaveFileHandler.ZipResponsesShape | palworld_save_pal/ws/handlers/save_file_handler.py:167-198 | unless opening, resolution and the codec all succeed, the handler sends one ERROR starting "Error processing zip file: "; otherwise it sends LOAD_ZIP_FILE then GET_PLAYERS with what the codec reported for the resolved layout |
| SaveFileHandler.ZipFailureSkipsCodec | palworld_save_pal/ws/handlers/save_file_handler.py:167-169 | a failed resolution sends exactly one ERROR with the prefixed exception text and no LOAD_ZIP_FILE; the codec is never called, so the result does not depend on it |
| SaveFileHandler.UpdateSaveFileResponses | palworld_save_pal/ws/handlers/save_file_handler.py:62-92 | with no save loaded, the single error "Error processing changes: No save file loaded"; a failing update gives exactly one error carrying its message after the prefix; a successful one gives "Changes saved" followed by GET_PLAYERS with exactly the players it produced |
| SaveFileHandler.DownloadSaveFileResponses | palworld_save_pal/ws/handlers/save_file_handler.py:102-126 | exactly one response: with no save loaded, "Error downloading file: No save file loaded"; a failing encoding gives one error carrying its message after the prefix; a successful one gives a download named `Level.sav` with exactly the encoded content |

## Left out

- WebSocket I/O is not modelled: `ws.send_json`, the progress messages sent through `ws_callback`, logging and `traceback.print_exc`. Responses are returned as a sequence instead.
- Zip decompression is left out. The archive is an entry list plus a map from name to read outcome, so a failure to open the zip or to decompress an entry is only an input message, and duplicate entry names are only whatever the map holds.
- The insertion order of the `player_data` dictionary is not modelled. `Layout` holds a Dafny `map`, which has no order. In Python an overwritten UUID keeps the position of its first file, and that order reaches `process_save_files` (line 167).
- The grammar accepted by `uuid.UUID` is left out (hyphens, braces, `urn:uuid:`, case). `parse` is an abstract parameter, and its error text is passed through.
- `app_state.process_save_files`, the save-file name, size and players, and `jsonable_encoder` are the `process` parameter. A failure in `jsonable_encoder` after LOAD_ZIP_FILE has been sent is not modelled.
- `load_save_file_handler` (lines 23-52) is not modelled. It only forwards bytes to the external codec.
- UpdateSaveFileResponses: keeps only the "No save file loaded" guard and the response shape. The pal and player updates and `get_players` are one parameter `apply`, because their results come from the external codec.
- DownloadSaveFileResponses: keeps only the guard and the response shape. `sav()` and the Base64 encoding (RFC 4648, section 4) are one parameter `encode`.
- SaveFileHandler.Describe: quotes each file name in the "available files" list, and the name in the `KeyError` text, with single quotes. Python's `repr` escaping of quotes and backslashes, and its switch to double quotes for a name containing a single quote, are not reproduced.
