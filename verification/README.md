# PlayerPrefsJson in Dafny

A model of PlayerPrefsJson, the drop-in replacement for Unity's `PlayerPrefs`
that keeps typed float/int/string settings in one JSON file and falls back to,
and migrates from, the built-in PlayerPrefs store.

- `values.dfy` (`Values`): the tagged scalar `Value` (`FloatVal | IntVal | StrVal`)
  and its JSON token type `Kind`. An integer token is unbounded, because a
  parsed file may hold integers beyond 32 bits. Values the library writes, and
  PlayerPrefs integers, fit the 32-bit `Int32`. It also defines the
  sentinels `MaxFloat` (`float.MaxValue`, as an exact real) and `MaxInt`
  (`int.MaxValue`).
- `legacy_prefs.dfy` (`LegacyPrefs`): Unity's PlayerPrefs seen only through the
  calls the library makes. Each key holds at most one typed value. A typed getter
  returns the caller's default when the key is absent or holds another type.
- `player_prefs_json.dfy` (`PlayerPrefsJson`): the static state of the library
  as one immutable `Store`. The JSON object is `None` while it is null, and
  PlayerPrefs and the cached file path sit beside it. Every public and private
  operation is a pure function from the store before the call to the store
  after it, with the call's return value where there is one.
  - The three `Set*` are one `Set` on a `Value`.
  - The six typed getters are one `Get`, whose kind is that of the default.
    `GetFloat`, `GetInt` and `GetString`, and the overloads without a default
    (`GetFloatOrZero`, `GetIntOrZero`, `GetStringOrEmpty`), wrap it.
  - The three `Get*FromPlayerPrefs` are one `GetFromPlayerPrefs`.
  - `SavePlayerPrefsJson` is `SaveAndDiscard`.
- `helpers.dfy` (`PlayerPrefsJsonHelpers`): name validation, the decision
  logic of `DeterminePath`, and the settings selection of
  `GetPlayerPrefsJsonSettings` (`SelectSettings`).
- `session.dfy` (`PlayerPrefsJsonSession`): runs of public calls against
  one store, with invariants proved by induction over the run.
- `store_properties.dfy` and `helpers_properties.dfy`: lemmas relating
  several calls.

Abstracted inputs:
- `Path.Combine` is a `join` function parameter.
- Whether the directory exists or could be created is a boolean.
- `Application.persistentDataPath` is a string parameter.
- Whether the file system accepts a write is a boolean.
- The file found at load time is a `FileProbe`: missing, or present with its
  parsed document (or a parse failure).
- Newtonsoft's explicit token conversions `(float)(double)t`, `(int)t` and
  `(string)t` are a `Casts` parameter. This is three total functions, where
  None means the conversion throws (or yields a null string). Lemmas about
  reads assume `Casts.Faithful`: a token read as its own type gives back the
  value written, except that an integer token outside 32 bits overflows `(int)`. Cross-type reads are whatever `Casts` says.

Two facts about path resolution that are easy to get wrong:
- `DeterminePath` checks the `.json` extension only. It does not check for
  forbidden characters or separators, so `("a<b", "sub/prefs.json")` yields a
  path. Those checks run only in the editor window (`DeterminePathChecksOnlyTheExtension`).
- A JSON file name must be strictly longer than five characters, so `.json`
  alone is rejected.

## Model

| member | source | states |
|---|---|---|
| PlayerPrefsJson.DeleteAll | PlayerPrefsJson.cs:25-31 | always leaves an initialized, empty JSON object, even from a null one; PlayerPrefs is emptied iff asked, else untouched |
| PlayerPrefsJson.DeleteKey | PlayerPrefsJson.cs:39-51 | no effect on a null object; otherwise the key is gone from the object and every other key is untouched; the PlayerPrefs key is removed iff asked (others untouched) |
| PlayerPrefsJson.Set | PlayerPrefsJson.cs:334-414 | `SetFloat`, `SetInt` and `SetString` (the wrappers of the same names apply it to a tagged value): no effect on a null object; a key holding another token type is left as is (type fixed at first write); otherwise the key holds the written value afterwards and no other key changes |
| PlayerPrefsJson.Probe | PlayerPrefsJson.cs:548-570 | a typed sentinel probe finds exactly the PlayerPrefs entry of that type, and misses iff the key is absent, of another type, or holds that type's sentinel (`float.MaxValue`, `int.MaxValue`, empty string) |
| PlayerPrefsJson.GetFromPlayerPrefs | PlayerPrefsJson.cs:459-542 | a missed probe returns the caller's default with nothing changed; a hit returns the PlayerPrefs value, changes nothing without the delete flag, and with it attempts the write and deletes the PlayerPrefs key even if the write was rejected |
| PlayerPrefsJson.Get | PlayerPrefsJson.cs:62-266 | the six typed getters (the wrappers `GetFloat`, `GetInt`, `GetString` and `GetFloatOrZero`, `GetIntOrZero`, `GetStringOrEmpty` project it to one type): the default on a null object; the stored token when it converts, with nothing changed; for a key that is absent or whose token does not convert, the PlayerPrefs fallback when asked and otherwise the default; no state change unless both flags are set; only the requested key can change in either store; the result has the requested type |
| PlayerPrefsJson.SetKey | PlayerPrefsJson.cs:548-570 | the Float, Int, String probing order copies exactly the PlayerPrefs entry unless it is its type's sentinel, and copies nothing otherwise; because a PlayerPrefs key holds one typed value, no other probing order would give a different result, so no contract depends on the order |
| PlayerPrefsJson.HasKey | PlayerPrefsJson.cs:277-303 | false on a null object; true with no change when the object has the key; otherwise PlayerPrefs' existence answer when asked (false when not); state changes only with both flags, and then the PlayerPrefs key is gone |
| PlayerPrefsJson.Save | PlayerPrefsJson.cs:308-327 | an access failure iff the object is null; writes the whole object to the cached path iff the object and path exist and the file system accepts it |
| PlayerPrefsJson.SaveAndDiscard | PlayerPrefsJson.cs:575-580 | the quit hook saves (an access failure iff the object is null; on success the whole object written to the cached path), then leaves the object and the cached path null with PlayerPrefs untouched |
| PlayerPrefsJson.Load | PlayerPrefsJson.cs:420-449 | an empty determined path or a parse failure leaves the store as it was; a missing file gives an empty object, a parsed file its contents; a failed write of the new file keeps the old path and registers no hook; every load that gets through caches the determined path and registers the quit hook iff save-on-quit |
| PlayerPrefsJsonProperties.NullDocumentIsInert | PlayerPrefsJson.cs:41-45 | with a null object, Set, DeleteKey, HasKey, every getter and Save change nothing, and return false, the default, 0 / 0 / "" or an access failure |
| PlayerPrefsJsonProperties.InertAfterSaveAndDiscard | PlayerPrefsJson.cs:575-580 | after the quit hook every operation short-circuits as on a null object |
| PlayerPrefsJsonProperties.OverloadsWithoutDefault | PlayerPrefsJson.cs:62-85 | the getter overloads without a default equal those with default 0, 0 and "" |
| PlayerPrefsJsonProperties.SetThenGet | PlayerPrefsJson.cs:334-356 | a value written without type conflict (an integer within 32 bits, as `SetInt` writes) is read back unchanged, and the read changes nothing |
| PlayerPrefsJsonProperties.StoredValueIsReturned | PlayerPrefsJson.cs:105-110 | a key holding the requested type (an integer within 32 bits) returns its stored value and changes neither store, whatever the flags |
| PlayerPrefsJsonProperties.StoredEmptyStringIsReturned | PlayerPrefsJson.cs:247-255 | a stored empty string is returned as "" and does not trigger the PlayerPrefs fallback |
| PlayerPrefsJsonProperties.TypeFixedAtFirstWrite | PlayerPrefsJson.cs:371-378 | after SetInt(k, 1), SetString(k, "x") changes nothing and GetInt(k) is still 1 |
| PlayerPrefsJsonProperties.DeleteKeyIdempotent | PlayerPrefsJson.cs:39-51 | deleting a key twice is the same as deleting it once |
| PlayerPrefsJsonProperties.DeleteThenGet | PlayerPrefsJson.cs:47-50 | after deleting a key from both stores, every getter returns its default with nothing changed and HasKey is false |
| PlayerPrefsJsonProperties.DeleteAllThenHasKey | PlayerPrefsJson.cs:25-31 | after DeleteAll with PlayerPrefs, HasKey is false and every getter returns its default, with nothing changed |
| PlayerPrefsJsonProperties.AbsentKeyGivesDefault | PlayerPrefsJson.cs:111-119 | for a key absent from the object, without the PlayerPrefs flag or on a sentinel probe, the default is returned and nothing changes |
| PlayerPrefsJsonProperties.AbsentKeyMigrates | PlayerPrefsJson.cs:459-480 | for a key only PlayerPrefs has, the PlayerPrefs value is returned; with the delete flag it is inserted into the object and removed from PlayerPrefs, without it nothing changes |
| PlayerPrefsJsonProperties.UnconvertibleTokenFallsBack | PlayerPrefsJson.cs:105-119 | a present token that fails to convert is treated as missing: without the PlayerPrefs flag or on a missed probe, the default with nothing changed; otherwise the PlayerPrefs value, with nothing changed without the delete flag, and with it the write attempted and the PlayerPrefs key removed |
| PlayerPrefsJsonProperties.RejectedMigrationStillDeletes | PlayerPrefsJson.cs:472-477 | when the object holds the key with an unreadable token of another type, migration leaves the object unchanged yet deletes the PlayerPrefs entry |
| PlayerPrefsJsonProperties.OverflowingIntIsReplacedByMigration | PlayerPrefsJson.cs:174-184 | a stored integer outside 32 bits fails GetInt's conversion; with a PlayerPrefs integer and both flags, that value is returned, overwrites the stored token and leaves PlayerPrefs; without one, the default is returned and nothing changes |
| PlayerPrefsJsonProperties.HasKeyMigrates | PlayerPrefsJson.cs:289-300 | with both flags, HasKey on a key only PlayerPrefs may have returns PlayerPrefs' answer, copies the entry unless it is a sentinel, and removes exactly that key from PlayerPrefs |
| PlayerPrefsJsonProperties.HasKeyLosesSentinelEntry | PlayerPrefsJson.cs:291-299 | a PlayerPrefs entry equal to its type's sentinel makes HasKey true but ends up in neither store |
| PlayerPrefsJsonProperties.FloatMigrationScenario | PlayerPrefsJson.cs:97-120 | a PlayerPrefs float 3.5 read with migration returns 3.5; afterwards the object has the key and PlayerPrefs does not |
| PlayerPrefsJsonProperties.LoadWithoutPathLeavesDocumentNull | PlayerPrefsJson.cs:426-432 | a failed directory or a non-JSON file name keeps the object null, caches no path and registers no hook |
| PlayerPrefsJsonProperties.LoadSetSaveScenario | PlayerPrefsJson.cs:434-438 | with no file yet, a load creates an empty object; after SetFloat("volume", 0.8) a save writes exactly that entry to the joined path |
| PlayerPrefsJsonSession.TypeFixedAcrossRun | PlayerPrefsJson.cs:342-349 | across any run of Set, Get, HasKey, DeleteKey on other keys and Save calls, an existing property survives with the token type it had |
| PlayerPrefsJsonSession.NullStoreIgnoresRun | PlayerPrefsJson.cs:25-45 | while the JSON object is null, a run of calls without DeleteAll leaves both stores exactly as they were |
| PlayerPrefsJsonSession.RunKeepsDocument | PlayerPrefsJson.cs:575-580 | no run of public calls makes an initialized JSON object null again; only the quit hook does |
| PlayerPrefsJsonHelpers.IsBlank | PlayerPrefsJsonHelpers.cs:56-57 | true iff every character is `char.IsWhiteSpace`, the empty string included |
| PlayerPrefsJsonHelpers.ContainsAny | PlayerPrefsJsonHelpers.cs:59-66 | true iff some character belongs to the given set (separator test and character-class regex) |
| PlayerPrefsJsonHelpers.ValidateDirectoryOrFileName | PlayerPrefsJsonHelpers.cs:54-67 | true iff the name has a non-whitespace character, has none of the forbidden characters (angle brackets, colon, double quote, vertical bar, question mark, asterisk), and, for a file name, has no `/` or `\` |
| PlayerPrefsJsonHelpers.ValidateJsonFileName | PlayerPrefsJsonHelpers.cs:74-81 | true iff the name is longer than five characters and its last five characters are `.json`, case-sensitively |
| PlayerPrefsJsonHelpers.DeterminePath | PlayerPrefsJsonHelpers.cs:23-45 | "" when the directory cannot be made ready or the file name fails the JSON check; otherwise the join of directory and file name |
| PlayerPrefsJsonHelpers.SelectSettings | PlayerPrefsJsonHelpers.cs:87-106 | keeps the current configuration when no asset loads or its directory or file name is empty; otherwise takes the file name and save-on-quit flag, and the directory joined to persistentDataPath iff that flag is set, else as is |
| PlayerPrefsJsonHelpersProperties.FileNameValidImpliesDirectoryValid | PlayerPrefsJsonHelpers.cs:54-67 | a name valid as a file name is valid as a directory name |
| PlayerPrefsJsonHelpersProperties.BlankNameRejected | PlayerPrefsJsonHelpers.cs:56-57 | an empty or whitespace-only name is rejected in both modes |
| PlayerPrefsJsonHelpersProperties.ForbiddenCharRejected | PlayerPrefsJsonHelpers.cs:65-66 | any forbidden character rejects the name in both modes |
| PlayerPrefsJsonHelpersProperties.SeparatorOnlyRejectsFileNames | PlayerPrefsJsonHelpers.cs:59-63 | `a/b` and `a\b` are valid directory names but not file names; `a<b` and a blank name are not valid |
| PlayerPrefsJsonHelpersProperties.JsonFileNameIsStemAndExtension | PlayerPrefsJsonHelpers.cs:74-81 | a stem followed by `.json` passes the JSON check iff the stem is non-empty |
| PlayerPrefsJsonHelpersProperties.JsonFileNameSplits | PlayerPrefsJsonHelpers.cs:79-80 | every name that passes the JSON check is a non-empty stem followed by `.json` |
| PlayerPrefsJsonHelpersProperties.JsonFileNameExamples | PlayerPrefsJsonHelpers.cs:76-80 | `.json`, `Prefs.JSON` and `prefs` fail the JSON check; `prefs.json` passes |
| PlayerPrefsJsonHelpersProperties.DefaultFileNameIsValid | PlayerPrefsJsonHelpers.cs:14 | the default `Prefs.json` passes both the JSON check and file-name validation |
| PlayerPrefsJsonHelpersProperties.PlainNameIsValidFileName | PlayerPrefsJsonHelpers.cs:54-67 | a non-empty name of letters, digits and dots is a valid file name |
| PlayerPrefsJsonHelpersProperties.DeterminePathChecksOnlyTheExtension | PlayerPrefsJsonHelpers.cs:38-44 | a path is produced for a directory with a forbidden character and a file name with a separator; none without the extension or without the directory |
| PlayerPrefsJsonHelpersProperties.DefaultAssetSelection | PlayerPrefsJsonHelpers.cs:94-100 | a fresh settings asset selects persistentDataPath joined with `Saves/Prefs`, `Prefs.json` and save-on-quit, and that yields a path |
| PlayerPrefsJsonHelpersProperties.DefaultConfigDeterminesPath | PlayerPrefsJsonHelpers.cs:13-15 | the built-in configuration saves on quit and determines the path persistentDataPath/Saves/Prefs/Prefs.json |
| PlayerPrefsJsonHelpersProperties.ValidateJsonFileNameIffStem | PlayerPrefsJsonHelpers.cs:74-81 | the JSON check accepts a name iff it is some non-empty stem followed by `.json` |
| PlayerPrefsJsonHelpersProperties.DeterminePathCharacterized | PlayerPrefsJsonHelpers.cs:23-45 | for every input, the result is the join of directory and file name iff the directory is ready and the file name is a non-empty stem followed by `.json`, and "" otherwise |
| PlayerPrefsJsonHelpersProperties.SelectSettingsInvariants | PlayerPrefsJsonHelpers.cs:91-100 | a non-empty file name is never replaced by an empty one, a non-empty directory stays non-empty unless the persistentDataPath join is used, and selecting twice with the same asset equals selecting once |
| PlayerPrefsJsonHelpersProperties.SelectedSettingsDeterminePath | PlayerPrefsJsonHelpers.cs:91-100 | after settings selection, the load finds a path iff the directory is ready and the chosen file name (the asset's when usable, else the current one) is a non-empty stem followed by `.json` |

## Left out

- File and directory I/O. `File.Exists`, `File.ReadAllText`, `File.WriteAllText`,
  `Directory.Exists` and `Directory.CreateDirectory` become the boolean and
  `FileProbe` inputs described above.
- JSON text. Serialization (`JObject.ToString`) and parsing (`JObject.Parse`)
  belong to Newtonsoft, whose code is not part of this model. A save outcome
  carries the document, not its text.
- Property order. A `JObject` keeps its properties in insertion order, and an
  overwrite keeps a property in place. The document is a map, so the order of
  properties in the written file is not modelled; no operation depends on it.
- Newtonsoft's cross-type conversions. Examples are an integer token read as a
  float, a numeric string read as an int, or a number read as a string. They
  are the abstract `Casts` parameter, not computed.
- JSON tokens other than float, integer and string. A hand-edited file could
  hold booleans, nulls, arrays or objects. The document holds scalars only.
- C# null strings. A null key, value, or settings field is not modelled. The
  empty-string branches cover the same `IsNullOrEmpty` tests.
- Floating-point semantics. Floats are reals compared only with
  `float.MaxValue`. The float-to-double widening on write is not modelled.
- Unity's PlayerPrefs beyond the typed-getter, has, delete and delete-all
  contract. Platform storage, and keys holding several types, are not modelled.
  As a result, the Float, Int, String probing order of `SetKey` is modelled
  but cannot be observed: any order gives the same store.
- `Debug.Log*` diagnostics are not modelled. Warnings and errors leave no
  trace in the model.
- `Application.quitting` registration. `Load` reports whether the hook would
  be registered; the event itself is not modelled.
- `Editor/PlayerPrefsJsonTool.cs` is not part of this model. It is editor GUI
  and directory deletion; its `.json` auto-append is UI glue.
- `PlayerPrefsJsonSettings.cs` is not part of this model beyond its field
  defaults (`DefaultAsset`). It is an asset holder with asset loading and
  `SetDirty`.
- Concurrency. The library is single-threaded and every call runs to completion.
