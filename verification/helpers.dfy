/**
 Location of the JSON file: name validation, the path decision taken at load
 time, and the selection of user settings over the built-in defaults.
 `Path.Combine` is an abstract `join` parameter and creating the directory is an
 abstract success flag; neither is interpreted here.
 */
module PlayerPrefsJsonHelpers {
  import opened Wrappers

  const DefaultFileName: string := "Prefs.json"
  const JsonExtension: string := ".json"

  /** The characters of the validation regex `[<>:"|?*]` (case folding changes none of them). */
  const ForbiddenChars: set<char> := {'<', '>', ':', '"', '|', '?', '*'}

  /** Characters a file name may not hold because they separate path components. */
  const Separators: set<char> := {'/', '\\'}

  /** `char.IsWhiteSpace`: the Unicode space, line and paragraph separators and the
      control characters U+0009..U+000D and U+0085. */
  predicate IsWhiteSpace(c: char) {
    || c == ' '
    || '\t' <= c <= '\r'
    || c == '\U{85}'
    || c == '\U{A0}'
    || c == '\U{1680}'
    || '\U{2000}' <= c <= '\U{200A}'
    || c == '\U{2028}'
    || c == '\U{2029}'
    || c == '\U{202F}'
    || c == '\U{205F}'
    || c == '\U{3000}'
  }

  ghost predicate HasVisibleChar(s: string) {
    exists i :: 0 <= i < |s| && !IsWhiteSpace(s[i])
  }

  ghost predicate NoneOf(s: string, cs: set<char>) {
    forall i :: 0 <= i < |s| ==> s[i] !in cs
  }

  ghost predicate EndsWith(s: string, suffix: string) {
    |suffix| <= |s| && forall i :: 0 <= i < |suffix| ==> s[|s| - |suffix| + i] == suffix[i]
  }

  /** `String.IsNullOrWhiteSpace` on a non-null string. */
  function IsBlank(s: string): (r: bool)
    ensures r <==> !HasVisibleChar(s)
  {
    if |s| == 0 then true
    else IsWhiteSpace(s[0]) && IsBlank(s[1..])
  }

  /** Whether some character of `s` is in `cs`: `Contains` on one-character strings,
      and `IsMatch` of a character-class regex. */
  function ContainsAny(s: string, cs: set<char>): (r: bool)
    ensures r <==> !NoneOf(s, cs)
  {
    if |s| == 0 then false
    else s[0] in cs || ContainsAny(s[1..], cs)
  }

  /** A directory or file name is valid when it is not blank, holds none of the
      forbidden characters and, for a file name, no path separator. */
  function ValidateDirectoryOrFileName(name: string, isFileName: bool): (r: bool)
    ensures r <==> HasVisibleChar(name) && (isFileName ==> NoneOf(name, Separators)) && NoneOf(name, ForbiddenChars)
  {
    if IsBlank(name) then false
    else if isFileName && ContainsAny(name, Separators) then false
    else !ContainsAny(name, ForbiddenChars)
  }

  /** A JSON file name is longer than its extension and ends, case-sensitively, in ".json". */
  function ValidateJsonFileName(fileName: string): (r: bool)
    ensures r <==> |fileName| > |JsonExtension| && EndsWith(fileName, JsonExtension)
  {
    if |fileName| <= 5 then false
    else fileName[|fileName| - 5..] == JsonExtension
  }

  /** The combined path of the JSON file, or "" when the directory could not be
      created or the file name is not a JSON file name. The directory and file
      names are not checked against the forbidden characters here. */
  function DeterminePath(directoryPath: string, fileName: string, directoryReady: bool,
                         join: (string, string) -> string): (r: string)
    ensures !directoryReady ==> r == ""
    ensures !ValidateJsonFileName(fileName) ==> r == ""
    ensures directoryReady && ValidateJsonFileName(fileName) ==> r == join(directoryPath, fileName)
  {
    if !directoryReady then ""
    else if !ValidateJsonFileName(fileName) then ""
    else join(directoryPath, fileName)
  }

  /** Where the JSON file lives and whether it is flushed when the application quits. */
  datatype PathConfig = PathConfig(directoryPath: string, fileName: string, saveOnQuit: bool)

  /** The fields of the settings asset the user edits. */
  datatype SettingsAsset = SettingsAsset(persistentDataPath: bool, directoryPath: string,
                                         fileName: string, saveOnQuit: bool)

  /** The field values of a freshly created settings asset. */
  const DefaultAsset: SettingsAsset := SettingsAsset(true, "Saves/Prefs", DefaultFileName, true)

  /** The built-in configuration: `<persistentDataPath>/Saves/Prefs/Prefs.json`, saved on quit. */
  function DefaultConfig(persistentDataPath: string, join: (string, string) -> string): PathConfig {
    PathConfig(join(join(persistentDataPath, "Saves"), "Prefs"), DefaultFileName, true)
  }

  /** The configuration after consulting the settings asset (None when no asset can be
      loaded): the asset wins unless its directory or file name is empty. */
  function SelectSettings(current: PathConfig, asset: Option<SettingsAsset>,
                          persistentDataPath: string, join: (string, string) -> string): (r: PathConfig)
    ensures asset.None? ==> r == current
    ensures asset.Some? && (asset.value.directoryPath == "" || asset.value.fileName == "") ==> r == current
    ensures asset.Some? && asset.value.directoryPath != "" && asset.value.fileName != "" ==>
              && r.fileName == asset.value.fileName
              && r.saveOnQuit == asset.value.saveOnQuit
              && (asset.value.persistentDataPath ==> r.directoryPath == join(persistentDataPath, asset.value.directoryPath))
              && (!asset.value.persistentDataPath ==> r.directoryPath == asset.value.directoryPath)
  {
    match asset
    case None => current
    case Some(a) =>
      if a.directoryPath == "" || a.fileName == "" then current
      else
        var dir := if a.persistentDataPath then join(persistentDataPath, a.directoryPath) else a.directoryPath;
        PathConfig(dir, a.fileName, a.saveOnQuit)
  }
}
