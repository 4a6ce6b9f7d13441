/** Properties of name validation, path determination and settings selection. */
module PlayerPrefsJsonHelpersProperties {
  import opened Wrappers
  import opened PlayerPrefsJsonHelpers

  /** A name valid as a file name is valid as a directory name. */
  lemma FileNameValidImpliesDirectoryValid(name: string)
    ensures ValidateDirectoryOrFileName(name, true) ==> ValidateDirectoryOrFileName(name, false)
  {
  }

  /** Blank names are rejected in both modes. */
  lemma BlankNameRejected(name: string, isFileName: bool)
    requires forall i :: 0 <= i < |name| ==> IsWhiteSpace(name[i])
    ensures !ValidateDirectoryOrFileName(name, isFileName)
  {
  }

  /** One forbidden character anywhere rejects the name in both modes. */
  lemma ForbiddenCharRejected(name: string, i: int, isFileName: bool)
    requires 0 <= i < |name| && name[i] in ForbiddenChars
    ensures !ValidateDirectoryOrFileName(name, isFileName)
  {
  }

  /** A separator rejects a file name but not a directory name. */
  lemma SeparatorOnlyRejectsFileNames()
    ensures ValidateDirectoryOrFileName("a/b", false) && !ValidateDirectoryOrFileName("a/b", true)
    ensures ValidateDirectoryOrFileName("a\\b", false) && !ValidateDirectoryOrFileName("a\\b", true)
    ensures !ValidateDirectoryOrFileName("a<b", false)
    ensures !ValidateDirectoryOrFileName(" \t", false)
  {
    assert !IsWhiteSpace("a/b"[0]);
    assert "a/b"[1] in Separators;
    assert !IsWhiteSpace("a\\b"[0]);
    assert "a\\b"[1] in Separators;
    assert "a<b"[1] in ForbiddenChars;
  }

  /** A JSON file name is exactly a non-empty stem followed by ".json". */
  lemma JsonFileNameIsStemAndExtension(stem: string)
    ensures ValidateJsonFileName(stem + JsonExtension) <==> |stem| > 0
  {
    var f := stem + JsonExtension;
    assert f[|f| - 5..] == JsonExtension;
  }

  lemma JsonFileNameSplits(fileName: string)
    requires ValidateJsonFileName(fileName)
    ensures |fileName| > 5 && fileName == fileName[..|fileName| - 5] + JsonExtension
  {
    var n := |fileName|;
    assert fileName[n - 5..] == JsonExtension;
    assert fileName == fileName[..n - 5] + fileName[n - 5..];
  }

  /** The extension check is exact and case-sensitive. */
  lemma JsonFileNameExamples()
    ensures !ValidateJsonFileName(".json")
    ensures !ValidateJsonFileName("Prefs.JSON")
    ensures !ValidateJsonFileName("prefs")
    ensures ValidateJsonFileName("prefs.json")
  {
    JsonFileNameIsStemAndExtension("prefs");
    assert "prefs.json" == "prefs" + JsonExtension;
    assert "Prefs.JSON"[6] == 'J';
  }

  /** The default file name passes both checks a file name can meet. */
  lemma DefaultFileNameIsValid()
    ensures ValidateJsonFileName(DefaultFileName)
    ensures ValidateDirectoryOrFileName(DefaultFileName, true)
  {
    assert ValidateJsonFileName(DefaultFileName) by {
      assert DefaultFileName == "Prefs" + JsonExtension;
      JsonFileNameIsStemAndExtension("Prefs");
    }
    PlainNameIsValidFileName(DefaultFileName);
  }

  /** A non-empty name of letters, digits and dots is a valid file name. */
  lemma PlainNameIsValidFileName(name: string)
    requires |name| > 0 && forall i :: 0 <= i < |name| ==> IsPlainChar(name[i])
    ensures ValidateDirectoryOrFileName(name, true)
  {
    assert !IsWhiteSpace(name[0]);
  }

  predicate IsPlainChar(c: char) {
    'a' <= c <= 'z' || 'A' <= c <= 'Z' || '0' <= c <= '9' || c == '.'
  }

  /** `DeterminePath` checks the JSON extension only: a directory with a forbidden
      character and a file name with a separator still give a path, while a
      missing extension or a failed directory gives none. */
  lemma DeterminePathChecksOnlyTheExtension(join: (string, string) -> string)
    ensures !ValidateDirectoryOrFileName("a<b", false)
    ensures !ValidateDirectoryOrFileName("sub/prefs.json", true)
    ensures DeterminePath("a<b", "sub/prefs.json", true, join) == join("a<b", "sub/prefs.json")
    ensures DeterminePath("dir", "prefs", true, join) == ""
    ensures DeterminePath("dir", "prefs.json", false, join) == ""
  {
    assert "a<b"[1] in ForbiddenChars;
    assert "sub/prefs.json"[3] in Separators;
    JsonFileNameIsStemAndExtension("sub/prefs");
    assert "sub/prefs.json" == "sub/prefs" + JsonExtension;
    JsonFileNameExamples();
  }

  /** A fresh settings asset selects `<persistentDataPath>/Saves/Prefs` and the
      default file name, and that name yields a path once the directory exists. */
  lemma DefaultAssetSelection(current: PathConfig, persistentDataPath: string, join: (string, string) -> string)
    ensures var r := SelectSettings(current, Some(DefaultAsset), persistentDataPath, join);
            && r == PathConfig(join(persistentDataPath, "Saves/Prefs"), DefaultFileName, true)
            && DeterminePath(r.directoryPath, r.fileName, true, join) == join(r.directoryPath, DefaultFileName)
  {
    DefaultFileNameIsValid();
  }

  /** The built-in configuration names `<persistentDataPath>/Saves/Prefs/Prefs.json`
      and is flushed on quit. */
  lemma DefaultConfigDeterminesPath(persistentDataPath: string, join: (string, string) -> string)
    ensures var c := DefaultConfig(persistentDataPath, join);
            && c.saveOnQuit
            && DeterminePath(c.directoryPath, c.fileName, true, join)
               == join(join(join(persistentDataPath, "Saves"), "Prefs"), "Prefs.json")
  {
    DefaultFileNameIsValid();
  }

  /** `f` is a non-empty stem followed by ".json". */
  ghost predicate IsStemWithExtension(f: string) {
    exists stem :: |stem| > 0 && f == stem + JsonExtension
  }

  /** The JSON check accepts exactly the names made of a non-empty stem and ".json". */
  lemma ValidateJsonFileNameIffStem(f: string)
    ensures ValidateJsonFileName(f) <==> IsStemWithExtension(f)
  {
    if ValidateJsonFileName(f) {
      JsonFileNameSplits(f);
      assert |f[..|f| - 5]| > 0;
    }
    if IsStemWithExtension(f) {
      var stem :| |stem| > 0 && f == stem + JsonExtension;
      JsonFileNameIsStemAndExtension(stem);
    }
  }

  /** For every input, `DeterminePath` yields the joined path exactly when the
      directory is ready and the file name is a non-empty stem followed by ".json",
      and "" otherwise. */
  lemma DeterminePathCharacterized(directoryPath: string, fileName: string, directoryReady: bool,
                                   join: (string, string) -> string)
    ensures DeterminePath(directoryPath, fileName, directoryReady, join)
            == if directoryReady && IsStemWithExtension(fileName) then join(directoryPath, fileName) else ""
  {
    ValidateJsonFileNameIffStem(fileName);
  }

  /** The settings the asset makes the library use, when they are usable at all. */
  predicate AssetUsable(asset: Option<SettingsAsset>) {
    asset.Some? && asset.value.directoryPath != "" && asset.value.fileName != ""
  }

  /** Selecting settings never leaves an empty file name behind a non-empty one,
      and selecting twice with the same asset is the same as selecting once. */
  lemma SelectSettingsInvariants(current: PathConfig, asset: Option<SettingsAsset>,
                                 persistentDataPath: string, join: (string, string) -> string)
    ensures var r := SelectSettings(current, asset, persistentDataPath, join);
            && (current.fileName != "" ==> r.fileName != "")
            && (current.directoryPath != "" && !(AssetUsable(asset) && asset.value.persistentDataPath) ==> r.directoryPath != "")
            && SelectSettings(r, asset, persistentDataPath, join) == r
  {
  }

  /** Selecting settings and then determining the path: the load finds a path
      exactly when the directory is ready and the chosen file name (the asset's when
      usable, else the current one) is a non-empty stem followed by ".json". */
  lemma SelectedSettingsDeterminePath(current: PathConfig, asset: Option<SettingsAsset>, persistentDataPath: string,
                                      join: (string, string) -> string, directoryReady: bool)
    ensures var r := SelectSettings(current, asset, persistentDataPath, join);
            var chosen := if AssetUsable(asset) then asset.value.fileName else current.fileName;
            DeterminePath(r.directoryPath, r.fileName, directoryReady, join)
            == if directoryReady && IsStemWithExtension(chosen) then join(r.directoryPath, chosen) else ""
  {
    var r := SelectSettings(current, asset, persistentDataPath, join);
    DeterminePathCharacterized(r.directoryPath, r.fileName, directoryReady, join);
  }
}
