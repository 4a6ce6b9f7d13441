/**
 The JSON-backed replacement for PlayerPrefs. The process-wide static state of
 the source (the JSON object, which may be null, and the cached file path) and
 Unity's PlayerPrefs store are one immutable `Store`; every public operation is
 a function from the store before the call to the store after it, paired with
 the call's return value where it has one.
 */
module PlayerPrefsJson {
  import opened Wrappers
  import opened Values
  import LegacyPrefs
  import Helpers = PlayerPrefsJsonHelpers

  /** `doc` is None while the JSON object is null: before a successful load and
      after the quit-time flush. */
  datatype Store = Store(doc: Option<Doc>, legacy: LegacyPrefs.Legacy, combinedPath: Option<string>)

  /** The store after a call, with the call's return value. */
  datatype Reply<T> = Reply(store: Store, value: T)

  /**
   Newtonsoft's explicit conversions `(float)(double)token`, `(int)token` and
   `(string)token`, left abstract: None stands for a conversion that throws
   (or, for strings, yields null). Cross-type conversions are whatever these
   functions say; `Faithful` pins down the same-type ones.
   */
  datatype Casts = Casts(toFloat: Value -> Option<real>, toInt: Value -> Option<Int32>,
                         toString: Value -> Option<string>) {

    /** Reading a token as its own type gives back the value written, except that
        an integer token outside 32 bits overflows `(int)` and does not convert. */
    ghost predicate Faithful() {
      && (forall f :: toFloat(FloatVal(f)) == Some(f))
      && (forall i: int :: toInt(IntVal(i)) == if MinInt <= i <= MaxIntValue then Some(i as Int32) else None)
      && (forall s :: toString(StrVal(s)) == Some(s))
    }

    /** The token converted to `kind`, as a tagged value. */
    function Read(kind: Kind, v: Value): (r: Option<Value>)
      ensures r.Some? ==> r.value.KindOf() == kind
      ensures Faithful() && v.KindOf() == kind && Fits32(v) ==> r == Some(v)
      ensures Faithful() && !Fits32(v) && kind == Integer ==> r.None?
    {
      match kind
      case Float => (match toFloat(v) case None => None case Some(f) => Some(FloatVal(f)))
      case Integer => (match toInt(v) case None => None case Some(i) => Some(IntVal(i)))
      case String => (match toString(v) case None => None case Some(s) => Some(StrVal(s)))
    }
  }

  /** A write of `v` at `key` is rejected: the key already holds a token of another type. */
  predicate Conflicts(d: Doc, key: Key, v: Value) {
    key in d && d[key].KindOf() != v.KindOf()
  }

  function WithLegacy(st: Store, legacy: LegacyPrefs.Legacy): Store {
    Store(st.doc, legacy, st.combinedPath)
  }

  /** `DeleteAll`: a fresh empty JSON object, even when the old one was null;
      the PlayerPrefs store is cleared too when asked. */
  function DeleteAll(st: Store, deletePlayerPrefs: bool): (r: Store)
    ensures r.doc.Some? && |r.doc.value| == 0
    ensures deletePlayerPrefs ==> |r.legacy| == 0
    ensures !deletePlayerPrefs ==> r.legacy == st.legacy
    ensures r.combinedPath == st.combinedPath
  {
    var legacy := if deletePlayerPrefs then LegacyPrefs.DeleteAll(st.legacy) else st.legacy;
    Store(Some(map[]), legacy, st.combinedPath)
  }

  /** `DeleteKey`: a no-op on a null JSON object; otherwise removes `key` from the
      JSON object and, when asked, from PlayerPrefs. */
  function DeleteKey(st: Store, key: Key, deleteFromPlayerPrefs: bool): (r: Store)
    ensures st.doc.None? ==> r == st
    ensures st.doc.Some? ==> r.doc.Some? && key !in r.doc.value && AgreeExcept(st.doc.value, r.doc.value, key)
    ensures st.doc.Some? && deleteFromPlayerPrefs ==> key !in r.legacy && AgreeExcept(st.legacy, r.legacy, key)
    ensures !deleteFromPlayerPrefs ==> r.legacy == st.legacy
    ensures r.combinedPath == st.combinedPath
  {
    match st.doc
    case None => st
    case Some(d) =>
      var legacy := if deleteFromPlayerPrefs then LegacyPrefs.DeleteKey(st.legacy, key) else st.legacy;
      Store(Some(d - {key}), legacy, st.combinedPath)
  }

  /** `SetFloat`, `SetInt` and `SetString`: a no-op on a null JSON object; inserts an
      absent key; overwrites a key of the same type; leaves a key of another type
      alone (the type of a property is fixed by its first write). */
  function Set(st: Store, key: Key, v: Value): (r: Store)
    ensures r.legacy == st.legacy && r.combinedPath == st.combinedPath
    ensures st.doc.None? ==> r == st
    ensures st.doc.Some? && Conflicts(st.doc.value, key, v) ==> r == st
    ensures st.doc.Some? && !Conflicts(st.doc.value, key, v) ==>
              r.doc.Some? && key in r.doc.value && r.doc.value[key] == v && AgreeExcept(st.doc.value, r.doc.value, key)
    ensures st.doc.Some? ==> r.doc.Some? && KindsKept(st.doc.value, r.doc.value)
  {
    match st.doc
    case None => st
    case Some(d) =>
      if Conflicts(d, key, v) then st
      else Store(Some(d[key := v]), st.legacy, st.combinedPath)
  }

  function SetFloat(st: Store, key: Key, value: real): Store {
    Set(st, key, FloatVal(value))
  }

  function SetInt(st: Store, key: Key, value: Int32): Store {
    Set(st, key, IntVal(value))
  }

  function SetString(st: Store, key: Key, value: string): Store {
    Set(st, key, StrVal(value))
  }

  /**
   The sentinel probe of PlayerPrefs for a value of `kind`: `GetFloat(key,
   float.MaxValue)`, `GetInt(key, int.MaxValue)` or `GetString(key, "")`, with
   None when the probe returns its sentinel.
   */
  function Probe(l: LegacyPrefs.Legacy, key: Key, kind: Kind): (r: Option<Value>)
    ensures r.Some? ==> key in l && l[key] == r.value && r.value.KindOf() == kind
    ensures r.None? <==> key !in l || l[key].KindOf() != kind || IsSentinel(l[key])
  {
    match kind
    case Float =>
      var f := LegacyPrefs.GetFloat(l, key, MaxFloat);
      if f == MaxFloat then None else Some(FloatVal(f))
    case Integer =>
      var i := LegacyPrefs.GetInt(l, key, MaxInt);
      if i == MaxInt then None else Some(IntVal(i))
    case String =>
      var s := LegacyPrefs.GetString(l, key, "");
      if s == "" then None else Some(StrVal(s))
  }

  /** The value `key` would be migrated with: the PlayerPrefs entry, unless it is
      the sentinel of its own type. */
  function Migratable(l: LegacyPrefs.Legacy, key: Key): Option<Value> {
    if key in l && !IsSentinel(l[key]) then Some(l[key]) else None
  }

  /**
   `GetFloatFromPlayerPrefs`, `GetIntFromPlayerPrefs` and `GetStringFromPlayerPrefs`
   (the kind is that of `default`): the caller's default when the probe finds
   nothing; otherwise the PlayerPrefs value, first copied into the JSON object
   and deleted from PlayerPrefs when asked. The deletion happens even when the
   copy is rejected.
   */
  function GetFromPlayerPrefs(st: Store, key: Key, deleteFromPlayerPrefs: bool, default: Value): (r: Reply<Value>)
    ensures r.value.KindOf() == default.KindOf()
    ensures r.store.combinedPath == st.combinedPath
    ensures Probe(st.legacy, key, default.KindOf()).None? ==> r == Reply(st, default)
    ensures Probe(st.legacy, key, default.KindOf()).Some? ==> key in st.legacy && r.value == st.legacy[key]
    ensures Probe(st.legacy, key, default.KindOf()).Some? && !deleteFromPlayerPrefs ==> r.store == st
    ensures Probe(st.legacy, key, default.KindOf()).Some? && deleteFromPlayerPrefs ==>
              && r.store.doc == Set(st, key, st.legacy[key]).doc
              && key !in r.store.legacy && AgreeExcept(st.legacy, r.store.legacy, key)
    ensures st.doc.Some? ==> r.store.doc.Some? && KindsKept(st.doc.value, r.store.doc.value)
  {
    match Probe(st.legacy, key, default.KindOf())
    case None => Reply(st, default)
    case Some(v) =>
      if deleteFromPlayerPrefs then
        var copied := Set(st, key, v);
        Reply(WithLegacy(copied, LegacyPrefs.DeleteKey(copied.legacy, key)), v)
      else Reply(st, v)
  }

  /**
   The typed getters with a default (the kind is that of `default`): the default
   when the JSON object is null; the stored token when it converts to the kind
   asked for (an empty string included); otherwise PlayerPrefs when asked, or the
   default.
   */
  function Get(st: Store, casts: Casts, key: Key, default: Value,
               getFromPlayerPrefs: bool, deleteFromPlayerPrefs: bool): (r: Reply<Value>)
    ensures r.value.KindOf() == default.KindOf()
    ensures st.doc.None? ==> r == Reply(st, default)
    ensures r.store.doc.Some? == st.doc.Some? && r.store.combinedPath == st.combinedPath
    ensures st.doc.Some? && key in st.doc.value && casts.Read(default.KindOf(), st.doc.value[key]).Some? ==>
              r == Reply(st, casts.Read(default.KindOf(), st.doc.value[key]).value)
    ensures !getFromPlayerPrefs || !deleteFromPlayerPrefs ==> r.store == st
    ensures st.doc.Some? ==> AgreeExcept(st.doc.value, r.store.doc.value, key) && AgreeExcept(st.legacy, r.store.legacy, key)
    ensures st.doc.Some? ==> KindsKept(st.doc.value, r.store.doc.value)
    ensures st.doc.Some? && (key !in st.doc.value || casts.Read(default.KindOf(), st.doc.value[key]).None?) ==>
              r == if getFromPlayerPrefs then GetFromPlayerPrefs(st, key, deleteFromPlayerPrefs, default) else Reply(st, default)
  {
    match st.doc
    case None => Reply(st, default)
    case Some(d) =>
      var read := if key in d then casts.Read(default.KindOf(), d[key]) else None;
      if read.Some? then Reply(st, read.value)
      else if getFromPlayerPrefs then GetFromPlayerPrefs(st, key, deleteFromPlayerPrefs, default)
      else Reply(st, default)
  }

  function GetFloat(st: Store, casts: Casts, key: Key, default: real,
                    getFromPlayerPrefs: bool, deleteFromPlayerPrefs: bool): Reply<real> {
    var r := Get(st, casts, key, FloatVal(default), getFromPlayerPrefs, deleteFromPlayerPrefs);
    Reply(r.store, r.value.f)
  }

  function GetInt(st: Store, casts: Casts, key: Key, default: Int32,
                  getFromPlayerPrefs: bool, deleteFromPlayerPrefs: bool): Reply<Int32> {
    var r := Get(st, casts, key, IntVal(default), getFromPlayerPrefs, deleteFromPlayerPrefs);
    Reply(r.store, r.value.i)
  }

  function GetString(st: Store, casts: Casts, key: Key, default: string,
                     getFromPlayerPrefs: bool, deleteFromPlayerPrefs: bool): Reply<string> {
    var r := Get(st, casts, key, StrVal(default), getFromPlayerPrefs, deleteFromPlayerPrefs);
    Reply(r.store, r.value.s)
  }

  /** The getter overloads without a default. */
  function GetFloatOrZero(st: Store, casts: Casts, key: Key,
                          getFromPlayerPrefs: bool, deleteFromPlayerPrefs: bool): Reply<real> {
    match st.doc
    case None => Reply(st, 0.0)
    case Some(_) => GetFloat(st, casts, key, 0.0, getFromPlayerPrefs, deleteFromPlayerPrefs)
  }

  function GetIntOrZero(st: Store, casts: Casts, key: Key,
                        getFromPlayerPrefs: bool, deleteFromPlayerPrefs: bool): Reply<Int32> {
    match st.doc
    case None => Reply(st, 0)
    case Some(_) => GetInt(st, casts, key, 0, getFromPlayerPrefs, deleteFromPlayerPrefs)
  }

  function GetStringOrEmpty(st: Store, casts: Casts, key: Key,
                            getFromPlayerPrefs: bool, deleteFromPlayerPrefs: bool): Reply<string> {
    match st.doc
    case None => Reply(st, "")
    case Some(_) => GetString(st, casts, key, "", getFromPlayerPrefs, deleteFromPlayerPrefs)
  }

  /**
   `SetKey`: copies the PlayerPrefs entry at `key` into the JSON object, probing
   float, then int, then string and skipping each probe's sentinel.
   */
  function SetKey(st: Store, key: Key): (r: Store)
    ensures Migratable(st.legacy, key).None? ==> r == st
    ensures Migratable(st.legacy, key).Some? ==> r == Set(st, key, Migratable(st.legacy, key).value)
  {
    var f := Probe(st.legacy, key, Float);
    if f.Some? then Set(st, key, f.value)
    else
      var i := Probe(st.legacy, key, Integer);
      if i.Some? then Set(st, key, i.value)
      else
        var s := Probe(st.legacy, key, String);
        if s.Some? then Set(st, key, s.value)
        else st
  }

  /**
   `HasKey`: false on a null JSON object; true when the JSON object has the key;
   otherwise, when asked, PlayerPrefs' own answer, after the entry has been copied
   (when possible) and deleted from PlayerPrefs if that is asked too.
   */
  function HasKey(st: Store, key: Key, getFromPlayerPrefs: bool, deleteFromPlayerPrefs: bool): (r: Reply<bool>)
    ensures st.doc.None? ==> r == Reply(st, false)
    ensures st.doc.Some? && key in st.doc.value ==> r == Reply(st, true)
    ensures st.doc.Some? && key !in st.doc.value ==> (r.value <==> getFromPlayerPrefs && key in st.legacy)
    ensures !getFromPlayerPrefs || !deleteFromPlayerPrefs ==> r.store == st
    ensures st.doc.Some? && key !in st.doc.value && getFromPlayerPrefs && deleteFromPlayerPrefs ==>
              key !in r.store.legacy && AgreeExcept(st.legacy, r.store.legacy, key)
    ensures r.store.doc.Some? == st.doc.Some? && r.store.combinedPath == st.combinedPath
    ensures st.doc.Some? ==> AgreeExcept(st.doc.value, r.store.doc.value, key) && KindsKept(st.doc.value, r.store.doc.value)
  {
    match st.doc
    case None => Reply(st, false)
    case Some(d) =>
      if key in d then Reply(st, true)
      else if getFromPlayerPrefs then
        var present := LegacyPrefs.HasKey(st.legacy, key);
        if deleteFromPlayerPrefs then
          var copied := SetKey(st, key);
          Reply(WithLegacy(copied, LegacyPrefs.DeleteKey(copied.legacy, key)), present)
        else Reply(st, present)
      else Reply(st, false)
  }

  /** What `Save` does: nothing but an error on a null JSON object; a failed write
      when the path was never determined or the file system refuses (`ioOk`
      abstracts directory creation and `File.WriteAllText`); otherwise the whole
      object is written to the combined path. */
  datatype SaveOutcome = AccessFailed | WriteFailed | Written(path: string, contents: Doc)

  function Save(st: Store, ioOk: bool): (r: SaveOutcome)
    ensures r.AccessFailed? <==> st.doc.None?
    ensures r.Written? <==> st.doc.Some? && st.combinedPath.Some? && ioOk
    ensures r.Written? ==> r.path == st.combinedPath.value && r.contents == st.doc.value
  {
    match st.doc
    case None => AccessFailed
    case Some(d) =>
      match st.combinedPath
      case None => WriteFailed
      case Some(p) => if ioOk then Written(p, d) else WriteFailed
  }

  /** `SavePlayerPrefsJson`, the quit hook: `Save`, then the JSON object and the
      cached path are cleared; PlayerPrefs is untouched. */
  function SaveAndDiscard(st: Store, ioOk: bool): (r: Reply<SaveOutcome>)
    ensures r.store.doc.None? && r.store.combinedPath.None? && r.store.legacy == st.legacy
    ensures r.value.Written? <==> st.doc.Some? && st.combinedPath.Some? && ioOk
    ensures r.value.AccessFailed? <==> st.doc.None?
    ensures r.value.Written? ==> r.value.path == st.combinedPath.value && r.value.contents == st.doc.value
  {
    Reply(Store(None, st.legacy, None), Save(st, ioOk))
  }

  /** What `LoadPlayerPrefsJson` finds at the determined path: no file (and whether
      writing the empty object there succeeds), or a file whose text parses into a
      document (None when `JObject.Parse` throws). */
  datatype FileProbe = Missing(writeOk: bool) | Present(parsed: Option<Doc>)

  /**
   `LoadPlayerPrefsJson`: determines the path; on an empty path the store is left
   as it was. A missing file yields an empty object (written out at once), an
   existing file its parsed contents. A parse failure changes nothing; a failed
   write of the new file leaves the empty object installed but the path uncached.
   Every load that gets through caches the path and registers the quit hook iff
   save-on-quit is set; the reply tells whether the hook was registered.
   */
  function Load(st: Store, config: Helpers.PathConfig, directoryReady: bool,
                join: (string, string) -> string, file: FileProbe): (r: Reply<bool>)
    ensures r.store.legacy == st.legacy
    ensures Helpers.DeterminePath(config.directoryPath, config.fileName, directoryReady, join) == "" ==> r == Reply(st, false)
    ensures r.store.combinedPath != st.combinedPath ==>
              r.store.combinedPath == Some(Helpers.DeterminePath(config.directoryPath, config.fileName, directoryReady, join))
    ensures r.value ==> config.saveOnQuit && r.store.doc.Some? && r.store.combinedPath.Some?
    ensures Helpers.DeterminePath(config.directoryPath, config.fileName, directoryReady, join) != "" && file.Present? && file.parsed.Some? ==>
              r.store.doc == file.parsed && r.value == config.saveOnQuit
    ensures Helpers.DeterminePath(config.directoryPath, config.fileName, directoryReady, join) != "" && file.Missing? ==>
              r.store.doc == Some(map[])
    ensures var path := Helpers.DeterminePath(config.directoryPath, config.fileName, directoryReady, join);
            path != "" && file == Present(None) ==> r == Reply(st, false)
    ensures var path := Helpers.DeterminePath(config.directoryPath, config.fileName, directoryReady, join);
            path != "" && (file == Missing(true) || (file.Present? && file.parsed.Some?)) ==>
              r.store.combinedPath == Some(path) && r.value == config.saveOnQuit
    ensures var path := Helpers.DeterminePath(config.directoryPath, config.fileName, directoryReady, join);
            path != "" && file == Missing(false) ==> r.store.combinedPath == st.combinedPath && !r.value
  {
    var path := Helpers.DeterminePath(config.directoryPath, config.fileName, directoryReady, join);
    if path == "" then Reply(st, false)
    else
      match file
      case Missing(writeOk) =>
        if writeOk then Reply(Store(Some(map[]), st.legacy, Some(path)), config.saveOnQuit)
        else Reply(Store(Some(map[]), st.legacy, st.combinedPath), false)
      case Present(parsed) =>
        match parsed
        case None => Reply(st, false)
        case Some(d) => Reply(Store(Some(d), st.legacy, Some(path)), config.saveOnQuit)
  }
}
