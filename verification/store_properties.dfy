/** Properties relating several calls of the JSON-backed store. */
module PlayerPrefsJsonProperties {
  import opened Wrappers
  import opened Values
  import opened PlayerPrefsJson
  import Helpers = PlayerPrefsJsonHelpers
  import LegacyPrefs

  /** While the JSON object is null every operation short-circuits: nothing
      changes, the getters give back their defaults, `HasKey` says false and
      `Save` writes nothing. */
  lemma NullDocumentIsInert(st: Store, casts: Casts, key: Key, v: Value, default: Value,
                            getFromPlayerPrefs: bool, deleteFromPlayerPrefs: bool, ioOk: bool)
    requires st.doc.None?
    ensures Set(st, key, v) == st
    ensures DeleteKey(st, key, deleteFromPlayerPrefs) == st
    ensures HasKey(st, key, getFromPlayerPrefs, deleteFromPlayerPrefs) == Reply(st, false)
    ensures Get(st, casts, key, default, getFromPlayerPrefs, deleteFromPlayerPrefs) == Reply(st, default)
    ensures GetFloatOrZero(st, casts, key, getFromPlayerPrefs, deleteFromPlayerPrefs) == Reply(st, 0.0)
    ensures GetIntOrZero(st, casts, key, getFromPlayerPrefs, deleteFromPlayerPrefs) == Reply(st, 0)
    ensures GetStringOrEmpty(st, casts, key, getFromPlayerPrefs, deleteFromPlayerPrefs) == Reply(st, "")
    ensures Save(st, ioOk) == AccessFailed
  {
  }

  /** After the quit-time flush the store is inert until `DeleteAll` gives it a new object. */
  lemma InertAfterSaveAndDiscard(st: Store, ioOk: bool, casts: Casts, key: Key, v: Value, default: Value,
                                 getFromPlayerPrefs: bool, deleteFromPlayerPrefs: bool)
    ensures var q := SaveAndDiscard(st, ioOk).store;
            && Set(q, key, v) == q
            && HasKey(q, key, getFromPlayerPrefs, deleteFromPlayerPrefs) == Reply(q, false)
            && Get(q, casts, key, default, getFromPlayerPrefs, deleteFromPlayerPrefs) == Reply(q, default)
            && DeleteKey(q, key, deleteFromPlayerPrefs) == q
            && Save(q, ioOk) == AccessFailed
  {
    NullDocumentIsInert(SaveAndDiscard(st, ioOk).store, casts, key, v, default,
                        getFromPlayerPrefs, deleteFromPlayerPrefs, ioOk);
  }

  /** The overloads without a default behave as those with default 0, 0 and "". */
  lemma OverloadsWithoutDefault(st: Store, casts: Casts, key: Key, getFromPlayerPrefs: bool, deleteFromPlayerPrefs: bool)
    ensures GetFloatOrZero(st, casts, key, getFromPlayerPrefs, deleteFromPlayerPrefs)
            == GetFloat(st, casts, key, 0.0, getFromPlayerPrefs, deleteFromPlayerPrefs)
    ensures GetIntOrZero(st, casts, key, getFromPlayerPrefs, deleteFromPlayerPrefs)
            == GetInt(st, casts, key, 0, getFromPlayerPrefs, deleteFromPlayerPrefs)
    ensures GetStringOrEmpty(st, casts, key, getFromPlayerPrefs, deleteFromPlayerPrefs)
            == GetString(st, casts, key, "", getFromPlayerPrefs, deleteFromPlayerPrefs)
  {
  }

  /** A value read back right after a successful write is the value written, and
      the read changes nothing. (`SetInt` only writes 32-bit integers.) */
  lemma SetThenGet(st: Store, casts: Casts, key: Key, v: Value, default: Value,
                   getFromPlayerPrefs: bool, deleteFromPlayerPrefs: bool)
    requires casts.Faithful()
    requires st.doc.Some? && !Conflicts(st.doc.value, key, v)
    requires default.KindOf() == v.KindOf() && Fits32(v)
    ensures var s := Set(st, key, v);
            Get(s, casts, key, default, getFromPlayerPrefs, deleteFromPlayerPrefs) == Reply(s, v)
  {
  }

  /** A value of the kind asked for is returned as stored, an empty string
      included, and neither store changes; integers must fit in 32 bits (see
      `OverflowingIntIsReplacedByMigration` for those that do not). */
  lemma StoredValueIsReturned(st: Store, casts: Casts, key: Key, default: Value,
                              getFromPlayerPrefs: bool, deleteFromPlayerPrefs: bool)
    requires casts.Faithful()
    requires st.doc.Some? && key in st.doc.value && st.doc.value[key].KindOf() == default.KindOf()
    requires Fits32(st.doc.value[key])
    ensures Get(st, casts, key, default, getFromPlayerPrefs, deleteFromPlayerPrefs) == Reply(st, st.doc.value[key])
  {
  }

  lemma StoredEmptyStringIsReturned(st: Store, casts: Casts, key: Key, default: string)
    requires casts.Faithful()
    requires st.doc.Some? && key in st.doc.value && st.doc.value[key] == StrVal("")
    ensures GetString(st, casts, key, default, true, true) == Reply(st, "")
  {
    StoredValueIsReturned(st, casts, key, StrVal(default), true, true);
  }

  /** The type of a property is fixed by its first write: after `SetInt(k, 1)` a
      `SetString(k, "x")` is rejected and the integer is still there. */
  lemma TypeFixedAtFirstWrite(st: Store, casts: Casts, key: Key)
    requires casts.Faithful()
    requires st.doc.Some? && key !in st.doc.value
    ensures var s1 := SetInt(st, key, 1);
            var s2 := SetString(s1, key, "x");
            && s2 == s1
            && GetInt(s2, casts, key, 0, true, true) == Reply(s2, 1)
  {
    var s1 := SetInt(st, key, 1);
    assert s1.doc.value[key] == IntVal(1);
    assert Conflicts(s1.doc.value, key, StrVal("x"));
    StoredValueIsReturned(s1, casts, key, IntVal(0), true, true);
  }

  /** `DeleteKey` is idempotent. */
  lemma DeleteKeyIdempotent(st: Store, key: Key, deleteFromPlayerPrefs: bool)
    ensures var once := DeleteKey(st, key, deleteFromPlayerPrefs);
            DeleteKey(once, key, deleteFromPlayerPrefs) == once
  {
    var once := DeleteKey(st, key, deleteFromPlayerPrefs);
    if st.doc.Some? {
      assert once.doc.value - {key} == once.doc.value;
      if deleteFromPlayerPrefs {
        assert key !in once.legacy;
        assert once.legacy - {key} == once.legacy;
      }
    }
  }

  /** After deleting a key from both stores every read of it falls through to the
      default and changes nothing. */
  lemma DeleteThenGet(st: Store, casts: Casts, key: Key, default: Value,
                      getFromPlayerPrefs: bool, deleteFromPlayerPrefs: bool)
    requires st.doc.Some?
    ensures var s := DeleteKey(st, key, true);
            && Get(s, casts, key, default, getFromPlayerPrefs, deleteFromPlayerPrefs) == Reply(s, default)
            && HasKey(s, key, getFromPlayerPrefs, deleteFromPlayerPrefs).value == false
  {
    var s := DeleteKey(st, key, true);
    assert Probe(s.legacy, key, default.KindOf()).None?;
  }

  /** `DeleteAll` with PlayerPrefs leaves nothing to find anywhere. */
  lemma DeleteAllThenHasKey(st: Store, casts: Casts, key: Key, default: Value,
                            getFromPlayerPrefs: bool, deleteFromPlayerPrefs: bool)
    ensures var s := DeleteAll(st, true);
            && HasKey(s, key, getFromPlayerPrefs, deleteFromPlayerPrefs) == Reply(s, false)
            && Get(s, casts, key, default, getFromPlayerPrefs, deleteFromPlayerPrefs) == Reply(s, default)
  {
    var s := DeleteAll(st, true);
    assert key !in s.legacy;
    assert Migratable(s.legacy, key).None?;
    assert s.legacy - {key} == s.legacy;
  }

  /** Fallback for a key the JSON object lacks: without PlayerPrefs, or when the
      probe meets its sentinel, the default comes back and nothing changes. */
  lemma AbsentKeyGivesDefault(st: Store, casts: Casts, key: Key, default: Value,
                              getFromPlayerPrefs: bool, deleteFromPlayerPrefs: bool)
    requires st.doc.Some? && key !in st.doc.value
    requires !getFromPlayerPrefs || Probe(st.legacy, key, default.KindOf()).None?
    ensures Get(st, casts, key, default, getFromPlayerPrefs, deleteFromPlayerPrefs) == Reply(st, default)
  {
  }

  /** Fallback for a key the JSON object lacks, with a value in PlayerPrefs: that
      value is returned and, when asked, migrated: inserted into the JSON object
      and deleted from PlayerPrefs. */
  lemma AbsentKeyMigrates(st: Store, casts: Casts, key: Key, default: Value, deleteFromPlayerPrefs: bool)
    requires st.doc.Some? && key !in st.doc.value
    requires key in st.legacy && st.legacy[key].KindOf() == default.KindOf() && !IsSentinel(st.legacy[key])
    ensures var r := Get(st, casts, key, default, true, deleteFromPlayerPrefs);
            && r.value == st.legacy[key]
            && (!deleteFromPlayerPrefs ==> r.store == st)
            && (deleteFromPlayerPrefs ==>
                  && r.store.doc == Some(st.doc.value[key := st.legacy[key]])
                  && r.store.legacy == st.legacy - {key})
  {
    var r := Get(st, casts, key, default, true, deleteFromPlayerPrefs);
    if deleteFromPlayerPrefs {
      assert r.store.doc.value == st.doc.value[key := st.legacy[key]];
      assert r.store.legacy == st.legacy - {key};
    }
  }

  /** A key whose token does not convert to the type asked for is treated as
      missing: without PlayerPrefs, or on a missed probe, the default comes back and
      nothing changes; otherwise the PlayerPrefs value comes back, with nothing
      changed unless it is also to be deleted, and then it is deleted. */
  lemma UnconvertibleTokenFallsBack(st: Store, casts: Casts, key: Key, default: Value,
                                    getFromPlayerPrefs: bool, deleteFromPlayerPrefs: bool)
    requires st.doc.Some? && key in st.doc.value && casts.Read(default.KindOf(), st.doc.value[key]).None?
    ensures var r := Get(st, casts, key, default, getFromPlayerPrefs, deleteFromPlayerPrefs);
            && (!getFromPlayerPrefs || Probe(st.legacy, key, default.KindOf()).None? ==> r == Reply(st, default))
            && (getFromPlayerPrefs && Probe(st.legacy, key, default.KindOf()).Some? ==>
                  && key in st.legacy && r.value == st.legacy[key]
                  && (!deleteFromPlayerPrefs ==> r.store == st)
                  && (deleteFromPlayerPrefs ==>
                        r.store.doc == Set(st, key, st.legacy[key]).doc && r.store.legacy == st.legacy - {key}))
  {
    var r := Get(st, casts, key, default, getFromPlayerPrefs, deleteFromPlayerPrefs);
    if getFromPlayerPrefs && deleteFromPlayerPrefs && Probe(st.legacy, key, default.KindOf()).Some? {
      assert r.store.legacy == st.legacy - {key};
    }
  }

  /** Migration deletes the PlayerPrefs entry even when the JSON object rejects the
      copy: a key holding an unreadable token of another type loses the
      PlayerPrefs value for good. */
  lemma RejectedMigrationStillDeletes(st: Store, casts: Casts, key: Key, default: Value)
    requires st.doc.Some? && key in st.doc.value && st.doc.value[key].KindOf() != default.KindOf()
    requires casts.Read(default.KindOf(), st.doc.value[key]).None?
    requires key in st.legacy && st.legacy[key].KindOf() == default.KindOf() && !IsSentinel(st.legacy[key])
    ensures var r := Get(st, casts, key, default, true, true);
            && r.value == st.legacy[key]
            && r.store.doc == st.doc
            && key !in r.store.legacy
  {
  }

  /** An integer token outside 32 bits (from a parsed file) overflows `GetInt`'s
      conversion, so the read falls back to PlayerPrefs. With a PlayerPrefs integer
      there and both flags, the migration passes the type check and overwrites the
      stored token, which is lost; without one, the default comes back and nothing
      changes. */
  lemma OverflowingIntIsReplacedByMigration(st: Store, casts: Casts, key: Key, default: Int32)
    requires casts.Faithful()
    requires st.doc.Some? && key in st.doc.value && st.doc.value[key].IntVal? && !Fits32(st.doc.value[key])
    ensures var r := GetInt(st, casts, key, default, true, true);
            && (Probe(st.legacy, key, Integer).Some? ==>
                  && r.value as int == st.legacy[key].i
                  && r.store.doc == Some(st.doc.value[key := st.legacy[key]])
                  && key !in r.store.legacy)
            && (Probe(st.legacy, key, Integer).None? ==> r == Reply(st, default))
  {
    var r := Get(st, casts, key, IntVal(default), true, true);
    if Probe(st.legacy, key, Integer).Some? {
      assert r.store.doc.value == st.doc.value[key := st.legacy[key]];
    }
  }

  /** `HasKey` on a key only PlayerPrefs has, with both flags: PlayerPrefs' answer,
      the entry copied unless it is a sentinel, and the key gone from PlayerPrefs. */
  lemma HasKeyMigrates(st: Store, key: Key)
    requires st.doc.Some? && key !in st.doc.value
    ensures var r := HasKey(st, key, true, true);
            && r.value == (key in st.legacy)
            && r.store.legacy == st.legacy - {key}
            && (Migratable(st.legacy, key).Some? ==> r.store.doc == Some(st.doc.value[key := st.legacy[key]]))
            && (Migratable(st.legacy, key).None? ==> r.store.doc == st.doc)
  {
    var r := HasKey(st, key, true, true);
    assert r.store.legacy == st.legacy - {key};
    if Migratable(st.legacy, key).Some? {
      assert r.store.doc.value == st.doc.value[key := st.legacy[key]];
    }
  }

  /** A PlayerPrefs entry equal to its type's sentinel is reported by `HasKey` and
      then lost: it is not copied, yet it is deleted. */
  lemma HasKeyLosesSentinelEntry(st: Store, key: Key)
    requires st.doc.Some? && key !in st.doc.value
    requires key in st.legacy && IsSentinel(st.legacy[key])
    ensures var r := HasKey(st, key, true, true);
            r.value && key !in r.store.doc.value && key !in r.store.legacy
  {
  }

  /** A PlayerPrefs float 3.5 read with migration comes back as 3.5, after which the
      JSON object has the key and PlayerPrefs does not. */
  lemma FloatMigrationScenario(st: Store, casts: Casts, key: Key)
    requires st.doc.Some? && key !in st.doc.value
    requires key in st.legacy && st.legacy[key] == FloatVal(3.5)
    ensures var r := GetFloat(st, casts, key, 0.0, true, true);
            && r.value == 3.5
            && HasKey(r.store, key, false, false).value
            && key !in r.store.legacy
  {
    AbsentKeyMigrates(st, casts, key, FloatVal(0.0), true);
  }

  /** A load that cannot determine a path leaves a null JSON object null, caches
      no path and registers no quit hook. */
  lemma LoadWithoutPathLeavesDocumentNull(st: Store, config: Helpers.PathConfig, directoryReady: bool,
                                          join: (string, string) -> string, file: FileProbe)
    requires st.doc.None? && st.combinedPath.None?
    requires !directoryReady || !Helpers.ValidateJsonFileName(config.fileName)
    ensures var r := Load(st, config, directoryReady, join, file);
            r.store.doc.None? && r.store.combinedPath.None? && !r.value
  {
  }

  /** End to end: with no file yet, loading creates an empty object at the joined
      path, and after `SetFloat("volume", 0.8)` a save writes exactly that entry. */
  lemma LoadSetSaveScenario(legacy: LegacyPrefs.Legacy, config: Helpers.PathConfig, join: (string, string) -> string)
    requires Helpers.ValidateJsonFileName(config.fileName)
    requires join(config.directoryPath, config.fileName) != ""
    ensures var loaded := Load(Store(None, legacy, None), config, true, join, Missing(true));
            var afterSet := SetFloat(loaded.store, "volume", 0.8);
            && loaded.store.doc == Some(map[])
            && loaded.value == config.saveOnQuit
            && Save(afterSet, true) == Written(join(config.directoryPath, config.fileName), map["volume" := FloatVal(0.8)])
  {
  }
}
