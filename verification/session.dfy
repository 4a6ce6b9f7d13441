/**
 Sequences of public calls against one store, as application code issues them
 between the load hook and the quit hook, and the invariants such a run keeps.
 */
module PlayerPrefsJsonSession {
  import opened Values
  import opened PlayerPrefsJson

  /** One call of the public API (return values are dropped). */
  datatype Call =
    | SetCall(key: Key, value: Value)
    | GetCall(key: Key, default: Value, getFromPlayerPrefs: bool, deleteFromPlayerPrefs: bool)
    | HasKeyCall(key: Key, getFromPlayerPrefs: bool, deleteFromPlayerPrefs: bool)
    | DeleteKeyCall(key: Key, deleteFromPlayerPrefs: bool)
    | DeleteAllCall(deletePlayerPrefs: bool)
    | SaveCall(ioOk: bool)

  function Step(st: Store, casts: Casts, c: Call): Store {
    match c
    case SetCall(key, v) => Set(st, key, v)
    case GetCall(key, default, g, d) => Get(st, casts, key, default, g, d).store
    case HasKeyCall(key, g, d) => HasKey(st, key, g, d).store
    case DeleteKeyCall(key, d) => DeleteKey(st, key, d)
    case DeleteAllCall(d) => DeleteAll(st, d)
    case SaveCall(_) => st
  }

  function Run(st: Store, casts: Casts, calls: seq<Call>): Store
    decreases |calls|
  {
    if |calls| == 0 then st else Run(Step(st, casts, calls[0]), casts, calls[1..])
  }

  /** The call can remove `key` from the JSON object. */
  predicate Removes(c: Call, key: Key) {
    c.DeleteAllCall? || (c.DeleteKeyCall? && c.key == key)
  }

  /** The type of a property is fixed at its first write for as long as the
      property lives: a run that never deletes it keeps it, with the same type. */
  lemma {:induction false} TypeFixedAcrossRun(st: Store, casts: Casts, calls: seq<Call>, key: Key)
    requires st.doc.Some? && key in st.doc.value
    requires forall i :: 0 <= i < |calls| ==> !Removes(calls[i], key)
    ensures var r := Run(st, casts, calls);
            r.doc.Some? && key in r.doc.value && r.doc.value[key].KindOf() == st.doc.value[key].KindOf()
    decreases |calls|
  {
    if |calls| > 0 {
      var next := Step(st, casts, calls[0]);
      assert !Removes(calls[0], key);
      assert next.doc.Some? && key in next.doc.value && next.doc.value[key].KindOf() == st.doc.value[key].KindOf() by {
        match calls[0]
        case SetCall(k, v) =>
        case GetCall(k, default, g, d) =>
        case HasKeyCall(k, g, d) =>
        case DeleteKeyCall(k, d) =>
          assert k != key;
        case DeleteAllCall(d) =>
        case SaveCall(_) =>
      }
      forall i | 0 <= i < |calls[1..]|
        ensures !Removes(calls[1..][i], key)
      {
        assert calls[1..][i] == calls[i + 1];
      }
      TypeFixedAcrossRun(next, casts, calls[1..], key);
    }
  }

  /** While the JSON object is null, only `DeleteAll` has any effect: a run without
      it leaves the store exactly as it was, PlayerPrefs included. */
  lemma {:induction false} NullStoreIgnoresRun(st: Store, casts: Casts, calls: seq<Call>)
    requires st.doc.None?
    requires forall i :: 0 <= i < |calls| ==> !calls[i].DeleteAllCall?
    ensures Run(st, casts, calls) == st
    decreases |calls|
  {
    if |calls| > 0 {
      assert Step(st, casts, calls[0]) == st by {
        assert !calls[0].DeleteAllCall?;
      }
      forall i | 0 <= i < |calls[1..]|
        ensures !calls[1..][i].DeleteAllCall?
      {
        assert calls[1..][i] == calls[i + 1];
      }
      NullStoreIgnoresRun(st, casts, calls[1..]);
    }
  }

  /** A run of calls never turns an initialized JSON object back into null. */
  lemma {:induction false} RunKeepsDocument(st: Store, casts: Casts, calls: seq<Call>)
    requires st.doc.Some?
    ensures Run(st, casts, calls).doc.Some?
    decreases |calls|
  {
    if |calls| > 0 {
      var next := Step(st, casts, calls[0]);
      assert next.doc.Some? by {
        match calls[0]
        case SetCall(k, v) =>
        case GetCall(k, default, g, d) =>
        case HasKeyCall(k, g, d) =>
        case DeleteKeyCall(k, d) =>
        case DeleteAllCall(d) =>
        case SaveCall(_) =>
      }
      RunKeepsDocument(next, casts, calls[1..]);
    }
  }
}
