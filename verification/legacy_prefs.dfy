/**
 Unity's built-in PlayerPrefs store, seen only through the part of its public
 API the library calls. Each key holds at most one typed value; a typed getter
 returns the caller's default when the key is absent or holds another type.
 */
module LegacyPrefs {
  import opened Values

  /** PlayerPrefs integers are C# `int`s. */
  type Legacy = l: map<Key, Value> | forall k :: k in l ==> Fits32(l[k])

  /** `PlayerPrefs.GetFloat(key, default)`. */
  function GetFloat(l: Legacy, key: Key, default: real): real {
    if key in l && l[key].FloatVal? then l[key].f else default
  }

  /** `PlayerPrefs.GetInt(key, default)`. */
  function GetInt(l: Legacy, key: Key, default: Int32): Int32 {
    if key in l && l[key].IntVal? then l[key].i else default
  }

  /** `PlayerPrefs.GetString(key, default)`. */
  function GetString(l: Legacy, key: Key, default: string): string {
    if key in l && l[key].StrVal? then l[key].s else default
  }

  /** `PlayerPrefs.HasKey(key)`. */
  predicate HasKey(l: Legacy, key: Key) {
    key in l
  }

  /** `PlayerPrefs.DeleteKey(key)`: removing an absent key is not an error. */
  function DeleteKey(l: Legacy, key: Key): Legacy {
    l - {key}
  }

  /** `PlayerPrefs.DeleteAll()`. */
  function DeleteAll(l: Legacy): Legacy {
    map[]
  }
}
