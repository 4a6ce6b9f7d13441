/**
 Scalar values held by the JSON document and by Unity's PlayerPrefs store,
 together with the sentinels the source uses to detect a missing entry.
 */
module Values {

  /** A C# `int`: 32-bit two's complement. */
  const MinInt: int := -0x8000_0000
  const MaxIntValue: int := 0x7FFF_FFFF
  type Int32 = x: int | MinInt <= x <= MaxIntValue

  /** `int.MaxValue`, the "not found" sentinel of the integer probe. */
  const MaxInt: Int32 := MaxIntValue

  /** `float.MaxValue` = (2 - 2^-23) * 2^127, the "not found" sentinel of the float probe.
      Floats are modelled as reals: nothing in the model does arithmetic on them. */
  const MaxFloat: real := 340282346638528859811704183484516925440.0

  /** The JSON token types a stored value can have. */
  datatype Kind = Float | Integer | String

  /** A tagged scalar: a JSON float, integer or string token. An integer token is
      unbounded: a parsed file may hold integers outside 32 bits (Newtonsoft keeps
      them as `long` or `BigInteger`), while everything written by the library or
      read from PlayerPrefs fits in 32 bits. */
  datatype Value = FloatVal(f: real) | IntVal(i: int) | StrVal(s: string) {

    function KindOf(): Kind {
      match this
      case FloatVal(_) => Float
      case IntVal(_) => Integer
      case StrVal(_) => String
    }
  }

  /** The value is not an integer outside the range of a C# `int`. */
  predicate Fits32(v: Value) {
    v.IntVal? ==> MinInt <= v.i <= MaxIntValue
  }

  type Key = string

  /** The in-memory JSON object: property name to scalar token. */
  type Doc = map<Key, Value>

  /** The value a legacy probe of the value's own kind cannot tell apart from absence. */
  predicate IsSentinel(v: Value) {
    v == FloatVal(MaxFloat) || v == IntVal(MaxInt) || v == StrVal("")
  }

  /** `a` and `b` hold the same entries on every key other than `key`. */
  ghost predicate AgreeExcept<V>(a: map<Key, V>, b: map<Key, V>, key: Key) {
    forall k :: k != key ==> (k in a <==> k in b) && (k in a ==> a[k] == b[k])
  }

  /** Every key of `a` is still in `b`, with a token of the same type. */
  ghost predicate KindsKept(a: Doc, b: Doc) {
    forall k :: k in a ==> k in b && b[k].KindOf() == a[k].KindOf()
  }
}
