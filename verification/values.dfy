/**
 * The values a log record, a configuration array or a request body holds:
 * PHP arrays with string keys, modelled as maps.
 */
module Values {
  import opened DateTimes

  /**
   * A PHP value. `Date` is an instance of `DateTimeInterface`; `Object` is
   * an instance of any other class (one without `__toString`).
   */
  datatype Value =
    | Null
    | Bool(b: bool)
    | Int(i: int)
    | Str(s: string)
    | Date(d: DateTime)
    | Array(entries: map<string, Value>)
    | Object(className: string)

  /** A PHP array with string keys: a log record, a config array, a document. */
  type Record = map<string, Value>

  /** PHP's `isset($m[key])`: the key is present and does not hold null. */
  predicate IsSet(m: Record, key: string): (b: bool)
    ensures b ==> key in m
    ensures key in m ==> (b <==> !m[key].Null?)
  {
    key in m && m[key] != Null
  }

  /** PHP's null-coalescing read `$m[key] ?? default`. */
  function Coalesce(m: Record, key: string, default: Value): (v: Value)
    ensures IsSet(m, key) ==> v == m[key]
    ensures !IsSet(m, key) ==> v == default
  {
    if IsSet(m, key) then m[key] else default
  }
}
