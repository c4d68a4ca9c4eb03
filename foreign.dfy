/**
 * The JavaScript values and built-ins the analyser leans on but does not define.
 * The built-ins whose inside is not modelled (JSON.parse, Number(), String(),
 * Date.parse, toFixed, the bucket label) are fields of `Env`: every theorem of
 * the model holds whatever total functions they are.
 */
module Foreign {
  import opened Wrappers

  /**
   * A value JSON.parse can produce. Numbers are finite reals here: a literal that
   * overflows a double, which JSON.parse reads as Infinity, is not modelled.
   */
  datatype Value =
    | Null
    | Bool(b: bool)
    | Num(n: real)
    | Str(s: string)
    | Arr(items: seq<Value>)
    | Obj(fields: map<string, Value>)

  /** A decoded JSON object. */
  type Record = map<string, Value>

  /** `obj[key]`; `None` is `undefined`, the value of an absent key. */
  function Get(obj: Record, key: string): Option<Value>
  {
    if key in obj then Some(obj[key]) else None
  }

  /** JavaScript truthiness (`ToBoolean`) of a possibly undefined value. */
  predicate Truthy(v: Option<Value>)
  {
    match v
    case None => false
    case Some(Null) => false
    case Some(Bool(b)) => b
    case Some(Num(x)) => x != 0.0
    case Some(Str(s)) => s != ""
    case Some(_) => true
  }

  /** A `Date` object, seen only through `getTime()`; `None` is the NaN of an invalid date. */
  datatype JsDate = JsDate(time: Option<int>)

  /**
   * The built-ins left abstract.
   *  - decode:    `JSON.parse` applied to a text that starts with `{`; `None` when it throws.
   *  - number:    `Number(x)` when the result is finite; `None` for NaN and +/-Infinity.
   *  - str:       `String(x)` (also the property-key coercion of an object index).
   *  - dateParse: `Date.parse(s)`, which is also `new Date(s).getTime()`; `None` for NaN.
   *  - round6:    `Number(x.toFixed(6))` for a finite x.
   *  - bucketLabel: `formatBucketLabel`, which depends on the local time zone.
   */
  datatype Env = Env(
    decode: string -> Option<Record>,
    number: Option<Value> -> Option<real>,
    str: Option<Value> -> string,
    dateParse: string -> Option<int>,
    round6: real -> real,
    bucketLabel: real -> string)

  /** `new Date(s)`. */
  function NewDate(env: Env, s: string): JsDate
  {
    JsDate(env.dateParse(s))
  }

  /** `Number(s)` for a string s. */
  function NumberOfString(env: Env, s: string): Option<real>
  {
    env.number(Some(Str(s)))
  }
}
