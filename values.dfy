/** The values the helpers and the schema receive as `unknown`. */
module JsValues {
  import opened Calendar

  datatype Option<+T> = None | Some(value: T)

  /** A JavaScript value as far as the core looks at it: undefined (also an
      absent property), a string, a plain object with its own properties, a
      Date instance (None for an Invalid Date), or anything else (numbers,
      booleans, null, arrays, functions). */
  datatype Value =
    | Missing
    | Str(s: string)
    | Obj(fields: map<string, Value>)
    | DateObj(date: Option<LocalDate>)
    | Other

  /** Property access v[key]: undefined when v is not an object or lacks key. */
  function Get(v: Value, key: string): Value {
    if v.Obj? && key in v.fields then v.fields[key] else Missing
  }
}
