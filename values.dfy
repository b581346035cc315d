/** Values that cross the HTTP boundary: optional fields of a JSON request body,
    Python truthiness of those fields, JSON values of a response, and Flask's
    conversion of query-string arguments. */
module Values {

  datatype Option<+T> = None | Some(value: T)

  /** A calendar date (the `Date` column type); only its year is ever inspected. */
  datatype Date = Date(year: int, month: int, day: int)

  /** JSON values as the handlers produce and consume them. A timestamp is
      carried as `JTime(seconds)` and stands for its `isoformat()` text. */
  datatype Json =
    | JNull
    | JBool(b: bool)
    | JInt(i: int)
    | JReal(r: real)
    | JStr(s: string)
    | JTime(t: int)
    | JDate(d: Date)
    | JObj(fields: map<string, Json>)

  /** `if not data.get(key)` on a string field: absent, null and "" are falsy. */
  predicate TruthyStr(o: Option<string>) {
    o.Some? && |o.value| > 0
  }

  /** `if not data.get(key)` on an integer field: absent, null and 0 are falsy. */
  predicate TruthyInt(o: Option<int>) {
    o.Some? && o.value != 0
  }

  /** `if not data.get('book_id')` on an id field: absent and 0 are falsy. */
  predicate TruthyId(o: Option<nat>) {
    o.Some? && o.value != 0
  }

  /** `request.args.get(name, type=bool)`: Flask applies Python's `bool` to the
      raw text, so every non-empty text, "false" and "0" included, is true. */
  function QueryBool(raw: Option<string>): (r: Option<bool>)
    ensures raw.None? <==> r.None?
    ensures raw.Some? ==> (r.value <==> raw.value != [])
  {
    match raw
    case None => None
    case Some(s) => Some(|s| > 0)
  }

  /** The value of `data.get(key, default)`. */
  function GetOr<T>(o: Option<T>, default: T): T {
    match o
    case Some(v) => v
    case None => default
  }
}
