/** Decoded JSON values, as `json.load` and `Response.json()` hand them to
    the Python code, and the Python lookups made on them. */
module Json {
  import opened Wrappers
  import opened Bytes

  /** A decoded JSON value. Numbers are integers. */
  datatype Json =
    | JNull
    | JBool(b: bool)
    | JInt(i: int)
    | JStr(s: string)
    | JArr(items: seq<Json>)
    | JObj(fields: map<string, Json>)

  /** The Python exceptions raised while reading a decoded value.
      `NotAString` stands for a value of another type where the model keeps
      a string. */
  datatype PyError =
    | KeyError(key: string)
    | TypeError
    | AttributeError
    | ValueError(message: string)
    | NotAString(field: string)

  const Empty: Json := JObj(map[])

  /** Python truthiness: `None`, `False`, `0`, and empty strings, lists and
      dicts are false. */
  predicate Truthy(j: Json)
  {
    match j
    case JNull => false
    case JBool(b) => b
    case JInt(i) => i != 0
    case JStr(s) => s != []
    case JArr(items) => items != []
    case JObj(fields) => fields != map[]
  }

  /** `d.get(key, default)`: only a dict has `get`. */
  function Get(d: Json, key: string, default: Json): Result<Json, PyError>
  {
    if !d.JObj? then Err(AttributeError)
    else if key in d.fields then Ok(d.fields[key])
    else Ok(default)
  }

  /** `d[key]` with a string key: a dict raises `KeyError` for a missing key,
      anything else raises `TypeError`. */
  function Index(d: Json, key: string): Result<Json, PyError>
  {
    if !d.JObj? then Err(TypeError)
    else if key in d.fields then Ok(d.fields[key])
    else Err(KeyError(key))
  }

  /** `d[key]`, kept as a string. */
  function StrAt(d: Json, key: string): Result<string, PyError>
  {
    var v :- Index(d, key);
    if v.JStr? then Ok(v.s) else Err(NotAString(key))
  }

  /** A value that is either a string or `None`. */
  function OptStr(v: Json, key: string): Result<Option<string>, PyError>
  {
    if v.JNull? then Ok(None)
    else if v.JStr? then Ok(Some(v.s))
    else Err(NotAString(key))
  }

  function OptStrJson(o: Option<string>): Json
  {
    if o.Some? then JStr(o.value) else JNull
  }

  lemma OptStrRoundTrip(o: Option<string>, key: string)
    ensures OptStr(OptStrJson(o), key) == Ok(o)
  {
  }

  /** `int(v)`: an integer is itself, a boolean is 0 or 1, a string is
      parsed (`ValueError` when it is not a numeral), and anything else is a
      `TypeError`. */
  function IntOf(v: Json): (r: Result<int, PyError>)
    ensures v.JInt? ==> r == Ok(v.i)
    ensures v.JBool? ==> r == Ok(if v.b then 1 else 0)
    ensures v.JStr? ==> (r.Ok? <==> ParseInt(v.s).Some?) && (r.Ok? ==> Some(r.value) == ParseInt(v.s))
    ensures (v.JNull? || v.JArr? || v.JObj?) ==> r == Err(TypeError)
  {
    match v
    case JInt(i) => Ok(i)
    case JBool(b) => Ok(if b then 1 else 0)
    case JStr(s) =>
      var n := ParseInt(s);
      if n.Some? then Ok(n.value) else Err(ValueError("invalid literal for int()"))
    case _ => Err(TypeError)
  }
}
