/**
 Python values as they travel between the agent, its local queue and the
 central server, and the HTTP exchange that carries them.
 */
module Payload {
  import Text
  import opened Wrappers

  /**
   A JSON-compatible Python value.  `JsonText(v)` stands for the text
   `json.dumps(v)` produces: the agent stores and sends such text but never
   looks inside it, so the model keeps the value it was made from instead.
   */
  datatype Value =
    | Null
    | Bool(b: bool)
    | Num(n: int)
    | Str(s: string)
    | List(items: seq<Value>)
    | Dict(fields: map<string, Value>)
    | JsonText(encoded: Value)

  /** Python truthiness (`if v:`); a JSON text is a non-empty string. */
  predicate Truthy(v: Value) {
    match v
    case Null => false
    case Bool(b) => b
    case Num(n) => n != 0
    case Str(s) => |s| > 0
    case List(xs) => |xs| > 0
    case Dict(m) => |m| > 0
    case JsonText(_) => true
  }

  function StrMap(m: map<string, string>): (r: map<string, Value>)
    ensures r.Keys == m.Keys
    ensures forall k :: k in m ==> r[k] == Str(m[k])
  {
    map k | k in m :: Str(m[k])
  }

  /** The outcome of `key in v` followed by `v[key]`. */
  datatype Lookup = Absent | Present(value: Value) | Raises

  /**
   `key in v` then `v[key]` on a decoded response body: a dict answers by key;
   a list or a string that contains the key passes the test and then raises on
   indexing; the test itself raises on numbers, booleans and None.
   A decoded body never holds a `JsonText`; the model answers `Absent` for it.
   */
  function LookupKey(v: Value, key: string): (r: Lookup)
    ensures v.Dict? ==> (r.Present? <==> key in v.fields)
    ensures v.Dict? && key in v.fields ==> r == Present(v.fields[key])
    ensures !v.Dict? ==> !r.Present?
  {
    match v
    case Dict(m) => if key in m then Present(m[key]) else Absent
    case List(xs) => if Str(key) in xs then Raises else Absent
    case Str(s) => if Text.Contains(s, key) then Raises else Absent
    case JsonText(_) => Absent
    case _ => Raises
  }

  /**
   What `requests` gives back for one call: a status code and the result of
   `response.json()` (`None` when that raises), or an exception from the
   transport itself (refused connection, timeout).
   */
  datatype Response =
    | Response(status: int, body: Option<Value>)
    | ConnectionFailed

  predicate IsOk(r: Response) {
    r.Response? && r.status == 200
  }

  /** One outbound HTTP call; `bearer` is the value after `Bearer ` in the Authorization header. */
  datatype Request =
    | Post(url: string, bearer: Option<Value>, body: Value)
    | Get(url: string, bearer: Option<Value>)
}
