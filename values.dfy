/** The dynamically typed values the program passes around: the contents of
    the offer dictionaries and the JSON documents the model source returns. */
module Values {

  datatype Option<+T> = None | Some(value: T)

  datatype Result<+T, +E> = Ok(value: T) | Err(error: E)

  /** A Python value as it can occur in an offer dictionary or a decoded JSON
      document. `VFloat` holds the exact value of a finite float. */
  datatype Value =
    | VNone
    | VBool(b: bool)
    | VInt(i: int)
    | VFloat(r: real)
    | VStr(s: string)
    | VList(items: seq<Value>)
    | VDict(fields: map<string, Value>)

  /** An offer, or any other dictionary with string keys. */
  type Item = map<string, Value>

  /** `d.get(key, default)`: the default only when the key is absent. */
  function GetOr(d: Item, key: string, default: Value): (v: Value)
    ensures key in d ==> v == d[key]
    ensures key !in d ==> v == default
  {
    if key in d then d[key] else default
  }

  /** `d.get(key)`. */
  function Get(d: Item, key: string): Value {
    GetOr(d, key, VNone)
  }

  /** Python truthiness, `bool(v)`. */
  predicate Truthy(v: Value) {
    match v
    case VNone => false
    case VBool(b) => b
    case VInt(i) => i != 0
    case VFloat(r) => r != 0.0
    case VStr(s) => s != []
    case VList(xs) => xs != []
    case VDict(m) => m != map[]
  }

  /** The numeric value of an `int`, `float` or `bool` (a subclass of `int`
      in Python); `None` for every other value. */
  function AsNumber(v: Value): (r: Option<real>)
    ensures r.Some? <==> (v.VBool? || v.VInt? || v.VFloat?)
  {
    match v
    case VBool(b) => Some(if b then 1.0 else 0.0)
    case VInt(i) => Some(i as real)
    case VFloat(r) => Some(r)
    case _ => None
  }

  /** Library behaviour this model does not see, supplied by the caller:
      - `ratio(a, b)`: `difflib.SequenceMatcher(None, a, b).ratio()`;
      - `str(v)`: the built-in `str()` of a value that is not a string;
      - `float(s)`: the built-in `float()` of a string, `None` where it raises. */
  datatype Library = Library(
    ratio: (string, string) -> real,
    str: Value -> string,
    float: string -> Option<real>)

  /** `str(v)`: a string is its own text; other values go to the library. */
  function StrOf(v: Value, lib: Library): string {
    if v.VStr? then v.s else lib.str(v)
  }
}
