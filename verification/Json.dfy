/** Decoded JSON, as the Go client sees it (`any` and `map[string]any`). */
module Json {

  datatype Value =
    | Null
    | Bool(b: bool)
    | Num(n: int)                // a whole number
    | Frac(odd: int, k: nat)     // odd / 2^(k+1)
    | Str(s: string)
    | Arr(elems: seq<Value>)
    | Obj(fields: map<string, Value>)

  type Object = map<string, Value>

  /** A field read with a string type assertion: "" when absent or not a string. */
  function Text(o: Object, key: string): string {
    if key in o && o[key].Str? then o[key].s else ""
  }

  /** A field read and compared with `true`. */
  predicate IsTrue(o: Object, key: string) {
    key in o && o[key] == Bool(true)
  }

  /** Null, "", false, 0, {} and [] (internal/mcp/tools.go:2203-2219); an absent field reads as null. */
  predicate IsEmpty(o: Object, key: string) {
    key !in o ||
    match o[key]
    case Null => true
    case Bool(b) => !b
    case Num(n) => n == 0
    case Frac(_, _) => false
    case Str(s) => s == ""
    case Arr(a) => a == []
    case Obj(m) => |m| == 0
  }

  /** The object without the given keys. */
  function Without(o: Object, keys: set<string>): Object {
    map k | k in o && k !in keys :: o[k]
  }
}
