/** JavaScript values as they occur in the records of a JSON database:
    the JSON kinds plus `undefined`, which a missing field reads as and which
    an update may store. Strict equality and truthiness follow JavaScript. */
module JsonValue {

  /** A record field's value. Numbers are mathematical reals (no NaN). */
  datatype Value =
    | Undefined
    | Null
    | Bool(b: bool)
    | Num(n: real)
    | Str(s: string)
    | Arr(items: seq<Value>)
    | Obj(fields: map<string, Value>)

  /** An untyped record: an open set of named fields. */
  type Record = map<string, Value>

  /** Values compared by content under `===`; arrays and objects are compared by identity. */
  predicate IsPrimitive(v: Value) {
    !v.Arr? && !v.Obj?
  }

  /** `row[key]`: the stored value, or `undefined` for a missing field. */
  function Get(row: Record, key: string): (v: Value)
    ensures key in row ==> v == row[key]
    ensures key !in row ==> v.Undefined?
  {
    if key in row then row[key] else Undefined
  }

  /** `a === b`. Two separately built arrays or objects are never the same
      reference, so composite values never compare equal here. */
  predicate StrictEquals(a: Value, b: Value) {
    IsPrimitive(a) && a == b
  }

  /** `!!v`: JavaScript truthiness. Every array and object is truthy, even an empty one. */
  predicate Truthy(v: Value) {
    match v
    case Undefined => false
    case Null => false
    case Bool(b) => b
    case Num(n) => n != 0.0
    case Str(s) => s != ""
    case Arr(_) => true
    case Obj(_) => true
  }

  /** Reading a field after `row[key] = x` sees `x` under that name and the
      old value under every other name. */
  lemma GetSet(row: Record, key: string, x: Value, f: string)
    ensures Get(row[key := x], f) == if f == key then x else Get(row, f)
  {
  }
}
