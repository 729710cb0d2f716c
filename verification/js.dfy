/**
 * JavaScript values as the backend sees them in a parsed JSON request body,
 * together with `undefined` (what reading a missing property yields), and the
 * two pieces of JavaScript semantics the handlers rely on: truthiness and
 * object spread.
 */
module Js {
  import Text

  /** Numbers are restricted to integers; see README for what this leaves out. */
  datatype Value =
    | Undefined
    | Null
    | Bool(b: bool)
    | Num(n: int)
    | Str(s: string)
    | Arr(items: seq<Value>)
    | Obj(fields: map<string, Value>)

  /** The values `if (v)` accepts: everything except `undefined`, `null`,
      `false`, `0` and the empty string. */
  predicate Truthy(v: Value) {
    match v
    case Undefined => false
    case Null => false
    case Bool(b) => b
    case Num(n) => n != 0
    case Str(s) => s != ""
    case Arr(_) => true
    case Obj(_) => true
  }

  /** Property read `o.k` on an object: a missing key reads as `undefined`. */
  function Get(o: map<string, Value>, k: string): Value {
    if k in o then o[k] else Undefined
  }

  /** The entries of `o` whose value is not `undefined`: what
      `_.omitBy(values, v => v === undefined)` keeps. */
  function Defined(o: map<string, Value>): map<string, Value> {
    map k | k in o && !o[k].Undefined? :: o[k]
  }

  /** `a && b`: the left operand when it is falsy, otherwise the right one. */
  function And(a: Value, b: Value): Value {
    if Truthy(a) then b else a
  }

  /** The entries `{...xs}` produces for an array: index keys "0", "1", ... */
  function IndexEntries(xs: seq<Value>): (m: map<string, Value>)
    ensures forall k | k in m :: Text.MatchesDigits(k)
  {
    if xs == [] then map[]
    else IndexEntries(xs[..|xs| - 1])[Text.NatText(|xs| - 1) := xs[|xs| - 1]]
  }

  /** The entries object spread `{...v}` contributes: an object's own entries,
      the characters of a string and the elements of an array under their
      index keys, and nothing for `undefined`, `null`, booleans and numbers. */
  function Spread(v: Value): (m: map<string, Value>)
    ensures v.Obj? ==> m == v.fields
    ensures !v.Obj? ==> forall k | k in m :: Text.MatchesDigits(k)
  {
    match v
    case Obj(fields) => fields
    case Arr(xs) => IndexEntries(xs)
    case Str(s) => IndexEntries(Chars(s))
    case _ => map[]
  }

  /** A string seen as the sequence of its one-character strings. */
  function Chars(s: string): (xs: seq<Value>)
    ensures |xs| == |s|
    ensures forall i | 0 <= i < |s| :: xs[i] == Str([s[i]])
  {
    if s == [] then [] else Chars(s[..|s| - 1]) + [Str([s[|s| - 1]])]
  }

  /** The idiom `...(x && {key: x})` of the response builders: the key is
      present exactly when `x` is truthy, and then holds `x`. */
  lemma ConditionalEntry(key: string, x: Value)
    ensures Truthy(x) ==> Spread(And(x, Obj(map[key := x]))) == map[key := x]
    ensures !Truthy(x) ==> Spread(And(x, Obj(map[key := x]))) == map[]
  {
  }
}
