/** The decoded JSON payload that the sensor API returns, and the two Python
    behaviours the ingestion code relies on when it inspects it: truthiness
    (`if not x`) and the numeric test `isinstance(x, (int, float))`. */
module Payload {

  /** One JSON value after decoding. `BoolV` is kept apart from `IntV` because
      the source keeps booleans as booleans, although Python treats them as
      the integers 1 and 0 in comparisons and in the numeric test. */
  datatype Value =
    | NoneV
    | BoolV(b: bool)
    | IntV(i: int)
    | FloatV(r: real)
    | StrV(s: string)
    | ListV(items: seq<Value>)
    | DictV(fields: map<string, Value>)

  /** The exceptions the modelled code can raise. */
  datatype Fault = KeyError(key: string) | TypeError

  /** A computation that either returns a value or raises. */
  datatype Result<T> = Ok(value: T) | Err(fault: Fault)

  /** Python truthiness: `None`, `False`, zero and empty containers are falsy. */
  predicate Truthy(v: Value): (t: bool)
    ensures v == NoneV ==> !t
    ensures v.DictV? ==> (t <==> v.fields != map[])
    ensures v.ListV? ==> (t <==> v.items != [])
    ensures v.StrV? ==> (t <==> v.s != "")
  {
    match v
    case NoneV => false
    case BoolV(b) => b
    case IntV(i) => i != 0
    case FloatV(r) => r != 0.0
    case StrV(s) => |s| > 0
    case ListV(items) => |items| > 0
    case DictV(fields) => |fields| > 0
  }

  /** `isinstance(v, (int, float))`; `bool` is a subclass of `int`. */
  predicate IsNumeric(v: Value): (n: bool)
    ensures v.BoolV? ==> n
    ensures v == NoneV || v.StrV? || v.ListV? || v.DictV? ==> !n
  {
    v.BoolV? || v.IntV? || v.FloatV?
  }

  /** The number a numeric value compares as. */
  function NumVal(v: Value): (x: real)
    requires IsNumeric(v)
    ensures x != 0.0 <==> Truthy(v)
    ensures v.BoolV? ==> x == 0.0 || x == 1.0
    ensures v.IntV? ==> x.Floor == v.i && x == x.Floor as real
    ensures v.FloatV? ==> x == v.r
  {
    match v
    case BoolV(b) => if b then 1.0 else 0.0
    case IntV(i) => i as real
    case FloatV(r) => r
  }

  /** `d.get(key)`: a missing key reads as `None`. */
  function Get(d: map<string, Value>, key: string): (v: Value)
    ensures key in d ==> v == d[key]
    ensures key !in d ==> v == NoneV
  {
    if key in d then d[key] else NoneV
  }

  /** `v[key]` with a string key: only a dict can be subscripted by a string,
      and a dict without the key raises `KeyError`. */
  function Subscript(v: Value, key: string): (r: Result<Value>)
    ensures r.Ok? <==> v.DictV? && key in v.fields
    ensures r.Ok? ==> r.value == v.fields[key]
    ensures v.DictV? && key !in v.fields ==> r == Err(KeyError(key))
    ensures !v.DictV? ==> r == Err(TypeError)
  {
    match v
    case DictV(fields) => if key in fields then Ok(fields[key]) else Err(KeyError(key))
    case _ => Err(TypeError)
  }
}
