/** Parsed JSON as the program sees it: `undefined` (a missing property) is kept apart
    from `null`, because the program treats them differently. */
module Json {
  import opened Wrappers
  import opened Text

  datatype Value =
    | Undefined
    | Null
    | Bool(b: bool)
    | Num(n: real)
    | Str(s: string)
    | Arr(elems: seq<Value>)
    | Obj(fields: map<string, Value>)

  /** `v === null || v === undefined` */
  predicate IsNullish(v: Value) {
    v.Undefined? || v.Null?
  }

  /** JavaScript truthiness, as in `if (v)` and `v && …`. */
  predicate Truthy(v: Value) {
    match v
    case Undefined => false
    case Null => false
    case Bool(b) => b
    case Num(n) => n != 0.0
    case Str(s) => s != ""
    case _ => true
  }

  /** An ordered JSON object: its entries in `Object.entries` order, each key once. */
  predicate DistinctKeys(entries: seq<(string, Value)>) {
    forall i, j :: 0 <= i < j < |entries| ==> entries[i].0 != entries[j].0
  }

  type Entries = e: seq<(string, Value)> | DistinctKeys(e)

  /** The value of the entry named `key`, or `undefined`. */
  function Lookup(entries: seq<(string, Value)>, key: string): Value
    decreases |entries|
  {
    if entries == [] then Undefined
    else if entries[|entries| - 1].0 == key then entries[|entries| - 1].1
    else Lookup(entries[..|entries| - 1], key)
  }

  function DigitValue(c: char): nat
    requires '0' <= c <= '9'
  {
    c as int - '0' as int
  }

  predicate AllDigits(s: string) {
    forall i :: 0 <= i < |s| ==> '0' <= s[i] <= '9'
  }

  function DecimalValue(s: string): nat
    requires AllDigits(s)
    decreases |s|
  {
    if s == [] then 0 else DecimalValue(s[..|s| - 1]) * 10 + DigitValue(s[|s| - 1])
  }

  /** The array index a property name denotes: decimal digits without a leading zero,
      below 2^32 - 1. */
  function ArrayIndex(key: string): Option<nat> {
    if key != [] && AllDigits(key) && (key == "0" || key[0] != '0') && DecimalValue(key) < 0xFFFF_FFFF
    then Some(DecimalValue(key))
    else None
  }

  /** `v[key]` for a value that is neither null nor undefined. Properties of string
      primitives and inherited properties are not modelled: they read as undefined. */
  function Get(v: Value, key: string): Value {
    match v
    case Obj(fields) => if key in fields then fields[key] else Undefined
    case Arr(es) =>
      if key == "length" then Num(|es| as real)
      else (match ArrayIndex(key)
            case Some(i) => if i < |es| then es[i] else Undefined
            case None => Undefined)
    case _ => Undefined
  }

  /** What the model leaves to the JavaScript engine: the text of a number (`String(n)`)
      and `JSON.stringify`. */
  datatype Host = Host(numberText: real -> string, jsonText: Value -> string)

  /** `String(v)`. An array is its elements joined with ",", where null and undefined
      elements give "". */
  function ToText(v: Value, host: Host): string
    decreases v, 1
  {
    match v
    case Undefined => "undefined"
    case Null => "null"
    case Bool(b) => if b then "true" else "false"
    case Num(n) => host.numberText(n)
    case Str(s) => s
    case Arr(es) => Join(seq(|es|, i requires 0 <= i < |es| => ElementText(es[i], host)), ",")
    case Obj(_) => "[object Object]"
  }

  /** How `Array.prototype.join` writes one element. */
  function ElementText(v: Value, host: Host): string
    decreases v, 2
  {
    if IsNullish(v) then "" else ToText(v, host)
  }

  /** `es.join(sep)` */
  function JoinElements(es: seq<Value>, sep: string, host: Host): string {
    Join(seq(|es|, i requires 0 <= i < |es| => ElementText(es[i], host)), sep)
  }
}
