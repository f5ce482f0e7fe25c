/** JavaScript values as request bodies carry them, and the few JavaScript
    operations on them that the system's behaviour depends on. */
module Js {
  import opened Wrappers
  import opened Text

  /** A JSON-like JavaScript value. Numbers are integers. An object keeps only
      its properties named by integers (`"7"`), which are the only ones the
      system ever reads; other properties are not represented. */
  datatype JsValue =
    | Undefined
    | Null
    | Bool(b: bool)
    | Num(n: int)
    | Str(s: string)
    | Arr(items: seq<JsValue>)
    | Obj(props: map<int, JsValue>)

  /** `typeof v === "object" && v !== null`: arrays are objects too. */
  predicate IsObject(v: JsValue) {
    v.Arr? || v.Obj?
  }

  /** Property access `v[String(key)]`: an object's own property, or the
      element of an array at that index; `undefined` otherwise. */
  function Get(v: JsValue, key: int): (r: JsValue)
    ensures !IsObject(v) ==> r == Undefined
  {
    match v
    case Obj(props) => if key in props then props[key] else Undefined
    case Arr(items) => if 0 <= key < |items| then items[key] else Undefined
    case _ => Undefined
  }

  /** `String(v)`. Arrays join their elements' strings with `","`, with `null`
      and `undefined` elements rendered as the empty string. */
  function ToJsString(v: JsValue): string {
    match v
    case Undefined => "undefined"
    case Null => "null"
    case Bool(b) => if b then "true" else "false"
    case Num(n) => IntToString(n)
    case Str(s) => s
    case Arr(items) =>
      Join(seq(|items|, i requires 0 <= i < |items| =>
                 if items[i].Undefined? || items[i].Null? then "" else ToJsString(items[i])), ",")
    case Obj(_) => "[object Object]"
  }

  /** One property of a typed input record: left out (`undefined`), present as
      `null`, present with a value of the expected type, or present with a
      value of another JavaScript type (a number where text is expected; text,
      a fraction or an object where an integer is). */
  datatype Prop<+T> = Omitted | NullValue | Present(value: T) | WrongType

  /** `typeof p === "string" && p.trim() !== ""`. */
  predicate Filled(p: Prop<string>) {
    p.Present? && !IsBlank(p.value)
  }

  /** `p === undefined || (typeof p === "string" && p.trim() !== "")`: the
      update rule for a required text column. */
  predicate FilledIfGiven(p: Prop<string>) {
    p.Omitted? || Filled(p)
  }

  /** `p ?? null`: the value when present, null otherwise. A value of another
      type has no column value of type `T`, so it is stored as null too. */
  function OrNull<T>(p: Prop<T>): (r: Option<T>)
    ensures r.Some? <==> p.Present?
    ensures p.Present? ==> r == Some(p.value)
  {
    if p.Present? then Some(p.value) else None
  }

  /** The column value after a partial update: an omitted property keeps the
      old value, a present `null` clears it, a present value replaces it. */
  function Patched<T>(previous: Option<T>, p: Prop<T>): (r: Option<T>)
    ensures p.Omitted? ==> r == previous
    ensures !p.Omitted? ==> r == OrNull(p)
  {
    match p
    case Omitted => previous
    case NullValue => None
    case Present(v) => Some(v)
    case WrongType => None
  }
}
