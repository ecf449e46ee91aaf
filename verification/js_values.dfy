/** JavaScript values as the storefront code sees them: nullable fields,
    parsed JSON documents, and the truthiness rules behind `!`, `||` and `??`. */
module JsValues {

  /** A nullable field: `None` stands for `null` or `undefined`. */
  datatype Option<+T> = None | Some(value: T) {

    /** Nullish coalescing: the fallback is taken only for `null`/`undefined`. */
    function OrElse(fallback: T): (r: T)
      ensures Some? ==> r == value
      ensures None? ==> r == fallback
    {
      match this
      case Some(v) => v
      case None => fallback
    }
  }

  /** A text field read as a JavaScript condition: `null`, `undefined` and the
      empty string are falsy, every other string is truthy. */
  predicate TextTruthy(o: Option<string>) {
    o.Some? && o.value != ""
  }

  /** A document produced by `JSON.parse`. */
  datatype Json =
    | JNull
    | JBool(b: bool)
    | JNum(n: real)
    | JStr(s: string)
    | JArr(items: seq<Json>)
    | JObj(fields: map<string, Json>)

  /** The value of a property read on a JSON document: a JSON value, or
      `undefined` when the property is absent. */
  datatype JsVal = Undefined | Defined(json: Json)

  /** JavaScript truthiness of a property value. JSON has no NaN, so the only
      falsy numbers are the zeros. */
  predicate Truthy(x: JsVal) {
    match x
    case Undefined => false
    case Defined(j) =>
      match j
      case JNull => false
      case JBool(b) => b
      case JNum(n) => n != 0.0
      case JStr(s) => s != ""
      case JArr(_) => true
      case JObj(_) => true
  }

  /** `a || b`: the first operand when it is truthy, otherwise the second. */
  function Or(a: JsVal, b: JsVal): (r: JsVal)
    ensures Truthy(a) ==> r == a
    ensures !Truthy(a) ==> r == b
    ensures Truthy(r) <==> Truthy(a) || Truthy(b)
  {
    if Truthy(a) then a else b
  }

  /** Property read `doc.key`. Reading a property of `null` throws a
      TypeError, shown as `None`. Only an object has own properties with the
      names this code reads (`event`, `form_id`, `submission_id`, `id`); on
      any other non-null value the read gives `undefined`. */
  function Get(doc: Json, key: string): (r: Option<JsVal>)
    ensures r.None? <==> doc == JNull
    ensures r == Some(Undefined) <== doc != JNull && !(doc.JObj? && key in doc.fields)
    ensures doc.JObj? && key in doc.fields ==> r == Some(Defined(doc.fields[key]))
  {
    match doc
    case JNull => None
    case JObj(m) => if key in m then Some(Defined(m[key])) else Some(Undefined)
    case _ => Some(Undefined)
  }
}
