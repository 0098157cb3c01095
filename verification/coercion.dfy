/**
 * The value conversions of the visual editor's type selector: String(value),
 * Number(value), `value === "true"`, and the fresh {} / [] / null values.
 */
module Coercion {
  import opened Wrappers
  import opened Text
  import opened Json

  /**
   * Number-to-text (String(n)) and text-to-number (Number(s)), supplied from
   * outside. `parse` yields None where JavaScript yields NaN or an infinity.
   */
  datatype NumberText = NumberText(format: Number -> string, parse: string -> Option<Number>)

  /** String(v): primitives spelled out, arrays joined with commas, objects as "[object Object]". */
  function ToText(v: Json, num: NumberText): string
    decreases v
  {
    match v
    case JNull => "null"
    case JBool(b) => if b then "true" else "false"
    case JNumber(n) => num.format(n)
    case JString(s) => s
    case JObject(_) => "[object Object]"
    case JArray(items) =>
      Join(seq(|items|, i requires 0 <= i < |items| =>
                 if items[i].JNull? then "" else ToText(items[i], num)), ",")
  }

  /** Number(v): None for NaN or an infinity. Objects and arrays go through their text. */
  function ToNumber(v: Json, num: NumberText): Option<Number> {
    match v
    case JNull => Some(Decimal(0, 0))
    case JBool(b) => Some(Decimal(if b then 1 else 0, 0))
    case JNumber(n) => Some(n)
    case JString(s) => num.parse(s)
    case _ => num.parse(ToText(v, num))
  }

  /**
   * The value written when the user picks type `t` for raw input `raw` (the typed
   * text, or the current value when only the type changes). A number that is NaN
   * or infinite is recorded as null, which is how JSON.stringify writes it.
   */
  function Coerce(raw: Json, t: ValueType, num: NumberText): (r: Json)
    ensures t != NumberType || ToNumber(raw, num).Some? ==> GetValueType(r) == t
    ensures t == NumberType && ToNumber(raw, num).None? ==> r == JNull
    ensures t == StringType && raw.JString? ==> r == raw
    ensures t == NumberType && raw.JNumber? ==> r == raw
    ensures t == BooleanType ==> (r == JBool(true) <==> raw == JString("true"))
    ensures t == ObjectType ==> r == JObject([])
    ensures t == ArrayType ==> r == JArray([])
    ensures t == NullType ==> r == JNull
    ensures Wf(r)
  {
    match t
    case StringType => JString(ToText(raw, num))
    case NumberType =>
      (match ToNumber(raw, num)
       case Some(n) => JNumber(n)
       case None => JNull)
    case BooleanType => JBool(raw == JString("true"))
    case ObjectType => JObject([])
    case ArrayType => JArray([])
    case NullType => JNull
  }

  /** Only the exact text "true" becomes true; every other input becomes false. */
  lemma BooleanFromText(s: string, num: NumberText)
    ensures Coerce(JString(s), BooleanType, num) == JBool(s == "true")
  {
  }

  /** A boolean survives a switch to string and back. */
  lemma {:induction false} BooleanThroughString(b: bool, num: NumberText)
    ensures Coerce(Coerce(JBool(b), StringType, num), BooleanType, num) == JBool(b)
  {
    var text := Coerce(JBool(b), StringType, num);
    assert text == JString(if b then "true" else "false");
    assert "false" != "true" by { assert "false"[0] != "true"[0]; }
  }
}
