/**
 * An already-parsed JSON value, and the JavaScript conversions the validator
 * applies to it: property access (`undefined` is `None`), truthiness,
 * `String(v)` and `Number(v)`.
 */
module JsonValue {
  import opened Wrappers
  import opened Js

  /** A value `JSON.parse` can produce (numbers restricted to integers). */
  datatype Json =
    | JNull
    | JBool(b: bool)
    | JNumber(n: int)
    | JString(s: string)
    | JArray(items: seq<Json>)
    | JObject(fields: map<string, Json>)

  /** `typeof v === 'object'`, which holds for `null` and for arrays as well. */
  predicate IsObjectType(v: Json) {
    v.JNull? || v.JArray? || v.JObject?
  }

  /** `v[key]` for an own property; `None` is `undefined`. */
  function Get(v: Json, key: string): (r: Option<Json>)
    ensures r.Some? <==> v.JObject? && key in v.fields
  {
    if v.JObject? && key in v.fields then Some(v.fields[key]) else None
  }

  /** JavaScript truthiness; `undefined` is falsy. */
  predicate Truthy(v: Option<Json>) {
    match v
    case None => false
    case Some(JNull) => false
    case Some(JBool(b)) => b
    case Some(JNumber(n)) => n != 0
    case Some(JString(s)) => s != []
    case Some(JArray(_)) => true
    case Some(JObject(_)) => true
  }

  /**
   * `String(v)`. An array joins its elements with "," and shows `null`
   * elements as the empty string; every plain object shows as
   * "[object Object]".
   */
  function ToJsString(v: Json): string
    decreases v
  {
    match v
    case JNull => "null"
    case JBool(b) => if b then "true" else "false"
    case JNumber(n) => IntToString(n)
    case JString(s) => s
    case JArray(items) =>
      Join(seq(|items|, i requires 0 <= i < |items| =>
                 if items[i].JNull? then "" else ToJsString(items[i])), ",")
    case JObject(_) => "[object Object]"
  }

  /** `Number(v)`: objects and arrays go through their string form. */
  function ToNumber(v: Option<Json>): Num {
    match v
    case None => NaN
    case Some(JNull) => Int(0)
    case Some(JBool(b)) => if b then Int(1) else Int(0)
    case Some(JNumber(n)) => Int(n)
    case Some(JString(s)) => ParseNumber(s)
    case Some(x) => ParseNumber(ToJsString(x))
  }

  /** `String(v || fallback)`. */
  function StringOr(v: Option<Json>, fallback: string): (r: string)
    ensures !Truthy(v) ==> r == fallback
    ensures v.Some? && v.value.JString? && v.value.s != [] ==> r == v.value.s
  {
    if Truthy(v) then ToJsString(v.value) else fallback
  }

  /** The array and object conversions on small examples. */
  lemma ConversionExamples()
    ensures ToJsString(JArray([JString("a"), JNull, JNumber(7)])) == "a,,7"
    ensures ToNumber(Some(JObject(map[]))).NaN?
    ensures ToNumber(Some(JArray([]))) == Int(0)
  {
    var items := [JString("a"), JNull, JNumber(7)];
    var parts := seq(|items|, i requires 0 <= i < |items| =>
                       if items[i].JNull? then "" else ToJsString(items[i]));
    assert NatToDecimal(7) == "7";
    assert parts == ["a", "", "7"];
    assert Join(parts[2..], ",") == "7";
    assert Join(parts[1..], ",") == "" + "," + "7";
    assert Join(parts, ",") == "a" + "," + ",7";
    var o := "[object Object]";
    TrimKeeps(o);
    assert !AllDigits(o) by { assert !IsDigit(o[0]); }
    assert ParseTrimmed(o).NaN?;
    assert ToJsString(JArray([])) == "";
  }
}
