/**
 * Parsed JSON values, and how each runtime reads them: JavaScript property access,
 * truthiness and string conversion; PHP array indexing, `??` and truthiness;
 * Jackson's `path` and `asText`. Numbers are integers (fractions are not modelled).
 */
module Json {
  import opened Wrappers
  import Text

  datatype Json =
    | JNull
    | JBool(b: bool)
    | JNum(n: int)
    | JStr(s: string)
    | JArr(items: seq<Json>)
    | JObj(fields: map<string, Json>)

  /** A JavaScript value of JSON origin: `None` is `undefined`. */
  type JsVal = Option<Json>

  function Obj1(k: string, v: Json): Json {
    JObj(map[k := v])
  }

  // ---------------------------------------------------------------- JavaScript

  predicate Truthy(v: JsVal) {
    match v
    case None => false
    case Some(JNull) => false
    case Some(JBool(b)) => b
    case Some(JNum(n)) => n != 0
    case Some(JStr(s)) => s != ""
    case Some(_) => true
  }

  /** The `TypeError` message V8 gives for reading a property of `undefined` or `null`. */
  function NullishMessage(v: JsVal, key: string): string
    requires v.None? || v == Some(JNull)
  {
    "Cannot read properties of " + (if v.None? then "undefined" else "null") + " (reading '" + key + "')"
  }

  /** `v.key`: throws on `undefined` and `null`, is `undefined` where the key is absent. */
  function Get(v: JsVal, key: string): (r: Result<JsVal, string>)
    ensures r.Err? <==> v.None? || v == Some(JNull)
    ensures r.Err? ==> r.error == NullishMessage(v, key)
    ensures r.Ok? && v.value.JObj? ==> r.value == (if key in v.value.fields then Some(v.value.fields[key]) else None)
    ensures r.Ok? && !v.value.JObj? ==> r.value == None
  {
    match v
    case None => Err(NullishMessage(v, key))
    case Some(JNull) => Err(NullishMessage(v, key))
    case Some(JObj(m)) => Ok(if key in m then Some(m[key]) else None)
    case Some(_) => Ok(None)
  }

  /** `String(v)` for a value that is not `undefined`. */
  function ToJsString(v: Json): string
    decreases v
  {
    match v
    case JNull => "null"
    case JBool(b) => if b then "true" else "false"
    case JNum(n) => Text.IntToString(n)
    case JStr(s) => s
    case JArr(items) => JoinItems(items)
    case JObj(_) => "[object Object]"
  }

  /** `Array.prototype.join(",")`: `null` elements become empty. */
  function JoinItems(items: seq<Json>): string
    decreases items
  {
    if |items| == 0 then ""
    else
      var first := if items[0] == JNull then "" else ToJsString(items[0]);
      if |items| == 1 then first else first + "," + JoinItems(items[1..])
  }

  /** A template literal's `${v}`. */
  function TemplateText(v: JsVal): string {
    if v.None? then "undefined" else ToJsString(v.value)
  }

  /** The text a `textarea` shows after `value = v` (`null` is the empty string). */
  function FieldText(v: JsVal): string {
    if v == Some(JNull) then "" else TemplateText(v)
  }

  /** The text `v || fallback` shows once written to an element's `textContent`. */
  function OrText(v: JsVal, fallback: string): (r: string)
    ensures Truthy(v) && v.value.JStr? ==> r == v.value.s
    ensures !Truthy(v) ==> r == fallback
  {
    if Truthy(v) then ToJsString(v.value) else fallback
  }

  // ---------------------------------------------------------------------- PHP

  /** `$v[$key]` on a decoded array: `null` where the key is absent or `$v` is not an array. */
  function PhpIndex(v: Json, key: string): (r: Json)
    ensures v.JObj? && key in v.fields ==> r == v.fields[key]
    ensures !(v.JObj? && key in v.fields) ==> r == JNull
  {
    if v.JObj? && key in v.fields then v.fields[key] else JNull
  }

  /** `$v[$key] ?? $default`. */
  function PhpCoalesce(v: Json, key: string, default: Json): (r: Json)
    ensures r == default || (v.JObj? && key in v.fields && r == v.fields[key] != JNull)
    ensures PhpIndex(v, key) != JNull ==> r == PhpIndex(v, key)
  {
    var x := PhpIndex(v, key);
    if x == JNull then default else x
  }

  /** A PHP string is falsy (and `empty`) exactly when it is "" or "0". */
  predicate PhpTruthy(s: string) {
    s != "" && s != "0"
  }

  // ------------------------------------------------------------------ Jackson

  /** `node.path(key)`: the missing node (`None`) unless `node` is an object holding `key`. */
  function Path(node: JsVal, key: string): (r: JsVal)
    ensures r.Some? <==> node.Some? && node.value.JObj? && key in node.value.fields
  {
    if node.Some? && node.value.JObj? && key in node.value.fields then Some(node.value.fields[key]) else None
  }

  /** `node.get(i)` on an array node. */
  function Element(node: JsVal, i: nat): (r: JsVal)
    ensures r.Some? <==> node.Some? && node.value.JArr? && i < |node.value.items|
  {
    if node.Some? && node.value.JArr? && i < |node.value.items| then Some(node.value.items[i]) else None
  }

  predicate IsArray(node: JsVal) {
    node.Some? && node.value.JArr?
  }

  /** `node.asText()`: a string node's own text, the printed scalar otherwise, "" for containers and the missing node. */
  function AsText(node: JsVal): (r: string)
    ensures node.Some? && node.value.JStr? ==> r == node.value.s
    ensures node.None? || node.value.JArr? || node.value.JObj? ==> r == ""
  {
    match node
    case None => ""
    case Some(JNull) => "null"
    case Some(JBool(b)) => if b then "true" else "false"
    case Some(JNum(n)) => Text.IntToString(n)
    case Some(JStr(s)) => s
    case Some(_) => ""
  }
}
