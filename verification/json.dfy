/**
 * JSON documents as JavaScript sees them after `JSON.parse` or `response.json()`:
 * the profile files, the translation tables and the configuration objects.
 * An object's fields are kept in their enumeration order (`Object.keys`).
 */
module Json {
  import opened JsText

  /** Numbers are integers here: the model only reads them for truthiness and `typeof`. */
  datatype Json =
    | JNull
    | JBool(b: bool)
    | JNum(n: int)
    | JStr(s: string)
    | JArr(items: seq<Json>)
    | JObj(fields: seq<Field>)

  datatype Field = Field(key: string, value: Json)

  function Keys(fields: seq<Field>): (ks: seq<string>)
    ensures |ks| == |fields|
    ensures forall i :: 0 <= i < |fields| ==> ks[i] == fields[i].key
  {
    seq(|fields|, i requires 0 <= i < |fields| => fields[i].key)
  }

  /** A parsed object never repeats a key. */
  predicate UniqueKeys(fields: seq<Field>) {
    forall i, j :: 0 <= i < j < |fields| ==> fields[i].key != fields[j].key
  }

  /** The own property `key` of an object given by its fields. */
  function Lookup(fields: seq<Field>, key: string): (r: Option<Json>)
    ensures r.None? <==> key !in Keys(fields)
    ensures r.Some? ==> Field(key, r.value) in fields
  {
    if |fields| == 0 then None
    else if fields[0].key == key then Some(fields[0].value)
    else
      assert Keys(fields) == [fields[0].key] + Keys(fields[1..]);
      Lookup(fields[1..], key)
  }

  /** `typeof v === 'object'`: objects, arrays and `null`. */
  predicate IsObjectType(v: Json) {
    v.JNull? || v.JArr? || v.JObj?
  }

  /** JavaScript truthiness. */
  predicate Truthy(v: Json) {
    match v
    case JNull => false
    case JBool(b) => b
    case JNum(n) => n != 0
    case JStr(s) => s != ""
    case JArr(_) => true
    case JObj(_) => true
  }

  /** The string `key` names an array index, the way `String(n)` writes one. */
  function ArrayIndex(key: string): (r: Option<nat>)
    ensures r.Some? ==> AllDigits(key) && r.value == DecimalValue(key)
  {
    if |key| >= 1 && AllDigits(key) && (|key| == 1 || key[0] != '0') then Some(DecimalValue(key))
    else None
  }

  /** An own data property of an object or array; `None` when there is none. */
  function OwnProperty(v: Json, key: string): (r: Option<Json>)
    ensures r.Some? ==> v.JObj? || v.JArr?
    ensures v.JObj? ==> r == Lookup(v.fields, key)
  {
    match v
    case JObj(fields) => Lookup(fields, key)
    case JArr(items) =>
      (match ArrayIndex(key)
       case Some(n) => if n < |items| then Some(items[n]) else None
       case None => None)
    case _ => None
  }

  /** The enumerable own values, as `Object.values` lists them; it throws on `null`. */
  function ObjectValues(v: Json): (r: Result<seq<Json>, string>)
    ensures r.Err? <==> v.JNull?
    ensures v.JObj? ==> r == Ok(seq(|v.fields|, i requires 0 <= i < |v.fields| => v.fields[i].value))
    ensures v.JArr? ==> r == Ok(v.items)
  {
    match v
    case JNull => Err("TypeError: Cannot convert undefined or null to object")
    case JBool(_) => Ok([])
    case JNum(_) => Ok([])
    case JStr(s) => Ok(seq(|s|, i requires 0 <= i < |s| => JStr([s[i]])))
    case JArr(items) => Ok(items)
    case JObj(fields) => Ok(seq(|fields|, i requires 0 <= i < |fields| => fields[i].value))
  }
}
