/** The JavaScript values the build scripts see after `JSON.parse`, and the three language
    operations they apply to them: truthiness (`if (article)`), object spread (`{...article}`)
    and string conversion (template literals and `String.prototype.replace`). */
module JsValues {
  import opened Wrappers

  /** A parsed JSON value. Numbers are restricted to integers. */
  datatype Json =
    | JNull
    | JBool(b: bool)
    | JNumber(n: int)
    | JString(s: string)
    | JArray(items: seq<Json>)
    | JObject(members: map<string, Json>)

  /** The own enumerable properties of an object, as `JSON.stringify` writes them. */
  type Fields = map<string, Json>

  /** `v[key]` for a key that no prototype defines: only a parsed object has it, and
      `None` is `undefined`. */
  function Property(v: Json, key: string): (r: Option<Json>)
    ensures r.Some? ==> v.JObject? && key in v.members && r.value == v.members[key]
    ensures v.JObject? && key in v.members ==> r.Some?
  {
    if v.JObject? && key in v.members then Some(v.members[key]) else None
  }

  /** JavaScript truthiness of a parsed value: `null`, `false`, `0` and `""` are falsy. */
  predicate Truthy(v: Json) {
    match v
    case JNull => false
    case JBool(b) => b
    case JNumber(n) => n != 0
    case JString(s) => s != ""
    case JArray(_) => true
    case JObject(_) => true
  }

  /** The decimal digit character for 0 <= d < 10. */
  function DigitChar(d: nat): (c: char)
    requires d < 10
    ensures '0' <= c <= '9'
  {
    ('0' as int + d) as char
  }

  /** `String(n)` for a natural number: decimal digits, no leading zeros. */
  function NatText(n: nat): (r: string)
    ensures |r| > 0
    ensures forall i | 0 <= i < |r| :: '0' <= r[i] <= '9'
    decreases n
  {
    if n < 10 then [DigitChar(n)] else NatText(n / 10) + [DigitChar(n % 10)]
  }

  /** `String(n)` for an integer (numbers below 1e21 in magnitude print this way). */
  function IntText(n: int): string {
    if n < 0 then "-" + NatText(-n) else NatText(n)
  }

  /** `strs.join(sep)`. */
  function Join(strs: seq<string>, sep: string): string
    decreases |strs|
  {
    if |strs| == 0 then ""
    else if |strs| == 1 then strs[0]
    else strs[0] + sep + Join(strs[1..], sep)
  }

  /** ToString of a value that is present; arrays join their elements with ",",
      writing `null` elements as the empty string. */
  function Text(v: Json): string
    decreases v
  {
    match v
    case JNull => "null"
    case JBool(b) => if b then "true" else "false"
    case JNumber(n) => IntText(n)
    case JString(s) => s
    case JArray(items) =>
      Join(seq(|items|, i requires 0 <= i < |items| =>
        if items[i].JNull? then "" else Text(items[i])), ",")
    case JObject(_) => "[object Object]"
  }

  /** What a template literal `${v}` produces; `undefined` prints as "undefined". */
  function ToText(v: Option<Json>): (r: string)
    ensures v.Some? && v.value.JString? ==> r == v.value.s
    ensures v.None? ==> r == "undefined"
  {
    match v
    case None => "undefined"
    case Some(x) => Text(x)
  }

  /** Own properties "0", "1", ... of an array or string, as spread copies them. */
  function Indexed(items: seq<Json>): (r: Fields)
    ensures forall k | k in r :: |k| > 0 && '0' <= k[0] <= '9'
    decreases |items|
  {
    if |items| == 0 then map[]
    else Indexed(items[..|items| - 1])[NatText(|items| - 1) := items[|items| - 1]]
  }

  /** The properties `{...v}` copies: an object's members; one per element of an array
      and per character of a string; none for a boolean, number or null. */
  function Spread(v: Json): (r: Fields)
    ensures v.JObject? ==> r == v.members
    ensures v.JNull? || v.JBool? || v.JNumber? ==> r == map[]
    ensures !v.JObject? ==> forall k | k in r :: |k| > 0 && '0' <= k[0] <= '9'
  {
    match v
    case JObject(m) => m
    case JArray(items) => Indexed(items)
    case JString(s) => Indexed(seq(|s|, i requires 0 <= i < |s| => JString([s[i]])))
    case _ => map[]
  }
}
