/** The values a decoded JSON log record can hold, with Python's view of them. */
module Json {
  import opened Text

  datatype Json =
    | JNull
    | JBool(b: bool)
    | JInt(i: int)
    | JReal(r: real)
    | JStr(s: string)
    | JList(items: seq<Json>)
    | JObject(fields: map<string, Json>)

  /** A JSON object as `json.loads` returns it: a `dict` from keys to values. */
  type Record = map<string, Json>

  /** `record.get(key)`: a missing key reads as `None`, like JSON `null`. */
  function Get(m: Record, key: string): Json {
    if key in m then m[key] else JNull
  }

  /** Python truthiness of a decoded value. */
  predicate Truthy(v: Json) {
    match v
    case JNull => false
    case JBool(b) => b
    case JInt(i) => i != 0
    case JReal(r) => r != 0.0
    case JStr(s) => s != ""
    case JList(items) => items != []
    case JObject(fields) => fields != map[]
  }

  /** Python's `a or b`. */
  function Or(a: Json, b: Json): (r: Json)
    ensures Truthy(a) ==> r == a
    ensures !Truthy(a) ==> r == b
  {
    if Truthy(a) then a else b
  }

  predicate IsNonEmptyString(v: Json) {
    v.JStr? && v.s != ""
  }

  /** `r` is the first candidate that is a non-empty string, or `""` when none is. */
  predicate IsFirstString(cands: seq<Json>, r: string) {
    && (r == "" <==> forall i | 0 <= i < |cands| :: !IsNonEmptyString(cands[i]))
    && (r != "" ==> exists i | 0 <= i < |cands| ::
          cands[i] == JStr(r) && forall j | 0 <= j < i :: !IsNonEmptyString(cands[j]))
  }

  /** The loop `for candidate in candidates: if isinstance(candidate, str) and candidate: return candidate`. */
  function FirstNonEmptyString(cands: seq<Json>): (r: string)
    ensures IsFirstString(cands, r)
  {
    if |cands| == 0 then ""
    else if IsNonEmptyString(cands[0]) then cands[0].s
    else
      var r := FirstNonEmptyString(cands[1..]);
      assert forall i | 1 <= i < |cands| :: cands[i] == cands[1..][i - 1];
      r
  }

  /** The values found under `keys`, in order. */
  function Lookups(m: Record, keys: seq<string>): (r: seq<Json>)
    ensures |r| == |keys|
    ensures forall i | 0 <= i < |keys| :: r[i] == Get(m, keys[i])
  {
    seq(|keys|, i requires 0 <= i < |keys| => Get(m, keys[i]))
  }

  /** The fields of a nested object under `key`, when there is one. */
  function NestedObject(m: Record, key: string): (r: Record)
    ensures Get(m, key).JObject? ==> r == Get(m, key).fields
    ensures !Get(m, key).JObject? ==> r == map[]
  {
    match Get(m, key)
    case JObject(f) => f
    case _ => map[]
  }
}
