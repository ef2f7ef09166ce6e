/**
 * The JSON-record normaliser of the access-log watcher (`_normalise_record`,
 * `_extract_email`, `_extract_ip`, `_extract_target`, `_extract_traffic`,
 * `_lookup_numeric`, `_extract_status`, `_extract_timestamp`).
 */
module Records {
  import opened Wrappers
  import opened Text
  import opened Json
  import opened Address
  import opened Events

  const EmailKeys: seq<string> := ["email", "Email", "user", "clientEmail", "client"]
  const IpKeys: seq<string> := ["ip", "IP", "remote", "remote_addr", "clientIP", "FromAddress", "from"]
  const TargetKeys: seq<string> := ["target", "ToAddress", "to", "destination", "request"]
  const UplinkKeys: seq<string> := ["uplink", "upLink", "uplinkBytes", "uplink_bytes", "up"]
  const DownlinkKeys: seq<string> := ["downlink", "downLink", "downlinkBytes", "downlink_bytes", "down"]
  const StatusKeys: seq<string> := ["status", "action", "event"]
  const TimestampKeys: seq<string> := ["timestamp", "time", "event_time", "ts"]

  /** The email candidates in the order they are tried; the nested ones only
      when `session` / `account` is an object. */
  function EmailCandidates(record: Record): seq<Json> {
    Lookups(record, EmailKeys)
    + (if Get(record, "session").JObject?
       then [Get(Get(record, "session").fields, "email"), Get(Get(record, "session").fields, "user")]
       else [])
    + (if Get(record, "account").JObject? then [Get(Get(record, "account").fields, "email")] else [])
  }

  function IpCandidates(record: Record): seq<Json> {
    Lookups(record, IpKeys)
    + (if Get(record, "session").JObject? then [Get(Get(record, "session").fields, "ip")] else [])
  }

  /** `_extract_email`. */
  function ExtractEmail(record: Record): (r: string)
    ensures IsFirstString(EmailCandidates(record), r)
    ensures IsNonEmptyString(Get(record, "email")) ==> r == Get(record, "email").s
  {
    FirstNonEmptyString(EmailCandidates(record))
  }

  /** `_extract_ip`: the first non-empty candidate, reduced by the address
      pattern alone; without a pattern match it is kept whole, port included. */
  function ExtractIp(record: Record): (r: string)
    ensures var c := FirstNonEmptyString(IpCandidates(record));
            && (c == "" ==> r == "")
            && ((forall i :: AddrAt(c, i).None?) ==> r == c)
            && ((exists i :: AddrAt(c, i).Some?) ==> r == ExtractAddress(c))
  {
    var c := FirstNonEmptyString(IpCandidates(record));
    if c == "" then "" else AddrOrSelf(c)
  }

  /** `_extract_target`: the first non-empty top-level candidate, else the
      nested `session.target` when it is a string (even an empty one). */
  function ExtractTarget(record: Record): (r: string)
    ensures FirstNonEmptyString(Lookups(record, TargetKeys)) != "" ==>
              IsFirstString(Lookups(record, TargetKeys), r)
    ensures FirstNonEmptyString(Lookups(record, TargetKeys)) == "" ==>
              r == (if Get(record, "session").JObject? && Get(Get(record, "session").fields, "target").JStr?
                    then Get(Get(record, "session").fields, "target").s else "")
  {
    var top := FirstNonEmptyString(Lookups(record, TargetKeys));
    if top != "" then top
    else if Get(record, "session").JObject? && Get(Get(record, "session").fields, "target").JStr?
    then Get(Get(record, "session").fields, "target").s
    else ""
  }

  /** The value `_lookup_numeric` accepts from one key: any `int` (a `bool`
      is one in Python, and negative values are not clamped) or a digit string. */
  function NumericValue(v: Json): Option<int> {
    match v
    case JInt(i) => Some(i)
    case JBool(b) => Some(if b then 1 else 0)
    case JStr(s) => if IsDigits(s) then Some(DigitsValue(s)) else None
    case _ => None
  }

  /** `_lookup_numeric`: the value under the first key that holds a number. */
  function LookupNumeric(source: Record, keys: seq<string>): (r: Option<int>)
    ensures r.Some? ==> exists i | 0 <= i < |keys| ::
              && NumericValue(Get(source, keys[i])) == r
              && forall j | 0 <= j < i :: NumericValue(Get(source, keys[j])).None?
    ensures r.None? ==> forall i | 0 <= i < |keys| :: NumericValue(Get(source, keys[i])).None?
  {
    if |keys| == 0 then None
    else if NumericValue(Get(source, keys[0])).Some? then NumericValue(Get(source, keys[0]))
    else
      var r := LookupNumeric(source, keys[1..]);
      assert forall i | 1 <= i < |keys| :: keys[i] == keys[1..][i - 1];
      r
  }

  /** Python truthiness of an `Optional[int]`. */
  predicate TruthyInt(o: Option<int>) {
    o.Some? && o.value != 0
  }

  /** One direction of `_extract_traffic`: the top-level value when it is a
      non-zero number, else the nested `traffic` object's value, else 0. */
  function TrafficField(record: Record, keys: seq<string>): (r: int)
    ensures TruthyInt(LookupNumeric(record, keys)) ==> r == LookupNumeric(record, keys).value
    ensures !TruthyInt(LookupNumeric(record, keys)) && Get(record, "traffic").JObject? ==>
              r == LookupNumeric(Get(record, "traffic").fields, keys).GetOr(0)
    ensures !TruthyInt(LookupNumeric(record, keys)) && !Get(record, "traffic").JObject? ==> r == 0
  {
    var top := LookupNumeric(record, keys);
    var v := if Get(record, "traffic").JObject? && !TruthyInt(top)
             then LookupNumeric(Get(record, "traffic").fields, keys)
             else top;
    if TruthyInt(v) then v.value else 0
  }

  /** `_extract_traffic`: (bytes read, bytes written) from the uplink and downlink keys. */
  function ExtractTraffic(record: Record): (r: (int, int))
    ensures r.0 == TrafficField(record, UplinkKeys) && r.1 == TrafficField(record, DownlinkKeys)
  {
    (TrafficField(record, UplinkKeys), TrafficField(record, DownlinkKeys))
  }

  /** `_extract_status`. */
  function ExtractStatus(record: Record): (r: string)
    ensures IsFirstString(Lookups(record, StatusKeys), r)
  {
    FirstNonEmptyString(Lookups(record, StatusKeys))
  }

  /** The non-empty strings among the candidates, in order. */
  function NonEmptyStrings(cands: seq<Json>): (r: seq<string>)
    ensures forall s | s in r :: s != ""
    ensures forall i | 0 <= i < |cands| :: IsNonEmptyString(cands[i]) ==> cands[i].s in r
    ensures forall s | s in r :: JStr(s) in cands
  {
    if |cands| == 0 then []
    else
      var rest := NonEmptyStrings(cands[1..]);
      assert forall i | 1 <= i < |cands| :: cands[i] == cands[1..][i - 1];
      if IsNonEmptyString(cands[0]) then [cands[0].s] + rest else rest
  }

  /** The first candidate that `parse` accepts, parsed. */
  function FirstParsed(cands: seq<string>, parse: string -> Option<int>): (r: Option<int>)
    ensures r.Some? ==> exists i | 0 <= i < |cands| ::
              parse(cands[i]) == r && forall j | 0 <= j < i :: parse(cands[j]).None?
    ensures r.None? ==> forall i | 0 <= i < |cands| :: parse(cands[i]).None?
  {
    if |cands| == 0 then None
    else if parse(cands[0]).Some? then parse(cands[0])
    else
      var r := FirstParsed(cands[1..], parse);
      assert forall i | 1 <= i < |cands| :: cands[i] == cands[1..][i - 1];
      r
  }

  /** Candidate `i` is a non-empty string that `parse` accepts. */
  predicate Accepted(cands: seq<Json>, parse: string -> Option<int>, i: int)
    requires 0 <= i < |cands|
  {
    IsNonEmptyString(cands[i]) && parse(cands[i].s).Some?
  }

  /** Candidate `i` is the first one accepted. */
  predicate FirstAccepted(cands: seq<Json>, parse: string -> Option<int>, i: int)
    requires 0 <= i < |cands|
  {
    Accepted(cands, parse, i) && forall j | 0 <= j < i :: !Accepted(cands, parse, j)
  }

  /** Parsing the first candidate after the rest is the first candidate's
      parse when it has one, else the rest's. */
  lemma FirstParsedCons(x: string, rest: seq<string>, parse: string -> Option<int>)
    ensures FirstParsed([x] + rest, parse) == if parse(x).Some? then parse(x) else FirstParsed(rest, parse)
  {
    assert ([x] + rest)[1..] == rest;
  }

  /** Dropping the first candidate shifts every later index by one. */
  lemma AcceptedShift(cands: seq<Json>, parse: string -> Option<int>)
    requires |cands| > 0
    ensures forall i | 1 <= i < |cands| :: Accepted(cands, parse, i) == Accepted(cands[1..], parse, i - 1)
  {
    assert forall i | 1 <= i < |cands| :: cands[i] == cands[1..][i - 1];
  }

  /** Two first accepted candidates are the same candidate. */
  lemma FirstAcceptedUnique(cands: seq<Json>, parse: string -> Option<int>, i: int, k: int)
    requires 0 <= i < |cands| && 0 <= k < |cands|
    requires FirstAccepted(cands, parse, i) && FirstAccepted(cands, parse, k)
    ensures i == k
  {
  }

  /** Parsing the non-empty strings in order finds the first candidate, in
      key order, that is a non-empty string the parser accepts; it finds
      nothing exactly when no candidate is one. */
  lemma {:induction false} FirstParsedNonEmptyFound(cands: seq<Json>, parse: string -> Option<int>)
    ensures var r := FirstParsed(NonEmptyStrings(cands), parse);
            && (r.None? <==> forall i | 0 <= i < |cands| :: !Accepted(cands, parse, i))
            && (r.Some? ==> exists i | 0 <= i < |cands| :: FirstAccepted(cands, parse, i) && r == parse(cands[i].s))
    decreases |cands|
  {
    if |cands| > 0 {
      var tail := cands[1..];
      var rest := NonEmptyStrings(tail);
      var r := FirstParsed(NonEmptyStrings(cands), parse);
      FirstParsedNonEmptyFound(tail, parse);
      AcceptedShift(cands, parse);
      if IsNonEmptyString(cands[0]) {
        FirstParsedCons(cands[0].s, rest, parse);
      }
      if Accepted(cands, parse, 0) {
        assert FirstAccepted(cands, parse, 0);
      } else {
        assert r == FirstParsed(rest, parse);
        if r.Some? {
          var k :| 0 <= k < |tail| && FirstAccepted(tail, parse, k) && r == parse(tail[k].s);
          assert FirstAccepted(cands, parse, k + 1);
        }
      }
    }
  }

  /** The same, as a value: the parse of the first accepted candidate. */
  lemma FirstParsedNonEmpty(cands: seq<Json>, parse: string -> Option<int>)
    ensures var r := FirstParsed(NonEmptyStrings(cands), parse);
            && (r.None? <==> forall i | 0 <= i < |cands| :: !Accepted(cands, parse, i))
            && (forall i | 0 <= i < |cands| && FirstAccepted(cands, parse, i) :: r == parse(cands[i].s))
  {
    var r := FirstParsed(NonEmptyStrings(cands), parse);
    FirstParsedNonEmptyFound(cands, parse);
    forall i | 0 <= i < |cands| && FirstAccepted(cands, parse, i)
      ensures r == parse(cands[i].s)
    {
      var k :| 0 <= k < |cands| && FirstAccepted(cands, parse, k) && r == parse(cands[k].s);
      FirstAcceptedUnique(cands, parse, i, k);
    }
  }

  /** `_extract_timestamp`: the first non-empty timestamp string, in key
      order, that the ISO / access-log date parser accepts, else the current
      instant `now`. */
  function ExtractTimestamp(record: Record, now: int, parseIso: string -> Option<int>): (r: int)
    ensures var c := Lookups(record, TimestampKeys);
            && ((forall i | 0 <= i < |c| :: !Accepted(c, parseIso, i)) ==> r == now)
            && (forall i | 0 <= i < |c| && FirstAccepted(c, parseIso, i) :: r == parseIso(c[i].s).value)
  {
    FirstParsedNonEmpty(Lookups(record, TimestampKeys), parseIso);
    FirstParsed(NonEmptyStrings(Lookups(record, TimestampKeys)), parseIso).GetOr(now)
  }

  /** A `timestamp` string the parser accepts wins over every later key,
      `ts` included. */
  lemma TimestampKeyWins(record: Record, now: int, parseIso: string -> Option<int>, s: string)
    requires "timestamp" in record && record["timestamp"] == JStr(s) && s != ""
    requires parseIso(s).Some?
    ensures ExtractTimestamp(record, now, parseIso) == parseIso(s).value
  {
    var c := Lookups(record, TimestampKeys);
    assert c[0] == Get(record, TimestampKeys[0]);
    assert FirstAccepted(c, parseIso, 0);
  }

  /** The record's own fields plus the derived `transport`, `host` and `port`,
      each added only when it is non-empty and the record lacks that key. */
  function RecordMetadata(record: Record, t: Target): (m: Record)
    ensures forall k | k in record :: k in m && m[k] == record[k]
    ensures m.Keys == record.Keys
                      + (if t.transport != "" then {"transport"} else {})
                      + (if t.host != "" then {"host"} else {})
                      + (if t.port.Some? then {"port"} else {})
    ensures "transport" !in record && t.transport != "" ==> m["transport"] == JStr(t.transport)
    ensures "host" !in record && t.host != "" ==> m["host"] == JStr(t.host)
    ensures "port" !in record && t.port.Some? ==> m["port"] == JInt(t.port.value)
  {
    var m1 := if t.transport != "" && "transport" !in record then record["transport" := JStr(t.transport)] else record;
    var m2 := if t.host != "" && "host" !in m1 then m1["host" := JStr(t.host)] else m1;
    if t.port.Some? && "port" !in m2 then m2["port" := JInt(t.port.value)] else m2
  }

  /** `_normalise_record`. */
  function NormaliseRecord(record: Record, now: int, parseIso: string -> Option<int>): (r: Option<LogEvent>)
    ensures var t := SplitTarget(ExtractTarget(record));
            r.None? <==> IsInternalApiLog(RecordMetadata(record, t), ExtractTarget(record), ExtractIp(record))
    ensures r.Some? ==>
              && r.value.email == ExtractEmail(record)
              && r.value.ip == ExtractIp(record)
              && r.value.target == ExtractTarget(record)
              && r.value.status == ExtractStatus(record)
              && (r.value.bytesRead, r.value.bytesWritten) == ExtractTraffic(record)
              && Target(r.value.transport, r.value.targetHost, r.value.targetPort) == SplitTarget(r.value.target)
              && r.value.metadata == RecordMetadata(record, SplitTarget(r.value.target))
              && r.value.timestamp == ExtractTimestamp(record, now, parseIso)
  {
    var email := ExtractEmail(record);
    var ip := ExtractIp(record);
    var target := ExtractTarget(record);
    var (bytesRead, bytesWritten) := ExtractTraffic(record);
    var t := SplitTarget(target);
    var metadata := RecordMetadata(record, t);
    var status := ExtractStatus(record);
    var timestamp := ExtractTimestamp(record, now, parseIso);
    BuildEvent(timestamp, email, ip, target, t.transport, t.host, t.port, status,
               bytesRead, bytesWritten, metadata)
  }
}
