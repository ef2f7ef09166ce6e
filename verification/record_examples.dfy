/**
 * The JSON-record cases the watcher's unit tests pin down, checked against
 * the model. Each record is the decoded object of the test's JSON line.
 */
module RecordExamples {
  import opened Wrappers
  import opened Text
  import opened Json
  import opened Address
  import opened AddressProps
  import opened Events
  import opened Records

  /** The metadata of a record reads every key of the record as the record does. */
  lemma MetadataGet(record: Record, t: Target, key: string)
    requires key in record
    ensures Get(RecordMetadata(record, t), key) == record[key]
  {
  }

  /** A record routed `api -> api` is on the API route. */
  lemma ApiRoutedRecord(record: Record, t: Target)
    requires "detour" in record && record["detour"] == JStr("api -> api")
    ensures IsApiRoute(RecordMetadata(record, t))
  {
    var m := RecordMetadata(record, t);
    MetadataGet(record, t, "detour");
    assert DetourOrTag(m) == JStr("api -> api");
    var low := Lower("api -> api");
    assert low[..3] == "api";
  }

  /** A `from` address starting with `127.0.0.1:` is a loopback metadata string. */
  lemma LoopbackFromRecord(record: Record, t: Target)
    requires "from" in record && record["from"].JStr? && StartsWith(record["from"].s, "127.0.0.1:")
    ensures LoopbackString(RecordMetadata(record, t), "from")
  {
    MetadataGet(record, t, "from");
    LoopbackColonPrefix(record["from"].s);
  }

  /** A record routed `api -> api` whose `from` address starts with
      `127.0.0.1:` is internal API traffic and yields no event. */
  lemma {:induction false} ApiLoopbackRecordDropped(record: Record, now: int, parseIso: string -> Option<int>)
    requires "detour" in record && record["detour"] == JStr("api -> api")
    requires "from" in record && record["from"].JStr? && StartsWith(record["from"].s, "127.0.0.1:")
    ensures NormaliseRecord(record, now, parseIso).None?
  {
    var target := ExtractTarget(record);
    var t := SplitTarget(target);
    ApiRoutedRecord(record, t);
    LoopbackFromRecord(record, t);
    assert IsInternalApiLog(RecordMetadata(record, t), target, ExtractIp(record));
  }

  /** The internal API record of the unit tests yields no event. */
  lemma ApiLoopbackTestRecord(record: Record, now: int, parseIso: string -> Option<int>)
    requires record == map["detour" := JStr("api -> api"),
                           "target" := JStr("tcp:127.0.0.1:62789"),
                           "from" := JStr("127.0.0.1:33122")]
    ensures NormaliseRecord(record, now, parseIso).None?
  {
    var from := "127.0.0.1:33122";
    assert from[..10] == "127.0.0.1:";
    ApiLoopbackRecordDropped(record, now, parseIso);
  }

  /** A record with neither `detour` nor `tag` is never on the API route. */
  lemma UnroutedRecord(record: Record, t: Target)
    requires "detour" !in record && "tag" !in record
    ensures !IsApiRoute(RecordMetadata(record, t))
  {
    var m := RecordMetadata(record, t);
    var d, g := "detour", "tag";
    assert d[0] == 'd' && g[0] == 't' && g[1] == 'a';
    assert d !in m && g !in m;
  }

  /** The first candidate, when it is a non-empty string, is the one taken. */
  lemma FirstCandidateTaken(cands: seq<Json>, s: string)
    requires |cands| > 0 && cands[0] == JStr(s) && s != ""
    ensures FirstNonEmptyString(cands) == s
  {
  }

  /** A non-empty `ip` string is the first IP candidate. */
  lemma IpKeyFirst(record: Record, s: string)
    requires "ip" in record && record["ip"] == JStr(s) && s != ""
    ensures FirstNonEmptyString(IpCandidates(record)) == s
  {
    assert IpCandidates(record)[0] == Get(record, IpKeys[0]);
    FirstCandidateTaken(IpCandidates(record), s);
  }

  /** A non-empty `target` string is the target. */
  lemma TargetKeyFirst(record: Record, s: string)
    requires "target" in record && record["target"] == JStr(s) && s != ""
    ensures ExtractTarget(record) == s
  {
    assert Lookups(record, TargetKeys)[0] == Get(record, TargetKeys[0]);
    FirstCandidateTaken(Lookups(record, TargetKeys), s);
  }

  /** A non-zero integer under the first key is the traffic field. */
  lemma FirstKeyTraffic(record: Record, keys: seq<string>, n: int)
    requires |keys| > 0 && keys[0] in record && record[keys[0]] == JInt(n) && n != 0
    ensures TrafficField(record, keys) == n
  {
    assert NumericValue(Get(record, keys[0])) == Some(n);
  }

  /** The uplink and downlink integers of a record are its traffic. */
  lemma TrafficKeys(record: Record, up: int, down: int)
    requires "uplink" in record && record["uplink"] == JInt(up) && up != 0
    requires "downlink" in record && record["downlink"] == JInt(down) && down != 0
    ensures ExtractTraffic(record) == (up, down)
  {
    FirstKeyTraffic(record, UplinkKeys, up);
    FirstKeyTraffic(record, DownlinkKeys, down);
  }

  /** The client address `58.152.53.88` under `ip` is the event's IP. */
  lemma RegularRecordIp(record: Record)
    requires "ip" in record && record["ip"] == JStr("58.152.53.88")
    ensures ExtractIp(record) == "58.152.53.88"
  {
    var c := "58.152.53.88";
    IpKeyFirst(record, c);
    assert StartsWith(c, c);
    RegularQuadAtStart(c);
    RegularAddressExample(c);
  }

  /** An unrouted record with an email, an IP, a target and non-zero traffic
      yields an event carrying exactly those. */
  lemma {:induction false} UnroutedRecordKept(
    record: Record, now: int, parseIso: string -> Option<int>,
    email: string, target: string, up: int, down: int)
    requires "detour" !in record && "tag" !in record
    requires "email" in record && record["email"] == JStr(email) && email != ""
    requires "ip" in record && record["ip"] == JStr("58.152.53.88")
    requires "target" in record && record["target"] == JStr(target) && target != ""
    requires "uplink" in record && record["uplink"] == JInt(up) && up != 0
    requires "downlink" in record && record["downlink"] == JInt(down) && down != 0
    ensures
      var r := NormaliseRecord(record, now, parseIso);
      && r.Some?
      && r.value.email == email
      && r.value.ip == "58.152.53.88"
      && r.value.target == target
      && r.value.bytesRead == up
      && r.value.bytesWritten == down
  {
    UnroutedRecord(record, SplitTarget(ExtractTarget(record)));
    assert IsNonEmptyString(Get(record, "email"));
    RegularRecordIp(record);
    TargetKeyFirst(record, target);
    TrafficKeys(record, up, down);
  }

  /** The regular record of the unit tests yields its email, IP, target and
      byte counts. */
  lemma RegularTestRecord(record: Record, now: int, parseIso: string -> Option<int>)
    requires record == map["email" := JStr("dacog96g"),
                           "ip" := JStr("58.152.53.88"),
                           "target" := JStr("www.gstatic.com:80"),
                           "uplink" := JInt(123),
                           "downlink" := JInt(456)]
    ensures
      var r := NormaliseRecord(record, now, parseIso);
      && r.Some?
      && r.value.email == "dacog96g"
      && r.value.ip == "58.152.53.88"
      && r.value.target == "www.gstatic.com:80"
      && r.value.bytesRead == 123
      && r.value.bytesWritten == 456
  {
    var d, g := "detour", "tag";
    assert d[0] == 'd' && g[0] == 't' && g[1] == 'a';
    assert d !in record && g !in record;
    UnroutedRecordKept(record, now, parseIso, "dacog96g", "www.gstatic.com:80", 123, 456);
  }
}
