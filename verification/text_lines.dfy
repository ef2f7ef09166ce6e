/**
 * The text access-log path of the watcher: what `_parse_text_line` does once
 * one of the two line grammars has matched. The grammar match itself arrives
 * as a record of captured groups.
 */
module TextLines {
  import opened Wrappers
  import opened Text
  import opened Json
  import opened Address
  import opened AddressProps
  import opened Events
  import opened KeyValues

  /** The named groups of a line-grammar match. `detour` and `rest` are the
      optional groups; every other group always takes part in a match. */
  datatype TextMatch = TextMatch(
    date: string,
    time: string,
    source: string,
    status: string,
    target: string,
    detour: Option<string>,
    rest: Option<string>)

  // ---------------------------------------------------------------------
  // The `key: value` loop
  // ---------------------------------------------------------------------

  /** How the loop files a key: `email` and `reason` in any letter case set
      the matching local variable; every other key goes into the metadata. */
  datatype KeyRole = EmailKey | ReasonKey | MetaKey

  function RoleOf(key: string): KeyRole {
    if Lower(key) == "email" then EmailKey
    else if Lower(key) == "reason" then ReasonKey
    else MetaKey
  }

  /** The loop's variables: `email`, `reason` and `metadata`. */
  datatype Fields = Fields(email: string, reason: string, metadata: Record)

  /** The local variable a key role writes to. */
  function RoleField(f: Fields, role: KeyRole): string {
    if role == EmailKey then f.email else f.reason
  }

  /** One turn of the loop for the key/value pair `kv`. */
  function ApplyEntry(f: Fields, kv: (string, string)): Fields {
    match RoleOf(kv.0)
    case EmailKey => f.(email := kv.1)
    case ReasonKey => f.(reason := kv.1)
    case MetaKey => f.(metadata := f.metadata[kv.0 := JStr(kv.1)])
  }

  /** The whole loop, front to back. */
  function ApplyEntries(f: Fields, kvs: seq<(string, string)>): Fields
    decreases |kvs|
  {
    if |kvs| == 0 then f else ApplyEntries(ApplyEntry(f, kvs[0]), kvs[1..])
  }

  /** `i` is the last entry whose key has the role. */
  predicate IsLastWithRole(kvs: seq<(string, string)>, role: KeyRole, i: int) {
    && 0 <= i < |kvs| && RoleOf(kvs[i].0) == role
    && forall j | i < j < |kvs| :: RoleOf(kvs[j].0) != role
  }

  /** `i` is the last entry with exactly the key `kvs[i].0`. */
  predicate IsLastWithKey(kvs: seq<(string, string)>, i: int) {
    && 0 <= i < |kvs|
    && forall j | i < j < |kvs| :: kvs[j].0 != kvs[i].0
  }

  /** The metadata keys the entries write. */
  function MetaKeys(kvs: seq<(string, string)>): set<string> {
    set i | 0 <= i < |kvs| && RoleOf(kvs[i].0) == MetaKey :: kvs[i].0
  }

  /** For `email` and `reason` the last occurrence wins, matched in any
      letter case; without one the variable keeps its value. */
  lemma {:induction false} ApplyEntriesRole(f: Fields, kvs: seq<(string, string)>, role: KeyRole)
    requires role != MetaKey
    ensures (forall i | 0 <= i < |kvs| :: RoleOf(kvs[i].0) != role) ==>
              RoleField(ApplyEntries(f, kvs), role) == RoleField(f, role)
    ensures forall i | IsLastWithRole(kvs, role, i) ::
              RoleField(ApplyEntries(f, kvs), role) == kvs[i].1
    decreases |kvs|
  {
    if |kvs| > 0 {
      var f' := ApplyEntry(f, kvs[0]);
      var tail := kvs[1..];
      assert forall j | 0 <= j < |tail| :: tail[j] == kvs[j + 1];
      ApplyEntriesRole(f', tail, role);
      forall i | IsLastWithRole(kvs, role, i)
        ensures RoleField(ApplyEntries(f, kvs), role) == kvs[i].1
      {
        if i > 0 {
          assert IsLastWithRole(tail, role, i - 1);
        } else {
          assert forall j | 0 <= j < |tail| :: RoleOf(tail[j].0) != role;
        }
      }
    }
  }

  /** Every other key is written into the metadata with its last value; keys
      no entry writes keep their value. */
  lemma {:induction false} ApplyEntriesMetadata(f: Fields, kvs: seq<(string, string)>)
    ensures ApplyEntries(f, kvs).metadata.Keys == f.metadata.Keys + MetaKeys(kvs)
    ensures forall k | k in f.metadata && k !in MetaKeys(kvs) ::
              ApplyEntries(f, kvs).metadata[k] == f.metadata[k]
    ensures forall i | IsLastWithKey(kvs, i) && RoleOf(kvs[i].0) == MetaKey ::
              ApplyEntries(f, kvs).metadata[kvs[i].0] == JStr(kvs[i].1)
    decreases |kvs|
  {
    if |kvs| > 0 {
      var f' := ApplyEntry(f, kvs[0]);
      var tail := kvs[1..];
      assert forall j | 0 <= j < |tail| :: tail[j] == kvs[j + 1];
      ApplyEntriesMetadata(f', tail);
      assert MetaKeys(kvs) == (if RoleOf(kvs[0].0) == MetaKey then {kvs[0].0} else {}) + MetaKeys(tail) by {
        forall k | k in MetaKeys(kvs)
          ensures k in (if RoleOf(kvs[0].0) == MetaKey then {kvs[0].0} else {}) + MetaKeys(tail)
        {
          var i :| 0 <= i < |kvs| && RoleOf(kvs[i].0) == MetaKey && kvs[i].0 == k;
          if i > 0 {
            assert tail[i - 1] == kvs[i];
          }
        }
      }
      forall i | IsLastWithKey(kvs, i) && RoleOf(kvs[i].0) == MetaKey
        ensures ApplyEntries(f, kvs).metadata[kvs[i].0] == JStr(kvs[i].1)
      {
        if i > 0 {
          assert IsLastWithKey(tail, i - 1);
        } else {
          assert kvs[0].0 !in MetaKeys(tail);
        }
      }
    }
  }

  /** The text's pairs as `(key, stripped value)`, in match order. */
  function Entries(s: string, pairs: seq<Pair>): (r: seq<(string, string)>)
    requires forall j | 0 <= j < |pairs| :: PairIn(s, pairs[j])
    ensures |r| == |pairs|
    ensures forall j | 0 <= j < |pairs| :: r[j] == (Key(s, pairs[j]), Value(s, pairs[j]))
  {
    seq(|pairs|, j requires 0 <= j < |pairs| => (Key(s, pairs[j]), Value(s, pairs[j])))
  }

  /** The matches of `finditer` lie inside the text, in order and apart. */
  lemma FindAllWithin(s: string)
    ensures OrderedWithin(FindAll(s, 0), 0, |s|)
    ensures forall j | 0 <= j < |FindAll(s, 0)| :: PairIn(s, FindAll(s, 0)[j])
  {
    var r := FindAll(s, 0);
    forall j | 0 <= j < |r|
      ensures PairIn(s, r[j])
    {
      assert MatchAt(s, r[j].start) == Some(r[j]);
    }
  }

  // ---------------------------------------------------------------------
  // The trailing text
  // ---------------------------------------------------------------------

  /** The `if rest:` block: the pairs, then the reason fallback (what is left
      once the pairs are cut out) and the email fallback (`_EMAIL_PATTERN`). */
  function ParseRest(rest: string, metadata: Record): (r: Fields)
    ensures rest == "" ==> r == Fields("", "", metadata)
  {
    if rest == "" then Fields("", "", metadata)
    else
      var f := ApplyEntries(Fields("", "", metadata), RestEntries(rest));
      var reason := if f.reason != "" then f.reason else Strip(RemoveSpans(rest, FindAll(rest, 0)));
      var email := if f.email != "" then f.email else SearchEmail(rest, 0).GetOr("");
      Fields(email, reason, f.metadata)
  }

  /** Where the loop alone decides: a non-empty email, and the metadata. */
  lemma ParseRestParts(rest: string, metadata: Record)
    requires rest != ""
    ensures var f := ApplyEntries(Fields("", "", metadata), RestEntries(rest));
            && ParseRest(rest, metadata).metadata == f.metadata
            && (f.email != "" ==> ParseRest(rest, metadata).email == f.email)
            && (f.reason != "" ==> ParseRest(rest, metadata).reason == f.reason)
  {
  }

  /** The entries of the trailing text. */
  function RestEntries(rest: string): seq<(string, string)> {
    FindAllWithin(rest);
    Entries(rest, FindAll(rest, 0))
  }

  /** The reason is the last `reason` value when that is non-empty; only
      otherwise is it the stripped text between the pairs. */
  lemma ParseRestReason(rest: string, metadata: Record)
    requires rest != ""
    ensures forall i | IsLastWithRole(RestEntries(rest), ReasonKey, i) && RestEntries(rest)[i].1 != "" ::
              ParseRest(rest, metadata).reason == RestEntries(rest)[i].1
    ensures (forall i | IsLastWithRole(RestEntries(rest), ReasonKey, i) :: RestEntries(rest)[i].1 == "") ==>
              && OrderedWithin(FindAll(rest, 0), 0, |rest|)
              && ParseRest(rest, metadata).reason == Strip(Gaps(rest, 0, FindAll(rest, 0), |rest|))
  {
    var kvs := RestEntries(rest);
    var f := ApplyEntries(Fields("", "", metadata), kvs);
    ApplyEntriesRole(Fields("", "", metadata), kvs, ReasonKey);
    LastWithRoleExists(kvs, ReasonKey);
    if forall i | IsLastWithRole(kvs, ReasonKey, i) :: kvs[i].1 == "" {
      assert f.reason == "";
      FindAllWithin(rest);
      RemoveSpansIsGaps(rest, FindAll(rest, 0));
    }
  }

  /** The email is the last `email` value when that is non-empty; only
      otherwise is it the first `email:` address in the text. */
  lemma ParseRestEmail(rest: string, metadata: Record)
    requires rest != ""
    ensures forall i | IsLastWithRole(RestEntries(rest), EmailKey, i) && RestEntries(rest)[i].1 != "" ::
              ParseRest(rest, metadata).email == RestEntries(rest)[i].1
    ensures (forall i | IsLastWithRole(RestEntries(rest), EmailKey, i) :: RestEntries(rest)[i].1 == "") ==>
              ParseRest(rest, metadata).email == SearchEmail(rest, 0).GetOr("")
  {
    var kvs := RestEntries(rest);
    var f := ApplyEntries(Fields("", "", metadata), kvs);
    ParseRestEmailFallback(rest, metadata);
    ApplyEntriesRole(Fields("", "", metadata), kvs, EmailKey);
    LastWithRoleExists(kvs, EmailKey);
    forall i | IsLastWithRole(kvs, EmailKey, i) && kvs[i].1 != ""
      ensures ParseRest(rest, metadata).email == kvs[i].1
    {
      assert f.email == kvs[i].1;
    }
    if forall i | IsLastWithRole(kvs, EmailKey, i) :: kvs[i].1 == "" {
      assert f.email == "";
    }
  }

  /** The email of the trailing text: the loop's, else the `email:` search. */
  lemma ParseRestEmailFallback(rest: string, metadata: Record)
    requires rest != ""
    ensures var f := ApplyEntries(Fields("", "", metadata), RestEntries(rest));
            ParseRest(rest, metadata).email == if f.email != "" then f.email else SearchEmail(rest, 0).GetOr("")
  {
  }

  /** Some entry has the role exactly when a last such entry exists. */
  lemma {:induction false} LastWithRoleExists(kvs: seq<(string, string)>, role: KeyRole)
    ensures (exists i | 0 <= i < |kvs| :: RoleOf(kvs[i].0) == role) ==>
              exists i :: IsLastWithRole(kvs, role, i)
    decreases |kvs|
  {
    if |kvs| > 0 {
      if RoleOf(kvs[|kvs| - 1].0) == role {
        assert IsLastWithRole(kvs, role, |kvs| - 1);
      } else {
        var init := kvs[..|kvs| - 1];
        LastWithRoleExists(init, role);
        if exists i | 0 <= i < |kvs| :: RoleOf(kvs[i].0) == role {
          var i :| 0 <= i < |kvs| && RoleOf(kvs[i].0) == role;
          assert init[i] == kvs[i];
          var k :| IsLastWithRole(init, role, k);
          assert IsLastWithRole(kvs, role, k);
        }
      }
    }
  }

  // ---------------------------------------------------------------------
  // Metadata and the event
  // ---------------------------------------------------------------------

  /** The metadata the text path starts from. */
  function InitialMetadata(m: TextMatch, line: string): Record {
    map["timestamp" := JStr(m.date + " " + m.time), "status" := JStr(m.status),
        "source" := JStr(m.source), "target" := JStr(m.target), "raw" := JStr(line)]
  }

  /** The keys written after the pairs, each only when its value is present. */
  predicate IsDerivedKey(k: string) {
    k == "detour" || k == "reason" || k == "email" || k == "transport" || k == "host" || k == "port"
  }

  /** `d[key] = v` when `present`. */
  function PutIf(d: Record, present: bool, key: string, v: Json): (r: Record)
    ensures present ==> r == d[key := v]
    ensures !present ==> r == d
  {
    if present then d[key := v] else d
  }

  /** Detour, reason and email are written over whatever the pairs left
      under those keys. */
  function PutRouteFields(f: Fields, detour: Option<string>): (r: Record)
    ensures forall k | k != "detour" && k != "reason" && k != "email" ::
              (k in r <==> k in f.metadata) && (k in r ==> r[k] == f.metadata[k])
    ensures detour.Some? && detour.value != "" ==> Get(r, "detour") == JStr(detour.value)
    ensures !(detour.Some? && detour.value != "") ==> Get(r, "detour") == Get(f.metadata, "detour")
    ensures f.reason != "" ==> Get(r, "reason") == JStr(f.reason)
    ensures f.email != "" ==> Get(r, "email") == JStr(f.email)
    ensures f.reason == "" ==> Get(r, "reason") == Get(f.metadata, "reason")
    ensures f.email == "" ==> Get(r, "email") == Get(f.metadata, "email")
  {
    var d := f.metadata;
    var d := PutIf(d, detour.Some? && detour.value != "", "detour", JStr(detour.GetOr("")));
    var d := PutIf(d, f.reason != "", "reason", JStr(f.reason));
    PutIf(d, f.email != "", "email", JStr(f.email))
  }

  /** Then the derived target fields. */
  function PutTargetFields(d: Record, t: Target): (r: Record)
    ensures forall k | k != "transport" && k != "host" && k != "port" ::
              (k in r <==> k in d) && (k in r ==> r[k] == d[k])
    ensures t.transport != "" ==> Get(r, "transport") == JStr(t.transport)
    ensures t.host != "" ==> Get(r, "host") == JStr(t.host)
    ensures t.port.Some? ==> Get(r, "port") == JInt(t.port.value)
    ensures t.port.None? ==> Get(r, "port") == Get(d, "port")
    ensures t.transport == "" ==> Get(r, "transport") == Get(d, "transport")
    ensures t.host == "" ==> Get(r, "host") == Get(d, "host")
  {
    var d := PutIf(d, t.transport != "", "transport", JStr(t.transport));
    var d := PutIf(d, t.host != "", "host", JStr(t.host));
    PutIf(d, t.port.Some?, "port", JInt(t.port.GetOr(0)))
  }

  /** Detour, reason, email and then the derived target fields are written
      over whatever the pairs left under those keys. */
  function FinalMetadata(f: Fields, detour: Option<string>, t: Target): (r: Record)
    ensures forall k | !IsDerivedKey(k) :: (k in r <==> k in f.metadata)
    ensures forall k | !IsDerivedKey(k) && k in r :: r[k] == f.metadata[k]
    ensures detour.Some? && detour.value != "" ==> Get(r, "detour") == JStr(detour.value)
    ensures !(detour.Some? && detour.value != "") ==> Get(r, "detour") == Get(f.metadata, "detour")
    ensures f.reason != "" ==> Get(r, "reason") == JStr(f.reason)
    ensures f.email != "" ==> Get(r, "email") == JStr(f.email)
    ensures t.transport != "" ==> Get(r, "transport") == JStr(t.transport)
    ensures t.host != "" ==> Get(r, "host") == JStr(t.host)
    ensures t.port.Some? ==> Get(r, "port") == JInt(t.port.value)
    ensures t.port.None? ==> Get(r, "port") == Get(f.metadata, "port")
    ensures f.reason == "" ==> Get(r, "reason") == Get(f.metadata, "reason")
    ensures f.email == "" ==> Get(r, "email") == Get(f.metadata, "email")
    ensures t.transport == "" ==> Get(r, "transport") == Get(f.metadata, "transport")
    ensures t.host == "" ==> Get(r, "host") == Get(f.metadata, "host")
  {
    PutTargetFields(PutRouteFields(f, detour), t)
  }

  /** The variables after the trailing text is read. */
  function TextFields(m: TextMatch, line: string): Fields {
    ParseRest(Strip(m.rest.GetOr("")), InitialMetadata(m, line))
  }

  /** The metadata of the event built from a matched line. */
  function TextMetadata(m: TextMatch, line: string): Record {
    FinalMetadata(TextFields(m, line), m.detour, SplitTarget(m.target))
  }

  /** The explicit check of lines 242-247 for the `api -> api` loopback line. */
  predicate TextApiFilter(d: Record, target: string) {
    && Get(d, "detour") == JStr("api -> api")
    && Get(d, "source").JStr? && StartsWith(Get(d, "source").s, "127.0.0.1:")
    && StartsWith(target, "tcp:127.0.0.1:")
  }

  /** The explicit text-path check drops nothing that `_build_event` would keep. */
  lemma TextFilterIsInternal(d: Record, target: string, ip: string)
    requires TextApiFilter(d, target)
    ensures IsInternalApiLog(d, target, ip)
  {
    assert DetourOrTag(d) == JStr("api -> api");
    var low := Lower("api -> api");
    assert low[..3] == "api";
    LoopbackColonPrefix(Get(d, "source").s);
  }

  /** `_parse_text_line` from the match on: `None` exactly when the event is
      internal API traffic; otherwise the event of the line, with no traffic. */
  function ParseTextLine(m: TextMatch, line: string, now: int, parseLogTime: string -> Option<int>): (r: Option<LogEvent>)
    ensures r.None? <==> IsInternalApiLog(TextMetadata(m, line), m.target, ExtractAddress(m.source))
    ensures r.Some? ==>
              && r.value.timestamp == parseLogTime(m.date + " " + m.time).GetOr(now)
              && r.value.email == TextFields(m, line).email
              && r.value.ip == ExtractAddress(m.source)
              && r.value.target == m.target
              && r.value.transport == SplitTarget(m.target).transport
              && r.value.targetHost == SplitTarget(m.target).host
              && r.value.targetPort == SplitTarget(m.target).port
              && r.value.status == Strip(m.status)
              && r.value.bytesRead == 0 && r.value.bytesWritten == 0
              && r.value.metadata == TextMetadata(m, line)
  {
    var timestamp := parseLogTime(m.date + " " + m.time).GetOr(now);
    var f := TextFields(m, line);
    var ip := ExtractAddress(m.source);
    var t := SplitTarget(m.target);
    var d := FinalMetadata(f, m.detour, t);
    if TextApiFilter(d, m.target) then
      TextFilterIsInternal(d, m.target, ip);
      None
    else
      BuildEvent(timestamp, f.email, ip, m.target, t.transport, t.host, t.port, Strip(m.status), 0, 0, d)
  }
}
