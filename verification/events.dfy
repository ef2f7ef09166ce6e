/**
 * The normalised access-log event and the internal-API loopback filter
 * applied before any event is returned (`LogEvent`, `_build_event`,
 * `_is_internal_api_log`, `_host_from_metadata`).
 */
module Events {
  import opened Wrappers
  import opened Text
  import opened Json
  import opened Address

  /** One access-log entry; `timestamp` is in whole seconds since the epoch. */
  datatype LogEvent = LogEvent(
    timestamp: int,
    email: string,
    ip: string,
    target: string,
    transport: string,
    targetHost: string,
    targetPort: Option<nat>,
    status: string,
    bytesRead: int,
    bytesWritten: int,
    metadata: Record)

  /** `metadata.get("detour") or metadata.get("tag")`. */
  function DetourOrTag(m: Record): Json {
    Or(Get(m, "detour"), Get(m, "tag"))
  }

  /** The host of the `target` metadata string when it is one. */
  function MetaTargetHost(m: Record): string {
    if Get(m, "target").JStr? then SplitTarget(Get(m, "target").s).host else ""
  }

  /** `_host_from_metadata`: the first non-empty of the host of the metadata
      `target`, the host of `target`, and the metadata `host` string. */
  function HostFromMetadata(m: Record, target: string): (r: string)
    ensures MetaTargetHost(m) != "" ==> r == MetaTargetHost(m)
    ensures MetaTargetHost(m) == "" && target != "" && SplitTarget(target).host != "" ==>
              r == SplitTarget(target).host
    ensures MetaTargetHost(m) == "" && (target == "" || SplitTarget(target).host == "") ==>
              r == (if Get(m, "host").JStr? then Get(m, "host").s else "")
  {
    var h1 := MetaTargetHost(m);
    var h2 := if h1 == "" && target != "" then SplitTarget(target).host else h1;
    if h2 == "" && Get(m, "host").JStr? then Get(m, "host").s else h2
  }

  /** The metadata value under `key` is a loopback address string. */
  predicate LoopbackString(m: Record, key: string) {
    Get(m, key).JStr? && IsLoopback(Get(m, key).s)
  }

  /** The route label names the internal API route: it is a string and
      contains `api` in any letter case. */
  predicate IsApiRoute(m: Record) {
    DetourOrTag(m).JStr? && Contains(Lower(DetourOrTag(m).s), "api")
  }

  /** `_is_internal_api_log`. */
  predicate IsInternalApiLog(m: Record, target: string, ip: string) {
    && IsApiRoute(m)
    && (|| (HostFromMetadata(m, target) != "" && IsLoopback(HostFromMetadata(m, target)))
        || LoopbackString(m, "source")
        || LoopbackString(m, "from")
        || LoopbackString(m, "client")
        || (ip != "" && IsLoopback(ip)))
  }

  /** `_build_event`: the event, unless it is internal API traffic. */
  function BuildEvent(
    timestamp: int, email: string, ip: string, target: string, transport: string,
    host: string, port: Option<nat>, status: string, bytesRead: int, bytesWritten: int,
    metadata: Record): (r: Option<LogEvent>)
    ensures r.None? <==>
              && IsApiRoute(metadata)
              && (|| IsLoopback(HostFromMetadata(metadata, target))
                  || LoopbackString(metadata, "source")
                  || LoopbackString(metadata, "from")
                  || LoopbackString(metadata, "client")
                  || IsLoopback(ip))
    ensures r.Some? ==>
              && r.value.timestamp == timestamp && r.value.email == email && r.value.ip == ip
              && r.value.target == target && r.value.transport == transport
              && r.value.targetHost == host && r.value.targetPort == port
              && r.value.status == status && r.value.bytesRead == bytesRead
              && r.value.bytesWritten == bytesWritten && r.value.metadata == metadata
  {
    if IsInternalApiLog(metadata, target, ip) then None
    else Some(LogEvent(timestamp, email, ip, target, transport, host, port, status,
                       bytesRead, bytesWritten, metadata))
  }
}
