/**
 * `MetricsAggregator`: rolling per-user and per-IP buckets keyed by
 * `(id, bucket epoch)` plus the last cumulative counters seen per email.
 * Each public method is one state transition of an immutable `Aggregator`.
 */
module Metrics {
  import opened Wrappers
  import opened Text
  import opened Counts
  import opened Buckets
  import opened Events
  import opened StatNames

  datatype Aggregator = Aggregator(
    bucketSeconds: int,
    retention: int,
    users: map<Key, UserState>,
    ips: map<Key, IpState>,
    totals: map<string, (int, int)>)

  /** Every bucket is consistent, filed under its own id and epoch, and the
      epoch is aligned to the bucket width. */
  predicate Valid(a: Aggregator) {
    && a.bucketSeconds > 0
    && (forall k | k in a.users :: UserValid(k, a.users[k]) && k.1 % a.bucketSeconds == 0)
    && (forall k | k in a.ips :: IpValid(k, a.ips[k]) && k.1 % a.bucketSeconds == 0)
  }

  /** `MetricsAggregator.__init__`: refuses a bucket width that is not
      positive. */
  function New(bucketSeconds: int, retention: int): (r: Result<Aggregator>)
    ensures r.Failure? <==> bucketSeconds <= 0
    ensures r.Success? ==>
              && Valid(r.value)
              && r.value.bucketSeconds == bucketSeconds && r.value.retention == retention
              && r.value.users == map[] && r.value.ips == map[] && r.value.totals == map[]
  {
    if bucketSeconds <= 0 then Failure("bucket interval must be positive")
    else Success(Aggregator(bucketSeconds, retention, map[], map[], map[]))
  }

  // ---------------------------------------------------------------------
  // record_user_counters

  /** The counters last seen for `email`, or the new ones on first sighting. */
  function Baseline(a: Aggregator, email: string, s: UserTraffic): (int, int) {
    if email in a.totals then a.totals[email] else (s.uplink, s.downlink)
  }

  function UpDelta(a: Aggregator, email: string, s: UserTraffic): int {
    Delta(s.uplink, Baseline(a, email, s).0)
  }

  function DownDelta(a: Aggregator, email: string, s: UserTraffic): int {
    Delta(s.downlink, Baseline(a, email, s).1)
  }

  /** The user bucket of `k` receives bytes in this call. */
  predicate Gains(a: Aggregator, counters: map<string, UserTraffic>, ep: int, k: Key) {
    && k.1 == ep && k.0 in counters
    && (UpDelta(a, k.0, counters[k.0]) != 0 || DownDelta(a, k.0, counters[k.0]) != 0)
  }

  function AddBytes(u: UserState, up: int, down: int): UserState {
    u.(upBytes := u.upBytes + up, downBytes := u.downBytes + down)
  }

  /** The user buckets after `record_user_counters`: a bucket that gains
      bytes is created if need be and grows by the deltas; the rest stay. */
  function GainBytes(a: Aggregator, counters: map<string, UserTraffic>, ep: int): (users: map<Key, UserState>)
    ensures forall k :: k in users <==> k in a.users || Gains(a, counters, ep, k)
    ensures forall k | k in a.users && !Gains(a, counters, ep, k) :: users[k] == a.users[k]
    ensures forall k | Gains(a, counters, ep, k) ::
              users[k] == AddBytes(UserAt(a.users, k), UpDelta(a, k.0, counters[k.0]), DownDelta(a, k.0, counters[k.0]))
  {
    var gaining := set e | e in counters && Gains(a, counters, ep, (e, ep)) :: (e, ep);
    assert forall k | Gains(a, counters, ep, k) :: k in gaining by {
      forall k | Gains(a, counters, ep, k) ensures k in gaining {
        assert k == (k.0, ep);
      }
    }
    map k | k in a.users.Keys + gaining ::
      if Gains(a, counters, ep, k)
      then AddBytes(UserAt(a.users, k), UpDelta(a, k.0, counters[k.0]), DownDelta(a, k.0, counters[k.0]))
      else a.users[k]
  }

  /** `_user_totals` after the call: the latest counters of every email seen. */
  function LatestTotals(totals: map<string, (int, int)>, counters: map<string, UserTraffic>): (r: map<string, (int, int)>)
    ensures r.Keys == totals.Keys + counters.Keys
    ensures forall e | e in counters :: r[e] == (counters[e].uplink, counters[e].downlink)
    ensures forall e | e in totals && e !in counters :: r[e] == totals[e]
  {
    map e | e in totals.Keys + counters.Keys ::
      if e in counters then (counters[e].uplink, counters[e].downlink) else totals[e]
  }

  /** `record_user_counters`. The emails of `counters` are distinct, so the
      loop of the source touches each bucket at most once and is written
      pointwise. The baseline is always overwritten with the latest
      counters; a bucket is created or changed only when some delta is
      non-zero, and then gains exactly the deltas. */
  function RecordUserCounters(a: Aggregator, t: int, counters: map<string, UserTraffic>): (r: Aggregator)
    requires a.bucketSeconds > 0
    ensures r.bucketSeconds == a.bucketSeconds && r.retention == a.retention && r.ips == a.ips
    ensures r.totals.Keys == a.totals.Keys + counters.Keys
    ensures forall e | e in counters :: r.totals[e] == (counters[e].uplink, counters[e].downlink)
    ensures forall e | e in a.totals && e !in counters :: r.totals[e] == a.totals[e]
    ensures var ep := BucketEpoch(t, a.bucketSeconds);
            forall k :: k in r.users <==> k in a.users || Gains(a, counters, ep, k)
    ensures var ep := BucketEpoch(t, a.bucketSeconds);
            forall k | k in a.users && !Gains(a, counters, ep, k) :: r.users[k] == a.users[k]
    ensures var ep := BucketEpoch(t, a.bucketSeconds);
            forall k | Gains(a, counters, ep, k) ::
              && r.users[k].upBytes == UserAt(a.users, k).upBytes + UpDelta(a, k.0, counters[k.0])
              && r.users[k].downBytes == UserAt(a.users, k).downBytes + DownDelta(a, k.0, counters[k.0])
              && r.users[k] == UserAt(a.users, k).(upBytes := r.users[k].upBytes, downBytes := r.users[k].downBytes)
  {
    var ep := BucketEpoch(t, a.bucketSeconds);
    a.(users := GainBytes(a, counters, ep), totals := LatestTotals(a.totals, counters))
  }

  /** The first sighting of an email only records its baseline: no bucket
      gains bytes. */
  lemma FirstSightingNoBytes(a: Aggregator, counters: map<string, UserTraffic>, ep: int, k: Key)
    requires k.0 in counters && k.0 !in a.totals
    ensures !Gains(a, counters, ep, k)
  {
    DeltaOfSame(counters[k.0].uplink);
    DeltaOfSame(counters[k.0].downlink);
  }

  lemma RecordUserCountersValid(a: Aggregator, t: int, counters: map<string, UserTraffic>)
    requires Valid(a)
    ensures Valid(RecordUserCounters(a, t, counters))
  {
    var r := RecordUserCounters(a, t, counters);
    var ep := BucketEpoch(t, a.bucketSeconds);
    forall k | k in r.users
      ensures UserValid(k, r.users[k]) && k.1 % r.bucketSeconds == 0
    {
      if Gains(a, counters, ep, k) {
        assert UserValid(k, UserAt(a.users, k));
      }
    }
  }

  // ---------------------------------------------------------------------
  // record_log_events

  /** `event.target_host or event.target`. */
  function HostLabel(ev: LogEvent): string {
    if ev.targetHost != "" then ev.targetHost else ev.target
  }

  predicate IsUdp(ev: LogEvent) {
    Lower(ev.transport) == "udp"
  }

  /** A non-empty status other than `accepted` in any letter case. */
  predicate IsReject(ev: LogEvent) {
    ev.status != "" && Lower(ev.status) != "accepted"
  }

  /** One connection of `ev` counted into a user bucket. */
  function CountUserConnection(u: UserState, ev: LogEvent): UserState {
    u.(connTotal := u.connTotal + 1,
       connUdp := u.connUdp + (if IsUdp(ev) then 1 else 0),
       connTcp := u.connTcp + (if IsUdp(ev) then 0 else 1),
       ipCounts := Bump(u.ipCounts, ev.ip),
       hostCounts := Bump(u.hostCounts, HostLabel(ev)),
       ipSet := u.ipSet + {ev.ip},
       rejects := u.rejects + (if IsReject(ev) then 1 else 0))
  }

  /** One connection of `ev` counted into an IP bucket. */
  function CountIpConnection(b: IpState, ev: LogEvent): IpState {
    b.(connTotal := b.connTotal + 1,
       users := if ev.email != "" then Bump(b.users, ev.email) else b.users,
       hostCounts := Bump(b.hostCounts, HostLabel(ev)))
  }

  /** One iteration of `record_log_events`: the user bucket is touched only
      for an event with an email, the IP bucket only for one with an IP. */
  function RecordLogEvent(a: Aggregator, ev: LogEvent): (r: Aggregator)
    requires a.bucketSeconds > 0
    ensures r.bucketSeconds == a.bucketSeconds && r.retention == a.retention && r.totals == a.totals
    ensures var k := (ev.email, BucketEpoch(ev.timestamp, a.bucketSeconds));
            && r.users.Keys == a.users.Keys + (if ev.email != "" then {k} else {})
            && (forall j | j in a.users && j != k :: r.users[j] == a.users[j])
            && (ev.email == "" ==> r.users == a.users)
            && (ev.email != "" ==> r.users[k] == CountUserConnection(UserAt(a.users, k), ev))
    ensures var k := (ev.ip, BucketEpoch(ev.timestamp, a.bucketSeconds));
            && r.ips.Keys == a.ips.Keys + (if ev.ip != "" then {k} else {})
            && (forall j | j in a.ips && j != k :: r.ips[j] == a.ips[j])
            && (ev.ip == "" ==> r.ips == a.ips)
            && (ev.ip != "" ==> r.ips[k] == CountIpConnection(IpAt(a.ips, k), ev))
  {
    var ep := BucketEpoch(ev.timestamp, a.bucketSeconds);
    a.(users := CountUser(a.users, ev, ep), ips := CountIp(a.ips, ev, ep))
  }

  /** The user half of `record_log_events`' loop body: skipped without an email. */
  function CountUser(users: map<Key, UserState>, ev: LogEvent, ep: int): (r: map<Key, UserState>)
    ensures r.Keys == users.Keys + (if ev.email != "" then {(ev.email, ep)} else {})
    ensures forall j | j in users && j != (ev.email, ep) :: r[j] == users[j]
    ensures ev.email == "" ==> r == users
    ensures ev.email != "" ==> r[(ev.email, ep)] == CountUserConnection(UserAt(users, (ev.email, ep)), ev)
  {
    if ev.email != "" then
      var k := (ev.email, ep);
      users[k := CountUserConnection(UserAt(users, k), ev)]
    else users
  }

  /** The IP half: skipped without an IP. */
  function CountIp(ips: map<Key, IpState>, ev: LogEvent, ep: int): (r: map<Key, IpState>)
    ensures r.Keys == ips.Keys + (if ev.ip != "" then {(ev.ip, ep)} else {})
    ensures forall j | j in ips && j != (ev.ip, ep) :: r[j] == ips[j]
    ensures ev.ip == "" ==> r == ips
    ensures ev.ip != "" ==> r[(ev.ip, ep)] == CountIpConnection(IpAt(ips, (ev.ip, ep)), ev)
  {
    if ev.ip != "" then
      var k := (ev.ip, ep);
      ips[k := CountIpConnection(IpAt(ips, k), ev)]
    else ips
  }

  /** Counting a connection adds one to the total, to exactly one of the
      TCP and UDP counts, to the count of its IP and of its host, and to the
      rejects exactly when the status is a reject. */
  lemma CountUserConnectionCounts(u: UserState, ev: LogEvent)
    requires DistinctKeys(u.ipCounts) && DistinctKeys(u.hostCounts)
    ensures var r := CountUserConnection(u, ev);
            && r.connTotal == u.connTotal + 1
            && (IsUdp(ev) ==> r.connUdp == u.connUdp + 1 && r.connTcp == u.connTcp)
            && (!IsUdp(ev) ==> r.connTcp == u.connTcp + 1 && r.connUdp == u.connUdp)
            && Count(r.ipCounts, ev.ip) == Count(u.ipCounts, ev.ip) + 1
            && Count(r.hostCounts, HostLabel(ev)) == Count(u.hostCounts, HostLabel(ev)) + 1
            && (r.rejects == u.rejects + 1 <==> IsReject(ev))
            && (!IsReject(ev) ==> r.rejects == u.rejects)
  {
    BumpFacts(u.ipCounts, ev.ip);
    BumpFacts(u.hostCounts, HostLabel(ev));
  }

  /** Counting a connection keeps a user bucket consistent:
      `conn_tcp + conn_udp == conn_total == sum(ip_counts) == sum(host_counts)`
      and `rejects <= conn_total`. */
  lemma CountUserConnectionValid(k: Key, u: UserState, ev: LogEvent)
    requires UserValid(k, u)
    ensures UserValid(k, CountUserConnection(u, ev))
  {
    BumpFacts(u.ipCounts, ev.ip);
    BumpFacts(u.hostCounts, HostLabel(ev));
  }

  /** Counting a connection into an IP bucket adds one connection, one to
      its host and, with an email, one to that user. */
  lemma CountIpConnectionCounts(b: IpState, ev: LogEvent)
    requires DistinctKeys(b.users) && DistinctKeys(b.hostCounts)
    ensures var r := CountIpConnection(b, ev);
            && r.connTotal == b.connTotal + 1
            && Count(r.hostCounts, HostLabel(ev)) == Count(b.hostCounts, HostLabel(ev)) + 1
            && (ev.email != "" ==> Count(r.users, ev.email) == Count(b.users, ev.email) + 1)
            && (ev.email == "" ==> r.users == b.users)
            && r.measuredBytes == b.measuredBytes && r.estimatedBytes == b.estimatedBytes
  {
    BumpFacts(b.users, ev.email);
    BumpFacts(b.hostCounts, HostLabel(ev));
  }

  lemma CountIpConnectionValid(k: Key, b: IpState, ev: LogEvent)
    requires IpValid(k, b)
    ensures IpValid(k, CountIpConnection(b, ev))
  {
    BumpFacts(b.users, ev.email);
    BumpFacts(b.hostCounts, HostLabel(ev));
  }

  lemma NewBucketsValid(k: Key)
    ensures UserValid(k, NewUserState(k.0, k.1)) && IpValid(k, NewIpState(k.0, k.1))
  {
    assert Keys([]) == {};
  }

  lemma UserBucketsAfterEvent(a: Aggregator, ev: LogEvent)
    requires Valid(a)
    ensures var r := RecordLogEvent(a, ev);
            forall k | k in r.users :: UserValid(k, r.users[k]) && k.1 % a.bucketSeconds == 0
  {
    var r := RecordLogEvent(a, ev);
    var uk := (ev.email, BucketEpoch(ev.timestamp, a.bucketSeconds));
    forall k | k in r.users
      ensures UserValid(k, r.users[k]) && k.1 % a.bucketSeconds == 0
    {
      if ev.email != "" && k == uk {
        NewBucketsValid(uk);
        CountUserConnectionValid(uk, UserAt(a.users, uk), ev);
      }
    }
  }

  lemma IpBucketsAfterEvent(a: Aggregator, ev: LogEvent)
    requires Valid(a)
    ensures var r := RecordLogEvent(a, ev);
            forall k | k in r.ips :: IpValid(k, r.ips[k]) && k.1 % a.bucketSeconds == 0
  {
    var r := RecordLogEvent(a, ev);
    var ik := (ev.ip, BucketEpoch(ev.timestamp, a.bucketSeconds));
    forall k | k in r.ips
      ensures IpValid(k, r.ips[k]) && k.1 % a.bucketSeconds == 0
    {
      if ev.ip != "" && k == ik {
        NewBucketsValid(ik);
        CountIpConnectionValid(ik, IpAt(a.ips, ik), ev);
      }
    }
  }

  lemma {:induction false} RecordLogEventValid(a: Aggregator, ev: LogEvent)
    requires Valid(a)
    ensures Valid(RecordLogEvent(a, ev))
  {
    UserBucketsAfterEvent(a, ev);
    IpBucketsAfterEvent(a, ev);
  }

  /** `record_log_events`: the events counted in order. */
  function RecordLogEvents(a: Aggregator, events: seq<LogEvent>): (r: Aggregator)
    requires a.bucketSeconds > 0
    ensures r.bucketSeconds == a.bucketSeconds && r.retention == a.retention && r.totals == a.totals
  {
    if events == [] then a
    else RecordLogEvent(RecordLogEvents(a, events[..|events| - 1]), events[|events| - 1])
  }

  lemma {:induction false} RecordLogEventsValid(a: Aggregator, events: seq<LogEvent>)
    requires Valid(a)
    ensures Valid(RecordLogEvents(a, events))
  {
    if events != [] {
      RecordLogEventsValid(a, events[..|events| - 1]);
      RecordLogEventValid(RecordLogEvents(a, events[..|events| - 1]), events[|events| - 1]);
    }
  }

  /** Events without an email and without an IP leave every bucket alone. */
  lemma {:induction false} AnonymousEventsIgnored(a: Aggregator, events: seq<LogEvent>)
    requires a.bucketSeconds > 0
    requires forall i | 0 <= i < |events| :: events[i].email == "" && events[i].ip == ""
    ensures RecordLogEvents(a, events) == a
  {
    if events != [] {
      AnonymousEventsIgnored(a, events[..|events| - 1]);
    }
  }

  /** The loop of `record_log_events`. */
  method RecordLogEventsLoop(a: Aggregator, events: seq<LogEvent>) returns (r: Aggregator)
    requires Valid(a)
    ensures r == RecordLogEvents(a, events) && Valid(r)
  {
    r := a;
    var i := 0;
    while i < |events|
      invariant i <= |events|
      invariant r == RecordLogEvents(a, events[..i]) && Valid(r)
    {
      assert events[..i + 1][..i] == events[..i];
      RecordLogEventValid(r, events[i]);
      r := RecordLogEvent(r, events[i]);
      i := i + 1;
    }
    assert events[..i] == events;
  }

  // ---------------------------------------------------------------------
  // record_ip_counters

  /** The IP bucket of `k` receives measured bytes in this call. */
  predicate Measured(counters: map<string, int>, ep: int, k: Key) {
    k.1 == ep && k.0 in counters
  }

  function AddMeasured(b: IpState, value: int): IpState {
    b.(measuredBytes := b.measuredBytes + (if value < 0 then 0 else value))
  }

  /** `record_ip_counters`: adds `max(0, value)` to the measured bytes of
      each IP's bucket. The IPs of `counters` are distinct, so the loop is
      written pointwise. */
  function RecordIpCounters(a: Aggregator, t: int, counters: map<string, int>): (r: Aggregator)
    requires a.bucketSeconds > 0
    ensures r.bucketSeconds == a.bucketSeconds && r.retention == a.retention
    ensures r.users == a.users && r.totals == a.totals
    ensures var ep := BucketEpoch(t, a.bucketSeconds);
            forall k :: k in r.ips <==> k in a.ips || Measured(counters, ep, k)
    ensures var ep := BucketEpoch(t, a.bucketSeconds);
            forall k | k in a.ips && !Measured(counters, ep, k) :: r.ips[k] == a.ips[k]
    ensures var ep := BucketEpoch(t, a.bucketSeconds);
            forall k | Measured(counters, ep, k) ::
              && r.ips[k].measuredBytes >= IpAt(a.ips, k).measuredBytes
              && r.ips[k].measuredBytes - IpAt(a.ips, k).measuredBytes
                 == (if counters[k.0] < 0 then 0 else counters[k.0])
              && r.ips[k] == IpAt(a.ips, k).(measuredBytes := r.ips[k].measuredBytes)
  {
    a.(ips := MeasureIps(a.ips, counters, BucketEpoch(t, a.bucketSeconds)))
  }

  /** The buckets of `record_ip_counters` for the epoch `ep`. */
  function MeasureIps(ips: map<Key, IpState>, counters: map<string, int>, ep: int): (r: map<Key, IpState>)
    ensures forall k :: k in r <==> k in ips || Measured(counters, ep, k)
    ensures forall k | k in ips && !Measured(counters, ep, k) :: r[k] == ips[k]
    ensures forall k | Measured(counters, ep, k) :: r[k] == AddMeasured(IpAt(ips, k), counters[k.0])
  {
    var touched := set ip | ip in counters :: (ip, ep);
    assert forall k | k in touched :: Measured(counters, ep, k);
    assert forall k | Measured(counters, ep, k) :: k in touched;
    map k | k in ips.Keys + touched ::
      if Measured(counters, ep, k) then AddMeasured(IpAt(ips, k), counters[k.0]) else ips[k]
  }

  lemma RecordIpCountersValid(a: Aggregator, t: int, counters: map<string, int>)
    requires Valid(a)
    ensures Valid(RecordIpCounters(a, t, counters))
  {
    var r := RecordIpCounters(a, t, counters);
    var ep := BucketEpoch(t, a.bucketSeconds);
    forall k | k in r.ips
      ensures IpValid(k, r.ips[k]) && k.1 % r.bucketSeconds == 0
    {
      if Measured(counters, ep, k) {
        NewBucketsValid(k);
        assert IpValid(k, IpAt(a.ips, k));
      }
    }
  }

  // ---------------------------------------------------------------------
  // purge_expired

  /** `_purge_locked`: drops every bucket whose epoch is before the cutoff. */
  function Purge(a: Aggregator, cutoff: int): (r: Aggregator)
    ensures r.bucketSeconds == a.bucketSeconds && r.retention == a.retention && r.totals == a.totals
    ensures forall k :: k in r.users <==> k in a.users && a.users[k].epoch >= cutoff
    ensures forall k :: k in r.ips <==> k in a.ips && a.ips[k].epoch >= cutoff
    ensures forall k | k in r.users :: r.users[k] == a.users[k]
    ensures forall k | k in r.ips :: r.ips[k] == a.ips[k]
  {
    a.(users := map k | k in a.users && a.users[k].epoch >= cutoff :: a.users[k],
       ips := map k | k in a.ips && a.ips[k].epoch >= cutoff :: a.ips[k])
  }

  /** `purge_expired`: the cutoff is the bucket of `as_of - retention`. */
  function PurgeExpired(a: Aggregator, asOf: int): (r: Aggregator)
    requires a.bucketSeconds > 0
    ensures var cutoff := BucketEpoch(asOf - a.retention, a.bucketSeconds);
            && (forall k :: k in r.users <==> k in a.users && a.users[k].epoch >= cutoff)
            && (forall k :: k in r.ips <==> k in a.ips && a.ips[k].epoch >= cutoff)
  {
    Purge(a, BucketEpoch(asOf - a.retention, a.bucketSeconds))
  }

  /** In a consistent state the purge removes exactly the buckets whose key
      epoch is before the cutoff, keeps the others unchanged and keeps the
      state consistent. */
  lemma PurgeByKey(a: Aggregator, cutoff: int)
    requires Valid(a)
    ensures var r := Purge(a, cutoff);
            && Valid(r)
            && (forall k :: k in r.users <==> k in a.users && k.1 >= cutoff)
            && (forall k :: k in r.ips <==> k in a.ips && k.1 >= cutoff)
  {
  }

  /** Purging twice with the same cutoff is purging once. */
  lemma PurgeIdempotent(a: Aggregator, cutoff: int)
    ensures Purge(Purge(a, cutoff), cutoff) == Purge(a, cutoff)
  {
  }

  /** A later cutoff removes at least what an earlier one removes. */
  lemma PurgeLaterCutoff(a: Aggregator, c1: int, c2: int)
    requires c1 <= c2
    ensures Purge(Purge(a, c1), c2) == Purge(a, c2)
  {
  }
}
