# Xray traffic watchdog: access-log normaliser, metrics aggregator and stat-name parser

This project is a Dafny model of the data path of the Xray traffic watchdog.
It covers three parts of the repository and proves properties about them.

- **Access-log normaliser** (`XrayLogWatcher`). Each access-log line is stripped, then:
  - in text mode, the `key: value` pairs, the reason fallback, the email fallback and the metadata are read out of the matched line;
  - in JSON mode, the record is normalised through its candidate keys for email, IP, target, traffic, status and timestamp;
  - targets are split into transport, host and port;
  - internal API traffic from loopback is filtered out;
  - `snapshot(limit)` trims the lines and collects the events.
- **Metrics aggregator** (`MetricsAggregator`). Per-user and per-IP buckets are keyed by `(id, bucket epoch)`, where the epoch is aligned to the bucket width. The operations are:
  - cumulative counter deltas with reset handling;
  - connection counting from log events;
  - measured IP bytes;
  - retention purge;
  - `snapshot`, which freezes the buckets, shares each user bucket's bytes out over its source IPs as estimates, and lists both kinds of bucket sorted by `(bucket_start, id)`.
- **Stats client**:
  - the per-user stat-name parser for `user>>>EMAIL>>>traffic>>>DIRECTION`;
  - the fold of `query_user_traffic` over a query response.

The aggregator is an immutable record, and each public method is a function from one state to the next. `Metrics.Valid` is the consistency invariant: every bucket's counters agree with each other, and every bucket is filed under its own id and aligned epoch. Each operation is proved to preserve it.

Python semantics are written out where they matter:

- `str.strip()` uses Python's whitespace set;
- `split`, `find` and `rpartition` find the first or last occurrence, as Python does;
- `//` floors;
- `int()` of a float truncates toward zero;
- `x or y` follows Python truthiness;
- a `bool` counts as an `int`;
- dictionaries that are iterated (breakdown counters) are association lists that keep insertion order.

The three regular expressions used inside the normaliser are implemented as scanners with leftmost-match contracts:

- the address pattern;
- the `key: value` pattern, with its lazy value and lookahead;
- the `email:` pattern.

## Model

| member | source | states |
|---|---|---|
| Address.SearchAddr | watchdog/collectors/xray_log_watcher.py:34 | the result is the group of the leftmost match of the address pattern at or after `i` (bracketed contents tried first, then a dotted quad), or none when no position matches |
| Address.ExtractAddress | watchdog/collectors/xray_log_watcher.py:263-270 | the address is the leftmost pattern match when there is one, else the text before the first colon, else the whole input |
| Address.AddrOrSelf | watchdog/collectors/xray_log_watcher.py:404-409 | a JSON IP candidate is reduced to its pattern match, or kept whole (port included) when nothing matches |
| Address.LoopbackIff | watchdog/collectors/xray_log_watcher.py:542-557 | an address is loopback exactly when its extracted address starts with `127.`, is `::1`, or is `localhost` in any letter case; the empty-string guards change nothing |
| Address.StripTransport | watchdog/collectors/xray_log_watcher.py:279-280 | a target starting with `tcp:`, `udp:` or `unix:` is partitioned at its first colon into transport and remainder |
| Address.SplitHostPort | watchdog/collectors/xray_log_watcher.py:282-299 | a bracketed host takes the port only after `]:` with all digits; otherwise the host and port split at the last colon, and a non-digit or empty suffix leaves the whole remainder as the host with no port |
| Address.SplitTarget | watchdog/collectors/xray_log_watcher.py:272-299 | the transport is non-empty only for a known prefix, and host and port come from the remainder |
| AddressProps.HostPortRoundTrip | watchdog/collectors/xray_log_watcher.py:292-295 | `host:digits` with a colon-free host splits back into that host and the digits' value |
| AddressProps.BracketHostPortRoundTrip | watchdog/collectors/xray_log_watcher.py:285-291 | `[host]:digits` splits back into the bracket contents and the digits' value |
| AddressProps.BareHost | watchdog/collectors/xray_log_watcher.py:282-283 | a remainder with no colon and no bracket is all host, with no port |
| AddressProps.TransportRoundTrip | watchdog/collectors/xray_log_watcher.py:279-299 | a known transport prefix is split off, and the rest parses exactly as a plain target would |
| AddressProps.TransportHostPort | watchdog/collectors/xray_log_watcher.py:279-295 | transport, host and digit port joined by colons split back into their parts |
| AddressProps.PlainTargetExample | tests/test_xray_log_watcher.py:28-30 | `ping0.cc:443` gives host `ping0.cc` and port 443 |
| AddressProps.ZeroPortExample | tests/test_xray_log_watcher.py:49-50 | `sp.v2.udp-over-tcp.arpa:0` gives that host and port 0, a present port |
| AddressProps.TransportTargetExample | tests/test_xray_log_watcher.py:60-62 | `tcp:ipv6.ping0.cc:443` gives transport `tcp`, host `ipv6.ping0.cc` and port 443 |
| AddressProps.BareIpv6LoopbackMissed | watchdog/collectors/xray_log_watcher.py:547-551 | a bare `::1` is not loopback: neither pattern alternative matches it, and its text before the first colon is empty |
| AddressProps.BracketedIpv6Loopback | watchdog/collectors/xray_log_watcher.py:547-551 | `[::1]` is loopback |
| AddressProps.LoopbackColonPrefix | watchdog/collectors/xray_log_watcher.py:542-552 | any value starting with `127.0.0.1:` extracts to `127.0.0.1` and is loopback, whatever follows |
| AddressProps.RegularAddressExample | tests/test_xray_log_watcher.py:27 | the client address `58.152.53.88`, bare or as `58.152.53.88:52986`, extracts to `58.152.53.88`, which is not loopback |
| Json.Or | watchdog/collectors/xray_log_watcher.py:503 | `a or b` is `a` when `a` is truthy, else `b` |
| Json.FirstNonEmptyString | watchdog/collectors/xray_log_watcher.py:385-388 | the result is the first candidate that is a non-empty string, and it is `""` exactly when no candidate is one |
| Records.ExtractEmail | watchdog/collectors/xray_log_watcher.py:369-388 | the email is the first non-empty string among the top-level keys, then `session.email`/`session.user`, then `account.email`, the nested ones only when they are objects; a non-empty `email` key always wins |
| Records.ExtractIp | watchdog/collectors/xray_log_watcher.py:390-410 | the IP is `""` when no candidate is a non-empty string; otherwise the first candidate's address-pattern match, or that candidate whole when the pattern finds nothing |
| Records.ExtractTarget | watchdog/collectors/xray_log_watcher.py:412-429 | the first non-empty top-level target string, else `session.target` when it is a string (even an empty one), else `""` |
| Records.LookupNumeric | watchdog/collectors/xray_log_watcher.py:482-490 | the result is the value under the first key holding an int, a bool or a digit string, and none exactly when no key holds one |
| Records.TrafficField | watchdog/collectors/xray_log_watcher.py:474-480 | a non-zero top-level value wins; otherwise the nested `traffic` object's value is used, and 0 when neither is there |
| Records.ExtractTraffic | watchdog/collectors/xray_log_watcher.py:463-480 | the bytes read and written are the uplink and downlink fields |
| Records.ExtractStatus | watchdog/collectors/xray_log_watcher.py:492-498 | the status is the first non-empty string of `status`, `action`, `event` |
| Records.NonEmptyStrings | watchdog/collectors/xray_log_watcher.py:311-315 | the timestamp candidates are exactly the non-empty strings among the keys' values; their key order is stated by `Records.FirstParsedNonEmpty` |
| Records.FirstParsedNonEmpty | watchdog/collectors/xray_log_watcher.py:311-320 | parsing the non-empty strings in turn yields the parse of the first candidate, in key order, that is a non-empty string the parser accepts, and nothing exactly when no candidate is one |
| Records.ExtractTimestamp | watchdog/collectors/xray_log_watcher.py:310-320 | the timestamp is the parse of the first of `timestamp`, `time`, `event_time`, `ts` holding a non-empty string the parser accepts, and the current instant when none does |
| Records.TimestampKeyWins | watchdog/collectors/xray_log_watcher.py:312 | a parseable `timestamp` string is used whatever `time`, `event_time` or `ts` hold |
| Records.FirstParsed | watchdog/collectors/xray_log_watcher.py:316-320 | the timestamp is the first candidate the parser accepts, and none exactly when it rejects all of them |
| Records.RecordMetadata | watchdog/collectors/xray_log_watcher.py:341-352 | the metadata keeps every record field unchanged and adds `transport`, `host` and `port`, each only when present and not already a key |
| Records.NormaliseRecord | watchdog/collectors/xray_log_watcher.py:340-367 | no event exactly when the record is internal API traffic; otherwise every event field is the corresponding extraction, and the target fields are the split of the extracted target |
| Events.HostFromMetadata | watchdog/collectors/xray_log_watcher.py:530-540 | the host is the first non-empty of: the host of the metadata `target`, the host of `target`, and the metadata `host` string |
| Events.BuildEvent | watchdog/collectors/xray_log_watcher.py:431-461 | no event exactly when the route label (`detour` or `tag`) contains `api` in any letter case and one of the host, `source`, `from`, `client` or the IP is loopback; otherwise the event carries exactly the given fields |
| KeyValues.ValueEnd | watchdog/collectors/xray_log_watcher.py:68 | the lazy value stops at the first position after at least one character where the lookahead or end of text holds, and never crosses a newline |
| KeyValues.MatchAt | watchdog/collectors/xray_log_watcher.py:67-69 | a match at `i` is a non-empty run of key characters, a colon, whitespace, and a value that is the shortest one the lookahead or end of text admits from its start |
| KeyValues.FindAll | watchdog/collectors/xray_log_watcher.py:192 | `finditer` reports each match at its start, in order, without overlap, and with no match starting in any gap |
| KeyValues.RemoveSpansIsGaps | watchdog/collectors/xray_log_watcher.py:209-211 | cutting the matched spans out from the back leaves exactly the text between them, in order |
| KeyValues.SearchEmail | watchdog/collectors/xray_log_watcher.py:216-218 | the result is the address of the leftmost `email:` match, a greedy run of non-whitespace after optional whitespace, or none |
| TextLines.ApplyEntriesRole | watchdog/collectors/xray_log_watcher.py:194-202 | for `email` and `reason`, matched in any letter case, the last occurrence's value wins, and without one the variable keeps its value |
| TextLines.ApplyEntriesMetadata | watchdog/collectors/xray_log_watcher.py:194-204 | every other key is written into the metadata with its last value, and keys no entry writes keep theirs |
| TextLines.ParseRestReason | watchdog/collectors/xray_log_watcher.py:206-214 | the reason is the last `reason` value, when it is non-empty; only otherwise is it the stripped text left between the pairs |
| TextLines.ParseRestEmail | watchdog/collectors/xray_log_watcher.py:215-218 | the email is the last `email` value, when it is non-empty; only otherwise is it the first `email:` address in the text |
| TextLines.FinalMetadata | watchdog/collectors/xray_log_watcher.py:222-236 | detour, reason, email and then the target fields are written over the pairs' metadata, each only when present; every other key is untouched |
| TextLines.TextFilterIsInternal | watchdog/collectors/xray_log_watcher.py:242-247 | the explicit `api -> api` loopback check drops nothing that the internal-API filter would keep |
| TextLines.ParseTextLine | watchdog/collectors/xray_log_watcher.py:167-261 | no event exactly when the line is internal API traffic; otherwise the event holds the parsed time (or now), the email, the source address, the target and its split, the stripped status, zero traffic and the final metadata |
| TextExamples.ApiLoopbackLineDropped | watchdog/collectors/xray_log_watcher.py:242-247 | any line routed `api -> api` from a `127.0.0.1:` source to a `tcp:127.0.0.1:` target, with no trailing text, yields no event |
| TextExamples.OnePairText | watchdog/collectors/xray_log_watcher.py:67-69 | `key: word` reads as the single pair `(key, word)` |
| TextExamples.EmailRestParsed | watchdog/collectors/xray_log_watcher.py:191-218 | the trailing text `email: <word>` sets the email to the word and adds no metadata key |
| TextExamples.OtherRouteLine | watchdog/collectors/xray_log_watcher.py:503-509 | a line routed by a label without the letter `a` is never on the API route |
| TextExamples.EmailLineParsed | watchdog/collectors/xray_log_watcher.py:167-261 | a line with a non-API route label and `email: <word>` yields an event with that email, the source address, the target's host and port, and no metadata key beyond the fixed and derived ones |
| TextExamples.RegularLineParsed | tests/test_xray_log_watcher.py:18-31 | the regular access-log line of the unit tests yields email `dacog96g`, IP `58.152.53.88`, target `ping0.cc:443`, host `ping0.cc`, port 443, and no `protocol` key |
| TextExamples.ApiLoopbackTestLine | tests/test_xray_log_watcher.py:33-39 | the internal API test line yields no event from the text normaliser |
| RecordExamples.ApiLoopbackRecordDropped | watchdog/collectors/xray_log_watcher.py:500-522 | a record routed `api -> api` whose `from` string starts with `127.0.0.1:` is internal API traffic and yields no event, whatever its other keys |
| RecordExamples.ApiLoopbackTestRecord | tests/test_xray_log_watcher.py:70-77 | the internal API record of the unit tests yields no event from the record normaliser |
| RecordExamples.UnroutedRecordKept | watchdog/collectors/xray_log_watcher.py:340-367 | a record with no `detour` or `tag`, non-empty `email` and `target` strings, `ip` `58.152.53.88` and non-zero `uplink` and `downlink` integers yields an event carrying that email, that IP, that target and those byte counts |
| RecordExamples.RegularTestRecord | tests/test_xray_log_watcher.py:79-95 | the regular record of the unit tests yields email `dacog96g`, IP `58.152.53.88`, target `www.gstatic.com:80`, 123 bytes read and 456 bytes written |
| Watcher.Normalise | watchdog/collectors/xray_log_watcher.py:340-341 | a decoded value that is not an object raises; an object gives exactly what the record normaliser gives |
| Watcher.RawEvent | watchdog/collectors/xray_log_watcher.py:152-164 | a line that neither matches nor decodes becomes an event with empty fields, zero traffic, time now, and metadata `{"raw": line}`, and is never filtered |
| Watcher.ParseLine | watchdog/collectors/xray_log_watcher.py:130-165 | a blank line gives nothing; JSON mode decodes or gives nothing; text mode returns the text event when there is one, and otherwise falls back to JSON and then to the raw event |
| Watcher.ParseLineIntended | watchdog/collectors/xray_log_watcher.py:142-148 | a line that matched a grammar is settled by the text normaliser alone; every other line is dispatched as written |
| Watcher.TrimLines | watchdog/collectors/xray_log_watcher.py:114-115 | `lines[-limit:]` is a suffix; a positive limit keeps the last `limit` lines, 0 keeps all, a negative limit drops the first `-limit` |
| Watcher.CollectSpec | watchdog/collectors/xray_log_watcher.py:116-121 | collection fails exactly when some line raises; otherwise the events are those of the lines, in order |
| Watcher.StickyFailure | watchdog/collectors/xray_log_watcher.py:117-120 | an exception in a prefix ends the loop: the whole collection fails the same way |
| Watcher.CollectLoop | watchdog/collectors/xray_log_watcher.py:116-121 | the loop computes the reference collection |
| Watcher.Snapshot | watchdog/collectors/xray_log_watcher.py:109-121 | the result is the events of the kept lines, in order, or a failure exactly when one of them raises |
| Watcher.DroppedTextLineKeptRaw | watchdog/collectors/xray_log_watcher.py:142-164 | a text line that matched but was dropped and is not JSON is returned as a raw event; the intended dispatch drops it |
| Watcher.ApiLineReturnedRaw | watchdog/collectors/xray_log_watcher.py:142-164 | the internal API test line, read through the line dispatch in text mode, comes back as a raw event whose metadata is the line |
| StatNames.ParseUserStatName | watchdog/collectors/xray_stats_client.py:85-101 | names with fewer than three parts or another scope give `("", "")`; three parts give `(email, metric)`; more give `(email, metric)` only when the category is `traffic`; scope, category and metric compare and return lower-cased |
| StatNames.StatNameRoundTrip | watchdog/collectors/xray_stats_client.py:86-101 | `user>>>e>>>traffic>>>d` parses back to `(e, lower(d))` when `e` holds no `>>>` and does not end in `>`, and `d` holds no `>>>` |
| StatNames.RoundTripNeedsCleanEnd | watchdog/collectors/xray_stats_client.py:87-100 | an email ending in `>` never round-trips: the split moves the `>` into the category, and the name is rejected |
| StatNames.ReportedEmailsIff | watchdog/collectors/xray_stats_client.py:58-61 | an email is reported exactly when some stat naming it, with an `uplink` or `downlink` direction, is in the response |
| StatNames.LastReportedIs | watchdog/collectors/xray_stats_client.py:61-65 | the last stat for an `(email, direction)` pair determines that direction's value |
| StatNames.UnreportedReadsZero | watchdog/collectors/xray_stats_client.py:61 | a direction never reported reads 0 |
| StatNames.FoldUserTraffic | watchdog/collectors/xray_stats_client.py:56-66 | the result holds each reported email once, with each direction holding its last reported value and 0 when never reported |
| Buckets.BucketEpoch | watchdog/metrics/aggregator.py:205-210 | the epoch is aligned to the width and is the start of the width-long interval holding `t` |
| Buckets.BucketEpochUnique | watchdog/metrics/aggregator.py:205-210 | the epoch is the only aligned time within one width at or before `t` |
| Buckets.BucketEpochMonotone | watchdog/metrics/aggregator.py:205-210 | bucket epochs are monotone in time |
| Buckets.Delta | watchdog/metrics/aggregator.py:212-218 | the delta is non-negative and at most the clamped current reading |
| Buckets.DeltaOfGrowth | watchdog/metrics/aggregator.py:216-217 | a counter that grew gains exactly the difference |
| Buckets.DeltaOfReset | watchdog/metrics/aggregator.py:218 | after a reset the delta is the new reading |
| Buckets.FreezeUser | watchdog/metrics/aggregator.py:255-268 | the frozen bucket copies every counter, and `unique_ips` counts the non-empty IPs seen |
| Buckets.FreezeIp | watchdog/metrics/aggregator.py:282-293 | measured bytes are reported (source `measured`) exactly when non-zero; otherwise the estimate is reported (source `estimated`) |
| Buckets.UniqueIpsAtMostConnections | watchdog/metrics/aggregator.py:255-268 | a frozen user bucket of a consistent state counts no more distinct source IPs than connections |
| Buckets.FrozenIpBytesNonNegative | watchdog/metrics/aggregator.py:283 | a frozen IP bucket of a consistent state never reports negative bytes |
| Counts.BumpFacts | watchdog/metrics/aggregator.py:138-139 | `c[k] = c.get(k, 0) + 1` adds one to `k`'s count and to the total, keeps every other count and keeps keys distinct |
| Metrics.New | watchdog/metrics/aggregator.py:91-100 | construction fails exactly for a non-positive width; otherwise the state is empty and consistent |
| Metrics.RecordUserCounters | watchdog/metrics/aggregator.py:103-120 | the baselines become the latest counters; a bucket is created or changed exactly when some delta against the baseline (the new reading on first sighting) is non-zero, and then it gains exactly the deltas; nothing else changes |
| Metrics.FirstSightingNoBytes | watchdog/metrics/aggregator.py:109-114 | the first sighting of an email only records its baseline |
| Metrics.RecordUserCountersValid | watchdog/metrics/aggregator.py:103-120 | recording user counters keeps the state consistent |
| Metrics.RecordLogEvent | watchdog/metrics/aggregator.py:124-153 | an event touches only the user bucket of its email, and only with an email, and the IP bucket of its IP, and only with an IP; each touched bucket becomes the previous bucket (or a fresh one) with this connection counted into it |
| Metrics.CountUserConnectionCounts | watchdog/metrics/aggregator.py:132-142 | a connection adds one to the total, to exactly one of TCP and UDP, to its IP's and host's counts, and to the rejects exactly when the status is a non-`accepted` one |
| Metrics.CountIpConnectionCounts | watchdog/metrics/aggregator.py:150-153 | a connection adds one to the IP bucket's total and host count, and one to its user only with an email, leaving the bytes alone |
| Metrics.RecordLogEventValid | watchdog/metrics/aggregator.py:124-153 | counting one event keeps the state consistent |
| Metrics.RecordLogEventsValid | watchdog/metrics/aggregator.py:122-153 | counting any sequence of events keeps the state consistent |
| Metrics.AnonymousEventsIgnored | watchdog/metrics/aggregator.py:127-145 | events with neither email nor IP leave the state unchanged |
| Metrics.RecordLogEventsLoop | watchdog/metrics/aggregator.py:122-153 | the loop counts the events in order and keeps the state consistent |
| Metrics.RecordIpCounters | watchdog/metrics/aggregator.py:155-163 | each counted IP's bucket at the epoch is created if need be and gains `max(0, value)` measured bytes; nothing else changes |
| Metrics.RecordIpCountersValid | watchdog/metrics/aggregator.py:155-163 | recording IP counters keeps the state consistent |
| Metrics.Purge | watchdog/metrics/aggregator.py:192-198 | exactly the buckets whose epoch is before the cutoff are dropped, and the rest are unchanged |
| Metrics.PurgeExpired | watchdog/metrics/aggregator.py:165-168 | the cutoff is the bucket epoch of `as_of - retention` |
| Metrics.PurgeByKey | watchdog/metrics/aggregator.py:192-198 | in a consistent state the purge drops exactly the keys before the cutoff and keeps the state consistent |
| Metrics.PurgeIdempotent | watchdog/metrics/aggregator.py:192-198 | purging twice with the same cutoff is purging once |
| Metrics.PurgeLaterCutoff | watchdog/metrics/aggregator.py:192-198 | a later cutoff subsumes an earlier one |
| Distribution.DistributeAt | watchdog/metrics/aggregator.py:220-237 | the IP buckets that some user bucket with bytes and connections shares out to are created, and every IP bucket gains exactly its total estimate; nothing else changes |
| Distribution.EstimateUnreached | watchdog/metrics/aggregator.py:223-237 | an IP bucket no user bucket reaches gets no estimate |
| Distribution.ShareScaled | watchdog/metrics/aggregator.py:232-237 | a truncated share never exceeds its proportion of the bytes |
| Distribution.SharesWithinTotal | watchdog/metrics/aggregator.py:224-237 | the shares a user bucket hands out add up to at most its bytes |
| Distribution.FrozenSharesWithinTotal | watchdog/metrics/aggregator.py:224-237 | every frozen user bucket of a consistent state meets that bound |
| Distribution.EstimateNonNegative | watchdog/metrics/aggregator.py:223-237 | the estimate every IP bucket receives is non-negative |
| Distribution.EstimatePermutation | watchdog/metrics/aggregator.py:223 | visiting the user buckets in another order gives every IP bucket the same estimate |
| Distribution.DistributeOrderFree | watchdog/metrics/aggregator.py:220-237 | the distribution does not depend on the order of the user buckets |
| KeyOrder.SortKeys | watchdog/metrics/aggregator.py:180-182 | the keys come out strictly increasing by `(bucket_start, id)`, each exactly once |
| Snapshots.AfterSnapshot | watchdog/metrics/aggregator.py:176-178 | after `snapshot` as written, the aggregator keeps its users and totals, and its IP buckets keep their keys |
| Snapshots.ListUsers | watchdog/metrics/aggregator.py:175-180 | every user bucket is listed frozen, once, sorted by `(bucket_start, email)` |
| Snapshots.ListIps | watchdog/metrics/aggregator.py:181-182 | every IP bucket after the distribution is listed frozen, once, sorted by `(bucket_start, ip)` |
| Snapshots.Snapshot | watchdog/metrics/aggregator.py:170-189 | the snapshot lists the purged users and the distributed IP buckets, both sorted, at the given time and width; the state left behind keeps the estimates |
| Snapshots.SnapshotIntended | watchdog/metrics/aggregator.py:170-189 | the same lists, with the state left behind only purged |
| SnapshotProps.AfterSnapshotEstimates | watchdog/metrics/aggregator.py:176-178 | each IP bucket the state keeps gains exactly its estimate |
| SnapshotProps.AfterSnapshotValid | watchdog/metrics/aggregator.py:170-189 | `snapshot` keeps the aggregator consistent |
| SnapshotProps.AfterSnapshotPurged | watchdog/metrics/aggregator.py:172-175 | the state left behind is not purged further at the same time and freezes the same user buckets |
| SnapshotProps.UsersListedUnique | watchdog/metrics/aggregator.py:175-180 | the user list is determined by the state it is taken of |
| SnapshotProps.SecondSnapshotAddsAgain | watchdog/metrics/aggregator.py:176-178 | a second `snapshot` at the same time hands each existing IP bucket the same estimate again, on top of the first |
| SnapshotProps.RepeatedSnapshotGrows | watchdog/metrics/aggregator.py:176-178 | with nothing measured, an IP bucket's reported bytes grow from one `snapshot` to the next though nothing was recorded |
| SnapshotProps.SnapshotTwiceGrows | watchdog/metrics/aggregator.py:170-189 | two consecutive `snapshot` calls list the same users, and the estimated IP bytes grow by the estimate |
| SnapshotProps.SingleConnectionEstimate | watchdog/metrics/aggregator.py:224-237 | a user bucket with all its bytes over one connection hands all of them to that connection's IP bucket |
| SnapshotProps.IntendedSnapshotStable | watchdog/metrics/aggregator.py:170-189 | with the buckets copied, a second `snapshot` at the same time reports the same lists |
| Text.Strip | watchdog/collectors/xray_log_watcher.py:131 | the result is a slice of the input with only whitespace outside it, and it neither starts nor ends with whitespace |
| Text.StripEmptyIffBlank | watchdog/collectors/xray_log_watcher.py:131-133 | a line strips to empty exactly when it is all whitespace |
| Text.SplitJoin | watchdog/collectors/xray_stats_client.py:87 | `str.split` loses nothing: the parts joined by the separator give back the input |

## Left out

- **Reading the file**: `stream`, `_read_lines` and file existence are not modelled. `Watcher.Snapshot` takes the file's lines as a sequence.
- **Library calls passed in as parameters** (the record `Watcher.Env`):
  - the two text-line grammars, as the groups of the first one that matches;
  - `json.loads`, where a decoding error is `None`;
  - `strptime` on the text timestamp, with `_now()` as the fallback;
  - `fromisoformat` and `strptime` on JSON timestamps;
  - `datetime.now`.
- **Time**: a `datetime` is whole seconds since the epoch. Sub-second precision, time zones and `fromtimestamp` are not modelled, and a bucket's start is its epoch.
- **Character classes**: `str.lower()`, `str.isdigit()` and `\d` are modelled on ASCII only. Non-ASCII letters and Unicode digits are not.
- **Threading**: the lock and all concurrency are left out. Each method is one atomic transition.
- **Output formatting**: `to_dict`, `isoformat` and the dataclass wrappers are left out.
- **gRPC**: `_call_query`, `online_ips`, channel setup and `XrayStatsError` are left out. `StatNames.FoldUserTraffic` takes the response's `(name, value)` pairs.
- **Float division**: the estimated share, `(total_bytes * count) / total_connections`, is taken as exact rational division before `int()` truncates it. Float rounding is not modelled.
- **Dictionary iteration order**: `snapshot` iterates the user buckets in dictionary order, while the model visits them in sorted order. `Distribution.DistributeOrderFree` proves the order does not matter.
- **Loops written pointwise**: the mapping loops of `record_user_counters` and `record_ip_counters` are written pointwise, because their keys are distinct.
- Snapshots.Snapshot: requires the consistency invariant `Metrics.Valid`, which every modelled operation establishes and preserves. It is not stated for arbitrary states.
- Snapshots.AfterSnapshot: the IP buckets that the distribution creates in the copied dictionary are not part of the state left behind, as in the source. Only the estimates added to existing buckets persist.

## Findings

| source | as written | input that shows it | evidently intended | confidence | as-written member | corrected member |
|---|---|---|---|---|---|---|
| watchdog/collectors/xray_log_watcher.py:142-164 | in text mode, a line that matched a grammar but that the text normaliser drops (for example internal API loopback traffic) falls through to the JSON attempt and then to the raw-event fallback, so it is returned as a raw event | the unit-test line `2025/11/14 22:44:45.001961 from 127.0.0.1:33122 accepted tcp:127.0.0.1:62789 [api -> api]` through `_parse_line` in text mode | a dropped line stays dropped; only lines matching no grammar fall back to JSON and raw events | high (not executed) | Watcher.ParseLine (shown by Watcher.DroppedTextLineKeptRaw, Watcher.ApiLineReturnedRaw) | Watcher.ParseLineIntended |
| watchdog/metrics/aggregator.py:176-178 | `snapshot` copies the IP-bucket dictionary but not the bucket objects, so the estimates it adds stay in the aggregator's own buckets and are added again by every later `snapshot` | one user bucket with T > 0 bytes over a single connection from IP x, and an IP bucket for x with no measured bytes: the first `snapshot` reports T bytes for x, the second 2T | estimates are computed on copies and do not accumulate across snapshots | high (not executed) | Snapshots.Snapshot (shown by SnapshotProps.RepeatedSnapshotGrows, SnapshotProps.SnapshotTwiceGrows) | Snapshots.SnapshotIntended (SnapshotProps.IntendedSnapshotStable) |
