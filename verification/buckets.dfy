/**
 * The per-bucket state of the metrics aggregator (`_MutableUserBucket`,
 * `_MutableIpBucket`), their frozen forms (`UserBucket`, `IpBucket`), bucket
 * alignment (`_bucket_epoch`) and counter deltas (`_compute_delta`).
 * Times are whole seconds since the epoch; a bucket's start is its epoch.
 */
module Buckets {
  import opened Arith
  import opened Counts

  /** `_bucket_epoch`: the start of the bucket holding `t`. Python's `//`
      floors, as Dafny's `/` does for a positive divisor. */
  function BucketEpoch(t: int, bucketSeconds: int): (e: int)
    requires bucketSeconds > 0
    ensures e % bucketSeconds == 0
    ensures e <= t < e + bucketSeconds
  {
    DivMod(t, bucketSeconds);
    MulDiv(t / bucketSeconds, bucketSeconds);
    (t / bucketSeconds) * bucketSeconds
  }

  /** The bucket start is the only aligned time within a bucket's width
      at or before `t`. */
  lemma BucketEpochUnique(t: int, bucketSeconds: int, e: int)
    requires bucketSeconds > 0
    requires e % bucketSeconds == 0 && e <= t < e + bucketSeconds
    ensures BucketEpoch(t, bucketSeconds) == e
  {
    DivMod(e, bucketSeconds);
    DivMod(t, bucketSeconds);
    MultiplesClose(t / bucketSeconds, e / bucketSeconds, bucketSeconds);
  }

  /** An aligned time is its own bucket start. */
  lemma BucketEpochAligned(e: int, bucketSeconds: int)
    requires bucketSeconds > 0 && e % bucketSeconds == 0
    ensures BucketEpoch(e, bucketSeconds) == e
  {
    BucketEpochUnique(e, bucketSeconds, e);
  }

  /** Bucket starts are monotone in time. */
  lemma BucketEpochMonotone(s: int, t: int, bucketSeconds: int)
    requires bucketSeconds > 0 && s <= t
    ensures BucketEpoch(s, bucketSeconds) <= BucketEpoch(t, bucketSeconds)
  {
    var qs := s / bucketSeconds;
    var qt := t / bucketSeconds;
    DivMod(s, bucketSeconds);
    DivMod(t, bucketSeconds);
    if qt * bucketSeconds < qs * bucketSeconds {
      MultiplesGap(qt, qs, bucketSeconds);
    }
  }

  /** `_compute_delta`: the growth of a cumulative counter, both readings
      clamped at 0; a reading below the previous one is a reset and counts
      in full. */
  function Delta(current: int, previous: int): (d: int)
    ensures d >= 0
    ensures d <= (if current < 0 then 0 else current)
  {
    var c := if current < 0 then 0 else current;
    var p := if previous < 0 then 0 else previous;
    if c >= p then c - p else c
  }

  /** A counter that kept growing gains exactly the delta. */
  lemma DeltaOfGrowth(current: int, previous: int)
    requires 0 <= previous <= current
    ensures previous + Delta(current, previous) == current
  {
  }

  /** After a reset the delta is the new reading. */
  lemma DeltaOfReset(current: int, previous: int)
    requires 0 <= current < previous
    ensures Delta(current, previous) == current
  {
  }

  /** An unchanged counter has no delta. */
  lemma DeltaOfSame(v: int)
    ensures Delta(v, v) == 0
  {
  }

  /** `_MutableUserBucket`. */
  datatype UserState = UserState(
    email: string,
    epoch: int,
    upBytes: int,
    downBytes: int,
    connTotal: int,
    connTcp: int,
    connUdp: int,
    rejects: int,
    ipCounts: Counts,
    hostCounts: Counts,
    ipSet: set<string>)

  /** `_MutableIpBucket`. */
  datatype IpState = IpState(
    ip: string,
    epoch: int,
    measuredBytes: int,
    estimatedBytes: int,
    connTotal: int,
    users: Counts,
    hostCounts: Counts)

  function NewUserState(email: string, epoch: int): UserState {
    UserState(email, epoch, 0, 0, 0, 0, 0, 0, [], [], {})
  }

  function NewIpState(ip: string, epoch: int): IpState {
    IpState(ip, epoch, 0, 0, 0, [], [])
  }

  /** `(email or ip, bucket epoch)`, the key of a bucket. */
  type Key = (string, int)

  /** The bucket under `k`, or a fresh one (`setdefault`). */
  function UserAt(users: map<Key, UserState>, k: Key): UserState {
    if k in users then users[k] else NewUserState(k.0, k.1)
  }

  function IpAt(ips: map<Key, IpState>, k: Key): IpState {
    if k in ips then ips[k] else NewIpState(k.0, k.1)
  }

  /** `UserBucket`, the frozen user bucket. */
  datatype UserBucket = UserBucket(
    email: string,
    bucketStart: int,
    upBytes: int,
    downBytes: int,
    connTotal: int,
    connTcp: int,
    connUdp: int,
    uniqueIps: nat,
    ipBreakdown: Counts,
    hostBreakdown: Counts,
    rejects: int)

  /** `IpBucket`, the frozen IP bucket. */
  datatype IpBucket = IpBucket(
    ip: string,
    bucketStart: int,
    bytesTotal: int,
    byteSource: string,
    connTotal: int,
    users: Counts,
    hostBreakdown: Counts)

  /** The counters of a user bucket agree with each other: every connection
      is either TCP or UDP and is counted once per source IP and once per
      host, rejects are among the connections, and `ip_set` holds exactly
      the IPs counted. */
  predicate UserValid(key: (string, int), u: UserState) {
    && u.email == key.0 && u.epoch == key.1
    && u.upBytes >= 0 && u.downBytes >= 0
    && u.connTcp >= 0 && u.connUdp >= 0
    && u.connTcp + u.connUdp == u.connTotal
    && DistinctKeys(u.ipCounts) && AllPositive(u.ipCounts) && Sum(u.ipCounts) == u.connTotal
    && DistinctKeys(u.hostCounts) && AllPositive(u.hostCounts) && Sum(u.hostCounts) == u.connTotal
    && 0 <= u.rejects <= u.connTotal
    && u.ipSet == Keys(u.ipCounts)
  }

  /** The counters of an IP bucket agree with each other: every connection is
      counted once per host and at most once per user, and byte counts are
      non-negative. */
  predicate IpValid(key: (string, int), b: IpState) {
    && b.ip == key.0 && b.epoch == key.1
    && b.measuredBytes >= 0 && b.estimatedBytes >= 0
    && DistinctKeys(b.users) && AllPositive(b.users) && Sum(b.users) <= b.connTotal
    && DistinctKeys(b.hostCounts) && AllPositive(b.hostCounts) && Sum(b.hostCounts) == b.connTotal
  }

  /** The IPs of `ip_set` other than the empty one. */
  function NonEmptyIps(ips: set<string>): set<string> {
    set ip | ip in ips && ip != ""
  }

  /** `_MutableUserBucket.freeze`. */
  function FreezeUser(u: UserState): (b: UserBucket)
    ensures b.email == u.email && b.bucketStart == u.epoch
    ensures b.upBytes == u.upBytes && b.downBytes == u.downBytes
    ensures b.connTotal == u.connTotal && b.connTcp == u.connTcp && b.connUdp == u.connUdp
    ensures b.ipBreakdown == u.ipCounts && b.hostBreakdown == u.hostCounts && b.rejects == u.rejects
    ensures b.uniqueIps == |NonEmptyIps(u.ipSet)|
  {
    UserBucket(u.email, u.epoch, u.upBytes, u.downBytes, u.connTotal, u.connTcp, u.connUdp,
               |NonEmptyIps(u.ipSet)|, u.ipCounts, u.hostCounts, u.rejects)
  }

  /** `_MutableIpBucket.freeze`: measured bytes win whenever they are
      non-zero; otherwise the estimate is reported. */
  function FreezeIp(b: IpState): (r: IpBucket)
    ensures r.byteSource == "measured" <==> b.measuredBytes != 0
    ensures r.byteSource == "estimated" <==> b.measuredBytes == 0
    ensures r.bytesTotal == (if b.measuredBytes != 0 then b.measuredBytes else b.estimatedBytes)
    ensures r.ip == b.ip && r.bucketStart == b.epoch && r.connTotal == b.connTotal
    ensures r.users == b.users && r.hostBreakdown == b.hostCounts
  {
    var measured := b.measuredBytes != 0;
    IpBucket(b.ip, b.epoch,
             if measured then b.measuredBytes else b.estimatedBytes,
             if measured then "measured" else "estimated",
             b.connTotal, b.users, b.hostCounts)
  }

  /** A distinct-key dictionary of positive counts has no more keys than
      its total. */
  lemma {:induction false} KeysAtMostSum(c: Counts)
    requires DistinctKeys(c) && AllPositive(c)
    ensures |Keys(c)| <= Sum(c)
  {
    if c != [] {
      var t := c[1..];
      assert AllPositive(t) by {
        forall i | 0 <= i < |t| ensures t[i].1 > 0 { assert t[i] == c[i + 1]; }
      }
      KeysAtMostSum(t);
      assert Keys(c) == {c[0].0} + Keys(t);
    }
  }

  /** A frozen user bucket counts no more distinct source IPs than
      connections. */
  lemma UniqueIpsAtMostConnections(key: (string, int), u: UserState)
    requires UserValid(key, u)
    ensures FreezeUser(u).uniqueIps <= FreezeUser(u).connTotal
  {
    KeysAtMostSum(u.ipCounts);
    assert NonEmptyIps(u.ipSet) <= u.ipSet;
    SubsetCard(NonEmptyIps(u.ipSet), u.ipSet);
  }

  lemma SubsetCard(a: set<string>, b: set<string>)
    requires a <= b
    ensures |a| <= |b|
  {
    assert b == a + (b - a);
  }

  /** A frozen IP bucket of a consistent state never reports negative bytes. */
  lemma FrozenIpBytesNonNegative(key: (string, int), b: IpState)
    requires IpValid(key, b)
    ensures FreezeIp(b).bytesTotal >= 0
  {
  }
}
