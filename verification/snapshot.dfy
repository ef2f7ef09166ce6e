/**
 * `MetricsAggregator.snapshot`: purge, freeze the user buckets, share
 * their bytes out over the IP buckets, freeze those, and list both sorted
 * by `(bucket_start, id)`.
 *
 * The source copies the IP-bucket dictionary but not the bucket objects, so
 * the estimates added during the distribution stay in the aggregator's own
 * IP buckets and are added again by every later `snapshot`; buckets the
 * distribution creates live only in the copy. `AfterSnapshot` is that state
 * as written; `AfterSnapshotIntended` leaves the estimates out of the state.
 */
module Snapshots {
  import opened Counts
  import opened Buckets
  import opened Distribution
  import opened KeyOrder
  import opened Metrics

  /** `MetricsSnapshot`. */
  datatype MetricsSnapshot = MetricsSnapshot(
    generatedAt: int,
    bucketSeconds: int,
    users: seq<UserBucket>,
    ips: seq<IpBucket>)

  /** The sort key `(bucket_start, email)` of a frozen user bucket. */
  function UserOrder(b: UserBucket): Key {
    (b.email, b.bucketStart)
  }

  /** The sort key `(bucket_start, ip)` of a frozen IP bucket. */
  function IpOrder(b: IpBucket): Key {
    (b.ip, b.bucketStart)
  }

  /** The frozen user buckets, in the order of `keys`. */
  function Frozen(users: map<Key, UserState>, keys: seq<Key>): (r: seq<UserBucket>)
    requires forall i | 0 <= i < |keys| :: keys[i] in users
    ensures |r| == |keys|
    ensures forall i | 0 <= i < |keys| :: r[i] == FreezeUser(users[keys[i]])
  {
    seq(|keys|, i requires 0 <= i < |keys| => FreezeUser(users[keys[i]]))
  }

  /** Every IP bucket of the state is still there after the distribution. */
  lemma DistributeKeeps(ips: map<Key, IpState>, users: seq<UserBucket>, bucketSeconds: int)
    requires bucketSeconds > 0
    ensures ips.Keys <= Distribute(ips, users, bucketSeconds).Keys
  {
    forall k | k in ips
      ensures k in Distribute(ips, users, bucketSeconds)
    {
      DistributeAt(ips, users, bucketSeconds, k);
    }
  }

  /** The aggregator after `snapshot` as written: purged, and every IP bucket
      it holds carries the estimate the distribution added to it. */
  function AfterSnapshot(p: Aggregator, users: seq<UserBucket>): (r: Aggregator)
    requires p.bucketSeconds > 0
    ensures r.users == p.users && r.totals == p.totals && r.ips.Keys == p.ips.Keys
    ensures r.bucketSeconds == p.bucketSeconds && r.retention == p.retention
  {
    var d := Distribute(p.ips, users, p.bucketSeconds);
    DistributeKeeps(p.ips, users, p.bucketSeconds);
    p.(ips := map k | k in p.ips :: d[k])
  }

  /** The aggregator after `snapshot` when the copy does not share the
      buckets: purged only. */
  function AfterSnapshotIntended(a: Aggregator, now: int): (r: Aggregator)
    requires a.bucketSeconds > 0
    ensures r.users.Keys <= a.users.Keys && r.ips.Keys <= a.ips.Keys && r.totals == a.totals
  {
    PurgeExpired(a, now)
  }

  /** A frozen user bucket of a consistent state sorts by its key. */
  lemma FrozenUserOrder(a: Aggregator, k: Key)
    requires Valid(a) && k in a.users
    ensures UserOrder(FreezeUser(a.users[k])) == k
  {
  }

  /** The IP buckets after the distribution are filed under their own ip and
      epoch. */
  lemma DistributedIpOrder(p: Aggregator, users: seq<UserBucket>, k: Key)
    requires Valid(p)
    requires k in Distribute(p.ips, users, p.bucketSeconds)
    ensures IpOrder(FreezeIp(Distribute(p.ips, users, p.bucketSeconds)[k])) == k
  {
    DistributeAt(p.ips, users, p.bucketSeconds, k);
  }

  /** Listing frozen buckets by sorted keys lists them sorted by their own
      sort keys. */
  lemma UsersListedSorted(p: Aggregator, keys: seq<Key>)
    requires Valid(p) && Sorted(keys) && forall i | 0 <= i < |keys| :: keys[i] in p.users
    ensures var us := Frozen(p.users, keys);
            forall i, j | 0 <= i < j < |us| :: KeyLess(UserOrder(us[i]), UserOrder(us[j]))
  {
    var us := Frozen(p.users, keys);
    forall i, j | 0 <= i < j < |us|
      ensures KeyLess(UserOrder(us[i]), UserOrder(us[j]))
    {
      FrozenUserOrder(p, keys[i]);
      FrozenUserOrder(p, keys[j]);
    }
  }

  /** `users` lists the frozen user buckets of `p`, each once, sorted by
      `(bucket_start, email)`. */
  predicate UsersListed(p: Aggregator, users: seq<UserBucket>) {
    && |users| == |p.users.Keys|
    && (forall i, j | 0 <= i < j < |users| :: KeyLess(UserOrder(users[i]), UserOrder(users[j])))
    && (forall i | 0 <= i < |users| ::
          UserOrder(users[i]) in p.users && users[i] == FreezeUser(p.users[UserOrder(users[i])]))
    && (forall k | k in p.users :: FreezeUser(p.users[k]) in users)
  }

  /** `ips` lists the frozen IP buckets of `d`, each once, sorted by
      `(bucket_start, ip)`. */
  predicate IpsListed(d: map<Key, IpState>, ips: seq<IpBucket>) {
    && |ips| == |d.Keys|
    && (forall i, j | 0 <= i < j < |ips| :: KeyLess(IpOrder(ips[i]), IpOrder(ips[j])))
    && (forall i | 0 <= i < |ips| :: IpOrder(ips[i]) in d && ips[i] == FreezeIp(d[IpOrder(ips[i])]))
    && (forall k | k in d :: FreezeIp(d[k]) in ips)
  }

  /** `[bucket.freeze() for bucket in ...]` followed by the sort. */
  method ListUsers(p: Aggregator) returns (users: seq<UserBucket>)
    requires Valid(p)
    ensures UsersListed(p, users)
  {
    var userKeys := SortKeys(p.users.Keys);
    users := Frozen(p.users, userKeys);
    UsersListedSorted(p, userKeys);
    forall i | 0 <= i < |users|
      ensures UserOrder(users[i]) in p.users && users[i] == FreezeUser(p.users[UserOrder(users[i])])
    {
      FrozenUserOrder(p, userKeys[i]);
    }
    forall k | k in p.users
      ensures FreezeUser(p.users[k]) in users
    {
      var i :| 0 <= i < |userKeys| && userKeys[i] == k;
      assert users[i] == FreezeUser(p.users[k]);
    }
  }

  /** The frozen IP buckets of `d`, in the order of `keys`. */
  function FrozenIps(d: map<Key, IpState>, keys: seq<Key>): (r: seq<IpBucket>)
    requires forall i | 0 <= i < |keys| :: keys[i] in d
    ensures |r| == |keys|
    ensures forall i | 0 <= i < |keys| :: r[i] == FreezeIp(d[keys[i]])
  {
    seq(|keys|, i requires 0 <= i < |keys| => FreezeIp(d[keys[i]]))
  }

  /** Freezing the distributed IP buckets by their sorted keys lists them. */
  lemma FrozenIpsListed(p: Aggregator, users: seq<UserBucket>, keys: seq<Key>)
    requires Valid(p)
    requires var d := Distribute(p.ips, users, p.bucketSeconds);
             Sorted(keys) && |keys| == |d.Keys| && forall k :: k in keys <==> k in d
    ensures var d := Distribute(p.ips, users, p.bucketSeconds);
            IpsListed(d, FrozenIps(d, keys))
  {
    var d := Distribute(p.ips, users, p.bucketSeconds);
    var ips := FrozenIps(d, keys);
    forall i | 0 <= i < |ips|
      ensures IpOrder(ips[i]) == keys[i]
    {
      DistributedIpOrder(p, users, keys[i]);
    }
    forall i, j | 0 <= i < j < |ips|
      ensures KeyLess(IpOrder(ips[i]), IpOrder(ips[j]))
    {
      assert KeyLess(keys[i], keys[j]);
    }
    forall i | 0 <= i < |ips|
      ensures IpOrder(ips[i]) in d && ips[i] == FreezeIp(d[IpOrder(ips[i])])
    {
    }
    forall k | k in d
      ensures FreezeIp(d[k]) in ips
    {
      var i :| 0 <= i < |keys| && keys[i] == k;
      assert ips[i] == FreezeIp(d[k]);
    }
  }

  /** The IP buckets after the distribution, frozen and sorted. */
  method ListIps(p: Aggregator, users: seq<UserBucket>) returns (ips: seq<IpBucket>)
    requires Valid(p)
    ensures IpsListed(Distribute(p.ips, users, p.bucketSeconds), ips)
  {
    var d := Distribute(p.ips, users, p.bucketSeconds);
    var ipKeys := SortKeys(d.Keys);
    ips := FrozenIps(d, ipKeys);
    FrozenIpsListed(p, users, ipKeys);
  }

  /** `snapshot` as written: the users of the purged state and the IP
      buckets after the distribution, both listed sorted; the state left
      behind keeps the estimates. */
  method Snapshot(a: Aggregator, now: int) returns (snap: MetricsSnapshot, next: Aggregator)
    requires Valid(a)
    ensures snap.generatedAt == now && snap.bucketSeconds == a.bucketSeconds
    ensures UsersListed(PurgeExpired(a, now), snap.users)
    ensures IpsListed(Distribute(PurgeExpired(a, now).ips, snap.users, a.bucketSeconds), snap.ips)
    ensures next == AfterSnapshot(PurgeExpired(a, now), snap.users)
  {
    var p := PurgeExpired(a, now);
    PurgeByKey(a, BucketEpoch(now - a.retention, a.bucketSeconds));
    var users := ListUsers(p);
    var ips := ListIps(p, users);
    snap := MetricsSnapshot(now, a.bucketSeconds, users, ips);
    next := AfterSnapshot(p, users);
  }

  /** `snapshot` with the buckets copied: the same lists, and the state left
      behind is only purged. */
  method SnapshotIntended(a: Aggregator, now: int) returns (snap: MetricsSnapshot, next: Aggregator)
    requires Valid(a)
    ensures snap.generatedAt == now && snap.bucketSeconds == a.bucketSeconds
    ensures UsersListed(PurgeExpired(a, now), snap.users)
    ensures IpsListed(Distribute(PurgeExpired(a, now).ips, snap.users, a.bucketSeconds), snap.ips)
    ensures next == AfterSnapshotIntended(a, now)
  {
    var p := PurgeExpired(a, now);
    PurgeByKey(a, BucketEpoch(now - a.retention, a.bucketSeconds));
    var users := ListUsers(p);
    var ips := ListIps(p, users);
    snap := MetricsSnapshot(now, a.bucketSeconds, users, ips);
    next := p;
  }
}
