/**
 * What `snapshot` does to the aggregator: the state stays consistent, and
 * the estimates it adds to existing IP buckets persist, so a second
 * `snapshot` at the same time reports them twice. The intended snapshot,
 * which leaves the state purged only, reports the same lists every time.
 */
module SnapshotProps {
  import opened Counts
  import opened Buckets
  import opened Distribution
  import opened Metrics
  import opened Snapshots
  import opened KeyOrder
  import opened Text
  import opened Arith

  /** The frozen user buckets of a consistent state have positive counts. */
  lemma ListedBreakdownsPositive(p: Aggregator, users: seq<UserBucket>)
    requires Valid(p) && UsersListed(p, users)
    ensures forall i | 0 <= i < |users| :: AllPositive(users[i].ipBreakdown)
  {
  }

  /** Each IP bucket the state keeps gains exactly its estimate. */
  lemma AfterSnapshotEstimates(p: Aggregator, users: seq<UserBucket>, k: Key)
    requires p.bucketSeconds > 0 && k in p.ips
    ensures AfterSnapshot(p, users).ips[k]
            == AddEstimate(p.ips[k], EstimateFor(users, p.bucketSeconds, k))
  {
    DistributeAt(p.ips, users, p.bucketSeconds, k);
  }

  /** `snapshot` keeps the aggregator consistent. */
  lemma AfterSnapshotValid(p: Aggregator, users: seq<UserBucket>)
    requires Valid(p) && UsersListed(p, users)
    ensures Valid(AfterSnapshot(p, users))
  {
    var r := AfterSnapshot(p, users);
    ListedBreakdownsPositive(p, users);
    forall k | k in r.ips
      ensures IpValid(k, r.ips[k]) && k.1 % r.bucketSeconds == 0
    {
      AfterSnapshotEstimates(p, users, k);
      EstimateNonNegative(users, p.bucketSeconds, k);
    }
  }

  /** A purged state is not purged further at the same time. */
  lemma PurgedStaysPurged(a: Aggregator, now: int)
    requires a.bucketSeconds > 0
    ensures PurgeExpired(PurgeExpired(a, now), now) == PurgeExpired(a, now)
  {
    PurgeIdempotent(a, BucketEpoch(now - a.retention, a.bucketSeconds));
  }

  /** The state `snapshot` leaves behind is not purged further at the same
      time, and freezes the same user buckets. */
  lemma AfterSnapshotPurged(a: Aggregator, now: int, users: seq<UserBucket>)
    requires a.bucketSeconds > 0
    ensures var p := PurgeExpired(a, now);
            var n := AfterSnapshot(p, users);
            PurgeExpired(n, now) == n && n.users == p.users
  {
    var p := PurgeExpired(a, now);
    var n := AfterSnapshot(p, users);
    var cutoff := BucketEpoch(now - a.retention, a.bucketSeconds);
    forall k | k in n.ips
      ensures n.ips[k].epoch >= cutoff
    {
      AfterSnapshotEstimates(p, users, k);
    }
    assert Purge(n, cutoff).ips == n.ips;
  }

  /** As written: after one `snapshot`, a second at the same time hands the
      same estimate to each existing IP bucket again, on top of the first. */
  lemma SecondSnapshotAddsAgain(a: Aggregator, now: int, users: seq<UserBucket>, k: Key)
    requires a.bucketSeconds > 0
    requires k in PurgeExpired(a, now).ips
    ensures var p := PurgeExpired(a, now);
            var n := AfterSnapshot(p, users);
            var e := EstimateFor(users, a.bucketSeconds, k);
            && k in Distribute(p.ips, users, a.bucketSeconds)
            && Distribute(p.ips, users, a.bucketSeconds)[k].estimatedBytes == p.ips[k].estimatedBytes + e
            && k in Distribute(PurgeExpired(n, now).ips, users, a.bucketSeconds)
            && Distribute(PurgeExpired(n, now).ips, users, a.bucketSeconds)[k].estimatedBytes
               == p.ips[k].estimatedBytes + 2 * e
  {
    var p := PurgeExpired(a, now);
    var n := AfterSnapshot(p, users);
    AfterSnapshotPurged(a, now, users);
    DistributeAt(p.ips, users, a.bucketSeconds, k);
    AfterSnapshotEstimates(p, users, k);
    DistributeAt(n.ips, users, a.bucketSeconds, k);
  }

  /** As written: an IP bucket without measured bytes that receives a
      positive estimate reports more bytes on the second `snapshot` than on
      the first, though nothing was recorded in between. */
  lemma RepeatedSnapshotGrows(a: Aggregator, now: int, users: seq<UserBucket>, k: Key)
    requires a.bucketSeconds > 0
    requires k in PurgeExpired(a, now).ips && PurgeExpired(a, now).ips[k].measuredBytes == 0
    requires EstimateFor(users, a.bucketSeconds, k) > 0
    ensures var p := PurgeExpired(a, now);
            var n := AfterSnapshot(p, users);
            var d1 := Distribute(p.ips, users, a.bucketSeconds);
            var d2 := Distribute(PurgeExpired(n, now).ips, users, a.bucketSeconds);
            k in d1 && k in d2 &&
            var first := FreezeIp(d1[k]);
            var second := FreezeIp(d2[k]);
            && first.byteSource == "estimated" && second.byteSource == "estimated"
            && second.bytesTotal == first.bytesTotal + EstimateFor(users, a.bucketSeconds, k)
            && second.bytesTotal > first.bytesTotal
  {
    var p := PurgeExpired(a, now);
    var n := AfterSnapshot(p, users);
    SecondSnapshotAddsAgain(a, now, users, k);
    DistributeAt(p.ips, users, a.bucketSeconds, k);
    AfterSnapshotPurged(a, now, users);
    AfterSnapshotEstimates(p, users, k);
    DistributeAt(n.ips, users, a.bucketSeconds, k);
  }

  /** Intended: the state after one snapshot is a fixed point, so a second
      snapshot at the same time purges nothing, freezes the same buckets and
      distributes onto the same IP buckets: it reports the same lists. */
  lemma IntendedSnapshotStable(a: Aggregator, now: int, users: seq<UserBucket>)
    requires a.bucketSeconds > 0
    ensures var n := AfterSnapshotIntended(a, now);
            && AfterSnapshotIntended(n, now) == n
            && PurgeExpired(n, now) == PurgeExpired(a, now)
            && Distribute(PurgeExpired(n, now).ips, users, a.bucketSeconds)
               == Distribute(PurgeExpired(a, now).ips, users, a.bucketSeconds)
  {
    PurgedStaysPurged(a, now);
  }

  /** Sorted by `(bucket_start, email)` without repetition. */
  predicate SortedUsers(xs: seq<UserBucket>) {
    forall i, j | 0 <= i < j < |xs| :: KeyLess(UserOrder(xs[i]), UserOrder(xs[j]))
  }

  /** Every bucket after the head sorts after it. */
  lemma SortedAfterHead(xs: seq<UserBucket>, x: UserBucket)
    requires SortedUsers(xs) && xs != [] && x in xs[1..]
    ensures KeyLess(UserOrder(xs[0]), UserOrder(x))
  {
    var i :| 1 <= i < |xs| && xs[i] == x;
  }

  lemma SortedHeadLeast(xs: seq<UserBucket>, x: UserBucket)
    requires SortedUsers(xs) && xs != [] && x in xs && x != xs[0]
    ensures KeyLess(UserOrder(xs[0]), UserOrder(x))
  {
    assert x in xs[1..];
    SortedAfterHead(xs, x);
  }

  /** Two sorted lists of the same buckets start alike. */
  lemma SortedHeadsEqual(xs: seq<UserBucket>, ys: seq<UserBucket>)
    requires SortedUsers(xs) && SortedUsers(ys) && xs != [] && ys != []
    requires forall x :: x in xs <==> x in ys
    ensures xs[0] == ys[0]
  {
    assert xs[0] in ys && ys[0] in xs;
    if xs[0] != ys[0] {
      SortedHeadLeast(xs, ys[0]);
      SortedHeadLeast(ys, xs[0]);
      KeyLessAsymmetric(UserOrder(xs[0]), UserOrder(ys[0]));
    }
  }

  lemma KeyLessAsymmetric(a: Key, b: Key)
    ensures KeyLess(a, b) ==> !KeyLess(b, a)
  {
    if KeyLess(a, b) && a.1 == b.1 {
      StrLessAsymmetric(a.0, b.0);
    }
  }

  /** A sorted list without repetition is determined by its elements and
      its length. */
  lemma {:induction false} SortedUnique(xs: seq<UserBucket>, ys: seq<UserBucket>)
    requires SortedUsers(xs) && SortedUsers(ys) && |xs| == |ys|
    requires forall x :: x in xs <==> x in ys
    ensures xs == ys
    decreases |xs|
  {
    if xs != [] && ys != [] {
      SortedHeadsEqual(xs, ys);
      var xs', ys' := xs[1..], ys[1..];
      forall x
        ensures x in xs' <==> x in ys'
      {
        if x in xs' {
          SortedAfterHead(xs, x);
          KeyLessIrreflexive(UserOrder(x));
          assert x in ys && x != ys[0];
        }
        if x in ys' {
          SortedAfterHead(ys, x);
          KeyLessIrreflexive(UserOrder(x));
          assert x in xs && x != xs[0];
        }
      }
      SortedUnique(xs', ys');
      assert xs == [xs[0]] + xs' && ys == [ys[0]] + ys';
    }
  }

  /** The user list of `snapshot` is determined by the state it is taken of. */
  lemma UsersListedUnique(p: Aggregator, xs: seq<UserBucket>, ys: seq<UserBucket>)
    requires UsersListed(p, xs) && UsersListed(p, ys)
    ensures xs == ys
  {
    forall x
      ensures x in xs <==> x in ys
    {
      if x in xs {
        var i :| 0 <= i < |xs| && xs[i] == x;
      }
      if x in ys {
        var i :| 0 <= i < |ys| && ys[i] == x;
      }
    }
    SortedUnique(xs, ys);
  }

  /** As written, for two `snapshot` calls in a row at the same time: the
      second lists the same users, and reports every IP bucket without
      measured bytes that the first gave a positive estimate with that
      estimate added once more. */
  lemma SnapshotTwiceGrows(a: Aggregator, now: int, users1: seq<UserBucket>, users2: seq<UserBucket>, k: Key)
    requires Valid(a)
    requires UsersListed(PurgeExpired(a, now), users1)
    requires UsersListed(PurgeExpired(AfterSnapshot(PurgeExpired(a, now), users1), now), users2)
    requires k in PurgeExpired(a, now).ips && PurgeExpired(a, now).ips[k].measuredBytes == 0
    requires EstimateFor(users1, a.bucketSeconds, k) > 0
    ensures users2 == users1
    ensures var n := AfterSnapshot(PurgeExpired(a, now), users1);
            var d1 := Distribute(PurgeExpired(a, now).ips, users1, a.bucketSeconds);
            var d2 := Distribute(PurgeExpired(n, now).ips, users2, a.bucketSeconds);
            k in d1 && k in d2 && FreezeIp(d2[k]).bytesTotal > FreezeIp(d1[k]).bytesTotal
  {
    var p := PurgeExpired(a, now);
    AfterSnapshotPurged(a, now, users1);
    var n := AfterSnapshot(p, users1);
    assert PurgeExpired(n, now).users == p.users;
    assert UsersListed(p, users2);
    UsersListedUnique(p, users1, users2);
    RepeatedSnapshotGrows(a, now, users1, k);
  }

  /** One user bucket with all of its bytes over a single connection hands
      all of them to the IP bucket of that connection. */
  lemma SingleConnectionEstimate(u: UserBucket, bucketSeconds: int, ip: string)
    requires bucketSeconds > 0 && u.bucketStart % bucketSeconds == 0
    requires TotalBytes(u) > 0 && u.connTotal == 1 && u.ipBreakdown == [(ip, 1)]
    ensures EstimateFor([u], bucketSeconds, (ip, u.bucketStart)) == TotalBytes(u)
  {
    EstimateSingle(u, bucketSeconds, (ip, u.bucketStart));
    BucketEpochAligned(u.bucketStart, bucketSeconds);
    assert ShareEpoch(u, bucketSeconds) == u.bucketStart;
    assert Connections(u) == 1;
    assert Share(u, 1) == TotalBytes(u);
    assert u.ipBreakdown[1..] == [];
    assert SharesTo(u, u.ipBreakdown, ip) == Share(u, 1) + SharesTo(u, [], ip);
  }
}
