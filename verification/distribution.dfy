/**
 * `_distribute_estimated_ip_bytes`: each user bucket's bytes shared out
 * over its source IPs in proportion to their connection counts, added to
 * the estimated bytes of the IP buckets of the same epoch.
 */
module Distribution {
  import opened Arith
  import opened Counts
  import opened Buckets

  /** `up_bytes + down_bytes`. */
  function TotalBytes(u: UserBucket): int {
    u.upBytes + u.downBytes
  }

  /** `conn_total or sum(ip_breakdown.values())`. */
  function Connections(u: UserBucket): int {
    if u.connTotal != 0 then u.connTotal else Sum(u.ipBreakdown)
  }

  /** The bucket is shared out: it has bytes and connections. */
  predicate SharesOut(u: UserBucket) {
    TotalBytes(u) > 0 && Connections(u) > 0
  }

  /** `int((total_bytes * count) / total_connections)`; the float division
      is taken as exact. */
  function Share(u: UserBucket, count: int): int
    requires Connections(u) > 0
  {
    TruncDiv(TotalBytes(u) * count, Connections(u))
  }

  /** `b.estimated_bytes += v`. */
  function AddEstimate(b: IpState, v: int): IpState {
    b.(estimatedBytes := b.estimatedBytes + v)
  }

  /** The inner loop over `ip_breakdown.items()`. */
  function AddShares(ips: map<Key, IpState>, u: UserBucket, ep: int, breakdown: Counts): map<Key, IpState>
    requires Connections(u) > 0
    decreases |breakdown|
  {
    if breakdown == [] then ips
    else
      var k := (breakdown[0].0, ep);
      AddShares(ips[k := AddEstimate(IpAt(ips, k), Share(u, breakdown[0].1))], u, ep, breakdown[1..])
  }

  /** The shares of `breakdown` that go to `ip`. */
  function SharesTo(u: UserBucket, breakdown: Counts, ip: string): int
    requires Connections(u) > 0
  {
    if breakdown == [] then 0
    else (if breakdown[0].0 == ip then Share(u, breakdown[0].1) else 0) + SharesTo(u, breakdown[1..], ip)
  }

  /** The sum of all shares of `breakdown`. */
  function SharesSum(u: UserBucket, breakdown: Counts): int
    requires Connections(u) > 0
  {
    if breakdown == [] then 0 else Share(u, breakdown[0].1) + SharesSum(u, breakdown[1..])
  }

  /** After the inner loop, the bucket of each IP of the breakdown at `ep`
      exists and has gained that IP's shares; nothing else changes. */
  lemma {:induction false} AddSharesAt(ips: map<Key, IpState>, u: UserBucket, ep: int, breakdown: Counts, k: Key)
    requires Connections(u) > 0
    ensures var r := AddShares(ips, u, ep, breakdown);
            && (k in r <==> k in ips || (k.1 == ep && k.0 in Keys(breakdown)))
            && (k in r ==> r[k] == AddEstimate(IpAt(ips, k), if k.1 == ep then SharesTo(u, breakdown, k.0) else 0))
    decreases |breakdown|
  {
    if breakdown != [] {
      var j := (breakdown[0].0, ep);
      var ips1 := ips[j := AddEstimate(IpAt(ips, j), Share(u, breakdown[0].1))];
      AddSharesAt(ips1, u, ep, breakdown[1..], k);
    }
  }

  /** The bucket epoch the shares of `u` go to (`_bucket_epoch(bucket_start)`). */
  function ShareEpoch(u: UserBucket, bucketSeconds: int): int
    requires bucketSeconds > 0
  {
    BucketEpoch(u.bucketStart, bucketSeconds)
  }

  /** One iteration of the outer loop. */
  function DistributeOne(ips: map<Key, IpState>, u: UserBucket, bucketSeconds: int): map<Key, IpState>
    requires bucketSeconds > 0
  {
    if SharesOut(u) then AddShares(ips, u, ShareEpoch(u, bucketSeconds), u.ipBreakdown) else ips
  }

  /** `_distribute_estimated_ip_bytes` over the user buckets in order. */
  function Distribute(ips: map<Key, IpState>, users: seq<UserBucket>, bucketSeconds: int): map<Key, IpState>
    requires bucketSeconds > 0
  {
    if users == [] then ips
    else DistributeOne(Distribute(ips, users[..|users| - 1], bucketSeconds), users[|users| - 1], bucketSeconds)
  }

  /** The total estimate the user buckets give to the IP bucket `k`. */
  function EstimateFor(users: seq<UserBucket>, bucketSeconds: int, k: Key): int
    requires bucketSeconds > 0
  {
    if users == [] then 0
    else
      var u := users[|users| - 1];
      EstimateFor(users[..|users| - 1], bucketSeconds, k)
        + (if SharesOut(u) && ShareEpoch(u, bucketSeconds) == k.1 then SharesTo(u, u.ipBreakdown, k.0) else 0)
  }

  /** Some user bucket shares bytes out to the IP bucket `k`. */
  predicate Reaches(users: seq<UserBucket>, bucketSeconds: int, k: Key)
    requires bucketSeconds > 0
  {
    exists i | 0 <= i < |users| ::
      SharesOut(users[i]) && ShareEpoch(users[i], bucketSeconds) == k.1 && k.0 in Keys(users[i].ipBreakdown)
  }

  /** The distribution creates the IP buckets some user bucket shares out to
      and adds to each IP bucket exactly its total estimate; no other field
      changes. */
  lemma {:induction false} DistributeAt(ips: map<Key, IpState>, users: seq<UserBucket>, bucketSeconds: int, k: Key)
    requires bucketSeconds > 0
    ensures var r := Distribute(ips, users, bucketSeconds);
            && (k in r <==> k in ips || Reaches(users, bucketSeconds, k))
            && (k in r ==> r[k] == AddEstimate(IpAt(ips, k), EstimateFor(users, bucketSeconds, k)))
  {
    if users != [] {
      var init := users[..|users| - 1];
      var u := users[|users| - 1];
      var d := Distribute(ips, init, bucketSeconds);
      DistributeAt(ips, init, bucketSeconds, k);
      assert forall i | 0 <= i < |init| :: init[i] == users[i];
      if SharesOut(u) {
        AddSharesAt(d, u, ShareEpoch(u, bucketSeconds), u.ipBreakdown, k);
      }
      ReachesSnoc(users, bucketSeconds, k);
      if k !in d {
        EstimateUnreached(init, bucketSeconds, k);
      }
    }
  }

  lemma {:induction false} SharesToAbsent(u: UserBucket, breakdown: Counts, ip: string)
    requires Connections(u) > 0 && ip !in Keys(breakdown)
    ensures SharesTo(u, breakdown, ip) == 0
  {
    if breakdown != [] {
      SharesToAbsent(u, breakdown[1..], ip);
    }
  }

  /** An IP bucket no user bucket reaches gets no estimate. */
  lemma {:induction false} EstimateUnreached(users: seq<UserBucket>, bucketSeconds: int, k: Key)
    requires bucketSeconds > 0 && !Reaches(users, bucketSeconds, k)
    ensures EstimateFor(users, bucketSeconds, k) == 0
  {
    if users != [] {
      var u := users[|users| - 1];
      ReachesSnoc(users, bucketSeconds, k);
      EstimateUnreached(users[..|users| - 1], bucketSeconds, k);
      if SharesOut(u) && ShareEpoch(u, bucketSeconds) == k.1 {
        SharesToAbsent(u, u.ipBreakdown, k.0);
      }
    }
  }

  lemma ReachesSnoc(users: seq<UserBucket>, bucketSeconds: int, k: Key)
    requires bucketSeconds > 0 && users != []
    ensures var u := users[|users| - 1];
            Reaches(users, bucketSeconds, k)
            <==> Reaches(users[..|users| - 1], bucketSeconds, k)
                 || (SharesOut(u) && ShareEpoch(u, bucketSeconds) == k.1 && k.0 in Keys(u.ipBreakdown))
  {
    var init := users[..|users| - 1];
    assert forall i | 0 <= i < |init| :: init[i] == users[i];
  }

  // ---------------------------------------------------------------------
  // The bound on the shares

  /** A share never exceeds its proportion: `share * conns <= total * count`. */
  lemma ShareScaled(u: UserBucket, count: int)
    requires SharesOut(u) && count >= 0
    ensures 0 <= Share(u, count)
    ensures Share(u, count) * Connections(u) <= TotalBytes(u) * count
  {
    MulNonNegative(count, TotalBytes(u));
    assert TotalBytes(u) * count == count * TotalBytes(u);
  }

  lemma {:induction false} SharesSumScaled(u: UserBucket, breakdown: Counts)
    requires SharesOut(u) && AllPositive(breakdown)
    ensures 0 <= SharesSum(u, breakdown)
    ensures SharesSum(u, breakdown) * Connections(u) <= TotalBytes(u) * Sum(breakdown)
  {
    if breakdown != [] {
      var t := breakdown[1..];
      assert AllPositive(t) by {
        forall i | 0 <= i < |t| ensures t[i].1 > 0 { assert t[i] == breakdown[i + 1]; }
      }
      SharesSumScaled(u, t);
      ShareScaled(u, breakdown[0].1);
      var s0 := Share(u, breakdown[0].1);
      var st := SharesSum(u, t);
      var n := Connections(u);
      var T := TotalBytes(u);
      assert (s0 + st) * n == s0 * n + st * n;
      assert T * (breakdown[0].1 + Sum(t)) == T * breakdown[0].1 + T * Sum(t);
    }
  }

  /** For a bucket with positive counts whose connection total covers its
      breakdown, the shares handed out add up to at most its bytes. */
  lemma SharesWithinTotal(u: UserBucket)
    requires SharesOut(u) && AllPositive(u.ipBreakdown) && Sum(u.ipBreakdown) <= Connections(u)
    ensures 0 <= SharesSum(u, u.ipBreakdown) <= TotalBytes(u)
  {
    SharesSumScaled(u, u.ipBreakdown);
    ScaledBound(SharesSum(u, u.ipBreakdown), Connections(u), TotalBytes(u), Sum(u.ipBreakdown));
  }

  /** `s * n <= t * c` with `c <= n` gives `s <= t`. */
  lemma ScaledBound(s: int, n: int, t: int, c: int)
    requires n > 0 && t > 0 && c <= n && s * n <= t * c
    ensures s <= t
  {
    assert t * c <= t * n by {
      if c < n {
        MulAtLeast(t, n - c);
        assert t * n - t * c == t * (n - c);
      }
    }
  }

  /** A frozen user bucket of a consistent state meets the bound. */
  lemma FrozenSharesWithinTotal(k: Key, us: UserState)
    requires UserValid(k, us) && SharesOut(FreezeUser(us))
    ensures SharesSum(FreezeUser(us), us.ipCounts) <= TotalBytes(FreezeUser(us))
  {
    SharesWithinTotal(FreezeUser(us));
  }

  // ---------------------------------------------------------------------
  // Estimates are non-negative

  lemma {:induction false} SharesToNonNegative(u: UserBucket, breakdown: Counts, ip: string)
    requires SharesOut(u) && AllPositive(breakdown)
    ensures SharesTo(u, breakdown, ip) >= 0
  {
    if breakdown != [] {
      var t := breakdown[1..];
      assert AllPositive(t) by {
        forall i | 0 <= i < |t| ensures t[i].1 > 0 { assert t[i] == breakdown[i + 1]; }
      }
      ShareScaled(u, breakdown[0].1);
      SharesToNonNegative(u, t, ip);
    }
  }

  /** The estimate every IP bucket receives is non-negative when every
      breakdown holds positive counts. */
  lemma {:induction false} EstimateNonNegative(users: seq<UserBucket>, bucketSeconds: int, k: Key)
    requires bucketSeconds > 0
    requires forall i | 0 <= i < |users| :: AllPositive(users[i].ipBreakdown)
    ensures EstimateFor(users, bucketSeconds, k) >= 0
  {
    if users != [] {
      var u := users[|users| - 1];
      EstimateNonNegative(users[..|users| - 1], bucketSeconds, k);
      if SharesOut(u) {
        SharesToNonNegative(u, u.ipBreakdown, k.0);
      }
    }
  }

  // ---------------------------------------------------------------------
  // The order of the user buckets does not matter

  /** The estimate one user bucket gives to the IP bucket `k`. */
  function EstimateOf(u: UserBucket, bucketSeconds: int, k: Key): int
    requires bucketSeconds > 0
  {
    if SharesOut(u) && ShareEpoch(u, bucketSeconds) == k.1 then SharesTo(u, u.ipBreakdown, k.0) else 0
  }

  lemma {:induction false} EstimateAppend(xs: seq<UserBucket>, ys: seq<UserBucket>, bucketSeconds: int, k: Key)
    requires bucketSeconds > 0
    ensures EstimateFor(xs + ys, bucketSeconds, k) == EstimateFor(xs, bucketSeconds, k) + EstimateFor(ys, bucketSeconds, k)
  {
    if ys != [] {
      var ys' := ys[..|ys| - 1];
      assert (xs + ys)[..|xs + ys| - 1] == xs + ys';
      EstimateAppend(xs, ys', bucketSeconds, k);
    } else {
      assert xs + ys == xs;
    }
  }

  lemma EstimateSingle(u: UserBucket, bucketSeconds: int, k: Key)
    requires bucketSeconds > 0
    ensures EstimateFor([u], bucketSeconds, k) == EstimateOf(u, bucketSeconds, k)
  {
    assert [u][..0] == [];
  }

  /** Visiting the same user buckets in another order gives every IP bucket
      the same estimate. */
  lemma {:induction false} EstimatePermutation(xs: seq<UserBucket>, ys: seq<UserBucket>, bucketSeconds: int, k: Key)
    requires bucketSeconds > 0 && multiset(xs) == multiset(ys)
    ensures EstimateFor(xs, bucketSeconds, k) == EstimateFor(ys, bucketSeconds, k)
    decreases |xs|
  {
    if xs != [] {
      var n := |xs|;
      var x := xs[n - 1];
      assert xs == xs[..n - 1] + [x];
      assert x in multiset(ys);
      var j :| 0 <= j < |ys| && ys[j] == x;
      var rest := ys[..j] + ys[j + 1..];
      assert ys == ys[..j] + [x] + ys[j + 1..];
      assert multiset(xs) == multiset(xs[..n - 1]) + multiset{x};
      assert multiset(ys) == multiset(ys[..j]) + multiset{x} + multiset(ys[j + 1..]);
      assert multiset(rest) == multiset(ys[..j]) + multiset(ys[j + 1..]);
      assert multiset(xs[..n - 1]) == multiset(xs) - multiset{x};
      assert multiset(rest) == multiset(ys) - multiset{x};
      EstimatePermutation(xs[..n - 1], rest, bucketSeconds, k);
      EstimateAppend(ys[..j], ys[j + 1..], bucketSeconds, k);
      EstimateAppend(ys[..j] + [x], ys[j + 1..], bucketSeconds, k);
      EstimateAppend(ys[..j], [x], bucketSeconds, k);
      EstimateAppend(xs[..n - 1], [x], bucketSeconds, k);
      EstimateSingle(x, bucketSeconds, k);
    }
  }

  /** ... and the same set of IP buckets. */
  lemma ReachesPermutation(xs: seq<UserBucket>, ys: seq<UserBucket>, bucketSeconds: int, k: Key)
    requires bucketSeconds > 0 && multiset(xs) == multiset(ys)
    ensures Reaches(xs, bucketSeconds, k) <==> Reaches(ys, bucketSeconds, k)
  {
    forall i | 0 <= i < |xs| ensures xs[i] in ys {
      assert xs[i] in multiset(ys);
    }
    forall i | 0 <= i < |ys| ensures ys[i] in xs {
      assert ys[i] in multiset(xs);
    }
    if Reaches(xs, bucketSeconds, k) {
      var i :| 0 <= i < |xs| && SharesOut(xs[i]) && ShareEpoch(xs[i], bucketSeconds) == k.1 && k.0 in Keys(xs[i].ipBreakdown);
      var j :| 0 <= j < |ys| && ys[j] == xs[i];
    }
    if Reaches(ys, bucketSeconds, k) {
      var i :| 0 <= i < |ys| && SharesOut(ys[i]) && ShareEpoch(ys[i], bucketSeconds) == k.1 && k.0 in Keys(ys[i].ipBreakdown);
      var j :| 0 <= j < |xs| && xs[j] == ys[i];
    }
  }

  /** The distribution does not depend on the order in which the user
      buckets are visited. */
  lemma DistributeOrderFree(ips: map<Key, IpState>, xs: seq<UserBucket>, ys: seq<UserBucket>, bucketSeconds: int)
    requires bucketSeconds > 0 && multiset(xs) == multiset(ys)
    ensures Distribute(ips, xs, bucketSeconds) == Distribute(ips, ys, bucketSeconds)
  {
    var dx := Distribute(ips, xs, bucketSeconds);
    var dy := Distribute(ips, ys, bucketSeconds);
    forall k
      ensures (k in dx <==> k in dy) && (k in dx ==> dx[k] == dy[k])
    {
      DistributeAt(ips, xs, bucketSeconds, k);
      DistributeAt(ips, ys, bucketSeconds, k);
      ReachesPermutation(xs, ys, bucketSeconds, k);
      EstimatePermutation(xs, ys, bucketSeconds, k);
    }
  }
}
