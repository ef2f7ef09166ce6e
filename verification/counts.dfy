/**
 * The counting dictionaries of the metrics aggregator (`ip_counts`,
 * `host_counts`, `users`): `str -> int` dictionaries in insertion order,
 * written as association lists with distinct keys.
 */
module Counts {

  type Counts = seq<(string, int)>

  /** The keys of the dictionary. */
  function Keys(c: Counts): set<string> {
    if c == [] then {} else {c[0].0} + Keys(c[1..])
  }

  /** No key occurs twice. */
  predicate DistinctKeys(c: Counts) {
    c == [] || (c[0].0 !in Keys(c[1..]) && DistinctKeys(c[1..]))
  }

  /** `c.get(k, 0)`. */
  function Count(c: Counts, k: string): int {
    if c == [] then 0
    else if c[0].0 == k then c[0].1
    else Count(c[1..], k)
  }

  /** `sum(c.values())`. */
  function Sum(c: Counts): int {
    if c == [] then 0 else c[0].1 + Sum(c[1..])
  }

  /** `c[k] = c.get(k, 0) + 1`: a present key keeps its place, a new one is
      appended. */
  function Bump(c: Counts, k: string): Counts {
    if c == [] then [(k, 1)]
    else if c[0].0 == k then [(k, c[0].1 + 1)] + c[1..]
    else [c[0]] + Bump(c[1..], k)
  }

  predicate AllPositive(c: Counts) {
    forall i | 0 <= i < |c| :: c[i].1 > 0
  }

  lemma {:induction false} BumpKeys(c: Counts, k: string)
    ensures Keys(Bump(c, k)) == Keys(c) + {k}
  {
    if c != [] && c[0].0 != k {
      BumpKeys(c[1..], k);
      assert Bump(c, k)[1..] == Bump(c[1..], k);
    } else if c != [] {
      assert Bump(c, k)[1..] == c[1..];
    }
  }

  lemma {:induction false} BumpDistinct(c: Counts, k: string)
    requires DistinctKeys(c)
    ensures DistinctKeys(Bump(c, k))
  {
    if c != [] && c[0].0 != k {
      BumpDistinct(c[1..], k);
      BumpKeys(c[1..], k);
      assert Bump(c, k)[1..] == Bump(c[1..], k);
    } else if c != [] {
      assert Bump(c, k)[1..] == c[1..];
    }
  }

  lemma {:induction false} BumpCount(c: Counts, k: string, j: string)
    ensures Count(Bump(c, k), j) == Count(c, j) + (if j == k then 1 else 0)
  {
    if c != [] && c[0].0 != k {
      BumpCount(c[1..], k, j);
      assert Bump(c, k)[1..] == Bump(c[1..], k);
    } else if c != [] {
      assert Bump(c, k)[1..] == c[1..];
    }
  }

  lemma {:induction false} BumpSum(c: Counts, k: string)
    ensures Sum(Bump(c, k)) == Sum(c) + 1
  {
    if c != [] && c[0].0 != k {
      BumpSum(c[1..], k);
      assert Bump(c, k)[1..] == Bump(c[1..], k);
    } else if c != [] {
      assert Bump(c, k)[1..] == c[1..];
    }
  }

  lemma {:induction false} BumpPositive(c: Counts, k: string)
    requires AllPositive(c)
    ensures AllPositive(Bump(c, k))
  {
    if c != [] && c[0].0 != k {
      BumpPositive(c[1..], k);
      assert Bump(c, k)[1..] == Bump(c[1..], k);
    } else if c != [] {
      assert Bump(c, k)[1..] == c[1..];
    }
  }

  /** What `Bump` does to the dictionary. */
  lemma BumpFacts(c: Counts, k: string)
    requires DistinctKeys(c)
    ensures DistinctKeys(Bump(c, k))
    ensures Keys(Bump(c, k)) == Keys(c) + {k}
    ensures Count(Bump(c, k), k) == Count(c, k) + 1
    ensures forall j | j != k :: Count(Bump(c, k), j) == Count(c, j)
    ensures Sum(Bump(c, k)) == Sum(c) + 1
    ensures AllPositive(c) ==> AllPositive(Bump(c, k))
  {
    BumpDistinct(c, k);
    BumpKeys(c, k);
    BumpCount(c, k, k);
    forall j | j != k ensures Count(Bump(c, k), j) == Count(c, j) {
      BumpCount(c, k, j);
    }
    BumpSum(c, k);
    if AllPositive(c) { BumpPositive(c, k); }
  }

  lemma {:induction false} SumNonNegative(c: Counts)
    requires AllPositive(c)
    ensures Sum(c) >= 0
  {
    if c != [] {
      assert AllPositive(c[1..]) by {
        forall i | 0 <= i < |c| - 1 ensures c[1..][i].1 > 0 { assert c[1..][i] == c[i + 1]; }
      }
      SumNonNegative(c[1..]);
    }
  }
}
