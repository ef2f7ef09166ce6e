/**
 * The order of `snapshot`'s output lists: by `(bucket_start, id)`, the id
 * compared as Python compares strings.
 */
module KeyOrder {
  import opened Text

  /** `(bucket_start, id) < (bucket_start', id')` for a key `(id, epoch)`. */
  predicate KeyLess(a: (string, int), b: (string, int)) {
    a.1 < b.1 || (a.1 == b.1 && StrLess(a.0, b.0))
  }

  lemma KeyLessTransitive(a: (string, int), b: (string, int), c: (string, int))
    requires KeyLess(a, b) && KeyLess(b, c)
    ensures KeyLess(a, c)
  {
    if a.1 == b.1 == c.1 {
      StrLessTransitive(a.0, b.0, c.0);
    }
  }

  lemma KeyLessTotal(a: (string, int), b: (string, int))
    ensures a == b || KeyLess(a, b) || KeyLess(b, a)
  {
    StrLessTotal(a.0, b.0);
  }

  lemma KeyLessIrreflexive(a: (string, int))
    ensures !KeyLess(a, a)
  {
    StrLessIrreflexive(a.0);
  }

  /** Strictly increasing, hence without repetitions. */
  predicate Sorted(ks: seq<(string, int)>) {
    forall i, j | 0 <= i < j < |ks| :: KeyLess(ks[i], ks[j])
  }

  predicate IsLeast(k: (string, int), s: set<(string, int)>) {
    k in s && forall j | j in s :: !KeyLess(j, k)
  }

  /** Every non-empty finite set of keys has a least element. */
  lemma {:induction false} LeastExists(s: set<(string, int)>)
    requires s != {}
    ensures exists k :: IsLeast(k, s)
    decreases |s|
  {
    var x :| x in s;
    var rest := s - {x};
    if rest == {} {
      assert s == {x};
      KeyLessIrreflexive(x);
      assert IsLeast(x, s);
    } else {
      LeastExists(rest);
      var m :| IsLeast(m, rest);
      if KeyLess(x, m) {
        forall j | j in s
          ensures !KeyLess(j, x)
        {
          if j == x {
            KeyLessIrreflexive(x);
          } else if KeyLess(j, x) {
            KeyLessTransitive(j, x, m);
          }
        }
        assert IsLeast(x, s);
      } else {
        forall j | j in s
          ensures !KeyLess(j, m)
        {
        }
        assert IsLeast(m, s);
      }
    }
  }

  /** The keys of `s` in increasing order (`sorted`), by repeatedly taking
      the least remaining key. */
  method SortKeys(s: set<(string, int)>) returns (ks: seq<(string, int)>)
    ensures Sorted(ks)
    ensures forall k :: k in ks <==> k in s
    ensures |ks| == |s|
  {
    ks := [];
    var rest := s;
    while rest != {}
      invariant Sorted(ks)
      invariant forall k :: k in s <==> k in ks || k in rest
      invariant forall i | 0 <= i < |ks| :: ks[i] !in rest
      invariant forall i, j | 0 <= i < |ks| && j in rest :: KeyLess(ks[i], j)
      invariant |ks| + |rest| == |s|
      decreases |rest|
    {
      LeastExists(rest);
      var m :| IsLeast(m, rest);
      forall j | j in rest - {m}
        ensures KeyLess(m, j)
      {
        KeyLessTotal(m, j);
      }
      ks := ks + [m];
      rest := rest - {m};
    }
  }
}
