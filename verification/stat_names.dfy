/**
 * Per-user traffic counters of the Xray stats service: the stat-name parser
 * (`_parse_user_stat_name`) and the fold of `query_user_traffic` over the
 * `(name, value)` pairs of a query response.
 */
module StatNames {
  import opened Wrappers
  import opened Text

  const Sep := ">>>"

  /** `_parse_user_stat_name`: `(email, metric)`, or `("", "")` when the name
      is not a per-user stat. */
  function ParseUserStatName(name: string): (r: (string, string))
    ensures var parts := Split(name, Sep);
            |parts| < 3 || Lower(parts[0]) != "user" ==> r == ("", "")
    ensures var parts := Split(name, Sep);
            |parts| == 3 && Lower(parts[0]) == "user" ==> r == (parts[1], Lower(parts[2]))
    ensures var parts := Split(name, Sep);
            |parts| > 3 && Lower(parts[0]) == "user" && Lower(parts[2]) != "traffic" ==> r == ("", "")
    ensures var parts := Split(name, Sep);
            |parts| > 3 && Lower(parts[0]) == "user" && Lower(parts[2]) == "traffic" ==> r == (parts[1], Lower(parts[3]))
  {
    var parts := Split(name, Sep);
    if |parts| < 3 then ("", "")
    else if Lower(parts[0]) != "user" then ("", "")
    else if |parts| == 3 then (parts[1], Lower(parts[2]))
    else if Lower(parts[2]) != "traffic" then ("", "")
    else (parts[1], Lower(parts[3]))
  }

  /** `>>>` does not occur in `s`. */
  predicate NoSep(s: string) {
    forall k | 0 <= k <= |s| :: !StartsWith(s[k..], Sep)
  }

  /** `a` can stand before a separator without the two running together:
      it holds no `>>>` and does not end in `>`. */
  predicate CleanBeforeSep(a: string) {
    NoSep(a) && (a == "" || a[|a| - 1] != '>')
  }

  /** A text without the separator splits into itself. */
  lemma SplitNoSep(s: string)
    requires NoSep(s)
    ensures Split(s, Sep) == [s]
  {
    FindSubNone(s, Sep, 0);
  }

  lemma {:induction false} FindSubNone(s: string, sep: string, i: nat)
    requires i <= |s| && forall k | i <= k <= |s| :: !StartsWith(s[k..], sep)
    ensures FindSub(s, sep, i).None?
    decreases |s| - i
  {
    if i < |s| {
      FindSubNone(s, sep, i + 1);
    }
  }

  /** Splitting `a + ">>>" + b` takes `a` as the first part when `a` is clean. */
  lemma {:induction false} SplitCons(a: string, b: string)
    requires CleanBeforeSep(a)
    ensures Split(a + Sep + b, Sep) == [a] + Split(b, Sep)
  {
    var s := a + Sep + b;
    assert s[|a|..][..3] == Sep;
    forall k | 0 <= k < |a|
      ensures !StartsWith(s[k..], Sep)
    {
      if k + 3 <= |a| {
        assert s[k..][..3] == a[k..][..3];
        assert !StartsWith(a[k..], Sep);
      } else {
        assert s[k..][|a| - 1 - k] == a[|a| - 1];
      }
    }
    FindSubFirst(s, Sep, 0, |a|);
    assert s[..|a|] == a;
    assert s[|a| + 3..] == b;
  }

  /** `find` stops at the first occurrence. */
  lemma {:induction false} FindSubFirst(s: string, sep: string, i: nat, j: nat)
    requires i <= j <= |s| && StartsWith(s[j..], sep)
    requires forall k | i <= k < j :: !StartsWith(s[k..], sep)
    ensures FindSub(s, sep, i) == Some(j)
    decreases j - i
  {
    if i < j {
      FindSubFirst(s, sep, i + 1, j);
    }
  }

  /** Clean parts joined by the separator split back into themselves. */
  lemma {:induction false} SplitTwo(t: string, d: string)
    requires CleanBeforeSep(t) && NoSep(d)
    ensures Split(t + Sep + d, Sep) == [t, d]
  {
    SplitNoSep(d);
    SplitCons(t, d);
  }

  lemma {:induction false} SplitThree(e: string, t: string, d: string)
    requires CleanBeforeSep(e) && CleanBeforeSep(t) && NoSep(d)
    ensures Split(e + Sep + (t + Sep + d), Sep) == [e, t, d]
  {
    SplitTwo(t, d);
    SplitCons(e, t + Sep + d);
  }

  lemma {:induction false} SplitFour(u: string, e: string, t: string, d: string)
    requires CleanBeforeSep(u) && CleanBeforeSep(e) && CleanBeforeSep(t) && NoSep(d)
    ensures Split(u + Sep + e + Sep + t + Sep + d, Sep) == [u, e, t, d]
  {
    var mid := e + Sep + (t + Sep + d);
    SplitThree(e, t, d);
    SplitCons(u, mid);
    JoinAssoc(u, e, t, d);
  }

  lemma JoinAssoc(u: string, e: string, t: string, d: string)
    ensures u + Sep + e + Sep + t + Sep + d == u + Sep + (e + Sep + (t + Sep + d))
  {
  }

  /** The parts of `user>>>EMAIL>>>traffic>>>DIRECTION`. */
  lemma {:induction false} SplitStatName(e: string, d: string)
    requires CleanBeforeSep(e) && NoSep(d)
    ensures Split("user" + Sep + e + Sep + "traffic" + Sep + d, Sep) == ["user", e, "traffic", d]
  {
    NoSepLiteral("user");
    NoSepLiteral("traffic");
    SplitFour("user", e, "traffic", d);
  }

  /** The names the service reports, `user>>>EMAIL>>>traffic>>>DIRECTION`,
      parse back to the email and the lower-cased direction, for every email
      that holds no `>>>` and does not end in `>`. */
  lemma {:induction false} StatNameRoundTrip(e: string, d: string)
    requires CleanBeforeSep(e) && NoSep(d)
    ensures ParseUserStatName("user" + Sep + e + Sep + "traffic" + Sep + d) == (e, Lower(d))
  {
    SplitStatName(e, d);
    assert Lower("user") == "user" && Lower("traffic") == "traffic";
  }

  lemma NoSepLiteral(w: string)
    requires w == "user" || w == "traffic"
    ensures CleanBeforeSep(w)
  {
    forall k | 0 <= k <= |w|
      ensures !StartsWith(w[k..], Sep)
    {
      if k < |w| {
        assert w[k] != '>';
      }
    }
  }

  lemma AngleTraffic()
    ensures CleanBeforeSep(">traffic") && Lower(">traffic") != "traffic"
  {
    var w := ">traffic";
    forall k | 0 <= k <= |w|
      ensures !StartsWith(w[k..], Sep)
    {
      if 0 < k < |w| {
        assert w[k] != '>';
      } else if k == 0 {
        assert w[k..][1] != '>';
      }
    }
    assert Lower(w)[0] == '>';
  }

  /** A trailing `>` on the email moves into the separator. */
  lemma AngleShift(a: string, d: string)
    ensures "user" + Sep + (a + ">") + Sep + "traffic" + Sep + d
         == "user" + Sep + a + Sep + ">traffic" + Sep + d
  {
    assert ">" + Sep == Sep + ">";
    assert (a + ">") + Sep + "traffic" == a + Sep + ">traffic";
  }

  /** The round trip fails for every email ending in `>`: the first three of
      the four `>` after the email's stem are taken as the separator, so the
      third part is `>traffic` and the name is rejected. */
  lemma {:induction false} RoundTripNeedsCleanEnd(a: string, d: string)
    requires CleanBeforeSep(a) && NoSep(d)
    ensures ParseUserStatName("user" + Sep + (a + ">") + Sep + "traffic" + Sep + d) == ("", "")
  {
    AngleTraffic();
    NoSepLiteral("user");
    SplitFour("user", a, ">traffic", d);
    AngleShift(a, d);
    assert Lower("user") == "user";
  }

  /** `UserTrafficSnapshot`: the cumulative counters of one user. */
  datatype UserTraffic = UserTraffic(uplink: int, downlink: int)

  /** A stat the fold keeps: a non-empty email and an `uplink` or `downlink`
      direction. */
  predicate Accepted(name: string) {
    var (email, direction) := ParseUserStatName(name);
    email != "" && (direction == "uplink" || direction == "downlink")
  }

  /** The emails that some accepted stat of `stats` reports, front to back. */
  function ReportedEmails(stats: seq<(string, int)>): (r: set<string>)
    ensures forall e | e in r :: e != ""
  {
    if stats == [] then {}
    else
      var last := stats[|stats| - 1];
      ReportedEmails(stats[..|stats| - 1])
        + (if Accepted(last.0) then {ParseUserStatName(last.0).0} else {})
  }

  /** The value of the last stat for `email` and `direction`, or 0 when there
      is none. */
  function LastReported(stats: seq<(string, int)>, email: string, direction: string): int {
    if stats == [] then 0
    else
      var last := stats[|stats| - 1];
      if ParseUserStatName(last.0) == (email, direction) then last.1
      else LastReported(stats[..|stats| - 1], email, direction)
  }

  /** An email is reported exactly when some stat naming it is accepted. */
  lemma {:induction false} ReportedEmailsIff(stats: seq<(string, int)>, e: string)
    ensures e in ReportedEmails(stats)
        <==> exists i | 0 <= i < |stats| :: Accepted(stats[i].0) && ParseUserStatName(stats[i].0).0 == e
  {
    if stats != [] {
      var init := stats[..|stats| - 1];
      ReportedEmailsIff(init, e);
      assert forall i | 0 <= i < |init| :: init[i] == stats[i];
    }
  }

  /** A stat reporting `(email, direction)` whose value no later stat for the
      same pair overrides determines the result. */
  lemma {:induction false} LastReportedIs(stats: seq<(string, int)>, email: string, direction: string, i: nat)
    requires i < |stats| && ParseUserStatName(stats[i].0) == (email, direction)
    requires forall j | i < j < |stats| :: ParseUserStatName(stats[j].0) != (email, direction)
    ensures LastReported(stats, email, direction) == stats[i].1
  {
    if i < |stats| - 1 {
      var init := stats[..|stats| - 1];
      assert init[i] == stats[i];
      assert forall j | i < j < |init| :: init[j] == stats[j];
      LastReportedIs(init, email, direction, i);
    }
  }

  /** With no stat for the pair, the direction reads 0. */
  lemma {:induction false} LastReportedNone(stats: seq<(string, int)>, email: string, direction: string)
    requires forall j | 0 <= j < |stats| :: ParseUserStatName(stats[j].0) != (email, direction)
    ensures LastReported(stats, email, direction) == 0
  {
    if stats != [] {
      var init := stats[..|stats| - 1];
      assert forall j | 0 <= j < |init| :: init[j] == stats[j];
      LastReportedNone(init, email, direction);
    }
  }

  /** An email no accepted stat reports reads 0 in both directions. */
  lemma {:induction false} UnreportedReadsZero(stats: seq<(string, int)>, email: string, direction: string)
    requires email != "" && (direction == "uplink" || direction == "downlink")
    requires email !in ReportedEmails(stats)
    ensures LastReported(stats, email, direction) == 0
  {
    if stats != [] {
      UnreportedReadsZero(stats[..|stats| - 1], email, direction);
    }
  }

  /** The fold of `query_user_traffic` over the `(name, value)` pairs of a
      response: each reported email once, each direction holding its last
      reported value and 0 when never reported. */
  method FoldUserTraffic(stats: seq<(string, int)>) returns (buckets: map<string, UserTraffic>)
    ensures buckets.Keys == ReportedEmails(stats)
    ensures forall e | e in buckets ::
              buckets[e] == UserTraffic(LastReported(stats, e, "uplink"), LastReported(stats, e, "downlink"))
  {
    buckets := map[];
    var i := 0;
    while i < |stats|
      invariant i <= |stats|
      invariant buckets.Keys == ReportedEmails(stats[..i])
      invariant forall e | e in buckets ::
                  buckets[e] == UserTraffic(LastReported(stats[..i], e, "uplink"), LastReported(stats[..i], e, "downlink"))
    {
      var (email, direction) := ParseUserStatName(stats[i].0);
      assert stats[..i + 1][..i] == stats[..i];
      if email != "" && (direction == "uplink" || direction == "downlink") {
        if email !in buckets {
          UnreportedReadsZero(stats[..i], email, "uplink");
          UnreportedReadsZero(stats[..i], email, "downlink");
        }
        var snapshot := if email in buckets then buckets[email] else UserTraffic(0, 0);
        if direction == "uplink" {
          snapshot := snapshot.(uplink := stats[i].1);
        } else {
          snapshot := snapshot.(downlink := stats[i].1);
        }
        buckets := buckets[email := snapshot];
      }
      i := i + 1;
    }
    assert stats[..i] == stats;
  }
}
