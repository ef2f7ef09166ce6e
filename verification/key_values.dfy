/**
 * Scanners for the two patterns applied to the free text after the detour
 * tag of an access-log line:
 *   _KEY_VALUE_PATTERN = (?P<key>[A-Za-z0-9_\-]+):\s*(?P<value>.+?)(?=(?:\s+[A-Za-z0-9_\-]+:)|$)
 *   _EMAIL_PATTERN     = email:\s*(?P<email>\S+)
 * Each is written as the backtracking matcher `re` runs, and `finditer` /
 * `search` as leftmost scans over match positions.
 */
module KeyValues {
  import opened Wrappers
  import opened Text

  predicate IsKeyChar(c: char) {
    ('A' <= c <= 'Z') || ('a' <= c <= 'z') || ('0' <= c <= '9') || c == '_' || c == '-'
  }

  /** `$` without MULTILINE: the end, or just before a final newline. */
  predicate AtEnd(s: string, e: nat) {
    e == |s| || (e + 1 == |s| && s[e] == '\n')
  }

  /** The lookahead `\s+[A-Za-z0-9_\-]+:` at `e`. Whitespace, key characters
      and `:` are disjoint, so each greedy run must be taken whole. */
  predicate KeyAhead(s: string, e: nat)
    requires e <= |s|
  {
    && e < |s| && IsSpace(s[e])
    && var w := RunEnd(s, e, IsSpace);
       var k := RunEnd(s, w, IsKeyChar);
       k > w && k < |s| && s[k] == ':'
  }

  /** `s[v..e]` is a value `.+?` may stop at: non-empty, no newline, followed
      by the lookahead or `$`. */
  predicate ValueOk(s: string, v: nat, e: nat) {
    && v < e <= |s|
    && (forall k | v <= k < e :: s[k] != '\n')
    && (KeyAhead(s, e) || AtEnd(s, e))
  }

  /** The lazy `.+?` from `v`, extended one character at a time from `e`. */
  function ValueEndFrom(s: string, v: nat, e: nat): (r: Option<nat>)
    requires v < e <= |s|
    requires forall k | v <= k < e - 1 :: s[k] != '\n'
    ensures r.Some? ==> e <= r.value && ValueOk(s, v, r.value)
    ensures r.Some? ==> forall e' | e <= e' < r.value :: !ValueOk(s, v, e')
    ensures r.None? ==> forall e' | e <= e' :: !ValueOk(s, v, e')
    decreases |s| - e
  {
    if s[e - 1] == '\n' then
      NewlineEndsValue(s, v, e);
      None
    else if KeyAhead(s, e) || AtEnd(s, e) then Some(e)
    else if e == |s| then None
    else
      var r := ValueEndFrom(s, v, e + 1);
      ValueEndStep(s, v, e, r);
      r
  }

  /** `.` does not match a newline, so no value runs across one. */
  lemma NewlineEndsValue(s: string, v: nat, e: nat)
    requires v < e <= |s| && s[e - 1] == '\n'
    ensures forall e' | e <= e' :: !ValueOk(s, v, e')
  {
  }

  /** A value that may not stop at `e` stops where it may after `e`. */
  lemma ValueEndStep(s: string, v: nat, e: nat, r: Option<nat>)
    requires v < e < |s| && !ValueOk(s, v, e)
    requires r.Some? ==> e + 1 <= r.value && ValueOk(s, v, r.value)
    requires r.Some? ==> forall e' | e + 1 <= e' < r.value :: !ValueOk(s, v, e')
    requires r.None? ==> forall e' | e + 1 <= e' :: !ValueOk(s, v, e')
    ensures r.Some? ==> forall e' | e <= e' < r.value :: !ValueOk(s, v, e')
    ensures r.None? ==> forall e' | e <= e' :: !ValueOk(s, v, e')
  {
    forall e' | e <= e' && (r.None? || e' < r.value)
      ensures !ValueOk(s, v, e')
    {
      if e' != e {
        assert e + 1 <= e';
      }
    }
  }

  /** The shortest value starting at `v`. */
  function ValueEnd(s: string, v: nat): (r: Option<nat>)
    ensures r.Some? ==> ValueOk(s, v, r.value) && forall e': nat | e' < r.value :: !ValueOk(s, v, e')
    ensures r.None? ==> forall e': nat :: !ValueOk(s, v, e')
  {
    if v < |s| then ValueEndFrom(s, v, v + 1) else None
  }

  /** The greedy `\s*` giving back one character at a time: value starts are
      tried from `v` down to `lo`. */
  function TryValue(s: string, lo: nat, v: nat): (r: Option<(nat, nat)>)
    ensures r.Some? ==> lo <= r.value.0 <= v && ValueEnd(s, r.value.0) == Some(r.value.1)
    ensures r.Some? ==> forall v' | r.value.0 < v' <= v :: ValueEnd(s, v').None?
    ensures r.None? ==> forall v' | lo <= v' <= v :: ValueEnd(s, v').None?
    decreases v
  {
    if v < lo then None
    else if ValueEnd(s, v).Some? then Some((v, ValueEnd(s, v).value))
    else if v == lo then None
    else TryValue(s, lo, v - 1)
  }

  /** One match: the key is `s[start..colon]`, the raw value `s[valueStart..end]`. */
  datatype Pair = Pair(start: nat, colon: nat, valueStart: nat, end: nat)

  /** `_KEY_VALUE_PATTERN` matched at position `i`. */
  function MatchAt(s: string, i: nat): (r: Option<Pair>)
    ensures r.Some? ==> r.value.start == i < r.value.colon < r.value.valueStart < r.value.end <= |s|
    ensures r.Some? ==> s[r.value.colon] == ':'
                        && forall k | i <= k < r.value.colon :: IsKeyChar(s[k])
    ensures r.Some? ==> forall k | r.value.colon < k < r.value.valueStart :: IsSpace(s[k])
    ensures r.Some? ==> ValueEnd(s, r.value.valueStart) == Some(r.value.end)
  {
    if i >= |s| then None
    else
      var k := RunEnd(s, i, IsKeyChar);
      if k == i || k == |s| || s[k] != ':' then None
      else
        match TryValue(s, k + 1, RunEnd(s, k + 1, IsSpace))
        case None => None
        case Some((v, e)) => Some(Pair(i, k, v, e))
  }

  /** No match of the pattern starts in `[a, b)`. */
  predicate NoMatchIn(s: string, a: nat, b: nat) {
    forall q: nat | a <= q < b :: MatchAt(s, q).None?
  }

  /** Spans that do not overlap and come in order. */
  predicate Ordered(r: seq<Pair>) {
    forall i, j | 0 <= i < j < |r| :: r[i].end <= r[j].start
  }

  /** The matches of `finditer` from `p`: each is the match at its start, they
      are in order and do not overlap, and no match starts in any gap. */
  predicate IsFindIter(s: string, p: nat, r: seq<Pair>) {
    && (forall j | 0 <= j < |r| :: p <= r[j].start && MatchAt(s, r[j].start) == Some(r[j]))
    && Ordered(r)
    && NoMatchIn(s, p, if |r| > 0 then r[0].start else |s|)
    && (forall j | 0 < j < |r| :: NoMatchIn(s, r[j - 1].end, r[j].start))
    && (|r| > 0 ==> NoMatchIn(s, r[|r| - 1].end, |s|))
  }

  /** `_KEY_VALUE_PATTERN.finditer(s)` started at `p`. */
  function FindAll(s: string, p: nat): (r: seq<Pair>)
    ensures IsFindIter(s, p, r)
    decreases |s| - p
  {
    if p >= |s| then []
    else
      match MatchAt(s, p)
      case Some(m) =>
        var rest := FindAll(s, m.end);
        FindIterCons(s, p, m, rest);
        [m] + rest
      case None =>
        var r := FindAll(s, p + 1);
        FindIterSkip(s, p, r);
        r
  }

  lemma FindIterCons(s: string, p: nat, m: Pair, rest: seq<Pair>)
    requires p < |s| && MatchAt(s, p) == Some(m) && IsFindIter(s, m.end, rest)
    ensures IsFindIter(s, p, [m] + rest)
  {
    var r := [m] + rest;
    ConsMatches(s, p, m, rest);
    ConsOrdered(m, rest);
    ConsGaps(s, m, rest);
    assert r[0].start == p;
    ConsLast(s, m, rest);
  }

  lemma ConsLast(s: string, m: Pair, rest: seq<Pair>)
    requires NoMatchIn(s, m.end, if |rest| > 0 then rest[0].start else |s|)
    requires |rest| > 0 ==> NoMatchIn(s, rest[|rest| - 1].end, |s|)
    ensures NoMatchIn(s, ([m] + rest)[|rest|].end, |s|)
  {
    if |rest| > 0 {
      assert ([m] + rest)[|rest|] == rest[|rest| - 1];
    }
  }

  lemma ConsMatches(s: string, p: nat, m: Pair, rest: seq<Pair>)
    requires MatchAt(s, p) == Some(m)
    requires forall j | 0 <= j < |rest| :: m.end <= rest[j].start && MatchAt(s, rest[j].start) == Some(rest[j])
    ensures forall j | 0 <= j < |[m] + rest| :: p <= ([m] + rest)[j].start && MatchAt(s, ([m] + rest)[j].start) == Some(([m] + rest)[j])
  {
    var r := [m] + rest;
    forall j | 0 <= j < |r|
      ensures p <= r[j].start && MatchAt(s, r[j].start) == Some(r[j])
    {
      if j > 0 {
        assert r[j] == rest[j - 1];
      }
    }
  }

  lemma ConsOrdered(m: Pair, rest: seq<Pair>)
    requires m.start <= m.end && Ordered(rest)
    requires forall j | 0 <= j < |rest| :: m.end <= rest[j].start
    ensures Ordered([m] + rest)
  {
    var r := [m] + rest;
    forall i, j | 0 <= i < j < |r|
      ensures r[i].end <= r[j].start
    {
      assert r[j] == rest[j - 1];
      if i > 0 {
        assert r[i] == rest[i - 1];
      }
    }
  }

  lemma ConsGaps(s: string, m: Pair, rest: seq<Pair>)
    requires NoMatchIn(s, m.end, if |rest| > 0 then rest[0].start else |s|)
    requires forall j | 0 < j < |rest| :: NoMatchIn(s, rest[j - 1].end, rest[j].start)
    ensures forall j | 0 < j < |[m] + rest| :: NoMatchIn(s, ([m] + rest)[j - 1].end, ([m] + rest)[j].start)
  {
    var r := [m] + rest;
    forall j | 0 < j < |r|
      ensures NoMatchIn(s, r[j - 1].end, r[j].start)
    {
      if j == 1 {
        assert r[0] == m && r[1] == rest[0];
      } else {
        assert r[j - 1] == rest[j - 2] && r[j] == rest[j - 1];
      }
    }
  }

  lemma FindIterSkip(s: string, p: nat, r: seq<Pair>)
    requires p < |s| && MatchAt(s, p).None? && IsFindIter(s, p + 1, r)
    ensures IsFindIter(s, p, r)
  {
  }

  /** The pair's positions are in order and inside `s`. */
  predicate PairIn(s: string, m: Pair) {
    m.start <= m.colon <= m.valueStart <= m.end <= |s|
  }

  function Key(s: string, m: Pair): string
    requires PairIn(s, m)
  {
    s[m.start..m.colon]
  }

  /** `kv.group("value").strip()`. */
  function Value(s: string, m: Pair): string
    requires PairIn(s, m)
  {
    Strip(s[m.valueStart..m.end])
  }

  // ---------------------------------------------------------------------
  // Removing the consumed spans
  // ---------------------------------------------------------------------

  /** `t[:a] + t[b:]` with Python's clamping of out-of-range slice bounds. */
  function Cut(t: string, a: nat, b: nat): string {
    t[..if a <= |t| then a else |t|] + t[if b <= |t| then b else |t|..]
  }

  /** `for start, end in reversed(consumed_ranges): remaining = remaining[:start] + remaining[end:]`. */
  function RemoveSpans(t: string, spans: seq<Pair>): string
    decreases |spans|
  {
    if |spans| == 0 then t
    else RemoveSpans(Cut(t, spans[|spans| - 1].start, spans[|spans| - 1].end), spans[..|spans| - 1])
  }

  /** Spans that are ordered, do not overlap and lie inside `[p, n)`. */
  predicate OrderedWithin(spans: seq<Pair>, p: nat, n: nat) {
    && (forall j | 0 <= j < |spans| :: p <= spans[j].start <= spans[j].end <= n)
    && Ordered(spans)
  }

  lemma OrderedWithinTail(spans: seq<Pair>, p: nat, n: nat)
    requires |spans| > 0 && OrderedWithin(spans, p, n)
    ensures OrderedWithin(spans[1..], spans[0].end, n)
  {
    assert forall j | 0 <= j < |spans| - 1 :: spans[1..][j] == spans[j + 1];
  }

  lemma OrderedWithinInit(spans: seq<Pair>, p: nat, n: nat)
    requires |spans| > 0 && OrderedWithin(spans, p, n)
    ensures OrderedWithin(spans[..|spans| - 1], p, spans[|spans| - 1].start)
  {
  }

  /** The text of `s[p..n]` outside the spans, read front to back: the
      reference reading of what is left once the pairs are taken out. */
  function Gaps(s: string, p: nat, spans: seq<Pair>, n: nat): string
    requires OrderedWithin(spans, p, n) && p <= n <= |s|
    decreases |spans|
  {
    if |spans| == 0 then s[p..n]
    else
      OrderedWithinTail(spans, p, n);
      s[p..spans[0].start] + Gaps(s, spans[0].end, spans[1..], n)
  }

  /** Reading past the last span only appends the extra text. */
  lemma {:induction false} GapsExtend(s: string, p: nat, spans: seq<Pair>, a: nat, n: nat)
    requires OrderedWithin(spans, p, a) && p <= a <= n <= |s|
    ensures OrderedWithin(spans, p, n)
    ensures Gaps(s, p, spans, n) == Gaps(s, p, spans, a) + s[a..n]
    decreases |spans|
  {
    if |spans| > 0 {
      OrderedWithinTail(spans, p, a);
      OrderedWithinTail(spans, p, n);
      GapsExtend(s, spans[0].end, spans[1..], a, n);
    } else {
      assert s[p..n] == s[p..a] + s[a..n];
    }
  }

  /** `Gaps` reads nothing of `s` outside `[p, n)`. */
  lemma {:induction false} GapsLocal(s: string, t: string, p: nat, spans: seq<Pair>, n: nat)
    requires OrderedWithin(spans, p, n) && p <= n <= |s| && n <= |t| && s[..n] == t[..n]
    ensures Gaps(s, p, spans, n) == Gaps(t, p, spans, n)
    decreases |spans|
  {
    if |spans| == 0 {
      assert s[p..n] == s[..n][p..] && t[p..n] == t[..n][p..];
    } else {
      OrderedWithinTail(spans, p, n);
      assert s[p..spans[0].start] == s[..n][p..spans[0].start];
      assert t[p..spans[0].start] == t[..n][p..spans[0].start];
      GapsLocal(s, t, spans[0].end, spans[1..], n);
    }
  }

  /** Splitting off the last span. */
  lemma {:induction false} GapsSnoc(s: string, p: nat, spans: seq<Pair>, n: nat)
    requires OrderedWithin(spans, p, n) && |spans| > 0 && p <= n <= |s|
    ensures OrderedWithin(spans[..|spans| - 1], p, spans[|spans| - 1].start)
    ensures Gaps(s, p, spans, n)
         == Gaps(s, p, spans[..|spans| - 1], spans[|spans| - 1].start) + s[spans[|spans| - 1].end..n]
    decreases |spans|
  {
    var last := spans[|spans| - 1];
    OrderedWithinInit(spans, p, n);
    OrderedWithinTail(spans, p, n);
    if |spans| > 1 {
      var init := spans[..|spans| - 1];
      assert spans[1..][..|spans[1..]| - 1] == init[1..];
      assert spans[1..][|spans[1..]| - 1] == last;
      GapsSnoc(s, spans[0].end, spans[1..], n);
      OrderedWithinTail(init, p, last.start);
      assert init[0] == spans[0];
    }
  }

  /** Cutting the spans out from the back leaves exactly the text between
      them, in order. */
  lemma {:induction false} RemoveSpansIsGaps(s: string, spans: seq<Pair>)
    requires OrderedWithin(spans, 0, |s|)
    ensures RemoveSpans(s, spans) == Gaps(s, 0, spans, |s|)
    decreases |spans|
  {
    if |spans| > 0 {
      var last := spans[|spans| - 1];
      var init := spans[..|spans| - 1];
      var t := Cut(s, last.start, last.end);
      assert t == s[..last.start] + s[last.end..];
      OrderedWithinInit(spans, 0, |s|);
      GapsExtend(t, 0, init, last.start, |t|);
      RemoveSpansIsGaps(t, init);
      assert t[..last.start] == s[..last.start];
      GapsLocal(t, s, 0, init, last.start);
      assert t[last.start..] == s[last.end..];
      GapsSnoc(s, 0, spans, |s|);
    }
  }

  // ---------------------------------------------------------------------
  // _EMAIL_PATTERN
  // ---------------------------------------------------------------------

  /** `_EMAIL_PATTERN` matched at `i`: the whitespace after `email:` is taken
      greedily and the address is the following run of non-whitespace. */
  function EmailAt(s: string, i: nat): (r: Option<string>)
    ensures r.Some? ==> r.value != "" && forall k | 0 <= k < |r.value| :: !IsSpace(r.value[k])
  {
    if i + 6 <= |s| && s[i..i + 6] == "email:" then
      var w := RunEnd(s, i + 6, IsSpace);
      if w < |s| then
        var e := RunEnd(s, w, IsNotSpace);
        assert forall k | 0 <= k < e - w :: s[w..e][k] == s[w + k];
        Some(s[w..e])
      else None
    else None
  }

  /** `_EMAIL_PATTERN.search(s[i:])`. */
  function SearchEmail(s: string, i: nat): (r: Option<string>)
    requires i <= |s|
    ensures r.Some? ==> exists j | i <= j < |s| ::
              EmailAt(s, j) == r && forall k | i <= k < j :: EmailAt(s, k).None?
    ensures r.None? ==> forall k | i <= k < |s| :: EmailAt(s, k).None?
    decreases |s| - i
  {
    if i == |s| then None
    else if EmailAt(s, i).Some? then EmailAt(s, i)
    else SearchEmail(s, i + 1)
  }
}
