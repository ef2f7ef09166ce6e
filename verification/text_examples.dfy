/**
 * The text-line cases the watcher's unit tests pin down, checked against the
 * model. The grammar match of each line is written out as its captured groups.
 */
module TextExamples {
  import opened Wrappers
  import opened Text
  import opened Json
  import opened Address
  import opened AddressProps
  import opened Events
  import opened KeyValues
  import opened TextLines

  /** A line routed `api -> api` from a `127.0.0.1:` source to a
      `tcp:127.0.0.1:` target, with no trailing text, yields no event. */
  lemma {:induction false} ApiLoopbackLineDropped(m: TextMatch, line: string, now: int, parseLogTime: string -> Option<int>)
    requires m.detour == Some("api -> api") && m.rest.None?
    requires StartsWith(m.source, "127.0.0.1:") && StartsWith(m.target, "tcp:127.0.0.1:")
    ensures ParseTextLine(m, line, now, parseLogTime).None?
  {
    var d := TextMetadata(m, line);
    NoRestFields(m, line);
    SourceKept(m, line);
    TextFilterIsInternal(d, m.target, ExtractAddress(m.source));
  }

  /** Without trailing text the variables keep their initial values. */
  lemma NoRestFields(m: TextMatch, line: string)
    requires m.rest.None?
    ensures TextFields(m, line) == Fields("", "", InitialMetadata(m, line))
  {
    assert Strip("") == "" by {
      assert StripStart("") == "";
    }
  }

  /** The source address is written once and nothing overwrites it. */
  lemma SourceKept(m: TextMatch, line: string)
    requires m.rest.None?
    ensures Get(TextMetadata(m, line), "source") == JStr(m.source)
  {
    var f := TextFields(m, line);
    NoRestFields(m, line);
    InitialSource(m, line);
    SourceNotDerived();
    var d := FinalMetadata(f, m.detour, SplitTarget(m.target));
    assert "source" in d && d["source"] == f.metadata["source"];
  }

  lemma InitialSource(m: TextMatch, line: string)
    ensures "source" in InitialMetadata(m, line) && InitialMetadata(m, line)["source"] == JStr(m.source)
  {
    var s := "source";
    assert s[0] == 's' && s[1] == 'o';
    assert s != "raw" && s != "target" && s != "status" && s != "timestamp";
  }

  lemma SourceNotDerived()
    ensures !IsDerivedKey("source")
  {
    var s := "source";
    assert s[0] == 's' && s[1] == 'o';
  }

  /** Without whitespace ahead, the lazy value can only stop at the end. */
  lemma {:induction false} ValueRunsToEnd(s: string, v: nat, e: nat)
    requires v < e <= |s|
    requires forall k | v <= k < |s| :: !IsSpace(s[k]) && s[k] != '\n'
    ensures ValueEndFrom(s, v, e) == Some(|s|)
    decreases |s| - e
  {
    assert s[e - 1] != '\n';
    if e < |s| {
      assert !KeyAhead(s, e) && !AtEnd(s, e);
      ValueRunsToEnd(s, v, e + 1);
    }
  }

  /** `key: word`, with a single space and a word without whitespace, is
      matched at its start as one pair spanning the whole text. */
  lemma {:induction false} OnePairMatch(k: string, w: string)
    requires k != "" && forall i | 0 <= i < |k| :: IsKeyChar(k[i])
    requires w != "" && forall i | 0 <= i < |w| :: !IsSpace(w[i]) && w[i] != '\n'
    ensures MatchAt(k + ": " + w, 0) == Some(Pair(0, |k|, |k| + 2, |k| + 2 + |w|))
  {
    var s := k + ": " + w;
    var n := |k|;
    assert forall i | 0 <= i < n :: s[i] == k[i];
    assert s[n] == ':' && s[n + 1] == ' ';
    assert forall i | n + 2 <= i < |s| :: s[i] == w[i - n - 2];
    RunEndAt(s, 0, IsKeyChar, n);
    RunEndAt(s, n + 1, IsSpace, n + 2);
    ValueRunsToEnd(s, n + 2, n + 3);
    assert ValueEnd(s, n + 2) == Some(|s|);
    assert TryValue(s, n + 1, n + 2) == Some((n + 2, |s|));
  }

  /** ... and it is the only pair `finditer` reports ... */
  lemma {:induction false} OnePairFound(k: string, w: string)
    requires k != "" && forall i | 0 <= i < |k| :: IsKeyChar(k[i])
    requires w != "" && forall i | 0 <= i < |w| :: !IsSpace(w[i]) && w[i] != '\n'
    ensures FindAll(k + ": " + w, 0) == [Pair(0, |k|, |k| + 2, |k| + 2 + |w|)]
  {
    var s := k + ": " + w;
    OnePairMatch(k, w);
    assert FindAll(s, |s|) == [];
  }

  /** The single pair spans the key and the word. */
  lemma OnePairParts(k: string, w: string)
    requires w != "" && forall i | 0 <= i < |w| :: !IsSpace(w[i]) && w[i] != '\n'
    ensures var s := k + ": " + w;
            var m := Pair(0, |k|, |k| + 2, |s|);
            PairIn(s, m) && Key(s, m) == k && Value(s, m) == w
  {
    var s := k + ": " + w;
    assert s[0..|k|] == k && s[|k| + 2..|s|] == w;
    StripUnchanged(w);
  }

  /** The entries of a text with a single match are that match's key and value. */
  lemma SingleEntry(s: string, m: Pair)
    requires FindAll(s, 0) == [m]
    ensures PairIn(s, m) && RestEntries(s) == [(Key(s, m), Value(s, m))]
  {
    FindAllWithin(s);
    assert Entries(s, [m])[0] == (Key(s, m), Value(s, m));
  }

  /** ... with key `key` and value `word`. */
  lemma {:induction false} OnePairText(k: string, w: string)
    requires k != "" && forall i | 0 <= i < |k| :: IsKeyChar(k[i])
    requires w != "" && forall i | 0 <= i < |w| :: !IsSpace(w[i]) && w[i] != '\n'
    ensures RestEntries(k + ": " + w) == [(k, w)]
  {
    var s := k + ": " + w;
    OnePairFound(k, w);
    SingleEntry(s, Pair(0, |k|, |k| + 2, |s|));
    OnePairParts(k, w);
  }

  /** The trailing text `email: <word>` is read as it stands. */
  lemma {:induction false} EmailRestStripped(m: TextMatch, line: string, w: string)
    requires w != "" && forall i | 0 <= i < |w| :: !IsSpace(w[i]) && w[i] != '\n'
    requires m.rest == Some("email: " + w)
    ensures TextFields(m, line) == ParseRest("email: " + w, InitialMetadata(m, line))
  {
    var rest := "email: " + w;
    assert rest[0] == 'e' && rest[|rest| - 1] == w[|w| - 1];
    StripUnchanged(rest);
  }

  /** ... as the single pair `("email", word)` ... */
  lemma {:induction false} EmailRestEntries(w: string)
    requires w != "" && forall i | 0 <= i < |w| :: !IsSpace(w[i]) && w[i] != '\n'
    ensures RestEntries("email: " + w) == [("email", w)]
  {
    var key := "email";
    assert forall i | 0 <= i < |key| :: IsKeyChar(key[i]);
    assert "email: " + w == key + ": " + w;
    OnePairText(key, w);
  }

  /** ... which sets the email and nothing else. */
  lemma {:induction false} EmailEntryApplied(w: string, meta: Record)
    ensures ApplyEntries(Fields("", "", meta), [("email", w)]) == Fields(w, "", meta)
  {
    assert Lower("email") == "email";
    assert RoleOf("email") == EmailKey;
    assert [("email", w)][1..] == [];
  }

  /** The trailing text `email: <word>` sets the email to the word and adds
      no metadata key. */
  lemma {:induction false} EmailRestParsed(m: TextMatch, line: string, w: string)
    requires w != "" && forall i | 0 <= i < |w| :: !IsSpace(w[i]) && w[i] != '\n'
    requires m.rest == Some("email: " + w)
    ensures TextFields(m, line).email == w
    ensures TextFields(m, line).metadata == InitialMetadata(m, line)
  {
    var rest := "email: " + w;
    var meta0 := InitialMetadata(m, line);
    EmailRestStripped(m, line, w);
    EmailRestEntries(w);
    EmailEntryApplied(w, meta0);
    ParseRestParts(rest, meta0);
  }

  /** A route label without the letter `a` is never the API route. */
  lemma {:induction false} NoApiRoute(d: Record, detour: string)
    requires Get(d, "detour") == JStr(detour) && detour != ""
    requires forall i | 0 <= i < |detour| :: detour[i] != 'a' && detour[i] != 'A'
    ensures !IsApiRoute(d)
  {
    var low := Lower(detour);
    forall k | 0 <= k < |low|
      ensures low[k] != "api"[0]
    {
      assert detour[k] != 'a' && detour[k] != 'A';
    }
    NotContainsFirstChar(low, "api");
  }

  /** A line routed by a label without the letter `a` is not on the API route. */
  lemma {:induction false} OtherRouteLine(m: TextMatch, line: string)
    requires m.detour.Some? && m.detour.value != ""
    requires forall i | 0 <= i < |m.detour.value| :: m.detour.value[i] != 'a' && m.detour.value[i] != 'A'
    ensures !IsApiRoute(TextMetadata(m, line))
  {
    var f := TextFields(m, line);
    var d := FinalMetadata(f, m.detour, SplitTarget(m.target));
    assert Get(d, "detour") == JStr(m.detour.value);
    NoApiRoute(d, m.detour.value);
  }

  lemma ProtocolNotInitial(m: TextMatch, line: string)
    ensures "protocol" !in InitialMetadata(m, line)
  {
    var p := "protocol";
    assert p[0] == 'p';
    assert p != "timestamp" && p != "status" && p != "source" && p != "target" && p != "raw";
  }

  lemma ProtocolNotDerived(f: Fields, detour: Option<string>, t: Target)
    requires "protocol" !in f.metadata
    ensures "protocol" !in FinalMetadata(f, detour, t)
  {
    var p := "protocol";
    assert p[0] == 'p' && p[1] == 'r';
    assert !IsDerivedKey(p);
  }

  /** Such a line has no metadata key beyond the fixed and derived ones. */
  lemma {:induction false} EmailLineKeys(m: TextMatch, line: string, w: string)
    requires w != "" && forall i | 0 <= i < |w| :: !IsSpace(w[i]) && w[i] != '\n'
    requires m.rest == Some("email: " + w)
    ensures "protocol" !in TextMetadata(m, line)
  {
    EmailRestParsed(m, line, w);
    ProtocolNotInitial(m, line);
    ProtocolNotDerived(TextFields(m, line), m.detour, SplitTarget(m.target));
  }

  /** A line whose trailing text is `email: <word>` and whose route is not
      the API route gives an event carrying that email, the target's host and
      port, and no metadata key beyond the fixed and derived ones. */
  lemma {:induction false} EmailLineParsed(m: TextMatch, line: string, now: int, parseLogTime: string -> Option<int>, w: string)
    requires w != "" && forall i | 0 <= i < |w| :: !IsSpace(w[i]) && w[i] != '\n'
    requires m.rest == Some("email: " + w)
    requires m.detour.Some? && m.detour.value != ""
    requires forall i | 0 <= i < |m.detour.value| :: m.detour.value[i] != 'a' && m.detour.value[i] != 'A'
    ensures
      var r := ParseTextLine(m, line, now, parseLogTime);
      && r.Some?
      && r.value.email == w
      && r.value.target == m.target
      && r.value.ip == ExtractAddress(m.source)
      && (SplitTarget(m.target).host != "" ==> Get(r.value.metadata, "host") == JStr(SplitTarget(m.target).host))
      && (SplitTarget(m.target).port.Some? ==> Get(r.value.metadata, "port") == JInt(SplitTarget(m.target).port.value))
      && "protocol" !in r.value.metadata
  {
    EmailRestParsed(m, line, w);
    OtherRouteLine(m, line);
    EmailLineKeys(m, line, w);
  }

  lemma DacogWord()
    ensures "dacog96g" != "" && forall i | 0 <= i < |"dacog96g"| :: !IsSpace("dacog96g"[i]) && "dacog96g"[i] != '\n'
  {
  }

  lemma DirectRouteLabel()
    ensures forall i | 0 <= i < |"inbound-19798 >> direct"| ::
              "inbound-19798 >> direct"[i] != 'a' && "inbound-19798 >> direct"[i] != 'A'
  {
  }

  /** The regular access-log line of the unit tests,
      `... from 58.152.53.88:52986 accepted ping0.cc:443 [inbound-19798 >> direct] email: dacog96g`. */
  lemma RegularLineParsed(m: TextMatch, line: string, now: int, parseLogTime: string -> Option<int>)
    requires m.source == "58.152.53.88:52986" && m.target == "ping0.cc:443"
    requires m.detour == Some("inbound-19798 >> direct") && m.rest == Some("email: dacog96g")
    ensures
      var r := ParseTextLine(m, line, now, parseLogTime);
      && r.Some?
      && r.value.email == "dacog96g"
      && r.value.ip == "58.152.53.88"
      && r.value.target == "ping0.cc:443"
      && Get(r.value.metadata, "host") == JStr("ping0.cc")
      && Get(r.value.metadata, "port") == JInt(443)
      && "protocol" !in r.value.metadata
  {
    var w := "dacog96g";
    assert "email: " + w == "email: dacog96g";
    PlainTargetExample();
    RegularLineFields(m, line, now, parseLogTime, w, "inbound-19798 >> direct");
    RegularAddressExample(m.source);
  }

  /** The same line, whatever its source address and whatever target splits
      into host `ping0.cc` and port 443. */
  lemma RegularLineFields(m: TextMatch, line: string, now: int, parseLogTime: string -> Option<int>, w: string, route: string)
    requires w == "dacog96g" && route == "inbound-19798 >> direct"
    requires SplitTarget(m.target) == Target("", "ping0.cc", Some(443))
    requires m.detour == Some(route) && m.rest == Some("email: " + w)
    ensures
      var r := ParseTextLine(m, line, now, parseLogTime);
      && r.Some?
      && r.value.email == w
      && Get(r.value.metadata, "host") == JStr("ping0.cc")
      && Get(r.value.metadata, "port") == JInt(443)
      && "protocol" !in r.value.metadata
  {
    DacogWord();
    DirectRouteLabel();
    EmailLineParsed(m, line, now, parseLogTime, w);
  }

  /** The internal API line of the unit tests,
      `... from 127.0.0.1:33122 accepted tcp:127.0.0.1:62789 [api -> api]`, yields no event. */
  lemma ApiLoopbackTestLine(m: TextMatch, line: string, now: int, parseLogTime: string -> Option<int>)
    requires m == TextMatch("2025/11/14", "22:44:45.001961", "127.0.0.1:33122", "accepted",
                            "tcp:127.0.0.1:62789", Some("api -> api"), None)
    ensures ParseTextLine(m, line, now, parseLogTime).None?
  {
    assert m.source[..10] == "127.0.0.1:";
    assert m.target[..14] == "tcp:127.0.0.1:";
    ApiLoopbackLineDropped(m, line, now, parseLogTime);
  }
}
