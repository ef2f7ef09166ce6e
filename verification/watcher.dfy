/**
 * The line dispatch of the access-log watcher (`_parse_line`) and the pure
 * part of `snapshot`: trimming the file's lines to the requested count and
 * collecting the events of the lines kept.
 */
module Watcher {
  import opened Wrappers
  import opened Text
  import opened Json
  import opened Events
  import opened Records
  import opened TextLines
  import opened TextExamples

  /** The library calls and configuration the parser depends on, passed in:
      whether the source is configured as JSON, `json.loads` (`None` for a
      `JSONDecodeError`), the two line grammars (the groups of the first that
      matches), `strptime` on the text timestamp, the ISO/strptime reading of a
      JSON timestamp, and the current time. */
  datatype Env = Env(
    isJson: bool,
    decode: string -> Option<Json>,
    matchLine: string -> Option<TextMatch>,
    parseLogTime: string -> Option<int>,
    parseIso: string -> Option<int>,
    now: int)

  /** What `_parse_line` does with one line: return `None`, return an event,
      or raise (a decoded JSON value that is not an object makes
      `_normalise_record` fail on `record.get`). */
  datatype ParseOutcome = NoEvent | Event(event: LogEvent) | Raised

  /** `_normalise_record` on a decoded JSON value. */
  function Normalise(env: Env, v: Json): (r: ParseOutcome)
    ensures r.Raised? <==> !v.JObject?
    ensures v.JObject? && r.Event? ==> NormaliseRecord(v.fields, env.now, env.parseIso) == Some(r.event)
    ensures v.JObject? && r.NoEvent? ==> NormaliseRecord(v.fields, env.now, env.parseIso).None?
  {
    match v
    case JObject(fields) =>
      (match NormaliseRecord(fields, env.now, env.parseIso)
       case Some(e) => Event(e)
       case None => NoEvent)
    case _ => Raised
  }

  /** The event kept for a line that is neither a grammar match nor JSON. */
  function RawEvent(env: Env, line: string): (r: LogEvent)
    ensures r.email == "" && r.ip == "" && r.target == "" && r.transport == ""
    ensures r.targetHost == "" && r.targetPort.None? && r.status == ""
    ensures r.bytesRead == 0 && r.bytesWritten == 0
    ensures r.metadata == map["raw" := JStr(line)]
    ensures r.timestamp == env.now
  {
    var metadata := map["raw" := JStr(line)];
    assert Get(metadata, "detour") == JNull && Get(metadata, "tag") == JNull;
    assert !IsApiRoute(metadata);
    BuildEvent(env.now, "", "", "", "", "", None, "", 0, 0, metadata).value
  }

  /** The text result of a stripped line: the grammar's groups, then the
      text normaliser. */
  function TextEvent(env: Env, line: string): Option<LogEvent> {
    match env.matchLine(line)
    case None => None
    case Some(m) => ParseTextLine(m, line, env.now, env.parseLogTime)
  }

  /** `_parse_line`, as written. */
  function ParseLine(env: Env, line: string): (r: ParseOutcome)
    ensures Strip(line) == "" ==> r.NoEvent?
    ensures Strip(line) != "" && env.isJson && env.decode(Strip(line)).None? ==> r.NoEvent?
    ensures Strip(line) != "" && env.isJson && env.decode(Strip(line)).Some? ==>
              r == Normalise(env, env.decode(Strip(line)).value)
    ensures Strip(line) != "" && !env.isJson && TextEvent(env, Strip(line)).Some? ==>
              r == Event(TextEvent(env, Strip(line)).value)
    ensures Strip(line) != "" && !env.isJson && TextEvent(env, Strip(line)).None? && env.decode(Strip(line)).None? ==>
              r == Event(RawEvent(env, Strip(line)))
    ensures Strip(line) != "" && !env.isJson && TextEvent(env, Strip(line)).None? && env.decode(Strip(line)).Some? ==>
              r == Normalise(env, env.decode(Strip(line)).value)
  {
    var l := Strip(line);
    if l == "" then NoEvent
    else if env.isJson then
      match env.decode(l)
      case None => NoEvent
      case Some(v) => Normalise(env, v)
    else
      match TextEvent(env, l)
      case Some(e) => Event(e)
      case None =>
        match env.decode(l)
        case None => Event(RawEvent(env, l))
        case Some(v) => Normalise(env, v)
  }

  /** `_parse_line` as its comments describe it: a line that matched a line
      grammar is settled by the text normaliser, so one it drops stays
      dropped; only a line matching no grammar falls back to JSON and then to
      the raw event. */
  function ParseLineIntended(env: Env, line: string): (r: ParseOutcome)
    ensures !env.isJson && Strip(line) != "" && env.matchLine(Strip(line)).Some? ==>
              r == (match TextEvent(env, Strip(line)) case Some(e) => Event(e) case None => NoEvent)
    ensures env.isJson || Strip(line) == "" || env.matchLine(Strip(line)).None? ==>
              r == ParseLine(env, line)
  {
    var l := Strip(line);
    if l != "" && !env.isJson && env.matchLine(l).Some? then
      match TextEvent(env, l)
      case Some(e) => Event(e)
      case None => NoEvent
    else ParseLine(env, line)
  }

  // ---------------------------------------------------------------------
  // snapshot
  // ---------------------------------------------------------------------

  /** `lines[-limit:]` when a limit is given: a positive limit keeps the last
      `limit` lines, `0` keeps them all (`-0` is `0`), and a negative limit
      drops the first `-limit` lines. */
  function TrimLines(lines: seq<string>, limit: Option<int>): (r: seq<string>)
    ensures |r| <= |lines| && lines == lines[..|lines| - |r|] + r
    ensures limit.None? ==> r == lines
    ensures limit.Some? && limit.value > 0 ==>
              |r| == (if limit.value <= |lines| then limit.value else |lines|)
    ensures limit.Some? && limit.value == 0 ==> r == lines
    ensures limit.Some? && limit.value < 0 ==>
              |r| == (if -limit.value <= |lines| then |lines| + limit.value else 0)
  {
    match limit
    case None => lines
    case Some(k) =>
      var start := -k;
      var from := if start < 0 then (if |lines| + start < 0 then 0 else |lines| + start)
                  else (if start <= |lines| then start else |lines|);
      assert lines == lines[..from] + lines[from..];
      lines[from..]
  }

  /** What `_parse_line` makes of each line. */
  function Outcomes(env: Env, lines: seq<string>): (r: seq<ParseOutcome>)
    ensures |r| == |lines| && forall i | 0 <= i < |lines| :: r[i] == ParseLine(env, lines[i])
  {
    seq(|lines|, i requires 0 <= i < |lines| => ParseLine(env, lines[i]))
  }

  const NotAnObject := "a decoded record is not a JSON object"

  /** The loop of `snapshot` over the outcomes: the events in order, or the
      exception of the first line that raises. */
  function Collect(outs: seq<ParseOutcome>): Result<seq<LogEvent>>
    decreases |outs|
  {
    if |outs| == 0 then Success([])
    else
      match Collect(outs[..|outs| - 1])
      case Failure(err) => Failure(err)
      case Success(events) =>
        match outs[|outs| - 1]
        case Raised => Failure(NotAnObject)
        case NoEvent => Success(events)
        case Event(e) => Success(events + [e])
  }

  /** Collection fails exactly when some outcome is an exception; otherwise
      the events are exactly those of the outcomes, in order. */
  lemma {:induction false} CollectSpec(outs: seq<ParseOutcome>)
    ensures Collect(outs).Failure? <==> exists i | 0 <= i < |outs| :: outs[i].Raised?
    ensures Collect(outs).Success? ==> Collect(outs).value == EventsOf(outs)
    decreases |outs|
  {
    if |outs| > 0 {
      var init := outs[..|outs| - 1];
      CollectSpec(init);
      assert forall i | 0 <= i < |init| :: init[i] == outs[i];
      EventsOfSnoc(outs);
    }
  }

  /** The events among the outcomes, front to back: the reference reading. */
  function EventsOf(outs: seq<ParseOutcome>): seq<LogEvent>
    decreases |outs|
  {
    if |outs| == 0 then []
    else (if outs[0].Event? then [outs[0].event] else []) + EventsOf(outs[1..])
  }

  lemma {:induction false} EventsOfSnoc(outs: seq<ParseOutcome>)
    requires |outs| > 0
    ensures EventsOf(outs) == EventsOf(outs[..|outs| - 1])
              + (if outs[|outs| - 1].Event? then [outs[|outs| - 1].event] else [])
    decreases |outs|
  {
    if |outs| > 1 {
      EventsOfSnoc(outs[1..]);
      assert outs[1..][..|outs[1..]| - 1] == outs[..|outs| - 1][1..];
    }
  }

  /** The failure a prefix meets is the failure of the whole. */
  lemma {:induction false} StickyFailure(outs: seq<ParseOutcome>, n: nat)
    requires 0 < n <= |outs| && Collect(outs[..n]).Failure?
    ensures Collect(outs) == Collect(outs[..n])
    decreases |outs| - n
  {
    if n < |outs| {
      assert outs[..n + 1][..n] == outs[..n];
      StickyFailure(outs, n + 1);
    } else {
      assert outs[..n] == outs;
    }
  }

  /** The loop of `snapshot`: appends each event in turn and stops at the
      first exception. */
  method CollectLoop(outs: seq<ParseOutcome>) returns (r: Result<seq<LogEvent>>)
    ensures r == Collect(outs)
  {
    var events: seq<LogEvent> := [];
    var i := 0;
    while i < |outs|
      invariant 0 <= i <= |outs|
      invariant Collect(outs[..i]) == Success(events)
    {
      assert outs[..i + 1][..i] == outs[..i];
      assert outs[..i + 1][i] == outs[i];
      match outs[i] {
        case Raised =>
          StickyFailure(outs, i + 1);
          return Failure(NotAnObject);
        case NoEvent =>
        case Event(e) =>
          events := events + [e];
      }
      i := i + 1;
    }
    assert outs[..i] == outs;
    r := Success(events);
  }

  /** `snapshot(limit)` over the file's lines: the events of the lines kept,
      in order, or the exception of the first line that raises. */
  method Snapshot(env: Env, lines: seq<string>, limit: Option<int>) returns (r: Result<seq<LogEvent>>)
    ensures r.Failure? <==> exists i | 0 <= i < |TrimLines(lines, limit)| ::
                              Outcomes(env, TrimLines(lines, limit))[i].Raised?
    ensures r.Success? ==> r.value == EventsOf(Outcomes(env, TrimLines(lines, limit)))
  {
    var outs := Outcomes(env, TrimLines(lines, limit));
    r := CollectLoop(outs);
    CollectSpec(outs);
  }

  // ---------------------------------------------------------------------
  // A dropped text line comes back as a raw event
  // ---------------------------------------------------------------------

  /** A text-source line that matched a grammar but was dropped by the text
      normaliser, and that is not JSON, is returned as a raw event by
      `_parse_line`; the intended dispatch drops it. */
  lemma {:induction false} DroppedTextLineKeptRaw(env: Env, line: string)
    requires !env.isJson && Strip(line) != ""
    requires env.matchLine(Strip(line)).Some? && TextEvent(env, Strip(line)).None?
    requires env.decode(Strip(line)).None?
    ensures ParseLine(env, line) == Event(RawEvent(env, Strip(line)))
    ensures ParseLineIntended(env, line) == NoEvent
  {
  }

  lemma ApiLineStripped(line: string)
    requires line == "2025/11/14 " + "22:44:45.001961 " + "from 127.0.0.1:33122 "
                    + "accepted " + "tcp:127.0.0.1:62789 " + "[api -> api]"
    ensures Strip(line) == line
  {
    assert line[0] == '2' && line[|line| - 1] == ']';
    StripUnchanged(line);
  }

  /** The internal API line of the unit tests, read from a text source: the
      text normaliser drops it, yet `_parse_line` returns it as a raw event
      whose metadata is the line itself. */
  lemma ApiLineReturnedRaw(env: Env, line: string, m: TextMatch)
    requires line == "2025/11/14 " + "22:44:45.001961 " + "from 127.0.0.1:33122 "
                    + "accepted " + "tcp:127.0.0.1:62789 " + "[api -> api]"
    requires !env.isJson && env.decode(line).None?
    requires m == TextMatch("2025/11/14", "22:44:45.001961", "127.0.0.1:33122", "accepted",
                            "tcp:127.0.0.1:62789", Some("api -> api"), None)
    requires env.matchLine(line) == Some(m)
    ensures ParseLine(env, line) == Event(RawEvent(env, line))
    ensures ParseLine(env, line).event.metadata == map["raw" := JStr(line)]
    ensures ParseLineIntended(env, line) == NoEvent
  {
    ApiLineStripped(line);
    ApiLoopbackTestLine(m, line, env.now, env.parseLogTime);
    DroppedTextLineKeptRaw(env, line);
  }
}
