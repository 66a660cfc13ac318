/** The per-request collector, updated in place by every call. */
module Collector {
  import opened LogTrace
  import opened CollectorSpec

  lemma NoteFourCuts(lim: Limits, st: State, a: string, b: string, c: string, d: string)
    ensures NoteCuts(lim, st, [a, b, c, d]) == NoteCut(lim, NoteCut(lim, NoteCut(lim, NoteCut(lim, st, a), b), c), d)
  {
    assert [a, b, c, d] == [a, b] + [c, d];
    NoteCutsConcat(lim, st, [a, b], [c, d]);
    NoteTwoCuts(lim, st, a, b);
    NoteTwoCuts(lim, NoteCuts(lim, st, [a, b]), c, d);
  }

  lemma NoteFieldCuts(lim: Limits, st: State, k: string, v: FieldValue)
    ensures NoteCuts(lim, st, [k] + ValueTexts(v))
         == match v
            case Text(text) => NoteCut(lim, NoteCut(lim, st, k), text)
            case Scalar(_) => NoteCut(lim, st, k)
            case Other(printed) => NoteCut(lim, NoteCut(lim, st, k), printed)
  {
    match v
    case Text(text) =>
      assert [k] + [text] == [k, text];
      NoteTwoCuts(lim, st, k, text);
    case Scalar(_) => assert [k] + ValueTexts(v) == [k] && [k][1..] == [];
    case Other(printed) =>
      assert [k] + [printed] == [k, printed];
      NoteTwoCuts(lim, st, k, printed);
  }

  /** One round of the loop over the fields, while the context is not full. */
  lemma ContextNext(lim: Limits, st: State, fields: seq<(string, FieldValue)>, i: nat, out: map<string, FieldValue>)
    requires i < |fields| && |out| < MAX_CONTEXT_KEYS
    ensures CollectorSpec.SanitizeContext(lim, st, fields[i..], out)
         == CollectorSpec.SanitizeContext(lim, NoteCuts(lim, st, [fields[i].0] + ValueTexts(fields[i].1)), fields[i + 1..],
                                          out[Cut(lim, fields[i].0) := CutValue(lim, fields[i].1)])
  {
    assert fields[i..][0] == fields[i] && fields[i..][1..] == fields[i + 1..];
  }

  /** A full context drops the rest, if there is one. */
  lemma ContextFull(lim: Limits, st: State, fields: seq<(string, FieldValue)>, i: nat, out: map<string, FieldValue>)
    requires i < |fields| && |out| >= MAX_CONTEXT_KEYS
    ensures CollectorSpec.SanitizeContext(lim, st, fields[i..], out) == (Drop(st, LogContext), out)
  {
  }

  lemma LogRecorded(lim: Limits, st: State, c: Call, noted: State, context: map<string, FieldValue>)
    requires c.LogCall?
    requires (noted, context) == CollectorSpec.SanitizeContext(lim, NoteLogTexts(lim, st, c), c.fields, map[])
    ensures RecordLog(lim, st, c)
         == noted.(logEntries := noted.logEntries + [LogEntry(Cut(lim, c.level), Cut(lim, c.message), context, c.now,
                                                              CutFrames(lim, ChosenFrames(c.trace, c.stack)))])
  {}

  lemma CutFramesLength(lim: Limits, frames: seq<Frame>)
    ensures |CutFrames(lim, frames)| == |frames|
  {}

  /** One frame of the stack more: skipped without a file, otherwise kept with its vendor mark. */
  lemma FileFramesNext(stack: seq<Frame>, i: nat, seen: seq<Frame>)
    requires i < |stack| && |seen| < MAX_FRAMES
    ensures stack[i].file == "" ==>
              FileFrames(stack[i..], MAX_FRAMES - |seen|) == FileFrames(stack[i + 1..], MAX_FRAMES - |seen|)
    ensures stack[i].file != "" ==>
              (var more := seen + [stack[i].(isVendor := IsVendorPath(stack[i].file))];
               seen + FileFrames(stack[i..], MAX_FRAMES - |seen|) == more + FileFrames(stack[i + 1..], MAX_FRAMES - |more|))
  {
    assert stack[i..][1..] == stack[i + 1..];
  }

  class Collector {
    const request: Request
    const limits: Limits
    var url: string
    var controller: string
    var traceID: string
    var spanID: string
    var headers: map<string, string>
    var userData: map<string, FieldValue>
    var response: Response
    var databaseQueries: seq<DatabaseQuery>
    var cacheQueries: seq<CacheQuery>
    var logEntries: seq<LogEntry>
    var timelineEvents: seq<TimelineEvent>
    var dropped: map<Bucket, nat>
    var truncated: bool
    var usedBytes: int

    ghost function Model(): State
      reads this
    {
      State(databaseQueries, cacheQueries, logEntries, timelineEvents, dropped, truncated, usedBytes,
            Names(url, controller, traceID, spanID, headers, userData), response)
    }

    constructor (request: Request, limits: Limits)
      ensures this.request == request
      ensures this.limits == if limits.maxStringLen <= 0 then limits.(maxStringLen := 2048) else limits
      ensures Model() == EMPTY == Run(request, this.limits, [])
    {
      this.request := request;
      this.limits := if limits.maxStringLen <= 0 then limits.(maxStringLen := DEFAULT_MAX_STRING_LEN) else limits;
      url, controller, traceID, spanID := "", "", "", "";
      headers, userData := map[], map[];
      response := Response(0, 0.0, 0, 0);
      databaseQueries, cacheQueries, logEntries, timelineEvents := [], [], [], [];
      dropped, truncated, usedBytes := map[], false, 0;
    }

    method SetResponseData(status: int, elapsed: int, now: real, memory: nat)
      modifies this
      ensures Model() == Apply(request, limits, old(Model()), ResponseCall(status, elapsed, now, memory))
    {
      response := Response(status, now, elapsed, memory);
      AppendTimelineLocked("request", request.verb + " " + request.uri, request.startTime, now, "green");
    }

    method SetHeaders(headers: map<string, string>)
      modifies this
      ensures Model() == Apply(request, limits, old(Model()), HeadersCall(headers))
    {
      this.headers := headers;
    }

    method SetUserData(key: string, data: FieldValue)
      modifies this
      ensures Model() == Apply(request, limits, old(Model()), UserDataCall(key, data))
    {
      if key == "" {
        return;
      }
      userData := userData[key := data];
    }

    method SetURL(url: string)
      modifies this
      ensures Model() == Apply(request, limits, old(Model()), UrlCall(url))
    {
      NoteOneCut(limits, Model(), url);
      this.url := Truncate(url);
    }

    method SetController(controller: string)
      modifies this
      ensures Model() == Apply(request, limits, old(Model()), ControllerCall(controller))
    {
      NoteOneCut(limits, Model(), controller);
      this.controller := Truncate(controller);
    }

    method SetTrace(traceID: string, spanID: string)
      modifies this
      ensures Model() == Apply(request, limits, old(Model()), TraceCall(traceID, spanID))
    {
      this.traceID := Truncate(traceID);
      this.spanID := Truncate(spanID);
      NoteTwoCuts(limits, old(Model()), traceID, spanID);
    }

    /** `tableName` is what the query text names, `callerFile` and `callerLine` where the call comes from. */
    method AddDatabaseQueryDetailed(query: string, elapsed: int, connection: string, slow: bool, model: string, file: string,
                                    line: int, tableName: string, callerFile: string, callerLine: int, now: real)
      modifies this
      ensures Model() == Apply(request, limits, old(Model()),
                               DatabaseCall(query, elapsed, connection, slow, model, file, line,
                                            tableName, callerFile, callerLine, now))
    {
      var ok := ReserveLocked(Database, limits.maxDBQueries, |databaseQueries|, |query| + 64);
      if !ok {
        return;
      }
      var model' := if model == "" then tableName else model;
      var (file', line') := if file == "" then (callerFile, callerLine) else (file, line);
      ghost var c := DatabaseCall(query, elapsed, connection, slow, model, file, line, tableName, callerFile, callerLine, now);
      RecordQueryLocked(query, DurationMs(elapsed), connection, model', file', line', slow, now, c);
    }

    /** The second half of the database call `c`, once its bytes are reserved. */
    method RecordQueryLocked(query: string, durationMS: real, connection: string, model: string, file: string, line: int,
                             slow: bool, now: real, ghost c: Call)
      requires c.DatabaseCall? && query == c.query && durationMS == DurationMs(c.elapsed) && connection == c.connection
      requires model == ModelOf(c) && file == FileOf(c) && line == LineOf(c) && slow == c.slow && now == c.now
      modifies this
      ensures Model() == RecordDatabase(limits, old(Model()), c)
    {
      NoteFourCuts(limits, Model(), query, connection, model, file);
      var q := Truncate(query);
      var conn := Truncate(connection);
      var m := Truncate(model);
      var f := Truncate(file);
      databaseQueries := databaseQueries + [DatabaseQuery(q, durationMS, conn, m, f, line, slow, now)];
      AppendTimelineLocked("db", q, now - durationMS, now, ColorForSlow(slow));
    }

    method AddCacheQuery(kind: string, key: string, elapsed: int, now: real)
      modifies this
      ensures Model() == Apply(request, limits, old(Model()), CacheCall(kind, key, elapsed, now))
    {
      var ok := ReserveLocked(Cache, limits.maxCacheQueries, |cacheQueries|, |key| + 48);
      if !ok {
        return;
      }
      var durationMS := DurationMs(elapsed);
      NoteTwoCuts(limits, Model(), kind, key);
      var k := Truncate(kind);
      var q := Truncate(key);
      cacheQueries := cacheQueries + [CacheQuery(k, q, durationMS, now)];
      AppendTimelineLocked("cache", k + ": " + q, now - durationMS, now, "purple");
    }

    /** `fields` come in the order the map is ranged over; `stack` is the running call stack. */
    method AddLogEntryWithTrace(level: string, message: string, fields: seq<(string, FieldValue)>, trace: seq<Frame>,
                                stack: seq<Frame>, now: real)
      modifies this
      ensures Model() == Apply(request, limits, old(Model()), LogCall(level, message, fields, trace, stack, now))
    {
      var traceBytesEstimate := |trace| * 64;
      var ok := ReserveLocked(Logs, limits.maxLogs, |logEntries|, |message| + 96 + traceBytesEstimate);
      if !ok {
        return;
      }
      ghost var reserved := Model();
      var frames := SanitizeTrace(trace);
      CutFramesLength(limits, FirstFrames(trace));
      if |frames| == 0 {
        frames := CaptureCurrentStackTrace(stack);
      }
      assert Model() == NoteCuts(limits, reserved, FrameTexts(ChosenFrames(trace, stack))) by {
        assert trace == [] ==> NoteCuts(limits, reserved, FrameTexts(FirstFrames(trace))) == reserved;
      }
      assert frames == CutFrames(limits, ChosenFrames(trace, stack));
      RecordLogLocked(level, message, fields, frames, now, LogCall(level, message, fields, trace, stack, now), reserved);
    }

    /** The second half of the log call `c`, once its bytes were reserved, as in `reserved`, and its trace was built. */
    method RecordLogLocked(level: string, message: string, fields: seq<(string, FieldValue)>, frames: seq<Frame>, now: real,
                           ghost c: Call, ghost reserved: State)
      requires c.LogCall? && level == c.level && message == c.message && fields == c.fields && now == c.now
      requires frames == CutFrames(limits, ChosenFrames(c.trace, c.stack))
      requires Model() == NoteCuts(limits, reserved, FrameTexts(ChosenFrames(c.trace, c.stack)))
      modifies this
      ensures Model() == RecordLog(limits, reserved, c)
    {
      NoteTwoCuts(limits, Model(), level, message);
      var l := Truncate(level);
      var m := Truncate(message);
      var context := SanitizeContext(fields);
      LogRecorded(limits, reserved, c, Model(), context);
      logEntries := logEntries + [LogEntry(l, m, context, now, frames)];
    }

    method AddTimelineEvent(name: string, description: string, start: real, end: real, color: string)
      modifies this
      ensures Model() == Apply(request, limits, old(Model()), TimelineCall(name, description, start, end, color))
    {
      var ok := ReserveLocked(Timeline, limits.maxTimelineEvent, |timelineEvents|, |name| + |description| + 32);
      if !ok {
        return;
      }
      AppendTimelineLocked(name, description, start, end, color);
    }

    method GetMetadata() returns (meta: RequestRecord)
      ensures meta == Snapshot(request, Model())
      ensures meta.request == request && meta.response == response
      ensures meta.names == Names(url, controller, traceID, spanID, headers, userData)
      ensures meta.databaseQueries == databaseQueries && meta.cacheQueries == cacheQueries
      ensures meta.logEntries == logEntries && meta.timelineEvents == timelineEvents
      ensures meta.truncated == truncated && meta.dropped == dropped
      ensures meta.databaseQueriesCount == |databaseQueries|
      ensures request.memoryStart + meta.memoryUsage == if response.memoryEnd > request.memoryStart then response.memoryEnd
                                                        else request.memoryStart
    {
      var totalDBDuration := 0.0;
      for i := 0 to |databaseQueries|
        invariant totalDBDuration == TotalDuration(databaseQueries[..i])
      {
        assert databaseQueries[..i + 1][..i] == databaseQueries[..i];
        totalDBDuration := totalDBDuration + databaseQueries[i].duration;
      }
      assert databaseQueries[..|databaseQueries|] == databaseQueries;
      var memoryDelta := 0;
      if response.memoryEnd > request.memoryStart {
        memoryDelta := response.memoryEnd - request.memoryStart;
      }
      meta := RequestRecord(request, response, DurationMs(response.duration),
                            Names(url, controller, traceID, spanID, headers, userData),
                            databaseQueries, |databaseQueries|, totalDBDuration, cacheQueries, logEntries, timelineEvents,
                            memoryDelta, truncated, dropped);
    }

    method ReserveLocked(bucket: Bucket, max: int, current: nat, estimate: int) returns (ok: bool)
      modifies this
      ensures (ok, Model()) == Reserve(limits, old(Model()), bucket, max, current, estimate)
    {
      if max > 0 && current >= max {
        dropped := dropped[bucket := Count(dropped, bucket) + 1];
        truncated := true;
        return false;
      }
      if limits.maxRequestBytes > 0 {
        var bytes := estimate;
        if bytes <= 0 {
          bytes := 1;
        }
        if usedBytes + bytes > limits.maxRequestBytes {
          dropped := dropped[Payload := Count(dropped, Payload) + 1];
          truncated := true;
          return false;
        }
        usedBytes := usedBytes + bytes;
      }
      return true;
    }

    method AppendTimelineLocked(name: string, description: string, start: real, end: real, color: string)
      modifies this
      ensures Model() == AppendTimeline(limits, old(Model()), name, description, start, end, color)
    {
      if limits.maxTimelineEvent > 0 && |timelineEvents| >= limits.maxTimelineEvent {
        dropped := dropped[Timeline := Count(dropped, Timeline) + 1];
        truncated := true;
        return;
      }
      var n := Truncate(name);
      var d := Truncate(description);
      NoteTwoCuts(limits, old(Model()), name, description);
      var event := TimelineEvent(n, d, start, 0.0, 0.0, color);
      if end > start {
        event := event.(end := end, duration := end - start);
      }
      timelineEvents := timelineEvents + [event];
    }

    method SanitizeContext(fields: seq<(string, FieldValue)>) returns (out: map<string, FieldValue>)
      modifies this
      ensures (Model(), out) == CollectorSpec.SanitizeContext(limits, old(Model()), fields, map[])
    {
      out := map[];
      var i := 0;
      while i < |fields|
        invariant 0 <= i <= |fields|
        invariant CollectorSpec.SanitizeContext(limits, Model(), fields[i..], out)
               == CollectorSpec.SanitizeContext(limits, old(Model()), fields, map[])
      {
        if |out| >= MAX_CONTEXT_KEYS {
          ContextFull(limits, Model(), fields, i, out);
          dropped := dropped[LogContext := Count(dropped, LogContext) + 1];
          truncated := true;
          return;
        }
        var (k, v) := fields[i];
        ContextNext(limits, Model(), fields, i, out);
        NoteFieldCuts(limits, Model(), k, v);
        var key := Truncate(k);
        match v {
          case Text(text) =>
            var cut := Truncate(text);
            out := out[key := Text(cut)];
          case Scalar(_) =>
            out := out[key := v];
          case Other(printed) =>
            var cut := Truncate(printed);
            out := out[key := Text(cut)];
        }
        i := i + 1;
      }
    }

    method SanitizeTrace(trace: seq<Frame>) returns (out: seq<Frame>)
      modifies this
      ensures out == CutFrames(limits, FirstFrames(trace))
      ensures Model() == NoteCuts(limits, old(Model()), FrameTexts(FirstFrames(trace)))
    {
      out := [];
      var i := 0;
      while i < |trace| && i < MAX_FRAMES
        invariant 0 <= i <= |trace| && i <= MAX_FRAMES
        invariant out == CutFrames(limits, trace[..i])
        invariant Model() == NoteCuts(limits, old(Model()), FrameTexts(trace[..i]))
      {
        assert trace[..i + 1] == trace[..i] + [trace[i]];
        FramesSnoc(limits, trace[..i], trace[i]);
        FrameNoted(limits, old(Model()), trace[..i], trace[i]);
        var call := Truncate(trace[i].call);
        var file := Truncate(trace[i].file);
        out := out + [Frame(call, file, trace[i].line, trace[i].isVendor)];
        i := i + 1;
      }
      assert FirstFrames(trace) == trace[..i];
    }

    method CaptureCurrentStackTrace(stack: seq<Frame>) returns (out: seq<Frame>)
      modifies this
      ensures out == CutFrames(limits, FileFrames(stack, MAX_FRAMES))
      ensures Model() == NoteCuts(limits, old(Model()), FrameTexts(FileFrames(stack, MAX_FRAMES)))
    {
      out := [];
      var i := 0;
      ghost var seen, all := [], FileFrames(stack, MAX_FRAMES);
      while |out| < MAX_FRAMES && i < |stack|
        invariant 0 <= i <= |stack| && |out| == |seen| <= MAX_FRAMES
        invariant all == seen + FileFrames(stack[i..], MAX_FRAMES - |seen|)
        invariant out == CutFrames(limits, seen)
        invariant Model() == NoteCuts(limits, old(Model()), FrameTexts(seen))
      {
        FileFramesNext(stack, i, seen);
        var frame := stack[i];
        i := i + 1;
        if frame.file == "" {
          continue;
        }
        var vendor := IsVendorPath(frame.file);
        ghost var kept := frame.(isVendor := vendor);
        FramesSnoc(limits, seen, kept);
        FrameNoted(limits, old(Model()), seen, kept);
        var call := Truncate(frame.call);
        var file := Truncate(frame.file);
        out := out + [Frame(call, file, frame.line, vendor)];
        seen := seen + [kept];
      }
      assert FileFrames(stack[i..], MAX_FRAMES - |seen|) == [] && seen + [] == seen;
    }

    method Truncate(v: string) returns (r: string)
      modifies this`truncated, this`dropped
      ensures r == Cut(limits, v)
      ensures Model() == NoteCut(limits, old(Model()), v)
    {
      if limits.maxStringLen <= 0 || |v| <= limits.maxStringLen {
        return v;
      }
      truncated := true;
      dropped := dropped[Strings := Count(dropped, Strings) + 1];
      return v[..limits.maxStringLen];
    }
  }
}
