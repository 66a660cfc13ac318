/** The byte budget, the faithful transcript, and the bounds on everything a collector holds. */
module CollectorLaws {
  import opened LogTrace
  import opened CollectorSpec
  import opened CollectorRuns

  // ---- The byte budget -----------------------------------------------------------------------

  function TotalEstimate(calls: seq<Call>): nat {
    if calls == [] then 0 else TotalEstimate(calls[..|calls| - 1]) + Estimate(calls[|calls| - 1])
  }

  lemma TotalEstimateSnoc(calls: seq<Call>, c: Call)
    ensures TotalEstimate(calls + [c]) == TotalEstimate(calls) + Estimate(c)
  {
    assert (calls + [c])[..|calls|] == calls;
  }

  /**
    With a byte budget, the bytes counted as used are exactly the estimates of the calls whose
    record was stored: nothing is charged and then dropped. They never exceed the budget.
  */
  lemma {:induction false} BudgetIsExact(req: Request, lim: Limits, calls: seq<Call>)
    ensures var st := Run(req, lim, calls);
            if lim.maxRequestBytes > 0
            then st.usedBytes == TotalEstimate(Accepted(req, lim, calls)) <= lim.maxRequestBytes
            else st.usedBytes == 0
  {
    if calls != [] {
      var before, last := calls[..|calls| - 1], calls[|calls| - 1];
      BudgetIsExact(req, lim, before);
      ApplyStep(req, lim, Run(req, lim, before), last);
      if Grew(Run(req, lim, before), Run(req, lim, calls), last) {
        TotalEstimateSnoc(Accepted(req, lim, before), last);
      } else {
        assert Accepted(req, lim, calls) == Accepted(req, lim, before);
      }
    }
  }

  function QueryBytes(queries: seq<DatabaseQuery>): nat {
    if queries == [] then 0 else QueryBytes(queries[..|queries| - 1]) + |queries[|queries| - 1].query| + 64
  }

  function CacheBytes(queries: seq<CacheQuery>): nat {
    if queries == [] then 0 else CacheBytes(queries[..|queries| - 1]) + |queries[|queries| - 1].key| + 48
  }

  function LogBytes(logs: seq<LogEntry>): nat {
    if logs == [] then 0 else LogBytes(logs[..|logs| - 1]) + |logs[|logs| - 1].message| + 96
  }

  function EventBytes(events: seq<TimelineEvent>): nat {
    if events == [] then 0
    else EventBytes(events[..|events| - 1]) + |events[|events| - 1].name| + |events[|events| - 1].description| + 32
  }

  function DirectEvent(req: Request, lim: Limits, c: Call): (events: seq<TimelineEvent>)
    ensures |events| <= 1
  {
    if c.TimelineCall? then EventFor(req, lim, c) else []
  }

  function DirectEvents(req: Request, lim: Limits, calls: seq<Call>): seq<TimelineEvent> {
    if calls == [] then []
    else
      DirectEvents(req, lim, calls[..|calls| - 1]) + DirectEvent(req, lim, calls[|calls| - 1])
  }

  lemma QueryBytesAppend(s: seq<DatabaseQuery>, more: seq<DatabaseQuery>)
    requires |more| <= 1
    ensures QueryBytes(s + more) == QueryBytes(s) + QueryBytes(more)
  {
    if more == [] { assert s + more == s; } else { assert (s + more)[..|s|] == s && more[..0] == []; }
  }

  lemma CacheBytesAppend(s: seq<CacheQuery>, more: seq<CacheQuery>)
    requires |more| <= 1
    ensures CacheBytes(s + more) == CacheBytes(s) + CacheBytes(more)
  {
    if more == [] { assert s + more == s; } else { assert (s + more)[..|s|] == s && more[..0] == []; }
  }

  lemma LogBytesAppend(s: seq<LogEntry>, more: seq<LogEntry>)
    requires |more| <= 1
    ensures LogBytes(s + more) == LogBytes(s) + LogBytes(more)
  {
    if more == [] { assert s + more == s; } else { assert (s + more)[..|s|] == s && more[..0] == []; }
  }

  lemma EventBytesAppend(s: seq<TimelineEvent>, more: seq<TimelineEvent>)
    requires |more| <= 1
    ensures EventBytes(s + more) == EventBytes(s) + EventBytes(more)
  {
    if more == [] { assert s + more == s; } else { assert (s + more)[..|s|] == s && more[..0] == []; }
  }

  /** What one stored call holds is no larger than what it reserved. */
  lemma RecordWithinEstimate(req: Request, lim: Limits, c: Call)
    ensures QueryBytes(QueryFor(lim, c)) + CacheBytes(CacheFor(lim, c)) + LogBytes(LogFor(lim, c))
            + EventBytes(DirectEvent(req, lim, c)) <= Estimate(c)
  {
    if c.DatabaseCall? {
      assert [QueryOf(lim, c)][..0] == [];
    } else if c.CacheCall? {
      assert [CacheOf(lim, c)][..0] == [];
    } else if c.LogCall? {
      assert [LogOf(lim, c)][..0] == [];
    } else if c.TimelineCall? {
      assert EventFor(req, lim, c)[..0] == [];
    }
  }

  /** The records of stored calls are no larger than what those calls reserved. */
  lemma {:induction false} RecordsWithinEstimate(req: Request, lim: Limits, kept: seq<Call>)
    ensures QueryBytes(Queries(lim, kept)) + CacheBytes(CacheOps(lim, kept)) + LogBytes(LogLines(lim, kept))
            + EventBytes(DirectEvents(req, lim, kept)) <= TotalEstimate(kept)
  {
    if kept != [] {
      var before, c := kept[..|kept| - 1], kept[|kept| - 1];
      RecordsWithinEstimate(req, lim, before);
      QueryBytesAppend(Queries(lim, before), QueryFor(lim, c));
      CacheBytesAppend(CacheOps(lim, before), CacheFor(lim, c));
      LogBytesAppend(LogLines(lim, before), LogFor(lim, c));
      EventBytesAppend(DirectEvents(req, lim, before), DirectEvent(req, lim, c));
      RecordWithinEstimate(req, lim, c);
    }
  }

  /**
    The bytes that the estimates account for: with a budget, the query, key and message texts of the
    records held, each with its fixed overhead, and the names and descriptions of the timeline events
    recorded directly never exceed the budget. The other texts of a record (connection, model, file,
    cache type, level, context, trace, the texts of derived events) are in no estimate.
  */
  lemma RetainedBytes(req: Request, lim: Limits, calls: seq<Call>)
    requires lim.maxRequestBytes > 0
    ensures var st := Run(req, lim, calls);
            QueryBytes(st.databaseQueries) + CacheBytes(st.cacheQueries) + LogBytes(st.logEntries)
            + EventBytes(DirectEvents(req, lim, Accepted(req, lim, calls))) <= lim.maxRequestBytes
  {
    BudgetIsExact(req, lim, calls);
    HoldsAccepted(req, lim, calls);
    RecordsWithinEstimate(req, lim, Accepted(req, lim, calls));
  }

  // ---- Faithful transcript -------------------------------------------------------------------

  const NO_LIMITS := Limits(0, 0, 0, 0, 0, 0)

  /** The log record of a call as it came: no text cut, every field, the first frames of the trace. */
  function RawLog(c: Call): LogEntry
    requires c.LogCall?
  {
    LogEntry(c.level, c.message, RawContext(c.fields, map[]), c.now, ChosenFrames(c.trace, c.stack))
  }

  function RawLogs(calls: seq<Call>): seq<LogEntry> {
    if calls == [] then []
    else RawLogs(calls[..|calls| - 1]) + if calls[|calls| - 1].LogCall? then [RawLog(calls[|calls| - 1])] else []
  }

  /** The texts that the collector's `truncate` sees on one call, when the call records. */
  lemma {:induction false} FramesUncut(lim: Limits, frames: seq<Frame>)
    requires forall v :: v in FrameTexts(frames) ==> !TooLong(lim, v)
    ensures CutFrames(lim, frames) == frames
  {
    if frames != [] {
      assert FrameTexts(frames) == [frames[0].call, frames[0].file] + FrameTexts(frames[1..]);
      assert frames[0].call in FrameTexts(frames) && frames[0].file in FrameTexts(frames);
      FramesUncut(lim, frames[1..]);
    }
  }

  lemma EventUncut(lim: Limits, st: State, name: string, description: string, start: real, end: real, color: string)
    requires !AppendTimeline(lim, st, name, description, start, end, color).truncated
    ensures EventOf(lim, name, description, start, end, color) == EventOf(NO_LIMITS, name, description, start, end, color)
    ensures !st.truncated
  {
    NoteCutsIsNoted(lim, st, [name, description]);
    assert name in [name, description] && description in [name, description];
  }

  /** If the flag is down after a call, every text of its record is the text passed in. */
  lemma DatabaseUncut(req: Request, lim: Limits, st: State, c: Call)
    requires c.DatabaseCall? && !Apply(req, lim, st, c).truncated
    ensures QueryOf(lim, c) == QueryOf(NO_LIMITS, c) && EventFor(req, lim, c) == EventFor(req, NO_LIMITS, c)
  {
    var (ok, st1) := Reserve(lim, st, Database, lim.maxDBQueries, |st.databaseQueries|, Estimate(c));
    var texts := [c.query, c.connection, ModelOf(c), FileOf(c)];
    var dq := QueryOf(lim, c);
    NoteCutsIsNoted(lim, st1, texts);
    var st2 := NoteCuts(lim, st1, texts);
    var st3 := st2.(databaseQueries := st2.databaseQueries + [dq]);
    EventUncut(lim, st3, "db", dq.query, c.now - dq.duration, c.now, ColorForSlow(c.slow));
    assert c.query in texts && c.connection in texts && ModelOf(c) in texts && FileOf(c) in texts;
  }

  lemma CacheUncut(req: Request, lim: Limits, st: State, c: Call)
    requires c.CacheCall? && !Apply(req, lim, st, c).truncated
    ensures CacheOf(lim, c) == CacheOf(NO_LIMITS, c) && EventFor(req, lim, c) == EventFor(req, NO_LIMITS, c)
  {
    var (ok, st1) := Reserve(lim, st, Cache, lim.maxCacheQueries, |st.cacheQueries|, Estimate(c));
    var texts := [c.kind, c.key];
    var cq := CacheOf(lim, c);
    NoteCutsIsNoted(lim, st1, texts);
    var st2 := NoteCuts(lim, st1, texts);
    var st3 := st2.(cacheQueries := st2.cacheQueries + [cq]);
    EventUncut(lim, st3, "cache", cq.kind + ": " + cq.key, c.now - cq.duration, c.now, "purple");
    assert c.kind in texts && c.key in texts;
  }

  lemma LogUncut(req: Request, lim: Limits, st: State, c: Call)
    requires c.LogCall? && !Apply(req, lim, st, c).truncated
    ensures LogOf(lim, c) == RawLog(c)
  {
    var (ok, st1) := Reserve(lim, st, Logs, lim.maxLogs, |st.logEntries|, Estimate(c));
    var frames := ChosenFrames(c.trace, c.stack);
    var st2 := NoteCuts(lim, st1, FrameTexts(frames));
    var texts := [c.level, c.message];
    var st3 := NoteCuts(lim, st2, texts);
    NoteCutsIsNoted(lim, st1, FrameTexts(frames));
    NoteCutsIsNoted(lim, st2, texts);
    SanitizeContextIsNoted(lim, st3, c.fields, map[]);
    assert c.level in texts && c.message in texts;
    FramesUncut(lim, frames);
  }

  lemma EventForUncut(req: Request, lim: Limits, st: State, c: Call)
    requires !Apply(req, lim, st, c).truncated
    ensures EventFor(req, lim, c) == EventFor(req, NO_LIMITS, c)
  {
    match c
    case DatabaseCall(_, _, _, _, _, _, _, _, _, _, _) => DatabaseUncut(req, lim, st, c);
    case CacheCall(_, _, _, _) => CacheUncut(req, lim, st, c);
    case TimelineCall(name, description, start, end, color) =>
      var (ok, st1) := Reserve(lim, st, Timeline, lim.maxTimelineEvent, |st.timelineEvents|, Estimate(c));
      EventUncut(lim, st1, name, description, start, end, color);
    case ResponseCall(status, elapsed, now, memory) =>
      EventUncut(lim, st.(response := Response(status, now, elapsed, memory)),
                 "request", req.verb + " " + req.uri, req.startTime, now, "green");
    case _ =>
  }

  /**
    Faithful transcript: as long as the truncation flag is down, the collector holds the whole
    transcript. Every database, cache and log call is there, in call order and with every text
    as it came, and the timeline has one event per database, cache, direct and response call.
  */
  lemma {:induction false} FaithfulTranscript(req: Request, lim: Limits, calls: seq<Call>)
    requires !Run(req, lim, calls).truncated
    ensures var st := Run(req, lim, calls);
            && st.databaseQueries == Queries(NO_LIMITS, calls)
            && st.cacheQueries == CacheOps(NO_LIMITS, calls)
            && st.logEntries == RawLogs(calls)
            && st.timelineEvents == Events(req, NO_LIMITS, calls)
  {
    if calls != [] {
      var before, c := calls[..|calls| - 1], calls[|calls| - 1];
      var st := Run(req, lim, before);
      ApplyStep(req, lim, st, c);
      FaithfulTranscript(req, lim, before);
      EventForUncut(req, lim, st, c);
      if c.DatabaseCall? {
        DatabaseUncut(req, lim, st, c);
      } else if c.CacheCall? {
        CacheUncut(req, lim, st, c);
      } else if c.LogCall? {
        LogUncut(req, lim, st, c);
      }
    }
  }

  // ---- Traces of log calls ---------------------------------------------------------------------

  function LogCalls(calls: seq<Call>): (logs: seq<Call>)
    ensures forall c :: c in logs ==> c.LogCall?
  {
    if calls == [] then []
    else LogCalls(calls[..|calls| - 1]) + if calls[|calls| - 1].LogCall? then [calls[|calls| - 1]] else []
  }

  lemma {:induction false} NoRawLogs(calls: seq<Call>)
    requires LogCalls(calls) == []
    ensures RawLogs(calls) == []
  {
    if calls != [] {
      NoRawLogs(calls[..|calls| - 1]);
    }
  }

  lemma {:induction false} RawLogsAt(calls: seq<Call>, k: nat)
    requires k < |LogCalls(calls)|
    ensures |RawLogs(calls)| == |LogCalls(calls)| && RawLogs(calls)[k] == RawLog(LogCalls(calls)[k])
  {
    var before := calls[..|calls| - 1];
    if k < |LogCalls(before)| {
      RawLogsAt(before, k);
    } else if LogCalls(before) != [] {
      RawLogsAt(before, 0);
    } else {
      NoRawLogs(before);
    }
  }

  /**
    The one loss that raises no flag: while the flag is down, a log call that came with a trace is
    stored with its whole trace exactly if the trace has at most twelve frames.
  */
  lemma WholeTraceIff(req: Request, lim: Limits, calls: seq<Call>, k: nat)
    requires !Run(req, lim, calls).truncated
    requires k < |LogCalls(calls)| && LogCalls(calls)[k].trace != []
    ensures var st, c := Run(req, lim, calls), LogCalls(calls)[k];
            && k < |st.logEntries|
            && (st.logEntries[k].trace == c.trace <==> |c.trace| <= MAX_FRAMES)
  {
    FaithfulTranscript(req, lim, calls);
    RawLogsAt(calls, k);
  }

  function Numbered(n: nat): (frames: seq<Frame>)
    ensures |frames| == n
  {
    if n == 0 then [] else Numbered(n - 1) + [Frame("f", "g.go", n, false)]
  }

  lemma {:induction false} NumberedAreShort(lim: Limits, st: State, n: nat)
    requires lim.maxStringLen >= 4
    ensures NoteCuts(lim, st, FrameTexts(Numbered(n))) == st
  {
    if n > 0 {
      NumberedAreShort(lim, st, n - 1);
      FrameNoted(lim, st, Numbered(n - 1), Frame("f", "g.go", n, false));
    }
  }

  lemma TwelveOfThirteen()
    ensures FirstFrames(Numbered(13)) == Numbered(12)
  {
    assert Numbered(13)[..12] == Numbered(12);
  }

  /** Within the string limit, if there is one. */
  predicate Short(lim: Limits, v: string) {
    lim.maxStringLen > 0 ==> |v| <= lim.maxStringLen
  }

  lemma {:induction false} CutFramesAreShort(lim: Limits, frames: seq<Frame>)
    ensures |CutFrames(lim, frames)| == |frames|
    ensures forall f :: f in CutFrames(lim, frames) ==> Short(lim, f.call) && Short(lim, f.file)
  {
    if frames != [] {
      CutFramesAreShort(lim, frames[1..]);
    }
  }

  /** One log call with thirteen short frames, far from every limit: twelve are stored, and the flag stays down. */
  lemma ThirteenFrames(req: Request)
    ensures var lim := Limits(262144, 2048, 100, 100, 100, 100);
            var c := LogCall("info", "hello", [], Numbered(13), [], 0.0);
            var st := Run(req, lim, [c]);
            !st.truncated && |st.logEntries| == 1 && |st.logEntries[0].trace| == 12
  {
    var lim := Limits(262144, 2048, 100, 100, 100, 100);
    var c := LogCall("info", "hello", [], Numbered(13), [], 0.0);
    assert [c][..0] == [] && Run(req, lim, [c]) == Apply(req, lim, EMPTY, c);
    var reserved := EMPTY.(usedBytes := Estimate(c));
    assert Reserve(lim, EMPTY, Logs, lim.maxLogs, 0, Estimate(c)) == (true, reserved);
    TwelveOfThirteen();
    NumberedAreShort(lim, reserved, 12);
    NoteTwoCuts(lim, reserved, c.level, c.message);
    CutFramesAreShort(lim, Numbered(12));
  }

  // ---- Bounds ----------------------------------------------------------------------------------

  predicate ShortQuery(lim: Limits, q: DatabaseQuery) {
    Short(lim, q.query) && Short(lim, q.connection) && Short(lim, q.model) && Short(lim, q.file)
  }

  predicate ShortFrames(lim: Limits, frames: seq<Frame>) {
    |frames| <= MAX_FRAMES && forall f :: f in frames ==> Short(lim, f.call) && Short(lim, f.file)
  }

  predicate ShortContext(lim: Limits, context: map<string, FieldValue>) {
    && |context| <= MAX_CONTEXT_KEYS
    && (forall k :: k in context ==> Short(lim, k) && !context[k].Other? && (context[k].Text? ==> Short(lim, context[k].text)))
  }

  predicate ShortLog(lim: Limits, e: LogEntry) {
    Short(lim, e.level) && Short(lim, e.message) && ShortContext(lim, e.context) && ShortFrames(lim, e.trace)
  }

  predicate Under(max: int, n: nat) {
    max > 0 ==> n <= max
  }

  lemma {:induction false} ContextIsShort(lim: Limits, st: State, fields: seq<(string, FieldValue)>, out: map<string, FieldValue>)
    requires ShortContext(lim, out)
    ensures ShortContext(lim, SanitizeContext(lim, st, fields, out).1)
    decreases fields
  {
    if fields != [] && |out| < MAX_CONTEXT_KEYS {
      var (k, v) := fields[0];
      var out' := out[Cut(lim, k) := CutValue(lim, v)];
      assert out'.Keys == out.Keys + {Cut(lim, k)};
      assert |out'| <= |out| + 1;
      ContextIsShort(lim, NoteCuts(lim, st, [k] + ValueTexts(v)), fields[1..], out');
    }
  }

  lemma {:induction false} FileFramesCapped(stack: seq<Frame>, n: nat)
    ensures |FileFrames(stack, n)| <= n
    ensures forall f :: f in FileFrames(stack, n) ==> f.file != ""
  {
    if stack != [] && n > 0 {
      FileFramesCapped(stack[1..], if stack[0].file == "" then n else n - 1);
    }
  }

  lemma LogIsShort(lim: Limits, c: Call)
    requires c.LogCall?
    ensures ShortLog(lim, LogOf(lim, c))
  {
    ContextIsShort(lim, EMPTY, c.fields, map[]);
    CutFramesAreShort(lim, ChosenFrames(c.trace, c.stack));
    FileFramesCapped(c.stack, MAX_FRAMES);
  }

  lemma EventIsShort(req: Request, lim: Limits, c: Call)
    ensures forall e :: e in EventFor(req, lim, c) ==> Short(lim, e.name) && Short(lim, e.description)
  {}

  /** No list outgrows its cap. */
  ghost predicate Capped(lim: Limits, st: State) {
    && Under(lim.maxDBQueries, |st.databaseQueries|) && Under(lim.maxCacheQueries, |st.cacheQueries|)
    && Under(lim.maxLogs, |st.logEntries|) && Under(lim.maxTimelineEvent, |st.timelineEvents|)
  }

  lemma CapsKept(req: Request, lim: Limits, st: State, c: Call)
    requires Capped(lim, st)
    ensures Capped(lim, Apply(req, lim, st, c))
  {
    ApplyStep(req, lim, st, c);
  }

  ghost predicate ShortNames(lim: Limits, st: State) {
    Short(lim, st.names.url) && Short(lim, st.names.controller) && Short(lim, st.names.traceID) && Short(lim, st.names.spanID)
  }

  lemma NamesKept(req: Request, lim: Limits, st: State, c: Call)
    requires ShortNames(lim, st)
    ensures ShortNames(lim, Apply(req, lim, st, c))
  {
    ApplyStep(req, lim, st, c);
  }

  /** What is held besides the caps: every text, context and trace is within its limit. */
  ghost predicate ShortTexts(lim: Limits, st: State) {
    && (forall q :: q in st.databaseQueries ==> ShortQuery(lim, q))
    && (forall q :: q in st.cacheQueries ==> Short(lim, q.kind) && Short(lim, q.key))
    && (forall e :: e in st.logEntries ==> ShortLog(lim, e))
    && (forall e :: e in st.timelineEvents ==> Short(lim, e.name) && Short(lim, e.description))
  }

  lemma TextsKept(req: Request, lim: Limits, st: State, c: Call)
    requires ShortTexts(lim, st)
    ensures ShortTexts(lim, Apply(req, lim, st, c))
  {
    ApplyStep(req, lim, st, c);
    EventIsShort(req, lim, c);
    if c.LogCall? {
      LogIsShort(lim, c);
    }
  }

  /**
    The state bound: after any run and for any order in which log fields are ranged over, no
    list outgrows its cap, no text its length, no log context its 20 keys, no trace its 12 frames.
    The texts are all those of the records and events, and the URL, controller, trace and span ids.
  */
  lemma {:induction false} AlwaysBounded(req: Request, lim: Limits, calls: seq<Call>)
    ensures var st := Run(req, lim, calls); Capped(lim, st) && ShortTexts(lim, st) && ShortNames(lim, st)
  {
    if calls != [] {
      var before, c := calls[..|calls| - 1], calls[|calls| - 1];
      AlwaysBounded(req, lim, before);
      CapsKept(req, lim, Run(req, lim, before), c);
      TextsKept(req, lim, Run(req, lim, before), c);
      NamesKept(req, lim, Run(req, lim, before), c);
    }
  }

  // ---- The timeline ----------------------------------------------------------------------------

  /** The calls that offered an event to the timeline: those whose record was stored, and the responses. */
  function Offering(req: Request, lim: Limits, calls: seq<Call>): seq<Call> {
    if calls == [] then []
    else
      var before, last := calls[..|calls| - 1], calls[|calls| - 1];
      Offering(req, lim, before) +
      if Offers(Run(req, lim, before), Run(req, lim, calls), last) then [last] else []
  }

  function FirstEvents(lim: Limits, events: seq<TimelineEvent>): seq<TimelineEvent> {
    if 0 < lim.maxTimelineEvent <= |events| then events[..lim.maxTimelineEvent] else events
  }

  lemma EventsSnoc(req: Request, lim: Limits, calls: seq<Call>, c: Call)
    ensures Events(req, lim, calls + [c]) == Events(req, lim, calls) + EventFor(req, lim, c)
  {
    assert (calls + [c])[..|calls|] == calls;
  }

  lemma FirstEventsMore(lim: Limits, events: seq<TimelineEvent>, more: seq<TimelineEvent>)
    requires |more| <= 1
    ensures FirstEvents(lim, events + more)
         == if 0 < lim.maxTimelineEvent <= |FirstEvents(lim, events)| then FirstEvents(lim, events)
            else FirstEvents(lim, events) + more
  {
    if 0 < lim.maxTimelineEvent <= |events| {
      assert (events + more)[..lim.maxTimelineEvent] == events[..lim.maxTimelineEvent];
    } else if lim.maxTimelineEvent == |events + more| {
      assert (events + more)[..lim.maxTimelineEvent] == events + more;
    }
  }

  lemma TimelineTakes(req: Request, lim: Limits, st: State, st': State, c: Call, events: seq<TimelineEvent>)
    requires TimelineStep(req, lim, st, st', c) && st.timelineEvents == FirstEvents(lim, events)
    ensures st'.timelineEvents == FirstEvents(lim, events + if Offers(st, st', c) then EventFor(req, lim, c) else [])
  {
    var more := if Offers(st, st', c) then EventFor(req, lim, c) else [];
    FirstEventsMore(lim, events, more);
    assert more == [] ==> FirstEvents(lim, events) + more == FirstEvents(lim, events);
  }

  /** How the events of the offering calls grow with one more call. */
  lemma OfferingStep(req: Request, lim: Limits, before: seq<Call>, c: Call)
    ensures Events(req, lim, Offering(req, lim, before + [c]))
         == Events(req, lim, Offering(req, lim, before)) +
            if Offers(Run(req, lim, before), Run(req, lim, before + [c]), c) then EventFor(req, lim, c) else []
  {
    assert (before + [c])[..|before|] == before;
    var offering := Offering(req, lim, before);
    EventsSnoc(req, lim, offering, c);
    assert offering + [] == offering && Events(req, lim, offering) + [] == Events(req, lim, offering);
  }

  /**
    What the timeline holds, dropped calls or not: the first events, as many as its cap allows, of
    the calls whose record was stored and of the responses, in call order.
  */
  lemma {:induction false} TimelineIsExact(req: Request, lim: Limits, calls: seq<Call>)
    ensures Run(req, lim, calls).timelineEvents == FirstEvents(lim, Events(req, lim, Offering(req, lim, calls)))
  {
    if calls != [] {
      var before, c := calls[..|calls| - 1], calls[|calls| - 1];
      assert calls == before + [c];
      TimelineIsExact(req, lim, before);
      ApplyStep(req, lim, Run(req, lim, before), c);
      OfferingStep(req, lim, before, c);
      TimelineTakes(req, lim, Run(req, lim, before), Run(req, lim, calls), c, Events(req, lim, Offering(req, lim, before)));
    }
  }

  // ---- The trace id a snapshot shows -----------------------------------------------------------

  lemma TraceKept(req: Request, lim: Limits, st: State, c: Call)
    requires !c.TraceCall?
    ensures Snapshot(req, Apply(req, lim, st, c)).names.traceID == Snapshot(req, st).names.traceID
  {
    ApplyStep(req, lim, st, c);
  }

  lemma RunLast(req: Request, lim: Limits, calls: seq<Call>, c: Call)
    ensures Run(req, lim, calls + [c]) == Apply(req, lim, Run(req, lim, calls), c)
  {
    assert (calls + [c])[..|calls|] == calls;
  }

  /** No other call than `SetTrace` changes the trace id, so a snapshot shows the cut form of the last one set. */
  lemma {:induction false} TraceIsLastSet(req: Request, lim: Limits, calls: seq<Call>, traceID: string, spanID: string, rest: seq<Call>)
    requires forall c :: c in rest ==> !c.TraceCall?
    ensures Snapshot(req, Run(req, lim, calls + [TraceCall(traceID, spanID)] + rest)).names.traceID == Cut(lim, traceID)
    decreases |rest|
  {
    var start := calls + [TraceCall(traceID, spanID)];
    if rest == [] {
      assert start + rest == start;
      RunLast(req, lim, calls, TraceCall(traceID, spanID));
    } else {
      var before, c := rest[..|rest| - 1], rest[|rest| - 1];
      assert start + rest == start + before + [c];
      TraceIsLastSet(req, lim, calls, traceID, spanID, before);
      RunLast(req, lim, start + before, c);
      TraceKept(req, lim, Run(req, lim, start + before), c);
    }
  }

  // ---- Durations -------------------------------------------------------------------------------

  /** `us` whole microseconds are `ns` nanoseconds rounded toward zero. */
  predicate Micros(ns: int, us: int) {
    if ns >= 0 then 1000 * us <= ns < 1000 * us + 1000 else 1000 * us - 1000 < ns <= 1000 * us
  }

  /** A duration in nanoseconds loses less than one microsecond, toward zero, when shown in milliseconds. */
  lemma DurationLosesMicroseconds(elapsed: int)
    ensures exists us: int :: DurationMs(elapsed) == us as real / 1000.0 && Micros(elapsed, us)
  {
    var us := if elapsed >= 0 then elapsed / 1000 else -((-elapsed) / 1000);
    assert DurationMs(elapsed) == us as real / 1000.0 && Micros(elapsed, us);
  }

  /** The time that the database calls took, in milliseconds. */
  function DatabaseTime(calls: seq<Call>): real {
    if calls == [] then 0.0
    else
      var c := calls[|calls| - 1];
      DatabaseTime(calls[..|calls| - 1]) + if c.DatabaseCall? then DurationMs(c.elapsed) else 0.0
  }

  lemma {:induction false} TotalDurationOfQueries(lim: Limits, kept: seq<Call>)
    ensures TotalDuration(Queries(lim, kept)) == DatabaseTime(kept)
  {
    if kept != [] {
      var before, c := kept[..|kept| - 1], kept[|kept| - 1];
      var qs := Queries(lim, before);
      TotalDurationOfQueries(lim, before);
      if c.DatabaseCall? {
        assert (qs + [QueryOf(lim, c)])[..|qs|] == qs;
      } else {
        assert qs + [] == qs;
      }
    }
  }

  /** A snapshot's count and total time are those of the database calls that were recorded. */
  lemma SnapshotTotals(req: Request, lim: Limits, calls: seq<Call>)
    ensures var kept := Accepted(req, lim, calls);
            var snapshot := Snapshot(req, Run(req, lim, calls));
            && snapshot.databaseDuration == DatabaseTime(kept)
            && snapshot.databaseQueries == Queries(lim, kept)
            && snapshot.databaseQueriesCount == |Queries(lim, kept)|
  {
    HoldsAccepted(req, lim, calls);
    TotalDurationOfQueries(lim, Accepted(req, lim, calls));
  }

  /** An event ends where its duration says, or shows neither end nor duration. */
  predicate Spans(e: TimelineEvent) {
    if e.duration > 0.0 then e.end == e.start + e.duration else e.end == 0.0 && e.duration == 0.0
  }

  lemma EventSpans(req: Request, lim: Limits, c: Call)
    ensures forall e :: e in EventFor(req, lim, c) ==> Spans(e)
  {}

  /** No event of a run ends before it starts. */
  lemma {:induction false} EventsSpan(req: Request, lim: Limits, calls: seq<Call>)
    ensures forall e :: e in Run(req, lim, calls).timelineEvents ==> Spans(e)
  {
    if calls != [] {
      var before, c := calls[..|calls| - 1], calls[|calls| - 1];
      EventsSpan(req, lim, before);
      ApplyStep(req, lim, Run(req, lim, before), c);
      EventSpans(req, lim, c);
    }
  }
}
