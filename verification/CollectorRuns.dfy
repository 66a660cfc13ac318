/** What a collector holds after any run of calls, under any limits. */
module CollectorRuns {
  import opened LogTrace
  import opened CollectorSpec

  // ---- Notes: the part of a step that only touches the ledger -----------------------------

  /** The truncation flag is up exactly if something is in the ledger, and no counter is zero. */
  ghost predicate Ledger(st: State) {
    && (st.truncated <==> st.dropped != map[])
    && (forall b :: b in st.dropped ==> st.dropped[b] >= 1)
  }

  /**
    From `st` to `st'` at most cut strings and left-out context keys were counted. If the
    flag is still down afterwards, nothing happened at all.
  */
  ghost predicate Noted(st: State, st': State) {
    && st' == st.(dropped := st'.dropped, truncated := st'.truncated)
    && (forall b :: Count(st.dropped, b) <= Count(st'.dropped, b))
    && (forall b :: b != Strings && b != LogContext ==> Count(st.dropped, b) == Count(st'.dropped, b))
    && (st.truncated ==> st'.truncated)
    && (!st'.truncated ==> st' == st)
    && (Ledger(st) ==> Ledger(st'))
  }

  lemma DropIsNoted(st: State, b: Bucket)
    requires b == Strings || b == LogContext
    ensures Noted(st, Drop(st, b)) && Drop(st, b).truncated
  {
    assert b in Drop(st, b).dropped;
  }

  lemma {:induction false} NoteCutsIsNoted(lim: Limits, st: State, vs: seq<string>)
    ensures Noted(st, NoteCuts(lim, st, vs))
    ensures !NoteCuts(lim, st, vs).truncated ==> forall v :: v in vs ==> !TooLong(lim, v)
    decreases vs
  {
    if vs != [] {
      DropIsNoted(st, Strings);
      NoteCutsIsNoted(lim, NoteCut(lim, st, vs[0]), vs[1..]);
      assert vs == [vs[0]] + vs[1..];
    }
  }

  /** The context under no limits: every field under its own key, as it came. */
  function RawContext(fields: seq<(string, FieldValue)>, out: map<string, FieldValue>): map<string, FieldValue>
    decreases fields
  {
    if fields == [] then out
    else RawContext(fields[1..], out[fields[0].0 := if fields[0].1.Other? then Text(fields[0].1.printed) else fields[0].1])
  }

  /** The context does not depend on the ledger, and is the raw one when nothing was noted. */
  lemma {:induction false} SanitizeContextIsNoted(lim: Limits, st: State, fields: seq<(string, FieldValue)>, out: map<string, FieldValue>)
    ensures var (st', context) := SanitizeContext(lim, st, fields, out);
            && Noted(st, st')
            && context == SanitizeContext(lim, EMPTY, fields, out).1
            && (!st'.truncated ==> context == RawContext(fields, out))
    decreases fields
  {
    DropIsNoted(st, LogContext);
    if fields != [] && |out| < MAX_CONTEXT_KEYS {
      var (k, v) := fields[0];
      var texts := [k] + ValueTexts(v);
      var st1 := NoteCuts(lim, st, texts);
      var st2 := NoteCuts(lim, EMPTY, texts);
      var out' := out[Cut(lim, k) := CutValue(lim, v)];
      NoteCutsIsNoted(lim, st, texts);
      SanitizeContextIsNoted(lim, st1, fields[1..], out');
      SanitizeContextIsNoted(lim, st2, fields[1..], out');
      assert !st1.truncated ==> k in texts && forall t :: t in ValueTexts(v) ==> t in texts;
    }
  }

  lemma LogNotes(lim: Limits, st: State, c: Call)
    requires c.LogCall?
    ensures var (st', context) := SanitizeContext(lim, NoteLogTexts(lim, st, c), c.fields, map[]);
            Noted(st, st') && LogOf(lim, c).context == context
  {
    var st2 := NoteCuts(lim, st, FrameTexts(ChosenFrames(c.trace, c.stack)));
    var st3 := NoteCuts(lim, st2, [c.level, c.message]);
    NoteCutsIsNoted(lim, st, FrameTexts(ChosenFrames(c.trace, c.stack)));
    NoteCutsIsNoted(lim, st2, [c.level, c.message]);
    SanitizeContextIsNoted(lim, st3, c.fields, map[]);
  }

  // ---- The shape of every step --------------------------------------------------------------

  /** The timeline event that a call derives, or that it is. */
  function EventFor(req: Request, lim: Limits, c: Call): (events: seq<TimelineEvent>)
    ensures |events| <= 1
  {
    match c
    case DatabaseCall(_, _, _, _, _, _, _, _, _, _, _) =>
      var dq := QueryOf(lim, c);
      [EventOf(lim, "db", dq.query, c.now - dq.duration, c.now, ColorForSlow(c.slow))]
    case CacheCall(_, _, _, _) =>
      var cq := CacheOf(lim, c);
      [EventOf(lim, "cache", cq.kind + ": " + cq.key, c.now - cq.duration, c.now, "purple")]
    case TimelineCall(name, description, start, end, color) => [EventOf(lim, name, description, start, end, color)]
    case ResponseCall(_, _, now, _) => [EventOf(lim, "request", req.verb + " " + req.uri, req.startTime, now, "green")]
    case _ => []
  }

  function QueryFor(lim: Limits, c: Call): seq<DatabaseQuery> {
    if c.DatabaseCall? then [QueryOf(lim, c)] else []
  }

  function CacheFor(lim: Limits, c: Call): seq<CacheQuery> {
    if c.CacheCall? then [CacheOf(lim, c)] else []
  }

  function LogFor(lim: Limits, c: Call): seq<LogEntry> {
    if c.LogCall? then [LogOf(lim, c)] else []
  }

  predicate IsRecording(c: Call) {
    c.DatabaseCall? || c.CacheCall? || c.LogCall? || c.TimelineCall? || c.ResponseCall?
  }

  /** The part of the state that the drop counters and the four lists make up. */
  function Weight(st: State): nat {
    |st.logEntries| + |st.timelineEvents|
    + Count(st.dropped, Database) + Count(st.dropped, Cache) + Count(st.dropped, Logs)
    + Count(st.dropped, Timeline) + Count(st.dropped, Payload)
  }

  /** `st'` is a later state than `st`: lists only grow at the end and counters never decrease. */
  ghost predicate Extends(st: State, st': State) {
    && st.databaseQueries <= st'.databaseQueries
    && st.cacheQueries <= st'.cacheQueries
    && st.logEntries <= st'.logEntries
    && st.timelineEvents <= st'.timelineEvents
    && (forall b :: Count(st.dropped, b) <= Count(st'.dropped, b))
    && (st.truncated ==> st'.truncated)
    && st.usedBytes <= st'.usedBytes
  }

  /** Whether the call's own record went into its own list. */
  predicate Grew(st: State, st': State, c: Call) {
    match c
    case DatabaseCall(_, _, _, _, _, _, _, _, _, _, _) => |st'.databaseQueries| > |st.databaseQueries|
    case CacheCall(_, _, _, _) => |st'.cacheQueries| > |st.cacheQueries|
    case LogCall(_, _, _, _, _, _) => |st'.logEntries| > |st.logEntries|
    case TimelineCall(_, _, _, _, _) => |st'.timelineEvents| > |st.timelineEvents|
    case _ => false
  }

  /** The ledger part of one step: nothing is lost, and a recording call weighs exactly one. */
  ghost predicate LedgerStep(st: State, st': State, weight: nat) {
    && Extends(st, st')
    && (Ledger(st) ==> Ledger(st'))
    && Weight(st') == Weight(st) + weight
  }

  /** The byte budget part: only a stored record is charged, and never beyond the budget. */
  ghost predicate BudgetStep(lim: Limits, st: State, st': State, c: Call) {
    && st'.usedBytes == st.usedBytes + (if Grew(st, st', c) && lim.maxRequestBytes > 0 then Estimate(c) else 0)
    && (lim.maxRequestBytes > 0 && st.usedBytes <= lim.maxRequestBytes ==> st'.usedBytes <= lim.maxRequestBytes)
  }

  /** The list part: what is added is the record of the call, and all of it if the flag stays down. */
  ghost predicate ListStep(req: Request, lim: Limits, st: State, st': State, c: Call) {
    && st'.databaseQueries == st.databaseQueries + (if Grew(st, st', c) then QueryFor(lim, c) else [])
    && st'.cacheQueries == st.cacheQueries + (if Grew(st, st', c) then CacheFor(lim, c) else [])
    && st'.logEntries == st.logEntries + (if Grew(st, st', c) then LogFor(lim, c) else [])
    && (!st'.truncated ==>
          && st'.timelineEvents == st.timelineEvents + EventFor(req, lim, c)
          && (IsRecording(c) && !c.ResponseCall? ==> Grew(st, st', c)))
  }

  predicate TimelineFull(lim: Limits, st: State) {
    lim.maxTimelineEvent > 0 && |st.timelineEvents| >= lim.maxTimelineEvent
  }

  /** The list that the call's own record goes into is not full. */
  predicate RoomFor(lim: Limits, st: State, c: Call) {
    match c
    case DatabaseCall(_, _, _, _, _, _, _, _, _, _, _) => lim.maxDBQueries <= 0 || |st.databaseQueries| < lim.maxDBQueries
    case CacheCall(_, _, _, _) => lim.maxCacheQueries <= 0 || |st.cacheQueries| < lim.maxCacheQueries
    case LogCall(_, _, _, _, _, _) => lim.maxLogs <= 0 || |st.logEntries| < lim.maxLogs
    case _ => !TimelineFull(lim, st)
  }

  /** Whether the call has an event for the timeline: its own record was stored, or it is a response. */
  predicate Offers(st: State, st': State, c: Call) {
    Grew(st, st', c) || c.ResponseCall?
  }

  /** The timeline part: an event that is offered goes on it unless it is full, and nothing else does. */
  ghost predicate TimelineStep(req: Request, lim: Limits, st: State, st': State, c: Call) {
    st'.timelineEvents
      == if Offers(st, st', c) && !TimelineFull(lim, st) then st.timelineEvents + EventFor(req, lim, c) else st.timelineEvents
  }

  /** Everything the main results need to know about one call. */
  ghost predicate StepOk(req: Request, lim: Limits, st: State, st': State, c: Call) {
    && LedgerStep(st, st', if IsRecording(c) then 1 else 0)
    && BudgetStep(lim, st, st', c)
    && ListStep(req, lim, st, st', c)
    && TimelineStep(req, lim, st, st', c)
    && (Grew(st, st', c) ==> RoomFor(lim, st, c))
    && (IsRecording(c) ==> st'.names == st.names)
  }

  /** One event went to the end of the timeline, or was counted as a drop when the timeline was full. */
  ghost predicate Appended(lim: Limits, st: State, st': State, event: TimelineEvent) {
    && LedgerStep(st, st', 1)
    && st'.names == st.names
    && st'.databaseQueries == st.databaseQueries
    && st'.cacheQueries == st.cacheQueries
    && st'.logEntries == st.logEntries
    && st'.usedBytes == st.usedBytes
    && st'.timelineEvents == (if TimelineFull(lim, st) then st.timelineEvents else st.timelineEvents + [event])
    && (!st'.truncated ==> !TimelineFull(lim, st))
  }

  /** The bytes of the call are reserved, within the budget if there is one. */
  ghost predicate Reserved(lim: Limits, st: State, st': State, c: Call) {
    && st' == st.(usedBytes := st'.usedBytes)
    && st'.usedBytes == st.usedBytes + (if lim.maxRequestBytes > 0 then Estimate(c) else 0)
    && (lim.maxRequestBytes > 0 ==> st'.usedBytes <= lim.maxRequestBytes)
  }

  lemma DroppedEvent(lim: Limits, st: State, event: TimelineEvent)
    requires TimelineFull(lim, st)
    ensures Appended(lim, st, Drop(st, Timeline), event)
  {
    assert Timeline in Drop(st, Timeline).dropped;
  }

  lemma AppendedEvent(lim: Limits, st: State, noted: State, event: TimelineEvent)
    requires !TimelineFull(lim, st) && Noted(st, noted)
    ensures Appended(lim, st, noted.(timelineEvents := noted.timelineEvents + [event]), event)
  {}

  lemma AppendTimelineStep(lim: Limits, st: State, name: string, description: string, start: real, end: real, color: string)
    ensures Appended(lim, st, AppendTimeline(lim, st, name, description, start, end, color),
                     EventOf(lim, name, description, start, end, color))
  {
    var event := EventOf(lim, name, description, start, end, color);
    if TimelineFull(lim, st) {
      DroppedEvent(lim, st, event);
    } else {
      NoteCutsIsNoted(lim, st, [name, description]);
      AppendedEvent(lim, st, NoteCuts(lim, st, [name, description]), event);
    }
  }

  lemma DropWeighsOne(st: State, b: Bucket)
    requires b != Strings && b != LogContext
    ensures LedgerStep(st, Drop(st, b), 1)
  {
    assert b in Drop(st, b).dropped;
  }

  lemma DropStep(req: Request, lim: Limits, st: State, b: Bucket, c: Call)
    requires b != Strings && b != LogContext && IsRecording(c) && !c.ResponseCall?
    ensures StepOk(req, lim, st, Drop(st, b), c)
  {
    DropWeighsOne(st, b);
  }

  lemma ReserveStep(req: Request, lim: Limits, st: State, b: Bucket, max: int, current: nat, c: Call)
    requires b == Database || b == Cache || b == Logs || b == Timeline
    requires IsRecording(c) && !c.ResponseCall? && Estimate(c) > 0
    ensures var (ok, st') := Reserve(lim, st, b, max, current, Estimate(c));
            && (ok ==> Reserved(lim, st, st', c) && (max <= 0 || current < max))
            && (!ok ==> StepOk(req, lim, st, st', c))
  {
    DropStep(req, lim, st, b, c);
    DropStep(req, lim, st, Payload, c);
  }

  lemma RecordLedger(st: State, st1: State, st2: State, st3: State, bytes: nat)
    requires st1 == st.(usedBytes := st.usedBytes + bytes) && Noted(st1, st2)
    requires st2.databaseQueries <= st3.databaseQueries && st2.cacheQueries <= st3.cacheQueries
    requires st2.logEntries <= st3.logEntries
    requires st3 == st2.(databaseQueries := st3.databaseQueries, cacheQueries := st3.cacheQueries, logEntries := st3.logEntries)
    ensures LedgerStep(st, st3, |st3.logEntries| - |st2.logEntries|)
  {
  }

  lemma LedgerSteps(st: State, st': State, st'': State, w: nat, w': nat)
    requires LedgerStep(st, st', w) && LedgerStep(st', st'', w')
    ensures LedgerStep(st, st'', w + w')
  {}

  /** A reserved and noted record, then its event on the timeline. */
  lemma RecordWithEvent(req: Request, lim: Limits, st: State, st1: State, st2: State, st3: State, st4: State, c: Call)
    requires c.DatabaseCall? || c.CacheCall?
    requires RoomFor(lim, st, c) && Reserved(lim, st, st1, c) && Noted(st1, st2)
    requires st3 == st2.(databaseQueries := st3.databaseQueries, cacheQueries := st3.cacheQueries)
    requires st3.databaseQueries == st2.databaseQueries + QueryFor(lim, c)
    requires st3.cacheQueries == st2.cacheQueries + CacheFor(lim, c)
    requires EventFor(req, lim, c) != [] && Appended(lim, st3, st4, EventFor(req, lim, c)[0])
    ensures StepOk(req, lim, st, st4, c)
  {
    RecordLedger(st, st1, st2, st3, if lim.maxRequestBytes > 0 then Estimate(c) else 0);
    LedgerSteps(st, st3, st4, 0, 1);
    assert Grew(st, st4, c);
    assert EventFor(req, lim, c) == [EventFor(req, lim, c)[0]];
  }

  lemma DatabaseRecorded(req: Request, lim: Limits, st: State, st1: State, c: Call)
    requires c.DatabaseCall? && RoomFor(lim, st, c) && Reserved(lim, st, st1, c)
    ensures StepOk(req, lim, st, RecordDatabase(lim, st1, c), c)
  {
    var dq, texts := QueryOf(lim, c), [c.query, c.connection, ModelOf(c), FileOf(c)];
    NoteCutsIsNoted(lim, st1, texts);
    var st2 := NoteCuts(lim, st1, texts);
    var st3 := st2.(databaseQueries := st2.databaseQueries + [dq]);
    AppendTimelineStep(lim, st3, "db", dq.query, c.now - dq.duration, c.now, ColorForSlow(c.slow));
    RecordWithEvent(req, lim, st, st1, st2, st3, RecordDatabase(lim, st1, c), c);
  }

  lemma DatabaseStep(req: Request, lim: Limits, st: State, c: Call)
    requires c.DatabaseCall?
    ensures StepOk(req, lim, st, ApplyDatabase(lim, st, c), c)
  {
    ReserveStep(req, lim, st, Database, lim.maxDBQueries, |st.databaseQueries|, c);
    var (ok, st1) := Reserve(lim, st, Database, lim.maxDBQueries, |st.databaseQueries|, Estimate(c));
    if ok {
      DatabaseRecorded(req, lim, st, st1, c);
    }
  }

  lemma CacheRecorded(req: Request, lim: Limits, st: State, st1: State, c: Call)
    requires c.CacheCall? && RoomFor(lim, st, c) && Reserved(lim, st, st1, c)
    ensures StepOk(req, lim, st, RecordCache(lim, st1, c), c)
  {
    var cq, texts := CacheOf(lim, c), [c.kind, c.key];
    NoteCutsIsNoted(lim, st1, texts);
    var st2 := NoteCuts(lim, st1, texts);
    var st3 := st2.(cacheQueries := st2.cacheQueries + [cq]);
    AppendTimelineStep(lim, st3, "cache", cq.kind + ": " + cq.key, c.now - cq.duration, c.now, "purple");
    RecordWithEvent(req, lim, st, st1, st2, st3, RecordCache(lim, st1, c), c);
  }

  lemma CacheStep(req: Request, lim: Limits, st: State, c: Call)
    requires c.CacheCall?
    ensures StepOk(req, lim, st, ApplyCache(lim, st, c), c)
  {
    ReserveStep(req, lim, st, Cache, lim.maxCacheQueries, |st.cacheQueries|, c);
    var (ok, st1) := Reserve(lim, st, Cache, lim.maxCacheQueries, |st.cacheQueries|, Estimate(c));
    if ok {
      CacheRecorded(req, lim, st, st1, c);
    }
  }

  lemma LogEntryAdded(req: Request, lim: Limits, st: State, st1: State, st2: State, st3: State, c: Call)
    requires c.LogCall?
    requires RoomFor(lim, st, c) && Reserved(lim, st, st1, c) && Noted(st1, st2)
    requires st3 == st2.(logEntries := st2.logEntries + LogFor(lim, c))
    ensures StepOk(req, lim, st, st3, c)
  {
    RecordLedger(st, st1, st2, st3, if lim.maxRequestBytes > 0 then Estimate(c) else 0);
    assert Grew(st, st3, c);
  }

  lemma LogStep(req: Request, lim: Limits, st: State, c: Call)
    requires c.LogCall?
    ensures StepOk(req, lim, st, ApplyLog(lim, st, c), c)
  {
    ReserveStep(req, lim, st, Logs, lim.maxLogs, |st.logEntries|, c);
    var (ok, st1) := Reserve(lim, st, Logs, lim.maxLogs, |st.logEntries|, Estimate(c));
    if ok {
      LogNotes(lim, st1, c);
      LogEntryAdded(req, lim, st, st1, SanitizeContext(lim, NoteLogTexts(lim, st1, c), c.fields, map[]).0, ApplyLog(lim, st, c), c);
    }
  }

  lemma RecordEvent(req: Request, lim: Limits, st: State, st1: State, st2: State, c: Call)
    requires c.TimelineCall?
    requires RoomFor(lim, st, c) && Reserved(lim, st, st1, c)
    requires EventFor(req, lim, c) != [] && Appended(lim, st1, st2, EventFor(req, lim, c)[0]) && !TimelineFull(lim, st1)
    ensures StepOk(req, lim, st, st2, c)
  {
    LedgerSteps(st, st1, st2, 0, 1);
    assert Grew(st, st2, c);
  }

  lemma DirectEventStep(req: Request, lim: Limits, st: State, c: Call)
    requires c.TimelineCall?
    ensures StepOk(req, lim, st, ApplyTimeline(lim, st, c), c)
  {
    ReserveStep(req, lim, st, Timeline, lim.maxTimelineEvent, |st.timelineEvents|, c);
    var (ok, st1) := Reserve(lim, st, Timeline, lim.maxTimelineEvent, |st.timelineEvents|, Estimate(c));
    if ok {
      AppendTimelineStep(lim, st1, c.name, c.description, c.start, c.end, c.color);
      RecordEvent(req, lim, st, st1, ApplyTimeline(lim, st, c), c);
    }
  }

  lemma ResponseStep(req: Request, lim: Limits, st: State, c: Call)
    requires c.ResponseCall?
    ensures StepOk(req, lim, st, Apply(req, lim, st, c), c)
  {
    var st1 := st.(response := Response(c.status, c.now, c.elapsed, c.memory));
    AppendTimelineStep(lim, st1, "request", req.verb + " " + req.uri, req.startTime, c.now, "green");
    LedgerSteps(st, st1, Apply(req, lim, st, c), 0, 1);
  }

  lemma SetterStep(req: Request, lim: Limits, st: State, st1: State, st2: State, c: Call)
    requires !IsRecording(c) && Noted(st, st1)
    requires st2 == st1.(names := st2.names)
    ensures StepOk(req, lim, st, st2, c)
  {}

  /** Every call keeps the ledger, the budget and the lists in step. */
  lemma ApplyStep(req: Request, lim: Limits, st: State, c: Call)
    ensures StepOk(req, lim, st, Apply(req, lim, st, c), c)
  {
    if c.DatabaseCall? {
      DatabaseStep(req, lim, st, c);
    } else if c.CacheCall? {
      CacheStep(req, lim, st, c);
    } else if c.LogCall? {
      LogStep(req, lim, st, c);
    } else if c.TimelineCall? {
      DirectEventStep(req, lim, st, c);
    } else if c.ResponseCall? {
      ResponseStep(req, lim, st, c);
    } else {
      NoteCutsIsNoted(lim, st, SetterTexts(c));
      SetterStep(req, lim, st, NoteCuts(lim, st, SetterTexts(c)), Apply(req, lim, st, c), c);
    }
  }

  // ---- Conservation --------------------------------------------------------------------------

  function RecordingCalls(calls: seq<Call>): nat {
    if calls == [] then 0
    else RecordingCalls(calls[..|calls| - 1]) + if IsRecording(calls[|calls| - 1]) then 1 else 0
  }

  /**
    Conservation: the database, cache, log, direct timeline and response calls made are exactly
    the log entries and timeline events held plus the drops counted for them. The flag is up
    exactly if something was dropped or cut, and every counter in the ledger is at least one.
  */
  lemma {:induction false} Conservation(req: Request, lim: Limits, calls: seq<Call>)
    ensures Weight(Run(req, lim, calls)) == RecordingCalls(calls)
    ensures Ledger(Run(req, lim, calls))
  {
    if calls != [] {
      Conservation(req, lim, calls[..|calls| - 1]);
      ApplyStep(req, lim, Run(req, lim, calls[..|calls| - 1]), calls[|calls| - 1]);
    }
  }

  /** A later state extends every earlier one: what a snapshot showed stays at the front of the lists. */
  lemma {:induction false} RunsExtend(req: Request, lim: Limits, calls: seq<Call>, more: seq<Call>)
    ensures Extends(Run(req, lim, calls), Run(req, lim, calls + more))
    decreases |more|
  {
    if more == [] {
      assert calls + more == calls;
    } else {
      var before := calls + more[..|more| - 1];
      assert (calls + more)[..|calls + more| - 1] == before;
      RunsExtend(req, lim, calls, more[..|more| - 1]);
      ApplyStep(req, lim, Run(req, lim, before), more[|more| - 1]);
    }
  }

  // ---- What is held is what was called --------------------------------------------------------

  /** The calls whose own record was stored, in order. */
  function Accepted(req: Request, lim: Limits, calls: seq<Call>): seq<Call> {
    if calls == [] then []
    else
      var before, last := calls[..|calls| - 1], calls[|calls| - 1];
      Accepted(req, lim, before) +
      if Grew(Run(req, lim, before), Run(req, lim, calls), last) then [last] else []
  }

  function Queries(lim: Limits, calls: seq<Call>): seq<DatabaseQuery> {
    if calls == [] then [] else Queries(lim, calls[..|calls| - 1]) + QueryFor(lim, calls[|calls| - 1])
  }

  function CacheOps(lim: Limits, calls: seq<Call>): seq<CacheQuery> {
    if calls == [] then [] else CacheOps(lim, calls[..|calls| - 1]) + CacheFor(lim, calls[|calls| - 1])
  }

  function LogLines(lim: Limits, calls: seq<Call>): seq<LogEntry> {
    if calls == [] then [] else LogLines(lim, calls[..|calls| - 1]) + LogFor(lim, calls[|calls| - 1])
  }

  function Events(req: Request, lim: Limits, calls: seq<Call>): seq<TimelineEvent> {
    if calls == [] then [] else Events(req, lim, calls[..|calls| - 1]) + EventFor(req, lim, calls[|calls| - 1])
  }

  lemma ListsSnoc(lim: Limits, calls: seq<Call>, c: Call)
    ensures Queries(lim, calls + [c]) == Queries(lim, calls) + QueryFor(lim, c)
    ensures CacheOps(lim, calls + [c]) == CacheOps(lim, calls) + CacheFor(lim, c)
    ensures LogLines(lim, calls + [c]) == LogLines(lim, calls) + LogFor(lim, c)
  {
    assert (calls + [c])[..|calls|] == calls;
  }

  /** The three record lists hold the accepted calls, in call order, each with its texts cut and nothing else changed. */
  lemma {:induction false} HoldsAccepted(req: Request, lim: Limits, calls: seq<Call>)
    ensures var st, kept := Run(req, lim, calls), Accepted(req, lim, calls);
            && st.databaseQueries == Queries(lim, kept)
            && st.cacheQueries == CacheOps(lim, kept)
            && st.logEntries == LogLines(lim, kept)
  {
    if calls != [] {
      var before, last := calls[..|calls| - 1], calls[|calls| - 1];
      HoldsAccepted(req, lim, before);
      ApplyStep(req, lim, Run(req, lim, before), last);
      if Grew(Run(req, lim, before), Run(req, lim, calls), last) {
        ListsSnoc(lim, Accepted(req, lim, before), last);
      } else {
        assert Accepted(req, lim, calls) == Accepted(req, lim, before);
      }
    }
  }
}
