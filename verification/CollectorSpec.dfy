/** The per-request recorder as a value: what each call does to the four lists and the ledger. */
module CollectorSpec {
  import opened LogTrace

  const MAX_CONTEXT_KEYS := 20
  const DEFAULT_MAX_STRING_LEN := 2048

  /** A limit that is zero or negative does not limit anything. Strings are Go strings: bytes. */
  datatype Limits = Limits(
    maxRequestBytes: int,
    maxStringLen: int,
    maxDBQueries: int,
    maxCacheQueries: int,
    maxLogs: int,
    maxTimelineEvent: int)

  datatype DatabaseQuery = DatabaseQuery(
    query: string, duration: real, connection: string, model: string, file: string, line: int, slow: bool, timestamp: real)

  datatype CacheQuery = CacheQuery(kind: string, key: string, duration: real, timestamp: real)

  /** A log field: a string, an opaque number or boolean, or anything else with its printed form. */
  datatype FieldValue = Text(text: string) | Scalar(value: int) | Other(printed: string)

  datatype LogEntry = LogEntry(
    level: string, message: string, context: map<string, FieldValue>, timestamp: real, trace: seq<Frame>)

  datatype TimelineEvent = TimelineEvent(
    name: string, description: string, start: real, end: real, duration: real, color: string)

  /** The keys of the drop ledger. */
  datatype Bucket = Database | Cache | Logs | Timeline | Payload | LogContext | Strings

  /** What identifies the request; it never changes. */
  datatype Request = Request(id: string, verb: string, uri: string, startTime: real, memoryStart: nat)

  /** What the setters set. */
  datatype Names = Names(
    url: string, controller: string, traceID: string, spanID: string, headers: map<string, string>,
    userData: map<string, FieldValue>)

  datatype Response = Response(status: int, time: real, duration: int, memoryEnd: nat)

  datatype State = State(
    databaseQueries: seq<DatabaseQuery>,
    cacheQueries: seq<CacheQuery>,
    logEntries: seq<LogEntry>,
    timelineEvents: seq<TimelineEvent>,
    dropped: map<Bucket, nat>,
    truncated: bool,
    usedBytes: int,
    names: Names,
    response: Response)

  const EMPTY := State([], [], [], [], map[], false, 0, Names("", "", "", "", map[], map[]), Response(0, 0.0, 0, 0))

  /**
    One call on a collector, with what the call reads from its environment: the clock `now`,
    the table name found in the query, the caller's position, the current stack, and the
    allocated memory. `fields` are the log fields in the order the map is ranged over.
  */
  datatype Call =
    | DatabaseCall(query: string, elapsed: int, connection: string, slow: bool, model: string, file: string, line: int,
                   tableName: string, callerFile: string, callerLine: int, now: real)
    | CacheCall(kind: string, key: string, elapsed: int, now: real)
    | LogCall(level: string, message: string, fields: seq<(string, FieldValue)>, trace: seq<Frame>,
              stack: seq<Frame>, now: real)
    | TimelineCall(name: string, description: string, start: real, end: real, color: string)
    | ResponseCall(status: int, elapsed: int, now: real, memory: nat)
    | UrlCall(url: string)
    | ControllerCall(controller: string)
    | TraceCall(traceID: string, spanID: string)
    | HeadersCall(headers: map<string, string>)
    | UserDataCall(key: string, data: FieldValue)

  // ---- The ledger ------------------------------------------------------------------------

  function Count(dropped: map<Bucket, nat>, bucket: Bucket): nat {
    if bucket in dropped then dropped[bucket] else 0
  }

  function Drop(st: State, bucket: Bucket): State {
    st.(dropped := st.dropped[bucket := Count(st.dropped, bucket) + 1], truncated := true)
  }

  predicate TooLong(lim: Limits, v: string) {
    lim.maxStringLen > 0 && |v| > lim.maxStringLen
  }

  function Cut(lim: Limits, v: string): string {
    if TooLong(lim, v) then v[..lim.maxStringLen] else v
  }

  function NoteCut(lim: Limits, st: State, v: string): State {
    if TooLong(lim, v) then Drop(st, Strings) else st
  }

  function NoteCuts(lim: Limits, st: State, vs: seq<string>): State
    decreases vs
  {
    if vs == [] then st else NoteCuts(lim, NoteCut(lim, st, vs[0]), vs[1..])
  }

  lemma {:induction false} NoteCutsConcat(lim: Limits, st: State, a: seq<string>, b: seq<string>)
    ensures NoteCuts(lim, st, a + b) == NoteCuts(lim, NoteCuts(lim, st, a), b)
    decreases a
  {
    if a == [] {
      assert a + b == b;
    } else {
      assert (a + b)[1..] == a[1..] + b;
      NoteCutsConcat(lim, NoteCut(lim, st, a[0]), a[1..], b);
    }
  }

  lemma NoteOneCut(lim: Limits, st: State, a: string)
    ensures NoteCuts(lim, st, [a]) == NoteCut(lim, st, a)
  {
    assert NoteCuts(lim, st, [a]) == NoteCuts(lim, NoteCut(lim, st, a), []);
  }

  lemma NoteTwoCuts(lim: Limits, st: State, a: string, b: string)
    ensures NoteCuts(lim, st, [a, b]) == NoteCut(lim, NoteCut(lim, st, a), b)
  {
    var noted := NoteCut(lim, st, a);
    assert [a, b][1..] == [b] && [b][1..] == [];
    assert NoteCuts(lim, noted, [b]) == NoteCuts(lim, NoteCut(lim, noted, b), []);
  }

  /** Whether the call may record, and the state with the bytes reserved or the drop counted. */
  function Reserve(lim: Limits, st: State, bucket: Bucket, max: int, current: nat, estimate: int): (bool, State) {
    if max > 0 && current >= max then (false, Drop(st, bucket))
    else if lim.maxRequestBytes <= 0 then (true, st)
    else
      var bytes := if estimate <= 0 then 1 else estimate;
      if st.usedBytes + bytes > lim.maxRequestBytes then (false, Drop(st, Payload))
      else (true, st.(usedBytes := st.usedBytes + bytes))
  }

  function EventOf(lim: Limits, name: string, description: string, start: real, end: real, color: string): TimelineEvent {
    TimelineEvent(Cut(lim, name), Cut(lim, description), start,
                  if end > start then end else 0.0, if end > start then end - start else 0.0, color)
  }

  function AppendTimeline(lim: Limits, st: State, name: string, description: string, start: real, end: real, color: string): State {
    if lim.maxTimelineEvent > 0 && |st.timelineEvents| >= lim.maxTimelineEvent then Drop(st, Timeline)
    else
      var noted := NoteCuts(lim, st, [name, description]);
      noted.(timelineEvents := noted.timelineEvents + [EventOf(lim, name, description, start, end, color)])
  }

  // ---- Log context and trace ---------------------------------------------------------------

  function CutValue(lim: Limits, v: FieldValue): FieldValue {
    match v
    case Text(text) => Text(Cut(lim, text))
    case Scalar(_) => v
    case Other(printed) => Text(Cut(lim, printed))
  }

  function ValueTexts(v: FieldValue): seq<string> {
    match v
    case Text(text) => [text]
    case Scalar(_) => []
    case Other(printed) => [printed]
  }

  function SanitizeContext(lim: Limits, st: State, fields: seq<(string, FieldValue)>, out: map<string, FieldValue>)
    : (State, map<string, FieldValue>)
    decreases fields
  {
    if fields == [] then (st, out)
    else if |out| >= MAX_CONTEXT_KEYS then (Drop(st, LogContext), out)
    else
      var (k, v) := fields[0];
      SanitizeContext(lim, NoteCuts(lim, st, [k] + ValueTexts(v)), fields[1..], out[Cut(lim, k) := CutValue(lim, v)])
  }

  function CutFrame(lim: Limits, frame: Frame): Frame {
    frame.(call := Cut(lim, frame.call), file := Cut(lim, frame.file))
  }

  function CutFrames(lim: Limits, frames: seq<Frame>): seq<Frame> {
    if frames == [] then [] else [CutFrame(lim, frames[0])] + CutFrames(lim, frames[1..])
  }

  function FrameTexts(frames: seq<Frame>): seq<string> {
    if frames == [] then [] else [frames[0].call, frames[0].file] + FrameTexts(frames[1..])
  }

  lemma {:induction false} FramesSnoc(lim: Limits, frames: seq<Frame>, f: Frame)
    ensures CutFrames(lim, frames + [f]) == CutFrames(lim, frames) + [CutFrame(lim, f)]
    ensures FrameTexts(frames + [f]) == FrameTexts(frames) + [f.call, f.file]
  {
    if frames == [] {
      assert frames + [f] == [f] && [f][1..] == [];
    } else {
      assert (frames + [f])[1..] == frames[1..] + [f];
      FramesSnoc(lim, frames[1..], f);
    }
  }

  lemma FrameNoted(lim: Limits, st: State, frames: seq<Frame>, f: Frame)
    ensures NoteCuts(lim, st, FrameTexts(frames + [f]))
         == NoteCut(lim, NoteCut(lim, NoteCuts(lim, st, FrameTexts(frames)), f.call), f.file)
  {
    FramesSnoc(lim, frames, f);
    NoteCutsConcat(lim, st, FrameTexts(frames), [f.call, f.file]);
    NoteTwoCuts(lim, NoteCuts(lim, st, FrameTexts(frames)), f.call, f.file);
  }

  function FirstFrames(frames: seq<Frame>): seq<Frame> {
    if |frames| <= MAX_FRAMES then frames else frames[..MAX_FRAMES]
  }

  /** The first `n` frames of the running stack that name a file; vendor paths are marked here. */
  function FileFrames(stack: seq<Frame>, n: nat): seq<Frame> {
    if stack == [] || n == 0 then []
    else if stack[0].file == "" then FileFrames(stack[1..], n)
    else [stack[0].(isVendor := IsVendorPath(stack[0].file))] + FileFrames(stack[1..], n - 1)
  }

  /** The frames a log entry is given before cutting: the first ones passed in, or the running stack's. */
  function ChosenFrames(trace: seq<Frame>, stack: seq<Frame>): seq<Frame> {
    if trace == [] then FileFrames(stack, MAX_FRAMES) else FirstFrames(trace)
  }

  // ---- Calls -------------------------------------------------------------------------------

  /** Whole microseconds, rounded toward zero, as milliseconds. */
  function DurationMs(elapsed: int): real {
    (if elapsed >= 0 then elapsed / 1000 else -((-elapsed) / 1000)) as real / 1000.0
  }

  function ColorForSlow(slow: bool): string {
    if slow then "red" else "blue"
  }

  function ModelOf(c: Call): string
    requires c.DatabaseCall?
  {
    if c.model == "" then c.tableName else c.model
  }

  function FileOf(c: Call): string
    requires c.DatabaseCall?
  {
    if c.file == "" then c.callerFile else c.file
  }

  function LineOf(c: Call): int
    requires c.DatabaseCall?
  {
    if c.file == "" then c.callerLine else c.line
  }

  function QueryOf(lim: Limits, c: Call): DatabaseQuery
    requires c.DatabaseCall?
  {
    DatabaseQuery(Cut(lim, c.query), DurationMs(c.elapsed), Cut(lim, c.connection), Cut(lim, ModelOf(c)), Cut(lim, FileOf(c)),
                  LineOf(c), c.slow, c.now)
  }

  function CacheOf(lim: Limits, c: Call): CacheQuery
    requires c.CacheCall?
  {
    CacheQuery(Cut(lim, c.kind), Cut(lim, c.key), DurationMs(c.elapsed), c.now)
  }

  function LogOf(lim: Limits, c: Call): LogEntry
    requires c.LogCall?
  {
    LogEntry(Cut(lim, c.level), Cut(lim, c.message), SanitizeContext(lim, EMPTY, c.fields, map[]).1, c.now,
             CutFrames(lim, ChosenFrames(c.trace, c.stack)))
  }

  /** What a recording call charges against the byte budget. */
  function Estimate(c: Call): nat {
    match c
    case DatabaseCall(query, _, _, _, _, _, _, _, _, _, _) => |query| + 64
    case CacheCall(_, key, _, _) => |key| + 48
    case LogCall(_, message, _, trace, _, _) => |message| + 96 + |trace| * 64
    case TimelineCall(name, description, _, _, _) => |name| + |description| + 32
    case _ => 0
  }

  /** The second half of a database call, once its bytes are reserved. */
  function RecordDatabase(lim: Limits, st: State, c: Call): State
    requires c.DatabaseCall?
  {
    var dq := QueryOf(lim, c);
    var noted := NoteCuts(lim, st, [c.query, c.connection, ModelOf(c), FileOf(c)]);
    AppendTimeline(lim, noted.(databaseQueries := noted.databaseQueries + [dq]),
                   "db", dq.query, c.now - dq.duration, c.now, ColorForSlow(c.slow))
  }

  function ApplyDatabase(lim: Limits, st: State, c: Call): State
    requires c.DatabaseCall?
  {
    var (ok, st1) := Reserve(lim, st, Database, lim.maxDBQueries, |st.databaseQueries|, Estimate(c));
    if ok then RecordDatabase(lim, st1, c) else st1
  }

  function RecordCache(lim: Limits, st: State, c: Call): State
    requires c.CacheCall?
  {
    var cq := CacheOf(lim, c);
    var noted := NoteCuts(lim, st, [c.kind, c.key]);
    AppendTimeline(lim, noted.(cacheQueries := noted.cacheQueries + [cq]),
                   "cache", cq.kind + ": " + cq.key, c.now - cq.duration, c.now, "purple")
  }

  function ApplyCache(lim: Limits, st: State, c: Call): State
    requires c.CacheCall?
  {
    var (ok, st1) := Reserve(lim, st, Cache, lim.maxCacheQueries, |st.cacheQueries|, Estimate(c));
    if ok then RecordCache(lim, st1, c) else st1
  }

  /** The cuts of a log call before its context is looked at: the frames of its trace, level and message. */
  function NoteLogTexts(lim: Limits, st: State, c: Call): State
    requires c.LogCall?
  {
    NoteCuts(lim, NoteCuts(lim, st, FrameTexts(ChosenFrames(c.trace, c.stack))), [c.level, c.message])
  }

  function RecordLog(lim: Limits, st: State, c: Call): State
    requires c.LogCall?
  {
    var (noted, context) := SanitizeContext(lim, NoteLogTexts(lim, st, c), c.fields, map[]);
    noted.(logEntries := noted.logEntries + [LogEntry(Cut(lim, c.level), Cut(lim, c.message), context, c.now,
                                                      CutFrames(lim, ChosenFrames(c.trace, c.stack)))])
  }

  function ApplyLog(lim: Limits, st: State, c: Call): State
    requires c.LogCall?
  {
    var (ok, st1) := Reserve(lim, st, Logs, lim.maxLogs, |st.logEntries|, Estimate(c));
    if ok then RecordLog(lim, st1, c) else st1
  }

  function ApplyTimeline(lim: Limits, st: State, c: Call): State
    requires c.TimelineCall?
  {
    var (ok, st1) := Reserve(lim, st, Timeline, lim.maxTimelineEvent, |st.timelineEvents|, Estimate(c));
    if !ok then st1 else AppendTimeline(lim, st1, c.name, c.description, c.start, c.end, c.color)
  }

  /** The texts that a setter cuts. */
  function SetterTexts(c: Call): seq<string> {
    match c
    case UrlCall(url) => [url]
    case ControllerCall(controller) => [controller]
    case TraceCall(traceID, spanID) => [traceID, spanID]
    case _ => []
  }

  /** User data without a key is ignored. */
  function SetNames(lim: Limits, names: Names, c: Call): Names {
    match c
    case UrlCall(url) => names.(url := Cut(lim, url))
    case ControllerCall(controller) => names.(controller := Cut(lim, controller))
    case TraceCall(traceID, spanID) => names.(traceID := Cut(lim, traceID), spanID := Cut(lim, spanID))
    case HeadersCall(headers) => names.(headers := headers)
    case UserDataCall(key, data) => if key == "" then names else names.(userData := names.userData[key := data])
    case _ => names
  }

  function Apply(req: Request, lim: Limits, st: State, c: Call): State {
    match c
    case DatabaseCall(_, _, _, _, _, _, _, _, _, _, _) => ApplyDatabase(lim, st, c)
    case CacheCall(_, _, _, _) => ApplyCache(lim, st, c)
    case LogCall(_, _, _, _, _, _) => ApplyLog(lim, st, c)
    case TimelineCall(_, _, _, _, _) => ApplyTimeline(lim, st, c)
    case ResponseCall(status, elapsed, now, memory) =>
      AppendTimeline(lim, st.(response := Response(status, now, elapsed, memory)),
                     "request", req.verb + " " + req.uri, req.startTime, now, "green")
    case _ => NoteCuts(lim, st, SetterTexts(c)).(names := SetNames(lim, st.names, c))
  }

  function Run(req: Request, lim: Limits, calls: seq<Call>): State {
    if calls == [] then EMPTY
    else Apply(req, lim, Run(req, lim, calls[..|calls| - 1]), calls[|calls| - 1])
  }

  // ---- The snapshot ------------------------------------------------------------------------

  /** What a snapshot holds, and what the storage is given encoded. */
  datatype RequestRecord = RequestRecord(
    request: Request,
    response: Response,
    responseDuration: real,
    names: Names,
    databaseQueries: seq<DatabaseQuery>,
    databaseQueriesCount: nat,
    databaseDuration: real,
    cacheQueries: seq<CacheQuery>,
    logEntries: seq<LogEntry>,
    timelineEvents: seq<TimelineEvent>,
    memoryUsage: nat,
    truncated: bool,
    dropped: map<Bucket, nat>)

  function TotalDuration(queries: seq<DatabaseQuery>): real {
    if queries == [] then 0.0
    else TotalDuration(queries[..|queries| - 1]) + queries[|queries| - 1].duration
  }

  function Snapshot(req: Request, st: State): RequestRecord {
    RequestRecord(req, st.response, DurationMs(st.response.duration), st.names,
                  st.databaseQueries, |st.databaseQueries|, TotalDuration(st.databaseQueries),
                  st.cacheQueries, st.logEntries, st.timelineEvents,
                  if st.response.memoryEnd > req.memoryStart then st.response.memoryEnd - req.memoryStart else 0,
                  st.truncated, st.dropped)
  }
}
