/** When the collector records a call, and which counters of the ledger each call moves. */
module CollectorAdmission {
  import opened CollectorSpec
  import opened CollectorRuns
  import opened CollectorLaws

  /** A call that asks for a place in a list of its own. */
  predicate Asks(c: Call) {
    c.DatabaseCall? || c.CacheCall? || c.LogCall? || c.TimelineCall?
  }

  /** The counter that a call moves when its own list is full. */
  function OwnBucket(c: Call): Bucket
    requires Asks(c)
  {
    match c
    case DatabaseCall(_, _, _, _, _, _, _, _, _, _, _) => Database
    case CacheCall(_, _, _, _) => Cache
    case LogCall(_, _, _, _, _, _) => Logs
    case _ => Timeline
  }

  /** What a call costs of the byte budget: its main text, and a fixed share for the rest of the record. */
  function Price(c: Call): nat {
    match c
    case DatabaseCall(query, _, _, _, _, _, _, _, _, _, _) => |query| + 64
    case CacheCall(_, key, _, _) => |key| + 48
    case LogCall(_, message, _, trace, _, _) => |message| + 96 + 64 * |trace|
    case TimelineCall(name, description, _, _, _) => |name| + |description| + 32
    case _ => 0
  }

  function TotalPrice(calls: seq<Call>): nat {
    if calls == [] then 0 else TotalPrice(calls[..|calls| - 1]) + Price(calls[|calls| - 1])
  }

  /** There is no byte budget, or it has room for the call beside the `spent` bytes. */
  predicate Affordable(lim: Limits, spent: int, c: Call) {
    lim.maxRequestBytes <= 0 || spent + Price(c) <= lim.maxRequestBytes
  }

  lemma {:induction false} PriceIsEstimate(calls: seq<Call>)
    ensures TotalPrice(calls) == TotalEstimate(calls)
  {
    if calls != [] {
      PriceIsEstimate(calls[..|calls| - 1]);
    }
  }

  /** The counters that a call moves by one each; cut strings and left-out fields are not among them. */
  function Losses(lim: Limits, st: State, c: Call): set<Bucket> {
    if Asks(c) && !RoomFor(lim, st, c) then {OwnBucket(c)}
    else if Asks(c) && !Affordable(lim, st.usedBytes, c) then {Payload}
    else if (c.DatabaseCall? || c.CacheCall? || c.ResponseCall?) && TimelineFull(lim, st) then {Timeline}
    else {}
  }

  ghost predicate CountersMove(st: State, st': State, losses: set<Bucket>) {
    forall b :: b != Strings && b != LogContext ==>
      Count(st'.dropped, b) == Count(st.dropped, b) + if b in losses then 1 else 0
  }

  lemma DropMoves(st: State, b: Bucket)
    requires b != Strings && b != LogContext
    ensures CountersMove(st, Drop(st, b), {b})
  {
  }

  lemma NotedMoves(st: State, st': State)
    requires Noted(st, st')
    ensures CountersMove(st, st', {})
  {
  }

  lemma MovesOn(st: State, st1: State, st2: State, losses: set<Bucket>)
    requires CountersMove(st, st1, {}) && CountersMove(st1, st2, losses)
    ensures CountersMove(st, st2, losses)
  {
  }

  lemma TimelineMoves(lim: Limits, st: State, name: string, description: string, start: real, end: real, color: string)
    ensures CountersMove(st, AppendTimeline(lim, st, name, description, start, end, color),
                         if TimelineFull(lim, st) then {Timeline} else {})
  {
    if TimelineFull(lim, st) {
      DropMoves(st, Timeline);
    } else {
      NoteCutsIsNoted(lim, st, [name, description]);
      NotedMoves(st, NoteCuts(lim, st, [name, description]));
    }
  }

  /** A reservation is refused for want of a place, then for want of bytes, and otherwise granted. */
  lemma ReserveDecides(lim: Limits, st: State, max: int, current: nat, c: Call)
    requires Asks(c)
    ensures var (ok, st') := Reserve(lim, st, OwnBucket(c), max, current, Estimate(c));
            && (ok <==> (max <= 0 || current < max) && Affordable(lim, st.usedBytes, c))
            && (ok ==> st' == st.(usedBytes := st'.usedBytes))
            && (!ok ==> st' == Drop(st, if max <= 0 || current < max then Payload else OwnBucket(c)))
  {
  }

  /** A call that is refused changes nothing but the ledger. */
  ghost predicate OnlyLedger(st: State, st': State) {
    st' == st.(dropped := st'.dropped, truncated := true)
  }

  /** What one call decides: whether it is recorded, and which counters it moves. */
  ghost predicate Decided(lim: Limits, st: State, st': State, c: Call) {
    && (Asks(c) ==> (Grew(st, st', c) <==> RoomFor(lim, st, c) && Affordable(lim, st.usedBytes, c)))
    && (Asks(c) && !Grew(st, st', c) ==> OnlyLedger(st, st'))
    && CountersMove(st, st', Losses(lim, st, c))
  }

  lemma RefusedDecides(lim: Limits, st: State, c: Call)
    requires Asks(c) && !(RoomFor(lim, st, c) && Affordable(lim, st.usedBytes, c))
    ensures Decided(lim, st, Drop(st, if RoomFor(lim, st, c) then Payload else OwnBucket(c)), c)
  {
    DropMoves(st, if RoomFor(lim, st, c) then Payload else OwnBucket(c));
  }

  /** A granted call: bytes reserved, cuts noted, the record listed, and then its event offered to the timeline. */
  lemma GrantedDecides(lim: Limits, st: State, st1: State, st2: State, st3: State, st4: State, c: Call)
    requires (c.DatabaseCall? || c.CacheCall?) && RoomFor(lim, st, c) && Affordable(lim, st.usedBytes, c)
    requires st1 == st.(usedBytes := st1.usedBytes) && Noted(st1, st2)
    requires st3 == st2.(databaseQueries := st3.databaseQueries, cacheQueries := st3.cacheQueries) && Grew(st2, st3, c)
    requires CountersMove(st3, st4, if TimelineFull(lim, st3) then {Timeline} else {})
    requires st4.databaseQueries == st3.databaseQueries && st4.cacheQueries == st3.cacheQueries
    ensures Decided(lim, st, st4, c)
  {
    NotedMoves(st1, st2);
  }

  lemma DatabaseGranted(lim: Limits, st: State, st1: State, c: Call)
    requires c.DatabaseCall? && RoomFor(lim, st, c) && Affordable(lim, st.usedBytes, c)
    requires st1 == st.(usedBytes := st1.usedBytes)
    ensures Decided(lim, st, RecordDatabase(lim, st1, c), c)
  {
    var texts, dq := [c.query, c.connection, ModelOf(c), FileOf(c)], QueryOf(lim, c);
    var noted := NoteCuts(lim, st1, texts);
    NoteCutsIsNoted(lim, st1, texts);
    var listed := noted.(databaseQueries := noted.databaseQueries + [dq]);
    TimelineMoves(lim, listed, "db", dq.query, c.now - dq.duration, c.now, ColorForSlow(c.slow));
    AppendTimelineStep(lim, listed, "db", dq.query, c.now - dq.duration, c.now, ColorForSlow(c.slow));
    GrantedDecides(lim, st, st1, noted, listed, RecordDatabase(lim, st1, c), c);
  }

  lemma CacheGranted(lim: Limits, st: State, st1: State, c: Call)
    requires c.CacheCall? && RoomFor(lim, st, c) && Affordable(lim, st.usedBytes, c)
    requires st1 == st.(usedBytes := st1.usedBytes)
    ensures Decided(lim, st, RecordCache(lim, st1, c), c)
  {
    var cq := CacheOf(lim, c);
    var noted := NoteCuts(lim, st1, [c.kind, c.key]);
    NoteCutsIsNoted(lim, st1, [c.kind, c.key]);
    var listed := noted.(cacheQueries := noted.cacheQueries + [cq]);
    TimelineMoves(lim, listed, "cache", cq.kind + ": " + cq.key, c.now - cq.duration, c.now, "purple");
    AppendTimelineStep(lim, listed, "cache", cq.kind + ": " + cq.key, c.now - cq.duration, c.now, "purple");
    GrantedDecides(lim, st, st1, noted, listed, RecordCache(lim, st1, c), c);
  }

  lemma DatabaseDecides(lim: Limits, st: State, c: Call)
    requires c.DatabaseCall?
    ensures Decided(lim, st, ApplyDatabase(lim, st, c), c)
  {
    ReserveDecides(lim, st, lim.maxDBQueries, |st.databaseQueries|, c);
    var (ok, st1) := Reserve(lim, st, Database, lim.maxDBQueries, |st.databaseQueries|, Estimate(c));
    if ok {
      DatabaseGranted(lim, st, st1, c);
    } else {
      RefusedDecides(lim, st, c);
    }
  }

  lemma CacheDecides(lim: Limits, st: State, c: Call)
    requires c.CacheCall?
    ensures Decided(lim, st, ApplyCache(lim, st, c), c)
  {
    ReserveDecides(lim, st, lim.maxCacheQueries, |st.cacheQueries|, c);
    var (ok, st1) := Reserve(lim, st, Cache, lim.maxCacheQueries, |st.cacheQueries|, Estimate(c));
    if ok {
      CacheGranted(lim, st, st1, c);
    } else {
      RefusedDecides(lim, st, c);
    }
  }

  lemma LogDecides(lim: Limits, st: State, c: Call)
    requires c.LogCall?
    ensures Decided(lim, st, ApplyLog(lim, st, c), c)
  {
    ReserveDecides(lim, st, lim.maxLogs, |st.logEntries|, c);
    var (ok, st1) := Reserve(lim, st, Logs, lim.maxLogs, |st.logEntries|, Estimate(c));
    if ok {
      LogNotes(lim, st1, c);
      NotedMoves(st1, SanitizeContext(lim, NoteLogTexts(lim, st1, c), c.fields, map[]).0);
    } else {
      RefusedDecides(lim, st, c);
    }
  }

  lemma DirectEventDecides(lim: Limits, st: State, c: Call)
    requires c.TimelineCall?
    ensures Decided(lim, st, ApplyTimeline(lim, st, c), c)
  {
    ReserveDecides(lim, st, lim.maxTimelineEvent, |st.timelineEvents|, c);
    var (ok, st1) := Reserve(lim, st, Timeline, lim.maxTimelineEvent, |st.timelineEvents|, Estimate(c));
    if ok {
      TimelineMoves(lim, st1, c.name, c.description, c.start, c.end, c.color);
      AppendTimelineStep(lim, st1, c.name, c.description, c.start, c.end, c.color);
    } else {
      RefusedDecides(lim, st, c);
    }
  }

  lemma CallDecides(req: Request, lim: Limits, st: State, c: Call)
    ensures Decided(lim, st, Apply(req, lim, st, c), c)
  {
    match c
    case DatabaseCall(_, _, _, _, _, _, _, _, _, _, _) => DatabaseDecides(lim, st, c);
    case CacheCall(_, _, _, _) => CacheDecides(lim, st, c);
    case LogCall(_, _, _, _, _, _) => LogDecides(lim, st, c);
    case TimelineCall(_, _, _, _, _) => DirectEventDecides(lim, st, c);
    case ResponseCall(status, elapsed, now, memory) =>
      TimelineMoves(lim, st.(response := Response(status, now, elapsed, memory)),
                    "request", req.verb + " " + req.uri, req.startTime, now, "green");
    case _ =>
      NoteCutsIsNoted(lim, st, SetterTexts(c));
      NotedMoves(st, NoteCuts(lim, st, SetterTexts(c)));
  }

  /** A call that is not recorded is only counted, in one counter. */
  lemma RefusedIsDropped(req: Request, lim: Limits, st: State, c: Call)
    requires Asks(c) && !(RoomFor(lim, st, c) && Affordable(lim, st.usedBytes, c))
    ensures Apply(req, lim, st, c) == Drop(st, if RoomFor(lim, st, c) then Payload else OwnBucket(c))
  {
    match c
    case DatabaseCall(_, _, _, _, _, _, _, _, _, _, _) => ReserveDecides(lim, st, lim.maxDBQueries, |st.databaseQueries|, c);
    case CacheCall(_, _, _, _) => ReserveDecides(lim, st, lim.maxCacheQueries, |st.cacheQueries|, c);
    case LogCall(_, _, _, _, _, _) => ReserveDecides(lim, st, lim.maxLogs, |st.logEntries|, c);
    case TimelineCall(_, _, _, _, _) => ReserveDecides(lim, st, lim.maxTimelineEvent, |st.timelineEvents|, c);
  }

  /**
    After any run, a call is recorded if and only if its own list is below its cap and the budget,
    if there is one, has room for its price beside those of the calls recorded so far. A call that
    is not recorded changes nothing but the ledger: one counter rises by one, the call's own for a
    full list and `Payload` for an exhausted budget. A recorded one moves `Timeline` if it derives an
    event and the timeline is full, and no other counter.
  */
  lemma RecordedIff(req: Request, lim: Limits, calls: seq<Call>, c: Call)
    requires Asks(c)
    ensures var st, st' := Run(req, lim, calls), Run(req, lim, calls + [c]);
            var room, bytes := RoomFor(lim, st, c), Affordable(lim, TotalPrice(Accepted(req, lim, calls)), c);
            && (Grew(st, st', c) <==> room && bytes)
            && (!room || !bytes ==>
                  OnlyLedger(st, st') && CountersMove(st, st', if !room then {OwnBucket(c)} else {Payload}))
            && (room && bytes ==>
                  CountersMove(st, st', if (c.DatabaseCall? || c.CacheCall?) && TimelineFull(lim, st) then {Timeline} else {}))
  {
    RunLast(req, lim, calls, c);
    CallDecides(req, lim, Run(req, lim, calls), c);
    BudgetIsExact(req, lim, calls);
    PriceIsEstimate(Accepted(req, lim, calls));
  }
}
