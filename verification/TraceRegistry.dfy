/**
  The registry of active traces under any interleaving. The map of traces and the counter beside
  it are updated in separate atomic steps, by any number of requests; any number of loggers look
  a collector up in one step and deliver to it in a later one. A request is registered at most
  once, under the trace id its collector was given first; until its snapshot is taken, its handler
  and the data sources may give the collector any other trace id.
*/
module TraceRegistry {
  import opened Common
  import CollectorSpec

  type Limits = CollectorSpec.Limits

  /** Where a request is between its start and the end of `CompleteRequest`. */
  datatype Phase =
    | Fresh       // the collector carries the trace, `RegisterTrace` not yet run
    | Counting    // stored in the map, the counter not yet increased
    | Open        // `RegisterTrace` is over
    | Finishing   // `CompleteRequest` has taken its snapshot
    | Uncounting  // removed from the map, the counter not yet decreased
    | Done

  /** `trace` is the id given to `RegisterTrace`, `shown` the one the collector holds, cut to its length limit. */
  datatype Traced = Traced(trace: string, shown: string, phase: Phase)

  /** A log line; `trace` is empty when the line carries none. */
  datatype Line = Line(trace: string, message: string)

  datatype Logger =
    | SawOne(line: Line)                  // read a counter of one, for a line without a trace
    | Delivering(target: nat, line: Line) // holds a collector, has not appended to it yet

  /** Requests and collectors share one number each. `delivered` is what reached each collector. */
  datatype State = State(
    requests: map<nat, Traced>,
    active: map<string, nat>,
    count: int,
    loggers: map<nat, Logger>,
    delivered: map<nat, seq<Line>>)

  datatype Step =
    | Begin(r: nat, trace: string)
    | SetTrace(r: nat, trace: string)
    | LoadOrStore(r: nat)
    | AddOne(r: nat)
    | Snapshot(r: nat)
    | LoadAndDelete(r: nat)
    | SubtractOne(r: nat)
    | Lookup(l: nat, line: Line)
    | ReadCount(l: nat, line: Line)
    | PickAny(l: nat, trace: string)
    | Deliver(l: nat)

  const INITIAL := State(map[], map[], 0, map[], map[])

  predicate InPhase(s: State, r: nat, p: Phase) {
    r in s.requests && s.requests[r].phase == p
  }

  /** `CompleteRequest` has taken the snapshot of the request. */
  predicate Snapped(p: Phase) {
    p == Finishing || p == Uncounting || p == Done
  }

  predicate Enabled(s: State, step: Step) {
    match step
    case Begin(r, _) => r !in s.requests
    case SetTrace(r, _) => r in s.requests && !Snapped(s.requests[r].phase)
    case LoadOrStore(r) => InPhase(s, r, Fresh)
    case AddOne(r) => InPhase(s, r, Counting)
    case Snapshot(r) => InPhase(s, r, Open)
    case LoadAndDelete(r) => InPhase(s, r, Finishing)
    case SubtractOne(r) => InPhase(s, r, Uncounting)
    case Lookup(l, line) => l !in s.loggers && line.trace != ""
    case ReadCount(l, line) => l !in s.loggers && line.trace == ""
    case PickAny(l, trace) => l in s.loggers && s.loggers[l].SawOne? && (trace in s.active || s.active == map[])
    case Deliver(l) => l in s.loggers && s.loggers[l].Delivering?
  }

  function Move(s: State, r: nat, p: Phase): State
    requires r in s.requests
  {
    s.(requests := s.requests[r := s.requests[r].(phase := p)])
  }

  function DeliveredTo(s: State, r: nat): seq<Line> {
    if r in s.delivered then s.delivered[r] else []
  }

  function Do(lim: Limits, s: State, step: Step): State
    requires Enabled(s, step)
  {
    match step
    case Begin(r, trace) => s.(requests := s.requests[r := Traced(trace, CollectorSpec.Cut(lim, trace), Fresh)])
    case SetTrace(r, trace) =>
      s.(requests := s.requests[r := s.requests[r].(shown := CollectorSpec.Cut(lim, trace))])
    case LoadOrStore(r) =>
      var trace := s.requests[r].trace;
      if trace == "" || trace in s.active then Move(s, r, Open)
      else Move(s, r, Counting).(active := s.active[trace := r])
    case AddOne(r) => Move(s, r, Open).(count := s.count + 1)
    case Snapshot(r) => Move(s, r, Finishing)
    case LoadAndDelete(r) =>
      var key := s.requests[r].shown;
      if key == "" || key !in s.active then Move(s, r, Done)
      else Move(s, r, Uncounting).(active := s.active - {key})
    case SubtractOne(r) => Move(s, r, Done).(count := s.count - 1)
    case Lookup(l, line) =>
      if line.trace in s.active then s.(loggers := s.loggers[l := Delivering(s.active[line.trace], line)]) else s
    case ReadCount(l, line) =>
      if s.count == 1 then s.(loggers := s.loggers[l := SawOne(line)]) else s
    case PickAny(l, trace) =>
      if trace in s.active then s.(loggers := s.loggers[l := Delivering(s.active[trace], s.loggers[l].line)])
      else s.(loggers := s.loggers - {l})
    case Deliver(l) =>
      var target, line := s.loggers[l].target, s.loggers[l].line;
      s.(loggers := s.loggers - {l}, delivered := s.delivered[target := DeliveredTo(s, target) + [line]])
  }

  function Exec(lim: Limits, steps: seq<Step>): Option<State> {
    if steps == [] then Some(INITIAL)
    else
      var before := Exec(lim, steps[..|steps| - 1]);
      var step := steps[|steps| - 1];
      if before.Some? && Enabled(before.value, step) then Some(Do(lim, before.value, step)) else None
  }

  // ---- The counter -------------------------------------------------------------------------

  function Those(s: State, p: Phase): set<nat> {
    set r | r in s.requests && s.requests[r].phase == p
  }

  /** The counter, corrected by the updates under way, is the size of the map. */
  ghost predicate Counted(s: State) {
    s.count + |Those(s, Counting)| - |Those(s, Uncounting)| == |s.active|
  }

  lemma MoveThose(s: State, r: nat, p: Phase)
    requires r in s.requests
    ensures forall q :: Those(Move(s, r, p), q)
                     == if q == p then Those(s, q) + {r} else if q == s.requests[r].phase then Those(s, q) - {r} else Those(s, q)
  {}

  predicate IsLoggerStep(step: Step) {
    step.Lookup? || step.ReadCount? || step.PickAny? || step.Deliver?
  }

  lemma LoggerStep(lim: Limits, s: State, step: Step)
    requires Enabled(s, step) && IsLoggerStep(step)
    ensures var s' := Do(lim, s, step); s'.requests == s.requests && s'.active == s.active && s'.count == s.count
  {}

  lemma CountedMove(s: State, s': State, r: nat, p: Phase)
    requires Counted(s) && r in s.requests && s'.requests == Move(s, r, p).requests && s.requests[r].phase != p
    requires s'.count + (if p == Counting then 1 else 0) - (if s.requests[r].phase == Counting then 1 else 0)
           - (if p == Uncounting then 1 else 0) + (if s.requests[r].phase == Uncounting then 1 else 0)
          == s.count + |s'.active| - |s.active|
    ensures Counted(s')
  {
    MoveThose(s, r, p);
    assert Those(s', Counting) == Those(Move(s, r, p), Counting);
    assert Those(s', Uncounting) == Those(Move(s, r, p), Uncounting);
  }

  lemma SizeWith(m: map<string, nat>, key: string, r: nat)
    requires key !in m
    ensures |m[key := r]| == |m| + 1
  {
    assert m[key := r].Keys == m.Keys + {key};
    assert |m[key := r]| == |m[key := r].Keys| && |m| == |m.Keys|;
  }

  lemma StoreSize(lim: Limits, s: State, r: nat)
    requires InPhase(s, r, Fresh)
    ensures var s' := Do(lim, s, LoadOrStore(r));
            |s'.active| == |s.active| + if InPhase(s', r, Counting) then 1 else 0
  {
    var trace := s.requests[r].trace;
    if trace != "" && trace !in s.active {
      SizeWith(s.active, trace, r);
    }
  }

  lemma SizeWithout(m: map<string, nat>, key: string)
    ensures |m - {key}| == if key in m then |m| - 1 else |m|
  {
    assert (m - {key}).Keys == m.Keys - {key};
    assert |m - {key}| == |(m - {key}).Keys| && |m| == |m.Keys|;
  }

  lemma DeleteSize(lim: Limits, s: State, r: nat)
    requires InPhase(s, r, Finishing)
    ensures var s' := Do(lim, s, LoadAndDelete(r));
            |s'.active| == |s.active| - if InPhase(s', r, Uncounting) then 1 else 0
  {
    SizeWithout(s.active, s.requests[r].shown);
  }

  /** How the map grows and shrinks with the phase of the request that steps. */
  lemma ActiveSize(lim: Limits, s: State, step: Step)
    requires Enabled(s, step) && !step.Begin? && !step.SetTrace? && !IsLoggerStep(step)
    ensures var s' := Do(lim, s, step);
            && s'.requests == Move(s, step.r, s'.requests[step.r].phase).requests
            && |s'.active| == |s.active| + (if s'.requests[step.r].phase == Counting then 1 else 0)
                                         - (if s'.requests[step.r].phase == Uncounting then 1 else 0)
  {
    if step.LoadOrStore? {
      StoreSize(lim, s, step.r);
    } else if step.LoadAndDelete? {
      DeleteSize(lim, s, step.r);
    }
  }

  lemma CountedStep(lim: Limits, s: State, step: Step)
    requires Counted(s) && Enabled(s, step)
    ensures Counted(Do(lim, s, step))
  {
    var s' := Do(lim, s, step);
    if step.Begin? || step.SetTrace? {
      assert Those(s', Counting) == Those(s, Counting) && Those(s', Uncounting) == Those(s, Uncounting);
    } else if IsLoggerStep(step) {
      LoggerStep(lim, s, step);
      assert Those(s', Counting) == Those(s, Counting) && Those(s', Uncounting) == Those(s, Uncounting);
    } else {
      ActiveSize(lim, s, step);
      CountedMove(s, s', step.r, s'.requests[step.r].phase);
    }
  }

  /** Every interleaving: the counter plus the stored and not yet counted minus the removed and not yet uncounted. */
  lemma {:induction false} CounterInvariant(lim: Limits, steps: seq<Step>)
    requires Exec(lim, steps).Some?
    ensures Counted(Exec(lim, steps).value)
  {
    if steps == [] {
      assert Those(INITIAL, Counting) == {} && Those(INITIAL, Uncounting) == {};
    } else {
      CounterInvariant(lim, steps[..|steps| - 1]);
      CountedStep(lim, Exec(lim, steps[..|steps| - 1]).value, steps[|steps| - 1]);
    }
  }

  /**
    When no update is under way, `HasActiveTraces` is exact, and a counter of one means there is
    exactly one active trace for a line without a trace id to go to.
  */
  lemma QuietCounter(lim: Limits, steps: seq<Step>)
    requires Exec(lim, steps).Some?
    requires var s := Exec(lim, steps).value; Those(s, Counting) == {} && Those(s, Uncounting) == {}
    ensures var s := Exec(lim, steps).value;
            && s.count == |s.active|
            && (s.count > 0 <==> s.active != map[])
            && (s.count == 1 <==> exists trace :: s.active.Keys == {trace})
  {
    var s := Exec(lim, steps).value;
    CounterInvariant(lim, steps);
    assert |s.active| == |s.active.Keys|;
    if s.count == 1 {
      var trace :| trace in s.active.Keys;
      assert |s.active.Keys - {trace}| == 0;
      assert s.active.Keys == {trace};
    }
  }

  /** A registration nobody interferes with does to the map and the counter what one `RegisterTrace` call does. */
  lemma RegisterAlone(lim: Limits, s: State, r: nat)
    requires InPhase(s, r, Fresh)
    ensures var stored := Do(lim, s, LoadOrStore(r));
            var s' := if InPhase(stored, r, Counting) then Do(lim, stored, AddOne(r)) else stored;
            var trace := s.requests[r].trace;
            && s'.active == (if trace == "" || trace in s.active then s.active else s.active[trace := r])
            && s'.count - |s'.active| == s.count - |s.active|
            && InPhase(s', r, Open)
  {
    StoreSize(lim, s, r);
  }

  lemma RemovedIfThere(m: map<string, nat>, key: string)
    requires key !in m
    ensures m - {key} == m
  {
  }

  /** The same for the end of a request and `unregisterTrace`, with the trace id as the snapshot shows it. */
  lemma UnregisterAlone(lim: Limits, s: State, r: nat)
    requires InPhase(s, r, Finishing)
    ensures var removed := Do(lim, s, LoadAndDelete(r));
            var s' := if InPhase(removed, r, Uncounting) then Do(lim, removed, SubtractOne(r)) else removed;
            var key := s.requests[r].shown;
            && s'.active == (if key == "" then s.active else s.active - {key})
            && s'.count - |s'.active| == s.count - |s.active|
            && InPhase(s', r, Done)
  {
    var key := s.requests[r].shown;
    DeleteSize(lim, s, r);
    if key !in s.active {
      RemovedIfThere(s.active, key);
    }
  }

  // ---- Routing -----------------------------------------------------------------------------

  /** The request's own entry is in the map, or was found taken. */
  predicate Registered(p: Phase) {
    p == Counting || p == Open || p == Finishing
  }

  predicate Over(p: Phase) {
    p == Uncounting || p == Done
  }

  /** No request starts with the trace id of one that is not over. */
  predicate PoliteStep(s: State, step: Step) {
    step.Begin? && step.trace != "" ==>
      forall q :: q in s.requests && !Over(s.requests[q].phase) ==> s.requests[q].trace != step.trace
  }

  predicate Polite(lim: Limits, steps: seq<Step>)
    requires Exec(lim, steps).Some?
  {
    steps == [] ||
    (Polite(lim, steps[..|steps| - 1]) && PoliteStep(Exec(lim, steps[..|steps| - 1]).value, steps[|steps| - 1]))
  }

  /** Every snapshot taken so far shows the trace id that its request was registered under. */
  ghost predicate ShowOwn(s: State) {
    forall r :: r in s.requests && Snapped(s.requests[r].phase) ==> s.requests[r].shown == s.requests[r].trace
  }

  ghost predicate DistinctOpen(s: State) {
    forall r, q ::
      (r in s.requests && q in s.requests && r != q && !Over(s.requests[r].phase) && !Over(s.requests[q].phase)) ==>
      (s.requests[r].trace != "" ==> s.requests[r].trace != s.requests[q].trace)
  }

  /** The map leads from every registered trace to the one request that carries it, and nowhere else. */
  ghost predicate Exact(s: State) {
    && (forall k :: k in s.active ==>
          k != "" && s.active[k] in s.requests && s.requests[s.active[k]].trace == k && Registered(s.requests[s.active[k]].phase))
    && (forall r :: r in s.requests && Registered(s.requests[r].phase) && s.requests[r].trace != "" ==>
          s.requests[r].trace in s.active && s.active[s.requests[r].trace] == r)
  }

  /** Whatever carries a trace id is with, or on its way to, a collector of that trace. */
  ghost predicate Routed(s: State) {
    && (forall l :: l in s.loggers && s.loggers[l].Delivering? && s.loggers[l].line.trace != "" ==>
          s.loggers[l].target in s.requests && s.requests[s.loggers[l].target].trace == s.loggers[l].line.trace)
    && (forall l :: l in s.loggers && s.loggers[l].SawOne? ==> s.loggers[l].line.trace == "")
    && (forall r, k :: r in s.delivered && 0 <= k < |s.delivered[r]| && s.delivered[r][k].trace != "" ==>
          r in s.requests && s.requests[r].trace == s.delivered[r][k].trace)
  }

  /** A step that leaves the map alone, and the request as registered and as over as it was. */
  lemma ExactMove(s: State, s': State, r: nat, p: Phase)
    requires DistinctOpen(s) && Exact(s) && r in s.requests
    requires s'.requests == Move(s, r, p).requests && s'.active == s.active
    requires (Registered(p) <==> Registered(s.requests[r].phase)) || s.requests[r].trace == ""
    requires Over(p) <==> Over(s.requests[r].phase)
    ensures DistinctOpen(s') && Exact(s')
  {}

  lemma ExactSetTrace(lim: Limits, s: State, r: nat, trace: string)
    requires Enabled(s, SetTrace(r, trace)) && DistinctOpen(s) && Exact(s)
    ensures DistinctOpen(Do(lim, s, SetTrace(r, trace))) && Exact(Do(lim, s, SetTrace(r, trace)))
  {
    var s' := Do(lim, s, SetTrace(r, trace));
    assert forall q :: q in s'.requests ==>
      q in s.requests && s'.requests[q].trace == s.requests[q].trace && s'.requests[q].phase == s.requests[q].phase;
  }

  lemma ExactBegin(lim: Limits, s: State, r: nat, trace: string)
    requires Enabled(s, Begin(r, trace)) && PoliteStep(s, Begin(r, trace)) && DistinctOpen(s) && Exact(s)
    ensures DistinctOpen(Do(lim, s, Begin(r, trace))) && Exact(Do(lim, s, Begin(r, trace)))
  {}

  lemma DistinctMove(s: State, s': State, r: nat, p: Phase)
    requires DistinctOpen(s) && r in s.requests && s'.requests == Move(s, r, p).requests
    requires Over(s.requests[r].phase) ==> Over(p)
    ensures DistinctOpen(s')
  {}

  lemma ExactEntered(s: State, s': State, r: nat)
    requires DistinctOpen(s) && Exact(s) && InPhase(s, r, Fresh) && s.requests[r].trace != ""
    requires s'.requests == Move(s, r, Counting).requests && s'.active == s.active[s.requests[r].trace := r]
    ensures DistinctOpen(s') && Exact(s')
  {
    var trace := s.requests[r].trace;
    DistinctMove(s, s', r, Counting);
    forall q | q in s'.requests && q != r && Registered(s'.requests[q].phase) && s'.requests[q].trace != ""
      ensures s'.requests[q].trace in s'.active && s'.active[s'.requests[q].trace] == q
    {
      assert s.requests[q].trace != trace;
    }
  }

  lemma ExactStore(lim: Limits, s: State, r: nat)
    requires Enabled(s, LoadOrStore(r)) && DistinctOpen(s) && Exact(s)
    ensures DistinctOpen(Do(lim, s, LoadOrStore(r))) && Exact(Do(lim, s, LoadOrStore(r)))
  {
    var trace := s.requests[r].trace;
    if trace == "" {
      ExactMove(s, Do(lim, s, LoadOrStore(r)), r, Open);
    } else {
      assert trace !in s.active;
      ExactEntered(s, Do(lim, s, LoadOrStore(r)), r);
    }
  }

  lemma ExactLeft(s: State, s': State, r: nat)
    requires DistinctOpen(s) && Exact(s) && InPhase(s, r, Finishing) && s.requests[r].trace != ""
    requires s'.requests == Move(s, r, Uncounting).requests && s'.active == s.active - {s.requests[r].trace}
    ensures DistinctOpen(s') && Exact(s')
  {
    var trace := s.requests[r].trace;
    DistinctMove(s, s', r, Uncounting);
    forall q | q in s'.requests && Registered(s'.requests[q].phase) && s'.requests[q].trace != ""
      ensures s'.requests[q].trace in s'.active && s'.active[s'.requests[q].trace] == q
    {
      assert q != r && s.requests[q] == s'.requests[q];
      assert s.requests[q].trace != trace;
    }
  }

  /** A request without a trace is finished without touching the map. */
  lemma ExactUntraced(s: State, s': State, r: nat)
    requires DistinctOpen(s) && Exact(s) && r in s.requests && s.requests[r].trace == ""
    requires s'.requests == Move(s, r, Done).requests && s'.active == s.active
    ensures DistinctOpen(s') && Exact(s')
  {
    assert forall q :: q in s.requests && q != r ==> s'.requests[q] == s.requests[q];
  }

  lemma ExactDelete(lim: Limits, s: State, r: nat)
    requires Enabled(s, LoadAndDelete(r)) && DistinctOpen(s) && Exact(s)
    requires s.requests[r].shown == s.requests[r].trace
    ensures DistinctOpen(Do(lim, s, LoadAndDelete(r))) && Exact(Do(lim, s, LoadAndDelete(r)))
  {
    var key, s' := s.requests[r].trace, Do(lim, s, LoadAndDelete(r));
    if key == "" {
      ExactUntraced(s, s', r);
    } else {
      assert key in s.active && s.active[key] == r;
      ExactLeft(s, s', r);
    }
  }

  lemma ExactStep(lim: Limits, s: State, step: Step)
    requires Enabled(s, step) && PoliteStep(s, step)
    requires DistinctOpen(s) && Exact(s) && ShowOwn(s)
    ensures DistinctOpen(Do(lim, s, step)) && Exact(Do(lim, s, step))
  {
    var s' := Do(lim, s, step);
    if IsLoggerStep(step) {
      LoggerStep(lim, s, step);
    } else if step.Begin? {
      ExactBegin(lim, s, step.r, step.trace);
    } else if step.SetTrace? {
      ExactSetTrace(lim, s, step.r, step.trace);
    } else if step.LoadOrStore? {
      ExactStore(lim, s, step.r);
    } else if step.LoadAndDelete? {
      ExactDelete(lim, s, step.r);
    } else {
      ExactMove(s, s', step.r, s'.requests[step.r].phase);
    }
  }

  /** The requests keep the trace ids they are registered under, and once it is taken what the snapshot shows. */
  lemma TracesKept(lim: Limits, s: State, step: Step)
    requires Enabled(s, step)
    ensures var s' := Do(lim, s, step);
            forall r :: r in s.requests ==>
              && r in s'.requests && s'.requests[r].trace == s.requests[r].trace
              && (Snapped(s.requests[r].phase) ==>
                    Snapped(s'.requests[r].phase) && s'.requests[r].shown == s.requests[r].shown)
  {}

  lemma RoutedKept(s: State, s': State)
    requires Routed(s) && s'.loggers == s.loggers && s'.delivered == s.delivered
    requires forall r :: r in s.requests ==> r in s'.requests && s'.requests[r].trace == s.requests[r].trace
    ensures Routed(s')
  {}

  lemma RoutedDeliver(lim: Limits, s: State, l: nat)
    requires Enabled(s, Deliver(l)) && Routed(s)
    ensures Routed(Do(lim, s, Deliver(l)))
  {
    var s', target, line := Do(lim, s, Deliver(l)), s.loggers[l].target, s.loggers[l].line;
    assert s'.delivered[target] == DeliveredTo(s, target) + [line];
    forall r, k | r in s'.delivered && 0 <= k < |s'.delivered[r]| && s'.delivered[r][k].trace != ""
      ensures r in s'.requests && s'.requests[r].trace == s'.delivered[r][k].trace
    {
      if r == target && k < |DeliveredTo(s, target)| {
        assert s'.delivered[r][k] == s.delivered[r][k];
      }
    }
  }

  lemma RoutedLogger(s: State, s': State, l: nat, logger: Logger)
    requires Routed(s) && s'.requests == s.requests && s'.delivered == s.delivered && s'.loggers == s.loggers[l := logger]
    requires logger.SawOne? ==> logger.line.trace == ""
    requires logger.Delivering? && logger.line.trace != "" ==>
               logger.target in s.requests && s.requests[logger.target].trace == logger.line.trace
    ensures Routed(s')
  {}

  /** A logger that is looking for a collector, or gives up. */
  lemma RoutedSearch(lim: Limits, s: State, step: Step)
    requires Enabled(s, step) && (step.Lookup? || step.ReadCount? || step.PickAny?) && Exact(s) && Routed(s)
    ensures Routed(Do(lim, s, step))
  {
    var s' := Do(lim, s, step);
    if step.Lookup? && step.line.trace in s.active {
      RoutedLogger(s, s', step.l, Delivering(s.active[step.line.trace], step.line));
    } else if step.PickAny? && step.trace in s.active {
      RoutedLogger(s, s', step.l, Delivering(s.active[step.trace], s.loggers[step.l].line));
    } else if step.ReadCount? && s.count == 1 {
      RoutedLogger(s, s', step.l, SawOne(step.line));
    }
  }

  lemma RequestStep(lim: Limits, s: State, step: Step)
    requires Enabled(s, step) && !IsLoggerStep(step)
    ensures var s' := Do(lim, s, step); s'.loggers == s.loggers && s'.delivered == s.delivered
  {}

  lemma RoutedStep(lim: Limits, s: State, step: Step)
    requires Enabled(s, step) && Exact(s) && Routed(s)
    ensures Routed(Do(lim, s, step))
  {
    if step.Deliver? {
      RoutedDeliver(lim, s, step.l);
    } else if IsLoggerStep(step) {
      RoutedSearch(lim, s, step);
    } else {
      TracesKept(lim, s, step);
      RequestStep(lim, s, step);
      RoutedKept(s, Do(lim, s, step));
    }
  }

  lemma ShownBefore(lim: Limits, s: State, step: Step)
    requires Enabled(s, step) && ShowOwn(Do(lim, s, step))
    ensures ShowOwn(s)
  {
    TracesKept(lim, s, step);
  }

  /**
    When open requests have distinct trace ids and every snapshot shows the trace id its request
    was registered under, the map is exact: it leads from every registered trace to its request.
  */
  lemma {:induction false} PoliteRuns(lim: Limits, steps: seq<Step>)
    requires Exec(lim, steps).Some? && Polite(lim, steps) && ShowOwn(Exec(lim, steps).value)
    ensures var s := Exec(lim, steps).value; DistinctOpen(s) && Exact(s) && Routed(s)
  {
    if steps != [] {
      var before, step := steps[..|steps| - 1], steps[|steps| - 1];
      var s := Exec(lim, before).value;
      ShownBefore(lim, s, step);
      PoliteRuns(lim, before);
      ExactStep(lim, s, step);
      RoutedStep(lim, s, step);
    }
  }

  /**
    Routing: in a polite run whose snapshots show the registered trace ids, a line with the trace of
    a registered request is picked up for that request, a line whose trace nobody has registered is picked up by none,
    and every traced line delivered so far is with a collector of its own trace.
  */
  lemma LinesReachTheirRequest(lim: Limits, steps: seq<Step>, l: nat, line: Line)
    requires Exec(lim, steps).Some? && Polite(lim, steps) && ShowOwn(Exec(lim, steps).value)
    requires Enabled(Exec(lim, steps).value, Lookup(l, line))
    ensures var s := Exec(lim, steps).value;
            var s' := Do(lim, s, Lookup(l, line));
            && Routed(s)
            && (forall r :: r in s.requests && Registered(s.requests[r].phase) && s.requests[r].trace == line.trace ==>
                  s' == s.(loggers := s.loggers[l := Delivering(r, line)]))
            && ((forall r :: r in s.requests && Registered(s.requests[r].phase) ==> s.requests[r].trace != line.trace) ==>
                  s' == s)
  {
    PoliteRuns(lim, steps);
  }

  /** A line picked up stays with its logger until that logger delivers it, once, to that collector and to no other. */
  lemma DeliveredOnce(lim: Limits, s: State, step: Step, l: nat)
    requires Enabled(s, step) && l in s.loggers && s.loggers[l].Delivering?
    ensures var s', target := Do(lim, s, step), s.loggers[l].target;
            if step == Deliver(l)
            then l !in s'.loggers && DeliveredTo(s', target) == DeliveredTo(s, target) + [s.loggers[l].line]
                 && forall r :: r != target ==> DeliveredTo(s', r) == DeliveredTo(s, r)
            else l in s'.loggers && s'.loggers[l] == s.loggers[l]
  {}

  /** Through any steps but its own delivery, a logger keeps the collector and the line it holds. */
  lemma {:induction false} HeldUntilDelivered(lim: Limits, steps: seq<Step>, more: seq<Step>, l: nat)
    requires Exec(lim, steps + more).Some? && Deliver(l) !in more
    requires Exec(lim, steps).Some?
    requires var s := Exec(lim, steps).value; l in s.loggers && s.loggers[l].Delivering?
    ensures var s, s' := Exec(lim, steps).value, Exec(lim, steps + more).value;
            l in s'.loggers && s'.loggers[l] == s.loggers[l]
    decreases |more|
  {
    if more == [] {
      assert steps + more == steps;
    } else {
      var before, step := more[..|more| - 1], more[|more| - 1];
      assert (steps + more)[..|steps + more| - 1] == steps + before;
      assert step in more && forall x :: x in before ==> x in more;
      HeldUntilDelivered(lim, steps, before, l);
      DeliveredOnce(lim, Exec(lim, steps + before).value, step, l);
    }
  }

  lemma {:induction false} ExecPrefix(lim: Limits, steps: seq<Step>, more: seq<Step>)
    requires Exec(lim, steps + more).Some?
    ensures Exec(lim, steps).Some?
    decreases |more|
  {
    if more == [] {
      assert steps + more == steps;
    } else {
      assert (steps + more)[..|steps + more| - 1] == steps + more[..|more| - 1];
      ExecPrefix(lim, steps, more[..|more| - 1]);
    }
  }

  /** The run in which logger `l` looks a line up, others take steps, and then `l` delivers. */
  function Delivery(steps: seq<Step>, l: nat, line: Line, others: seq<Step>): seq<Step> {
    steps + [Lookup(l, line)] + others + [Deliver(l)]
  }

  /**
    A line arrives, after every interleaving: whatever collector the map holds for its trace when
    the line is looked up, and whatever steps `others` are taken before the delivery, exactly this
    line is appended to what reached that collector, and nothing to any other.
  */
  lemma LineArrives(lim: Limits, steps: seq<Step>, l: nat, line: Line, others: seq<Step>)
    requires Exec(lim, Delivery(steps, l, line, others)).Some? && Deliver(l) !in others
    requires Exec(lim, steps).Some? && line.trace in Exec(lim, steps).value.active
    ensures Exec(lim, steps + [Lookup(l, line)] + others).Some?
    ensures var r := Exec(lim, steps).value.active[line.trace];
            var s := Exec(lim, steps + [Lookup(l, line)] + others).value;
            var s' := Exec(lim, Delivery(steps, l, line, others)).value;
            && DeliveredTo(s', r) == DeliveredTo(s, r) + [line]
            && (forall q :: q != r ==> DeliveredTo(s', q) == DeliveredTo(s, q))
            && l !in s'.loggers
  {
    var looked := steps + [Lookup(l, line)];
    ExecPrefix(lim, looked + others, [Deliver(l)]);
    ExecPrefix(lim, looked, others);
    assert looked[..|looked| - 1] == steps;
    assert (looked + others + [Deliver(l)])[..|looked + others|] == looked + others;
    HeldUntilDelivered(lim, looked, others, l);
    DeliveredOnce(lim, Exec(lim, looked + others).value, Deliver(l), l);
  }

  /**
    And in a polite run whose snapshots show the registered trace ids it is the right one: a line
    with the trace of a registered request `r` reaches the collector of `r` and no other.
  */
  lemma LineReachesItsRequest(lim: Limits, steps: seq<Step>, l: nat, line: Line, others: seq<Step>, r: nat)
    requires Exec(lim, Delivery(steps, l, line, others)).Some? && Deliver(l) !in others && line.trace != ""
    requires Exec(lim, steps).Some? && Polite(lim, steps) && ShowOwn(Exec(lim, steps).value)
    requires var s := Exec(lim, steps).value;
             r in s.requests && Registered(s.requests[r].phase) && s.requests[r].trace == line.trace
    ensures Exec(lim, steps + [Lookup(l, line)] + others).Some?
    ensures var s := Exec(lim, steps + [Lookup(l, line)] + others).value;
            var s' := Exec(lim, Delivery(steps, l, line, others)).value;
            && DeliveredTo(s', r) == DeliveredTo(s, r) + [line]
            && (forall q :: q != r ==> DeliveredTo(s', q) == DeliveredTo(s, q))
  {
    PoliteRuns(lim, steps);
    LineArrives(lim, steps, l, line, others);
  }

  /** The run in which logger `l` finds the counter at one, others take steps, and then `l` picks an entry and delivers. */
  function LoneDelivery(steps: seq<Step>, l: nat, line: Line, others: seq<Step>, trace: string): seq<Step> {
    steps + [ReadCount(l, line)] + others + [PickAny(l, trace)] + [Deliver(l)]
  }

  lemma SeenStep(lim: Limits, s: State, step: Step, l: nat)
    requires Enabled(s, step) && l in s.loggers && s.loggers[l].SawOne? && !(step.PickAny? && step.l == l)
    ensures var s' := Do(lim, s, step); l in s'.loggers && s'.loggers[l] == s.loggers[l]
  {}

  /** Through any steps but its own, a logger that has read the counter keeps its line. */
  lemma {:induction false} SeenUntilPicked(lim: Limits, steps: seq<Step>, more: seq<Step>, l: nat)
    requires Exec(lim, steps + more).Some? && Exec(lim, steps).Some?
    requires forall step :: step in more ==> !(step.PickAny? && step.l == l)
    requires var s := Exec(lim, steps).value; l in s.loggers && s.loggers[l].SawOne?
    ensures var s, s' := Exec(lim, steps).value, Exec(lim, steps + more).value;
            l in s'.loggers && s'.loggers[l] == s.loggers[l]
    decreases |more|
  {
    if more == [] {
      assert steps + more == steps;
    } else {
      var before, step := more[..|more| - 1], more[|more| - 1];
      assert (steps + more)[..|steps + more| - 1] == steps + before;
      assert step in more && forall x :: x in before ==> x in more;
      SeenUntilPicked(lim, steps, before, l);
      SeenStep(lim, Exec(lim, steps + before).value, step, l);
    }
  }

  /** A line without a trace is only taken up when the counter is one. */
  lemma OnlyAtOne(lim: Limits, s: State, l: nat, line: Line)
    requires Enabled(s, ReadCount(l, line))
    ensures var s' := Do(lim, s, ReadCount(l, line));
            if s.count == 1 then s' == s.(loggers := s.loggers[l := SawOne(line)]) else s' == s
  {}

  /**
    The line without a trace id: when the counter is one as logger `l` looks, then whatever `others`
    do, the line goes to the collector of an entry that is in the map when `l` picks it, once, and to
    no other collector; when the map is empty by then, it goes nowhere.
  */
  lemma LoneLineArrives(lim: Limits, steps: seq<Step>, l: nat, line: Line, others: seq<Step>, trace: string)
    requires Exec(lim, LoneDelivery(steps, l, line, others, trace)).Some?
    requires Exec(lim, steps).Some? && Exec(lim, steps).value.count == 1
    requires forall step :: step in others ==> !(step.PickAny? && step.l == l)
    ensures Exec(lim, steps + [ReadCount(l, line)] + others).Some?
    ensures var s := Exec(lim, steps + [ReadCount(l, line)] + others).value;
            var s' := Exec(lim, LoneDelivery(steps, l, line, others, trace)).value;
            && trace in s.active
            && DeliveredTo(s', s.active[trace]) == DeliveredTo(s, s.active[trace]) + [line]
            && (forall q :: q != s.active[trace] ==> DeliveredTo(s', q) == DeliveredTo(s, q))
            && l !in s'.loggers
  {
    var seen := steps + [ReadCount(l, line)];
    var waited := seen + others;
    var picked := waited + [PickAny(l, trace)];
    ExecPrefix(lim, picked, [Deliver(l)]);
    ExecPrefix(lim, waited, [PickAny(l, trace)]);
    ExecPrefix(lim, seen, others);
    assert seen[..|seen| - 1] == steps && picked[..|picked| - 1] == waited;
    assert (picked + [Deliver(l)])[..|picked|] == picked;
    OnlyAtOne(lim, Exec(lim, steps).value, l, line);
    SeenUntilPicked(lim, seen, others, l);
    DeliveredOnce(lim, Exec(lim, picked).value, Deliver(l), l);
  }

  // ---- Draining ----------------------------------------------------------------------------

  /** In the run `steps` that ends in `s`, step `i` registers a request under `k`. */
  predicate RegistersAt(s: State, steps: seq<Step>, i: nat, k: string)
    requires i < |steps|
  {
    steps[i].LoadOrStore? && steps[i].r in s.requests && s.requests[steps[i].r].trace == k
  }

  /** Step `i` takes `k` out of the map for a request whose snapshot shows it. */
  predicate RemovesAt(s: State, steps: seq<Step>, i: nat, k: string)
    requires i < |steps|
  {
    steps[i].LoadAndDelete? && steps[i].r in s.requests && s.requests[steps[i].r].shown == k
  }

  /** Some registration under `k` is followed by no removal of `k`. */
  ghost predicate LeftBehind(s: State, steps: seq<Step>, k: string) {
    exists i :: 0 <= i < |steps| && RegistersAt(s, steps, i, k)
             && forall j :: i < j < |steps| ==> !RemovesAt(s, steps, j, k)
  }

  /** `f` is a later state than `s`: it tells the traces of the requests of `s`, and what their snapshots show. */
  ghost predicate Tells(f: State, s: State) {
    forall r :: r in s.requests ==>
      && r in f.requests && f.requests[r].trace == s.requests[r].trace
      && (Snapped(s.requests[r].phase) ==> f.requests[r].shown == s.requests[r].shown)
  }

  lemma TellsBefore(lim: Limits, f: State, s: State, step: Step)
    requires Enabled(s, step) && Tells(f, Do(lim, s, step))
    ensures Tells(f, s)
  {
    TracesKept(lim, s, step);
  }

  /** What one more step makes of `LeftBehind`. */
  lemma LeftBehindSnoc(f: State, steps: seq<Step>, step: Step, k: string)
    ensures var all := steps + [step];
            LeftBehind(f, all, k) <==>
              RegistersAt(f, all, |steps|, k) || (LeftBehind(f, steps, k) && !RemovesAt(f, all, |steps|, k))
  {
    var all := steps + [step];
    assert forall i :: 0 <= i < |steps| ==> all[i] == steps[i];
    if LeftBehind(f, all, k) && !RegistersAt(f, all, |steps|, k) {
      var i :| 0 <= i < |all| && RegistersAt(f, all, i, k) && forall j :: i < j < |all| ==> !RemovesAt(f, all, j, k);
      assert RegistersAt(f, steps, i, k);
      forall j | i < j < |steps| ensures !RemovesAt(f, steps, j, k) {
        assert !RemovesAt(f, all, j, k);
      }
    }
    if LeftBehind(f, steps, k) && !RemovesAt(f, all, |steps|, k) {
      var i :| 0 <= i < |steps| && RegistersAt(f, steps, i, k) && forall j :: i < j < |steps| ==> !RemovesAt(f, steps, j, k);
      assert RegistersAt(f, all, i, k);
      forall j | i < j < |all| ensures !RemovesAt(f, all, j, k) {
        assert j < |steps| ==> !RemovesAt(f, steps, j, k);
      }
    }
  }

  lemma EntryStep(lim: Limits, f: State, s: State, steps: seq<Step>, step: Step, k: string)
    requires Enabled(s, step) && Tells(f, Do(lim, s, step)) && k != ""
    ensures var all := steps + [step];
            k in Do(lim, s, step).active <==>
              RegistersAt(f, all, |steps|, k) || (k in s.active && !RemovesAt(f, all, |steps|, k))
  {
    TracesKept(lim, s, step);
    assert (steps + [step])[|steps|] == step;
  }

  /** The map at any moment: it has the ids under which a registration was followed by no removal. */
  lemma {:induction false} HeldIff(lim: Limits, f: State, steps: seq<Step>, k: string)
    requires Exec(lim, steps).Some? && Tells(f, Exec(lim, steps).value) && k != ""
    ensures k in Exec(lim, steps).value.active <==> LeftBehind(f, steps, k)
  {
    if steps != [] {
      var before, step := steps[..|steps| - 1], steps[|steps| - 1];
      assert steps == before + [step];
      TellsBefore(lim, f, Exec(lim, before).value, step);
      HeldIff(lim, f, before, k);
      EntryStep(lim, f, Exec(lim, before).value, before, step, k);
      LeftBehindSnoc(f, before, step, k);
    }
  }

  lemma NoEmptyStep(lim: Limits, s: State, step: Step)
    requires Enabled(s, step) && "" !in s.active
    ensures "" !in Do(lim, s, step).active
  {
  }

  lemma {:induction false} NoEmptyKey(lim: Limits, steps: seq<Step>)
    requires Exec(lim, steps).Some?
    ensures "" !in Exec(lim, steps).value.active
  {
    if steps != [] {
      NoEmptyKey(lim, steps[..|steps| - 1]);
      NoEmptyStep(lim, Exec(lim, steps[..|steps| - 1]).value, steps[|steps| - 1]);
    }
  }

  ghost predicate AllDone(s: State) {
    forall r :: r in s.requests ==> s.requests[r].phase == Done
  }

  lemma DoneCount(lim: Limits, steps: seq<Step>)
    requires Exec(lim, steps).Some? && AllDone(Exec(lim, steps).value)
    ensures var s := Exec(lim, steps).value; s.count == |s.active| && (s.count == 0 <==> s.active == map[])
  {
    var s := Exec(lim, steps).value;
    CounterInvariant(lim, steps);
    assert Those(s, Counting) == {} && Those(s, Uncounting) == {};
  }

  /**
    When the registry drains, for every interleaving, with trace ids shared and set again at will:
    at any moment with no update under way, the map is empty and the counter zero exactly if every
    registration under a trace id is followed by the removal of a request whose snapshot shows it.
  */
  lemma DrainsIff(lim: Limits, steps: seq<Step>)
    requires Exec(lim, steps).Some?
    requires var s := Exec(lim, steps).value; Those(s, Counting) == {} && Those(s, Uncounting) == {}
    ensures var s := Exec(lim, steps).value;
            && (s.active == map[] <==> forall k :: k != "" ==> !LeftBehind(s, steps, k))
            && (s.count == 0 <==> forall k :: k != "" ==> !LeftBehind(s, steps, k))
  {
    var s := Exec(lim, steps).value;
    CounterInvariant(lim, steps);
    assert s.count == 0 ==> |s.active| == 0;
    NoEmptyKey(lim, steps);
    forall k: string | k != "" ensures k in s.active <==> LeftBehind(s, steps, k) {
      HeldIff(lim, s, steps, k);
    }
    if s.active != map[] {
      var k :| k in s.active;
      assert LeftBehind(s, steps, k);
    }
  }

  /** Every traced request that has its snapshot taken shows the trace id it was registered under. */
  ghost predicate TracedShowOwn(s: State) {
    forall r :: r in s.requests && s.requests[r].trace != "" && Snapped(s.requests[r].phase) ==>
      s.requests[r].shown == s.requests[r].trace
  }

  /** Every entry of the map leads to a request that carries it and is not over yet. */
  ghost predicate Owned(s: State) {
    forall k :: k in s.active ==>
      k != "" && s.active[k] in s.requests && s.requests[s.active[k]].trace == k && Registered(s.requests[s.active[k]].phase)
  }

  lemma OwnedMove(s: State, s': State, r: nat, p: Phase)
    requires Owned(s) && r in s.requests && s'.requests == Move(s, r, p).requests && s'.active == s.active
    requires Registered(s.requests[r].phase) ==> Registered(p)
    ensures Owned(s')
  {}

  lemma OwnedSetTrace(lim: Limits, s: State, r: nat, trace: string)
    requires Enabled(s, SetTrace(r, trace)) && Owned(s)
    ensures Owned(Do(lim, s, SetTrace(r, trace)))
  {}

  lemma OwnedStore(lim: Limits, s: State, r: nat)
    requires InPhase(s, r, Fresh) && Owned(s)
    ensures Owned(Do(lim, s, LoadOrStore(r)))
  {}

  lemma OwnedDelete(lim: Limits, s: State, r: nat)
    requires InPhase(s, r, Finishing) && Owned(s) && (s.requests[r].trace != "" ==> s.requests[r].shown == s.requests[r].trace)
    ensures Owned(Do(lim, s, LoadAndDelete(r)))
  {}

  lemma OwnedStep(lim: Limits, s: State, step: Step)
    requires Enabled(s, step) && Owned(s) && TracedShowOwn(s)
    ensures Owned(Do(lim, s, step))
  {
    var s' := Do(lim, s, step);
    if IsLoggerStep(step) {
      LoggerStep(lim, s, step);
    } else if step.SetTrace? {
      OwnedSetTrace(lim, s, step.r, step.trace);
    } else if step.LoadOrStore? {
      OwnedStore(lim, s, step.r);
    } else if step.LoadAndDelete? {
      OwnedDelete(lim, s, step.r);
    } else if !step.Begin? {
      OwnedMove(s, s', step.r, s'.requests[step.r].phase);
    }
  }

  /** Entries are then owned after every interleaving, shared trace ids included. */
  lemma {:induction false} AlwaysOwned(lim: Limits, steps: seq<Step>)
    requires Exec(lim, steps).Some? && TracedShowOwn(Exec(lim, steps).value)
    ensures Owned(Exec(lim, steps).value)
  {
    if steps != [] {
      var before, step := steps[..|steps| - 1], steps[|steps| - 1];
      TracesKept(lim, Exec(lim, before).value, step);
      AlwaysOwned(lim, before);
      OwnedStep(lim, Exec(lim, before).value, step);
    }
  }

  /** No snapshot taken so far shows `k`. */
  ghost predicate Unshown(s: State, k: string) {
    forall r :: r in s.requests && Snapped(s.requests[r].phase) ==> s.requests[r].shown != k
  }

  /** A step after which no snapshot shows `k` keeps an entry of `k`. */
  lemma UnshownStep(lim: Limits, s: State, step: Step, k: string)
    requires Enabled(s, step) && Unshown(Do(lim, s, step), k) && k != ""
    ensures Unshown(s, k)
    ensures k in s.active || (step.LoadOrStore? && s.requests[step.r].trace == k) ==> k in Do(lim, s, step).active
  {
    TracesKept(lim, s, step);
    if step.LoadAndDelete? {
      assert Do(lim, s, step).requests[step.r].shown == s.requests[step.r].shown;
    }
  }

  /** A request leaves its first phase by being registered. */
  lemma FreshUntilStored(lim: Limits, s: State, step: Step, r: nat)
    requires Enabled(s, step) && r in Do(lim, s, step).requests && Do(lim, s, step).requests[r].phase != Fresh
    ensures r in s.requests && (s.requests[r].phase != Fresh || step == LoadOrStore(r))
  {
  }

  /** A trace id that no snapshot shows stays in the map once a request is registered under it. */
  lemma {:induction false} UnshownStays(lim: Limits, steps: seq<Step>, r: nat)
    requires Exec(lim, steps).Some?
    requires var s := Exec(lim, steps).value;
             && r in s.requests && s.requests[r].phase != Fresh && s.requests[r].trace != ""
             && Unshown(s, s.requests[r].trace)
    ensures var s := Exec(lim, steps).value; s.requests[r].trace in s.active
  {
    var before, step := steps[..|steps| - 1], steps[|steps| - 1];
    var s := Exec(lim, before).value;
    TracesKept(lim, s, step);
    UnshownStep(lim, s, step, Exec(lim, steps).value.requests[r].trace);
    FreshUntilStored(lim, s, step, r);
    if s.requests[r].phase != Fresh {
      UnshownStays(lim, before, r);
    }
  }

  ghost predicate NoneShowsAnothers(s: State) {
    forall r, q :: r in s.requests && q in s.requests && r != q && s.requests[q].trace != "" ==>
      s.requests[r].shown != s.requests[q].trace
  }

  /**
    The condition on requests: with every traced request showing its own trace id the map drains,
    shared trace ids included; and when no request shows another's trace id, it drains only then.
  */
  lemma DrainsIfShown(lim: Limits, steps: seq<Step>)
    requires Exec(lim, steps).Some? && AllDone(Exec(lim, steps).value)
    ensures var s := Exec(lim, steps).value;
            && (TracedShowOwn(s) ==> s.active == map[] && s.count == 0)
            && (NoneShowsAnothers(s) ==> (s.active == map[] <==> TracedShowOwn(s)) && (s.count == 0 <==> TracedShowOwn(s)))
  {
    var s := Exec(lim, steps).value;
    DoneCount(lim, steps);
    if TracedShowOwn(s) {
      AlwaysOwned(lim, steps);
      assert s.active == map[];
    } else if NoneShowsAnothers(s) {
      var r :| r in s.requests && s.requests[r].trace != "" && s.requests[r].shown != s.requests[r].trace;
      UnshownStays(lim, steps, r);
    }
  }

  predicate NeverSet(steps: seq<Step>) {
    forall i :: 0 <= i < |steps| ==> !steps[i].SetTrace?
  }

  ghost predicate AllCut(lim: Limits, s: State) {
    forall r :: r in s.requests ==> !CollectorSpec.TooLong(lim, s.requests[r].shown)
  }

  ghost predicate AllAsGiven(lim: Limits, s: State) {
    forall r :: r in s.requests ==> s.requests[r].shown == CollectorSpec.Cut(lim, s.requests[r].trace)
  }

  lemma CutIsShort(lim: Limits, v: string)
    ensures !CollectorSpec.TooLong(lim, CollectorSpec.Cut(lim, v))
  {
  }

  lemma CutStep(lim: Limits, s: State, step: Step)
    requires Enabled(s, step)
    ensures AllCut(lim, s) ==> AllCut(lim, Do(lim, s, step))
    ensures AllAsGiven(lim, s) && !step.SetTrace? ==> AllAsGiven(lim, Do(lim, s, step))
  {
    if IsLoggerStep(step) {
      LoggerStep(lim, s, step);
    } else if step.Begin? || step.SetTrace? {
      CutIsShort(lim, step.trace);
    }
  }

  /** What a collector holds is never longer than the limit, and is the cut form of the registered trace id unless set again. */
  lemma {:induction false} ShownIsCut(lim: Limits, steps: seq<Step>)
    requires Exec(lim, steps).Some?
    ensures AllCut(lim, Exec(lim, steps).value)
    ensures NeverSet(steps) ==> AllAsGiven(lim, Exec(lim, steps).value)
  {
    if steps != [] {
      var before, step := steps[..|steps| - 1], steps[|steps| - 1];
      assert NeverSet(steps) ==> NeverSet(before) && !step.SetTrace?;
      ShownIsCut(lim, before);
      CutStep(lim, Exec(lim, before).value, step);
    }
  }

  /** A trace id longer than the limit stays in the map once registered, whatever is set later: no snapshot shows it. */
  lemma LongAlwaysStays(lim: Limits, steps: seq<Step>, r: nat)
    requires Exec(lim, steps).Some?
    requires var s := Exec(lim, steps).value;
             r in s.requests && s.requests[r].phase != Fresh && CollectorSpec.TooLong(lim, s.requests[r].trace)
    ensures var s := Exec(lim, steps).value; s.requests[r].trace in s.active
  {
    ShownIsCut(lim, steps);
    UnshownStays(lim, steps, r);
  }

  /**
    When no trace id is set again, as the middleware does it: once every request of a run is done,
    the map is empty and the counter zero exactly if no trace id was longer than the collector's
    length limit. The requests may share trace ids.
  */
  lemma DrainsIffShort(lim: Limits, steps: seq<Step>)
    requires Exec(lim, steps).Some? && AllDone(Exec(lim, steps).value) && NeverSet(steps)
    ensures var s := Exec(lim, steps).value;
            var short := forall r :: r in s.requests ==> !CollectorSpec.TooLong(lim, s.requests[r].trace);
            (s.active == map[] <==> short) && (s.count == 0 <==> short)
  {
    var s := Exec(lim, steps).value;
    ShownIsCut(lim, steps);
    DrainsIfShown(lim, steps);
    DoneCount(lim, steps);
    if r :| r in s.requests && CollectorSpec.TooLong(lim, s.requests[r].trace) {
      LongAlwaysStays(lim, steps, r);
    } else {
      assert TracedShowOwn(s);
    }
  }

  // ---- A request from beginning to end -------------------------------------------------------

  lemma ExecSnoc(lim: Limits, steps: seq<Step>, step: Step)
    requires Exec(lim, steps).Some? && Enabled(Exec(lim, steps).value, step)
    ensures Exec(lim, steps + [step]) == Some(Do(lim, Exec(lim, steps).value, step))
  {
    assert (steps + [step])[..|steps|] == steps;
  }

  /** One request and nothing else. */
  function OnlyRequest(r: Traced, active: map<string, nat>, count: int): State {
    State(map[0 := r], active, count, map[], map[])
  }

  lemma StepAlone(lim: Limits, steps: seq<Step>, step: Step, r: Traced, active: map<string, nat>, count: int)
    requires Exec(lim, steps) == Some(OnlyRequest(r, active, count))
    requires !step.Begin? && !IsLoggerStep(step) && step.r == 0 && Enabled(OnlyRequest(r, active, count), step)
    ensures var s' := Do(lim, OnlyRequest(r, active, count), step);
            0 in s'.requests && Exec(lim, steps + [step]) == Some(OnlyRequest(s'.requests[0], s'.active, s'.count))
  {
    ExecSnoc(lim, steps, step);
    var s' := Do(lim, OnlyRequest(r, active, count), step);
    assert s'.requests == map[0 := s'.requests[0]];
  }

  /** One request alone, up to the registration in the map. */
  function Storing(trace: string): seq<Step> {
    [Begin(0, trace)] + [LoadOrStore(0)]
  }

  /** Between the two steps of `RegisterTrace` the counter lags: a trace is active and `HasActiveTraces` says no. */
  lemma CounterLags(lim: Limits, trace: string)
    requires trace != ""
    ensures Exec(lim, Storing(trace))
         == Some(OnlyRequest(Traced(trace, CollectorSpec.Cut(lim, trace), Counting), map[trace := 0], 0))
  {
    var begun := Traced(trace, CollectorSpec.Cut(lim, trace), Fresh);
    assert [] + [Begin(0, trace)] == [Begin(0, trace)];
    ExecSnoc(lim, [], Begin(0, trace));
    assert Exec(lim, [Begin(0, trace)]) == Some(OnlyRequest(begun, map[], 0));
    StepAlone(lim, [Begin(0, trace)], LoadOrStore(0), begun, map[], 0);
  }

  /** One request alone, up to the end of `RegisterTrace`. */
  function Registering(trace: string): seq<Step> {
    Storing(trace) + [AddOne(0)]
  }

  lemma RegisteredAlone(lim: Limits, trace: string)
    requires trace != ""
    ensures Exec(lim, Registering(trace))
         == Some(OnlyRequest(Traced(trace, CollectorSpec.Cut(lim, trace), Open), map[trace := 0], 1))
  {
    CounterLags(lim, trace);
    StepAlone(lim, Storing(trace), AddOne(0), Traced(trace, CollectorSpec.Cut(lim, trace), Counting), map[trace := 0], 0);
  }

  /** A request alone that shows another trace id than its own completes, and its entry and a counter of one stay behind. */
  lemma CompletesAlone(lim: Limits, steps: seq<Step>, trace: string, shown: string)
    requires Exec(lim, steps) == Some(OnlyRequest(Traced(trace, shown, Open), map[trace := 0], 1)) && shown != trace
    ensures Exec(lim, steps + [Snapshot(0)] + [LoadAndDelete(0)])
         == Some(OnlyRequest(Traced(trace, shown, Done), map[trace := 0], 1))
  {
    StepAlone(lim, steps, Snapshot(0), Traced(trace, shown, Open), map[trace := 0], 1);
    StepAlone(lim, steps + [Snapshot(0)], LoadAndDelete(0), Traced(trace, shown, Finishing), map[trace := 0], 1);
  }

  /** One request alone from beginning to end. */
  function Completing(trace: string): seq<Step> {
    Registering(trace) + [Snapshot(0)] + [LoadAndDelete(0)]
  }

  /** A request whose trace id is longer than the limit completes, and its entry stays behind. */
  lemma LongTraceLeaks(lim: Limits, trace: string)
    requires CollectorSpec.TooLong(lim, trace)
    ensures Exec(lim, Completing(trace))
         == Some(OnlyRequest(Traced(trace, CollectorSpec.Cut(lim, trace), Done), map[trace := 0], 1))
  {
    assert |CollectorSpec.Cut(lim, trace)| < |trace|;
    RegisteredAlone(lim, trace);
    CompletesAlone(lim, Registering(trace), trace, CollectorSpec.Cut(lim, trace));
  }

  /** The same with the trace id of the collector set again before the snapshot. */
  function Resetting(trace: string, other: string): seq<Step> {
    Registering(trace) + [SetTrace(0, other)] + [Snapshot(0)] + [LoadAndDelete(0)]
  }

  /** A request whose collector is given another trace id leaves the entry of the first one, however short. */
  lemma ResetTraceLeaks(lim: Limits, trace: string, other: string)
    requires trace != "" && CollectorSpec.Cut(lim, other) != trace
    ensures Exec(lim, Resetting(trace, other))
         == Some(OnlyRequest(Traced(trace, CollectorSpec.Cut(lim, other), Done), map[trace := 0], 1))
  {
    RegisteredAlone(lim, trace);
    StepAlone(lim, Registering(trace), SetTrace(0, other), Traced(trace, CollectorSpec.Cut(lim, trace), Open), map[trace := 0], 1);
    CompletesAlone(lim, Registering(trace) + [SetTrace(0, other)], trace, CollectorSpec.Cut(lim, other));
  }

  /** An id of the length that trace propagation uses, with a limit of 16: one completed request, one entry left. */
  lemma ThirtyTwoDigitsLeak()
    ensures var lim := CollectorSpec.Limits(0, 16, 0, 0, 0, 0);
            var trace := "4bf92f3577b34da6a3ce929d0e0e4736";
            |trace| == 32 && Exec(lim, Completing(trace)) == Some(OnlyRequest(Traced(trace, trace[..16], Done), map[trace := 0], 1))
  {
    LongTraceLeaks(CollectorSpec.Limits(0, 16, 0, 0, 0, 0), "4bf92f3577b34da6a3ce929d0e0e4736");
  }
}
