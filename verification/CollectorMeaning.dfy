/** What the collector's records, events and names show, in terms of the arguments of the calls. */
module CollectorMeaning {
  import opened Common
  import opened LogTrace
  import opened CollectorSpec
  import opened CollectorRuns
  import opened CollectorLaws
  import opened CollectorAdmission

  // ---- What a record shows -------------------------------------------------------------------

  /** `w` is the text `v`, or its first `maxStringLen` bytes if there is such a limit and it is longer. */
  predicate Shortened(lim: Limits, v: string, w: string) {
    w == if 0 < lim.maxStringLen < |v| then v[..lim.maxStringLen] else v
  }

  /** `ms` milliseconds are the whole microseconds of `ns` nanoseconds. */
  ghost predicate Milliseconds(ns: int, ms: real) {
    exists us: int :: Micros(ns, us) && ms == us as real / 1000.0
  }

  ghost predicate ShowsQuery(lim: Limits, c: Call, q: DatabaseQuery) {
    && c.DatabaseCall?
    && Shortened(lim, c.query, q.query) && Shortened(lim, c.connection, q.connection)
    && Shortened(lim, if c.model == "" then c.tableName else c.model, q.model)
    && Shortened(lim, if c.file == "" then c.callerFile else c.file, q.file)
    && q.line == (if c.file == "" then c.callerLine else c.line)
    && Milliseconds(c.elapsed, q.duration) && q.slow == c.slow && q.timestamp == c.now
  }

  ghost predicate ShowsCache(lim: Limits, c: Call, q: CacheQuery) {
    && c.CacheCall?
    && Shortened(lim, c.kind, q.kind) && Shortened(lim, c.key, q.key)
    && Milliseconds(c.elapsed, q.duration) && q.timestamp == c.now
  }

  /** An event with these texts and this span; an event that does not end after it starts shows no end. */
  predicate ShowsSpan(lim: Limits, name: string, description: string, start: real, end: real, color: string, e: TimelineEvent) {
    && Shortened(lim, name, e.name) && Shortened(lim, description, e.description)
    && e.start == start && e.color == color
    && (if end > start then e.end == end && e.duration == end - start else e.end == 0.0 && e.duration == 0.0)
  }

  ghost predicate ShowsEvent(req: Request, lim: Limits, c: Call, e: TimelineEvent) {
    match c
    case DatabaseCall(_, _, _, _, _, _, _, _, _, _, _) =>
      exists q :: ShowsQuery(lim, c, q) &&
        ShowsSpan(lim, "db", q.query, c.now - q.duration, c.now, if c.slow then "red" else "blue", e)
    case CacheCall(_, _, _, _) =>
      exists q :: ShowsCache(lim, c, q) &&
        ShowsSpan(lim, "cache", q.kind + ": " + q.key, c.now - q.duration, c.now, "purple", e)
    case TimelineCall(name, description, start, end, color) => ShowsSpan(lim, name, description, start, end, color, e)
    case ResponseCall(_, _, now, _) =>
      ShowsSpan(lim, "request", req.verb + " " + req.uri, req.startTime, now, "green", e)
    case _ => false
  }

  ghost predicate ShowsFrame(lim: Limits, f: Frame, vendor: bool, shown: Frame) {
    Shortened(lim, f.call, shown.call) && Shortened(lim, f.file, shown.file) && shown.line == f.line && shown.isVendor == vendor
  }

  /** `at` lists, in order, the first `max` positions of the stack, from `i` on, whose frame names a file. */
  ghost predicate FileFramesAt(stack: seq<Frame>, i: nat, at: seq<nat>, max: nat) {
    && |at| <= max
    && (forall k :: 0 <= k < |at| ==> i <= at[k] < |stack| && stack[at[k]].file != "")
    && (forall j, k :: 0 <= j < k < |at| ==> at[j] < at[k])
    && (forall p :: i <= p < |stack| && stack[p].file != "" ==> p in at || (|at| == max && forall k :: 0 <= k < |at| ==> at[k] < p))
  }

  /** The first twelve frames that were passed in, or when none were, the first twelve of the running stack that name a file. */
  ghost predicate ShowsTrace(lim: Limits, trace: seq<Frame>, stack: seq<Frame>, shown: seq<Frame>) {
    if trace != [] then
      && |shown| == (if |trace| <= 12 then |trace| else 12)
      && forall k :: 0 <= k < |shown| ==> ShowsFrame(lim, trace[k], trace[k].isVendor, shown[k])
    else
      exists at: seq<nat> :: FileFramesAt(stack, 0, at, 12) && |shown| == |at| &&
        forall k :: 0 <= k < |at| ==> ShowsFrame(lim, stack[at[k]], IsVendorPath(stack[at[k]].file), shown[k])
  }

  predicate ShowsValue(lim: Limits, v: FieldValue, shown: FieldValue) {
    match v
    case Text(text) => shown.Text? && Shortened(lim, text, shown.text)
    case Scalar(_) => shown == v
    case Other(printed) => shown.Text? && Shortened(lim, printed, shown.text)
  }

  /** The last of the first `n` fields whose key is shown as `k`. */
  function LastField(lim: Limits, fields: seq<(string, FieldValue)>, n: nat, k: string): (i: int)
    requires n <= |fields|
    ensures -1 <= i < n
  {
    if n == 0 then -1 else if Shortened(lim, fields[n - 1].0, k) then n - 1 else LastField(lim, fields, n - 1, k)
  }

  /** The first `n` fields made the context: it has their keys, each with the value of the last field of that key. */
  ghost predicate ShowsFields(lim: Limits, fields: seq<(string, FieldValue)>, n: nat, context: map<string, FieldValue>)
    requires n <= |fields|
  {
    forall k: string ::
      && (k in context <==> LastField(lim, fields, n, k) >= 0)
      && (k in context ==> ShowsValue(lim, fields[LastField(lim, fields, n, k)].1, context[k]))
  }

  /** No field before field `n` has its key. */
  ghost predicate NewKey(lim: Limits, fields: seq<(string, FieldValue)>, n: nat)
    requires n < |fields|
  {
    forall k :: Shortened(lim, fields[n].0, k) ==> LastField(lim, fields, n, k) == -1
  }

  /** Fields are taken until twenty keys are there, or to their end. */
  ghost predicate TakesFields(lim: Limits, fields: seq<(string, FieldValue)>, n: nat, context: map<string, FieldValue>) {
    && n <= |fields| && ShowsFields(lim, fields, n, context)
    && |context| <= 20
    && (n < |fields| ==> |context| == 20)
    && (|context| == 20 ==> n > 0 && NewKey(lim, fields, n - 1))
  }

  ghost predicate ShowsLog(lim: Limits, c: Call, e: LogEntry) {
    && c.LogCall?
    && Shortened(lim, c.level, e.level) && Shortened(lim, c.message, e.message) && e.timestamp == c.now
    && ShowsTrace(lim, c.trace, c.stack, e.trace)
    && exists n: nat :: TakesFields(lim, c.fields, n, e.context)
  }

  lemma CutShortens(lim: Limits, v: string)
    ensures Shortened(lim, v, Cut(lim, v))
  {
  }

  lemma DurationShows(elapsed: int)
    ensures Milliseconds(elapsed, DurationMs(elapsed))
  {
    DurationLosesMicroseconds(elapsed);
  }

  lemma QueryShows(lim: Limits, c: Call)
    requires c.DatabaseCall?
    ensures ShowsQuery(lim, c, QueryOf(lim, c))
  {
    DurationShows(c.elapsed);
  }

  lemma CacheShows(lim: Limits, c: Call)
    requires c.CacheCall?
    ensures ShowsCache(lim, c, CacheOf(lim, c))
  {
    DurationShows(c.elapsed);
  }

  predicate HasEvent(c: Call) {
    c.DatabaseCall? || c.CacheCall? || c.TimelineCall? || c.ResponseCall?
  }

  lemma EventShows(req: Request, lim: Limits, c: Call)
    ensures |EventFor(req, lim, c)| == if HasEvent(c) then 1 else 0
    ensures HasEvent(c) ==> ShowsEvent(req, lim, c, EventFor(req, lim, c)[0])
  {
    if c.DatabaseCall? {
      QueryShows(lim, c);
      assert ShowsSpan(lim, "db", QueryOf(lim, c).query, c.now - QueryOf(lim, c).duration, c.now,
                       if c.slow then "red" else "blue", EventFor(req, lim, c)[0]);
    } else if c.CacheCall? {
      CacheShows(lim, c);
      var q := CacheOf(lim, c);
      assert ShowsSpan(lim, "cache", q.kind + ": " + q.key, c.now - q.duration, c.now, "purple", EventFor(req, lim, c)[0]);
    }
  }

  lemma {:induction false} CutFramesShow(lim: Limits, frames: seq<Frame>, k: nat)
    requires k < |frames|
    ensures |CutFrames(lim, frames)| == |frames|
    ensures ShowsFrame(lim, frames[k], frames[k].isVendor, CutFrames(lim, frames)[k])
  {
    if k > 0 {
      CutFramesShow(lim, frames[1..], k - 1);
    } else if |frames| > 1 {
      CutFramesShow(lim, frames[1..], 0);
    }
  }

  /** The positions, from `i` on, of the first `n` frames that name a file. */
  function FilePositions(stack: seq<Frame>, i: nat, n: nat): seq<nat>
    decreases |stack| - i
  {
    if i >= |stack| || n == 0 then []
    else if stack[i].file == "" then FilePositions(stack, i + 1, n)
    else [i] + FilePositions(stack, i + 1, n - 1)
  }

  lemma FileFramesCons(stack: seq<Frame>, i: nat, rest: seq<nat>, max: nat)
    requires i < |stack| && stack[i].file != "" && FileFramesAt(stack, i + 1, rest, max)
    ensures FileFramesAt(stack, i, [i] + rest, max + 1)
  {
    var at := [i] + rest;
    assert forall k :: 0 < k < |at| ==> at[k] == rest[k - 1];
    forall p | i <= p < |stack| && stack[p].file != ""
      ensures p in at || (|at| == max + 1 && forall k :: 0 <= k < |at| ==> at[k] < p)
    {
      if p == i {
        assert at[0] == i;
      } else if p in rest {
        var k :| 0 <= k < |rest| && rest[k] == p;
        assert at[k + 1] == p;
      }
    }
  }

  lemma FileFramesSkip(stack: seq<Frame>, i: nat, at: seq<nat>, max: nat)
    requires i < |stack| && stack[i].file == "" && FileFramesAt(stack, i + 1, at, max)
    ensures FileFramesAt(stack, i, at, max)
  {
  }

  lemma {:induction false} FilePositionsAt(stack: seq<Frame>, i: nat, n: nat)
    requires i <= |stack|
    ensures FileFramesAt(stack, i, FilePositions(stack, i, n), n)
    decreases |stack| - i
  {
    if i < |stack| && n > 0 {
      if stack[i].file == "" {
        FilePositionsAt(stack, i + 1, n);
        FileFramesSkip(stack, i, FilePositions(stack, i + 1, n), n);
      } else {
        FilePositionsAt(stack, i + 1, n - 1);
        FileFramesCons(stack, i, FilePositions(stack, i + 1, n - 1), n - 1);
      }
    }
  }

  lemma {:induction false} FileFramesShow(stack: seq<Frame>, i: nat, n: nat, k: nat)
    requires i <= |stack|
    ensures |FileFrames(stack[i..], n)| == |FilePositions(stack, i, n)|
    ensures k < |FilePositions(stack, i, n)| ==>
              var p := FilePositions(stack, i, n)[k];
              p < |stack| && FileFrames(stack[i..], n)[k] == stack[p].(isVendor := IsVendorPath(stack[p].file))
    decreases |stack| - i
  {
    if i < |stack| && n > 0 {
      assert stack[i..][1..] == stack[i + 1..];
      FileFramesShow(stack, i + 1, if stack[i].file == "" then n else n - 1, if stack[i].file == "" || k == 0 then k else k - 1);
    }
  }

  lemma CutFramesLength(lim: Limits, frames: seq<Frame>)
    ensures |CutFrames(lim, frames)| == |frames|
  {
    CutFramesAreShort(lim, frames);
  }

  lemma TraceShows(lim: Limits, trace: seq<Frame>, stack: seq<Frame>)
    ensures ShowsTrace(lim, trace, stack, CutFrames(lim, ChosenFrames(trace, stack)))
  {
    var chosen := ChosenFrames(trace, stack);
    CutFramesLength(lim, chosen);
    forall k | 0 <= k < |chosen| ensures ShowsFrame(lim, chosen[k], chosen[k].isVendor, CutFrames(lim, chosen)[k]) {
      CutFramesShow(lim, chosen, k);
    }
    if trace == [] {
      var at := FilePositions(stack, 0, 12);
      FilePositionsAt(stack, 0, 12);
      assert stack[0..] == stack;
      FileFramesShow(stack, 0, 12, 0);
      forall k | 0 <= k < |at| ensures ShowsFrame(lim, stack[at[k]], IsVendorPath(stack[at[k]].file), CutFrames(lim, chosen)[k]) {
        FileFramesShow(stack, 0, 12, k);
      }
    }
  }

  // ---- Counting the cuts ---------------------------------------------------------------------

  /** How many of the texts are longer than the limit. */
  function NumberLong(lim: Limits, texts: seq<string>): nat {
    if texts == [] then 0 else (if 0 < lim.maxStringLen < |texts[0]| then 1 else 0) + NumberLong(lim, texts[1..])
  }

  lemma {:induction false} NumberLongConcat(lim: Limits, a: seq<string>, b: seq<string>)
    ensures NumberLong(lim, a + b) == NumberLong(lim, a) + NumberLong(lim, b)
  {
    if a == [] {
      assert a + b == b;
    } else {
      assert (a + b)[1..] == a[1..] + b;
      NumberLongConcat(lim, a[1..], b);
    }
  }

  /** From `st` to `st'` this many cut strings and left-out fields are counted. */
  predicate Counted(st: State, st': State, cuts: nat, leftOut: nat) {
    && Count(st'.dropped, Strings) == Count(st.dropped, Strings) + cuts
    && Count(st'.dropped, LogContext) == Count(st.dropped, LogContext) + leftOut
  }

  lemma {:induction false} NoteCutsCounts(lim: Limits, st: State, texts: seq<string>)
    ensures Counted(st, NoteCuts(lim, st, texts), NumberLong(lim, texts), 0)
    decreases texts
  {
    if texts != [] {
      NoteCutsCounts(lim, NoteCut(lim, st, texts[0]), texts[1..]);
    }
  }

  /** The texts of a field: its key, and its value if that is text or is printed. */
  function FieldTexts(field: (string, FieldValue)): seq<string> {
    match field.1
    case Text(text) => [field.0] + [text]
    case Scalar(_) => [field.0]
    case Other(printed) => [field.0] + [printed]
  }

  function AllFieldTexts(fields: seq<(string, FieldValue)>): seq<string> {
    if fields == [] then [] else FieldTexts(fields[0]) + AllFieldTexts(fields[1..])
  }

  lemma KeyAfter(lim: Limits, fields: seq<(string, FieldValue)>, i: nat, out: map<string, FieldValue>, k: string)
    requires i < |fields| && ShowsFields(lim, fields, i, out)
    ensures var out' := out[Cut(lim, fields[i].0) := CutValue(lim, fields[i].1)];
            && LastField(lim, fields, i + 1, k) == (if k == Cut(lim, fields[i].0) then i else LastField(lim, fields, i, k))
            && (k in out' <==> LastField(lim, fields, i + 1, k) >= 0)
            && (k in out' ==> ShowsValue(lim, fields[LastField(lim, fields, i + 1, k)].1, out'[k]))
  {
  }

  lemma OneMoreField(lim: Limits, fields: seq<(string, FieldValue)>, i: nat, out: map<string, FieldValue>)
    requires i < |fields| && ShowsFields(lim, fields, i, out)
    ensures ShowsFields(lim, fields, i + 1, out[Cut(lim, fields[i].0) := CutValue(lim, fields[i].1)])
  {
    var out' := out[Cut(lim, fields[i].0) := CutValue(lim, fields[i].1)];
    forall k: string
      ensures k in out' <==> LastField(lim, fields, i + 1, k) >= 0
      ensures k in out' ==> ShowsValue(lim, fields[LastField(lim, fields, i + 1, k)].1, out'[k])
    {
      KeyAfter(lim, fields, i, out, k);
    }
  }

  /** A field that makes the context full has a new key. */
  lemma OneMoreKey(lim: Limits, fields: seq<(string, FieldValue)>, i: nat, out: map<string, FieldValue>)
    requires i < |fields| && |out| < 20 && ShowsFields(lim, fields, i, out)
    ensures var out' := out[Cut(lim, fields[i].0) := CutValue(lim, fields[i].1)];
            |out'| <= 20 && (|out'| == 20 ==> NewKey(lim, fields, i))
  {
    var key := Cut(lim, fields[i].0);
    var out' := out[key := CutValue(lim, fields[i].1)];
    assert out'.Keys == out.Keys + {key} && |out'| == |out'.Keys| && |out| == |out.Keys|;
    if key in out {
      assert out'.Keys == out.Keys;
    }
  }

  lemma FieldsFrom(fields: seq<(string, FieldValue)>, i: nat, n: nat)
    requires i < n <= |fields|
    ensures AllFieldTexts(fields[i..n]) == FieldTexts(fields[i]) + AllFieldTexts(fields[i + 1..n])
  {
    assert fields[i..n][0] == fields[i] && fields[i..n][1..] == fields[i + 1..n];
  }

  /** One field more, and what the loop makes of the rest. */
  lemma ContextNext(lim: Limits, st: State, fields: seq<(string, FieldValue)>, i: nat, out: map<string, FieldValue>)
    requires i < |fields| && |out| < 20
    ensures var noted := NoteCuts(lim, st, FieldTexts(fields[i]));
            && SanitizeContext(lim, st, fields[i..], out)
            == SanitizeContext(lim, noted, fields[i + 1..], out[Cut(lim, fields[i].0) := CutValue(lim, fields[i].1)])
            && Counted(st, noted, NumberLong(lim, FieldTexts(fields[i])), 0)
  {
    assert fields[i..][0] == fields[i] && fields[i..][1..] == fields[i + 1..];
    assert [fields[i].0] + ValueTexts(fields[i].1) == FieldTexts(fields[i]);
    NoteCutsCounts(lim, st, FieldTexts(fields[i]));
  }

  /** At the end of the fields, or with a full context, the rest is left out and counted once. */
  lemma ContextEnds(lim: Limits, st: State, fields: seq<(string, FieldValue)>, i: nat, out: map<string, FieldValue>)
    requires i <= |fields| && (i == |fields| || |out| == 20)
    ensures var (st', context) := SanitizeContext(lim, st, fields[i..], out);
            context == out && Counted(st, st', 0, if i < |fields| then 1 else 0)
  {
  }

  lemma CountedOn(st: State, st1: State, st2: State, a: nat, b: nat, leftOut: nat)
    requires Counted(st, st1, a, 0) && Counted(st1, st2, b, leftOut)
    ensures Counted(st, st2, a + b, leftOut)
  {
  }

  /** The counts for field `i` and for those after it make the count for all of them. */
  lemma CountedFrom(lim: Limits, st: State, noted: State, st': State, fields: seq<(string, FieldValue)>, i: nat, n: nat, leftOut: nat)
    requires i < n <= |fields|
    requires Counted(st, noted, NumberLong(lim, FieldTexts(fields[i])), 0)
    requires Counted(noted, st', NumberLong(lim, AllFieldTexts(fields[i + 1..n])), leftOut)
    ensures Counted(st, st', NumberLong(lim, AllFieldTexts(fields[i..n])), leftOut)
  {
    FieldsFrom(fields, i, n);
    NumberLongConcat(lim, FieldTexts(fields[i]), AllFieldTexts(fields[i + 1..n]));
  }

  lemma NoFields(lim: Limits, fields: seq<(string, FieldValue)>, i: nat)
    requires i <= |fields|
    ensures NumberLong(lim, AllFieldTexts(fields[i..i])) == 0
  {
    assert fields[i..i] == [];
  }

  /** What the loop over the fields makes of them, going on from field `i`; it ends at field `n`. */
  lemma {:induction false} ContextShows(lim: Limits, st: State, fields: seq<(string, FieldValue)>, i: nat,
                                        out: map<string, FieldValue>) returns (n: nat)
    requires i <= |fields| && ShowsFields(lim, fields, i, out) && |out| <= 20
    requires |out| == 20 ==> i > 0 && NewKey(lim, fields, i - 1)
    ensures i <= n <= |fields|
    ensures var (st', context) := SanitizeContext(lim, st, fields[i..], out);
            && TakesFields(lim, fields, n, context)
            && Counted(st, st', NumberLong(lim, AllFieldTexts(fields[i..n])), if n < |fields| then 1 else 0)
    decreases |fields| - i
  {
    if i == |fields| || |out| == 20 {
      n := i;
      ContextEnds(lim, st, fields, i, out);
      NoFields(lim, fields, i);
    } else {
      var noted := NoteCuts(lim, st, FieldTexts(fields[i]));
      var out' := out[Cut(lim, fields[i].0) := CutValue(lim, fields[i].1)];
      OneMoreField(lim, fields, i, out);
      OneMoreKey(lim, fields, i, out);
      ContextNext(lim, st, fields, i, out);
      n := ContextShows(lim, noted, fields, i + 1, out');
      CountedFrom(lim, st, noted, SanitizeContext(lim, st, fields[i..], out).0, fields, i, n, if n < |fields| then 1 else 0);
    }
  }

  /** The texts of the frames: for each its call and its file. */
  function PlaceTexts(frames: seq<Frame>): seq<string> {
    if frames == [] then [] else [frames[0].call] + [frames[0].file] + PlaceTexts(frames[1..])
  }

  /** The texts of the first `n` frames, from position `i` on, that name a file. */
  function FileTexts(stack: seq<Frame>, i: nat, n: nat): seq<string>
    decreases |stack| - i
  {
    if i >= |stack| || n == 0 then []
    else if stack[i].file == "" then FileTexts(stack, i + 1, n)
    else [stack[i].call] + [stack[i].file] + FileTexts(stack, i + 1, n - 1)
  }

  /** The texts of a log call's frames: of the first twelve passed in, or of those taken from the running stack. */
  function TraceTexts(c: Call): seq<string>
    requires c.LogCall?
  {
    if c.trace == [] then FileTexts(c.stack, 0, 12) else PlaceTexts(if |c.trace| <= 12 then c.trace else c.trace[..12])
  }

  lemma FrameTextsCons(f: Frame, rest: seq<Frame>)
    ensures FrameTexts([f] + rest) == [f.call] + [f.file] + FrameTexts(rest)
  {
    assert ([f] + rest)[1..] == rest;
  }

  lemma {:induction false} FileTextsAre(stack: seq<Frame>, i: nat, n: nat)
    requires i <= |stack|
    ensures FrameTexts(FileFrames(stack[i..], n)) == FileTexts(stack, i, n)
    decreases |stack| - i
  {
    if i < |stack| && n > 0 {
      assert stack[i..][0] == stack[i] && stack[i..][1..] == stack[i + 1..];
      if stack[i].file == "" {
        FileTextsAre(stack, i + 1, n);
      } else {
        FileTextsAre(stack, i + 1, n - 1);
        FrameTextsCons(stack[i].(isVendor := IsVendorPath(stack[i].file)), FileFrames(stack[i + 1..], n - 1));
      }
    }
  }

  lemma {:induction false} PlaceTextsAre(frames: seq<Frame>)
    ensures FrameTexts(frames) == PlaceTexts(frames)
  {
    if frames != [] {
      PlaceTextsAre(frames[1..]);
    }
  }

  lemma TraceTextsAre(c: Call)
    requires c.LogCall?
    ensures FrameTexts(ChosenFrames(c.trace, c.stack)) == TraceTexts(c)
  {
    if c.trace == [] {
      FileTextsAre(c.stack, 0, 12);
      assert c.stack[0..] == c.stack;
    } else {
      PlaceTextsAre(ChosenFrames(c.trace, c.stack));
    }
  }

  // ---- What one call cuts --------------------------------------------------------------------

  /** An event that goes on the timeline has its two texts looked at. */
  function EventTexts(lim: Limits, st: State, name: string, description: string): seq<string> {
    if TimelineFull(lim, st) then [] else [name] + [description]
  }

  /** The texts of a call that are looked at when it is recorded, a log call's fields left out. */
  ghost predicate CutsOf(req: Request, lim: Limits, st: State, st': State, c: Call) {
    match c
    case DatabaseCall(_, _, _, _, _, _, _, _, _, _, _) =>
      exists q :: ShowsQuery(lim, c, q) &&
        Counted(st, st', NumberLong(lim, [c.query] + [c.connection] + [if c.model == "" then c.tableName else c.model] +
                                         [if c.file == "" then c.callerFile else c.file] + EventTexts(lim, st, "db", q.query)), 0)
    case CacheCall(_, _, _, _) =>
      exists q :: ShowsCache(lim, c, q) &&
        Counted(st, st', NumberLong(lim, [c.kind] + [c.key] + EventTexts(lim, st, "cache", q.kind + ": " + q.key)), 0)
    case LogCall(_, _, _, _, _, _) =>
      exists n: nat :: n <= |c.fields| && st'.logEntries != [] && TakesFields(lim, c.fields, n, st'.logEntries[|st'.logEntries| - 1].context) &&
        Counted(st, st', NumberLong(lim, TraceTexts(c) + [c.level] + [c.message] + AllFieldTexts(c.fields[..n])),
                if n < |c.fields| then 1 else 0)
    case TimelineCall(name, description, _, _, _) =>
      Counted(st, st', NumberLong(lim, EventTexts(lim, st, name, description)), 0)
    case ResponseCall(_, _, _, _) =>
      Counted(st, st', NumberLong(lim, EventTexts(lim, st, "request", req.verb + " " + req.uri)), 0)
    case UrlCall(url) => Counted(st, st', NumberLong(lim, [url]), 0)
    case ControllerCall(controller) => Counted(st, st', NumberLong(lim, [controller]), 0)
    case TraceCall(traceID, spanID) => Counted(st, st', NumberLong(lim, [traceID] + [spanID]), 0)
    case _ => Counted(st, st', 0, 0)
  }

  lemma TimelineCuts(lim: Limits, st: State, name: string, description: string, start: real, end: real, color: string)
    ensures Counted(st, AppendTimeline(lim, st, name, description, start, end, color),
                    NumberLong(lim, EventTexts(lim, st, name, description)), 0)
  {
    NoteCutsCounts(lim, st, [name, description]);
    assert [name] + [description] == [name, description];
  }

  lemma CountedThen(lim: Limits, st: State, st1: State, st2: State, a: seq<string>, b: seq<string>)
    requires Counted(st, st1, NumberLong(lim, a), 0) && Counted(st1, st2, NumberLong(lim, b), 0)
    ensures Counted(st, st2, NumberLong(lim, a + b), 0)
  {
    NumberLongConcat(lim, a, b);
  }

  lemma DatabaseCuts(lim: Limits, st: State, c: Call)
    requires c.DatabaseCall?
    ensures var texts := [c.query] + [c.connection] + [if c.model == "" then c.tableName else c.model] +
                         [if c.file == "" then c.callerFile else c.file] + EventTexts(lim, st, "db", QueryOf(lim, c).query);
            Counted(st, RecordDatabase(lim, st, c), NumberLong(lim, texts), 0)
  {
    var q, texts := QueryOf(lim, c), [c.query, c.connection, ModelOf(c), FileOf(c)];
    var noted := NoteCuts(lim, st, texts);
    var listed := noted.(databaseQueries := noted.databaseQueries + [q]);
    NoteCutsIsNoted(lim, st, texts);
    NoteCutsCounts(lim, st, texts);
    TimelineCuts(lim, listed, "db", q.query, c.now - q.duration, c.now, ColorForSlow(c.slow));
    assert texts == [c.query] + [c.connection] + [ModelOf(c)] + [FileOf(c)];
    CountedThen(lim, st, listed, RecordDatabase(lim, st, c), texts, EventTexts(lim, st, "db", q.query));
  }

  lemma CacheCuts(lim: Limits, st: State, c: Call)
    requires c.CacheCall?
    ensures var q := CacheOf(lim, c);
            Counted(st, RecordCache(lim, st, c),
                    NumberLong(lim, [c.kind] + [c.key] + EventTexts(lim, st, "cache", q.kind + ": " + q.key)), 0)
  {
    var q, texts := CacheOf(lim, c), [c.kind, c.key];
    var noted := NoteCuts(lim, st, texts);
    var listed := noted.(cacheQueries := noted.cacheQueries + [q]);
    NoteCutsIsNoted(lim, st, texts);
    NoteCutsCounts(lim, st, texts);
    TimelineCuts(lim, listed, "cache", q.kind + ": " + q.key, c.now - q.duration, c.now, "purple");
    assert texts == [c.kind] + [c.key];
    CountedThen(lim, st, listed, RecordCache(lim, st, c), texts, EventTexts(lim, st, "cache", q.kind + ": " + q.key));
  }

  lemma LogContextIndependent(lim: Limits, st: State, fields: seq<(string, FieldValue)>)
    ensures SanitizeContext(lim, st, fields, map[]).1 == SanitizeContext(lim, EMPTY, fields, map[]).1
  {
    SanitizeContextIsNoted(lim, st, fields, map[]);
  }

  lemma LogCuts(lim: Limits, st: State, c: Call) returns (n: nat)
    requires c.LogCall?
    ensures n <= |c.fields| && TakesFields(lim, c.fields, n, LogOf(lim, c).context)
    ensures Counted(st, RecordLog(lim, st, c), NumberLong(lim, TraceTexts(c) + [c.level] + [c.message] + AllFieldTexts(c.fields[..n])),
                    if n < |c.fields| then 1 else 0)
  {
    var traced := NoteCuts(lim, st, TraceTexts(c));
    var noted := NoteLogTexts(lim, st, c);
    TraceTextsAre(c);
    NoteCutsCounts(lim, st, TraceTexts(c));
    NoteCutsCounts(lim, traced, [c.level, c.message]);
    CountedThen(lim, st, traced, noted, TraceTexts(c), [c.level, c.message]);
    assert c.fields[0..] == c.fields;
    n := ContextShows(lim, noted, c.fields, 0, map[]);
    LogContextIndependent(lim, noted, c.fields);
    assert c.fields[0..n] == c.fields[..n];
    var texts := TraceTexts(c) + [c.level, c.message];
    assert texts == TraceTexts(c) + [c.level] + [c.message];
    NumberLongConcat(lim, texts, AllFieldTexts(c.fields[..n]));
    CountedOn(st, noted, SanitizeContext(lim, noted, c.fields, map[]).0, NumberLong(lim, texts),
              NumberLong(lim, AllFieldTexts(c.fields[..n])), if n < |c.fields| then 1 else 0);
  }

  /** The log record of a call shows it. */
  lemma LogShows(lim: Limits, c: Call)
    requires c.LogCall?
    ensures ShowsLog(lim, c, LogOf(lim, c))
  {
    TraceShows(lim, c.trace, c.stack);
    var n := LogCuts(lim, EMPTY, c);
  }

  lemma RecordedLog(lim: Limits, st: State, c: Call)
    requires c.LogCall?
    ensures RecordLog(lim, st, c).logEntries == st.logEntries + [LogOf(lim, c)]
  {
    LogNotes(lim, st, c);
  }

  lemma SetterCuts(lim: Limits, st: State, c: Call)
    requires c.UrlCall? || c.ControllerCall? || c.TraceCall? || c.HeadersCall? || c.UserDataCall?
    ensures Counted(st, NoteCuts(lim, st, SetterTexts(c)), NumberLong(lim, SetterTexts(c)), 0)
  {
    NoteCutsCounts(lim, st, SetterTexts(c));
  }

  lemma DatabaseCutsOf(req: Request, lim: Limits, st: State, c: Call)
    requires c.DatabaseCall? && RoomFor(lim, st, c) && Affordable(lim, st.usedBytes, c)
    ensures CutsOf(req, lim, st, ApplyDatabase(lim, st, c), c)
  {
    ReserveDecides(lim, st, lim.maxDBQueries, |st.databaseQueries|, c);
    var (ok, st1) := Reserve(lim, st, Database, lim.maxDBQueries, |st.databaseQueries|, Estimate(c));
    QueryShows(lim, c);
    DatabaseCuts(lim, st1, c);
  }

  lemma CacheCutsOf(req: Request, lim: Limits, st: State, c: Call)
    requires c.CacheCall? && RoomFor(lim, st, c) && Affordable(lim, st.usedBytes, c)
    ensures CutsOf(req, lim, st, ApplyCache(lim, st, c), c)
  {
    ReserveDecides(lim, st, lim.maxCacheQueries, |st.cacheQueries|, c);
    var (ok, st1) := Reserve(lim, st, Cache, lim.maxCacheQueries, |st.cacheQueries|, Estimate(c));
    CacheShows(lim, c);
    CacheCuts(lim, st1, c);
  }

  lemma RecordedLogCuts(req: Request, lim: Limits, st: State, st1: State, c: Call)
    requires c.LogCall? && st1 == st.(usedBytes := st1.usedBytes)
    ensures CutsOf(req, lim, st, RecordLog(lim, st1, c), c)
  {
    RecordedLog(lim, st1, c);
    var n := LogCuts(lim, st1, c);
    var entries := RecordLog(lim, st1, c).logEntries;
    assert entries[|entries| - 1] == LogOf(lim, c);
  }

  lemma LogCutsOf(req: Request, lim: Limits, st: State, c: Call)
    requires c.LogCall? && RoomFor(lim, st, c) && Affordable(lim, st.usedBytes, c)
    ensures CutsOf(req, lim, st, ApplyLog(lim, st, c), c)
  {
    ReserveDecides(lim, st, lim.maxLogs, |st.logEntries|, c);
    var (ok, st1) := Reserve(lim, st, Logs, lim.maxLogs, |st.logEntries|, Estimate(c));
    RecordedLogCuts(req, lim, st, st1, c);
  }

  lemma DirectEventCutsOf(req: Request, lim: Limits, st: State, c: Call)
    requires c.TimelineCall? && RoomFor(lim, st, c) && Affordable(lim, st.usedBytes, c)
    ensures CutsOf(req, lim, st, ApplyTimeline(lim, st, c), c)
  {
    ReserveDecides(lim, st, lim.maxTimelineEvent, |st.timelineEvents|, c);
    var (ok, st1) := Reserve(lim, st, Timeline, lim.maxTimelineEvent, |st.timelineEvents|, Estimate(c));
    TimelineCuts(lim, st1, c.name, c.description, c.start, c.end, c.color);
  }

  /**
    What the ledger counts besides the lost calls: each text that is longer than the limit, of those
    that a recorded call has, counts as one cut string, and the fields that are left out of a full
    context count as one. A call that is not recorded counts neither.
  */
  lemma CutsAreCounted(req: Request, lim: Limits, st: State, c: Call)
    ensures var st' := Apply(req, lim, st, c);
            if Asks(c) && !(RoomFor(lim, st, c) && Affordable(lim, st.usedBytes, c))
            then Counted(st, st', 0, 0) else CutsOf(req, lim, st, st', c)
  {
    if Asks(c) && !(RoomFor(lim, st, c) && Affordable(lim, st.usedBytes, c)) {
      RefusedIsDropped(req, lim, st, c);
    } else {
      match c
      case DatabaseCall(_, _, _, _, _, _, _, _, _, _, _) => DatabaseCutsOf(req, lim, st, c);
      case CacheCall(_, _, _, _) => CacheCutsOf(req, lim, st, c);
      case LogCall(_, _, _, _, _, _) => LogCutsOf(req, lim, st, c);
      case TimelineCall(_, _, _, _, _) => DirectEventCutsOf(req, lim, st, c);
      case ResponseCall(status, elapsed, now, memory) =>
        TimelineCuts(lim, st.(response := Response(status, now, elapsed, memory)),
                     "request", req.verb + " " + req.uri, req.startTime, now, "green");
      case TraceCall(traceID, spanID) =>
        SetterCuts(lim, st, c);
        assert SetterTexts(c) == [traceID] + [spanID];
      case _ => SetterCuts(lim, st, c);
    }
  }

  // ---- What is held shows what was called ----------------------------------------------------

  function DatabaseCalls(calls: seq<Call>): seq<Call> {
    if calls == [] then []
    else DatabaseCalls(calls[..|calls| - 1]) + if calls[|calls| - 1].DatabaseCall? then [calls[|calls| - 1]] else []
  }

  function CacheCalls(calls: seq<Call>): seq<Call> {
    if calls == [] then []
    else CacheCalls(calls[..|calls| - 1]) + if calls[|calls| - 1].CacheCall? then [calls[|calls| - 1]] else []
  }

  /** The calls that an event on the timeline stands for. */
  function EventCalls(calls: seq<Call>): seq<Call> {
    if calls == [] then []
    else EventCalls(calls[..|calls| - 1]) + if HasEvent(calls[|calls| - 1]) then [calls[|calls| - 1]] else []
  }

  /** Each record shows the call at the same place. */
  ghost predicate AllShown<T(!new)>(calls: seq<Call>, records: seq<T>, shows: (Call, T) -> bool) {
    |records| == |calls| && forall k :: 0 <= k < |calls| ==> shows(calls[k], records[k])
  }

  ghost function QueryShown(lim: Limits): (Call, DatabaseQuery) -> bool {
    (c, q) => ShowsQuery(lim, c, q)
  }

  ghost function CacheShown(lim: Limits): (Call, CacheQuery) -> bool {
    (c, q) => ShowsCache(lim, c, q)
  }

  ghost function LogShown(lim: Limits): (Call, LogEntry) -> bool {
    (c, e) => ShowsLog(lim, c, e)
  }

  ghost function EventShown(req: Request, lim: Limits): (Call, TimelineEvent) -> bool {
    (c, e) => ShowsEvent(req, lim, c, e)
  }

  lemma {:induction false} QueriesShow(lim: Limits, calls: seq<Call>)
    ensures AllShown(DatabaseCalls(calls), Queries(lim, calls), QueryShown(lim))
  {
    if calls != [] {
      QueriesShow(lim, calls[..|calls| - 1]);
      if calls[|calls| - 1].DatabaseCall? {
        QueryShows(lim, calls[|calls| - 1]);
      }
    }
  }

  lemma {:induction false} CacheOpsShow(lim: Limits, calls: seq<Call>)
    ensures AllShown(CacheCalls(calls), CacheOps(lim, calls), CacheShown(lim))
  {
    if calls != [] {
      CacheOpsShow(lim, calls[..|calls| - 1]);
      if calls[|calls| - 1].CacheCall? {
        CacheShows(lim, calls[|calls| - 1]);
      }
    }
  }

  lemma {:induction false} LogLinesShow(lim: Limits, calls: seq<Call>)
    ensures AllShown(LogCalls(calls), LogLines(lim, calls), LogShown(lim))
  {
    if calls != [] {
      LogLinesShow(lim, calls[..|calls| - 1]);
      if calls[|calls| - 1].LogCall? {
        LogShows(lim, calls[|calls| - 1]);
      }
    }
  }

  lemma {:induction false} EventsShow(req: Request, lim: Limits, calls: seq<Call>)
    ensures AllShown(EventCalls(calls), Events(req, lim, calls), EventShown(req, lim))
  {
    if calls != [] {
      EventsShow(req, lim, calls[..|calls| - 1]);
      EventShows(req, lim, calls[|calls| - 1]);
    }
  }

  /**
    After any run the record lists show the recorded calls of their kind, one by one and in call
    order, and the timeline shows the first events, as many as its cap allows, of the recorded calls
    that have one and of the responses. Every text is the one passed in, or its first bytes.
  */
  lemma ListsShowCalls(req: Request, lim: Limits, calls: seq<Call>)
    ensures var st, kept := Run(req, lim, calls), Accepted(req, lim, calls);
            && AllShown(DatabaseCalls(kept), st.databaseQueries, QueryShown(lim))
            && AllShown(CacheCalls(kept), st.cacheQueries, CacheShown(lim))
            && AllShown(LogCalls(kept), st.logEntries, LogShown(lim))
    ensures var st, events := Run(req, lim, calls), EventCalls(Offering(req, lim, calls));
            AllShown(if 0 < lim.maxTimelineEvent < |events| then events[..lim.maxTimelineEvent] else events,
                     st.timelineEvents, EventShown(req, lim))
  {
    var kept, offering := Accepted(req, lim, calls), Offering(req, lim, calls);
    HoldsAccepted(req, lim, calls);
    QueriesShow(lim, kept);
    CacheOpsShow(lim, kept);
    LogLinesShow(lim, kept);
    TimelineIsExact(req, lim, calls);
    EventsShow(req, lim, offering);
  }

  /** A log record with every text, frame and field as it came, but for the frames after the twelfth. */
  ghost predicate ShowsWholeLog(c: Call, e: LogEntry) {
    && c.LogCall?
    && e.level == c.level && e.message == c.message && e.timestamp == c.now
    && ShowsTrace(NO_LIMITS, c.trace, c.stack, e.trace)
    && ShowsFields(NO_LIMITS, c.fields, |c.fields|, e.context)
  }

  ghost function WholeLogShown(): (Call, LogEntry) -> bool {
    (c, e) => ShowsWholeLog(c, e)
  }

  lemma {:induction false} RawContextShows(fields: seq<(string, FieldValue)>, i: nat, out: map<string, FieldValue>)
    requires i <= |fields| && ShowsFields(NO_LIMITS, fields, i, out)
    ensures ShowsFields(NO_LIMITS, fields, |fields|, RawContext(fields[i..], out))
    decreases |fields| - i
  {
    if i < |fields| {
      assert fields[i..][0] == fields[i] && fields[i..][1..] == fields[i + 1..];
      OneMoreField(NO_LIMITS, fields, i, out);
      RawContextShows(fields, i + 1, out[Cut(NO_LIMITS, fields[i].0) := CutValue(NO_LIMITS, fields[i].1)]);
    }
  }

  lemma RawLogShows(c: Call)
    requires c.LogCall?
    ensures ShowsWholeLog(c, RawLog(c))
  {
    TraceShows(NO_LIMITS, c.trace, c.stack);
    FramesUncut(NO_LIMITS, ChosenFrames(c.trace, c.stack));
    assert c.fields[0..] == c.fields;
    RawContextShows(c.fields, 0, map[]);
  }

  lemma {:induction false} RawLogsShow(calls: seq<Call>)
    ensures AllShown(LogCalls(calls), RawLogs(calls), WholeLogShown())
  {
    if calls != [] {
      RawLogsShow(calls[..|calls| - 1]);
      if calls[|calls| - 1].LogCall? {
        RawLogShows(calls[|calls| - 1]);
      }
    }
  }

  /**
    While the truncation flag is down, the lists show every call: query `k` is the `k`-th database
    call with each of its texts as it came, and so for cache calls and log calls; and the timeline
    shows every database, cache, direct and response call.
  */
  lemma TranscriptShowsCalls(req: Request, lim: Limits, calls: seq<Call>)
    requires !Run(req, lim, calls).truncated
    ensures var st := Run(req, lim, calls);
            && AllShown(DatabaseCalls(calls), st.databaseQueries, QueryShown(NO_LIMITS))
            && AllShown(CacheCalls(calls), st.cacheQueries, CacheShown(NO_LIMITS))
            && AllShown(LogCalls(calls), st.logEntries, WholeLogShown())
            && AllShown(EventCalls(calls), st.timelineEvents, EventShown(req, NO_LIMITS))
  {
    FaithfulTranscript(req, lim, calls);
    QueriesShow(NO_LIMITS, calls);
    CacheOpsShow(NO_LIMITS, calls);
    RawLogsShow(calls);
    EventsShow(req, NO_LIMITS, calls);
  }

  // ---- What the setters leave ----------------------------------------------------------------

  /** The last call of a kind, if there is one. */
  function LastOf(calls: seq<Call>, kind: Call -> bool): Option<Call> {
    if calls == [] then None
    else if kind(calls[|calls| - 1]) then Some(calls[|calls| - 1])
    else LastOf(calls[..|calls| - 1], kind)
  }

  predicate IsUrl(c: Call) { c.UrlCall? }

  predicate IsController(c: Call) { c.ControllerCall? }

  predicate IsTrace(c: Call) { c.TraceCall? }

  predicate IsHeaders(c: Call) { c.HeadersCall? }

  predicate IsResponse(c: Call) { c.ResponseCall? }

  /** The user data last set under a key. */
  function LastData(calls: seq<Call>, key: string): Option<FieldValue> {
    if calls == [] then None
    else
      var c := calls[|calls| - 1];
      if c.UserDataCall? && c.key == key then Some(c.data) else LastData(calls[..|calls| - 1], key)
  }

  /** The names are those of the last calls that set them, and empty where there was none. */
  ghost predicate NamesShown(lim: Limits, names: Names, calls: seq<Call>) {
    && (match LastOf(calls, IsUrl) case Some(UrlCall(url)) => Shortened(lim, url, names.url) case _ => names.url == "")
    && (match LastOf(calls, IsController)
        case Some(ControllerCall(controller)) => Shortened(lim, controller, names.controller)
        case _ => names.controller == "")
    && (match LastOf(calls, IsTrace)
        case Some(TraceCall(traceID, spanID)) => Shortened(lim, traceID, names.traceID) && Shortened(lim, spanID, names.spanID)
        case _ => names.traceID == "" && names.spanID == "")
    && (match LastOf(calls, IsHeaders) case Some(HeadersCall(headers)) => names.headers == headers case _ => names.headers == map[])
  }

  /** The user data has the data last set under every key; without a key nothing is set. */
  ghost predicate DataShown(userData: map<string, FieldValue>, calls: seq<Call>) {
    forall key: string ::
      && (key in userData <==> key != "" && LastData(calls, key).Some?)
      && (key in userData ==> LastData(calls, key) == Some(userData[key]))
  }

  /** The response is that of the last response call. */
  ghost predicate ResponseShown(response: Response, calls: seq<Call>) {
    match LastOf(calls, IsResponse)
    case Some(ResponseCall(status, elapsed, now, memory)) => response == Response(status, now, elapsed, memory)
    case _ => response == Response(0, 0.0, 0, 0)
  }

  lemma AppendKeepsResponse(lim: Limits, st: State, name: string, description: string, start: real, end: real, color: string)
    ensures AppendTimeline(lim, st, name, description, start, end, color).response == st.response
  {
    NoteCutsIsNoted(lim, st, [name, description]);
  }

  lemma DatabaseKeepsResponse(lim: Limits, st: State, c: Call)
    requires c.DatabaseCall?
    ensures ApplyDatabase(lim, st, c).response == st.response
  {
    var (ok, st1) := Reserve(lim, st, Database, lim.maxDBQueries, |st.databaseQueries|, Estimate(c));
    var q, texts := QueryOf(lim, c), [c.query, c.connection, ModelOf(c), FileOf(c)];
    var noted := NoteCuts(lim, st1, texts);
    NoteCutsIsNoted(lim, st1, texts);
    AppendKeepsResponse(lim, noted.(databaseQueries := noted.databaseQueries + [q]),
                        "db", q.query, c.now - q.duration, c.now, ColorForSlow(c.slow));
  }

  lemma CacheKeepsResponse(lim: Limits, st: State, c: Call)
    requires c.CacheCall?
    ensures ApplyCache(lim, st, c).response == st.response
  {
    var (ok, st1) := Reserve(lim, st, Cache, lim.maxCacheQueries, |st.cacheQueries|, Estimate(c));
    var q := CacheOf(lim, c);
    var noted := NoteCuts(lim, st1, [c.kind, c.key]);
    NoteCutsIsNoted(lim, st1, [c.kind, c.key]);
    AppendKeepsResponse(lim, noted.(cacheQueries := noted.cacheQueries + [q]),
                        "cache", q.kind + ": " + q.key, c.now - q.duration, c.now, "purple");
  }

  lemma LogKeepsResponse(lim: Limits, st: State, c: Call)
    requires c.LogCall?
    ensures ApplyLog(lim, st, c).response == st.response
  {
    var (ok, st1) := Reserve(lim, st, Logs, lim.maxLogs, |st.logEntries|, Estimate(c));
    LogNotes(lim, st1, c);
  }

  lemma ResponseKept(req: Request, lim: Limits, st: State, c: Call)
    ensures Apply(req, lim, st, c).response
         == if c.ResponseCall? then Response(c.status, c.now, c.elapsed, c.memory) else st.response
  {
    match c
    case DatabaseCall(_, _, _, _, _, _, _, _, _, _, _) => DatabaseKeepsResponse(lim, st, c);
    case CacheCall(_, _, _, _) => CacheKeepsResponse(lim, st, c);
    case LogCall(_, _, _, _, _, _) => LogKeepsResponse(lim, st, c);
    case TimelineCall(_, _, _, _, _) =>
      var (ok, st1) := Reserve(lim, st, Timeline, lim.maxTimelineEvent, |st.timelineEvents|, Estimate(c));
      AppendKeepsResponse(lim, st1, c.name, c.description, c.start, c.end, c.color);
    case ResponseCall(status, elapsed, now, memory) =>
      AppendKeepsResponse(lim, st.(response := Response(status, now, elapsed, memory)),
                          "request", req.verb + " " + req.uri, req.startTime, now, "green");
    case _ => NoteCutsIsNoted(lim, st, SetterTexts(c));
  }

  lemma NamesStep(req: Request, lim: Limits, st: State, c: Call)
    ensures Apply(req, lim, st, c).names == SetNames(lim, st.names, c)
  {
    ApplyStep(req, lim, st, c);
  }

  lemma LastSnoc(calls: seq<Call>, c: Call, kind: Call -> bool)
    ensures LastOf(calls + [c], kind) == if kind(c) then Some(c) else LastOf(calls, kind)
  {
    assert (calls + [c])[..|calls|] == calls;
  }

  lemma DataSnoc(lim: Limits, names: Names, calls: seq<Call>, c: Call)
    requires DataShown(names.userData, calls)
    ensures DataShown(SetNames(lim, names, c).userData, calls + [c])
  {
    assert (calls + [c])[..|calls|] == calls;
  }

  /** One more call, on the names. */
  lemma NamesSnoc(lim: Limits, names: Names, calls: seq<Call>, c: Call)
    requires NamesShown(lim, names, calls)
    ensures NamesShown(lim, SetNames(lim, names, c), calls + [c])
  {
    LastSnoc(calls, c, IsUrl);
    LastSnoc(calls, c, IsController);
    LastSnoc(calls, c, IsTrace);
    LastSnoc(calls, c, IsHeaders);
  }

  /** A snapshot's names, user data and response are those that were set last, whatever else was called. */
  lemma {:induction false} NamesAreLastSet(req: Request, lim: Limits, calls: seq<Call>)
    ensures var shown := Snapshot(req, Run(req, lim, calls));
            && NamesShown(lim, shown.names, calls)
            && DataShown(shown.names.userData, calls)
            && ResponseShown(shown.response, calls)
  {
    if calls != [] {
      var before, c := calls[..|calls| - 1], calls[|calls| - 1];
      assert calls == before + [c];
      NamesAreLastSet(req, lim, before);
      NamesStep(req, lim, Run(req, lim, before), c);
      NamesSnoc(lim, Run(req, lim, before).names, before, c);
      DataSnoc(lim, Run(req, lim, before).names, before, c);
      ResponseKept(req, lim, Run(req, lim, before), c);
      LastSnoc(before, c, IsResponse);
    }
  }
}
